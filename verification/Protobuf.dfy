// Protobuf records on the wire (lib.c).
module Protobuf {
  import opened Bytes

  // ---------- Varints ----------

  const GROUPS_MAX: nat := 10

  // Seven bits a byte, low group first, the high bit set when more follow.
  function Base128(n: nat): (s: Bytes)
    ensures |s| >= 1
  {
    if n < 128 then [n] else [128 + n % 128] + Base128(n / 128)
  }

  // What the groups at the front of `s` spell, however many, and how many they
  // are.
  function Groups(s: Bytes): (r: Option<(nat, nat)>)
    ensures r.Some? ==> 1 <= r.value.1 <= |s|
  {
    if s == [] then None
    else if s[0] < 128 then Some((s[0] as nat, 1))
    else
      var rest := Groups(s[1..]);
      if rest.None? then None
      else Some((s[0] as nat - 128 + 128 * rest.value.0, rest.value.1 + 1))
  }

  lemma {:induction false} GroupsOfBase128(n: nat, rest: Bytes)
    ensures Groups(Base128(n) + rest) == Some((n, |Base128(n)|))
  {
    var s := Base128(n) + rest;
    if n < 128 {
    } else {
      GroupsOfBase128(n / 128, rest);
      assert s[1..] == Base128(n / 128) + rest;
    }
  }

  function Pow128(k: nat): (p: nat)
    ensures p >= 1
  {
    if k == 0 then 1 else 128 * Pow128(k - 1)
  }

  lemma {:induction false} Base128Length(n: nat, k: nat)
    requires k > 0 && n < Pow128(k)
    ensures |Base128(n)| <= k
  {
    assert Pow128(1) == 128 * Pow128(0);
    if n < 128 {
    } else {
      DivideBelow(n, Pow128(k - 1));
      Base128Length(n / 128, k - 1);
    }
  }

  lemma {:induction false} DivideBelow(n: nat, p: nat)
    requires n < 128 * p
    ensures n / 128 < p
  {
  }

  lemma {:induction false} Pow128Values()
    ensures Pow128(9) == 0x8000_0000_0000_0000
    ensures Pow128(10) > U64_LIMIT
  {
    assert Pow128(3) == 0x20_0000;
    assert Pow128(6) == 0x400_0000_0000;
  }

  // A 64 bit number in at most ten groups.
  function VarintOf(s: Bytes): (r: Option<(u64, nat)>)
    ensures r.Some? ==> 1 <= r.value.1 <= |s| && r.value.1 <= GROUPS_MAX
  {
    var g := Groups(s);
    if g.Some? && g.value.0 < U64_LIMIT && g.value.1 <= GROUPS_MAX then Some((g.value.0, g.value.1)) else None
  }

  lemma {:induction false} VarintRoundTrip(n: u64, rest: Bytes)
    ensures VarintOf(Base128(n) + rest) == Some((n, |Base128(n)|))
  {
    hide Base128, Groups, Pow128;
    GroupsOfBase128(n, rest);
    Pow128Values();
    Base128Length(n, 10);
  }

  predicate AllContinue(s: Bytes, i: nat) {
    i <= |s| && forall j :: 0 <= j < i ==> s[j] >= 128
  }

  // The first `i` groups together.
  function Low(s: Bytes, i: nat): (low: nat)
    requires AllContinue(s, i)
    ensures low < Pow128(i)
  {
    if i == 0 then 0
    else
      assert s[i - 1] >= 128;
      Scaled(Low(s, i - 1), Pow128(i - 1), s[i - 1] - 128);
      Low(s, i - 1) + Pow128(i - 1) * (s[i - 1] as nat - 128)
  }

  lemma {:induction false} Scaled(low: nat, p: nat, g: nat)
    requires low < p && g < 128
    ensures 0 <= low + p * g < 128 * p
  {
    assert p * g <= p * 127;
  }

  // What a reader that has `i` groups behind it will come to.
  lemma {:induction false} GroupsFrom(s: Bytes, i: nat)
    requires AllContinue(s, i)
    ensures var r := Groups(s[i..]);
            Groups(s) == if r.None? then None else Some((Low(s, i) + Pow128(i) * r.value.0, i + r.value.1))
  {
    if i == 0 {
      assert s[0..] == s;
    } else {
      GroupsFrom(s, i - 1);
      assert s[i - 1..][0] == s[i - 1] && s[i - 1..][1..] == s[i..];
      var r := Groups(s[i..]);
      if r.Some? {
        Regroup(Pow128(i - 1), s[i - 1] as nat - 128, r.value.0);
      }
    }
  }

  lemma {:induction false} Regroup(p: nat, g: nat, v: nat)
    ensures p * (g + 128 * v) == p * g + 128 * p * v
  {
  }

  lemma {:induction false} LastGroup(low: nat, i: nat, byte: nat)
    requires low < Pow128(i) && i < GROUPS_MAX && byte < 128
    ensures low + Pow128(i) * byte < U64_LIMIT <==> i < 9 || byte <= 1
  {
    Pow128Values();
    if i < 9 {
      Pow128Grows(i + 1, 9);
    }
  }

  lemma {:induction false} Pow128Grows(i: nat, k: nat)
    requires i <= k
    ensures Pow128(i) <= Pow128(k)
  {
    if i == k {
    } else {
      Pow128Grows(i, k - 1);
    }
  }

  method VarintRead(src: Bytes) returns (r: Option<(u64, nat)>)
    ensures r == VarintOf(src)
  {
    hide Groups, Pow128, Low;
    var res: nat, scale: nat := 0, 1;
    var most := if |src| < GROUPS_MAX then |src| else GROUPS_MAX;
    StartLow(src);
    for i := 0 to most
      invariant AllContinue(src, i) && res == Low(src, i) && scale == Pow128(i)
    {
      var byte := src[i];
      var group := byte as nat % 128;
      GroupsFrom(src, i);
      OneGroup(src[i..]);
      LastGroup(res, i, group);
      if GROUPS_MAX - 1 == i && group > 1 {
        return None;
      }
      if byte < 128 {
        return Some((res + scale * group, i + 1));
      }
      MoreLow(src, i, scale, group);
      res, scale := res + scale * group, 128 * scale;
    }
    GroupsFrom(src, most);
    NoGroup(src[most..]);
    return None;
  }

  lemma {:induction false} StartLow(s: Bytes)
    ensures AllContinue(s, 0) && Low(s, 0) == 0 && Pow128(0) == 1
  {
  }

  lemma {:induction false} MoreLow(s: Bytes, i: nat, scale: nat, group: nat)
    requires AllContinue(s, i) && i < |s| && s[i] >= 128 && scale == Pow128(i) && group == s[i] as nat % 128
    ensures AllContinue(s, i + 1) && Low(s, i + 1) == Low(s, i) + scale * group && Pow128(i + 1) == 128 * scale
  {
    assert group == s[i] as nat - 128;
  }

  lemma {:induction false} OneGroup(s: Bytes)
    requires s != []
    ensures s[0] < 128 ==> Groups(s) == Some((s[0] as nat, 1))
    ensures s[0] >= 128 ==> Groups(s).Some? ==>
              Groups(s).value.1 >= 2 && exists v: nat :: Groups(s).value.0 == s[0] as nat - 128 + 128 * v
  {
  }

  lemma {:induction false} NoGroup(s: Bytes)
    ensures s == [] ==> Groups(s) == None
  {
  }

  lemma {:induction false} VarintStable(s: Bytes, more: Bytes)
    requires VarintOf(s).Some?
    ensures VarintOf(s + more) == VarintOf(s) && VarintOf(s[..VarintOf(s).value.1]) == VarintOf(s)
  {
    hide Groups;
    GroupsStable(s, more);
  }

  lemma {:induction false} GroupsStable(s: Bytes, more: Bytes)
    requires Groups(s).Some?
    ensures Groups(s + more) == Groups(s) && Groups(s[..Groups(s).value.1]) == Groups(s)
  {
    var k := Groups(s).value.1;
    if s[0] < 128 {
    } else {
      GroupsStable(s[1..], more);
      assert (s + more)[1..] == s[1..] + more;
      assert s[..k][1..] == s[1..][..k - 1];
    }
  }

  // ---------- Records ----------

  datatype Wire = Varint | I64 | Len | I32

  // For a varint, its own bytes; for a LEN, the bytes behind the length.
  datatype Tlv = Tlv(field: nat, wire: Wire, value: Bytes)

  datatype Record = Bad(error: ErrorKind) | Good(tlv: Tlv, size: nat)

  const FIELD_LIMIT: nat := 0x2000_0000

  function WireNumber(w: Wire): nat {
    match w
    case Varint => 0
    case I64 => 1
    case Len => 2
    case I32 => 5
  }

  // One record off the front of `src`: a tag, then a value as long as its wire
  // type says.
  function RecordOf(src: Bytes): (r: Record)
    ensures r.Good? ==> |r.tlv.value| < r.size <= |src|
  {
    var tag := VarintOf(src);
    if tag.None? then Bad(InvalidData)
    else if tag.value.0 >= U32_LIMIT || tag.value.0 / 8 == 0 then Bad(InvalidData)
    else ValueOf(tag.value.0 / 8, tag.value.0 % 8, src[tag.value.1..], tag.value.1)
  }

  function ValueOf(field: nat, wire: nat, s: Bytes, at: nat): (r: Record)
    ensures r.Good? ==> at + |r.tlv.value| <= r.size <= at + |s|
  {
    if wire == 0 then
      var v := VarintOf(s);
      if v.None? then Bad(InvalidData) else Good(Tlv(field, Varint, s[..v.value.1]), at + v.value.1)
    else if wire == 1 then
      if |s| < 8 then Bad(InvalidData) else Good(Tlv(field, I64, s[..8]), at + 8)
    else if wire == 2 then
      var length := VarintOf(s);
      if length.None? then Bad(InvalidData)
      else
        var rest := s[length.value.1..];
        if length.value.0 > |rest| then Bad(InvalidData)
        else Good(Tlv(field, Len, rest[..length.value.0]), at + length.value.1 + length.value.0)
    else if wire == 3 || wire == 4 then Bad(Unsupported)
    else if wire == 5 then
      if |s| < 4 then Bad(InvalidData) else Good(Tlv(field, I32, s[..4]), at + 4)
    else Bad(InvalidData)
  }

  method TlvRead(src: Bytes) returns (r: Record)
    ensures r == RecordOf(src)
  {
    hide VarintOf;
    var tag := VarintRead(src);
    if tag.None? || tag.value.0 >= U32_LIMIT {
      return Bad(InvalidData);
    }
    var remaining := src[tag.value.1..];
    var field, wire := tag.value.0 / 8, tag.value.0 % 8;
    if field == 0 {
      return Bad(InvalidData);
    }
    var value: Bytes, kind := [], Varint;
    if wire == 0 {
      var v := VarintRead(remaining);
      if v.None? {
        return Bad(InvalidData);
      }
      value := remaining[..v.value.1];
    } else if wire == 1 {
      if |remaining| < 8 {
        return Bad(InvalidData);
      }
      kind, value := I64, remaining[..8];
    } else if wire == 2 {
      var length := VarintRead(remaining);
      if length.None? {
        return Bad(InvalidData);
      }
      remaining := remaining[length.value.1..];
      if length.value.0 > |remaining| {
        return Bad(InvalidData);
      }
      kind, value := Len, remaining[..length.value.0];
    } else if wire == 3 || wire == 4 {
      return Bad(Unsupported);
    } else if wire == 5 {
      if |remaining| < 4 {
        return Bad(InvalidData);
      }
      kind, value := I32, remaining[..4];
    } else {
      return Bad(InvalidData);
    }
    remaining := remaining[|value|..];
    return Good(Tlv(field, kind, value), |src| - |remaining|);
  }

  predicate IsRecord(t: Tlv) {
    && 0 < t.field < FIELD_LIMIT
    && match t.wire
       case Varint => VarintOf(t.value).Some? && VarintOf(t.value).value.1 == |t.value|
       case I64 => |t.value| == 8
       case Len => |t.value| < U64_LIMIT
       case I32 => |t.value| == 4
  }

  function Encode(t: Tlv): (s: Bytes)
    ensures |s| > |t.value|
  {
    Base128(t.field * 8 + WireNumber(t.wire)) + (if t.wire.Len? then Base128(|t.value|) + t.value else t.value)
  }

  // What is refused for its tag, whatever is behind it: field zero, the groups that
  // are no longer in use, and the wire types there are none of.
  lemma {:induction false} TagRefused(field: nat, wire: nat, rest: Bytes)
    requires field < FIELD_LIMIT && wire < 8
    ensures var r := RecordOf(Base128(field * 8 + wire) + rest);
            && (field == 0 ==> r == Bad(InvalidData))
            && (field > 0 && (wire == 3 || wire == 4) ==> r == Bad(Unsupported))
            && (field > 0 && (wire == 6 || wire == 7) ==> r == Bad(InvalidData))
  {
    hide Base128, VarintOf;
    VarintRoundTrip(field * 8 + wire, rest);
  }

  // A record of each wire type, byte by byte.
  lemma {:induction false} RecordsSpelled()
    ensures Encode(Tlv(6, Varint, Base128(300))) == [0x30, 0xAC, 0x02]
    ensures Encode(Tlv(7, I64, [1, 2, 3, 4, 5, 6, 7, 8])) == [0x39, 1, 2, 3, 4, 5, 6, 7, 8]
    ensures Encode(Tlv(5, Len, [97, 98])) == [0x2A, 2, 97, 98]
    ensures Encode(Tlv(16, I32, [1, 0, 0, 0])) == [0x85, 0x01, 1, 0, 0, 0]
  {
    assert Base128(300) == [0xAC] + Base128(2);
    assert Base128(16 * 8 + 5) == [0x85] + Base128(1);
  }

  // A record reads back whatever is behind it.
  lemma {:induction false} RecordRoundTrip(t: Tlv, rest: Bytes)
    requires IsRecord(t)
    ensures RecordOf(Encode(t) + rest) == Good(t, |Encode(t)|)
  {
    hide VarintOf, Base128;
    var number := t.field * 8 + WireNumber(t.wire);
    var tag, tail := Base128(number), Encode(t)[|Base128(number)|..];
    assert number / 8 == t.field && number % 8 == WireNumber(t.wire);
    assert Encode(t) == tag + tail;
    assert Encode(t) + rest == tag + (tail + rest);
    VarintRoundTrip(number, tail + rest);
    assert (Encode(t) + rest)[|tag|..] == tail + rest;
    ValueRoundTrip(t, tail, rest, |tag|);
  }

  lemma {:induction false} ValueRoundTrip(t: Tlv, tail: Bytes, rest: Bytes, at: nat)
    requires IsRecord(t) && tail == if t.wire.Len? then Base128(|t.value|) + t.value else t.value
    ensures ValueOf(t.field, WireNumber(t.wire), tail + rest, at) == Good(t, at + |tail|)
  {
    hide VarintOf, Base128;
    if t.wire.Varint? {
      VarintStable(t.value, rest);
      assert (t.value + rest)[..|t.value|] == t.value;
    } else if t.wire.Len? {
      var length := Base128(|t.value|);
      assert tail + rest == length + (t.value + rest);
      VarintRoundTrip(|t.value|, t.value + rest);
      assert (tail + rest)[|length|..] == t.value + rest;
      assert (t.value + rest)[..|t.value|] == t.value;
    } else {
      assert (t.value + rest)[..|t.value|] == t.value;
    }
  }

  // What is taken is a record, its value the last bytes of it, and more bytes
  // behind change nothing.
  lemma {:induction false} RecordIsFramed(src: Bytes, more: Bytes)
    requires RecordOf(src).Good?
    ensures var r := RecordOf(src);
            && src[r.size - |r.tlv.value|..r.size] == r.tlv.value
            && 0 < r.tlv.field < FIELD_LIMIT
            && (r.tlv.wire.Varint? ==> VarintOf(r.tlv.value).Some? && VarintOf(r.tlv.value).value.1 == |r.tlv.value|)
            && (r.tlv.wire.I64? ==> |r.tlv.value| == 8) && (r.tlv.wire.I32? ==> |r.tlv.value| == 4)
    ensures RecordOf(src + more) == RecordOf(src)
  {
    hide VarintOf, ValueOf;
    var tag := VarintOf(src).value;
    VarintStable(src, more);
    VarintSize(src);
    var s := src[tag.1..];
    assert (src + more)[tag.1..] == s + more;
    ValueIsFramed(tag.0 / 8, tag.0 % 8, s, tag.1, more);
    var r := RecordOf(src);
    assert src[r.size - |r.tlv.value|..r.size] == s[r.size - tag.1 - |r.tlv.value|..r.size - tag.1];
  }

  lemma {:induction false} VarintSize(s: Bytes)
    ensures VarintOf(s).Some? ==> 1 <= VarintOf(s).value.1 <= |s|
  {
    hide Groups;
  }

  // Its value is the last bytes of it, as long as its wire type says, and more
  // bytes behind change nothing.
  predicate Framed(r: Record, longer: Record, field: nat, s: Bytes, at: nat) {
    && r.Good? && longer == r && at + |r.tlv.value| <= r.size <= at + |s|
    && s[r.size - at - |r.tlv.value|..r.size - at] == r.tlv.value && r.tlv.field == field
    && (r.tlv.wire.Varint? ==> VarintOf(r.tlv.value).Some? && VarintOf(r.tlv.value).value.1 == |r.tlv.value|)
    && (r.tlv.wire.I64? ==> |r.tlv.value| == 8) && (r.tlv.wire.I32? ==> |r.tlv.value| == 4)
  }

  lemma {:induction false} ValueIsFramed(field: nat, wire: nat, s: Bytes, at: nat, more: Bytes)
    requires ValueOf(field, wire, s, at).Good?
    ensures Framed(ValueOf(field, wire, s, at), ValueOf(field, wire, s + more, at), field, s, at)
  {
    if wire == 0 {
      VarintIsFramed(field, s, at, more);
    } else if wire == 2 {
      LenIsFramed(field, s, at, more);
    } else {
      FixedIsFramed(field, wire, s, at, more);
    }
  }

  lemma {:induction false} FrontStable(s: Bytes, more: Bytes, n: nat)
    requires n <= |s|
    ensures (s + more)[..n] == s[..n] == s[0..n]
  {
  }

  lemma {:induction false} VarintIsFramed(field: nat, s: Bytes, at: nat, more: Bytes)
    requires ValueOf(field, 0, s, at).Good?
    ensures Framed(ValueOf(field, 0, s, at), ValueOf(field, 0, s + more, at), field, s, at)
  {
    hide VarintOf;
    VarintSize(s);
    VarintStable(s, more);
    FrontStable(s, more, VarintOf(s).value.1);
  }

  lemma {:induction false} FixedIsFramed(field: nat, wire: nat, s: Bytes, at: nat, more: Bytes)
    requires wire != 0 && wire != 2 && ValueOf(field, wire, s, at).Good?
    ensures Framed(ValueOf(field, wire, s, at), ValueOf(field, wire, s + more, at), field, s, at)
  {
    hide VarintOf;
    FrontStable(s, more, if wire == 1 then 8 else 4);
  }

  lemma {:induction false} LenIsFramed(field: nat, s: Bytes, at: nat, more: Bytes)
    requires ValueOf(field, 2, s, at).Good?
    ensures Framed(ValueOf(field, 2, s, at), ValueOf(field, 2, s + more, at), field, s, at)
  {
    hide VarintOf;
    VarintSize(s);
    VarintStable(s, more);
    var length := VarintOf(s).value;
    assert (s + more)[length.1..] == s[length.1..] + more;
    FrontStable(s[length.1..], more, length.0);
    assert s[length.1..length.1 + length.0] == s[length.1..][..length.0];
  }
}
