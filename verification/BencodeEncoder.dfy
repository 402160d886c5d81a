// The recursive in-place encoder of torrent.c and its exact sizing pass.
module BencodeEncoder {
  import opened Bytes
  import opened ArenaAllocator
  import opened Bencode
  import opened BencodeParser
  import Decimal

  // How deep the encoder recurses below a value. An empty container recurses no
  // further than a scalar does, so this can be one less than the nesting the
  // parser counts.
  function Height(v: Value): nat
    decreases v, 1
  {
    match v
    case Num(_) => 0
    case Str(_) => 0
    case List(items) => if items == [] then 0 else 1 + HeightAll(items)
    case Dict(items) => if items == [] then 0 else 1 + HeightAll(items)
  }

  function HeightAll(vs: seq<Value>): (h: nat)
    ensures forall x | x in vs :: Height(x) <= h
    decreases vs, 0
  {
    if vs == [] then 0
    else
      var first, others := Height(vs[0]), HeightAll(vs[1..]);
      assert vs == [vs[0]] + vs[1..];
      if first > others then first else others
  }

  // What the encoder's types and asserts ask for: numbers an `isize` holds and
  // a size that does not overflow. Keys may be anything, in any order.
  ghost predicate Encodable(v: Value) {
    match v
    case Num(n) => ISIZE_MIN <= n <= ISIZE_MAX
    case Str(s) => |s| < U64_LIMIT
    case List(items) => forall x | x in items :: Encodable(x)
    case Dict(items) => forall x | x in items :: Encodable(x)
  }

  lemma {:induction false} EncodeAllSplit(vs: seq<Value>, i: nat)
    requires i < |vs|
    ensures EncodeAll(vs) == EncodeAll(vs[..i]) + Encode(vs[i]) + EncodeAll(vs[i + 1..])
    ensures EncodeAll(vs[..i + 1]) == EncodeAll(vs[..i]) + Encode(vs[i])
  {
    hide Encode, EncodeAll;
    assert vs[..i + 1] == vs[..i] + [vs[i]];
    EncodeAllAppend(vs[..i], vs[i]);
    EncodeAllConcat(vs[..i + 1], vs[i + 1..]);
    assert vs == vs[..i + 1] + vs[i + 1..];
  }

  lemma {:induction false} EncodeAllConcat(vs: seq<Value>, ws: seq<Value>)
    ensures EncodeAll(vs + ws) == EncodeAll(vs) + EncodeAll(ws)
  {
    if vs == [] {
      assert vs + ws == ws;
    } else {
      assert (vs + ws)[1..] == vs[1..] + ws;
      EncodeAllConcat(vs[1..], ws);
      Associate(Encode(vs[0]), EncodeAll(vs[1..]), EncodeAll(ws));
    }
  }

  method BencodeEncodeExactSize(v: Value, depth: nat) returns (res: u64)
    requires Encodable(v) && |Encode(v)| < U64_LIMIT
    requires depth + Height(v) <= MAX_DEPTH
    ensures res == |Encode(v)|
    decreases v
  {
    hide EncodeAll;
    match v
    case Num(n) =>
      var digits := Decimal.UsizeDigitsBase10(Decimal.IsizeMagnitude(n));
      res := 2 + (if n < 0 then 1 else 0) + digits;
    case Str(s) =>
      var digits := Decimal.UsizeDigitsBase10(|s|);
      res := digits + 1 + |s|;
    case _ =>
      var items := v.items;
      res := 2;
      EncodeAllOfNone(items);
      for i := 0 to |items|
        invariant res == 2 + |EncodeAll(items[..i])|
      {
        EncodeAllSplit(items, i);
        assert items[i] in items;
        var itemSize := BencodeEncodeExactSize(items[i], depth + 1);
        res := res + itemSize;
      }
      assert items[..|items|] == items;
  }

  method BencodeEncodeRec(v: Value, dst: array<u8>, at: nat, depth: nat) returns (written: nat)
    requires Encodable(v) && depth + Height(v) <= MAX_DEPTH
    requires at + |Encode(v)| <= dst.Length
    modifies dst
    ensures written == |Encode(v)|
    ensures Wrote(dst[..], old(dst[..]), at, Encode(v))
    decreases v, 1
  {
    match v
    case Num(n) => written := EncodeNum(n, dst, at);
    case Str(s) => written := EncodeStr(s, dst, at);
    case _ => written := EncodeContainer(v, dst, at, depth);
  }

  // One byte, and the cursor past it.
  method PutByte(b: u8, dst: array<u8>, at: nat, ghost was: Bytes, ghost start: nat, ghost sofar: Bytes)
    requires at < dst.Length && at == start + |sofar|
    requires Wrote(dst[..], was, start, sofar)
    modifies dst
    ensures Wrote(dst[..], was, start, sofar + [b])
  {
    ghost var before := dst[..];
    dst[at] := b;
    assert dst[..] == before[at := b];
  }

  method EncodeNum(n: int, dst: array<u8>, at: nat) returns (written: nat)
    requires ISIZE_MIN <= n <= ISIZE_MAX && at + |Encode(Num(n))| <= dst.Length
    modifies dst
    ensures written == |Encode(Num(n))|
    ensures Wrote(dst[..], old(dst[..]), at, Encode(Num(n)))
  {
    ghost var was := dst[..];
    PutByte(TAG_NUM, dst, at, was, at, []);
    ghost var tagged := dst[..];
    var digits := Decimal.EncodeIsizeBase10(n, dst, at + 1);
    WroteBoth(was, tagged, dst[..], at, [TAG_NUM], Decimal.SignedDigits(n));
    PutByte(TAG_END, dst, at + 1 + digits, was, at, [TAG_NUM] + Decimal.SignedDigits(n));
    written := digits + 2;
  }

  method EncodeStr(s: Bytes, dst: array<u8>, at: nat) returns (written: nat)
    requires |s| < U64_LIMIT && at + |Encode(Str(s))| <= dst.Length
    modifies dst
    ensures written == |Encode(Str(s))|
    ensures Wrote(dst[..], old(dst[..]), at, Encode(Str(s)))
  {
    ghost var was := dst[..];
    var digits := Decimal.EncodeUsizeBase10(|s|, dst, at);
    PutByte(COLON, dst, at + digits, was, at, Decimal.Digits(|s|));
    ghost var headed := dst[..];
    var body := at + digits + 1;
    forall i | 0 <= i < |s| {
      dst[body + i] := s[i];
    }
    assert Wrote(dst[..], headed, body, s);
    WroteBoth(was, headed, dst[..], at, Decimal.Digits(|s|) + [COLON], s);
    written := digits + 1 + |s|;
  }

  method EncodeContainer(v: Value, dst: array<u8>, at: nat, depth: nat) returns (written: nat)
    requires v.List? || v.Dict?
    requires Encodable(v) && depth + Height(v) <= MAX_DEPTH
    requires at + |Encode(v)| <= dst.Length
    modifies dst
    ensures written == |Encode(v)|
    ensures Wrote(dst[..], old(dst[..]), at, Encode(v))
    decreases v, 0
  {
    hide EncodeAll;
    ghost var was := dst[..];
    var items := v.items;
    ghost var tag := [if v.List? then TAG_LIST else TAG_DICT];
    PutByte(if v.List? then TAG_LIST else TAG_DICT, dst, at, was, at, []);
    written := 1;
    ghost var body: Bytes := [];
    EncodeAllOfNone(items);
    for i := 0 to |items|
      invariant body == EncodeAll(items[..i]) && written == 1 + |body|
      invariant Wrote(dst[..], was, at, tag + body)
    {
      var item := items[i];
      EncodeAllSplit(items, i);
      assert item in items;
      ghost var before := dst[..];
      var itemWritten := BencodeEncodeRec(item, dst, at + written, depth + 1);
      WroteMore(was, before, dst[..], at, tag, body, Encode(item));
      body := body + Encode(item);
      written := written + itemWritten;
    }
    assert items[..|items|] == items;
    PutByte(TAG_END, dst, at + written, was, at, tag + body);
    written := written + 1;
    assert Encode(v) == tag + body + [TAG_END];
  }

  lemma {:induction false} WroteMore(a: Bytes, b: Bytes, c: Bytes, at: nat, tag: Bytes, body: Bytes, more: Bytes)
    requires Wrote(b, a, at, tag + body) && Wrote(c, b, at + |tag + body|, more)
    ensures Wrote(c, a, at, tag + (body + more))
  {
    hide Wrote;
    WroteBoth(a, b, c, at, tag + body, more);
    Associate(tag, body, more);
  }

  lemma {:induction false} EncodeAllOfNone(items: seq<Value>)
    ensures EncodeAll(items[..0]) == []
  {
  }

  // Size, allocate exactly that, fill exactly that.
  method BencodeEncode(v: Value, arena: Arena) returns (ok: bool, dst: array<u8>, arena': Arena)
    requires Encodable(v) && Height(v) <= MAX_DEPTH && |Encode(v)| < U64_LIMIT
    ensures ok <==> AllocBytes(arena, |Encode(v)|).Some?
    ensures ok ==> dst[..] == Encode(v) && Some(arena') == AllocBytes(arena, |Encode(v)|)
    ensures !ok ==> arena' == arena
  {
    var size := BencodeEncodeExactSize(v, 0);
    dst := new u8[size];
    var block := AllocBytes(arena, size);
    if block == None {
      return false, dst, arena;
    }
    var written := BencodeEncodeRec(v, dst, 0, 0);
    assert written == size;
    WroteAll(dst[..], Encode(v));
    return true, dst, block.value;
  }

  lemma {:induction false} WroteAll(now: Bytes, s: Bytes)
    requires |now| == |s| && exists was :: Wrote(now, was, 0, s)
    ensures now == s
  {
  }

  lemma {:induction false} CanonicalEncodable(v: Value)
    requires Canonical(v)
    ensures Encodable(v)
    decreases v
  {
    if v.Num? || v.Str? {
    } else {
      forall x | x in v.items ensures Encodable(x) {
        CanonicalEncodable(x);
      }
    }
  }

  // The encoder recurses as deep as the parser nests, or one level less.
  lemma {:induction false} HeightOfNesting(v: Value)
    ensures Height(v) <= Nesting(v) <= Height(v) + 1
    decreases v, 1
  {
    if (v.List? || v.Dict?) && v.items != [] {
      HeightOfNestingAll(v.items);
    }
  }

  lemma {:induction false} HeightOfNestingAll(vs: seq<Value>)
    ensures HeightAll(vs) <= NestingAll(vs) <= HeightAll(vs) + 1
    decreases vs, 0
  {
    if vs == [] {
    } else {
      HeightOfNesting(vs[0]);
      HeightOfNestingAll(vs[1..]);
    }
  }

  // Encode, then parse: a canonical value comes back, with exactly the suffix
  // behind it, when it is nested at most 128 deep and there is the memory for
  // it; and otherwise nothing comes back at all.
  lemma {:induction false} EncodeThenParse(v: Value, suffix: Bytes, arena: Arena, scratch: Arena)
    requires Canonical(v)
    ensures var r := ParseSpec(Encode(v) + suffix, arena, scratch);
            && (r.Ok? <==> && Nesting(v) <= 128
                           && Alloc(scratch, |Encode(v) + suffix| / 2 + 1) != None
                           && Take(arena, Cells(v)) != None)
            && (r.Ok? ==> r.value == v && r.rest == suffix)
  {
    hide Encode, Canonical, WellKeyed, Nesting, ParseSpec, Take, Cells;
    var input := Encode(v) + suffix;
    var r := ParseSpec(input, arena, scratch);
    CanonicalExact(v);
    if r.Ok? {
      CanonicalExact(r.value);
      ParseExact(input, arena, scratch, r.value, r.rest, r.arena);
      PrefixFree(v, r.value, suffix, r.rest);
    }
    if Take(arena, Cells(v)) != None {
      ParseExact(input, arena, scratch, v, suffix, Take(arena, Cells(v)).value);
    }
  }

  function Tower(n: nat): Value {
    if n == 0 then List([]) else List([Tower(n - 1)])
  }

  lemma {:induction false} ListOfOne(v: Value)
    ensures Nesting(List([v])) == Nesting(v) + 1
    ensures Height(List([v])) == Height(v) + 1
    ensures Canonical(v) ==> Canonical(List([v]))
  {
    assert [v][1..] == [];
    assert NestingAll([v]) == Nesting(v) && HeightAll([v]) == Height(v);
  }

  lemma {:induction false} ListOfNone()
    ensures Nesting(List([])) == 1 && Height(List([])) == 0 && Canonical(List([]))
  {
  }

  lemma {:induction false} TowerShape(n: nat)
    ensures Canonical(Tower(n)) && Nesting(Tower(n)) == n + 1 && Height(Tower(n)) == n
  {
    hide Nesting, Height, Canonical;
    if n > 0 {
      TowerShape(n - 1);
      ListOfOne(Tower(n - 1));
    } else {
      ListOfNone();
    }
  }

  // The two depth bounds are not the same bound: a list inside 128 lists meets
  // what the encoder asks for, and what comes out is refused.
  lemma {:induction false} EncoderOutrunsParser(arena: Arena, scratch: Arena)
    ensures var v := Tower(128);
            && Encodable(v) && Height(v) <= 128
            && ParseSpec(Encode(v), arena, scratch).Err?
  {
    hide Encode, ParseSpec, Canonical, Encodable;
    var v := Tower(128);
    TowerShape(128);
    CanonicalEncodable(v);
    EncodeThenParse(v, [], arena, scratch);
    assert Encode(v) + [] == Encode(v);
  }

  // No encoding is a proper prefix of another, at any depth.
  lemma {:induction false} PrefixFree(v: Value, w: Value, r: Bytes, t: Bytes)
    requires Canonical(v) && Canonical(w)
    requires Encode(v) + r == Encode(w) + t
    ensures v == w && r == t
    decreases v, 1
  {
    var s := Encode(v) + r;
    assert s[0] == Encode(v)[0] == Encode(w)[0];
    match v
    case Num(n) =>
      ParseNumOfEncoding(n, r);
      ParseNumOfEncoding(w.n, t);
    case Str(b) =>
      ParseStrOfEncoding(b, r);
      ParseStrOfEncoding(w.s, t);
    case _ =>
      var vBody, wBody := EncodeAll(v.items) + ([TAG_END] + r), EncodeAll(w.items) + ([TAG_END] + t);
      assert s == [s[0]] + vBody && s == [s[0]] + wBody;
      assert vBody == s[1..] == wBody;
      PrefixFreeAll(v.items, w.items, r, t);
  }

  lemma {:induction false} PrefixFreeAll(vs: seq<Value>, ws: seq<Value>, r: Bytes, t: Bytes)
    requires forall x | x in vs :: Canonical(x)
    requires forall x | x in ws :: Canonical(x)
    requires EncodeAll(vs) + ([TAG_END] + r) == EncodeAll(ws) + ([TAG_END] + t)
    ensures vs == ws && r == t
    decreases vs, 0
  {
    var vTail, wTail := [TAG_END] + r, [TAG_END] + t;
    if vs == [] || ws == [] {
      FirstByte(vs, vTail);
      FirstByte(ws, wTail);
      assert vTail[1..] == r && wTail[1..] == t;
    } else {
      var vRest, wRest := EncodeAll(vs[1..]) + vTail, EncodeAll(ws[1..]) + wTail;
      Associate(Encode(vs[0]), EncodeAll(vs[1..]), vTail);
      Associate(Encode(ws[0]), EncodeAll(ws[1..]), wTail);
      PrefixFree(vs[0], ws[0], vRest, wRest);
      PrefixFreeAll(vs[1..], ws[1..], r, t);
      assert vs == [vs[0]] + vs[1..] && ws == [ws[0]] + ws[1..];
    }
  }

  // A sequence of encodings is over exactly where an `e` stands.
  lemma {:induction false} FirstByte(vs: seq<Value>, tail: Bytes)
    requires tail != [] && tail[0] == TAG_END
    ensures (EncodeAll(vs) + tail)[0] == TAG_END <==> vs == []
    ensures vs == [] ==> EncodeAll(vs) + tail == tail
  {
    if vs != [] {
      assert (EncodeAll(vs) + tail)[0] == Encode(vs[0])[0];
    }
  }
}
