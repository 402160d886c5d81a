// Bencoded values: the format of BEP 3, section "bencoding", as torrent.c holds
// it in memory, and the one spelling each value has.
module Bencode {
  import opened Bytes
  import Decimal

  // A dict is kept as its list of keys and values, in turn.
  datatype Value =
    | Num(n: int)
    | Str(s: Bytes)
    | List(items: seq<Value>)
    | Dict(items: seq<Value>)

  const TAG_NUM: u8 := 105   // i
  const TAG_LIST: u8 := 108  // l
  const TAG_DICT: u8 := 100  // d
  const TAG_END: u8 := 101   // e
  const COLON: u8 := 58

  const MAX_DEPTH: nat := 128

  // Bytes compare as unsigned values and a prefix sorts first.
  predicate Less(a: Bytes, b: Bytes) {
    b != [] && (a == [] || a[0] < b[0] || (a[0] == b[0] && Less(a[1..], b[1..])))
  }

  lemma {:induction false} LessTotal(a: Bytes, b: Bytes)
    ensures !(Less(a, b) && Less(b, a))
    ensures Less(a, b) || Less(b, a) <==> a != b
  {
    if a == [] || b == [] || a[0] != b[0] {
    } else {
      LessTotal(a[1..], b[1..]);
      assert a == [a[0]] + a[1..] && b == [b[0]] + b[1..];
    }
  }

  lemma {:induction false} LessTransitive(a: Bytes, b: Bytes, c: Bytes)
    requires Less(a, b) && Less(b, c)
    ensures Less(a, c)
  {
    if a == [] || a[0] != b[0] || b[0] != c[0] {
    } else {
      LessTransitive(a[1..], b[1..], c[1..]);
    }
  }

  lemma {:induction false} LessPastPrefix(a: Bytes, b: Bytes, i: nat)
    requires i <= |a| && i <= |b| && a[..i] == b[..i]
    ensures Less(a, b) <==> Less(a[i..], b[i..])
  {
    if i > 0 {
      assert a[0] == a[..i][0] == b[..i][0] == b[0];
      assert a[1..][..i - 1] == a[..i][1..] == b[..i][1..] == b[1..][..i - 1];
      LessPastPrefix(a[1..], b[1..], i - 1);
      assert a[1..][i - 1..] == a[i..] && b[1..][i - 1..] == b[i..];
    } else {
      assert a[0..] == a && b[0..] == b;
    }
  }

  // They agree up to `i`, where `a` ends or has the smaller byte.
  predicate PartAt(a: Bytes, b: Bytes, i: nat) {
    i <= |a| && i < |b| && a[..i] == b[..i] && (i == |a| || a[i] < b[i])
  }

  ghost predicate Before(a: Bytes, b: Bytes) {
    exists i: nat :: PartAt(a, b, i)
  }

  lemma {:induction false} LessExact(a: Bytes, b: Bytes)
    ensures Less(a, b) <==> Before(a, b)
  {
    if Less(a, b) && a != [] && a[0] == b[0] {
      LessExact(a[1..], b[1..]);
      var i: nat :| PartAt(a[1..], b[1..], i);
      assert a[..i + 1] == [a[0]] + a[1..][..i] && b[..i + 1] == [b[0]] + b[1..][..i];
      assert PartAt(a, b, i + 1);
    } else if Less(a, b) {
      assert PartAt(a, b, 0);
    }
    if i: nat :| PartAt(a, b, i) {
      LessPastPrefix(a, b, i);
    }
  }

  method BytesCmp(a: Bytes, b: Bytes) returns (c: int)
    ensures c < 0 <==> Before(a, b)
    ensures c == 0 <==> a == b
    ensures c > 0 <==> Before(b, a)
  {
    var len := if |a| < |b| then |a| else |b|;
    LessTotal(a, b);
    LessExact(a, b);
    LessExact(b, a);
    for i := 0 to len
      invariant a[..i] == b[..i]
    {
      if a[i] != b[i] {
        LessPastPrefix(a, b, i);
        LessPastPrefix(b, a, i);
        return if a[i] < b[i] then -1 else 1;
      }
      assert a[..i + 1] == a[..i] + [a[i]] && b[..i + 1] == b[..i] + [b[i]];
    }
    LessPastPrefix(a, b, len);
    LessPastPrefix(b, a, len);
    if |a| == |b| {
      assert a == a[..len] && b == b[..len];
      return 0;
    }
    return if |a| < |b| then -1 else 1;
  }

  predicate KeyAscends(items: seq<Value>, i: nat)
    requires 2 <= i < |items|
  {
    items[i - 2].Str? && items[i].Str? && Less(items[i - 2].s, items[i].s)
  }

  // Keys and values in turn, every key a byte string, each key strictly after
  // the one before it.
  predicate DictShape(items: seq<Value>) {
    && |items| % 2 == 0
    && (forall i :: 0 <= i < |items| && i % 2 == 0 ==> items[i].Str?)
    && (forall i :: 2 <= i < |items| && i % 2 == 0 ==> KeyAscends(items, i))
  }

  // Neighbours in order is every pair in order: no key occurs twice.
  lemma {:induction false} KeysAscendAll(items: seq<Value>, i: nat, j: nat)
    requires DictShape(items) && i < j < |items| && i % 2 == 0 && j % 2 == 0
    ensures Less(items[i].s, items[j].s)
    decreases j
  {
    assert KeyAscends(items, j);
    if i == j - 2 {
    } else {
      KeysAscendAll(items, i, j - 2);
      LessTransitive(items[i].s, items[j - 2].s, items[j].s);
    }
  }

  // A dict in full: of any two keys, at the first place they differ the later one
  // has the greater byte, or the earlier one has ended.
  lemma {:induction false} DictShapeExact(items: seq<Value>)
    ensures DictShape(items)
       <==> Keyed(items)
  {
    hide Less, Before;
    if DictShape(items) {
      forall i, j | 0 <= i < j < |items| && i % 2 == 0 && j % 2 == 0
        ensures Before(items[i].s, items[j].s)
      {
        KeysAscendAll(items, i, j);
        LessExact(items[i].s, items[j].s);
      }
    } else if |items| % 2 == 0 && forall i :: 0 <= i < |items| && i % 2 == 0 ==> items[i].Str? {
      var j :| 2 <= j < |items| && j % 2 == 0 && !KeyAscends(items, j);
      LessExact(items[j - 2].s, items[j].s);
    }
  }

  method ValidateDict(items: seq<Value>) returns (ok: bool)
    ensures ok <==> DictShape(items)
  {
    if |items| % 2 != 0 {
      return false;
    }
    var i := 0;
    while i < |items|
      invariant i <= |items| && i % 2 == 0
      invariant forall k :: 0 <= k < i && k % 2 == 0 ==> items[k].Str?
      invariant forall k :: 2 <= k < i && k % 2 == 0 ==> KeyAscends(items, k)
    {
      var key := items[i];
      if !key.Str? {
        return false;
      }
      if i > 1 {
        var previous := items[i - 2];
        var order := BytesCmp(previous.s, key.s);
        LessExact(previous.s, key.s);
        if order >= 0 {
          assert !KeyAscends(items, i);
          return false;
        }
      }
      i := i + 2;
    }
    return true;
  }

  // What the parser may answer with: 64 bit numbers, dicts in shape, all the
  // way down.
  ghost predicate Canonical(v: Value) {
    match v
    case Num(n) => ISIZE_MIN <= n <= ISIZE_MAX
    case Str(s) => |s| < U64_LIMIT
    case List(items) => forall x | x in items :: Canonical(x)
    case Dict(items) => DictShape(items) && forall x | x in items :: Canonical(x)
  }

  // The same, with nothing left to another definition: any two keys of a dict stand
  // in the order of their bytes.
  ghost predicate Keyed(items: seq<Value>) {
    && |items| % 2 == 0
    && (forall i :: 0 <= i < |items| && i % 2 == 0 ==> items[i].Str?)
    && forall i, j :: 0 <= i < j < |items| && i % 2 == 0 && j % 2 == 0 ==> Before(items[i].s, items[j].s)
  }

  ghost predicate WellKeyed(v: Value) {
    match v
    case Num(n) => -0x8000_0000_0000_0000 <= n < 0x8000_0000_0000_0000
    case Str(s) => |s| < U64_LIMIT
    case List(items) => forall x | x in items :: WellKeyed(x)
    case Dict(items) => Keyed(items) && forall x | x in items :: WellKeyed(x)
  }

  lemma {:induction false} CanonicalExact(v: Value)
    ensures Canonical(v) <==> WellKeyed(v)
  {
    hide DictShape, Keyed;
    match v {
      case List(items) =>
        forall x | x in items ensures Canonical(x) <==> WellKeyed(x) {
          CanonicalExact(x);
        }
      case Dict(items) =>
        DictShapeExact(items);
        forall x | x in items ensures Canonical(x) <==> WellKeyed(x) {
          CanonicalExact(x);
        }
      case _ =>
    }
  }

  // How many containers deep a value goes, itself included.
  function Nesting(v: Value): nat
    decreases v, 1
  {
    match v
    case Num(_) => 0
    case Str(_) => 0
    case List(items) => 1 + NestingAll(items)
    case Dict(items) => 1 + NestingAll(items)
  }

  function NestingAll(vs: seq<Value>): (d: nat)
    ensures forall x | x in vs :: Nesting(x) <= d
    ensures d > 0 ==> exists x :: x in vs && Nesting(x) == d
    decreases vs, 0
  {
    if vs == [] then 0
    else
      var first, others := Nesting(vs[0]), NestingAll(vs[1..]);
      assert vs == [vs[0]] + vs[1..];
      if first > others then assert vs[0] in vs; first
      else
        assert forall x :: x in vs[1..] ==> x in vs;
        others
  }

  // The encoding of a value, which is also its grammar: a byte string belongs
  // to the format when it is the encoding of a canonical value.
  function Encode(v: Value): (s: Bytes)
    ensures |s| >= 2
    ensures s[0] == TAG_NUM <==> v.Num?
    ensures s[0] == TAG_LIST <==> v.List?
    ensures s[0] == TAG_DICT <==> v.Dict?
    ensures IsDigit(s[0]) <==> v.Str?
    decreases v, 1
  {
    match v
    case Num(n) => [TAG_NUM] + Decimal.SignedDigits(n) + [TAG_END]
    case Str(b) =>
      var len := Decimal.Digits(|b|);
      assert IsDigit(len[0]);
      len + [COLON] + b
    case List(items) => [TAG_LIST] + EncodeAll(items) + [TAG_END]
    case Dict(items) => [TAG_DICT] + EncodeAll(items) + [TAG_END]
  }

  function EncodeAll(vs: seq<Value>): (s: Bytes)
    ensures |s| >= 2 * |vs|
    decreases vs, 0
  {
    if vs == [] then [] else Encode(vs[0]) + EncodeAll(vs[1..])
  }

  lemma {:induction false} EncodeAllAppend(vs: seq<Value>, v: Value)
    ensures EncodeAll(vs + [v]) == EncodeAll(vs) + Encode(v)
  {
    if vs == [] {
      assert (vs + [v])[1..] == [];
    } else {
      assert (vs + [v])[1..] == vs[1..] + [v];
      EncodeAllAppend(vs[1..], v);
    }
  }

  lemma {:induction false} SpelledScalars()
    ensures Encode(Num(-3)) == Ascii("i-3e") && Encode(Num(20)) == Ascii("i20e")
    ensures Encode(Str([])) == Ascii("0:")
    ensures Encode(Str(Ascii("a"))) == Ascii("1:a") && Encode(Str(Ascii("b"))) == Ascii("1:b")
  {
    assert Decimal.Digits(2) == Ascii("2");
    assert Decimal.Digits(20) == Ascii("20");
    assert Decimal.SignedDigits(-3) == Ascii("-3");
  }

  lemma {:induction false} SpelledContainers(items: seq<Value>)
    ensures Encode(List(items)) == Ascii("l") + EncodeAll(items) + Ascii("e")
    ensures Encode(Dict(items)) == Ascii("d") + EncodeAll(items) + Ascii("e")
  {
    hide EncodeAll;
    assert Ascii("l") == [TAG_LIST] && Ascii("d") == [TAG_DICT] && Ascii("e") == [TAG_END];
  }

  lemma {:induction false} SpelledOne(v: Value, vs: seq<Value>, first: string, others: string)
    requires forall i :: 0 <= i < |first| ==> first[i] < 128 as char
    requires forall i :: 0 <= i < |others| ==> others[i] < 128 as char
    requires Encode(v) == Ascii(first) && EncodeAll(vs) == Ascii(others)
    ensures EncodeAll([v] + vs) == Ascii(first + others)
  {
    hide Encode;
    assert ([v] + vs)[1..] == vs;
  }

  lemma {:induction false} SpelledList()
    ensures Encode(List([Num(-3), Str([])])) == Ascii("li-3e0:e")
  {
    SpelledScalars();
    assert [Str([])] + [] == [Str([])] && [Num(-3)] + [Str([])] == [Num(-3), Str([])];
    assert EncodeAll([]) == Ascii("");
    SpelledOne(Str([]), [], "0:", "");
    SpelledOne(Num(-3), [Str([])], "i-3e", "0:");
    assert "i-3e" + "0:" == "i-3e0:" && "0:" + "" == "0:";
  }

  lemma {:induction false} SpelledItems()
    ensures EncodeAll([Str(Ascii("b")), Num(20)]) == Ascii("1:bi20e")
  {
    SpelledScalars();
    hide Encode;
    var b := Str(Ascii("b"));
    assert EncodeAll([]) == Ascii("");
    assert [Num(20)] + [] == [Num(20)] && [b] + [Num(20)] == [b, Num(20)];
    SpelledOne(Num(20), [], "i20e", "");
    SpelledOne(b, [Num(20)], "1:b", "i20e");
    assert "i20e" + "" == "i20e" && "1:b" + "i20e" == "1:bi20e";
  }

  lemma {:induction false} SpelledDict(list: Value, back: seq<Value>, first: string, others: string)
    requires forall i :: 0 <= i < |first| ==> first[i] < 128 as char
    requires forall i :: 0 <= i < |others| ==> others[i] < 128 as char
    requires Encode(list) == Ascii(first) && EncodeAll(back) == Ascii(others)
    ensures Encode(Dict([Str(Ascii("a"))] + ([list] + back)))
         == Ascii("d") + Ascii("1:a" + (first + others)) + Ascii("e")
  {
    var a := Str(Ascii("a"));
    SpelledScalars();
    hide Encode, EncodeAll, Ascii;
    SpelledContainers([a] + ([list] + back));
    SpelledOne(list, back, first, others);
    SpelledOne(a, [list] + back, "1:a", first + others);
  }

  // One dict with a value of every form, as it is spelled.
  lemma {:induction false} Spelled()
    ensures var items := [Str(Ascii("a")), List([Num(-3), Str([])]), Str(Ascii("b")), Num(20)];
            Encode(Dict(items)) == Ascii("d") + Ascii("1:a" + ("li-3e0:e" + "1:bi20e")) + Ascii("e")
  {
    hide Encode, EncodeAll, Ascii;
    var list, back := List([Num(-3), Str([])]), [Str(Ascii("b")), Num(20)];
    SpelledList();
    SpelledItems();
    assert [Str(Ascii("a"))] + ([list] + back) == [Str(Ascii("a")), list, Str(Ascii("b")), Num(20)];
    SpelledDict(list, back, "li-3e0:e", "1:bi20e");
  }

  // Its keys that way round, and not the other.
  lemma {:induction false} SpelledOrder()
    ensures var a, b, items := Str(Ascii("a")), Str(Ascii("b")), List([Num(-3), Str([])]);
            Canonical(Dict([a, items, b, Num(20)])) && !Canonical(Dict([b, Num(20), a, items]))
  {
    var a, b, items := Str(Ascii("a")), Str(Ascii("b")), List([Num(-3), Str([])]);
    assert KeyAscends([a, items, b, Num(20)], 2) && !KeyAscends([b, Num(20), a, items], 2);
    assert Canonical(items);
  }
}
