// The two-stack parser of torrent.c, and the proof that it accepts exactly the
// encodings of canonical values.
module BencodeParser {
  import opened Bytes
  import opened ArenaAllocator
  import opened Bencode
  import Decimal

  datatype Container = Container(isList: bool, start: nat)

  const VALUE_SIZE: nat := 24

  // Room for `count` values.
  function Alloc(arena: Arena, count: nat): Option<Arena> {
    AllocWords(arena, VALUE_SIZE * count)
  }

  // What a finished container takes from the arena: a right-sized array for its
  // children, and nothing when it has none.
  function Reserve(arena: Arena, count: nat): Option<Arena> {
    if count == 0 then Some(arena) else Alloc(arena, count)
  }

  function Charge(arena: Arena, v: Value): Option<Arena>
    decreases v, 1
  {
    match v
    case Num(_) => Some(arena)
    case Str(_) => Some(arena)
    case List(items) => ChargeContainer(arena, items)
    case Dict(items) => ChargeContainer(arena, items)
  }

  function ChargeContainer(arena: Arena, items: seq<Value>): Option<Arena>
    decreases items, 1
  {
    match ChargeAll(arena, items)
    case None => None
    case Some(a) => Reserve(a, |items|)
  }

  function ChargeAll(arena: Arena, vs: seq<Value>): Option<Arena>
    decreases vs, 0
  {
    if vs == [] then Some(arena)
    else
      match Charge(arena, vs[0])
      case None => None
      case Some(a) => ChargeAll(a, vs[1..])
  }

  // Every value below the root sits in one cell of one container.
  function Cells(v: Value): nat
    decreases v, 1
  {
    match v
    case Num(_) => 0
    case Str(_) => 0
    case List(items) => |items| + CellsAll(items)
    case Dict(items) => |items| + CellsAll(items)
  }

  function CellsAll(vs: seq<Value>): nat
    decreases vs, 0
  {
    if vs == [] then 0 else Cells(vs[0]) + CellsAll(vs[1..])
  }

  // What `cells` values take from the arena in all: one pad, then 24 bytes each.
  function Take(arena: Arena, cells: nat): Option<Arena> {
    if cells == 0 then Some(arena) else Alloc(arena, cells)
  }

  lemma {:induction false} TakeTwice(arena: Arena, c: nat, d: nat)
    ensures match Take(arena, c)
            case None => Take(arena, c + d) == None
            case Some(a) => Take(a, d) == Take(arena, c + d)
  {
    if c > 0 && d > 0 && Take(arena, c).Some? {
      var a, base := Take(arena, c).value, AlignUp(arena.start);
      var k := base / WORD;
      assert base == 8 * k;
      assert a.start == 8 * (k + 3 * c);
      assert AlignUp(a.start) == a.start;
    }
  }

  lemma {:induction false} ChargeIsTake(arena: Arena, v: Value)
    ensures Charge(arena, v) == Take(arena, Cells(v))
    decreases v, 1
  {
    if v.List? || v.Dict? {
      ChargeAllIsTake(arena, v.items);
      TakeTwice(arena, CellsAll(v.items), |v.items|);
    }
  }

  lemma {:induction false} ChargeAllIsTake(arena: Arena, vs: seq<Value>)
    ensures ChargeAll(arena, vs) == Take(arena, CellsAll(vs))
    decreases vs, 0
  {
    if vs == [] {
    } else {
      ChargeIsTake(arena, vs[0]);
      TakeTwice(arena, Cells(vs[0]), CellsAll(vs[1..]));
      var first := Charge(arena, vs[0]);
      if first.Some? {
        ChargeAllIsTake(first.value, vs[1..]);
      }
    }
  }

  // ---------- The two scalars ----------

  function Expect(s: Bytes, c: u8): Parse<()> {
    if s == [] || s[0] != c then Failed(InvalidData) else Parsed((), s[1..])
  }

  function ParseNum(s: Bytes): (r: Parse<Value>)
    ensures r.Parsed? ==> |r.rest| < |s|
  {
    if Expect(s, TAG_NUM).Failed? then Failed(InvalidData)
    else
      var negative := Expect(s[1..], Decimal.MINUS).Parsed?;
      var digits := if negative then s[2..] else s[1..];
      match Decimal.ParseDigits(digits)
      case Failed(e) => Failed(e)
      case Parsed(magnitude, rest) =>
        if negative && magnitude == 0 then Failed(InvalidData)
        else
          match Decimal.IsizeFromUsize(magnitude, negative)
          case Failed(e) => Failed(e)
          case Parsed(n, _) =>
            if Expect(rest, TAG_END).Failed? then Failed(InvalidData)
            else Parsed(Num(n), rest[1..])
  }

  function ParseStr(s: Bytes): (r: Parse<Value>)
    ensures r.Parsed? ==> |r.rest| < |s|
  {
    match Decimal.ParseDigits(s)
    case Failed(e) => Failed(e)
    case Parsed(len, rest) =>
      if Expect(rest, COLON).Failed? then Failed(InvalidData)
      else if len > |rest[1..]| then Failed(InvalidData)
      else Parsed(Str(rest[1..][..len]), rest[1..][len..])
  }

  lemma {:induction false} ParseNumOfEncoding(n: int, rest: Bytes)
    requires ISIZE_MIN <= n <= ISIZE_MAX
    ensures ParseNum(Encode(Num(n)) + rest) == Parsed(Num(n), rest)
  {
    hide Decimal.Digits, Decimal.ParseDigits, Decimal.DigitRun, Decimal.Value;
    var s := Encode(Num(n)) + rest;
    var m: u64 := if n < 0 then -n else n;
    var digits, tail := Decimal.Digits(m), [TAG_END] + rest;
    assert IsDigit(digits[0]);
    Decimal.ParseDigitsInverse(digits + tail, m, tail);
    assert tail[1..] == rest;
    if n < 0 {
      assert s == [TAG_NUM, Decimal.MINUS] + (digits + tail);
      assert s[2..] == digits + tail;
    } else {
      assert s == [TAG_NUM] + (digits + tail);
      assert s[1..] == digits + tail;
    }
  }

  lemma {:induction false} EncodingOfParsedNum(s: Bytes)
    requires ParseNum(s).Parsed?
    ensures var r := ParseNum(s);
            && r.value.Num? && ISIZE_MIN <= r.value.n <= ISIZE_MAX
            && s == Encode(r.value) + r.rest
  {
    hide Decimal.Digits, Decimal.ParseDigits, Decimal.DigitRun, Decimal.Value;
    var r := ParseNum(s);
    var negative := Expect(s[1..], Decimal.MINUS).Parsed?;
    var head := if negative then [TAG_NUM, Decimal.MINUS] else [TAG_NUM];
    var digits := s[|head|..];
    var read := Decimal.ParseDigits(digits);
    Decimal.ParseDigitsInverse(digits, read.value, read.rest);
    var spelled := Decimal.Digits(read.value);
    assert s == head + digits;
    assert read.rest == [TAG_END] + r.rest;
    SignedEncoding(r.value.n, spelled, negative);
    hide ParseNum, Encode;
    Regrouped(head, spelled, [TAG_END], r.rest);
  }

  lemma {:induction false} SignedEncoding(n: int, spelled: Bytes, negative: bool)
    requires spelled == Decimal.Digits(if n < 0 then -n else n) && (negative <==> n < 0)
    ensures Encode(Num(n)) == (if negative then [TAG_NUM, Decimal.MINUS] else [TAG_NUM]) + spelled + [TAG_END]
  {
    hide Decimal.Digits;
    assert negative ==> [TAG_NUM] + ([Decimal.MINUS] + spelled) == [TAG_NUM, Decimal.MINUS] + spelled;
  }

  lemma {:induction false} Regrouped(a: Bytes, b: Bytes, c: Bytes, d: Bytes)
    ensures a + (b + (c + d)) == a + b + c + d
  {
  }

  lemma {:induction false} ParseStrOfEncoding(b: Bytes, rest: Bytes)
    requires |b| < U64_LIMIT
    ensures ParseStr(Encode(Str(b)) + rest) == Parsed(Str(b), rest)
  {
    var tail := [COLON] + (b + rest);
    var s := Encode(Str(b)) + rest;
    assert s == Decimal.Digits(|b|) + tail;
    Decimal.ParseDigitsInverse(s, |b|, tail);
    assert tail[1..] == b + rest;
  }

  lemma {:induction false} EncodingOfParsedStr(s: Bytes)
    requires ParseStr(s).Parsed?
    ensures var r := ParseStr(s);
            && r.value.Str? && |r.value.s| < U64_LIMIT
            && s == Encode(r.value) + r.rest
  {
    hide Decimal.Digits, Decimal.ParseDigits, Decimal.DigitRun, Decimal.Value;
    var r := ParseStr(s);
    var read := Decimal.ParseDigits(s);
    Decimal.ParseDigitsInverse(s, read.value, read.rest);
    assert read.rest == [COLON] + read.rest[1..];
    assert read.rest[1..] == r.value.s + r.rest;
  }

  // A scalar read is a canonical scalar, and what was consumed is its encoding.
  lemma {:induction false} ScalarEncoding(s: Bytes)
    ensures ParseNum(s).Parsed? ==> ReadExactly(s, ParseNum(s))
    ensures ParseStr(s).Parsed? ==> ReadExactly(s, ParseStr(s))
  {
    if ParseNum(s).Parsed? {
      EncodingOfParsedNum(s);
    }
    if ParseStr(s).Parsed? {
      EncodingOfParsedStr(s);
    }
  }

  ghost predicate ReadExactly(s: Bytes, r: Parse<Value>)
    requires r.Parsed?
  {
    Canonical(r.value) && Nesting(r.value) == 0 && s == Encode(r.value) + r.rest
  }

  method BencodeParseNum(input: Bytes) returns (r: Parse<Value>)
    ensures r == ParseNum(input)
  {
    if Expect(input, TAG_NUM).Failed? {
      return Failed(InvalidData);
    }
    var remaining := input[1..];
    var negativeSign := Expect(remaining, Decimal.MINUS).Parsed?;
    if negativeSign {
      remaining := remaining[1..];
      assert remaining == input[2..];
    }
    var read := Decimal.AsciiNumParse(remaining);
    if read.Failed? {
      return Failed(read.error);
    }
    if negativeSign && read.value == 0 {
      return Failed(InvalidData);
    }
    var num := Decimal.IsizeFromUsize(read.value, negativeSign);
    if num.Failed? {
      return Failed(num.error);
    }
    if Expect(read.rest, TAG_END).Failed? {
      return Failed(InvalidData);
    }
    return Parsed(Num(num.value), read.rest[1..]);
  }

  method BencodeParseBytes(input: Bytes) returns (r: Parse<Value>)
    ensures r == ParseStr(input)
  {
    var read := Decimal.AsciiNumParse(input);
    if read.Failed? {
      return Failed(read.error);
    }
    if Expect(read.rest, COLON).Failed? {
      return Failed(InvalidData);
    }
    var remaining := read.rest[1..];
    var len := read.value;
    if len > |remaining| {
      return Failed(InvalidData);
    }
    return Parsed(Str(remaining[..len]), remaining[len..]);
  }

  // ---------- The machine ----------

  datatype Outcome = Ok(value: Value, rest: Bytes, arena: Arena) | Err(error: ErrorKind)

  predicate Fits(open: seq<Container>, count: nat) {
    open == [] || (Last(open).start <= count && Fits(Init(open), Last(open).start))
  }

  function Last(open: seq<Container>): Container
    requires open != []
  {
    open[|open| - 1]
  }

  function Init(open: seq<Container>): seq<Container>
    requires open != []
  {
    open[..|open| - 1]
  }

  lemma {:induction false} FitsMore(open: seq<Container>, count: nat, more: nat)
    requires Fits(open, count) && count <= more
    ensures Fits(open, more)
  {
  }

  // One byte looked at, one thing done: `open` is the stack of containers still
  // being read, `vs` the values read so far that have no container yet.
  function Machine(rem: Bytes, open: seq<Container>, vs: seq<Value>, arena: Arena): Outcome
    requires Fits(open, |vs|)
    decreases |rem|, 0
  {
    if rem == [] then Err(InvalidData)
    else if rem[0] == TAG_NUM then
      match ParseNum(rem)
      case Failed(e) => Err(e)
      case Parsed(v, rest) =>
        FitsMore(open, |vs|, |vs| + 1);
        Settle(rest, open, vs + [v], arena)
    else if rem[0] == TAG_LIST || rem[0] == TAG_DICT then
      if |open| >= MAX_DEPTH then Err(InvalidData)
      else
        var deeper := open + [Container(rem[0] == TAG_LIST, |vs|)];
        assert Init(deeper) == open;
        Machine(rem[1..], deeper, vs, arena)
    else if rem[0] == TAG_END then
      if open == [] then Err(InvalidData)
      else
        match Close(Last(open), vs, arena)
        case Err(e) => Err(e)
        case Ok(v, _, a) =>
          FitsMore(Init(open), Last(open).start, Last(open).start + 1);
          Settle(rem[1..], Init(open), vs[..Last(open).start] + [v], a)
    else if IsDigit(rem[0]) then
      match ParseStr(rem)
      case Failed(e) => Err(e)
      case Parsed(v, rest) =>
        FitsMore(open, |vs|, |vs| + 1);
        Settle(rest, open, vs + [v], arena)
    else Err(InvalidData)
  }

  // A value has just been completed: at the root it is the answer.
  function Settle(rest: Bytes, open: seq<Container>, vs: seq<Value>, arena: Arena): Outcome
    requires Fits(open, |vs|) && vs != []
    decreases |rest|, 1
  {
    if open == [] then Ok(vs[0], rest, arena) else Machine(rest, open, vs, arena)
  }

  // An `e`: the container on top of the stack takes its children.
  function Close(top: Container, vs: seq<Value>, arena: Arena): Outcome
    requires top.start <= |vs|
  {
    var children := vs[top.start..];
    if !top.isList && |children| % 2 != 0 then Err(InvalidData)
    else
      match Reserve(arena, |children|)
      case None => Err(OOM)
      case Some(a) =>
        if !top.isList && !DictShape(children) then Err(InvalidData)
        else Ok(Contained(top, vs), [], a)
  }

  function Contained(top: Container, vs: seq<Value>): Value
    requires top.start <= |vs|
  {
    if top.isList then List(vs[top.start..]) else Dict(vs[top.start..])
  }

  // ---------- Whatever is accepted is canonical ----------

  function TagOf(c: Container): u8 {
    if c.isList then TAG_LIST else TAG_DICT
  }

  // The input a state of the machine stands for.
  function Flat(open: seq<Container>, vs: seq<Value>): (s: Bytes)
    requires Fits(open, |vs|)
    ensures |s| >= 2 * |vs| + |open|
  {
    if open == [] then EncodeAll(vs)
    else
      var start := Last(open).start;
      Flat(Init(open), vs[..start]) + [TagOf(Last(open))] + EncodeAll(vs[start..])
  }

  ghost predicate Held(open: seq<Container>, vs: seq<Value>) {
    if open == [] then vs == []
    else
      var start := Last(open).start;
      && start <= |vs|
      && |open| <= MAX_DEPTH
      && Held(Init(open), vs[..start])
      && forall x | x in vs[start..] :: Canonical(x) && |open| + Nesting(x) <= MAX_DEPTH
  }

  lemma {:induction false} HeldFits(open: seq<Container>, vs: seq<Value>)
    requires Held(open, vs)
    ensures Fits(open, |vs|)
  {
    if open == [] {
    } else {
      HeldFits(Init(open), vs[..Last(open).start]);
    }
  }

  lemma {:induction false} FlatValue(open: seq<Container>, vs: seq<Value>, v: Value)
    requires open != [] && Fits(open, |vs|) && Fits(open, |vs| + 1)
    ensures Flat(open, vs + [v]) == Flat(open, vs) + Encode(v)
  {
    var start := Last(open).start;
    var below, children := vs[..start], vs[start..];
    assert (vs + [v])[..start] == below && (vs + [v])[start..] == children + [v];
    EncodeAllAppend(children, v);
    var head := Flat(Init(open), below) + [TagOf(Last(open))];
    assert Flat(open, vs + [v]) == head + EncodeAll(children + [v]) && Flat(open, vs) == head + EncodeAll(children);
    hide Flat, Encode, EncodeAll;
    Associate(head, EncodeAll(children), Encode(v));
  }

  lemma {:induction false} HoldValue(open: seq<Container>, vs: seq<Value>, v: Value)
    requires open != [] && Held(open, vs)
    requires Canonical(v) && |open| + Nesting(v) <= MAX_DEPTH
    ensures Held(open, vs + [v])
  {
    var start := Last(open).start;
    assert (vs + [v])[..start] == vs[..start];
    assert (vs + [v])[start..] == vs[start..] + [v];
  }

  lemma {:induction false} HoldOpen(open: seq<Container>, vs: seq<Value>, c: Container)
    requires Held(open, vs) && Fits(open, |vs|)
    requires |open| < MAX_DEPTH && c.start == |vs|
    ensures Held(open + [c], vs) && Fits(open + [c], |vs|)
    ensures Flat(open + [c], vs) == Flat(open, vs) + [TagOf(c)]
  {
    assert Init(open + [c]) == open;
    assert vs[..|vs|] == vs;
  }

  // What closing a container leaves behind: its own encoding, end byte and all.
  lemma {:induction false} FlatClose(open: seq<Container>, vs: seq<Value>)
    requires open != [] && Fits(open, |vs|)
    ensures Flat(open, vs) + [TAG_END]
         == Flat(Init(open), vs[..Last(open).start]) + Encode(Contained(Last(open), vs))
  {
  }

  lemma {:induction false} HoldClose(open: seq<Container>, vs: seq<Value>)
    requires open != [] && Held(open, vs)
    requires !Last(open).isList ==> DictShape(vs[Last(open).start..])
    ensures var v := Contained(Last(open), vs);
            Canonical(v) && |open| - 1 + Nesting(v) <= MAX_DEPTH
    ensures Held(Init(open), vs[..Last(open).start])
  {
    var children := vs[Last(open).start..];
    assert forall x | x in children :: |open| + Nesting(x) <= MAX_DEPTH;
    assert |open| + NestingAll(children) <= MAX_DEPTH;
  }

  // Every state a run passes through before it succeeds stands for input that
  // is a prefix of what the answer encodes to.
  ghost predicate Explains(s: Bytes, end: Outcome)
    requires end.Ok?
  {
    Canonical(end.value) && Nesting(end.value) <= MAX_DEPTH && s == Encode(end.value) + end.rest
  }

  lemma {:induction false} Sound(rem: Bytes, open: seq<Container>, vs: seq<Value>, arena: Arena)
    requires Held(open, vs) && Fits(open, |vs|)
    requires Machine(rem, open, vs, arena).Ok?
    ensures Explains(Flat(open, vs) + rem, Machine(rem, open, vs, arena))
    decreases |rem|, 2
  {
    if rem[0] == TAG_LIST || rem[0] == TAG_DICT {
      SoundOpen(rem, open, vs, arena);
    } else if rem[0] == TAG_END {
      SoundClose(rem, open, vs, arena);
    } else {
      var read := if rem[0] == TAG_NUM then ParseNum(rem) else ParseStr(rem);
      ScalarEncoding(rem);
      FitsMore(open, |vs|, |vs| + 1);
      SoundSettle(read.rest, open, vs, read.value, arena);
      Associate(Flat(open, vs), Encode(read.value), read.rest);
    }
  }

  lemma {:induction false} SoundOpen(rem: Bytes, open: seq<Container>, vs: seq<Value>, arena: Arena)
    requires Held(open, vs) && Fits(open, |vs|)
    requires rem != [] && (rem[0] == TAG_LIST || rem[0] == TAG_DICT)
    requires Machine(rem, open, vs, arena).Ok?
    ensures Explains(Flat(open, vs) + rem, Machine(rem, open, vs, arena))
    decreases |rem|, 1
  {
    var c := Container(rem[0] == TAG_LIST, |vs|);
    assert rem == [rem[0]] + rem[1..];
    RoomToOpen(rem, open, vs, arena);
    OpenStep(rem[0], rem[1..], open, vs, arena);
    hide Machine;
    HoldOpen(open, vs, c);
    Sound(rem[1..], open + [c], vs, arena);
    Associate(Flat(open, vs), [TagOf(c)], rem[1..]);
    assert rem == [TagOf(c)] + rem[1..];
  }

  lemma {:induction false} RoomToOpen(rem: Bytes, open: seq<Container>, vs: seq<Value>, arena: Arena)
    requires Fits(open, |vs|) && rem != [] && (rem[0] == TAG_LIST || rem[0] == TAG_DICT)
    requires Machine(rem, open, vs, arena).Ok?
    ensures |open| < MAX_DEPTH
  {
  }

  lemma {:induction false} SoundClose(rem: Bytes, open: seq<Container>, vs: seq<Value>, arena: Arena)
    requires Held(open, vs) && Fits(open, |vs|)
    requires rem != [] && rem[0] == TAG_END
    requires Machine(rem, open, vs, arena).Ok?
    ensures Explains(Flat(open, vs) + rem, Machine(rem, open, vs, arena))
    decreases |rem|, 1
  {
    var top, start := Last(open), Last(open).start;
    MachineClose(rem, open, vs, arena);
    Closed(top, vs, arena);
    hide Machine;
    HoldClose(open, vs);
    FlatClose(open, vs);
    hide Flat, Encode, EncodeAll, Held, Canonical, Nesting, DictShape, Close, Settle, Explains;
    assert |vs[..start]| == start;
    SoundSettle(rem[1..], Init(open), vs[..start], Contained(top, vs), Close(top, vs, arena).arena);
    Associate(Flat(open, vs), [TAG_END], rem[1..]);
    assert rem == [TAG_END] + rem[1..];
  }

  // What is closed is what it holds, a dict in shape.
  lemma {:induction false} Closed(top: Container, vs: seq<Value>, arena: Arena)
    requires top.start <= |vs|
    ensures var r := Close(top, vs, arena);
            r.Ok? ==> r.value == Contained(top, vs) && (!top.isList ==> DictShape(vs[top.start..]))
  {
    hide DictShape, Reserve;
  }

  lemma {:induction false} SoundSettle(
    rest: Bytes, open: seq<Container>, vs: seq<Value>, v: Value, arena: Arena)
    requires Held(open, vs) && Fits(open, |vs|) && Fits(open, |vs| + 1)
    requires Canonical(v) && |open| + Nesting(v) <= MAX_DEPTH
    requires Settle(rest, open, vs + [v], arena).Ok?
    ensures Explains(Flat(open, vs) + Encode(v) + rest, Settle(rest, open, vs + [v], arena))
    decreases |rest|, 3
  {
    if open != [] {
      HoldValue(open, vs, v);
      FlatValue(open, vs, v);
      Sound(rest, open, vs + [v], arena);
    } else {
      assert vs == [] && Flat(open, vs) == [];
      assert Flat(open, vs) + Encode(v) + rest == Encode(v) + rest;
    }
  }

  // ---------- Whatever is canonical is accepted ----------

  // Reading the encoding of `v` puts `v` on the values and charges the arena
  // for it, or runs out of arena. Nothing else can happen.
  lemma {:induction false} Push(
    v: Value, rest: Bytes, open: seq<Container>, vs: seq<Value>, arena: Arena)
    requires Fits(open, |vs|) && Fits(open, |vs| + 1)
    requires Canonical(v) && |open| + Nesting(v) <= MAX_DEPTH
    ensures Machine(Encode(v) + rest, open, vs, arena)
         == match Charge(arena, v)
            case None => Err(OOM)
            case Some(a) => Settle(rest, open, vs + [v], a)
    decreases v, 1
  {
    match v
    case Num(n) => ParseNumOfEncoding(n, rest);
    case Str(b) => ParseStrOfEncoding(b, rest);
    case List(items) => PushContainer(v, rest, open, vs, arena);
    case Dict(items) => PushContainer(v, rest, open, vs, arena);
  }

  lemma {:induction false} PushContainer(
    v: Value, rest: Bytes, open: seq<Container>, vs: seq<Value>, arena: Arena)
    requires v.List? || v.Dict?
    requires Fits(open, |vs|) && Fits(open, |vs| + 1)
    requires Canonical(v) && |open| + Nesting(v) <= MAX_DEPTH
    ensures Machine(Encode(v) + rest, open, vs, arena)
         == match ChargeContainer(arena, v.items)
            case None => Err(OOM)
            case Some(a) => Settle(rest, open, vs + [v], a)
    decreases v, 0
  {
    ContainerSpelled(v, rest);
    ContainerItems(v);
    hide Machine, Encode, EncodeAll, ChargeAll, Canonical, Nesting, Settle, DictShape;
    var items, c := v.items, Container(v.List?, |vs|);
    var deeper, tail := open + [c], [TAG_END] + rest;
    assert Init(deeper) == open;
    assert Fits(deeper, |vs|);
    hide Fits;
    OpenStep(TagOf(c), EncodeAll(items) + tail, open, vs, arena);
    PushAll(items, tail, deeper, vs, arena);
    var charged := ChargeAll(arena, items);
    if charged.Some? {
      CloseStep(v, rest, open, vs, charged.value);
    }
  }

  lemma {:induction false} ContainerSpelled(v: Value, rest: Bytes)
    requires v.List? || v.Dict?
    ensures Encode(v) + rest == [TagOf(Container(v.List?, 0))] + (EncodeAll(v.items) + ([TAG_END] + rest))
  {
    hide EncodeAll;
    var tag := [TagOf(Container(v.List?, 0))];
    assert Encode(v) == tag + EncodeAll(v.items) + [TAG_END];
    hide Encode;
    assert tag + EncodeAll(v.items) + [TAG_END] + rest == tag + (EncodeAll(v.items) + ([TAG_END] + rest));
  }

  lemma {:induction false} ContainerItems(v: Value)
    requires (v.List? || v.Dict?) && Canonical(v)
    ensures v.Dict? ==> DictShape(v.items)
    ensures Nesting(v) >= 1 && forall x | x in v.items :: Canonical(x) && 1 + Nesting(x) <= Nesting(v)
  {
    hide DictShape;
  }

  lemma {:induction false} OpenStep(
    tag: u8, tail: Bytes, open: seq<Container>, vs: seq<Value>, arena: Arena)
    requires Fits(open, |vs|) && |open| < MAX_DEPTH
    requires tag == TAG_LIST || tag == TAG_DICT
    ensures Fits(open + [Container(tag == TAG_LIST, |vs|)], |vs|)
    ensures Machine([tag] + tail, open, vs, arena)
         == Machine(tail, open + [Container(tag == TAG_LIST, |vs|)], vs, arena)
  {
    assert ([tag] + tail)[1..] == tail;
    assert Init(open + [Container(tag == TAG_LIST, |vs|)]) == open;
  }

  lemma {:induction false} CloseStep(
    v: Value, rest: Bytes, open: seq<Container>, vs: seq<Value>, arena: Arena)
    requires v.List? || (v.Dict? && DictShape(v.items))
    requires Fits(open, |vs|) && Fits(open, |vs| + 1)
    ensures var deeper := open + [Container(v.List?, |vs|)];
            && Fits(deeper, |vs + v.items|)
            && Machine([TAG_END] + rest, deeper, vs + v.items, arena)
            == match Reserve(arena, |v.items|)
               case None => Err(OOM)
               case Some(a) => Settle(rest, open, vs + [v], a)
  {
    var c := Container(v.List?, |vs|);
    var deeper, all := open + [c], vs + v.items;
    assert Init(deeper) == open && Last(deeper) == c;
    assert all[|vs|..] == v.items && all[..|vs|] == vs;
    assert ([TAG_END] + rest)[1..] == rest;
  }

  lemma {:induction false} PushAll(
    items: seq<Value>, rest: Bytes, open: seq<Container>, vs: seq<Value>, arena: Arena)
    requires open != [] && Fits(open, |vs|)
    requires forall x | x in items :: Canonical(x) && |open| + Nesting(x) <= MAX_DEPTH
    ensures Fits(open, |vs + items|)
    ensures Machine(EncodeAll(items) + rest, open, vs, arena)
         == match ChargeAll(arena, items)
            case None => Err(OOM)
            case Some(a) => Machine(rest, open, vs + items, a)
    decreases items, 0
  {
    hide Machine, Encode, Canonical, Nesting, Charge;
    FitsMore(open, |vs|, |vs + items|);
    if items == [] {
      assert EncodeAll(items) + rest == rest && vs + items == vs;
    } else {
      var first, others := items[0], items[1..];
      var tail := EncodeAll(others) + rest;
      Associate(Encode(first), EncodeAll(others), rest);
      FitsMore(open, |vs|, |vs| + 1);
      assert first in items;
      Push(first, tail, open, vs, arena);
      var charged := Charge(arena, first);
      if charged.Some? {
        PushAll(others, rest, open, vs + [first], charged.value);
        assert vs + [first] + others == vs + items;
      }
    }
  }

  // ---------- The parser ----------

  // A scratch value for every two input bytes and one more; then the machine.
  function ParseSpec(input: Bytes, arena: Arena, scratch: Arena): Outcome {
    if input == [] then Err(InvalidData)
    else if Alloc(scratch, |input| / 2 + 1) == None then Err(OOM)
    else Machine(input, [], [], arena)
  }

  // The parser succeeds exactly on the inputs that start with the encoding of a
  // canonical value nested at most 128 deep, given the memory for it; and then
  // it answers with that value, what is behind its encoding, and the arena
  // advanced by exactly its cells.
  lemma {:induction false} ParseExact(input: Bytes, arena: Arena, scratch: Arena, v: Value, rest: Bytes, after: Arena)
    ensures ParseSpec(input, arena, scratch) == Ok(v, rest, after)
       <==> && WellKeyed(v) && Nesting(v) <= 128
            && input == Encode(v) + rest
            && Alloc(scratch, |input| / 2 + 1) != None
            && Take(arena, Cells(v)) == Some(after)
  {
    CanonicalExact(v);
    if ParseSpec(input, arena, scratch) == Ok(v, rest, after) {
      Sound(input, [], [], arena);
      assert Flat([], []) + input == input;
    }
    if Canonical(v) && Nesting(v) <= MAX_DEPTH && input == Encode(v) + rest {
      Push(v, rest, [], [], arena);
      ChargeIsTake(arena, v);
      assert [] + [v] == [v];
    }
  }

  // A state of the run over `input` that can still be answered: what was
  // consumed is what the two stacks stand for.
  ghost predicate Reading(input: Bytes, rem: Bytes, open: seq<Container>, vs: seq<Value>) {
    Held(open, vs) && Fits(open, |vs|) && Flat(open, vs) + rem == input
  }

  lemma {:induction false} ReadingBounded(input: Bytes, rem: Bytes, open: seq<Container>, vs: seq<Value>)
    requires Reading(input, rem, open, vs)
    ensures 2 * |vs| + |open| <= |input| - |rem| && Fits(open, |vs|)
    ensures open == [] ==> vs == []
  {
  }

  lemma {:induction false} ReadingStart(input: Bytes)
    ensures Reading(input, input, [], [])
  {
    assert Flat([], []) + input == input;
  }

  lemma {:induction false} ReadingOpen(input: Bytes, rem: Bytes, open: seq<Container>, vs: seq<Value>)
    requires Reading(input, rem, open, vs)
    requires rem != [] && (rem[0] == TAG_LIST || rem[0] == TAG_DICT) && |open| < MAX_DEPTH
    ensures Reading(input, rem[1..], open + [Container(rem[0] == TAG_LIST, |vs|)], vs)
  {
    var c := Container(rem[0] == TAG_LIST, |vs|);
    HoldOpen(open, vs, c);
    assert rem == [TagOf(c)] + rem[1..];
    Associate(Flat(open, vs), [TagOf(c)], rem[1..]);
  }

  lemma {:induction false} ReadingValue(
    input: Bytes, rest: Bytes, open: seq<Container>, vs: seq<Value>, v: Value)
    requires open != [] && Held(open, vs) && Fits(open, |vs|)
    requires Canonical(v) && |open| + Nesting(v) <= MAX_DEPTH
    requires Flat(open, vs) + Encode(v) + rest == input
    ensures Reading(input, rest, open, vs + [v])
  {
    FitsMore(open, |vs|, |vs| + 1);
    HoldValue(open, vs, v);
    FlatValue(open, vs, v);
  }

  lemma {:induction false} ReadingScalar(
    input: Bytes, rem: Bytes, open: seq<Container>, vs: seq<Value>, read: Parse<Value>)
    requires Reading(input, rem, open, vs) && open != []
    requires rem != [] && read.Parsed?
    requires read == ReadScalar(rem)
    ensures Reading(input, read.rest, open, vs + [read.value])
  {
    ScalarEncoding(rem);
    Associate(Flat(open, vs), Encode(read.value), read.rest);
    ReadingValue(input, read.rest, open, vs, read.value);
  }

  lemma {:induction false} ReadingClose(input: Bytes, rem: Bytes, open: seq<Container>, vs: seq<Value>)
    requires Reading(input, rem, open, vs) && open != []
    requires rem != [] && rem[0] == TAG_END
    requires !Last(open).isList ==> DictShape(vs[Last(open).start..])
    ensures |open| > 1 ==> Reading(input, rem[1..], Init(open),
                                   vs[..Last(open).start] + [Contained(Last(open), vs)])
    ensures |open| == 1 ==> Last(open).start == 0
  {
    var v := Contained(Last(open), vs);
    HoldClose(open, vs);
    FlatClose(open, vs);
    assert rem == [TAG_END] + rem[1..];
    Associate(Flat(open, vs), [TAG_END], rem[1..]);
    if |open| > 1 {
      ReadingValue(input, rem[1..], Init(open), vs[..Last(open).start], v);
    }
  }

  function ReadScalar(rem: Bytes): Parse<Value>
    requires rem != []
  {
    if rem[0] == TAG_NUM then ParseNum(rem) else ParseStr(rem)
  }

  // The machine, one byte further.
  lemma {:induction false} MachineScalar(rem: Bytes, open: seq<Container>, vs: seq<Value>, arena: Arena)
    requires Fits(open, |vs|)
    requires rem != [] && (rem[0] == TAG_NUM || IsDigit(rem[0]))
    ensures Fits(open, |vs| + 1)
    ensures Machine(rem, open, vs, arena)
         == match ReadScalar(rem)
            case Failed(e) => Err(e)
            case Parsed(v, rest) => Settle(rest, open, vs + [v], arena)
  {
    FitsMore(open, |vs|, |vs| + 1);
  }

  lemma {:induction false} MachineClose(rem: Bytes, open: seq<Container>, vs: seq<Value>, arena: Arena)
    requires Fits(open, |vs|) && rem != [] && rem[0] == TAG_END && open != []
    ensures Fits(Init(open), Last(open).start + 1)
    ensures Machine(rem, open, vs, arena)
         == match Close(Last(open), vs, arena)
            case Err(e) => Err(e)
            case Ok(v, _, a) => Settle(rem[1..], Init(open), vs[..Last(open).start] + [v], a)
  {
    FitsMore(Init(open), Last(open).start, Last(open).start + 1);
  }

  lemma {:induction false} MachineStuck(rem: Bytes, open: seq<Container>, vs: seq<Value>, arena: Arena)
    requires Fits(open, |vs|)
    requires rem == [] || match rem[0]
                          case 105 => false
                          case 108 => |open| >= MAX_DEPTH
                          case 100 => |open| >= MAX_DEPTH
                          case 101 => open == []
                          case c => !IsDigit(c)
    ensures Machine(rem, open, vs, arena) == Err(InvalidData)
  {
  }

  lemma {:induction false} LastFits(open: seq<Container>, vs: seq<Value>)
    requires Fits(open, |vs|) && open != []
    ensures Last(open).start <= |vs|
  {
  }

  // The first `count` slots of a stack kept in an array.
  ghost predicate Holds<T(!new)>(stack: array<T>, count: nat, content: seq<T>)
    reads stack
  {
    |content| == count <= stack.Length && forall k :: 0 <= k < count ==> stack[k] == content[k]
  }

  // An `e`, on the arrays: the children leave `values`, which is scrubbed, and
  // the container takes their place.
  method CloseContainer(
    values: array<Value>, valuesCount: nat, container: Container, arena: Arena, ghost vs: seq<Value>)
    returns (r: Outcome)
    requires container.start <= valuesCount < values.Length
    requires Holds(values, valuesCount, vs)
    modifies values
    ensures r == Close(container, vs, arena)
    ensures r.Ok? ==> Holds(values, container.start + 1, vs[..container.start] + [r.value])
  {
    var childrenLen := valuesCount - container.start;
    var children := values[container.start..valuesCount];
    assert children == vs[container.start..];
    if !container.isList && childrenLen % 2 != 0 {
      return Err(InvalidData);
    }
    var arenaLocal := arena;
    if childrenLen > 0 {
      var block := Alloc(arenaLocal, childrenLen);
      if block == None {
        return Err(OOM);
      }
      arenaLocal := block.value;
      if !container.isList {
        var valid := ValidateDict(children);
        if !valid {
          return Err(InvalidData);
        }
      }
    }
    for k := container.start to valuesCount
      invariant Holds(values, container.start, vs[..container.start])
    {
      values[k] := Num(0);
    }
    var value := if container.isList then List(children) else Dict(children);
    values[container.start] := value;
    return Ok(value, [], arenaLocal);
  }

  // The parser itself: the stacks are two arrays, the values one sized for the
  // worst input and never outgrown, since every value costs two bytes and every
  // open container one.
  method BencodeParse(input: Bytes, arena: Arena, scratch: Arena) returns (r: Outcome)
    ensures r == ParseSpec(input, arena, scratch)
  {
    hide Held, Flat, Encode, Machine, Fits, ParseNum, ParseStr, DictShape;
    if |input| == 0 {
      return Err(InvalidData);
    }
    var remaining := input;
    var arenaLocal := arena;
    var valuesCap := |input| / 2 + 1;
    if Alloc(scratch, valuesCap) == None {
      return Err(OOM);
    }
    var values := new Value[valuesCap](_ => Num(0));
    var valuesCount: nat := 0;
    var containers := new Container[MAX_DEPTH](_ => Container(false, 0));
    var containersCount: nat := 0;
    ghost var open: seq<Container>, vs: seq<Value> := [], [];
    ghost var answer := ParseSpec(input, arena, scratch);
    ReadingStart(input);
    for i := 0 to |input|
      invariant |remaining| <= |input| - i
      invariant valuesCount <= valuesCap && Holds(values, valuesCount, vs)
      invariant containersCount <= MAX_DEPTH && Holds(containers, containersCount, open)
      invariant Reading(input, remaining, open, vs)
      invariant Machine(remaining, open, vs, arenaLocal) == answer
    {
      ReadingBounded(input, remaining, open, vs);
      if remaining == [] {
        MachineStuck(remaining, open, vs, arenaLocal);
        return Err(InvalidData);
      }
      var current := remaining[0];
      if current == TAG_NUM || IsDigit(current) {
        assert valuesCount < valuesCap;
        MachineScalar(remaining, open, vs, arenaLocal);
        var read: Parse<Value>;
        if current == TAG_NUM {
          read := BencodeParseNum(remaining);
        } else {
          read := BencodeParseBytes(remaining);
        }
        if read.Failed? {
          return Err(read.error);
        }
        if containersCount > 0 {
          ReadingScalar(input, remaining, open, vs, read);
        }
        values[valuesCount] := read.value;
        valuesCount := valuesCount + 1;
        vs := vs + [read.value];
        remaining := read.rest;
      } else if current == TAG_LIST || current == TAG_DICT {
        if containersCount >= MAX_DEPTH {
          MachineStuck(remaining, open, vs, arenaLocal);
          return Err(InvalidData);
        }
        ReadingOpen(input, remaining, open, vs);
        OpenStep(current, remaining[1..], open, vs, arenaLocal);
        assert remaining == [current] + remaining[1..];
        containers[containersCount] := Container(current == TAG_LIST, valuesCount);
        containersCount := containersCount + 1;
        open := open + [Container(current == TAG_LIST, valuesCount)];
        remaining := remaining[1..];
        continue;
      } else if current == TAG_END {
        if containersCount == 0 {
          MachineStuck(remaining, open, vs, arenaLocal);
          return Err(InvalidData);
        }
        MachineClose(remaining, open, vs, arenaLocal);
        var container := containers[containersCount - 1];
        LastFits(open, vs);
        assert container == Last(open);
        containers[containersCount - 1] := Container(false, 0);
        containersCount := containersCount - 1;
        var closed := CloseContainer(values, valuesCount, container, arenaLocal, vs);
        if closed.Err? {
          return Err(closed.error);
        }
        ReadingClose(input, remaining, open, vs);
        open, vs := Init(open), vs[..container.start] + [closed.value];
        arenaLocal := closed.arena;
        valuesCount := container.start + 1;
        remaining := remaining[1..];
      } else {
        MachineStuck(remaining, open, vs, arenaLocal);
        return Err(InvalidData);
      }
      if containersCount == 0 {
        assert valuesCount == 1;
        return Ok(values[0], remaining, arenaLocal);
      }
    }
    MachineStuck(remaining, open, vs, arenaLocal);
    return Err(InvalidData);
  }
}
