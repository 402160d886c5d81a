// OTLP messages and attribute values written as protobuf, and what the collector
// makes of them.
module OtelEncoding {
  import opened Bytes
  import opened Protobuf
  import opened Otel

  function EncodeRecords(ts: seq<Tlv>): Bytes {
    if ts == [] then [] else Encode(ts[0]) + EncodeRecords(ts[1..])
  }

  predicate AllRecords(ts: seq<Tlv>) {
    forall i :: 0 <= i < |ts| ==> IsRecord(ts[i])
  }

  // The first of the fields that is wrong.
  function FieldsError(kind: Kind, ts: seq<Tlv>, depth: nat): Option<ErrorKind> {
    if ts == [] then None
    else
      var error := FieldError(kind, ts[0], depth);
      if error.Some? then error else FieldsError(kind, ts[1..], depth)
  }

  function SpansInAll(kind: Kind, ts: seq<Tlv>): seq<Span> {
    if ts == [] then [] else SpansIn(kind, ts[0]) + SpansInAll(kind, ts[1..])
  }

  function SpanWithAll(span: Span, ts: seq<Tlv>): Span
    decreases |ts|
  {
    if ts == [] then span else SpanWithAll(SpanWith(span, ts[0]), ts[1..])
  }

  // Records written are the records read, by every reader of them.
  lemma {:induction false} ReadRecords(kind: Kind, ts: seq<Tlv>, depth: nat, span: Span)
    requires AllRecords(ts)
    ensures RecordsError(kind, EncodeRecords(ts), depth) == FieldsError(kind, ts, depth)
    ensures SpansOf(kind, EncodeRecords(ts)) == SpansInAll(kind, ts)
    ensures SpanAfter(EncodeRecords(ts), span) == SpanWithAll(span, ts)
    decreases |ts|
  {
    hide RecordOf, Encode, IsRecord, FieldError, SpansIn, SpanWith;
    if ts == [] {
    } else {
      var rest := EncodeRecords(ts[1..]);
      var s := Encode(ts[0]) + rest;
      RecordRoundTrip(ts[0], rest);
      assert s[|Encode(ts[0])|..] == rest;
      ReadRecords(kind, ts[1..], depth, SpanWith(span, ts[0]));
    }
  }

  // A value is shorter than what it is written in.
  lemma {:induction false} Smaller(ts: seq<Tlv>, i: nat)
    requires i < |ts|
    ensures |ts[i].value| < |EncodeRecords(ts)|
  {
    hide Encode;
    if i == 0 {
    } else {
      Smaller(ts[1..], i - 1);
      assert ts[i] == ts[1..][i - 1];
    }
  }

  // ---------- Messages as trees ----------

  // A field as it is written: bytes of its wire type, or a message of its own.
  datatype Field = Scalar(field: nat, wire: Wire, value: Bytes) | Nested(field: nat, fields: seq<Field>)

  function FieldTlv(f: Field): Tlv
    decreases f, 0
  {
    match f
    case Scalar(field, wire, value) => Tlv(field, wire, value)
    case Nested(field, fields) => Tlv(field, Len, EncodeTree(fields))
  }

  function Tlvs(fs: seq<Field>): (ts: seq<Tlv>)
    ensures |ts| == |fs|
    decreases fs, 0
  {
    if fs == [] then [] else [FieldTlv(fs[0])] + Tlvs(fs[1..])
  }

  function EncodeTree(fs: seq<Field>): Bytes
    decreases fs, 1
  {
    EncodeRecords(Tlvs(fs))
  }

  // Field numbers in range, and scalars as long as their wire type says.
  ghost predicate Written(f: Field)
    decreases f
  {
    && 0 < f.field < FIELD_LIMIT
    && match f
       case Nested(_, fields) => forall g | g in fields :: Written(g)
       case Scalar(field, wire, value) => wire == Len || IsRecord(Tlv(field, wire, value))
  }

  ghost predicate AllWritten(fs: seq<Field>) {
    forall f | f in fs :: Written(f)
  }

  lemma {:induction false} TlvsRecords(fs: seq<Field>)
    requires AllWritten(fs) && |EncodeTree(fs)| < U64_LIMIT
    ensures AllRecords(Tlvs(fs))
    ensures forall i :: 0 <= i < |fs| ==> |FieldTlv(fs[i]).value| < U64_LIMIT
  {
    hide EncodeRecords, VarintOf;
    forall i | 0 <= i < |fs| ensures IsRecord(Tlvs(fs)[i]) && |FieldTlv(fs[i]).value| < U64_LIMIT {
      TlvsAt(fs, i);
      Smaller(Tlvs(fs), i);
      assert fs[i] in fs;
    }
  }

  lemma {:induction false} TlvsAt(fs: seq<Field>, i: nat)
    requires i < |fs|
    ensures Tlvs(fs)[i] == FieldTlv(fs[i])
  {
    hide FieldTlv;
    if i == 0 {
    } else {
      TlvsAt(fs[1..], i - 1);
    }
  }

  lemma {:induction false} TlvsAppend(fs: seq<Field>, gs: seq<Field>)
    ensures Tlvs(fs + gs) == Tlvs(fs) + Tlvs(gs)
  {
    hide FieldTlv;
    if fs == [] {
      assert fs + gs == gs;
    } else {
      assert (fs + gs)[1..] == fs[1..] + gs;
      TlvsAppend(fs[1..], gs);
    }
  }

  // ---------- The schema, on trees ----------

  // Every field is what the schema says of it, however deep values nest.
  predicate Shaped(kind: Kind, fs: seq<Field>)
    decreases fs, 1
  {
    forall i :: 0 <= i < |fs| ==> ShapedField(kind, fs[i])
  }

  predicate ShapedField(kind: Kind, f: Field)
    decreases f, 0
  {
    match RuleOf(kind, f.field)
    case Skip => true
    case Plain(wire) => f.Scalar? && f.wire == wire
    case Sized(sizes) => f.Scalar? && f.wire == Len && |f.value| in sizes
    case Inside(child, _) => f.Nested? && Shaped(child, f.fields)
  }

  function Max(a: nat, b: nat): nat {
    if a > b then a else b
  }

  // How many values deep a message goes: an attribute value is one, and what it
  // holds is one more.
  function Height(kind: Kind, fs: seq<Field>): nat
    decreases fs, 1
  {
    Max(if kind.AnyValue? then 1 else 0, Highest(kind, fs))
  }

  function Highest(kind: Kind, fs: seq<Field>): nat
    decreases fs, 0
  {
    if fs == [] then 0 else Max(FieldHeight(kind, fs[0]), Highest(kind, fs[1..]))
  }

  function FieldHeight(kind: Kind, f: Field): nat
    decreases f, 0
  {
    var rule := RuleOf(kind, f.field);
    if rule.Inside? && f.Nested? then rule.deeper + Height(rule.kind, f.fields) else 0
  }

  // What a check answers when all that can be wrong is the depth.
  function Verdict(ok: bool): Option<ErrorKind> {
    if ok then None else Some(InvalidData)
  }

  lemma {:induction false} BothFit(d: nat, a: nat, b: nat)
    ensures d + Max(a, b) <= DEPTH_MAX <==> d + a <= DEPTH_MAX && d + b <= DEPTH_MAX
  {
  }

  // A message of any kind that has the shape the schema asks for is taken exactly
  // when its values go no deeper than is allowed, counted from where it stands:
  // one value too deep anywhere in it and the whole of it is refused.
  lemma {:induction false} TreeExact(kind: Kind, fs: seq<Field>, depth: nat)
    requires AllWritten(fs) && Shaped(kind, fs) && |EncodeTree(fs)| < U64_LIMIT
    requires DepthOk(kind, depth) && depth <= DEPTH_MAX
    ensures MessageError(kind, EncodeTree(fs), depth) == Verdict(depth + Height(kind, fs) <= DEPTH_MAX)
    decreases fs, 1
  {
    hide RuleOf, RecordsError, EncodeRecords, Highest, FieldsError, Tlvs, Max;
    BothFit(depth, if kind.AnyValue? then 1 else 0, Highest(kind, fs));
    if kind.AnyValue? && depth >= DEPTH_MAX {
    } else {
      TlvsRecords(fs);
      ReadRecords(kind, Tlvs(fs), depth, BLANK);
      FieldsExact(kind, fs, depth);
    }
  }

  lemma {:induction false} FieldsExact(kind: Kind, fs: seq<Field>, depth: nat)
    requires AllWritten(fs) && Shaped(kind, fs)
    requires forall i :: 0 <= i < |fs| ==> |FieldTlv(fs[i]).value| < U64_LIMIT
    requires DepthOk(kind, depth) && depth <= DEPTH_MAX && (kind.AnyValue? ==> depth < DEPTH_MAX)
    ensures FieldsError(kind, Tlvs(fs), depth) == Verdict(depth + Highest(kind, fs) <= DEPTH_MAX)
    decreases fs, 0
  {
    hide RuleOf, FieldError, FieldHeight, FieldTlv, Max, Written, ShapedField;
    if fs == [] {
    } else {
      assert Tlvs(fs)[1..] == Tlvs(fs[1..]);
      BothFit(depth, FieldHeight(kind, fs[0]), Highest(kind, fs[1..]));
      assert fs[0] in fs;
      FieldExact(kind, fs[0], depth);
      FieldsExact(kind, fs[1..], depth);
    }
  }

  lemma {:induction false} FieldExact(kind: Kind, f: Field, depth: nat)
    requires Written(f) && ShapedField(kind, f) && |FieldTlv(f).value| < U64_LIMIT
    requires DepthOk(kind, depth) && depth <= DEPTH_MAX && (kind.AnyValue? ==> depth < DEPTH_MAX)
    ensures FieldError(kind, FieldTlv(f), depth) == Verdict(depth + FieldHeight(kind, f) <= DEPTH_MAX)
    decreases f, 0
  {
    DepthKept(kind, f.field, depth);
    DeeperFits(kind, f.field, depth);
    hide RuleOf, MessageError, EncodeTree, Height, IsRecord, DepthOk;
    var rule := RuleOf(kind, f.field);
    if rule.Inside? {
      TreeExact(rule.kind, f.fields, depth + rule.deeper);
    }
  }

  lemma {:induction false} DeeperFits(kind: Kind, field: nat, depth: nat)
    requires DepthOk(kind, depth) && depth <= DEPTH_MAX
    ensures RuleOf(kind, field).Inside? ==> depth + RuleOf(kind, field).deeper <= DEPTH_MAX
  {
  }

  // ---------- Numbers ----------

  function Bytes8(n: nat, k: nat): (s: Bytes)
    ensures |s| == k
  {
    if k == 0 then [] else [n % 256] + Bytes8(n / 256, k - 1)
  }

  function Pow256(k: nat): (p: nat)
    ensures p >= 1
  {
    if k == 0 then 1 else 256 * Pow256(k - 1)
  }

  lemma {:induction false} LittleEndianBack(n: nat, k: nat)
    requires n < Pow256(k)
    ensures LittleEndian(Bytes8(n, k)) == n
  {
    if k == 0 {
    } else {
      LittleEndianBack(n / 256, k - 1);
    }
  }

  lemma {:induction false} Fixed64Back(n: u64)
    ensures Fixed64(Bytes8(n, 8)) == n
  {
    assert Pow256(4) == U32_LIMIT;
    assert Pow256(8) == U64_LIMIT;
    LittleEndianBack(n, 8);
  }

  lemma {:induction false} VarintRecord(field: nat, n: u64)
    requires 0 < field < FIELD_LIMIT
    ensures IsRecord(Tlv(field, Varint, Base128(n))) && NumberOf(Tlv(field, Varint, Base128(n))) == n
  {
    VarintRoundTrip(n, []);
    assert Base128(n) + [] == Base128(n);
  }

  // ---------- Payloads ----------

  // The spans in a message, as it was written.
  function TreeSpans(kind: Kind, fs: seq<Field>): seq<Span>
    decreases fs, 1
  {
    if fs == [] then [] else FieldSpans(kind, fs[0]) + TreeSpans(kind, fs[1..])
  }

  function FieldSpans(kind: Kind, f: Field): seq<Span>
    decreases f, 0
  {
    if f.Scalar? then []
    else if kind.ScopeSpans? && f.field == 2 then [SpanWithAll(BLANK, Tlvs(f.fields))]
    else if kind.ResourceSpans? && f.field == 2 then TreeSpans(ScopeSpans, f.fields)
    else if kind.TracesData? && f.field == 1 then TreeSpans(ResourceSpans, f.fields)
    else []
  }

  // They are the spans collected from it.
  lemma {:induction false} TreeSpansBack(kind: Kind, fs: seq<Field>)
    requires AllWritten(fs) && Shaped(kind, fs) && |EncodeTree(fs)| < U64_LIMIT
    ensures SpansOf(kind, EncodeTree(fs)) == TreeSpans(kind, fs)
    decreases fs, 1
  {
    hide SpansOf, EncodeRecords, Tlvs, SpansInAll, Shaped;
    TlvsRecords(fs);
    ReadRecords(kind, Tlvs(fs), 0, BLANK);
    FieldsSpansBack(kind, fs);
  }

  lemma {:induction false} FieldsSpansBack(kind: Kind, fs: seq<Field>)
    requires AllWritten(fs) && Shaped(kind, fs)
    requires forall i :: 0 <= i < |fs| ==> |FieldTlv(fs[i]).value| < U64_LIMIT
    ensures SpansInAll(kind, Tlvs(fs)) == TreeSpans(kind, fs)
    decreases fs, 0
  {
    hide SpansIn, FieldSpans, FieldTlv, Written, ShapedField;
    if fs == [] {
    } else {
      assert Tlvs(fs)[1..] == Tlvs(fs[1..]) && fs[0] in fs;
      FieldSpansBack(kind, fs[0]);
      FieldsSpansBack(kind, fs[1..]);
    }
  }

  lemma {:induction false} FieldSpansBack(kind: Kind, f: Field)
    requires Written(f) && ShapedField(kind, f) && |FieldTlv(f).value| < U64_LIMIT
    ensures SpansIn(kind, FieldTlv(f)) == FieldSpans(kind, f)
    decreases f, 0
  {
    hide SpansOf, EncodeRecords, Tlvs, TreeSpans, SpanAfter, SpanWithAll;
    if f.Scalar? {
    } else if kind.ScopeSpans? && f.field == 2 {
      TlvsRecords(f.fields);
      ReadRecords(SpanRecord, Tlvs(f.fields), 0, BLANK);
    } else if kind.ResourceSpans? && f.field == 2 {
      TreeSpansBack(ScopeSpans, f.fields);
    } else if kind.TracesData? && f.field == 1 {
      TreeSpansBack(ResourceSpans, f.fields);
    }
  }

  // A whole payload: refused whole when any attribute anywhere in it nests more
  // than 32 values deep, and otherwise read as exactly its spans, in order.
  lemma {:induction false} PayloadExact(fs: seq<Field>)
    requires AllWritten(fs) && Shaped(TracesData, fs) && |EncodeTree(fs)| < U64_LIMIT
    ensures MessageError(TracesData, EncodeTree(fs), 0) == Verdict(Height(TracesData, fs) <= DEPTH_MAX)
    ensures SpansOf(TracesData, EncodeTree(fs)) == TreeSpans(TracesData, fs)
  {
    hide MessageError, SpansOf, Height, TreeSpans, Shaped;
    TreeExact(TracesData, fs, 0);
    TreeSpansBack(TracesData, fs);
  }

  // ---------- Attribute values ----------

  // A value, in each of the forms it takes, and a pair of a key and one.
  datatype Any =
    | Text(text: Bytes) | Bool(truth: bool) | Number(n: u64) | Double(bits: u64)
    | Array(items: seq<Any>) | Pairs(pairs: seq<Pair>) | Blob(bytes: Bytes) | Strindex(index: u64)
  datatype Pair = Pair(key: Bytes, value: Any, strindex: Option<u64>)

  // How many values deep it goes.
  function AnyHeight(v: Any): (h: nat)
    ensures h >= 1
    decreases v, 0
  {
    match v
    case Array(items) => 1 + HighestItem(items)
    case Pairs(pairs) => 1 + HighestPair(pairs)
    case _ => 1
  }

  function HighestItem(items: seq<Any>): nat
    decreases items
  {
    if items == [] then 0 else Max(AnyHeight(items[0]), HighestItem(items[1..]))
  }

  function HighestPair(pairs: seq<Pair>): nat
    decreases pairs
  {
    if pairs == [] then 0 else Max(AnyHeight(pairs[0].value), HighestPair(pairs[1..]))
  }

  function AnyField(v: Any): Field
    decreases v, 0
  {
    match v
    case Text(text) => Scalar(1, Len, text)
    case Bool(truth) => Scalar(2, Varint, Base128(if truth then 1 else 0))
    case Number(n) => Scalar(3, Varint, Base128(n))
    case Double(bits) => Scalar(4, I64, Bytes8(bits, 8))
    case Array(items) => Nested(5, ItemFields(items))
    case Pairs(pairs) => Nested(6, PairMessages(pairs))
    case Blob(bytes) => Scalar(7, Len, bytes)
    case Strindex(index) => Scalar(8, Varint, Base128(index))
  }

  function ItemFields(items: seq<Any>): seq<Field>
    decreases items
  {
    if items == [] then [] else [Nested(1, [AnyField(items[0])])] + ItemFields(items[1..])
  }

  function PairMessages(pairs: seq<Pair>): seq<Field>
    decreases pairs
  {
    if pairs == [] then [] else [Nested(1, PairMessage(pairs[0]))] + PairMessages(pairs[1..])
  }

  function PairMessage(p: Pair): seq<Field>
    decreases p
  {
    [Scalar(1, Len, p.key), Nested(2, [AnyField(p.value)])]
    + if p.strindex.Some? then [Scalar(3, Varint, Base128(p.strindex.value))] else []
  }

  // A value of any form has the shape the schema asks for, and goes as deep as it
  // should.
  ghost predicate Fitting(kind: Kind, fs: seq<Field>, height: nat) {
    AllWritten(fs) && Shaped(kind, fs) && Height(kind, fs) == height
  }

  lemma {:induction false} FitsNone(kind: Kind)
    ensures Fitting(kind, [], if kind.AnyValue? then 1 else 0)
  {
  }

  lemma {:induction false} FitsMore(kind: Kind, f: Field, fs: seq<Field>, height: nat)
    requires Fitting(kind, fs, height) && Written(f) && ShapedField(kind, f)
    ensures Fitting(kind, [f] + fs, Max(FieldHeight(kind, f), height))
  {
    hide Written, ShapedField, FieldHeight;
    var longer := [f] + fs;
    assert longer[1..] == fs;
    forall i | 0 <= i < |longer| ensures ShapedField(kind, longer[i]) {
      assert i > 0 ==> longer[i] == fs[i - 1];
    }
    assert Highest(kind, longer) == Max(FieldHeight(kind, f), Highest(kind, fs));
  }

  lemma {:induction false} NestedFits(kind: Kind, field: nat, child: Kind, deeper: nat, fs: seq<Field>, height: nat)
    requires RuleOf(kind, field) == Inside(child, deeper) && 0 < field < FIELD_LIMIT && Fitting(child, fs, height)
    ensures var f := Nested(field, fs);
            Written(f) && ShapedField(kind, f) && FieldHeight(kind, f) == deeper + height
  {
    hide RuleOf, Shaped, Height;
  }

  lemma {:induction false} AnyFits(v: Any)
    ensures Fitting(AnyValue, [AnyField(v)], AnyHeight(v))
    decreases v, 1
  {
    var f := AnyField(v);
    AnyFieldFits(v);
    hide AnyField, Fitting, Written, ShapedField, FieldHeight;
    FitsNone(AnyValue);
    FitsMore(AnyValue, f, [], 1);
    assert [f] + [] == [f];
  }

  lemma {:induction false} AnyFieldFits(v: Any)
    ensures var f := AnyField(v);
            Written(f) && ShapedField(AnyValue, f) && Max(FieldHeight(AnyValue, f), 1) == AnyHeight(v)
    decreases v, 0
  {
    hide Bytes8, Base128, VarintOf, Fitting;
    match v {
      case Array(items) =>
        ItemsFit(items);
        NestedFits(AnyValue, 5, ArrayValue, 0, ItemFields(items), HeightInside(HighestItem(items)));
      case Pairs(pairs) =>
        PairsFit(pairs);
        NestedFits(AnyValue, 6, KeyValueList, 0, PairMessages(pairs), HeightInside(HighestPair(pairs)));
      case Bool(truth) => VarintRecord(2, if truth then 1 else 0);
      case Number(n) => VarintRecord(3, n);
      case Strindex(index) => VarintRecord(8, index);
      case _ =>
    }
  }

  // One more than what is inside, if anything is.
  function HeightInside(highest: nat): nat {
    if highest == 0 then 0 else 1 + highest
  }

  lemma {:induction false} ItemsFit(items: seq<Any>)
    ensures Fitting(ArrayValue, ItemFields(items), HeightInside(HighestItem(items)))
    decreases items, 0
  {
    if items == [] {
      FitsNone(ArrayValue);
    } else {
      AnyFits(items[0]);
      ItemsFit(items[1..]);
      hide Fitting, Written, ShapedField, FieldHeight;
      NestedFits(ArrayValue, 1, AnyValue, 1, [AnyField(items[0])], AnyHeight(items[0]));
      FitsMore(ArrayValue, Nested(1, [AnyField(items[0])]), ItemFields(items[1..]),
               HeightInside(HighestItem(items[1..])));
    }
  }

  lemma {:induction false} PairsFit(pairs: seq<Pair>)
    ensures Fitting(KeyValueList, PairMessages(pairs), HeightInside(HighestPair(pairs)))
    decreases pairs, 0
  {
    if pairs == [] {
      FitsNone(KeyValueList);
    } else {
      PairFits(pairs[0]);
      PairsFit(pairs[1..]);
      hide Fitting, Written, ShapedField, FieldHeight;
      NestedFits(KeyValueList, 1, KeyValue, 1, PairMessage(pairs[0]), AnyHeight(pairs[0].value));
      FitsMore(KeyValueList, Nested(1, PairMessage(pairs[0])), PairMessages(pairs[1..]),
               HeightInside(HighestPair(pairs[1..])));
    }
  }

  lemma {:induction false} PairFits(p: Pair)
    ensures Fitting(KeyValue, PairMessage(p), AnyHeight(p.value))
    decreases p, 0
  {
    AnyFits(p.value);
    NestedFits(KeyValue, 2, AnyValue, 0, [AnyField(p.value)], AnyHeight(p.value));
    FitsNone(KeyValue);
    var key, value := Scalar(1, Len, p.key), Nested(2, [AnyField(p.value)]);
    assert Written(key) && ShapedField(KeyValue, key) && FieldHeight(KeyValue, key) == 0;
    if p.strindex.Some? {
      var index := Scalar(3, Varint, Base128(p.strindex.value));
      VarintRecord(3, p.strindex.value);
      assert ShapedField(KeyValue, index) && FieldHeight(KeyValue, index) == 0;
      hide Fitting, Written, ShapedField, FieldHeight, Base128, AnyField;
      FitsMore(KeyValue, index, [], 0);
      assert [index] + [] == [index];
      FitsMore(KeyValue, value, [index], 0);
      FitsMore(KeyValue, key, [value] + [index], AnyHeight(p.value));
      assert PairMessage(p) == [key] + ([value] + [index]);
    } else {
      hide Fitting, Written, ShapedField, FieldHeight, AnyField;
      FitsMore(KeyValue, value, [], 0);
      FitsMore(KeyValue, key, [value] + [], AnyHeight(p.value));
      assert PairMessage(p) == [key] + ([value] + []);
    }
  }

  // It is taken exactly when it goes no deeper than is allowed, counted from where
  // it stands.
  lemma {:induction false} AnyExact(v: Any, depth: nat)
    requires |EncodeTree([AnyField(v)])| < U64_LIMIT && depth <= DEPTH_MAX
    ensures MessageError(AnyValue, EncodeTree([AnyField(v)]), depth) == Verdict(depth + AnyHeight(v) <= DEPTH_MAX)
  {
    hide MessageError, EncodeTree, AllWritten, Shaped, Height;
    AnyFits(v);
    TreeExact(AnyValue, [AnyField(v)], depth);
  }
}
