// OTLP traces as an exporter writes them, field by field with the wire types of
// opentelemetry/proto/trace/v1/trace.proto, and what the collector makes of them.
module OtelTraces {
  import opened Bytes
  import opened Protobuf
  import opened Otel
  import opened OtelEncoding

  // One field of a message. They come in any order, any number of times.
  datatype Part =
    | RefSchemaUrl(text: Bytes) | RefType(text: Bytes) | RefIdKey(text: Bytes) | RefDescriptionKey(text: Bytes)
    | ResourceAttribute(pair: Pair) | ResourceDropped(count: u64) | HasEntityRef(parts: seq<Part>)
    | ScopeName(text: Bytes) | ScopeVersion(text: Bytes) | ScopeAttribute(pair: Pair) | ScopeDropped(count: u64)
    | EventTime(at: u64) | EventName(text: Bytes) | EventAttribute(pair: Pair) | EventDropped(count: u64)
    | LinkTraceId(text: Bytes) | LinkSpanId(text: Bytes) | LinkTraceState(text: Bytes) | LinkAttribute(pair: Pair)
    | LinkDropped(count: u64) | LinkFlags(flags: u32)
    | StatusMessage(text: Bytes) | StatusCode(code: u64)
    | TraceId(id: Bytes) | SpanId(id: Bytes) | TraceState(text: Bytes) | ParentId(id: Bytes) | SpanName(text: Bytes)
    | SpanKind(code: u64) | StartTime(at: u64) | EndTime(at: u64) | SpanAttribute(pair: Pair) | SpanDropped(count: u64)
    | HasEvent(parts: seq<Part>) | DroppedEvents(count: u64) | HasLink(parts: seq<Part>) | DroppedLinks(count: u64)
    | HasStatus(parts: seq<Part>) | SpanFlags(flags: u32)
    | HasScope(parts: seq<Part>) | HasSpan(parts: seq<Part>) | ScopeSchemaUrl(text: Bytes)
    | HasResource(parts: seq<Part>) | HasScopeSpans(parts: seq<Part>) | ResourceSchemaUrl(text: Bytes)
    | HasResourceSpans(parts: seq<Part>)
    | Later(f: Field)

  // How it is written.
  function FieldOf(p: Part): Field
    decreases p, 0
  {
    match p
    case RefSchemaUrl(text) => Scalar(1, Len, text)
    case RefType(text) => Scalar(2, Len, text)
    case RefIdKey(text) => Scalar(3, Len, text)
    case RefDescriptionKey(text) => Scalar(4, Len, text)
    case ResourceAttribute(pair) => Nested(1, PairMessage(pair))
    case ResourceDropped(count) => Scalar(2, Varint, Base128(count))
    case HasEntityRef(parts) => Nested(3, FieldsOf(parts))
    case ScopeName(text) => Scalar(1, Len, text)
    case ScopeVersion(text) => Scalar(2, Len, text)
    case ScopeAttribute(pair) => Nested(3, PairMessage(pair))
    case ScopeDropped(count) => Scalar(4, Varint, Base128(count))
    case EventTime(at) => Scalar(1, I64, Bytes8(at, 8))
    case EventName(text) => Scalar(2, Len, text)
    case EventAttribute(pair) => Nested(3, PairMessage(pair))
    case EventDropped(count) => Scalar(4, Varint, Base128(count))
    case LinkTraceId(text) => Scalar(1, Len, text)
    case LinkSpanId(text) => Scalar(2, Len, text)
    case LinkTraceState(text) => Scalar(3, Len, text)
    case LinkAttribute(pair) => Nested(4, PairMessage(pair))
    case LinkDropped(count) => Scalar(5, Varint, Base128(count))
    case LinkFlags(flags) => Scalar(6, I32, Bytes8(flags, 4))
    case StatusMessage(text) => Scalar(2, Len, text)
    case StatusCode(code) => Scalar(3, Varint, Base128(code))
    case TraceId(id) => Scalar(1, Len, id)
    case SpanId(id) => Scalar(2, Len, id)
    case TraceState(text) => Scalar(3, Len, text)
    case ParentId(id) => Scalar(4, Len, id)
    case SpanName(text) => Scalar(5, Len, text)
    case SpanKind(code) => Scalar(6, Varint, Base128(code))
    case StartTime(at) => Scalar(7, I64, Bytes8(at, 8))
    case EndTime(at) => Scalar(8, I64, Bytes8(at, 8))
    case SpanAttribute(pair) => Nested(9, PairMessage(pair))
    case SpanDropped(count) => Scalar(10, Varint, Base128(count))
    case HasEvent(parts) => Nested(11, FieldsOf(parts))
    case DroppedEvents(count) => Scalar(12, Varint, Base128(count))
    case HasLink(parts) => Nested(13, FieldsOf(parts))
    case DroppedLinks(count) => Scalar(14, Varint, Base128(count))
    case HasStatus(parts) => Nested(15, FieldsOf(parts))
    case SpanFlags(flags) => Scalar(16, I32, Bytes8(flags, 4))
    case HasScope(parts) => Nested(1, FieldsOf(parts))
    case HasSpan(parts) => Nested(2, FieldsOf(parts))
    case ScopeSchemaUrl(text) => Scalar(3, Len, text)
    case HasResource(parts) => Nested(1, FieldsOf(parts))
    case HasScopeSpans(parts) => Nested(2, FieldsOf(parts))
    case ResourceSchemaUrl(text) => Scalar(3, Len, text)
    case HasResourceSpans(parts) => Nested(1, FieldsOf(parts))
    case Later(f) => f
  }

  function FieldsOf(ps: seq<Part>): (fs: seq<Field>)
    ensures |fs| == |ps|
    decreases ps, 1
  {
    if ps == [] then [] else [FieldOf(ps[0])] + FieldsOf(ps[1..])
  }

  // The last field each message has a name for.
  function LastField(kind: Kind): nat {
    match kind
    case Resource => 3
    case SpanLink => 6
    case SpanStatus => 3
    case SpanRecord => 16
    case ScopeSpans => 3
    case ResourceSpans => 3
    case TracesData => 1
    case _ => 4
  }

  // Which messages it is a field of, with what it holds in order all the way down:
  // the three ids have their lengths, and a later schema's fields are anything.
  ghost predicate PartOf(kind: Kind, p: Part)
    decreases p, 0
  {
    match p
    case RefSchemaUrl(_) | RefType(_) | RefIdKey(_) | RefDescriptionKey(_) => kind.EntityRef?
    case ResourceAttribute(_) | ResourceDropped(_) => kind.Resource?
    case HasEntityRef(parts) => kind.Resource? && PartsOf(EntityRef, parts)
    case ScopeName(_) | ScopeVersion(_) | ScopeAttribute(_) | ScopeDropped(_) => kind.Scope?
    case EventTime(_) | EventName(_) | EventAttribute(_) | EventDropped(_) => kind.SpanEvent?
    case LinkTraceId(_) | LinkSpanId(_) | LinkTraceState(_) => kind.SpanLink?
    case LinkAttribute(_) | LinkDropped(_) | LinkFlags(_) => kind.SpanLink?
    case StatusMessage(_) | StatusCode(_) => kind.SpanStatus?
    case TraceId(id) => kind.SpanRecord? && |id| == 16
    case SpanId(id) => kind.SpanRecord? && |id| == 8
    case ParentId(id) => kind.SpanRecord? && (id == [] || |id| == 8)
    case TraceState(_) | SpanName(_) | SpanKind(_) | StartTime(_) | EndTime(_) => kind.SpanRecord?
    case SpanAttribute(_) | SpanDropped(_) | DroppedEvents(_) | DroppedLinks(_) | SpanFlags(_) => kind.SpanRecord?
    case HasEvent(parts) => kind.SpanRecord? && PartsOf(SpanEvent, parts)
    case HasLink(parts) => kind.SpanRecord? && PartsOf(SpanLink, parts)
    case HasStatus(parts) => kind.SpanRecord? && PartsOf(SpanStatus, parts)
    case HasScope(parts) => kind.ScopeSpans? && PartsOf(Scope, parts)
    case HasSpan(parts) => kind.ScopeSpans? && PartsOf(SpanRecord, parts)
    case ScopeSchemaUrl(_) => kind.ScopeSpans?
    case HasResource(parts) => kind.ResourceSpans? && PartsOf(Resource, parts)
    case HasScopeSpans(parts) => kind.ResourceSpans? && PartsOf(ScopeSpans, parts)
    case ResourceSchemaUrl(_) => kind.ResourceSpans?
    case HasResourceSpans(parts) => kind.TracesData? && PartsOf(ResourceSpans, parts)
    case Later(f) => IsMessage(kind) && f.field > LastField(kind) && Written(f)
  }

  // The kinds of message that are not attribute values.
  predicate IsMessage(kind: Kind) {
    !kind.KeyValue? && !kind.ArrayValue? && !kind.KeyValueList? && !kind.AnyValue?
  }

  ghost predicate PartsOf(kind: Kind, ps: seq<Part>)
    decreases ps, 1
  {
    IsMessage(kind) && forall i :: 0 <= i < |ps| ==> PartOf(kind, ps[i])
  }

  // How deep the attribute values in it nest.
  function PartHeight(p: Part): nat
    decreases p, 0
  {
    match p
    case ResourceAttribute(pair) => AnyHeight(pair.value)
    case ScopeAttribute(pair) => AnyHeight(pair.value)
    case EventAttribute(pair) => AnyHeight(pair.value)
    case LinkAttribute(pair) => AnyHeight(pair.value)
    case SpanAttribute(pair) => AnyHeight(pair.value)
    case HasEntityRef(parts) => PartsHeight(parts)
    case HasEvent(parts) => PartsHeight(parts)
    case HasLink(parts) => PartsHeight(parts)
    case HasStatus(parts) => PartsHeight(parts)
    case HasScope(parts) => PartsHeight(parts)
    case HasSpan(parts) => PartsHeight(parts)
    case HasResource(parts) => PartsHeight(parts)
    case HasScopeSpans(parts) => PartsHeight(parts)
    case HasResourceSpans(parts) => PartsHeight(parts)
    case _ => 0
  }

  function PartsHeight(ps: seq<Part>): nat
    decreases ps, 1
  {
    if ps == [] then 0 else Max(PartHeight(ps[0]), PartsHeight(ps[1..]))
  }

  // ---------- What is written has the shape the schema asks for ----------

  // A field in its place, and how deep it goes.
  ghost predicate Placed(kind: Kind, f: Field, height: nat) {
    Written(f) && ShapedField(kind, f) && FieldHeight(kind, f) == height
  }

  lemma {:induction false} TextPlaced(kind: Kind, field: nat, text: Bytes)
    requires 0 < field < FIELD_LIMIT && RuleOf(kind, field) == Plain(Len)
    ensures Placed(kind, Scalar(field, Len, text), 0)
  {
    hide RuleOf;
  }

  lemma {:induction false} IdPlaced(kind: Kind, field: nat, id: Bytes, sizes: set<nat>)
    requires 0 < field < FIELD_LIMIT && RuleOf(kind, field) == Sized(sizes) && |id| in sizes
    ensures Placed(kind, Scalar(field, Len, id), 0)
  {
    hide RuleOf;
  }

  lemma {:induction false} CountPlaced(kind: Kind, field: nat, n: u64)
    requires 0 < field < FIELD_LIMIT && RuleOf(kind, field) == Plain(Varint)
    ensures Placed(kind, Scalar(field, Varint, Base128(n)), 0)
  {
    hide RuleOf, Base128, VarintOf;
    VarintRecord(field, n);
  }

  lemma {:induction false} FixedPlaced(kind: Kind, field: nat, n: nat, wire: Wire)
    requires 0 < field < FIELD_LIMIT && RuleOf(kind, field) == Plain(wire) && (wire.I64? || wire.I32?)
    ensures Placed(kind, Scalar(field, wire, Bytes8(n, if wire.I64? then 8 else 4)), 0)
  {
    hide RuleOf;
  }

  lemma {:induction false} AttributePlaced(kind: Kind, field: nat, pair: Pair)
    requires 0 < field < FIELD_LIMIT && RuleOf(kind, field) == Inside(KeyValue, 0)
    ensures Placed(kind, Nested(field, PairMessage(pair)), AnyHeight(pair.value))
  {
    hide RuleOf, Fitting, PairMessage;
    PairFits(pair);
    NestedFits(kind, field, KeyValue, 0, PairMessage(pair), AnyHeight(pair.value));
  }

  lemma {:induction false} MessagePlaced(kind: Kind, field: nat, child: Kind, ps: seq<Part>)
    requires 0 < field < FIELD_LIMIT && RuleOf(kind, field) == Inside(child, 0) && PartsOf(child, ps)
    ensures Placed(kind, Nested(field, FieldsOf(ps)), PartsHeight(ps))
    decreases ps, 2
  {
    hide RuleOf, Fitting;
    PartsFit(child, ps);
    NestedFits(kind, field, child, 0, FieldsOf(ps), PartsHeight(ps));
  }

  lemma {:induction false} EntityRefPartFits(p: Part)
    requires PartOf(EntityRef, p) && !p.Later?
    ensures Placed(EntityRef, FieldOf(p), PartHeight(p))
    decreases p, 0
  {
    hide Placed, Base128, Bytes8, PartsOf;
    match p {
      case RefSchemaUrl(text) => TextPlaced(EntityRef, 1, text);
      case RefType(text) => TextPlaced(EntityRef, 2, text);
      case RefIdKey(text) => TextPlaced(EntityRef, 3, text);
      case RefDescriptionKey(text) => TextPlaced(EntityRef, 4, text);
    }
  }

  lemma {:induction false} ResourcePartFits(p: Part)
    requires PartOf(Resource, p) && !p.Later?
    ensures Placed(Resource, FieldOf(p), PartHeight(p))
    decreases p, 0
  {
    hide Placed, Base128, Bytes8, PartsOf;
    match p {
      case ResourceAttribute(pair) => AttributePlaced(Resource, 1, pair);
      case ResourceDropped(count) => CountPlaced(Resource, 2, count);
      case HasEntityRef(parts) => MessagePlaced(Resource, 3, EntityRef, parts);
    }
  }

  lemma {:induction false} ScopePartFits(p: Part)
    requires PartOf(Scope, p) && !p.Later?
    ensures Placed(Scope, FieldOf(p), PartHeight(p))
    decreases p, 0
  {
    hide Placed, Base128, Bytes8, PartsOf;
    match p {
      case ScopeName(text) => TextPlaced(Scope, 1, text);
      case ScopeVersion(text) => TextPlaced(Scope, 2, text);
      case ScopeAttribute(pair) => AttributePlaced(Scope, 3, pair);
      case ScopeDropped(count) => CountPlaced(Scope, 4, count);
    }
  }

  lemma {:induction false} SpanEventPartFits(p: Part)
    requires PartOf(SpanEvent, p) && !p.Later?
    ensures Placed(SpanEvent, FieldOf(p), PartHeight(p))
    decreases p, 0
  {
    hide Placed, Base128, Bytes8, PartsOf;
    match p {
      case EventTime(at) => FixedPlaced(SpanEvent, 1, at, I64);
      case EventName(text) => TextPlaced(SpanEvent, 2, text);
      case EventAttribute(pair) => AttributePlaced(SpanEvent, 3, pair);
      case EventDropped(count) => CountPlaced(SpanEvent, 4, count);
    }
  }

  lemma {:induction false} SpanLinkPartFits(p: Part)
    requires PartOf(SpanLink, p) && !p.Later?
    ensures Placed(SpanLink, FieldOf(p), PartHeight(p))
    decreases p, 0
  {
    hide Placed, Base128, Bytes8, PartsOf;
    match p {
      case LinkTraceId(text) => TextPlaced(SpanLink, 1, text);
      case LinkSpanId(text) => TextPlaced(SpanLink, 2, text);
      case LinkTraceState(text) => TextPlaced(SpanLink, 3, text);
      case LinkAttribute(pair) => AttributePlaced(SpanLink, 4, pair);
      case LinkDropped(count) => CountPlaced(SpanLink, 5, count);
      case LinkFlags(flags) => FixedPlaced(SpanLink, 6, flags, I32);
    }
  }

  lemma {:induction false} SpanStatusPartFits(p: Part)
    requires PartOf(SpanStatus, p) && !p.Later?
    ensures Placed(SpanStatus, FieldOf(p), PartHeight(p))
    decreases p, 0
  {
    hide Placed, Base128, Bytes8, PartsOf;
    match p {
      case StatusMessage(text) => TextPlaced(SpanStatus, 2, text);
      case StatusCode(code) => CountPlaced(SpanStatus, 3, code);
    }
  }

  // One of the fields that every span has.
  predicate Kept(p: Part) {
    p.TraceId? || p.SpanId? || p.TraceState? || p.ParentId? || p.SpanName? || p.SpanKind? || p.StartTime? || p.EndTime?
  }

  lemma {:induction false} SpanPartFits(p: Part)
    requires PartOf(SpanRecord, p) && !p.Later? && Kept(p)
    ensures Placed(SpanRecord, FieldOf(p), PartHeight(p))
    decreases p, 0
  {
    hide Placed, Base128, Bytes8, PartsOf;
    match p {
      case TraceId(id) => IdPlaced(SpanRecord, 1, id, {16});
      case SpanId(id) => IdPlaced(SpanRecord, 2, id, {8});
      case TraceState(text) => TextPlaced(SpanRecord, 3, text);
      case ParentId(id) => IdPlaced(SpanRecord, 4, id, {0, 8});
      case SpanName(text) => TextPlaced(SpanRecord, 5, text);
      case SpanKind(code) => CountPlaced(SpanRecord, 6, code);
      case StartTime(at) => FixedPlaced(SpanRecord, 7, at, I64);
      case EndTime(at) => FixedPlaced(SpanRecord, 8, at, I64);
    }
  }

  lemma {:induction false} SpanMorePartFits(p: Part)
    requires PartOf(SpanRecord, p) && !p.Later? && !Kept(p)
    ensures Placed(SpanRecord, FieldOf(p), PartHeight(p))
    decreases p, 0
  {
    hide Placed, Base128, Bytes8, PartsOf;
    match p {
      case SpanAttribute(pair) => AttributePlaced(SpanRecord, 9, pair);
      case SpanDropped(count) => CountPlaced(SpanRecord, 10, count);
      case DroppedEvents(count) => CountPlaced(SpanRecord, 12, count);
      case DroppedLinks(count) => CountPlaced(SpanRecord, 14, count);
      case SpanFlags(flags) => FixedPlaced(SpanRecord, 16, flags, I32);
      case HasEvent(parts) => MessagePlaced(SpanRecord, 11, SpanEvent, parts);
      case HasLink(parts) => MessagePlaced(SpanRecord, 13, SpanLink, parts);
      case HasStatus(parts) => MessagePlaced(SpanRecord, 15, SpanStatus, parts);
    }
  }

  lemma {:induction false} ScopeSpansPartFits(p: Part)
    requires PartOf(ScopeSpans, p) && !p.Later?
    ensures Placed(ScopeSpans, FieldOf(p), PartHeight(p))
    decreases p, 0
  {
    hide Placed, Base128, Bytes8, PartsOf;
    match p {
      case HasScope(parts) => MessagePlaced(ScopeSpans, 1, Scope, parts);
      case HasSpan(parts) => MessagePlaced(ScopeSpans, 2, SpanRecord, parts);
      case ScopeSchemaUrl(text) => TextPlaced(ScopeSpans, 3, text);
    }
  }

  lemma {:induction false} ResourceSpansPartFits(p: Part)
    requires PartOf(ResourceSpans, p) && !p.Later?
    ensures Placed(ResourceSpans, FieldOf(p), PartHeight(p))
    decreases p, 0
  {
    hide Placed, Base128, Bytes8, PartsOf;
    match p {
      case HasResource(parts) => MessagePlaced(ResourceSpans, 1, Resource, parts);
      case HasScopeSpans(parts) => MessagePlaced(ResourceSpans, 2, ScopeSpans, parts);
      case ResourceSchemaUrl(text) => TextPlaced(ResourceSpans, 3, text);
    }
  }

  lemma {:induction false} TracesDataPartFits(p: Part)
    requires PartOf(TracesData, p) && !p.Later?
    ensures Placed(TracesData, FieldOf(p), PartHeight(p))
    decreases p, 0
  {
    hide Placed, Base128, Bytes8, PartsOf;
    match p {
      case HasResourceSpans(parts) => MessagePlaced(TracesData, 1, ResourceSpans, parts);
    }
  }

  lemma {:induction false} LaterFits(kind: Kind, f: Field)
    requires PartOf(kind, Later(f))
    ensures Placed(kind, f, 0)
  {
    hide Written;
  }

  lemma {:induction false} PartFits(kind: Kind, p: Part)
    requires PartOf(kind, p)
    ensures Placed(kind, FieldOf(p), PartHeight(p))
    decreases p, 1
  {
    hide Placed;
    if p.Later? {
      LaterFits(kind, p.f);
    } else {
      assert IsMessage(kind) by { hide PartsOf; }
      match kind {
        case EntityRef => EntityRefPartFits(p);
        case Resource => ResourcePartFits(p);
        case Scope => ScopePartFits(p);
        case SpanEvent => SpanEventPartFits(p);
        case SpanLink => SpanLinkPartFits(p);
        case SpanStatus => SpanStatusPartFits(p);
        case SpanRecord =>
          if Kept(p) {
            SpanPartFits(p);
          } else {
            SpanMorePartFits(p);
          }
        case ScopeSpans => ScopeSpansPartFits(p);
        case ResourceSpans => ResourceSpansPartFits(p);
        case TracesData => TracesDataPartFits(p);
      }
    }
  }

  // What an exporter writes is what the schema asks for, and as deep as its
  // attribute values are.
  lemma {:induction false} PartsFit(kind: Kind, ps: seq<Part>)
    requires PartsOf(kind, ps)
    ensures Fitting(kind, FieldsOf(ps), PartsHeight(ps))
    decreases ps, 1
  {
    if ps == [] {
      FitsNone(kind);
    } else {
      PartFits(kind, ps[0]);
      PartsFit(kind, ps[1..]);
      hide Fitting, Written, ShapedField, FieldHeight, FieldOf, PartHeight, PartOf;
      FitsMore(kind, FieldOf(ps[0]), FieldsOf(ps[1..]), PartsHeight(ps[1..]));
    }
  }

  // ---------- What is written otherwise is refused ----------

  // Something in it has another wire type than the schema's, or an id of another
  // length.
  ghost predicate WrongField(kind: Kind, f: Field)
    decreases f, 0
  {
    match RuleOf(kind, f.field)
    case Skip => false
    case Plain(wire) => FieldTlv(f).wire != wire
    case Sized(sizes) => FieldTlv(f).wire != Len || |FieldTlv(f).value| !in sizes
    case Inside(child, _) => FieldTlv(f).wire != Len || (f.Nested? && Wrong(child, f.fields))
  }

  ghost predicate Wrong(kind: Kind, fs: seq<Field>)
    decreases fs, 1
  {
    exists i :: 0 <= i < |fs| && WrongField(kind, fs[i])
  }

  // However deep it sits, it has the whole refused.
  lemma {:induction false} WrongRefused(kind: Kind, fs: seq<Field>, depth: nat)
    requires AllWritten(fs) && |EncodeTree(fs)| < U64_LIMIT && Wrong(kind, fs)
    ensures MessageError(kind, EncodeTree(fs), depth).Some?
    decreases fs, 2
  {
    hide RuleOf, RecordsError, EncodeRecords, FieldsError, Tlvs;
    TlvsRecords(fs);
    ReadRecords(kind, Tlvs(fs), depth, BLANK);
    WrongAmong(kind, fs, depth);
  }

  lemma {:induction false} WrongAmong(kind: Kind, fs: seq<Field>, depth: nat)
    requires AllWritten(fs) && Wrong(kind, fs)
    requires forall i :: 0 <= i < |fs| ==> |FieldTlv(fs[i]).value| < U64_LIMIT
    ensures FieldsError(kind, Tlvs(fs), depth).Some?
    decreases fs, 1
  {
    hide RuleOf, FieldError, FieldTlv, Written, WrongField;
    assert Tlvs(fs)[0] == FieldTlv(fs[0]) && Tlvs(fs)[1..] == Tlvs(fs[1..]) && fs[0] in fs;
    if WrongField(kind, fs[0]) {
      WrongOne(kind, fs[0], depth);
    } else {
      var i :| 0 <= i < |fs| && WrongField(kind, fs[i]);
      assert fs[1..][i - 1] == fs[i];
      WrongAmong(kind, fs[1..], depth);
    }
  }

  lemma {:induction false} WrongOne(kind: Kind, f: Field, depth: nat)
    requires Written(f) && WrongField(kind, f) && |FieldTlv(f).value| < U64_LIMIT
    ensures FieldError(kind, FieldTlv(f), depth).Some?
    decreases f, 0
  {
    hide RuleOf, MessageError, EncodeTree;
    var rule := RuleOf(kind, f.field);
    if rule.Inside? && f.Nested? {
      WrongRefused(rule.kind, f.fields, depth + rule.deeper);
    }
  }

  // What has the number of a field of a message, and another wire type.
  ghost predicate Mistyped(kind: Kind, p: Part, f: Field) {
    PartOf(kind, p) && !p.Later? && f.field == FieldOf(p).field && FieldTlv(f).wire != FieldTlv(FieldOf(p)).wire
  }

  lemma {:induction false} MistypedIsWrong(kind: Kind, p: Part, f: Field)
    requires Mistyped(kind, p, f)
    ensures WrongField(kind, f)
  {
    hide Mistyped, WrongField;
    if kind.SpanRecord? {
      MistypedSpan(p, f);
    } else if kind.EntityRef? || kind.Resource? || kind.Scope? {
      MistypedContext(kind, p, f);
    } else if kind.SpanEvent? || kind.SpanLink? || kind.SpanStatus? {
      MistypedInner(kind, p, f);
    } else {
      MistypedOuter(kind, p, f);
    }
  }

  lemma {:induction false} MistypedContext(kind: Kind, p: Part, f: Field)
    requires Mistyped(kind, p, f) && (kind.EntityRef? || kind.Resource? || kind.Scope?)
    ensures WrongField(kind, f)
  {
    hide FieldsOf, PairMessage, Base128, Bytes8, EncodeTree, Wrong;
  }

  lemma {:induction false} MistypedInner(kind: Kind, p: Part, f: Field)
    requires Mistyped(kind, p, f) && (kind.SpanEvent? || kind.SpanLink? || kind.SpanStatus?)
    ensures WrongField(kind, f)
  {
    hide FieldsOf, PairMessage, Base128, Bytes8, EncodeTree, Wrong;
  }

  lemma {:induction false} MistypedOuter(kind: Kind, p: Part, f: Field)
    requires Mistyped(kind, p, f) && !kind.SpanRecord?
    requires !kind.EntityRef? && !kind.Resource? && !kind.Scope? && !kind.SpanEvent? && !kind.SpanLink? && !kind.SpanStatus?
    ensures WrongField(kind, f)
  {
    hide FieldsOf, PairMessage, Base128, Bytes8, EncodeTree, Wrong;
  }

  lemma {:induction false} MistypedSpan(p: Part, f: Field)
    requires Mistyped(SpanRecord, p, f)
    ensures WrongField(SpanRecord, f)
  {
    hide FieldsOf, PairMessage, Base128, Bytes8, EncodeTree, Wrong;
  }

  // A trace id is sixteen bytes, a span id eight, and a parent's eight or none.
  lemma {:induction false} MisfitId(f: Field)
    requires var size := |FieldTlv(f).value|;
             (f.field == 1 && size != 16) || (f.field == 2 && size != 8) || (f.field == 4 && size != 0 && size != 8)
    ensures WrongField(SpanRecord, f)
  {
    hide EncodeTree, Wrong;
  }

  // So is an attribute value, a pair or a list of either with another wire type.
  lemma {:induction false} MistypedValue(v: Any, p: Pair, f: Field)
    ensures f.field == AnyField(v).field && FieldTlv(f).wire != FieldTlv(AnyField(v)).wire ==> WrongField(AnyValue, f)
    ensures (f.field == 1 || f.field == 2) && FieldTlv(f).wire != Len ==> WrongField(KeyValue, f)
    ensures f.field == 3 && FieldTlv(f).wire != Varint ==> WrongField(KeyValue, f)
    ensures f.field == 1 && FieldTlv(f).wire != Len ==> WrongField(ArrayValue, f) && WrongField(KeyValueList, f)
  {
    hide EncodeTree, Wrong, Base128, Bytes8;
  }

  // What a later schema adds to them is stepped over.
  lemma {:induction false} LaterValue(t: Tlv, depth: nat)
    ensures t.field > 8 ==> FieldError(AnyValue, t, depth) == None
    ensures t.field > 3 ==> FieldError(KeyValue, t, depth) == None
    ensures t.field > 1 ==> FieldError(ArrayValue, t, depth) == None && FieldError(KeyValueList, t, depth) == None
  {
  }

  // ---------- What is read ----------

  // A status with one more of its fields, and a span with one more of its: the
  // last of a field stands, and a code the schema has no name for changes nothing.
  function StatusRead(status: nat, ps: seq<Part>): nat
    decreases |ps|
  {
    if ps == [] then status
    else StatusRead(if ps[0].StatusCode? && ps[0].code <= 2 then ps[0].code else status, ps[1..])
  }

  function PartRead(span: Span, p: Part): Span {
    match p
    case TraceId(id) => span.(traceId := id)
    case SpanId(id) => span.(id := id)
    case ParentId(id) => span.(parentId := id)
    case SpanName(text) => span.(name := text)
    case SpanKind(code) => if code <= 5 then span.(kind := code) else span
    case StartTime(at) => span.(start := at)
    case EndTime(at) => span.(end := at)
    case HasStatus(parts) => span.(status := StatusRead(span.status, parts))
    case _ => span
  }

  function SpanRead(span: Span, ps: seq<Part>): Span
    decreases |ps|
  {
    if ps == [] then span else SpanRead(PartRead(span, ps[0]), ps[1..])
  }

  // The spans in a message, in the order they were written.
  function SpansWritten(ps: seq<Part>): seq<Span>
    decreases ps, 1
  {
    if ps == [] then [] else SpansWrittenIn(ps[0]) + SpansWritten(ps[1..])
  }

  function SpansWrittenIn(p: Part): seq<Span>
    decreases p, 0
  {
    match p
    case HasSpan(parts) => [SpanRead(BLANK, parts)]
    case HasScopeSpans(parts) => SpansWritten(parts)
    case HasResourceSpans(parts) => SpansWritten(parts)
    case _ => []
  }

  function StatusWithAll(status: nat, ts: seq<Tlv>): nat
    decreases |ts|
  {
    if ts == [] then status else StatusWithAll(StatusWith(status, ts[0]), ts[1..])
  }

  lemma {:induction false} ReadStatus(ts: seq<Tlv>, status: nat)
    requires AllRecords(ts)
    ensures StatusAfter(EncodeRecords(ts), status) == StatusWithAll(status, ts)
    decreases |ts|
  {
    hide RecordOf, Encode, IsRecord, StatusWith;
    if ts == [] {
    } else {
      var rest := EncodeRecords(ts[1..]);
      RecordRoundTrip(ts[0], rest);
      assert (Encode(ts[0]) + rest)[|Encode(ts[0])|..] == rest;
      ReadStatus(ts[1..], StatusWith(status, ts[0]));
    }
  }

  lemma {:induction false} NumberBack(field: nat, n: u64)
    requires 0 < field < FIELD_LIMIT
    ensures NumberOf(Tlv(field, Varint, Base128(n))) == n
  {
    VarintRecord(field, n);
  }

  lemma {:induction false} StatusPart(p: Part, status: nat)
    requires PartOf(SpanStatus, p)
    ensures StatusWith(status, FieldTlv(FieldOf(p))) == if p.StatusCode? && p.code <= 2 then p.code else status
  {
    hide NumberOf, Base128, Bytes8, EncodeTree, FieldsOf, Written;
    if p.StatusCode? {
      NumberBack(3, p.code);
    }
  }

  lemma {:induction false} StatusBack(ps: seq<Part>, status: nat)
    requires PartsOf(SpanStatus, ps)
    ensures StatusWithAll(status, Tlvs(FieldsOf(ps))) == StatusRead(status, ps)
    decreases |ps|
  {
    hide FieldOf, FieldTlv, StatusWith, PartOf;
    if ps == [] {
    } else {
      StatusPart(ps[0], status);
      assert FieldsOf(ps)[1..] == FieldsOf(ps[1..]);
      assert Tlvs(FieldsOf(ps))[1..] == Tlvs(FieldsOf(ps[1..]));
      StatusBack(ps[1..], StatusWith(status, FieldTlv(FieldOf(ps[0]))));
    }
  }

  lemma {:induction false} StatusMessageBack(ps: seq<Part>, status: nat)
    requires PartsOf(SpanStatus, ps) && |EncodeTree(FieldsOf(ps))| < U64_LIMIT
    ensures StatusAfter(EncodeTree(FieldsOf(ps)), status) == StatusRead(status, ps)
  {
    hide PartsOf, AllWritten, EncodeRecords, Tlvs, Shaped, Height;
    PartsFit(SpanStatus, ps);
    TlvsRecords(FieldsOf(ps));
    ReadStatus(Tlvs(FieldsOf(ps)), status);
    StatusBack(ps, status);
  }

  lemma {:induction false} SpanPart(p: Part, span: Span)
    requires PartOf(SpanRecord, p) && |FieldTlv(FieldOf(p)).value| < U64_LIMIT
    ensures SpanWith(span, FieldTlv(FieldOf(p))) == PartRead(span, p)
  {
    if p.HasStatus? {
      SpanStatusPart(p, span);
    } else if p.SpanKind? || p.StartTime? || p.EndTime? {
      SpanNumberPart(p, span);
    } else {
      hide NumberOf, Base128, Bytes8, Fixed64, EncodeTree, FieldsOf, Written, StatusAfter, PairMessage, PartsOf;
    }
  }

  lemma {:induction false} SpanStatusPart(p: Part, span: Span)
    requires PartOf(SpanRecord, p) && p.HasStatus? && |FieldTlv(FieldOf(p)).value| < U64_LIMIT
    ensures SpanWith(span, FieldTlv(FieldOf(p))) == PartRead(span, p)
  {
    hide NumberOf, Base128, Bytes8, Fixed64, EncodeTree, FieldsOf, Written, StatusAfter, PairMessage, PartsOf, StatusRead;
    StatusMessageBack(p.parts, span.status);
  }

  lemma {:induction false} SpanNumberPart(p: Part, span: Span)
    requires p.SpanKind? || p.StartTime? || p.EndTime?
    ensures SpanWith(span, FieldTlv(FieldOf(p))) == PartRead(span, p)
  {
    hide NumberOf, Base128, Bytes8, Fixed64;
    match p {
      case SpanKind(code) => NumberBack(6, code);
      case StartTime(at) => Fixed64Back(at);
      case EndTime(at) => Fixed64Back(at);
    }
  }

  // A span written in any order, with any field any number of times.
  lemma {:induction false} SpanBack(ps: seq<Part>, span: Span)
    requires PartsOf(SpanRecord, ps) && forall i :: 0 <= i < |ps| ==> |FieldTlv(FieldOf(ps[i])).value| < U64_LIMIT
    ensures SpanWithAll(span, Tlvs(FieldsOf(ps))) == SpanRead(span, ps)
    decreases |ps|
  {
    hide FieldOf, FieldTlv, SpanWith, PartRead, PartOf;
    if ps == [] {
    } else {
      SpanPart(ps[0], span);
      assert FieldsOf(ps)[1..] == FieldsOf(ps[1..]);
      assert Tlvs(FieldsOf(ps))[1..] == Tlvs(FieldsOf(ps[1..]));
      SpanBack(ps[1..], SpanWith(span, FieldTlv(FieldOf(ps[0]))));
    }
  }

  lemma {:induction false} FieldsAt(ps: seq<Part>, i: nat)
    requires i < |ps|
    ensures FieldsOf(ps)[i] == FieldOf(ps[i])
  {
    hide FieldOf;
    if i == 0 {
    } else {
      FieldsAt(ps[1..], i - 1);
    }
  }

  // Everything in it is written in fewer bytes than 2^64.
  ghost predicate Small(ps: seq<Part>) {
    forall i :: 0 <= i < |ps| ==> |FieldTlv(FieldOf(ps[i])).value| < U64_LIMIT
  }

  lemma {:induction false} SmallWhen(kind: Kind, ps: seq<Part>)
    requires PartsOf(kind, ps) && |EncodeTree(FieldsOf(ps))| < U64_LIMIT
    ensures Small(ps)
  {
    hide PartsOf, EncodeTree, FieldTlv, FieldOf, AllWritten, Shaped, Height;
    PartsFit(kind, ps);
    TlvsRecords(FieldsOf(ps));
    forall i | 0 <= i < |ps| ensures |FieldTlv(FieldOf(ps[i])).value| < U64_LIMIT {
      FieldsAt(ps, i);
    }
  }

  lemma {:induction false} SpansBack(kind: Kind, ps: seq<Part>)
    requires PartsOf(kind, ps) && Small(ps) && (kind.ScopeSpans? || kind.ResourceSpans? || kind.TracesData?)
    ensures TreeSpans(kind, FieldsOf(ps)) == SpansWritten(ps)
    decreases ps, 1
  {
    hide FieldOf, FieldTlv, FieldSpans, SpansWrittenIn, PartOf;
    if ps == [] {
    } else {
      assert FieldsOf(ps)[1..] == FieldsOf(ps[1..]);
      SpansPart(kind, ps[0]);
      SpansBack(kind, ps[1..]);
    }
  }

  lemma {:induction false} SpansPart(kind: Kind, p: Part)
    requires PartOf(kind, p) && |FieldTlv(FieldOf(p)).value| < U64_LIMIT
    requires kind.ScopeSpans? || kind.ResourceSpans? || kind.TracesData?
    ensures FieldSpans(kind, FieldOf(p)) == SpansWrittenIn(p)
    decreases p, 0
  {
    hide EncodeTree, FieldsOf, TreeSpans, PartsOf, SpanWithAll, Tlvs, Small;
    match p {
      case HasSpan(parts) =>
        SmallWhen(SpanRecord, parts);
        SpanMessageBack(parts);
      case HasScopeSpans(parts) =>
        SmallWhen(ScopeSpans, parts);
        SpansBack(ScopeSpans, parts);
      case HasResourceSpans(parts) =>
        SmallWhen(ResourceSpans, parts);
        SpansBack(ResourceSpans, parts);
      case _ =>
    }
  }

  lemma {:induction false} SpanMessageBack(ps: seq<Part>)
    requires PartsOf(SpanRecord, ps) && Small(ps)
    ensures SpanWithAll(BLANK, Tlvs(FieldsOf(ps))) == SpanRead(BLANK, ps)
  {
    hide PartsOf, FieldTlv, FieldOf;
    SpanBack(ps, BLANK);
  }

  // Traces an exporter wrote, whatever is in them and in whatever order: refused
  // whole exactly when an attribute value nests deeper than 32, and otherwise read
  // as the same spans, in the order they were written.
  lemma {:induction false} TracesBack(ps: seq<Part>)
    requires PartsOf(TracesData, ps) && |EncodeTree(FieldsOf(ps))| < U64_LIMIT
    ensures var b := EncodeTree(FieldsOf(ps));
            && MessageError(TracesData, b, 0) == Verdict(PartsHeight(ps) <= DEPTH_MAX)
            && SpansOf(TracesData, b) == SpansWritten(ps)
  {
    hide PartsOf, EncodeTree, AllWritten, Shaped, Height, MessageError, SpansOf, Small, TreeSpans;
    PartsFit(TracesData, ps);
    PayloadExact(FieldsOf(ps));
    SmallWhen(TracesData, ps);
    SpansBack(TracesData, ps);
  }
}
