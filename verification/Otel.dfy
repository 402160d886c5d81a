// OTLP traces (otel.c): nested protobuf messages checked against their schema,
// and the spans in them collected in wire order.
module Otel {
  import opened Bytes
  import opened Protobuf

  const DEPTH_MAX: nat := 32

  datatype Kind =
    | KeyValue | ArrayValue | KeyValueList | AnyValue
    | EntityRef | Resource | Scope | SpanEvent | SpanLink | SpanStatus
    | SpanRecord | ScopeSpans | ResourceSpans | TracesData

  // What the schema has to say of a field: nothing, a wire type, a length, or a
  // message of its own, `deeper` values down.
  datatype Rule = Skip | Plain(wire: Wire) | Sized(sizes: set<nat>) | Inside(kind: Kind, deeper: nat)

  function RuleOf(kind: Kind, field: nat): Rule {
    match kind
    case KeyValue =>
      if field == 1 then Plain(Len) else if field == 2 then Inside(AnyValue, 0)
      else if field == 3 then Plain(Varint) else Skip
    case ArrayValue => if field == 1 then Inside(AnyValue, 1) else Skip
    case KeyValueList => if field == 1 then Inside(KeyValue, 1) else Skip
    case AnyValue =>
      if field == 1 || field == 7 then Plain(Len)
      else if field == 2 || field == 3 || field == 8 then Plain(Varint)
      else if field == 4 then Plain(I64)
      else if field == 5 then Inside(ArrayValue, 0)
      else if field == 6 then Inside(KeyValueList, 0)
      else Skip
    case EntityRef => if 1 <= field <= 4 then Plain(Len) else Skip
    case Resource =>
      if field == 1 then Inside(KeyValue, 0) else if field == 2 then Plain(Varint)
      else if field == 3 then Inside(EntityRef, 0) else Skip
    case Scope =>
      if field == 1 || field == 2 then Plain(Len) else if field == 3 then Inside(KeyValue, 0)
      else if field == 4 then Plain(Varint) else Skip
    case SpanEvent =>
      if field == 1 then Plain(I64) else if field == 2 then Plain(Len)
      else if field == 3 then Inside(KeyValue, 0) else if field == 4 then Plain(Varint) else Skip
    case SpanLink =>
      if 1 <= field <= 3 then Plain(Len) else if field == 4 then Inside(KeyValue, 0)
      else if field == 5 then Plain(Varint) else if field == 6 then Plain(I32) else Skip
    case SpanStatus => if field == 2 then Plain(Len) else if field == 3 then Plain(Varint) else Skip
    case SpanRecord =>
      if field == 1 then Sized({16}) else if field == 2 then Sized({8})
      else if field == 4 then Sized({0, 8}) else if field == 3 || field == 5 then Plain(Len)
      else if field == 6 || field == 10 || field == 12 || field == 14 then Plain(Varint)
      else if field == 7 || field == 8 then Plain(I64)
      else if field == 9 then Inside(KeyValue, 0) else if field == 11 then Inside(SpanEvent, 0)
      else if field == 13 then Inside(SpanLink, 0) else if field == 15 then Inside(SpanStatus, 0)
      else if field == 16 then Plain(I32) else Skip
    case ScopeSpans =>
      if field == 1 then Inside(Scope, 0) else if field == 2 then Inside(SpanRecord, 0)
      else if field == 3 then Plain(Len) else Skip
    case ResourceSpans =>
      if field == 1 then Inside(Resource, 0) else if field == 2 then Inside(ScopeSpans, 0)
      else if field == 3 then Plain(Len) else Skip
    case TracesData => if field == 1 then Inside(ResourceSpans, 0) else Skip
  }

  // The first thing wrong with a message, in wire order.
  function MessageError(kind: Kind, body: Bytes, depth: nat): Option<ErrorKind>
    decreases |body|, 2
  {
    if kind.AnyValue? && depth >= DEPTH_MAX then Some(InvalidData) else RecordsError(kind, body, depth)
  }

  function RecordsError(kind: Kind, body: Bytes, depth: nat): Option<ErrorKind>
    decreases |body|, 1
  {
    if body == [] then None
    else
      match RecordOf(body)
      case Bad(error) => Some(error)
      case Good(t, size) =>
        var error := FieldError(kind, t, depth);
        if error.Some? then error else RecordsError(kind, body[size..], depth)
  }

  function FieldError(kind: Kind, t: Tlv, depth: nat): Option<ErrorKind>
    decreases |t.value|, 3
  {
    match RuleOf(kind, t.field)
    case Skip => None
    case Plain(wire) => if t.wire == wire then None else Some(InvalidData)
    case Sized(sizes) => if t.wire == Len && |t.value| in sizes then None else Some(InvalidData)
    case Inside(child, deeper) =>
      if t.wire == Len then MessageError(child, t.value, depth + deeper) else Some(InvalidData)
  }

  // What the checks below assert of the depth they are given.
  predicate DepthOk(kind: Kind, depth: nat) {
    match kind
    case KeyValue => depth <= DEPTH_MAX
    case ArrayValue => depth < DEPTH_MAX
    case KeyValueList => depth < DEPTH_MAX
    case AnyValue => true
    case _ => depth == 0
  }

  // A message checked, record by record.
  method Check(kind: Kind, body: Bytes, depth: nat) returns (error: Option<ErrorKind>)
    requires DepthOk(kind, depth)
    ensures error == MessageError(kind, body, depth)
    decreases |body|, 2
  {
    hide RuleOf, RecordOf;
    if kind.AnyValue? && depth >= DEPTH_MAX {
      return Some(InvalidData);
    }
    var remaining := body;
    for i := 0 to |body|
      invariant |remaining| <= |body| - i
      invariant RecordsError(kind, body, depth) == RecordsError(kind, remaining, depth)
    {
      if |remaining| == 0 {
        break;
      }
      var record := TlvRead(remaining);
      match record {
        case Bad(e) =>
          return Some(e);
        case Good(t, size) =>
          RecordShrinks(remaining);
          error := CheckField(kind, t, depth);
          if error.Some? {
            return;
          }
          remaining := remaining[size..];
      }
    }
    assert remaining == [];
    return None;
  }

  method CheckField(kind: Kind, t: Tlv, depth: nat) returns (error: Option<ErrorKind>)
    requires DepthOk(kind, depth) && (kind.AnyValue? ==> depth < DEPTH_MAX)
    ensures error == FieldError(kind, t, depth)
    decreases |t.value|, 3
  {
    DepthKept(kind, t.field, depth);
    hide RuleOf, DepthOk;
    match RuleOf(kind, t.field) {
      case Skip =>
        error := None;
      case Plain(wire) =>
        error := if t.wire == wire then None else Some(InvalidData);
      case Sized(sizes) =>
        error := if t.wire == Len && |t.value| in sizes then None else Some(InvalidData);
      case Inside(child, deeper) =>
        if t.wire != Len {
          return Some(InvalidData);
        }
        error := Check(child, t.value, depth + deeper);
    }
  }

  lemma {:induction false} RecordShrinks(s: Bytes)
    ensures RecordOf(s).Good? ==> 0 < RecordOf(s).size <= |s| && |RecordOf(s).tlv.value| < |s|
  {
    hide ValueOf, VarintOf;
  }

  // No check is ever begun deeper than it may be.
  lemma {:induction false} DepthKept(kind: Kind, field: nat, depth: nat)
    requires DepthOk(kind, depth) && (kind.AnyValue? ==> depth < DEPTH_MAX)
    ensures var rule := RuleOf(kind, field); rule.Inside? ==> DepthOk(rule.kind, depth + rule.deeper)
  {
  }

  // ---------- Spans ----------

  datatype Span = Span(traceId: Bytes, id: Bytes, parentId: Bytes, name: Bytes, start: u64, end: u64, kind: nat,
                       status: nat)

  const BLANK: Span := Span([], [], [], [], 0, 0, 0, 0)

  // Least significant byte first.
  function LittleEndian(s: Bytes): nat {
    if s == [] then 0 else s[0] as nat + 256 * LittleEndian(s[1..])
  }

  function Fixed64(s: Bytes): u64 {
    LittleEndian(s) % U64_LIMIT
  }

  function NumberOf(t: Tlv): u64 {
    if VarintOf(t.value).Some? then VarintOf(t.value).value.0 else 0
  }

  function StatusWith(status: nat, t: Tlv): nat {
    if t.field == 3 && NumberOf(t) <= 2 then NumberOf(t) else status
  }

  function StatusAfter(body: Bytes, status: nat): nat {
    if body == [] || RecordOf(body).Bad? then status
    else
      var r := RecordOf(body);
      StatusAfter(body[r.size..], StatusWith(status, r.tlv))
  }

  // A span with one more of its records read: the last of a field wins.
  function SpanWith(span: Span, t: Tlv): Span {
    if t.field == 1 then span.(traceId := t.value)
    else if t.field == 2 then span.(id := t.value)
    else if t.field == 4 then span.(parentId := t.value)
    else if t.field == 5 then span.(name := t.value)
    else if t.field == 6 then (if NumberOf(t) <= 5 then span.(kind := NumberOf(t)) else span)
    else if t.field == 7 then span.(start := Fixed64(t.value))
    else if t.field == 8 then span.(end := Fixed64(t.value))
    else if t.field == 15 then span.(status := StatusAfter(t.value, span.status))
    else span
  }

  function SpanAfter(body: Bytes, span: Span): Span {
    if body == [] || RecordOf(body).Bad? then span
    else
      var r := RecordOf(body);
      SpanAfter(body[r.size..], SpanWith(span, r.tlv))
  }

  // The spans nested in a message, in wire order.
  function SpansOf(kind: Kind, body: Bytes): seq<Span>
    decreases |body|, 1
  {
    if body == [] || RecordOf(body).Bad? then []
    else
      var r := RecordOf(body);
      SpansIn(kind, r.tlv) + SpansOf(kind, body[r.size..])
  }

  function SpansIn(kind: Kind, t: Tlv): seq<Span>
    decreases |t.value|, 2
  {
    if kind.ScopeSpans? && t.field == 2 then [SpanAfter(t.value, BLANK)]
    else if kind.ResourceSpans? && t.field == 2 then SpansOf(ScopeSpans, t.value)
    else if kind.TracesData? && t.field == 1 then SpansOf(ResourceSpans, t.value)
    else []
  }

  method ParseStatus(body: Bytes, status0: nat) returns (error: Option<ErrorKind>, status: nat)
    ensures error == MessageError(SpanStatus, body, 0)
    ensures error.None? ==> status == StatusAfter(body, status0)
  {
    hide RuleOf, RecordOf, StatusWith;
    status := status0;
    var remaining := body;
    for i := 0 to |body|
      invariant |remaining| <= |body| - i
      invariant RecordsError(SpanStatus, body, 0) == RecordsError(SpanStatus, remaining, 0)
      invariant StatusAfter(body, status0) == StatusAfter(remaining, status)
    {
      if |remaining| == 0 {
        break;
      }
      var record := TlvRead(remaining);
      if record.Bad? {
        return Some(record.error), status;
      }
      RecordShrinks(remaining);
      error := CheckField(SpanStatus, record.tlv, 0);
      if error.Some? {
        return;
      }
      status := StatusWith(status, record.tlv);
      remaining := remaining[record.size..];
    }
    assert remaining == [];
    error := None;
  }

  method ParseSpan(body: Bytes) returns (error: Option<ErrorKind>, span: Span)
    ensures error == MessageError(SpanRecord, body, 0)
    ensures error.None? ==> span == SpanAfter(body, BLANK)
  {
    hide RuleOf, RecordOf, SpanWith;
    span := BLANK;
    var remaining := body;
    for i := 0 to |body|
      invariant |remaining| <= |body| - i
      invariant RecordsError(SpanRecord, body, 0) == RecordsError(SpanRecord, remaining, 0)
      invariant SpanAfter(body, BLANK) == SpanAfter(remaining, span)
    {
      if |remaining| == 0 {
        break;
      }
      var record := TlvRead(remaining);
      if record.Bad? {
        return Some(record.error), span;
      }
      RecordShrinks(remaining);
      error, span := ParseSpanField(record.tlv, span);
      if error.Some? {
        return;
      }
      remaining := remaining[record.size..];
    }
    assert remaining == [];
    error := None;
  }

  method ParseSpanField(t: Tlv, before: Span) returns (error: Option<ErrorKind>, span: Span)
    ensures error == FieldError(SpanRecord, t, 0)
    ensures error.None? ==> span == SpanWith(before, t)
  {
    hide MessageError, StatusAfter;
    span := before;
    if t.field == 15 {
      if t.wire != Len {
        return Some(InvalidData), span;
      }
      var status;
      error, status := ParseStatus(t.value, span.status);
      span := span.(status := status);
    } else {
      error := CheckField(SpanRecord, t, 0);
      if error.None? {
        span := SpanWith(span, t);
      }
    }
  }

  // ---------- Collecting ----------

  // How a collection ends that is to add `found` to the `count0` spans in an
  // array of `cap`, where `wrong` is what is wrong with the bytes: with all of
  // them added, or stopped by the first thing wrong or by the end of the array.
  ghost predicate Collected(was: seq<Span>, now: seq<Span>, cap: nat, found: seq<Span>, wrong: Option<ErrorKind>,
                            error: Option<ErrorKind>)
  {
    && |was| <= |now| <= cap
    && (error.None? <==> wrong.None? && |was| + |found| <= cap)
    && (error.None? ==> now == was + found)
    && (error.Some? ==> error == wrong || (error == Some(Range) && |now| == cap))
  }

  lemma {:induction false} CollectedGoesOn(was: seq<Span>, done: seq<Span>, now: seq<Span>, cap: nat, next: seq<Span>,
                                           rest: seq<Span>, wrong: Option<ErrorKind>, error: Option<ErrorKind>)
    requires Collected(was + done, now, cap, next, wrong, error)
    ensures error.None? ==> now == was + (done + next) && wrong.None?
    ensures error.Some? && wrong.Some? ==> Collected(was, now, cap, done + next + rest, wrong, error)
    ensures error.Some? && wrong.None? ==> forall w :: Collected(was, now, cap, done + next + rest, w, error)
  {
    assert was + done + next == was + (done + next);
  }

  predicate Collects(kind: Kind) {
    kind.ScopeSpans? || kind.ResourceSpans? || kind.TracesData?
  }

  // The spans nested in a message, added to the array behind the `count0` there.
  method Collect(kind: Kind, body: Bytes, spans: array<Span>, count0: nat)
    returns (error: Option<ErrorKind>, count: nat)
    requires Collects(kind) && count0 <= spans.Length
    modifies spans
    ensures count <= spans.Length
    ensures Collected(old(spans[..count0]), spans[..count], spans.Length, SpansOf(kind, body),
                      MessageError(kind, body, 0), error)
    decreases |body|, 1
  {
    hide RuleOf, RecordOf, FieldError, SpansIn, Collected;
    count := count0;
    ghost var was, done: seq<Span> := spans[..count0], [];
    var remaining := body;
    assert was + done == spans[..count] && done + SpansOf(kind, body) == SpansOf(kind, body);
    for i := 0 to |body|
      invariant |remaining| <= |body| - i && count <= spans.Length
      invariant RecordsError(kind, body, 0) == RecordsError(kind, remaining, 0)
      invariant spans[..count] == was + done
      invariant SpansOf(kind, body) == done + SpansOf(kind, remaining)
    {
      if |remaining| == 0 {
        break;
      }
      var record := TlvRead(remaining);
      if record.Bad? {
        Refused(was, spans[..count], spans.Length, SpansOf(kind, body), record.error);
        return Some(record.error), count;
      }
      RecordShrinks(remaining);
      ghost var next, rest := SpansIn(kind, record.tlv), SpansOf(kind, remaining[record.size..]);
      ghost var wrong := FieldError(kind, record.tlv, 0);
      assert SpansOf(kind, body) == done + next + rest;
      error, count := CollectField(kind, record.tlv, spans, count);
      CollectedGoesOn(was, done, spans[..count], spans.Length, next, rest, wrong, error);
      if error.Some? {
        return;
      }
      done := done + next;
      remaining := remaining[record.size..];
    }
    assert remaining == [];
    assert SpansOf(kind, body) == done;
    Finished(was, spans[..count], spans.Length, done);
    error := None;
  }

  lemma {:induction false} Refused(was: seq<Span>, now: seq<Span>, cap: nat, found: seq<Span>, error: ErrorKind)
    requires |was| <= |now| <= cap
    ensures Collected(was, now, cap, found, Some(error), Some(error))
  {
  }

  lemma {:induction false} Finished(was: seq<Span>, now: seq<Span>, cap: nat, found: seq<Span>)
    requires now == was + found && |now| <= cap
    ensures Collected(was, now, cap, found, None, None)
  {
  }

  method CollectField(kind: Kind, t: Tlv, spans: array<Span>, count0: nat)
    returns (error: Option<ErrorKind>, count: nat)
    requires Collects(kind) && count0 <= spans.Length
    modifies spans
    ensures count <= spans.Length
    ensures Collected(old(spans[..count0]), spans[..count], spans.Length, SpansIn(kind, t), FieldError(kind, t, 0), error)
    decreases |t.value|, 2
  {
    hide MessageError, SpansOf, SpanAfter;
    ghost var was := spans[..count0];
    count := count0;
    if kind.ScopeSpans? && t.field == 2 {
      var span := BLANK;
      error := Some(InvalidData);
      if t.wire == Len {
        error, span := ParseSpan(t.value);
      }
      if spans.Length == count {
        return Some(Range), count;
      }
      spans[count] := span;
      count := count + 1;
      assert spans[..count] == was + [span];
    } else if (kind.ResourceSpans? && t.field == 2) || (kind.TracesData? && t.field == 1) {
      if t.wire != Len {
        return Some(InvalidData), count;
      }
      error, count := Collect(if kind.ResourceSpans? then ScopeSpans else ResourceSpans, t.value, spans, count);
    } else {
      error := CheckField(kind, t, 0);
      assert spans[..count] == was + [];
    }
  }

  // The whole payload: on success exactly the spans nested in it, in wire order;
  // never more than there is room for.
  method ParseTraces(input: Bytes, spans: array<Span>) returns (error: Option<ErrorKind>, count: nat)
    modifies spans
    ensures count <= spans.Length
    ensures error.None? <==> MessageError(TracesData, input, 0) == None && |SpansOf(TracesData, input)| <= spans.Length
    ensures error.None? ==> spans[..count] == SpansOf(TracesData, input)
    ensures error.Some? ==> error == MessageError(TracesData, input, 0) || (error == Some(Range) && count == spans.Length)
  {
    hide MessageError, SpansOf;
    error, count := Collect(TracesData, input, spans, 0);
    assert old(spans[..0]) == [];
  }
}
