// What the HTTP server makes of a connection's bytes, read by read (otel.c): when
// it answers, and what body it hands to the collector.
module HttpConversation {
  import opened Bytes
  import opened Http
  import opened HttpBuilder
  import opened Otel
  import opened OtelEncoding
  import opened OtelTraces

  const RECV_CAP: nat := 8192
  const HEADERS_CAP: nat := 128
  const SPANS_MAX: nat := 1024

  // What the handler's one completion carries.
  datatype Op = Nothing | Reading | Writing | Closing

  // A request that is answered: HTTP/1.x.
  predicate Answerable(r: Request) {
    r.Whole? && r.line.major == 1
  }

  // What follows on a read: more of the request is waited for while there is
  // room, a whole one is answered, and anything else is the end.
  function Follow(failed: bool, data: Bytes, recv: Bytes): Op {
    if failed || data == [] then Closing
    else
      match RequestOf(recv, HEADERS_CAP)
      case Incomplete => if |recv| == RECV_CAP then Closing else Reading
      case Refused(_) => Closing
      case Whole(line, _, _) => if line.major == 1 then Writing else Closing
  }

  lemma {:induction false} FollowExact(failed: bool, data: Bytes, recv: Bytes)
    ensures var r, op := RequestOf(recv, 128), Follow(failed, data, recv);
            && (op.Writing? <==> !failed && data != [] && r.Whole? && r.line.major == 1)
            && (op.Reading? <==> !failed && data != [] && r.Incomplete? && |recv| != 8192)
            && (op.Writing? || op.Reading? || op.Closing?)
  {
    hide RequestOf;
  }

  // The body handed to the collector: what is behind the headers of a request
  // that is answered.
  function HandedOn(recv: Bytes): Option<Bytes> {
    var r := RequestOf(recv, HEADERS_CAP);
    if Answerable(r) && r.body <= |recv| then Some(recv[r.body..]) else None
  }

  // The spans logged of a body: all of them, or none when anything is wrong or
  // they are too many.
  function SpansLogged(handed: Option<Bytes>): seq<Span> {
    if handed.None? || MessageError(TracesData, handed.value, 0).Some? then []
    else
      var spans := SpansOf(TracesData, handed.value);
      if |spans| <= SPANS_MAX then spans else []
  }

  method LogSpans(body: Bytes) returns (logged: seq<Span>)
    ensures logged == SpansLogged(Some(body))
  {
    hide MessageError, SpansOf;
    var spans := new Span[SPANS_MAX](_ => BLANK);
    var error, count := ParseTraces(body, spans);
    logged := if error.None? then spans[..count] else [];
  }

  // A body that is traces, written by any exporter: exactly its spans are logged,
  // in order, unless one of them nests too deep or they are more than 1024, and
  // then none.
  lemma {:induction false} TracesLogged(ps: seq<Part>)
    requires PartsOf(TracesData, ps) && |EncodeTree(FieldsOf(ps))| < U64_LIMIT
    ensures SpansLogged(Some(EncodeTree(FieldsOf(ps))))
         == if PartsHeight(ps) <= 32 && |SpansWritten(ps)| <= 1024 then SpansWritten(ps) else []
  {
    hide PartsOf, EncodeTree, MessageError, SpansOf, PartsHeight, SpansWritten;
    TracesBack(ps);
  }

  // And of one with a field mistyped, however deep, or an id misfit, none are.
  lemma {:induction false} WrongNotLogged(fs: seq<Field>)
    requires AllWritten(fs) && |EncodeTree(fs)| < U64_LIMIT && Wrong(TracesData, fs)
    ensures SpansLogged(Some(EncodeTree(fs))) == []
  {
    hide AllWritten, EncodeTree, MessageError, SpansOf, Wrong;
    WrongRefused(TracesData, fs, 0);
  }

  // ---------- Read after read ----------

  // A conversation whose every operation the kernel takes: what is waited for,
  // what was received, and what was handed on.
  datatype Talk = Talk(op: Op, recv: Bytes, handed: Option<Bytes>)

  const HELLO: Talk := Talk(Reading, [], None)

  // One more read. What arrives once the request is decided is never read.
  function Feed(t: Talk, data: Bytes): Talk {
    if !t.op.Reading? then t
    else
      var recv := t.recv + data;
      Talk(Follow(false, data, recv), recv, HandedOn(recv))
  }

  function FeedAll(pieces: seq<Bytes>): Talk {
    if pieces == [] then HELLO else Feed(FeedAll(pieces[..|pieces| - 1]), pieces[|pieces| - 1])
  }

  lemma {:induction false} FeedMore(pieces: seq<Bytes>, data: Bytes)
    ensures FeedAll(pieces + [data]) == Feed(FeedAll(pieces), data)
  {
    assert (pieces + [data])[..|pieces|] == pieces;
  }

  lemma {:induction false} NothingIsIncomplete()
    ensures RequestOf([], HEADERS_CAP) == Incomplete
  {
  }

  // What a conversation waits for says what it has received, and what it handed
  // on is the body of that.
  lemma {:induction false} TalkMeans(pieces: seq<Bytes>)
    ensures var t := FeedAll(pieces);
            && (t.op.Reading? ==> RequestOf(t.recv, HEADERS_CAP) == Incomplete && |t.recv| != RECV_CAP)
            && (t.op.Writing? ==> Answerable(RequestOf(t.recv, HEADERS_CAP)) && t.handed.Some?)
            && t.handed == HandedOn(t.recv) && !t.op.Nothing?
  {
    hide RequestOf;
    if pieces == [] {
      NothingIsIncomplete();
    } else {
      TalkMeans(pieces[..|pieces| - 1]);
      BodyInside(FeedAll(pieces).recv);
    }
  }

  lemma {:induction false} BodyInside(recv: Bytes)
    ensures var r := RequestOf(recv, HEADERS_CAP); r.Whole? ==> r.body <= |recv|
  {
    hide StartLine, HeadersOf;
  }

  // ---------- However the request is cut ----------

  predicate Pieces(pieces: seq<Bytes>) {
    forall i :: 0 <= i < |pieces| ==> pieces[i] != []
  }

  lemma {:induction false} JoinedSplit(pieces: seq<Bytes>, k: nat)
    requires k <= |pieces|
    ensures Joined(pieces) == Joined(pieces[..k]) + Joined(pieces[k..])
    ensures Pieces(pieces) ==> (Joined(pieces[k..]) == [] <==> k == |pieces|)
  {
    if k == |pieces| {
      assert pieces[..k] == pieces && pieces[k..] == [];
    } else {
      var init, last := pieces[..|pieces| - 1], pieces[|pieces| - 1];
      JoinedSplit(init, k);
      assert init[..k] == pieces[..k] && pieces[k..][..|pieces[k..]| - 1] == init[k..];
      Associate(Joined(pieces[..k]), Joined(init[k..]), last);
    }
  }

  // While the head is not all there the answer is that it is not.
  lemma {:induction false} HeadIncomplete(verb: Method, url: Bytes, hs: seq<Header>, body: Bytes, front: Bytes,
                                          rest: Bytes)
    requires ReadsBack(url, hs, HEADERS_CAP)
    requires front + rest == Build(verb, url, hs) + body && |front| < |Build(verb, url, hs)|
    ensures RequestOf(front, HEADERS_CAP) == Incomplete
  {
    hide RequestOf, Build, ReadsBack;
    BuildThenParse(verb, url, hs, body, HEADERS_CAP);
    if RequestOf(front, HEADERS_CAP) != Incomplete {
      RequestStable(front, rest, HEADERS_CAP);
      BodyInside(front);
    }
  }

  lemma {:induction false} WaitsForHead(verb: Method, url: Bytes, hs: seq<Header>, body: Bytes, pieces: seq<Bytes>, j: nat)
    requires ReadsBack(url, hs, HEADERS_CAP) && Pieces(pieces) && Joined(pieces) == Build(verb, url, hs) + body
    requires j <= |pieces| && |Joined(pieces[..j])| < |Build(verb, url, hs)| && |Joined(pieces[..j])| < RECV_CAP
    ensures FeedAll(pieces[..j]) == Talk(Reading, Joined(pieces[..j]), None)
  {
    hide RequestOf, Build, ReadsBack;
    if j == 0 {
      assert pieces[..0] == [];
    } else {
      var front := Joined(pieces[..j]);
      assert pieces[..j][..j - 1] == pieces[..j - 1];
      WaitsForHead(verb, url, hs, body, pieces, j - 1);
      JoinedSplit(pieces, j);
      HeadIncomplete(verb, url, hs, body, front, Joined(pieces[j..]));
    }
  }

  lemma {:induction false} DecidedStays(pieces: seq<Bytes>, j: nat)
    requires j <= |pieces| && !FeedAll(pieces[..j]).op.Reading?
    ensures FeedAll(pieces) == FeedAll(pieces[..j])
  {
    hide Feed;
    if j == |pieces| {
      assert pieces[..j] == pieces;
    } else {
      var init := pieces[..|pieces| - 1];
      assert init[..j] == pieces[..j];
      DecidedStays(init, j);
      FedNoMore(FeedAll(init), pieces[|pieces| - 1]);
    }
  }

  lemma {:induction false} FedNoMore(t: Talk, data: Bytes)
    ensures !t.op.Reading? ==> Feed(t, data) == t
  {
  }

  // However a request and its body are cut into reads, the `k`th of which
  // completes the head: the request is answered, and the body handed on is what
  // stood behind the head by then. It is the whole body exactly when that read
  // was the last.
  lemma {:induction false} HandedOnWhenCut(verb: Method, url: Bytes, hs: seq<Header>, body: Bytes, pieces: seq<Bytes>,
                                           k: nat)
    requires ReadsBack(url, hs, HEADERS_CAP) && Pieces(pieces) && Joined(pieces) == Build(verb, url, hs) + body
    requires k < |pieces|
    requires |Joined(pieces[..k])| < |Build(verb, url, hs)| <= |Joined(pieces[..k + 1])| <= RECV_CAP
    ensures var t, b := FeedAll(pieces), Build(verb, url, hs);
            && t == Talk(Writing, Joined(pieces[..k + 1]), Some(Joined(pieces[..k + 1])[|b|..]))
            && t.handed.value + Joined(pieces[k + 1..]) == body
            && (t.handed.value == body <==> k + 1 == |pieces|)
  {
    hide RequestOf, Build, ReadsBack, FeedAll, Joined;
    var b, front, later := Build(verb, url, hs), Joined(pieces[..k + 1]), Joined(pieces[k + 1..]);
    WaitsForHead(verb, url, hs, body, pieces, k);
    JoinedSplit(pieces, k + 1);
    FrontOf(b, body, front, later);
    BuildThenParse(verb, url, hs, front[|b|..], HEADERS_CAP);
    assert pieces[..k + 1] == pieces[..k] + [pieces[k]];
    FeedMore(pieces[..k], pieces[k]);
    JoinedMore(pieces[..k], pieces[k]);
    DecidedStays(pieces, k + 1);
  }

  lemma {:induction false} JoinedMore(pieces: seq<Bytes>, data: Bytes)
    ensures Joined(pieces + [data]) == Joined(pieces) + data
  {
    assert (pieces + [data])[..|pieces|] == pieces;
  }

  lemma {:induction false} FrontOf(b: Bytes, body: Bytes, front: Bytes, later: Bytes)
    requires front + later == b + body && |b| <= |front|
    ensures front == b + front[|b|..] && front[|b|..] + later == body
    ensures front[|b|..] == body <==> later == []
  {
    assert (front + later)[..|b|] == front[..|b|] && (b + body)[..|b|] == b;
    assert (front + later)[|b|..] == front[|b|..] + later && (b + body)[|b|..] == body;
  }

  // Traces posted and there in full by the read that completes the head: their
  // spans are logged.
  lemma {:induction false} PostedTracesLogged(url: Bytes, hs: seq<Header>, ps: seq<Part>, pieces: seq<Bytes>)
    requires PartsOf(TracesData, ps) && |EncodeTree(FieldsOf(ps))| < U64_LIMIT
    requires PartsHeight(ps) <= 32 && |SpansWritten(ps)| <= 1024
    requires ReadsBack(url, hs, HEADERS_CAP) && Pieces(pieces) && pieces != []
    requires Joined(pieces) == Build(POST, url, hs) + EncodeTree(FieldsOf(ps)) && |Joined(pieces)| <= RECV_CAP
    requires |Joined(pieces[..|pieces| - 1])| < |Build(POST, url, hs)|
    ensures SpansLogged(FeedAll(pieces).handed) == SpansWritten(ps)
  {
    hide RequestOf, Build, ReadsBack, FeedAll, Joined, PartsOf, EncodeTree, SpansLogged, PartsHeight, SpansWritten;
    assert pieces[..|pieces| - 1 + 1] == pieces;
    HandedOnWhenCut(POST, url, hs, EncodeTree(FieldsOf(ps)), pieces, |pieces| - 1);
    TracesLogged(ps);
  }

  // A head that fills the buffer before it is all there ends the connection, with
  // nothing handed on.
  lemma {:induction false} HeadTooBig(verb: Method, url: Bytes, hs: seq<Header>, body: Bytes, pieces: seq<Bytes>, k: nat)
    requires ReadsBack(url, hs, HEADERS_CAP) && Pieces(pieces) && Joined(pieces) == Build(verb, url, hs) + body
    requires k < |pieces| && |Joined(pieces[..k])| < RECV_CAP == |Joined(pieces[..k + 1])| < |Build(verb, url, hs)|
    ensures FeedAll(pieces) == Talk(Closing, Joined(pieces[..k + 1]), None)
  {
    hide RequestOf, Build, ReadsBack, FeedAll, Joined;
    WaitsForHead(verb, url, hs, body, pieces, k);
    JoinedSplit(pieces, k + 1);
    HeadIncomplete(verb, url, hs, body, Joined(pieces[..k + 1]), Joined(pieces[k + 1..]));
    assert pieces[..k + 1] == pieces[..k] + [pieces[k]];
    FeedMore(pieces[..k], pieces[k]);
    JoinedMore(pieces[..k], pieces[k]);
    DecidedStays(pieces, k + 1);
  }

  // A head and its body in two reads: the collector is handed nothing.
  lemma {:induction false} BodyCutOff(verb: Method, url: Bytes, hs: seq<Header>, body: Bytes)
    requires ReadsBack(url, hs, HEADERS_CAP) && |Build(verb, url, hs)| <= RECV_CAP && body != []
    ensures FeedAll([Build(verb, url, hs), body]).handed == Some([])
    ensures FeedAll([Build(verb, url, hs), body]).op == Writing
    ensures SpansLogged(Some([])) == []
  {
    hide RequestOf, Build, ReadsBack, FeedAll, Joined;
    var b := Build(verb, url, hs);
    BuildLength(verb, url, hs);
    var pieces := [b, body];
    assert pieces[..0] == [] && pieces[..1] == [] + [b] && pieces == pieces[..1] + [body];
    JoinedNone();
    JoinedMore([], b);
    JoinedMore(pieces[..1], body);
    assert [] + b == b;
    HandedOnWhenCut(verb, url, hs, body, pieces, 0);
  }

  // Such a request: `/` posted with a body of one byte.
  lemma {:induction false} BodyCutOffExample()
    ensures FeedAll([Build(POST, [47], []), [7]]).handed == Some([])
  {
    hide Build, FeedAll;
    BuildLength(POST, [47], []);
    BodyCutOff(POST, [47], [], [7]);
  }

  lemma {:induction false} JoinedNone()
    ensures Joined([]) == []
  {
  }
}
