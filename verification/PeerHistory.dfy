// What a connection has been through, and what that makes true of it
// (torrent.c): everything it received against what its actor was told, and
// everything it queued against what the kernel took.
module PeerHistory {
  import opened Bytes
  import opened PeerWire
  import opened PeerActor
  import opened PeerSending

  // `received` and `acked` are the bytes the kernel reported, `steps` the events
  // dispatched, `queued` the commands put whole in the send buffer, `dropped`
  // how many there was no room for, `hangups` how often the socket was given up.
  datatype History = History(
    received: Bytes, steps: seq<Step>, acked: Bytes, queued: seq<Command>, dropped: nat, hangups: nat)

  const NEWBORN: History := History([], [], [], [], 0, 0)

  // What one event says of the stream.
  function Streamed(e: Event): seq<StreamEvent> {
    match e
    case HandshakeReceived => [GotHandshake]
    case MessageReceived(m) => [GotMessage(m)]
    case Nonsense => [GotNonsense]
    case _ => []
  }

  function StreamPart(steps: seq<Step>): seq<StreamEvent> {
    if steps == [] then []
    else StreamPart(steps[..|steps| - 1]) + Streamed(steps[|steps| - 1].event)
  }

  lemma {:induction false} StreamPartAppend(steps: seq<Step>, s: Step)
    ensures StreamPart(steps + [s]) == StreamPart(steps) + Streamed(s.event)
  {
    assert (steps + [s])[..|steps|] == steps;
  }

  function Told(e: StreamEvent): Event {
    match e
    case GotHandshake => HandshakeReceived
    case GotMessage(m) => MessageReceived(m)
    case GotNonsense => Nonsense
  }

  // The stream's events as dispatched at one instant.
  function Stamped(es: seq<StreamEvent>, now: u64): (steps: seq<Step>)
    ensures |steps| == |es|
  {
    seq(|es|, i requires 0 <= i < |es| => Step(Told(es[i]), now))
  }

  lemma {:induction false} StampedAppend(es: seq<StreamEvent>, fs: seq<StreamEvent>, now: u64)
    ensures Stamped(es + fs, now) == Stamped(es, now) + Stamped(fs, now)
  {
  }

  lemma {:induction false} ToldStreamed(e: StreamEvent)
    ensures Streamed(Told(e)) == [e]
  {
  }

  lemma {:induction false} StreamPartStamped(steps: seq<Step>, es: seq<StreamEvent>, now: u64)
    ensures StreamPart(steps + Stamped(es, now)) == StreamPart(steps) + es
  {
    hide StreamPart, Streamed, Told;
    if es == [] {
      assert steps + Stamped(es, now) == steps;
    } else {
      var init, last := es[..|es| - 1], es[|es| - 1];
      StreamPartStamped(steps, init, now);
      StreamPartAppend(steps + Stamped(init, now), Step(Told(last), now));
      ToldStreamed(last);
      assert Stamped(es, now) == Stamped(init, now) + [Step(Told(last), now)];
      assert steps + Stamped(es, now) == steps + Stamped(init, now) + [Step(Told(last), now)];
      assert StreamPart(steps) + init + [last] == StreamPart(steps) + es;
    }
  }

  // `news` told at `now`, and nothing else: what a step of the tick adds.
  ghost predicate Added(before: History, h: History, news: seq<StreamEvent>, now: u64) {
    h == before.(steps := before.steps + Stamped(news, now), queued := h.queued, dropped := h.dropped,
                 hangups := h.hangups)
    && (news == [] ==> h.queued == before.queued && h.dropped == before.dropped)
  }

  // ---------- The actor ----------

  ghost predicate Informed(c: Core, steps: seq<Step>) {
    c == Run(steps) && Possible(steps)
  }

  // A clock that did not go back.
  predicate Timely(steps: seq<Step>, now: u64) {
    Sane(now) && (steps != [] ==> steps[|steps| - 1].now <= now)
  }

  lemma {:induction false} OneStepOn(c: Core, steps: seq<Step>, e: Event, now: u64)
    requires Informed(c, steps) && !Closed(steps) && Timely(steps, now) && Legal(c.state, e)
    ensures var on := steps + [Step(e, now)];
            && Informed(Next(c, e, now), on) && Timely(on, now)
            && (Closed(on) <==> Close in Answer(c, e, now))
            && StreamPart(on) == StreamPart(steps) + Streamed(e)
  {
    hide Next, Answer, Legal, Sane;
    var on := steps + [Step(e, now)];
    assert on[..|steps|] == steps;
    if steps != [] {
      assert on[..|steps| - 1] == steps[..|steps| - 1];
    }
  }

  lemma {:induction false} UnderWay(c: Core, steps: seq<Step>)
    requires Informed(c, steps) && steps != [] && !Closed(steps)
    ensures !c.state.Initial?
  {
    hide Possible, PeerActor.Run, Closed;
    DeadlinesMeasure(steps);
  }

  lemma {:induction false} DeadlineAnswer(c: Core, steps: seq<Step>, now: u64)
    requires Informed(c, steps) && steps != [] && !Closed(steps) && Timely(steps, now)
    ensures Legal(c.state, Deadline)
    ensures Command.Close !in Answer(c, Deadline, now) ==>
              Next(c, Deadline, now).state == c.state && Next(c, Deadline, now).deadlineAt > now
  {
    UnderWay(c, steps) by { hide Informed, Closed; }
    hide Possible, PeerActor.Run;
    DeadlineSettles(c, now);
  }

  // A deadline ends a connection exactly when the other end never introduced
  // itself or has been silent past its time, and otherwise asks for a keep-alive
  // exactly when it is our turn to speak.
  lemma {:induction false} DeadlineExact(c: Core, steps: seq<Step>, now: u64)
    requires Informed(c, steps) && steps != [] && !Closed(steps)
    ensures Command.Close in Answer(c, Deadline, now) <==> !Met(steps) || now >= GiveUpAt(steps)
    ensures Command.Close !in Answer(c, Deadline, now) ==>
              Answer(c, Deadline, now) == if now >= SpeakAt(steps, |steps|) then [SendKeepAlive] else []
  {
    UnderWay(c, steps) by { hide Informed, Closed; }
    hide Possible, PeerActor.Run, Closed, Met, GiveUpAt, SpeakAt, Answer;
    assert Legal(c.state, Deadline);
    AnswerExact(steps, Deadline, now);
  }

  // ---------- What was heard ----------

  function PhaseOf(state: PeerState): Phase {
    if state.Handshaked? then AwaitMessage else AwaitHandshake
  }

  function Remaining(infoHash: Bytes, state: PeerState, recv: Bytes): Reading {
    if state.Handshaked? then ReadMessages(recv) else ReadStream(infoHash, recv)
  }

  // Part of the way through what has arrived: told of `told`, with `recv` yet to
  // be looked at.
  ghost predicate Midway(infoHash: Bytes, received: Bytes, told: seq<StreamEvent>, state: PeerState, recv: Bytes) {
    ReadStream(infoHash, received) == Prepend(told, Remaining(infoHash, state, recv))
  }

  // Everything that arrived has been told, and what is buffered is what one
  // reading of the whole of it leaves over.
  ghost predicate Settled(infoHash: Bytes, received: Bytes, told: seq<StreamEvent>, state: PeerState, recv: Bytes) {
    var r := ReadStream(infoHash, received);
    r.events == told && r.rest == recv && (r.phase.Broken? || r.phase == PhaseOf(state))
  }

  ghost predicate Nonsensical(infoHash: Bytes, received: Bytes) {
    ReadStream(infoHash, received).phase.Broken?
  }

  lemma {:induction false} NothingHeard(infoHash: Bytes, state: PeerState)
    requires !state.Handshaked?
    ensures Settled(infoHash, [], [], state, []) && !Nonsensical(infoHash, [])
  {
  }

  // Nothing whole is buffered, and the buffer has room.
  lemma {:induction false} Unfinished(infoHash: Bytes, received: Bytes, told: seq<StreamEvent>, state: PeerState,
                                      recv: Bytes)
    requires Settled(infoHash, received, told, state, recv) && !Nonsensical(infoHash, received)
    ensures |recv| < RECV_CAP
    ensures Quiet(state, recv)
  {
    hide ReadMessages, ReadStream, U32FromBytes;
  }

  // Nothing whole is buffered.
  predicate Quiet(state: PeerState, recv: Bytes) {
    if state.Handshaked? then ParseMessage(recv) == NotYet else |recv| < HANDSHAKE_LEN
  }

  lemma {:induction false} MoreArrived(infoHash: Bytes, received: Bytes, told: seq<StreamEvent>, state: PeerState,
                                       recv: Bytes, more: Bytes)
    requires Settled(infoHash, received, told, state, recv) && !Nonsensical(infoHash, received)
    ensures Midway(infoHash, received + more, told, state, recv + more)
  {
    hide ReadMessages, ReadStream;
    ReadStreamResume(infoHash, received, more);
  }

  lemma {:induction false} NothingNew(infoHash: Bytes, received: Bytes, told: seq<StreamEvent>, state: PeerState,
                                      recv: Bytes)
    requires Settled(infoHash, received, told, state, recv) && !Nonsensical(infoHash, received)
    ensures Midway(infoHash, received, told, state, recv)
  {
    hide ReadMessages, ReadStream;
    MoreArrived(infoHash, received, told, state, recv, []);
    assert received + [] == received && recv + [] == recv;
  }

  lemma {:induction false} HandshakeTaken(infoHash: Bytes, received: Bytes, told: seq<StreamEvent>,
                                          state: PeerState, recv: Bytes)
    requires Midway(infoHash, received, told, state, recv) && !state.Handshaked?
    requires |recv| >= HANDSHAKE_LEN && CheckHandshake(recv[..HANDSHAKE_LEN], infoHash)
    ensures Midway(infoHash, received, told + [GotHandshake], Handshaked, recv[HANDSHAKE_LEN..])
  {
    hide ReadMessages, CheckHandshake;
    PrependTwice(told, [GotHandshake], ReadMessages(recv[HANDSHAKE_LEN..]));
  }

  lemma {:induction false} HandshakeRefused(infoHash: Bytes, received: Bytes, told: seq<StreamEvent>,
                                            state: PeerState, recv: Bytes)
    requires Midway(infoHash, received, told, state, recv) && !state.Handshaked?
    requires |recv| >= HANDSHAKE_LEN && !CheckHandshake(recv[..HANDSHAKE_LEN], infoHash)
    ensures Settled(infoHash, received, told + [GotNonsense], state, recv)
    ensures Nonsensical(infoHash, received)
  {
    hide ReadMessages, CheckHandshake;
  }

  lemma {:induction false} MessageTaken(infoHash: Bytes, received: Bytes, told: seq<StreamEvent>, recv: Bytes,
                                        m: Message, n: nat)
    requires Midway(infoHash, received, told, Handshaked, recv) && ParseMessage(recv) == Whole(m, n)
    ensures Midway(infoHash, received, told + EventOf(m), Handshaked, recv[n..])
  {
    hide ReadStream, ParseMessage, EventOf;
    assert ReadMessages(recv) == Prepend(EventOf(m), ReadMessages(recv[n..]));
    hide ReadMessages;
    PrependTwice(told, EventOf(m), ReadMessages(recv[n..]));
  }

  lemma {:induction false} MessageRefused(infoHash: Bytes, received: Bytes, told: seq<StreamEvent>, recv: Bytes)
    requires Midway(infoHash, received, told, Handshaked, recv) && ParseMessage(recv) == Malformed
    ensures Settled(infoHash, received, told + [GotNonsense], Handshaked, recv)
    ensures Nonsensical(infoHash, received)
  {
    hide ReadStream, ParseMessage;
  }

  lemma {:induction false} Drained(infoHash: Bytes, received: Bytes, told: seq<StreamEvent>, state: PeerState,
                                   recv: Bytes)
    requires Midway(infoHash, received, told, state, recv)
    requires Quiet(state, recv)
    ensures Settled(infoHash, received, told, state, recv) && !Nonsensical(infoHash, received)
  {
    hide ParseMessage;
    if state.Handshaked? {
      assert ReadMessages(recv) == Reading([], recv, AwaitMessage);
    } else {
      assert ReadStream(infoHash, recv) == Reading([], recv, AwaitHandshake);
    }
    hide ReadStream;
    assert told + [] == told;
  }

  // ---------- What was said ----------

  // Taken by the kernel, then still buffered: whole messages, in the order they
  // were queued.
  ghost predicate Conserved(infoHash: Bytes, id: Bytes, h: History, send: Bytes) {
    h.acked + send == WireAll(h.queued, infoHash, id)
  }

  // The commands carried out by sending, over a run.
  function Spoken(steps: seq<Step>): seq<Command> {
    if steps == [] then []
    else
      var n := |steps| - 1;
      var said := Said(steps, n);
      Spoken(steps[..n]) + if Close in said then [] else said
  }

  // Only keep-alives go missing, and `dropped` counts them.
  predicate Thinned(spoken: seq<Command>, queued: seq<Command>, dropped: nat) {
    if spoken == [] then queued == [] && dropped == 0
    else
      var init, last := spoken[..|spoken| - 1], spoken[|spoken| - 1];
      || (queued != [] && queued[|queued| - 1] == last && Thinned(init, queued[..|queued| - 1], dropped))
      || (last.SendKeepAlive? && dropped > 0 && Thinned(init, queued, dropped - 1))
  }

  ghost predicate Spoke(state: PeerState, h: History) {
    Conversation(state, h.queued) && Thinned(Spoken(h.steps), h.queued, h.dropped)
  }

  lemma {:induction false} SpokenNext(steps: seq<Step>, s: Step)
    ensures var said := Answer(Run(steps), s.event, s.now);
            Spoken(steps + [s]) == Spoken(steps) + if Close in said then [] else said
  {
    hide Answer, Run;
    assert (steps + [s])[..|steps|] == steps;
  }

  lemma {:induction false} ThinnedAppend(spoken: seq<Command>, queued: seq<Command>, dropped: nat, cs: seq<Command>)
    requires Thinned(spoken, queued, dropped)
    ensures Thinned(spoken + cs, queued + cs, dropped)
  {
    if cs == [] {
      assert spoken + cs == spoken && queued + cs == queued;
    } else {
      var n := |cs| - 1;
      ThinnedAppend(spoken, queued, dropped, cs[..n]);
      assert (spoken + cs)[..|spoken + cs| - 1] == spoken + cs[..n];
      assert (queued + cs)[..|queued + cs| - 1] == queued + cs[..n];
    }
  }

  lemma {:induction false} ThinnedDrop(spoken: seq<Command>, queued: seq<Command>, dropped: nat)
    requires Thinned(spoken, queued, dropped)
    ensures Thinned(spoken + [SendKeepAlive], queued, dropped + 1)
  {
    assert (spoken + [SendKeepAlive])[..|spoken|] == spoken;
  }

  // Nothing but keep-alives is ever missing, and each that is was counted.
  lemma {:induction false} ThinnedCounts(spoken: seq<Command>, queued: seq<Command>, dropped: nat)
    requires Thinned(spoken, queued, dropped)
    ensures |spoken| == |queued| + dropped
    ensures forall c: Command :: !c.SendKeepAlive? ==> Count(spoken, c) == Count(queued, c)
  {
    if spoken == [] {
    } else {
      var init, last := spoken[..|spoken| - 1], spoken[|spoken| - 1];
      if queued != [] && queued[|queued| - 1] == last && Thinned(init, queued[..|queued| - 1], dropped) {
        ThinnedCounts(init, queued[..|queued| - 1], dropped);
      } else {
        ThinnedCounts(init, queued, dropped - 1);
      }
    }
  }

  function Count(cs: seq<Command>, c: Command): nat {
    if cs == [] then 0
    else Count(cs[..|cs| - 1], c) + if cs[|cs| - 1] == c then 1 else 0
  }

  // How far the answer `cs` has been carried out: `queued` was `queued0`, and
  // the one thing that may be dropped is a lone keep-alive.
  predicate Carried(cs: seq<Command>, i: nat, before: History, h: History)
    requires i <= |cs|
  {
    || (h.queued == before.queued + cs[..i] && h.dropped == before.dropped)
    || (cs == [SendKeepAlive] && i == 1 && h.queued == before.queued && h.dropped == before.dropped + 1)
  }

  // The answer `cs` carried out whole, with `room` in the send buffer: all of it
  // queued, but a keep-alive there is no room for.
  predicate CarriedOut(cs: seq<Command>, room: int, before: History, h: History) {
    if cs == [SendKeepAlive] && room < 4 then h.queued == before.queued && h.dropped == before.dropped + 1
    else h.queued == before.queued + cs && h.dropped == before.dropped
  }

  lemma {:induction false} CarriedWhole(cs: seq<Command>, room: int, before: History, h: History)
    requires cs != [SendKeepAlive] && Carried(cs, |cs|, before, h)
    ensures CarriedOut(cs, room, before, h)
  {
    assert cs[..|cs|] == cs;
  }

  lemma {:induction false} CarriedSince(cs: seq<Command>, room: int, before: History, stepped: History, h: History)
    requires stepped.queued == before.queued && stepped.dropped == before.dropped && CarriedOut(cs, room, stepped, h)
    ensures CarriedOut(cs, room, before, h)
  {
  }

  lemma {:induction false} CarriedAside(cs: seq<Command>, room: int, before: History, h: History, on: History)
    requires CarriedOut(cs, room, before, h) && on == h.(hangups := on.hangups)
    ensures CarriedOut(cs, room, before, on)
  {
  }

  lemma {:induction false} NothingCarried(cs: seq<Command>, h: History, on: History)
    requires on.queued == h.queued && on.dropped == h.dropped
    ensures Carried(cs, 0, h, on)
  {
    assert h.queued + cs[..0] == h.queued;
  }

  lemma {:induction false} CarriedOneMore(cs: seq<Command>, i: nat, before: History, h: History, on: History)
    requires i < |cs| && |cs| <= 2 && Carried(cs, i, before, h)
    requires on.queued == h.queued + [cs[i]] && on.dropped == h.dropped
    ensures Carried(cs, i + 1, before, on)
  {
    assert cs[..i + 1] == cs[..i] + [cs[i]];
    assert before.queued + cs[..i] + [cs[i]] == before.queued + cs[..i + 1];
  }

  lemma {:induction false} CarriedDropped(cs: seq<Command>, before: History, h: History, on: History)
    requires cs == [SendKeepAlive] && Carried(cs, 0, before, h)
    requires on.queued == h.queued && on.dropped == h.dropped + 1
    ensures Carried(cs, 1, before, on)
  {
    assert before.queued + cs[..0] == before.queued;
  }

  lemma {:induction false} ConversationGoesOn(c: Core, e: Event, now: u64, queued: seq<Command>)
    requires Conversation(c.state, queued) && Legal(c.state, e)
    ensures var said, state := Answer(c, e, now), Next(c, e, now).state;
            && Conversation(state, if Close in said then queued else queued + said)
            && (said == [SendKeepAlive] ==> Conversation(state, queued))
  {
    hide After, Earliest;
    var said := Answer(c, e, now);
    assert queued + [] == queued;
    if c.state.SentHandshake? && e.HandshakeReceived? {
      assert queued + said == [SendHandshake, SendInterested, SendUnchoke];
    }
  }

  lemma {:induction false} HeardAnswers(c: Core, m: Message, now: u64)
    ensures Answer(c, Nonsense, now) == Answer(c, Hangup, now) == [Command.Close]
    ensures c.state.SentHandshake? ==>
              && Next(c, HandshakeReceived, now).state.Handshaked?
              && Command.Close !in Answer(c, HandshakeReceived, now)
    ensures c.state.Handshaked? ==>
              && Next(c, MessageReceived(m), now).state.Handshaked?
              && Command.Close !in Answer(c, MessageReceived(m), now)
  {
  }

  lemma {:induction false} NothingYetRun()
    ensures Informed(START, []) && !Closed([]) && StreamPart([]) == []
  {
  }

  lemma {:induction false} AcceptedAnswer(c: Core, now: u64)
    requires c.state.Initial?
    ensures Legal(c.state, Accepted) && Answer(c, Accepted, now) == [SendHandshake]
    ensures Next(c, Accepted, now).state.SentHandshake?
  {
  }

  lemma {:induction false} AnswerShapes(c: Core, e: Event, now: u64)
    requires Legal(c.state, e)
    ensures var said, on := Answer(c, e, now), Next(c, e, now);
            || (said == [Command.Close] && on.state == c.state)
            || said == []
            || (said == [SendHandshake] && c.state.Initial? && on.state.SentHandshake?)
            || (said == [SendInterested, SendUnchoke] && c.state.SentHandshake?)
            || said == [SendKeepAlive]
  {
  }

  // The whole answer carried out leaves the connection having said what its
  // state says it has.
  lemma {:induction false} AllCarried(c: Core, e: Event, now: u64, before: History, h: History)
    requires Informed(c, before.steps) && Spoke(c.state, before) && Legal(c.state, e)
    requires h.steps == before.steps + [Step(e, now)]
    requires var said := Answer(c, e, now);
             if Close in said then h.queued == before.queued && h.dropped == before.dropped
             else Carried(said, |said|, before, h)
    ensures Spoke(Next(c, e, now).state, h)
  {
    hide Next, Answer, Conversation, Possible;
    var said := Answer(c, e, now);
    ConversationGoesOn(c, e, now, before.queued);
    SpokenNext(before.steps, Step(e, now));
    var spoken := Spoken(before.steps);
    assert spoken + [] == spoken;
    if Close !in said {
      assert said[..|said|] == said;
      ThinnedAppend(spoken, before.queued, before.dropped, said);
      ThinnedDrop(spoken, before.queued, before.dropped);
    }
  }

  lemma {:induction false} SpokeAfter(c: Core, e: Event, now: u64, before: History, stepped: History, h: History,
                                      said: seq<Command>)
    requires Informed(c, before.steps) && Spoke(c.state, before) && Legal(c.state, e)
    requires said == Answer(c, e, now)
    requires stepped == before.(steps := before.steps + [Step(e, now)])
    requires h == stepped.(queued := h.queued, dropped := h.dropped)
    requires if Close in said then h == stepped else Carried(said, |said|, stepped, h)
    ensures Spoke(Next(c, e, now).state, h)
  {
    hide Next, Answer, Spoke, Possible, Informed;
    AllCarried(c, e, now, before, h);
  }

  // The greeting always has room: nothing was queued before it, and before its
  // second half nothing but its first.
  lemma {:induction false} GreetingFits(infoHash: Bytes, id: Bytes, state: PeerState, h: History, send: Bytes)
    requires |infoHash| == HASH_LEN && |id| == ID_LEN
    requires Conserved(infoHash, id, h, send) && Conversation(state, h.queued)
    ensures state.Initial? ==> |send| == 0
    ensures state.SentHandshake? ==> |send| <= HANDSHAKE_LEN
  {
    hide Handshake;
    HandshakeLength(infoHash, id);
    if state.SentHandshake? {
      assert h.queued[..0] == [];
      assert WireAll(h.queued, infoHash, id) == [] + Handshake(infoHash, id);
    }
  }

  lemma {:induction false} HandshakeLength(infoHash: Bytes, id: Bytes)
    requires |infoHash| == HASH_LEN && |id| == ID_LEN
    ensures |Handshake(infoHash, id)| == HANDSHAKE_LEN
  {
  }

  lemma {:induction false} NewbornIsNew(infoHash: Bytes, id: Bytes)
    ensures Informed(START, []) && !Closed([]) && Conserved(infoHash, id, NEWBORN, []) && Spoke(Initial, NEWBORN)
    ensures Settled(infoHash, [], StreamPart([]), Initial, [])
  {
  }

  lemma {:induction false} OneMoreQueued(infoHash: Bytes, id: Bytes, h: History, send: Bytes, c: Command, on: History,
                                         longer: Bytes)
    requires Conserved(infoHash, id, h, send)
    requires on.acked == h.acked && on.queued == h.queued + [c]
    requires longer == send + WireOf(c, infoHash, id)
    ensures Conserved(infoHash, id, on, longer)
  {
    hide WireOf, WireAll;
    WireAllAppend(h.queued, c, infoHash, id);
    Associate(h.acked, send, WireOf(c, infoHash, id));
  }

  lemma {:induction false} DroppedAside(infoHash: Bytes, id: Bytes, h: History, send: Bytes, on: History)
    requires Conserved(infoHash, id, h, send) && on == h.(dropped := on.dropped)
    ensures Conserved(infoHash, id, on, send)
  {
  }

  lemma {:induction false} SteppedAside(infoHash: Bytes, id: Bytes, h: History, send: Bytes, on: History)
    requires Conserved(infoHash, id, h, send) && on == h.(steps := on.steps)
    ensures Conserved(infoHash, id, on, send)
  {
  }

  lemma {:induction false} SpokeConversation(state: PeerState, h: History)
    requires Spoke(state, h)
    ensures Conversation(state, h.queued)
  {
  }

  lemma {:induction false} SomeTaken(infoHash: Bytes, id: Bytes, h: History, send: Bytes, n: nat, on: History)
    requires Conserved(infoHash, id, h, send) && n <= |send|
    requires on.queued == h.queued && on.acked == h.acked + send[..n]
    ensures Conserved(infoHash, id, on, send[n..])
  {
    hide WireAll;
    Associate(h.acked, send[..n], send[n..]);
    assert send[..n] + send[n..] == send;
  }

  lemma {:induction false} ReceivedAside(infoHash: Bytes, id: Bytes, state: PeerState, h: History, send: Bytes,
                                         received: Bytes)
    requires Conserved(infoHash, id, h, send) && Spoke(state, h)
    ensures Conserved(infoHash, id, h.(received := received), send) && Spoke(state, h.(received := received))
  {
  }

  lemma {:induction false} SpokeAside(state: PeerState, h: History, on: History)
    requires Spoke(state, h) && on == h.(acked := on.acked)
    ensures Spoke(state, on)
  {
  }

  lemma {:induction false} HangupsAside(infoHash: Bytes, id: Bytes, state: PeerState, h: History, send: Bytes, n: nat)
    requires Conserved(infoHash, id, h, send) && Spoke(state, h)
    ensures Conserved(infoHash, id, h.(hangups := n), send) && Spoke(state, h.(hangups := n))
  {
  }

  // ---------- A connection that is over ----------

  // Everything it received was told once and in order, what the kernel took is
  // the front of what was queued, its actor was run as it asks to be, and its
  // socket was given up exactly once.
  ghost predicate Faithful(infoHash: Bytes, id: Bytes, h: History) {
    && Possible(h.steps)
    && StreamPart(h.steps) == ReadStream(infoHash, h.received).events
    && h.acked <= WireAll(h.queued, infoHash, id)
    && Spoke(Run(h.steps).state, h)
    && h.hangups == 1
  }

  datatype Departed = Departed(slot: nat, socket: int, h: History)

  lemma {:induction false} FrontReads(infoHash: Bytes, front: Bytes, rest: Bytes)
    ensures var r, whole := ReadStream(infoHash, front), ReadStream(infoHash, front + rest);
            r.events <= whole.events && (r.phase.Broken? ==> whole.phase.Broken?)
  {
    hide ReadStream, ReadMessages;
    ReadStreamResume(infoHash, front, rest);
  }

  // However much of what a connection queued was ever taken, the other end reads
  // it as the handshake and the first of the same messages, and as nothing else.
  lemma {:induction false} OtherEndReads(infoHash: Bytes, id: Bytes, h: History)
    requires |infoHash| == HASH_LEN && |id| == ID_LEN
    requires Faithful(infoHash, id, h) && Run(h.steps).state.Handshaked?
    ensures var r := ReadStream(infoHash, h.acked);
            r.events <= [GotHandshake] + EventsOf(h.queued[1..]) && !r.phase.Broken?
  {
    hide ReadStream, WireAll, Possible, Run, Spoken;
    OutgoingReadsBack(h.queued, infoHash, id);
    var all := WireAll(h.queued, infoHash, id);
    FrontReads(infoHash, h.acked, all[|h.acked|..]);
    assert h.acked + all[|h.acked|..] == all;
  }
}
