// The peer as an actor (torrent.c): its whole decision making, without io.
module PeerActor {
  import opened Bytes
  import opened PeerWire

  // Nanoseconds.
  const SECOND: nat := 1_000_000_000
  const KEEP_ALIVE: nat := 120 * SECOND
  const IDLE: nat := 2 * KEEP_ALIVE
  const HANDSHAKE_WAIT: nat := 30 * SECOND
  const NO_DEADLINE: u64 := 0xFFFF_FFFF_FFFF_FFFF

  datatype PeerState = Initial | SentHandshake | Handshaked

  datatype Event =
    | Accepted | Connected | Hangup | Nonsense | HandshakeReceived | MessageReceived(msg: Message) | Deadline

  datatype Command = SendHandshake | SendKeepAlive | Close | SendInterested | SendUnchoke

  predicate Sends(c: Command) {
    !c.Close?
  }

  datatype Core = Core(state: PeerState, idleDueAt: u64, keepAliveDueAt: u64, deadlineAt: u64)

  // An instant later than `now`, in the clock's 64 bits.
  function After(now: u64, wait: nat): u64 {
    (now + wait) % U64_LIMIT
  }

  // Nothing wraps: the clock is more than four minutes short of its end.
  predicate Sane(now: u64) {
    now + IDLE < NO_DEADLINE
  }

  function Earliest(c: Core): u64 {
    if c.idleDueAt < c.keepAliveDueAt then c.idleDueAt else c.keepAliveDueAt
  }

  // The events the actor may be told of. The others are asserted against.
  predicate Legal(state: PeerState, e: Event) {
    state.Handshaked? ==> !e.Accepted? && !e.Connected? && !e.HandshakeReceived?
  }

  // What is said in answer.
  function Answer(c: Core, e: Event, now: u64): seq<Command> {
    match c.state
    case Initial => if e.Accepted? || e.Connected? then [SendHandshake] else [Close]
    case SentHandshake => if e.HandshakeReceived? then [SendInterested, SendUnchoke] else [Close]
    case Handshaked =>
      if e.Deadline? then
        if now >= c.idleDueAt then [Close]
        else if now >= c.keepAliveDueAt then [SendKeepAlive]
        else []
      else if e.Hangup? || e.Nonsense? then [Close]
      else []
  }

  function Next(c: Core, e: Event, now: u64): Core {
    var state :=
      if c.state.Initial? && (e.Accepted? || e.Connected?) then SentHandshake
      else if c.state.SentHandshake? && e.HandshakeReceived? then Handshaked
      else c.state;
    var idle :=
      if state != c.state then After(now, if state.SentHandshake? then HANDSHAKE_WAIT else IDLE)
      else if c.state.Handshaked? && e.MessageReceived? then After(now, IDLE)
      else c.idleDueAt;
    var answer := Answer(c, e, now);
    var keepAlive := if answer != [] && Sends(answer[0]) then After(now, KEEP_ALIVE) else c.keepAliveDueAt;
    var next := Core(state, idle, keepAlive, 0);
    next.(deadlineAt := Earliest(next))
  }

  // ---------- Whole runs ----------

  datatype Step = Step(event: Event, now: u64)

  const START: Core := Core(Initial, NO_DEADLINE, NO_DEADLINE, NO_DEADLINE)

  function Run(steps: seq<Step>): Core {
    if steps == [] then START
    else
      var last := steps[|steps| - 1];
      Next(Run(steps[..|steps| - 1]), last.event, last.now)
  }

  // What was answered to step `i`.
  function Said(steps: seq<Step>, i: nat): seq<Command>
    requires i < |steps|
  {
    Answer(Run(steps[..i]), steps[i].event, steps[i].now)
  }

  // A run the bridge can make: legal events at a clock that does not go back,
  // and nothing after a `Close`.
  ghost predicate Possible(steps: seq<Step>) {
    steps == [] ||
    var n := |steps| - 1;
    && Possible(steps[..n])
    && Sane(steps[n].now)
    && Legal(Run(steps[..n]).state, steps[n].event)
    && (n > 0 ==> steps[n - 1].now <= steps[n].now && Close !in Said(steps, n - 1))
  }

  predicate Heard(e: Event) {
    e.HandshakeReceived? || e.MessageReceived?
  }

  // When the peer is due to be given up on, by what it said alone: thirty
  // seconds from being accepted, then four minutes from the last thing heard.
  function GiveUpAt(steps: seq<Step>): int {
    if steps == [] then NO_DEADLINE
    else
      var last := steps[|steps| - 1];
      if last.event.Accepted? || last.event.Connected? then last.now + 30 * SECOND
      else if Heard(last.event) then last.now + 4 * 60 * SECOND
      else GiveUpAt(steps[..|steps| - 1])
  }

  predicate Speaks(said: seq<Command>) {
    exists i :: 0 <= i < |said| && said[i] != Close
  }

  // When something has to be said, by what was said alone: two minutes from the
  // last time anything was.
  function SpeakAt(steps: seq<Step>, n: nat): int
    requires n <= |steps|
  {
    if n == 0 then NO_DEADLINE
    else if Speaks(Said(steps, n - 1)) then steps[n - 1].now + 2 * 60 * SECOND
    else SpeakAt(steps, n - 1)
  }

  predicate Closed(steps: seq<Step>) {
    steps != [] && Close in Said(steps, |steps| - 1)
  }

  lemma {:induction false} NoWrap(now: u64)
    requires Sane(now)
    ensures After(now, HANDSHAKE_WAIT) == now + HANDSHAKE_WAIT
    ensures After(now, KEEP_ALIVE) == now + KEEP_ALIVE
    ensures After(now, IDLE) == now + IDLE
  {
  }

  lemma {:induction false} SaidOfPrefix(steps: seq<Step>, n: nat, i: nat)
    requires i < n <= |steps|
    ensures Said(steps[..n], i) == Said(steps, i)
  {
    assert steps[..n][..i] == steps[..i];
  }

  lemma {:induction false} SpeakAtOfPrefix(steps: seq<Step>, n: nat, k: nat)
    requires k <= n <= |steps|
    ensures SpeakAt(steps[..n], k) == SpeakAt(steps, k)
  {
    if k == 0 {
    } else {
      SaidOfPrefix(steps, n, k - 1);
      SpeakAtOfPrefix(steps, n, k - 1);
    }
  }

  // A batch says nothing after a `Close`, and at most two things.
  lemma {:induction false} CloseIsLast(c: Core, e: Event, now: u64)
    ensures |Answer(c, e, now)| <= 2
    ensures Close in Answer(c, e, now) ==> Answer(c, e, now) == [Close]
    ensures e.Hangup? || e.Nonsense? ==> Answer(c, e, now) == [Close]
  {
  }

  // The two deadlines measure opposite directions, over any run: the one never
  // moves on what we say, the other never on what we hear; and the deadline
  // published is the earlier of them.
  lemma {:induction false} DeadlinesMeasure(steps: seq<Step>)
    requires Possible(steps)
    ensures var c := Run(steps);
            && c.deadlineAt <= c.idleDueAt && c.deadlineAt <= c.keepAliveDueAt
            && (c.deadlineAt == c.idleDueAt || c.deadlineAt == c.keepAliveDueAt)
            && (!Closed(steps) ==> c.idleDueAt == GiveUpAt(steps) && c.keepAliveDueAt == SpeakAt(steps, |steps|))
            && (!Closed(steps) && steps != [] ==> c.state != Initial)
            && (c.state == Initial && !Closed(steps) ==> steps == [])
  {
    if steps == [] {
    } else {
      var n := |steps| - 1;
      var init, last := steps[..n], steps[n];
      DeadlinesMeasure(init);
      SpeakAtOfPrefix(steps, n, n);
      if n > 0 {
        SaidOfPrefix(steps, n, n - 1);
      }
      assert Said(steps, n) == Answer(Run(init), last.event, last.now);
      NextDeadlines(Run(init), last.event, last.now);
      hide Next, Answer, Speaks, Legal;
    }
  }

  lemma {:induction false} NextDeadlines(c: Core, e: Event, now: u64)
    requires Sane(now)
    ensures var said, on := Answer(c, e, now), Next(c, e, now);
            && on.deadlineAt <= on.idleDueAt && on.deadlineAt <= on.keepAliveDueAt
            && (on.deadlineAt == on.idleDueAt || on.deadlineAt == on.keepAliveDueAt)
            && (Close in said && c.state.Initial? ==> on.state.Initial?)
            && (Close !in said && Legal(c.state, e) ==>
                  && !on.state.Initial?
                  && on.idleDueAt == (if e.Accepted? || e.Connected? then now + 30 * SECOND
                                      else if Heard(e) then now + 4 * 60 * SECOND else c.idleDueAt)
                  && on.keepAliveDueAt == if Speaks(said) then now + 2 * 60 * SECOND else c.keepAliveDueAt)
  {
    NoWrap(now);
    var said := Answer(c, e, now);
    assert said != [] ==> (said[0] != Close <==> Close !in said);
    assert Close !in said ==> (said != [] <==> Speaks(said)) by {
      assert said != [] ==> said[0] in said;
    }
  }

  // The other end has introduced itself.
  predicate Met(steps: seq<Step>) {
    exists i :: 0 <= i < |steps| && steps[i].event.HandshakeReceived?
  }

  lemma {:induction false} MetIsHandshaked(steps: seq<Step>)
    requires Possible(steps) && !Closed(steps)
    ensures Met(steps) <==> Run(steps).state.Handshaked?
  {
    if steps == [] {
    } else {
      var n := |steps| - 1;
      var init := steps[..n];
      if n > 0 {
        SaidOfPrefix(steps, n, n - 1);
      }
      MetIsHandshaked(init);
      MetMore(steps);
      DeadlinesMeasure(init);
      assert Said(steps, n) == Answer(Run(init), steps[n].event, steps[n].now);
    }
  }

  lemma {:induction false} MetMore(steps: seq<Step>)
    requires steps != []
    ensures Met(steps) <==> Met(steps[..|steps| - 1]) || steps[|steps| - 1].event.HandshakeReceived?
  {
    var init := steps[..|steps| - 1];
    if Met(init) {
      var i :| 0 <= i < |init| && init[i].event.HandshakeReceived?;
      assert steps[i].event.HandshakeReceived?;
    }
    if Met(steps) {
      var i :| 0 <= i < |steps| && steps[i].event.HandshakeReceived?;
      assert i < |init| ==> init[i].event.HandshakeReceived?;
    }
  }

  // What is answered, by what the run has heard and said and when: a connection
  // opens with our handshake; until the other end's arrives anything else ends it;
  // after that only a hang-up, nonsense or silence past its time does, and a
  // keep-alive is what a deadline asks for once it is our turn to speak.
  lemma {:induction false} AnswerExact(steps: seq<Step>, e: Event, now: u64)
    requires Possible(steps) && !Closed(steps) && Legal(Run(steps).state, e)
    ensures var said, silent := Answer(Run(steps), e, now), e.Deadline? && now >= GiveUpAt(steps);
            if steps == [] then
              said == if e.Accepted? || e.Connected? then [SendHandshake] else [Close]
            else if !Met(steps) then
              said == if e.HandshakeReceived? then [SendInterested, SendUnchoke] else [Close]
            else
              && (said == [Close] <==> e.Hangup? || e.Nonsense? || silent)
              && (said == [SendKeepAlive] <==> e.Deadline? && !silent && now >= SpeakAt(steps, |steps|))
              && (said == [Close] || said == [SendKeepAlive] || said == [])
  {
    assert steps == [] ==> Run(steps) == START;
    hide Possible, Run, GiveUpAt, SpeakAt, Met, Closed;
    MetIsHandshaked(steps);
    DeadlinesMeasure(steps);
  }

  function Rank(s: PeerState): nat {
    match s
    case Initial => 0
    case SentHandshake => 1
    case Handshaked => 2
  }

  lemma {:induction false} StateNeverGoesBack(steps: seq<Step>, i: nat)
    requires i <= |steps|
    ensures Rank(Run(steps[..i]).state) <= Rank(Run(steps).state)
    decreases |steps|
  {
    if i < |steps| {
      var init := steps[..|steps| - 1];
      StateNeverGoesBack(init, i);
      assert init[..i] == steps[..i];
    } else {
      assert steps[..i] == steps;
    }
  }

  // A deadline that fired is re-armed or was the end: nothing is left due.
  lemma {:induction false} DeadlineSettles(c: Core, now: u64)
    requires Sane(now) && !c.state.Initial?
    ensures Answer(c, Deadline, now) == [Close] || Next(c, Deadline, now).deadlineAt > now
  {
    NoWrap(now);
  }

  function KeepAlives(steps: seq<Step>, from: nat, upTo: nat): nat
    requires from <= upTo <= |steps|
  {
    if from == upTo then 0
    else KeepAlives(steps, from, upTo - 1) + if SendKeepAlive in Said(steps, upTo - 1) then 1 else 0
  }

  // Each keep-alive since the last thing heard puts the next two minutes on, and
  // the end of waiting stays where it is.
  ghost predicate SpacedOut(steps: seq<Step>, from: nat, upTo: nat)
    requires 0 < from <= upTo <= |steps|
  {
    var heardAt: int := steps[from - 1].now;
    var k, c := KeepAlives(steps, from, upTo), Run(steps[..upTo]);
    && heardAt <= steps[upTo - 1].now
    && c.state == Handshaked && c.idleDueAt == heardAt + IDLE
    && (k > 0 ==> c.keepAliveDueAt as int >= heardAt + k * KEEP_ALIVE)
  }

  // Between two things heard at most two keep-alives go out: what we say never
  // holds a dead peer open.
  lemma {:induction false} AtMostTwoKeepAlives(steps: seq<Step>, from: nat, upTo: nat)
    requires from <= upTo <= |steps| && Possible(steps[..upTo])
    requires from > 0 && Heard(steps[from - 1].event) && Close !in Said(steps, from - 1)
    requires forall i :: from <= i < upTo ==> !Heard(steps[i].event)
    ensures KeepAlives(steps, from, upTo) <= 2
  {
    KeepAlivesSpaced(steps, from, upTo);
  }

  lemma {:induction false} QuietStep(c: Core, e: Event, now: u64, heardAt: nat, k: nat)
    requires Sane(now) && c.state.Handshaked? && Legal(c.state, e) && !Heard(e)
    requires c.idleDueAt == heardAt + IDLE && heardAt <= now
    requires k <= 2 && (k > 0 ==> c.keepAliveDueAt >= heardAt + k * KEEP_ALIVE)
    ensures var said, c' := Answer(c, e, now), Next(c, e, now);
            var k' := if SendKeepAlive in said then k + 1 else k;
            && k' <= 2 && c'.state.Handshaked? && c'.idleDueAt == heardAt + IDLE
            && (k' > 0 ==> c'.keepAliveDueAt >= heardAt + k' * KEEP_ALIVE)
  {
    NoWrap(now);
  }

  lemma {:induction false} HeardStep(steps: seq<Step>, from: nat)
    requires 0 < from <= |steps| && Possible(steps[..from])
    requires Heard(steps[from - 1].event) && Close !in Said(steps, from - 1)
    ensures Run(steps[..from]).state.Handshaked?
    ensures Run(steps[..from]).idleDueAt == steps[from - 1].now + IDLE
  {
    assert steps[..from][..from - 1] == steps[..from - 1];
    NoWrap(steps[from - 1].now);
  }

  lemma {:induction false} PossibleLast(steps: seq<Step>, n: nat)
    requires n < |steps| && Possible(steps[..n + 1])
    ensures Possible(steps[..n]) && Sane(steps[n].now)
    ensures Legal(Run(steps[..n]).state, steps[n].event)
    ensures Run(steps[..n + 1]) == Next(Run(steps[..n]), steps[n].event, steps[n].now)
    ensures n > 0 ==> steps[n - 1].now <= steps[n].now
  {
    hide Next, Answer, Legal;
    assert steps[..n + 1][..n] == steps[..n];
  }

  lemma {:induction false} KeepAlivesSpaced(steps: seq<Step>, from: nat, upTo: nat)
    requires from <= upTo <= |steps| && Possible(steps[..upTo])
    requires from > 0 && Heard(steps[from - 1].event) && Close !in Said(steps, from - 1)
    requires forall i :: from <= i < upTo ==> !Heard(steps[i].event)
    ensures KeepAlives(steps, from, upTo) <= 2
    ensures SpacedOut(steps, from, upTo)
    decreases upTo
  {
    hide Possible, Run, Next, Answer, Sane, Legal;
    if from == upTo {
      HeardStep(steps, from);
    } else {
      var n := upTo - 1;
      PossibleLast(steps, n);
      KeepAlivesSpaced(steps, from, n);
      var last := steps[n];
      QuietStep(Run(steps[..n]), last.event, last.now, steps[from - 1].now, KeepAlives(steps, from, n));
    }
  }
}
