// One peer connection (torrent.c): the bridge between the actor and the wire,
// one callback at a time.
module PeerConnection {
  import opened Bytes
  import opened PeerWire
  import opened PeerActor
  import opened PeerSending
  import opened PeerHistory
  import opened PeerPool

  // The bytes at `from` moved to the front.
  method MoveToFront(a: array<u8>, from: nat, n: nat)
    requires from + n <= a.Length
    modifies a
    ensures a[..n] == old(a[from..from + n])
    ensures forall j :: n <= j < a.Length ==> a[j] == old(a[j])
  {
    for k := 0 to n
      invariant forall j :: 0 <= j < k ==> a[j] == old(a[from + j])
      invariant forall j :: k <= j < a.Length ==> a[j] == old(a[j])
    {
      a[k] := a[from + k];
    }
  }

  method Blit(a: array<u8>, at: nat, s: Bytes)
    requires at + |s| <= a.Length
    modifies a
    ensures a[..at + |s|] == old(a[..at]) + s
  {
    for k := 0 to |s|
      invariant forall j :: at <= j < at + k ==> a[j] == s[j - at]
      invariant forall j :: 0 <= j < at ==> a[j] == old(a[j])
    {
      a[at + k] := s[k];
    }
  }

  ghost predicate AllZero(a: array<u8>)
    reads a
  {
    forall j :: 0 <= j < a.Length ==> a[j] == 0
  }

  method Clear(a: array<u8>)
    modifies a
    ensures AllZero(a)
  {
    forall j | 0 <= j < a.Length {
      a[j] := 0;
    }
  }

  const COMMANDS_MAX: nat := 8
  const PEER_ID: Bytes := Zeros(ID_LEN)[0 := 1]

  // Where a connection stands in the world outside its own slot.
  datatype Seat = Seat(members: set<nat>, departed: seq<Departed>, infoHash: Bytes, id: Bytes, socket: int)

  class TorrentPeer {
    const slot: nat
    const recvBuf: array<u8>
    const sendBuf: array<u8>

    var socket: int
    // What the kernel is still holding, and whether the connection is over.
    var readInFlight: bool
    var writeInFlight: bool
    var closing: bool
    var recvLen: nat
    var sendLen: nat
    var infoHash: Bytes
    var id: Bytes
    var state: PeerState
    var idleDueAt: u64
    var keepAliveDueAt: u64
    var deadlineAt: u64

    // What the completions hold: where the kernel was told to put what arrives,
    // the bytes it was given to send, and whether it has the hang-up.
    var readAt: nat
    var writing: Bytes
    var hangingUp: bool

    ghost var hist: History

    ghost predicate Wired() {
      slot < SLOTS && recvBuf.Length == RECV_CAP && sendBuf.Length == SEND_CAP && recvBuf != sendBuf
    }

    ghost predicate Bounds()
      reads this
    {
      Wired() && recvLen <= RECV_CAP && sendLen <= SEND_CAP && |infoHash| == HASH_LEN && |id| == ID_LEN
    }

    ghost function Recv(): Bytes
      requires Bounds()
      reads this, recvBuf
    {
      recvBuf[..recvLen]
    }

    ghost function Send(): Bytes
      requires Bounds()
      reads this, sendBuf
    {
      sendBuf[..sendLen]
    }

    function Deciding(): Core
      reads this
    {
      Core(state, idleDueAt, keepAliveDueAt, deadlineAt)
    }

    ghost function SeatNow(pool: Pool): Seat
      reads this, pool
    {
      Seat(pool.members, pool.departed, infoHash, id, socket)
    }

    // What holds even half way through a callback: the actor is where its events
    // have brought it, and the send buffer is the unsent end of what was queued.
    ghost predicate Based()
      reads this, sendBuf
    {
      && Bounds()
      && Informed(Deciding(), hist.steps)
      && Conserved(infoHash, id, hist, Send())
      && (writeInFlight ==> writing != [] && writing <= Send())
    }

    ghost predicate NotHungUp()
      reads this
    {
      !hangingUp && hist.hangups == 0
    }

    // Everything that arrived has been told.
    ghost predicate Caught()
      requires Bounds()
      reads this, recvBuf
    {
      Settled(infoHash, hist.received, StreamPart(hist.steps), state, Recv())
    }

    // The kernel's pointer is behind what is buffered, and nothing whole is
    // buffered that could be taken out from under it.
    ghost predicate ReadStays()
      reads this
    {
      readInFlight ==> readAt == recvLen && !Nonsensical(infoHash, hist.received)
    }

    // A connection at rest, whatever is to become of it.
    ghost predicate Steady()
      reads this, recvBuf, sendBuf
    {
      Based() && hist.steps != [] && Spoke(state, hist) && Caught() && ReadStays()
    }

    // A connection that could be pumped.
    ghost predicate Awake()
      reads this, recvBuf, sendBuf
    {
      Steady() && NotHungUp() && !closing && !Closed(hist.steps) && !Nonsensical(infoHash, hist.received)
    }

    // A connection between callbacks: open with a read in flight, and a write in
    // flight exactly when there is something to send; or closing, with something
    // outstanding that will report.
    ghost predicate Live()
      reads this, recvBuf, sendBuf
    {
      && Steady()
      && (if closing then readInFlight || writeInFlight || hangingUp
          else
            && readInFlight && (writeInFlight <==> sendLen > 0)
            && !Closed(hist.steps) && !Nonsensical(infoHash, hist.received))
      && (hangingUp ==> closing && !readInFlight && !writeInFlight)
      && hist.hangups == if hangingUp then 1 else 0
    }

    // Nothing connected, nothing in flight.
    ghost predicate Idle()
      reads this
    {
      socket == 0 && !readInFlight && !writeInFlight && !closing && readAt == 0 && writing == [] && !hangingUp
    }

    // Nothing said, nothing heard, nobody known.
    ghost predicate Unset()
      reads this
    {
      && recvLen == 0 && sendLen == 0 && infoHash == [] && id == Zeros(ID_LEN)
      && state == Initial && idleDueAt == 0 && keepAliveDueAt == 0 && deadlineAt == 0
    }

    lemma {:induction false} LiveSteps()
      requires Live()
      ensures hist.steps != [] && Bounds() && hist.hangups <= 1
    {
      hide Informed, Conserved, Closed, Settled, Nonsensical, Spoke;
    }

    // A free slot.
    ghost predicate Zeroed()
      reads this, recvBuf, sendBuf
    {
      Wired() && Idle() && Unset() && AllZero(recvBuf) && AllZero(sendBuf)
    }

    // What a callback leaves behind, of a connection that sat as `was`: still
    // there with history `h`, or gone with it and the slot free.
    ghost predicate Outcome(pool: Pool, was: Seat, h: History)
      reads this, recvBuf, sendBuf, pool, pool.occupied
    {
      && pool.Valid()
      && (if slot in pool.members then
            && Live() && hist == h
            && SeatNow(pool) == was
          else
            && pool.members == was.members - {slot}
            && pool.departed == was.departed + [Departed(slot, was.socket, h)]
            && Faithful(was.infoHash, was.id, h)
            && Zeroed())
    }

    // Whether the connection goes on: it ends exactly when its actor said so, or
    // the kernel refused an operation, or it was `ending` already; and while the
    // kernel holds another operation the slot stays.
    ghost predicate Decided(pool: Pool, h: History, refused: bool, ending: bool, held: bool)
      reads this, pool
    {
      && (held || !refused ==> slot in pool.members)
      && (slot in pool.members ==> (closing <==> refused || ending || Closed(h.steps)))
    }

    // A read in flight, once it `was`, stays until it reports, and the slot with
    // it.
    ghost predicate StillReads(pool: Pool, was: bool)
      reads this, pool
    {
      was ==> slot in pool.members && readInFlight
    }

    constructor (slot: nat)
      requires slot < SLOTS
      ensures Zeroed() && this.slot == slot && fresh(recvBuf) && fresh(sendBuf)
    {
      this.slot := slot;
      recvBuf := new u8[RECV_CAP](_ => 0);
      sendBuf := new u8[SEND_CAP](_ => 0);
      socket := 0;
      readInFlight, writeInFlight, closing := false, false, false;
      recvLen, sendLen := 0, 0;
      infoHash, id := [], Zeros(ID_LEN);
      state, idleDueAt, keepAliveDueAt, deadlineAt := Initial, 0, 0, 0;
      readAt, writing, hangingUp := 0, [], false;
      hist := NEWBORN;
    }

    method Unconnect()
      modifies this`socket, this`readInFlight, this`writeInFlight, this`closing, this`readAt, this`writing, this`hangingUp
      ensures Idle()
    {
      socket := 0;
      readInFlight, writeInFlight, closing := false, false, false;
      readAt, writing, hangingUp := 0, [], false;
    }

    method Forget()
      modifies this`recvLen, this`sendLen, this`infoHash, this`id, this`state, this`idleDueAt, this`keepAliveDueAt,
               this`deadlineAt
      ensures Unset()
    {
      recvLen, sendLen := 0, 0;
      infoHash, id := [], Zeros(ID_LEN);
      state, idleDueAt, keepAliveDueAt, deadlineAt := Initial, 0, 0, 0;
    }

    // The whole slot set to zero.
    method Zero()
      requires Wired()
      modifies this, recvBuf, sendBuf
      ensures Zeroed()
    {
      Forget();
      Unconnect();
      Clear(recvBuf);
      Clear(sendBuf);
    }

    method Release(pool: Pool, ghost h: History)
      requires Wired() && pool.Valid() && slot in pool.members
      requires !readInFlight && !writeInFlight && !hangingUp
      requires Faithful(infoHash, id, h)
      modifies this, recvBuf, sendBuf, pool, pool.occupied
      ensures Outcome(pool, old(SeatNow(pool)), h) && slot !in pool.members
    {
      hide Faithful;
      ghost var gone := Departed(slot, socket, h);
      Zero();
      pool.Release(slot, gone);
    }

    // ---------- Hanging up ----------

    // What can be released says everything a finished connection should.
    lemma {:induction false} SteadyIsFaithful(h: History)
      requires Bounds() && Informed(Deciding(), hist.steps) && Conserved(infoHash, id, hist, Send())
      requires Spoke(state, hist) && Caught() && h == hist.(hangups := 1)
      ensures Faithful(infoHash, id, h)
    {
      hide Possible, PeerActor.Run, Spoken, Conversation, ReadStream, WireAll, StreamPart;
      assert hist.acked <= hist.acked + Send();
    }

    // Ends the connection: at once, when the kernel holds nothing that points
    // into the slot, and otherwise from the last callback to report.
    method HangUp(pool: Pool) returns (ghost h: History, ghost refused: bool)
      requires pool.Valid() && slot in pool.members && Steady() && NotHungUp()
      modifies this, recvBuf, sendBuf, pool, pool.occupied
      ensures Outcome(pool, old(SeatNow(pool)), h)
      ensures Decided(pool, h, refused, true, old(readInFlight || writeInFlight)) && StillReads(pool, old(readInFlight))
      ensures h == old(hist).(hangups := h.hangups)
    {
      hide Informed, Conserved, Spoke, Settled, Closed, Nonsensical, Faithful;
      closing := true;
      h, refused := hist, false;
      if readInFlight || writeInFlight {
        return;
      }
      h := h.(hangups := h.hangups + 1);
      SteadyIsFaithful(h);
      var no: bool := *;
      refused := no;
      if no {
        Release(pool, h);
      } else {
        HangupsAside(infoHash, id, state, hist, Send(), 1);
        hangingUp := true;
        hist := h;
      }
    }

    // ---------- Deciding ----------

    // One more command. Nothing follows a `Close`.
    method Push(commands: seq<Command>, c: Command) returns (longer: seq<Command>)
      requires |commands| < COMMANDS_MAX
      requires commands == [] || commands[|commands| - 1] != Command.Close
      ensures longer == commands + [c]
    {
      longer := commands + [c];
    }

    method DeadlineEarliest() returns (earliest: u64)
      ensures earliest == Earliest(Deciding())
    {
      earliest := NO_DEADLINE;
      var deadlines := [idleDueAt, keepAliveDueAt];
      for i := 0 to |deadlines|
        invariant i == 0 ==> earliest == NO_DEADLINE
        invariant i == 1 ==> earliest == idleDueAt
        invariant i == 2 ==> earliest == Earliest(Deciding())
      {
        if deadlines[i] < earliest {
          earliest := deadlines[i];
        }
      }
    }

    // The actor, changing its own fields; it cannot fail.
    method Run(event: Event, now: u64) returns (commands: seq<Command>)
      requires Legal(state, event)
      modifies this`state, this`idleDueAt, this`keepAliveDueAt, this`deadlineAt
      ensures commands == Answer(old(Deciding()), event, now)
      ensures Deciding() == Next(old(Deciding()), event, now)
    {
      commands := [];
      match state {
        case Initial =>
          if !event.Accepted? && !event.Connected? {
            commands := Push(commands, Command.Close);
          } else {
            state := SentHandshake;
            idleDueAt := After(now, HANDSHAKE_WAIT);
            commands := Push(commands, SendHandshake);
          }
        case SentHandshake =>
          if !event.HandshakeReceived? {
            commands := Push(commands, Command.Close);
          } else {
            state := Handshaked;
            idleDueAt := After(now, IDLE);
            keepAliveDueAt := After(now, KEEP_ALIVE);
            commands := Push(commands, SendInterested);
            commands := Push(commands, SendUnchoke);
          }
        case Handshaked =>
          if event.Deadline? {
            if now >= idleDueAt {
              commands := Push(commands, Command.Close);
            } else if now >= keepAliveDueAt {
              commands := Push(commands, SendKeepAlive);
            }
          } else if event.Hangup? || event.Nonsense? {
            commands := Push(commands, Command.Close);
          } else {
            idleDueAt := After(now, IDLE);
          }
      }
      for i := 0 to |commands|
        invariant i > 0 ==> !Sends(commands[0])
        invariant keepAliveDueAt == old(keepAliveDueAt) || state != old(state)
        invariant commands == Answer(old(Deciding()), event, now)
      {
        if Sends(commands[i]) {
          keepAliveDueAt := After(now, KEEP_ALIVE);
          break;
        }
      }
      deadlineAt := DeadlineEarliest();
    }

    // ---------- Queueing ----------

    // `c` whole at the end of the send buffer.
    twostate predicate Queued(c: Command)
      reads this, sendBuf
    {
      && Bounds() && old(Bounds())
      && hist == old(hist).(queued := old(hist).queued + [c])
      && Send() == old(Send()) + WireOf(c, infoHash, id)
    }

    method QueueHandshake()
      requires Bounds() && sendLen == 0 && state == SentHandshake
      modifies this`sendLen, this`hist, sendBuf
      ensures Queued(SendHandshake)
    {
      Blit(sendBuf, 0, Header());
      Blit(sendBuf, 20, Zeros(8));
      Blit(sendBuf, 28, infoHash);
      Blit(sendBuf, 48, id);
      sendLen := HANDSHAKE_LEN;
      hist := hist.(queued := hist.queued + [SendHandshake]);
    }

    method QueueKeepAlive()
      requires Bounds()
      modifies this`sendLen, this`hist, sendBuf
      ensures if SEND_CAP - old(sendLen) < 4
              then sendLen == old(sendLen) && Send() == old(Send()) && hist == old(hist).(dropped := old(hist).dropped + 1)
              else Queued(SendKeepAlive)
    {
      if SEND_CAP - sendLen < 4 {
        hist := hist.(dropped := hist.dropped + 1);
        return;
      }
      Blit(sendBuf, sendLen, Zeros(4));
      sendLen := sendLen + 4;
      hist := hist.(queued := hist.queued + [SendKeepAlive]);
    }

    // A message that is a tag and nothing else: the whole of it or none.
    method QueueMsgEmpty(c: Command)
      requires Bounds() && (c.SendInterested? || c.SendUnchoke?)
      modifies this`sendLen, this`hist, sendBuf
      ensures if SEND_CAP - old(sendLen) < 5
              then sendLen == old(sendLen) && Send() == old(Send()) && hist == old(hist).(dropped := old(hist).dropped + 1)
              else Queued(c)
    {
      if SEND_CAP - sendLen < 5 {
        hist := hist.(dropped := hist.dropped + 1);
        return;
      }
      Blit(sendBuf, sendLen, U32Bytes(1));
      sendLen := sendLen + 4;
      sendBuf[sendLen] := if c.SendInterested? then 2 else 1;
      sendLen := sendLen + 1;
      hist := hist.(queued := hist.queued + [c]);
    }

    // ---------- Carrying out ----------

    // A connection that may be told of an event.
    ghost predicate Listening()
      reads this, sendBuf
    {
      Based() && NotHungUp() && !closing && !Closed(hist.steps) && Spoke(state, hist)
    }

    method CarryOut(c: Command)
      requires Bounds() && c != Command.Close
      requires c == SendHandshake ==> sendLen == 0 && state == SentHandshake
      modifies this`sendLen, this`hist, sendBuf
      ensures if SEND_CAP - old(sendLen) < |WireOf(c, infoHash, id)|
              then sendLen == old(sendLen) && Send() == old(Send()) && hist == old(hist).(dropped := old(hist).dropped + 1)
              else Queued(c)
    {
      WireLength(c, infoHash, id);
      match c {
        case SendHandshake => QueueHandshake();
        case SendKeepAlive => QueueKeepAlive();
        case SendInterested => QueueMsgEmpty(SendInterested);
        case SendUnchoke => QueueMsgEmpty(SendUnchoke);
      }
    }

    // What the loop below keeps, `i` commands on.
    ghost predicate Underway(cs: seq<Command>, i: nat, before: History)
      requires i <= |cs|
      reads this, sendBuf
    {
      && Bounds()
      && hist == before.(queued := hist.queued, dropped := hist.dropped)
      && Conserved(infoHash, id, hist, Send())
      && Carried(cs, i, before, hist)
      && (i == 0 && cs == [SendHandshake] ==> sendLen == 0)
      && (cs == [SendInterested, SendUnchoke] ==> sendLen <= HANDSHAKE_LEN + 5 * i)
    }

    lemma {:induction false} WireLength(c: Command, infoHash: Bytes, id: Bytes)
      requires |infoHash| == HASH_LEN && |id| == ID_LEN
      ensures |WireOf(c, infoHash, id)| == match c
                case SendHandshake => HANDSHAKE_LEN
                case SendKeepAlive => 4
                case Close => 0
                case _ => 5
    {
      hide Header;
    }

    method CarryOutNext(cs: seq<Command>, i: nat, ghost before: History)
      requires i < |cs| && |cs| <= 2 && Underway(cs, i, before) && cs[i] != Command.Close
      requires cs == [SendHandshake] || cs == [SendInterested, SendUnchoke] || cs == [SendKeepAlive]
      requires cs == [SendHandshake] ==> state == SentHandshake
      modifies this`sendLen, this`hist, sendBuf
      ensures Underway(cs, i + 1, before)
      ensures old(Send()) <= Send()
      ensures cs == [SendKeepAlive] ==> CarriedOut(cs, SEND_CAP - old(sendLen), old(hist), hist)
    {
      hide Conserved, WireOf, Carried;
      ghost var h, was := hist, Send();
      WireLength(cs[i], infoHash, id);
      CarryOut(cs[i]);
      if hist.queued == h.queued {
        CarriedDropped(cs, before, h, hist);
        DroppedAside(infoHash, id, h, was, hist);
      } else {
        CarriedOneMore(cs, i, before, h, hist);
        OneMoreQueued(infoHash, id, h, was, cs[i], hist, Send());
      }
    }

    // The actor told, and its answer to be carried out.
    method Decide(event: Event, now: u64) returns (commands: seq<Command>)
      requires Listening() && Timely(hist.steps, now) && Legal(state, event)
      modifies this`state, this`idleDueAt, this`keepAliveDueAt, this`deadlineAt, this`hist
      ensures commands == Answer(old(Deciding()), event, now) && Deciding() == Next(old(Deciding()), event, now)
      ensures hist == old(hist).(steps := old(hist).steps + [Step(event, now)])
      ensures Informed(Deciding(), hist.steps) && Timely(hist.steps, now)
      ensures Closed(hist.steps) <==> Command.Close in commands
      ensures StreamPart(hist.steps) == StreamPart(old(hist).steps) + Streamed(event)
      ensures Underway(commands, 0, hist)
      ensures Command.Close in commands ==> commands == [Command.Close] && state == old(state)
      ensures Command.Close !in commands ==>
                commands == [] || commands == [SendInterested, SendUnchoke] || commands == [SendKeepAlive]
                || (commands == [SendHandshake] && state == SentHandshake)
    {
      hide Informed, Conserved, Carried, Closed, Spoke, Answer, Next, StreamPart, Timely, Streamed;
      ghost var c, before := Deciding(), hist;
      AnswerShapes(c, event, now);
      OneStepOn(c, before.steps, event, now);
      SpokeConversation(state, hist);
      GreetingFits(infoHash, id, state, hist, Send());
      commands := Run(event, now);
      hist := hist.(steps := hist.steps + [Step(event, now)]);
      NothingCarried(commands, hist, hist);
      SteppedAside(infoHash, id, before, Send(), hist);
    }

    // What stays where it is while an event is dispatched and answered.
    twostate predicate Undisturbed(pool: Pool)
      reads this, recvBuf, pool, pool.occupied
    {
      && SeatNow(pool) == old(SeatNow(pool)) && pool.Valid()
      && recvLen == old(recvLen) && recvBuf[..] == old(recvBuf[..])
      && readInFlight == old(readInFlight) && readAt == old(readAt)
      && writeInFlight == old(writeInFlight) && writing == old(writing)
      && closing == old(closing) && hangingUp == old(hangingUp)
    }

    // Hands one event to the actor and carries out its answer. Answers false when
    // the connection is over, and the slot may already be another's.
    method Dispatch(pool: Pool, event: Event, now: u64) returns (alive: bool, ghost h: History, ghost refused: bool)
      requires pool.Valid() && slot in pool.members && Listening()
      requires Timely(hist.steps, now) && Legal(state, event)
      requires Command.Close in Answer(Deciding(), event, now) ==>
                 && Settled(infoHash, hist.received, StreamPart(hist.steps) + Streamed(event), state, Recv())
                 && ReadStays()
      modifies this, recvBuf, sendBuf, pool, pool.occupied
      ensures alive <==> Command.Close !in Answer(old(Deciding()), event, now)
      ensures alive <==> !Closed(h.steps)
      ensures h == old(hist).(steps := old(hist).steps + [Step(event, now)], queued := h.queued,
                              dropped := h.dropped, hangups := h.hangups)
      ensures alive ==>
                && !refused && Undisturbed(pool) && Listening() && hist == h
                && Deciding() == Next(old(Deciding()), event, now)
                && old(Send()) <= Send()
                && CarriedOut(Answer(old(Deciding()), event, now), SEND_CAP - old(sendLen), old(hist), h)
                && Timely(hist.steps, now)
                && StreamPart(hist.steps) == old(StreamPart(hist.steps)) + Streamed(event)
      ensures !alive ==>
                && Outcome(pool, old(SeatNow(pool)), h)
                && Decided(pool, h, refused, false, old(readInFlight || writeInFlight))
                && StillReads(pool, old(readInFlight))
                && h.queued == old(hist).queued && h.dropped == old(hist).dropped
    {
      hide Informed, Conserved, Carried, CarriedOut, Closed, Settled, Nonsensical, Spoke, Answer, Next, StreamPart,
           Timely, WireOf, Streamed, Live, Zeroed, Faithful;
      ghost var c, before := Deciding(), hist;
      var commands := Decide(event, now);
      ghost var decided, stepped := Deciding(), hist;
      for i := 0 to |commands|
        invariant Command.Close in commands ==> i == 0
        invariant i == 0 ==> hist == stepped
        invariant i == 0 ==> sendLen == old(sendLen)
        invariant commands == [SendKeepAlive] && i == 1 ==> CarriedOut(commands, SEND_CAP - old(sendLen), stepped, hist)
        invariant Underway(commands, i, stepped) && old(Send()) <= Send()
        invariant Deciding() == decided && Undisturbed(pool)
      {
        if commands[i] == Command.Close {
          SpokeAfter(c, event, now, before, stepped, hist, commands);
          h, refused := HangUp(pool);
          return false, h, refused;
        }
        CarryOutNext(commands, i, stepped);
      }
      SpokeAfter(c, event, now, before, stepped, hist, commands);
      if commands != [SendKeepAlive] {
        CarriedWhole(commands, SEND_CAP - old(sendLen), stepped, hist);
      }
      CarriedSince(commands, SEND_CAP - old(sendLen), before, stepped, hist);
      return true, hist, false;
    }

    // ---------- Pumping ----------

    // Submits the one read, behind what is buffered.
    method Read() returns (refused: bool)
      requires Bounds() && recvLen < RECV_CAP && !readInFlight
      modifies this`readInFlight, this`readAt
      ensures readInFlight == !refused && (readInFlight ==> readAt == recvLen)
    {
      refused := *;
      if !refused {
        readInFlight := true;
        readAt := recvLen;
      }
    }

    // Submits the one write, of everything there is to send.
    method Write() returns (refused: bool)
      requires Bounds() && sendLen > 0 && !writeInFlight
      modifies this`writeInFlight, this`writing
      ensures writeInFlight == !refused && (writeInFlight ==> writing == Send())
    {
      refused := *;
      if !refused {
        writeInFlight := true;
        writing := sendBuf[..sendLen];
      }
    }

    // Puts out whichever of the two operations is called for and not in flight.
    method Pump(pool: Pool) returns (ghost h: History, ghost refused: bool)
      requires pool.Valid() && slot in pool.members && Awake()
      modifies this, recvBuf, sendBuf, pool, pool.occupied
      ensures Outcome(pool, old(SeatNow(pool)), h)
      ensures h == old(hist).(hangups := h.hangups)
      ensures Decided(pool, h, refused, false, old(readInFlight || writeInFlight)) && StillReads(pool, old(readInFlight))
    {
      hide Informed, Conserved, Closed, Settled, Nonsensical, Spoke, StreamPart, Zeroed, Faithful;
      var no: bool;
      if sendLen > 0 && !writeInFlight {
        no := Write();
        if no {
          h, refused := HangUp(pool);
          return h, true;
        }
      }
      Unfinished(infoHash, hist.received, StreamPart(hist.steps), state, Recv());
      if !readInFlight {
        no := Read();
        if no {
          h, refused := HangUp(pool);
          return h, true;
        }
      }
      h, refused := hist, false;
    }

    // ---------- Taking what has arrived ----------

    // Part of the way through what has arrived; while the kernel's pointer is
    // into the buffer there is nothing in it to take.
    ghost predicate Ticking()
      reads this, recvBuf, sendBuf
    {
      && Listening() && hist.steps != [] && !state.Initial?
      && Midway(infoHash, hist.received, StreamPart(hist.steps), state, Recv())
      && (readInFlight ==> readAt == recvLen && Quiet(state, Recv()))
    }

    lemma {:induction false} AddedOne(before: History, h: History, e: StreamEvent, now: u64)
      requires h == before.(steps := before.steps + [Step(Told(e), now)], queued := h.queued, dropped := h.dropped,
                            hangups := h.hangups)
      ensures Added(before, h, [e], now)
    {
      assert Stamped([e], now) == [Step(Told(e), now)];
    }

    lemma {:induction false} AddedMore(a: History, b: History, c: History, es: seq<StreamEvent>, fs: seq<StreamEvent>,
                                       now: u64)
      requires Added(a, b, es, now) && Added(b, c, fs, now)
      ensures Added(a, c, es + fs, now)
    {
      StampedAppend(es, fs, now);
      assert a.steps + Stamped(es, now) + Stamped(fs, now) == a.steps + (Stamped(es, now) + Stamped(fs, now));
    }

    // Their bytes are not the protocol, and that is the end of it.
    method Refuse(pool: Pool, now: u64) returns (ghost h: History, ghost refused: bool)
      requires pool.Valid() && slot in pool.members && Listening() && Timely(hist.steps, now)
      requires Settled(infoHash, hist.received, StreamPart(hist.steps) + [GotNonsense], state, Recv())
      requires !readInFlight
      modifies this, recvBuf, sendBuf, pool, pool.occupied
      ensures Outcome(pool, old(SeatNow(pool)), h) && Added(old(hist), h, [GotNonsense], now)
      ensures Decided(pool, h, refused, false, old(writeInFlight))
    {
      hide Listening, Settled, Outcome, Answer, Timely, Added;
      HeardAnswers(Deciding(), KeepAlive, now);
      ghost var before := hist;
      var alive;
      alive, h, refused := Dispatch(pool, Nonsense, now);
      AddedOne(before, h, GotNonsense, now);
    }

    // Drops `n` bytes that were taken, moving what is behind them to the front.
    method Drop(n: nat)
      requires Bounds() && n <= recvLen
      modifies this`recvLen, recvBuf
      ensures Bounds() && recvLen == old(recvLen) - n && Recv() == old(Recv())[n..]
    {
      MoveToFront(recvBuf, n, recvLen - n);
      recvLen := recvLen - n;
    }

    // Tells the actor of what was just dropped.
    method Tell(pool: Pool, e: StreamEvent, now: u64) returns (ghost h: History)
      requires pool.Valid() && slot in pool.members && Listening() && Timely(hist.steps, now)
      requires if state.Handshaked? then e.GotMessage? else e.GotHandshake?
      requires !state.Initial? && !readInFlight
      requires Midway(infoHash, hist.received, StreamPart(hist.steps) + [e], Handshaked, Recv())
      modifies this, recvBuf, sendBuf, pool, pool.occupied
      ensures Undisturbed(pool) && Ticking() && Timely(hist.steps, now) && state.Handshaked?
      ensures hist == h && Added(old(hist), h, [e], now)
    {
      hide Informed, Conserved, Closed, Settled, Nonsensical, Spoke, StreamPart, Zeroed, Faithful, Answer, Next, Timely,
           Midway, Added, Live, Outcome;
      HeardAnswers(Deciding(), if e.GotMessage? then e.msg else KeepAlive, now);
      ghost var before := hist;
      var alive;
      ghost var refused: bool;
      alive, h, refused := Dispatch(pool, Told(e), now);
      AddedOne(before, h, e, now);
    }

    lemma {:induction false} AddedNone(h: History, now: u64)
      ensures Added(h, h, [], now)
    {
      assert h.steps + Stamped([], now) == h.steps;
    }

    // One whole message off the front of the buffer: told, or stepped over.
    method Take(pool: Pool, m: Message, n: nat, now: u64) returns (ghost h: History, ghost news: seq<StreamEvent>)
      requires pool.Valid() && slot in pool.members && Ticking() && state.Handshaked? && Timely(hist.steps, now)
      requires ParseMessage(Recv()) == Whole(m, n)
      modifies this, recvBuf, sendBuf, pool, pool.occupied
      ensures SeatNow(pool) == old(SeatNow(pool)) && pool.Valid()
      ensures Ticking() && Timely(hist.steps, now) && state.Handshaked? && !readInFlight && hist == h
      ensures Added(old(hist), h, news, now)
      ensures recvLen == old(recvLen) - n && writeInFlight == old(writeInFlight)
    {
      hide Informed, Conserved, Closed, Settled, Nonsensical, Spoke, StreamPart, Zeroed, Faithful, Timely, Midway, Added,
           ParseMessage;
      MessageTaken(infoHash, hist.received, StreamPart(hist.steps), Recv(), m, n);
      Drop(n);
      if m.Unknown? {
        h, news := hist, [];
        AddedNone(h, now);
        assert StreamPart(hist.steps) + [] == StreamPart(hist.steps);
      } else {
        news := [GotMessage(m)];
        h := Tell(pool, GotMessage(m), now);
      }
    }

    // Every whole message in the buffer, not just the first. The bound on the
    // passes is never what ends them.
    method DrainMessages(pool: Pool, now: u64)
      returns (alive: bool, ghost h: History, ghost news: seq<StreamEvent>, ghost refused: bool)
      requires pool.Valid() && slot in pool.members && Ticking() && state.Handshaked? && Timely(hist.steps, now)
      modifies this, recvBuf, sendBuf, pool, pool.occupied
      ensures alive ==>
                && SeatNow(pool) == old(SeatNow(pool)) && pool.Valid()
                && Ticking() && state.Handshaked? && Quiet(state, Recv()) && hist == h && Timely(hist.steps, now)
                && (old(readInFlight) ==> readInFlight) && writeInFlight == old(writeInFlight)
      ensures !alive ==>
                Outcome(pool, old(SeatNow(pool)), h)
                && Decided(pool, h, refused, false, old(readInFlight || writeInFlight))
                && StillReads(pool, old(readInFlight))
      ensures Added(old(hist), h, news, now)
    {
      hide Informed, Conserved, Closed, Settled, Nonsensical, Spoke, StreamPart, Zeroed, Faithful, Timely, Midway, Added,
           Live, ParseMessage;
      var drained := false;
      h, news := hist, [];
      AddedNone(h, now);
      for i := 0 to RECV_CAP / 4 + 1
        invariant pool.Valid() && SeatNow(pool) == old(SeatNow(pool)) && !drained
        invariant Ticking() && state.Handshaked? && hist == h && Timely(hist.steps, now)
        invariant Added(old(hist), h, news, now)
        invariant recvLen + 4 * i <= RECV_CAP
        invariant (old(readInFlight) ==> readInFlight) && writeInFlight == old(writeInFlight)
      {
        ghost var before := h;
        match ParseMessage(recvBuf[..recvLen]) {
          case Malformed =>
            MessageRefused(infoHash, hist.received, StreamPart(hist.steps), Recv());
            h, refused := Refuse(pool, now);
            AddedMore(old(hist), before, h, news, [GotNonsense], now);
            return false, h, news + [GotNonsense], refused;
          case NotYet =>
            drained := true;
            break;
          case Whole(m, n) =>
            ghost var more: seq<StreamEvent>;
            h, more := Take(pool, m, n, now);
            AddedMore(old(hist), before, h, news, more, now);
            news := news + more;
        }
      }
      assert drained;
      return true, h, news, false;
    }

    // Whatever has arrived turned into events, and then a read and a write put
    // out for what comes next.
    method Tick(pool: Pool, now: u64) returns (ghost h: History, ghost news: seq<StreamEvent>, ghost refused: bool)
      requires pool.Valid() && slot in pool.members && Ticking() && Timely(hist.steps, now)
      modifies this, recvBuf, sendBuf, pool, pool.occupied
      ensures Outcome(pool, old(SeatNow(pool)), h)
      ensures Added(old(hist), h, news, now)
      ensures Decided(pool, h, refused, false, old(readInFlight || writeInFlight)) && StillReads(pool, old(readInFlight))
    {
      hide Informed, Conserved, Closed, Settled, Nonsensical, Spoke, StreamPart, Zeroed, Faithful, Timely, Midway, Added,
           Live, CheckHandshake;
      h, news := hist, [];
      AddedNone(h, now);
      if state.SentHandshake? && recvLen >= HANDSHAKE_LEN {
        var valid := CheckHandshake(recvBuf[..HANDSHAKE_LEN], infoHash);
        assert Recv()[..HANDSHAKE_LEN] == recvBuf[..HANDSHAKE_LEN];
        if !valid {
          HandshakeRefused(infoHash, hist.received, StreamPart(hist.steps), state, Recv());
          h, refused := Refuse(pool, now);
          return h, [GotNonsense], refused;
        }
        HandshakeTaken(infoHash, hist.received, StreamPart(hist.steps), state, Recv());
        Drop(HANDSHAKE_LEN);
        h := Tell(pool, GotHandshake, now);
        news := [GotHandshake];
      }
      if state.Handshaked? {
        ghost var before := h;
        ghost var more: seq<StreamEvent>;
        var alive;
        alive, h, more, refused := DrainMessages(pool, now);
        AddedMore(old(hist), before, h, news, more, now);
        news := news + more;
        if !alive {
          return;
        }
      }
      Drained(infoHash, hist.received, StreamPart(hist.steps), state, Recv());
      ghost var before := h;
      h, refused := Pump(pool);
      AddedNone(before, now);
      AddedHangup(old(hist), before, h, news, now);
    }

    lemma {:induction false} AddedHangup(a: History, b: History, c: History, news: seq<StreamEvent>, now: u64)
      requires Added(a, b, news, now) && c == b.(hangups := c.hangups)
      ensures Added(a, c, news, now)
    {
    }

    // ---------- Callbacks ----------

    // What a read of `res` bytes brought.
    ghost function Arrived(res: nat): Bytes
      reads this, recvBuf
    {
      if readAt + res <= recvBuf.Length then recvBuf[readAt..readAt + res] else []
    }

    // Not an instant before the read was reported is anything made of its bytes,
    // and the place they were put is the place they are looked for.
    lemma {:induction false} ReadDestination()
      requires Live() && readInFlight
      ensures readAt == recvLen < RECV_CAP && Quiet(state, Recv())
    {
      hide Informed, Conserved, Closed, Spoke, Settled, Nonsensical, Quiet;
      Unfinished(infoHash, hist.received, StreamPart(hist.steps), state, Recv());
    }

    // What every run keeps, of a connection that is still there.
    lemma {:induction false} BetweenCallbacks()
      requires Live()
      ensures closing ==> readInFlight || writeInFlight || hangingUp
      ensures !closing ==> readInFlight && (writeInFlight <==> sendLen > 0)
      ensures readInFlight ==> readAt == recvLen < RECV_CAP && Quiet(state, Recv())
      ensures writeInFlight ==> writing != [] && writing <= Send()
      ensures deadlineAt == Earliest(Deciding()) && Possible(hist.steps)
      ensures var r := ReadStream(infoHash, hist.received); r.events == StreamPart(hist.steps) && r.rest == Recv()
      ensures Ends(hist.received, Recv())
      ensures hist.acked + Send() == WireAll(hist.queued, infoHash, id) && Conversation(state, hist.queued)
      ensures hist.hangups == if hangingUp then 1 else 0
    {
      hide ReadStream, StreamPart, WireAll, Possible, PeerActor.Run, Quiet, Nonsensical, Spoken, Conversation;
      if readInFlight {
        ReadDestination();
      }
      DeadlinesMeasure(hist.steps);
    }

    // What is over or goes on was told of the whole stream and nothing else.
    lemma {:induction false} OutcomeTold(pool: Pool, was: Seat, h: History)
      requires Outcome(pool, was, h)
      ensures StreamPart(h.steps) == ReadStream(was.infoHash, h.received).events
    {
      hide Informed, Conserved, Closed, Spoke, Zeroed, ReadStream;
    }

    // The connection is over, from the transport's side.
    method Lost(pool: Pool, now: u64) returns (ghost h: History, ghost refused: bool)
      requires pool.Valid() && slot in pool.members && Awake() && Timely(hist.steps, now)
      modifies this, recvBuf, sendBuf, pool, pool.occupied
      ensures Outcome(pool, old(SeatNow(pool)), h) && h.steps != [] && Timely(h.steps, now)
      ensures h == old(hist).(steps := old(hist).steps + [Step(Event.Hangup, now)], hangups := h.hangups)
      ensures Decided(pool, h, refused, false, old(readInFlight || writeInFlight)) && StillReads(pool, old(readInFlight))
    {
      hide Informed, Conserved, Closed, Settled, Nonsensical, Spoke, StreamPart, Zeroed, Faithful, Answer, Live;
      HeardAnswers(Deciding(), KeepAlive, now);
      assert StreamPart(hist.steps) + [] == StreamPart(hist.steps);
      var alive;
      alive, h, refused := Dispatch(pool, Event.Hangup, now);
    }

    // A read reports: `res` bytes from where the kernel was told to put them, or
    // a failure, or the end of file.
    method OnRead(pool: Pool, failed: bool, res: nat, now: u64)
      returns (ghost h: History, ghost news: seq<StreamEvent>, ghost refused: bool)
      requires pool.Valid() && slot in pool.members && Live() && Timely(hist.steps, now)
      requires readInFlight && readAt + res <= RECV_CAP
      modifies this, recvBuf, sendBuf, pool, pool.occupied
      ensures Outcome(pool, old(SeatNow(pool)), h) && h.steps != [] && Timely(h.steps, now)
      ensures Decided(pool, h, refused, old(closing), old(writeInFlight))
      ensures old(closing) ==> h == old(hist).(hangups := h.hangups)
      ensures !old(closing) && (failed || res == 0) ==>
                h == old(hist).(steps := old(hist).steps + [Step(Event.Hangup, now)], hangups := h.hangups)
      ensures !old(closing) && !failed && res > 0 ==>
                && Added(old(hist).(received := old(hist).received + old(Arrived(res))), h, news, now)
                && ReadStream(old(infoHash), h.received).events == old(StreamPart(hist.steps)) + news
    {
      hide Informed, Conserved, Closed, Settled, Nonsensical, Spoke, StreamPart, Zeroed, Faithful, Timely, Midway, Added,
           ReadStream, Quiet;
      h, news := hist, [];
      readInFlight := false;
      if closing {
        h, refused := HangUp(pool);
        return;
      }
      if failed || res == 0 {
        h, refused := Lost(pool, now);
        return;
      }
      h, news, refused := Digest(pool, res, now);
    }

    // Some bytes arrived: what they complete is told.
    method Digest(pool: Pool, res: nat, now: u64)
      returns (ghost h: History, ghost news: seq<StreamEvent>, ghost refused: bool)
      requires pool.Valid() && slot in pool.members && Awake() && Timely(hist.steps, now)
      requires !readInFlight && readAt == recvLen && readAt + res <= RECV_CAP
      modifies this, recvBuf, sendBuf, pool, pool.occupied
      ensures Outcome(pool, old(SeatNow(pool)), h) && h.steps != [] && Timely(h.steps, now)
      ensures Decided(pool, h, refused, false, old(writeInFlight))
      ensures Added(old(hist).(received := old(hist).received + old(Arrived(res))), h, news, now)
      ensures ReadStream(old(infoHash), h.received).events == old(StreamPart(hist.steps)) + news
    {
      hide Informed, Conserved, Closed, Settled, Nonsensical, Spoke, StreamPart, Zeroed, Faithful, Timely, Midway, Added,
           ReadStream, Quiet;
      UnderWay(Deciding(), hist.steps);
      TakeIn(res);
      ghost var before := hist;
      h, news, refused := Tick(pool, now);
      OutcomeTold(pool, old(SeatNow(pool)), h);
      AddedTold(before, h, news, now);
      AddedTimely(before, h, news, now);
    }

    lemma {:induction false} AddedTimely(before: History, h: History, news: seq<StreamEvent>, now: u64)
      requires Added(before, h, news, now) && before.steps != [] && Timely(before.steps, now)
      ensures h.steps != [] && Timely(h.steps, now)
    {
    }

    // The bytes of a read, now part of what is buffered.
    method TakeIn(res: nat)
      requires Based() && Spoke(state, hist) && Caught() && !Nonsensical(infoHash, hist.received)
      requires readAt == recvLen && recvLen + res <= RECV_CAP
      modifies this`recvLen, this`hist
      ensures Based() && Spoke(state, hist) && hist == old(hist).(received := old(hist).received + old(Arrived(res)))
      ensures Midway(infoHash, hist.received, StreamPart(hist.steps), state, Recv())
    {
      hide Informed, Conserved, Settled, Nonsensical, Spoke, StreamPart, Midway;
      ghost var more := Arrived(res);
      ReceivedAside(infoHash, id, state, hist, Send(), hist.received + more);
      MoreArrived(infoHash, hist.received, StreamPart(hist.steps), state, Recv(), more);
      assert Recv() + more == recvBuf[..recvLen + res];
      recvLen := recvLen + res;
      hist := hist.(received := hist.received + more);
    }

    lemma {:induction false} AddedTold(before: History, h: History, news: seq<StreamEvent>, now: u64)
      requires Added(before, h, news, now)
      ensures StreamPart(h.steps) == StreamPart(before.steps) + news
    {
      StreamPartStamped(before.steps, news, now);
    }

    // A write reports: how much of what it was given went out, or a failure.
    method OnWrite(pool: Pool, failed: bool, res: nat, now: u64) returns (ghost h: History, ghost refused: bool)
      requires pool.Valid() && slot in pool.members && Live() && Timely(hist.steps, now)
      requires writeInFlight && res <= |writing|
      modifies this, recvBuf, sendBuf, pool, pool.occupied
      ensures Outcome(pool, old(SeatNow(pool)), h) && h.steps != [] && Timely(h.steps, now)
      ensures Decided(pool, h, refused, old(closing), old(readInFlight)) && StillReads(pool, old(readInFlight))
      ensures h.received == old(hist).received
      ensures old(closing) ==> h == old(hist).(hangups := h.hangups)
      ensures !old(closing) && (failed || res == 0) ==>
                h == old(hist).(steps := old(hist).steps + [Step(Event.Hangup, now)], hangups := h.hangups)
      ensures !old(closing) && !failed && res > 0 ==>
                h == old(hist).(acked := old(hist).acked + old(writing)[..res], hangups := h.hangups)
    {
      hide Informed, Conserved, Closed, Settled, Nonsensical, Spoke, StreamPart, Zeroed, Faithful, Timely, Midway, Added,
           ReadStream, Quiet;
      h := hist;
      writeInFlight := false;
      if closing {
        h, refused := HangUp(pool);
        return;
      }
      if failed || res == 0 {
        h, refused := Lost(pool, now);
        return;
      }
      h, refused := Acknowledge(pool, res, now);
    }

    // Some of what was given went out.
    method Acknowledge(pool: Pool, res: nat, now: u64) returns (ghost h: History, ghost refused: bool)
      requires pool.Valid() && slot in pool.members && Awake() && Timely(hist.steps, now)
      requires !writeInFlight && res <= sendLen
      modifies this, recvBuf, sendBuf, pool, pool.occupied
      ensures Outcome(pool, old(SeatNow(pool)), h)
      ensures h == old(hist).(acked := old(hist).acked + old(Send())[..res], hangups := h.hangups)
      ensures Decided(pool, h, refused, false, old(readInFlight)) && StillReads(pool, old(readInFlight))
    {
      hide Informed, Conserved, Closed, Settled, Nonsensical, Spoke, StreamPart, Zeroed, Faithful, Timely, Midway, Added,
           ReadStream, Quiet;
      UnderWay(Deciding(), hist.steps);
      NothingNew(infoHash, hist.received, StreamPart(hist.steps), state, Recv());
      Unfinished(infoHash, hist.received, StreamPart(hist.steps), state, Recv());
      CaughtTold();
      Unqueue(res);
      ghost var before := hist;
      ghost var news: seq<StreamEvent>;
      h, news, refused := Tick(pool, now);
      OutcomeTold(pool, old(SeatNow(pool)), h);
      NoNews(old(infoHash), before, h, news, now);
    }

    lemma {:induction false} CaughtTold()
      requires Bounds() && Caught()
      ensures StreamPart(hist.steps) == ReadStream(infoHash, hist.received).events
    {
      hide StreamPart, ReadStream;
    }

    // Drops what went out, keeping what did not at the front of the buffer.
    method Unqueue(res: nat)
      requires Based() && Spoke(state, hist) && !writeInFlight && res <= sendLen
      modifies this`sendLen, this`hist, sendBuf
      ensures Based() && Spoke(state, hist)
      ensures hist == old(hist).(acked := old(hist).acked + old(Send())[..res])
      ensures Send() == old(Send())[res..]
    {
      hide Informed, Conserved, Spoke;
      ghost var on, unsent := hist.(acked := hist.acked + Send()[..res]), Send()[res..];
      SomeTaken(infoHash, id, hist, Send(), res, on);
      SpokeAside(state, hist, on);
      MoveToFront(sendBuf, res, sendLen - res);
      sendLen := sendLen - res;
      assert Send() == unsent;
      hist := on;
    }

    lemma {:induction false} NoNews(infoHash: Bytes, before: History, h: History, news: seq<StreamEvent>, now: u64)
      requires Added(before, h, news, now)
      requires StreamPart(before.steps) == ReadStream(infoHash, before.received).events
      requires StreamPart(h.steps) == ReadStream(infoHash, h.received).events
      ensures h == before.(hangups := h.hangups)
    {
      hide StreamPart, ReadStream;
      StreamPartStamped(before.steps, news, now);
      assert |news| == 0;
      assert before.steps + Stamped(news, now) == before.steps;
    }

    // The hang-up reports.
    method OnClose(pool: Pool) returns (ghost h: History)
      requires pool.Valid() && slot in pool.members && Live() && hangingUp
      modifies this, recvBuf, sendBuf, pool, pool.occupied
      ensures slot !in pool.members && Outcome(pool, old(SeatNow(pool)), h) && h == old(hist)
    {
      hide Informed, Conserved, Closed, Settled, Nonsensical, Spoke, StreamPart, Zeroed, Faithful;
      h := hist;
      SteadyIsFaithful(h);
      hangingUp := false;
      Release(pool, h);
    }

    // The kernel puts bytes where it was told to, at any moment before the read
    // is reported.
    method KernelFills(s: Bytes)
      requires Live() && readInFlight && readAt + |s| <= RECV_CAP
      modifies recvBuf
      ensures Live() && recvBuf[readAt..readAt + |s|] == s
    {
      hide Informed, Conserved, Closed, Settled, Nonsensical, Spoke, StreamPart;
      ghost var recv := Recv();
      Blit(recvBuf, readAt, s);
      assert Recv() == recv;
    }

    // ---------- The two ends of a slot's use ----------

    method PointAt(infoHash: Bytes, socket: int)
      requires Unset() && |infoHash| == HASH_LEN
      modifies this`socket, this`infoHash, this`id, this`idleDueAt, this`keepAliveDueAt, this`deadlineAt
      ensures this.socket == socket && this.infoHash == infoHash && id == PEER_ID
      ensures Deciding() == START
    {
      this.socket := socket;
      this.infoHash := infoHash;
      id := id[0 := 1];
      idleDueAt, keepAliveDueAt, deadlineAt := NO_DEADLINE, NO_DEADLINE, NO_DEADLINE;
    }

    // A slot straight from the pool pointed at a connection.
    method Init(infoHash: Bytes, socket: int)
      requires Zeroed() && |infoHash| == HASH_LEN
      modifies this
      ensures Listening() && Caught() && hist == NEWBORN && state == Initial && recvLen == 0
      ensures this.infoHash == infoHash && this.socket == socket && id == PEER_ID
      ensures !readInFlight && !writeInFlight
    {
      hide Informed, Conserved, Spoke, Settled, Closed, StreamPart, AllZero;
      PointAt(infoHash, socket);
      hist := NEWBORN;
      NewbornIsNew(infoHash, id);
      assert Recv() == [] && Send() == [];
    }

    // The first thing an accepted connection is told, and what comes of it.
    method Welcome(pool: Pool, infoHash: Bytes, socket: int, now: u64) returns (ghost h: History, ghost refused: bool)
      requires pool.Valid() && slot in pool.members && Zeroed() && |infoHash| == HASH_LEN && Sane(now)
      modifies this, recvBuf, sendBuf, pool, pool.occupied
      ensures Outcome(pool, Seat(old(pool.members), old(pool.departed), infoHash, PEER_ID, socket), h)
      ensures h.received == [] && h.steps == [Step(Accepted, now)] && h.acked == []
      ensures if refused then slot in pool.members ==> closing else slot in pool.members && !closing
    {
      hide Informed, Conserved, Closed, Settled, Nonsensical, Spoke, StreamPart, Faithful, Answer, Live;
      Init(infoHash, socket);
      AcceptedAnswer(Deciding(), now);
      assert Recv() == [];
      assert StreamPart(hist.steps) + [] == StreamPart(hist.steps);
      NothingHeard(infoHash, SentHandshake);
      NothingYetRun();
      var alive;
      alive, h, refused := Dispatch(pool, Accepted, now);
      assert Recv() == [];
      h, refused := Pump(pool);
    }

    lemma {:induction false} SameCore(c: Core, steps: seq<Step>)
      requires Informed(c, steps)
      ensures forall d: Core :: Informed(d, steps) ==> d == c
    {
      hide Possible, PeerActor.Run;
    }

    // A deadline that has passed. Answers false when that was the end, and
    // otherwise when to come back, read before the pump, which may be the end.
    method Expire(pool: Pool, now: u64) returns (alive: bool, dueAt: u64, ghost h: History, ghost refused: bool)
      requires pool.Valid() && slot in pool.members && Live() && !closing && Timely(hist.steps, now)
      modifies this, recvBuf, sendBuf, pool, pool.occupied
      ensures Outcome(pool, old(SeatNow(pool)), h) && Timely(h.steps, now)
      ensures h.steps == old(hist).steps + [Step(Deadline, now)]
      ensures h.received == old(hist).received && h.acked == old(hist).acked
      ensures !closing ==> alive
      ensures alive ==> dueAt > now && deadlineAt == dueAt
      ensures Decided(pool, h, refused, false, true) && StillReads(pool, true)
      ensures alive <==> Met(old(hist.steps)) && now < GiveUpAt(old(hist.steps))
      ensures alive ==> CarriedOut(if now >= SpeakAt(old(hist.steps), |old(hist.steps)|) then [SendKeepAlive] else [],
                                   SEND_CAP - old(sendLen), old(hist), h)
    {
      hide CarriedOut, Informed, Conserved, Closed, Settled, Nonsensical, Spoke, StreamPart, Faithful, Answer, Met,
           GiveUpAt, SpeakAt;
      DeadlineAnswer(Deciding(), hist.steps, now);
      DeadlineExact(Deciding(), hist.steps, now);
      assert StreamPart(hist.steps) + [] == StreamPart(hist.steps);
      alive, h, refused := Dispatch(pool, Deadline, now);
      dueAt := deadlineAt;
      if alive {
        ghost var c, before := Deciding(), h;
        h, refused := Pump(pool);
        SameCore(c, h.steps);
        CarriedAside(Answer(old(Deciding()), Deadline, now), SEND_CAP - old(sendLen), old(hist), before, h);
      }
    }
  }
}
