// The pool of connections and the loop that drives them (torrent.c, main.c),
// against a kernel that may do anything it is allowed to.
module PeerNetwork {
  import opened Bytes
  import opened PeerWire
  import opened PeerActor
  import opened PeerSending
  import opened PeerHistory
  import opened Bitset
  import opened PeerPool
  import opened PeerConnection

  const LOOP_WAIT_MAX: nat := 5 * SECOND

  // How long the loop may wait before the nearest deadline.
  method WaitNs(earliest: u64, now: u64) returns (wait: u64)
    requires earliest > now
    ensures 1 <= wait <= 5_000_000_000 && now + wait <= earliest
    ensures wait == 5_000_000_000 || now + wait == earliest
  {
    var until := earliest - now;
    if until >= LOOP_WAIT_MAX {
      return LOOP_WAIT_MAX;
    }
    return until;
  }

  datatype Happening =
    | Connects(socket: int, now: u64)
    | ReadDone(i: nat, failed: bool, res: nat, now: u64)
    | WriteDone(i: nat, failed: bool, res: nat, now: u64)
    | CloseDone(i: nat, now: u64)
    | BytesLand(i: nat, s: Bytes)
    | TurnBegins(now: u64)

  // How a slot stood before a walk: whether it was to be left alone, whether a
  // read was with the kernel, and what its connection had been through.
  datatype Before = Before(notDue: bool, reading: bool, socket: int, hist: History)

  // What a report makes of a connection that had been through `was`: nothing more
  // when it was closing, a hang-up when the report is of a failure or the end, and
  // otherwise the bytes that `arrived`, with exactly the events they complete, or
  // the bytes taken of those `writing`.
  ghost predicate Came(e: Happening, closing: bool, infoHash: Bytes, arrived: Bytes, writing: Bytes, was: History,
                       h: History)
    requires e.ReadDone? || e.WriteDone? || e.CloseDone?
  {
    if closing || e.CloseDone? then h == was.(hangups := h.hangups)
    else if e.failed || e.res == 0 then
      h == was.(steps := was.steps + [Step(Event.Hangup, e.now)], hangups := h.hangups)
    else if e.ReadDone? then
      var on := was.(received := was.received + arrived);
      var told, events := StreamPart(was.steps), ReadStream(infoHash, on.received).events;
      told <= events && Added(on, h, events[|told|..], e.now)
    else e.res <= |writing| && h == was.(acked := was.acked + writing[..e.res], hangups := h.hangups)
  }

  ghost predicate Full(members: set<nat>) {
    forall j: nat :: j < SLOTS ==> j in members
  }

  ghost predicate LowestFree(i: nat, members: set<nat>) {
    i < SLOTS && i !in members && forall j: nat :: j < i ==> j in members
  }

  // No memory is in two slots.
  ghost predicate Separate(p: TorrentPeer, q: TorrentPeer) {
    && p != q && p.recvBuf != q.recvBuf && p.sendBuf != q.sendBuf
    && p.recvBuf != q.sendBuf && p.sendBuf != q.recvBuf
  }

  class Network {
    const pool: Pool
    const peers: seq<TorrentPeer>
    const infoHash: Bytes

    // When anything was last called.
    var clock: u64
    // How many connections were accepted, and how many of them turned away.
    ghost var accepted: nat
    ghost var refused: nat

    ghost predicate Laid() {
      && |peers| == SLOTS && |infoHash| == HASH_LEN
      && (forall i: nat :: i < SLOTS ==> peers[i].Wired() && peers[i].slot == i && Outside(peers[i]))
      && forall i: nat, j: nat :: i < SLOTS && j < SLOTS && i != j ==> Separate(peers[i], peers[j])
    }

    ghost function Memory(): (m: set<object>)
      ensures forall p | p in peers :: p in m && p.recvBuf in m && p.sendBuf in m
    {
      (set p | p in peers :: p as object) + (set p | p in peers :: p.recvBuf as object)
      + (set p | p in peers :: p.sendBuf as object)
    }

    // The bitset is in no slot either.
    ghost predicate Outside(p: TorrentPeer) {
      p.recvBuf as object != pool.occupied && p.sendBuf as object != pool.occupied
    }

    // An occupied slot between callbacks.
    ghost predicate Held(p: TorrentPeer)
      reads this`clock, p, p.recvBuf, p.sendBuf
    {
      p.Live() && p.infoHash == infoHash && p.id == PEER_ID && p.hist.steps[|p.hist.steps| - 1].now <= clock
    }

    ghost predicate Slot(i: nat)
      requires i < |peers|
      reads this`clock, pool`members, peers[i], peers[i].recvBuf, peers[i].sendBuf
    {
      if i in pool.members then Held(peers[i]) else peers[i].Zeroed()
    }

    // Every connection ever accepted was turned away, has left, or is here.
    ghost predicate Balanced()
      reads this, pool
    {
      accepted == refused + |pool.departed| + |pool.members|
    }

    ghost predicate AllFaithful()
      reads this, pool
    {
      forall i :: 0 <= i < |pool.departed| ==> Faithful(infoHash, PEER_ID, pool.departed[i].h)
    }

    ghost predicate Valid()
      reads this, pool, pool.occupied, Memory()
    {
      && Laid() && pool.Valid() && Balanced() && AllFaithful()
      && forall i: nat :: i < SLOTS ==> assert peers[i] in peers; Slot(i)
    }

    constructor (infoHash: Bytes)
      requires |infoHash| == HASH_LEN
      ensures Valid() && pool.members == {} && pool.departed == [] && accepted == 0 && clock == 0
      ensures this.infoHash == infoHash
    {
      var slots: seq<TorrentPeer> := [];
      for i := 0 to SLOTS
        invariant |slots| == i
        invariant forall k: nat :: k < i ==> slots[k].Zeroed() && slots[k].slot == k
        invariant forall j: nat, k: nat :: j < i && k < i && j != k ==> Separate(slots[j], slots[k])
      {
        hide TorrentPeer.Zeroed;
        var slot := new TorrentPeer(i);
        slots := slots + [slot];
      }
      this.infoHash := infoHash;
      peers := slots;
      pool := new Pool();
      clock, accepted, refused := 0, 0, 0;
    }

    // A read of the connection on `socket`, which has received `received`, is with
    // the kernel.
    ghost predicate Waiting(i: nat, socket: int, received: Bytes)
      reads pool`members, if i < |peers| then {peers[i]} else {}
    {
      && i < SLOTS && i < |peers| && i in pool.members
      && peers[i].readInFlight && peers[i].socket == socket && peers[i].hist.received == received
    }

    // ---------- One slot at a time ----------

    // The slots other than `i`, with the occupied ones `members`.
    ghost predicate Others(i: nat, members: set<nat>)
      requires Laid()
      reads this`clock, Memory()
    {
      forall j: nat :: j < SLOTS && j != i ==>
        assert peers[j] in peers; if j in members then Held(peers[j]) else peers[j].Zeroed()
    }

    lemma {:induction false} OthersOf(i: nat)
      requires Valid() && i < SLOTS
      ensures Others(i, pool.members)
    {
      hide TorrentPeer.Live, TorrentPeer.Zeroed, Faithful, Pool.Valid, Held;
      forall j: nat | j < SLOTS && j != i ensures if j in pool.members then Held(peers[j]) else peers[j].Zeroed() {
        assert Slot(j);
      }
    }

    // What is left to say after `peers[i]` alone was called.
    lemma {:induction false} OnlyThis(i: nat, was: Seat, h: History)
      requires Laid() && i < SLOTS && i in was.members && Others(i, was.members)
      requires accepted == refused + |was.departed| + |was.members|
      requires forall k :: 0 <= k < |was.departed| ==> Faithful(infoHash, PEER_ID, was.departed[k].h)
      requires was.infoHash == infoHash && was.id == PEER_ID
      requires peers[i].Outcome(pool, was, h)
      requires h.steps != [] && h.steps[|h.steps| - 1].now <= clock
      ensures Valid()
      ensures if i in pool.members then pool.members == was.members && peers[i].hist == h && peers[i].socket == was.socket
              else pool.members == was.members - {i}
    {
      hide TorrentPeer.Live, TorrentPeer.Zeroed, Faithful, Pool.Valid;
      Seated(i, was, h);
    }

    lemma {:induction false} Seated(i: nat, was: Seat, h: History)
      requires Laid() && i < SLOTS && peers[i].Outcome(pool, was, h)
      requires was.infoHash == infoHash && was.id == PEER_ID
      requires h.steps != [] && h.steps[|h.steps| - 1].now <= clock
      ensures Slot(i)
    {
      hide TorrentPeer.Live, TorrentPeer.Zeroed, Faithful, Pool.Valid;
      if i in pool.members {
        peers[i].LiveSteps();
      }
    }

    // A member at rest, about to be called back at `now`.
    lemma {:induction false} Ready(i: nat, now: u64)
      requires Valid() && i < SLOTS && i in pool.members && clock <= now && Sane(now)
      ensures peers[i].Live() && Timely(peers[i].hist.steps, now) && peers[i].slot == i
      ensures peers[i].SeatNow(pool) == Seat(pool.members, pool.departed, infoHash, PEER_ID, peers[i].socket)
    {
      hide TorrentPeer.Live, TorrentPeer.Zeroed, Faithful, Pool.Valid;
      assert Slot(i);
      peers[i].LiveSteps();
    }

    // Time moves on.
    method Tock(now: u64)
      requires Valid() && clock <= now
      modifies this`clock
      ensures Valid() && clock == now
    {
      hide TorrentPeer.Live, TorrentPeer.Zeroed, Faithful, Pool.Valid;
      clock := now;
      forall j: nat | j < SLOTS ensures Slot(j) {
        assert old(Slot(j));
      }
    }

    method ReadReports(i: nat, failed: bool, res: nat, now: u64) returns (ghost h: History, ghost no: bool)
      requires Valid() && clock <= now && Sane(now) && i < SLOTS && i in pool.members
      requires peers[i].readInFlight && peers[i].readAt + res <= RECV_CAP
      modifies this`clock, pool, pool.occupied, peers[i], peers[i].recvBuf, peers[i].sendBuf
      ensures Valid() && clock == now
      ensures peers[i].Outcome(pool, old(peers[i].SeatNow(pool)), h)
      ensures peers[i].Decided(pool, h, no, old(peers[i].closing), old(peers[i].writeInFlight))
      ensures Came(ReadDone(i, failed, res, now), old(peers[i].closing), infoHash, old(peers[i].Arrived(res)),
                   old(peers[i].writing), old(peers[i].hist), h)
    {
      hide TorrentPeer.Live, TorrentPeer.Zeroed, TorrentPeer.Outcome, Faithful, Pool.Valid;
      Tock(now);
      Ready(i, now);
      var peer := peers[i];
      ghost var was := peer.SeatNow(pool);
      OthersOf(i);
      ghost var news: seq<StreamEvent>;
      label called:
      h, news, no := peer.OnRead(pool, failed, res, now);
      forall j: nat | j < SLOTS && j != i ensures if j in was.members then Held(peers[j]) else peers[j].Zeroed() {
        assert old@called(if j in was.members then Held(peers[j]) else peers[j].Zeroed());
        assert Separate(peers[j], peer) && Outside(peers[j]);
      }
      OnlyThis(i, was, h);
    }

    method WriteReports(i: nat, failed: bool, res: nat, now: u64) returns (ghost h: History, ghost no: bool)
      requires Valid() && clock <= now && Sane(now) && i < SLOTS && i in pool.members
      requires peers[i].writeInFlight && res <= |peers[i].writing|
      modifies this`clock, pool, pool.occupied, peers[i], peers[i].recvBuf, peers[i].sendBuf
      ensures Valid() && clock == now
      ensures peers[i].Outcome(pool, old(peers[i].SeatNow(pool)), h)
      ensures peers[i].Decided(pool, h, no, old(peers[i].closing), old(peers[i].readInFlight))
      ensures old(peers[i].readInFlight) ==> Waiting(i, old(peers[i].socket), old(peers[i].hist.received))
      ensures Came(WriteDone(i, failed, res, now), old(peers[i].closing), infoHash, [], old(peers[i].writing),
                   old(peers[i].hist), h)
    {
      hide TorrentPeer.Live, TorrentPeer.Zeroed, TorrentPeer.Outcome, Faithful, Pool.Valid;
      Tock(now);
      Ready(i, now);
      var peer := peers[i];
      ghost var was := peer.SeatNow(pool);
      OthersOf(i);
      label called:
      h, no := peer.OnWrite(pool, failed, res, now);
      forall j: nat | j < SLOTS && j != i ensures if j in was.members then Held(peers[j]) else peers[j].Zeroed() {
        assert old@called(if j in was.members then Held(peers[j]) else peers[j].Zeroed());
        assert Separate(peers[j], peer) && Outside(peers[j]);
      }
      OnlyThis(i, was, h);
    }

    method CloseReports(i: nat, now: u64) returns (ghost h: History)
      requires Valid() && clock <= now && Sane(now) && i < SLOTS && i in pool.members
      requires peers[i].hangingUp
      modifies this`clock, pool, pool.occupied, peers[i], peers[i].recvBuf, peers[i].sendBuf
      ensures Valid() && clock == now
      ensures peers[i].Outcome(pool, old(peers[i].SeatNow(pool)), h) && i !in pool.members
      ensures Came(CloseDone(i, now), old(peers[i].closing), infoHash, [], old(peers[i].writing), old(peers[i].hist), h)
    {
      hide TorrentPeer.Live, TorrentPeer.Zeroed, TorrentPeer.Outcome, Faithful, Pool.Valid;
      Tock(now);
      Ready(i, now);
      var peer := peers[i];
      ghost var was := peer.SeatNow(pool);
      OthersOf(i);
      peer.LiveSteps();
      label called:
      h := peer.OnClose(pool);
      forall j: nat | j < SLOTS && j != i ensures if j in was.members then Held(peers[j]) else peers[j].Zeroed() {
        assert old@called(if j in was.members then Held(peers[j]) else peers[j].Zeroed());
        assert Separate(peers[j], peer) && Outside(peers[j]);
      }
      OnlyThis(i, was, h);
    }

    // The kernel writes where a pending read told it to.
    method KernelFills(i: nat, s: Bytes)
      requires Valid() && i < SLOTS && i in pool.members
      requires peers[i].readInFlight && peers[i].readAt + |s| <= RECV_CAP
      modifies peers[i].recvBuf
      ensures Valid() && peers[i].readAt + |s| <= peers[i].recvBuf.Length
      ensures peers[i].recvBuf[peers[i].readAt..peers[i].readAt + |s|] == s
    {
      hide TorrentPeer.Live, TorrentPeer.Zeroed, TorrentPeer.Outcome, Faithful, Pool.Valid;
      assert Slot(i);
      var peer := peers[i];
      label called:
      peer.KernelFills(s);
      forall j: nat | j < SLOTS ensures Slot(j) {
        assert old@called(Slot(j));
        if j != i {
          assert Separate(peers[j], peer);
        }
      }
    }

    // A connection in a slot just acquired.
    method SitDown(i: nat, socket: int, now: u64) returns (ghost no: bool)
      requires Laid() && pool.Valid() && AllFaithful() && Balanced() && clock == now && Sane(now)
      requires i < SLOTS && i in pool.members && peers[i].Zeroed() && Others(i, pool.members)
      modifies pool, pool.occupied, peers[i], peers[i].recvBuf, peers[i].sendBuf
      ensures Valid() && (pool.members == old(pool.members) || pool.members == old(pool.members) - {i})
      ensures !no ==> i in pool.members && !peers[i].closing
      ensures i in pool.members ==> peers[i].socket == socket && peers[i].hist.steps == [Step(Accepted, now)]
    {
      hide TorrentPeer.Live, TorrentPeer.Zeroed, TorrentPeer.Outcome, Faithful, Pool.Valid;
      var peer := peers[i];
      ghost var was := Seat(pool.members, pool.departed, infoHash, PEER_ID, socket);
      label called:
      ghost var h: History;
      h, no := peer.Welcome(pool, infoHash, socket, now);
      forall j: nat | j < SLOTS && j != i ensures if j in was.members then Held(peers[j]) else peers[j].Zeroed() {
        assert old@called(if j in was.members then Held(peers[j]) else peers[j].Zeroed());
        assert Separate(peers[j], peer) && Outside(peers[j]);
      }
      OnlyThis(i, was, h);
    }

    // A slot for one more, or none.
    method FindSeat(now: u64) returns (slot: Option<nat>)
      requires Valid() && clock <= now
      modifies this`clock, this`accepted, pool`members, pool.occupied
      ensures clock == now && accepted == old(accepted) + 1
      ensures Laid() && pool.Valid() && AllFaithful()
      ensures accepted == refused + |pool.departed| + |pool.members| + if slot.None? then 1 else 0
      ensures slot.None? ==>
                && pool.members == old(pool.members) && Full(pool.members)
                && forall j: nat :: j < SLOTS ==> assert peers[j] in peers; Slot(j)
      ensures slot.Some? ==>
                && LowestFree(slot.value, old(pool.members))
                && pool.members == old(pool.members) + {slot.value}
                && peers[slot.value].Zeroed() && Others(slot.value, pool.members)
    {
      hide TorrentPeer.Live, TorrentPeer.Zeroed, TorrentPeer.Outcome, Faithful, Pool.Valid;
      clock, accepted := now, accepted + 1;
      slot := pool.Acquire();
      forall j: nat | j < SLOTS ensures if j in old(pool.members) then Held(peers[j]) else peers[j].Zeroed() {
        assert old(Slot(j));
        assert Outside(peers[j]);
      }
      if slot.Some? {
        OnlyOneMore(old(pool.members), slot.value);
      }
    }

    // A connection the listener took: given the lowest free slot, or turned away
    // when there is none.
    method OnAccept(socket: int, now: u64) returns (slot: Option<nat>, ghost no: bool)
      requires Valid() && clock <= now && Sane(now) && |peers| == SLOTS
      modifies this, pool, pool.occupied, Memory()
      ensures Valid() && clock == now && accepted == old(accepted) + 1
      ensures slot.None? ==>
                Full(old(pool.members)) && refused == old(refused) + 1 && pool.members == old(pool.members)
      ensures slot.Some? ==>
                && LowestFree(slot.value, old(pool.members)) && refused == old(refused)
                && (if slot.value in pool.members
                    then
                      && pool.members == old(pool.members) + {slot.value} && peers[slot.value].socket == socket
                      && peers[slot.value].hist.steps == [Step(Accepted, now)]
                    else no && pool.members == old(pool.members))
                && (!no ==> !peers[slot.value].closing)
      ensures forall j: nat :: j < SLOTS && j in old(pool.members) ==> j in pool.members && unchanged(peers[j])
    {
      AllApart();
      hide Valid, Laid, Held, TorrentPeer.Zeroed, Faithful, Pool.Valid, Others, AllFaithful, Balanced, Memory, Slot;
      slot := FindSeat(now);
      no := false;
      if slot.None? {
        TurnAway();
      } else {
        SeatCounted();
        no := SitDown(slot.value, socket, now);
      }
    }

    // Nobody to sit down.
    method TurnAway()
      requires Laid() && pool.Valid() && AllFaithful()
      requires accepted == refused + |pool.departed| + |pool.members| + 1
      requires forall j: nat :: j < SLOTS ==> assert peers[j] in peers; Slot(j)
      modifies this`refused
      ensures Valid() && refused == old(refused) + 1
    {
      hide Held, TorrentPeer.Zeroed, Faithful, Pool.Valid;
      refused := refused + 1;
      forall j: nat | j < SLOTS ensures Slot(j) {
        assert old(Slot(j));
      }
    }

    lemma {:induction false} SeatCounted()
      requires accepted == refused + |pool.departed| + |pool.members|
      ensures Balanced()
    {
    }

    lemma {:induction false} AllApart()
      requires Valid()
      ensures |peers| == SLOTS && forall i: nat, j: nat :: i < SLOTS && j < SLOTS && i != j ==> peers[i] != peers[j]
    {
      hide Slot, Pool.Valid;
    }

    lemma {:induction false} OnlyOneMore(s: set<nat>, i: nat)
      requires i !in s
      ensures |s + {i}| == |s| + 1
    {
    }

    // ---------- Deadlines ----------

    method Expire(i: nat, now: u64) returns (alive: bool, dueAt: u64)
      requires Valid() && clock == now && Sane(now) && i < SLOTS && i in pool.members && !peers[i].closing
      modifies pool, pool.occupied, peers[i], peers[i].recvBuf, peers[i].sendBuf
      ensures Valid() && pool.members == old(pool.members)
      ensures alive ==> dueAt > now && peers[i].deadlineAt == dueAt
      ensures peers[i].hist.steps == old(peers[i].hist.steps) + [Step(Deadline, now)]
      ensures Waiting(i, old(peers[i].socket), old(peers[i].hist.received))
      ensures !peers[i].closing ==> alive
      ensures alive <==> Met(old(peers[i].hist.steps)) && now < GiveUpAt(old(peers[i].hist.steps))
    {
      hide TorrentPeer.Live, TorrentPeer.Zeroed, TorrentPeer.Outcome, Faithful, Pool.Valid, Met, GiveUpAt;
      Ready(i, now);
      var peer := peers[i];
      ghost var was := peer.SeatNow(pool);
      OthersOf(i);
      ghost var h: History;
      ghost var no: bool;
      label called:
      alive, dueAt, h, no := peer.Expire(pool, now);
      forall j: nat | j < SLOTS && j != i ensures if j in was.members then Held(peers[j]) else peers[j].Zeroed() {
        assert old@called(if j in was.members then Held(peers[j]) else peers[j].Zeroed());
        assert Separate(peers[j], peer) && Outside(peers[j]);
      }
      OnlyThis(i, was, h);
    }

    // What is nobody's business yet: past being told anything, or not due.
    predicate NotDue(i: nat, now: u64)
      requires i < |peers|
      reads peers[i]
    {
      peers[i].closing || now < peers[i].deadlineAt
    }

    // One peer of the walk: called if it is due and not already closing.
    method Visit(i: nat, now: u64, earliest: u64) returns (e: u64)
      requires Valid() && clock == now && Sane(now) && i < SLOTS && i in pool.members && earliest > now
      modifies pool, pool.occupied, peers[i], peers[i].recvBuf, peers[i].sendBuf
      ensures Valid() && pool.members == old(pool.members)
      ensures now < e <= earliest && (e == earliest || e == peers[i].deadlineAt)
      ensures !peers[i].closing ==> e <= peers[i].deadlineAt
      ensures old(peers[i].readInFlight) ==> Waiting(i, old(peers[i].socket), old(peers[i].hist.received))
      ensures old(NotDue(i, now)) ==> peers[i].hist == old(peers[i].hist)
      ensures old(!NotDue(i, now)) ==>
                peers[i].hist.steps == old(peers[i].hist.steps) + [Step(Deadline, now)]
    {
      e := earliest;
      if peers[i].closing {
        return;
      }
      var dueAt := peers[i].deadlineAt;
      if now >= dueAt {
        var alive;
        alive, dueAt := Expire(i, now);
        if !alive {
          return;
        }
      }
      if dueAt < e {
        e := dueAt;
      }
    }

    // The walk over the slots, with those before `pos` behind it: `start` is who
    // was there when it set out, and `was` how they stood.
    ghost predicate Walked(start: set<nat>, was: seq<Before>, pos: nat, visits: seq<nat>, earliest: u64, now: u64)
      requires |peers| == |was| == SLOTS
      reads pool`members, peers
    {
      && pos <= SLOTS && now < earliest && Owed(start, pos, earliest)
      && pool.members == start
      && (forall k :: 0 <= k < |visits| ==> visits[k] in start && visits[k] < pos)
      && (forall k, l :: 0 <= k < l < |visits| ==> visits[k] < visits[l])
      && (forall j: nat :: j in start && j < pos ==> j in visits)
      && (forall j: nat :: j < SLOTS ==> if j < pos then Behind(start, was[j], j, earliest, now) else Ahead(was[j], j, now))
    }

    // An answer is somebody's deadline, or that there is none.
    ghost predicate Owed(start: set<nat>, pos: nat, earliest: u64)
      reads peers
    {
      earliest == NO_DEADLINE
      || exists j: nat :: j < |peers| && j < pos && j in start && peers[j].deadlineAt == earliest
    }

    ghost predicate Behind(start: set<nat>, was: Before, j: nat, earliest: u64, now: u64)
      requires j < |peers|
      reads peers[j]
    {
      j in start ==>
        && (if was.notDue then peers[j].hist == was.hist
            else peers[j].hist.steps == was.hist.steps + [Step(Deadline, now)])
        && (!peers[j].closing ==> earliest <= peers[j].deadlineAt)
        && (was.reading ==> peers[j].readInFlight && peers[j].socket == was.socket
                            && peers[j].hist.received == was.hist.received)
    }

    ghost predicate Ahead(was: Before, j: nat, now: u64)
      requires j < |peers|
      reads peers[j]
    {
      && peers[j].hist == was.hist && NotDue(j, now) == was.notDue
      && peers[j].readInFlight == was.reading && peers[j].socket == was.socket
    }

    lemma {:induction false} Skip(start: set<nat>, was: seq<Before>, pos: nat, next: nat, visits: seq<nat>, earliest: u64,
                                  now: u64)
      requires |peers| == |was| == SLOTS && Walked(start, was, pos, visits, earliest, now)
      requires pos <= next <= SLOTS && forall j: nat :: pos <= j < next ==> j !in pool.members
      ensures Walked(start, was, next, visits, earliest, now)
    {
      forall j: nat | pos <= j < next ensures Behind(start, was[j], j, earliest, now) {
        assert j !in start;
      }
    }

    method VisitNext(ghost start: set<nat>, ghost was: seq<Before>, ghost pos: nat, i: nat, ghost visits: seq<nat>,
                     earliest: u64, now: u64) returns (e: u64)
      requires Valid() && clock == now && Sane(now) && |was| == SLOTS
      requires Walked(start, was, pos, visits, earliest, now)
      requires pos <= i < SLOTS && i in pool.members && forall j: nat :: pos <= j < i ==> j !in pool.members
      modifies pool, pool.occupied, Memory()
      ensures Valid() && Walked(start, was, i + 1, visits + [i], e, now)
      ensures clock == old(clock)
    {
      hide Memory, Slot, Pool.Valid, Behind;
      Skip(start, was, pos, i, visits, earliest, now);
      e := Visit(i, now, earliest);
      WalkedOne(start, was, i, visits, earliest, e, now);
    }

    // Slot `i` stood as `was` says, and has been visited.
    ghost predicate Visited(was: Before, i: nat, earliest: u64, e: u64, now: u64)
      requires i < |peers|
      reads pool`members, peers[i]
    {
      && now < e <= earliest && (e == earliest || e == peers[i].deadlineAt)
      && (!peers[i].closing ==> e <= peers[i].deadlineAt)
      && (was.reading ==> Waiting(i, was.socket, was.hist.received))
      && (if was.notDue then peers[i].hist == was.hist
          else peers[i].hist.steps == was.hist.steps + [Step(Deadline, now)])
    }

    // The walk has been to slot `i`, and no other has changed.
    lemma {:induction false} WalkedOne(start: set<nat>, was: seq<Before>, i: nat, visits: seq<nat>, earliest: u64, e: u64,
                                       now: u64)
      requires |peers| == |was| == SLOTS && i < SLOTS && i in start && pool.members == start
      requires forall k :: 0 <= k < |visits| ==> visits[k] in start && visits[k] < i
      requires forall k, l :: 0 <= k < l < |visits| ==> visits[k] < visits[l]
      requires forall j: nat :: j in start && j < i ==> j in visits
      requires Owed(start, i, earliest) && Visited(was[i], i, earliest, e, now)
      requires forall j: nat :: j < SLOTS && j != i ==>
                 if j < i then Behind(start, was[j], j, earliest, now) else Ahead(was[j], j, now)
      ensures Walked(start, was, i + 1, visits + [i], e, now)
    {
    }

    // Which bits of a group's word the walk has been to.
    ghost predicate Marked(visited: Word, start: set<nat>, g: nat, pos: nat) {
      forall b: nat :: b < BITS ==> (Has(visited, b) <==> g * BITS + b in start && g * BITS + b < pos)
    }

    lemma {:induction false} NothingLeft(visited: Word, start: set<nat>, g: nat, pos: nat)
      requires Valid() && g < GROUPS && Marked(visited, start, g, pos) && pool.occupied.Length == GROUPS
      requires Without(pool.occupied[g], visited) == 0 && g * BITS <= pos
      ensures forall j: nat :: pos <= j < (g + 1) * BITS ==> j !in pool.members
    {
      hide Has, Without;
      forall j: nat | pos <= j < (g + 1) * BITS ensures j !in pool.members {
        var b: nat := j - g * BITS;
        WithoutHas(pool.occupied[g], visited, b);
        ZeroIsEmpty(0);
        assert g * BITS + b == j;
      }
    }

    lemma {:induction false} FirstLeft(visited: Word, start: set<nat>, was: seq<Before>, g: nat, pos: nat,
                                       visits: seq<nat>, earliest: u64, now: u64, bit: nat)
      requires Valid() && g < GROUPS && Marked(visited, start, g, pos) && pool.occupied.Length == GROUPS
      requires |was| == SLOTS && Walked(start, was, pos, visits, earliest, now) && g * BITS <= pos
      requires Ffs(Without(pool.occupied[g], visited)) == bit + 1
      ensures bit < BITS && pos <= g * BITS + bit < SLOTS && g * BITS + bit in pool.members
      ensures forall j: nat :: pos <= j < g * BITS + bit ==> j !in pool.members && j !in start
      ensures Marked(With(visited, Mask(bit)), start, g, g * BITS + bit + 1)
    {
      hide Has, Without, Slot, Behind, Ahead;
      WithoutHas(pool.occupied[g], visited, bit);
      assert g * BITS + bit in pool.members;
      forall j: nat | pos <= j < g * BITS + bit ensures j !in pool.members {
        var b: nat := j - g * BITS;
        WithoutHas(pool.occupied[g], visited, b);
        assert g * BITS + b == j;
      }
      MarkedOneMore(visited, start, g, pos, bit);
    }

    lemma {:induction false} MarkedOneMore(visited: Word, start: set<nat>, g: nat, pos: nat, bit: nat)
      requires Marked(visited, start, g, pos) && bit < BITS && pos <= g * BITS + bit && g * BITS + bit in start
      requires forall j: nat :: pos <= j < g * BITS + bit ==> j !in start
      requires g * BITS <= pos
      ensures Marked(With(visited, Mask(bit)), start, g, g * BITS + bit + 1)
    {
      hide Has, With, Mask;
      forall b: nat | b < BITS
        ensures Has(With(visited, Mask(bit)), b) <==> g * BITS + b in start && g * BITS + b < g * BITS + bit + 1
      {
        SetAndClear(visited, bit, b);
      }
    }

    ghost function StandingOf(j: nat, now: u64): Before
      requires j < |peers|
      reads peers[j]
    {
      Before(NotDue(j, now), peers[j].readInFlight, peers[j].socket, peers[j].hist)
    }

    ghost function Standing(now: u64, n: nat): (was: seq<Before>)
      requires n <= |peers|
      reads peers
      ensures |was| == n && forall j: nat :: j < n ==> was[j] == StandingOf(j, now)
    {
      if n == 0 then [] else Standing(now, n - 1) + [StandingOf(n - 1, now)]
    }

    // One group of the walk. Its word is read again at every pass, less the bits
    // already visited.
    method WalkGroup(ghost start: set<nat>, ghost was: seq<Before>, g: nat, ghost before: seq<nat>, earliest0: u64,
                     now: u64) returns (earliest: u64, ghost visits: seq<nat>)
      requires Valid() && clock == now && Sane(now) && |was| == SLOTS == |peers| && g < GROUPS
      requires Walked(start, was, g * BITS, before, earliest0, now)
      modifies pool, pool.occupied, Memory()
      ensures Valid() && Walked(start, was, (g + 1) * BITS, visits, earliest, now)
      ensures clock == old(clock)
    {
      hide Valid, Walked, Marked, Has, Without, With, Mask, Memory, Ffs;
      earliest, visits := earliest0, before;
      var visited: Word := 0;
      ghost var pos := g * BITS;
      NoneMarked(start, g);
      Words();
      for i := 0 to BITS
        invariant Valid() && clock == now
        invariant g * BITS + i <= pos <= (g + 1) * BITS
        invariant Walked(start, was, pos, visits, earliest, now)
        invariant Marked(visited, start, g, pos)
      {
        var group := Without(pool.occupied[g], visited);
        if group == 0 {
          NothingLeft(visited, start, g, pos);
          Skip(start, was, pos, (g + 1) * BITS, visits, earliest, now);
          pos := (g + 1) * BITS;
          break;
        }
        ghost var at := pos;
        earliest, visited, pos := Pass(start, was, g, group, visited, at, visits, earliest, now);
        visits := visits + [pos - 1];
      }
    }

    // One pass over a group with something left in it.
    method Pass(ghost start: set<nat>, ghost was: seq<Before>, g: nat, group: Word, visited: Word, ghost at: nat,
                ghost visits: seq<nat>, earliest: u64, now: u64) returns (e: u64, on: Word, ghost pos: nat)
      requires Valid() && clock == now && Sane(now) && |was| == SLOTS == |peers| && g < GROUPS
      requires g * BITS <= at && Walked(start, was, at, visits, earliest, now) && Marked(visited, start, g, at)
      requires pool.occupied.Length == GROUPS && group == Without(pool.occupied[g], visited) && group != 0
      modifies pool, pool.occupied, Memory()
      ensures Valid() && clock == now && at < pos <= (g + 1) * BITS
      ensures Walked(start, was, pos, visits + [pos - 1], e, now) && Marked(on, start, g, pos)
    {
      hide Valid, Walked, Marked, Has, Without, With, Mask, Memory, Ffs;
      ZeroIsEmpty(group);
      var bit := Ffs(group) - 1;
      FirstLeft(visited, start, was, g, at, visits, earliest, now, bit);
      on := With(visited, Mask(bit));
      e := VisitNext(start, was, at, g * BITS + bit, visits, earliest, now);
      pos := g * BITS + bit + 1;
    }

    lemma {:induction false} Words()
      requires Valid()
      ensures pool.occupied.Length == GROUPS && |peers| == SLOTS && pool.Valid()
    {
      hide Slot;
      pool.Words();
    }

    lemma {:induction false} WalkBegins(was: seq<Before>, now: u64)
      requires Valid() && Sane(now) && was == Standing(now, SLOTS)
      ensures Walked(pool.members, was, 0, [], NO_DEADLINE, now)
    {
    }

    // A walk that is done has been to everyone who was there, once and in order,
    // and has nothing due behind it.
    lemma {:induction false} WalkEnds(start: set<nat>, was: seq<Before>, visits: seq<nat>, earliest: u64, now: u64)
      requires Valid() && |was| == SLOTS && Walked(start, was, SLOTS, visits, earliest, now)
      requires forall j | j in start :: j < SLOTS
      ensures forall k, l :: 0 <= k < l < |visits| ==> visits[k] < visits[l]
      ensures forall j: nat :: j in visits <==> j in start
      ensures pool.members == start && earliest > now && Owed(start, SLOTS, earliest)
      ensures forall j: nat :: j < SLOTS ==> Behind(start, was[j], j, earliest, now)
    {
      hide Slot, Behind, Ahead;
    }

    method WalkAll(ghost start: set<nat>, ghost was: seq<Before>, now: u64)
      returns (earliest: u64, ghost visits: seq<nat>)
      requires Valid() && clock == now && Sane(now) && |was| == SLOTS == |peers|
      requires Walked(start, was, 0, [], NO_DEADLINE, now)
      modifies pool, pool.occupied, Memory()
      ensures Valid() && clock == now && Walked(start, was, SLOTS, visits, earliest, now)
    {
      hide Valid, Walked, Memory;
      earliest, visits := NO_DEADLINE, [];
      for g := 0 to GROUPS
        invariant Valid() && clock == now
        invariant Walked(start, was, g * BITS, visits, earliest, now)
      {
        earliest, visits := WalkGroup(start, was, g, visits, earliest, now);
      }
    }

    // Only a peer that was due was called, and it was told of its deadline and
    // nothing else.
    twostate predicate OnlyTheDue(now: u64)
      requires |peers| == SLOTS
      reads pool`members, peers
    {
      forall j: nat :: j < SLOTS && j in old(pool.members) ==>
        && (if old(peers[j].closing || now < peers[j].deadlineAt) then peers[j].hist == old(peers[j].hist)
            else peers[j].hist.steps == old(peers[j].hist.steps) + [Step(Deadline, now)])
        && (old(peers[j].readInFlight) ==> Waiting(j, old(peers[j].socket), old(peers[j].hist.received)))
    }

    // Nothing due is left behind: `earliest` is ahead, and no later than any
    // deadline still outstanding.
    ghost predicate NothingDue(earliest: u64, now: u64)
      requires |peers| == SLOTS
      reads pool`members, peers
    {
      && now < earliest && Owed(pool.members, SLOTS, earliest)
      && forall j: nat :: j < SLOTS && j in pool.members && !peers[j].closing ==> earliest <= peers[j].deadlineAt
    }

    // Gives every peer whose deadline has passed a `Deadline` event, and answers
    // with the earliest still outstanding. Nobody goes meanwhile: a connection that
    // is still open has a read in flight, and its hang-up waits for that.
    method DeadlinesRun(now: u64) returns (earliest: u64, ghost visits: seq<nat>)
      requires Valid() && clock <= now && Sane(now) && |peers| == SLOTS
      modifies this`clock, pool, pool.occupied, Memory()
      ensures Valid() && clock == now
      ensures forall k, l :: 0 <= k < l < |visits| ==> visits[k] < visits[l]
      ensures forall j: nat :: j in visits <==> j in old(pool.members)
      ensures pool.members == old(pool.members)
      ensures NothingDue(earliest, now) && OnlyTheDue(now)
    {
      hide Valid, Walked, Memory;
      Words();
      Tock(now);
      ghost var start, was := pool.members, Standing(now, SLOTS);
      WalkBegins(was, now);
      earliest, visits := WalkAll(start, was, now);
      WalkEnds(start, was, visits, earliest, now);
      forall j: nat | j < SLOTS && j in start
        ensures Behind(start, was[j], j, earliest, now) && was[j] == old(StandingOf(j, now))
      {
      }
    }

    lemma {:induction false} NoneMarked(start: set<nat>, g: nat)
      ensures Marked(0, start, g, g * BITS)
    {
      ZeroIsEmpty(0);
    }

    // ---------- Every run ----------

    predicate OnTime(now: u64)
      reads this`clock
    {
      clock <= now && Sane(now)
    }

    // What the kernel, the listener and the clock may do next: report an
    // operation they hold with any result that fits it, put bytes where a pending
    // read told them to, hand over a connection, or begin a turn of the loop.
    predicate Allowed(e: Happening)
      reads this`clock, peers
    {
      match e
      case Connects(_, now) => OnTime(now)
      case ReadDone(i, _, res, now) =>
        OnTime(now) && i < |peers| && peers[i].readInFlight && peers[i].readAt + res <= RECV_CAP
      case WriteDone(i, _, res, now) =>
        OnTime(now) && i < |peers| && peers[i].writeInFlight && res <= |peers[i].writing|
      case CloseDone(i, now) => OnTime(now) && i < |peers| && peers[i].hangingUp
      case BytesLand(i, s) => i < |peers| && peers[i].readInFlight && peers[i].readAt + |s| <= RECV_CAP
      case TurnBegins(now) => OnTime(now)
    }

    // Nothing is outstanding on a free slot.
    lemma {:induction false} BusyIsHeld(i: nat)
      requires Valid() && i < |peers|
      requires peers[i].readInFlight || peers[i].writeInFlight || peers[i].hangingUp
      ensures i < SLOTS && i in pool.members
    {
      hide TorrentPeer.Live, Held, Pool.Valid;
      assert Slot(i);
    }

    // Due peers are seen to, and the loop may wait for what is left.
    method Turn(now: u64) returns (wait: u64)
      requires Valid() && OnTime(now)
      modifies this`clock, pool, pool.occupied, Memory()
      ensures Valid() && 1 <= wait <= LOOP_WAIT_MAX
      ensures |peers| == SLOTS && OnlyTheDue(now) && pool.members == old(pool.members)
      ensures forall j: nat :: j < SLOTS && j in pool.members && !peers[j].closing ==> now + wait <= peers[j].deadlineAt
      ensures wait == LOOP_WAIT_MAX || Owed(pool.members, SLOTS, now + wait)
    {
      hide Valid;
      Words();
      var earliest;
      ghost var visits: seq<nat>;
      earliest, visits := DeadlinesRun(now);
      wait := WaitNs(earliest, now);
    }

    lemma {:induction false} SlotsApart()
      requires Valid()
      ensures Laid()
    {
      hide Slot, Pool.Valid;
    }

    // A report of a read on slot `i`.
    predicate ReportsRead(e: Happening, i: nat) {
      e.ReadDone? && e.i == i
    }

    // An operation of slot `j` reports.
    method Reported(e: Happening, j: nat, ghost i: nat) returns (ghost h: History)
      requires Valid() && Allowed(e) && i < SLOTS == |peers| && Laid() && j < |peers| && j in pool.members
      requires (e.ReadDone? || e.WriteDone? || e.CloseDone?) && e.i == j
      modifies this`clock, pool, pool.occupied, peers[j], peers[j].recvBuf, peers[j].sendBuf
      ensures Valid()
      ensures Came(e, old(peers[j].closing), infoHash, old(if e.ReadDone? then peers[j].Arrived(e.res) else []),
                   old(peers[j].writing), old(peers[j].hist), h)
      ensures peers[j].Outcome(pool, old(peers[j].SeatNow(pool)), h)
      ensures old(i in pool.members && peers[i].readInFlight) && !ReportsRead(e, i) ==>
                Waiting(i, old(peers[i].socket), old(peers[i].hist.received))
    {
      ghost var no: bool;
      ClosingReadsNothing(j);
      if i != j {
        assert Separate(peers[i], peers[j]);
      }
      hide Valid, Laid, Memory, TorrentPeer.Live, TorrentPeer.Outcome, Came;
      match e {
        case ReadDone(_, failed, res, now) =>
          ghost var no: bool;
          h, no := ReadReports(j, failed, res, now);
        case WriteDone(_, failed, res, now) =>
          ghost var no: bool;
          h, no := WriteReports(j, failed, res, now);
        case CloseDone(_, now) =>
          h := CloseReports(j, now);
      }
    }

    lemma {:induction false} ClosingReadsNothing(i: nat)
      requires Valid() && i < |peers| && i in pool.members
      ensures peers[i].hangingUp ==> !peers[i].readInFlight
    {
      hide Pool.Valid;
      assert Slot(i);
    }

    method Happens(e: Happening, ghost i: nat) returns (ghost h: History)
      requires Valid() && Allowed(e) && i < SLOTS == |peers|
      modifies this, pool, pool.occupied, Memory()
      ensures Valid()
      ensures e.Connects? ==> accepted == old(accepted) + 1 && clock == e.now
      ensures e.TurnBegins? ==> OnlyTheDue(e.now) && pool.members == old(pool.members)
      ensures e.ReadDone? || e.WriteDone? || e.CloseDone? ==>
                && Came(e, old(peers[e.i].closing), infoHash, old(if e.ReadDone? then peers[e.i].Arrived(e.res) else []),
                        old(peers[e.i].writing), old(peers[e.i].hist), h)
                && peers[e.i].Outcome(pool, old(peers[e.i].SeatNow(pool)), h)
      ensures old(i in pool.members && peers[i].readInFlight) && !ReportsRead(e, i) ==>
                Waiting(i, old(peers[i].socket), old(peers[i].hist.received))
    {
      h := NEWBORN;
      SlotsApart();
      hide Valid, Laid;
      match e {
        case Connects(socket, now) =>
          ghost var no: bool;
          var slot;
          slot, no := OnAccept(socket, now);
        case BytesLand(j, s) =>
          BusyIsHeld(j);
          KernelFills(j, s);
        case TurnBegins(now) =>
          var wait := Turn(now);
        case _ =>
          BusyIsHeld(e.i);
          h := Reported(e, e.i, i);
      }
    }

    // Whatever happens, in whatever order, and whichever submissions are
    // refused on the way. A read that is never reported keeps its slot for good:
    // no turn, no write and no deadline frees it.
    method Serve(schedule: seq<Happening>, ghost i: nat)
      requires Valid() && i < SLOTS == |peers|
      modifies this, pool, pool.occupied, Memory()
      ensures Valid()
      ensures old(i in pool.members && peers[i].readInFlight)
              && (forall k :: 0 <= k < |schedule| ==> !ReportsRead(schedule[k], i))
              ==> Waiting(i, old(peers[i].socket), old(peers[i].hist.received))
    {
      hide Valid;
      for k := 0 to |schedule|
        invariant Valid()
        invariant old(i in pool.members && peers[i].readInFlight)
                  && (forall n :: 0 <= n < |schedule| ==> !ReportsRead(schedule[n], i))
                  ==> Waiting(i, old(peers[i].socket), old(peers[i].hist.received))
      {
        if Allowed(schedule[k]) {
          ghost var h := Happens(schedule[k], i);
        }
      }
    }

    // What every run keeps, of the whole: every connection accepted was turned
    // away, has left, or is here; who has left had its socket given up once, and
    // what is free is zero.
    lemma {:induction false} Ledger()
      requires Valid()
      ensures accepted == refused + |pool.departed| + |pool.members|
      ensures forall k :: 0 <= k < |pool.departed| ==> Faithful(infoHash, PEER_ID, pool.departed[k].h)
      ensures |peers| == SLOTS && forall i: nat :: i < SLOTS ==>
                if i in pool.members then peers[i].Live() else peers[i].Zeroed()
    {
      hide Faithful, TorrentPeer.Zeroed, TorrentPeer.Live, Pool.Valid;
      forall i: nat | i < SLOTS ensures if i in pool.members then peers[i].Live() else peers[i].Zeroed() {
        assert Slot(i);
      }
    }
  }
}
