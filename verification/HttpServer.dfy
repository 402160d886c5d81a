// The life of a connection of the HTTP server (http.c, otel.c): one handler and
// one memory block each, out of two pools that have to stay in step.
module HttpServer {
  import opened Bytes
  import opened ArenaAllocator
  import opened Http
  import opened HttpConversation
  import opened Otel
  import FreeList

  const BLOCK_SIZE: nat := 1048576

  // Handlers `hs` and blocks `bs` one to one: whose each block is, and which each
  // handler has.
  ghost predicate Matched(hs: set<nat>, bs: set<nat>, owner: map<nat, nat>, blockOf: map<nat, nat>) {
    && |hs| == |bs| && owner.Keys == bs && blockOf.Keys == hs
    && (forall b | b in owner :: owner[b] in blockOf && blockOf[owner[b]] == b)
    && (forall i | i in blockOf :: blockOf[i] in owner && owner[blockOf[i]] == i)
  }

  lemma {:induction false} MatchedLess(hs: set<nat>, bs: set<nat>, owner: map<nat, nat>, blockOf: map<nat, nat>, i: nat)
    requires Matched(hs, bs, owner, blockOf) && i in hs
    ensures blockOf[i] in bs
    ensures Matched(hs - {i}, bs - {blockOf[i]}, owner - {blockOf[i]}, blockOf - {i})
  {
    var owner', blockOf' := owner - {blockOf[i]}, blockOf - {i};
    assert forall b | b in owner' :: b in owner && owner'[b] == owner[b];
    assert forall j | j in blockOf' :: j in blockOf && blockOf'[j] == blockOf[j];
  }

  lemma {:induction false} MatchedMore(hs: set<nat>, bs: set<nat>, owner: map<nat, nat>, blockOf: map<nat, nat>, i: nat,
                                       b: nat)
    requires Matched(hs, bs, owner, blockOf) && i !in hs && b !in bs
    ensures Matched(hs + {i}, bs + {b}, owner[b := i], blockOf[i := b])
  {
  }

  // One chunk of the handler pool: its socket, its block, what its completion
  // carries, what it received and handed to the collector; `hangups` counts how
  // often its socket was given up, and `pieces` are the reads that brought bytes.
  datatype Handler = Handler(
    socket: int, block: nat, op: Op, recv: Bytes, handed: Option<Bytes>, hangups: nat, pieces: seq<Bytes>)

  const ZEROED: Handler := Handler(0, 0, Nothing, [], None, 0, [])

  // What was received and handed on is what the reads made of it.
  ghost predicate Told(h: Handler) {
    Pieces(h.pieces) && FeedAll(h.pieces).recv == h.recv && FeedAll(h.pieces).handed == h.handed
  }

  // With the kernel holding the one operation: the one the reads call for, or the
  // hang-up.
  ghost predicate Busy(h: Handler) {
    && h.op != Nothing && Told(h)
    && (h.op.Closing? || h.op == FeedAll(h.pieces).op)
    && h.hangups == if h.op.Closing? then 1 else 0
  }

  // A handler whose operation has reported, in the callback for it.
  ghost predicate Called(h: Handler) {
    h.op == Nothing && h.hangups == 0 && Told(h)
  }

  // A busy handler is waiting for more of a request that is not all there and for
  // which there is room, or answering one that is and whose body it handed on, or
  // hanging up.
  lemma {:induction false} BusyMeans(h: Handler)
    requires Busy(h)
    ensures h.op.Reading? ==> RequestOf(h.recv, HEADERS_CAP) == Incomplete && |h.recv| != RECV_CAP
    ensures h.op.Writing? ==> Answerable(RequestOf(h.recv, HEADERS_CAP)) && h.handed.Some?
    ensures h.handed == HandedOn(h.recv)
  {
    hide RequestOf, FeedAll, HandedOn;
    TalkMeans(h.pieces);
  }

  // A handler in use is busy, and nothing is outstanding on one that is not.
  ghost predicate InPlace(h: Handler, used: bool) {
    if used then Busy(h) else h.op == Nothing
  }

  ghost predicate OthersBusy(hs: seq<Handler>, acquired: set<nat>, i: nat) {
    forall j: nat :: j < |hs| && j != i ==> InPlace(hs[j], j in acquired)
  }

  ghost predicate AllBusy(hs: seq<Handler>, acquired: set<nat>) {
    forall j: nat :: j < |hs| ==> InPlace(hs[j], j in acquired)
  }

  ghost predicate Holding(hs: seq<Handler>, blockOf: map<nat, nat>) {
    forall i: nat | i in blockOf && i < |hs| :: hs[i].block == blockOf[i]
  }

  lemma {:induction false} BusyAgain(hs: seq<Handler>, acquired: set<nat>, i: nat, h: Handler)
    requires OthersBusy(hs, acquired, i) && i < |hs|
    ensures OthersBusy(hs[i := h], acquired, i) && OthersBusy(hs, acquired - {i}, i)
    ensures hs[i].op == Nothing ==> AllBusy(hs, acquired - {i})
    ensures Busy(h) && i in acquired ==> AllBusy(hs[i := h], acquired)
  {
    hide Busy;
  }

  lemma {:induction false} AnyOther(hs: seq<Handler>, acquired: set<nat>, i: nat)
    requires AllBusy(hs, acquired)
    ensures OthersBusy(hs, acquired, i)
  {
    hide Busy;
  }

  lemma {:induction false} StillHolding(hs: seq<Handler>, blockOf: map<nat, nat>, i: nat, h: Handler)
    requires Holding(hs, blockOf) && i < |hs| && (i in blockOf ==> h.block == hs[i].block)
    ensures Holding(hs[i := h], blockOf) && Holding(hs[i := h], blockOf - {i})
    ensures Holding(hs[i := h], blockOf[i := h.block])
  {
  }

  ghost predicate AllOnce(gone: seq<Handler>) {
    forall k :: 0 <= k < |gone| ==> gone[k].hangups == 1 && Told(gone[k])
  }

  lemma {:induction false} OnceMore(gone: seq<Handler>, h: Handler)
    requires AllOnce(gone) && h.hangups == 1 && Told(h)
    ensures AllOnce(gone + [h])
  {
    hide Told;
  }

  function Connections(schedule: seq<Happening>): nat {
    if schedule == [] then 0
    else Connections(schedule[..|schedule| - 1]) + if schedule[|schedule| - 1].Connects? then 1 else 0
  }

  datatype Happening =
    | Connects(socket: int)
    | ReadDone(i: nat, failed: bool, data: Bytes)
    | WriteDone(i: nat)
    | CloseDone(i: nat)

  class Server {
    const handlerPool: FreeList.Pool
    const blockPool: FreeList.Pool
    // The chunks of the first pool.
    const handlers: array<Handler>

    // Whose each acquired block is, and which each acquired handler has.
    ghost var owner: map<nat, nat>
    ghost var blockOf: map<nat, nat>
    ghost var accepted: nat
    ghost var refused: nat
    // The handlers given back, as they were.
    ghost var gone: seq<Handler>

    ghost predicate Laid() {
      && handlerPool != blockPool && handlerPool.chunks != blockPool.chunks
      && handlerPool.chunks as object != handlers && blockPool.chunks as object != handlers
      && handlerPool.chunks.Length == blockPool.chunks.Length == handlers.Length
    }

    ghost predicate Accounted()
      reads this, handlerPool
    {
      accepted == refused + |gone| + |handlerPool.acquired| && AllOnce(gone)
    }

    ghost predicate Sound()
      reads this, handlerPool, handlerPool.chunks, blockPool, blockPool.chunks, handlers
    {
      && Laid() && handlerPool.Valid() && blockPool.Valid() && Accounted() && Holding(handlers[..], blockOf)
      && Matched(handlerPool.acquired, blockPool.acquired, owner, blockOf)
    }

    // Between callbacks.
    ghost predicate Valid()
      reads this, handlerPool, handlerPool.chunks, blockPool, blockPool.chunks, handlers
    {
      Sound() && AllBusy(handlers[..], handlerPool.acquired)
    }

    // Half way through a callback of handler `i`.
    ghost predicate ValidBut(i: nat)
      reads this, handlerPool, handlerPool.chunks, blockPool, blockPool.chunks, handlers
    {
      && Sound() && OthersBusy(handlers[..], handlerPool.acquired, i)
      && i < handlers.Length && i in handlerPool.acquired && Called(handlers[i])
    }

    constructor (count: nat, handlerSize: nat)
      requires count > 0 && handlerSize > 0
      ensures Valid() && handlers.Length == count && handlerPool.acquired == {} && accepted == 0
    {
      handlers := new Handler[count](_ => ZEROED);
      handlerPool := new FreeList.Pool(count, FreeList.RealSize(handlerSize));
      blockPool := new FreeList.Pool(count, FreeList.RealSize(BLOCK_SIZE));
      owner, blockOf, accepted, refused, gone := map[], map[], 0, 0, [];
    }

    // One handler's chunk written.
    method Set(i: nat, h: Handler)
      requires Sound() && i < handlers.Length && OthersBusy(handlers[..], handlerPool.acquired, i)
      requires h.block == handlers[i].block
      modifies handlers
      ensures Sound() && handlers[..] == old(handlers[..])[i := h]
      ensures OthersBusy(handlers[..], handlerPool.acquired, i)
      ensures Busy(h) && i in handlerPool.acquired ==> AllBusy(handlers[..], handlerPool.acquired)
    {
      hide Matched, Holding, OthersBusy, AllBusy, Busy;
      BusyAgain(handlers[..], handlerPool.acquired, i, h);
      StillHolding(handlers[..], blockOf, i, h);
      ghost var was := handlers[..];
      handlers[i] := h;
      assert handlers[..] == was[i := h];
    }

    method GiveBack(i: nat, block: nat)
      requires Laid() && handlerPool.Valid() && blockPool.Valid()
      requires i in handlerPool.acquired && block in blockPool.acquired
      modifies handlerPool, handlerPool.chunks, blockPool, blockPool.chunks
      ensures handlerPool.Valid() && handlerPool.acquired == old(handlerPool.acquired) - {i}
      ensures blockPool.Valid() && blockPool.acquired == old(blockPool.acquired) - {block}
    {
      hide FreeList.Pool.Valid;
      blockPool.Release(block);
      handlerPool.Release(i);
    }

    // Gives back what a handler took, its block and then itself, once nothing is
    // outstanding on it and its socket is given up.
    method Release(i: nat)
      requires Sound() && OthersBusy(handlers[..], handlerPool.acquired, i)
      requires i < handlers.Length && i in handlerPool.acquired
      requires handlers[i].op == Nothing && handlers[i].hangups == 1 && Told(handlers[i])
      modifies this`owner, this`blockOf, this`gone, handlerPool, handlerPool.chunks, blockPool, blockPool.chunks
      ensures Valid() && handlerPool.acquired == old(handlerPool.acquired) - {i}
      ensures gone == old(gone) + [handlers[i]]
    {
      hide Matched, Holding, OthersBusy, AllBusy, Busy, AllOnce, Told, FreeList.Pool.Valid;
      var block := handlers[i].block;
      Departing(i);
      ghost var was := handlers[..];
      assert blockOf[i] == block;
      hide Accounted, Laid;
      GiveBack(i, block);
      assert handlers[..] == was;
      owner, blockOf := owner - {block}, blockOf - {i};
      gone := gone + [handlers[i]];
    }

    // Without handler `i` and its block everything is still in step.
    lemma {:induction false} Departing(i: nat)
      requires Sound() && OthersBusy(handlers[..], handlerPool.acquired, i)
      requires i < handlers.Length && i in handlerPool.acquired
      requires handlers[i].op == Nothing && handlers[i].hangups == 1 && Told(handlers[i])
      ensures i in blockOf && blockOf[i] == handlers[i].block && blockOf[i] in blockPool.acquired
      ensures Matched(handlerPool.acquired - {i}, blockPool.acquired - {blockOf[i]}, owner - {blockOf[i]}, blockOf - {i})
      ensures Holding(handlers[..], blockOf - {i}) && AllBusy(handlers[..], handlerPool.acquired - {i})
      ensures AllOnce(gone + [handlers[i]]) && accepted == refused + |gone| + 1 + |handlerPool.acquired - {i}|
    {
      hide Matched, Holding, OthersBusy, AllBusy, Busy, AllOnce, Told, FreeList.Pool.Valid;
      InMatch(i);
      MatchedLess(handlerPool.acquired, blockPool.acquired, owner, blockOf, i);
      BusyAgain(handlers[..], handlerPool.acquired, i, handlers[i]);
      StillHolding(handlers[..], blockOf, i, handlers[i]);
      assert handlers[..][i := handlers[i]] == handlers[..];
      OnceMore(gone, handlers[i]);
    }

    lemma {:induction false} InMatch(i: nat)
      requires Sound() && i < handlers.Length && i in handlerPool.acquired
      ensures i in blockOf && blockOf[i] == handlers[i].block
      ensures |handlerPool.acquired - {i}| == |handlerPool.acquired| - 1
    {
      hide FreeList.Pool.Valid;
    }

    // Hands an operation to the kernel, which may refuse it.
    method Submit(i: nat, op: Op) returns (no: bool)
      requires ValidBut(i) && op != Nothing && (op.Closing? || op == FeedAll(handlers[i].pieces).op)
      modifies handlers
      ensures if no then ValidBut(i) && handlers[..] == old(handlers[..]) else Valid()
      ensures !no ==> handlers[i] == old(handlers[i]).(op := op, hangups := if op.Closing? then 1 else 0)
    {
      hide Sound, OthersBusy, AllBusy, FeedAll;
      no := *;
      if !no {
        Set(i, handlers[i].(op := op, hangups := if op.Closing? then handlers[i].hangups + 1 else handlers[i].hangups));
      }
    }

    // How a connection stands that was `h` in its callback and for which `op` was
    // called for: on with it, or closing because the kernel refused (`no`), or gone
    // because it refused the hang-up too.
    ghost predicate Went(i: nat, h: Handler, op: Op, no: bool, was: seq<Handler>)
      requires i < handlers.Length
      reads this`gone, handlerPool, handlers
    {
      var now := if no then Closing else op;
      if i in handlerPool.acquired then
        handlers[i] == h.(op := now, hangups := if now.Closing? then 1 else 0) && gone == was
      else no && gone == was + [h.(hangups := 1)]
    }

    // Ends the connection. When the hang-up cannot be submitted no callback is
    // coming, and this cleans up on the spot.
    method Close(i: nat) returns (no: bool)
      requires ValidBut(i)
      modifies this`owner, this`blockOf, this`gone, handlerPool, handlerPool.chunks, blockPool, blockPool.chunks,
               handlers
      ensures Valid() && Went(i, old(handlers[i]), Closing, no, old(gone)) && handlers[i].block == old(handlers[i].block)
    {
      hide Sound, OthersBusy, AllBusy, Busy, FeedAll;
      no := Submit(i, Closing);
      if no {
        Set(i, handlers[i].(hangups := handlers[i].hangups + 1));
        Release(i);
      }
    }

    // Submits, or ends the connection when that cannot be done.
    method SubmitOrClose(i: nat, op: Op) returns (no: bool)
      requires ValidBut(i) && (op.Reading? || op.Writing?) && op == FeedAll(handlers[i].pieces).op
      modifies this`owner, this`blockOf, this`gone, handlerPool, handlerPool.chunks, blockPool, blockPool.chunks,
               handlers
      ensures Valid() && Went(i, old(handlers[i]), op, no, old(gone)) && handlers[i].block == old(handlers[i].block)
    {
      hide Sound, OthersBusy, AllBusy, Busy, FeedAll, Told;
      no := Submit(i, op);
      if no {
        var alsoNo := Close(i);
      }
    }

    // The completion of handler `i` reports, and holds nothing any more; `h` is
    // what it has received and handed on by then.
    method Reports(i: nat, h: Handler)
      requires Valid() && i < handlers.Length && i in handlerPool.acquired && !handlers[i].op.Closing?
      requires Told(h) && h.op == Nothing && h.block == handlers[i].block && h.hangups == handlers[i].hangups
      modifies handlers
      ensures ValidBut(i) && handlers[i] == h
    {
      hide Sound, OthersBusy, AllBusy, FeedAll;
      AnyOther(handlers[..], handlerPool.acquired, i);
      BusyOne(i);
      Set(i, h);
    }

    lemma {:induction false} BusyOne(i: nat)
      requires Valid() && i < handlers.Length && i in handlerPool.acquired
      ensures Busy(handlers[i])
    {
      hide Sound, Busy;
      assert Busy(handlers[..][i]);
    }

    method Parse(recv: Bytes) returns (request: Request)
      ensures request == RequestOf(recv, HEADERS_CAP)
    {
      hide RequestOf;
      var headers := new Header[HEADERS_CAP];
      var error, line, len, body := ParseRequest(recv, headers);
      if error.None? {
        return Whole(line, headers[..len], body);
      }
      return if error.value.Again? then Incomplete else Refused(error.value);
    }

    // A read reports: the bytes that arrived behind what was there, nothing at
    // the end of the stream, or a failure. `no` is the kernel refusing what
    // follows, `logged` the spans the collector found.
    method OnRead(i: nat, failed: bool, data: Bytes) returns (no: bool, logged: seq<Span>)
      requires Valid() && i < handlers.Length && i in handlerPool.acquired && handlers[i].op.Reading?
      requires |handlers[i].recv| + |data| <= RECV_CAP
      modifies this`owner, this`blockOf, this`gone, handlerPool, handlerPool.chunks, blockPool, blockPool.chunks,
               handlers
      ensures Valid()
      ensures failed || data == [] ==> logged == [] && Went(i, old(handlers[i]).(op := Nothing), Closing, no, old(gone))
      ensures !failed && data != [] ==>
                var h := old(handlers[i]);
                var t := Feed(Talk(Reading, h.recv, h.handed), data);
                && logged == SpansLogged(t.handed)
                && Went(i, h.(op := Nothing, recv := t.recv, handed := t.handed, pieces := h.pieces + [data]), t.op, no,
                        old(gone))
    {
      hide Sound, OthersBusy, AllBusy, RequestOf, FeedAll, SpansLogged;
      var h := handlers[i].(op := Nothing);
      BusyOne(i);
      if failed || data == [] {
        Reports(i, h);
        no := Close(i);
        return no, [];
      }
      FeedMore(h.pieces, data);
      var recv := h.recv + data;
      ghost var was := handlers[..];
      var request := Parse(recv);
      HttpConversation.BodyInside(recv);
      var answered := request.Whole? && request.line.major == 1;
      var handed := if answered then Some(recv[request.body..]) else None;
      NothingLogged();
      logged := [];
      if answered {
        logged := LogSpans(handed.value);
      }
      assert handlers[..] == was;
      Reports(i, h.(recv := recv, handed := handed, pieces := h.pieces + [data]));
      if request.Incomplete? {
        if |recv| == RECV_CAP {
          no := Close(i);
        } else {
          no := SubmitOrClose(i, Reading);
        }
      } else if answered {
        no := SubmitOrClose(i, Writing);
      } else {
        no := Close(i);
      }
    }

    lemma {:induction false} NothingLogged()
      ensures SpansLogged(None) == []
    {
    }

    // A write reports, however it went.
    method OnWrite(i: nat) returns (no: bool)
      requires Valid() && i < handlers.Length && i in handlerPool.acquired && handlers[i].op.Writing?
      modifies this`owner, this`blockOf, this`gone, handlerPool, handlerPool.chunks, blockPool, blockPool.chunks,
               handlers
      ensures Valid() && Went(i, old(handlers[i]).(op := Nothing), Closing, no, old(gone))
    {
      hide Sound, OthersBusy, AllBusy, FeedAll;
      BusyOne(i);
      Reports(i, handlers[i].(op := Nothing));
      no := Close(i);
    }

    // The hang-up reports.
    method OnClose(i: nat)
      requires Valid() && i < handlers.Length && i in handlerPool.acquired && handlers[i].op.Closing?
      modifies this`owner, this`blockOf, this`gone, handlerPool, handlerPool.chunks, blockPool, blockPool.chunks, handlers
      ensures Valid() && handlerPool.acquired == old(handlerPool.acquired) - {i}
      ensures gone == old(gone) + [old(handlers[i]).(op := Nothing)]
    {
      hide Sound, OthersBusy, AllBusy, FeedAll;
      AnyOther(handlers[..], handlerPool.acquired, i);
      BusyOne(i);
      Set(i, handlers[i].(op := Nothing));
      Release(i);
    }

    // A handler just acquired gets the block that has to be there for it.
    method Init(i: nat, socket: int)
      requires Laid() && handlerPool.Valid() && blockPool.Valid() && Holding(handlers[..], blockOf) && Accounted()
      requires i < handlers.Length && i in handlerPool.acquired && OthersBusy(handlers[..], handlerPool.acquired, i)
      requires Matched(handlerPool.acquired - {i}, blockPool.acquired, owner, blockOf)
      modifies this`owner, this`blockOf, blockPool, blockPool.chunks, handlers
      ensures ValidBut(i) && handlers[i] == ZEROED.(socket := socket, block := handlers[i].block)
    {
      hide Matched, Holding, OthersBusy, AllBusy, Busy, FreeList.Pool.Valid;
      SpareBlock(i);
      var block := blockPool.Acquire();
      assert block != FreeList.NULL;
      ghost var was, h := handlers[..], ZEROED.(socket := socket, block := block);
      BusyAgain(was, handlerPool.acquired, i, h);
      StillHolding(was, blockOf, i, h);
      MatchedMore(handlerPool.acquired - {i}, old(blockPool.acquired), owner, blockOf, i, block);
      assert handlerPool.acquired - {i} + {i} == handlerPool.acquired;
      handlers[i] := ZEROED.(socket := socket, block := block);
      assert handlers[..] == was[i := h];
      owner, blockOf := owner[block := i], blockOf[i := block];
    }

    lemma {:induction false} SpareBlock(i: nat)
      requires Laid() && handlerPool.Valid() && blockPool.Valid() && i in handlerPool.acquired
      requires Matched(handlerPool.acquired - {i}, blockPool.acquired, owner, blockOf)
      ensures blockPool.free != [] && i !in blockOf
    {
      handlerPool.Counts();
      blockPool.Counts();
    }

    // A connection the listener took. A handler for it means a block for it.
    method OnAccept(socket: int) returns (chunk: int, no: bool)
      requires Valid()
      modifies this, handlerPool, handlerPool.chunks, blockPool, blockPool.chunks, handlers
      ensures Valid() && accepted == old(accepted) + 1
      ensures chunk == FreeList.NULL <==> |old(handlerPool.acquired)| == handlers.Length
      ensures chunk == FreeList.NULL ==> refused == old(refused) + 1 && gone == old(gone)
      ensures chunk != FreeList.NULL ==>
                && 0 <= chunk < handlers.Length && chunk !in old(handlerPool.acquired) && refused == old(refused)
                && Went(chunk, ZEROED.(socket := socket, block := handlers[chunk].block), Reading, no, old(gone))
    {
      hide Matched, Holding, OthersBusy, AllBusy, Busy, FreeList.Pool.Valid;
      accepted := accepted + 1;
      handlerPool.Counts();
      ghost var before := handlerPool.acquired;
      no := false;
      chunk := handlerPool.Acquire();
      if chunk == FreeList.NULL {
        refused := refused + 1;
        return;
      }
      var i: nat := chunk;
      Others(before, i);
      assert handlerPool.acquired - {i} == before;
      Init(i, socket);
      no := SubmitOrClose(i, Reading);
    }

    lemma {:induction false} Others(before: set<nat>, i: nat)
      requires AllBusy(handlers[..], before)
      ensures OthersBusy(handlers[..], before + {i}, i)
    {
      hide Busy;
    }

    // Nothing reports on a handler that is not in use.
    lemma {:induction false} BusyIsUsed(i: nat)
      requires Valid() && i < handlers.Length && handlers[i].op != Nothing
      ensures i in handlerPool.acquired
    {
      hide Sound, Busy;
      assert InPlace(handlers[..][i], i in handlerPool.acquired);
    }

    // Whatever happens, in whatever order, and whatever is refused: the pools stay
    // in step, everybody is busy for a reason, and whoever left had its socket
    // given up once.
    method Serve(schedule: seq<Happening>)
      requires Valid()
      modifies this, handlerPool, handlerPool.chunks, blockPool, blockPool.chunks, handlers
      ensures Valid()
      ensures accepted == old(accepted) + Connections(schedule)
      ensures accepted == refused + |gone| + |handlerPool.acquired|
    {
      hide Sound, AllBusy;
      for k := 0 to |schedule|
        invariant Valid() && accepted == old(accepted) + Connections(schedule[..k])
      {
        assert schedule[..k + 1][..k] == schedule[..k];
        if Allowed(schedule[k]) {
          var no, logged := Happens(schedule[k]);
        }
      }
      assert schedule[..|schedule|] == schedule;
      Ledger();
    }

    // What follows on a report of handler `h`: what it is to go on with, and what is
    // logged.
    function Next(e: Happening, h: Handler): (Handler, Op, seq<Span>) {
      match e
      case ReadDone(_, failed, data) =>
        if failed || data == [] then (h.(op := Nothing), Closing, [])
        else
          var t := Feed(Talk(Reading, h.recv, h.handed), data);
          (h.(op := Nothing, recv := t.recv, handed := t.handed, pieces := h.pieces + [data]), t.op, SpansLogged(t.handed))
      case _ => (h.(op := Nothing), Closing, [])
    }

    method Happens(e: Happening) returns (no: bool, logged: seq<Span>)
      requires Valid() && Allowed(e)
      modifies this, handlerPool, handlerPool.chunks, blockPool, blockPool.chunks, handlers
      ensures Valid() && accepted == old(accepted) + if e.Connects? then 1 else 0
      ensures e.ReadDone? || e.WriteDone? ==>
                var next := Next(e, old(handlers[e.i])); Went(e.i, next.0, next.1, no, old(gone)) && logged == next.2
      ensures e.CloseDone? ==>
                && handlerPool.acquired == old(handlerPool.acquired) - {e.i}
                && gone == old(gone) + [old(handlers[e.i]).(op := Nothing)] && logged == []
    {
      hide Sound, AllBusy;
      no, logged := false, [];
      match e {
        case Connects(socket) =>
          var chunk;
          chunk, no := OnAccept(socket);
        case ReadDone(i, failed, data) =>
          BusyIsUsed(i);
          no, logged := OnRead(i, failed, data);
        case WriteDone(i) =>
          BusyIsUsed(i);
          no := OnWrite(i);
        case CloseDone(i) =>
          BusyIsUsed(i);
          OnClose(i);
      }
    }

    // As many handlers in use as blocks; every connection accepted was turned
    // away, has left, or is here; and both who is here and who has left received
    // and handed on exactly what its reads say.
    lemma {:induction false} Ledger()
      requires Valid()
      ensures accepted == refused + |gone| + |handlerPool.acquired|
      ensures |handlerPool.acquired| == |blockPool.acquired|
      ensures forall i: nat :: i < handlers.Length && i in handlerPool.acquired ==>
                Told(handlers[i]) && handlers[i].handed == HandedOn(handlers[i].recv)
      ensures forall k :: 0 <= k < |gone| ==> gone[k].hangups == 1 && Told(gone[k])
    {
      hide Told, FreeList.Pool.Valid, HandedOn;
      forall i: nat | i < handlers.Length && i in handlerPool.acquired
        ensures Told(handlers[i]) && handlers[i].handed == HandedOn(handlers[i].recv)
      {
        assert InPlace(handlers[..][i], true);
        BusyMeans(handlers[i]);
      }
    }

    // What the kernel and the listener may do next.
    predicate Allowed(e: Happening)
      reads handlers
    {
      match e
      case Connects(_) => true
      case ReadDone(i, _, data) =>
        i < handlers.Length && handlers[i].op.Reading? && |handlers[i].recv| + |data| <= RECV_CAP
      case WriteDone(i) => i < handlers.Length && handlers[i].op.Writing?
      case CloseDone(i) => i < handlers.Length && handlers[i].op.Closing?
    }
  }

  // A server over an arena: both pools or nothing.
  method Start(arena: Arena, count: nat, handlerSize: nat) returns (server: Server?)
    requires count > 0 && handlerSize > 0
    ensures var first := AllocWords(arena, FreeList.RealSize(handlerSize) * count);
            server == null <==> first.None? || AllocWords(first.value, FreeList.RealSize(BLOCK_SIZE) * count).None?
    ensures server != null ==>
              fresh(server) && server.Valid() && server.handlers.Length == count && server.handlerPool.acquired == {}
  {
    var first := AllocWords(arena, FreeList.RealSize(handlerSize) * count);
    if first.None? {
      return null;
    }
    var second := AllocWords(first.value, FreeList.RealSize(BLOCK_SIZE) * count);
    if second.None? {
      return null;
    }
    server := new Server(count, handlerSize);
  }
}
