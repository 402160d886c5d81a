// The epoll backend's loop (linux.c) over its operation table. The kernel and
// the callbacks are the environment: a try may answer anything, a registration
// may be refused, a callback may submit as much as it likes.
module EpollLoop {
  import opened IndexLists
  import opened EpollTable

  const EVENTS_MAX: nat := 1024

  datatype Outcome = Done | Again

  // At most the one operation in hand is running.
  ghost predicate OnlyRunning(b: Book, running: set<nat>) {
    forall i :: 0 <= i < |b.place| && b.place[i] == Running ==> i in running
  }

  // Submissions and nothing else: new ones at the end of the line, everything in
  // use where it was.
  ghost predicate Resubmitted(b: Book, b': Book) {
    && b'.detached == b.detached && b'.armed == b.armed && b'.lost == b.lost
    && b'.tried == b.tried && b'.called == b.called
    && b.submitted <= b'.submitted && b.holder <= b'.holder
    && |b'.place| == |b.place|
    && forall i :: 0 <= i < |b.place| ==>
         b'.place[i] == b.place[i] || (b.place[i] == Free && b'.place[i] == Submitted)
  }

  // Operation `idx` had its turn: the kernel `took` it to wait for, or it was
  // called back. What was watched on its descriptor is lost if it armed or closed
  // it, and nothing else is.
  ghost predicate Advanced(t: Table, b: Book, b': Book, idx: nat, took: bool)
    requires idx < |t.ops| && |b.ticket| == |t.ops|
  {
    var op, number := t.ops[idx], b.ticket[idx];
    var dropped := Watchers(t, b, op.fd);
    && b'.detached == b.detached && b'.tried == b.tried
    && b.submitted <= b'.submitted && b.holder <= b'.holder
    && b'.called == (if took then b.called else b.called + {number})
    && if took || op.action.Close? then
         && b'.armed == b.armed - dropped + (if took then {idx} else {})
         && b'.lost == b.lost + dropped
       else b'.armed == b.armed && b'.lost == b.lost
  }

  // What the try alone does to the book.
  function Tried(t: Table, b: Book, idx: nat, took: bool): Book
    requires idx < |t.ops| == |b.place|
  {
    if took then ArmBook(t, b, idx)
    else if t.ops[idx].action.Close? then DropBook(t, b, t.ops[idx].fd)
    else b
  }

  lemma {:induction false} TookAdvances(t: Table, b: Book, idx: nat)
    requires idx < |t.ops| == |b.place| == |b.ticket|
    ensures Advanced(t, b, Tried(t, b, idx, true), idx, true)
  {
    hide Watchers;
  }

  lemma {:induction false} AnswerAdvances(t: Table, b: Book, idx: nat, b': Book)
    requires idx < |t.ops| == |b.place| == |b.ticket|
    requires Resubmitted(FinishBook(Tried(t, b, idx, false), idx), b')
    ensures Advanced(t, b, b', idx, false)
  {
    hide Watchers;
  }

  lemma {:induction false} AdvancedLost(t: Table, b: Book, b': Book, idx: nat, took: bool)
    requires idx < |t.ops| == |b.ticket| && Advanced(t, b, b', idx, took)
    requires took ==> CanWait(t.ops[idx].action)
    requires OnDescriptor(t.ops[idx].action) ==> Watchers(t, b, t.ops[idx].fd) == {}
    ensures b'.lost == b.lost
  {
    hide Watchers;
  }

  // What the kernel may report of what it was asked for: armed operations, each
  // once, and no more than it was given room for.
  function Reports(wish: seq<nat>, armed: set<nat>, room: nat): (events: seq<nat>)
    ensures |events| <= room
    ensures forall k :: 0 <= k < |events| ==> events[k] in armed
    ensures forall j, k :: 0 <= j < k < |events| ==> events[j] != events[k]
    decreases |wish|
  {
    if wish == [] || room == 0 then []
    else if wish[0] in armed then [wish[0]] + Reports(wish[1..], armed - {wish[0]}, room - 1)
    else Reports(wish[1..], armed, room)
  }

  class PlatformLinux {
    const ops: array<Op>
    var freeHead: nat
    var submittedHead: nat
    var submittedTail: nat
    var armedCount: nat
    // The kernel's side: the indices of the registrations it is watching.
    var watched: set<nat>
    ghost var book: Book

    ghost function State(): Table
      reads this, ops
    {
      Table(ops[..], freeHead, submittedHead, submittedTail, armedCount)
    }

    ghost predicate Valid()
      reads this, ops
    {
      ops.Length == OPS_MAX && Inv(State(), book) && watched == book.armed
    }

    // Between turns.
    ghost predicate Idle()
      reads this, ops
    {
      Valid() && book.detached == [] && OnlyRunning(book, {})
    }

    constructor ()
      ensures Idle() && fresh(ops)
      ensures book == InitialBook() && Exclusive(ops[..])
    {
      hide ListsValid, KernelValid, TicketsValid;
      ops := new Op[OPS_MAX](i requires i >= 0 =>
        Op(false, Open, -1, if i + 1 < OPS_MAX then i + 1 else NONE));
      freeHead, submittedHead, submittedTail, armedCount := 0, NONE, NONE, 0;
      watched := {};
      book := InitialBook();
      new;
      InitialInv();
      assert ops[..] == InitialTable().ops;
    }

    method OpAlloc(action: Action, fd: int) returns (idx: nat)
      requires Valid()
      modifies this`freeHead, ops
      ensures idx == old(freeHead)
      ensures idx == NONE <==> book.free == []
      ensures idx == NONE ==> freeHead == NONE && ops[..] == old(ops[..])
      ensures idx != NONE ==>
                && idx == book.free[0] < OPS_MAX && freeHead == old(ops[idx].next)
                && ops[..] == old(ops[..])[idx := Op(true, action, fd, NONE)]
    {
      FreeHeadIs(State(), book);
      idx := freeHead;
      if idx == NONE {
        return;
      }
      freeHead := ops[idx].next;
      ops[idx] := Op(true, action, fd, NONE);
    }

    method OpFree(idx: nat)
      requires Valid() && idx < OPS_MAX && book.place[idx] == Running
      modifies this`freeHead, this`book, ops
      ensures Valid() && ops[..] == FinishTable(old(State()), idx).ops
      ensures State() == FinishTable(old(State()), idx) && book == FinishBook(old(book), idx)
    {
      hide Inv;
      Shape(State(), book);
      FinishKeeps(State(), book, idx);
      ops[idx] := Op(false, Open, -1, freeHead);
      freeHead := idx;
      book := FinishBook(book, idx);
    }

    // Taken for the next turn, or refused while every index is in use.
    method Submit(action: Action, fd: int) returns (ok: bool)
      requires Valid()
      modifies this, ops
      ensures Valid()
      ensures ok <==> old(book.free) != []
      ensures !ok ==> State() == old(State()) && book == old(book)
      ensures ok ==> book == SubmitBook(old(book)) && State() == SubmitTable(old(State()), action, fd)
      ensures ok && old(Exclusive(ops[..])) ==> (Exclusive(ops[..]) <==> Polite(old(ops[..]), action, fd))
    {
      hide Inv, Exclusive, Polite;
      Shape(State(), book);
      ghost var t := State();
      var idx := OpAlloc(action, fd);
      if idx == NONE {
        return false;
      }
      SubmitKeeps(t, book, action, fd);
      if Exclusive(t.ops) {
        SubmitExclusive(t, book, action, fd);
      }
      if submittedTail == NONE {
        submittedHead := idx;
      } else {
        ops[submittedTail] := ops[submittedTail].(next := idx);
      }
      submittedTail := idx;
      book := SubmitBook(book);
      assert State() == SubmitTable(t, action, fd);
      return true;
    }

    // The kernel asked to watch the descriptor, which epoll may refuse to do.
    method Arm(idx: nat) returns (ok: bool)
      requires Valid() && idx < OPS_MAX && book.place[idx] == Running && CanWait(ops[idx].action)
      modifies this`armedCount, this`watched, this`book
      ensures Valid()
      ensures ok ==> State() == ArmTable(old(State())) && book == ArmBook(old(State()), old(book), idx)
      ensures !ok ==> State() == old(State()) && book == old(book)
    {
      hide Inv;
      Shape(State(), book);
      var refused: bool := *;
      if refused {
        return false;
      }
      ArmKeeps(State(), book, idx);
      ghost var armed := ArmBook(State(), book, idx);
      armedCount := armedCount + 1;
      Unwatch(ops[idx].fd);
      watched := watched + {idx};
      book := armed;
      return true;
    }

    // The kernel forgets what it watched on `fd`.
    method Unwatch(fd: int)
      requires ops.Length == OPS_MAX && watched == book.armed
      modifies this`watched
      ensures watched == book.armed - Watchers(State(), book, fd)
    {
      watched := set i | i in watched && !(i < OPS_MAX && ops[i].fd == fd);
    }

    // A callback may submit, again and again, into whatever slots are free, and
    // may close at once a descriptor nothing is on. A `polite` one keeps to one
    // operation on a descriptor.
    method Callback(polite: bool)
      requires Valid()
      modifies this, ops
      ensures Valid() && Resubmitted(old(book), book)
      ensures polite && old(Exclusive(ops[..])) ==> Exclusive(ops[..])
    {
      hide Inv, Exclusive, Polite, Taken;
      var n: nat := *;
      Shape(State(), book);
      while n > 0
        invariant Valid() && Resubmitted(old(book), book)
        invariant polite && old(Exclusive(ops[..])) ==> Exclusive(ops[..])
        decreases n
      {
        Shape(State(), book);
        FreeHeadIs(State(), book);
        var close: bool, action: Action, fd: int := *, *, *;
        if close {
          if !Taken(ops[..], fd) {
            NothingOn(State(), book, fd);
            Unwatch(fd);
          }
        } else if !polite || Polite(ops[..], action, fd) {
          var ok := Submit(action, fd);
        }
        n := n - 1;
      }
    }

    // The one try: closing a descriptor takes it out of the kernel's set.
    method Perform(idx: nat) returns (outcome: Outcome)
      requires Valid() && idx < OPS_MAX && book.place[idx] == Running
      modifies this`watched, this`book
      ensures Valid() && book.place[idx] == Running
      ensures book == if ops[idx].action.Close? then DropBook(State(), old(book), ops[idx].fd) else old(book)
    {
      hide Inv;
      outcome := *;
      Shape(State(), book);
      if ops[idx].action.Close? {
        KernelOf(State(), book);
        DropKeeps(State(), book, ops[idx].fd);
        DropElsewhere(State(), book, ops[idx].fd, idx);
        Unwatch(ops[idx].fd);
        book := DropBook(State(), book, ops[idx].fd);
      }
    }

    // The try, and the kernel asked to wait for what has to be tried again.
    method Try(idx: nat) returns (outcome: Outcome, no: bool, took: bool)
      requires Valid() && idx < OPS_MAX && book.place[idx] == Running && OnlyRunning(book, {idx})
      modifies this`armedCount, this`watched, this`book
      ensures Valid() && |old(State()).ops| == |old(book).place|
      ensures took <==> outcome == Again && CanWait(ops[idx].action) && !no
      ensures book == Tried(old(State()), old(book), idx, took)
      ensures if took then OnlyRunning(book, {}) else book.place[idx] == Running && OnlyRunning(book, {idx})
    {
      hide Inv, Watchers;
      Shape(State(), book);
      no, took := false, false;
      outcome := Perform(idx);
      Shape(State(), book);
      if outcome == Again && CanWait(ops[idx].action) {
        took := Arm(idx);
        no := !took;
      }
    }

    // One operation's turn: armed when it has to be tried again, can be waited for
    // and the kernel takes it, and called back otherwise. The slot is handed back
    // before the callback runs, which may be given it again.
    method Advance(idx: nat, polite: bool) returns (outcome: Outcome, no: bool)
      requires Valid() && idx < OPS_MAX && book.place[idx] == Running && OnlyRunning(book, {idx})
      modifies this, ops
      ensures Valid() && OnlyRunning(book, {})
      ensures Advanced(old(State()), old(book), book, idx,
                       outcome == Again && old(ops[idx]).action in {Read, Write, Accept, Connect, SendTo} && !no)
      ensures polite && old(Exclusive(ops[..])) ==> Exclusive(ops[..]) && book.lost == old(book.lost)
    {
      hide Inv, Watchers, Exclusive, OnlyRunning, Advanced, Resubmitted, Tried;
      Shape(State(), book);
      ghost var t, b := State(), book;
      if Exclusive(ops[..]) && OnDescriptor(ops[idx].action) {
        NothingWatched(t, b, idx);
      }
      var took;
      outcome, no, took := Try(idx);
      Shape(State(), book);
      if took {
        TookAdvances(t, b, idx);
      } else {
        Answer(idx, polite);
        AnswerAdvances(t, b, idx, book);
      }
      if Exclusive(t.ops) {
        AdvancedLost(t, b, book, idx, took);
      }
    }

    // The slot handed back, and then the callback.
    method Answer(idx: nat, polite: bool)
      requires Valid() && idx < OPS_MAX && book.place[idx] == Running && OnlyRunning(book, {idx})
      modifies this, ops
      ensures |old(book).ticket| == OPS_MAX == |old(book).place|
      ensures Valid() && OnlyRunning(book, {}) && Resubmitted(FinishBook(old(book), idx), book)
      ensures polite && old(Exclusive(ops[..])) ==> Exclusive(ops[..])
    {
      hide Inv, Exclusive;
      Shape(State(), book);
      if Exclusive(ops[..]) {
        FinishExclusive(State(), idx);
      }
      OpFree(idx);
      Callback(polite);
    }

    // One turn: everything submitted before it is tried, in order, and what is
    // submitted meanwhile waits for the next; then the kernel is asked. Nothing is
    // lost while there is one operation on a descriptor.
    method RunForNs(wish: seq<nat>, polite: bool)
      requires Idle()
      modifies this, ops
      ensures Idle()
      ensures book.tried == old(|book.holder|)
      ensures old(book.holder) <= book.holder
      ensures old(book.called) <= book.called && old(book.lost) <= book.lost
      ensures polite && old(Exclusive(ops[..])) ==> Exclusive(ops[..]) && book.lost == old(book.lost)
    {
      hide Inv, Exclusive;
      ghost var before := book;
      var idx := submittedHead;
      DetachKeeps(State(), book);
      HeadsAre(State(), book);
      submittedHead, submittedTail := NONE, NONE;
      book := DetachBook(book);
      while idx != NONE
        invariant Valid() && OnlyRunning(book, {}) && idx == HeadOf(book.detached)
        invariant book.tried + |book.detached| == |before.holder|
        invariant before.holder <= book.holder
        invariant before.called <= book.called && before.lost <= book.lost
        invariant polite && old(Exclusive(ops[..])) ==> Exclusive(ops[..]) && book.lost == before.lost
        decreases |book.detached|
      {
        Shape(State(), book);
        BeginKeeps(State(), book);
        ChainLinked(State(), book);
        var next := ops[idx].next;
        book := BeginBook(book);
        var outcome, no := Advance(idx, polite);
        idx := next;
      }
      EmptyChain(State(), book);
      if armedCount == 0 {
        return;
      }
      var waited: bool := *;
      if !waited {
        return;
      }
      AskKernel(wish, polite);
    }

    // Each report disarms its operation, and its turn cannot disarm another's:
    // no other was watched on its descriptor.
    method AskKernel(wish: seq<nat>, polite: bool)
      requires Idle()
      modifies this, ops
      ensures Idle() && book.tried == old(book.tried) && old(book.holder) <= book.holder
      ensures old(book.called) <= book.called && book.lost == old(book.lost)
      ensures polite && old(Exclusive(ops[..])) ==> Exclusive(ops[..])
    {
      hide Inv, Exclusive;
      ghost var before := book;
      var events := Reports(wish, watched, EVENTS_MAX);
      for i := 0 to |events|
        invariant Idle() && book.tried == before.tried && before.holder <= book.holder
        invariant before.called <= book.called && book.lost == before.lost
        invariant forall k :: i <= k < |events| ==> events[k] in book.armed
        invariant polite && old(Exclusive(ops[..])) ==> Exclusive(ops[..])
      {
        var idx := events[i];
        Shape(State(), book);
        ReportKeeps(State(), book, idx);
        ReportedAlone(State(), book, idx);
        armedCount := armedCount - 1;
        watched := watched - {idx};
        book := ReportBook(book, idx);
        var outcome, no := Advance(idx, polite);
      }
    }

    // Turn after turn, the program submitting between them as a callback does:
    // with one operation on a descriptor nothing that was taken is ever lost.
    method Serve(wishes: seq<seq<nat>>, polite: bool)
      requires Idle()
      modifies this, ops
      ensures Idle() && old(book.holder) <= book.holder && old(book.called) <= book.called
      ensures polite && old(Exclusive(ops[..])) ==> Exclusive(ops[..]) && book.lost == old(book.lost)
    {
      hide Inv, Exclusive;
      for k := 0 to |wishes|
        invariant Idle() && old(book.holder) <= book.holder && old(book.called) <= book.called
        invariant polite && old(Exclusive(ops[..])) ==> Exclusive(ops[..]) && book.lost == old(book.lost)
      {
        Callback(polite);
        RunForNs(wishes[k], polite);
      }
    }
  }
}
