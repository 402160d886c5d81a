// Lists threaded by index through one array, as the epoll backend keeps them.
module IndexLists {
  const NONE: nat := 0xFFFF_FFFF

  datatype Action =
    | Open | Close | Read | Write | Accept | Connect | SendTo | FileSize | RemoveFile

  // Which operations can be waited on (unix.c).
  predicate CanWait(action: Action) {
    action.Read? || action.Write? || action.Accept? || action.Connect? || action.SendTo?
  }

  // `used` is the completion pointer being set; of what it points to, only what
  // was asked for matters here.
  datatype Op = Op(used: bool, action: Action, fd: int, next: nat)

  // Where an index is. `Lost` is an armed operation whose registration was
  // taken over by another on the same descriptor, or went with the descriptor:
  // still counted, never reported.
  datatype Place = Free | Submitted | Detached | Running | Armed | Lost

  function HeadOf(list: seq<nat>): nat {
    if list == [] then NONE else list[0]
  }

  function LastOf(list: seq<nat>): nat {
    if list == [] then NONE else list[|list| - 1]
  }

  function Following(list: seq<nat>, k: nat): nat {
    if k + 1 < |list| then list[k + 1] else NONE
  }

  // The `next` links spell `list`, from its first index to its last and no
  // further.
  ghost predicate Linked(ops: seq<Op>, list: seq<nat>) {
    forall k :: 0 <= k < |list| ==> list[k] < |ops| && ops[list[k]].next == Following(list, k)
  }

  // `list` is every index at `p`, each once.
  ghost predicate Lists(place: seq<Place>, list: seq<nat>, p: Place) {
    && (forall k :: 0 <= k < |list| ==> list[k] < |place| && place[list[k]] == p)
    && (forall j, k :: 0 <= j < k < |list| ==> list[j] != list[k])
    && (forall i :: 0 <= i < |place| && place[i] == p ==> i in list)
  }

  ghost predicate Marks(place: seq<Place>, s: set<nat>, p: Place) {
    && (forall i :: i in s ==> i < |place| && place[i] == p)
    && (forall i :: 0 <= i < |place| && place[i] == p ==> i in s)
  }

  lemma {:induction false} LinkedSame(ops: seq<Op>, ops': seq<Op>, list: seq<nat>)
    requires Linked(ops, list) && |ops'| == |ops|
    requires forall i | i in list && i < |ops| :: ops'[i].next == ops[i].next
    ensures Linked(ops', list)
  {
    assert forall k :: 0 <= k < |list| ==> list[k] in list;
  }

  lemma {:induction false} LinkedPop(ops: seq<Op>, list: seq<nat>)
    requires Linked(ops, list) && list != []
    ensures Linked(ops, list[1..]) && list[0] < |ops| && ops[list[0]].next == HeadOf(list[1..])
  {
    forall k | 0 <= k < |list| - 1
      ensures list[1..][k] < |ops| && ops[list[1..][k]].next == Following(list[1..], k)
    {
      assert list[1..][k] == list[k + 1];
    }
  }

  lemma {:induction false} LinkedPush(ops: seq<Op>, list: seq<nat>, i: nat)
    requires Linked(ops, list) && i < |ops| && ops[i].next == HeadOf(list)
    ensures Linked(ops, [i] + list)
  {
    forall k | 0 <= k < |list| + 1
      ensures ([i] + list)[k] < |ops| && ops[([i] + list)[k]].next == Following([i] + list, k)
    {
      assert k > 0 ==> ([i] + list)[k] == list[k - 1];
    }
  }

  // Appending redirects the last link; the rest stands.
  lemma {:induction false} LinkedAppend(ops: seq<Op>, ops': seq<Op>, list: seq<nat>, i: nat)
    requires Linked(ops, list) && |ops'| == |ops| && i < |ops| && ops'[i].next == NONE
    requires forall j, k :: 0 <= j < k < |list| ==> list[j] != list[k]
    requires forall j | j in list && j < |ops| && j != LastOf(list) :: ops'[j].next == ops[j].next
    requires list != [] && LastOf(list) < |ops| ==> ops'[LastOf(list)].next == i
    ensures Linked(ops', list + [i])
  {
    var list' := list + [i];
    forall k | 0 <= k < |list'|
      ensures list'[k] < |ops'| && ops'[list'[k]].next == Following(list', k)
    {
      if k < |list| {
        assert list'[k] == list[k] && list[k] in list;
      }
    }
  }

  lemma {:induction false} ListsSame(place: seq<Place>, place': seq<Place>, list: seq<nat>, p: Place)
    requires Lists(place, list, p) && |place'| == |place|
    requires forall i | 0 <= i < |place| :: place'[i] == p <==> place[i] == p
    ensures Lists(place', list, p)
  {
  }

  lemma {:induction false} ListsPop(place: seq<Place>, list: seq<nat>, p: Place, q: Place)
    requires Lists(place, list, p) && list != [] && q != p
    ensures list[0] < |place| && place[list[0]] == p
    ensures Lists(place[list[0] := q], list[1..], p) && list[0] !in list[1..]
  {
    var place' := place[list[0] := q];
    forall i | 0 <= i < |place'| && place'[i] == p ensures i in list[1..] {
      assert i in list && i != list[0];
    }
  }

  lemma {:induction false} ListsPush(place: seq<Place>, list: seq<nat>, p: Place, i: nat)
    requires Lists(place, list, p) && i < |place| && place[i] != p
    ensures Lists(place[i := p], [i] + list, p) && i !in list
  {
    forall j | 0 <= j < |place| && place[i := p][j] == p ensures j in [i] + list {
      assert j == i || j in list;
    }
  }

  lemma {:induction false} ListsAppend(place: seq<Place>, list: seq<nat>, p: Place, i: nat)
    requires Lists(place, list, p) && i < |place| && place[i] != p
    ensures Lists(place[i := p], list + [i], p) && i !in list
  {
    forall j | 0 <= j < |place| && place[i := p][j] == p ensures j in list + [i] {
      assert j == i || j in list;
    }
  }

  lemma {:induction false} ListsApart(place: seq<Place>, list: seq<nat>, p: Place, i: nat)
    requires Lists(place, list, p) && i < |place|
    ensures i in list <==> place[i] == p
    ensures list != [] ==> LastOf(list) in list && LastOf(list) < |place| && place[LastOf(list)] == p
  {
    if list != [] {
      assert list[|list| - 1] in list;
    }
  }
}

// The operation table of the epoll backend (linux.c), on values: the array of
// operations with its lists, and a book that says where every index and every
// submission is.
module EpollTable {
  import opened IndexLists
  import Counting

  const OPS_MAX: nat := 2048

  datatype Table = Table(
    ops: seq<Op>, freeHead: nat, submittedHead: nat, submittedTail: nat, armedCount: nat)

  // Submissions are numbered in the order they are taken. `holder[t]` is the
  // index submission `t` was given, `ticket[i]` the submission index `i` holds;
  // the first `tried` have had their first try; `called` have been called back.
  datatype Book = Book(
    place: seq<Place>,
    free: seq<nat>, submitted: seq<nat>, detached: seq<nat>, armed: set<nat>, lost: set<nat>,
    ticket: seq<nat>, holder: seq<nat>, tried: nat, called: set<nat>)

  // Every index is at exactly one place, the lists are all there is at theirs,
  // and the links and the tail spell the lists.
  ghost predicate ListsValid(t: Table, b: Book) {
    && |t.ops| == OPS_MAX && |b.place| == OPS_MAX
    && Lists(b.place, b.free, Free) && Linked(t.ops, b.free) && t.freeHead == HeadOf(b.free)
    && Lists(b.place, b.submitted, Submitted) && Linked(t.ops, b.submitted)
    && t.submittedHead == HeadOf(b.submitted) && t.submittedTail == LastOf(b.submitted)
    && Lists(b.place, b.detached, Detached) && Linked(t.ops, b.detached)
    && forall i :: 0 <= i < OPS_MAX ==> (t.ops[i].used <==> b.place[i] != Free)
  }

  // One operation watched per descriptor, and the count exact: what is watched
  // and what was lost.
  ghost predicate KernelValid(t: Table, b: Book) {
    && |t.ops| == OPS_MAX && |b.place| == OPS_MAX
    && Marks(b.place, b.armed, Armed) && Marks(b.place, b.lost, Lost)
    && t.armedCount == |b.armed| + |b.lost|
    && (forall i :: i in b.armed ==> CanWait(t.ops[i].action))
    && (forall i, j :: i in b.armed && j in b.armed && i != j ==> t.ops[i].fd != t.ops[j].fd)
  }

  function Line(b: Book): seq<nat> {
    b.detached + b.submitted
  }

  // A submission was called back, or one index holds it; never both, and never
  // neither. What has not been tried stands in line in the order it came.
  ghost predicate TicketsValid(b: Book) {
    && |b.place| == OPS_MAX && |b.ticket| == OPS_MAX
    && |b.holder| == b.tried + |Line(b)|
    && (forall k :: b.tried <= k < |b.holder| ==> b.holder[k] == Line(b)[k - b.tried])
    && (forall t :: t in b.called ==> t < b.tried)
    && (forall i :: 0 <= i < OPS_MAX && b.place[i] != Free ==> HoldsTicket(b, i))
    && (forall t :: 0 <= t < |b.holder| && t !in b.called ==> IsHeld(b, t))
  }

  ghost predicate HoldsTicket(b: Book, i: nat)
    requires i < |b.place| == |b.ticket|
  {
    && b.ticket[i] < |b.holder| && b.holder[b.ticket[i]] == i && b.ticket[i] !in b.called
    && (b.ticket[i] < b.tried <==> b.place[i] != Detached && b.place[i] != Submitted)
  }

  ghost predicate IsHeld(b: Book, t: nat)
    requires t < |b.holder| && |b.place| == |b.ticket|
  {
    b.holder[t] < |b.place| && b.place[b.holder[t]] != Free && b.ticket[b.holder[t]] == t
  }

  ghost predicate Inv(t: Table, b: Book) {
    ListsValid(t, b) && KernelValid(t, b) && TicketsValid(b)
  }

  lemma {:induction false} Shape(t: Table, b: Book)
    requires Inv(t, b)
    ensures |t.ops| == |b.place| == |b.ticket| == OPS_MAX
  {
  }

  // There is an index to hand out exactly when the head names one.
  lemma {:induction false} FreeHeadIs(t: Table, b: Book)
    requires Inv(t, b)
    ensures t.freeHead == NONE <==> b.free == []
    ensures b.free != [] ==> t.freeHead == b.free[0] < OPS_MAX && b.place[b.free[0]] == Free
  {
  }

  // Nothing the kernel holds has moved.
  lemma {:induction false} KernelSame(t: Table, t': Table, b: Book, b': Book)
    requires KernelValid(t, b)
    requires |t'.ops| == OPS_MAX && |b'.place| == OPS_MAX && t'.armedCount == t.armedCount
    requires b'.armed == b.armed && b'.lost == b.lost
    requires forall i :: 0 <= i < OPS_MAX ==> (b'.place[i] == Armed <==> b.place[i] == Armed)
    requires forall i :: 0 <= i < OPS_MAX ==> (b'.place[i] == Lost <==> b.place[i] == Lost)
    requires forall i :: 0 <= i < OPS_MAX && b.place[i] == Armed ==>
               t'.ops[i].action == t.ops[i].action && t'.ops[i].fd == t.ops[i].fd
    ensures KernelValid(t', b')
  {
  }

  // ---------- Every slot free ----------

  function InitialTable(): Table {
    Table(seq(OPS_MAX, i requires i >= 0 => Op(false, Open, -1, if i + 1 < OPS_MAX then i + 1 else NONE)),
          0, NONE, NONE, 0)
  }

  function InitialBook(): Book {
    Book(seq(OPS_MAX, _ => Free), seq(OPS_MAX, i requires i >= 0 => i), [], [], {}, {},
         seq(OPS_MAX, _ => 0), [], 0, {})
  }

  lemma {:induction false} InitialInv()
    ensures Inv(InitialTable(), InitialBook())
  {
    hide Linked, Lists;
    InitialLists();
  }

  lemma {:induction false} InitialLists()
    ensures ListsValid(InitialTable(), InitialBook())
  {
    hide Lists, Linked;
    var t, b := InitialTable(), InitialBook();
    AllListed(b.place, b.free);
    AllLinked(t.ops, b.free);
    NoneListed(b.place, Submitted);
    NoneListed(b.place, Detached);
    NoneLinked(t.ops);
  }

  lemma {:induction false} AllListed(place: seq<Place>, list: seq<nat>)
    requires |place| == |list|
    requires forall i :: 0 <= i < |list| ==> list[i] == i && place[i] == Free
    ensures Lists(place, list, Free)
  {
    assert forall i :: 0 <= i < |list| ==> list[i] in list;
  }

  lemma {:induction false} AllLinked(ops: seq<Op>, list: seq<nat>)
    requires |ops| == |list| && forall i :: 0 <= i < |list| ==> list[i] == i
    requires forall i :: 0 <= i < |ops| ==> ops[i].next == if i + 1 < |ops| then i + 1 else NONE
    ensures Linked(ops, list)
  {
  }

  lemma {:induction false} NoneListed(place: seq<Place>, p: Place)
    requires forall i :: 0 <= i < |place| ==> place[i] != p
    ensures Lists(place, [], p)
  {
  }

  lemma {:induction false} NoneLinked(ops: seq<Op>)
    ensures Linked(ops, [])
  {
  }

  // ---------- Submission ----------

  // Taken: off the free list and onto the end of the submitted one.
  function SubmitTable(t: Table, action: Action, fd: int): Table
    requires t.freeHead < |t.ops|
    requires t.submittedTail == NONE || t.submittedTail < |t.ops|
  {
    var idx := t.freeHead;
    var ops := t.ops[idx := Op(true, action, fd, NONE)];
    t.(ops := if t.submittedTail == NONE then ops
              else ops[t.submittedTail := ops[t.submittedTail].(next := idx)],
       freeHead := t.ops[idx].next,
       submittedHead := if t.submittedTail == NONE then idx else t.submittedHead,
       submittedTail := idx)
  }

  function SubmitBook(b: Book): Book
    requires b.free != [] && b.free[0] < |b.place| && |b.ticket| == |b.place|
  {
    var idx := b.free[0];
    b.(place := b.place[idx := Submitted], free := b.free[1..], submitted := b.submitted + [idx],
       ticket := b.ticket[idx := |b.holder|], holder := b.holder + [idx])
  }

  lemma {:induction false} SubmitLists(t: Table, b: Book, action: Action, fd: int)
    requires ListsValid(t, b) && b.free != [] && |b.ticket| == OPS_MAX
    ensures t.freeHead == b.free[0] < OPS_MAX && b.place[b.free[0]] == Free
    ensures t.submittedTail == NONE || t.submittedTail < OPS_MAX
    ensures ListsValid(SubmitTable(t, action, fd), SubmitBook(b))
  {
    hide Linked, Lists;
    ListsPop(b.place, b.free, Free, Submitted);
    LinkedPop(t.ops, b.free);
    var idx := b.free[0];
    ListsApart(b.place, b.submitted, Submitted, idx);
    ListsApart(b.place, b.detached, Detached, idx);
    var t', b' := SubmitTable(t, action, fd), SubmitBook(b);
    ListsAppend(b.place, b.submitted, Submitted, idx);
    ListsSame(b.place, b'.place, b.detached, Detached);
    SubmitLinks(t, b, t'.ops);
  }

  // `ops'` is `ops` with a fresh operation at `idx` and the last link of
  // `submitted` turned to it.
  ghost predicate Relinked(ops: seq<Op>, ops': seq<Op>, submitted: seq<nat>, idx: nat) {
    && |ops'| == |ops| && idx < |ops| && ops'[idx].next == NONE
    && (submitted != [] && LastOf(submitted) < |ops| ==> ops'[LastOf(submitted)].next == idx)
    && forall i :: 0 <= i < |ops| && i != idx && i != LastOf(submitted) ==> ops'[i] == ops[i]
  }

  // A list that holds neither is linked as it was.
  lemma {:induction false} RelinkedAside(ops: seq<Op>, ops': seq<Op>, submitted: seq<nat>, idx: nat, list: seq<nat>)
    requires Relinked(ops, ops', submitted, idx) && Linked(ops, list)
    requires idx !in list && LastOf(submitted) !in list
    ensures Linked(ops', list)
  {
    hide Linked;
    LinkedSame(ops, ops', list);
  }

  lemma {:induction false} RelinkedEnd(ops: seq<Op>, ops': seq<Op>, submitted: seq<nat>, idx: nat)
    requires Relinked(ops, ops', submitted, idx) && Linked(ops, submitted) && idx !in submitted
    requires forall j, k :: 0 <= j < k < |submitted| ==> submitted[j] != submitted[k]
    ensures Linked(ops', submitted + [idx])
  {
    hide Linked;
    LinkedAppend(ops, ops', submitted, idx);
  }

  // What is in one list is in no other, and the end of none is in one.
  lemma {:induction false} ListsDiffer(place: seq<Place>, list: seq<nat>, p: Place, other: seq<nat>, q: Place)
    requires Lists(place, list, p) && Lists(place, other, q) && p != q && |place| <= NONE
    ensures LastOf(other) !in list
  {
  }

  lemma {:induction false} SubmitLinks(t: Table, b: Book, ops': seq<Op>)
    requires ListsValid(t, b) && b.free != [] && Relinked(t.ops, ops', b.submitted, b.free[0])
    ensures Linked(ops', b.free[1..]) && Linked(ops', b.submitted + [b.free[0]]) && Linked(ops', b.detached)
  {
    hide Linked, Lists, Relinked;
    var idx := b.free[0];
    LinkedPop(t.ops, b.free);
    ListsPop(b.place, b.free, Free, Submitted);
    ListsApart(b.place, b.submitted, Submitted, idx);
    ListsApart(b.place, b.detached, Detached, idx);
    ListsDiffer(b.place, b.free, Free, b.submitted, Submitted);
    ListsDiffer(b.place, b.detached, Detached, b.submitted, Submitted);
    ListsOnce(b.place, b.submitted, Submitted);
    assert forall i :: i in b.free[1..] ==> i in b.free;
    RelinkedAside(t.ops, ops', b.submitted, idx, b.free[1..]);
    RelinkedAside(t.ops, ops', b.submitted, idx, b.detached);
    RelinkedEnd(t.ops, ops', b.submitted, idx);
  }

  lemma {:induction false} ListsOnce(place: seq<Place>, list: seq<nat>, p: Place)
    requires Lists(place, list, p)
    ensures forall j, k :: 0 <= j < k < |list| ==> list[j] != list[k]
  {
  }

  lemma {:induction false} SubmitTickets(b: Book)
    requires TicketsValid(b) && b.free != [] && b.free[0] < OPS_MAX && b.place[b.free[0]] == Free
    ensures TicketsValid(SubmitBook(b))
  {
    var b', idx := SubmitBook(b), b.free[0];
    assert Line(b') == Line(b) + [idx];
    forall i | 0 <= i < OPS_MAX && b'.place[i] != Free ensures HoldsTicket(b', i) {
      assert i != idx ==> HoldsTicket(b, i);
    }
    forall t | 0 <= t < |b'.holder| && t !in b'.called ensures IsHeld(b', t) {
      assert t < |b.holder| ==> IsHeld(b, t);
    }
  }

  lemma {:induction false} SubmitKeeps(t: Table, b: Book, action: Action, fd: int)
    requires Inv(t, b) && b.free != []
    ensures t.freeHead == b.free[0] < OPS_MAX && b.place[b.free[0]] == Free
    ensures t.submittedTail == NONE || t.submittedTail < OPS_MAX
    ensures Inv(SubmitTable(t, action, fd), SubmitBook(b))
  {
    hide Linked, Lists;
    SubmitLists(t, b, action, fd);
    SubmitTickets(b);
    SubmitKernel(t, b, action, fd);
  }

  lemma {:induction false} SubmitKernel(t: Table, b: Book, action: Action, fd: int)
    requires Inv(t, b) && b.free != [] && t.freeHead == b.free[0] < OPS_MAX && b.place[b.free[0]] == Free
    requires t.submittedTail == NONE || t.submittedTail < OPS_MAX
    ensures KernelValid(SubmitTable(t, action, fd), SubmitBook(b))
  {
    hide Linked, Lists, KernelValid;
    KernelSame(t, SubmitTable(t, action, fd), b, SubmitBook(b));
  }

  // ---------- A turn of the loop ----------

  // What was submitted before the turn is cut off the list and becomes the
  // chain to walk.
  function DetachTable(t: Table): Table {
    t.(submittedHead := NONE, submittedTail := NONE)
  }

  function DetachBook(b: Book): Book {
    b.(place := seq(|b.place|, i requires 0 <= i < |b.place| =>
                      if b.place[i] == Submitted then Detached else b.place[i]),
       detached := b.submitted, submitted := [])
  }

  lemma {:induction false} DetachKeeps(t: Table, b: Book)
    requires Inv(t, b) && b.detached == []
    ensures Inv(DetachTable(t), DetachBook(b))
  {
    hide Linked, Lists, KernelValid, TicketsValid;
    DetachLists(t, b);
    KernelSame(t, DetachTable(t), b, DetachBook(b));
    TicketsSame(b, DetachBook(b));
  }

  lemma {:induction false} DetachLists(t: Table, b: Book)
    requires ListsValid(t, b) && b.detached == []
    ensures ListsValid(DetachTable(t), DetachBook(b))
  {
    hide Linked;
    var b' := DetachBook(b);
    ListsSame(b.place, b'.place, b.free, Free);
    NoneLinked(t.ops);
    forall i | 0 <= i < OPS_MAX ensures b.place[i] != Detached {
      assert b.place[i] == Detached ==> i in b.detached;
    }
    NoneListed(b'.place, Submitted);
  }

  // The first of the chain has its first try.
  function BeginBook(b: Book): Book
    requires b.detached != [] && b.detached[0] < |b.place|
  {
    b.(place := b.place[b.detached[0] := Running], detached := b.detached[1..], tried := b.tried + 1)
  }

  lemma {:induction false} BeginKeeps(t: Table, b: Book)
    requires Inv(t, b) && b.detached != []
    ensures b.detached[0] < OPS_MAX && b.place[b.detached[0]] == Detached
    ensures b.ticket[b.detached[0]] == b.tried
    ensures Inv(t, BeginBook(b))
  {
    hide Linked, Lists, KernelValid, TicketsValid;
    BeginTickets(b);
    BeginLists(t, b);
    KernelSame(t, t, b, BeginBook(b));
  }

  lemma {:induction false} BeginLists(t: Table, b: Book)
    requires ListsValid(t, b) && b.detached != []
    ensures b.detached[0] < OPS_MAX && b.place[b.detached[0]] == Detached
    ensures ListsValid(t, BeginBook(b))
  {
    hide Linked, Lists;
    ListsPop(b.place, b.detached, Detached, Running);
    var b' := BeginBook(b);
    ListsSame(b.place, b'.place, b.free, Free);
    ListsSame(b.place, b'.place, b.submitted, Submitted);
    LinkedPop(t.ops, b.detached);
  }

  lemma {:induction false} BeginTickets(b: Book)
    requires TicketsValid(b) && Lists(b.place, b.detached, Detached) && b.detached != []
    ensures b.detached[0] < OPS_MAX && b.ticket[b.detached[0]] == b.tried
    ensures TicketsValid(BeginBook(b))
  {
    hide Lists;
    ListsFirst(b.place, b.detached, Detached);
    var idx, b' := b.detached[0], BeginBook(b);
    assert Line(b)[0] == idx && Line(b') == Line(b)[1..];
    assert b.holder[b.tried] == idx && IsHeld(b, b.tried);
    BeginHolds(b, b');
    forall t | 0 <= t < |b'.holder| && t !in b'.called ensures IsHeld(b', t) {
      assert IsHeld(b, t);
    }
  }

  lemma {:induction false} ListsFirst(place: seq<Place>, list: seq<nat>, p: Place)
    requires Lists(place, list, p) && list != []
    ensures list[0] < |place| && place[list[0]] == p
  {
  }

  lemma {:induction false} BeginHolds(b: Book, b': Book)
    requires |b.place| == |b.ticket| == OPS_MAX && b.detached != [] && b.detached[0] < OPS_MAX
    requires b' == BeginBook(b)
    requires forall i :: 0 <= i < OPS_MAX && b.place[i] != Free ==> HoldsTicket(b, i)
    requires b.place[b.detached[0]] == Detached && b.tried < |b.holder| && b.holder[b.tried] == b.detached[0]
    requires b.ticket[b.detached[0]] == b.tried
    ensures forall i :: 0 <= i < OPS_MAX && b'.place[i] != Free ==> HoldsTicket(b', i)
  {
    forall i | 0 <= i < OPS_MAX && b'.place[i] != Free ensures HoldsTicket(b', i) {
      assert HoldsTicket(b, i);
    }
  }

  // Two books that agree on who is in use hold the same tickets.
  lemma {:induction false} TicketsSame(b: Book, b': Book)
    requires TicketsValid(b)
    requires b'.ticket == b.ticket && b'.holder == b.holder && b'.tried == b.tried
    requires b'.called == b.called && Line(b') == Line(b) && |b'.place| == |b.place|
    requires forall i :: 0 <= i < OPS_MAX ==>
               && (b'.place[i] != Free <==> b.place[i] != Free)
               && (b'.place[i] in {Submitted, Detached} <==> b.place[i] in {Submitted, Detached})
    ensures TicketsValid(b')
  {
    forall i | 0 <= i < OPS_MAX && b'.place[i] != Free ensures HoldsTicket(b', i) {
      assert HoldsTicket(b, i);
    }
    forall t | 0 <= t < |b'.holder| && t !in b'.called ensures IsHeld(b', t) {
      assert IsHeld(b, t);
    }
  }

  // A place change among what is running, armed or lost touches no list.
  ghost predicate KernelMove(b: Book, b': Book) {
    && |b'.place| == |b.place| == OPS_MAX
    && (b'.free, b'.submitted, b'.detached) == (b.free, b.submitted, b.detached)
    && b'.ticket == b.ticket && b'.holder == b.holder && b'.tried == b.tried && b'.called == b.called
    && forall i :: 0 <= i < OPS_MAX ==>
         b'.place[i] == b.place[i]
         || (b.place[i] in {Running, Armed, Lost} && b'.place[i] in {Running, Armed, Lost})
  }

  lemma {:induction false} KernelMoveKeeps(t: Table, t': Table, b: Book, b': Book)
    requires ListsValid(t, b) && TicketsValid(b) && KernelMove(b, b')
    requires t' == t.(armedCount := t'.armedCount)
    ensures ListsValid(t', b') && TicketsValid(b')
  {
    hide Linked, Lists;
    TicketsSame(b, b');
    ListsSame(b.place, b'.place, b.free, Free);
    ListsSame(b.place, b'.place, b.submitted, Submitted);
    ListsSame(b.place, b'.place, b.detached, Detached);
  }

  // The kernel reports an armed operation, which disarms it.
  function ReportTable(t: Table): Table
  {
    t.(armedCount := if t.armedCount > 0 then t.armedCount - 1 else 0)
  }

  function ReportBook(b: Book, idx: nat): Book
    requires idx < |b.place|
  {
    b.(place := b.place[idx := Running], armed := b.armed - {idx})
  }

  lemma {:induction false} ReportKeeps(t: Table, b: Book, idx: nat)
    requires Inv(t, b) && idx in b.armed
    ensures idx < OPS_MAX && t.ops[idx].used && t.armedCount > 0
    ensures Inv(ReportTable(t), ReportBook(b, idx))
  {
    hide Linked, Lists, TicketsValid;
    ReportKernel(t, b, idx);
    KernelMoveKeeps(t, ReportTable(t), b, ReportBook(b, idx));
  }

  lemma {:induction false} ReportKernel(t: Table, b: Book, idx: nat)
    requires KernelValid(t, b) && idx in b.armed
    ensures idx < OPS_MAX && b.place[idx] == Armed && t.armedCount > 0
    ensures KernelValid(ReportTable(t), ReportBook(b, idx))
  {
    assert b.armed == ReportBook(b, idx).armed + {idx};
  }

  // Whatever is watched on a descriptor.
  function Watchers(t: Table, b: Book, fd: int): (w: set<nat>)
    ensures w <= b.armed
  {
    set i | i in b.armed && i < |t.ops| && t.ops[i].fd == fd
  }

  // A registration is per descriptor: a new one on `fd`, or `fd` closing, is
  // the end of the one there was.
  function DropBook(t: Table, b: Book, fd: int): Book {
    var w := Watchers(t, b, fd);
    b.(place := seq(|b.place|, i requires 0 <= i < |b.place| => if i in w then Lost else b.place[i]),
       armed := b.armed - w, lost := b.lost + w)
  }

  lemma {:induction false} DropKeeps(t: Table, b: Book, fd: int)
    requires Inv(t, b)
    ensures Inv(t, DropBook(t, b, fd)) && Watchers(t, DropBook(t, b, fd), fd) == {}
  {
    hide Linked, Lists, TicketsValid;
    DropKernel(t, b, fd);
    KernelMoveKeeps(t, t, b, DropBook(t, b, fd));
  }

  lemma {:induction false} DropKernel(t: Table, b: Book, fd: int)
    requires KernelValid(t, b)
    ensures KernelValid(t, DropBook(t, b, fd)) && Watchers(t, DropBook(t, b, fd), fd) == {}
    ensures KernelMove(b, DropBook(t, b, fd))
  {
    var w, b' := Watchers(t, b, fd), DropBook(t, b, fd);
    DropMarks(b, w, b');
    CardMoved(b.armed, b.lost, w);
  }

  lemma {:induction false} DropMarks(b: Book, w: set<nat>, b': Book)
    requires Marks(b.place, b.armed, Armed) && Marks(b.place, b.lost, Lost) && w <= b.armed
    requires b'.armed == b.armed - w && b'.lost == b.lost + w && |b'.place| == |b.place|
    requires forall i :: 0 <= i < |b.place| ==> b'.place[i] == if i in w then Lost else b.place[i]
    ensures Marks(b'.place, b'.armed, Armed) && Marks(b'.place, b'.lost, Lost) && b.lost !! w
  {
  }

  lemma {:induction false} CardMoved(from: set<nat>, to: set<nat>, moved: set<nat>)
    requires moved <= from && to !! moved
    ensures |from - moved| + |to + moved| == |from| + |to|
  {
    assert from == (from - moved) + moved;
  }

  // A running operation is handed to the kernel.
  function ArmTable(t: Table): Table {
    t.(armedCount := t.armedCount + 1)
  }

  function ArmBook(t: Table, b: Book, idx: nat): Book
    requires idx < |b.place| == |t.ops|
  {
    var dropped := DropBook(t, b, t.ops[idx].fd);
    dropped.(place := dropped.place[idx := Armed], armed := dropped.armed + {idx})
  }

  lemma {:induction false} ArmKeeps(t: Table, b: Book, idx: nat)
    requires Inv(t, b) && idx < OPS_MAX && b.place[idx] == Running && CanWait(t.ops[idx].action)
    ensures Inv(ArmTable(t), ArmBook(t, b, idx))
  {
    hide ListsValid, TicketsValid, KernelValid, DropBook;
    KernelShape(t, b);
    var dropped := DropBook(t, b, t.ops[idx].fd);
    DropKeeps(t, b, t.ops[idx].fd);
    DropElsewhere(t, b, t.ops[idx].fd, idx);
    ArmKernel(t, dropped, idx);
    KernelMoveKeeps(t, ArmTable(t), dropped, ArmBook(t, b, idx));
  }

  lemma {:induction false} KernelShape(t: Table, b: Book)
    requires KernelValid(t, b)
    ensures |t.ops| == |b.place| == OPS_MAX
  {
  }

  lemma {:induction false} DropElsewhere(t: Table, b: Book, fd: int, idx: nat)
    requires KernelValid(t, b) && idx < OPS_MAX && b.place[idx] == Running
    ensures |DropBook(t, b, fd).place| == OPS_MAX && DropBook(t, b, fd).place[idx] == Running
  {
  }

  lemma {:induction false} ArmKernel(t: Table, b: Book, idx: nat)
    requires KernelValid(t, b) && idx < OPS_MAX && b.place[idx] == Running && CanWait(t.ops[idx].action)
    requires Watchers(t, b, t.ops[idx].fd) == {}
    ensures var b' := b.(place := b.place[idx := Armed], armed := b.armed + {idx});
            KernelValid(ArmTable(t), b') && KernelMove(b, b')
  {
    var b' := b.(place := b.place[idx := Armed], armed := b.armed + {idx});
    MarksAdd(b.place, b.armed, Armed, idx);
    MarksSame(b.place, b'.place, b.lost, Lost);
    ArmedApart(t, b, idx);
    hide Marks;
  }

  lemma {:induction false} ArmedApart(t: Table, b: Book, idx: nat)
    requires KernelValid(t, b) && idx < OPS_MAX && CanWait(t.ops[idx].action)
    requires Watchers(t, b, t.ops[idx].fd) == {}
    ensures forall i :: i in b.armed + {idx} ==> i < |t.ops| && CanWait(t.ops[i].action)
    ensures forall i, j :: i in b.armed + {idx} && j in b.armed + {idx} && i != j ==> t.ops[i].fd != t.ops[j].fd
  {
    assert forall i :: i in b.armed ==> i < |t.ops|;
    hide Marks;
    NoneWatching(t, b, t.ops[idx].fd);
  }

  lemma {:induction false} NoneWatching(t: Table, b: Book, fd: int)
    requires Watchers(t, b, fd) == {} && forall i :: i in b.armed ==> i < |t.ops|
    ensures forall i :: i in b.armed ==> t.ops[i].fd != fd
  {
    forall i | i in b.armed ensures t.ops[i].fd != fd {
      assert i !in Watchers(t, b, fd);
    }
  }

  lemma {:induction false} MarksAdd(place: seq<Place>, s: set<nat>, p: Place, i: nat)
    requires Marks(place, s, p) && i < |place| && place[i] != p
    ensures Marks(place[i := p], s + {i}, p) && |s + {i}| == |s| + 1
  {
    assert i !in s;
  }

  lemma {:induction false} MarksSame(place: seq<Place>, place': seq<Place>, s: set<nat>, p: Place)
    requires Marks(place, s, p) && |place'| == |place|
    requires forall i :: 0 <= i < |place| ==> (place'[i] == p <==> place[i] == p)
    ensures Marks(place', s, p)
  {
  }

  // An answered operation gives its slot back, before its callback runs.
  function FinishTable(t: Table, idx: nat): Table
    requires idx < |t.ops|
  {
    t.(ops := t.ops[idx := Op(false, Open, -1, t.freeHead)], freeHead := idx)
  }

  function FinishBook(b: Book, idx: nat): Book
    requires idx < |b.place| == |b.ticket|
  {
    b.(place := b.place[idx := Free], free := [idx] + b.free, called := b.called + {b.ticket[idx]})
  }

  lemma {:induction false} FinishKeeps(t: Table, b: Book, idx: nat)
    requires Inv(t, b) && idx < OPS_MAX && b.place[idx] == Running
    ensures Inv(FinishTable(t, idx), FinishBook(b, idx))
    ensures b.ticket[idx] !in b.called
  {
    hide Linked, Lists, KernelValid, TicketsValid;
    Shape(t, b);
    FinishTickets(b, idx);
    FinishLists(t, b, idx);
    KernelSame(t, FinishTable(t, idx), b, FinishBook(b, idx));
  }

  lemma {:induction false} FinishLists(t: Table, b: Book, idx: nat)
    requires ListsValid(t, b) && idx < OPS_MAX && b.place[idx] == Running && |b.ticket| == OPS_MAX
    ensures ListsValid(FinishTable(t, idx), FinishBook(b, idx))
  {
    hide Linked, Lists;
    var t', b' := FinishTable(t, idx), FinishBook(b, idx);
    ListsApart(b.place, b.free, Free, idx);
    ListsApart(b.place, b.submitted, Submitted, idx);
    ListsApart(b.place, b.detached, Detached, idx);
    ListsPush(b.place, b.free, Free, idx);
    ListsSame(b.place, b'.place, b.submitted, Submitted);
    ListsSame(b.place, b'.place, b.detached, Detached);
    LinkedSame(t.ops, t'.ops, b.free);
    LinkedPush(t'.ops, b.free, idx);
    LinkedSame(t.ops, t'.ops, b.submitted);
    LinkedSame(t.ops, t'.ops, b.detached);
  }

  lemma {:induction false} FinishTickets(b: Book, idx: nat)
    requires TicketsValid(b) && idx < OPS_MAX && b.place[idx] == Running
    ensures TicketsValid(FinishBook(b, idx)) && b.ticket[idx] !in b.called
  {
    var b' := FinishBook(b, idx);
    assert HoldsTicket(b, idx);
    assert Line(b') == Line(b);
    forall i | 0 <= i < OPS_MAX && b'.place[i] != Free ensures HoldsTicket(b', i) {
      assert HoldsTicket(b, i);
    }
    forall t | 0 <= t < |b'.holder| && t !in b'.called ensures IsHeld(b', t) {
      assert IsHeld(b, t);
    }
  }

  lemma {:induction false} KernelOf(t: Table, b: Book)
    requires Inv(t, b)
    ensures KernelValid(t, b)
  {
  }

  lemma {:induction false} HeadsAre(t: Table, b: Book)
    requires Inv(t, b)
    ensures t.submittedHead == HeadOf(b.submitted)
    ensures |b.holder| == b.tried + |b.detached| + |b.submitted|
  {
  }

  lemma {:induction false} ChainLinked(t: Table, b: Book)
    requires Inv(t, b) && b.detached != []
    ensures b.detached[0] < OPS_MAX == |t.ops|
    ensures t.ops[b.detached[0]].next == HeadOf(b.detached[1..])
  {
    LinkedPop(t.ops, b.detached);
  }

  lemma {:induction false} EmptyChain(t: Table, b: Book)
    requires Inv(t, b) && HeadOf(b.detached) == NONE
    ensures b.detached == []
  {
    if b.detached != [] {
      ChainLinked(t, b);
    }
  }

  // What the kernel reports was the only thing watched on its descriptor.
  lemma {:induction false} ReportedAlone(t: Table, b: Book, idx: nat)
    requires Inv(t, b) && idx in b.armed
    ensures idx < |t.ops| && CanWait(t.ops[idx].action)
    ensures Watchers(ReportTable(t), ReportBook(b, idx), t.ops[idx].fd) == {}
  {
  }

  // ---------- Conservation ----------

  ghost function Outstanding(b: Book): set<nat> {
    set s: nat | s < |b.holder| && s !in b.called
  }

  ghost function InUse(b: Book): set<nat> {
    set i: nat | i < |b.place| && b.place[i] != Free
  }

  ghost function At(place: seq<Place>, p: Place): set<nat> {
    set i: nat | i < |place| && place[i] == p
  }

  // Every index is free or holds one submission that was not called back, and
  // there is no other kind of submission that was not called back: so the table
  // refuses an operation exactly when 2048 are outstanding.
  lemma {:induction false} Conservation(t: Table, b: Book)
    requires Inv(t, b)
    ensures |Outstanding(b)| == |InUse(b)| == OPS_MAX - |b.free|
    ensures b.free == [] <==> |Outstanding(b)| == 2048
  {
    OutstandingHeld(b);
    FreeCount(t, b);
  }

  lemma {:induction false} OutstandingHeld(b: Book)
    requires TicketsValid(b)
    ensures |Outstanding(b)| == |InUse(b)|
  {
    var s, u := Outstanding(b), InUse(b);
    forall x | x in s ensures b.holder[x] in u && b.ticket[b.holder[x]] == x {
      assert IsHeld(b, x);
    }
    forall y | y in u ensures b.ticket[y] < |b.holder| && b.ticket[y] in s && b.holder[b.ticket[y]] == y {
      assert HoldsTicket(b, y);
    }
    Counting.Bijection(s, u, b.holder, b.ticket);
  }

  lemma {:induction false} FreeCount(t: Table, b: Book)
    requires ListsValid(t, b)
    ensures |InUse(b)| == OPS_MAX - |b.free|
  {
    hide Linked;
    FreeSetCount(b.place, b.free, InUse(b));
  }

  lemma {:induction false} ListCount(place: seq<Place>, list: seq<nat>, p: Place)
    requires Lists(place, list, p)
    ensures |At(place, p)| == |list|
  {
    Counting.DistinctCount(list, At(place, p));
  }

  lemma {:induction false} FreeSetCount(place: seq<Place>, free: seq<nat>, used: set<nat>)
    requires Lists(place, free, Free)
    requires forall i: nat :: i in used <==> i < |place| && place[i] != Free
    ensures |used| == |place| - |free|
  {
    ListCount(place, free, Free);
    hide Lists;
    Counting.BelowCount(|place|, used + At(place, Free));
    assert used !! At(place, Free);
  }

  ghost function AtAny(place: seq<Place>, ps: set<Place>): set<nat> {
    set i: nat | i < |place| && place[i] in ps
  }

  lemma {:induction false} OneMorePlace(place: seq<Place>, ps: set<Place>, p: Place)
    requires p !in ps
    ensures |AtAny(place, ps + {p})| == |AtAny(place, ps)| + |At(place, p)|
  {
    assert AtAny(place, ps + {p}) == AtAny(place, ps) + At(place, p);
    assert AtAny(place, ps) !! At(place, p);
  }

  lemma {:induction false} SixSets(place: seq<Place>)
    ensures |At(place, Free)| + |At(place, Submitted)| + |At(place, Detached)| + |At(place, Running)|
            + |At(place, Armed)| + |At(place, Lost)| == |place|
  {
    OneMorePlace(place, {}, Free);
    OneMorePlace(place, {Free}, Submitted);
    OneMorePlace(place, {Free, Submitted}, Detached);
    OneMorePlace(place, {Free, Submitted, Detached}, Running);
    OneMorePlace(place, {Free, Submitted, Detached, Running}, Armed);
    OneMorePlace(place, {Free, Submitted, Detached, Running, Armed}, Lost);
    EveryPlace(place, {Free, Submitted, Detached, Running, Armed, Lost});
    assert AtAny(place, {}) == {};
    hide At, AtAny;
    assert {Free, Submitted, Detached, Running, Armed, Lost} == {Free, Submitted, Detached, Running, Armed} + {Lost};
    assert {Free, Submitted, Detached, Running, Armed} == {Free, Submitted, Detached, Running} + {Armed};
    assert {Free, Submitted, Detached, Running} == {Free, Submitted, Detached} + {Running};
    assert {Free, Submitted, Detached} == {Free, Submitted} + {Detached};
    assert {Free, Submitted} == {Free} + {Submitted};
    assert {Free} == {} + {Free};
  }

  lemma {:induction false} EveryPlace(place: seq<Place>, all: set<Place>)
    requires all == {Free, Submitted, Detached, Running, Armed, Lost}
    ensures |AtAny(place, all)| == |place|
  {
    forall i: nat | i < |place| ensures place[i] in all {
      match place[i]
      case Free | Submitted | Detached | Running | Armed | Lost =>
    }
    Counting.BelowCount(|place|, AtAny(place, all));
  }

  // While nothing is lost an index is in exactly one of five classes: free,
  // submitted, detached for this turn, running, or armed, which is counted.
  lemma {:induction false} FiveClasses(t: Table, b: Book)
    requires Inv(t, b) && b.lost == {}
    ensures |b.free| + |b.submitted| + |b.detached| + |At(b.place, Running)| + |b.armed| == OPS_MAX
    ensures t.armedCount == |b.armed| && At(b.place, Armed) == b.armed && At(b.place, Lost) == {}
  {
    hide Linked, TicketsValid, Lists;
    ListCount(b.place, b.free, Free);
    ListCount(b.place, b.submitted, Submitted);
    ListCount(b.place, b.detached, Detached);
    MarksAt(b.place, b.armed, Armed);
    MarksAt(b.place, b.lost, Lost);
    hide At;
    SixSets(b.place);
  }

  lemma {:induction false} MarksAt(place: seq<Place>, s: set<nat>, p: Place)
    requires Marks(place, s, p)
    ensures At(place, p) == s
  {
  }

  lemma {:induction false} LostNeverCalled(t: Table, b: Book, j: nat)
    requires Inv(t, b)
    ensures j in b.lost ==> j < OPS_MAX && b.ticket[j] !in b.called
  {
    hide Linked, Lists;
    assert j in b.lost ==> HoldsTicket(b, j);
  }

  // Two operations on one descriptor, both told to wait: the second registration
  // replaces the first, which is then never reported. What arming a running
  // operation loses is exactly what was watched on its descriptor.
  lemma {:induction false} ArmLoses(t: Table, b: Book, idx: nat, j: nat)
    requires Inv(t, b) && idx < OPS_MAX && b.place[idx] == Running && CanWait(t.ops[idx].action)
    ensures j in ArmBook(t, b, idx).lost
       <==> j in b.lost || (j in b.armed && t.ops[j].fd == t.ops[idx].fd)
    ensures j in ArmBook(t, b, idx).lost ==> j < OPS_MAX && b.ticket[j] !in ArmBook(t, b, idx).called
  {
    hide Linked, Lists, TicketsValid, Inv;
    Armable(t, b, idx);
    ArmKeeps(t, b, idx);
    LostNeverCalled(ArmTable(t), ArmBook(t, b, idx), j);
  }

  lemma {:induction false} Armable(t: Table, b: Book, idx: nat)
    requires Inv(t, b)
    ensures |t.ops| == |b.place| == OPS_MAX && forall j :: j in b.armed ==> j < OPS_MAX
  {
    hide Linked, Lists, TicketsValid;
  }

  // ---------- One operation on a descriptor ----------

  // What waits for its descriptor, or takes it away.
  predicate OnDescriptor(action: Action) {
    CanWait(action) || action.Close?
  }

  // No two operations in use are on one descriptor.
  ghost predicate Exclusive(ops: seq<Op>) {
    forall i, j :: 0 <= i < |ops| && 0 <= j < |ops| && i != j ==> Apart(ops[i], ops[j])
  }

  predicate Apart(p: Op, q: Op) {
    p.used && q.used && OnDescriptor(p.action) && OnDescriptor(q.action) ==> p.fd != q.fd
  }

  // A descriptor an operation is on.
  predicate Taken(ops: seq<Op>, fd: int) {
    exists i :: 0 <= i < |ops| && ops[i].used && OnDescriptor(ops[i].action) && ops[i].fd == fd
  }

  // What a caller that keeps one operation on a descriptor may submit.
  predicate Polite(ops: seq<Op>, action: Action, fd: int) {
    OnDescriptor(action) ==> !Taken(ops, fd)
  }

  lemma {:induction false} FreshExclusive(ops: seq<Op>, ops': seq<Op>, idx: nat, action: Action, fd: int)
    requires Exclusive(ops) && |ops'| == |ops| && idx < |ops| && !ops[idx].used
    requires ops'[idx].used && ops'[idx].action == action && ops'[idx].fd == fd
    requires forall i :: 0 <= i < |ops| && i != idx ==> ops'[i] == ops[i].(next := ops'[i].next)
    ensures Exclusive(ops') <==> Polite(ops, action, fd)
  {
    if Polite(ops, action, fd) {
      forall i, j | 0 <= i < |ops| && 0 <= j < |ops| && i != j ensures Apart(ops'[i], ops'[j]) {
        assert Apart(ops[i], ops[j]);
      }
    }
    if Exclusive(ops') {
      forall i | 0 <= i < |ops|
        ensures !(ops[i].used && OnDescriptor(ops[i].action) && ops[i].fd == fd && OnDescriptor(action))
      {
        assert i != idx ==> Apart(ops'[i], ops'[idx]);
      }
    }
  }

  // A submission keeps the descriptors apart exactly when it is a polite one.
  lemma {:induction false} SubmitExclusive(t: Table, b: Book, action: Action, fd: int)
    requires Inv(t, b) && b.free != [] && Exclusive(t.ops)
    ensures t.freeHead < |t.ops| && (t.submittedTail == NONE || t.submittedTail < |t.ops|)
    ensures Exclusive(SubmitTable(t, action, fd).ops) <==> Polite(t.ops, action, fd)
  {
    hide Exclusive, Polite, Inv;
    SubmitKeeps(t, b, action, fd);
    Shape(t, b);
    FreeUnused(t, b);
    FreshExclusive(t.ops, SubmitTable(t, action, fd).ops, t.freeHead, action, fd);
  }

  // The next to be submitted is given the slot just handed back.
  lemma {:induction false} GivenBack(t: Table, b: Book, idx: nat, action: Action, fd: int)
    requires Inv(t, b) && idx < OPS_MAX && b.place[idx] == Running
    ensures var t', b' := FinishTable(t, idx), FinishBook(b, idx);
            && b'.free != [] && t'.freeHead < |t'.ops| && (t'.submittedTail == NONE || t'.submittedTail < |t'.ops|)
            && SubmitTable(t', action, fd).submittedTail == idx
            && SubmitBook(b').submitted == b.submitted + [idx]
            && SubmitTable(t', action, fd).freeHead == t.freeHead
  {
    hide Inv, TicketsValid;
    Shape(t, b);
    FinishKeeps(t, b, idx);
    SubmitKeeps(FinishTable(t, idx), FinishBook(b, idx), action, fd);
  }

  // A free slot is not in use, and the end of the line is not free.
  lemma {:induction false} FreeUnused(t: Table, b: Book)
    requires Inv(t, b) && b.free != []
    ensures t.freeHead < |t.ops| && !t.ops[t.freeHead].used && t.submittedTail != t.freeHead
  {
    hide Linked, TicketsValid, KernelValid;
    FreeHeadIs(t, b);
    ListsApart(b.place, b.submitted, Submitted, b.free[0]);
  }

  lemma {:induction false} FinishExclusive(t: Table, idx: nat)
    requires idx < |t.ops| && Exclusive(t.ops)
    ensures Exclusive(FinishTable(t, idx).ops)
  {
  }

  // Nothing else is watched on the descriptor of an operation that has its turn.
  lemma {:induction false} NothingWatched(t: Table, b: Book, idx: nat)
    requires Inv(t, b) && Exclusive(t.ops) && idx < OPS_MAX && b.place[idx] == Running && OnDescriptor(t.ops[idx].action)
    ensures Watchers(t, b, t.ops[idx].fd) == {}
  {
  }

  // Closing a descriptor nothing is on leaves the kernel's side as it was.
  lemma {:induction false} NothingOn(t: Table, b: Book, fd: int)
    requires Inv(t, b) && !Taken(t.ops, fd)
    ensures Watchers(t, b, fd) == {}
  {
  }

  // A read and a write of one connection, submitted together and about to be
  // tried.
  lemma {:induction false} BothSubmitted(fd: int) returns (t: Table, b: Book)
    ensures Inv(t, b) && b.lost == {} && b.armed == {} && b.detached == [0, 1]
    ensures t.ops[0].action == Read && t.ops[0].fd == fd && t.ops[1].action == Write && t.ops[1].fd == fd
    ensures |t.ops| > 1 && |b.place| == |t.ops| && b.place[1] == Detached
    ensures forall i :: 0 <= i < |b.place| ==> b.place[i] != Running
  {
    hide ListsValid, KernelValid, TicketsValid;
    var t0, b0 := InitialTable(), InitialBook();
    InitialInv();
    SubmitKeeps(t0, b0, Read, fd);
    var t1, b1 := SubmitTable(t0, Read, fd), SubmitBook(b0);
    assert b1.free[0] == 1 && b1.submitted == [0] && t1.submittedTail == 0;
    SubmitKeeps(t1, b1, Write, fd);
    var t2, b2 := SubmitTable(t1, Write, fd), SubmitBook(b1);
    assert b2.submitted == [0, 1];
    DetachKeeps(t2, b2);
    t, b := DetachTable(t2), DetachBook(b2);
  }

  // A reachable case: a read and a write of one connection, submitted together
  // and both told to wait, as a peer of the swarm keeps them.
  lemma {:induction false} ReadLostToWrite(fd: int) returns (t: Table, b: Book)
    ensures Inv(t, b) && b.lost == {} && b.armed == {0} && b.place[1] == Running && CanWait(t.ops[1].action)
    ensures ArmBook(t, b, 1).lost == {0}
  {
    hide ListsValid, KernelValid, TicketsValid;
    var t3, b3 := BothSubmitted(fd);
    BeginKeeps(t3, b3);
    var b4 := BeginBook(b3);
    assert b4.place[0] == Running && b4.armed == {} && b4.lost == {};
    ArmKeeps(t3, b4, 0);
    var t5, b5 := ArmTable(t3), ArmBook(t3, b4, 0);
    assert Watchers(t3, b4, fd) == {};
    assert b5.armed == {0} && b5.lost == {} && b5.detached == [1];
    BeginKeeps(t5, b5);
    t, b := t5, BeginBook(b5);
    assert Watchers(t, b, fd) == {0};
  }
}
