// The fixed pool of lib.c: chunks of one size, the free ones linked through
// their own first words.
module FreeList {
  import opened Bytes
  import opened ArenaAllocator
  import opened Counting

  const NULL: int := -1

  // What a chunk takes up: room for a link, and the next one aligned.
  function RealSize(size: nat): (r: nat)
    ensures r >= size && r >= WORD && r % WORD == 0 && r < (if size < WORD then WORD else size) + WORD
  {
    AlignUp(if size < WORD then WORD else size)
  }

  function Front(free: seq<nat>): int {
    if free == [] then NULL else free[0]
  }

  // A chunk's bytes: the first word, a link while it is free and its owner's
  // while it is not, and the rest.
  datatype Chunk = Chunk(first: int, rest: Bytes)

  function Blank(size: nat): Chunk
    requires size >= WORD
  {
    Chunk(0, Zeros(size - WORD))
  }

  // From the first of `free` to the last by way of the words.
  ghost predicate Linked(chunks: seq<Chunk>, free: seq<nat>) {
    forall k :: 0 <= k < |free| ==> free[k] < |chunks| && chunks[free[k]].first == Front(free[k + 1..])
  }

  lemma {:induction false} LinkedTail(chunks: seq<Chunk>, free: seq<nat>)
    requires Linked(chunks, free) && free != []
    ensures Linked(chunks, free[1..])
  {
    forall k | 0 <= k < |free| - 1
      ensures free[1..][k] < |chunks| && chunks[free[1..][k]].first == Front(free[1..][k + 1..])
    {
      assert free[1..][k] == free[k + 1] && free[1..][k + 1..] == free[k + 2..];
    }
  }

  lemma {:induction false} LinkedAside(chunks: seq<Chunk>, free: seq<nat>, i: nat, c: Chunk)
    requires Linked(chunks, free) && i < |chunks| && i !in free
    ensures Linked(chunks[i := c], free)
  {
    forall k | 0 <= k < |free| ensures free[k] < |chunks| && chunks[i := c][free[k]].first == Front(free[k + 1..]) {
      assert free[k] in free;
    }
  }

  lemma {:induction false} LinkedBefore(chunks: seq<Chunk>, free: seq<nat>, i: nat)
    requires Linked(chunks, free) && i < |chunks| && chunks[i].first == Front(free)
    ensures Linked(chunks, [i] + free)
  {
    var longer := [i] + free;
    forall k | 0 <= k < |longer| ensures longer[k] < |chunks| && chunks[longer[k]].first == Front(longer[k + 1..]) {
      assert longer[k + 1..] == free[k..];
    }
  }

  // As many chunks as there are free and acquired.
  lemma {:induction false} Partition(count: nat, free: seq<nat>, acquired: set<nat>)
    requires Distinct(free) && (forall i | i in free :: i < count)
    requires forall i: nat :: i in acquired <==> i < count && i !in free
    ensures |free| + |acquired| == count
  {
    var frees := set i | i in free;
    DistinctCount(free, frees);
    BelowCount(count, frees + acquired);
    assert frees !! acquired;
  }

  // Every chunk is as large as every other.
  ghost predicate Sized(chunks: seq<Chunk>, size: nat) {
    size >= WORD && forall i :: 0 <= i < |chunks| ==> |chunks[i].rest| == size - WORD
  }

  class Pool {
    const size: nat
    var head: int
    const chunks: array<Chunk>

    ghost var free: seq<nat>
    ghost var acquired: set<nat>

    ghost predicate Valid()
      reads this, chunks
    {
      && Sized(chunks[..], size)
      && head == Front(free) && Linked(chunks[..], free) && Distinct(free)
      && (forall i | i in free :: i < chunks.Length)
      && forall i: nat :: i in acquired <==> i < chunks.Length && i !in free
    }

    // Every chunk starts free, in address order.
    constructor (count: nat, size: nat)
      requires count > 0 && size >= WORD
      ensures Valid() && chunks.Length == count && this.size == size && fresh(chunks) && acquired == {}
      ensures |free| == count && forall k :: 0 <= k < count ==> free[k] == k
    {
      this.size := size;
      chunks := new Chunk[count](_ => Blank(size));
      head := 0;
      new;
      for i := 0 to count
        invariant head == 0 && Sized(chunks[..], size)
        invariant forall k :: 0 <= k < i ==> chunks[k].first == if k + 1 < count then k + 1 else NULL
      {
        chunks[i] := chunks[i].(first := if i + 1 < count then i + 1 else NULL);
      }
      free := seq(count, i requires 0 <= i < count => i);
      acquired := {};
      forall k | 0 <= k < count ensures chunks[..][free[k]].first == Front(free[k + 1..]) {
        assert k + 1 < count ==> free[k + 1..][0] == k + 1;
      }
      forall i: nat | i < count ensures i in free {
        assert free[i] == i;
      }
    }

    // The chunk given back last, all of it zeroed, or nothing when every chunk is
    // acquired.
    method Acquire() returns (chunk: int)
      requires Valid()
      modifies this`head, this`free, this`acquired, chunks
      ensures Valid() && (chunk == NULL <==> old(free) == [])
      ensures chunk == NULL ==> acquired == old(acquired) && free == old(free) && chunks[..] == old(chunks[..])
      ensures chunk != NULL ==>
                && chunk == old(free)[0] && free == old(free)[1..] && acquired == old(acquired) + {chunk as nat}
                && chunk !in old(acquired) && 0 <= chunk < chunks.Length
                && chunks[..] == old(chunks[..])[chunk := Blank(size)]
    {
      if head == NULL {
        return NULL;
      }
      chunk := head;
      LinkedTail(chunks[..], free);
      assert chunks[..][free[0]].first == Front(free[1..]);
      head := chunks[chunk].first;
      LinkedAside(chunks[..], free[1..], chunk, Blank(size));
      chunks[chunk] := Blank(size);
      assert chunks[..] == old(chunks[..])[chunk := Blank(size)];
      free, acquired := free[1..], acquired + {chunk as nat};
    }

    // Only the first word of a chunk given back is written.
    method Release(chunk: nat)
      requires Valid() && chunk in acquired
      modifies this`head, this`free, this`acquired, chunks
      ensures Valid() && acquired == old(acquired) - {chunk} && free == [chunk] + old(free)
      ensures chunks[..] == old(chunks[..])[chunk := old(chunks[chunk]).(first := old(head))]
    {
      ghost var linked := chunks[chunk].(first := head);
      LinkedAside(chunks[..], free, chunk, linked);
      chunks[chunk] := chunks[chunk].(first := head);
      assert chunks[..] == old(chunks[..])[chunk := linked];
      LinkedBefore(chunks[..], free, chunk);
      head := chunk;
      free, acquired := [chunk] + free, acquired - {chunk};
    }

    // An owner writes anywhere in its own chunk, also over where the link was.
    method Scribble(chunk: nat, c: Chunk)
      requires Valid() && chunk in acquired && |c.rest| == size - WORD
      modifies chunks
      ensures Valid() && chunks[..] == old(chunks[..])[chunk := c]
    {
      LinkedAside(chunks[..], free, chunk, c);
      chunks[chunk] := c;
      assert chunks[..] == old(chunks[..])[chunk := c];
    }

    lemma {:induction false} Counts()
      requires Valid()
      ensures |free| + |acquired| == chunks.Length
    {
      Partition(chunks.Length, free, acquired);
    }
  }
}
