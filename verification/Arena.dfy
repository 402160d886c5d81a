// The bump allocator of lib.c, by its addresses alone.
module ArenaAllocator {
  import opened Bytes

  datatype Arena = Arena(start: nat, end: nat)

  const WORD: nat := 8

  function AlignUp(start: nat): (aligned: nat)
    ensures start <= aligned < start + WORD && aligned % WORD == 0
  {
    start + (WORD - start % WORD) % WORD
  }

  // `size` bytes at `start`, or nothing and the arena left as it was.
  function AllocFrom(arena: Arena, start: nat, size: nat): Option<Arena> {
    if start + size > arena.end then None else Some(Arena(start + size, arena.end))
  }

  function AllocBytes(arena: Arena, size: nat): Option<Arena> {
    AllocFrom(arena, arena.start, size)
  }

  function AllocWords(arena: Arena, size: nat): Option<Arena> {
    AllocFrom(arena, AlignUp(arena.start), size)
  }

  // What is handed out starts at the next multiple of eight, ends with the arena
  // where it was, and lies inside; and nothing is handed out exactly when it would
  // not.
  lemma {:induction false} AllocExact(arena: Arena, size: nat, pad: nat)
    requires pad < 8 && (arena.start + pad) % 8 == 0
    ensures AllocWords(arena, size) == None <==> arena.start + pad + size > arena.end
    ensures AllocWords(arena, size).Some? ==> AllocWords(arena, size).value == Arena(arena.start + pad + size, arena.end)
    ensures AllocBytes(arena, size) == None <==> arena.start + size > arena.end
    ensures AllocBytes(arena, size).Some? ==> AllocBytes(arena, size).value == Arena(arena.start + size, arena.end)
  {
    assert AlignUp(arena.start) == arena.start + pad;
  }
}
