// The pool of peer slots (torrent.c): a bitset of sixteen words that stands for
// the set of occupied slots.
module PeerPool {
  import opened Bytes
  import opened Bitset
  import opened PeerHistory

  const GROUPS: nat := 16
  const SLOTS: nat := 1024

  class Pool {
    const occupied: array<Word>

    // What the bitset stands for, and who has left.
    ghost var members: set<nat>
    ghost var departed: seq<Departed>

    ghost predicate Valid()
      reads this, occupied
    {
      && occupied.Length == GROUPS
      && (forall m | m in members :: m < SLOTS)
      && forall g: nat, b: nat :: g < GROUPS && b < BITS ==> (g * BITS + b in members <==> Has(occupied[g], b))
    }

    constructor ()
      ensures Valid() && members == {} && departed == [] && fresh(occupied)
    {
      occupied := new Word[GROUPS](_ => 0);
      members := {};
      departed := [];
      new;
      forall g: nat, b: nat | g < GROUPS && b < BITS ensures !Has(occupied[g], b) {
        ZeroIsEmpty(0);
      }
    }

    lemma {:induction false} Words()
      requires Valid()
      ensures occupied.Length == GROUPS
    {
    }

    // The lowest free slot.
    method Acquire() returns (slot: Option<nat>)
      requires Valid()
      modifies this`members, occupied
      ensures Valid()
      ensures slot.None? ==> members == old(members) && forall j: nat :: j < SLOTS ==> j in members
      ensures slot.Some? ==>
                && slot.value < SLOTS && slot.value !in old(members)
                && members == old(members) + {slot.value}
                && forall j: nat :: j < slot.value ==> j in old(members)
    {
      hide Has;
      for i := 0 to GROUPS
        invariant Valid() && members == old(members)
        invariant forall h: nat :: h < GROUPS ==> occupied[h] == old(occupied[h])
        invariant forall j: nat :: j < i * BITS ==> j in members
      {
        var free := Ffs(Complement(occupied[i]));
        if free == 0 {
          GroupFull(i);
        } else {
          var bit := free - 1;
          BelowFree(i, bit);
          occupied[i] := With(occupied[i], Mask(bit));
          members := members + {i * BITS + bit};
          Kept(old(occupied[..]), old(members), i, bit, true);
          slot := Some(i * BITS + bit);
          return;
        }
      }
      slot := None;
    }

    lemma {:induction false} GroupFull(i: nat)
      requires Valid() && i < GROUPS && Ffs(Complement(occupied[i])) == 0
      ensures forall j: nat :: i * BITS <= j < (i + 1) * BITS ==> j in members
    {
      hide Has, Complement;
      forall j: nat | i * BITS <= j < (i + 1) * BITS ensures j in members {
        var b: nat := j - i * BITS;
        ComplementHas(occupied[i], b);
        assert i * BITS + b in members;
      }
    }

    lemma {:induction false} BelowFree(i: nat, bit: nat)
      requires Valid() && i < GROUPS && Ffs(Complement(occupied[i])) == bit + 1
      ensures bit < BITS && i * BITS + bit !in members
      ensures forall j: nat :: i * BITS <= j < i * BITS + bit ==> j in members
    {
      hide Has, Complement;
      ComplementHas(occupied[i], bit);
      forall j: nat | i * BITS <= j < i * BITS + bit ensures j in members {
        var b: nat := j - i * BITS;
        ComplementHas(occupied[i], b);
        assert i * BITS + b in members;
      }
    }

    // One bit changed is one member changed.
    lemma {:induction false} Kept(before: seq<Word>, was: set<nat>, g: nat, b: nat, on: bool)
      requires |before| == GROUPS == occupied.Length && g < GROUPS && b < BITS
      requires forall m | m in was :: m < SLOTS
      requires forall h: nat, c: nat :: h < GROUPS && c < BITS ==> (h * BITS + c in was <==> Has(before[h], c))
      requires forall h: nat :: h < GROUPS && h != g ==> occupied[h] == before[h]
      requires occupied[g] == if on then With(before[g], Mask(b)) else Without(before[g], Mask(b))
      requires members == if on then was + {g * BITS + b} else was - {g * BITS + b}
      ensures Valid()
    {
      hide Has, With, Without, Mask;
      forall h: nat, c: nat | h < GROUPS && c < BITS ensures h * BITS + c in members <==> Has(occupied[h], c) {
        SetAndClear(before[g], b, c);
        assert h * BITS + c in was <==> Has(before[h], c);
        if h != g {
          assert h * BITS + c != g * BITS + b;
        }
      }
    }

    // Gives an occupied slot back, with what its connection had been through.
    method Release(slot: nat, ghost gone: Departed)
      requires Valid() && slot in members
      modifies this, occupied
      ensures Valid() && members == old(members) - {slot} && departed == old(departed) + [gone]
    {
      hide Has;
      var group, bit := slot / BITS, slot % BITS;
      assert group * BITS + bit == slot;
      assert Has(occupied[group], bit);
      occupied[group] := Without(occupied[group], Mask(bit));
      members := members - {slot};
      departed := departed + [gone];
      Kept(old(occupied[..]), old(members), group, bit, false);
    }
  }
}
