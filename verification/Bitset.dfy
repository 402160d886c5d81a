// A 64 bit word as a set of bit indices, for the pool of peer slots.
module Bitset {
  const BITS: nat := 64

  type Word = bv64

  // Bit `k` alone; none past the width.
  function Mask(k: nat): Word {
    if k == 0 then 1 else Mask(k - 1) << 1
  }

  function With(w: Word, n: Word): Word {
    w | n
  }

  function Without(w: Word, n: Word): Word {
    w & !n
  }

  predicate Meets(w: Word, n: Word) {
    w & n != 0
  }

  predicate Disjoint(m: Word, n: Word) {
    m & n == 0
  }

  predicate Within(m: Word, n: Word) {
    m & n == m
  }

  predicate Has(w: Word, k: nat) {
    Meets(w, Mask(k))
  }

  // All bits below `k`.
  function Below(k: nat): Word {
    if k == 0 then 0 else With(Below(k - 1), Mask(k - 1))
  }

  lemma {:induction false} ShiftedBit(m: Word, b: Word)
    requires b == m - 1 && m != 0 && m & b == 0
    ensures b | m == (m << 1) - 1
    ensures (m << 1) & (b | m) == 0
  {
  }

  lemma {:induction false} MaskValues()
    ensures Mask(63) == 0x8000_0000_0000_0000
  {
    assert Mask(4) == 0x10;
    assert Mask(8) == 0x100;
    assert Mask(12) == 0x1000;
    assert Mask(16) == 0x1_0000;
    assert Mask(20) == 0x10_0000;
    assert Mask(24) == 0x100_0000;
    assert Mask(28) == 0x1000_0000;
    assert Mask(32) == 0x1_0000_0000;
    assert Mask(36) == 0x10_0000_0000;
    assert Mask(40) == 0x100_0000_0000;
    assert Mask(44) == 0x1000_0000_0000;
    assert Mask(48) == 0x1_0000_0000_0000;
    assert Mask(52) == 0x10_0000_0000_0000;
    assert Mask(56) == 0x100_0000_0000_0000;
    assert Mask(60) == 0x1000_0000_0000_0000;
  }

  // A bit still inside the word is not zero: shifting it to the end gives the
  // top bit.
  lemma {:induction false} MaskNonZero(k: nat)
    requires k < BITS
    ensures Mask(k) != 0
    decreases BITS - k
  {
    if k == BITS - 1 {
      MaskValues();
    } else {
      MaskNonZero(k + 1);
      assert Mask(k + 1) == Mask(k) << 1;
      ShiftZero(Mask(k));
    }
  }

  lemma {:induction false} ShiftZero(m: Word)
    ensures m << 1 != 0 ==> m != 0
  {
  }

  lemma {:induction false} BelowIs(k: nat)
    requires k <= BITS
    ensures Below(k) == Mask(k) - 1
    ensures Mask(k) & Below(k) == 0
  {
    if k == 0 {
    } else {
      BelowIs(k - 1);
      BelowNext(k);
    }
  }

  lemma {:induction false} BelowNext(k: nat)
    requires 0 < k <= BITS
    requires Below(k - 1) == Mask(k - 1) - 1 && Mask(k - 1) & Below(k - 1) == 0
    ensures Below(k) == Mask(k) - 1 && Mask(k) & Below(k) == 0
  {
    MaskNonZero(k - 1);
    ShiftedBit(Mask(k - 1), Below(k - 1));
    assert Below(k) == Below(k - 1) | Mask(k - 1) && Mask(k) == Mask(k - 1) << 1;
  }

  lemma {:induction false} BelowAll()
    ensures Below(BITS) == 0xFFFF_FFFF_FFFF_FFFF
  {
    BelowIs(BITS);
    MaskValues();
    assert Mask(64) == Mask(63) << 1;
  }

  lemma {:induction false} MaskWithinBelow(j: nat, k: nat)
    requires j < k <= BITS
    ensures Within(Mask(j), Below(k))
  {
    hide Mask, With, Within;
    if j == k - 1 {
      Absorb(Mask(j), Below(j));
    } else {
      MaskWithinBelow(j, k - 1);
      Widen(Mask(j), Below(k - 1), Mask(k - 1));
    }
  }

  lemma {:induction false} Absorb(m: Word, b: Word)
    ensures Within(m, With(b, m))
  {
  }

  lemma {:induction false} Widen(m: Word, b: Word, c: Word)
    requires Within(m, b)
    ensures Within(m, With(b, c))
  {
  }

  lemma {:induction false} Apart(m: Word, n: Word, b: Word)
    requires Within(m, b) && Disjoint(n, b)
    ensures Disjoint(m, n)
  {
  }

  lemma {:induction false} BelowApart(k: nat)
    requires k <= BITS
    ensures Disjoint(Mask(k), Below(k))
  {
    hide Mask, Below;
    BelowIs(k);
  }

  lemma {:induction false} MasksApart(j: nat, k: nat)
    requires j < k < BITS
    ensures Disjoint(Mask(j), Mask(k))
  {
    hide *;
    MaskWithinBelow(j, k);
    BelowApart(k);
    Apart(Mask(j), Mask(k), Below(k));
  }

  lemma {:induction false} Turned(m: Word, n: Word)
    requires Disjoint(m, n)
    ensures Disjoint(n, m)
  {
  }

  lemma {:induction false} OrKeeps(w: Word, m: Word, n: Word)
    requires Disjoint(m, n)
    ensures Meets(With(w, n), m) == Meets(w, m)
  {
  }

  lemma {:induction false} ClearKeeps(w: Word, m: Word, n: Word)
    requires Disjoint(m, n)
    ensures Meets(Without(w, n), m) == Meets(w, m)
  {
  }

  lemma {:induction false} OtherBits(w: Word, k: nat, j: nat)
    requires k < BITS && j < BITS && j != k
    ensures Has(With(w, Mask(k)), j) == Has(w, j)
    ensures Has(Without(w, Mask(k)), j) == Has(w, j)
  {
    hide Mask, Meets, With, Without, Disjoint;
    var m, n := Mask(j), Mask(k);
    if j < k {
      MasksApart(j, k);
    } else {
      MasksApart(k, j);
      Turned(n, m);
    }
    OrKeeps(w, m, n);
    ClearKeeps(w, m, n);
  }

  lemma {:induction false} ThisBit(w: Word, k: nat)
    requires k < BITS
    ensures Has(With(w, Mask(k)), k) && !Has(Without(w, Mask(k)), k)
  {
    hide Mask, Meets, With, Without;
    var n := Mask(k);
    MaskNonZero(k);
    SetSelf(w, n);
  }

  // Setting and clearing a bit touch that bit alone.
  lemma {:induction false} SetAndClear(w: Word, k: nat, j: nat)
    requires k < BITS && j < BITS
    ensures Has(With(w, Mask(k)), j) <==> Has(w, j) || j == k
    ensures Has(Without(w, Mask(k)), j) <==> Has(w, j) && j != k
  {
    hide Mask, Has, With, Without;
    if j != k {
      OtherBits(w, k, j);
    } else {
      ThisBit(w, k);
    }
  }

  lemma {:induction false} SetSelf(w: Word, n: Word)
    requires n != 0
    ensures Meets(With(w, n), n) && !Meets(Without(w, n), n)
  {
  }

  function Complement(w: Word): Word {
    !w
  }

  lemma {:induction false} ComplementHas(w: Word, k: nat)
    requires k < BITS
    ensures Has(Complement(w), k) <==> !Has(w, k)
  {
    hide Mask, Complement, Meets;
    MaskSingle(k);
    NotWord(w, Mask(k));
  }

  predicate Single(n: Word) {
    n != 0 && n & (n - 1) == 0
  }

  lemma {:induction false} MaskSingle(k: nat)
    requires k < BITS
    ensures Single(Mask(k))
  {
    hide Mask, Below;
    MaskNonZero(k);
    BelowIs(k);
  }

  lemma {:induction false} NotWord(w: Word, n: Word)
    requires Single(n)
    ensures Meets(Complement(w), n) <==> !Meets(w, n)
  {
    NotBit(w, n);
  }

  lemma {:induction false} NotBit(w: Word, n: Word)
    requires n != 0 && n & (n - 1) == 0
    ensures !w & n != 0 <==> w & n == 0
  {
  }

  lemma {:induction false} EmptyBelow(w: Word, k: nat)
    requires k <= BITS && forall j: nat :: j < k ==> !Has(w, j)
    ensures !Meets(w, Below(k))
  {
    hide Mask, Meets, With;
    if k > 0 {
      EmptyBelow(w, k - 1);
      assert !Has(w, k - 1);
      OrApart(w, Below(k - 1), Mask(k - 1));
    } else {
      MeetsNone(w);
    }
  }

  lemma {:induction false} MeetsNone(w: Word)
    ensures !Meets(w, 0)
  {
  }

  lemma {:induction false} OrApart(w: Word, b: Word, c: Word)
    requires !Meets(w, b) && !Meets(w, c)
    ensures !Meets(w, With(b, c))
  {
  }

  lemma {:induction false} AllOnes(w: Word)
    ensures w & 0xFFFF_FFFF_FFFF_FFFF == w
  {
  }

  lemma {:induction false} OneBit(w: Word, v: Word, n: Word)
    requires Single(n)
    ensures Meets(Without(w, v), n) <==> Meets(w, n) && !Meets(v, n)
  {
    hide Without;
    BitOrNone(v, n);
    if !Meets(w, n) {
      NeverThere(w, v, n);
    } else if Meets(v, n) {
      TakenOut(w, v, n);
    } else {
      Turned(v, n);
      ClearKeeps(w, n, v);
    }
  }

  lemma {:induction false} BitOrNone(w: Word, n: Word)
    requires Single(n)
    ensures Meets(w, n) ==> w & n == n
  {
  }

  lemma {:induction false} NeverThere(w: Word, v: Word, n: Word)
    requires !Meets(w, n)
    ensures !Meets(Without(w, v), n)
  {
  }

  lemma {:induction false} TakenOut(w: Word, v: Word, n: Word)
    requires v & n == n
    ensures !Meets(Without(w, v), n)
  {
  }

  lemma {:induction false} WithoutHas(w: Word, v: Word, k: nat)
    requires k < BITS
    ensures Has(Without(w, v), k) <==> Has(w, k) && !Has(v, k)
  {
    hide Mask, Without, Meets;
    MaskSingle(k);
    OneBit(w, v, Mask(k));
  }

  // A word is zero exactly when it has no bit.
  lemma {:induction false} ZeroIsEmpty(w: Word)
    ensures w == 0 <==> forall k: nat :: k < BITS ==> !Has(w, k)
  {
    hide Mask;
    if forall k: nat :: k < BITS ==> !Has(w, k) {
      EmptyBelow(w, BITS);
      BelowAll();
      AllOnes(w);
    }
  }

  // The compiler's find-first-set: one more than the lowest bit, or zero.
  function Ffs(w: Word): (r: nat)
    ensures r <= BITS
    ensures r > 0 ==> Has(w, r - 1) && forall j: nat :: j < r - 1 ==> !Has(w, j)
    ensures r == 0 ==> forall j: nat :: j < BITS ==> !Has(w, j)
  {
    FfsFrom(w, 0)
  }

  function FfsFrom(w: Word, k: nat): (r: nat)
    requires k <= BITS && forall j: nat :: j < k ==> !Has(w, j)
    ensures r <= BITS
    ensures r > 0 ==> Has(w, r - 1) && forall j: nat :: j < r - 1 ==> !Has(w, j)
    ensures r == 0 ==> forall j: nat :: j < BITS ==> !Has(w, j)
    decreases BITS - k
  {
    if k == BITS then 0 else if Has(w, k) then k + 1 else FfsFrom(w, k + 1)
  }
}
