// Powers of two, and the bit tricks lib.c rounds with.
module PowersOfTwo {
  import opened Bytes

  function Pow2(k: nat): (p: nat)
    ensures p >= 1
  {
    if k == 0 then 1 else 2 * Pow2(k - 1)
  }

  lemma {:induction false} Pow2Add(a: nat, b: nat)
    ensures Pow2(a + b) == Pow2(a) * Pow2(b)
  {
    if a == 0 {
    } else {
      Pow2Add(a - 1, b);
      assert Pow2(a + b) == 2 * Pow2(a - 1 + b);
      assert 2 * (Pow2(a - 1) * Pow2(b)) == 2 * Pow2(a - 1) * Pow2(b);
    }
  }

  lemma {:induction false} Pow2Monotone(a: nat, b: nat)
    requires a <= b
    ensures Pow2(a) <= Pow2(b)
    ensures a < b ==> Pow2(a) < Pow2(b)
  {
    if a == b {
    } else {
      Pow2Monotone(a, b - 1);
    }
  }

  lemma {:induction false} Pow2Doubles(k: nat)
    ensures Pow2(k + 1) == 2 * Pow2(k)
  {
  }

  lemma {:induction false} Pow2Values()
    ensures Pow2(14) == 0x4000 && Pow2(50) == 0x4_0000_0000_0000
    ensures Pow2(63) == 0x8000_0000_0000_0000
  {
    assert Pow2(4) == 0x10 && Pow2(8) == 0x100 && Pow2(12) == 0x1000;
    assert Pow2(14) == 0x4000;
    assert Pow2(18) == 0x4_0000 && Pow2(22) == 0x40_0000 && Pow2(26) == 0x400_0000;
    assert Pow2(30) == 0x4000_0000 && Pow2(34) == 0x4_0000_0000 && Pow2(38) == 0x40_0000_0000;
    assert Pow2(42) == 0x400_0000_0000 && Pow2(46) == 0x4000_0000_0000;
    assert Pow2(50) == 0x4_0000_0000_0000;
    assert Pow2(54) == 0x40_0000_0000_0000 && Pow2(58) == 0x400_0000_0000_0000;
    assert Pow2(62) == 0x4000_0000_0000_0000;
  }

  // ---------- Count trailing zeros ----------

  function Ctz(n: nat): nat
    requires n > 0
  {
    if n % 2 == 1 then 0 else 1 + Ctz(n / 2)
  }

  predicate IsPowerOfTwo(n: nat) {
    n == 1 || (n > 0 && n % 2 == 0 && IsPowerOfTwo(n / 2))
  }

  // On a power of two, and only there, counting zeros is taking the logarithm.
  lemma {:induction false} CtzIsLog2(n: nat)
    requires n > 0
    ensures IsPowerOfTwo(n) <==> n == Pow2(Ctz(n))
  {
    if n % 2 == 1 {
    } else {
      CtzIsLog2(n / 2);
    }
  }

  lemma {:induction false} CtzOfPow2(k: nat)
    ensures Ctz(Pow2(k)) == k && IsPowerOfTwo(Pow2(k))
  {
    if k == 0 {
    } else {
      CtzOfPow2(k - 1);
    }
  }

  // The depth of the smallest perfect tree with at least `n` leaves.
  function Log2Ceil(n: nat): (d: nat)
    requires n > 0
  {
    if n == 1 then 0 else 1 + Log2Ceil((n + 1) / 2)
  }

  lemma {:induction false} Log2CeilIs(n: nat)
    requires n > 0
    ensures n <= Pow2(Log2Ceil(n))
    ensures n > 1 ==> Log2Ceil(n) > 0 && Pow2(Log2Ceil(n) - 1) < n
  {
    if n == 1 {
    } else {
      Log2CeilIs((n + 1) / 2);
    }
  }

  lemma {:induction false} Log2CeilUnique(n: nat, d: nat)
    requires n > 0 && n <= Pow2(d) && (d > 0 ==> Pow2(d - 1) < n)
    ensures Log2Ceil(n) == d
  {
    Log2CeilIs(n);
    var e := Log2Ceil(n);
    if e < d {
      Pow2Monotone(e, d - 1);
    } else if d < e {
      Pow2Monotone(d, e - 1);
    }
  }

  // ---------- Bitwise or, and the smear ----------

  function Or(a: nat, b: nat): nat {
    if a == 0 && b == 0 then 0
    else 2 * Or(a / 2, b / 2) + if a % 2 == 1 || b % 2 == 1 then 1 else 0
  }

  lemma {:induction false} OrBounds(a: nat, b: nat, k: nat)
    requires a < Pow2(k) && b < Pow2(k)
    ensures a <= Or(a, b) && b <= Or(a, b) && Or(a, b) < Pow2(k)
  {
    if a == 0 && b == 0 {
    } else {
      OrBounds(a / 2, b / 2, k - 1);
    }
  }

  lemma {:induction false} OrZero(a: nat)
    ensures Or(a, 0) == a
  {
    if a == 0 {
    } else {
      OrZero(a / 2);
    }
  }

  function Shr(x: nat, k: nat): nat {
    ShrinkingDiv(x, Pow2(k));
    x / Pow2(k)
  }

  // A low part does not reach the high part.
  lemma {:induction false} OrSplit(h: nat, lo: nat, y: nat, j: nat)
    requires lo < Pow2(j) && y < Pow2(j)
    ensures Or(h * Pow2(j) + lo, y) == h * Pow2(j) + Or(lo, y)
  {
    if j == 0 {
      OrZero(h);
    } else {
      var q := Pow2(j - 1);
      var a := h * Pow2(j) + lo;
      assert h * Pow2(j) == 2 * (h * q);
      assert a / 2 == h * q + lo / 2 && a % 2 == lo % 2;
      OrSplit(h, lo / 2, y / 2, j - 1);
    }
  }

  // `x` is `k` bits wide and its top `m` bits are all ones.
  predicate Smeared(x: nat, k: nat, m: nat) {
    Pow2(k) - Pow2(if m < k then k - m else 0) <= x < Pow2(k)
  }

  lemma {:induction false} MulCompare(a: int, b: int, w: nat)
    requires w > 0
    ensures a <= b <==> a * w <= b * w
    ensures a < b <==> a * w < b * w
  {
    assert (b - a) * w == b * w - a * w;
  }

  lemma {:induction false} Distribute(a: int, b: int, w: int)
    ensures (a + b) * w == a * w + b * w
    ensures (a - b) * w == a * w - b * w
  {
  }

  lemma {:induction false} DivBounds(x: nat, w: nat, q: nat)
    requires w > 0
    ensures x < q * w ==> x / w < q
    ensures x >= q * w ==> x / w >= q
  {
    assert x == x / w * w + x % w;
    MulCompare(q, x / w, w);
    MulCompare(x / w + 1, q, w);
    Distribute(x / w, 1, w);
  }

  lemma {:induction false} ShiftedFill(x: nat, k: nat, m: nat)
    requires 0 < m < k && Smeared(x, k, m)
    ensures var j := k - m; var y := x / Pow2(m);
            Pow2(j) - Pow2(if m < j then j - m else 0) <= y < Pow2(j)
  {
    hide Pow2;
    var j, w := k - m, Pow2(m);
    var low := if m < j then Pow2(j - m) else 1;
    Pow2Add(j, m);
    Pow2Zero();
    Pow2Monotone(0, j);
    DivBounds(x, w, Pow2(j));
    if m < j {
      Pow2Add(j - m, m);
      Pow2Monotone(j - m, j);
    } else {
      Pow2Monotone(j, m);
    }
    Distribute(Pow2(j), low, w);
    assert x >= (Pow2(j) - low) * w;
    DivBounds(x, w, Pow2(j) - low);
  }

  lemma {:induction false} Pow2Zero()
    ensures Pow2(0) == 1
  {
  }

  lemma {:induction false} SmearStep(x: nat, k: nat, m: nat)
    requires m > 0 && Smeared(x, k, m)
    ensures Smeared(Or(x, Shr(x, m)), k, 2 * m)
  {
    hide Pow2, Or;
    var y := Shr(x, m);
    ShrinkingDiv(x, Pow2(m));
    OrBounds(x, y, k);
    Pow2Zero();
    if m < k {
      var p := Pow2(k - m);
      Pow2Add(m, k - m);
      ShiftedFill(x, k, m);
      var h := Pow2(m) - 1;
      Distribute(Pow2(m), 1, p);
      var lo := x - h * p;
      OrSplit(h, lo, y, k - m);
      OrBounds(lo, y, k - m);
    }
  }

  lemma {:induction false} ShrinkingDiv(x: nat, w: nat)
    requires w > 0
    ensures 0 <= x / w <= x
  {
    DivBounds(x, w, x + 1);
    Distribute(x, 1, w);
    MulCompare(1, w, x + 1);
  }

  lemma {:induction false} SmearStart(val: nat)
    requires 1 <= val <= 0x8000_0000_0000_0000
    ensures Smeared(val - 1, Log2Ceil(val), 1) && Log2Ceil(val) <= 63
  {
    Pow2Values();
    Log2CeilIs(val);
    var k := Log2Ceil(val);
    if k > 63 {
      Pow2Monotone(63, k - 1);
    }
  }

  lemma {:induction false} SmearEnd(v: nat, k: nat)
    requires Smeared(v, k, 64) && k <= 63
    ensures v + 1 == Pow2(k) <= 0x8000_0000_0000_0000
  {
    Pow2Values();
    Pow2Monotone(k, 63);
  }

  // Every bit below the highest is filled in, by doubling; one more is the
  // power of two. Past 2^63 it would not fit a word.
  method NextPowerOfTwo(val: u64) returns (r: u64)
    requires val <= 0x8000_0000_0000_0000
    ensures r == if val == 0 then 1 else Pow2(Log2Ceil(val))
  {
    hide Pow2, Or, Shr, Smeared, Log2Ceil;
    if val == 0 {
      return 1;
    }
    ghost var k := Log2Ceil(val);
    SmearStart(val);
    var v: nat := val - 1;
    SmearStep(v, k, 1);
    v := Or(v, Shr(v, 1));
    SmearStep(v, k, 2);
    v := Or(v, Shr(v, 2));
    SmearStep(v, k, 4);
    v := Or(v, Shr(v, 4));
    SmearStep(v, k, 8);
    v := Or(v, Shr(v, 8));
    SmearStep(v, k, 16);
    v := Or(v, Shr(v, 16));
    SmearStep(v, k, 32);
    v := Or(v, Shr(v, 32));
    SmearEnd(v, k);
    return v + 1;
  }

  // ---------- Rounding up ----------

  function CeilDiv(numerator: nat, denominator: nat): (q: nat)
    requires denominator > 0
  {
    numerator / denominator + if numerator % denominator != 0 then 1 else 0
  }

  lemma {:induction false} CeilDivIs(n: nat, d: nat)
    requires d > 0
    ensures n <= CeilDiv(n, d) * d < n + d
  {
    assert n == n / d * d + n % d;
    Distribute(n / d, 1, d);
  }

  lemma {:induction false} CeilDivUnique(n: nat, d: nat, q: nat)
    requires d > 0 && n <= q * d < n + d
    ensures CeilDiv(n, d) == q
  {
    hide CeilDiv;
    CeilDivIs(n, d);
    var c := CeilDiv(n, d);
    MulCompare(c + 1, q, d);
    MulCompare(q + 1, c, d);
    Distribute(c, 1, d);
    Distribute(q, 1, d);
  }

  // Rounding up twice is rounding up once.
  lemma {:induction false} CeilDivTwice(n: nat, a: nat, b: nat)
    requires a > 0 && b > 0
    ensures a * b > 0
    ensures CeilDiv(CeilDiv(n, a), b) == CeilDiv(n, a * b)
  {
    hide CeilDiv;
    MulCompare(0, a, b);
    var m := CeilDiv(n, a);
    var q := CeilDiv(m, b);
    CeilDivIs(n, a);
    CeilDivIs(m, b);
    var t := q * b;
    MulCompare(m, t, a);
    MulCompare(t, m - 1 + b, a);
    Distribute(m - 1, b, a);
    Distribute(m, 1, a);
    Reorder(q, a, b);
    CeilDivUnique(n, a * b, q);
  }

  lemma {:induction false} Reorder(q: int, a: int, b: int)
    ensures q * (a * b) == q * b * a && b * a == a * b
  {
  }
}
