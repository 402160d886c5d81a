// The digest of "abc", step by step: the worked example the National Institute of
// Standards and Technology publishes beside FIPS 180-4. Every constant and every
// function of the rounds takes part in it.
module Sha256Example {
  import opened Bytes
  import opened Sha256

  function Block(): (b: Bytes)
    ensures |b| == CBLOCK
  {
    [97, 98, 99, 0x80] + Zeros(59) + [24]
  }

  // Rotation by each of the distances of section 4.1.2.
  function R2(x: bv32): bv32 { (x >> 2) | (x << 30) }
  function R6(x: bv32): bv32 { (x >> 6) | (x << 26) }
  function R7(x: bv32): bv32 { (x >> 7) | (x << 25) }
  function R11(x: bv32): bv32 { (x >> 11) | (x << 21) }
  function R13(x: bv32): bv32 { (x >> 13) | (x << 19) }
  function R17(x: bv32): bv32 { (x >> 17) | (x << 15) }
  function R18(x: bv32): bv32 { (x >> 18) | (x << 14) }
  function R19(x: bv32): bv32 { (x >> 19) | (x << 13) }
  function R22(x: bv32): bv32 { (x >> 22) | (x << 10) }
  function R25(x: bv32): bv32 { (x >> 25) | (x << 7) }

  lemma {:induction false} Rotations(x: bv32)
    ensures RotR(x, 2) == R2(x) && RotR(x, 6) == R6(x) && RotR(x, 7) == R7(x) && RotR(x, 11) == R11(x)
    ensures RotR(x, 13) == R13(x) && RotR(x, 17) == R17(x) && RotR(x, 18) == R18(x)
    ensures RotR(x, 19) == R19(x) && RotR(x, 22) == R22(x) && RotR(x, 25) == R25(x)
  {
  }

  // The sums of that section, and a round and a word of the schedule with them.
  function Big0(x: bv32): bv32 { R2(x) ^ R13(x) ^ R22(x) }
  function Big1(x: bv32): bv32 { R6(x) ^ R11(x) ^ R25(x) }
  function Small0(x: bv32): bv32 { R7(x) ^ R18(x) ^ (x >> 3) }
  function Small1(x: bv32): bv32 { R17(x) ^ R19(x) ^ (x >> 10) }

  lemma {:induction false} Big0Is(x: bv32)
    ensures BigSigma0(x) == Big0(x)
  {
    hide RotR, R2, R13, R22;
    Rotations(x);
  }

  lemma {:induction false} Big1Is(x: bv32)
    ensures BigSigma1(x) == Big1(x)
  {
    hide RotR, R6, R11, R25;
    Rotations(x);
  }

  lemma {:induction false} Small0Is(x: bv32)
    ensures SmallSigma0(x) == Small0(x)
  {
    hide RotR, R7, R18;
    Rotations(x);
  }

  lemma {:induction false} Small1Is(x: bv32)
    ensures SmallSigma1(x) == Small1(x)
  {
    hide RotR, R17, R19;
    Rotations(x);
  }

  function PlainRound(v: Work, k: bv32, w: bv32): Work {
    var t1 := Add(Add(Add(Add(v.h, Big1(v.e)), Ch(v.e, v.f, v.g)), k), w);
    var t2 := Add(Big0(v.a), Maj(v.a, v.b, v.c));
    Work(Add(t1, t2), v.a, v.b, v.c, Add(v.d, t1), v.e, v.f, v.g)
  }

  function PlainWord(a: bv32, b: bv32, c: bv32, d: bv32): bv32 {
    Add(Add(Add(a, Small0(b)), c), Small1(d))
  }

  lemma {:induction false} RoundIsPlain(v: Work, k: bv32, w: bv32)
    ensures Round(v, k, w) == PlainRound(v, k, w)
  {
    hide BigSigma0, BigSigma1, SmallSigma0, SmallSigma1, Big0, Big1, Small0, Small1, Add, Ch, Maj;
    Big0Is(v.a);
    Big1Is(v.e);
  }

  lemma {:induction false} WordIsPlain(b: Bytes, t: nat)
    requires |b| == CBLOCK && 16 <= t < 64
    ensures Schedule(b, t)
         == PlainWord(Schedule(b, t - 16), Schedule(b, t - 15), Schedule(b, t - 7), Schedule(b, t - 2))
  {
    ScheduleStep(b, t);
    hide BigSigma0, BigSigma1, SmallSigma0, SmallSigma1, Big0, Big1, Small0, Small1, Add, Schedule;
    Small0Is(Schedule(b, t - 15));
    Small1Is(Schedule(b, t - 2));
  }

  // ---------- The constants and the choices ----------

  // `frac` is the first 32 bits behind the point of the cube root of `p`, whose
  // whole part is `whole`; and so for the square root.
  predicate CubeRoot(p: nat, whole: nat, frac: nat) {
    var r := whole * 0x1_0000_0000 + frac;
    && frac < 0x1_0000_0000
    && r * r * r <= p * 0x1_0000_0000_0000_0000_0000_0000 < (r + 1) * (r + 1) * (r + 1)
  }

  predicate SquareRoot(p: nat, whole: nat, frac: nat) {
    var r := whole * 0x1_0000_0000 + frac;
    && frac < 0x1_0000_0000
    && r * r <= p * 0x1_0000_0000_0000_0000 < (r + 1) * (r + 1)
  }

  // The roots of the primes from 2 to 19.
  lemma {:induction false} Roots0()
    ensures CubeRoot(2, 1, Constant(0) as int)
    ensures CubeRoot(3, 1, Constant(1) as int)
    ensures CubeRoot(5, 1, Constant(2) as int)
    ensures CubeRoot(7, 1, Constant(3) as int)
    ensures CubeRoot(11, 2, Constant(4) as int)
    ensures CubeRoot(13, 2, Constant(5) as int)
    ensures CubeRoot(17, 2, Constant(6) as int)
    ensures CubeRoot(19, 2, Constant(7) as int)
  {
    Constants0();
    assert CubeRoot(2, 1, 0x428a2f98);
    assert CubeRoot(3, 1, 0x71374491);
    assert CubeRoot(5, 1, 0xb5c0fbcf);
    assert CubeRoot(7, 1, 0xe9b5dba5);
    assert CubeRoot(11, 2, 0x3956c25b);
    assert CubeRoot(13, 2, 0x59f111f1);
    assert CubeRoot(17, 2, 0x923f82a4);
    assert CubeRoot(19, 2, 0xab1c5ed5);
    hide Constant, CubeRoot, SquareRoot;
    Rooted(2, 1, Constant(0), 0x428a2f98);
    Rooted(3, 1, Constant(1), 0x71374491);
    Rooted(5, 1, Constant(2), 0xb5c0fbcf);
    Rooted(7, 1, Constant(3), 0xe9b5dba5);
    Rooted(11, 2, Constant(4), 0x3956c25b);
    Rooted(13, 2, Constant(5), 0x59f111f1);
    Rooted(17, 2, Constant(6), 0x923f82a4);
    Rooted(19, 2, Constant(7), 0xab1c5ed5);
  }

  // The roots of the primes from 23 to 53.
  lemma {:induction false} Roots8()
    ensures CubeRoot(23, 2, Constant(8) as int)
    ensures CubeRoot(29, 3, Constant(9) as int)
    ensures CubeRoot(31, 3, Constant(10) as int)
    ensures CubeRoot(37, 3, Constant(11) as int)
    ensures CubeRoot(41, 3, Constant(12) as int)
    ensures CubeRoot(43, 3, Constant(13) as int)
    ensures CubeRoot(47, 3, Constant(14) as int)
    ensures CubeRoot(53, 3, Constant(15) as int)
  {
    Constants8();
    assert CubeRoot(23, 2, 0xd807aa98);
    assert CubeRoot(29, 3, 0x12835b01);
    assert CubeRoot(31, 3, 0x243185be);
    assert CubeRoot(37, 3, 0x550c7dc3);
    assert CubeRoot(41, 3, 0x72be5d74);
    assert CubeRoot(43, 3, 0x80deb1fe);
    assert CubeRoot(47, 3, 0x9bdc06a7);
    assert CubeRoot(53, 3, 0xc19bf174);
    hide Constant, CubeRoot, SquareRoot;
    Rooted(23, 2, Constant(8), 0xd807aa98);
    Rooted(29, 3, Constant(9), 0x12835b01);
    Rooted(31, 3, Constant(10), 0x243185be);
    Rooted(37, 3, Constant(11), 0x550c7dc3);
    Rooted(41, 3, Constant(12), 0x72be5d74);
    Rooted(43, 3, Constant(13), 0x80deb1fe);
    Rooted(47, 3, Constant(14), 0x9bdc06a7);
    Rooted(53, 3, Constant(15), 0xc19bf174);
  }

  // The roots of the primes from 59 to 89.
  lemma {:induction false} Roots16()
    ensures CubeRoot(59, 3, Constant(16) as int)
    ensures CubeRoot(61, 3, Constant(17) as int)
    ensures CubeRoot(67, 4, Constant(18) as int)
    ensures CubeRoot(71, 4, Constant(19) as int)
    ensures CubeRoot(73, 4, Constant(20) as int)
    ensures CubeRoot(79, 4, Constant(21) as int)
    ensures CubeRoot(83, 4, Constant(22) as int)
    ensures CubeRoot(89, 4, Constant(23) as int)
  {
    Constants16();
    assert CubeRoot(59, 3, 0xe49b69c1);
    assert CubeRoot(61, 3, 0xefbe4786);
    assert CubeRoot(67, 4, 0x0fc19dc6);
    assert CubeRoot(71, 4, 0x240ca1cc);
    assert CubeRoot(73, 4, 0x2de92c6f);
    assert CubeRoot(79, 4, 0x4a7484aa);
    assert CubeRoot(83, 4, 0x5cb0a9dc);
    assert CubeRoot(89, 4, 0x76f988da);
    hide Constant, CubeRoot, SquareRoot;
    Rooted(59, 3, Constant(16), 0xe49b69c1);
    Rooted(61, 3, Constant(17), 0xefbe4786);
    Rooted(67, 4, Constant(18), 0x0fc19dc6);
    Rooted(71, 4, Constant(19), 0x240ca1cc);
    Rooted(73, 4, Constant(20), 0x2de92c6f);
    Rooted(79, 4, Constant(21), 0x4a7484aa);
    Rooted(83, 4, Constant(22), 0x5cb0a9dc);
    Rooted(89, 4, Constant(23), 0x76f988da);
  }

  // The roots of the primes from 97 to 131.
  lemma {:induction false} Roots24()
    ensures CubeRoot(97, 4, Constant(24) as int)
    ensures CubeRoot(101, 4, Constant(25) as int)
    ensures CubeRoot(103, 4, Constant(26) as int)
    ensures CubeRoot(107, 4, Constant(27) as int)
    ensures CubeRoot(109, 4, Constant(28) as int)
    ensures CubeRoot(113, 4, Constant(29) as int)
    ensures CubeRoot(127, 5, Constant(30) as int)
    ensures CubeRoot(131, 5, Constant(31) as int)
  {
    Constants24();
    assert CubeRoot(97, 4, 0x983e5152);
    assert CubeRoot(101, 4, 0xa831c66d);
    assert CubeRoot(103, 4, 0xb00327c8);
    assert CubeRoot(107, 4, 0xbf597fc7);
    assert CubeRoot(109, 4, 0xc6e00bf3);
    assert CubeRoot(113, 4, 0xd5a79147);
    assert CubeRoot(127, 5, 0x06ca6351);
    assert CubeRoot(131, 5, 0x14292967);
    hide Constant, CubeRoot, SquareRoot;
    Rooted(97, 4, Constant(24), 0x983e5152);
    Rooted(101, 4, Constant(25), 0xa831c66d);
    Rooted(103, 4, Constant(26), 0xb00327c8);
    Rooted(107, 4, Constant(27), 0xbf597fc7);
    Rooted(109, 4, Constant(28), 0xc6e00bf3);
    Rooted(113, 4, Constant(29), 0xd5a79147);
    Rooted(127, 5, Constant(30), 0x06ca6351);
    Rooted(131, 5, Constant(31), 0x14292967);
  }

  // The roots of the primes from 137 to 173.
  lemma {:induction false} Roots32()
    ensures CubeRoot(137, 5, Constant(32) as int)
    ensures CubeRoot(139, 5, Constant(33) as int)
    ensures CubeRoot(149, 5, Constant(34) as int)
    ensures CubeRoot(151, 5, Constant(35) as int)
    ensures CubeRoot(157, 5, Constant(36) as int)
    ensures CubeRoot(163, 5, Constant(37) as int)
    ensures CubeRoot(167, 5, Constant(38) as int)
    ensures CubeRoot(173, 5, Constant(39) as int)
  {
    Constants32();
    assert CubeRoot(137, 5, 0x27b70a85);
    assert CubeRoot(139, 5, 0x2e1b2138);
    assert CubeRoot(149, 5, 0x4d2c6dfc);
    assert CubeRoot(151, 5, 0x53380d13);
    assert CubeRoot(157, 5, 0x650a7354);
    assert CubeRoot(163, 5, 0x766a0abb);
    assert CubeRoot(167, 5, 0x81c2c92e);
    assert CubeRoot(173, 5, 0x92722c85);
    hide Constant, CubeRoot, SquareRoot;
    Rooted(137, 5, Constant(32), 0x27b70a85);
    Rooted(139, 5, Constant(33), 0x2e1b2138);
    Rooted(149, 5, Constant(34), 0x4d2c6dfc);
    Rooted(151, 5, Constant(35), 0x53380d13);
    Rooted(157, 5, Constant(36), 0x650a7354);
    Rooted(163, 5, Constant(37), 0x766a0abb);
    Rooted(167, 5, Constant(38), 0x81c2c92e);
    Rooted(173, 5, Constant(39), 0x92722c85);
  }

  // The roots of the primes from 179 to 223.
  lemma {:induction false} Roots40()
    ensures CubeRoot(179, 5, Constant(40) as int)
    ensures CubeRoot(181, 5, Constant(41) as int)
    ensures CubeRoot(191, 5, Constant(42) as int)
    ensures CubeRoot(193, 5, Constant(43) as int)
    ensures CubeRoot(197, 5, Constant(44) as int)
    ensures CubeRoot(199, 5, Constant(45) as int)
    ensures CubeRoot(211, 5, Constant(46) as int)
    ensures CubeRoot(223, 6, Constant(47) as int)
  {
    Constants40();
    assert CubeRoot(179, 5, 0xa2bfe8a1);
    assert CubeRoot(181, 5, 0xa81a664b);
    assert CubeRoot(191, 5, 0xc24b8b70);
    assert CubeRoot(193, 5, 0xc76c51a3);
    assert CubeRoot(197, 5, 0xd192e819);
    assert CubeRoot(199, 5, 0xd6990624);
    assert CubeRoot(211, 5, 0xf40e3585);
    assert CubeRoot(223, 6, 0x106aa070);
    hide Constant, CubeRoot, SquareRoot;
    Rooted(179, 5, Constant(40), 0xa2bfe8a1);
    Rooted(181, 5, Constant(41), 0xa81a664b);
    Rooted(191, 5, Constant(42), 0xc24b8b70);
    Rooted(193, 5, Constant(43), 0xc76c51a3);
    Rooted(197, 5, Constant(44), 0xd192e819);
    Rooted(199, 5, Constant(45), 0xd6990624);
    Rooted(211, 5, Constant(46), 0xf40e3585);
    Rooted(223, 6, Constant(47), 0x106aa070);
  }

  // The roots of the primes from 227 to 263.
  lemma {:induction false} Roots48()
    ensures CubeRoot(227, 6, Constant(48) as int)
    ensures CubeRoot(229, 6, Constant(49) as int)
    ensures CubeRoot(233, 6, Constant(50) as int)
    ensures CubeRoot(239, 6, Constant(51) as int)
    ensures CubeRoot(241, 6, Constant(52) as int)
    ensures CubeRoot(251, 6, Constant(53) as int)
    ensures CubeRoot(257, 6, Constant(54) as int)
    ensures CubeRoot(263, 6, Constant(55) as int)
  {
    Constants48();
    assert CubeRoot(227, 6, 0x19a4c116);
    assert CubeRoot(229, 6, 0x1e376c08);
    assert CubeRoot(233, 6, 0x2748774c);
    assert CubeRoot(239, 6, 0x34b0bcb5);
    assert CubeRoot(241, 6, 0x391c0cb3);
    assert CubeRoot(251, 6, 0x4ed8aa4a);
    assert CubeRoot(257, 6, 0x5b9cca4f);
    assert CubeRoot(263, 6, 0x682e6ff3);
    hide Constant, CubeRoot, SquareRoot;
    Rooted(227, 6, Constant(48), 0x19a4c116);
    Rooted(229, 6, Constant(49), 0x1e376c08);
    Rooted(233, 6, Constant(50), 0x2748774c);
    Rooted(239, 6, Constant(51), 0x34b0bcb5);
    Rooted(241, 6, Constant(52), 0x391c0cb3);
    Rooted(251, 6, Constant(53), 0x4ed8aa4a);
    Rooted(257, 6, Constant(54), 0x5b9cca4f);
    Rooted(263, 6, Constant(55), 0x682e6ff3);
  }

  // The roots of the primes from 269 to 311.
  lemma {:induction false} Roots56()
    ensures CubeRoot(269, 6, Constant(56) as int)
    ensures CubeRoot(271, 6, Constant(57) as int)
    ensures CubeRoot(277, 6, Constant(58) as int)
    ensures CubeRoot(281, 6, Constant(59) as int)
    ensures CubeRoot(283, 6, Constant(60) as int)
    ensures CubeRoot(293, 6, Constant(61) as int)
    ensures CubeRoot(307, 6, Constant(62) as int)
    ensures CubeRoot(311, 6, Constant(63) as int)
  {
    Constants56();
    assert CubeRoot(269, 6, 0x748f82ee);
    assert CubeRoot(271, 6, 0x78a5636f);
    assert CubeRoot(277, 6, 0x84c87814);
    assert CubeRoot(281, 6, 0x8cc70208);
    assert CubeRoot(283, 6, 0x90befffa);
    assert CubeRoot(293, 6, 0xa4506ceb);
    assert CubeRoot(307, 6, 0xbef9a3f7);
    assert CubeRoot(311, 6, 0xc67178f2);
    hide Constant, CubeRoot, SquareRoot;
    Rooted(269, 6, Constant(56), 0x748f82ee);
    Rooted(271, 6, Constant(57), 0x78a5636f);
    Rooted(277, 6, Constant(58), 0x84c87814);
    Rooted(281, 6, Constant(59), 0x8cc70208);
    Rooted(283, 6, Constant(60), 0x90befffa);
    Rooted(293, 6, Constant(61), 0xa4506ceb);
    Rooted(307, 6, Constant(62), 0xbef9a3f7);
    Rooted(311, 6, Constant(63), 0xc67178f2);
  }

  lemma {:induction false} Rooted(p: nat, whole: nat, x: bv32, n: nat)
    requires x as int == n
    ensures CubeRoot(p, whole, n) ==> CubeRoot(p, whole, x as int)
    ensures SquareRoot(p, whole, n) ==> SquareRoot(p, whole, x as int)
  {
    hide CubeRoot, SquareRoot;
  }

  lemma {:induction false} InitialRoots()
    ensures SquareRoot(2, 1, InitialHash()[0] as int)
    ensures SquareRoot(3, 1, InitialHash()[1] as int)
    ensures SquareRoot(5, 2, InitialHash()[2] as int)
    ensures SquareRoot(7, 2, InitialHash()[3] as int)
    ensures SquareRoot(11, 3, InitialHash()[4] as int)
    ensures SquareRoot(13, 3, InitialHash()[5] as int)
    ensures SquareRoot(17, 4, InitialHash()[6] as int)
    ensures SquareRoot(19, 4, InitialHash()[7] as int)
  {
    assert SquareRoot(2, 1, 0x6a09e667);
    assert SquareRoot(3, 1, 0xbb67ae85);
    assert SquareRoot(5, 2, 0x3c6ef372);
    assert SquareRoot(7, 2, 0xa54ff53a);
    assert SquareRoot(11, 3, 0x510e527f);
    assert SquareRoot(13, 3, 0x9b05688c);
    assert SquareRoot(17, 4, 0x1f83d9ab);
    assert SquareRoot(19, 4, 0x5be0cd19);
    hide CubeRoot, SquareRoot;
    Rooted(2, 1, InitialHash()[0], 0x6a09e667);
    Rooted(3, 1, InitialHash()[1], 0xbb67ae85);
    Rooted(5, 2, InitialHash()[2], 0x3c6ef372);
    Rooted(7, 2, InitialHash()[3], 0xa54ff53a);
    Rooted(11, 3, InitialHash()[4], 0x510e527f);
    Rooted(13, 3, InitialHash()[5], 0x9b05688c);
    Rooted(17, 4, InitialHash()[6], 0x1f83d9ab);
    Rooted(19, 4, InitialHash()[7], 0x5be0cd19);
  }

  // Where `x` has a bit `Ch` is `y`, and elsewhere `z`.
  lemma {:induction false} ChBitwise(x: bv32, y: bv32, z: bv32)
    ensures Ch(x, y, z) & x == y & x
    ensures Ch(x, y, z) & !x == z & !x
  {
    ChInside(x, y, z);
  }

  lemma {:induction false} ChInside(x: bv32, y: bv32, z: bv32)
    ensures Ch(x, y, z) & x == y & x
  {
  }

  // `Maj` is what `x` and `y` agree on, and `z` where they do not.
  lemma {:induction false} MajBitwise(x: bv32, y: bv32, z: bv32)
    ensures Maj(x, y, z) & !(x ^ y) == x & !(x ^ y)
    ensures Maj(x, y, z) & (x ^ y) == z & (x ^ y)
  {
    MajAgreed(x, y, z);
  }

  lemma {:induction false} MajAgreed(x: bv32, y: bv32, z: bv32)
    ensures Maj(x, y, z) & !(x ^ y) == x & !(x ^ y)
  {
  }

  // ---------- The schedule ----------

  lemma {:induction false} WordOf(b: Bytes, t: nat, n: u32, w: bv32)
    requires |b| == CBLOCK && t < 16 && b[4 * t..4 * t + 4] == U32Bytes(n) && w as int == n
    ensures Schedule(b, t) == w
  {
    hide U32Bytes, U32FromBytes;
    U32RoundTrip(n, []);
    assert U32Bytes(n) + [] == U32Bytes(n);
    ScheduleStart(b, t);
  }

  lemma {:induction false} BlockEnds(b: Bytes)
    requires b == Block()
    ensures b[0..4] == U32Bytes(0x61626380) && b[60..64] == U32Bytes(24)
  {
    BlockNumbers();
    hide U32Bytes;
    assert b[0..4] == [97, 98, 99, 0x80] && b[60..64] == [0, 0, 0, 24];
  }

  lemma {:induction false} BlockNumbers()
    ensures U32Bytes(0x61626380) == [97, 98, 99, 0x80] && U32Bytes(24) == [0, 0, 0, 24]
  {
  }

  lemma {:induction false} BlockZero(b: Bytes, t: nat)
    requires b == Block() && 1 <= t < 15
    ensures b[4 * t..4 * t + 4] == U32Bytes(0)
  {
    assert U32Bytes(0) == [0, 0, 0, 0];
    assert b[4 * t] == 0 && b[4 * t + 1] == 0 && b[4 * t + 2] == 0 && b[4 * t + 3] == 0;
  }

  lemma {:induction false} Words0(b: Bytes)
    requires b == Block()
    ensures Schedule(b, 0) == 0x61626380 && Schedule(b, 15) == 24
    ensures forall t :: 1 <= t < 15 ==> Schedule(b, t) == 0
  {
    BlockEnds(b);
    hide Schedule, Block, U32Bytes;
    WordOf(b, 0, 0x61626380, 0x61626380);
    WordOf(b, 15, 24, 24);
    forall t | 1 <= t < 15 ensures Schedule(b, t) == 0 {
      BlockZero(b, t);
      WordOf(b, t, 0, 0);
    }
  }

  lemma {:induction false} Words16(b: Bytes)
    requires b == Block()
    ensures Schedule(b, 16) == 0x61626380
    ensures Schedule(b, 17) == 0x000f0000
    ensures Schedule(b, 18) == 0x7da86405
    ensures Schedule(b, 19) == 0x600003c6
  {
    hide Schedule, Block;
    Words0(b);
    WordIsPlain(b, 16);
    WordIsPlain(b, 17);
    WordIsPlain(b, 18);
    WordIsPlain(b, 19);
  }

  lemma {:induction false} Words20(b: Bytes)
    requires b == Block()
    ensures Schedule(b, 20) == 0x3e9d7b78
    ensures Schedule(b, 21) == 0x0183fc00
    ensures Schedule(b, 22) == 0x12dcbfdb
    ensures Schedule(b, 23) == 0xe2e2c38e
  {
    hide Schedule, Block;
    Words0(b);
    Words16(b);
    WordIsPlain(b, 20);
    WordIsPlain(b, 21);
    WordIsPlain(b, 22);
    WordIsPlain(b, 23);
  }

  lemma {:induction false} Words24(b: Bytes)
    requires b == Block()
    ensures Schedule(b, 24) == 0xc8215c1a
    ensures Schedule(b, 25) == 0xb73679a2
    ensures Schedule(b, 26) == 0xe5bc3909
    ensures Schedule(b, 27) == 0x32663c5b
  {
    hide Schedule, Block;
    Words0(b);
    Words16(b);
    Words20(b);
    WordIsPlain(b, 24);
    WordIsPlain(b, 25);
    WordIsPlain(b, 26);
    WordIsPlain(b, 27);
  }

  lemma {:induction false} Words28(b: Bytes)
    requires b == Block()
    ensures Schedule(b, 28) == 0x9d209d67
    ensures Schedule(b, 29) == 0xec8726cb
    ensures Schedule(b, 30) == 0x702138a4
    ensures Schedule(b, 31) == 0xd3b7973b
  {
    hide Schedule, Block;
    Words0(b);
    Words16(b);
    Words20(b);
    Words24(b);
    WordIsPlain(b, 28);
    WordIsPlain(b, 29);
    WordIsPlain(b, 30);
    WordIsPlain(b, 31);
  }

  lemma {:induction false} Words32(b: Bytes)
    requires b == Block()
    ensures Schedule(b, 32) == 0x93f5997f
    ensures Schedule(b, 33) == 0x3b68ba73
    ensures Schedule(b, 34) == 0xaff4ffc1
    ensures Schedule(b, 35) == 0xf10a5c62
  {
    hide Schedule, Block;
    Words16(b);
    Words20(b);
    Words24(b);
    Words28(b);
    WordIsPlain(b, 32);
    WordIsPlain(b, 33);
    WordIsPlain(b, 34);
    WordIsPlain(b, 35);
  }

  lemma {:induction false} Words36(b: Bytes)
    requires b == Block()
    ensures Schedule(b, 36) == 0x0a8b3996
    ensures Schedule(b, 37) == 0x72af830a
    ensures Schedule(b, 38) == 0x9409e33e
    ensures Schedule(b, 39) == 0x24641522
  {
    hide Schedule, Block;
    Words20(b);
    Words24(b);
    Words28(b);
    Words32(b);
    WordIsPlain(b, 36);
    WordIsPlain(b, 37);
    WordIsPlain(b, 38);
    WordIsPlain(b, 39);
  }

  lemma {:induction false} Words40(b: Bytes)
    requires b == Block()
    ensures Schedule(b, 40) == 0x9f47bf94
    ensures Schedule(b, 41) == 0xf0a64f5a
    ensures Schedule(b, 42) == 0x3e246a79
    ensures Schedule(b, 43) == 0x27333ba3
    ensures Schedule(b, 44) == 0x0c4763f2
    ensures Schedule(b, 45) == 0x840abf27
    ensures Schedule(b, 46) == 0x7a290d5d
    ensures Schedule(b, 47) == 0x065c43da
  {
    hide Schedule, Block;
    Words24(b);
    Words28(b);
    Words32(b);
    Words36(b);
    WordIsPlain(b, 40);
    WordIsPlain(b, 41);
    WordIsPlain(b, 42);
    WordIsPlain(b, 43);
    WordIsPlain(b, 44);
    WordIsPlain(b, 45);
    WordIsPlain(b, 46);
    WordIsPlain(b, 47);
  }

  lemma {:induction false} Words48(b: Bytes)
    requires b == Block()
    ensures Schedule(b, 48) == 0xfb3e89cb
    ensures Schedule(b, 49) == 0xcc7617db
    ensures Schedule(b, 50) == 0xb9e66c34
    ensures Schedule(b, 51) == 0xa9993667
    ensures Schedule(b, 52) == 0x84badedd
    ensures Schedule(b, 53) == 0xc21462bc
    ensures Schedule(b, 54) == 0x1487472c
    ensures Schedule(b, 55) == 0xb20f7a99
  {
    hide Schedule, Block;
    Words32(b);
    Words36(b);
    Words40(b);
    WordIsPlain(b, 48);
    WordIsPlain(b, 49);
    WordIsPlain(b, 50);
    WordIsPlain(b, 51);
    WordIsPlain(b, 52);
    WordIsPlain(b, 53);
    WordIsPlain(b, 54);
    WordIsPlain(b, 55);
  }

  lemma {:induction false} Words56(b: Bytes)
    requires b == Block()
    ensures Schedule(b, 56) == 0xef57b9cd
    ensures Schedule(b, 57) == 0xebe6b238
    ensures Schedule(b, 58) == 0x9fe3095e
    ensures Schedule(b, 59) == 0x78bc8d4b
    ensures Schedule(b, 60) == 0xa43fcf15
    ensures Schedule(b, 61) == 0x668b2ff8
    ensures Schedule(b, 62) == 0xeeaba2cc
    ensures Schedule(b, 63) == 0x12b1edeb
  {
    hide Schedule, Block;
    Words40(b);
    Words48(b);
    WordIsPlain(b, 56);
    WordIsPlain(b, 57);
    WordIsPlain(b, 58);
    WordIsPlain(b, 59);
    WordIsPlain(b, 60);
    WordIsPlain(b, 61);
    WordIsPlain(b, 62);
    WordIsPlain(b, 63);
  }

  // ---------- The rounds ----------

  lemma {:induction false} OneRound(b: Bytes, t: nat, v: Work, k: bv32, w: bv32, next: Work)
    requires b == Block() && t < 64 && Rounds(Working(InitialHash()), b, t) == v
    requires Constant(t) == k && Schedule(b, t) == w && PlainRound(v, k, w) == next
    ensures Rounds(Working(InitialHash()), b, t + 1) == next
  {
    hide Round, PlainRound, Schedule, Block, InitialHash, Constant;
    RoundsStep(Working(InitialHash()), b, t);
    RoundIsPlain(v, k, w);
  }

  lemma {:induction false} Constants0()
    ensures Constant(0) == 0x428a2f98 && Constant(1) == 0x71374491
         && Constant(2) == 0xb5c0fbcf && Constant(3) == 0xe9b5dba5
         && Constant(4) == 0x3956c25b && Constant(5) == 0x59f111f1
         && Constant(6) == 0x923f82a4 && Constant(7) == 0xab1c5ed5
  {
  }

  lemma {:induction false} Rounds8(b: Bytes)
    requires b == Block()
    ensures Rounds(Working(InitialHash()), b, 8)
         == Work(0x85a07b5f, 0xe5030380, 0x2b4209f5, 0x04409a6a, 0x0c657a79, 0x9b27a401, 0x714260ad, 0x43ada245)
  {
    hide Rounds, Schedule, Block, Working, InitialHash, Constant;
    Words0(b);
    Constants0();
    Rounds0(b);
    var v0 := Work(0x6a09e667, 0xbb67ae85, 0x3c6ef372, 0xa54ff53a, 0x510e527f, 0x9b05688c, 0x1f83d9ab, 0x5be0cd19);
    var v1 := Work(0x5d6aebcd, 0x6a09e667, 0xbb67ae85, 0x3c6ef372, 0xfa2a4622, 0x510e527f, 0x9b05688c, 0x1f83d9ab);
    var v2 := Work(0x5a6ad9ad, 0x5d6aebcd, 0x6a09e667, 0xbb67ae85, 0x78ce7989, 0xfa2a4622, 0x510e527f, 0x9b05688c);
    var v3 := Work(0xc8c347a7, 0x5a6ad9ad, 0x5d6aebcd, 0x6a09e667, 0xf92939eb, 0x78ce7989, 0xfa2a4622, 0x510e527f);
    var v4 := Work(0xd550f666, 0xc8c347a7, 0x5a6ad9ad, 0x5d6aebcd, 0x24e00850, 0xf92939eb, 0x78ce7989, 0xfa2a4622);
    var v5 := Work(0x04409a6a, 0xd550f666, 0xc8c347a7, 0x5a6ad9ad, 0x43ada245, 0x24e00850, 0xf92939eb, 0x78ce7989);
    var v6 := Work(0x2b4209f5, 0x04409a6a, 0xd550f666, 0xc8c347a7, 0x714260ad, 0x43ada245, 0x24e00850, 0xf92939eb);
    var v7 := Work(0xe5030380, 0x2b4209f5, 0x04409a6a, 0xd550f666, 0x9b27a401, 0x714260ad, 0x43ada245, 0x24e00850);
    var v8 := Work(0x85a07b5f, 0xe5030380, 0x2b4209f5, 0x04409a6a, 0x0c657a79, 0x9b27a401, 0x714260ad, 0x43ada245);
    OneRound(b, 0, v0, 0x428a2f98, 0x61626380, v1);
    OneRound(b, 1, v1, 0x71374491, 0x00000000, v2);
    OneRound(b, 2, v2, 0xb5c0fbcf, 0x00000000, v3);
    OneRound(b, 3, v3, 0xe9b5dba5, 0x00000000, v4);
    OneRound(b, 4, v4, 0x3956c25b, 0x00000000, v5);
    OneRound(b, 5, v5, 0x59f111f1, 0x00000000, v6);
    OneRound(b, 6, v6, 0x923f82a4, 0x00000000, v7);
    OneRound(b, 7, v7, 0xab1c5ed5, 0x00000000, v8);
  }

  lemma {:induction false} Constants8()
    ensures Constant(8) == 0xd807aa98 && Constant(9) == 0x12835b01
         && Constant(10) == 0x243185be && Constant(11) == 0x550c7dc3
         && Constant(12) == 0x72be5d74 && Constant(13) == 0x80deb1fe
         && Constant(14) == 0x9bdc06a7 && Constant(15) == 0xc19bf174
  {
  }

  lemma {:induction false} Rounds16(b: Bytes)
    requires b == Block()
    ensures Rounds(Working(InitialHash()), b, 16)
         == Work(0xb0fa238e, 0xc0645fde, 0xd932eb16, 0x87912990, 0x07590dcd, 0x0b92f20c, 0x745a48de, 0x1e578218)
  {
    hide Rounds, Schedule, Block, Working, InitialHash, Constant;
    Words0(b);
    Constants8();
    Rounds8(b);
    var v0 := Work(0x85a07b5f, 0xe5030380, 0x2b4209f5, 0x04409a6a, 0x0c657a79, 0x9b27a401, 0x714260ad, 0x43ada245);
    var v1 := Work(0x8e04ecb9, 0x85a07b5f, 0xe5030380, 0x2b4209f5, 0x32ca2d8c, 0x0c657a79, 0x9b27a401, 0x714260ad);
    var v2 := Work(0x8c87346b, 0x8e04ecb9, 0x85a07b5f, 0xe5030380, 0x1cc92596, 0x32ca2d8c, 0x0c657a79, 0x9b27a401);
    var v3 := Work(0x4798a3f4, 0x8c87346b, 0x8e04ecb9, 0x85a07b5f, 0x436b23e8, 0x1cc92596, 0x32ca2d8c, 0x0c657a79);
    var v4 := Work(0xf71fc5a9, 0x4798a3f4, 0x8c87346b, 0x8e04ecb9, 0x816fd6e9, 0x436b23e8, 0x1cc92596, 0x32ca2d8c);
    var v5 := Work(0x87912990, 0xf71fc5a9, 0x4798a3f4, 0x8c87346b, 0x1e578218, 0x816fd6e9, 0x436b23e8, 0x1cc92596);
    var v6 := Work(0xd932eb16, 0x87912990, 0xf71fc5a9, 0x4798a3f4, 0x745a48de, 0x1e578218, 0x816fd6e9, 0x436b23e8);
    var v7 := Work(0xc0645fde, 0xd932eb16, 0x87912990, 0xf71fc5a9, 0x0b92f20c, 0x745a48de, 0x1e578218, 0x816fd6e9);
    var v8 := Work(0xb0fa238e, 0xc0645fde, 0xd932eb16, 0x87912990, 0x07590dcd, 0x0b92f20c, 0x745a48de, 0x1e578218);
    OneRound(b, 8, v0, 0xd807aa98, 0x00000000, v1);
    OneRound(b, 9, v1, 0x12835b01, 0x00000000, v2);
    OneRound(b, 10, v2, 0x243185be, 0x00000000, v3);
    OneRound(b, 11, v3, 0x550c7dc3, 0x00000000, v4);
    OneRound(b, 12, v4, 0x72be5d74, 0x00000000, v5);
    OneRound(b, 13, v5, 0x80deb1fe, 0x00000000, v6);
    OneRound(b, 14, v6, 0x9bdc06a7, 0x00000000, v7);
    OneRound(b, 15, v7, 0xc19bf174, 0x00000018, v8);
  }

  lemma {:induction false} Constants16()
    ensures Constant(16) == 0xe49b69c1 && Constant(17) == 0xefbe4786
         && Constant(18) == 0x0fc19dc6 && Constant(19) == 0x240ca1cc
         && Constant(20) == 0x2de92c6f && Constant(21) == 0x4a7484aa
         && Constant(22) == 0x5cb0a9dc && Constant(23) == 0x76f988da
  {
  }

  lemma {:induction false} Rounds24(b: Bytes)
    requires b == Block()
    ensures Rounds(Working(InitialHash()), b, 24)
         == Work(0xc5d53d8d, 0xa7a3623f, 0xc2606d6d, 0x9dc68b63, 0xaa47c347, 0x49f5114a, 0xe1257970, 0x8ada8930)
  {
    hide Rounds, Schedule, Block, Working, InitialHash, Constant;
    Words16(b);
    Words20(b);
    Constants16();
    Rounds16(b);
    var v0 := Work(0xb0fa238e, 0xc0645fde, 0xd932eb16, 0x87912990, 0x07590dcd, 0x0b92f20c, 0x745a48de, 0x1e578218);
    var v1 := Work(0x21da9a9b, 0xb0fa238e, 0xc0645fde, 0xd932eb16, 0x8034229c, 0x07590dcd, 0x0b92f20c, 0x745a48de);
    var v2 := Work(0xc2fbd9d1, 0x21da9a9b, 0xb0fa238e, 0xc0645fde, 0x846ee454, 0x8034229c, 0x07590dcd, 0x0b92f20c);
    var v3 := Work(0xfe777bbf, 0xc2fbd9d1, 0x21da9a9b, 0xb0fa238e, 0xcc899961, 0x846ee454, 0x8034229c, 0x07590dcd);
    var v4 := Work(0xe1f20c33, 0xfe777bbf, 0xc2fbd9d1, 0x21da9a9b, 0xb0638179, 0xcc899961, 0x846ee454, 0x8034229c);
    var v5 := Work(0x9dc68b63, 0xe1f20c33, 0xfe777bbf, 0xc2fbd9d1, 0x8ada8930, 0xb0638179, 0xcc899961, 0x846ee454);
    var v6 := Work(0xc2606d6d, 0x9dc68b63, 0xe1f20c33, 0xfe777bbf, 0xe1257970, 0x8ada8930, 0xb0638179, 0xcc899961);
    var v7 := Work(0xa7a3623f, 0xc2606d6d, 0x9dc68b63, 0xe1f20c33, 0x49f5114a, 0xe1257970, 0x8ada8930, 0xb0638179);
    var v8 := Work(0xc5d53d8d, 0xa7a3623f, 0xc2606d6d, 0x9dc68b63, 0xaa47c347, 0x49f5114a, 0xe1257970, 0x8ada8930);
    OneRound(b, 16, v0, 0xe49b69c1, 0x61626380, v1);
    OneRound(b, 17, v1, 0xefbe4786, 0x000f0000, v2);
    OneRound(b, 18, v2, 0x0fc19dc6, 0x7da86405, v3);
    OneRound(b, 19, v3, 0x240ca1cc, 0x600003c6, v4);
    OneRound(b, 20, v4, 0x2de92c6f, 0x3e9d7b78, v5);
    OneRound(b, 21, v5, 0x4a7484aa, 0x0183fc00, v6);
    OneRound(b, 22, v6, 0x5cb0a9dc, 0x12dcbfdb, v7);
    OneRound(b, 23, v7, 0x76f988da, 0xe2e2c38e, v8);
  }

  lemma {:induction false} Constants24()
    ensures Constant(24) == 0x983e5152 && Constant(25) == 0xa831c66d
         && Constant(26) == 0xb00327c8 && Constant(27) == 0xbf597fc7
         && Constant(28) == 0xc6e00bf3 && Constant(29) == 0xd5a79147
         && Constant(30) == 0x06ca6351 && Constant(31) == 0x14292967
  {
  }

  lemma {:induction false} Rounds32(b: Bytes)
    requires b == Block()
    ensures Rounds(Working(InitialHash()), b, 32)
         == Work(0x73b33bf5, 0xea992a22, 0xa0060b30, 0x363482c9, 0xba591112, 0x0109ab3a, 0xade79437, 0x6112a3b7)
  {
    hide Rounds, Schedule, Block, Working, InitialHash, Constant;
    Words24(b);
    Words28(b);
    Constants24();
    Rounds24(b);
    var v0 := Work(0xc5d53d8d, 0xa7a3623f, 0xc2606d6d, 0x9dc68b63, 0xaa47c347, 0x49f5114a, 0xe1257970, 0x8ada8930);
    var v1 := Work(0x1c2c2838, 0xc5d53d8d, 0xa7a3623f, 0xc2606d6d, 0x2823ef91, 0xaa47c347, 0x49f5114a, 0xe1257970);
    var v2 := Work(0xcde8037d, 0x1c2c2838, 0xc5d53d8d, 0xa7a3623f, 0x14383d8e, 0x2823ef91, 0xaa47c347, 0x49f5114a);
    var v3 := Work(0xb62ec4bc, 0xcde8037d, 0x1c2c2838, 0xc5d53d8d, 0xc74c6516, 0x14383d8e, 0x2823ef91, 0xaa47c347);
    var v4 := Work(0x77d37528, 0xb62ec4bc, 0xcde8037d, 0x1c2c2838, 0xedffbff8, 0xc74c6516, 0x14383d8e, 0x2823ef91);
    var v5 := Work(0x363482c9, 0x77d37528, 0xb62ec4bc, 0xcde8037d, 0x6112a3b7, 0xedffbff8, 0xc74c6516, 0x14383d8e);
    var v6 := Work(0xa0060b30, 0x363482c9, 0x77d37528, 0xb62ec4bc, 0xade79437, 0x6112a3b7, 0xedffbff8, 0xc74c6516);
    var v7 := Work(0xea992a22, 0xa0060b30, 0x363482c9, 0x77d37528, 0x0109ab3a, 0xade79437, 0x6112a3b7, 0xedffbff8);
    var v8 := Work(0x73b33bf5, 0xea992a22, 0xa0060b30, 0x363482c9, 0xba591112, 0x0109ab3a, 0xade79437, 0x6112a3b7);
    OneRound(b, 24, v0, 0x983e5152, 0xc8215c1a, v1);
    OneRound(b, 25, v1, 0xa831c66d, 0xb73679a2, v2);
    OneRound(b, 26, v2, 0xb00327c8, 0xe5bc3909, v3);
    OneRound(b, 27, v3, 0xbf597fc7, 0x32663c5b, v4);
    OneRound(b, 28, v4, 0xc6e00bf3, 0x9d209d67, v5);
    OneRound(b, 29, v5, 0xd5a79147, 0xec8726cb, v6);
    OneRound(b, 30, v6, 0x06ca6351, 0x702138a4, v7);
    OneRound(b, 31, v7, 0x14292967, 0xd3b7973b, v8);
  }

  lemma {:induction false} Constants32()
    ensures Constant(32) == 0x27b70a85 && Constant(33) == 0x2e1b2138
         && Constant(34) == 0x4d2c6dfc && Constant(35) == 0x53380d13
         && Constant(36) == 0x650a7354 && Constant(37) == 0x766a0abb
         && Constant(38) == 0x81c2c92e && Constant(39) == 0x92722c85
  {
  }

  lemma {:induction false} Rounds40(b: Bytes)
    requires b == Block()
    ensures Rounds(Working(InitialHash()), b, 40)
         == Work(0x79ea687a, 0x6dc57a8a, 0x34df1604, 0x41a65cb1, 0x1efbc0a0, 0xf0781bc8, 0xa507a53d, 0x0772a26b)
  {
    hide Rounds, Schedule, Block, Working, InitialHash, Constant;
    Words32(b);
    Words36(b);
    Constants32();
    Rounds32(b);
    var v0 := Work(0x73b33bf5, 0xea992a22, 0xa0060b30, 0x363482c9, 0xba591112, 0x0109ab3a, 0xade79437, 0x6112a3b7);
    var v1 := Work(0x98e12507, 0x73b33bf5, 0xea992a22, 0xa0060b30, 0x9cd9f5f6, 0xba591112, 0x0109ab3a, 0xade79437);
    var v2 := Work(0xfe604df5, 0x98e12507, 0x73b33bf5, 0xea992a22, 0x59249dd3, 0x9cd9f5f6, 0xba591112, 0x0109ab3a);
    var v3 := Work(0xa9a7738c, 0xfe604df5, 0x98e12507, 0x73b33bf5, 0x085f3833, 0x59249dd3, 0x9cd9f5f6, 0xba591112);
    var v4 := Work(0x65a0cfe4, 0xa9a7738c, 0xfe604df5, 0x98e12507, 0xf4b002d6, 0x085f3833, 0x59249dd3, 0x9cd9f5f6);
    var v5 := Work(0x41a65cb1, 0x65a0cfe4, 0xa9a7738c, 0xfe604df5, 0x0772a26b, 0xf4b002d6, 0x085f3833, 0x59249dd3);
    var v6 := Work(0x34df1604, 0x41a65cb1, 0x65a0cfe4, 0xa9a7738c, 0xa507a53d, 0x0772a26b, 0xf4b002d6, 0x085f3833);
    var v7 := Work(0x6dc57a8a, 0x34df1604, 0x41a65cb1, 0x65a0cfe4, 0xf0781bc8, 0xa507a53d, 0x0772a26b, 0xf4b002d6);
    var v8 := Work(0x79ea687a, 0x6dc57a8a, 0x34df1604, 0x41a65cb1, 0x1efbc0a0, 0xf0781bc8, 0xa507a53d, 0x0772a26b);
    OneRound(b, 32, v0, 0x27b70a85, 0x93f5997f, v1);
    OneRound(b, 33, v1, 0x2e1b2138, 0x3b68ba73, v2);
    OneRound(b, 34, v2, 0x4d2c6dfc, 0xaff4ffc1, v3);
    OneRound(b, 35, v3, 0x53380d13, 0xf10a5c62, v4);
    OneRound(b, 36, v4, 0x650a7354, 0x0a8b3996, v5);
    OneRound(b, 37, v5, 0x766a0abb, 0x72af830a, v6);
    OneRound(b, 38, v6, 0x81c2c92e, 0x9409e33e, v7);
    OneRound(b, 39, v7, 0x92722c85, 0x24641522, v8);
  }

  lemma {:induction false} Constants40()
    ensures Constant(40) == 0xa2bfe8a1 && Constant(41) == 0xa81a664b
         && Constant(42) == 0xc24b8b70 && Constant(43) == 0xc76c51a3
         && Constant(44) == 0xd192e819 && Constant(45) == 0xd6990624
         && Constant(46) == 0xf40e3585 && Constant(47) == 0x106aa070
  {
  }

  lemma {:induction false} Rounds48(b: Bytes)
    requires b == Block()
    ensures Rounds(Working(InitialHash()), b, 48)
         == Work(0x4172328d, 0xa14c14b0, 0x72ab4b91, 0x26628815, 0xfecf0bc6, 0xd57b94a9, 0xb7755da1, 0xa80f11f0)
  {
    hide Rounds, Schedule, Block, Working, InitialHash, Constant;
    Words40(b);
    Constants40();
    Rounds40(b);
    var v0 := Work(0x79ea687a, 0x6dc57a8a, 0x34df1604, 0x41a65cb1, 0x1efbc0a0, 0xf0781bc8, 0xa507a53d, 0x0772a26b);
    var v1 := Work(0xd6670766, 0x79ea687a, 0x6dc57a8a, 0x34df1604, 0x26352d63, 0x1efbc0a0, 0xf0781bc8, 0xa507a53d);
    var v2 := Work(0xdf46652f, 0xd6670766, 0x79ea687a, 0x6dc57a8a, 0x838b2711, 0x26352d63, 0x1efbc0a0, 0xf0781bc8);
    var v3 := Work(0x17aa0dfe, 0xdf46652f, 0xd6670766, 0x79ea687a, 0xdecd4715, 0x838b2711, 0x26352d63, 0x1efbc0a0);
    var v4 := Work(0x9d4baf93, 0x17aa0dfe, 0xdf46652f, 0xd6670766, 0xfda24c2e, 0xdecd4715, 0x838b2711, 0x26352d63);
    var v5 := Work(0x26628815, 0x9d4baf93, 0x17aa0dfe, 0xdf46652f, 0xa80f11f0, 0xfda24c2e, 0xdecd4715, 0x838b2711);
    var v6 := Work(0x72ab4b91, 0x26628815, 0x9d4baf93, 0x17aa0dfe, 0xb7755da1, 0xa80f11f0, 0xfda24c2e, 0xdecd4715);
    var v7 := Work(0xa14c14b0, 0x72ab4b91, 0x26628815, 0x9d4baf93, 0xd57b94a9, 0xb7755da1, 0xa80f11f0, 0xfda24c2e);
    var v8 := Work(0x4172328d, 0xa14c14b0, 0x72ab4b91, 0x26628815, 0xfecf0bc6, 0xd57b94a9, 0xb7755da1, 0xa80f11f0);
    OneRound(b, 40, v0, 0xa2bfe8a1, 0x9f47bf94, v1);
    OneRound(b, 41, v1, 0xa81a664b, 0xf0a64f5a, v2);
    OneRound(b, 42, v2, 0xc24b8b70, 0x3e246a79, v3);
    OneRound(b, 43, v3, 0xc76c51a3, 0x27333ba3, v4);
    OneRound(b, 44, v4, 0xd192e819, 0x0c4763f2, v5);
    OneRound(b, 45, v5, 0xd6990624, 0x840abf27, v6);
    OneRound(b, 46, v6, 0xf40e3585, 0x7a290d5d, v7);
    OneRound(b, 47, v7, 0x106aa070, 0x065c43da, v8);
  }

  lemma {:induction false} Constants48()
    ensures Constant(48) == 0x19a4c116 && Constant(49) == 0x1e376c08
         && Constant(50) == 0x2748774c && Constant(51) == 0x34b0bcb5
         && Constant(52) == 0x391c0cb3 && Constant(53) == 0x4ed8aa4a
         && Constant(54) == 0x5b9cca4f && Constant(55) == 0x682e6ff3
  {
  }

  lemma {:induction false} Rounds56(b: Bytes)
    requires b == Block()
    ensures Rounds(Working(InitialHash()), b, 56)
         == Work(0x38cc9913, 0x3ec45cdb, 0xf5702fdb, 0x101fd28f, 0x54cb266b, 0xe50e1b4f, 0x9f4787c3, 0x529e7d00)
  {
    hide Rounds, Schedule, Block, Working, InitialHash, Constant;
    Words48(b);
    Constants48();
    Rounds48(b);
    var v0 := Work(0x4172328d, 0xa14c14b0, 0x72ab4b91, 0x26628815, 0xfecf0bc6, 0xd57b94a9, 0xb7755da1, 0xa80f11f0);
    var v1 := Work(0x05757ceb, 0x4172328d, 0xa14c14b0, 0x72ab4b91, 0xbd714038, 0xfecf0bc6, 0xd57b94a9, 0xb7755da1);
    var v2 := Work(0xf11bfaa8, 0x05757ceb, 0x4172328d, 0xa14c14b0, 0x6e5c390c, 0xbd714038, 0xfecf0bc6, 0xd57b94a9);
    var v3 := Work(0x7a0508a1, 0xf11bfaa8, 0x05757ceb, 0x4172328d, 0x52f1ccf7, 0x6e5c390c, 0xbd714038, 0xfecf0bc6);
    var v4 := Work(0x886e7a22, 0x7a0508a1, 0xf11bfaa8, 0x05757ceb, 0x49231c1e, 0x52f1ccf7, 0x6e5c390c, 0xbd714038);
    var v5 := Work(0x101fd28f, 0x886e7a22, 0x7a0508a1, 0xf11bfaa8, 0x529e7d00, 0x49231c1e, 0x52f1ccf7, 0x6e5c390c);
    var v6 := Work(0xf5702fdb, 0x101fd28f, 0x886e7a22, 0x7a0508a1, 0x9f4787c3, 0x529e7d00, 0x49231c1e, 0x52f1ccf7);
    var v7 := Work(0x3ec45cdb, 0xf5702fdb, 0x101fd28f, 0x886e7a22, 0xe50e1b4f, 0x9f4787c3, 0x529e7d00, 0x49231c1e);
    var v8 := Work(0x38cc9913, 0x3ec45cdb, 0xf5702fdb, 0x101fd28f, 0x54cb266b, 0xe50e1b4f, 0x9f4787c3, 0x529e7d00);
    OneRound(b, 48, v0, 0x19a4c116, 0xfb3e89cb, v1);
    OneRound(b, 49, v1, 0x1e376c08, 0xcc7617db, v2);
    OneRound(b, 50, v2, 0x2748774c, 0xb9e66c34, v3);
    OneRound(b, 51, v3, 0x34b0bcb5, 0xa9993667, v4);
    OneRound(b, 52, v4, 0x391c0cb3, 0x84badedd, v5);
    OneRound(b, 53, v5, 0x4ed8aa4a, 0xc21462bc, v6);
    OneRound(b, 54, v6, 0x5b9cca4f, 0x1487472c, v7);
    OneRound(b, 55, v7, 0x682e6ff3, 0xb20f7a99, v8);
  }

  lemma {:induction false} Constants56()
    ensures Constant(56) == 0x748f82ee && Constant(57) == 0x78a5636f
         && Constant(58) == 0x84c87814 && Constant(59) == 0x8cc70208
         && Constant(60) == 0x90befffa && Constant(61) == 0xa4506ceb
         && Constant(62) == 0xbef9a3f7 && Constant(63) == 0xc67178f2
  {
  }

  lemma {:induction false} Rounds64(b: Bytes)
    requires b == Block()
    ensures Rounds(Working(InitialHash()), b, 64)
         == Work(0x506e3058, 0xd39a2165, 0x04d24d6c, 0xb85e2ce9, 0x5ef50f24, 0xfb121210, 0x948d25b6, 0x961f4894)
  {
    hide Rounds, Schedule, Block, Working, InitialHash, Constant;
    Words56(b);
    Constants56();
    Rounds56(b);
    var v0 := Work(0x38cc9913, 0x3ec45cdb, 0xf5702fdb, 0x101fd28f, 0x54cb266b, 0xe50e1b4f, 0x9f4787c3, 0x529e7d00);
    var v1 := Work(0xfcd1887b, 0x38cc9913, 0x3ec45cdb, 0xf5702fdb, 0x9b5e906c, 0x54cb266b, 0xe50e1b4f, 0x9f4787c3);
    var v2 := Work(0xc062d46f, 0xfcd1887b, 0x38cc9913, 0x3ec45cdb, 0x7e44008e, 0x9b5e906c, 0x54cb266b, 0xe50e1b4f);
    var v3 := Work(0xffb70472, 0xc062d46f, 0xfcd1887b, 0x38cc9913, 0x6d83bfc6, 0x7e44008e, 0x9b5e906c, 0x54cb266b);
    var v4 := Work(0xb6ae8fff, 0xffb70472, 0xc062d46f, 0xfcd1887b, 0xb21bad3d, 0x6d83bfc6, 0x7e44008e, 0x9b5e906c);
    var v5 := Work(0xb85e2ce9, 0xb6ae8fff, 0xffb70472, 0xc062d46f, 0x961f4894, 0xb21bad3d, 0x6d83bfc6, 0x7e44008e);
    var v6 := Work(0x04d24d6c, 0xb85e2ce9, 0xb6ae8fff, 0xffb70472, 0x948d25b6, 0x961f4894, 0xb21bad3d, 0x6d83bfc6);
    var v7 := Work(0xd39a2165, 0x04d24d6c, 0xb85e2ce9, 0xb6ae8fff, 0xfb121210, 0x948d25b6, 0x961f4894, 0xb21bad3d);
    var v8 := Work(0x506e3058, 0xd39a2165, 0x04d24d6c, 0xb85e2ce9, 0x5ef50f24, 0xfb121210, 0x948d25b6, 0x961f4894);
    OneRound(b, 56, v0, 0x748f82ee, 0xef57b9cd, v1);
    OneRound(b, 57, v1, 0x78a5636f, 0xebe6b238, v2);
    OneRound(b, 58, v2, 0x84c87814, 0x9fe3095e, v3);
    OneRound(b, 59, v3, 0x8cc70208, 0x78bc8d4b, v4);
    OneRound(b, 60, v4, 0x90befffa, 0xa43fcf15, v5);
    OneRound(b, 61, v5, 0xa4506ceb, 0x668b2ff8, v6);
    OneRound(b, 62, v6, 0xbef9a3f7, 0xeeaba2cc, v7);
    OneRound(b, 63, v7, 0xc67178f2, 0x12b1edeb, v8);
  }

  lemma {:induction false} Rounds0(b: Bytes)
    requires b == Block()
    ensures Rounds(Working(InitialHash()), b, 0)
         == Work(0x6a09e667, 0xbb67ae85, 0x3c6ef372, 0xa54ff53a, 0x510e527f, 0x9b05688c, 0x1f83d9ab, 0x5be0cd19)
  {
  }

  // ---------- The digest ----------

  lemma {:induction false} LengthAbc()
    ensures U64Bytes(24) == Zeros(7) + [24] && ZeroBytes(3) == 52 && 8 * 3 % U64_LIMIT == 24
  {
    assert U64Bytes(24) == [0, 0, 0, 0, 0, 0, 0, 24];
  }

  lemma {:induction false} ZerosAdd(m: nat, n: nat)
    ensures Zeros(m) + Zeros(n) == Zeros(m + n)
  {
  }

  lemma {:induction false} PaddedAbc(msg: Bytes)
    requires msg == Ascii("abc")
    ensures Padded(msg) == Block()
  {
    LengthAbc();
    assert msg + [0x80] == [97, 98, 99, 0x80];
    hide U64Bytes, ZeroBytes, Zeros;
    Associate([97, 98, 99, 0x80], Zeros(52), Zeros(7) + [24]);
    Associate(Zeros(52), Zeros(7), [24]);
    ZerosAdd(52, 7);
    Associate([97, 98, 99, 0x80], Zeros(59), [24]);
  }

  function Hash(): (hash: seq<bv32>)
    ensures |hash| == 8
  {
    [0xba7816bf, 0x8f01cfea, 0x414140de, 0x5dae2223,
     0xb00361a3, 0x96177a9c, 0xb410ff61, 0xf20015ad]
  }

  lemma {:induction false} HashAbc(b: Bytes)
    requires b == Block()
    ensures CompressAll(InitialHash(), b) == Hash()
  {
    hide Rounds, Block;
    Rounds64(b);
    assert b[..0] == [] && b[0..] == b;
    CompressAllLast(InitialHash(), b, 0);
    CompressAllNone(InitialHash());
  }

  lemma {:induction false} DigestFront(hash: seq<bv32>, n: nat)
    requires n < |hash|
    ensures DigestBytes(hash[..n + 1]) == DigestBytes(hash[..n]) + U32Bytes(hash[n] as int)
  {
    assert hash[..n + 1][..n] == hash[..n];
  }

  lemma {:induction false} DigestOf(hash: seq<bv32>, n: seq<u32>)
    requires |hash| == 8 == |n| && forall i :: 0 <= i < 8 ==> hash[i] as int == n[i]
    ensures DigestBytes(hash)
         == U32Bytes(n[0]) + U32Bytes(n[1]) + U32Bytes(n[2]) + U32Bytes(n[3])
            + U32Bytes(n[4]) + U32Bytes(n[5]) + U32Bytes(n[6]) + U32Bytes(n[7])
  {
    hide DigestBytes, U32Bytes;
    DigestHalf(hash, n);
    DigestFront(hash, 4);
    DigestFront(hash, 5);
    DigestFront(hash, 6);
    DigestFront(hash, 7);
    assert hash[..8] == hash;
  }

  lemma {:induction false} DigestHalf(hash: seq<bv32>, n: seq<u32>)
    requires |hash| == 8 == |n| && forall i :: 0 <= i < 8 ==> hash[i] as int == n[i]
    ensures DigestBytes(hash[..4]) == U32Bytes(n[0]) + U32Bytes(n[1]) + U32Bytes(n[2]) + U32Bytes(n[3])
  {
    assert DigestBytes(hash[..0]) == [];
    assert DigestBytes(hash[..1]) == U32Bytes(n[0]) by {
      hide U32Bytes;
      DigestFront(hash, 0);
    }
    hide DigestBytes, U32Bytes;
    DigestFront(hash, 1);
    DigestFront(hash, 2);
    DigestFront(hash, 3);
  }

  lemma {:induction false} HashNumbers(hash: seq<bv32>, n: seq<u32>)
    requires hash == Hash()
    requires n == [0xba7816bf, 0x8f01cfea, 0x414140de, 0x5dae2223, 0xb00361a3, 0x96177a9c, 0xb410ff61, 0xf20015ad]
    ensures forall i :: 0 <= i < 8 ==> hash[i] as int == n[i]
  {
  }

  // The digest of "abc".
  lemma {:induction false} DigestAbc(msg: Bytes, n: seq<u32>)
    requires msg == Ascii("abc")
    requires n == [0xba7816bf, 0x8f01cfea, 0x414140de, 0x5dae2223, 0xb00361a3, 0x96177a9c, 0xb410ff61, 0xf20015ad]
    ensures Digest(msg)
         == U32Bytes(n[0]) + U32Bytes(n[1]) + U32Bytes(n[2]) + U32Bytes(n[3])
            + U32Bytes(n[4]) + U32Bytes(n[5]) + U32Bytes(n[6]) + U32Bytes(n[7])
  {
    hide CompressAll, Padded, DigestBytes, Block, InitialHash, Hash, Ascii, U32Bytes;
    PaddedAbc(msg);
    HashAbc(Padded(msg));
    HashNumbers(Hash(), n);
    DigestOf(Hash(), n);
  }
}
