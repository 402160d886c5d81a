// SHA-256 as FIPS 180-4 defines it, and the streaming form of sha2.c.
module Sha256 {
  import opened Bytes

  const CBLOCK: nat := 64

  // ---------- FIPS 180-4 ----------

  // Section 4.2.2.
  const K: seq<bv32> :=
    [0x428a2f98, 0x71374491, 0xb5c0fbcf, 0xe9b5dba5, 0x3956c25b, 0x59f111f1, 0x923f82a4, 0xab1c5ed5]
    + [0xd807aa98, 0x12835b01, 0x243185be, 0x550c7dc3, 0x72be5d74, 0x80deb1fe, 0x9bdc06a7, 0xc19bf174]
    + [0xe49b69c1, 0xefbe4786, 0x0fc19dc6, 0x240ca1cc, 0x2de92c6f, 0x4a7484aa, 0x5cb0a9dc, 0x76f988da]
    + [0x983e5152, 0xa831c66d, 0xb00327c8, 0xbf597fc7, 0xc6e00bf3, 0xd5a79147, 0x06ca6351, 0x14292967]
    + [0x27b70a85, 0x2e1b2138, 0x4d2c6dfc, 0x53380d13, 0x650a7354, 0x766a0abb, 0x81c2c92e, 0x92722c85]
    + [0xa2bfe8a1, 0xa81a664b, 0xc24b8b70, 0xc76c51a3, 0xd192e819, 0xd6990624, 0xf40e3585, 0x106aa070]
    + [0x19a4c116, 0x1e376c08, 0x2748774c, 0x34b0bcb5, 0x391c0cb3, 0x4ed8aa4a, 0x5b9cca4f, 0x682e6ff3]
    + [0x748f82ee, 0x78a5636f, 0x84c87814, 0x8cc70208, 0x90befffa, 0xa4506ceb, 0xbef9a3f7, 0xc67178f2]

  // Section 5.3.3.
  const H0: seq<bv32> := [0x6a09e667, 0xbb67ae85, 0x3c6ef372, 0xa54ff53a,
    0x510e527f, 0x9b05688c, 0x1f83d9ab, 0x5be0cd19]

  function InitialHash(): (hash: seq<bv32>)
    ensures |hash| == 8
  {
    H0
  }

  function RotR(x: bv32, count: nat): bv32
    requires 1 <= count <= 31
  {
    (x >> count) | (x << (32 - count))
  }

  // Addition modulo 2^32, section 3.2.
  function Add(x: bv32, y: bv32): bv32 {
    x + y
  }

  // Section 4.1.2.
  function BigSigma0(x: bv32): bv32 { RotR(x, 2) ^ RotR(x, 13) ^ RotR(x, 22) }
  function BigSigma1(x: bv32): bv32 { RotR(x, 6) ^ RotR(x, 11) ^ RotR(x, 25) }
  function SmallSigma0(x: bv32): bv32 { RotR(x, 7) ^ RotR(x, 18) ^ (x >> 3) }
  function SmallSigma1(x: bv32): bv32 { RotR(x, 17) ^ RotR(x, 19) ^ (x >> 10) }
  function Ch(x: bv32, y: bv32, z: bv32): bv32 { (x & y) ^ (!x & z) }
  function Maj(x: bv32, y: bv32, z: bv32): bv32 { (x & y) ^ (x & z) ^ (y & z) }

  function WordAt(block: Bytes, t: nat): bv32
    requires |block| == CBLOCK && t < 16
  {
    U32FromBytes(block[4 * t..4 * t + 4]) as bv32
  }

  // Section 6.2.2, step 1: the message schedule, its sum in the code's order.
  function Schedule(block: Bytes, t: nat): bv32
    requires |block| == CBLOCK && t < 64
  {
    if t < 16 then WordAt(block, t)
    else
      Add(Add(Add(Schedule(block, t - 16), SmallSigma0(Schedule(block, t - 15))),
              Schedule(block, t - 7)), SmallSigma1(Schedule(block, t - 2)))
  }

  datatype Work = Work(a: bv32, b: bv32, c: bv32, d: bv32, e: bv32, f: bv32, g: bv32, h: bv32)

  function Constant(t: nat): bv32
    requires t < 64
  {
    K[t]
  }

  // Step 3: one round.
  function Round(v: Work, k: bv32, w: bv32): Work {
    var t1 := Add(Add(Add(Add(v.h, BigSigma1(v.e)), Ch(v.e, v.f, v.g)), k), w);
    var t2 := Add(BigSigma0(v.a), Maj(v.a, v.b, v.c));
    Work(Add(t1, t2), v.a, v.b, v.c, Add(v.d, t1), v.e, v.f, v.g)
  }

  function Rounds(v: Work, block: Bytes, t: nat): Work
    requires |block| == CBLOCK && t <= 64
  {
    if t == 0 then v else Round(Rounds(v, block, t - 1), Constant(t - 1), Schedule(block, t - 1))
  }

  function Working(hash: seq<bv32>): Work
    requires |hash| == 8
  {
    Work(hash[0], hash[1], hash[2], hash[3], hash[4], hash[5], hash[6], hash[7])
  }

  // Steps 2 and 4.
  function Compress(hash: seq<bv32>, block: Bytes): (next: seq<bv32>)
    requires |hash| == 8 && |block| == CBLOCK
    ensures |next| == 8
  {
    AddWork(hash, Rounds(Working(hash), block, 64))
  }

  function AddWork(hash: seq<bv32>, v: Work): (next: seq<bv32>)
    requires |hash| == 8
    ensures |next| == 8
  {
    [Add(hash[0], v.a), Add(hash[1], v.b), Add(hash[2], v.c), Add(hash[3], v.d),
     Add(hash[4], v.e), Add(hash[5], v.f), Add(hash[6], v.g), Add(hash[7], v.h)]
  }

  // Block after block.
  function CompressAll(hash: seq<bv32>, blocks: Bytes): (next: seq<bv32>)
    requires |hash| == 8 && |blocks| % CBLOCK == 0
    ensures |next| == 8
  {
    if blocks == [] then hash
    else
      var n := |blocks| - CBLOCK;
      Compress(CompressAll(hash, blocks[..n]), blocks[n..])
  }

  function U64Bytes(w: u64): (s: Bytes)
    ensures |s| == 8
  {
    U32Bytes(w / U32_LIMIT) + U32Bytes(w % U32_LIMIT)
  }

  // Section 5.1.1: a one bit, then the fewest zero bits that leave room for the
  // length in bits to end a block.
  function ZeroBytes(len: nat): nat {
    var r := len % CBLOCK;
    if r < 56 then 55 - r else 119 - r
  }

  // The length is taken in 64 bits, which is all the standard gives it: past 2^61
  // bytes, where it defines no padding, it wraps.
  function Padded(msg: Bytes): (padded: Bytes) {
    msg + [0x80] + Zeros(ZeroBytes(|msg|)) + U64Bytes(8 * |msg| % U64_LIMIT)
  }

  lemma {:induction false} PaddedExact(msg: Bytes)
    ensures 8 * |msg| % U64_LIMIT == 8 * |msg| <==> |msg| < U64_LIMIT / 8
    ensures |msg| < U64_LIMIT / 8 ==> Padded(msg) == msg + [0x80] + Zeros(ZeroBytes(|msg|)) + U64Bytes(8 * |msg|)
  {
    hide ZeroBytes, U64Bytes;
    if |msg| < U64_LIMIT / 8 {
      SmallMod(8 * |msg|, U64_LIMIT);
    }
  }

  lemma {:induction false} ZerosFillBlock(len: nat, zeros: nat)
    ensures (len + 1 + ZeroBytes(len) + 8) % CBLOCK == 0
    ensures (len + 1 + zeros + 8) % CBLOCK == 0 ==> ZeroBytes(len) <= zeros
  {
    var q, r := len / CBLOCK, len % CBLOCK;
    var n := if r < 56 then q + 1 else q + 2;
    assert len + 1 + ZeroBytes(len) + 8 == 64 * n;
    if (len + 1 + zeros + 8) % CBLOCK == 0 {
      var m := (len + 1 + zeros + 8) / CBLOCK;
      assert 64 * m == 64 * q + r + 9 + zeros;
      assert m >= n;
    }
  }

  // The padded message is whole blocks, and no shorter padding makes it so.
  lemma {:induction false} PaddingIsLeast(msg: Bytes, zeros: nat)
    ensures |Padded(msg)| % CBLOCK == 0
    ensures (|msg| + 1 + zeros + 8) % CBLOCK == 0 ==> ZeroBytes(|msg|) <= zeros
  {
    hide ZeroBytes, U64Bytes;
    ZerosFillBlock(|msg|, zeros);
  }

  function DigestBytes(hash: seq<bv32>): (d: Bytes)
    ensures |d| == 4 * |hash|
  {
    if hash == [] then [] else DigestBytes(hash[..|hash| - 1]) + U32Bytes(hash[|hash| - 1] as int)
  }

  function Digest(msg: Bytes): (d: Bytes)
    ensures |d| == 32
  {
    PaddingIsLeast(msg, 0);
    DigestBytes(CompressAll(InitialHash(), Padded(msg)))
  }

  lemma {:induction false} BlockLengths(x: nat, y: nat)
    requires x % CBLOCK == 0 && y % CBLOCK == 0
    ensures (x + y) % CBLOCK == 0
    ensures y > 0 ==> y >= CBLOCK && (y - CBLOCK) % CBLOCK == 0
  {
  }

  lemma {:induction false} CompressAllLast(hash: seq<bv32>, s: Bytes, n: nat)
    requires |hash| == 8 && |s| % CBLOCK == 0 && |s| == n + CBLOCK
    ensures n % CBLOCK == 0
    ensures CompressAll(hash, s) == Compress(CompressAll(hash, s[..n]), s[n..])
  {
    hide Compress;
  }

  lemma {:induction false} CompressAllNone(hash: seq<bv32>)
    requires |hash| == 8
    ensures CompressAll(hash, []) == hash
  {
  }

  lemma {:induction false} SplitLast(a: Bytes, b: Bytes, n: nat)
    requires n <= |b|
    ensures (a + b)[..|a| + n] == a + b[..n] && (a + b)[|a| + n..] == b[n..]
  {
  }

  lemma {:induction false} CompressAllAppend(hash: seq<bv32>, a: Bytes, b: Bytes)
    requires |hash| == 8 && |a| % CBLOCK == 0 && |b| % CBLOCK == 0
    ensures |a + b| % CBLOCK == 0
    ensures CompressAll(hash, a + b) == CompressAll(CompressAll(hash, a), b)
    decreases |b|
  {
    hide Compress, CompressAll;
    BlockLengths(|a|, |b|);
    if b == [] {
      assert a + b == a;
      CompressAllNone(CompressAll(hash, a));
    } else {
      var n := |b| - CBLOCK;
      SplitLast(a, b, n);
      CompressAllLast(hash, a + b, |a| + n);
      CompressAllLast(CompressAll(hash, a), b, n);
      CompressAllAppend(hash, a, b[..n]);
    }
  }

  // ---------- The code ----------

  lemma {:induction false} ScheduleStep(block: Bytes, t: nat)
    requires |block| == CBLOCK && 16 <= t < 64
    ensures Schedule(block, t)
         == Add(Add(Add(Schedule(block, t - 16), SmallSigma0(Schedule(block, t - 15))),
                    Schedule(block, t - 7)), SmallSigma1(Schedule(block, t - 2)))
  {
    hide Add, SmallSigma0, SmallSigma1, WordAt;
  }

  lemma {:induction false} ScheduleStart(block: Bytes, t: nat)
    requires |block| == CBLOCK && t < 16
    ensures Schedule(block, t) == WordAt(block, t)
  {
  }

  lemma {:induction false} RoundsStart(v: Work, block: Bytes)
    requires |block| == CBLOCK
    ensures Rounds(v, block, 0) == v
  {
  }

  lemma {:induction false} RoundsStep(v: Work, block: Bytes, t: nat)
    requires |block| == CBLOCK && t < 64
    ensures Rounds(v, block, t + 1) == Round(Rounds(v, block, t), Constant(t), Schedule(block, t))
  {
    hide Round, Schedule, Constant;
  }

  method Sha256Compress(h: array<bv32>, block: Bytes)
    requires h.Length == 8 && |block| == CBLOCK
    modifies h
    ensures h[..] == Compress(old(h[..]), block)
  {
    hide Add, SmallSigma0, SmallSigma1, BigSigma0, BigSigma1, Ch, Maj, Schedule, Rounds, Constant, U32FromBytes, AddWork;
    ghost var before := h[..];
    var w := new bv32[64](_ => 0);
    for i := 0 to 16
      invariant h[..] == before && forall j :: 0 <= j < i ==> w[j] == Schedule(block, j)
    {
      ScheduleStart(block, i);
      w[i] := U32FromBytes(block[4 * i..4 * i + 4]) as bv32;
    }
    for i := 16 to 64
      invariant h[..] == before && forall j :: 0 <= j < i ==> w[j] == Schedule(block, j)
    {
      ScheduleStep(block, i);
      var s0 := SmallSigma0(w[i - 15]);
      var s1 := SmallSigma1(w[i - 2]);
      w[i] := Add(Add(Add(w[i - 16], s0), w[i - 7]), s1);
    }
    var a, b, c, d := h[0], h[1], h[2], h[3];
    var e, f, g, hh := h[4], h[5], h[6], h[7];
    ghost var v := Work(a, b, c, d, e, f, g, hh);
    RoundsStart(v, block);
    for i := 0 to 64
      invariant forall j :: 0 <= j < 64 ==> w[j] == Schedule(block, j)
      invariant h[..] == before && Work(a, b, c, d, e, f, g, hh) == Rounds(v, block, i)
    {
      RoundsStep(v, block, i);
      var t1 := Add(Add(Add(Add(hh, BigSigma1(e)), Ch(e, f, g)), Constant(i)), w[i]);
      var t2 := Add(BigSigma0(a), Maj(a, b, c));
      hh := g;
      g := f;
      f := e;
      e := Add(d, t1);
      d := c;
      c := b;
      b := a;
      a := Add(t1, t2);
    }
    assert v == Working(before);
    AddInto(h, Work(a, b, c, d, e, f, g, hh));
  }

  method AddInto(h: array<bv32>, v: Work)
    requires h.Length == 8
    modifies h
    ensures h[..] == AddWork(old(h[..]), v)
  {
    hide Add, AddWork;
    var sum := AddWork(h[..], v);
    forall i | 0 <= i < 8 {
      h[i] := sum[i];
    }
  }

  method Sha256CompressBlocks(h: array<bv32>, blocks: Bytes, blocksCount: nat)
    requires h.Length == 8 && blocksCount * CBLOCK <= |blocks|
    modifies h
    ensures (blocksCount * CBLOCK) % CBLOCK == 0
    ensures h[..] == CompressAll(old(h[..]), blocks[..blocksCount * CBLOCK])
  {
    hide Compress, CompressAll;
    ghost var before := h[..];
    CompressAllNone(before);
    for i := 0 to blocksCount
      invariant h[..] == CompressAll(before, blocks[..i * CBLOCK])
    {
      Sha256Compress(h, blocks[i * CBLOCK..i * CBLOCK + CBLOCK]);
      ghost var upTo := blocks[..(i + 1) * CBLOCK];
      assert upTo[..i * CBLOCK] == blocks[..i * CBLOCK];
      assert upTo[i * CBLOCK..] == blocks[i * CBLOCK..i * CBLOCK + CBLOCK];
      CompressAllLast(before, upTo, i * CBLOCK);
    }
  }

  lemma {:induction false} SmallMod(x: nat, m: nat)
    requires x < m
    ensures x % m == x
  {
  }

  lemma {:induction false} LenWraps(len: nat, more: nat)
    ensures (len % U64_LIMIT + more) % U64_LIMIT == (len + more) % U64_LIMIT
  {
    var q, r := len / U64_LIMIT, len % U64_LIMIT;
    var q', r' := (r + more) / U64_LIMIT, (r + more) % U64_LIMIT;
    assert len + more == (q + q') * U64_LIMIT + r';
  }

  // The counter wraps, and what is read off it does not notice: its place in the
  // block and its bits are those of the true length.
  lemma {:induction false} LenMods(len: nat)
    ensures (len % U64_LIMIT) % CBLOCK == len % CBLOCK
    ensures (len % U64_LIMIT) * 8 % U64_LIMIT == 8 * len % U64_LIMIT
  {
    var q, r := len / U64_LIMIT, len % U64_LIMIT;
    assert len == q * U64_LIMIT + r;
    BlockShift(r, q * 0x400_0000_0000_0000);
    WordShift(8 * r, 8 * q);
  }

  lemma {:induction false} BlockShift(r: nat, q: nat)
    ensures (q * CBLOCK + r) % CBLOCK == r % CBLOCK
  {
    assert q * CBLOCK + r == (q + r / CBLOCK) * CBLOCK + r % CBLOCK;
  }

  lemma {:induction false} WordShift(r: nat, q: nat)
    ensures (q * U64_LIMIT + r) % U64_LIMIT == r % U64_LIMIT
  {
    assert q * U64_LIMIT + r == (q + r / U64_LIMIT) * U64_LIMIT + r % U64_LIMIT;
  }

  lemma {:induction false} NothingOver(x: nat, y: nat)
    requires x % CBLOCK == 0 && (x + y) % CBLOCK == 0 && y < CBLOCK
    ensures y == 0
  {
    assert x == x / CBLOCK * CBLOCK;
    assert x + y == (x + y) / CBLOCK * CBLOCK;
  }

  class Sha256Ctx {
    const h: array<bv32>
    var len: u64
    var partialLen: nat
    const partial: array<u8>
    // Everything fed in so far, and the part of it that is whole blocks.
    ghost var msg: Bytes
    ghost var whole: Bytes

    ghost predicate Valid()
      reads this, h, partial
    {
      && h.Length == 8 && partial.Length == CBLOCK && partialLen < CBLOCK
      && len == |msg| % U64_LIMIT
      && msg == whole + partial[..partialLen]
      && |whole| % CBLOCK == 0
      && h[..] == CompressAll(InitialHash(), whole)
    }

    constructor ()
      ensures Valid() && fresh(h) && fresh(partial) && msg == []
    {
      h := new bv32[8](i requires 0 <= i < 8 => InitialHash()[i]);
      partial := new u8[CBLOCK](_ => 0);
      len, partialLen, msg, whole := 0, 0, [], [];
      new;
      assert h[..] == InitialHash();
    }

    // A full partial block is compressed and let go.
    method CompressPartial()
      requires h.Length == 8 && partial.Length == CBLOCK && |whole| % CBLOCK == 0
      requires h[..] == CompressAll(InitialHash(), whole)
      modifies this`partialLen, this`whole, h
      ensures partialLen == 0 && whole == old(whole) + partial[..]
      ensures |whole| % CBLOCK == 0 && h[..] == CompressAll(InitialHash(), whole)
    {
      hide CompressAll, Compress;
      Sha256CompressBlocks(h, partial[..], 1);
      assert partial[..][..1 * CBLOCK] == partial[..];
      CompressAllAppend(InitialHash(), whole, partial[..]);
      whole := whole + partial[..];
      partialLen := 0;
    }

    // As much of `data` as still fits behind what is held back.
    method TopUp(data: Bytes) returns (taken: nat)
      requires partial.Length == CBLOCK && partialLen < CBLOCK
      modifies this`partialLen, partial
      ensures taken <= |data| && partialLen == old(partialLen) + taken <= CBLOCK
      ensures taken == |data| || partialLen == CBLOCK
      ensures partial[..partialLen] == old(partial[..partialLen]) + data[..taken]
    {
      ghost var held := partial[..partialLen];
      var wanted := CBLOCK - partialLen;
      taken := if |data| < wanted then |data| else wanted;
      forall k | 0 <= k < taken {
        partial[partialLen + k] := data[k];
      }
      assert partial[..partialLen + taken] == held + data[..taken];
      partialLen := partialLen + taken;
    }

    method Update(data: Bytes)
      requires Valid()
      modifies this, h, partial
      ensures Valid() && msg == old(msg) + data
    {
      hide CompressAll, Compress, InitialHash;
      if |data| == 0 {
        return;
      }
      var remaining := data;
      LenWraps(|msg|, |data|);
      len := (len + |data|) % U64_LIMIT;
      msg := msg + data;
      if partialLen > 0 {
        var taken := TopUp(data);
        remaining := remaining[taken..];
        assert msg == whole + partial[..partialLen] + remaining by {
          assert data == data[..taken] + remaining;
        }
        if partialLen < CBLOCK {
          return;
        }
        assert partial[..partialLen] == partial[..];
        CompressPartial();
      }
      AbsorbRest(remaining);
    }

    // Nothing is held back: the whole blocks are compressed, the rest is held.
    method AbsorbRest(data: Bytes)
      requires h.Length == 8 && partial.Length == CBLOCK
      requires partialLen == 0 && |whole| % CBLOCK == 0
      requires h[..] == CompressAll(InitialHash(), whole)
      modifies this`partialLen, this`whole, h, partial
      ensures partialLen < CBLOCK && |whole| % CBLOCK == 0
      ensures whole + partial[..partialLen] == old(whole) + data
      ensures h[..] == CompressAll(InitialHash(), whole)
    {
      hide CompressAll, Compress, InitialHash;
      var blocksCount := |data| / CBLOCK;
      var blocks := data[..blocksCount * CBLOCK];
      Sha256CompressBlocks(h, data, blocksCount);
      CompressAllAppend(InitialHash(), whole, blocks);
      var remaining := data[blocksCount * CBLOCK..];
      assert data == blocks + remaining;
      whole := whole + blocks;
      forall k | 0 <= k < |remaining| {
        partial[k] := remaining[k];
      }
      partialLen := |remaining|;
      assert partial[..partialLen] == remaining;
    }

    // The digest of everything fed in, and the context wiped.
    method Final() returns (res: Bytes)
      requires Valid()
      modifies this, h, partial
      ensures res == Digest(old(msg))
      ensures len == 0 && partialLen == 0 && h[..] == seq(8, _ => 0) && partial[..] == Zeros(CBLOCK)
    {
      hide CompressAll, Compress, InitialHash, DigestBytes, U64Bytes, Padded, ZeroBytes, Zeros;
      ghost var message := msg;
      var lenBits := len * 8 % U64_LIMIT;
      var lenMod := len % CBLOCK;
      var paddingLen := if lenMod < 56 then 56 - lenMod else 56 + CBLOCK - lenMod;
      LenMods(|msg|);
      var padding := [0x80] + Zeros(CBLOCK - 1);
      Update(padding[..paddingLen]);
      var lenBytes := U64Bytes(lenBits);
      Update(lenBytes);
      PaddingMade(message, padding[..paddingLen], lenBits);
      EndsOnBlock(message);
      res := WordsToBytes();
      Wipe();
    }

    lemma {:induction false} EndsOnBlock(message: Bytes)
      requires Valid() && msg == Padded(message)
      ensures partialLen == 0 && h[..] == CompressAll(InitialHash(), Padded(message))
    {
      hide CompressAll, Padded, InitialHash;
      PaddingIsLeast(message, 0);
      NothingOver(|whole|, partialLen);
      assert whole == msg;
    }

    method WordsToBytes() returns (res: Bytes)
      requires h.Length == 8
      ensures res == DigestBytes(h[..])
    {
      hide U32Bytes;
      res := [];
      for i := 0 to 8
        invariant res == DigestBytes(h[..i])
      {
        res := res + U32Bytes(h[i] as int);
        assert h[..i + 1][..i] == h[..i];
      }
      assert h[..8] == h[..];
    }

    method Wipe()
      requires h.Length == 8 && partial.Length == CBLOCK
      modifies this, h, partial
      ensures len == 0 && partialLen == 0 && h[..] == seq(8, _ => 0) && partial[..] == Zeros(CBLOCK)
    {
      forall i | 0 <= i < 8 { h[i] := 0; }
      forall i | 0 <= i < CBLOCK { partial[i] := 0; }
      len, partialLen := 0, 0;
    }
  }

  lemma {:induction false} PaddingMade(msg: Bytes, padding: Bytes, lenBits: nat)
    requires lenBits == 8 * |msg| % U64_LIMIT
    requires var m := |msg| % CBLOCK;
             padding == ([0x80] + Zeros(CBLOCK - 1))[..if m < 56 then 56 - m else 56 + CBLOCK - m]
    ensures msg + padding + U64Bytes(lenBits) == Padded(msg)
  {
    assert padding == [0x80] + Zeros(ZeroBytes(|msg|));
  }

  method Sha256Digest(data: Bytes) returns (dst: Bytes)
    ensures dst == Digest(data)
  {
    hide CompressAll, Compress, InitialHash, Digest;
    var sha := new Sha256Ctx();
    sha.Update(data);
    assert [] + data == data;
    dst := sha.Final();
  }

  method Sha256DigestPair(left: Bytes, right: Bytes) returns (dst: Bytes)
    requires |left| == 32 && |right| == 32
    ensures dst == Digest(left + right)
  {
    hide CompressAll, Compress, InitialHash, Digest;
    var sha := new Sha256Ctx();
    sha.Update(left);
    sha.Update(right);
    assert [] + left + right == left + right;
    dst := sha.Final();
  }
}
