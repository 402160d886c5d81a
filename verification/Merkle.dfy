// The Merkle tree of BEP 52: the recursive build of torrent.c against the fold
// of a layer of leaves, level by level.
module Merkle {
  import opened Bytes
  import opened ArenaAllocator
  import opened PowersOfTwo

  const DIGEST_LEN: nat := 32
  const BLOCK: nat := 0x4000

  // The hash, taken as given: of a block, of two digests side by side, and the
  // digest that stands for padding. Nothing below depends on which hash it is.
  datatype Hash<!D> = Hash(block: Bytes -> D, pair: (D, D) -> D, zero: D)

  // ---------- The specification: layers ----------

  // The digest of block `i`, or zeroes past the end of the file.
  function LeafAt<D>(h: Hash<D>, data: Bytes, i: nat): D {
    if i * BLOCK < |data|
    then h.block(data[i * BLOCK..if |data| < (i + 1) * BLOCK then |data| else (i + 1) * BLOCK])
    else h.zero
  }

  function Leaves<D>(h: Hash<D>, data: Bytes, d: nat): (layer: seq<D>)
    ensures |layer| == Pow2(d)
  {
    seq(Pow2(d), i requires i >= 0 => LeafAt(h, data, i))
  }

  // One level up: the digest of every pair.
  function FoldOnce<D>(h: Hash<D>, layer: seq<D>, d: nat): (up: seq<D>)
    requires |layer| == Pow2(d) && d > 0
    ensures |up| == Pow2(d - 1)
  {
    Pow2Doubles(d - 1);
    seq(Pow2(d - 1), i requires 0 <= i < Pow2(d - 1) => h.pair(layer[2 * i], layer[2 * i + 1]))
  }

  // `k` levels up from a layer of 2^d.
  function Fold<D>(h: Hash<D>, layer: seq<D>, d: nat, k: nat): (up: seq<D>)
    requires |layer| == Pow2(d) && k <= d
    ensures |up| == Pow2(d - k)
    decreases k
  {
    if k == 0 then layer
    else
      var up := FoldOnce(h, layer, d);
      assert d - 1 - (k - 1) == d - k;
      Fold(h, up, d - 1, k - 1)
  }

  function Root<D>(h: Hash<D>, layer: seq<D>, d: nat): D
    requires |layer| == Pow2(d)
  {
    Fold(h, layer, d, d)[0]
  }

  lemma {:induction false} FoldOnceAt<D>(h: Hash<D>, layer: seq<D>, d: nat, i: nat)
    requires |layer| == Pow2(d) && d > 0 && i < Pow2(d - 1)
    ensures 2 * i + 1 < |layer|
    ensures FoldOnce(h, layer, d)[i] == h.pair(layer[2 * i], layer[2 * i + 1])
  {
  }

  lemma {:induction false} FoldTwice<D>(h: Hash<D>, layer: seq<D>, d: nat, j: nat, k: nat)
    requires |layer| == Pow2(d) && j + k <= d
    ensures Fold(h, layer, d, j + k) == Fold(h, Fold(h, layer, d, j), d - j, k)
    decreases j
  {
    hide Pow2, FoldOnce;
    if j == 0 {
    } else {
      FoldTwice(h, FoldOnce(h, layer, d), d - 1, j - 1, k);
    }
  }

  // The last level of a fold is a pair of the level below.
  lemma {:induction false} FoldNode<D>(h: Hash<D>, layer: seq<D>, d: nat, k: nat, i: nat)
    requires |layer| == Pow2(d) && k < d && i < Pow2(d - k - 1)
    ensures 2 * i + 1 < Pow2(d - k)
    ensures var below := Fold(h, layer, d, k);
            Fold(h, layer, d, k + 1)[i] == h.pair(below[2 * i], below[2 * i + 1])
  {
    hide Pow2, FoldOnce;
    var below := Fold(h, layer, d, k);
    FoldTwice(h, layer, d, k, 1);
    assert Fold(h, below, d - k, 1) == FoldOnce(h, below, d - k);
    FoldOnceAt(h, below, d - k, i);
  }

  // Part `i` of a layer cut into parts of 2^k.
  lemma {:induction false} SliceBounds(d: nat, k: nat, i: nat)
    requires k <= d && i < Pow2(d - k)
    ensures 0 <= i * Pow2(k) && (i + 1) * Pow2(k) == i * Pow2(k) + Pow2(k) <= Pow2(d)
  {
    hide Pow2;
    Pow2Add(d - k, k);
    Distribute(i, 1, Pow2(k));
    MulCompare(i + 1, Pow2(d - k), Pow2(k));
    MulCompare(0, i, Pow2(k));
  }

  function Slice<D>(layer: seq<D>, d: nat, k: nat, i: nat): (s: seq<D>)
    requires |layer| == Pow2(d) && k <= d && i < Pow2(d - k)
    ensures |s| == Pow2(k)
  {
    SliceBounds(d, k, i);
    layer[i * Pow2(k)..(i + 1) * Pow2(k)]
  }

  lemma {:induction false} SliceAt<D>(layer: seq<D>, d: nat, k: nat, i: nat, j: nat)
    requires |layer| == Pow2(d) && k <= d && i < Pow2(d - k) && j < Pow2(k)
    ensures 0 <= i * Pow2(k) + j < |layer|
    ensures Slice(layer, d, k, i)[j] == layer[i * Pow2(k) + j]
  {
    hide Pow2;
    SliceBounds(d, k, i);
  }

  lemma {:induction false} FoldOnceSlice<D>(h: Hash<D>, layer: seq<D>, d: nat, k: nat, i: nat)
    requires |layer| == Pow2(d) && 0 < k <= d && i < Pow2(d - k)
    ensures Slice(FoldOnce(h, layer, d), d - 1, k - 1, i)
         == FoldOnce(h, Slice(layer, d, k, i), k)
  {
    hide Pow2, FoldOnce, Slice;
    var up, part := FoldOnce(h, layer, d), Slice(layer, d, k, i);
    Pow2Doubles(k - 1);
    var q := Pow2(k - 1);
    Double(i, q);
    forall j | 0 <= j < q
      ensures Slice(up, d - 1, k - 1, i)[j] == FoldOnce(h, part, k)[j]
    {
      SliceAt(up, d - 1, k - 1, i, j);
      FoldOnceAt(h, layer, d, i * q + j);
      FoldOnceAt(h, part, k, j);
      SliceAt(layer, d, k, i, 2 * j);
      SliceAt(layer, d, k, i, 2 * j + 1);
    }
  }

  lemma {:induction false} Double(i: nat, q: nat)
    ensures i * (2 * q) == 2 * (i * q) && 0 <= i * q
  {
  }

  // An entry `k` levels up is the root of the part of the layer below it.
  lemma {:induction false} FoldIsRootOfSlice<D>(h: Hash<D>, layer: seq<D>, d: nat, k: nat, i: nat)
    requires |layer| == Pow2(d) && k <= d && i < Pow2(d - k)
    ensures Fold(h, layer, d, k)[i] == Root(h, Slice(layer, d, k, i), k)
    decreases k
  {
    hide Pow2, FoldOnce, Slice;
    if k == 0 {
      Pow2Zero();
      SliceAt(layer, d, 0, i, 0);
      assert i * Pow2(0) + 0 == i;
    } else {
      FoldOnceSlice(h, layer, d, k, i);
      FoldIsRootOfSlice(h, FoldOnce(h, layer, d), d - 1, k - 1, i);
    }
  }

  // ---------- Pieces ----------

  function Min(a: nat, b: nat): nat {
    if a < b then a else b
  }

  // What of the file is in piece `p`; nothing, past its end.
  function Piece(data: Bytes, length: nat, p: nat): Bytes {
    MulCompare(p, p + 1, length + 1);
    Distribute(p, 1, length);
    data[Min(p * length, |data|)..Min((p + 1) * length, |data|)]
  }

  // The root of the perfect tree over one piece's own blocks.
  function PieceRoot<D>(h: Hash<D>, data: Bytes, bits: nat, p: nat): D {
    Root(h, Leaves(h, Piece(data, BLOCK * Pow2(bits), p), bits), bits)
  }

  lemma {:induction false} LeafOfPiece<D>(h: Hash<D>, data: Bytes, bits: nat, p: nat, j: nat)
    requires j < Pow2(bits)
    ensures LeafAt(h, data, p * Pow2(bits) + j) == LeafAt(h, Piece(data, BLOCK * Pow2(bits), p), j)
  {
    hide Pow2;
    var length := BLOCK * Pow2(bits);
    var at, piece := p * length, Piece(data, length, p);
    var skip := j * BLOCK;
    PieceOffset(bits, p, j);
    Distribute(p, 1, length);
    if at + skip < |data| {
      SliceOfSlice(data, at, Min(at + length, |data|), skip, Min(|piece|, skip + BLOCK));
      assert at + Min(|piece|, skip + BLOCK) == Min(|data|, at + skip + BLOCK);
    }
  }

  lemma {:induction false} SliceOfSlice(s: Bytes, a: nat, b: nat, lo: nat, hi: nat)
    requires a <= b <= |s| && lo <= hi <= b - a
    ensures s[a..b][lo..hi] == s[a + lo..a + hi]
  {
    assert forall k :: 0 <= k < hi - lo ==> s[a..b][lo..hi][k] == s[a + lo..a + hi][k];
  }

  lemma {:induction false} PieceOffset(bits: nat, p: nat, j: nat)
    requires j < Pow2(bits)
    ensures var length := BLOCK * Pow2(bits);
            && (p * Pow2(bits) + j) * BLOCK == p * length + j * BLOCK
            && 0 <= p * length && j * BLOCK + BLOCK <= length
  {
    hide Pow2;
    assert p * (BLOCK * Pow2(bits)) == p * Pow2(bits) * BLOCK;
    Distribute(p * Pow2(bits), j, BLOCK);
  }

  lemma {:induction false} LeavesOfPiece<D>(h: Hash<D>, data: Bytes, d: nat, bits: nat, p: nat)
    requires bits <= d && p < Pow2(d - bits)
    ensures Slice(Leaves(h, data, d), d, bits, p)
         == Leaves(h, Piece(data, BLOCK * Pow2(bits), p), bits)
  {
    SliceBounds(d, bits, p);
    var slice, own := Slice(Leaves(h, data, d), d, bits, p), Leaves(h, Piece(data, BLOCK * Pow2(bits), p), bits);
    forall j | 0 <= j < Pow2(bits) ensures slice[j] == own[j] {
      LeafOfPiece(h, data, bits, p, j);
    }
  }

  // The piece layer of the file's tree is, entry by entry, the roots of its
  // pieces taken on their own.
  lemma {:induction false} LayerIsPieceRoots<D>(h: Hash<D>, data: Bytes, d: nat, bits: nat, p: nat)
    requires bits <= d && p < Pow2(d - bits)
    ensures Fold(h, Leaves(h, data, d), d, bits)[p] == PieceRoot(h, data, bits, p)
  {
    FoldIsRootOfSlice(h, Leaves(h, data, d), d, bits, p);
    LeavesOfPiece(h, data, d, bits, p);
  }

  // ---------- The tree of a file's blocks ----------

  // The blocks of a file: all of them whole but the last, which is not empty.
  ghost predicate Cut(bs: seq<Bytes>, data: Bytes) {
    && Joined(bs) == data
    && (forall i :: 0 <= i < |bs| - 1 ==> |bs[i]| == 16384)
    && (bs != [] ==> 1 <= |bs[|bs| - 1]| <= 16384)
  }

  lemma {:induction false} CutExists(data: Bytes) returns (bs: seq<Bytes>)
    ensures Cut(bs, data)
    decreases |data|
  {
    if data == [] {
      bs := [];
    } else {
      var last := if |data| % BLOCK == 0 then BLOCK else |data| % BLOCK;
      var front := data[..|data| - last];
      var init := CutExists(front);
      WholeBlocks(init, front);
      bs := init + [data[|data| - last..]];
      assert bs[..|bs| - 1] == init;
    }
  }

  // What is as long as whole blocks is cut into whole blocks.
  lemma {:induction false} WholeBlocks(bs: seq<Bytes>, data: Bytes)
    requires Cut(bs, data) && |data| % BLOCK == 0
    ensures forall i :: 0 <= i < |bs| ==> |bs[i]| == BLOCK
  {
    if bs == [] {
    } else {
      var n := |bs| - 1;
      FullLength(bs[..n]);
    }
  }

  lemma {:induction false} FullLength(bs: seq<Bytes>)
    requires forall i :: 0 <= i < |bs| ==> |bs[i]| == BLOCK
    ensures |Joined(bs)| == |bs| * BLOCK
  {
    if bs == [] {
    } else {
      FullLength(bs[..|bs| - 1]);
    }
  }

  lemma {:induction false} CutLength(bs: seq<Bytes>, data: Bytes)
    requires Cut(bs, data)
    ensures bs == [] <==> data == []
    ensures bs != [] ==> (|bs| - 1) * BLOCK < |data| <= |bs| * BLOCK
  {
    if bs == [] {
    } else {
      FullLength(bs[..|bs| - 1]);
    }
  }

  // Block `i` is where it should be.
  lemma {:induction false} BlockAt(bs: seq<Bytes>, data: Bytes, i: nat)
    requires Cut(bs, data) && i < |bs|
    ensures i * BLOCK < |data|
    ensures data[i * BLOCK..Min(|data|, (i + 1) * BLOCK)] == bs[i]
  {
    CutLength(bs, data);
    var n := |bs| - 1;
    var init := bs[..n];
    FullLength(init);
    var front := Joined(init);
    assert data == front + bs[n];
    if i < n {
      CutInit(bs, data);
      BlockAt(init, front, i);
      SliceOfFront(front, bs[n], i * BLOCK, (i + 1) * BLOCK);
    } else {
      SliceBehind(front, bs[n]);
    }
  }

  lemma {:induction false} CutInit(bs: seq<Bytes>, data: Bytes)
    requires Cut(bs, data) && bs != []
    ensures Cut(bs[..|bs| - 1], Joined(bs[..|bs| - 1]))
  {
  }

  lemma {:induction false} SliceOfFront(front: Bytes, last: Bytes, lo: nat, hi: nat)
    requires lo <= hi <= |front|
    ensures (front + last)[lo..Min(|front + last|, hi)] == front[lo..hi] && Min(|front|, hi) == hi
  {
  }

  lemma {:induction false} SliceBehind(front: Bytes, last: Bytes)
    ensures (front + last)[|front|..] == last && |front + last| == |front| + |last|
  {
  }

  lemma {:induction false} LeafOfBlock<D>(h: Hash<D>, bs: seq<Bytes>, data: Bytes, i: nat)
    requires Cut(bs, data)
    ensures LeafAt(h, data, i) == if i < |bs| then h.block(bs[i]) else h.zero
  {
    CutLength(bs, data);
    if i < |bs| {
      BlockAt(bs, data, i);
    }
  }

  // The tree `d` deep over blocks, from the top: a node is the digest of its two
  // halves, a leaf that of its block, or zeroes where there is none.
  function Tree<D>(h: Hash<D>, bs: seq<Bytes>, d: nat): D
    decreases d
  {
    if d == 0 then (if bs == [] then h.zero else h.block(bs[0]))
    else
      var half := Min(Pow2(d - 1), |bs|);
      h.pair(Tree(h, bs[..half], d - 1), Tree(h, bs[half..], d - 1))
  }

  function BlockLayer<D>(h: Hash<D>, bs: seq<Bytes>, d: nat): (layer: seq<D>)
    ensures |layer| == Pow2(d)
  {
    seq(Pow2(d), i requires i >= 0 => if i < |bs| then h.block(bs[i]) else h.zero)
  }

  lemma {:induction false} HalfLayers<D>(h: Hash<D>, bs: seq<Bytes>, d: nat)
    requires d > 0
    ensures Pow2(1) == 2
    ensures var layer, half := BlockLayer(h, bs, d), Min(Pow2(d - 1), |bs|);
            && Slice(layer, d, d - 1, 0) == BlockLayer(h, bs[..half], d - 1)
            && Slice(layer, d, d - 1, 1) == BlockLayer(h, bs[half..], d - 1)
  {
    hide Slice;
    var layer, half := BlockLayer(h, bs, d), Min(Pow2(d - 1), |bs|);
    Pow2Zero();
    Pow2Doubles(0);
    Pow2Doubles(d - 1);
    var low, high := Slice(layer, d, d - 1, 0), Slice(layer, d, d - 1, 1);
    var lows, highs := BlockLayer(h, bs[..half], d - 1), BlockLayer(h, bs[half..], d - 1);
    forall j | 0 <= j < Pow2(d - 1) ensures low[j] == lows[j] && high[j] == highs[j] {
      SliceAt(layer, d, d - 1, 0, j);
      SliceAt(layer, d, d - 1, 1, j);
    }
  }

  // The level-by-level fold of the blocks' digests and their padding is that tree.
  lemma {:induction false} TreeIsRoot<D>(h: Hash<D>, bs: seq<Bytes>, d: nat)
    requires |bs| <= Pow2(d)
    ensures Root(h, BlockLayer(h, bs, d), d) == Tree(h, bs, d)
    decreases d
  {
    hide Pow2, FoldOnce, Slice;
    var layer := BlockLayer(h, bs, d);
    Pow2Zero();
    if d == 0 {
    } else {
      var half := Min(Pow2(d - 1), |bs|);
      Pow2Doubles(d - 1);
      HalfLayers(h, bs, d);
      TreeIsRoot(h, bs[..half], d - 1);
      TreeIsRoot(h, bs[half..], d - 1);
      FoldNode(h, layer, d, d - 1, 0);
      FoldIsRootOfSlice(h, layer, d, d - 1, 0);
      FoldIsRootOfSlice(h, layer, d, d - 1, 1);
    }
  }

  // The root of the leaf layer is the tree of the blocks, however deep.
  lemma {:induction false} RootIsTree<D>(h: Hash<D>, bs: seq<Bytes>, data: Bytes, d: nat)
    requires Cut(bs, data) && |bs| <= Pow2(d)
    ensures Root(h, Leaves(h, data, d), d) == Tree(h, bs, d)
  {
    hide Pow2, Fold, Cut, LeafAt;
    forall i: nat | i < Pow2(d) ensures Leaves(h, data, d)[i] == BlockLayer(h, bs, d)[i] {
      LeafOfBlock(h, bs, data, i);
    }
    assert Leaves(h, data, d) == BlockLayer(h, bs, d);
    TreeIsRoot(h, bs, d);
  }

  // The blocks of piece `p`, of 2^bits blocks.
  function BlocksOf(bs: seq<Bytes>, bits: nat, p: nat): (own: seq<Bytes>)
    ensures |own| <= Pow2(bits)
  {
    Distribute(p, 1, Pow2(bits));
    bs[Min(p * Pow2(bits), |bs|)..Min((p + 1) * Pow2(bits), |bs|)]
  }

  // The root of a piece is the tree of its own blocks.
  lemma {:induction false} PieceRootIsTree<D>(h: Hash<D>, bs: seq<Bytes>, data: Bytes, bits: nat, p: nat)
    requires Cut(bs, data)
    ensures PieceRoot(h, data, bits, p) == Tree(h, BlocksOf(bs, bits, p), bits)
  {
    hide Pow2, Fold, Cut, LeafAt, Piece;
    var own := BlocksOf(bs, bits, p);
    var leaves := Leaves(h, Piece(data, BLOCK * Pow2(bits), p), bits);
    Distribute(p, 1, Pow2(bits));
    forall j: nat | j < Pow2(bits) ensures leaves[j] == BlockLayer(h, own, bits)[j] {
      LeafOfPiece(h, data, bits, p, j);
      LeafOfBlock(h, bs, data, p * Pow2(bits) + j);
    }
    assert leaves == BlockLayer(h, own, bits);
    TreeIsRoot(h, own, bits);
  }

  // As deep as `blocks` blocks need, and no deeper.
  predicate Deep(d: nat, blocks: nat) {
    blocks <= Pow2(d) && (d > 0 ==> Pow2(d - 1) < blocks)
  }

  // The root of a subtree that is all padding.
  function PadRoot<D>(h: Hash<D>, bits: nat): D {
    Root(h, Leaves(h, [], bits), bits)
  }

  lemma {:induction false} PieceRootPastEnd<D>(h: Hash<D>, data: Bytes, bits: nat, p: nat)
    requires CeilDiv(|data|, BLOCK * Pow2(bits)) <= p
    ensures PieceRoot(h, data, bits, p) == PadRoot(h, bits)
  {
    var length := BLOCK * Pow2(bits);
    CeilDivIs(|data|, length);
    MulCompare(CeilDiv(|data|, length), p, length);
    Distribute(p, 1, length);
    assert Piece(data, length, p) == [];
  }

  function Padded<D>(h: Hash<D>, published: seq<D>, count: nat, bits: nat): (layer: seq<D>)
    requires |published| <= count
    ensures |layer| == count
  {
    published + seq(count - |published|, _ => PadRoot(h, bits))
  }

  // How a reader checks a file against its published root: pad the published
  // piece layer with the root of an all-padding subtree, and fold.
  lemma {:induction false} RootFromLayer<D>(h: Hash<D>, data: Bytes, d: nat, bits: nat, published: seq<D>)
    requires bits <= d
    requires |published| == CeilDiv(|data|, BLOCK * Pow2(bits)) <= Pow2(d - bits)
    requires forall p :: 0 <= p < |published| ==> published[p] == PieceRoot(h, data, bits, p)
    ensures Root(h, Padded(h, published, Pow2(d - bits), bits), d - bits)
         == Root(h, Leaves(h, data, d), d)
  {
    hide Pow2, FoldOnce, Fold, PieceRoot, PadRoot, CeilDiv, Leaves;
    var leaves := Leaves(h, data, d);
    var layer := Fold(h, leaves, d, bits);
    var padded := Padded(h, published, Pow2(d - bits), bits);
    forall p | 0 <= p < Pow2(d - bits) ensures layer[p] == padded[p] {
      LayerIsPieceRoots(h, data, d, bits, p);
      if p >= |published| {
        PieceRootPastEnd(h, data, bits, p);
      }
    }
    assert layer == padded;
    FoldTwice(h, leaves, d, bits, d - bits);
  }

  // ---------- The tree ----------

  datatype MerkleTree<!D> = MerkleTree(
    data: Bytes,
    maxDepth: nat,
    pieceDepth: nat,
    piecesCount: nat,
    hasPieceLayer: bool,
    pieceHashes: array<D>)

  // How deep the tree of a file is. No piece length in it.
  function DepthOf(data: Bytes): nat
    requires data != []
  {
    CeilDivIs(|data|, BLOCK);
    Log2Ceil(CeilDiv(|data|, BLOCK))
  }

  ghost predicate ValidTree<D>(tree: MerkleTree<D>, bits: nat) {
    && 0 < |tree.data| < U64_LIMIT
    && tree.maxDepth == DepthOf(tree.data) <= 50
    && tree.piecesCount == CeilDiv(|tree.data|, BLOCK * Pow2(bits)) <= tree.pieceHashes.Length
    && (tree.hasPieceLayer <==> |tree.data| > BLOCK * Pow2(bits))
    && (tree.hasPieceLayer ==>
          && bits < tree.maxDepth
          && tree.pieceDepth == tree.maxDepth - bits
          && tree.piecesCount <= Pow2(tree.pieceDepth))
  }

  lemma {:induction false} DepthBound(data: Bytes)
    requires 0 < |data| < U64_LIMIT
    ensures 0 < CeilDiv(|data|, BLOCK) <= Pow2(DepthOf(data)) && CeilDiv(|data|, BLOCK) <= Pow2(50)
    ensures DepthOf(data) <= 50
  {
    hide CeilDiv, Pow2;
    CeilDivIs(|data|, BLOCK);
    Pow2Values();
    var blocks := CeilDiv(|data|, BLOCK);
    assert blocks <= Pow2(50);
    Log2CeilIs(blocks);
    if DepthOf(data) > 50 {
      Pow2Monotone(50, DepthOf(data) - 1);
    }
  }

  // Counted in bytes or in blocks, the pieces are as many, and there is more
  // than one exactly when the file is longer than a piece.
  lemma {:induction false} PiecesCount(data: Bytes, bits: nat)
    requires 0 < |data|
    ensures BLOCK * Pow2(bits) > 0
    ensures CeilDiv(CeilDiv(|data|, BLOCK), Pow2(bits)) == CeilDiv(|data|, BLOCK * Pow2(bits))
    ensures CeilDiv(|data|, BLOCK * Pow2(bits)) > 1 <==> |data| > BLOCK * Pow2(bits)
  {
    hide CeilDiv, Pow2;
    var length := BLOCK * Pow2(bits);
    CeilDivTwice(|data|, BLOCK, Pow2(bits));
    CeilDivIs(|data|, length);
    var pieces := CeilDiv(|data|, length);
    MulCompare(pieces, 1, length);
    MulCompare(2, pieces, length);
  }

  // Then the leaves are below the pieces, and the piece layer has room.
  lemma {:induction false} PieceLayerFits(data: Bytes, bits: nat)
    requires 0 < |data| < U64_LIMIT && |data| > BLOCK * Pow2(bits)
    ensures bits < DepthOf(data)
    ensures CeilDiv(|data|, BLOCK * Pow2(bits)) <= Pow2(DepthOf(data) - bits)
  {
    hide CeilDiv, DepthOf, Pow2;
    var depth, blocks := DepthOf(data), CeilDiv(|data|, BLOCK);
    DepthBound(data);
    PiecesCount(data, bits);
    CeilDivIs(|data|, BLOCK);
    if depth <= bits {
      Pow2Monotone(depth, bits);
    }
    Pow2Add(depth - bits, bits);
    CeilDivIs(blocks, Pow2(bits));
    var pieces, room := CeilDiv(blocks, Pow2(bits)), Pow2(depth - bits);
    Distribute(room, 1, Pow2(bits));
    MulCompare(room + 1, pieces, Pow2(bits));
  }

  method MerkleTreeMake<D>(data: Bytes, pieceLength: u64, pieceHashes: array<D>)
    returns (tree: MerkleTree<D>)
    requires 0 < |data| < U64_LIMIT
    requires pieceLength >= BLOCK && IsPowerOfTwo(pieceLength)
    requires CeilDiv(|data|, pieceLength) <= pieceHashes.Length
    ensures pieceLength == BLOCK * Pow2(PieceBits(pieceLength))
    ensures ValidTree(tree, PieceBits(pieceLength))
    ensures tree.data == data && tree.pieceHashes == pieceHashes
  {
    hide CeilDiv, Log2Ceil, Pow2, Ctz, IsPowerOfTwo;
    var blocksCount := CeilDiv(|data|, BLOCK);
    var blocksPerPiece := pieceLength / BLOCK;
    PieceBitsIs(pieceLength);
    ghost var bits := PieceBits(pieceLength);
    DepthBound(data);
    PiecesCount(data, bits);
    if |data| > pieceLength {
      PieceLayerFits(data, bits);
    }
    Pow2Values();
    var padded := NextPowerOfTwo(blocksCount);
    CtzOfPow2(Log2Ceil(blocksCount));
    var maxDepth := Ctz(padded);
    var pieceBits := Ctz(blocksPerPiece);
    var hasPieceLayer := CeilDiv(blocksCount, blocksPerPiece) > 1;
    var pieceDepth: nat := if hasPieceLayer then maxDepth - pieceBits else 0;
    var piecesCount := CeilDiv(blocksCount, blocksPerPiece);
    tree := MerkleTree(data, maxDepth, pieceDepth, piecesCount, hasPieceLayer, pieceHashes);
  }

  // The logarithm of how many blocks are in a piece.
  function PieceBits(pieceLength: nat): nat
    requires pieceLength >= BLOCK
  {
    Ctz(pieceLength / BLOCK)
  }

  lemma {:induction false} PieceBitsIs(pieceLength: nat)
    requires pieceLength >= BLOCK && IsPowerOfTwo(pieceLength)
    ensures pieceLength == BLOCK * Pow2(PieceBits(pieceLength))
    ensures pieceLength / BLOCK == Pow2(PieceBits(pieceLength))
  {
    hide Pow2, Ctz, IsPowerOfTwo;
    CtzIsLog2(pieceLength);
    var k := Ctz(pieceLength);
    Pow2Values();
    if k < 14 {
      Pow2Monotone(k, 14);
    }
    Pow2Add(14, k - 14);
    assert pieceLength / BLOCK == Pow2(k - 14);
    CtzOfPow2(k - 14);
  }

  // ---------- The build ----------

  // Which entries of the piece layer the subtree at (`depth`, `i`) covers.
  function From<D>(tree: MerkleTree<D>, depth: nat, i: nat): nat
    requires depth <= tree.pieceDepth
  {
    Min(i * Pow2(tree.pieceDepth - depth), tree.piecesCount)
  }

  function Covers<D>(tree: MerkleTree<D>, depth: nat, i: nat): (entries: seq<nat>)
  {
    if !tree.hasPieceLayer || depth > tree.pieceDepth then []
    else
      Distribute(i, 1, Pow2(tree.pieceDepth - depth));
      var from, to := From(tree, depth, i), From(tree, depth, i + 1);
      seq(to - from, k requires k >= 0 => from + k)
  }

  lemma {:induction false} CoversSplit<D>(tree: MerkleTree<D>, depth: nat, i: nat)
    requires depth < tree.pieceDepth
    ensures Covers(tree, depth, i) == Covers(tree, depth + 1, 2 * i) + Covers(tree, depth + 1, 2 * i + 1)
  {
    var q := Pow2(tree.pieceDepth - depth - 1);
    assert i * Pow2(tree.pieceDepth - depth) == 2 * i * q;
    assert (i + 1) * Pow2(tree.pieceDepth - depth) == (2 * i + 2) * q;
    Distribute(2 * i, 1, q);
    Distribute(2 * i + 1, 1, q);
  }

  ghost predicate Recorded<D>(
    h: Hash<D>, tree: MerkleTree<D>, bits: nat, entries: seq<nat>, before: seq<D>, now: seq<D>)
  {
    && |now| == |before|
    && forall p :: 0 <= p < |now| ==>
         now[p] == if p in entries then PieceRoot(h, tree.data, bits, p) else before[p]
  }

  // Node `i` of the layer at `depth` below the root of a tree `d` deep.
  function Node<D>(h: Hash<D>, data: Bytes, d: nat, depth: nat, i: nat): D
    requires depth <= d && i < Pow2(depth)
  {
    assert d - (d - depth) == depth;
    Fold(h, Leaves(h, data, d), d, d - depth)[i]
  }

  // The subtree at (`depth`, `i`): its root, and `written`, the piece entries in
  // the order they were recorded.
  method BuildSubTree<D>(h: Hash<D>, tree: MerkleTree<D>, i: nat, depth: nat, ghost bits: nat)
    returns (dst: D, ghost written: seq<nat>)
    requires ValidTree(tree, bits) && depth <= tree.maxDepth && i < Pow2(depth)
    modifies tree.pieceHashes
    ensures dst == Node(h, tree.data, tree.maxDepth, depth, i)
    ensures written == Covers(tree, depth, i)
    ensures Recorded(h, tree, bits, written, old(tree.pieceHashes[..]), tree.pieceHashes[..])
    decreases tree.maxDepth - depth
  {
    hide Fold, FoldOnce, PieceRoot, Pow2, CeilDiv, Log2Ceil, Covers;
    ghost var d, before := tree.maxDepth, tree.pieceHashes[..];
    ghost var leaves := Leaves(h, tree.data, d);
    if tree.maxDepth == depth {
      var offset := i * BLOCK;
      if offset < |tree.data| {
        var remaining := |tree.data| - offset;
        dst := h.block(tree.data[offset..offset + if remaining < BLOCK then remaining else BLOCK]);
      } else {
        dst := h.zero;
      }
      FoldNothing(h, leaves, d);
      written := [];
    } else {
      FoldNode(h, leaves, d, d - depth - 1, i);
      Pow2Doubles(depth);
      var left, right;
      ghost var writtenLeft, writtenRight;
      left, writtenLeft := BuildSubTree(h, tree, 2 * i, depth + 1, bits);
      right, writtenRight := BuildSubTree(h, tree, 2 * i + 1, depth + 1, bits);
      dst := h.pair(left, right);
      written := writtenLeft + writtenRight;
    }
    CoversNothing(tree, depth, i);
    CoversNothing(tree, depth + 1, 2 * i);
    CoversNothing(tree, depth + 1, 2 * i + 1);
    if tree.hasPieceLayer && depth < tree.pieceDepth {
      CoversSplit(tree, depth, i);
    }
    if tree.hasPieceLayer && tree.pieceDepth == depth {
      CoversOne(tree, i);
      if i < tree.piecesCount {
        LayerIsPieceRoots(h, tree.data, d, bits, i);
        tree.pieceHashes[i] := dst;
        written := written + [i];
      }
    }
  }

  lemma {:induction false} FoldNothing<D>(h: Hash<D>, layer: seq<D>, d: nat)
    requires |layer| == Pow2(d)
    ensures Fold(h, layer, d, 0) == layer
  {
  }

  lemma {:induction false} CoversOne<D>(tree: MerkleTree<D>, i: nat)
    requires tree.hasPieceLayer
    ensures Covers(tree, tree.pieceDepth, i) == if i < tree.piecesCount then [i] else []
  {
  }

  lemma {:induction false} CoversNothing<D>(tree: MerkleTree<D>, depth: nat, i: nat)
    ensures !tree.hasPieceLayer || depth > tree.pieceDepth ==> Covers(tree, depth, i) == []
  {
  }

  lemma {:induction false} DepthOfCut(bs: seq<Bytes>, data: Bytes, d: nat)
    requires data != [] && Cut(bs, data) && Deep(d, |bs|)
    ensures DepthOf(data) == d
  {
    hide Cut, Pow2;
    CutLength(bs, data);
    CeilDivUnique(|data|, BLOCK, |bs|);
    Log2CeilUnique(|bs|, d);
  }

  // Whoever cuts the file into blocks and builds the least tree over them comes to
  // the same root, and to the same roots of pieces.
  lemma {:induction false} BuiltIsTree<D>(h: Hash<D>, data: Bytes, bits: nat, root: D, pieceHashes: seq<D>)
    requires data != [] && root == Root(h, Leaves(h, data, DepthOf(data)), DepthOf(data))
    requires forall p :: 0 <= p < |pieceHashes| ==> pieceHashes[p] == PieceRoot(h, data, bits, p)
    ensures forall bs, d: nat :: Cut(bs, data) && Deep(d, |bs|) ==> root == Tree(h, bs, d)
    ensures forall bs, p :: Cut(bs, data) && 0 <= p < |pieceHashes| ==>
              pieceHashes[p] == Tree(h, BlocksOf(bs, bits, p), bits)
  {
    hide Cut, Root, Leaves, Tree, PieceRoot, Pow2, DepthOf;
    forall bs, d: nat | Cut(bs, data) && Deep(d, |bs|) ensures root == Tree(h, bs, d) {
      DepthOfCut(bs, data, d);
      RootIsTree(h, bs, data, d);
    }
    forall bs, p | Cut(bs, data) && 0 <= p < |pieceHashes|
      ensures pieceHashes[p] == Tree(h, BlocksOf(bs, bits, p), bits)
    {
      PieceRootIsTree(h, bs, data, bits, p);
    }
  }

  // The whole tree: every entry of the piece layer written exactly once, in
  // order, and the root that of the leaf layer, whatever the piece length.
  method BuildMerkleTree<D>(h: Hash<D>, data: Bytes, pieceLength: u64, arena: Arena)
    returns (ok: bool, pieceHashes: seq<D>, root: D, arena': Arena, ghost written: seq<nat>)
    requires |data| < U64_LIMIT
    requires pieceLength >= BLOCK && IsPowerOfTwo(pieceLength)
    ensures data == [] ==> ok && pieceHashes == [] && root == h.zero && arena' == arena
    ensures data != [] ==>
              (ok <==> AllocBytes(arena, DIGEST_LEN * CeilDiv(|data|, pieceLength)).Some?)
    ensures !ok ==> pieceHashes == [] && root == h.zero && arena' == arena
    ensures ok && data != [] ==>
              && root == Root(h, Leaves(h, data, DepthOf(data)), DepthOf(data))
              && Some(arena') == AllocBytes(arena, DIGEST_LEN * CeilDiv(|data|, pieceLength))
    ensures ok && |data| <= pieceLength ==> pieceHashes == []
    ensures ok && |data| > pieceLength ==>
              && |pieceHashes| == CeilDiv(|data|, pieceLength)
              && written == seq(|pieceHashes|, p => p)
              && forall p :: 0 <= p < |pieceHashes| ==>
                   pieceHashes[p] == PieceRoot(h, data, PieceBits(pieceLength), p)
    ensures ok && data != [] ==> forall bs, d: nat :: Cut(bs, data) && Deep(d, |bs|) ==> root == Tree(h, bs, d)
    ensures forall bs, p :: Cut(bs, data) && 0 <= p < |pieceHashes| ==>
              pieceHashes[p] == Tree(h, BlocksOf(bs, PieceBits(pieceLength), p), PieceBits(pieceLength))
  {
    hide CeilDiv, Pow2, Log2Ceil, IsPowerOfTwo, Fold, Leaves, PieceRoot, Covers, Cut, Deep, Tree;
    root, pieceHashes, arena', written := h.zero, [], arena, [];
    if |data| == 0 {
      return true, pieceHashes, root, arena', written;
    }
    var piecesCount := CeilDiv(|data|, pieceLength);
    var block := AllocBytes(arena, DIGEST_LEN * piecesCount);
    if block == None {
      return false, pieceHashes, root, arena', written;
    }
    var hashes := new D[piecesCount](_ => h.zero);
    var tree := MerkleTreeMake(data, pieceLength, hashes);
    ghost var bits := PieceBits(pieceLength);
    Pow2Zero();
    root, written := BuildSubTree(h, tree, 0, 0, bits);
    arena' := block.value;
    ok := true;
    if tree.hasPieceLayer {
      pieceHashes := hashes[..tree.piecesCount];
      CoversAll(tree, written);
    }
    BuiltIsTree(h, data, bits, root, pieceHashes);
  }

  // From the top every entry is covered, once and in order.
  lemma {:induction false} CoversAll<D>(tree: MerkleTree<D>, written: seq<nat>)
    requires tree.hasPieceLayer && tree.piecesCount <= Pow2(tree.pieceDepth)
    requires written == Covers(tree, 0, 0)
    ensures written == seq(tree.piecesCount, p => p)
    ensures forall p :: 0 <= p < tree.piecesCount ==> p in written
  {
    CoversTop(tree);
    hide Covers, Pow2;
    forall p | 0 <= p < tree.piecesCount ensures p in written {
      assert written[p] == p;
    }
  }

  lemma {:induction false} CoversTop<D>(tree: MerkleTree<D>)
    requires tree.hasPieceLayer && tree.piecesCount <= Pow2(tree.pieceDepth)
    ensures Covers(tree, 0, 0) == seq(tree.piecesCount, p => p)
  {
  }
}
