// The cached tree of the library: a Tree whose pushed elements are not leaf
// data but the roots of complete blocks of 2^cachedNodeHeight leaves,
// computed elsewhere. A range of leaves is translated into the range of
// blocks that holds it, and the proof is the caller's proof inside the
// block(s) followed by the tree's proof from the blocks upwards.

module CachedTrees {
  import opened Arith
  import opened Hashing
  import opened MerkleSpec
  import opened ProofSpec
  import opened Verifier
  import opened StackSpec
  import opened Ladder
  import opened MerkleTree

  /** The roots of the blocks of 2^ch leaves of the data, left to right:
      what a cached tree over that data is fed. */
  function Blocks(h: Hasher, data: seq<Bytes>, ch: nat): seq<Bytes>
  {
    LevelSeq(h, LeafHashes(h, data), ch)
  }

  /** Every block root is the Merkle root of its 2^ch leaves. */
  lemma {:induction false} BlockIsRoot(h: Hasher, data: seq<Bytes>, ch: nat, off: nat)
    requires Aligned(off, ch) && off + Pow2(ch) <= |data|
    ensures Shr(off, ch) < |Blocks(h, data, ch)|
    ensures Blocks(h, data, ch)[Shr(off, ch)] == MTH(h, data[off..off + Pow2(ch)])
  {
    var hs := LeafHashes(h, data);
    NodeIsRoot(h, hs, ch, off, off + Pow2(ch));
    LevelSeqAt(h, hs, ch, Shr(off, ch));
    LeafHashesSlice(h, data, off, off + Pow2(ch));
  }

  /** The root over the block roots is the root over all the leaves, and
      complete blocks of 2^ch leaves are 2^ch leaves each. */
  lemma {:induction false} CachedRoot(h: Hasher, data: seq<Bytes>, ch: nat)
    ensures RootOf(h, Blocks(h, data, ch)) == RootOf(h, LeafHashes(h, data))
    ensures Aligned(|data|, ch) ==> Pow2(ch) * |Blocks(h, data, ch)| == |data|
  {
    var hs := LeafHashes(h, data);
    if |data| == 0 {
      AlignedZero(ch);
    } else {
      MerkleHashOfLevel(h, hs, ch);
    }
    if Aligned(|data|, ch) {
      CeilAligned(|data|, ch);
      AlignedMul(|data|, ch);
    }
  }

  // ---------------------------------------------------------------------
  // Range translation. Division by 1 << ch is a shift by ch; indices are
  // unsigned 64-bit values, so end - 1 and the + 1 after it wrap.

  /** cachedEnd as SetSlice computes it: (end - 1) / 2^ch + 1. */
  function CachedEnd(pe: nat, ch: nat): nat
  {
    (Shr((pe + U64 - 1) % U64, ch) + 1) % U64
  }

  /** For a non-zero end, cachedEnd is the number of blocks the leaves
      [0, end) reach into: ceil(end / 2^ch). */
  lemma {:induction false} CachedEndIsCeil(pe: nat, ch: nat)
    requires 1 <= pe < U64
    ensures CachedEnd(pe, ch) == CeilPow2(pe, ch)
  {
    assert (pe + U64 - 1) % U64 == pe - 1;
    CeilIsShr(pe, ch);
    ShrAtMost(pe - 1, ch);
  }

  /** SetSlice's acceptance test: the range lies within one block, or it
      starts and ends on block boundaries. */
  predicate Covered(pb: nat, pe: nat, ch: nat)
  {
    CachedEnd(pe, ch) == (Shr(pb, ch) + 1) % U64 || (Aligned(pb, ch) && Aligned(pe, ch))
  }

  /** The test in plain terms: for a non-empty range, either exactly one
      block holds it (it then lies between two consecutive boundaries) or
      both ends are multiples of 2^ch. */
  lemma {:induction false} CoveredMeans(pb: nat, pe: nat, ch: nat)
    requires pb < pe < U64
    ensures Covered(pb, pe, ch) <==> CeilPow2(pe, ch) == Shr(pb, ch) + 1 || (Aligned(pb, ch) && Aligned(pe, ch))
    ensures CeilPow2(pe, ch) == Shr(pb, ch) + 1 <==>
      Trunc(pb, ch) <= pb < pe <= Trunc(pb, ch) + Pow2(ch)
  {
    assert Covered(pb, pe, ch) <==> CeilPow2(pe, ch) == Shr(pb, ch) + 1 || (Aligned(pb, ch) && Aligned(pe, ch)) by {
      CachedEndIsCeil(pe, ch);
      ShrAtMost(pb, ch);
      assert (Shr(pb, ch) + 1) % U64 == Shr(pb, ch) + 1;
    }
    TruncFacts(pb, ch);
    var off := Trunc(pb, ch);
    AlignedAddPow2(off, ch);
    ShrAddPow2(off, ch);
    CeilRange(pe, off + Pow2(ch), ch);
    ShrBelowCeil(pb, pe, ch);
  }

  /** A single index is always accepted, even the largest, whose end wraps
      to 0. */
  lemma {:induction false} IndexCovered(i: nat, ch: nat)
    requires i < U64
    ensures Covered(i, (i + 1) % U64, ch)
  {
    if i + 1 < U64 {
      assert (i + 1) % U64 == i + 1;
      CachedEndIsCeil(i + 1, ch);
      CeilIsShr(i + 1, ch);
      ShrAtMost(i, ch);
      assert (Shr(i, ch) + 1) % U64 == Shr(i, ch) + 1;
    } else {
      assert (i + 1) % U64 == 0;
      assert (0 + U64 - 1) % U64 == i;
    }
  }

  // ---------------------------------------------------------------------
  // The proof inside the blocks, which the caller supplies.

  /** blk is the block of 2^ch leaf-level hashes of hs starting at off. */
  ghost predicate InBlock(hs: seq<Bytes>, blk: seq<Bytes>, off: nat, ch: nat)
  {
    |blk| == Pow2(ch) && Aligned(off, ch) && off + |blk| <= |hs| && blk == hs[off..off + |blk|]
  }

  /** The index arithmetic of a block starting at `off`, at a height l below
      its root: its nodes are shifted by off / 2^l, an even number, and end
      at an even index no further than the level's end. */
  lemma {:induction false} BlockIndices(off: nat, ch: nat, pb: nat, pe: nat, n: nat, l: nat)
    requires Aligned(off, ch) && off <= pb < pe <= off + Pow2(ch) <= n && l < ch
    ensures Shr(off, l) % 2 == 0 && Shr(off + Pow2(ch), l) % 2 == 0
    ensures Shr(pb - off, l) + Shr(off, l) == Shr(pb, l) < CeilPow2(pe, l)
    ensures CeilPow2(pe - off, l) + Shr(off, l) == CeilPow2(pe, l) <= Shr(off + Pow2(ch), l)
    ensures CeilPow2(Pow2(ch), l) + Shr(off, l) == Shr(off + Pow2(ch), l) <= CeilPow2(n, l)
  {
    var top := off + Pow2(ch);
    assert Shr(off, l) % 2 == 0 && Shr(top, l) % 2 == 0 && Aligned(off, l) by {
      AlignedWeaken(off, ch, l + 1);
      AlignedSucc(off, l);
      AlignedAddPow2(off, ch);
      AlignedWeaken(top, ch, l + 1);
      AlignedSucc(top, l);
    }
    assert Shr(pb - off, l) + Shr(off, l) == Shr(pb, l) < CeilPow2(pe, l) by {
      CeilSubAligned(pb, off, l);
      ShrBelowCeil(pb, pe, l);
    }
    assert CeilPow2(Pow2(ch), l) + Shr(off, l) == Shr(top, l) == CeilPow2(top, l) <= CeilPow2(n, l) by {
      AlignedAddPow2(off, ch);
      AlignedWeaken(top, ch, l);
      CeilAligned(top, l);
      CeilSubAligned(top, off, l);
      CeilMonotone(top, n, l);
    }
    CeilSubAligned(pe, off, l);
    CeilMonotone(pe, top, l);
  }

  /** The left neighbour at height l < ch, in index terms: it is a right
      child inside the block exactly when it is one in the whole tree, and
      then its partner lies inside the block too. */
  lemma {:induction false} BlockLeftIndex(off: nat, ch: nat, pb: nat, pe: nat, n: nat, l: nat)
    requires Aligned(off, ch) && off <= pb < pe <= off + Pow2(ch) <= n && l < ch
    ensures Shr(pb, l) % 2 == Shr(pb - off, l) % 2
    ensures Shr(pb, l) % 2 == 1 ==>
      1 <= Shr(pb - off, l) < CeilPow2(Pow2(ch), l) && Shr(pb, l) < CeilPow2(n, l) &&
      Shr(pb - off, l) - 1 + Shr(off, l) == Shr(pb, l) - 1
  {
    BlockIndices(off, ch, pb, pe, n, l);
    EvenShift(Shr(pb - off, l), Shr(off, l));
    ShrBelowCeil(pb - off, pe - off, l);
  }

  /** The right neighbour at height l < ch, in index terms: the last node
      over the range is a left child with a partner inside the block exactly
      when it is one in the whole tree. */
  lemma {:induction false} BlockRightIndex(off: nat, ch: nat, pb: nat, pe: nat, n: nat, l: nat)
    requires Aligned(off, ch) && off <= pb < pe <= off + Pow2(ch) <= n && l < ch
    ensures CeilPow2(pe, l) % 2 == 1 && CeilPow2(pe, l) < CeilPow2(n, l) <==>
      CeilPow2(pe - off, l) % 2 == 1 && CeilPow2(pe - off, l) < CeilPow2(Pow2(ch), l)
    ensures CeilPow2(pe - off, l) + Shr(off, l) == CeilPow2(pe, l)
  {
    BlockIndices(off, ch, pb, pe, n, l);
    EvenShift(CeilPow2(pe - off, l), Shr(off, l));
  }

  /** Node j of height l <= ch inside the block is node j + off / 2^l of the
      whole tree. */
  lemma {:induction false} BlockNode(h: Hasher, hs: seq<Bytes>, blk: seq<Bytes>, off: nat, ch: nat, l: nat, j: nat)
    requires InBlock(hs, blk, off, ch) && l <= ch && j < CeilPow2(|blk|, l)
    ensures j + Shr(off, l) < CeilPow2(|hs|, l)
    ensures Node(h, blk, l, j) == Node(h, hs, l, j + Shr(off, l))
  {
    var top := off + |blk|;
    var d := Shr(off, l);
    assert Aligned(off, l) && CeilPow2(|blk|, l) + d == Shr(top, l) by {
      AlignedWeaken(off, ch, l);
      AlignedAddPow2(off, ch);
      AlignedWeaken(top, ch, l);
      CeilAligned(top, l);
      CeilSubAligned(top, off, l);
    }
    var pre := hs[..top];
    assert |pre| - off == |blk| && pre[off..] == blk;
    assert CeilPow2(|pre| - off, l) == CeilPow2(|blk|, l);
    NodeDrop(h, pre, off, l, j);
    assert hs == pre + hs[top..];
    NodePrefix(h, pre, hs[top..], l, j + d);
  }

  /** The left neighbour at height l < ch exists inside the block exactly
      when it does in the whole tree, and is the same node. */
  lemma {:induction false} BlockLeft(h: Hasher, hs: seq<Bytes>, blk: seq<Bytes>, off: nat, ch: nat, pb: nat, pe: nat, l: nat)
    requires InBlock(hs, blk, off, ch) && off <= pb < pe <= off + |blk| && l < ch
    ensures Shr(pb, l) % 2 == Shr(pb - off, l) % 2
    ensures Shr(pb, l) % 2 == 1 ==>
      (1 <= Shr(pb - off, l) < CeilPow2(|blk|, l) && Shr(pb, l) < CeilPow2(|hs|, l) &&
       Node(h, hs, l, Shr(pb, l) - 1) == Node(h, blk, l, Shr(pb - off, l) - 1))
  {
    assert CeilPow2(|blk|, l) == CeilPow2(Pow2(ch), l);
    BlockLeftIndex(off, ch, pb, pe, |hs|, l);
    if Shr(pb, l) % 2 == 1 {
      BlockNode(h, hs, blk, off, ch, l, Shr(pb - off, l) - 1);
    }
  }

  /** The right neighbour at height l < ch exists inside the block exactly
      when it does in the whole tree, and is the same node. */
  lemma {:induction false} BlockRight(h: Hasher, hs: seq<Bytes>, blk: seq<Bytes>, off: nat, ch: nat, pb: nat, pe: nat, l: nat)
    requires InBlock(hs, blk, off, ch) && off <= pb < pe <= off + |blk| && l < ch
    ensures CeilPow2(pe, l) % 2 == 1 && CeilPow2(pe, l) < CeilPow2(|hs|, l) <==>
      CeilPow2(pe - off, l) % 2 == 1 && CeilPow2(pe - off, l) < CeilPow2(|blk|, l)
    ensures CeilPow2(pe, l) % 2 == 1 && CeilPow2(pe, l) < CeilPow2(|hs|, l) ==>
      Node(h, hs, l, CeilPow2(pe, l)) == Node(h, blk, l, CeilPow2(pe - off, l))
  {
    assert CeilPow2(|blk|, l) == CeilPow2(Pow2(ch), l);
    BlockRightIndex(off, ch, pb, pe, |hs|, l);
    if CeilPow2(pe, l) % 2 == 1 && CeilPow2(pe, l) < CeilPow2(|hs|, l) {
      BlockNode(h, hs, blk, off, ch, l, CeilPow2(pe - off, l));
    }
  }

  /** Two ranges have the same neighbours at height l when the same
      neighbours exist and are the same nodes. */
  lemma {:induction false} SiblingsAgree(h: Hasher, xs: seq<Bytes>, ys: seq<Bytes>, xb: nat, xe: nat, yb: nat, ye: nat, l: nat)
    requires xb < xe <= |xs| && yb < ye <= |ys|
    requires Shr(xb, l) % 2 == Shr(yb, l) % 2
    requires Shr(xb, l) % 2 == 1 ==>
      (1 <= Shr(yb, l) < CeilPow2(|ys|, l) && Shr(xb, l) < CeilPow2(|xs|, l) &&
       Node(h, xs, l, Shr(xb, l) - 1) == Node(h, ys, l, Shr(yb, l) - 1))
    requires CeilPow2(xe, l) % 2 == 1 && CeilPow2(xe, l) < CeilPow2(|xs|, l) <==>
      CeilPow2(ye, l) % 2 == 1 && CeilPow2(ye, l) < CeilPow2(|ys|, l)
    requires CeilPow2(xe, l) % 2 == 1 && CeilPow2(xe, l) < CeilPow2(|xs|, l) ==>
      Node(h, xs, l, CeilPow2(xe, l)) == Node(h, ys, l, CeilPow2(ye, l))
    ensures SiblingsAt(h, xs, xb, xe, l) == SiblingsAt(h, ys, yb, ye, l)
  {
    SiblingsAtIs(h, xs, xb, xe, l);
    SiblingsAtIs(h, ys, yb, ye, l);
  }

  /** The neighbours at height l, spelled out: the node left of the first
      one over the range when that one is a right child, and the node right
      of the last one when that one is a left child with a partner. */
  lemma {:induction false} SiblingsAtIs(h: Hasher, hs: seq<Bytes>, pb: nat, pe: nat, l: nat)
    requires pb < pe <= |hs|
    ensures Shr(pb, l) < CeilPow2(pe, l) <= CeilPow2(|hs|, l)
    ensures SiblingsAt(h, hs, pb, pe, l) ==
      (if Shr(pb, l) % 2 == 1 then [Node(h, hs, l, Shr(pb, l) - 1)] else []) +
      (if CeilPow2(pe, l) % 2 == 1 && CeilPow2(pe, l) < CeilPow2(|hs|, l) then [Node(h, hs, l, CeilPow2(pe, l))] else [])
  {
    ShrBelowCeil(pb, pe, l);
    CeilMonotone(pe, |hs|, l);
  }

  /** One height below the block: the neighbours at height l < ch of the
      leaves [pb, pe) inside the block starting at `off` are those the block
      alone gives them. */
  lemma {:induction false} BlockSiblings(h: Hasher, hs: seq<Bytes>, blk: seq<Bytes>, off: nat, ch: nat, pb: nat, pe: nat, l: nat)
    requires InBlock(hs, blk, off, ch) && off <= pb < pe <= off + |blk| && l < ch
    ensures SiblingsAt(h, hs, pb, pe, l) == SiblingsAt(h, blk, pb - off, pe - off, l)
  {
    BlockLeft(h, hs, blk, off, ch, pb, pe, l);
    BlockRight(h, hs, blk, off, ch, pb, pe, l);
    SiblingsAgree(h, hs, blk, pb, pe, pb - off, pe - off, l);
  }

  /** The neighbours below height ch of leaves inside one block are the
      neighbours the block's own tree gives them. */
  lemma {:induction false} BlockTail(h: Hasher, hs: seq<Bytes>, blk: seq<Bytes>, off: nat, ch: nat, pb: nat, pe: nat, l: nat)
    requires InBlock(hs, blk, off, ch) && off <= pb < pe <= off + |blk| && l <= ch
    ensures TailBelow(h, hs, pb, pe, l, ch) == TailAt(h, blk, pb - off, pe - off, l)
    decreases ch - l
  {
    if l == ch {
      CeilOne(|blk|, ch);
    } else {
      Pow2Succ(l);
      Pow2Monotone(l + 1, ch);
      CeilAtMostOne(|blk|, l);
      CeilMonotone(|blk|, |hs|, l);
      BlockSiblings(h, hs, blk, off, ch, pb, pe, l);
      BlockTail(h, hs, blk, off, ch, pb, pe, l + 1);
    }
  }

  /** For a range inside the block blk, the proof of the range within blk
      is the data of the range followed by the neighbours below height ch in
      the whole tree: the proof set a caller passes to Prove. */
  lemma {:induction false} BlockProof(h: Hasher, data: seq<Bytes>, blk: seq<Bytes>, ch: nat, off: nat, pb: nat, pe: nat)
    requires InBlock(data, blk, off, ch) && off <= pb < pe <= off + |blk|
    ensures ProofOf(h, blk, pb - off, pe - off) == data[pb..pe] + TailBelow(h, LeafHashes(h, data), pb, pe, 0, ch)
  {
    var b, e := pb - off, pe - off;
    BlockSlice(data, blk, off, ch, pb, pe);
    ProofTail(h, blk, b, e);
    BlockLeafTail(h, data, blk, off, ch, pb, pe);
    Rejoin(ProofOf(h, blk, b, e), blk[b..e], TailAt(h, LeafHashes(h, blk), b, e, 0), data[pb..pe], TailBelow(h, LeafHashes(h, data), pb, pe, 0, ch));
  }

  /** The range, read inside the block, is the range of the data. */
  lemma {:induction false} BlockSlice(data: seq<Bytes>, blk: seq<Bytes>, off: nat, ch: nat, pb: nat, pe: nat)
    requires InBlock(data, blk, off, ch) && off <= pb < pe <= off + |blk|
    ensures blk[pb - off..pe - off] == data[pb..pe]
  {
    SliceOfSlice(data, off, off + |blk|, pb - off, pe - off);
  }

  /** Equal parts make equal concatenations. */
  lemma Rejoin(whole: seq<Bytes>, head: seq<Bytes>, tail: seq<Bytes>, head': seq<Bytes>, tail': seq<Bytes>)
    requires whole == head + tail && head == head' && tail == tail'
    ensures whole == head' + tail'
  {
  }

  /** The same, over the leaf hashes: the neighbours below height ch of
      leaves inside a block of data are those of the block's own tree. */
  lemma {:induction false} BlockLeafTail(h: Hasher, data: seq<Bytes>, blk: seq<Bytes>, off: nat, ch: nat, pb: nat, pe: nat)
    requires InBlock(data, blk, off, ch) && off <= pb < pe <= off + |blk|
    ensures TailBelow(h, LeafHashes(h, data), pb, pe, 0, ch) == TailAt(h, LeafHashes(h, blk), pb - off, pe - off, 0)
  {
    var lh := LeafHashes(h, blk);
    assert InBlock(LeafHashes(h, data), lh, off, ch) by {
      LeafHashesSlice(h, data, off, off + |blk|);
    }
    BlockTail(h, LeafHashes(h, data), lh, off, ch, pb, pe, 0);
  }

  /** For a range of whole blocks there are no neighbours below height ch:
      the caller's proof set is the data of the range. */
  lemma {:induction false} WholeBlocksTail(h: Hasher, hs: seq<Bytes>, ch: nat, pb: nat, pe: nat, l: nat)
    requires pb < pe <= |hs| && l <= ch && Aligned(pb, ch) && Aligned(pe, ch)
    ensures TailBelow(h, hs, pb, pe, l, ch) == []
    decreases ch - l
  {
    if l < ch && CeilPow2(|hs|, l) > 1 {
      AlignedWeaken(pb, ch, l + 1);
      AlignedSucc(pb, l);
      AlignedWeaken(pe, ch, l + 1);
      AlignedSucc(pe, l);
      CeilAligned(pe, l);
      WholeBlocksTail(h, hs, ch, pb, pe, l + 1);
    }
  }

  // ---------------------------------------------------------------------
  // Prove's splice.

  /** cut := cachedEnd - cachedBegin, in unsigned 64-bit arithmetic. */
  function Cut(cb: nat, ce: nat): nat
    requires cb < U64 && ce < U64
  {
    (ce + U64 - cb) % U64
  }

  lemma {:induction false} CutIsDiff(cb: nat, ce: nat)
    requires cb <= ce < U64
    ensures Cut(cb, ce) == ce - cb
  {
    assert ce + U64 - cb == (ce - cb) + U64;
  }

  /** The proof Prove assembles: the caller's proof set, then the tree's
      proof without its first `cut` entries (the roots of the cached elements
      in the range, which the caller's proof already accounts for); nothing
      when the tree's proof is shorter than that. A missing tree proof
      counts as empty. */
  function Splice(cachedProofSet: seq<Bytes>, tail: Option<seq<Bytes>>, cut: nat): Option<seq<Bytes>>
  {
    var t := if tail.Some? then tail.value else [];
    if |t| < cut then None else Some(cachedProofSet + t[cut..])
  }

  /** Splicing after exactly the entries the tree's proof starts with
      keeps the rest of that proof. */
  lemma {:induction false} SpliceAppend(cachedProofSet: seq<Bytes>, head: seq<Bytes>, rest: seq<Bytes>)
    ensures Splice(cachedProofSet, Some(head + rest), |head|) == Some(cachedProofSet + rest)
  {
    assert (head + rest)[|head|..] == rest;
  }

  /** The tree's proof over the block roots of the blocks holding [pb, pe):
      the roots of those blocks, then the neighbours of height ch and above
      in the tree over all the leaves. */
  lemma {:induction false} BlocksProof(h: Hasher, data: seq<Bytes>, ch: nat, pb: nat, pe: nat)
    requires pb < pe <= |data|
    ensures Shr(pb, ch) < CeilPow2(pe, ch) <= |Blocks(h, data, ch)|
    ensures TreeProof(h, Blocks(h, data, ch), Blocks(h, data, ch), Shr(pb, ch), CeilPow2(pe, ch)) ==
      Some(Blocks(h, data, ch)[Shr(pb, ch)..CeilPow2(pe, ch)] + TailAt(h, LeafHashes(h, data), pb, pe, ch))
  {
    var bl := Blocks(h, data, ch);
    var cb, ce := Shr(pb, ch), CeilPow2(pe, ch);
    ShrBelowCeil(pb, pe, ch);
    CeilMonotone(pe, |data|, ch);
    TailAtOfLevel(h, LeafHashes(h, data), pb, pe, ch);
    assert Bases(bl, cb, ce) == bl[cb..ce];
  }

  /** A proof of leaves splits at height ch into the data and neighbours
      below it and the neighbours from it upwards. */
  lemma {:induction false} ProofSplit(h: Hasher, data: seq<Bytes>, ch: nat, pb: nat, pe: nat)
    requires pb < pe <= |data|
    ensures ProofOf(h, data, pb, pe) ==
      (data[pb..pe] + TailBelow(h, LeafHashes(h, data), pb, pe, 0, ch)) + TailAt(h, LeafHashes(h, data), pb, pe, ch)
  {
    ProofTail(h, data, pb, pe);
    TailSplit(h, LeafHashes(h, data), pb, pe, 0, ch);
  }

  /** Fed the block roots of complete blocks of data, after SetSlice(pb, pe),
      Prove with the caller's proof inside the block(s) returns the proof a
      plain tree over all the leaves would return, and it verifies against
      the root and the number of leaves Prove reports. */
  lemma {:induction false} CachedProveComplete(h: Hasher, data: seq<Bytes>, ch: nat, pb: nat, pe: nat, cachedProofSet: seq<Bytes>)
    requires pb < pe <= |data| && pe < U64 && Aligned(|data|, ch)
    requires cachedProofSet == data[pb..pe] + TailBelow(h, LeafHashes(h, data), pb, pe, 0, ch)
    ensures Shr(pb, ch) < U64 && CachedEnd(pe, ch) < U64
    ensures Splice(cachedProofSet,
                   TreeProof(h, Blocks(h, data, ch), Blocks(h, data, ch), Shr(pb, ch), CachedEnd(pe, ch)),
                   Cut(Shr(pb, ch), CachedEnd(pe, ch))) == Some(ProofOf(h, data, pb, pe))
    ensures Verifies(h, RootOf(h, Blocks(h, data, ch)), ProofOf(h, data, pb, pe), pb, pe, Pow2(ch) * |Blocks(h, data, ch)|)
  {
    var bl := Blocks(h, data, ch);
    var hs := LeafHashes(h, data);
    CachedEndIsCeil(pe, ch);
    ShrAtMost(pb, ch);
    assert TreeProof(h, bl, bl, Shr(pb, ch), CachedEnd(pe, ch)) ==
      Some(bl[Shr(pb, ch)..CeilPow2(pe, ch)] + TailAt(h, hs, pb, pe, ch)) by {
      BlocksProof(h, data, ch, pb, pe);
    }
    assert Cut(Shr(pb, ch), CachedEnd(pe, ch)) == |bl[Shr(pb, ch)..CeilPow2(pe, ch)]| by {
      BlocksProof(h, data, ch, pb, pe);
      CeilIsShr(pe, ch);
      ShrAtMost(pe - 1, ch);
      CutIsDiff(Shr(pb, ch), CeilPow2(pe, ch));
    }
    SpliceAppend(cachedProofSet, bl[Shr(pb, ch)..CeilPow2(pe, ch)], TailAt(h, hs, pb, pe, ch));
    ProofSplit(h, data, ch, pb, pe);
    assert Verifies(h, RootOf(h, bl), ProofOf(h, data, pb, pe), pb, pe, Pow2(ch) * |bl|) by {
      CachedRoot(h, data, ch);
      TreeProofComplete(h, data, pb, pe);
    }
  }

  /** What ProveCached returns for a range of whole blocks: the roots of
      the blocks in the range followed by the same neighbours above height ch
      that end the proof of the leaves. */
  lemma {:induction false} CachedElementsProof(h: Hasher, data: seq<Bytes>, ch: nat, pb: nat, pe: nat)
    requires pb < pe <= |data| && Aligned(pb, ch) && Aligned(pe, ch)
    ensures Shr(pb, ch) < Shr(pe, ch) <= |Blocks(h, data, ch)|
    ensures TreeProof(h, Blocks(h, data, ch), Blocks(h, data, ch), Shr(pb, ch), Shr(pe, ch)) ==
      Some(Blocks(h, data, ch)[Shr(pb, ch)..Shr(pe, ch)] + TailAt(h, LeafHashes(h, data), pb, pe, ch))
    ensures ProofOf(h, data, pb, pe) == data[pb..pe] + TailAt(h, LeafHashes(h, data), pb, pe, ch)
  {
    var hs := LeafHashes(h, data);
    assert Shr(pb, ch) < Shr(pe, ch) <= |Blocks(h, data, ch)| &&
      TreeProof(h, Blocks(h, data, ch), Blocks(h, data, ch), Shr(pb, ch), Shr(pe, ch)) ==
      Some(Blocks(h, data, ch)[Shr(pb, ch)..Shr(pe, ch)] + TailAt(h, hs, pb, pe, ch)) by {
      CeilAligned(pe, ch);
      BlocksProof(h, data, ch, pb, pe);
    }
    assert ProofOf(h, data, pb, pe) == data[pb..pe] + TailAt(h, hs, pb, pe, ch) by {
      ProofSplit(h, data, ch, pb, pe);
      WholeBlocksTail(h, hs, ch, pb, pe, 0);
      assert data[pb..pe] + TailBelow(h, hs, pb, pe, 0, ch) == data[pb..pe];
    }
  }

  /** 1 << ch as an unsigned 64-bit value: zero once the shift passes the
      width. */
  function LeavesPerCachedNode(ch: nat): nat
  {
    if ch < 64 then Pow2(ch) else 0
  }

  class CachedTree {
    const cachedNodeHeight: nat
    var trueProofBegin: nat
    var trueProofEnd: nat
    var cachedBegin: nat
    var cachedEnd: nat
    /** The embedded tree, over the cached block roots. */
    const tree: Tree

    ghost predicate Valid()
      reads this, tree
    {
      tree.Valid() && tree.cachedTree &&
      trueProofBegin < U64 && trueProofEnd < U64 && cachedBegin < U64 && cachedEnd < U64
    }

    /** NewCachedTree: an empty cached tree whose elements are roots of
        blocks of 2^cachedNodeHeight leaves; the range is [0, 0). */
    constructor (h: Hasher, cachedNodeHeight: nat)
      ensures Valid() && fresh(tree) && tree.data == [] && tree.hash == h
      ensures this.cachedNodeHeight == cachedNodeHeight
      ensures trueProofBegin == 0 && trueProofEnd == 0 && cachedBegin == 0 && cachedEnd == 0
      ensures tree.proofBegin == 0 && tree.proofEnd == 0
    {
      this.cachedNodeHeight := cachedNodeHeight;
      trueProofBegin, trueProofEnd := 0, 0;
      cachedBegin, cachedEnd := 0, 0;
      tree := new Tree(h, true, 0, 0);
    }

    /** Push the root of the next block, unhashed. */
    method Push(d: Bytes)
      requires Valid()
      modifies tree
      ensures Valid() && tree.data == old(tree.data) + [d]
      ensures tree.proofBegin == old(tree.proofBegin) && tree.proofEnd == old(tree.proofEnd)
    {
      tree.Push(d);
    }

    /** SetSlice: choose the leaves [proofBegin, proofEnd) to prove. Refused
        once a block has been pushed, with nothing changed; refused when the
        range spans several blocks without starting and ending on block
        boundaries, with the range fields already overwritten but the
        embedded tree's range left alone. */
    method SetSlice(proofBegin: nat, proofEnd: nat) returns (ok: bool)
      requires Valid() && cachedNodeHeight < 64 && proofBegin < U64 && proofEnd < U64
      modifies this, tree
      ensures Valid() && tree.data == old(tree.data)
      ensures ok <==> old(|tree.data|) == 0 && Covered(proofBegin, proofEnd, cachedNodeHeight)
      ensures old(|tree.data|) == 0 ==>
        trueProofBegin == proofBegin && trueProofEnd == proofEnd &&
        cachedBegin == Shr(proofBegin, cachedNodeHeight) && cachedEnd == CachedEnd(proofEnd, cachedNodeHeight)
      ensures old(|tree.data|) != 0 ==>
        trueProofBegin == old(trueProofBegin) && trueProofEnd == old(trueProofEnd) &&
        cachedBegin == old(cachedBegin) && cachedEnd == old(cachedEnd)
      ensures ok ==> tree.proofBegin == cachedBegin && tree.proofEnd == cachedEnd
      ensures !ok ==> tree.proofBegin == old(tree.proofBegin) && tree.proofEnd == old(tree.proofEnd)
    {
      PeaksEnds(tree.hash, tree.Leaves());
      if |tree.stack| != 0 {
        return false;
      }
      trueProofBegin, trueProofEnd := proofBegin, proofEnd;
      ShrAtMost(proofBegin, cachedNodeHeight);
      cachedBegin := Shr(proofBegin, cachedNodeHeight);
      cachedEnd := CachedEnd(proofEnd, cachedNodeHeight);
      if cachedEnd != (cachedBegin + 1) % U64 {
        if !Aligned(proofBegin, cachedNodeHeight) || !Aligned(proofEnd, cachedNodeHeight) {
          return false;
        }
      }
      ok := tree.SetSlice(cachedBegin, cachedEnd);
    }

    /** SetIndex: prove the single leaf i; always accepted on an empty
        tree, and refused with nothing changed on a non-empty one. */
    method SetIndex(i: nat) returns (ok: bool)
      requires Valid() && cachedNodeHeight < 64 && i < U64
      modifies this, tree
      ensures Valid() && tree.data == old(tree.data)
      ensures ok <==> old(|tree.data|) == 0
      ensures ok ==>
        trueProofBegin == i && trueProofEnd == (i + 1) % U64 &&
        cachedBegin == Shr(i, cachedNodeHeight) && cachedEnd == CachedEnd((i + 1) % U64, cachedNodeHeight) &&
        tree.proofBegin == cachedBegin && tree.proofEnd == cachedEnd
      ensures !ok ==>
        trueProofBegin == old(trueProofBegin) && trueProofEnd == old(trueProofEnd) &&
        cachedBegin == old(cachedBegin) && cachedEnd == old(cachedEnd) &&
        tree.proofBegin == old(tree.proofBegin) && tree.proofEnd == old(tree.proofEnd)
    {
      IndexCovered(i, cachedNodeHeight);
      ok := SetSlice(i, (i + 1) % U64);
    }

    /** Prove: the root, the caller's proof inside the block(s) spliced
        onto the tree's proof, the first leaf of the range and the number of
        leaves, 2^cachedNodeHeight per block. Nothing changes. */
    method Prove(cachedProofSet: seq<Bytes>)
      returns (merkleRoot: Option<Bytes>, proofSet: Option<seq<Bytes>>, proofIndex: nat, numLeaves: nat)
      requires Valid()
      ensures merkleRoot == RootOf(tree.hash, tree.data)
      ensures proofSet == Splice(cachedProofSet,
                                 TreeProof(tree.hash, tree.data, tree.data, tree.proofBegin, tree.proofEnd),
                                 Cut(cachedBegin, cachedEnd))
      ensures proofIndex == trueProofBegin
      ensures numLeaves == LeavesPerCachedNode(cachedNodeHeight) * |tree.data| % U64
    {
      var leavesPerCachedNode := if cachedNodeHeight < 64 then Pow2(cachedNodeHeight) else 0;
      numLeaves := leavesPerCachedNode * tree.currentIndex % U64;
      var cut := (cachedEnd + U64 - cachedBegin) % U64;
      var tail: Option<seq<Bytes>>, begin, leaves;
      merkleRoot, tail, begin, leaves := tree.Prove();
      var proofSetTail := if tail.Some? then tail.value else [];
      if |proofSetTail| < cut {
        return merkleRoot, None, trueProofBegin, numLeaves;
      }
      proofSet := Some(cachedProofSet + proofSetTail[cut..]);
      proofIndex := trueProofBegin;
    }

    /** ProveCached: the tree's own proof over the cached elements, or
        nothing when it is empty or the range is not a whole number of
        blocks long. */
    method ProveCached()
      returns (merkleRoot: Option<Bytes>, proofSet: Option<seq<Bytes>>, proofIndex: nat, numLeaves: nat)
      requires Valid() && cachedNodeHeight < 64
      ensures merkleRoot == RootOf(tree.hash, tree.data)
      ensures proofSet.Some? <==>
        TreeProof(tree.hash, tree.data, tree.data, tree.proofBegin, tree.proofEnd).Some? &&
        |TreeProof(tree.hash, tree.data, tree.data, tree.proofBegin, tree.proofEnd).value| >= 1 &&
        Aligned((trueProofEnd + U64 - trueProofBegin) % U64, cachedNodeHeight)
      ensures proofSet.Some? ==> proofSet == TreeProof(tree.hash, tree.data, tree.data, tree.proofBegin, tree.proofEnd)
      ensures proofIndex == trueProofBegin
      ensures numLeaves == LeavesPerCachedNode(cachedNodeHeight) * |tree.data| % U64
    {
      numLeaves := Pow2(cachedNodeHeight) * tree.currentIndex % U64;
      var begin, leaves;
      merkleRoot, proofSet, begin, leaves := tree.Prove();
      proofIndex := trueProofBegin;
      if proofSet.None? || |proofSet.value| < 1 {
        return merkleRoot, None, proofIndex, numLeaves;
      }
      if !Aligned((trueProofEnd + U64 - trueProofBegin) % U64, cachedNodeHeight) {
        return merkleRoot, None, proofIndex, numLeaves;
      }
    }
  }
}
