// What a proof of the leaves [b, e) consists of. The verifier rebuilds the
// root level by level; on each level it needs the left neighbour of the first
// node when that node is a right child, and the right neighbour of the last
// node when that node is a left child with a partner. A proof is the chosen
// leaves followed by those neighbours, lowest level first.
module ProofSpec {
  import opened Arith
  import opened Hashing
  import opened MerkleSpec

  /** The neighbours needed on one level `lv` for its nodes [b, e). */
  function Siblings(lv: seq<Bytes>, b: nat, e: nat): seq<Bytes>
    requires b < e <= |lv|
  {
    (if b % 2 == 1 then [lv[b - 1]] else []) + (if e % 2 == 1 && e < |lv| then [lv[e]] else [])
  }

  /** The neighbours needed from level `lv` up to the root, for its nodes
      [b, e). */
  function TailFrom(h: Hasher, lv: seq<Bytes>, b: nat, e: nat): seq<Bytes>
    requires b < e <= |lv|
    decreases |lv|
  {
    if |lv| <= 1 then []
    else Siblings(lv, b, e) + TailFrom(h, PairUp(h, lv), b / 2, (e + 1) / 2)
  }

  /** The proof of the leaves [b, e) of `data`. */
  function ProofOf(h: Hasher, data: seq<Bytes>, b: nat, e: nat): seq<Bytes>
    requires b < e <= |data|
  {
    data[b..e] + TailFrom(h, LeafHashes(h, data), b, e)
  }

  /** A proof starts with the leaves themselves and goes on with their
      neighbours. */
  lemma {:induction false} ProofParts(h: Hasher, data: seq<Bytes>, b: nat, e: nat)
    requires b < e <= |data|
    ensures |ProofOf(h, data, b, e)| >= e - b
    ensures ProofOf(h, data, b, e)[..e - b] == data[b..e]
    ensures ProofOf(h, data, b, e)[e - b..] == TailFrom(h, LeafHashes(h, data), b, e)
  {
  }

  // The same neighbours named by height, as the tree collects them: the
  // leaves [pb, pe) lie under the nodes [pb / 2^L, ceil(pe / 2^L)) of height L.

  function SiblingsAt(h: Hasher, hs: seq<Bytes>, pb: nat, pe: nat, level: nat): seq<Bytes>
    requires pb < pe <= |hs|
  {
    var b, e, n := Shr(pb, level), CeilPow2(pe, level), CeilPow2(|hs|, level);
    ShrBelowCeil(pb, pe, level);
    CeilMonotone(pe, |hs|, level);
    (if b % 2 == 1 then [Node(h, hs, level, b - 1)] else []) +
    (if e % 2 == 1 && e < n then [Node(h, hs, level, e)] else [])
  }

  /** The neighbours of heights `level` and above. */
  function TailAt(h: Hasher, hs: seq<Bytes>, pb: nat, pe: nat, level: nat): seq<Bytes>
    requires pb < pe <= |hs|
    decreases CeilPow2(|hs|, level)
  {
    if CeilPow2(|hs|, level) <= 1 then []
    else
      CeilSucc(|hs|, level);
      SiblingsAt(h, hs, pb, pe, level) + TailAt(h, hs, pb, pe, level + 1)
  }

  /** The neighbours of heights `level` up to, but not including, `top`. */
  function TailBelow(h: Hasher, hs: seq<Bytes>, pb: nat, pe: nat, level: nat, top: nat): seq<Bytes>
    requires pb < pe <= |hs|
    decreases top - level
  {
    if top <= level || CeilPow2(|hs|, level) <= 1 then []
    else SiblingsAt(h, hs, pb, pe, level) + TailBelow(h, hs, pb, pe, level + 1, top)
  }

  /** Collected by height, the neighbours are those the verifier consumes
      level by level. */
  lemma {:induction false} TailAtIsTailFrom(h: Hasher, hs: seq<Bytes>, pb: nat, pe: nat, level: nat)
    requires pb < pe <= |hs|
    ensures Shr(pb, level) < CeilPow2(pe, level) <= CeilPow2(|hs|, level)
    ensures TailAt(h, hs, pb, pe, level) ==
      TailFrom(h, LevelSeq(h, hs, level), Shr(pb, level), CeilPow2(pe, level))
    decreases CeilPow2(|hs|, level)
  {
    var lv := LevelSeq(h, hs, level);
    var b, e := Shr(pb, level), CeilPow2(pe, level);
    ShrBelowCeil(pb, pe, level);
    CeilMonotone(pe, |hs|, level);
    if CeilPow2(|hs|, level) > 1 {
      SiblingsAtLevel(h, hs, pb, pe, level);
      var up := LevelSeq(h, hs, level + 1);
      var b2, e2 := Shr(pb, level + 1), CeilPow2(pe, level + 1);
      LevelSeqSucc(h, hs, level);
      ShrSucc(pb, level);
      CeilSucc(pe, level);
      CeilSucc(|hs|, level);
      assert up == PairUp(h, lv) && b2 == b / 2 && e2 == (e + 1) / 2;
      TailAtIsTailFrom(h, hs, pb, pe, level + 1);
      var above := TailAt(h, hs, pb, pe, level + 1);
      assert TailAt(h, hs, pb, pe, level) == SiblingsAt(h, hs, pb, pe, level) + above;
      assert TailFrom(h, lv, b, e) == Siblings(lv, b, e) + TailFrom(h, up, b2, e2);
    }
  }

  /** The neighbours named by height are the neighbours on that level. */
  lemma {:induction false} SiblingsAtLevel(h: Hasher, hs: seq<Bytes>, pb: nat, pe: nat, level: nat)
    requires pb < pe <= |hs|
    ensures Shr(pb, level) < CeilPow2(pe, level) <= |LevelSeq(h, hs, level)|
    ensures Siblings(LevelSeq(h, hs, level), Shr(pb, level), CeilPow2(pe, level)) == SiblingsAt(h, hs, pb, pe, level)
  {
    var lv := LevelSeq(h, hs, level);
    var b, e := Shr(pb, level), CeilPow2(pe, level);
    ShrBelowCeil(pb, pe, level);
    CeilMonotone(pe, |hs|, level);
    if b % 2 == 1 {
      LevelSeqAt(h, hs, level, b - 1);
    }
    if e % 2 == 1 && e < |lv| {
      LevelSeqAt(h, hs, level, e);
    }
  }

  /** The tail of a proof from the leaves, named by height. */
  lemma {:induction false} ProofTail(h: Hasher, data: seq<Bytes>, pb: nat, pe: nat)
    requires pb < pe <= |data|
    ensures ProofOf(h, data, pb, pe) == data[pb..pe] + TailAt(h, LeafHashes(h, data), pb, pe, 0)
  {
    TailAtIsTailFrom(h, LeafHashes(h, data), pb, pe, 0);
    LevelSeqZero(h, LeafHashes(h, data));
  }

  /** The neighbours of heights `level` and above are the neighbours of the
      nodes of height `level`, seen as leaves of their own tree. */
  lemma {:induction false} TailAtOfLevel(h: Hasher, hs: seq<Bytes>, pb: nat, pe: nat, level: nat)
    requires pb < pe <= |hs|
    ensures Shr(pb, level) < CeilPow2(pe, level) <= |LevelSeq(h, hs, level)|
    ensures TailAt(h, hs, pb, pe, level) ==
      TailAt(h, LevelSeq(h, hs, level), Shr(pb, level), CeilPow2(pe, level), 0)
  {
    var lv := LevelSeq(h, hs, level);
    var b, e := Shr(pb, level), CeilPow2(pe, level);
    TailAtIsTailFrom(h, hs, pb, pe, level);
    TailAtIsTailFrom(h, lv, b, e, 0);
    LevelSeqZero(h, lv);
  }

  /** A tail splits at any height into the part below and the part above. */
  lemma {:induction false} TailSplit(h: Hasher, hs: seq<Bytes>, pb: nat, pe: nat, level: nat, top: nat)
    requires pb < pe <= |hs| && level <= top
    ensures TailAt(h, hs, pb, pe, level) == TailBelow(h, hs, pb, pe, level, top) + TailAt(h, hs, pb, pe, top)
    decreases top - level
  {
    if level < top {
      if CeilPow2(|hs|, level) <= 1 {
        TailAtEmpty(h, hs, pb, pe, level, top);
      } else {
        TailSplit(h, hs, pb, pe, level + 1, top);
      }
    }
  }

  /** Above the root there is nothing left to prove. */
  lemma {:induction false} TailAtEmpty(h: Hasher, hs: seq<Bytes>, pb: nat, pe: nat, level: nat, top: nat)
    requires pb < pe <= |hs| && level <= top && CeilPow2(|hs|, level) <= 1
    ensures TailAt(h, hs, pb, pe, top) == []
  {
    CeilAtMostOneAbove(|hs|, level, top);
  }
}
