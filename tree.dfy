// The streaming Merkle tree of the library: leaves are pushed one at a time
// onto a stack of perfect subtrees, the root is obtained by collapsing the
// stack, and a proof for a chosen range of leaves [proofBegin, proofEnd) is
// collected on the way, in the ladder, by height. The linked stack of the
// source is a sequence, head first.

module MerkleTree {
  import opened Arith
  import opened Hashing
  import opened MerkleSpec
  import opened ProofSpec
  import opened Verifier
  import opened StackSpec
  import opened Ladder

  /** The data of the leaves pushed so far that lie in [pb, pe): the data the
      proof starts with. */
  function Bases(data: seq<Bytes>, pb: nat, pe: nat): seq<Bytes>
  {
    if pb < pe && pb < |data| then data[pb..Min(pe, |data|)] else []
  }

  /** A push adds its data to the bases exactly when its index lies in
      [pb, pe); once pe leaves are in, the bases are the data of the
      range. */
  lemma {:induction false} BasesPush(data: seq<Bytes>, d: Bytes, pb: nat, pe: nat)
    ensures Bases(data + [d], pb, pe) == Bases(data, pb, pe) + (if pb <= |data| < pe then [d] else [])
    ensures pb < pe <= |data| ==> Bases(data, pb, pe) == data[pb..pe]
  {
    var data' := data + [d];
    if pb < pe && pb <= |data| < pe {
      assert data'[pb..Min(pe, |data'|)] == data'[pb..|data|] + [d];
      assert data'[pb..|data|] == data[pb..];
    } else if pb < pe && pb < |data| {
      assert data'[pb..Min(pe, |data'|)] == data[pb..Min(pe, |data|)];
    }
  }

  /** addToLader: the ladder with one more hash at `height`, grown with
      empty heights as needed. */
  method AddToLader(lader: seq<seq<Bytes>>, height: nat, proof: Bytes) returns (r: seq<seq<Bytes>>)
    ensures |r| == if height < |lader| then |lader| else height + 1
    ensures forall H: nat :: At(r, H) == At(lader, H) + (if H == height then [proof] else [])
  {
    r := lader;
    while |r| <= height
      invariant |lader| <= |r| <= (if height < |lader| then |lader| else height + 1)
      invariant forall H: nat :: At(r, H) == At(lader, H)
      decreases height - |r|
    {
      r := r + [[]];
    }
    r := r[height := r[height] + [proof]];
  }

  /** foldLader: the hashes of all heights, lowest first. The source panics
      on a height holding more than two hashes. */
  method FoldLader(lader: seq<seq<Bytes>>) returns (proofs: seq<Bytes>)
    requires forall i :: 0 <= i < |lader| ==> |lader[i]| <= 2
    ensures proofs == Flatten(lader)
  {
    proofs := [];
    var i := 0;
    while i < |lader|
      invariant i <= |lader|
      invariant proofs + Flatten(lader[i..]) == Flatten(lader)
    {
      var step := lader[i];
      assert lader[i..][1..] == lader[i + 1..];
      ghost var before := proofs;
      var j := 0;
      while j < |step|
        invariant j <= |step|
        invariant proofs == before + step[..j]
      {
        assert step[..j + 1] == step[..j] + [step[j]];
        proofs := proofs + [step[j]];
        j := j + 1;
      }
      assert step[..j] == step;
      i := i + 1;
    }
    assert lader[i..] == [];
  }

  /** What Prove returns as the proof: nothing while the tree is empty or
      the range is not complete; otherwise the data of the range followed by
      the neighbours of every height, or no neighbours when pb lies beyond
      the leaves. */
  ghost function TreeProof(h: Hasher, data: seq<Bytes>, ls: seq<Bytes>, pb: nat, pe: nat): Option<seq<Bytes>>
  {
    if |ls| == 0 || |ls| < pe then None
    else Some(Bases(data, pb, pe) + (if pb < |ls| then TailAt(h, ls, pb, EffEnd(pb, pe), 0) else []))
  }

  class Tree {
    /** The perfect subtrees, head (lowest) first. */
    var stack: seq<SubTree>
    const hash: Hasher
    var currentIndex: nat
    var proofBegin: nat
    var proofEnd: nat
    var lader: seq<seq<Bytes>>
    var bases: seq<Bytes>
    /** In a cached tree the pushed data are already subtree roots and are
        not leaf-hashed. */
    const cachedTree: bool
    /** Everything pushed so far. */
    ghost var data: seq<Bytes>

    /** The leaf-level hashes of the tree. */
    ghost function Leaves(): seq<Bytes>
      reads this`data
    {
      if cachedTree then data else LeafHashes(hash, data)
    }

    ghost predicate Valid()
      reads this
    {
      currentIndex == |data| &&
      stack == Peaks(hash, Leaves()) &&
      bases == Bases(data, proofBegin, proofEnd) &&
      LadderIs(hash, Leaves(), proofBegin, EffEnd(proofBegin, proofEnd), lader)
    }

    constructor (h: Hasher, cached: bool, begin: nat, end: nat)
      ensures Valid() && data == [] && stack == [] && lader == []
      ensures hash == h && cachedTree == cached && proofBegin == begin && proofEnd == end
    {
      stack, hash, currentIndex := [], h, 0;
      proofBegin, proofEnd := begin, end;
      lader, bases := [], [];
      cachedTree := cached;
      data := [];
      new;
      PeaksEnds(h, []);
      forall H: nat
        ensures Captured(h, [], begin, EffEnd(begin, end), H) == []
      {
        AlignedZero(H);
      }
    }

    /** SetSlice: choose the range [begin, end) to prove; refused once
        anything has been pushed. */
    method SetSlice(begin: nat, end: nat) returns (ok: bool)
      requires Valid()
      modifies this
      ensures Valid() && (ok <==> old(|data|) == 0)
      ensures ok ==> proofBegin == begin && proofEnd == end
      ensures !ok ==> proofBegin == old(proofBegin) && proofEnd == old(proofEnd)
      ensures data == old(data) && stack == old(stack) && lader == old(lader) && bases == old(bases)
      ensures currentIndex == old(currentIndex)
    {
      PeaksEnds(hash, Leaves());
      if |stack| != 0 {
        return false;
      }
      assert |Leaves()| == |data| == 0;
      ghost var pb, pe := proofBegin, proofEnd;
      forall H: nat
        ensures At(lader, H) == [] == Captured(hash, Leaves(), begin, EffEnd(begin, end), H)
      {
        AlignedZero(H);
        assert At(lader, H) == Captured(hash, Leaves(), pb, EffEnd(pb, pe), H);
      }
      proofBegin, proofEnd := begin, end;
      return true;
    }

    /** SetIndex: prove the single leaf i. The end index is an unsigned
        64-bit value and wraps to 0 for the largest index. */
    method SetIndex(i: nat) returns (ok: bool)
      requires Valid() && i < U64
      modifies this
      ensures Valid() && (ok <==> old(|data|) == 0)
      ensures ok ==> proofBegin == i && proofEnd == (i + 1) % U64
      ensures !ok ==> proofBegin == old(proofBegin) && proofEnd == old(proofEnd)
      ensures data == old(data) && stack == old(stack) && lader == old(lader) && bases == old(bases)
      ensures currentIndex == old(currentIndex)
    {
      ok := SetSlice(i, (i + 1) % U64);
    }

    /** Push one leaf: record its data when it lies in the range, then join
        the new subtree of height 0 with the subtrees of equal height,
        recording the hash of the partner that does not meet the range. */
    method Push(d: Bytes)
      requires Valid()
      modifies this
      ensures Valid()
      ensures data == old(data) + [d]
      ensures Leaves() == old(Leaves()) + [if cachedTree then d else LeafSum(hash, d)]
      ensures stack == Peaks(hash, Leaves()) && currentIndex == old(currentIndex) + 1
      ensures proofBegin == old(proofBegin) && proofEnd == old(proofEnd)
    {
      ghost var ls := Leaves();
      ghost var E := EffEnd(proofBegin, proofEnd);
      if proofBegin <= currentIndex && currentIndex < proofEnd {
        bases := bases + [d];
      }
      BasesPush(data, d, proofBegin, proofEnd);
      var sum := if cachedTree then d else LeafSum(hash, d);
      stack, lader := JoinNew(hash, ls, currentIndex, sum, stack, lader, proofBegin, proofEnd);
      LeavesAppend(hash, cachedTree, data, d);
      data := data + [d];
      currentIndex := currentIndex + 1;
    }

    /** The Merkle root of everything pushed, or nothing for an empty tree:
        the head is joined with each subtree below it in turn. */
    method Root() returns (r: Option<Bytes>)
      requires Valid()
      ensures r == RootOf(hash, Leaves())
    {
      ghost var ls := Leaves();
      PeaksEnds(hash, ls);
      if |stack| == 0 {
        return None;
      }
      CollapseStart(hash, ls);
      if 1 < |stack| {
        PeaksAdjacent(hash, ls, 0);
      }
      var current := stack[0];
      var i := 1;
      while i < |stack|
        invariant 1 <= i <= |stack|
        invariant Spans(hash, ls, current) && current.begin == stack[i - 1].begin
        invariant i < |stack| ==> current.height <= stack[i].height
      {
        CollapseStep(hash, ls, i, current);
        current := JoinSubTrees(hash, stack[i], current);
        i := i + 1;
      }
      CollapseEnd(hash, ls, current);
      r := Some(current.sum);
    }

    /** Prove: the root, the proof of the range (nothing while the tree is
        empty or the range is not complete), the range's start and the
        number of leaves. The stack is collapsed as in Root, recording in a
        copy of the ladder the entry of every join. */
    method Prove() returns (merkleRoot: Option<Bytes>, proofSet: Option<seq<Bytes>>, begin: nat, numLeaves: nat)
      requires Valid()
      ensures merkleRoot == RootOf(hash, Leaves())
      ensures proofSet == TreeProof(hash, data, Leaves(), proofBegin, proofEnd)
      ensures begin == proofBegin && numLeaves == |data|
    {
      merkleRoot := Root();
      begin, numLeaves := proofBegin, currentIndex;
      ghost var ls := Leaves();
      ghost var E := EffEnd(proofBegin, proofEnd);
      PeaksEnds(hash, ls);
      if |stack| == 0 || currentIndex < proofEnd {
        return merkleRoot, None, begin, numLeaves;
      }
      var lad := CollapseLader(hash, ls, stack, lader, proofBegin, proofEnd);
      LadderTail(hash, ls, proofBegin, E, lad);
      var tail := FoldLader(lad);
      proofSet := Some(bases + tail);
    }
  }

  /** The join loop of Push: the new leaf-level hash x goes on top of the
      stack of the leaves ls as a subtree of height 0 and is joined with
      every subtree of its height; each join records in the ladder the hash
      of the partner that does not meet the range [pb, pe). */
  method JoinNew(h: Hasher, ghost ls: seq<Bytes>, n: nat, x: Bytes, stack: seq<SubTree>, lader: seq<seq<Bytes>>,
                 pb: nat, pe: nat) returns (st: seq<SubTree>, lad: seq<seq<Bytes>>)
    requires n == |ls| && stack == Peaks(h, ls) && LadderIs(h, ls, pb, EffEnd(pb, pe), lader)
    ensures st == Peaks(h, ls + [x]) && LadderIs(h, ls + [x], pb, EffEnd(pb, pe), lad)
  {
    ghost var E := EffEnd(pb, pe);
    st := [SubTree(0, n, n + 1, x)] + stack;
    lad := lader;
    ghost var k: nat := 0;
    CarryStart(h, ls, x);
    while |st| > 1 && st[0].height == st[1].height
      invariant Carrying(h, ls, x, k, st)
      invariant PushedBelow(h, ls, x, pb, E, lad, k)
      decreases |st|
    {
      JoinStep(h, ls, x, k, st);
      var proof: Option<Bytes> := None;
      if Contains(st[0], pb, pe) && !Contains(st[1], pb, pe) {
        proof := Some(st[1].sum);
      } else if !Contains(st[0], pb, pe) && Contains(st[1], pb, pe) {
        proof := Some(st[0].sum);
      }
      ghost var lad0 := lad;
      if proof.Some? {
        lad := AddToLader(lad, st[0].height, proof.value);
      }
      LadderStep(h, ls, x, pb, pe, k, lad0, lad, if proof.Some? then [proof.value] else []);
      st := [JoinSubTrees(h, st[1], st[0])] + st[2..];
      k := k + 1;
    }
    JoinStop(h, ls, x, k, st);
    PushDone(h, ls, x, pb, E, k, lad);
  }

  /** The collapse loop of Prove: the stack of the leaves ls is joined from
      the head down as in Root, and every join records, in a copy of the
      ladder, the hash of the partner that does not meet the range
      [pb, pe). Afterwards every height holds all its entries. */
  method CollapseLader(h: Hasher, ghost ls: seq<Bytes>, stack: seq<SubTree>, lader: seq<seq<Bytes>>, pb: nat, pe: nat)
    returns (lad: seq<seq<Bytes>>)
    requires 0 < |ls| && stack == Peaks(h, ls) && LadderIs(h, ls, pb, EffEnd(pb, pe), lader)
    ensures forall H: nat :: At(lad, H) == Captured(h, ls, pb, EffEnd(pb, pe), H) + Collapsed(h, ls, pb, EffEnd(pb, pe), H)
  {
    ghost var E := EffEnd(pb, pe);
    lad := lader;
    CollapseStart(h, ls);
    if 1 < |stack| {
      PeaksAdjacent(h, ls, 0);
    }
    CollapseLadderStart(h, ls, pb, E, lad);
    var current := stack[0];
    var i := 1;
    while i < |stack|
      invariant 1 <= i <= |stack|
      invariant Spans(h, ls, current) && current.begin == stack[i - 1].begin
      invariant i < |stack| ==> current.height <= stack[i].height
      invariant FilledBelow(h, ls, pb, E, lad, Lim(Heights(|ls|, 0), i))
    {
      var height := stack[i].height;
      ghost var lad0 := lad;
      if Contains(current, pb, pe) && !Contains(stack[i], pb, pe) {
        lad := AddToLader(lad, height, stack[i].sum);
      } else if !Contains(current, pb, pe) && Contains(stack[i], pb, pe) {
        lad := AddToLader(lad, height, current.sum);
      }
      CollapseLadderStep(h, ls, pb, pe, i, current, lad0, lad, Entry(pb, pe, stack[i], current));
      CollapseStep(h, ls, i, current);
      current := JoinSubTrees(h, stack[i], current);
      i := i + 1;
    }
    CollapseLadderEnd(h, ls, pb, E, lad);
  }

  /** New: an empty tree proving leaf 0. */
  method New(h: Hasher) returns (t: Tree)
    ensures fresh(t) && t.Valid() && t.data == [] && t.hash == h && !t.cachedTree
    ensures t.proofBegin == 0 && t.proofEnd == 1
  {
    t := new Tree(h, false, 0, 1);
  }

  /** The leaf-level hashes after one more push. */
  lemma {:induction false} LeavesAppend(h: Hasher, cached: bool, data: seq<Bytes>, d: Bytes)
    ensures (if cached then data + [d] else LeafHashes(h, data + [d])) ==
      (if cached then data else LeafHashes(h, data)) + [if cached then d else LeafSum(h, d)]
  {
    LeafHashesAppend(h, data, d);
  }

  /** Once the carry stops at a zero bit k of n, the ladder is that of the
      new leaves. */
  lemma {:induction false} PushDone(h: Hasher, ls: seq<Bytes>, x: Bytes, pb: nat, end: nat, k: nat, lader: seq<seq<Bytes>>)
    requires TrailingOnes(|ls|, k) && Shr(|ls|, k) % 2 == 0
    requires PushedBelow(h, ls, x, pb, end, lader, k)
    ensures LadderIs(h, ls + [x], pb, end, lader)
  {
    forall H: nat | k <= H
      ensures Captured(h, ls + [x], pb, end, H) == Captured(h, ls, pb, end, H)
    {
      LadderKeep(h, ls, x, pb, end, k, H);
    }
  }

  /** Once the range [pb, pe) is complete, the proof Prove returns for a
      plain tree is the proof of the range, and it verifies against the root
      Prove returns alongside. */
  lemma {:induction false} TreeProofComplete(h: Hasher, data: seq<Bytes>, pb: nat, pe: nat)
    requires pb < pe <= |data|
    ensures TreeProof(h, data, LeafHashes(h, data), pb, pe) == Some(ProofOf(h, data, pb, pe))
    ensures Verifies(h, RootOf(h, LeafHashes(h, data)), ProofOf(h, data, pb, pe), pb, pe, |data|)
  {
    assert Bases(data, pb, pe) == data[pb..pe];
    ProofTail(h, data, pb, pe);
    VerifyComplete(h, data, pb, pe);
  }
}
