// Proof verification (verify.go). The verifier knows only the root, the proof
// set and the numbers (proofBegin, proofEnd, numLeaves). It hashes the first
// proofEnd - proofBegin proof elements as leaves and climbs one level at a
// time, taking a left neighbour from the proof when the range starts on a
// right child and a right neighbour when it ends on a left child that has a
// partner, then pairing up. `Climb` is that climb as a function; the method
// `VerifyProofOfSlice` is the loop, proved to compute it.
module Verifier {
  import opened Arith
  import opened Hashing
  import opened MerkleSpec
  import opened ProofSpec

  /** The verifier's state on one level: the hashes `sums` of the nodes
      [b, e) of that level and the proof elements not yet consumed. */
  datatype Span = Span(sums: seq<Bytes>, rest: seq<Bytes>, b: nat, e: nat)

  /** A non-empty range within the n nodes of the level, one hash per node. */
  predicate Fits(s: Span, n: nat)
  {
    s.b < s.e <= n && |s.sums| == s.e - s.b
  }

  /** A range that starts on a right child takes its left neighbour from
      the proof (verify.go:50-63). */
  function AddLeft(s: Span, n: nat): (r: Option<Span>)
    requires Fits(s, n)
    ensures r.Some? ==> Fits(r.value, n) && r.value.b % 2 == 0 && r.value.e == s.e
  {
    if s.b % 2 == 0 then Some(s)
    else if |s.rest| == 0 then None
    else Some(Span([s.rest[0]] + s.sums, s.rest[1..], s.b - 1, s.e))
  }

  /** An odd number of hashes not reaching the end of the level takes the
      right neighbour from the proof (verify.go:64-77). */
  function AddRight(s: Span, n: nat): (r: Option<Span>)
    requires Fits(s, n)
    ensures r.Some? ==> Fits(r.value, n) && r.value.b == s.b && r.value.e >= s.e
    ensures r.Some? && s.b % 2 == 0 ==> r.value.e % 2 == 0 || r.value.e == n
  {
    if |s.sums| % 2 == 0 || s.e == n then Some(s)
    else if |s.rest| == 0 then None
    else Some(Span(s.sums + [s.rest[0]], s.rest[1..], s.b, s.e + 1))
  }

  /** Both neighbours, as needed. */
  function Widen(s: Span, n: nat): (r: Option<Span>)
    requires Fits(s, n)
    ensures r.Some? ==> Fits(r.value, n) && r.value.b % 2 == 0 && (r.value.e % 2 == 0 || r.value.e == n)
  {
    match AddLeft(s, n)
    case None => None
    case Some(l) => AddRight(l, n)
  }

  /** Pair up the hashes of a widened range: the range one level up. */
  function Halve(h: Hasher, s: Span, n: nat): (r: Span)
    requires Fits(s, n) && s.b % 2 == 0 && (s.e % 2 == 0 || s.e == n)
    ensures Fits(r, (n + 1) / 2)
  {
    Span(PairUp(h, s.sums), s.rest, s.b / 2, (s.e + 1) / 2)
  }

  /** The climb from a level of n nodes to the root: the root it reaches, or
      None when the proof runs out or has elements left over at the top. */
  function Climb(h: Hasher, s: Span, n: nat): Option<Bytes>
    requires Fits(s, n)
    decreases n
  {
    if n <= 1 then
      if |s.rest| == 0 then Some(s.sums[0]) else None
    else
      match Widen(s, n)
      case None => None
      case Some(w) => Climb(h, Halve(h, w, n), (n + 1) / 2)
  }

  /** The node inputs the climb hashes: the pairs of each widened range. */
  ghost function ClimbInputs(h: Hasher, s: Span, n: nat): set<Bytes>
    requires Fits(s, n)
    decreases n
  {
    if n <= 1 then {}
    else
      match Widen(s, n)
      case None => {}
      case Some(w) => PairInputs(w.sums) + ClimbInputs(h, Halve(h, w, n), (n + 1) / 2)
  }

  /** The climb from the leaves: the first e - b proof elements are hashed as
      the leaves [b, e) of n. */
  function LeafSpan(h: Hasher, proof: seq<Bytes>, b: nat, e: nat): Span
    requires b <= e && e - b <= |proof|
  {
    Span(LeafHashes(h, proof[..e - b]), proof[e - b..], b, e)
  }

  /** Whether `proof` proves leaves [b, e) of a tree of n leaves with root
      `root` (None stands for a nil root). */
  function Verifies(h: Hasher, root: Option<Bytes>, proof: seq<Bytes>, b: nat, e: nat, n: nat): bool
  {
    if root.None? || b >= e || e > n || |proof| < e - b then false
    else
      match Climb(h, LeafSpan(h, proof, b, e), n)
      case None => false
      case Some(r) => r == root.value
  }

  /** Every input hashed in building the tree over `data` and in checking
      `proof` for the leaves [b, e) against it. */
  ghost function HashedInputs(h: Hasher, data: seq<Bytes>, proof: seq<Bytes>, b: nat, e: nat): set<Bytes>
  {
    if b < e <= |data| && e - b <= |proof| then
      LeafInputs(data) + LevelInputs(h, LeafHashes(h, data))
        + LeafInputs(proof[..e - b]) + ClimbInputs(h, LeafSpan(h, proof, b, e), |data|)
    else {}
  }

  method VerifyProofOfSlice(h: Hasher, merkleRoot: Option<Bytes>, proofSet: seq<Bytes>,
                            proofBegin: nat, proofEnd: nat, numLeaves: nat) returns (ok: bool)
    ensures ok == Verifies(h, merkleRoot, proofSet, proofBegin, proofEnd, numLeaves)
  {
    if merkleRoot.None? {
      return false;
    }
    if proofBegin >= proofEnd {
      return false;
    }
    if proofEnd > numLeaves {
      return false;
    }
    // The leaves: hash the first proofEnd - proofBegin elements.
    var proof := proofSet;
    var sums: seq<Bytes> := [];
    var i := proofBegin;
    while i < proofEnd
      invariant proofBegin <= i <= proofEnd && i - proofBegin <= |proofSet|
      invariant proof == proofSet[i - proofBegin..]
      invariant sums == LeafHashes(h, proofSet[..i - proofBegin])
    {
      if |proof| == 0 {
        return false;
      }
      assert proofSet[..i + 1 - proofBegin] == proofSet[..i - proofBegin] + [proof[0]];
      sums := sums + [LeafSum(h, proof[0])];
      proof := proof[1..];
      i := i + 1;
    }
    var b, e, n := proofBegin, proofEnd, numLeaves;
    ghost var outcome := Climb(h, Span(sums, proof, b, e), n);
    assert Span(sums, proof, b, e) == LeafSpan(h, proofSet, b, e);
    // One iteration per level.
    while n > 1
      invariant Fits(Span(sums, proof, b, e), n)
      invariant Climb(h, Span(sums, proof, b, e), n) == outcome
      decreases n
    {
      ghost var s := Span(sums, proof, b, e);
      ClimbStep(h, s, n);
      var more;
      more, sums, proof, b, e := ClimbLevel(h, sums, proof, b, e, n);
      if !more {
        return false;
      }
      n := (n + 1) / 2;
    }
    if |proof| != 0 {
      return false;
    }
    return sums[0] == merkleRoot.value;
  }

  /** One level of the climb (verify.go:50-91): take the neighbours the
      range needs from the proof, then pair up. */
  method ClimbLevel(h: Hasher, sums: seq<Bytes>, proof: seq<Bytes>, b: nat, e: nat, n: nat)
    returns (more: bool, sums': seq<Bytes>, proof': seq<Bytes>, b': nat, e': nat)
    requires Fits(Span(sums, proof, b, e), n)
    ensures more == Widen(Span(sums, proof, b, e), n).Some?
    ensures more ==> Span(sums', proof', b', e') == Halve(h, Widen(Span(sums, proof, b, e), n).value, n)
  {
    ghost var s := Span(sums, proof, b, e);
    sums', proof', b', e' := sums, proof, b, e;
    if b' % 2 == 1 {
      if |proof'| == 0 {
        return false, sums', proof', b', e';
      }
      var left := proof'[0];
      proof' := proof'[1..];
      sums' := [left] + sums';
      b' := b' - 1;
    }
    assert AddLeft(s, n) == Some(Span(sums', proof', b', e'));
    if |sums'| % 2 == 1 && e' < n {
      if |proof'| == 0 {
        return false, sums', proof', b', e';
      }
      var right := proof'[0];
      proof' := proof'[1..];
      sums' := sums' + [right];
      e' := e' + 1;
    }
    assert Widen(s, n) == Some(Span(sums', proof', b', e'));
    sums' := PairSums(h, sums');
    more, b', e' := true, b' / 2, (e' + 1) / 2;
  }

  /** Hash adjacent pairs, carrying an odd last hash up (verify.go:78-87). */
  method PairSums(h: Hasher, sums: seq<Bytes>) returns (sums2: seq<Bytes>)
    ensures sums2 == PairUp(h, sums)
  {
    var rest := sums;
    sums2 := [];
    while |rest| >= 2
      invariant sums2 + PairUp(h, rest) == PairUp(h, sums)
    {
      PairUpFront(h, rest);
      var left, right := rest[0], rest[1];
      rest := rest[2..];
      sums2 := sums2 + [NodeSum(h, left, right)];
    }
    PairUpFront(h, rest);
    if |rest| == 1 {
      sums2 := sums2 + [rest[0]];
    }
  }

  /** verify.go's single-leaf form: the slice [i, i + 1), where i + 1 wraps
      to 0 at the largest index, leaving an empty range that is rejected. */
  method VerifyProof(h: Hasher, merkleRoot: Option<Bytes>, proofSet: seq<Bytes>,
                     proofIndex: nat, numLeaves: nat) returns (ok: bool)
    requires proofIndex < U64
    ensures proofIndex + 1 < U64 ==> ok == Verifies(h, merkleRoot, proofSet, proofIndex, proofIndex + 1, numLeaves)
    ensures proofIndex + 1 == U64 ==> !ok
  {
    ok := VerifyProofOfSlice(h, merkleRoot, proofSet, proofIndex, (proofIndex + 1) % U64, numLeaves);
  }

  /** Nonsense input is rejected: a nil root, an empty or reversed range, a
      range past the last leaf, or too few elements for the leaves. */
  lemma {:induction false} VerifiesRejects(h: Hasher, root: Option<Bytes>, proof: seq<Bytes>, b: nat, e: nat, n: nat)
    requires root.None? || b >= e || e > n || |proof| < e - b
    ensures !Verifies(h, root, proof, b, e, n)
  {
  }

  // ---------------------------------------------------------------------
  // Completeness: the proof the tree builds is accepted.

  /** The root of a single node is that node. */
  lemma {:induction false} MerkleHashOne(h: Hasher, lv: seq<Bytes>)
    requires |lv| == 1
    ensures MerkleHash(h, lv) == lv[0]
  {
    assert RootHeight(1) == 0;
    NodeLeaf(h, lv, 0);
  }

  /** With the true left neighbour in front of the proof, the left step
      takes exactly it. */
  lemma {:induction false} LeftTrue(lv: seq<Bytes>, b: nat, e: nat, tail: seq<Bytes>)
    requires b < e <= |lv|
    ensures var l := if b % 2 == 1 then [lv[b - 1]] else [];
      AddLeft(Span(lv[b..e], l + tail, b, e), |lv|) == Some(Span(lv[b - b % 2..e], tail, b - b % 2, e))
  {
    if b % 2 == 1 {
      assert lv[b - 1..e] == [lv[b - 1]] + lv[b..e];
      assert ([lv[b - 1]] + tail)[1..] == tail;
    } else {
      assert [] + tail == tail;
    }
  }

  /** With the true right neighbour in front of the proof, the right step
      takes exactly it. */
  lemma {:induction false} RightTrue(lv: seq<Bytes>, b: nat, e: nat, rest: seq<Bytes>)
    requires b < e <= |lv| && b % 2 == 0
    ensures var r := if e % 2 == 1 && e < |lv| then [lv[e]] else [];
      var e2 := if e % 2 == 1 && e < |lv| then e + 1 else e;
      AddRight(Span(lv[b..e], r + rest, b, e), |lv|) == Some(Span(lv[b..e2], rest, b, e2))
  {
    assert |lv[b..e]| % 2 == e % 2;
    if e % 2 == 1 && e < |lv| {
      assert lv[b..e + 1] == lv[b..e] + [lv[e]];
      assert ([lv[e]] + rest)[1..] == rest;
    } else {
      assert [] + rest == rest;
    }
  }

  /** With the true neighbours in front of the proof, widening takes exactly
      them. */
  lemma {:induction false} WidenTrue(lv: seq<Bytes>, b: nat, e: nat, rest: seq<Bytes>)
    requires b < e <= |lv| && |lv| > 1
    ensures var b1, e2 := b - b % 2, if e % 2 == 1 && e < |lv| then e + 1 else e;
      e2 <= |lv| && Widen(Span(lv[b..e], Siblings(lv, b, e) + rest, b, e), |lv|) == Some(Span(lv[b1..e2], rest, b1, e2))
  {
    var l := if b % 2 == 1 then [lv[b - 1]] else [];
    var r := if e % 2 == 1 && e < |lv| then [lv[e]] else [];
    assert Siblings(lv, b, e) + rest == l + (r + rest);
    LeftTrue(lv, b, e, r + rest);
    RightTrue(lv, b - b % 2, e, rest);
  }

  /** One level of the climb: it fails when a neighbour is missing, and
      otherwise goes on from the level above. */
  lemma {:induction false} ClimbStep(h: Hasher, s: Span, n: nat)
    requires Fits(s, n) && n > 1
    ensures Widen(s, n).None? ==> Climb(h, s, n).None?
    ensures Widen(s, n).Some? ==> Climb(h, s, n) == Climb(h, Halve(h, Widen(s, n).value, n), (n + 1) / 2)
  {
  }

  /** With the true nodes and neighbours, widening and pairing up gives the
      true nodes of the level above. */
  lemma {:induction false} HalveTrue(h: Hasher, lv: seq<Bytes>, b: nat, e: nat, rest: seq<Bytes>)
    requires b < e <= |lv| && |lv| > 1
    ensures b / 2 < (e + 1) / 2 <= |PairUp(h, lv)|
    ensures Widen(Span(lv[b..e], Siblings(lv, b, e) + rest, b, e), |lv|).Some?
    ensures Halve(h, Widen(Span(lv[b..e], Siblings(lv, b, e) + rest, b, e), |lv|).value, |lv|) ==
      Span(PairUp(h, lv)[b / 2..(e + 1) / 2], rest, b / 2, (e + 1) / 2)
  {
    var b1 := b - b % 2;
    var e2 := if e % 2 == 1 && e < |lv| then e + 1 else e;
    assert b1 / 2 == b / 2 && (e2 + 1) / 2 == (e + 1) / 2;
    WidenTrue(lv, b, e, rest);
    var w := Span(lv[b1..e2], rest, b1, e2);
    assert Halve(h, w, |lv|) == Span(PairUp(h, lv[b1..e2]), rest, b1 / 2, (e2 + 1) / 2);
    PairUpSlice(h, lv, b1, e2);
  }

  /** With the true nodes and neighbours, one level of the climb leads to
      the true nodes and neighbours of the level above. */
  lemma {:induction false} CompleteStep(h: Hasher, lv: seq<Bytes>, b: nat, e: nat)
    requires b < e <= |lv| && |lv| > 1
    ensures |PairUp(h, lv)| == (|lv| + 1) / 2 && b / 2 < (e + 1) / 2 <= |PairUp(h, lv)|
    ensures Climb(h, Span(lv[b..e], TailFrom(h, lv, b, e), b, e), |lv|) ==
      Climb(h, Span(PairUp(h, lv)[b / 2..(e + 1) / 2], TailFrom(h, PairUp(h, lv), b / 2, (e + 1) / 2), b / 2, (e + 1) / 2), (|lv| + 1) / 2)
  {
    var rest := TailFrom(h, PairUp(h, lv), b / 2, (e + 1) / 2);
    assert TailFrom(h, lv, b, e) == Siblings(lv, b, e) + rest;
    HalveTrue(h, lv, b, e, rest);
    ClimbStep(h, Span(lv[b..e], Siblings(lv, b, e) + rest, b, e), |lv|);
  }

  /** Climbing from the true nodes [b, e) of a level with the true neighbours
      reaches the root and uses up the proof exactly. */
  lemma {:induction false} ClimbComplete(h: Hasher, lv: seq<Bytes>, b: nat, e: nat)
    requires b < e <= |lv|
    ensures Climb(h, Span(lv[b..e], TailFrom(h, lv, b, e), b, e), |lv|) == Some(MerkleHash(h, lv))
    decreases |lv|
  {
    if |lv| > 1 {
      CompleteStep(h, lv, b, e);
      MerkleHashPairUp(h, lv);
      ClimbComplete(h, PairUp(h, lv), b / 2, (e + 1) / 2);
    } else {
      MerkleHashOne(h, lv);
    }
  }

  /** The proof of leaves [b, e) verifies against the root of the data. */
  lemma {:induction false} VerifyComplete(h: Hasher, data: seq<Bytes>, b: nat, e: nat)
    requires b < e <= |data|
    ensures Verifies(h, Some(MTH(h, data)), ProofOf(h, data, b, e), b, e, |data|)
  {
    var proof := ProofOf(h, data, b, e);
    var hs := LeafHashes(h, data);
    ProofParts(h, data, b, e);
    LeafHashesSlice(h, data, b, e);
    assert LeafSpan(h, proof, b, e) == Span(hs[b..e], TailFrom(h, hs, b, e), b, e);
    ClimbComplete(h, hs, b, e);
  }

  // ---------------------------------------------------------------------
  // Soundness: a proof that is accepted for the leaves [b, e) contains the
  // true leaves, unless it exhibits a collision of the hash.

  ghost predicate AllSized(s: seq<Bytes>, size: nat)
  {
    forall k :: 0 <= k < |s| ==> |s[k]| == size
  }

  /** One of the two children of pair i has the digest length. */
  ghost predicate PairSized(s: seq<Bytes>, i: nat, size: nat)
  {
    2 * i + 1 < |s| ==> |s[2 * i]| == size || |s[2 * i + 1]| == size
  }

  /** Pairing up with a fixed-length hash gives digests of that length. */
  lemma {:induction false} PairUpSized(h: Hasher, s: seq<Bytes>, size: nat)
    requires FixedLength(h, size)
    requires |s| % 2 == 0 || |s[|s| - 1]| == size
    ensures AllSized(PairUp(h, s), size)
  {
    var r := PairUp(h, s);
    forall i | 0 <= i < |r|
      ensures |r[i]| == size
    {
      PairUpAt(h, s, i);
    }
  }

  /** Pair i of xs and pair i of ys are different node inputs with the
      same digest. */
  ghost predicate PairCollides(h: Hasher, xs: seq<Bytes>, ys: seq<Bytes>, i: nat)
  {
    2 * i + 1 < |xs| && 2 * i + 1 < |ys|
    && Collides(h, NodeHashPrefix + xs[2 * i] + xs[2 * i + 1], NodeHashPrefix + ys[2 * i] + ys[2 * i + 1])
  }

  /** Two lists of equal length with equal pairings agree, or some pair i
      of the two is a collision; every pair of `xs` has one child of the
      digest length and `ys` consists of digests. */
  lemma {:induction false} PairUpInjective(h: Hasher, xs: seq<Bytes>, ys: seq<Bytes>, size: nat)
    requires |xs| == |ys| && PairUp(h, xs) == PairUp(h, ys)
    requires AllSized(ys, size) && forall i: nat :: PairSized(xs, i, size)
    ensures xs == ys || exists i: nat :: PairCollides(h, xs, ys, i)
  {
    if !exists i: nat :: PairCollides(h, xs, ys, i) {
      forall k | 0 <= k < |xs|
        ensures xs[k] == ys[k]
      {
        var i := k / 2;
        PairUpAt(h, xs, i);
        PairUpAt(h, ys, i);
        if 2 * i + 1 < |xs| {
          assert PairSized(xs, i, size) && !PairCollides(h, xs, ys, i);
          if |xs[2 * i]| == size {
            NodeSumBinding(h, xs[2 * i], xs[2 * i + 1], ys[2 * i], ys[2 * i + 1]);
          } else {
            // The two node inputs differ in length, so equal digests collide.
            assert false;
          }
        }
      }
    }
  }

  /** A collision between pair i of xs and pair i of ys lies among the
      node inputs of the two lists. */
  lemma {:induction false} PairCollisionAmong(h: Hasher, xs: seq<Bytes>, ys: seq<Bytes>, i: nat)
    requires PairCollides(h, xs, ys, i)
    ensures CollisionAmong(h, PairInputs(xs) + PairInputs(ys))
  {
    var x, y := NodeHashPrefix + xs[2 * i] + xs[2 * i + 1], NodeHashPrefix + ys[2 * i] + ys[2 * i + 1];
    assert x in PairInputs(xs) && y in PairInputs(ys);
  }

  /** Widening adds at most one hash on each side of the range. */
  lemma {:induction false} WidenShape(s: Span, n: nat, w: Span)
    requires Fits(s, n) && Widen(s, n) == Some(w)
    ensures w.b <= s.b <= w.b + 1 && s.e <= w.e <= s.e + 1
    ensures w.sums[s.b - w.b..s.e - w.b] == s.sums
    ensures |w.sums| % 2 == 1 ==> w.e == s.e
  {
    var l := AddLeft(s, n).value;
    if s.b % 2 == 1 {
      assert l.sums[1..] == s.sums;
    }
    if w.e != s.e {
      assert w.sums[..|l.sums|] == l.sums;
    }
  }

  /** A list holding digests at [off, off + |ss|), with at most one other
      element on each side, has a digest in every pair. */
  lemma {:induction false} SandwichSized(ws: seq<Bytes>, ss: seq<Bytes>, off: nat, size: nat)
    requires off <= 1 && |ss| >= 1 && off + |ss| <= |ws| <= off + |ss| + 1
    requires ws[off..off + |ss|] == ss && AllSized(ss, size)
    ensures forall i: nat :: PairSized(ws, i, size)
  {
    forall i: nat
      ensures PairSized(ws, i, size)
    {
      if 2 * i + 1 < |ws| {
        if off == 1 && i == 0 {
          assert ws[1] == ss[0];
        } else {
          assert ws[2 * i] == ss[2 * i - off];
        }
      }
    }
  }

  lemma {:induction false} SliceOfSlice(s: seq<Bytes>, a: nat, b: nat, c: nat, d: nat)
    requires a <= b <= |s| && c <= d <= b - a
    ensures s[a..b][c..d] == s[a + c..a + d]
  {
    forall k | 0 <= k < d - c
      ensures s[a..b][c..d][k] == s[a + c..a + d][k]
    {
    }
  }

  /** The hashes of a widened range of digests pair up into digests. */
  lemma {:induction false} WidenSized(h: Hasher, size: nat, s: Span, n: nat, w: Span)
    requires FixedLength(h, size) && AllSized(s.sums, size)
    requires Fits(s, n) && Widen(s, n) == Some(w)
    ensures w.b <= s.b && s.e <= w.e
    ensures forall i: nat :: PairSized(w.sums, i, size)
    ensures AllSized(PairUp(h, w.sums), size)
  {
    WidenShape(s, n, w);
    SandwichSized(w.sums, s.sums, s.b - w.b, size);
    if |w.sums| % 2 == 1 {
      assert w.sums[|w.sums| - 1] == s.sums[|s.sums| - 1];
    }
    PairUpSized(h, w.sums, size);
  }

  /** If the widened range pairs up into the true nodes one level up, the
      range held the true nodes, or two of the node inputs hashed on this
      level (by the verifier or by the tree) collide. */
  lemma {:induction false} SoundStep(h: Hasher, size: nat, lv: seq<Bytes>, s: Span, w: Span)
    requires FixedLength(h, size) && AllSized(lv, size) && AllSized(s.sums, size)
    requires Fits(s, |lv|) && |lv| > 1 && Widen(s, |lv|) == Some(w)
    requires PairUp(h, w.sums) == PairUp(h, lv)[w.b / 2..(w.e + 1) / 2]
    ensures s.sums == lv[s.b..s.e] || CollisionAmong(h, PairInputs(w.sums) + PairInputs(lv))
  {
    var n := |lv|;
    WidenShape(s, n, w);
    WidenSized(h, size, s, n, w);
    var off := s.b - w.b;
    PairUpSlice(h, lv, w.b, w.e);
    var truth := lv[w.b..w.e];
    assert AllSized(truth, size);
    PairUpInjective(h, w.sums, truth, size);
    if w.sums == truth {
      SliceOfSlice(lv, w.b, w.e, off, off + |s.sums|);
      assert w.b + off == s.b && w.b + off + |s.sums| == s.e;
    } else {
      var i: nat :| PairCollides(h, w.sums, truth, i);
      PairCollisionAmong(h, w.sums, truth, i);
      PairInputsSlice(lv, w.b, w.e);
      CollisionAmongGrows(h, PairInputs(w.sums) + PairInputs(truth), PairInputs(w.sums) + PairInputs(lv));
    }
  }

  /** A climb from nodes of a level that reaches the root of that level
      started from the true nodes, or two of the node inputs hashed above
      that level (by the verifier or by the tree) collide. */
  lemma {:induction false} ClimbSound(h: Hasher, size: nat, lv: seq<Bytes>, s: Span)
    requires FixedLength(h, size) && AllSized(lv, size) && AllSized(s.sums, size)
    requires Fits(s, |lv|) && Climb(h, s, |lv|) == Some(MerkleHash(h, lv))
    ensures s.sums == lv[s.b..s.e] || CollisionAmong(h, LevelInputs(h, lv) + ClimbInputs(h, s, |lv|))
    decreases |lv|
  {
    var n := |lv|;
    if n > 1 {
      ClimbStep(h, s, n);
      var w := Widen(s, n).value;
      WidenSized(h, size, s, n, w);
      PairUpSized(h, lv, size);
      MerkleHashPairUp(h, lv);
      var up := Halve(h, w, n);
      ClimbSound(h, size, PairUp(h, lv), up);
      var all := LevelInputs(h, lv) + ClimbInputs(h, s, n);
      assert LevelInputs(h, lv) == PairInputs(lv) + LevelInputs(h, PairUp(h, lv));
      assert ClimbInputs(h, s, n) == PairInputs(w.sums) + ClimbInputs(h, up, (n + 1) / 2);
      if up.sums == PairUp(h, lv)[up.b..up.e] {
        SoundStep(h, size, lv, s, w);
        if s.sums != lv[s.b..s.e] {
          CollisionAmongGrows(h, PairInputs(w.sums) + PairInputs(lv), all);
        }
      } else {
        CollisionAmongGrows(h, LevelInputs(h, PairUp(h, lv)) + ClimbInputs(h, up, (n + 1) / 2), all);
      }
    } else {
      MerkleHashOne(h, lv);
      assert s.sums == lv[s.b..s.e];
    }
  }

  /** An accepted proof of leaves [b, e) starts with the true leaves
      data[b..e], or two of the inputs hashed in building the tree and in
      checking the proof collide. */
  lemma {:induction false} VerifySound(h: Hasher, size: nat, data: seq<Bytes>, proof: seq<Bytes>, b: nat, e: nat)
    requires FixedLength(h, size) && |data| >= 1
    requires Verifies(h, Some(MTH(h, data)), proof, b, e, |data|)
    ensures b < e <= |data| && e - b <= |proof|
    ensures proof[..e - b] == data[b..e] || CollisionAmong(h, HashedInputs(h, data, proof, b, e))
  {
    var hs := LeafHashes(h, data);
    var given := proof[..e - b];
    var s := LeafSpan(h, proof, b, e);
    assert AllSized(hs, size);
    assert AllSized(s.sums, size);
    ClimbSound(h, size, hs, s);
    LeafHashesSlice(h, data, b, e);
    var all := HashedInputs(h, data, proof, b, e);
    if given != data[b..e] {
      if s.sums == hs[b..e] {
        var k :| 0 <= k < e - b && given[k] != data[b + k];
        assert s.sums[k] == hs[b + k];
        LeafSumBinding(h, given[k], data[b + k]);
        assert LeafHashPrefix + given[k] in LeafInputs(given);
        assert LeafHashPrefix + data[b + k] in LeafInputs(data);
      } else {
        CollisionAmongGrows(h, LevelInputs(h, hs) + ClimbInputs(h, s, |data|), all);
      }
    }
  }

  /** A proof for one leaf verifies at no other index holding different
      data, unless two of the inputs hashed collide. */
  lemma {:induction false} ProofPinsIndex(h: Hasher, size: nat, data: seq<Bytes>, i: nat, j: nat)
    requires FixedLength(h, size) && i < |data| && j < |data|
    requires data[i] != data[j]
    ensures Verifies(h, Some(MTH(h, data)), ProofOf(h, data, i, i + 1), j, j + 1, |data|) ==>
              CollisionAmong(h, HashedInputs(h, data, ProofOf(h, data, i, i + 1), j, j + 1))
  {
    var proof := ProofOf(h, data, i, i + 1);
    if Verifies(h, Some(MTH(h, data)), proof, j, j + 1, |data|) {
      VerifyIndexSound(h, size, data, proof, j);
      ProofParts(h, data, i, i + 1);
      assert proof[0] == data[i..i + 1][0] == data[i];
    }
  }

  /** VerifyProof's promise for one index: an accepted proof of leaf i
      starts with data[i], or two of the inputs hashed collide. */
  lemma {:induction false} VerifyIndexSound(h: Hasher, size: nat, data: seq<Bytes>, proof: seq<Bytes>, i: nat)
    requires FixedLength(h, size) && |data| >= 1
    requires Verifies(h, Some(MTH(h, data)), proof, i, i + 1, |data|)
    ensures i < |data| && |proof| >= 1
    ensures proof[0] == data[i] || CollisionAmong(h, HashedInputs(h, data, proof, i, i + 1))
  {
    VerifySound(h, size, data, proof, i, i + 1);
    assert proof[..1][0] == proof[0] && data[i..i + 1][0] == data[i];
  }

  /** The collision in VerifySound's conclusion is not forced by fixed-length
      digests: with a one-byte hash, the leaf [5] and the unaccepted proof
      [6], neither the data nor a collision among the inputs is found. */
  lemma {:induction false} SoundnessNotVacuous()
    ensures exists h: Hasher, size: nat, data: seq<Bytes>, proof: seq<Bytes> ::
      FixedLength(h, size) && |data| >= 1 && |proof| >= 1 &&
      !(proof[..1] == data[0..1] || CollisionAmong(h, HashedInputs(h, data, proof, 0, 1)))
  {
    var h: Hasher := x => if |x| == 2 then [x[1]] else [0];
    var data: seq<Bytes> := [[5]];
    var proof: seq<Bytes> := [[6]];
    assert LeafHashPrefix + data[0] == [0, 5];
    assert LeafInputs(data) == {[0, 5]};
    assert proof[..1] == proof;
    assert LeafHashPrefix + proof[0] == [0, 6];
    assert LeafInputs(proof) == {[0, 6]};
    assert LevelInputs(h, LeafHashes(h, data)) == {};
    assert ClimbInputs(h, LeafSpan(h, proof, 0, 1), 1) == {};
    var S := HashedInputs(h, data, proof, 0, 1);
    assert S == {[0, 5], [0, 6]};
    assert FixedLength(h, 1);
    assert !CollisionAmong(h, S);
    assert proof[..1] != data[0..1];
  }

  /** Extra elements at the end of the proof ride along when widening. */
  lemma {:induction false} WidenExtra(s: Span, n: nat, extra: seq<Bytes>)
    requires Fits(s, n) && Widen(s, n).Some?
    ensures Widen(s.(rest := s.rest + extra), n) == Some(Widen(s, n).value.(rest := Widen(s, n).value.rest + extra))
  {
    var l := AddLeft(s, n).value;
    if s.b % 2 == 1 {
      assert (s.rest + extra)[1..] == s.rest[1..] + extra;
    }
    assert AddLeft(s.(rest := s.rest + extra), n) == Some(l.(rest := l.rest + extra));
    if |l.sums| % 2 == 1 && l.e < n {
      assert (l.rest + extra)[1..] == l.rest[1..] + extra;
    }
  }

  /** Elements left over after the climb reaches the top make it fail
      (verify.go:94-96). */
  lemma {:induction false} ClimbRejectsLeftover(h: Hasher, s: Span, n: nat, extra: seq<Bytes>)
    requires Fits(s, n) && |extra| > 0 && Climb(h, s, n).Some?
    ensures Climb(h, s.(rest := s.rest + extra), n).None?
    decreases n
  {
    if n > 1 {
      var w := Widen(s, n).value;
      WidenExtra(s, n, extra);
      ClimbRejectsLeftover(h, Halve(h, w, n), (n + 1) / 2, extra);
      assert Halve(h, w.(rest := w.rest + extra), n) == Halve(h, w, n).(rest := w.rest + extra);
    }
  }
}
