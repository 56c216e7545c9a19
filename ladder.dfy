// The proof ladder: the hashes a streaming tree collects for a proof, one
// list per height. Whenever two subtrees are joined and exactly one of them
// meets the proven range, the other one's hash is recorded at their height.
// Pushing records the pairs of complete nodes; collapsing the stack into the
// root records the last, incomplete pair on each height. Together they are
// the neighbours the verifier needs (ProofSpec.SiblingsAt).

module Ladder {
  import opened Arith
  import opened Hashing
  import opened MerkleSpec
  import opened ProofSpec
  import opened StackSpec

  /** The end of the range the membership test uses: the range [pb, pe)
      itself when it is not empty, otherwise the single leaf pb. */
  function EffEnd(pb: nat, pe: nat): (e: nat)
    ensures pb < e && pe <= e
    ensures pb < pe ==> e == pe
  {
    if pb < pe then pe else pb + 1
  }

  /** Whether subtree s meets the proven range [pb, pe): it holds pb, or it
      starts inside the range. */
  function Contains(s: SubTree, pb: nat, pe: nat): (r: bool)
    ensures s.begin < s.end ==> (r <==> s.begin < EffEnd(pb, pe) && pb < s.end)
  {
    (s.begin <= pb && pb < s.end) || (pb <= s.begin && s.begin < pe)
  }

  /** The hash recorded when `left` and `right` are joined: the one of the
      two that does not meet the range, when the other one does. */
  function Entry(pb: nat, pe: nat, left: SubTree, right: SubTree): seq<Bytes>
  {
    if Contains(right, pb, pe) && !Contains(left, pb, pe) then [left.sum]
    else if !Contains(right, pb, pe) && Contains(left, pb, pe) then [right.sum]
    else []
  }

  /** The hashes recorded at one height; heights beyond the ladder have
      none. */
  function At(lader: seq<seq<Bytes>>, level: nat): seq<Bytes>
  {
    if level < |lader| then lader[level] else []
  }

  /** All the recorded hashes, lowest height first. */
  function Flatten(lader: seq<seq<Bytes>>): seq<Bytes>
  {
    if |lader| == 0 then [] else lader[0] + Flatten(lader[1..])
  }

  // What the ladder holds. On height L, with b the node holding pb, e the
  // node just past the range and m the number of complete nodes over the
  // leaves ls:

  /** The entries recorded by pushes: those of complete pairs, the left
      neighbour of b ... */
  ghost function CapturedLeft(h: Hasher, ls: seq<Bytes>, pb: nat, level: nat): seq<Bytes>
  {
    var b, m := Shr(pb, level), Shr(|ls|, level);
    ShrLeCeil(|ls|, level);
    if b % 2 == 1 && b < m then [Node(h, ls, level, b - 1)] else []
  }

  /** ... and the right neighbour of e - 1. */
  ghost function CapturedRight(h: Hasher, ls: seq<Bytes>, end: nat, level: nat): seq<Bytes>
  {
    var e, m := CeilPow2(end, level), Shr(|ls|, level);
    ShrLeCeil(|ls|, level);
    if e % 2 == 1 && e < m then [Node(h, ls, level, e)] else []
  }

  ghost function Captured(h: Hasher, ls: seq<Bytes>, pb: nat, end: nat, level: nat): seq<Bytes>
  {
    CapturedLeft(h, ls, pb, level) + CapturedRight(h, ls, end, level)
  }

  /** The entries recorded when collapsing into the root: those of the last
      pair on the height, when its right node m is incomplete. */
  ghost function Collapsed(h: Hasher, ls: seq<Bytes>, pb: nat, end: nat, level: nat): seq<Bytes>
  {
    var b, e, m := Shr(pb, level), CeilPow2(end, level), Shr(|ls|, level);
    ShrLeCeil(|ls|, level);
    if pb < |ls| && m % 2 == 1 && m < CeilPow2(|ls|, level) then
      (if b == m then [Node(h, ls, level, m - 1)] else []) +
      (if e == m then [Node(h, ls, level, m)] else [])
    else []
  }

  // The membership test in terms of nodes of one height.

  /** For an aligned bound lo, comparing with lo is comparing node
      numbers. */
  lemma {:induction false} AlignedCompare(x: nat, lo: nat, k: nat)
    requires Aligned(lo, k)
    ensures lo < x <==> Shr(lo, k) < CeilPow2(x, k)
    ensures x < lo <==> Shr(x, k) < Shr(lo, k)
  {
    CeilRange(x, lo, k);
    if x < lo {
      AlignedLess(x, lo, k);
    } else {
      ShrMonotone(lo, x, k);
    }
  }

  /** The subtree of node j on height k meets the range exactly when j lies
      between b and e. */
  lemma {:induction false} ContainsNode(s: SubTree, pb: nat, pe: nat, k: nat, j: nat)
    requires Aligned(s.begin, k) && Aligned(s.end, k)
    requires Shr(s.begin, k) == j && Shr(s.end, k) == j + 1
    ensures Contains(s, pb, pe) <==> Shr(pb, k) <= j < CeilPow2(EffEnd(pb, pe), k)
  {
    if s.end <= s.begin {
      ShrMonotone(s.end, s.begin, k);
    }
    AlignedCompare(EffEnd(pb, pe), s.begin, k);
    AlignedCompare(pb, s.end, k);
  }

  // Pushing: each join of the carried head with the subtree of the same
  // height records at most one entry, and the entries recorded so far are
  // those of the complete pairs.

  /** A push that completes node m of height k adds the left neighbour of b
      when b is m ... */
  lemma {:induction false} LeftGrow(h: Hasher, ls: seq<Bytes>, x: Bytes, pb: nat, k: nat)
    requires Shr(|ls| + 1, k) == Shr(|ls|, k) + 1
    ensures Shr(|ls|, k) % 2 == 1 ==> Shr(|ls|, k) - 1 < CeilPow2(|ls|, k)
    ensures CapturedLeft(h, ls + [x], pb, k) == CapturedLeft(h, ls, pb, k) +
      (if Shr(pb, k) == Shr(|ls|, k) && Shr(|ls|, k) % 2 == 1 then [Node(h, ls, k, Shr(|ls|, k) - 1)] else [])
  {
    var b, m := Shr(pb, k), Shr(|ls|, k);
    ShrLeCeil(|ls|, k);
    if b % 2 == 1 && b < m + 1 {
      NodePrefix(h, ls, [x], k, b - 1);
    }
  }

  /** ... and the right neighbour of e - 1 when e is m. */
  lemma {:induction false} RightGrow(h: Hasher, ls: seq<Bytes>, x: Bytes, end: nat, k: nat)
    requires Shr(|ls| + 1, k) == Shr(|ls|, k) + 1
    ensures Shr(|ls|, k) < CeilPow2(|ls + [x]|, k)
    ensures CapturedRight(h, ls + [x], end, k) == CapturedRight(h, ls, end, k) +
      (if CeilPow2(end, k) == Shr(|ls|, k) && Shr(|ls|, k) % 2 == 1 then [Node(h, ls + [x], k, Shr(|ls|, k))] else [])
  {
    var e, m := CeilPow2(end, k), Shr(|ls|, k);
    ShrLeCeil(|ls| + 1, k);
    if e % 2 == 1 && e < m {
      NodePrefix(h, ls, [x], k, e);
    }
  }

  /** A push that completes no node of height k changes nothing there. */
  lemma {:induction false} CapturedSame(h: Hasher, ls: seq<Bytes>, x: Bytes, pb: nat, end: nat, k: nat)
    requires Shr(|ls| + 1, k) == Shr(|ls|, k)
    ensures Captured(h, ls + [x], pb, end, k) == Captured(h, ls, pb, end, k)
  {
    LeftSame(h, ls, x, pb, k);
    RightSame(h, ls, x, end, k);
  }

  lemma {:induction false} LeftSame(h: Hasher, ls: seq<Bytes>, x: Bytes, pb: nat, k: nat)
    requires Shr(|ls| + 1, k) == Shr(|ls|, k)
    ensures CapturedLeft(h, ls + [x], pb, k) == CapturedLeft(h, ls, pb, k)
  {
    var b := Shr(pb, k);
    if b % 2 == 1 && b < Shr(|ls|, k) {
      NodePrefix(h, ls, [x], k, b - 1);
    }
  }

  lemma {:induction false} RightSame(h: Hasher, ls: seq<Bytes>, x: Bytes, end: nat, k: nat)
    requires Shr(|ls| + 1, k) == Shr(|ls|, k)
    ensures CapturedRight(h, ls + [x], end, k) == CapturedRight(h, ls, end, k)
  {
    var e := CeilPow2(end, k);
    if e % 2 == 1 && e < Shr(|ls|, k) {
      NodePrefix(h, ls, [x], k, e);
    }
  }

  /** The join at height k, when bit k of n is set, adds the entry of the
      pair it completes. */
  lemma {:induction false} LadderJoin(h: Hasher, ls: seq<Bytes>, x: Bytes, pb: nat, pe: nat, k: nat)
    requires TrailingOnes(|ls|, k + 1)
    ensures TrailingOnes(|ls|, k)
    ensures Captured(h, ls + [x], pb, EffEnd(pb, pe), k) ==
      Captured(h, ls, pb, EffEnd(pb, pe), k) + Entry(pb, pe, Peak(h, ls, k), Carried(h, ls, x, k))
  {
    var n, E := |ls|, EffEnd(pb, pe);
    var m, b, e := Shr(n, k), Shr(pb, k), CeilPow2(E, k);
    var p, c := Peak(h, ls, k), Carried(h, ls, x, k);
    JoinNodes(h, ls, x, k);
    ShrBelowCeil(pb, E, k);
    ContainsNode(p, pb, pe, k, m - 1);
    ContainsNode(c, pb, pe, k, m);
    LeftGrow(h, ls, x, pb, k);
    RightGrow(h, ls, x, E, k);
    assert Entry(pb, pe, p, c) ==
      (if b == m then [p.sum] else []) + (if e == m then [c.sum] else []);
    if b == m {
      assert CapturedRight(h, ls, E, k) == [];
    }
  }

  /** The ladder of a tree over the leaves ls between operations: the
      entries recorded by pushes. */
  ghost predicate LadderIs(h: Hasher, ls: seq<Bytes>, pb: nat, end: nat, lad: seq<seq<Bytes>>)
  {
    forall H: nat :: At(lad, H) == Captured(h, ls, pb, end, H)
  }

  /** The ladder part way through pushing x: the entries over the new
      leaves below height k, those over the old leaves from k up. */
  ghost predicate PushedBelow(h: Hasher, ls: seq<Bytes>, x: Bytes, pb: nat, end: nat, lad: seq<seq<Bytes>>, k: nat)
  {
    forall H: nat :: At(lad, H) ==
      (if H < k then Captured(h, ls + [x], pb, end, H) else Captured(h, ls, pb, end, H))
  }

  /** One join of Push: recording the entry of the join at height k keeps
      the ladder that of the new leaves below height k + 1 and of the old
      leaves from there. */
  lemma {:induction false} LadderStep(h: Hasher, ls: seq<Bytes>, x: Bytes, pb: nat, pe: nat, k: nat,
                                      lad: seq<seq<Bytes>>, lad': seq<seq<Bytes>>, entry: seq<Bytes>)
    requires TrailingOnes(|ls|, k + 1)
    requires PushedBelow(h, ls, x, pb, EffEnd(pb, pe), lad, k)
    requires entry == Entry(pb, pe, Peak(h, ls, k), Carried(h, ls, x, k))
    requires forall H: nat :: At(lad', H) == At(lad, H) + (if H == k then entry else [])
    ensures PushedBelow(h, ls, x, pb, EffEnd(pb, pe), lad', k + 1)
  {
    LadderJoin(h, ls, x, pb, pe, k);
  }

  /** The subtree of height k and the carried head are the nodes m - 1 and
      m of height k. */
  lemma {:induction false} JoinNodes(h: Hasher, ls: seq<Bytes>, x: Bytes, k: nat)
    requires TrailingOnes(|ls|, k + 1)
    ensures TrailingOnes(|ls|, k) && Shr(|ls|, k) % 2 == 1
    ensures Shr(|ls| + 1, k) == Shr(|ls|, k) + 1
    ensures Aligned(Peak(h, ls, k).begin, k) && Aligned(Peak(h, ls, k).end, k)
    ensures Shr(Peak(h, ls, k).begin, k) + 1 == Shr(|ls|, k) == Shr(Peak(h, ls, k).end, k)
    ensures Aligned(Carried(h, ls, x, k).begin, k) && Aligned(Carried(h, ls, x, k).end, k)
    ensures Shr(Carried(h, ls, x, k).begin, k) == Shr(|ls|, k)
    ensures Shr(Carried(h, ls, x, k).end, k) == Shr(|ls|, k) + 1
    ensures Shr(|ls|, k) - 1 < CeilPow2(|ls|, k) && Shr(|ls|, k) < CeilPow2(|ls + [x]|, k)
    ensures Peak(h, ls, k).sum == Node(h, ls, k, Shr(|ls|, k) - 1)
    ensures Carried(h, ls, x, k).sum == Node(h, ls + [x], k, Shr(|ls|, k))
  {
    assert Shr(|ls|, k) % 2 == 1;
    PeakNode(h, ls, k);
    CarriedNode(h, ls, x, k);
  }

  lemma {:induction false} PeakNode(h: Hasher, ls: seq<Bytes>, k: nat)
    requires Shr(|ls|, k) % 2 == 1
    ensures Aligned(Peak(h, ls, k).begin, k) && Aligned(Peak(h, ls, k).end, k)
    ensures Shr(Peak(h, ls, k).begin, k) + 1 == Shr(|ls|, k) == Shr(Peak(h, ls, k).end, k)
    ensures Shr(|ls|, k) - 1 < CeilPow2(|ls|, k)
    ensures Peak(h, ls, k).sum == Node(h, ls, k, Shr(|ls|, k) - 1)
  {
    var p := Peak(h, ls, k);
    PeakPlaced(h, ls, k);
    AlignedWeaken(p.begin, k + 1, k);
    AlignedAddPow2(p.begin, k);
    ShrAddPow2(p.begin, k);
  }

  lemma {:induction false} CarriedNode(h: Hasher, ls: seq<Bytes>, x: Bytes, k: nat)
    requires TrailingOnes(|ls|, k)
    ensures Shr(|ls| + 1, k) == Shr(|ls|, k) + 1
    ensures Aligned(Carried(h, ls, x, k).begin, k) && Aligned(Carried(h, ls, x, k).end, k)
    ensures Shr(Carried(h, ls, x, k).begin, k) == Shr(|ls|, k)
    ensures Shr(Carried(h, ls, x, k).end, k) == Shr(|ls|, k) + 1
    ensures Shr(|ls|, k) < CeilPow2(|ls + [x]|, k)
    ensures Carried(h, ls, x, k).sum == Node(h, ls + [x], k, Shr(|ls|, k))
  {
    var n := |ls|;
    Carry(n, k);
    TruncFacts(n, k);
    CeilAligned(n + 1, k);
  }

  /** Once the carry stops at a zero bit k, nothing changes from height k
      up. */
  lemma {:induction false} LadderKeep(h: Hasher, ls: seq<Bytes>, x: Bytes, pb: nat, end: nat, k: nat, level: nat)
    requires TrailingOnes(|ls|, k) && Shr(|ls|, k) % 2 == 0 && k <= level
    ensures Captured(h, ls + [x], pb, end, level) == Captured(h, ls, pb, end, level)
  {
    var n := |ls|;
    Carry(n, k);
    if level == k {
      LeftGrow(h, ls, x, pb, k);
      RightGrow(h, ls, x, end, k);
    } else {
      ShrSucc(n, k);
      ShrSucc(n + 1, k);
      ShrAgreeAbove(n, n + 1, k + 1, level);
      CapturedSame(h, ls, x, pb, end, level);
    }
  }

  // Collapsing: joining subtree P[i] with the partial head after it
  // records the entry of the incomplete pair on P[i]'s height.

  lemma {:induction false} LadderCollapse(h: Hasher, ls: seq<Bytes>, pb: nat, pe: nat, p: SubTree, c: SubTree)
    requires WellPlaced(h, ls, p) && Spans(h, ls, c)
    requires c.begin == p.end && c.height <= p.height
    ensures Collapsed(h, ls, pb, EffEnd(pb, pe), p.height) == Entry(pb, pe, p, c)
  {
    var n, H, E := |ls|, p.height, EffEnd(pb, pe);
    var m, b, e := Shr(n, H), Shr(pb, H), CeilPow2(E, H);
    CollapseNodes(h, ls, p, c);
    ShrBelowCeil(pb, E, H);
    if pb < n {
      ShrBelowCeil(pb, n, H);
    } else {
      ShrMonotone(n, pb, H);
    }
    ContainsNode(p, pb, pe, H, m - 1);
    AlignedCompare(E, c.begin, H);
    assert Entry(pb, pe, p, c) ==
      if pb < n then (if b == m then [p.sum] else []) + (if e == m then [c.sum] else []) else [];
  }

  /** The subtree in place is node m - 1 of its height and the partial head
      after it stands for node m, the last one, which is incomplete. */
  lemma {:induction false} CollapseNodes(h: Hasher, ls: seq<Bytes>, p: SubTree, c: SubTree)
    requires WellPlaced(h, ls, p) && Spans(h, ls, c)
    requires c.begin == p.end && c.height <= p.height
    ensures Aligned(p.begin, p.height) && Aligned(p.end, p.height)
    ensures Shr(|ls|, p.height) % 2 == 1 && CeilPow2(|ls|, p.height) == Shr(|ls|, p.height) + 1
    ensures Shr(p.begin, p.height) + 1 == Shr(|ls|, p.height) == Shr(p.end, p.height)
    ensures p.sum == Node(h, ls, p.height, Shr(|ls|, p.height) - 1)
    ensures c.sum == Node(h, ls, p.height, Shr(|ls|, p.height))
  {
    var n, H := |ls|, p.height;
    AlignedWeaken(p.begin, H + 1, H);
    AlignedAddPow2(p.begin, H);
    ShrAddPow2(p.begin, H);
    ShrRange(n, p.end, H);
    AlignedSucc(p.begin, H);
    CeilRange(n, p.end, H);
    ShrLeCeil(n, H);
    NodeLift(h, ls, c.height, H, c.begin);
  }

  // Between the subtrees on the stack there is nothing to collapse.

  /** No entries are recorded on height H when collapsing if bit H of n is
      clear, or if n is a multiple of 2^H. */
  lemma {:induction false} CollapsedNone(h: Hasher, ls: seq<Bytes>, pb: nat, end: nat, level: nat)
    requires Shr(|ls|, level) % 2 == 0 || Aligned(|ls|, level)
    ensures Collapsed(h, ls, pb, end, level) == []
  {
    if Aligned(|ls|, level) {
      CeilAligned(|ls|, level);
    }
  }

  /** Up to the lowest subtree's height n is a multiple of the height's
      power of two. */
  lemma {:induction false} CollapsedLow(h: Hasher, ls: seq<Bytes>, pb: nat, end: nat, level: nat)
    requires 0 < |Heights(|ls|, 0)| && level <= Heights(|ls|, 0)[0]
    ensures Collapsed(h, ls, pb, end, level) == []
  {
    var n, hs := |ls|, Heights(|ls|, 0);
    HeightsFirst(n, 0);
    TruncSkip(n, 0, hs[0]);
    TruncFacts(n, hs[0]);
    AlignedWeaken(n, hs[0], level);
    CollapsedNone(h, ls, pb, end, level);
  }

  /** Between two consecutive subtrees' heights, and above the highest, the
      bits of n are clear. */
  lemma {:induction false} CollapsedGap(h: Hasher, ls: seq<Bytes>, pb: nat, end: nat, i: nat, level: nat)
    requires i < |Heights(|ls|, 0)| && Heights(|ls|, 0)[i] < level
    requires i + 1 < |Heights(|ls|, 0)| ==> level < Heights(|ls|, 0)[i + 1]
    ensures Collapsed(h, ls, pb, end, level) == []
  {
    var n, hs := |ls|, Heights(|ls|, 0);
    if i + 1 < |hs| {
      HeightsAdjacent(n, 0, i);
      assert Shr(n, level) % 2 == 0;
    } else {
      HeightsEmpty(n, 0);
      HeightsLast(n, 0);
      ShrAntitone(n, hs[i] + 1, level);
    }
  }

  // Collapsing the whole stack: subtree i below the head is joined at its
  // own height, and between the subtrees' heights nothing is recorded.

  /** The height up to which collapsing has filled the ladder before
      subtree i is joined: that subtree's height, or above the highest
      once all are joined. */
  ghost function Lim(hs: seq<nat>, i: nat): nat
    requires 0 < |hs|
  {
    if i < |hs| then hs[i] else hs[|hs| - 1] + 1
  }

  /** The ladder part way through collapsing: the push-time entries on
      every height, the collapse-time ones below `top`. */
  ghost predicate FilledBelow(h: Hasher, ls: seq<Bytes>, pb: nat, end: nat, lad: seq<seq<Bytes>>, top: nat)
  {
    forall H: nat :: At(lad, H) ==
      Captured(h, ls, pb, end, H) + (if H < top then Collapsed(h, ls, pb, end, H) else [])
  }

  /** Before the first join nothing is due below the second subtree. */
  lemma {:induction false} CollapseLadderStart(h: Hasher, ls: seq<Bytes>, pb: nat, end: nat, lad: seq<seq<Bytes>>)
    requires 0 < |ls| && LadderIs(h, ls, pb, end, lad)
    ensures 0 < |Heights(|ls|, 0)| && FilledBelow(h, ls, pb, end, lad, Lim(Heights(|ls|, 0), 1))
  {
    var hs := Heights(|ls|, 0);
    PeaksEnds(h, ls);
    forall H: nat | H < Lim(hs, 1)
      ensures Collapsed(h, ls, pb, end, H) == []
    {
      if H <= hs[0] {
        CollapsedLow(h, ls, pb, end, H);
      } else {
        CollapsedGap(h, ls, pb, end, 0, H);
      }
    }
  }

  /** Joining subtree i with the partial head records the entry due on
      its height, and nothing is due up to the next subtree's height. */
  lemma {:induction false} CollapseLadderStep(h: Hasher, ls: seq<Bytes>, pb: nat, pe: nat, i: nat, c: SubTree,
                                              lad: seq<seq<Bytes>>, lad': seq<seq<Bytes>>, entry: seq<Bytes>)
    requires 1 <= i < |Peaks(h, ls)|
    requires Spans(h, ls, c) && c.begin == Peaks(h, ls)[i - 1].begin && c.height <= Peaks(h, ls)[i].height
    requires FilledBelow(h, ls, pb, EffEnd(pb, pe), lad, Lim(Heights(|ls|, 0), i))
    requires entry == Entry(pb, pe, Peaks(h, ls)[i], c)
    requires forall H: nat :: At(lad', H) == At(lad, H) + (if H == Peaks(h, ls)[i].height then entry else [])
    ensures FilledBelow(h, ls, pb, EffEnd(pb, pe), lad', Lim(Heights(|ls|, 0), i + 1))
  {
    var hs, P, E := Heights(|ls|, 0), Peaks(h, ls), EffEnd(pb, pe);
    CollapsePlace(h, ls, i, c);
    LadderCollapse(h, ls, pb, pe, P[i], c);
    CollapseGaps(h, ls, pb, E, i);
    forall H: nat
      ensures At(lad', H) == Captured(h, ls, pb, E, H) + (if H < Lim(hs, i + 1) then Collapsed(h, ls, pb, E, H) else [])
    {
      if H == hs[i] {
        assert At(lad, H) == Captured(h, ls, pb, E, H);
      } else if hs[i] < H < Lim(hs, i + 1) {
        assert Collapsed(h, ls, pb, E, H) == [];
      }
    }
  }

  /** Subtree i below the head sits in place just below the partial head,
      at the height the ladder is filled up to. */
  lemma {:induction false} CollapsePlace(h: Hasher, ls: seq<Bytes>, i: nat, c: SubTree)
    requires 1 <= i < |Peaks(h, ls)|
    requires c.begin == Peaks(h, ls)[i - 1].begin
    ensures WellPlaced(h, ls, Peaks(h, ls)[i]) && c.begin == Peaks(h, ls)[i].end
    ensures Peaks(h, ls)[i].height == Heights(|ls|, 0)[i] == Lim(Heights(|ls|, 0), i)
    ensures Heights(|ls|, 0)[i] < Lim(Heights(|ls|, 0), i + 1)
  {
    PeaksHeight(h, ls, i);
    PeaksPlaced(h, ls, i);
    PeaksAdjacent(h, ls, i - 1);
    if i + 1 < |Peaks(h, ls)| {
      PeaksAdjacent(h, ls, i);
      PeaksHeight(h, ls, i + 1);
    }
  }

  /** Nothing is due strictly between subtree i's height and the next. */
  lemma {:induction false} CollapseGaps(h: Hasher, ls: seq<Bytes>, pb: nat, end: nat, i: nat)
    requires i < |Heights(|ls|, 0)|
    ensures forall H: nat :: Heights(|ls|, 0)[i] < H < Lim(Heights(|ls|, 0), i + 1) ==> Collapsed(h, ls, pb, end, H) == []
  {
    var hs := Heights(|ls|, 0);
    forall H: nat | hs[i] < H < Lim(hs, i + 1)
      ensures Collapsed(h, ls, pb, end, H) == []
    {
      CollapsedGap(h, ls, pb, end, i, H);
    }
  }

  /** Once every subtree is joined, every height holds all its entries. */
  lemma {:induction false} CollapseLadderEnd(h: Hasher, ls: seq<Bytes>, pb: nat, end: nat, lad: seq<seq<Bytes>>)
    requires 0 < |Heights(|ls|, 0)|
    requires FilledBelow(h, ls, pb, end, lad, Lim(Heights(|ls|, 0), |Heights(|ls|, 0)|))
    ensures forall H: nat :: At(lad, H) == Captured(h, ls, pb, end, H) + Collapsed(h, ls, pb, end, H)
  {
    var hs := Heights(|ls|, 0);
    forall H: nat | Lim(hs, |hs|) <= H
      ensures Collapsed(h, ls, pb, end, H) == []
    {
      CollapsedGap(h, ls, pb, end, |hs| - 1, H);
    }
  }

  // The whole ladder, once collapsed, is the tail of the proof.

  /** On each height the two kinds of entries together are the neighbours
      the verifier needs, in its order. */
  lemma {:induction false} SiblingsSplit(h: Hasher, ls: seq<Bytes>, pb: nat, end: nat, level: nat)
    requires pb < end <= |ls|
    ensures Captured(h, ls, pb, end, level) + Collapsed(h, ls, pb, end, level) == SiblingsAt(h, ls, pb, end, level)
  {
    var n := |ls|;
    var b, e, m, N := Shr(pb, level), CeilPow2(end, level), Shr(n, level), CeilPow2(n, level);
    ShrBelowCeil(pb, end, level);
    CeilMonotone(end, n, level);
    ShrLeCeil(n, level);
    var l, r := CapturedLeft(h, ls, pb, level), CapturedRight(h, ls, end, level);
    if b == m && m % 2 == 1 && m < N {
      assert r == [] && Collapsed(h, ls, pb, end, level) == [Node(h, ls, level, m - 1)];
    } else {
      assert l == (if b % 2 == 1 then [Node(h, ls, level, b - 1)] else []);
      assert Collapsed(h, ls, pb, end, level) == (if e == m && m % 2 == 1 && m < N then [Node(h, ls, level, m)] else []);
    }
  }

  /** When pb lies beyond the leaves, nothing is ever recorded. */
  lemma {:induction false} LadderIdle(h: Hasher, ls: seq<Bytes>, pb: nat, end: nat, level: nat)
    requires |ls| <= pb < end
    ensures Captured(h, ls, pb, end, level) == [] && Collapsed(h, ls, pb, end, level) == []
  {
    ShrMonotone(|ls|, pb, level);
    ShrBelowCeil(pb, end, level);
  }

  /** Heights whose level has at most one node need no neighbours. */
  lemma {:induction false} SiblingsTop(h: Hasher, ls: seq<Bytes>, pb: nat, end: nat, level: nat)
    requires pb < end <= |ls| && CeilPow2(|ls|, level) <= 1
    ensures SiblingsAt(h, ls, pb, end, level) == []
  {
    ShrBelowCeil(pb, end, level);
    CeilMonotone(end, |ls|, level);
  }

  /** A ladder empty from `level` up flattens to nothing from there. */
  lemma {:induction false} FlattenIdle(lad: seq<seq<Bytes>>, level: nat)
    requires level <= |lad|
    requires forall H: nat :: level <= H ==> At(lad, H) == []
    ensures Flatten(lad[level..]) == []
    decreases |lad| - level
  {
    if level < |lad| {
      assert lad[level..][1..] == lad[level + 1..];
      assert At(lad, level) == lad[level];
      FlattenIdle(lad, level + 1);
    }
  }

  /** A ladder holding the neighbours of every height from `level` up
      flattens to the tail of the proof from there. */
  lemma {:induction false} FlattenTail(h: Hasher, ls: seq<Bytes>, pb: nat, end: nat, lad: seq<seq<Bytes>>, level: nat)
    requires pb < end <= |ls| && level <= |lad|
    requires forall H: nat :: At(lad, H) == SiblingsAt(h, ls, pb, end, H)
    ensures Flatten(lad[level..]) == TailAt(h, ls, pb, end, level)
    decreases |lad| - level
  {
    if level == |lad| {
      TailIdle(h, ls, pb, end, lad, level);
    } else {
      assert lad[level..][1..] == lad[level + 1..];
      assert At(lad, level) == lad[level];
      FlattenTail(h, ls, pb, end, lad, level + 1);
      if CeilPow2(|ls|, level) <= 1 {
        SiblingsTop(h, ls, pb, end, level);
        TailAtEmpty(h, ls, pb, end, level, level + 1);
      }
    }
  }

  /** Beyond the ladder there are no neighbours left. */
  lemma {:induction false} TailIdle(h: Hasher, ls: seq<Bytes>, pb: nat, end: nat, lad: seq<seq<Bytes>>, level: nat)
    requires pb < end <= |ls| && |lad| <= level
    requires forall H: nat :: At(lad, H) == SiblingsAt(h, ls, pb, end, H)
    ensures TailAt(h, ls, pb, end, level) == []
    decreases CeilPow2(|ls|, level)
  {
    if CeilPow2(|ls|, level) > 1 {
      CeilSucc(|ls|, level);
      assert At(lad, level) == [];
      TailIdle(h, ls, pb, end, lad, level + 1);
    }
  }

  /** A fully collapsed ladder: at most two entries per height, flattening
      to the tail of the proof of [pb, end), or to nothing when pb lies
      beyond the leaves. */
  lemma {:induction false} LadderTail(h: Hasher, ls: seq<Bytes>, pb: nat, end: nat, lad: seq<seq<Bytes>>)
    requires pb < end && (pb < |ls| ==> end <= |ls|)
    requires forall H: nat :: At(lad, H) == Captured(h, ls, pb, end, H) + Collapsed(h, ls, pb, end, H)
    ensures forall i :: 0 <= i < |lad| ==> |lad[i]| <= 2
    ensures pb < |ls| ==> Flatten(lad) == TailAt(h, ls, pb, end, 0)
    ensures |ls| <= pb ==> Flatten(lad) == []
  {
    assert lad[0..] == lad;
    if pb < |ls| {
      forall H: nat
        ensures At(lad, H) == SiblingsAt(h, ls, pb, end, H)
      {
        SiblingsSplit(h, ls, pb, end, H);
      }
      FlattenTail(h, ls, pb, end, lad, 0);
    } else {
      forall H: nat
        ensures At(lad, H) == []
      {
        LadderIdle(h, ls, pb, end, H);
      }
      FlattenIdle(lad, 0);
    }
    forall i | 0 <= i < |lad|
      ensures |lad[i]| <= 2
    {
      assert At(lad, i) == lad[i];
      if pb < |ls| {
        SiblingsSplit(h, ls, pb, end, i);
      } else {
        LadderIdle(h, ls, pb, end, i);
      }
    }
  }
}
