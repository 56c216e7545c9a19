// The stack of perfect subtrees a streaming Merkle tree keeps, as a function
// of the leaves pushed so far. After n pushes the stack holds one perfect
// subtree for every bit set in n: the subtree of height j is present when bit
// j of n is one and covers the 2^j leaves just below the subtrees of smaller
// height. The head of the stack is the lowest subtree.

module StackSpec {
  import opened Arith
  import opened Hashing
  import opened MerkleSpec

  /** A subtree on the stack: its height, the leaf range [begin, end) it
      covers, and its root hash. */
  datatype SubTree = SubTree(height: nat, begin: nat, end: nat, sum: Bytes)

  /** Two adjacent subtrees joined under a new parent, a to the left of b.
      Two adjacent perfect subtrees of 2^k leaves make one of 2^(k+1). */
  function JoinSubTrees(h: Hasher, a: SubTree, b: SubTree): (r: SubTree)
    ensures a.end == b.begin && a.begin + Pow2(a.height) == a.end && b.begin + Pow2(a.height) == b.end
            ==> r.begin + Pow2(r.height) == r.end
  {
    SubTree(a.height + 1, a.begin, b.end, NodeSum(h, a.sum, b.sum))
  }

  /** The heights of the subtrees from height j up, lowest first: the
      positions, j or above, of the bits set in n. */
  function Heights(n: nat, j: nat): (hs: seq<nat>)
    ensures forall i :: 0 <= i < |hs| ==> hs[i] >= j && Shr(n, hs[i]) % 2 == 1
    decreases Shr(n, j)
  {
    if Shr(n, j) == 0 then []
    else
      ShrSucc(n, j);
      var rest := Heights(n, j + 1);
      if Shr(n, j) % 2 == 1 then
        assert forall i :: 1 <= i < |rest| + 1 ==> ([j] + rest)[i] == rest[i - 1];
        [j] + rest
      else rest
  }

  /** The subtree of height j over the leaf-level hashes ls, present when bit
      j of |ls| is set. */
  function Peak(h: Hasher, ls: seq<Bytes>, j: nat): SubTree
    requires Shr(|ls|, j) % 2 == 1
  {
    ShrLeCeil(|ls|, j);
    TruncFacts(|ls|, j);
    TruncFacts(|ls|, j + 1);
    SubTree(j, Trunc(|ls|, j + 1), Trunc(|ls|, j), Node(h, ls, j, Shr(|ls|, j) - 1))
  }

  /** The subtrees of height j and above, lowest first. */
  function PeaksFrom(h: Hasher, ls: seq<Bytes>, j: nat): (r: seq<SubTree>)
    ensures |r| == |Heights(|ls|, j)|
  {
    var hs := Heights(|ls|, j);
    seq(|hs|, i requires 0 <= i < |hs| => Peak(h, ls, hs[i]))
  }

  /** The whole stack after |ls| pushes, head first. */
  function Peaks(h: Hasher, ls: seq<Bytes>): seq<SubTree>
  {
    PeaksFrom(h, ls, 0)
  }

  lemma {:induction false} PeaksFromAt(h: Hasher, ls: seq<Bytes>, j: nat, i: nat)
    requires i < |Heights(|ls|, j)|
    ensures PeaksFrom(h, ls, j)[i] == Peak(h, ls, Heights(|ls|, j)[i])
  {
  }

  // The heights alone.

  lemma {:induction false} HeightsEmpty(n: nat, j: nat)
    ensures |Heights(n, j)| == 0 <==> Shr(n, j) == 0
    decreases Shr(n, j)
  {
    if Shr(n, j) > 0 && Shr(n, j) % 2 == 0 {
      ShrSucc(n, j);
      HeightsEmpty(n, j + 1);
    }
  }

  /** A zero bit contributes no height. */
  lemma {:induction false} HeightsZeroBit(n: nat, j: nat)
    requires Shr(n, j) % 2 == 0
    ensures Heights(n, j) == Heights(n, j + 1)
  {
    ShrSucc(n, j);
  }

  /** Zero bits [a, b) contribute no heights. */
  lemma {:induction false} HeightsSkip(n: nat, a: nat, b: nat)
    requires a <= b
    requires forall j :: a <= j < b ==> Shr(n, j) % 2 == 0
    ensures Heights(n, a) == Heights(n, b)
    decreases b - a
  {
    if a < b {
      HeightsZeroBit(n, a);
      HeightsSkip(n, a + 1, b);
    }
  }

  /** The heights from j up depend only on the bits from j up. */
  lemma {:induction false} HeightsAgree(n: nat, m: nat, j: nat)
    requires Shr(n, j) == Shr(m, j)
    ensures Heights(n, j) == Heights(m, j)
    decreases Shr(n, j)
  {
    if Shr(n, j) > 0 {
      ShrSucc(n, j);
      ShrSucc(m, j);
      HeightsAgree(n, m, j + 1);
    }
  }

  /** The lowest height from j up has only zero bits between it and j. */
  lemma {:induction false} HeightsFirst(n: nat, j: nat)
    requires Shr(n, j) > 0
    ensures |Heights(n, j)| > 0 && ZeroBits(n, j, Heights(n, j)[0])
    decreases Shr(n, j)
  {
    ShrSucc(n, j);
    if Shr(n, j) % 2 == 0 {
      HeightsFirst(n, j + 1);
    }
  }

  /** No bit is set above the highest height. */
  lemma {:induction false} HeightsLast(n: nat, j: nat)
    requires Shr(n, j) > 0
    ensures |Heights(n, j)| > 0 && Shr(n, Heights(n, j)[|Heights(n, j)| - 1] + 1) == 0
    decreases Shr(n, j)
  {
    ShrSucc(n, j);
    var hs, rest := Heights(n, j), Heights(n, j + 1);
    HeightsEmpty(n, j + 1);
    if Shr(n, j + 1) > 0 {
      HeightsLast(n, j + 1);
      assert hs[|hs| - 1] == rest[|rest| - 1];
    } else {
      assert hs == [j];
    }
  }

  /** Heights rise strictly. */
  lemma {:induction false} HeightsRise(n: nat, j: nat)
    ensures forall i :: 0 <= i < |Heights(n, j)| - 1 ==> Heights(n, j)[i] < Heights(n, j)[i + 1]
    decreases Shr(n, j)
  {
    if Shr(n, j) > 0 {
      ShrSucc(n, j);
      var hs, rest := Heights(n, j), Heights(n, j + 1);
      HeightsRise(n, j + 1);
      if Shr(n, j) % 2 == 1 {
        forall i | 0 <= i < |hs| - 1
          ensures hs[i] < hs[i + 1]
        {
          if i > 0 {
            assert hs[i] == rest[i - 1] && hs[i + 1] == rest[i];
          }
        }
      }
    }
  }

  /** Only zero bits lie between two consecutive heights. */
  lemma {:induction false} HeightsAdjacent(n: nat, j: nat, i: nat)
    requires i + 1 < |Heights(n, j)|
    ensures ZeroBits(n, Heights(n, j)[i] + 1, Heights(n, j)[i + 1])
    decreases Shr(n, j)
  {
    ShrSucc(n, j);
    var hs, rest := Heights(n, j), Heights(n, j + 1);
    if Shr(n, j) % 2 == 0 {
      HeightsAdjacent(n, j + 1, i);
    } else if i > 0 {
      assert hs[i] == rest[i - 1] && hs[i + 1] == rest[i];
      HeightsAdjacent(n, j + 1, i - 1);
    } else {
      assert hs[0] == j && hs[1] == rest[0];
      HeightsEmpty(n, j + 1);
      HeightsFirst(n, j + 1);
    }
  }

  // The subtrees.

  /** A perfect subtree in its place: 2^height leaves starting at a multiple
      of 2^(height + 1), no leaf beyond it reaching the next such multiple,
      and its sum the node hash of that range. */
  ghost predicate WellPlaced(h: Hasher, ls: seq<Bytes>, p: SubTree)
  {
    p.end == p.begin + Pow2(p.height) && Aligned(p.begin, p.height + 1) &&
    p.end <= |ls| < p.begin + Pow2(p.height + 1) &&
    Shr(p.begin, p.height) < CeilPow2(|ls|, p.height) &&
    p.sum == Node(h, ls, p.height, Shr(p.begin, p.height))
  }

  lemma {:induction false} PeakPlaced(h: Hasher, ls: seq<Bytes>, j: nat)
    requires Shr(|ls|, j) % 2 == 1
    ensures WellPlaced(h, ls, Peak(h, ls, j))
    ensures Shr(Peak(h, ls, j).begin, j) + 1 == Shr(|ls|, j)
  {
    var p, n := Peak(h, ls, j), |ls|;
    TruncFacts(n, j);
    TruncFacts(n, j + 1);
    assert p.begin + Pow2(j) == p.end;
    ShrAddPow2(p.begin, j);
    ShrLeCeil(n, j);
  }

  lemma {:induction false} PeaksHeight(h: Hasher, ls: seq<Bytes>, i: nat)
    requires i < |Peaks(h, ls)|
    ensures Peaks(h, ls)[i].height == Heights(|ls|, 0)[i]
  {
    PeaksFromAt(h, ls, 0, i);
  }

  /** The head ends at the last leaf and the bottom starts at leaf 0. */
  lemma {:induction false} PeaksEnds(h: Hasher, ls: seq<Bytes>)
    ensures |Peaks(h, ls)| == 0 <==> |ls| == 0
    ensures |ls| > 0 ==> Peaks(h, ls)[0].end == |ls| && Peaks(h, ls)[|Peaks(h, ls)| - 1].begin == 0
  {
    var n, hs := |ls|, Heights(|ls|, 0);
    HeightsEmpty(n, 0);
    if n > 0 {
      HeightsFirst(n, 0);
      TruncSkip(n, 0, hs[0]);
      HeightsLast(n, 0);
      TruncZero(n, hs[|hs| - 1] + 1);
    }
  }

  /** Consecutive subtrees: heights rise and ranges meet. */
  lemma {:induction false} PeaksAdjacent(h: Hasher, ls: seq<Bytes>, i: nat)
    requires i + 1 < |Peaks(h, ls)|
    ensures Peaks(h, ls)[i].height < Peaks(h, ls)[i + 1].height
    ensures Peaks(h, ls)[i].begin == Peaks(h, ls)[i + 1].end
  {
    var n, hs := |ls|, Heights(|ls|, 0);
    HeightsRise(n, 0);
    HeightsAdjacent(n, 0, i);
    TruncSkip(n, hs[i] + 1, hs[i + 1]);
  }

  lemma {:induction false} PeaksPlaced(h: Hasher, ls: seq<Bytes>, i: nat)
    requires i < |Peaks(h, ls)|
    ensures WellPlaced(h, ls, Peaks(h, ls)[i])
  {
    PeakPlaced(h, ls, Heights(|ls|, 0)[i]);
  }

  /** The stack after n pushes, as the source describes it: one perfect
      subtree per bit set in n, heights rising from the head, together
      covering the leaves [0, n) in order, each holding the Merkle root of
      its own leaves. */
  lemma {:induction false} PeaksShape(h: Hasher, ls: seq<Bytes>)
    ensures |Peaks(h, ls)| == 0 <==> |ls| == 0
    ensures |ls| > 0 ==> Peaks(h, ls)[0].end == |ls| && Peaks(h, ls)[|Peaks(h, ls)| - 1].begin == 0
    ensures forall i :: 0 <= i < |Peaks(h, ls)| ==> WellPlaced(h, ls, Peaks(h, ls)[i])
    ensures forall i :: 0 <= i < |Peaks(h, ls)| - 1 ==> Peaks(h, ls)[i].height < Peaks(h, ls)[i + 1].height
    ensures forall i :: 0 <= i < |Peaks(h, ls)| - 1 ==> Peaks(h, ls)[i].begin == Peaks(h, ls)[i + 1].end
  {
    PeaksEnds(h, ls);
    forall i | 0 <= i < |Peaks(h, ls)|
      ensures WellPlaced(h, ls, Peaks(h, ls)[i])
    {
      PeaksPlaced(h, ls, i);
    }
    forall i | 0 <= i < |Peaks(h, ls)| - 1
      ensures Peaks(h, ls)[i].height < Peaks(h, ls)[i + 1].height
      ensures Peaks(h, ls)[i].begin == Peaks(h, ls)[i + 1].end
    {
      PeaksAdjacent(h, ls, i);
    }
  }

  /** Every subtree in place holds the Merkle root of the leaves it covers. */
  lemma {:induction false} PlacedIsRoot(h: Hasher, ls: seq<Bytes>, p: SubTree)
    requires WellPlaced(h, ls, p)
    ensures p.begin < p.end <= |ls| && p.sum == MerkleHash(h, ls[p.begin..p.end])
  {
    AlignedWeaken(p.begin, p.height + 1, p.height);
    NodeIsRoot(h, ls, p.height, p.begin, p.end);
  }

  /** The stack from height k up starts with a subtree of height k exactly
      when bit k of n is set. */
  lemma {:induction false} PeaksFromFirst(h: Hasher, ls: seq<Bytes>, k: nat)
    ensures (|PeaksFrom(h, ls, k)| > 0 && PeaksFrom(h, ls, k)[0].height == k) <==> Shr(|ls|, k) % 2 == 1
    ensures Shr(|ls|, k) % 2 == 1 ==> PeaksFrom(h, ls, k) == [Peak(h, ls, k)] + PeaksFrom(h, ls, k + 1)
  {
    var n := |ls|;
    var P, hs, rest := PeaksFrom(h, ls, k), Heights(n, k), Heights(n, k + 1);
    if Shr(n, k) % 2 == 1 {
      ShrSucc(n, k);
      assert hs == [k] + rest;
      var Q := [Peak(h, ls, k)] + PeaksFrom(h, ls, k + 1);
      forall i | 0 <= i < |P|
        ensures P[i] == Q[i]
      {
        if i > 0 {
          assert hs[i] == rest[i - 1];
        }
      }
    } else {
      HeightsZeroBit(n, k);
    }
  }

  /** The subtree of height j is the same over ls and over any extension of
      ls with the same bits from j up. */
  lemma {:induction false} PeakAgree(h: Hasher, ls: seq<Bytes>, more: seq<Bytes>, j: nat)
    requires Shr(|ls|, j) % 2 == 1 && Shr(|ls|, j) == Shr(|ls + more|, j)
    ensures Peak(h, ls, j) == Peak(h, ls + more, j)
  {
    var n, n' := |ls|, |ls + more|;
    ShrSucc(n, j);
    ShrSucc(n', j);
    TruncFacts(n, j);
    TruncFacts(n, j + 1);
    TruncFacts(n', j);
    TruncFacts(n', j + 1);
    AlignedUnique(Trunc(n, j + 1), Trunc(n', j + 1), j + 1);
    AlignedUnique(Trunc(n, j), Trunc(n', j), j);
    NodePrefix(h, ls, more, j, Shr(n, j) - 1);
  }

  /** Stacks over two leaf sequences, one extending the other, agree from
      every height at which the two counts agree. */
  lemma {:induction false} PeaksFromPrefix(h: Hasher, ls: seq<Bytes>, more: seq<Bytes>, j: nat)
    requires Shr(|ls|, j) == Shr(|ls + more|, j)
    ensures PeaksFrom(h, ls, j) == PeaksFrom(h, ls + more, j)
  {
    var n, ls' := |ls|, ls + more;
    HeightsAgree(n, |ls'|, j);
    var hs := Heights(n, j);
    forall i | 0 <= i < |hs|
      ensures PeaksFrom(h, ls, j)[i] == PeaksFrom(h, ls', j)[i]
    {
      ShrAgreeAbove(n, |ls'|, j, hs[i]);
      PeakAgree(h, ls, more, hs[i]);
    }
  }

  // Pushing one more leaf. The new leaf starts as a subtree of height 0 and
  // is joined with the subtrees of equal height on the stack, one per
  // trailing one bit of n.

  /** The head of the stack after the new leaf x has been joined k times. */
  ghost function Carried(h: Hasher, ls: seq<Bytes>, x: Bytes, k: nat): SubTree
    requires TrailingOnes(|ls|, k)
  {
    var n := |ls|;
    Carry(n, k);
    TruncFacts(n, k);
    CeilAligned(n + 1, k);
    SubTree(k, Trunc(n, k), n + 1, Node(h, ls + [x], k, Shr(n, k)))
  }

  lemma {:induction false} CarriedStart(h: Hasher, ls: seq<Bytes>, x: Bytes)
    ensures TrailingOnes(|ls|, 0)
    ensures Carried(h, ls, x, 0) == SubTree(0, |ls|, |ls| + 1, x)
  {
    NodeLeaf(h, ls + [x], |ls|);
  }

  /** Joining the subtree of height k with the carried head gives the head
      of height k + 1. */
  lemma {:induction false} CarryJoin(h: Hasher, ls: seq<Bytes>, x: Bytes, k: nat)
    requires TrailingOnes(|ls|, k + 1)
    ensures TrailingOnes(|ls|, k)
    ensures JoinSubTrees(h, Peak(h, ls, k), Carried(h, ls, x, k)) == Carried(h, ls, x, k + 1)
  {
    var n := |ls|;
    assert Shr(n, k) % 2 == 1;
    var p, c, c1 := Peak(h, ls, k), Carried(h, ls, x, k), Carried(h, ls, x, k + 1);
    Carry(n, k);
    CeilAligned(n + 1, k);
    PairCarried(h, ls, x, k, Shr(n, k));
    ShrSucc(n, k);
    assert p.sum == Node(h, ls, k, Shr(n, k) - 1);
    assert NodeSum(h, p.sum, c.sum) == c1.sum;
  }

  /** The node hash of the old node m - 1 of height k and the new node m
      is the new node m / 2 of height k + 1. */
  lemma {:induction false} PairCarried(h: Hasher, ls: seq<Bytes>, x: Bytes, k: nat, m: nat)
    requires m == Shr(|ls|, k) && m % 2 == 1 && m < CeilPow2(|ls + [x]|, k)
    ensures m - 1 < CeilPow2(|ls|, k) && m / 2 < CeilPow2(|ls + [x]|, k + 1)
    ensures NodeSum(h, Node(h, ls, k, m - 1), Node(h, ls + [x], k, m)) == Node(h, ls + [x], k + 1, m / 2)
  {
    var c := m / 2;
    assert 2 * c == m - 1 && 2 * c + 1 == m;
    NodePrefix(h, ls, [x], k, m - 1);
    NodePair(h, ls + [x], k, c);
  }

  /** The stack part way through a push of x: the head carried k times on
      top of the old subtrees of height k and above. */
  ghost predicate Carrying(h: Hasher, ls: seq<Bytes>, x: Bytes, k: nat, st: seq<SubTree>)
  {
    TrailingOnes(|ls|, k) && st == [Carried(h, ls, x, k)] + PeaksFrom(h, ls, k)
  }

  /** Push starts with the new leaf on top of the old stack. */
  lemma {:induction false} CarryStart(h: Hasher, ls: seq<Bytes>, x: Bytes)
    ensures Carrying(h, ls, x, 0, [SubTree(0, |ls|, |ls| + 1, x)] + Peaks(h, ls))
  {
    CarriedStart(h, ls, x);
  }

  /** One join of Push: while the head, carried k times, has the height of
      the subtree after it, bit k of n is set and joining the two gives the
      head carried k + 1 times on top of the subtrees above height k. */
  lemma {:induction false} JoinStep(h: Hasher, ls: seq<Bytes>, x: Bytes, k: nat, st: seq<SubTree>)
    requires Carrying(h, ls, x, k, st) && 1 < |st| && st[0].height == st[1].height
    ensures Shr(|ls|, k) % 2 == 1 && TrailingOnes(|ls|, k + 1)
    ensures st[0] == Carried(h, ls, x, k) && st[1] == Peak(h, ls, k)
    ensures Carrying(h, ls, x, k + 1, [JoinSubTrees(h, st[1], st[0])] + st[2..])
  {
    PeaksFromFirst(h, ls, k);
    var rest := PeaksFrom(h, ls, k);
    assert st[1] == rest[0] && st[2..] == rest[1..];
    assert Shr(|ls|, k) % 2 == 1;
    CarryJoin(h, ls, x, k);
  }

  /** When the head can no longer be joined, the carry has stopped at a
      zero bit and the stack is that of the new leaves. */
  lemma {:induction false} JoinStop(h: Hasher, ls: seq<Bytes>, x: Bytes, k: nat, st: seq<SubTree>)
    requires Carrying(h, ls, x, k, st) && !(1 < |st| && st[0].height == st[1].height)
    ensures Shr(|ls|, k) % 2 == 0 && st == Peaks(h, ls + [x])
  {
    PeaksFromFirst(h, ls, k);
    CarryDone(h, ls, x, k);
  }

  /** When the carry stops at a zero bit k, the new subtree of height k is
      the carried head. */
  lemma {:induction false} CarryPeak(h: Hasher, ls: seq<Bytes>, x: Bytes, k: nat)
    requires TrailingOnes(|ls|, k) && Shr(|ls|, k) % 2 == 0
    ensures Shr(|ls + [x]|, k) % 2 == 1
    ensures Peak(h, ls + [x], k) == Carried(h, ls, x, k)
  {
    var n := |ls|;
    Carry(n, k);
    ShrSucc(n + 1, k);
    TruncFacts(n + 1, k);
    AlignedUnique(Trunc(n + 1, k), n + 1, k);
  }

  /** The carry clears the bits below k and sets bit k: the new heights
      are k and the old heights above k ... */
  lemma {:induction false} CarryHeights(n: nat, k: nat)
    requires TrailingOnes(n, k) && Shr(n, k) % 2 == 0
    ensures Heights(n + 1, 0) == [k] + Heights(n, k)
    ensures Shr(n + 1, k + 1) == Shr(n, k + 1)
  {
    Carry(n, k);
    var m := n + 1;
    forall j | 0 <= j < k
      ensures Shr(m, j) % 2 == 0
    {
      AlignedLowBits(m, k, j);
    }
    HeightsSkip(m, 0, k);
    ShrSucc(n, k);
    ShrSucc(m, k);
    HeightsAgree(n, m, k + 1);
    HeightsZeroBit(n, k);
  }

  /** ... so once the carry stops at a zero bit k, the stack is the carried
      head on top of the old subtrees of height above k. */
  lemma {:induction false} CarryDone(h: Hasher, ls: seq<Bytes>, x: Bytes, k: nat)
    requires TrailingOnes(|ls|, k) && Shr(|ls|, k) % 2 == 0
    ensures Peaks(h, ls + [x]) == [Carried(h, ls, x, k)] + PeaksFrom(h, ls, k)
  {
    var n, ls' := |ls|, ls + [x];
    CarryHeights(n, k);
    CarryPeak(h, ls, x, k);
    HeightsZeroBit(n, k);
    PeaksFromPrefix(h, ls, [x], k + 1);
    var P, Q, above := Peaks(h, ls'), [Carried(h, ls, x, k)] + PeaksFrom(h, ls, k), PeaksFrom(h, ls, k + 1);
    assert |P| == |Q|;
    forall i | 0 <= i < |P|
      ensures P[i] == Q[i]
    {
      if i > 0 {
        assert Q[i] == above[i - 1];
      }
    }
  }

  // Collapsing the stack into the root: the head is joined with each
  // subtree below it in turn, the head standing in for a node of the
  // subtree's height.

  /** A partial head: the leaves [c.begin, |ls|) under one node of height
      c.height, which holds their node hash. */
  ghost predicate Spans(h: Hasher, ls: seq<Bytes>, c: SubTree)
  {
    c.end == |ls| && c.begin < |ls| <= c.begin + Pow2(c.height) &&
    Aligned(c.begin, c.height) &&
    Shr(c.begin, c.height) < CeilPow2(|ls|, c.height) &&
    c.sum == Node(h, ls, c.height, Shr(c.begin, c.height))
  }

  lemma {:induction false} CollapseStart(h: Hasher, ls: seq<Bytes>)
    requires |ls| > 0
    ensures |Peaks(h, ls)| > 0 && Spans(h, ls, Peaks(h, ls)[0])
  {
    PeaksShape(h, ls);
    var p := Peaks(h, ls)[0];
    assert WellPlaced(h, ls, p);
    AlignedWeaken(p.begin, p.height + 1, p.height);
  }

  /** Joining a subtree in place with the partial head just after it gives
      a partial head starting where the subtree starts. */
  lemma {:induction false} JoinPlaced(h: Hasher, ls: seq<Bytes>, p: SubTree, c: SubTree)
    requires WellPlaced(h, ls, p) && Spans(h, ls, c)
    requires c.begin == p.end && c.height <= p.height
    ensures Spans(h, ls, JoinSubTrees(h, p, c))
  {
    var H, x := p.height, p.begin;
    AlignedAddPow2(x, H);
    AlignedWeaken(x, H + 1, H);
    NodeLift(h, ls, c.height, H, x + Pow2(H));
    ShrAddPow2(x, H);
    NodePair(h, ls, H, Shr(x, H + 1));
  }

  /** Joining the next subtree with the head keeps the head a partial head,
      now starting where that subtree starts. */
  lemma {:induction false} CollapseStep(h: Hasher, ls: seq<Bytes>, i: nat, c: SubTree)
    requires 1 <= i < |Peaks(h, ls)|
    requires Spans(h, ls, c) && c.begin == Peaks(h, ls)[i - 1].begin
    requires c.height <= Peaks(h, ls)[i].height
    ensures Spans(h, ls, JoinSubTrees(h, Peaks(h, ls)[i], c))
    ensures JoinSubTrees(h, Peaks(h, ls)[i], c).begin == Peaks(h, ls)[i].begin
    ensures i + 1 < |Peaks(h, ls)| ==> JoinSubTrees(h, Peaks(h, ls)[i], c).height <= Peaks(h, ls)[i + 1].height
  {
    PeaksShape(h, ls);
    var P := Peaks(h, ls);
    assert WellPlaced(h, ls, P[i]) && P[i].end == P[i - 1].begin;
    JoinPlaced(h, ls, P[i], c);
  }

  lemma {:induction false} CollapseEnd(h: Hasher, ls: seq<Bytes>, c: SubTree)
    requires Spans(h, ls, c) && c.begin == 0
    ensures c.sum == MerkleHash(h, ls)
  {
    AlignedZero(c.height);
    NodeTop(h, ls, c.height);
  }
}
