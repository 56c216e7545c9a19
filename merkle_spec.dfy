// The tree the library computes, defined as section 2.1 of RFC 6962 defines
// the Merkle Tree Hash: a list of n > 1 leaves is split after k leaves, k the
// largest power of two smaller than n, and the two halves are hashed
// recursively. The definitions work on leaf-level hashes `hs` (for an ordinary
// tree hs[i] = Hash(0x00 || d[i]); for a cached tree hs[i] is the root of a
// cached block) and are the reference against which the code is proved.
module MerkleSpec {
  import opened Arith
  import opened Hashing

  /** floor(log2 m). */
  function Log2Floor(m: nat): (r: nat)
    requires m >= 1
    ensures Pow2(r) <= m < Pow2(r + 1)
  {
    if m == 1 then 0 else 1 + Log2Floor(m / 2)
  }

  lemma {:induction false} Log2FloorUnique(m: nat, k: nat)
    requires Pow2(k) <= m < Pow2(k + 1)
    ensures Log2Floor(m) == k
  {
    var r := Log2Floor(m);
    if r < k {
      Pow2Monotone(r + 1, k);
    } else if k < r {
      Pow2Monotone(k + 1, r);
    }
  }

  /** The height of the left subtree when n >= 2 leaves are split:
      2^SplitHeight(n) is the largest power of two strictly below n. */
  function SplitHeight(n: nat): (k: nat)
    requires n >= 2
    ensures Pow2(k) < n <= Pow2(k + 1)
  {
    Log2Floor(n - 1)
  }

  /** Node i of the level above s: the node hash of s[2i] and s[2i+1], or
      s[2i] carried up unchanged when it is the odd last element. */
  function Pair(h: Hasher, s: seq<Bytes>, i: nat): Bytes
    requires 2 * i < |s|
  {
    if 2 * i + 1 < |s| then NodeSum(h, s[2 * i], s[2 * i + 1]) else s[2 * i]
  }

  /** One level up the tree: neighbours (s[0], s[1]), (s[2], s[3]), ... are
      joined, and an odd last element is carried up unchanged. */
  function PairUp(h: Hasher, s: seq<Bytes>): (r: seq<Bytes>)
    ensures |r| == (|s| + 1) / 2
  {
    seq((|s| + 1) / 2, i requires 0 <= i < (|s| + 1) / 2 => Pair(h, s, i))
  }

  lemma {:induction false} PairUpAt(h: Hasher, s: seq<Bytes>, i: nat)
    requires 2 * i < |s|
    ensures i < |PairUp(h, s)| && PairUp(h, s)[i] == Pair(h, s, i)
  {
  }

  /** Pairing up consumes the first two elements at a time. */
  lemma {:induction false} PairUpFront(h: Hasher, s: seq<Bytes>)
    ensures |s| >= 2 ==> PairUp(h, s) == [NodeSum(h, s[0], s[1])] + PairUp(h, s[2..])
    ensures |s| == 1 ==> PairUp(h, s) == s
  {
    if |s| >= 2 {
      var r, t := PairUp(h, s), PairUp(h, s[2..]);
      forall i | 1 <= i < |r|
        ensures r[i] == t[i - 1]
      {
        PairUpAt(h, s, i);
        PairUpAt(h, s[2..], i - 1);
      }
      PairUpAt(h, s, 0);
      assert r == [r[0]] + t;
    } else if |s| == 1 {
      PairUpAt(h, s, 0);
    }
  }

  /** Pairing up a slice that starts on a left child, and ends on a left
      child or at the end, pairs up the corresponding slice of the level. */
  lemma {:induction false} PairUpSlice(h: Hasher, lv: seq<Bytes>, b: nat, e: nat)
    requires b % 2 == 0 && b <= e <= |lv| && (e % 2 == 0 || e == |lv|)
    ensures b / 2 <= (e + 1) / 2 <= |PairUp(h, lv)|
    ensures PairUp(h, lv[b..e]) == PairUp(h, lv)[b / 2..(e + 1) / 2]
  {
    var r, t := PairUp(h, lv[b..e]), PairUp(h, lv)[b / 2..(e + 1) / 2];
    forall i | 0 <= i < |r|
      ensures r[i] == t[i]
    {
      PairUpAt(h, lv[b..e], i);
      PairUpAt(h, lv, b / 2 + i);
    }
  }

  /** The leaf-level hashes of a slice of the data are the slice of its
      leaf-level hashes. */
  lemma {:induction false} LeafHashesSlice(h: Hasher, data: seq<Bytes>, b: nat, e: nat)
    requires b <= e <= |data|
    ensures LeafHashes(h, data[b..e]) == LeafHashes(h, data)[b..e]
  {
  }

  /** Hashing one more leaf appends its leaf hash. */
  lemma {:induction false} LeafHashesAppend(h: Hasher, data: seq<Bytes>, d: Bytes)
    ensures LeafHashes(h, data + [d]) == LeafHashes(h, data) + [LeafSum(h, d)]
  {
    var l, r := LeafHashes(h, data + [d]), LeafHashes(h, data) + [LeafSum(h, d)];
    forall i | 0 <= i < |l|
      ensures l[i] == r[i]
    {
      if i < |data| {
        assert (data + [d])[i] == data[i];
      }
    }
  }

  /** MTH of section 2.1 of RFC 6962, over leaf-level hashes. */
  function Rfc6962Hash(h: Hasher, hs: seq<Bytes>): Bytes
    requires |hs| >= 1
    decreases |hs|
  {
    if |hs| == 1 then hs[0]
    else
      var k := Pow2(SplitHeight(|hs|));
      NodeSum(h, Rfc6962Hash(h, hs[..k]), Rfc6962Hash(h, hs[k..]))
  }

  /** Leaf-level hashes of the data: Hash(0x00 || d) for each leaf d. */
  function LeafHashes(h: Hasher, data: seq<Bytes>): (hs: seq<Bytes>)
    ensures |hs| == |data|
  {
    seq(|data|, i requires 0 <= i < |data| => LeafSum(h, data[i]))
  }

  /** MTH(D[n]) for n >= 1. */
  function MTH(h: Hasher, data: seq<Bytes>): Bytes
    requires |data| >= 1
  {
    MerkleHash(h, LeafHashes(h, data))
  }

  /** The root the library reports: nil for no leaves (where the RFC would
      hash the empty string), otherwise the Merkle Tree Hash. */
  function RootOf(h: Hasher, hs: seq<Bytes>): Option<Bytes>
  {
    if |hs| == 0 then None else Some(MerkleHash(h, hs))
  }

  // ---------------------------------------------------------------------
  // Nodes. Node j of height L is the subtree over leaves
  // [j * 2^L, min((j + 1) * 2^L, n)): the node hash of its two children of
  // height L - 1, or its only child carried up unchanged when the level below
  // has odd length and it sits at the end.

  function Node(h: Hasher, hs: seq<Bytes>, level: nat, j: nat): Bytes
    requires j < CeilPow2(|hs|, level)
    decreases level
  {
    if level == 0 then hs[j]
    else if 2 * j + 1 < CeilPow2(|hs|, level - 1) then
      NodeSum(h, Node(h, hs, level - 1, 2 * j), Node(h, hs, level - 1, 2 * j + 1))
    else
      Node(h, hs, level - 1, 2 * j)
  }

  /** The number of levels above the leaves: the least L with n <= 2^L. */
  function RootHeight(n: nat): nat
  {
    if n <= 1 then 0 else 1 + RootHeight((n + 1) / 2)
  }

  lemma {:induction false} RootHeightFits(n: nat)
    ensures n <= Pow2(RootHeight(n))
  {
    if n > 1 {
      RootHeightFits((n + 1) / 2);
      Pow2Succ(RootHeight((n + 1) / 2));
    }
  }

  lemma {:induction false} RootHeightLeast(n: nat, level: nat)
    requires n <= Pow2(level)
    ensures RootHeight(n) <= level
  {
    if n > 1 {
      assert level > 0;
      Pow2Succ(level - 1);
      RootHeightLeast((n + 1) / 2, level - 1);
    }
  }

  /** The Merkle root of n >= 1 leaf-level hashes: the single node of height
      L, the least L with 2^L >= n, as the stack, the verifier and the reader
      all compute it by pairing up level by level. Rfc6962Hash above is the
      recursive definition of the RFC, and MerkleHashIsRfc6962 shows the two
      agree. */
  function MerkleHash(h: Hasher, hs: seq<Bytes>): Bytes
    requires |hs| >= 1
  {
    RootHeightFits(|hs|);
    CeilOne(|hs|, RootHeight(|hs|));
    Node(h, hs, RootHeight(|hs|), 0)
  }

  lemma {:induction false} NodeLeaf(h: Hasher, hs: seq<Bytes>, j: nat)
    requires j < |hs|
    ensures Node(h, hs, 0, j) == hs[j]
  {
  }

  /** A node with two children is the node hash of the children. */
  lemma {:induction false} NodePair(h: Hasher, hs: seq<Bytes>, level: nat, j: nat)
    requires 2 * j + 1 < CeilPow2(|hs|, level)
    ensures j < CeilPow2(|hs|, level + 1)
    ensures Node(h, hs, level + 1, j) == NodeSum(h, Node(h, hs, level, 2 * j), Node(h, hs, level, 2 * j + 1))
  {
    var l1 := level + 1;
    assert l1 - 1 == level;
    CeilSucc(|hs|, level);
  }

  /** The last node of a level of odd length is carried up unchanged. */
  lemma {:induction false} NodeSingle(h: Hasher, hs: seq<Bytes>, level: nat, j: nat)
    requires 2 * j + 1 == CeilPow2(|hs|, level)
    ensures j < CeilPow2(|hs|, level + 1)
    ensures Node(h, hs, level + 1, j) == Node(h, hs, level, 2 * j)
  {
    var l1 := level + 1;
    assert l1 - 1 == level;
    CeilSucc(|hs|, level);
  }

  /** A complete node does not change when leaves are appended. */
  lemma {:induction false} NodePrefix(h: Hasher, hs: seq<Bytes>, more: seq<Bytes>, level: nat, j: nat)
    requires j < Shr(|hs|, level)
    ensures j < CeilPow2(|hs|, level) && j < CeilPow2(|hs + more|, level)
    ensures Node(h, hs + more, level, j) == Node(h, hs, level, j)
    decreases level
  {
    if level > 0 {
      var l := level - 1;
      assert l + 1 == level;
      PrefixChildren(|hs|, |hs + more|, l, j);
      NodePrefix(h, hs, more, l, 2 * j);
      NodePrefix(h, hs, more, l, 2 * j + 1);
      NodesAgreeUp(h, hs + more, hs, l, l, j, j, level, level);
    }
  }

  /** The index arithmetic of NodePrefix one level down: a complete node has
      two complete children. */
  lemma {:induction false} PrefixChildren(n: nat, m: nat, k: nat, j: nat)
    requires n <= m && j < Shr(n, k + 1)
    ensures 2 * j + 1 < Shr(n, k)
    ensures j < CeilPow2(n, k + 1) && j < CeilPow2(m, k + 1)
    ensures 2 * j + 1 < CeilPow2(n, k) && 2 * j + 1 < CeilPow2(m, k)
  {
    ShrSucc(n, k);
    ShrLeCeil(n, k);
    ShrLeCeil(n, k + 1);
    CeilMonotone(n, m, k);
    CeilMonotone(n, m, k + 1);
  }

  /** Dropping an aligned prefix of d leaves shifts the nodes above the rest
      by the number of nodes above the prefix. */
  lemma {:induction false} NodeDrop(h: Hasher, hs: seq<Bytes>, d: nat, level: nat, j: nat)
    requires d <= |hs| && Aligned(d, level) && j < CeilPow2(|hs| - d, level)
    ensures j + Shr(d, level) < CeilPow2(|hs|, level)
    ensures Node(h, hs[d..], level, j) == Node(h, hs, level, j + Shr(d, level))
    decreases level
  {
    if level > 0 {
      var l := level - 1;
      var jj := j + Shr(d, level);
      var rest := hs[d..];
      assert |rest| == |hs| - d;
      DropChildren(|hs|, d, l, j, jj);
      NodeDrop(h, hs, d, l, 2 * j);
      if 2 * j + 1 < CeilPow2(|hs| - d, l) {
        NodeDrop(h, hs, d, l, 2 * j + 1);
      }
      NodesAgreeUp(h, rest, hs, l, l, j, jj, level, level);
    }
  }

  /** The index arithmetic of NodeDrop one level down: the children of node j
      over the n - d remaining leaves are the children of node j + d / 2^(k+1)
      over all n, shifted by d / 2^k. */
  lemma {:induction false} DropChildren(n: nat, d: nat, k: nat, j: nat, jj: nat)
    requires d <= n && Aligned(d, k + 1) && j < CeilPow2(n - d, k + 1)
    requires jj == j + Shr(d, k + 1)
    ensures jj < CeilPow2(n, k + 1)
    ensures Aligned(d, k) && 2 * j < CeilPow2(n - d, k)
    ensures 2 * jj == 2 * j + Shr(d, k) && 2 * jj + 1 == 2 * j + 1 + Shr(d, k)
    ensures 2 * j + 1 < CeilPow2(n - d, k) <==> 2 * jj + 1 < CeilPow2(n, k)
  {
    AlignedSucc(d, k);
    ShrSucc(d, k);
    CeilSucc(n - d, k);
    CeilSubAligned(n, d, k);
    CeilSubAligned(n, d, k + 1);
  }

  /** Two nodes whose children agree pairwise agree. */
  lemma {:induction false} NodesAgreeUp(h: Hasher, xs: seq<Bytes>, ys: seq<Bytes>, lx: nat, ly: nat, i: nat, j: nat, x1: nat, y1: nat)
    requires x1 == lx + 1 && y1 == ly + 1
    requires 2 * i < CeilPow2(|xs|, lx) && 2 * j < CeilPow2(|ys|, ly)
    requires Node(h, xs, lx, 2 * i) == Node(h, ys, ly, 2 * j)
    requires 2 * i + 1 < CeilPow2(|xs|, lx) <==> 2 * j + 1 < CeilPow2(|ys|, ly)
    requires 2 * i + 1 < CeilPow2(|xs|, lx) ==> Node(h, xs, lx, 2 * i + 1) == Node(h, ys, ly, 2 * j + 1)
    ensures i < CeilPow2(|xs|, x1) && j < CeilPow2(|ys|, y1)
    ensures Node(h, xs, x1, i) == Node(h, ys, y1, j)
  {
    assert x1 - 1 == lx && y1 - 1 == ly;
    CeilSucc(|xs|, lx);
    CeilSucc(|ys|, ly);
  }

  /** The single node of a height whose subtree spans all the leaves is the
      root. */
  lemma {:induction false} NodeTop(h: Hasher, hs: seq<Bytes>, level: nat)
    requires 1 <= |hs| <= Pow2(level)
    ensures CeilPow2(|hs|, level) == 1
    ensures Node(h, hs, level, 0) == MerkleHash(h, hs)
    decreases level
  {
    CeilOne(|hs|, level);
    RootHeightLeast(|hs|, level);
    if level != RootHeight(|hs|) {
      var l := level - 1;
      assert l + 1 == level;
      RootHeightFits(|hs|);
      Pow2Monotone(RootHeight(|hs|), l);
      CeilOne(|hs|, l);
      NodeSingle(h, hs, l, 0);
      NodeTop(h, hs, l);
    }
  }

  /** What a node is: the Merkle root of the leaves below it. */
  lemma {:induction false} NodeIsRoot(h: Hasher, hs: seq<Bytes>, level: nat, begin: nat, end: nat)
    requires Aligned(begin, level) && begin < |hs| && end == Min(begin + Pow2(level), |hs|)
    ensures Shr(begin, level) < CeilPow2(|hs|, level)
    ensures Node(h, hs, level, Shr(begin, level)) == MerkleHash(h, hs[begin..end])
  {
    var front := hs[..end];
    var j := Shr(begin, level);
    ShrBelowCeil(begin, |hs|, level);
    ShrBelowCeil(begin, end, level);
    if end < |hs| {
      assert hs == front + hs[end..];
      ShrAddPow2(begin, level);
      ShrMonotone(begin + Pow2(level), end, level);
      NodePrefix(h, front, hs[end..], level, j);
    } else {
      assert hs == front;
    }
    var range := front[begin..];
    assert range == hs[begin..end];
    assert |range| == end - begin;
    CeilPositive(end - begin, level);
    NodeDrop(h, front, begin, level, 0);
    NodeTop(h, range, level);
  }

  /** The last node of height c, starting at a leaf aligned to height H >= c,
      is also the last node of every height up to H. */
  lemma {:induction false} NodeLift(h: Hasher, hs: seq<Bytes>, c: nat, H: nat, x: nat)
    requires c <= H && Aligned(x, H) && x < |hs| <= x + Pow2(c)
    ensures Shr(x, c) < CeilPow2(|hs|, c) && Shr(x, H) < CeilPow2(|hs|, H)
    ensures Node(h, hs, H, Shr(x, H)) == Node(h, hs, c, Shr(x, c))
    decreases H - c
  {
    ShrBelowCeil(x, |hs|, c);
    ShrBelowCeil(x, |hs|, H);
    if c < H {
      var l := H - 1;
      assert l + 1 == H;
      LiftChild(|hs|, x, l, c);
      NodeLift(h, hs, c, l, x);
      NodeSingle(h, hs, l, Shr(x, H));
    }
  }

  /** The index arithmetic of NodeLift one level down: the last node of height
      k + 1 has a single child. */
  lemma {:induction false} LiftChild(n: nat, x: nat, k: nat, c: nat)
    requires c <= k && Aligned(x, k + 1) && x < n <= x + Pow2(c)
    ensures Aligned(x, k) && 2 * Shr(x, k + 1) == Shr(x, k)
    ensures 2 * Shr(x, k + 1) + 1 == CeilPow2(n, k)
  {
    AlignedSucc(x, k);
    ShrSucc(x, k);
    Pow2Monotone(c, k);
    ShrBelowCeil(x, n, k);
    CeilMonotone(n, x + Pow2(k), k);
    CeilAddPow2(x, k);
    CeilAligned(x, k);
  }

  /** A list of more than 2^k and at most 2^(k+1) leaf-level hashes joins a
      complete left subtree of 2^k leaves with the rest. */
  lemma {:induction false} SplitAt(h: Hasher, hs: seq<Bytes>, k: nat)
    requires Pow2(k) < |hs| <= Pow2(k + 1)
    ensures MerkleHash(h, hs) == NodeSum(h, MerkleHash(h, hs[..Pow2(k)]), MerkleHash(h, hs[Pow2(k)..]))
  {
    var p := Pow2(k);
    NodeTop(h, hs, k + 1);
    AlignedZero(k);
    Pow2Aligned(k);
    ShrBelowCeil(p, |hs|, k);
    NodePair(h, hs, k, 0);
    NodeIsRoot(h, hs, k, 0, p);
    assert hs[0..p] == hs[..p];
    Pow2Succ(k);
    NodeIsRoot(h, hs, k, p, |hs|);
    assert hs[p..|hs|] == hs[p..];
  }

  /** The level-by-level root is the RFC 6962 Merkle Tree Hash. */
  lemma {:induction false} MerkleHashIsRfc6962(h: Hasher, hs: seq<Bytes>)
    requires |hs| >= 1
    ensures MerkleHash(h, hs) == Rfc6962Hash(h, hs)
    decreases |hs|
  {
    if |hs| > 1 {
      var k := SplitHeight(|hs|);
      SplitAt(h, hs, k);
      MerkleHashIsRfc6962(h, hs[..Pow2(k)]);
      MerkleHashIsRfc6962(h, hs[Pow2(k)..]);
    }
  }

  // ---------------------------------------------------------------------
  // Whole levels.

  /** The nodes of height `level`, left to right. */
  function LevelSeq(h: Hasher, hs: seq<Bytes>, level: nat): (r: seq<Bytes>)
    ensures |r| == CeilPow2(|hs|, level)
  {
    seq(CeilPow2(|hs|, level), j requires 0 <= j < CeilPow2(|hs|, level) => Node(h, hs, level, j))
  }

  lemma {:induction false} LevelSeqAt(h: Hasher, hs: seq<Bytes>, level: nat, j: nat)
    requires j < CeilPow2(|hs|, level)
    ensures LevelSeq(h, hs, level)[j] == Node(h, hs, level, j)
  {
  }

  /** Height 0 holds the leaf-level hashes themselves. */
  lemma {:induction false} LevelSeqZero(h: Hasher, hs: seq<Bytes>)
    ensures LevelSeq(h, hs, 0) == hs
  {
    var lv := LevelSeq(h, hs, 0);
    forall j | 0 <= j < |hs|
      ensures lv[j] == hs[j]
    {
      LevelSeqAt(h, hs, 0, j);
    }
  }

  /** Node j of a level is pair j of the level below. */
  lemma {:induction false} LevelSeqSuccAt(h: Hasher, hs: seq<Bytes>, level: nat, j: nat)
    requires j < CeilPow2(|hs|, level + 1)
    ensures 2 * j < |LevelSeq(h, hs, level)|
    ensures LevelSeq(h, hs, level + 1)[j] == Pair(h, LevelSeq(h, hs, level), j)
  {
    var lo := LevelSeq(h, hs, level);
    CeilSucc(|hs|, level);
    LevelSeqAt(h, hs, level + 1, j);
    LevelSeqAt(h, hs, level, 2 * j);
    if 2 * j + 1 < |lo| {
      LevelSeqAt(h, hs, level, 2 * j + 1);
      NodePair(h, hs, level, j);
    } else {
      NodeSingle(h, hs, level, j);
    }
  }

  /** Each level is the level below paired up. */
  lemma {:induction false} LevelSeqSucc(h: Hasher, hs: seq<Bytes>, level: nat)
    ensures LevelSeq(h, hs, level + 1) == PairUp(h, LevelSeq(h, hs, level))
  {
    var lo, hi := LevelSeq(h, hs, level), LevelSeq(h, hs, level + 1);
    CeilSucc(|hs|, level);
    forall j | 0 <= j < |hi|
      ensures hi[j] == PairUp(h, lo)[j]
    {
      PairUpAt(h, lo, j);
      LevelSeqSuccAt(h, hs, level, j);
    }
  }

  /** Climbing a levels and then L more is climbing c = a + L levels: the
      nodes over the nodes of height a are the nodes over the leaves. */
  lemma {:induction false} NodeAdd(h: Hasher, hs: seq<Bytes>, a: nat, L: nat, c: nat, j: nat)
    requires c == a + L && j < CeilPow2(|hs|, c)
    ensures j < CeilPow2(|LevelSeq(h, hs, a)|, L)
    ensures Node(h, LevelSeq(h, hs, a), L, j) == Node(h, hs, c, j)
    decreases L
  {
    var ls := LevelSeq(h, hs, a);
    CeilCompose(|hs|, a, L, c);
    if L == 0 {
      LevelSeqAt(h, hs, a, j);
    } else {
      var l, c1 := L - 1, c - 1;
      assert l + 1 == L && c1 + 1 == c;
      CeilCompose(|hs|, a, l, c1);
      CeilSucc(|hs|, c1);
      var below := CeilPow2(|hs|, c1);
      assert CeilPow2(|ls|, l) == below && 2 * j < below;
      NodeAdd(h, hs, a, l, c1, 2 * j);
      if 2 * j + 1 < below {
        NodeAdd(h, hs, a, l, c1, 2 * j + 1);
      }
      NodesAgreeUp(h, ls, hs, l, c1, j, j, L, c);
    }
  }

  /** The root over the nodes of any height is the root over the leaves. */
  lemma {:induction false} MerkleHashOfLevel(h: Hasher, hs: seq<Bytes>, a: nat)
    requires |hs| >= 1
    ensures |LevelSeq(h, hs, a)| >= 1
    ensures MerkleHash(h, LevelSeq(h, hs, a)) == MerkleHash(h, hs)
  {
    var ls := LevelSeq(h, hs, a);
    CeilPositive(|hs|, a);
    var r := RootHeight(|ls|);
    RootHeightFits(|ls|);
    CeilOne(|ls|, r);
    var c := a + r;
    CeilCompose(|hs|, a, r, c);
    NodeAdd(h, hs, a, r, c, 0);
    CeilAtMostOne(|hs|, c);
    NodeTop(h, hs, c);
  }

  /** Pairing up a level keeps its root. */
  lemma {:induction false} MerkleHashPairUp(h: Hasher, lv: seq<Bytes>)
    requires |lv| >= 1
    ensures |PairUp(h, lv)| >= 1 && MerkleHash(h, PairUp(h, lv)) == MerkleHash(h, lv)
  {
    LevelSeqZero(h, lv);
    LevelSeqSucc(h, lv, 0);
    MerkleHashOfLevel(h, lv, 1);
  }

  // ---------------------------------------------------------------------
  // The inputs handed to the hash while computing the tree. Collisions in
  // security statements are looked for among these finitely many strings.

  /** The leaf inputs 0x00 || d for the leaves d of `data`. */
  ghost function LeafInputs(data: seq<Bytes>): set<Bytes>
  {
    set i | 0 <= i < |data| :: LeafHashPrefix + data[i]
  }

  /** The node inputs 0x01 || s[2i] || s[2i+1] hashed when pairing up s. */
  ghost function PairInputs(s: seq<Bytes>): set<Bytes>
  {
    set i | 0 <= i < |s| / 2 :: NodeHashPrefix + s[2 * i] + s[2 * i + 1]
  }

  /** The node inputs hashed while pairing the level lv up to its root. */
  ghost function LevelInputs(h: Hasher, lv: seq<Bytes>): set<Bytes>
    decreases |lv|
  {
    if |lv| <= 1 then {} else PairInputs(lv) + LevelInputs(h, PairUp(h, lv))
  }

  /** Every pair of a slice starting on an even index is a pair of lv. */
  lemma {:induction false} PairInputsSlice(lv: seq<Bytes>, b: nat, e: nat)
    requires b % 2 == 0 && b <= e <= |lv|
    ensures PairInputs(lv[b..e]) <= PairInputs(lv)
  {
    var t := lv[b..e];
    forall x | x in PairInputs(t)
      ensures x in PairInputs(lv)
    {
      var i :| 0 <= i < |t| / 2 && x == NodeHashPrefix + t[2 * i] + t[2 * i + 1];
      var j := b / 2 + i;
      assert t[2 * i] == lv[2 * j] && t[2 * i + 1] == lv[2 * j + 1];
      assert 0 <= j < |lv| / 2;
    }
  }
}
