// Building trees from a stream of bytes cut into segments of a fixed size:
// ReadAll pushes the segments into a Tree, ReaderRoot computes the root in
// O(log n) space without a Tree, and BuildReaderProof combines New,
// SetIndex, ReadAll and Prove.
//
// A reader is modelled by the bytes it delivers followed by the way it
// ends: a clean end of stream, or an error (any error other than io.EOF).

module Readers {
  import opened Arith
  import opened Hashing
  import opened MerkleSpec
  import opened ProofSpec
  import opened Verifier
  import opened StackSpec
  import opened MerkleTree

  /** The bytes a reader delivers, then io.EOF or (failsAtEnd) an error. */
  datatype Reader = Reader(contents: Bytes, failsAtEnd: bool)

  /** The error io.ReadFull reports: none (the buffer was filled), io.EOF
      (nothing was read), io.ErrUnexpectedEOF (a part was read), or the
      reader's own error. */
  datatype ReadStatus = Full | EOF | UnexpectedEOF | Failed

  datatype ReadResult = ReadResult(n: nat, status: ReadStatus)

  /** The errors the functions of this file return. */
  datatype ReadError = ZeroSegmentSize | ReadFailed | IndexNotReached

  /** io.ReadFull of a buffer of size bytes, with pos bytes of the reader
      consumed. The buffer is filled whenever enough bytes remain; otherwise
      the reader's error ends the read, reported as is, or the end of
      stream, reported as io.EOF when no byte was read and as
      io.ErrUnexpectedEOF when some were. */
  function ReadFull(r: Reader, pos: nat, size: nat): (res: ReadResult)
    requires pos <= |r.contents|
    ensures pos + res.n <= |r.contents| && res.n <= size
    ensures res.status == Full <==> size <= |r.contents| - pos
    ensures res.status == Full ==> res.n == size
    ensures res.status == Failed <==> r.failsAtEnd && |r.contents| - pos < size
    ensures res.status == EOF ==> !r.failsAtEnd && res.n == 0 && pos == |r.contents|
    ensures res.status == UnexpectedEOF ==> !r.failsAtEnd && 0 < res.n && pos + res.n == |r.contents|
  {
    var avail := |r.contents| - pos;
    if size <= avail then ReadResult(size, Full)
    else if r.failsAtEnd then ReadResult(avail, Failed)
    else if avail == 0 then ReadResult(0, EOF)
    else ReadResult(avail, UnexpectedEOF)
  }

  /** The segments pushed by ReadAll from position pos on: each full buffer,
      then the partial last one, until the end of stream or an error. */
  function SegmentsFrom(r: Reader, pos: nat, size: nat): seq<Bytes>
    requires 0 < size && pos <= |r.contents|
    decreases |r.contents| - pos
  {
    var res := ReadFull(r, pos, size);
    if res.status == EOF || res.status == Failed then []
    else [r.contents[pos..pos + res.n]] + SegmentsFrom(r, pos + res.n, size)
  }

  function Segments(r: Reader, size: nat): seq<Bytes>
    requires 0 < size
  {
    SegmentsFrom(r, 0, size)
  }

  /** The segments joined back together. */
  function Concat(segs: seq<Bytes>): Bytes
  {
    if |segs| == 0 then [] else segs[0] + Concat(segs[1..])
  }

  /** Joining the segments gives back the bytes read: all of them when the
      stream ends cleanly, and all but fewer than size of them when the
      reader fails. */
  lemma {:induction false} SegmentsFromJoin(r: Reader, pos: nat, size: nat)
    requires 0 < size && pos <= |r.contents|
    ensures pos + |Concat(SegmentsFrom(r, pos, size))| <= |r.contents|
    ensures Concat(SegmentsFrom(r, pos, size)) == r.contents[pos..pos + |Concat(SegmentsFrom(r, pos, size))|]
    ensures !r.failsAtEnd ==> Concat(SegmentsFrom(r, pos, size)) == r.contents[pos..]
    ensures r.failsAtEnd ==> |r.contents| - pos - |Concat(SegmentsFrom(r, pos, size))| < size
    decreases |r.contents| - pos
  {
    var res := ReadFull(r, pos, size);
    var segs := SegmentsFrom(r, pos, size);
    if !(res.status == EOF || res.status == Failed) {
      var next := pos + res.n;
      SegmentsFromJoin(r, next, size);
      var rest := SegmentsFrom(r, next, size);
      assert segs[1..] == rest;
      assert Concat(segs) == r.contents[pos..next] + Concat(rest);
    }
  }

  /** Every segment holds between one and size bytes, and only the last one
      may be short; when the reader fails, none is short. */
  lemma {:induction false} SegmentsFromSizes(r: Reader, pos: nat, size: nat)
    requires 0 < size && pos <= |r.contents|
    ensures forall i :: 0 <= i < |SegmentsFrom(r, pos, size)| ==> 0 < |SegmentsFrom(r, pos, size)[i]| <= size
    ensures forall i :: 0 <= i < |SegmentsFrom(r, pos, size)| - 1 ==> |SegmentsFrom(r, pos, size)[i]| == size
    ensures r.failsAtEnd ==> forall i :: 0 <= i < |SegmentsFrom(r, pos, size)| ==> |SegmentsFrom(r, pos, size)[i]| == size
    decreases |r.contents| - pos
  {
    var res := ReadFull(r, pos, size);
    var segs := SegmentsFrom(r, pos, size);
    if !(res.status == EOF || res.status == Failed) {
      var next := pos + res.n;
      SegmentsFromSizes(r, next, size);
      var rest := SegmentsFrom(r, next, size);
      assert segs == [segs[0]] + rest;
      if res.status == UnexpectedEOF {
        assert rest == [];
      }
    }
  }

  /** ReadAll's segmentation of a cleanly ending stream: joined back, the
      segments are exactly the stream's bytes; all are size bytes long
      except possibly the last, which is not padded. */
  lemma SegmentsRoundTrip(r: Reader, size: nat)
    requires 0 < size && !r.failsAtEnd
    ensures Concat(Segments(r, size)) == r.contents
    ensures forall i :: 0 <= i < |Segments(r, size)| ==> 0 < |Segments(r, size)[i]| <= size
    ensures forall i :: 0 <= i < |Segments(r, size)| - 1 ==> |Segments(r, size)[i]| == size
  {
    SegmentsFromJoin(r, 0, size);
    SegmentsFromSizes(r, 0, size);
  }

  /** One read of ReadAll that is not the last: the segment read is the
      next one. */
  lemma {:induction false} SegmentsStep(r: Reader, pos: nat, size: nat, done: seq<Bytes>)
    requires 0 < size && pos <= |r.contents|
    requires ReadFull(r, pos, size).status == Full || ReadFull(r, pos, size).status == UnexpectedEOF
    ensures done + SegmentsFrom(r, pos, size) ==
      (done + [r.contents[pos..pos + ReadFull(r, pos, size).n]]) + SegmentsFrom(r, pos + ReadFull(r, pos, size).n, size)
  {
  }

  /** After reading up to pos, the segments done have been read and the
      rest of the segments come from pos on. */
  ghost predicate ReadSoFar(r: Reader, size: nat, pos: nat, done: seq<Bytes>)
    requires 0 < size
  {
    pos <= |r.contents| && done + SegmentsFrom(r, pos, size) == Segments(r, size)
  }

  /** One read into a fresh buffer of size bytes, cut to the n bytes read:
      the next segment, unless the stream has ended or the reader failed, in
      which case every segment has been read. */
  method ReadSegment(r: Reader, pos: nat, size: nat, ghost done: seq<Bytes>) returns (segment: Bytes, next: nat, status: ReadStatus)
    requires 0 < size && ReadSoFar(r, size, pos, done)
    ensures pos <= next && |segment| == next - pos
    ensures status == EOF || status == Failed ==> done == Segments(r, size) && (status == Failed <==> r.failsAtEnd)
    ensures status == EOF ==> next == pos
    ensures !(status == EOF || status == Failed) ==> pos < next && ReadSoFar(r, size, next, done + [segment])
  {
    var res := ReadFull(r, pos, size);
    status := res.status;
    next := pos + res.n;
    segment := r.contents[pos..next];
    if !(status == EOF || status == Failed) {
      SegmentsStep(r, pos, size, done);
    }
  }

  /** ReadAll: pushes every segment read from r into t, and reports the
      reader's error if there is one, after pushing the full segments
      before it. The range to prove is left as it is. */
  method ReadAll(t: Tree, r: Reader, segmentSize: nat) returns (err: Option<ReadError>)
    requires t.Valid() && 0 < segmentSize
    modifies t
    ensures t.Valid() && t.data == old(t.data) + Segments(r, segmentSize)
    ensures err == (if r.failsAtEnd then Some(ReadFailed) else None)
    ensures t.proofBegin == old(t.proofBegin) && t.proofEnd == old(t.proofEnd)
  {
    var pos := 0;
    ghost var pushed := [];
    while true
      invariant t.Valid() && t.data == old(t.data) + pushed && ReadSoFar(r, segmentSize, pos, pushed)
      invariant t.proofBegin == old(t.proofBegin) && t.proofEnd == old(t.proofEnd)
      decreases |r.contents| - pos
    {
      var segment, next, status := ReadSegment(r, pos, segmentSize, pushed);
      if status == EOF {
        break;
      } else if status == Failed {
        return Some(ReadFailed);
      }
      t.Push(segment);
      pushed := pushed + [segment];
      pos := next;
    }
    return None;
  }

  // ReaderRoot keeps one slot per height: slot j holds the subtree of
  // height j of the stack (see StackSpec) when bit j of the number of leaves
  // is set, and is empty otherwise. Pushing a leaf is adding one in binary.

  ghost predicate AllNonEmpty(ls: seq<Bytes>)
  {
    forall i :: 0 <= i < |ls| ==> |ls[i]| > 0
  }

  /** Slot j after the leaves ls. */
  ghost predicate SlotHolds(h: Hasher, ls: seq<Bytes>, slot: Bytes, j: nat)
  {
    (|slot| > 0 <==> Shr(|ls|, j) % 2 == 1) &&
    (Shr(|ls|, j) % 2 == 1 ==> slot == Peak(h, ls, j).sum)
  }

  /** The slots after the leaves ls: enough of them for every bit of |ls|. */
  ghost predicate SlotsHold(h: Hasher, ls: seq<Bytes>, nodes: seq<Bytes>)
  {
    Shr(|ls|, |nodes|) == 0 &&
    forall j :: 0 <= j < |nodes| ==> SlotHolds(h, ls, nodes[j], j)
  }

  /** With non-empty digests, every leaf hash is non-empty. */
  lemma {:induction false} LeafHashesNonEmpty(h: Hasher, data: seq<Bytes>)
    requires NonEmptyDigests(h)
    ensures AllNonEmpty(LeafHashes(h, data))
  {
    var ls := LeafHashes(h, data);
    forall i | 0 <= i < |ls|
      ensures |ls[i]| > 0
    {
      assert |h(LeafHashPrefix + data[i])| > 0;
    }
  }

  /** Empty slots are the slots of no leaves. */
  lemma {:induction false} SlotsStart(h: Hasher, nodes: seq<Bytes>)
    requires forall j :: 0 <= j < |nodes| ==> |nodes[j]| == 0
    ensures SlotsHold(h, [], nodes)
  {
    forall j | 0 <= j <= |nodes|
      ensures Shr(0, j) == 0
    {
      ShrAntitone(0, 0, j);
    }
  }

  /** The slots with the ones below i cleared. */
  function ClearBelow(nodes: seq<Bytes>, i: nat): (r: seq<Bytes>)
    ensures |r| == |nodes|
  {
    seq(|nodes|, j requires 0 <= j < |nodes| => if j < i then [] else nodes[j])
  }

  /** With non-empty digests and leaves, every node hash is non-empty. */
  lemma {:induction false} NodeNonEmpty(h: Hasher, ls: seq<Bytes>, level: nat, j: nat)
    requires NonEmptyDigests(h) && AllNonEmpty(ls) && j < CeilPow2(|ls|, level)
    ensures |Node(h, ls, level, j)| > 0
    decreases level
  {
    if level > 0 && 2 * j + 1 >= CeilPow2(|ls|, level - 1) {
      NodeNonEmpty(h, ls, level - 1, 2 * j);
    }
  }

  /** A carry step: the occupied slot i holds the subtree of height i, and
      hashing it with the carried sum gives the sum carried one further. */
  lemma {:induction false} CarryOn(h: Hasher, ls: seq<Bytes>, x: Bytes, nodes: seq<Bytes>, i: nat, sum: Bytes)
    requires SlotsHold(h, ls, nodes) && i < |nodes| && |nodes[i]| > 0
    requires TrailingOnes(|ls|, i) && sum == Carried(h, ls, x, i).sum
    ensures TrailingOnes(|ls|, i + 1) && NodeSum(h, nodes[i], sum) == Carried(h, ls, x, i + 1).sum
  {
    assert SlotHolds(h, ls, nodes[i], i);
    assert TrailingOnes(|ls|, i + 1);
    CarryJoin(h, ls, x, i);
  }

  /** The carry stops at the first empty slot i, or past the last slot:
      the sum goes there and the slots below are cleared, which gives the
      slots of the leaves ls + [x]. */
  lemma {:induction false} CarryStop(h: Hasher, ls: seq<Bytes>, x: Bytes, nodes: seq<Bytes>, i: nat, sum: Bytes)
    requires NonEmptyDigests(h) && AllNonEmpty(ls + [x])
    requires SlotsHold(h, ls, nodes) && i <= |nodes| && (i < |nodes| ==> |nodes[i]| == 0)
    requires TrailingOnes(|ls|, i) && sum == Carried(h, ls, x, i).sum
    ensures i < |nodes| ==> SlotsHold(h, ls + [x], ClearBelow(nodes, i)[i := sum])
    ensures i == |nodes| ==> SlotsHold(h, ls + [x], ClearBelow(nodes, i) + [sum])
  {
    var n, ls' := |ls|, ls + [x];
    assert Shr(n, i) % 2 == 0 by {
      if i < |nodes| {
        assert SlotHolds(h, ls, nodes[i], i);
      }
    }
    assert Shr(n + 1, i) % 2 == 1 && sum == Peak(h, ls', i).sum && |sum| > 0 by {
      CarryPeak(h, ls, x, i);
      Carry(n, i);
      ShrLeCeil(n + 1, i);
      NodeNonEmpty(h, ls', i, Shr(n + 1, i) - 1);
    }
    assert Aligned(n + 1, i) && Shr(n + 1, i + 1) == Shr(n, i + 1) by {
      Carry(n, i);
      ShrSucc(n, i);
      ShrSucc(n + 1, i);
    }
    var slots := if i < |nodes| then ClearBelow(nodes, i)[i := sum] else ClearBelow(nodes, i) + [sum];
    forall j | 0 <= j < |slots|
      ensures SlotHolds(h, ls', slots[j], j)
    {
      if j < i {
        AlignedLowBits(n + 1, i, j);
      } else if i < j {
        assert SlotHolds(h, ls, nodes[j], j);
        SlotAbove(h, ls, x, nodes[j], i, j);
      }
    }
    assert Shr(n + 1, |slots|) == 0 by {
      ShrAgreeAbove(n + 1, n, i + 1, |slots|);
      ShrSucc(n, i);
      if i < |nodes| {
        ShrAntitone(n, i + 1, |nodes|);
      }
    }
  }

  /** A slot above the one the carry stopped at is unchanged by the new
      leaf. */
  lemma {:induction false} SlotAbove(h: Hasher, ls: seq<Bytes>, x: Bytes, slot: Bytes, i: nat, j: nat)
    requires i < j && Shr(|ls| + 1, i + 1) == Shr(|ls|, i + 1)
    requires SlotHolds(h, ls, slot, j)
    ensures SlotHolds(h, ls + [x], slot, j)
  {
    var n := |ls|;
    ShrAgreeAbove(n + 1, n, i + 1, j);
    if Shr(n, j) % 2 == 1 {
      PeakAgree(h, ls, [x], j);
    }
  }

  /** Adding the leaf hash x to the slots, as the inner loop of ReaderRoot
      does: join with each occupied slot from the bottom, clearing it,
      and put the sum in the first empty slot, appending one if none is. */
  method AddLeaf(h: Hasher, ghost ls: seq<Bytes>, nodes: seq<Bytes>, x: Bytes) returns (slots: seq<Bytes>)
    requires NonEmptyDigests(h) && AllNonEmpty(ls + [x]) && SlotsHold(h, ls, nodes)
    ensures SlotsHold(h, ls + [x], slots)
  {
    slots := nodes;
    var sum := x;
    var i := 0;
    CarriedStart(h, ls, x);
    while true
      invariant i <= |nodes| && slots == ClearBelow(nodes, i)
      invariant TrailingOnes(|ls|, i) && sum == Carried(h, ls, x, i).sum
      decreases |nodes| - i
    {
      if i == |slots| {
        CarryStop(h, ls, x, nodes, i, sum);
        slots := slots + [sum];
        break;
      }
      if |slots[i]| == 0 {
        CarryStop(h, ls, x, nodes, i, sum);
        slots := slots[i := sum];
        break;
      }
      CarryOn(h, ls, x, nodes, i, sum);
      sum := NodeSum(h, slots[i], sum);
      slots := slots[i := []];
      assert slots == ClearBelow(nodes, i + 1);
      i := i + 1;
    }
  }

  /** The sums of a run of subtrees, in order. */
  function Sums(st: seq<SubTree>): (r: seq<Bytes>)
    ensures |r| == |st|
  {
    seq(|st|, i requires 0 <= i < |st| => st[i].sum)
  }

  lemma {:induction false} SumsCons(p: SubTree, rest: seq<SubTree>)
    ensures Sums([p] + rest) == [p.sum] + Sums(rest)
  {
    assert forall i :: 1 <= i < |rest| + 1 ==> ([p] + rest)[i] == rest[i - 1];
  }

  /** The subtrees from height j up contribute the one of height j, when
      bit j is set, then those from height j + 1 up. */
  lemma {:induction false} PeaksFromNext(h: Hasher, ls: seq<Bytes>, j: nat)
    ensures Shr(|ls|, j) % 2 == 1 ==> Sums(PeaksFrom(h, ls, j)) == [Peak(h, ls, j).sum] + Sums(PeaksFrom(h, ls, j + 1))
    ensures Shr(|ls|, j) % 2 == 0 ==> Sums(PeaksFrom(h, ls, j)) == Sums(PeaksFrom(h, ls, j + 1))
  {
    if Shr(|ls|, j) % 2 == 1 {
      PeaksFromFirst(h, ls, j);
      SumsCons(Peak(h, ls, j), PeaksFrom(h, ls, j + 1));
    } else {
      HeightsZeroBit(|ls|, j);
    }
  }

  /** The filter of ReaderRoot: the occupied slots from the bottom up are
      the sums of the stack, head first. */
  method NonEmptyNodes(ghost h: Hasher, ghost ls: seq<Bytes>, nodes: seq<Bytes>) returns (nonEmpty: seq<Bytes>)
    requires SlotsHold(h, ls, nodes)
    ensures nonEmpty == Sums(Peaks(h, ls))
  {
    nonEmpty := [];
    for j := 0 to |nodes|
      invariant nonEmpty + Sums(PeaksFrom(h, ls, j)) == Sums(Peaks(h, ls))
    {
      PeaksFromNext(h, ls, j);
      assert SlotHolds(h, ls, nodes[j], j);
      if |nodes[j]| != 0 {
        nonEmpty := nonEmpty + [nodes[j]];
      }
    }
    HeightsEmpty(|ls|, |nodes|);
  }

  /** The final combine of ReaderRoot: nothing for no leaves, otherwise the
      head's sum hashed with each sum below it in turn, which is the Merkle
      root. */
  method CombineNodes(h: Hasher, ghost ls: seq<Bytes>, nonEmpty: seq<Bytes>) returns (root: Option<Bytes>)
    requires nonEmpty == Sums(Peaks(h, ls))
    ensures root == RootOf(h, ls)
  {
    ghost var P := Peaks(h, ls);
    PeaksEnds(h, ls);
    if |nonEmpty| == 0 {
      return None;
    }
    CollapseStart(h, ls);
    if 1 < |P| {
      PeaksAdjacent(h, ls, 0);
    }
    var sum := nonEmpty[0];
    ghost var current := P[0];
    for i := 1 to |nonEmpty|
      invariant Spans(h, ls, current) && current.begin == P[i - 1].begin && sum == current.sum
      invariant i < |P| ==> current.height <= P[i].height
    {
      CollapseStep(h, ls, i, current);
      sum := NodeSum(h, nonEmpty[i], sum);
      current := JoinSubTrees(h, P[i], current);
    }
    CollapseEnd(h, ls, current);
    root := Some(sum);
  }

  /** The read loop of ReaderRoot: hashes each segment of r as a leaf and
      adds it to the slots, starting from 64 empty ones; stops at the end of
      stream, or reports the reader's error. */
  method ReadSlots(r: Reader, h: Hasher, segmentSize: nat) returns (nodes: seq<Bytes>, failed: bool)
    requires NonEmptyDigests(h) && 0 < segmentSize
    ensures failed <==> r.failsAtEnd
    ensures !failed ==> SlotsHold(h, LeafHashes(h, Segments(r, segmentSize)), nodes)
  {
    nodes := seq(64, _ => []);
    var pos := 0;
    ghost var segs: seq<Bytes> := [];
    ghost var ls: seq<Bytes> := [];
    SlotsStart(h, nodes);
    while true
      invariant ReadSoFar(r, segmentSize, pos, segs)
      invariant ls == LeafHashes(h, segs) && SlotsHold(h, ls, nodes)
      decreases |r.contents| - pos
    {
      var segment, next, status := ReadSegment(r, pos, segmentSize, segs);
      if status == Failed {
        return nodes, true;
      } else if |segment| == 0 {
        break;
      }
      var sum := LeafSum(h, segment);
      LeafHashesAppend(h, segs, segment);
      LeafHashesNonEmpty(h, segs + [segment]);
      nodes := AddLeaf(h, ls, nodes, sum);
      segs, ls := segs + [segment], ls + [sum];
      pos := next;
    }
    failed := false;
  }

  /** ReaderRoot: the Merkle root of the segments of r, computed in one
      slot per height. A segment size of zero and a failing reader are
      errors; an empty stream has no root. */
  method ReaderRoot(r: Reader, h: Hasher, segmentSize: nat) returns (root: Option<Bytes>, err: Option<ReadError>)
    requires NonEmptyDigests(h)
    ensures segmentSize == 0 ==> root == None && err == Some(ZeroSegmentSize)
    ensures 0 < segmentSize && r.failsAtEnd ==> root == None && err == Some(ReadFailed)
    ensures 0 < segmentSize && !r.failsAtEnd ==> err == None && root == RootOf(h, LeafHashes(h, Segments(r, segmentSize)))
  {
    if segmentSize == 0 {
      return None, Some(ZeroSegmentSize);
    }
    var nodes, failed := ReadSlots(r, h, segmentSize);
    if failed {
      return None, Some(ReadFailed);
    }
    ghost var ls := LeafHashes(h, Segments(r, segmentSize));
    var nonEmpty := NonEmptyNodes(h, ls, nodes);
    root := CombineNodes(h, ls, nonEmpty);
    err := None;
  }

  /** A proof as BuildReaderProof returns it: nil and empty alike. */
  function OrEmpty(p: Option<seq<Bytes>>): seq<Bytes>
  {
    if p.None? then [] else p.value
  }

  /** BuildReaderProof: the root, the proof of the segment at index and the
      number of segments of r. A failing reader returns its error and
      nothing else; an index not reached returns the root and the count
      with an empty proof and an error. */
  method BuildReaderProof(r: Reader, h: Hasher, segmentSize: nat, index: nat)
    returns (root: Option<Bytes>, proofSet: seq<Bytes>, numLeaves: nat, err: Option<ReadError>)
    requires 0 < segmentSize && index < U64
    ensures r.failsAtEnd ==> root == None && proofSet == [] && numLeaves == 0 && err == Some(ReadFailed)
    ensures !r.failsAtEnd ==>
      var segs := Segments(r, segmentSize);
      root == RootOf(h, LeafHashes(h, segs)) && numLeaves == |segs| &&
      proofSet == OrEmpty(TreeProof(h, segs, LeafHashes(h, segs), index, (index + 1) % U64)) &&
      (err == None <==> proofSet != []) && (err != None ==> err == Some(IndexNotReached))
  {
    var tree := New(h);
    var ok := tree.SetIndex(index);
    if !ok {
      assert false;
    }
    err := ReadAll(tree, r, segmentSize);
    if err != None {
      return None, [], 0, err;
    }
    ghost var segs := Segments(r, segmentSize);
    assert tree.data == segs && tree.Leaves() == LeafHashes(h, segs);
    assert tree.proofBegin == index && tree.proofEnd == (index + 1) % U64;
    var proof, begin;
    root, proof, begin, numLeaves := tree.Prove();
    proofSet := OrEmpty(proof);
    if |proofSet| == 0 {
      err := Some(IndexNotReached);
    }
  }

  /** What BuildReaderProof's proof is: for an index among the segments,
      the proof of that one segment, which verifies against the returned
      root; for an index past them, nothing, so that the call fails. */
  lemma ReaderProofReached(h: Hasher, segs: seq<Bytes>, index: nat)
    requires index + 1 < U64
    ensures index < |segs| ==>
      OrEmpty(TreeProof(h, segs, LeafHashes(h, segs), index, (index + 1) % U64)) == ProofOf(h, segs, index, index + 1) &&
      ProofOf(h, segs, index, index + 1) != [] &&
      Verifies(h, RootOf(h, LeafHashes(h, segs)), ProofOf(h, segs, index, index + 1), index, index + 1, |segs|)
    ensures |segs| <= index ==> OrEmpty(TreeProof(h, segs, LeafHashes(h, segs), index, (index + 1) % U64)) == []
  {
    assert (index + 1) % U64 == index + 1;
    if index < |segs| {
      TreeProofComplete(h, segs, index, index + 1);
      assert ProofOf(h, segs, index, index + 1)[0] == segs[index];
    }
  }
}
