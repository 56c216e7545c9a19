# A verified model of NebulousLabs/merkletree

This project models the core of the Go package `merkletree`:

- **The streaming Merkle tree (`Tree`).** Leaves are pushed one at a time onto a stack of perfect subtrees. `Root` collapses the stack. `Prove` returns a proof for a chosen leaf or range of leaves `[proofBegin, proofEnd)`. The proof is collected during the pushes in a *ladder*: the hashes of proof siblings, filed by height.
- **The verifier.** `VerifyProof` and `VerifyProofOfSlice` climb from the proven leaves to the root, level by level.
- **The cached tree (`CachedTree`).** Its elements are the roots of blocks of `2^cachedNodeHeight` leaves. A leaf range is translated into a range of blocks, and the caller's proof inside the block is spliced onto the tree's proof.
- **The reader helpers.** `ReadAll` pushes segments of an `io.Reader` into a tree. `ReaderRoot` computes the root in logarithmic space with an array of slots indexed by height, one per bit of the leaf count. `BuildReaderProof` combines a tree, `ReadAll` and `Prove`.

Hashing follows section 2.1 of RFC 6962:
- a leaf is `Hash(0x00 || data)`;
- an interior node is `Hash(0x01 || left || right)`;
- a list of `n > 1` leaves is split after the largest power of two below `n`.

The hash function is a parameter `h: Bytes -> Bytes`. Security properties are stated in reduction form: "the claim holds, or two of the inputs that were actually hashed collide". The collision is always located among a finite set of inputs, never just "somewhere in `h`":
- a named pair, `Collides(h, x, y)`, for the single-hash lemmas;
- or `CollisionAmong(h, S)`, where `S` is the set of leaf inputs `0x00 ‖ d` and node inputs `0x01 ‖ l ‖ r` hashed while building the tree over the data and while checking the proof (`HashedInputs`).

With fixed-length digests some collision of `h` always exists (by counting), so a global "some collision exists" would prove nothing. A collision inside a given finite set does not follow from fixed length.

Modules, one file each:

| file | module | contents |
|---|---|---|
| `arith.dfy` | `Arith` | `Pow2`, shifts (`Shr`), ceilings (`CeilPow2`), alignment, and the uint64 modulus `U64` |
| `hashing.dfy` | `Hashing` | byte strings, the leaf and node hashes, collision resistance |
| `merkle_spec.dfy` | `MerkleSpec` | the reference tree: `Node`, `MerkleHash` and `RootOf`, proved equal to the RFC 6962 recursion |
| `proof_spec.dfy` | `ProofSpec` | the reference proof `ProofOf`: the range's data, then for each height the siblings of the range |
| `verifier.dfy` | `Verifier` | `VerifyProofOfSlice` and `VerifyProof`, against the functional climb `Climb`/`Verifies`; completeness and soundness |
| `peaks.dfy` | `StackSpec` | the subtree stack after `n` pushes (`Peaks`: one subtree per set bit of `n`), joining and collapsing |
| `ladder.dfy` | `Ladder` | what the ladder holds after `n` pushes and after the collapse in `Prove` |
| `tree.dfy` | `MerkleTree` | class `Tree` with `Push`, `Root`, `Prove`, `SetSlice` and `SetIndex`; `New`, `addToLader`, `foldLader` |
| `cachedtree.dfy` | `CachedTrees` | class `CachedTree`, block arithmetic, proof splicing |
| `readers.dfy` | `Readers` | an `io.Reader` as data, `ReadAll`, `ReaderRoot` and `BuildReaderProof` |

The tree's linked stack of `subTree` nodes (head, the lowest, first) is a sequence field of `Tree`. The methods that change a `Tree` update its fields in place. Each method's `ensures` ties the new state to the reference functions: the stack is `Peaks(...)`, the ladder is what `LadderIs` says, and `Root`/`Prove` return `RootOf(...)` and `TreeProof(...)`. Separate lemmas prove that those reference values are the RFC 6962 root and a proof the verifier accepts.

## Model

| member | source | states |
|---|---|---|
| Hashing.LeafNodeSeparated | tree.go:67-79 | a leaf hash `Hash(0x00 ‖ data)` equal to a node hash `Hash(0x01 ‖ left ‖ right)` is a collision between exactly those two inputs (the prefixes make them differ) |
| Hashing.LeafSumBinding | tree.go:67-72 | equal leaf hashes of different data are a collision between the two leaf inputs `0x00 ‖ d1` and `0x00 ‖ d2` |
| Hashing.NodeSumBinding | tree.go:74-79 | equal node hashes with equal-length left children mean equal children, or are a collision between the two node inputs `0x01 ‖ a ‖ b` and `0x01 ‖ c ‖ d` |
| Hashing.NodeSumBindingRight | tree.go:74-79 | the same binding when the right children have equal length |
| StackSpec.JoinSubTrees | tree.go:81-102 | two adjacent perfect subtrees of 2^k leaves each join into one perfect subtree of 2^(k+1) leaves |
| StackSpec.JoinPlaced | tree.go:81-102 | joining a stack peak with the subtree over all later leaves (of no greater height) gives one node over the leaves from the peak's start to the end, holding their node hash |
| MerkleSpec.MerkleHashIsRfc6962 | tree.go:14-21 | the level-by-level root over any non-empty list of leaf hashes equals the RFC 6962 recursion that splits after the largest power of two below n |
| MerkleSpec.SplitAt | tree.go:275-282 | a list of more than 2^k and at most 2^(k+1) leaves hashes as its complete left 2^k-leaf subtree joined with the rest, taller subtree first |
| MerkleSpec.NodeIsRoot | tree.go:42-50 | the node of height L at an aligned position is the Merkle root of exactly the leaves under it (at most 2^L, cut at n) |
| MerkleSpec.LeafHashesAppend | tree.go:222-226 | pushing data d adds exactly one leaf hash, Hash(0x00 ‖ d), at the end |
| MerkleSpec.MerkleHashOfLevel | cachedtree.go:8-11 | the root over the nodes of any height equals the root over the leaves, which is what lets a tree be built from cached block roots |
| MerkleSpec.MerkleHashPairUp | verify.go:78-91 | hashing adjacent pairs and carrying an odd last node up leaves the root unchanged |
| StackSpec.PeaksShape | tree.go:14-21 | the stack after n pushes is empty iff n = 0; otherwise its subtrees are well placed, adjacent, strictly rising in height from the head (so the sanity check at tree.go:255-265 never fires), and cover [0, n) from the head's end down to the tail's begin |
| StackSpec.PlacedIsRoot | tree.go:42-50 | a well-placed subtree's sum is the Merkle root of the leaves [begin, end) it covers |
| StackSpec.JoinStep | tree.go:228-250 | while the two top subtrees have equal height they are the peak of height k and the carried subtree, and joining them gives the carry of height k + 1 |
| StackSpec.JoinStop | tree.go:231 | when the heights differ the carry has reached a zero bit of n and the stack is exactly that of n + 1 leaves |
| StackSpec.CarryDone | tree.go:216-250 | after n pushes, the stack of n + 1 leaves is the carried subtree on top of the old subtrees above the first zero bit |
| StackSpec.CarryJoin | tree.go:249 | joining a peak with the carry of height k gives the carry of height k + 1 |
| StackSpec.PeakAgree | tree.go:200-204 | a complete subtree of the stack stays the same, hash included, while later pushes do not reach its height |
| StackSpec.CollapseStep | tree.go:275-282 | joining the next subtree (the taller, on the left) onto the collapsed head keeps a subtree spanning from the next begin to the end of the leaves |
| StackSpec.CollapseEnd | tree.go:282 | a collapsed subtree spanning from leaf 0 has the Merkle root of all the leaves as its sum |
| Ladder.Contains | tree.go:52-55 | for a non-empty subtree, `contains` holds exactly when the subtree's leaves overlap the range (a range with end ≤ begin counts as the single leaf begin) |
| Ladder.EffEnd | tree.go:52-55 | the effective end of the range is past begin and at least the given end, and equals it for a non-empty range |
| Ladder.ContainsNode | tree.go:52-55 | a subtree is node j of its height, and contains the range iff j lies between the range's first and last node of that height |
| Ladder.LadderStep | tree.go:236-245 | adding the join's entry (the partner not meeting the range, if exactly one meets it) keeps the ladder correct for every height up to k + 1 |
| Ladder.LadderKeep | tree.go:231-250 | heights at or above the bit where the carry stops record nothing new during a push |
| Ladder.LadderCollapse | tree.go:175-187 | the collapse join of a peak with the collapsed part records exactly the sibling of the range that the push-time joins could not see |
| Ladder.SiblingsSplit | tree.go:228-245 | the push-time entries and the collapse entries of a height together are exactly the range's left and right siblings at that height |
| Ladder.CollapseLadderEnd | tree.go:173-187 | after the collapse every height of the ladder holds its push-time entries followed by its collapse entries |
| Ladder.LadderTail | tree.go:129-144 | no height of the final ladder holds more than two hashes (foldLader never panics), and the flattened ladder is the proof's tail, or empty when the range starts past the leaves |
| ProofSpec.ProofParts | tree.go:25-29 | a proof starts with the data of the range's leaves and continues with the siblings from the leaves to the root |
| ProofSpec.ProofTail | tree.go:188 | the proof is the range's data followed by the per-height sibling tail, lowest height first |
| ProofSpec.TailAtIsTailFrom | tree.go:129-132 | the tail collected per height over the leaves equals the tail taken level by level over the nodes of each height |
| Verifier.VerifyProofOfSlice | verify.go:21-100 | the verifier's answer is `Verifies`: no nil root, a non-empty range within the leaves, enough elements, and the climb from the hashed leaves reaches the root with no element left over |
| Verifier.ClimbLevel | verify.go:50-91 | one level: fails exactly when a needed neighbour is missing; otherwise the new range is the widened range halved and paired up |
| Verifier.PairSums | verify.go:78-87 | the paired level is `PairUp`: node hashes of adjacent pairs, the odd last hash carried up |
| Verifier.AddLeft | verify.go:50-63 | taking a left neighbour leaves a range starting on an even index with the same end |
| Verifier.AddRight | verify.go:64-77 | taking a right neighbour keeps the start, and from an even start ends on an even index or at the level's end |
| Verifier.Widen | verify.go:50-77 | after both neighbours the range starts even and ends even or at the level's end, within the level |
| Verifier.Halve | verify.go:78-91 | the paired range fits the next level of (n + 1) / 2 nodes |
| Verifier.VerifyProof | verify.go:12-14 | `VerifyProof` is the slice [i, i + 1); at the largest uint64 index i + 1 wraps to 0 and the proof is rejected |
| Verifier.VerifiesRejects | verify.go:22-41 | nonsense input is rejected: a nil root, an empty or reversed range, a range past the leaves, or too few proof elements for the leaves |
| Verifier.VerifyComplete | verify.go:16-20 | completeness: the proof of any non-empty range of a non-empty tree verifies against its root |
| Verifier.ClimbComplete | verify.go:43-92 | climbing a level's range with the true siblings reaches that level's Merkle root |
| Verifier.VerifySound | verify.go:16-20 | soundness: with fixed-length digests, a proof that verifies against the root of some data has that data's range as its first elements, or two of the inputs hashed in building that tree and in checking the proof collide |
| Verifier.VerifyIndexSound | verify.go:8-14 | soundness of `VerifyProof`: an accepted proof of leaf i starts with data[i], or two of the inputs hashed collide |
| Verifier.ClimbSound | verify.go:49-92 | a climb that reaches the true root started from the true node hashes of its range, or two of the node inputs hashed above that level, by the tree or by the climb, collide |
| Verifier.SoundStep | verify.go:50-87 | one level of the climb: if the paired range is the true range one level up, the range held the true nodes, or two node inputs of this level collide |
| Verifier.ProofPinsIndex | verify.go:8-14 | a proof for leaf i does not verify as a proof for leaf j holding other data, unless two of the inputs hashed collide |
| Verifier.ClimbRejectsLeftover | verify.go:94-96 | a proof with extra elements after a successful climb is rejected |
| Verifier.PairUpInjective | verify.go:78-87 | two levels of fixed-size hashes that pair up to the same level are equal, or some pair i of the two levels is a collision between their node inputs |
| MerkleTree.BasesPush | tree.go:206-210 | a push adds its data to the bases exactly when its index lies in [proofBegin, proofEnd); once proofEnd leaves are in, the bases are the range's data |
| MerkleTree.AddToLader | tree.go:109-116 | the ladder grows to cover the height, and only that height gains the hash, at its end |
| MerkleTree.FoldLader | tree.go:129-144 | the folded proof is every height's hashes, lowest height first, in order (heights hold at most two) |
| MerkleTree.New | tree.go:146-154 | a new tree is empty, not cached, and proves leaf 0 |
| MerkleTree.Tree.constructor | tree.go:14-40 | an empty tree with the given hash, cache flag and range, whose invariant holds |
| MerkleTree.Tree.SetSlice | tree.go:291-300 | the range is set exactly when nothing has been pushed; otherwise nothing changes |
| MerkleTree.Tree.SetIndex | tree.go:285-289 | the range becomes [i, i + 1 mod 2^64) exactly when nothing has been pushed |
| MerkleTree.Tree.Push | tree.go:200-266 | the data gains d, the leaf hashes gain Hash(0x00 ‖ d) (or d itself in a cached tree), the stack is that of the new leaves, the ladder invariant is kept, and the range is unchanged |
| MerkleTree.Tree.Root | tree.go:268-283 | the root is nil for an empty tree, otherwise the Merkle root of all leaves |
| MerkleTree.Tree.Prove | tree.go:156-198 | the root, then `TreeProof`: nil while the tree is empty or the range incomplete, otherwise the range's data and the per-height sibling tail; also the range start and the leaf count |
| MerkleTree.JoinNew | tree.go:216-250 | the join loop of Push turns the stack of n leaves into that of n + 1 and keeps the ladder invariant |
| MerkleTree.CollapseLader | tree.go:169-187 | the collapse loop of Prove leaves every height of the ladder holding its push-time and collapse entries |
| MerkleTree.LeavesAppend | tree.go:222-226 | the leaf-level hashes of a cached or plain tree gain one entry per push |
| MerkleTree.PushDone | tree.go:231-251 | once the carry stops at a zero bit, the ladder is correct for the new leaf count |
| MerkleTree.TreeProofComplete | tree.go:156-198 | once a range within the leaves is complete, a plain tree's proof is the reference proof and verifies against its root |
| CachedTrees.CachedTree.constructor | cachedtree.go:19-31 | a new cached tree is empty, has the given block height, and holds the range [0, 0) |
| CachedTrees.CachedTree.Push | cachedtree.go:12-17 | pushing a block root appends it unhashed to the embedded tree and keeps the range |
| CachedTrees.CachedTree.SetSlice | cachedtree.go:100-120 | on an empty tree the leaf range and its block range [begin >> ch, ((end - 1) >> ch) + 1) are recorded; success iff the range lies within one block or starts and ends on block boundaries. On a non-empty tree nothing changes; a refused range on an empty tree still overwrites the four range fields, but not the embedded tree's range |
| CachedTrees.CachedTree.SetIndex | cachedtree.go:92-98 | a single leaf is always accepted on an empty tree: the range is [i, i + 1 mod 2^64), its block [i >> ch, ceil((i + 1) / 2^ch)) is the cached range and the tree's range; on a non-empty tree it is refused and no range field changes |
| CachedTrees.CachedTree.Prove | cachedtree.go:33-66 | the caller's proof is followed by the tree's proof without its first cut = cachedEnd - cachedBegin entries; nil when the tree's proof is shorter; leaf count 2^ch per block, mod 2^64 |
| CachedTrees.CachedTree.ProveCached | cachedtree.go:68-90 | the tree's proof over the block roots, or nil when it is empty or the leaf range is not a whole number of blocks long |
| CachedTrees.CachedRoot | cachedtree.go:8-11 | the root over the block roots equals the root over all the leaves, and whole blocks hold 2^ch leaves each |
| CachedTrees.BlockIsRoot | cachedtree.go:8-11 | every cached element is the Merkle root of its 2^ch leaves |
| CachedTrees.CachedEndIsCeil | cachedtree.go:113 | `(end - 1) >> ch + 1` is the number of blocks needed to reach leaf end, for end ≥ 1 |
| CachedTrees.CoveredMeans | cachedtree.go:112-118 | SetSlice's condition holds iff the range lies within one block or both its ends are block boundaries |
| CachedTrees.IndexCovered | cachedtree.go:96-98 | SetIndex's single leaf always satisfies SetSlice's condition |
| CachedTrees.BlockProof | cachedtree.go:33-40 | a proof inside a block, as the caller supplies it, is the range's data followed by the siblings below the block height in the whole tree |
| CachedTrees.CachedProveComplete | cachedtree.go:33-66 | given the proof inside the block(s), Prove's splice is exactly the reference proof of the leaf range, and it verifies against the tree's root with 2^ch leaves per block |
| CachedTrees.CachedElementsProof | cachedtree.go:68-90 | for a range of whole blocks, the tree's proof is the blocks' roots followed by the siblings above the block height, and the full proof is the data followed by those siblings |
| CachedTrees.SpliceAppend | cachedtree.go:59-64 | dropping exactly the cut entries the tree's proof starts with keeps the rest of it |
| CachedTrees.CutIsDiff | cachedtree.go:48 | the uint64 difference cachedEnd - cachedBegin is the plain difference when it does not wrap |
| Readers.ReadFull | readers.go:16 | io.ReadFull's outcomes: a full segment iff enough bytes remain; a failure only from a failing reader that runs short; EOF only at the end with nothing read; a short read only for the last bytes |
| Readers.SegmentsFromJoin | readers.go:9-12 | the segments read, concatenated, are the reader's bytes (a prefix when the reader fails, with less than one segment left unread) |
| Readers.SegmentsFromSizes | readers.go:9-12 | every segment is non-empty and at most segmentSize long; all but the last are exactly segmentSize |
| Readers.SegmentsRoundTrip | readers.go:32-35 | for a reader that ends cleanly the leaves concatenate back to its bytes, all full size except possibly a shorter last one (no padding) |
| Readers.ReadSegment | readers.go:14-26 | one read: EOF and failure end the sequence of segments; otherwise the segment read is the next one |
| Readers.ReadAll | readers.go:9-30 | the tree receives every segment in order; the error is the reader's failure, and success is nil (not EOF) |
| Readers.SlotsStart | readers.go:63-66 | 64 empty slots describe the tree of no leaves |
| Readers.CarryOn | readers.go:99-106 | joining an occupied slot with the carried hash gives the carry one height up |
| Readers.CarryStop | readers.go:88-97 | putting the carry in the first empty slot (or a new one at the end) and clearing the slots below describes the tree with one more leaf |
| Readers.AddLeaf | readers.go:86-107 | the carry loop turns the slots of n leaves into the slots of n + 1 leaves |
| Readers.ReadSlots | readers.go:66-108 | the read loop stops with an error iff the reader fails; otherwise the slots hold the subtree roots of all the segments' leaf hashes |
| Readers.NonEmptyNodes | readers.go:110-116 | the non-empty slots, lowest first, are the sums of the tree's subtree stack |
| Readers.CombineNodes | readers.go:117-129 | folding the remaining hashes with the taller one on the left gives the Merkle root, or nil for no leaves |
| Readers.ReaderRoot | readers.go:36-130 | a zero segment size and a failing reader are errors; otherwise the root is the Merkle root of the reader's segments |
| Readers.BuildReaderProof | readers.go:132-156 | the reader's failure is returned as is; otherwise the root and leaf count of all segments, the tree's proof for the index, and an error exactly when that proof is empty |
| Readers.ReaderProofReached | readers.go:150-154 | the proof is empty exactly when the index is past the last segment; otherwise it is the reference proof and it verifies against the root |

## Left out

- I/O is data. An `io.Reader` is modelled as its bytes followed by either EOF or an error at the end (`Reader.failsAtEnd`).
  - Errors in the middle of the stream are not modelled.
  - Short reads inside `io.ReadFull` are not modelled.
- The hash is a pure function. `hash.Hash`'s `Reset`/`Write`/`Sum` protocol becomes one pure function `h`, and so do the scratch buffers reused through `Sum(buf[:0])`.
  - `ReaderRoot`'s reuse of `nodes`, `buf` and `sum` memory (aliasing) is not modelled; its slots are a sequence of byte strings.
- ReaderRoot: requires that no digest is empty (`NonEmptyDigests`). The source uses an empty slot to mean "no subtree at this height", which is only sound for such hashes.
- Tree.Push: the source skips a ladder entry whose partner hash is a nil slice (`proof != nil`). This happens in two cases, and the model records the entry in both:
  - a cached tree pushed a nil element;
  - any tree whose hash returns empty digests (`Size()` 0), where every leaf and node sum is nil.
  The model treats nil and empty alike. Proofs of such trees differ from the source's.
- nil and empty are not distinguished elsewhere either.
  - A nil root is `None`.
  - A nil proof set is `None` in `Tree.Prove`/`CachedTree.Prove` and `[]` in `BuildReaderProof`.
- The tree's 64-bit counters are unbounded `nat`s. `currentIndex` and the leaf counts of `Tree.Prove` and the verifier are not taken modulo 2^64, since 2^64 pushes cannot happen. The wrap-arounds that ordinary inputs reach are modelled with `% U64`:
  - `i + 1` in `SetIndex` and `VerifyProof`;
  - `cachedEnd - cachedBegin` in `CachedTree.Prove`;
  - `trueProofEnd - trueProofBegin` in `ProveCached`;
  - the leaf count `(1 << ch) * currentIndex` of the cached tree.
- VerifyProofOfSlice: the uint64 wrap of `(proofEnd + 1) / 2` and `(numLeaves + 1) / 2` at 2^64 - 1 is not modelled.
- CachedTree.Prove: the conversion `int(cut)` for cuts of 2^63 or more, which the source compares as negative numbers, is not modelled.
- CachedTree.SetSlice, CachedTree.SetIndex, CachedTree.ProveCached: require `cachedNodeHeight < 64`. For larger heights `1 << h` is 0 in Go, and the division and remainder by it panic.
- FoldLader: requires at most two hashes per height, where the source panics. `LadderTail` proves that the ladders `Prove` folds always satisfy this.
- cloneLader is not a separate operation. Ladders are immutable sequences, so `Prove`'s clone is just a copy of the value.
- The `DEBUG` sanity checks in `joinSubTrees`, `Push` and `Prove` are not modelled as code. What the Push check asserts (heights rise from head to tail) is proved in `PeaksShape`.
- BuildReaderProof: the `panic` after `SetIndex` is not modelled. `SetIndex` on a new tree always succeeds, and the model proves it.
- ReadAll, BuildReaderProof: require `segmentSize > 0`. With a segment size of 0 the source loops forever (`io.ReadFull` of an empty buffer returns 0 and no error).
- A negative `segmentSize` makes `make` panic in Go. It is excluded by the type `nat`.
- Some loops are helper methods called by the method that owns them in the source:
  - Push's join loop is `JoinNew`;
  - Prove's collapse loop is `CollapseLader`;
  - ReaderRoot's read loop is `ReadSlots`, with the read step in `ReadSegment`;
  - ReaderRoot's carry loop is `AddLeaf`;
  - its filter is `NonEmptyNodes`;
  - its final fold is `CombineNodes`.
- Not part of this model:
  - `VerifyProofOfCachedElements`, which `ProveCached`'s comment refers to;
  - `fuzz.go`;
  - `merkletree.go`, which holds only the package documentation;
  - the file that defines the `DEBUG` constant used at tree.go:83, 192 and 255.
