# Partition enumeration and the vantage-point tree of SupercompressedTextures

This project models, in Dafny, the pieces of the texture compressor that pick
block partitions. The model covers:

- **The ASTC partition-pattern generator** (`hash52`, `SelectPartition`).
  It follows section C.2.21 of the ASTC specification as `Partition.cpp`
  writes it, bit-exactly over `bv32`. That includes the wrap-around of
  `seed += (partitionCount-1) * 1024` when the partition count is 0.
- **The `Partition<N, M>` value.** This is an index plus N*M labels. Its
  `operator==` is a `memcmp` over the whole object. Its `Distance` counts the
  labels that differ.
- **The enumerators `EnumerateASTC` and `EnumerateBPTC`.** Each fills a label
  buffer in place and remaps it to first-seen order through a four-entry
  `map` array. It appends the partition unless an `operator==`-equal one is
  already stored. The BPTC shape table `BPTCC::GetSubsetForIndex` is a
  parameter.
- **The vantage-point tree `VpTree`** of `VPTree.h`. This is a class whose
  fields are the items (permuted in place by the build), the node tree, the
  bounded max-heap and the search radius `tau`. The build swaps a pivot to
  the front, partitions around the median distance and recurses. The k-NN
  search prunes with the triangle inequality and drains the heap into
  reversed results.
- **The test program `VPTreeTest.cpp`.** It has the Kernighan popcount
  `Hamming` and the linear best-five insertion scan. That scan is the
  reference the tree's answer is compared against.

Modules:

| file | module | source |
|---|---|---|
| `partition_hash.dfy` | `PartitionHash` | `Partition.cpp` hash52, SelectPartition |
| `partitions.dfy` | `Partitions` | `Partition.h` |
| `canonical.dfy` | `Canonical` | the remap loops of `Partition.cpp` |
| `enumerate.dfy` | `Enumerate` | `EnumerateASTC`, `EnumerateBPTC` |
| `vptree.dfy` | `VPTree` | `VPTree.h` |
| `vptree_test.dfy` | `VPTreeTest` | `VPTreeTest.cpp` |
| `finite_sets.dfy` | `FiniteSets` | a set-cardinality lemma shared by `Canonical` and `VPTree` |

Some parts are imperative and some are pure:

- The straight-line bit arithmetic of `SelectPartition`, and the `Partition`
  value, are pure functions.
- Loops that change state are methods over arrays or class fields.
- Each such method is specified by a function of its inputs, and the
  properties are proved about those functions.
- Examples of these methods: `Distance`, the fill, remap and dedup loops,
  `create`/`buildFromPoints`/`search`, `Hamming` and the best-five scan.

The main results:

- **SelectPartition.** The result is always 0..3. It is 0..1 for a partition
  count below 3 and never 3 for a count below 4. It is the first weight that
  reaches the maximum.
- **Remap.** It yields the first-seen relabelling. That relabelling is
  canonical. It keeps "same label" in both directions. It is idempotent.
- **VpTree build.** It permutes only its own range and leaves a tree that
  satisfies the build invariant.
- **VpTree search.** It returns min(k, n) items in non-decreasing distance
  with their true distances. For a metric distance, no other item is closer.
  So two such answers have equal distances: the tree agrees with a linear
  scan.
- **Test program.** In `VPTreeTest.cpp`'s setting, the tree's nearest value
  is exactly as near as `bestFive[0]`.

## Model

| member | source | states |
|---|---|---|
| PartitionHash.Hash52 | Partition.cpp:61-65 | no contract: the ten xor/shift/add steps of hash52 written over `bv32` in the source's order (see its line under Left out) |
| PartitionHash.AdjustSeed | Partition.cpp:76 | no contract: the wrapping `seed += (partitionCount-1) * 1024`; what it preserves is stated by AdjustKeepsLowBits |
| PartitionHash.ShiftAmounts | Partition.cpp:99-107 | each of sh1, sh2, sh3 is 4, 5 or 6, and sh3 is one of sh1, sh2 |
| PartitionHash.AdjustKeepsLowBits | Partition.cpp:76 | the wrapping seed adjustment adds a multiple of 1024, so bits 0, 1 and 4 of the seed are unchanged |
| PartitionHash.ShiftsDependOnLowBits | Partition.cpp:76-107 | the shift amounts depend only on bits 0, 1 and 4 of the caller's seed and on whether partitionCount == 3 |
| PartitionHash.SubSeed | Partition.cpp:79-111 | a 4-bit field of rnum, squared in eight bits and shifted right by sh (4, 5 or 6), is at most 14 |
| PartitionHash.SubSeeds | Partition.cpp:79-111 | seed1 .. seed12 are twelve values, each at most 14 |
| PartitionHash.Line | Partition.cpp:113-118 | one masked line sum `(sx*x + sy*y + sz*z + r) & 0x3F` lies in 0..63 |
| PartitionHash.Lines | Partition.cpp:71-118 | the four line functions a, b, c, d lie in 0..63 after the 0x3F mask |
| PartitionHash.Force | Partition.cpp:120-121 | a and b are kept; c becomes 0 exactly when the signed partitionCount is below 3 and d exactly when it is below 4, and each is kept otherwise |
| PartitionHash.Weights | Partition.cpp:118-121 | weights are in 0..63; d is 0 when the signed partitionCount is below 4, c is 0 when it is below 3 |
| PartitionHash.FirstMax | Partition.cpp:123-126 | the result is a position whose weight is at least every weight and strictly above every earlier one (ties go to the earlier) |
| PartitionHash.SelectPartition | Partition.cpp:68-127 | the result is in 0..3, is 0 or 1 for partitionCount < 3, is never 3 for partitionCount < 4, and is the first weight attaining the maximum |
| PartitionHash.SelectTwoWay | Partition.cpp:120-126 | with partitionCount < 3 a texel is in partition 0 exactly when a >= b, else in partition 1 |
| Partitions.ToInt32 | Partition.h:66-70 | storing a uint32 in the int32 m_Index and reading it back as uint32 gives the original |
| Partitions.Default | Partition.h:69 | the default constructor gives index -1 and N*M labels |
| Partitions.WithIndex | Partition.h:70 | Partition(idx) stores idx, read back as uint32, with N*M labels |
| Partitions.GetIndexOfWithIndex | Partition.h:70-79 | GetIndex returns the index given to the constructor |
| Partitions.GetIndexOfDefault | Partition.h:69-79 | GetIndex of a default partition is 0xFFFFFFFF |
| Partitions.GetIndex | Partition.h:79 | the uint32 read of m_Index converts back to the stored int32 |
| Partitions.Bytes | Partition.h:73-74 | the bytes memcmp reads are the four bytes of m_Index followed by exactly the labels |
| Partitions.Equal | Partition.h:73-75 | the memcmp over index bytes and labels holds exactly when both the index and every label agree |
| Partitions.Int32BytesInjective | Partition.h:66-75 | two int32 indices with the same four bytes are equal |
| Partitions.Set | Partition.h:76-77 | a write through operator[](i) sets label i and leaves the index and every other label unchanged |
| Partitions.Get | Partition.h:76 | no contract: the const operator[] reads label i; Set's contract states what Get returns after a write |
| Partitions.Distance | Partition.h:81-89 | the loop returns the number of positions whose labels differ, at most N*M |
| Partitions.LabelDistance | Partition.h:81-89 | no contract: Distance as the total function on partitions the VP-tree takes (0 across block sizes, which no instantiation mixes); LabelDistanceIsMetric states its properties |
| Partitions.MismatchesBound | Partition.h:81-89 | the mismatch count is at most the number of labels |
| Partitions.MismatchesSymmetric | Partition.h:81-89 | the mismatch count is symmetric |
| Partitions.MismatchesZeroIff | Partition.h:81-89 | the mismatch count is 0 exactly when the label arrays are equal |
| Partitions.MismatchesTriangle | Partition.h:81-89 | the mismatch count satisfies the triangle inequality |
| Partitions.LabelDistanceIsMetric | Partition.h:81-89 | Distance is 0 iff the labels are equal (whatever the indices), is symmetric, obeys the triangle inequality and is at most N*M |
| Canonical.First | Partition.cpp:154-155 | the first position where a raw label occurs: it holds the label and no earlier position does |
| Canonical.RelabelPrefix | Partition.cpp:150-158 | after k pixels the new labels in use are exactly 0 .. c-1, where c is the number of distinct raw labels seen so far |
| Canonical.NewLabel | Partition.cpp:154-155 | a raw label met for the first time gets lastPart, which then grows by one |
| Canonical.OldLabel | Partition.cpp:154-157 | a raw label met before keeps the new label it got then, which is below lastPart |
| Canonical.LabelBound | Partition.cpp:150-159 | each new label is below the number of distinct raw labels |
| Canonical.RelabelIsCanonical | Partition.cpp:146-158 | the remapped labels are non-negative and each is 0 or at most one more than some earlier label |
| Canonical.LabelBelow | Partition.cpp:154-157 | a non-zero new label is one more than a new label given earlier |
| Canonical.RelabelFirstIsZero | Partition.cpp:154-157 | the first pixel always gets label 0 |
| Canonical.RelabelSameIff | Partition.cpp:150-158 | two pixels share a new label iff they shared a raw label |
| Canonical.RelabelCount | Partition.cpp:150-159 | the remap keeps the number of distinct labels |
| Canonical.SeenBelow4 | Partition.cpp:142-159 | raw labels below 4 have at most 4 distinct values |
| Canonical.CanonicalPrefix | Partition.cpp:150-158 | in a canonical labelling the labels among the first i pixels are exactly 0 .. c-1 |
| Canonical.CanonicalNext | Partition.cpp:154-155 | in a canonical labelling the next label is at most the count seen so far, and it is new iff it equals that count |
| Canonical.RelabelIdempotent | Partition.cpp:150-158 | remapping a labelling already in first-seen canonical form leaves it unchanged |
| Canonical.RelabelTwice | Partition.cpp:150-158 | remapping twice is the same as remapping once |
| Canonical.Remap | Partition.cpp:146-159 | the in-place loop over the buffer with the map array leaves the first-seen relabelling. It changes nothing past the block, and returns lastPart = the number of distinct raw labels, at most 4 |
| Canonical.MappedBound | Partition.cpp:153-157 | inside the loop, the current entry is still its raw label below 4, and the labels handed out fit in a uint8 |
| Canonical.RemapStep | Partition.cpp:153-157 | one pass of the remap loop body keeps the loop state (buffer prefix relabelled, map and lastPart consistent) |
| Canonical.RemapEntry | Partition.cpp:153-157 | one pass of the loop body, with the `map[part] = lastPart++` update for an unseen raw label and the store `part = map[part]`, takes the loop state (RemapInv) from entry k to entry k+1 |
| Enumerate.DedupSnoc | Partition.cpp:166-177 | processing one more candidate appends it exactly when no stored partition is the same |
| Enumerate.DedupNoLaterSame | Partition.cpp:166-177 | no two stored partitions are the same under the comparison used |
| Enumerate.DedupFromCandidates | Partition.cpp:175-177 | every stored partition is one of the candidates |
| Enumerate.DedupCovers | Partition.cpp:166-177 | every candidate is stored or the same as a stored one |
| Enumerate.DedupOfDistinct | Partition.cpp:166-177 | when no candidate is the same as an earlier one, all are stored in loop order |
| Enumerate.RawASTCPixel | Partition.cpp:139-144 | entry j*N + i of the raw ASTC buffer is SelectPartition(partIdx, i, j, 0, partIdx & 3, smallBlock) |
| Enumerate.CandidateASTC | Partition.cpp:161-164 | the ASTC candidate of partIdx carries partIdx as its index and N*M labels |
| Enumerate.LabelBoundAll | Partition.cpp:142-157 | remapped labels of raw labels below 4 are below 4 |
| Enumerate.CandidateBPTC | Partition.cpp:227-230 | the BPTC candidate carries shapeIdx as its index and 16 labels |
| Enumerate.EnumerateASTC | Partition.cpp:129-179 | results is cleared, then receives the 4096 candidates in partIdx order, each appended unless an operator==-equal one is stored |
| Enumerate.EnumerateASTCUsing | Partition.cpp:137-178 | the partIdx loop, for any existence comparison, returns Dedup of the 4096 candidates in loop order |
| Enumerate.AstcStep | Partition.cpp:138-177 | one partIdx iteration (fill, remap, copy, existence check) extends the Dedup of the first partIdx candidates to the first partIdx+1 |
| Enumerate.EnumerateBPTC | Partition.cpp:199-245 | results is cleared, then receives the 128 candidates in (nSubsets, shapeIdx) order, each appended unless an operator==-equal one is stored |
| Enumerate.BptcStep | Partition.cpp:206-243 | one (nSubsets, shapeIdx) iteration extends the Dedup of the candidates before it by that iteration's candidate |
| Enumerate.FillASTC | Partition.cpp:138-144 | the buffer's first N*M entries become the raw SelectPartition labels, row by row, and the entries from N*M on stay 0 after the memset |
| Enumerate.FillRowASTC | Partition.cpp:140-144 | after the inner i loop for row j the buffer's first (j+1)*N entries are rows 0..j of the raw labels, and no entry from (j+1)*N on has changed |
| Enumerate.WriteRow | Partition.cpp:140-144 | the i loop writes the N labels of row j at base .. base+N-1 and changes no other entry |
| Enumerate.SetPixel | Partition.cpp:141-143 | the store `parts[j*N + i] = part` sets exactly that entry to pixel (i, j)'s SelectPartition label and leaves the rest of the buffer |
| Enumerate.Clear | Partition.cpp:138 | the memset leaves every entry of the label buffer 0 |
| Enumerate.FillBPTC | Partition.cpp:206-211 | the buffer's 16 entries become the shape table's subsets |
| Enumerate.CopyLabels | Partition.cpp:161-164 | the new partition has the loop's index and the buffer's first N*M labels |
| Enumerate.AppendIfAbsent | Partition.cpp:166-177 | the linear search with break appends exactly when no stored partition is the same |
| Enumerate.ResultsDistinct | Partition.cpp:166-177 | results never hold two partitions equal under operator== |
| Enumerate.AstcResultsAreCandidates | Partition.cpp:137-164 | every stored ASTC partition has as index the partIdx that generated it and that iteration's remapped, canonical labels |
| Enumerate.BptcResultsAreCandidates | Partition.cpp:204-230 | every stored BPTC partition has as index the shapeIdx that generated it and that iteration's remapped, canonical labels |
| Enumerate.CandidateBPTCCanonical | Partition.cpp:204-230 | the BPTC candidate of a shape and subset count has that shape's index and the canonical relabelling of its raw labels |
| Enumerate.AstcKeepsEveryCandidate | Partition.cpp:161-177 | every candidate has a fresh partIdx, so the "already exists" check never fires and all 4096 candidates are kept |
| Enumerate.AstcKeepsDuplicateLabels | Partition.cpp:166-177 | for a 4x4 block partIdx 4 and 5 are both stored although their labels are identical |
| Enumerate.EnumerateASTCByLabels | Partition.cpp:129-179 | the enumeration with the comparison on labels only |
| Enumerate.ByLabelsDistinct | Partition.cpp:166-177 | with the label comparison no two stored partitions have the same labels |
| Enumerate.ByLabelsCovers | Partition.cpp:166-177 | with the label comparison every labelling some partIdx produces is stored |
| Enumerate.ByLabelsKeepsOne | Partition.cpp:166-177 | with the label comparison, of two indices giving the same labels at most one is stored |
| Enumerate.ByLabelsDropsDuplicate | Partition.cpp:166-177 | with the label comparison the 4x4 partIdx 4 and 5 are not both stored |
| Enumerate.PixelsOf4And5 | Partition.cpp:68-141 | in a 4x4 block every texel is in partition 0 under partIdx 4 and under partIdx 5 |
| Enumerate.SameLabelsOf4And5 | Partition.cpp:137-164 | the 4x4 candidates of partIdx 4 and 5 have the same labels |
| VPTree.MaxAt | VPTree.h:139-148 | top() of the max-heap: an entry no other entry is greater than under HeapItem::operator< |
| VPTree.HeapLess | VPTree.h:139-148 | no contract: HeapItem::operator< compares distances only |
| VPTree.Pop | VPTree.h:202 | pop() removes exactly the top entry and keeps the others in order |
| VPTree.PopBelowTop | VPTree.h:139-148 | no entry left after a pop is farther than the popped top |
| VPTree.PopDistinct | VPTree.h:202 | popping keeps positions distinct and removes exactly the top's position |
| VPTree.IndicesCard | VPTree.h:201-205 | a heap with distinct positions holds as many positions as entries |
| VPTree.Below | VPTree.h:201 | no contract: the test `dist < _tau`, always true while tau is infinite |
| VPTree.InnerReachable | VPTree.h:212 | no contract: the test `dist - _tau <= threshold`, always true while tau is infinite |
| VPTree.OuterReachable | VPTree.h:216 | no contract: the test `dist + _tau >= threshold`, always true while tau is infinite |
| VPTree.Interval | VPTree.h:166-188 | the positions lo .. hi-1 in order |
| VPTree.ValidTreeIndices | VPTree.h:159-192 | the tree is null iff lower == upper, and its vantage points are exactly lower .. upper-1, each once |
| VPTree.ValidTree | VPTree.h:159-192 | no contract: the build invariant, that an empty range is null, the vantage point is the range's first item, a one-item range is a leaf, and a longer range splits at (lower+upper)/2 into an inner part within the threshold and an outer part at least the threshold away (see its Left out line) |
| VPTree.ValidTreeFrame | VPTree.h:171-188 | a tree over [lo, hi) stays valid when only items outside that range change |
| VPTree.SwapPermutes | VPTree.h:172 | std::swap of two positions in a range permutes that range and nothing else |
| VPTree.PermutedMembers | VPTree.h:172-181 | a permuted range holds the same items |
| VPTree.FillingVisitsBoth | VPTree.h:211-227 | while the heap holds fewer than k entries tau is infinite and both pruning tests pass |
| VPTree.OfferSkipped | VPTree.h:201 | an item no closer than tau is left out and the search state holds |
| VPTree.OfferGrows | VPTree.h:203-204 | an item closer than tau enters a heap that is not full; once it holds k, tau is its largest distance |
| VPTree.OfferReplaces | VPTree.h:201-205 | in a full heap the new item replaces the top; tau becomes the new largest distance, no larger than before |
| VPTree.PruneKeeps | VPTree.h:211-227 | a range pruned while tau is finite holds only items no closer than tau and the state still holds |
| VPTree.InnerPruned | VPTree.h:211-227 | when dist - tau > threshold every inner item is farther than tau (triangle inequality) |
| VPTree.OuterPruned | VPTree.h:211-227 | when dist + tau < threshold every outer item is farther than tau (triangle inequality and symmetry) |
| VPTree.BuildFacts | VPTree.h:184-188 | after both sub-builds the node satisfies the build invariant and the range [lower+1, upper) is permuted |
| VPTree.BuildInner | VPTree.h:177-187 | the items of [lower+1, median) are within the threshold of the vantage point |
| VPTree.BuildOuter | VPTree.h:177-188 | the items of [median, upper) are at least the threshold from the vantage point and one of them is exactly at it |
| VPTree.Closer | VPTree.h:150-157 | no contract: DistanceComparator(item)(a, b) is distance(item, a) < distance(item, b) |
| VPTree.Reverse | VPTree.h:114-116 | std::reverse: entry i is entry n-1-i of the input |
| VPTree.HeapSize | VPTree.h:201-205 | once every position has been seen the heap holds min(k, n) entries |
| VPTree.DrainStep | VPTree.h:107-112 | taking the top off the heap keeps the drain state (entries taken off farthest first, at distinct positions) |
| VPTree.AnswerOfDrained | VPTree.h:107-116 | reversing the drained heap gives min(k, n) items with their distances, nearest first, at distinct positions, none of the others closer for a metric |
| VPTree.FarOutside | VPTree.h:194-229 | for a metric, once all positions are seen, an item left out of the heap is no closer than the heap's farthest entry |
| VPTree.HeapBound | VPTree.h:139-148 | no heap entry is farther than the top |
| VPTree.AnswersAgree | VPTree.h:93-117 | for a metric, two answers of the same size have equal distance sequences: the search agrees with a linear scan of the k smallest distances |
| VPTree.NotSmaller | VPTree.h:93-117 | the i-th distance of a complete answer is at most the i-th distance of any ranked selection |
| VPTree.VpTree.constructor | VPTree.h:81 | the tree starts with no items, a null root and an empty heap (tau: see Left out) |
| VPTree.VpTree.Create | VPTree.h:87-91 | the items are a permutation of the input and the tree satisfies the build invariant over all of them |
| VPTree.VpTree.BuildFromPoints | VPTree.h:159-192 | only items[lower..upper) are permuted, and the returned node satisfies the build invariant over that range |
| VPTree.VpTree.NthElement | VPTree.h:177-181 | the range is permuted with no item before nth farther from the pivot than items[nth] and none after it closer |
| VPTree.VpTree.SelectStep | VPTree.h:177-181 | one selection round keeps the range permuted and extends the sorted prefix by one |
| VPTree.VpTree.ClosestFrom | VPTree.h:150-157 | the returned position holds an item closest to the pivot under DistanceComparator |
| VPTree.VpTree.Search | VPTree.h:93-117 | results are min(k, n) items at distinct positions in non-decreasing distance with distances[i] == distance(results[i], target), no other item closer for a metric; empty for an empty tree |
| VPTree.VpTree.Drain | VPTree.h:107-112 | the loop empties the heap into results and distances, top first |
| VPTree.VpTree.Offer | VPTree.h:201-205 | the heap insertion keeps at most k distinct seen entries and tau equal to the largest once full |
| VPTree.VpTree.SearchNode | VPTree.h:194-209 | the private search visits or prunes every position of the subtree's range and keeps the search state |
| VPTree.VpTree.SearchChildren | VPTree.h:211-227 | every position of the inner range [lower+1, median) and of the outer range [median, upper) ends up visited or soundly pruned, and the search state is kept |
| VPTree.VpTree.SearchInner | VPTree.h:211-227 | the inner subtree is searched when dist - tau <= threshold and otherwise pruned soundly |
| VPTree.VpTree.SearchOuter | VPTree.h:211-227 | the outer subtree is searched when dist + tau >= threshold and otherwise pruned soundly |
| VPTreeTest.Kernighan | VPTreeTest.cpp:65-67 | n &= n-1 clears exactly one set bit of a non-zero n |
| VPTreeTest.PopCountBelow | VPTreeTest.cpp:62-69 | a w-bit word has at most w set bits |
| VPTreeTest.PopCountZeroIff | VPTreeTest.cpp:65 | the popcount is 0 exactly for 0 |
| VPTreeTest.XorSymmetric | VPTreeTest.cpp:63 | a ^ b == b ^ a |
| VPTreeTest.XorZeroIff | VPTreeTest.cpp:63 | a ^ b == 0 iff a == b |
| VPTreeTest.XorTriangle | VPTreeTest.cpp:62-69 | the bit difference obeys the triangle inequality |
| VPTreeTest.XorIsWord | VPTreeTest.cpp:63 | the xor of two uint32 values is a uint32 |
| VPTreeTest.Hamming | VPTreeTest.cpp:62-69 | the Kernighan loop returns the number of set bits of a ^ b, at most 32, so it stops within 32 rounds |
| VPTreeTest.HammingBound | VPTreeTest.cpp:62-69 | Hamming is at most 32 |
| VPTreeTest.HammingSymmetricZero | VPTreeTest.cpp:62-69 | Hamming is symmetric and 0 exactly on equal inputs |
| VPTreeTest.HammingOfComplement | VPTreeTest.cpp:85 | Hamming(target, ~target) == 32, so the sentinels are at maximal distance |
| VPTreeTest.HammingIsMetric | VPTreeTest.cpp:62-69 | Hamming is symmetric and obeys the triangle inequality on any values |
| VPTreeTest.Sentinels | VPTreeTest.cpp:85 | bestFive starts as five copies of ~target |
| VPTreeTest.FirstFarther | VPTreeTest.cpp:89-90 | the first slot strictly farther from the target than the value; every earlier slot is no farther |
| VPTreeTest.InsertInto | VPTreeTest.cpp:89-97 | the value goes into the first strictly farther slot, the later slots shift down one with the last dropped, earlier slots unchanged |
| VPTreeTest.InsertShape | VPTreeTest.cpp:90-95 | slots filled as the inner loop fills them form the insertion's result |
| VPTreeTest.Shift | VPTreeTest.cpp:91-93 | the downward shift moves slot k-1 into slot k for k > j and leaves slots before j alone |
| VPTreeTest.BestFive | VPTreeTest.cpp:84-98 | the nested loops leave bestFive equal to the scan of all values from the sentinels |
| VPTreeTest.InsertSorted | VPTreeTest.cpp:89-97 | inserting into slots sorted by distance keeps them sorted |
| VPTreeTest.ScanSorted | VPTreeTest.cpp:88-98 | after each outer iteration bestFive is sorted by non-decreasing distance to target |
| VPTreeTest.ScanMembers | VPTreeTest.cpp:85-98 | every slot holds a scanned value or the sentinel ~target |
| VPTreeTest.InsertKeeps | VPTreeTest.cpp:89-97 | one insertion makes the last slot no farther, and every old value and the new one are kept or no closer than it |
| VPTreeTest.ScanComplete | VPTreeTest.cpp:88-98 | every scanned value is still in bestFive or no closer than its last slot |
| VPTreeTest.ScanNearest | VPTreeTest.cpp:88-98 | bestFive[0] is no farther than any scanned value and is a scanned value or the sentinel |
| VPTreeTest.TreeMatchesScan | VPTreeTest.cpp:84-117 | a tree over the values searched with k = 1 returns a value exactly as near to the target as bestFive[0] |
| VPTreeTest.LinearAndTree | VPTreeTest.cpp:82-117 | the scan gives bestFive, and a tree built over the same values and searched with k = 1 returns one of them at bestFive[0]'s distance |

## Left out

- The pivot `rand()` of `VPTree.h:171` is an arbitrary position of the range, chosen with `:|`. The model proves the results for every choice.
- `std::nth_element` is written as a selection loop (a partial selection sort). It is proved against the standard's contract; the library's algorithm is not modelled.
- Distances are `nat` rather than `double`. Both metrics used here are counts. The `numeric_limits<double>::max()` radius is the `Infinite` case of `Tau`, compared as an infinite value.
- The heap is kept as a sequence whose `top()` is its first entry of largest distance. The binary-heap layout of `std::priority_queue` is not modelled. The proofs use only that `top()` has the largest distance in the heap; the model fixes `top()` to the first such entry (`MaxAt`) and does not model which of several equal-distance entries `std::priority_queue` returns.
- `VPTree.VpTree.Search`: the `distances` pointer is always supplied; the `NULL` case, where only `results` is filled, is left out. A negative `k` is left out (`k` is a `nat`). `k = 0` with a non-empty tree is excluded by a precondition, because line 202 would then pop an empty heap.
- `VPTree.ValidTree`: the threshold is stated as the distance from the vantage point to **some** item of `[median, upper)`, not to `_items[median]`. The right sub-build (line 188) moves the item at `median` when it swaps in its own pivot, so after the build the equality with `_items[median]` no longer holds. At the moment line 184 runs it does hold. The inner and outer bounds are stated in full.
- `VPTree.VpTree.constructor`: the model starts `tau` at `Infinite`, while line 81 leaves `_tau` uninitialised. `search` sets it at line 97 before any read, so nothing observable differs.
- The positions of the search's returned items are a ghost output, the proof's witness that the results are distinct items.
- Memory management is not modelled: `new`/`delete`, destructors, and `reserve`/`capacity` of the heap and result vectors.
- `memcmp` compares the index bytes and the labels. Padding bytes, present when N*M is not a multiple of 4, are not modelled.
- The explicit template instantiations are not modelled. Instead, N and M are parameters with N*M at most 144, the size of the `parts` buffer.
- `BPTCC::GetSubsetForIndex` (Shapes.h) is not part of this model. The BPTC enumerator takes it as a function parameter whose results are below 3, as the assert at `Partition.cpp:209` demands.
- `Partitions.Default`: the C++ default and index constructors leave the labels uninitialised. The model fills them with 0, because every label is written before use.
- `PartitionHash.Hash52` is modelled bit-exactly with no contract. The standard's mixer is invertible, but that was not proved: xor-shift inverses over `bv32` are very costly for the solver.
- `VPTreeTest.Hamming` and the bit functions: `a ^ b`, `n & (n-1)` and `~target` are defined bit by bit on natural numbers below 2^32, not as `bv32` operators. Popcount over `bv32` is far too costly for the solver. Their values are the same on 32-bit words.
- In `VPTreeTest.cpp`, the `srand`/`rand` input values, `StopWatch` timing and all stream output are left out. The values are a parameter.
- `main.cpp`, including `ChosePresegmentedShape`, image I/O, segmentation and colour fitting, is not part of this model.

## Findings

| source | as written | input that shows it | evidently intended | confidence | as-written member | corrected member |
|---|---|---|---|---|---|---|
| Partition.cpp:166-173 | the "already exists" check compares with `operator==` (Partition.h line 74), a `memcmp` that includes `m_Index`; every ASTC candidate has a fresh `partIdx`, so the check never fires and partitions with identical labels are all stored | EnumerateASTC<4, 4>: partIdx 4 and partIdx 5 both label every texel 0, and both are stored | skip a candidate whose labels equal a stored one's (compare the labels only) | not executed | Enumerate.AstcKeepsDuplicateLabels | Enumerate.ByLabelsDropsDuplicate |
