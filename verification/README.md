# Kiddo in Dafny

A model of the Kiddo k-d tree library and of the programs around it, with proofs.

The library stores points with items in leaves below a binary tree of pivots, kept in
Eytzinger order. Immutable trees are built in one go, with soft buckets, and find a leaf by
arithmetic on its stem index. Mutable trees have hard buckets and find leaves through a map;
entries are added (splitting a full bucket, or rebuilding a sparse tree), removed and
relabelled. Queries walk the tree with a stack and prune by an incrementally updated lower
bound on the distance to each subtree.

The main results:

- Queries of immutable trees are exact: nearest one, nearest n within a radius and within a
  radius, inclusive or exclusive, with squared Euclidean, Manhattan, Minkowski and Chebyshev
  distance. The stack machine refines a recursive traversal, which refines a scan of the
  entries, and building an immutable tree always gives a valid one.
- The stack machine of mutable trees shares one offset array between its stack entries and
  restores one axis of it per pop. It is exact for additive metrics, since a stale offset can
  only make the bound smaller, and for Chebyshev exactly on a single axis: for every larger
  number of axes and every bucket size a run of adds and removes leads to a tree with a wrong
  answer.
- Altogether, every query after every run of adds and removes from an empty mutable tree is right
  if and only if the metric is additive or there is a single axis, and buckets hold at most six
  entries.
- Building is balanced when no two entries share a coordinate: soft buckets do not overflow,
  and hard buckets use the fewest leaves, no deeper than a perfect tree. A rebuild of such
  entries therefore brings the terminal map back within its compact limit, and without ties no
  run of adds and removes lets it leave the sparse limit.
- Splitting a bucket of a mutable tree is the delicate step: the comment in the source says
  that a second selection sorts the bucket, but it selects the last position only, so the upper
  part may be left out of order. The mirrored selection is modelled with its two columns, its
  pivots and its block-wise partition, and followed round by round. A full bucket of at most six
  entries always splits strictly; of every larger size there is one that does not, and what the
  loops make of it is followed to the last row. So all runs keep a tree in order if and only if
  buckets hold at most six entries. A larger bucket still splits strictly unless the lowest value
  reaches its middle and some entry lies strictly between the lowest and the highest.
- A stored entry is looked for where its own point leads: to the right of a pivot it equals. The
  entries of an ordered tree can all be found, and removed, exactly when at every stem the
  entries on the left lie strictly below the pivot. Splits keep this whenever they keep order; a
  build, whose selection may leave an equal value on the left, keeps it when no two entries
  share a coordinate, and three entries show how it is lost otherwise.
- Every run of adds and removes is a trace of trees, one related to the next by what the
  operation does, that accounts for every entry. If no more than half a bucket of what is
  offered shares a coordinate, nothing is refused and queries stay exact; if at no time two
  entries share one, the tree holds exactly what the operations say.
- The vectorised leaf kernels (AVX2, AVX-512, NEON and the squared-Euclidean one) all compute
  the plain scan, with its tie-breaking, and that scan is the leaf visit of the queries above.
- The palette example's k-means goes through passes that never raise the cost, stops in a fixed
  point except on its first pass, starts from distinct seeds, and never saturates a byte.
- The fuzz oracle accepts every right answer, and what its comparison of nearest hits accepts is
  settled for every relation between distances: it misses nothing nearer than the last distance if
  and only if the relation is closed towards larger distances, as matching within a few units in
  the last place is.
- What the metrics measure is fixed by laws: the parallelogram law, segments that add up, powers
  that multiply, the largest separation.
- The benchmark's query generator never repeats a word, the release-intro script is
  last-write-wins on every changelog whose markers form blocks and writes the intro once, failure
  identifiers are read exactly as they are spelt, and prefaulting touches every page.

Coordinates and distances are real numbers and comparisons are exact; `max_value` is an
explicit infinity. `select_nth_unstable_by` of the standard library is used only through what
it documents: nothing larger before the position and nothing smaller after it. Methods follow
the loops of the source; each is proved against a function or predicate, and lemmas prove what
those promise. `Valid` trees are those whose
pivots lie in their cells and separate the leaves below them.

## Model

| member | source | states |
|---|---|---|
| Metrics.Dist1Monotone | src/dist/distance_metric_core.rs:128-143 | on every metric a contribution is non-negative and grows with the separation on its axis |
| MetricLaws.ParallelogramLaw | src/dist/squared_euclidean/mod.rs:38-41 | the squared Euclidean contribution satisfies the parallelogram law and is one at separation one |
| MetricLaws.SegmentsAddUp | src/dist/manhattan/mod.rs:38-40 | Manhattan and Chebyshev contributions add up along an axis, in units of one |
| MetricLaws.MinkowskiByExponent | src/dist/minkowski/mod.rs:58-62 | exponent one is Manhattan, two is squared Euclidean, and contributions multiply when exponents add up |
| MetricLaws.DistAddsUp | src/dist/distance_metric_core.rs:147-155 | an additive distance is the sum over any division of the axes, and on one axis it is the contribution |
| MetricLaws.ChebyshevIsLargest | src/dist/chebyshev/mod.rs:36-45 | the Chebyshev distance is at least the separation on every axis and equals one of them |
| MetricLaws.ContributionOfSeparation | src/dist/distance_metric_core.rs:127-128 | a contribution depends on the separation only and is symmetric |
| Metrics.RectDistIsLowerBound | src/dist/distance_metric_core.rs:171-179 | per-axis offsets that under-estimate a point's separations give a rectangle distance that under-estimates its distance, so pruning on it is sound |
| Metrics.UpdateIsExact | src/dist/distance_metric_core.rs:186-196 | when bound and offsets agree, the incremental update equals the rectangle distance recomputed from the changed offsets, for additive metrics and Chebyshev |
| Metrics.StaleUpdateIsLowerBound | src/dist/distance_metric_core.rs:186-196 | for additive metrics the update stays a lower bound even when the other offsets are stale and too large |
| QueryContext.AddHit | src/results/result_collection.rs:199-217 | the threshold collection grows to its limit and no further, and is sorted whenever it is full |
| QueryContext.AddHitKeepsNearest | src/results/result_collection.rs:199-217 | adding a hit keeps the collection a set of nearest hits, up to ties, of everything offered |
| QueryContext.TiesAreKept | src/results/result_collection.rs:199-217 | a full collection stays as it is exactly for hits that are not nearer than its farthest |
| QueryContext.OfferKeepsAnswer | src/leaf_view_chunked/nearest_n_within/fallback.rs:58-92 | a candidate tested against the bound read at the start of its leaf keeps the answer right for all three query kinds, where the hits wanted are those nearer than the radius or, if it is inclusive, just as far; the pruning bound never loosens |
| QueryContext.RimOfCandidates | src/leaf_view_chunked/nearest_n_within/fallback.rs:74-78 | the hits an inclusive radius asks for are those of the exclusive one and exactly the hits on the radius |
| QueryContext.SkippingIsSafe | src/kd_tree/query/nearest_n_within.rs:472-493 | a hit that the pruning test rejects changes no answer, with inclusive and exclusive radii |
| QueryContext.PrunesExactlyTheUseless | src/kd_tree/query/nearest_n_within.rs:472-493 | a subtree is skipped exactly when no hit from its distance on would change the collected results, unless an inclusive collection is full |
| QueryContext.ProcessLeafKeepsAnswer | src/leaf_view_chunked/nearest_one/fallback.rs:7-75 | visiting a leaf extends the answer by exactly that leaf's entries |
| Eytzinger.LeafIdxIsOffset | src/stem_strategy/eytzinger/mod.rs:118-121 | clearing the level bit of a stem index gives its offset within the level |
| Search.VisitIsExact | src/kd_tree/orchestrator/mod.rs:414-556 | the traversal with restored offsets answers the query it is given like a scan of a well-split tree, for every metric and query point, and keeps its kind, radius, exclusiveness and quantity |
| Search.VisitStaleIsExact | src/kd_tree/orchestrator/mod.rs:268-363 | the traversal with shared offsets does so, for the query it is given, with additive metrics or on one axis |
| ArithmeticQuery.StepVisits | src/kd_tree/orchestrator/mod.rs:576-804 | one step of the descent followed by the deferred far side does what the recursive traversal does at that stem |
| ArithmeticQuery.DescendToLeaf | src/kd_tree/orchestrator/mod.rs:576-804 | the descent reaches a leaf within bounds; visiting it and unwinding the three stacks gives the recursive traversal's result |
| ArithmeticQuery.Unwind | src/kd_tree/orchestrator/mod.rs:414-556 | unwinding restores offsets and resumes far branches as the recursive traversal would |
| ArithmeticQuery.Query | src/kd_tree/orchestrator/mod.rs:414-556 | the three-stack traversal computes exactly the recursive traversal |
| ArithmeticQuery.Answer | src/kd_tree/orchestrator/mod.rs:414-556 | the answer is to the query asked (same kind, radius, exclusiveness and quantity) and right over exactly the entries a valid immutable tree stores |
| MappedQuery.StepVisits | src/traits/stem_strategy.rs:346-467 | one default step followed by the deferred far side, if its bound still admits it, does what the recursive traversal does at that stem |
| MappedQuery.TraverseToLeaf | src/kd_tree/orchestrator/mod.rs:808-856 | the walk ends in a mapped leaf within bounds and loses no deferred branch |
| MappedQuery.Query | src/kd_tree/orchestrator/mod.rs:268-363 | the single-stack traversal computes exactly the recursive traversal with shared offsets |
| MappedQuery.Answer | src/kd_tree/orchestrator/mod.rs:268-363 | the answer is to the query asked and right over exactly the entries a valid mutable tree stores, for additive metrics or one axis |
| StaleOffsets.CulpritIsLost | src/kd_tree/orchestrator/mod.rs:268-363 | for every number of axes above one, a tree, a query and a Chebyshev nearest-one answer that is not nearest |
| StaleOffsets.CulpritIsATree | src/kd_tree/orchestrator/mod.rs:268-363 | that tree is a valid mutable tree: every walk ends in a leaf of its own, every leaf is reached, no bucket overflows |
| CulpritRun.CulpritIsReached | src/kd_tree/construction/mod.rs:62-300 | for every bucket size of at least two that tree comes about from the empty one, by additions that split four buckets and by three removals |
| StaleOffsets.ExactExactlyWhen | src/kd_tree/orchestrator/mod.rs:268-363 | the query asked is answered exactly on every valid and well-formed mutable tree if and only if the metric is additive or there is one axis |
| Construction.UpdatePivot | src/kd_tree/construction/mod.rs:1265-1350 | the split is proper and ordered, keeps the entries, has different values where its sides meet, and degenerates exactly when every value on the axis is the same; without ties it stays at the ideal pivot and is strict |
| Construction.LeavesOfParts | src/kd_tree/construction/mod.rs:1209-1262 | cutting off whole buckets needs no leaf more than the uncut chunk |
| ImmutableConstruction.PopulateSoft | src/kd_tree/construction/serial.rs:68-190 | the recursion changes only stems below its own, appends exactly its budget of leaves, and leaves a well-split subtree holding exactly its chunk; ties apart, no leaf outgrows a bucket |
| ImmutableConstruction.SoftBudgetHalves | src/kd_tree/construction/mod.rs:949-951 | the left budget of a power-of-two budget is its half |
| ImmutableConstruction.SoftBudgetIsLargestPower | src/kd_tree/construction/mod.rs:949-951 | the left budget is the largest power of two below the budget |
| ImmutableConstruction.SoftPivotIsMiddle | src/kd_tree/construction/mod.rs:955-968 | the ideal pivot of an even budget is the middle of the chunk, and neither half outgrows the share planned for it |
| ImmutableConstruction.NewFromEntries | src/kd_tree/construction/mod.rs:553-763 | building an immutable tree always gives a valid tree with exactly the entries; if no two share a coordinate, no soft bucket overflows |
| MutableConstruction.CalcPivot | src/kd_tree/construction/mod.rs:1209-1262 | a chunk that overflows a bucket is cut into two non-empty parts for every planned right capacity, so the recursion ends, and the left part fills whole buckets |
| MutableConstruction.PivotKeepsPlan | src/kd_tree/construction/mod.rs:1009-1050 | a chunk that fits the levels planned below it is cut into parts that fit the levels planned below them |
| MutableConstruction.PopulateHard | src/kd_tree/construction/mod.rs:971-1145 | the recursion lays out a well-split subtree with exactly its chunk, non-empty leaves within a bucket, or reports a group of more than a bucket of entries equal on the failing axis; ties apart it succeeds with as few leaves as can hold the chunk, no deeper than planned, and strictly split |
| MutableConstruction.LaidIsMapped | src/kd_tree/construction/mod.rs:1149-1186 | following pivots and the terminal map recovers exactly the laid-out subtree, and every walk ends in a mapped leaf |
| MutableConstruction.FirstStemsReachLastLeaf | src/kd_tree/construction/mod.rs:675-692 | the stems reach to the one above the last leaf, as the bits of its number lead there, rounded up to a cache line of eight |
| MutableConstruction.MapTerminals | src/kd_tree/construction/mod.rs:1149-1186 | the map sends each terminal stem to its leaf and has no other keys |
| MutableConstruction.NewFromEntries | src/kd_tree/construction/mod.rs:627-763 | building a mutable tree gives a valid tree with exactly the entries, or fails only if more than a bucket of them share a coordinate; if no two share one, it succeeds with the fewest leaves, no deeper than a perfect tree of them, mapped within the compact limit, and strictly split at every stem |
| EndToEnd.BuildAndQuery | src/kd_tree/construction/mod.rs:553-763 | build, then query: the answer to the query asked is that of a scan of the input, for every metric and query kind |
| EndToEnd.BuildMutableAndQuery | src/kd_tree/construction/mod.rs:627-763 | the same, for the query asked, with mutable trees and additive metrics, or a justified refusal |
| MutableShape.LocatedCell | src/kd_tree/construction/mod.rs:127-148 | the leaf found for a point has a cell that contains the point |
| MutableShape.ReplacedAbove | src/kd_tree/construction/mod.rs:156-202 | replacing what lies below the found leaf keeps the whole tree complete, distinct and (if it was) ordered, and changes its contents by just that much |
| MutableSteps.LocateAfter | src/kd_tree/construction/mod.rs:127-148 | after a change below its leaf a point is still found through the same stem |
| BlockPartition.PartitionInBlocks | src/mirror_select_nth_unstable_by.rs:259-623 | the block-wise loops, with their offsets, cyclic moves and leftovers, permute both columns alike within the range so that the values below the pivot come first, and return where the others start |
| BlockPartition.Cycle | src/mirror_select_nth_unstable_by.rs:450-530 | moving pairs across through one held row permutes the range, and afterwards exactly the other offsets of both blocks are still pending |
| MirrorSelect.Partition | src/mirror_select_nth_unstable_by.rs:162-230 | the pivot ends between smaller values and the rest, both columns are permuted alike within the range, and nothing moves but the pivot and what lies between the first pair out of order |
| MirrorSelect.EqualPartedSeparates | src/mirror_select_nth_unstable_by.rs:84-160 | for a least pivot, what the loops of the equal partition leave has the values equal to it first and larger ones after them, and is a permutation within the range |
| PivotLaws.MedianIsMiddle | src/mirror_select_nth_unstable_by.rs:654-666 | of three rows two are not above the median and two not below it; no exchange is counted exactly for rows in order and three exactly for rows that descend |
| PivotLaws.ReversedExactlyWhen | src/mirror_select_nth_unstable_by.rs:626-694 | a long range that descends is reversed before it is partitioned; a range that rises, and any short one, stays |
| MirrorSelect.AfterPartition | src/mirror_select_nth_unstable_by.rs:50-80 | whichever side the loop goes on with, everything beyond the range is larger and everything before it smaller, up to the predecessor |
| MirrorSelect.Select | src/mirror_select_nth_unstable_by.rs:8-82 | the result is one the loop arrives at from the whole range, round by round; the rows are permuted as pairs, the selected value is in place, and the values equal to it before it are directly next to it |
| MirrorSelect.SelectionIsChosen | src/mirror_select_nth_unstable_by.rs:8-82 | whatever order the inner partition leaves within its two sides, the selection permutes the rows as pairs and puts the selected value in place, its equals directly before it |
| BucketSplit.PermutedColumn | src/leaf_strategy/vec_of_arrays.rs:570-590 | applying the mirrored positions once gives a permutation of the bucket whose values on the axis are the selected column |
| BucketSplit.Split | src/leaf_strategy/vec_of_arrays.rs:446-605 | the two selections, the search for the cut and the rearrangement by the mirrored positions give an outcome of the selection's rounds |
| BucketSplit.OutcomeIsProper | src/leaf_strategy/vec_of_arrays.rs:446-605 | a split permutes the bucket, leaves both parts non-empty, and fails exactly when every entry has the same value on the axis |
| StrictSplits.StrictWithoutRisk | src/leaf_strategy/vec_of_arrays.rs:446-605 | a split is strict, with nothing on the left at or above the pivot, if the bucket has at most six entries, or the lowest value does not reach its middle, or no entry lies strictly between the lowest and the highest |
| StrictSplits.StrictExactlyUpToSix | src/leaf_strategy/vec_of_arrays.rs:446-605 | full buckets of a size split strictly whatever they hold, if and only if the size is at most six |
| StrictSplits.EndsInThreeSplits | src/leaf_strategy/vec_of_arrays.rs:536-566 | a bucket of seven or more with the lowest value all over but for three entries at the end, the largest of them first, has one outcome: the last three are exchanged around, and the cut before them is out of order |
| StrictSplits.CopiesSplitBetween | src/leaf_strategy/vec_of_arrays.rs:446-605 | a bucket with copies of two entries has one outcome: the lower ones, then the higher ones, cut between them |
| SplitPasses.PassOfFive | src/mirror_select_nth_unstable_by.rs:21-82 | after a lowest run of three, selecting the last of five rows puts the largest last, and the other one directly before it or into the run's second place |
| SplitPasses.PassOfSix | src/mirror_select_nth_unstable_by.rs:21-82 | after a lowest run of four, selecting the last of six rows sorts them |
| SplitPasses.LateSecondPass | src/mirror_select_nth_unstable_by.rs:21-82 | on rows that end in three larger values, the largest of them first, selecting the last moves rows of the run as the first pass did and exchanges the last three around |
| MisplacedSplit.SplitBucket | src/leaf_strategy/vec_of_arrays.rs:446-605 | splitting such a bucket, for every size above six, returns it with the last three exchanged around and a cut before the 2, so that the 1 is on the wrong side |
| MisplacedSplit.UnorderedIsReached | src/kd_tree/construction/mod.rs:62-202 | adding that bucketful and one more entry to an empty tree leads to a tree of two leaves |
| MisplacedSplit.UnorderedIsNotValid | src/kd_tree/construction/mod.rs:156-202 | that tree is out of order |
| MisplacedSplit.MisplacedIsMissed | src/leaf_strategy/vec_of_arrays.rs:536-566 | a query of it within a half, under every metric and over any number of axes, misses a stored entry at distance zero |
| BucketEdit.RemoveAll | src/leaf_strategy/vec_of_arrays.rs:407-437 | compaction keeps, in order, exactly the entries other than the removed one |
| BucketEdit.WithoutContents | src/leaf_strategy/vec_of_arrays.rs:407-437 | every copy of the removed entry is gone and every other multiplicity is kept |
| BucketEdit.ReplaceItem | src/leaf_strategy/vec_of_arrays.rs:162-183 | exactly the first matching entry gets the new item, and the result says whether there was one |
| Iteration.IterationIsComplete | src/kd_tree/iter.rs:66-84 | iterating over the leaves in storage order yields every stored entry exactly once |
| Routing.FoundExactlyWhenStrict | src/kd_tree/construction/mod.rs:127-148 | every copy of every entry of an ordered tree is in the leaf its own point leads to if and only if at every stem the entries on the left lie strictly below the pivot |
| Routing.FoundExactlyWhenRouted | src/kd_tree/construction/mod.rs:127-148 | all copies are found exactly when every leaf holds only entries that lead to it |
| Routing.RoutedAfterSplit | src/kd_tree/construction/mod.rs:156-202 | a strict split keeps every entry on its way |
| StraddlingTie.StraddlerIsLost | src/kd_tree/construction/mod.rs:127-148 | a valid tree of three entries in which a stored one is not where its point leads |
| StraddlingTie.StraddlerStays | src/kd_tree/construction/mod.rs:265-274 | removing that entry changes nothing |
| StraddlingTie.BuildMayStraddle | src/kd_tree/construction/mod.rs:971-1145 | that tree is one a build may give: with buckets of two it asks for position 2 of the three, the selection may leave them as they are, the values at the cut differ, and both sides become leaves |
| MutableTree.MutableKdTree.constructor | src/kd_tree/mod.rs:534-580 | the default tree is valid, ordered, findable, within the sparse limit and empty |
| MutableTree.MutableKdTree.FindLeaf | src/kd_tree/construction/mod.rs:127-148 | the loop ends at the terminal stem of the point |
| MutableTree.MutableKdTree.Add | src/kd_tree/construction/mod.rs:62-103 | success adds exactly the entry, failure keeps the contents and names a bucketful of entries equal on an axis; the new tree is one the split, the rebuild or the free place allows; order is kept unless the bucket splits out of it, and the entry and all others stay findable and the terminal map sparse unless a rebuild meets ties |
| MutableTree.AddStepKeeps | src/kd_tree/construction/mod.rs:62-103 | the same for every tree an addition may lead to |
| MutableTree.SplitStepKeeps | src/kd_tree/construction/mod.rs:156-202 | a split keeps count and contents, and keeps order and routing whenever the bucket is not of the unordered kind |
| MutableTree.SparseLimitIsFiveLevels | src/stem_strategy/eytzinger/mod.rs:202-213 | for a power of two of leaves the sparse limit is that of terminals five levels below a perfect tree's |
| MutableTree.MutableKdTree.BecomeStem | src/kd_tree/construction/mod.rs:156-202 | the stores of a split amount to the split tree |
| MutableTree.MutableKdTree.RebuildWith | src/kd_tree/construction/mod.rs:105-123 | a rebuild keeps the contents plus the entry and restores order, or changes nothing; ties apart it gives a balanced tree, strict at every stem |
| MutableTree.MutableKdTree.SplitLeaf | src/kd_tree/construction/mod.rs:156-202 | the split outcome is stored as a pivot over the old and a new leaf, or the bucket is only rearranged |
| MutableTree.MutableKdTree.Remove | src/kd_tree/construction/mod.rs:265-274 | exactly the copies in the reached leaf go, and order is kept; every copy goes if and only if all were where the point leads, which holds for every entry of a findable tree and is kept |
| MutableTree.MutableKdTree.ReplaceItem | src/kd_tree/construction/mod.rs:288-300 | succeeds exactly when the reached leaf holds the entry, and then exchanges one item; findable trees stay so |
| MutableTree.MutableKdTree.Query | src/kd_tree/orchestrator/mod.rs:235-262 | an ordered tree answers the query asked like a scan of its contents listed in any order |
| MutableRuns.Run | src/kd_tree/construction/mod.rs:62-274 | a run of adds and removes keeps the invariant and goes through a trace of trees, each related to the next by what its operation does; the refusals are counted |
| MutableRuns.TraceAccounts | src/kd_tree/construction/mod.rs:62-274 | after every trace the tree holds the entries that the outcomes of its operations leave |
| MutableRuns.TraceIsCalm | src/kd_tree/construction/mod.rs:62-274 | if no more than half a bucket of what is offered shares a coordinate, nothing is refused and the tree stays ordered |
| MutableRuns.SmallBucketsKeepOrder | src/kd_tree/construction/mod.rs:62-300 | with buckets of at most six every run keeps an ordered tree ordered, whatever it offers |
| RunExactness.OrderKeptUpToSix | src/kd_tree/construction/mod.rs:62-300 | all runs from the empty tree leave it in order if and only if buckets hold at most six entries |
| RunExactness.RunsAreExactExactlyWhen | src/kd_tree/orchestrator/mod.rs:268-363 | every query asked after every run from the empty tree is answered rightly if and only if the metric is additive or there is a single axis, and buckets hold at most six entries |
| MutableRuns.TraceIsQuiet | src/kd_tree/construction/mod.rs:62-274 | if at no time two entries share a coordinate, nothing is refused, additions add and removals remove every copy, and the tree stays ordered, findable and within the sparse limit |
| MutableRuns.UntiedIsSpread | src/kd_tree/construction/mod.rs:62-274 | entries without ties are spread out enough for that |
| MutableRuns.AddThenRemove | src/kd_tree/construction/mod.rs:62-274 | removing undoes adding an entry that was not stored exactly if the entry is where its point leads in between, which it is unless a rebuild meets ties |
| BitMask.LowestBitIsFirstLane | ultimate_f64_avx2_nearest_one_generic_dist_kernel_k_macro.rs:166-176 | a lane mask is zero exactly when no lane is true, and its trailing zeros are its first true lane |
| BitMask.MergeConcatenates | ultimate_f64_avx512_nearest_one_generic_dist_kernel_k_macro.rs:170-186 | shifting and merging masks concatenates their lanes within 32 bits |
| BitMask.RoundDownIsMultiple | ultimate_f64_avx2_nearest_one_generic_dist_kernel_k_macro.rs:261-288 | masking off low bits gives the largest multiple of the chunk not above the length |
| LeafKernels.ScanOfConcat | ultimate_f64_avx2_nearest_one_generic_dist_kernel_k_macro.rs:413-446 | scanning one leaf and then another seeded with the result is scanning both |
| LeafKernels.ScanFindsLeftmost | ultimate_f64_avx2_nearest_one_generic_dist_kernel_k_macro.rs:413-446 | an improving scan ends at the leftmost minimum, a tie with the incoming best changes nothing |
| LeafKernels.ScanIsMinimum | ultimate_f64_avx2_nearest_one_generic_dist_kernel_k_macro.rs:413-446 | the distance after a scan is the least of the incoming and all scanned ones |
| LeafKernels.TreeMinIsMin | ultimate_f64_avx2_nearest_one_generic_dist_kernel_k_macro.rs:153-164 | the lane min-tree of four registers yields the minimum of all lanes |
| LeafKernels.MaskFindsLeftmost | ultimate_f64_avx2_nearest_one_generic_dist_kernel_k_macro.rs:161-176 | when a lane improves, the equality mask is not zero and its trailing zeros are the leftmost minimum |
| LeafKernels.UpdateBestChunk | ultimate_f64_avx2_nearest_one_generic_dist_kernel_k_macro.rs:135-177 | the chunk update is the scan of its lanes, for registers of 2, 4 and 8 lanes |
| LeafKernels.UpdateBestLine | ultimate_f64_avx2_nearest_one_generic_dist_kernel_k_macro.rs:181-235 | the line update is the scan of its lanes |
| LeafKernels.Chunks | ultimate_f64_avx2_nearest_one_generic_dist_kernel_k_macro.rs:261-288 | the chunk loop loads nothing past the end, stops less than a chunk before it and equals the scan so far |
| LeafKernels.Lines | ultimate_f64_avx2_nearest_one_generic_dist_kernel_k_macro.rs:290-308 | so does the line loop |
| LeafKernels.ScalarFallback | ultimate_f64_avx2_nearest_one_generic_dist_kernel_k_macro.rs:413-446 | the fallback loop is the scan of the leaf |
| LeafKernels.Avx2Kernel | ultimate_f64_avx2_nearest_one_generic_dist_kernel_k_macro.rs:238-347 | the four-phase AVX2 kernel returns what the fallback returns |
| LeafKernels.Avx512Kernel | ultimate_f64_avx512_nearest_one_generic_dist_kernel_k_macro.rs:260-370 | so does the four-phase AVX-512 kernel |
| LeafKernels.NeonKernel | ultimate_f64_neon_nearest_one_generic_dist_kernel_k_macro.rs:140-205 | so does the NEON kernel |
| LeafKernels.Avx512SqEucKernel | ultimate_f64_avx512_nearest_one_sq_euc_kernel_k_macro.rs:71-136 | so does the squared-Euclidean AVX-512 kernel |
| LeafKernels.Select | ultimate_f64_avx2_nearest_one_generic_dist_kernel_k_macro.rs:449-527 | whatever the backend and the number of axes, the selector returns what the fallback returns |
| LeafKernels.SqEucFallback | ultimate_f64_avx512_nearest_one_sq_euc_kernel_k_macro.rs:180-210 | the squared-Euclidean fallback, which accumulates from zero, is the same scan |
| KernelRefinement.KernelDistance | ultimate_f64_avx2_nearest_one_generic_dist_kernel_k_macro.rs:413-446 | accumulating from the first axis gives the metric's distance |
| KernelRefinement.KernelIsLeafVisit | ultimate_f64_avx2_nearest_one_generic_dist_kernel_k_macro.rs:238-347 | a kernel does to the running best what the leaf visit does to a nearest-one query |
| KMeans.ReassigningLowersCost | examples/fixed_point_result_widening.rs:86-94 | assigning every sample to a nearest centroid cannot raise the cost |
| KMeans.MeanMinimizes | examples/fixed_point_result_widening.rs:100-116 | no centre of a cluster costs less than the mean of its samples |
| KMeans.CostOfMove | examples/fixed_point_result_widening.rs:112-116 | moving one centroid changes the cost by the change in its own cluster |
| MetricLaws.PaletteDistance | examples/fixed_point_result_widening.rs:54-63 | the palette's distance of colours is the tree's squared Euclidean distance |
| KMeansPalette.Assign | examples/fixed_point_result_widening.rs:86-98 | the assignment loop reaches nearest centroids, reports a change exactly if there was one, and does not raise the cost |
| KMeansPalette.Recompute | examples/fixed_point_result_widening.rs:100-119 | non-empty clusters get their mean, empty ones stay, the cost does not rise and the byte range is kept |
| KMeansPalette.Lloyd | examples/fixed_point_result_widening.rs:79-120 | the loop goes through states related by its pass, starting from the seeds, at costs that never rise, and stops exactly when a pass changes nothing; without convergence the centroids are means; a stop after the first pass is a fixed point; a stop on the first pass is one exactly when the only used seed is the mean |
| KMeansPalette.SingleSeedIsNotMoved | examples/fixed_point_result_widening.rs:96-98 | with one centroid the loop stops at once although the seed is not the mean |
| KMeansPalette.Choose | examples/fixed_point_result_widening.rs:65-75 | the choice is the sample whose weight spends the threshold; its weight is positive exactly when some weight is positive and the draw or the first weight is |
| KMeansPalette.Seeds | examples/fixed_point_result_widening.rs:50-77 | each seed is drawn by squared distance to the nearest seed before it; with positive draws the seeds are pairwise distinct whenever there are enough distinct samples |
| KMeansPalette.MeanStaysInBox | examples/fixed_point_result_widening.rs:112-116 | means of samples in the byte range stay in it |
| KMeansPalette.ToByteIsRounding | examples/fixed_point_result_widening.rs:122-126 | in range the final cast does not saturate, moves a coordinate by at most a half, rounds a half up and keeps whole coordinates |
| KMeansPalette.ColoursOfBytes | examples/fixed_point_result_widening.rs:122-126 | centroids with byte coordinates come out as they are, channel by channel |
| KMeansPalette.Palette | examples/fixed_point_result_widening.rs:38-127 | red, green and blue of each colour are the rounded coordinates, in this order, of a centroid at the end of a run from drawn seeds, at no higher cost than the seeds, and at a fixed point if the loop stopped after its first pass |
| FuzzState.MetricState.Update | examples/fuzz-case-repro.rs:1311-1344 | one update extends the best, the within list and the heap by exactly one hit |
| FuzzState.HeapAfter | examples/fuzz-case-repro.rs:1326-1344 | the heap keeps a set of nearest hits, sorted, up to ties |
| FuzzState.TiesStay | examples/fuzz-case-repro.rs:1326-1344 | a full heap stays as it is exactly for hits that are not nearer than its farthest |
| FuzzState.BruteState | examples/fuzz-case-repro.rs:1361-1385 | after a scan the state answers for exactly the scanned distances |
| FuzzState.BestItemsAreAscending | examples/fuzz-case-repro.rs:1311-1318 | the best items are exactly the indices at the least distance, ascending |
| OracleMatching.SoundExactlyWhen | examples/fuzz-case-repro.rs:1106-1172 | for every reflexive relation, whatever is accepted falls into groups with the same items at distances that match the one leading the group, and nothing after them is nearer than the last distance, if and only if what lies between two matching distances matches the upper one |
| OracleMatching.AcceptsExactlyWhen | examples/fuzz-case-repro.rs:1106-1172 | where the relation is an equivalence with intervals for classes on the distances that occur, ascending lists are accepted exactly when they are as long, end at matching distances and have the same items at every nearer distance |
| OracleMatching.UnitsAreClosed | examples/fuzz-case-repro.rs:1078-1104 | matching within four units of a rank that grows with the distance is such a relation |
| OracleComparators.CompareNearestN | examples/fuzz-case-repro.rs:1106-1172 | the comparison ends for every reflexive relation and accepts exactly the lists that merge group by group, every list against itself among them; with exact matching it accepts ascending lists exactly when they agree |
| OracleComparators.NearestAnswersAgree | examples/fuzz-case-repro.rs:1106-1172 | two right answers agree whatever they pick among ties at the cutoff |
| OracleComparators.TreeAnswersAgree | examples/fuzz-case-repro.rs:1106-1172 | for a tree's answer to a nearest-n query without radius, in any order, its sorted hits agree with every list of the nearest of the same distances |
| OracleComparators.CheckNearestN | examples/fuzz-case-repro.rs:795-835 | the check of a nearest-n query from building the tree on: both lists are sorted lists of that many nearest of the points' distances, they agree, and the comparison accepts them |
| OracleComparators.CompareWithin | examples/fuzz-case-repro.rs:1198-1276 | accepts if and only if common items match and items in one list only lie on the radius, for any relation |
| ReproId.SplitOfJoin | examples/fuzz-case-repro.rs:88-97 | splitting at hyphens undoes joining |
| ReproId.MatchesOwnKey | examples/fuzz-case-repro.rs:98-123 | a segment matches its own key and no earlier one |
| ReproId.ParseOfWrite | examples/fuzz-case-repro.rs:88-154 | parsing undoes the documented form, whatever the order of the segments |
| ReproSpelling.ParseExactly | examples/fuzz-case-repro.rs:88-154 | every spelling (spaces around it, the optional prefix, segments in any order and case, the later of two counting) is read exactly as what its fields say, and refused when they say nothing |
| ReproSpelling.ParseUintExactly | examples/fuzz-case-repro.rs:179-189 | a number is read exactly from its decimal numerals, perhaps with zeros in front and a plus sign, if it fits into 64 bits |
| ReproSpelling.NumbersAreWords | examples/fuzz-case-repro.rs:179-189 | the bound on numbers is two to the sixty-fourth |
| ReproSpelling.StrategyByName | examples/fuzz-case-repro.rs:154-168 | each alias of a vectorised strategy, in any case, gets its own name, other names are lowered, and normalising twice is normalising once |
| ReproSpelling.OtherIdsAreRefused | examples/fuzz-case-repro.rs:88-124 | an identifier without the leading word, or with a segment of no known key, is refused |
| SplitMix.XorShiftInverts | benches/profile_v6_query_pool.rs:119-124 | an xor-shift can be undone |
| SplitMix.MulInverts | benches/profile_v6_query_pool.rs:119-124 | multiplying by an odd constant modulo 2^64 can be undone |
| SplitMix.SplitMixIsBijective | benches/profile_v6_query_pool.rs:119-124 | the mixer has a two-sided inverse on 64-bit words |
| SplitMix.QueryWordsDiffer | benches/profile_v6_query_pool.rs:126-130 | different query and dimension pairs get different words |
| SplitMixStream.WordsFollowStream | benches/profile_v6_query_pool.rs:127-130 | the words of consecutive counters are the consecutive outputs of one generator |
| SplitMixStream.KnownOutputs | benches/profile_v6_query_pool.rs:118-124 | seeded with 1234567, the first two outputs are the published ones of splitmix64 |
| Changelog.CleanOfNewBody | scripts/update_release_intro.py:21-30 | cleaning a freshly written section gives back what cleaning the section it was written over gives, whatever blocks that held |
| Changelog.SubOfMarked | scripts/update_release_intro.py:12-23 | substituting the blocks of a well-marked section leaves no start marker, no new heading and a line end |
| Changelog.NewBodyIsMarked | scripts/update_release_intro.py:26-53 | what an update writes is well marked again |
| Changelog.LastWriteWins | scripts/update_release_intro.py:33-53 | updating twice is updating once with the second intro, and the text up to the release heading and from the next heading on is unchanged |
| Changelog.RunIsLastUpdate | scripts/update_release_intro.py:33-53 | any run of updates leaves what its last update alone would, and the text around the release section |
| ChangelogWritten.UpdateWritesIntro | scripts/update_release_intro.py:32-57 | after an update the release section holds exactly one block, after one newline, with the right-stripped intro between its markers, and then what the section held besides blocks; a blank intro leaves no block; the text around stays |
| ChangelogWritten.RStripTakesSpaces | scripts/update_release_intro.py:26 | right-stripping takes off the spaces at the end and nothing else |
| ChangelogWritten.SubTakesOut | scripts/update_release_intro.py:20-22 | on a well-marked section the substitution takes out block after block, each with its lines |
| ChangelogWritten.ReleaseIsFound | scripts/update_release_intro.py:16-36 | the first line that opens with a version in brackets is the heading found |
| ChangelogWritten.ReleaseExactlyWhen | scripts/update_release_intro.py:16 | a release heading is a line with a non-empty version in brackets, and nothing else is |
| Prefault.Prefault | benches/profile_v6_archived_huge_pages.rs:235-251 | the offsets read, one volatile read each and in this order, are exactly the touched ones, the checksum is that of their bytes, and the loop ends although the step saturates |
| Prefault.EveryPageTouched | benches/profile_v6_archived_huge_pages.rs:235-251 | the touched offsets hit every page the slice overlaps and nothing outside it, whatever the alignment, length and page size |

## Left out

- Rounding, fused multiply-add, NaN and signed zero: arithmetic is exact.
- Unsigned and saturating distance types, where subtracting a stale offset could wrap around.
- 32-bit stem indices and the 64-entry inline stacks: indices and stacks are unbounded.
- The Donnelly and block-at-once stem layouts, their vectorised traversals, batch and periodic queries, and the best-n queries.
- The other leaf strategies (flat, arena, archived forms), item summaries, and serialization.
- Parallel construction and the optional leaf sorter of a build.
- The heap and sorted result collections: `AddHit` models the threshold collection, the default one for nearest n.
- MirrorSelect.Select: the order in which the block-wise partition leaves the rows within each of its two sides is not followed (`BlockPartition.PartitionInBlocks` states its contract); where there is nothing between the first pair out of order the result is determined.
- BlockPartition.PartitionInBlocks: the offset buffers are sequences of what is still pending; the second pair of buffers, which mirrors the first, is left out.
- StrictSplits.StrictWithoutRisk: which buckets of more than six split out of order is settled for each size, not for each bucket: the condition is sufficient only.
- MutableTree.MutableKdTree.Add: order of the tree is promised only when the bucket is not at risk, which it never is with at most six entries; RunExactness.OrderKeptUpToSix shows that above six it can be lost.
- MutableTree.MutableKdTree.Add: buckets hold at least two entries; with one the split would look before the start of the bucket.
- MutableTree.MutableKdTree.Remove: a copy left of a pivot it equals is not removed; Routing.FoundExactlyWhenStrict says when there is none, StraddlingTie.StraddlerStays shows one.
- MutableConstruction.NewFromEntries: strictness is promised for entries without ties, because the standard selection may leave an equal value on the left; Construction.UpdatePivot promises different values only where the two sides meet.
- MutableTree.MutableKdTree.BecomeStem: leaves are sequences, so columns per axis and the permutation mirrored onto them are one rearrangement of entries.
- MappedQuery.Answer: Chebyshev on more than one axis is excluded, because it is false there; StaleOffsets.ExactExactlyWhen gives both directions.
- LeafKernels.Avx2Kernel: registers are sequences of lanes; prefetching, pointers and target features are not modelled.
- BitMask.RoundDown: words are numbers with explicit truncation, not bit-vectors.
- KMeansPalette.Seeds: draws are inputs; with a draw of exactly zero the first sample is chosen whatever its weight, as KMeansPalette.Choose states.
- KMeans.Nearest: the tree lookup is an exact nearest contract with free choice among ties.
- FuzzState.MetricState.Update: the binary heap is a list sorted by distance.
- OracleComparators.CompareNearestN: bit patterns of floats are not modelled; the four units in the last place are four units of any rank that grows with the distance (OracleMatching.UnitsAreClosed).
- OracleComparators.CheckNearestN: distances match exactly; OracleMatching.SoundExactlyWhen and OracleMatching.AcceptsExactlyWhen say what other relations accept.
- ReproId.Parse: errors carry no message.
- Changelog.LastWriteWins: every start marker in the release section must begin a line and open a block whose end marker ends its line, and the first intro must hold no end marker and no second-level heading.
- SplitMix.QueryWord: the conversion of words to floats drops low bits and is left out.
- Prefault.Prefault: the page size is a parameter, not a system call.
- Benchmark drivers, charts, site scripts, memory mapping and huge-page advice.
