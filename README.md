# Verified model of the selection kernels of ParallelProgrammingProject

The repository computes the k-th smallest element (0-based) of a large
integer array in three ways:

- a serial kernel (`src/utils.c`): `serial_partition` (three-way partition
  through a temporary buffer), `serial_select` (randomised quickselect
  with a Dutch-flag partition), `insertion_sort5` and the median-of-medians
  pivot `mom_pivot`, with `verify_kth_smallest` as the reference answer;
- a shared-memory driver (`src/momselect_omp.c`): `parallel_partition`
  splits the range into one chunk per OpenMP thread, counts per chunk,
  turns the counts into write offsets by prefix sums, scatters the `<` and
  `=` elements chunk by chunk and the `>` elements in one final pass, and
  `parallel_momselect_omp` narrows `[left, right]` around median-of-medians
  pivots until at most 20000 elements remain;
- a distributed driver (`src/quickselect_mpi.c`): every MPI rank holds a
  segment, a random pivot is agreed on, every rank runs `local_compact`,
  the counts are summed over the group, and every rank keeps its less or
  greater zone until at most 50000 elements remain, which are gathered at
  rank 0 and finished with `serial_select`; `main` hands out the array in
  near-equal blocks.

The Dafny model has five modules, one per file:

- `OrderStatistics` (`order_statistics.dfy`) holds the reference definitions.
  `SortSeq` is a sorted permutation (qsort's result). `KthSmallest(s, k)`
  is `SortSeq(s)[k]`. `Pick` is the stable filter of one zone (`< p`,
  `= p`, `> p`), and `ThreeWay` is the `[<p][=p][>p]` layout. It also
  proves the rank characterisation: `KthSmallest(s, k) == v` exactly when
  `CountLess(s, v) <= k < CountAtMost(s, v)`.
- `PrefixSums` (`prefix_sums.dfy`) holds sums of counts and the offset
  ranges they induce.
- `SerialKernel` (`serial_kernel.dfy`) models `src/utils.c`.
- `SharedMemory` (`shared_memory.dfy`) models `src/momselect_omp.c`. Each
  `omp parallel` region is a loop over the thread ids.
- `Distributed` (`distributed.dfy`) models `src/quickselect_mpi.c`. The
  group is a sequence of segments in rank order, and each collective is
  replaced by what it computes. `MPI_Allreduce` becomes a `Sum`, and
  `MPI_Gather(v)` and `MPI_Scatterv` become concatenation and slicing in
  rank order.

A C slice `a + left` of `n` elements is an `array<int>` with an offset and
a length. Every in-place operation states its result on the slice, says
that the rest of the array is unchanged (`SameOutside`), and states that
the slice is a permutation where the source only reorders. `rand()` is an
arbitrary choice (`:|`), and every result holds for every choice.

Two behaviours of the code matter for the model:

- Each rank's round partitions its segment into a fresh buffer
  (`local_compact`); it does not call `serial_partition` in place.
- The code does not exclude an empty rank's placeholder pivot `0` (see
  Findings).

## Model

| member | source | states |
|---|---|---|
| SerialKernel.VerifyKthSmallest | src/utils.c:27-36 | accepts exactly when k is in range and the candidate's rank interval in a contains k, i.e. when it equals the sorted array at k; an accepted candidate occurs in a |
| OrderStatistics.SortSeqSorted | src/utils.c:32 | the stand-in for qsort is sorted and a permutation of its input |
| OrderStatistics.SortedUnique | src/utils.c:32 | any sorted permutation of s is SortSeq(s), so the reference answer does not depend on the sort used |
| OrderStatistics.KthRank | src/utils.c:32-33 | the element at index k of the sorted array is v exactly when fewer than k+1 elements are below v and more than k are at most v |
| OrderStatistics.KthMember | src/utils.c:32-33 | the k-th smallest element occurs in the array |
| OrderStatistics.ThreeWay | src/utils.c:49-52 | the three-zone layout is a permutation of its input with every element of the first CountLess positions below p, the next CountEqual equal to p, the rest above p |
| OrderStatistics.KthOfZones | src/utils.c:99-105 | for any permutation of less/equal/greater zones around p, the k-th smallest is the k-th of the less zone, or p, or the (k - less - equal)-th of the greater zone, according to where k falls |
| OrderStatistics.Narrow | src/utils.c:99-102 | narrowing to the zone that holds rank j keeps the rank of the answer inside it and keeps everything left of the window at most, and everything right at least, the window's elements |
| OrderStatistics.Pick | src/utils.c:62-68 | a stable zone filter keeps only elements of that zone and is no longer than its input |
| OrderStatistics.Median | src/utils.c:128 | the element at n / 2 of the sorted group is one of its elements |
| OrderStatistics.PickConcat | src/momselect_omp.c:57-63 | a stable zone filter of a concatenation is the concatenation of the filters, which is why per-chunk and per-rank scatters compose |
| SerialKernel.SerialPartition | src/utils.c:53-75 | returns n; the slice becomes ThreeWay of its old contents; n_less and n_equal are the counts of elements below and equal to the pivot; nothing outside the slice changes |
| SerialKernel.CountZones | src/utils.c:55-60 | the counting loop yields the numbers of elements below, equal to and above the pivot, which add up to n |
| SerialKernel.ScatterZones | src/utils.c:62-68 | the scatter loop fills a fresh buffer of length n with exactly ThreeWay(a, pivot) |
| SerialKernel.ScatterDone | src/utils.c:63-68 | once all n elements have gone through the three cursors, the buffer is exactly the three-zone layout of the input |
| SerialKernel.ScatterOne | src/utils.c:63-67 | one scatter step sends the element to the cursor of its zone and keeps the scattered prefix equal to the stable zone filters of the input read so far |
| SerialKernel.SerialSelect | src/utils.c:78-107 | returns the k-th smallest element of the original slice, for any sequence of random pivot indices; the slice is permuted and nothing outside it changes |
| SerialKernel.SelectLoop | src/utils.c:79-106 | for any value v of rank k in the slice, the loop returns v |
| SerialKernel.SelectRound | src/utils.c:83-105 | one round either returns a pivot equal to the answer or narrows [left, right] strictly while keeping the answer's rank inside it |
| SerialKernel.DutchFlagPartition | src/utils.c:86-97 | the three-cursor loop leaves [left, lt) below, [lt, gt] equal to and (gt, right] above the pivot, permutes the range and touches nothing else |
| SerialKernel.FlagStepBelow | src/utils.c:88-90 | swapping a smaller element to lt and advancing lt and i keeps the flag invariant |
| SerialKernel.FlagStepAbove | src/utils.c:91-93 | swapping a larger element to gt and retreating gt keeps the flag invariant |
| SerialKernel.FlagPivotZone | src/utils.c:83-97 | since the pivot is taken from the range, the equal zone is never empty (lt <= gt), so every round that does not return shrinks the range |
| SerialKernel.RoundBelow | src/utils.c:99-100 | when k < lt, the answer lies in [left, lt - 1] with its rank unchanged |
| SerialKernel.RoundAbove | src/utils.c:101-102 | when k > gt, the answer lies in [gt + 1, right] with its rank unchanged |
| SerialKernel.RoundAt | src/utils.c:103-104 | when lt <= k <= gt, the pivot is the answer |
| SerialKernel.SelectDone | src/utils.c:81 | when left == right, a[left] is the answer |
| SerialKernel.InsertionSort5 | src/utils.c:111-121 | a[start..start+len] ends sorted and a permutation of its old contents; nothing else changes |
| SerialKernel.InsertOne | src/utils.c:113-119 | inserting a[i] by shifting larger elements right extends the sorted prefix by one, as a permutation |
| SerialKernel.InsertStepSorted | src/utils.c:115-119 | placing key after the last element not greater than it keeps the run sorted |
| SerialKernel.GroupCount | src/utils.c:131 | (n + 4) / 5 groups of five cover n elements with the last one non-empty, and are fewer than n when n > 5 |
| SerialKernel.Group | src/utils.c:133-134 | group g has 1 to 5 elements, all drawn from the array |
| SerialKernel.MedianOfMediansMember | src/utils.c:125-142 | the median-of-medians pivot is an element of the array |
| SerialKernel.MomPivot | src/utils.c:125-142 | returns MedianOfMedians of the old slice: the median of a sorted small group, or the recursive pivot of the group medians; the slice is permuted and nothing outside it changes |
| SerialKernel.SmallMedian | src/utils.c:126-129 | for n <= 5 the slice ends sorted and the element at n/2 is returned |
| SerialKernel.MediansToFront | src/utils.c:131-140 | after the group loop, a[0..num_groups) holds the medians of the groups of the original slice in order, and the slice is a permutation of the original |
| SerialKernel.GroupMedianToFront | src/utils.c:133-139 | step g leaves group g sorted as a permutation of itself, then exchanges its middle element (offset len / 2) with position g |
| SerialKernel.GroupMedians | src/utils.c:131-140 | there is one median per group of five, (n + 4) / 5 in all |
| SerialKernel.Swap | src/utils.c:88-93 | exchanges two positions and changes nothing else, so the array stays a permutation |
| SerialKernel.GroupStepMedians | src/utils.c:136-139 | after step g, positions 0..g hold the medians of groups 0..g |
| SerialKernel.GroupStepUntouched | src/utils.c:132-140 | step g leaves the groups after g as they were in the original slice |
| SharedMemory.ChunkStart | src/momselect_omp.c:20-21 | thread tid's chunk starts at (n * tid) / T, inside [0, n] |
| SharedMemory.ChunkOrder | src/momselect_omp.c:20-21 | chunk starts are monotone in tid, the first is 0 and the one after the last is n |
| SharedMemory.ChunkOf | src/momselect_omp.c:19-23 | every index of [0, n) lies in the chunk of exactly one thread |
| SharedMemory.ChunkTotal | src/momselect_omp.c:31-35 | the per-thread counts of a zone add up to the count of that zone in the whole range |
| SharedMemory.ChunkOffset | src/momselect_omp.c:39-44 | the prefix sum of the counts of threads before tid counts that zone in the part of the range before tid's chunk |
| SharedMemory.ThreadWriteRanges | src/momselect_omp.c:54-63 | the write ranges of two threads t < u in one zone are disjoint and ordered, and all lie inside that zone |
| PrefixSums.OffsetRanges | src/momselect_omp.c:41-44 | exclusive prefix sums of non-negative counts give ordered, pairwise disjoint ranges inside [0, total) |
| SharedMemory.CountChunk | src/momselect_omp.c:22-26 | one thread's loop counts the elements of its chunk below and equal to the pivot |
| SharedMemory.CountChunks | src/momselect_omp.c:17-29 | less_counts[tid] and equal_counts[tid] are the counts of thread tid's chunk |
| SharedMemory.Totals | src/momselect_omp.c:31-35 | total_less and total_equal are the sums of the per-thread counts |
| SharedMemory.Offsets | src/momselect_omp.c:37-44 | less_offset[i] and equal_offset[i] are the sums of the counts of the threads before i |
| SharedMemory.OffsetsMeaning | src/momselect_omp.c:39-44 | each offset is the number of elements of that zone in the part of the range before the thread's chunk |
| SharedMemory.CountAndOffsets | src/momselect_omp.c:14-44 | the totals are the zone counts of the range and the offsets count the zones before each chunk |
| SharedMemory.ScatterRange | src/momselect_omp.c:57-63 | one thread's scatter appends its chunk's `<` and `=` elements at its two cursors and writes nowhere else |
| SharedMemory.ScatterLowOne | src/momselect_omp.c:58-62 | an element below the pivot is written at the less cursor, one equal to it at the equal cursor, one above it is skipped; nothing else is written |
| SharedMemory.ScatterChunk | src/momselect_omp.c:50-63 | thread tid extends the scattered `<` and `=` zones by its chunk, writing only inside its own two write ranges |
| SharedMemory.ScatterLowChunks | src/momselect_omp.c:48-64 | after all threads, the buffer's first total_less positions are the `<` elements and the next total_equal the `=` elements, each in original order |
| SharedMemory.AboveDone | src/momselect_omp.c:66-72 | when the `>` pass ends, its cursor has reached n and the buffer is the three-zone layout |
| SharedMemory.ScatterAbovePass | src/momselect_omp.c:66-72 | the final serial pass completes the buffer to ThreeWay(a, pivot) |
| SharedMemory.PartitionIntoBuffer | src/momselect_omp.c:14-72 | the chunked count/offset/scatter pipeline yields ThreeWay(a, pivot) and the two zone counts |
| SharedMemory.ParallelPartition | src/momselect_omp.c:7-85 | same contract as serial_partition, on both the fallback path (n < 10000 or num_threads <= 1) and the chunked path, whatever the thread count |
| SharedMemory.ParallelMomSelect | src/momselect_omp.c:88-117 | returns the k-th smallest element of a[0..n), whatever the thread count; a[0..n) is permuted |
| SharedMemory.MomSelectLoop | src/momselect_omp.c:92-116 | for any value v of rank k, the loop returns v, keeping the answer's rank inside [left, right] |
| SharedMemory.SerialFinish | src/momselect_omp.c:93-96 | with at most 20000 active elements, serial_select on a + left with k - left returns the answer |
| SharedMemory.MomRound | src/momselect_omp.c:98-115 | one median-of-medians round returns the answer or narrows [left, right] strictly, keeping the answer inside |
| SharedMemory.RoundSetup | src/momselect_omp.c:99-107 | after mom_pivot and the partition, the range is a permutation, the pivot occurs in it and the zones start at left, equal_start and greater_start |
| Distributed.GlobalCount | src/quickselect_mpi.c:43-44 | global_n, the sum of all local lengths, is the size of the concatenated dataset |
| Distributed.FlattenLength | src/quickselect_mpi.c:43-44 | the concatenated dataset has as many elements as the sum of the local lengths |
| Distributed.FlattenMember | src/quickselect_mpi.c:91-92 | an element of any rank's segment is an element of the whole dataset |
| Distributed.FlattenPick | src/quickselect_mpi.c:117-146 | keeping zone z on every rank and concatenating gives zone z of the whole dataset |
| Distributed.LocalCompact | src/quickselect_mpi.c:6-30 | the fresh buffer is ThreeWay(a, pivot), new_n = n, local_less and local_equal are the zone counts |
| Distributed.CompactAll | src/quickselect_mpi.c:108-111 | every rank's buffer is its three-zone layout with its own counts |
| Distributed.CountTotals | src/quickselect_mpi.c:113-115 | the summed local counts are the counts of the whole dataset |
| Distributed.KeepLess | src/quickselect_mpi.c:120-127 | after the less branch, every rank holds exactly its own `< pivot` elements |
| Distributed.CopyRange | src/quickselect_mpi.c:122-123 | the new local buffer holds exactly buf[from .. from + count] |
| Distributed.KeepLessLocal | src/quickselect_mpi.c:122-123 | copying the first local_less elements gives the rank's `< pivot` elements |
| Distributed.KeepGreater | src/quickselect_mpi.c:133-146 | after the greater branch, every rank holds exactly its own `> pivot` elements |
| Distributed.KeepGreaterLocal | src/quickselect_mpi.c:136-140 | copying local_gt elements from local_less + local_equal gives the rank's `> pivot` elements |
| Distributed.Round | src/quickselect_mpi.c:108-146 | the round's outcome, computed from per-rank counts and sums, is NextRound: keep the less zones with k unchanged, return the pivot, or keep the greater zones with k reduced by equal_end and global_n by global_less + global_equal |
| Distributed.RoundPreservesAnswer | src/quickselect_mpi.c:117-146 | for any pivot value, including the sentinel 0: a returned pivot is the k-th smallest, and a narrowed dataset keeps global_n equal to its size, 0 <= k < global_n and the same answer |
| Distributed.RoundProgress | src/quickselect_mpi.c:117-146 | with a pivot drawn from the data, every round that does not return strictly shrinks global_n |
| Distributed.SentinelStalls | src/quickselect_mpi.c:90-93 | a pivot below every element, like the sentinel 0 over positive data, leaves segments, global_n and k unchanged |
| Distributed.SentinelStallExample | src/quickselect_mpi.c:90-106 | with segments [1 x 50001] and [], the empty rank proposes 0, global_n exceeds the threshold and the round on 0 changes nothing |
| Distributed.ChoosePivotAsWritten | src/quickselect_mpi.c:89-106 | the agreed pivot is some rank's proposal: an element of its segment, or 0 when the segment is empty |
| Distributed.ChoosePivot | src/quickselect_mpi.c:89-106 | with only non-empty ranks proposing, the agreed pivot is an element of the dataset |
| Distributed.Displacements | src/quickselect_mpi.c:62-67 | displs[i] is the sum of recvcounts before i and total is their sum |
| Distributed.PrefixLength | src/quickselect_mpi.c:62-73 | the sum of the lengths before rank i is where rank i's segment starts in the concatenation |
| Distributed.CopyInto | src/quickselect_mpi.c:71-73 | a segment is placed at its displacement and everything before it is left alone |
| Distributed.Gatherv | src/quickselect_mpi.c:71-73 | placing each segment at its displacement assembles the concatenation of all segments in rank order |
| Distributed.GatherAndSelect | src/quickselect_mpi.c:47-87 | the small case returns the k-th smallest element of the whole dataset |
| Distributed.QuickselectAsWritten | src/quickselect_mpi.c:33-148 | any answer is the k-th smallest of the whole dataset; a dataset of at most 50000 elements is always answered |
| Distributed.ParallelQuickselect | src/quickselect_mpi.c:33-148 | with the sentinel excluded, the loop terminates and returns the k-th smallest of the whole dataset |
| Distributed.BlockTotal | src/quickselect_mpi.c:167-184 | the block sizes n / size (+1 for the first n % size ranks) add up to n |
| Distributed.BlockBalanced | src/quickselect_mpi.c:167-169 | block sizes are non-negative, never grow with the rank and differ by at most one |
| Distributed.BlockPrefix | src/quickselect_mpi.c:179-184 | the running offset before rank m is m * base + min(m, rem) |
| Distributed.BlockEnds | src/quickselect_mpi.c:167-168 | the first block starts at 0 and the blocks end exactly at n |
| Distributed.BlockMonotone | src/quickselect_mpi.c:179-184 | block starts are non-negative and grow with the rank |
| Distributed.BlockLoop | src/quickselect_mpi.c:177-184 | the loop fills sendcounts with the block sizes and displs with their running offsets |
| Distributed.BlockDistribution | src/quickselect_mpi.c:167-184 | sendcounts are the block sizes and displs[i] is the sum of sendcounts before i |
| Distributed.ScatterPrefix | src/quickselect_mpi.c:186-196 | the blocks of ranks 0 .. m - 1, concatenated, are the prefix of the array up to rank m's start |
| Distributed.ScatterFlatten | src/quickselect_mpi.c:186-196 | the blocks that MPI_Scatterv hands out, concatenated in rank order, are the original array |
| Distributed.ScatterBlock | src/quickselect_mpi.c:180-188 | rank i receives global_a[displs[i] .. displs[i] + sendcounts[i]], which lies inside the array |
| Distributed.ScatterSegments | src/quickselect_mpi.c:167-197 | the segments the ranks receive are the blocks of the array in rank order, one per rank, and concatenate back to the array |
| Distributed.DistributedSelect | src/quickselect_mpi.c:163-203 | main as written, whatever the number of ranks: any answer is the k-th smallest element of the whole array, and an array of at most 50000 elements is always answered |
| Distributed.DistributedSelectCorrected | src/quickselect_mpi.c:163-203 | main with the corrected pivot agreement (only ranks holding data propose) always returns the k-th smallest element of the whole array |

## Left out

- Argument parsing, printing, timing (`elapsed_seconds`), data generation (`fill_random_array`), `copy_array` and both `main` functions are I/O. Of `main` in `src/quickselect_mpi.c`, only the block distribution and the scatter are modelled.
- `rand()`/`srand()` are arbitrary choices in range, so the model does not fix the randomness. Expected running times are not modelled.
- OpenMP thread teams and MPI collectives are not modelled as concurrent execution. Each parallel region is a loop over thread ids, and each collective is the value it computes. Race-freedom is stated as disjoint write ranges (`ThreadWriteRanges`, `ScatterChunk`'s footprint). It is not proved over interleavings. Deadlock and lock-step behaviour are outside the model.
- `malloc`/`calloc`/`free` and allocation failures are left out. Buffers are always available and fresh.
- `qsort` in `verify_kth_smallest` is replaced by the specification function `SortSeq`.
- `elem_t` values are unbounded integers. The kernels only compare them, so no value arithmetic is lost.
- SharedMemory.ChunkStart: computes `(n * tid) / T` on unbounded integers, so the 32-bit overflow of `n * tid` for very large n is not modelled.
- Distributed.GlobalCount: the `MPI_Allreduce` calls at `src/quickselect_mpi.c:44` and `114-115` sum `int` objects (`n_local`, `local_less`, `local_equal`) declared as `MPI_LONG_LONG`. They read and write 8 bytes of 4-byte objects, which is undefined behaviour in the source. Memory layout is outside the model, so that behaviour cannot be modelled, and the model sums the local counts exactly, as intended.
- SharedMemory.ParallelPartition: the chunked path assumes the OpenMP team really has `num_threads` threads (`src/momselect_omp.c:17-21`, `48-52`). If the runtime grants fewer, the chunks of the missing thread ids are never counted or scattered. The model runs every tid in `[0, num_threads)` and does not capture that loss.
- Distributed.DistributedSelect: it inherits the bounded `rounds` budget of `QuickselectAsWritten`. `Distributed.DistributedSelectCorrected` is `main` with the fixed pivot agreement, not `main` as written.
- Distributed.QuickselectAsWritten: the `while (1)` loop need not terminate when the sentinel pivot is drawn repeatedly, so the model runs at most `rounds` rounds and returns `None` when they run out. Only partial correctness is stated.
- SerialKernel.MomPivot: no balance bound is stated, because the usual one (about 30% of the elements, at least ceil(n/10), on each side) does not hold for the recursion in `src/utils.c:141`. That line takes `mom_pivot` of the group medians, not their exact median. For n = 5^d an adversarial layout leaves only 3^d elements at or below the pivot, e.g. 243 < 313 for n = 3125. Only the pivot's value and membership are stated.
- The drivers do not check k against [0, n). The model requires `0 <= k < n` and `n >= 1`, as does `mom_pivot`, which reads `a[0]` when `n = 0`.

## Findings

| source | as written | input that shows it | evidently intended | confidence | as-written member | corrected member |
|---|---|---|---|---|---|---|
| src/quickselect_mpi.c:90-106 | a rank with an empty segment proposes the sentinel `0`, and the root may choose it as the round's pivot | two ranks holding 50001 copies of `1` and nothing, k = 0, the root's draw picks rank 1's proposal: the round keeps every segment, global_n and k unchanged, and the next round can repeat it | the sentinel is never the agreed pivot, so the pivot occurs in the data and every round that does not answer strictly shrinks global_n | medium (not executed; the stall needs the random draw to land on an empty rank, which repeats only with diminishing probability) | Distributed.SentinelStalls | Distributed.ChoosePivot |
