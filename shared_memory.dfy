/**
 * The shared-memory path of src/momselect_omp.c: the chunked partition
 * parallel_partition and the median-of-medians driver
 * parallel_momselect_omp.
 *
 * Each `omp parallel` region of parallel_partition is modelled as a loop
 * over the thread ids 0, 1, ..., T - 1, run one after another. Thread tid
 * reads only its chunk [n * tid / T, n * (tid + 1) / T) and writes only
 * into its own ranges of the buffer. Those ranges are disjoint (ChunkOf,
 * ThreadWriteRanges, and the footprint clause of ScatterChunk), so the
 * sequential loop leaves the buffer that any interleaving of the threads
 * leaves.
 */
module SharedMemory {
  import opened OrderStatistics
  import opened PrefixSums
  import opened SerialKernel

  /* ---------------------------------------------------------------------- */
  /* Chunks of the iteration space                                           */
  /* ---------------------------------------------------------------------- */

  /**
   * First index of thread tid's chunk when n elements are split among T
   * threads: (n * tid) / T. All operands are non-negative, so C's
   * truncating division and Dafny's agree. Thread tid's chunk ends where
   * the chunk of tid + 1 starts.
   */
  function ChunkStart(n: int, T: int, tid: int): (c: int)
    requires 0 <= n && 1 <= T && 0 <= tid <= T
    ensures 0 <= c <= n
  {
    MulMonotone(n, tid, T);
    DivMonotone(n * tid, n * T, T);
    MulDivCancel(n, T);
    n * tid / T
  }

  /** Multiplying by d and then dividing by d gives the number back. */
  lemma MulDivCancel(x: int, d: int)
    requires 1 <= d
    ensures (x * d) / d == x
  {
    var q, r := (x * d) / d, (x * d) % d;
    assert x * d == d * q + r && 0 <= r < d;
    if q < x {
      MulMonotone(d, q + 1, x);
      assert false;
    } else if q > x {
      MulMonotone(d, x + 1, q);
      assert false;
    }
  }

  /** Division by a positive number keeps the order. */
  lemma DivMonotone(x: int, y: int, d: int)
    requires 0 <= x <= y && 1 <= d
    ensures 0 <= x / d <= y / d
  {
    var qx, qy := x / d, y / d;
    if qx > qy {
      MulMonotone(d, qy + 1, qx);
      assert false;
    }
  }

  /** Multiplying by a non-negative number keeps the order. */
  lemma MulMonotone(d: int, x: int, y: int)
    requires 0 <= d && x <= y
    ensures d * x <= d * y
  {
    var e := y - x;
    assert d * y == d * x + d * e;
  }

  /**
   * The chunk boundaries start at 0, end at n and never decrease: the
   * chunks [ChunkStart(tid), ChunkStart(tid + 1)) are in thread order and
   * the chunks of two threads t < u do not overlap.
   */
  lemma ChunkOrder(n: int, T: int, t: int, u: int)
    requires 0 <= n && 1 <= T && 0 <= t <= u <= T
    ensures ChunkStart(n, T, 0) == 0 && ChunkStart(n, T, T) == n
    ensures ChunkStart(n, T, t) <= ChunkStart(n, T, u)
  {
    MulDivCancel(n, T);
    assert n * 0 == 0;
    MulMonotone(n, t, u);
    DivMonotone(n * t, n * u, T);
  }

  /**
   * Coverage: every index i of [0, n) lies in the chunk of exactly one
   * thread.
   */
  lemma ChunkOf(n: int, T: int, i: int) returns (tid: int)
    requires 0 <= i < n && 1 <= T
    ensures 0 <= tid < T && ChunkStart(n, T, tid) <= i < ChunkStart(n, T, tid + 1)
    ensures forall u :: 0 <= u < T && ChunkStart(n, T, u) <= i < ChunkStart(n, T, u + 1) ==> u == tid
  {
    ChunkOrder(n, T, 0, 0);
    tid := ChunkFrom(n, T, i, 0);
    forall u | 0 <= u < T && ChunkStart(n, T, u) <= i < ChunkStart(n, T, u + 1)
      ensures u == tid
    {
      if u < tid {
        ChunkOrder(n, T, u + 1, tid);
      } else if tid < u {
        ChunkOrder(n, T, tid + 1, u);
      }
    }
  }

  /** The chunk that holds i, searched for from thread t on. */
  lemma {:induction false} ChunkFrom(n: int, T: int, i: int, t: int) returns (tid: int)
    requires 0 <= i < n && 1 <= T && 0 <= t < T && ChunkStart(n, T, t) <= i
    ensures t <= tid < T && ChunkStart(n, T, tid) <= i < ChunkStart(n, T, tid + 1)
    decreases T - t
  {
    if i < ChunkStart(n, T, t + 1) {
      tid := t;
    } else {
      ChunkOrder(n, T, t + 1, T);
      tid := ChunkFrom(n, T, i, t + 1);
    }
  }

  /** Thread tid's chunk of s. */
  function Chunk(s: seq<int>, T: int, tid: int): seq<int>
    requires 1 <= T && 0 <= tid < T
  {
    ChunkOrder(|s|, T, tid, tid + 1);
    s[ChunkStart(|s|, T, tid)..ChunkStart(|s|, T, tid + 1)]
  }

  /** The first tid + 1 chunks are the first tid chunks followed by chunk tid. */
  lemma ChunkPrefix(s: seq<int>, T: int, tid: int)
    requires 1 <= T && 0 <= tid < T
    ensures s[..ChunkStart(|s|, T, tid + 1)] == s[..ChunkStart(|s|, T, tid)] + Chunk(s, T, tid)
  {
    ChunkOrder(|s|, T, tid, tid + 1);
  }

  /* ---------------------------------------------------------------------- */
  /* Per-thread counts and their prefix sums                                 */
  /* ---------------------------------------------------------------------- */

  /**
   * The per-thread sizes of zone z for the first m threads: what the first
   * parallel region stores in less_counts (z = Below) or equal_counts
   * (z = At).
   */
  function ChunkCounts(s: seq<int>, T: int, p: int, z: Zone, m: int): (c: seq<int>)
    requires 1 <= T && 0 <= m <= T
    ensures |c| == m && NonNegative(c)
  {
    if m == 0 then [] else ChunkCounts(s, T, p, z, m - 1) + [|Pick(Chunk(s, T, m - 1), p, z)|]
  }

  /**
   * The counts of the first m threads add up to the size of zone z in the
   * part of s that those threads cover.
   */
  lemma {:induction false} ChunkCountsSum(s: seq<int>, T: int, p: int, z: Zone, m: int)
    requires 1 <= T && 0 <= m <= T
    ensures Sum(ChunkCounts(s, T, p, z, m)) == |Pick(s[..ChunkStart(|s|, T, m)], p, z)|
  {
    if m == 0 {
      ChunkOrder(|s|, T, 0, 0);
      assert s[..ChunkStart(|s|, T, 0)] == [];
    } else {
      var c, c' := ChunkCounts(s, T, p, z, m), ChunkCounts(s, T, p, z, m - 1);
      var x := |Pick(Chunk(s, T, m - 1), p, z)|;
      assert c[..m - 1] == c' && c[m - 1] == x;
      assert Sum(c) == Sum(c') + x;
      ChunkCountsSum(s, T, p, z, m - 1);
      ChunkPrefix(s, T, m - 1);
      PickConcat(s[..ChunkStart(|s|, T, m - 1)], Chunk(s, T, m - 1), p, z);
    }
  }

  /** The counts of all threads are extensions of the counts of the first m. */
  lemma {:induction false} ChunkCountsPrefix(s: seq<int>, T: int, p: int, z: Zone, m: int, m': int)
    requires 1 <= T && 0 <= m <= m' <= T
    ensures ChunkCounts(s, T, p, z, m')[..m] == ChunkCounts(s, T, p, z, m)
    decreases m' - m
  {
    if m < m' {
      ChunkCountsPrefix(s, T, p, z, m, m' - 1);
      assert ChunkCounts(s, T, p, z, m')[..m' - 1] == ChunkCounts(s, T, p, z, m' - 1);
    }
  }

  /**
   * The total over all threads is the size of zone z in the whole of s:
   * total_less is the number of elements below the pivot, total_equal the
   * number equal to it.
   */
  lemma ChunkTotal(s: seq<int>, T: int, p: int, z: Zone)
    requires 1 <= T
    ensures Sum(ChunkCounts(s, T, p, z, T)) == |Pick(s, p, z)|
  {
    ChunkCountsSum(s, T, p, z, T);
    ChunkOrder(|s|, T, 0, T);
    assert s[..|s|] == s;
  }

  /**
   * The offset of thread tid, the sum of the counts of the threads before
   * it, is the size of zone z in the part of s before thread tid's chunk:
   * the position where a serial stable scatter would place the chunk's
   * first zone-z element.
   */
  lemma ChunkOffset(s: seq<int>, T: int, p: int, z: Zone, tid: int)
    requires 1 <= T && 0 <= tid < T
    ensures Sum(ChunkCounts(s, T, p, z, T)[..tid]) == |Pick(s[..ChunkStart(|s|, T, tid)], p, z)|
  {
    ChunkCountsPrefix(s, T, p, z, tid, T);
    ChunkCountsSum(s, T, p, z, tid);
  }

  /**
   * Thread t writes its zone-z elements to [off(t), off(t) + c[t]), with
   * the offsets off the prefix sums of the counts c. For t < u these ranges
   * are ordered and disjoint, and all of them lie inside [0, |Pick(s, p, z)|),
   * that is, in the zone's part of the buffer (shifted by total_less for the
   * equal zone).
   */
  lemma ThreadWriteRanges(s: seq<int>, T: int, p: int, z: Zone, t: int, u: int)
    requires 1 <= T && 0 <= t < u < T
    ensures var c := ChunkCounts(s, T, p, z, T);
      0 <= Sum(c[..t]) && Sum(c[..t]) + c[t] <= Sum(c[..u]) && Sum(c[..u]) + c[u] <= |Pick(s, p, z)|
  {
    var c := ChunkCounts(s, T, p, z, T);
    OffsetRanges(c, t, u);
    OffsetRanges(c, u, T);
    assert c[..T] == c;
    ChunkTotal(s, T, p, z);
  }

  /**
   * One thread's counting loop over its chunk s[start..end]: the number of
   * elements below and equal to the pivot.
   */
  method CountChunk(s: seq<int>, start: int, end: int, pivot: int) returns (lc: int, ec: int)
    requires 0 <= start <= end <= |s|
    ensures lc == CountLess(s[start..end], pivot)
    ensures ec == CountEqual(s[start..end], pivot)
  {
    lc, ec := 0, 0;
    for i := start to end
      invariant lc == CountLess(s[start..i], pivot)
      invariant ec == CountEqual(s[start..i], pivot)
    {
      CountsPrefixStep(s[start..end], i - start, pivot);
      assert s[start..end][..i - start] == s[start..i];
      assert s[start..end][..i - start + 1] == s[start..i + 1];
      assert s[start..end][i - start] == s[i];
      if s[i] < pivot {
        lc := lc + 1;
      } else if s[i] == pivot {
        ec := ec + 1;
      }
    }
  }

  /**
   * The first parallel region: every thread counts its chunk into its slot
   * of less_counts and equal_counts.
   */
  method CountChunks(s: seq<int>, pivot: int, T: int) returns (lessCounts: array<int>, equalCounts: array<int>)
    requires 1 <= T
    ensures fresh(lessCounts) && fresh(equalCounts)
    ensures lessCounts[..] == ChunkCounts(s, T, pivot, Below, T)
    ensures equalCounts[..] == ChunkCounts(s, T, pivot, At, T)
  {
    var n := |s|;
    lessCounts := new int[T];
    equalCounts := new int[T];
    for tid := 0 to T
      invariant lessCounts[..tid] == ChunkCounts(s, T, pivot, Below, tid)
      invariant equalCounts[..tid] == ChunkCounts(s, T, pivot, At, tid)
    {
      var start := (n * tid) / T;
      var end := (n * (tid + 1)) / T;
      ChunkOrder(n, T, tid, tid + 1);
      var lc, ec := CountChunk(s, start, end, pivot);
      lessCounts[tid] := lc;
      equalCounts[tid] := ec;
      assert lessCounts[..tid + 1] == lessCounts[..tid] + [lc];
      assert equalCounts[..tid + 1] == equalCounts[..tid] + [ec];
    }
    assert lessCounts[..] == lessCounts[..T];
    assert equalCounts[..] == equalCounts[..T];
  }

  /** The serial loop that adds up the per-thread counts. */
  method Totals(lessCounts: array<int>, equalCounts: array<int>) returns (totalLess: int, totalEqual: int)
    requires lessCounts.Length == equalCounts.Length
    ensures totalLess == Sum(lessCounts[..])
    ensures totalEqual == Sum(equalCounts[..])
  {
    totalLess, totalEqual := 0, 0;
    for i := 0 to lessCounts.Length
      invariant totalLess == Sum(lessCounts[..i])
      invariant totalEqual == Sum(equalCounts[..i])
    {
      SumPrefixStep(lessCounts[..], i);
      SumPrefixStep(equalCounts[..], i);
      assert lessCounts[..][..i] == lessCounts[..i] && lessCounts[..][..i + 1] == lessCounts[..i + 1];
      assert equalCounts[..][..i] == equalCounts[..i] && equalCounts[..][..i + 1] == equalCounts[..i + 1];
      totalLess := totalLess + lessCounts[i];
      totalEqual := totalEqual + equalCounts[i];
    }
    assert lessCounts[..] == lessCounts[..lessCounts.Length];
    assert equalCounts[..] == equalCounts[..equalCounts.Length];
  }

  /**
   * The serial loop that turns the counts into exclusive prefix sums:
   * offset[i] is the sum of the counts of the threads before i.
   */
  method Offsets(lessCounts: array<int>, equalCounts: array<int>)
    returns (lessOffset: array<int>, equalOffset: array<int>)
    requires 1 <= lessCounts.Length == equalCounts.Length
    ensures fresh(lessOffset) && fresh(equalOffset)
    ensures lessOffset.Length == equalOffset.Length == lessCounts.Length
    ensures forall i :: 0 <= i < lessOffset.Length ==> lessOffset[i] == Sum(lessCounts[..i])
    ensures forall i :: 0 <= i < equalOffset.Length ==> equalOffset[i] == Sum(equalCounts[..i])
  {
    var T := lessCounts.Length;
    lessOffset := new int[T];
    equalOffset := new int[T];
    lessOffset[0] := 0;
    equalOffset[0] := 0;
    for i := 1 to T
      invariant forall j :: 0 <= j < i ==> lessOffset[j] == Sum(lessCounts[..j])
      invariant forall j :: 0 <= j < i ==> equalOffset[j] == Sum(equalCounts[..j])
    {
      SumPrefixStep(lessCounts[..], i - 1);
      SumPrefixStep(equalCounts[..], i - 1);
      assert lessCounts[..][..i - 1] == lessCounts[..i - 1] && lessCounts[..][..i] == lessCounts[..i];
      assert equalCounts[..][..i - 1] == equalCounts[..i - 1] && equalCounts[..][..i] == equalCounts[..i];
      lessOffset[i] := lessOffset[i - 1] + lessCounts[i - 1];
      equalOffset[i] := equalOffset[i - 1] + equalCounts[i - 1];
    }
  }

  /**
   * What the offset arrays mean for the chunks of s: less_offset[tid] is the
   * number of elements below the pivot before thread tid's chunk, and
   * equal_offset[tid] the number equal to it.
   */
  lemma OffsetsMeaning(s: seq<int>, T: int, p: int, lessCounts: seq<int>, equalCounts: seq<int>,
                       lessOffset: seq<int>, equalOffset: seq<int>)
    requires 1 <= T && |lessOffset| == T && |equalOffset| == T
    requires lessCounts == ChunkCounts(s, T, p, Below, T)
    requires equalCounts == ChunkCounts(s, T, p, At, T)
    requires forall i :: 0 <= i < T ==> lessOffset[i] == Sum(lessCounts[..i])
    requires forall i :: 0 <= i < T ==> equalOffset[i] == Sum(equalCounts[..i])
    ensures forall tid :: 0 <= tid < T ==> lessOffset[tid] == CountLess(s[..ChunkStart(|s|, T, tid)], p)
    ensures forall tid :: 0 <= tid < T ==> equalOffset[tid] == CountEqual(s[..ChunkStart(|s|, T, tid)], p)
  {
    forall tid | 0 <= tid < T
      ensures lessOffset[tid] == CountLess(s[..ChunkStart(|s|, T, tid)], p)
      ensures equalOffset[tid] == CountEqual(s[..ChunkStart(|s|, T, tid)], p)
    {
      ChunkOffset(s, T, p, Below, tid);
      ChunkOffset(s, T, p, At, tid);
    }
  }

  /**
   * Lines 14-44 of parallel_partition: the first parallel region, the
   * totals and the prefix-sum offsets. total_less and total_equal are the
   * zone sizes of s, and thread tid's offsets are the zone sizes of the part
   * of s before its chunk.
   */
  method CountAndOffsets(s: seq<int>, pivot: int, T: int)
    returns (totalLess: int, totalEqual: int, lessOffset: array<int>, equalOffset: array<int>)
    requires 1 <= T
    ensures fresh(lessOffset) && fresh(equalOffset)
    ensures lessOffset.Length == T && equalOffset.Length == T
    ensures totalLess == CountLess(s, pivot) && totalEqual == CountEqual(s, pivot)
    ensures forall tid :: 0 <= tid < T ==> lessOffset[tid] == CountLess(s[..ChunkStart(|s|, T, tid)], pivot)
    ensures forall tid :: 0 <= tid < T ==> equalOffset[tid] == CountEqual(s[..ChunkStart(|s|, T, tid)], pivot)
  {
    var lessCounts, equalCounts := CountChunks(s, pivot, T);
    totalLess, totalEqual := Totals(lessCounts, equalCounts);
    ChunkTotal(s, T, pivot, Below);
    ChunkTotal(s, T, pivot, At);
    lessOffset, equalOffset := Offsets(lessCounts, equalCounts);
    OffsetsMeaning(s, T, pivot, lessCounts[..], equalCounts[..], lessOffset[..], equalOffset[..]);
  }

  /* ---------------------------------------------------------------------- */
  /* The scatter of the below and equal zones, chunk by chunk                 */
  /* ---------------------------------------------------------------------- */

  /**
   * The state of the second parallel region after the chunks covering
   * s[..i]: the below zone t[0..idxLt] and the equal zone t[lt..idxEq] hold,
   * in order, the elements of s[..i] in those zones.
   */
  ghost predicate LowScattered(t: seq<int>, s: seq<int>, i: int, p: int, lt: int, eq: int,
                               idxLt: int, idxEq: int)
  {
    var ok := 0 <= i <= |s| == |t|
    && lt == CountLess(s, p) && eq == CountEqual(s, p)
    && idxLt <= lt <= idxEq <= lt + eq
    && Placed(t, 0, idxLt, s, i, p, Below)
    && Placed(t, lt, idxEq, s, i, p, At);
    ok
  }

  /** Placing s[i] at the cursor of its zone, or skipping it if it is above the pivot, keeps the state. */
  lemma LowStep(t: seq<int>, s: seq<int>, i: int, p: int, lt: int, eq: int, idxLt: int, idxEq: int)
    requires LowScattered(t, s, i, p, lt, eq, idxLt, idxEq) && i < |s|
    ensures s[i] < p ==> idxLt < lt <= |t| && LowScattered(t[idxLt := s[i]], s, i + 1, p, lt, eq, idxLt + 1, idxEq)
    ensures s[i] == p ==> idxEq < lt + eq <= |t| && LowScattered(t[idxEq := s[i]], s, i + 1, p, lt, eq, idxLt, idxEq + 1)
    ensures s[i] > p ==> LowScattered(t, s, i + 1, p, lt, eq, idxLt, idxEq)
  {
    ZoneSizes(s, p);
    if s[i] < p {
      PlacedGrow(t, 0, idxLt, s, i, p, Below, lt);
      PlacedKeep(t, lt, idxEq, s, i, p, At, idxLt);
    } else if s[i] == p {
      PlacedGrow(t, lt, idxEq, s, i, p, At, lt + eq);
      PlacedKeep(t, 0, idxLt, s, i, p, Below, idxEq);
    } else {
      PickPrefixStep(s, i, p, Below);
      PickPrefixStep(s, i, p, At);
    }
  }

  /** One iteration of a thread's scatter loop over x = s[i]. */
  method ScatterLowOne(tmp: array<int>, x: int, ghost s: seq<int>, ghost i: int, pivot: int,
                       ghost lt: int, ghost eq: int, idxLt: int, idxEq: int)
    returns (idxLt': int, idxEq': int)
    requires LowScattered(tmp[..], s, i, pivot, lt, eq, idxLt, idxEq)
    requires i < |s| && x == s[i]
    modifies tmp
    ensures LowScattered(tmp[..], s, i + 1, pivot, lt, eq, idxLt', idxEq')
    ensures x < pivot ==> idxLt' == idxLt + 1 && idxEq' == idxEq && tmp[..] == old(tmp[..])[idxLt := x]
    ensures x == pivot ==> idxLt' == idxLt && idxEq' == idxEq + 1 && tmp[..] == old(tmp[..])[idxEq := x]
    ensures x > pivot ==> idxLt' == idxLt && idxEq' == idxEq && tmp[..] == old(tmp[..])
  {
    ghost var t := tmp[..];
    LowStep(t, s, i, pivot, lt, eq, idxLt, idxEq);
    idxLt', idxEq' := idxLt, idxEq;
    if x < pivot {
      tmp[idxLt] := x;
      assert tmp[..] == t[idxLt := x];
      idxLt' := idxLt + 1;
    } else if x == pivot {
      tmp[idxEq] := x;
      assert tmp[..] == t[idxEq := x];
      idxEq' := idxEq + 1;
    }
  }

  /**
   * The body of the second parallel region for thread tid: it scatters its
   * chunk from the cursors lt_idx = less_offset[tid] and
   * eq_idx = total_less + equal_offset[tid]. It writes only the slots up to
   * the next thread's starting cursors, less_offset[tid + 1] and
   * total_less + equal_offset[tid + 1], and nothing else in the buffer.
   */
  method ScatterChunk(tmp: array<int>, s: seq<int>, pivot: int, T: int, tid: int,
                      ghost lt: int, ghost eq: int, ltIdx: int, eqIdx: int)
    requires 1 <= T && 0 <= tid < T
    requires LowScattered(tmp[..], s, ChunkStart(|s|, T, tid), pivot, lt, eq, ltIdx, eqIdx)
    modifies tmp
    ensures LowScattered(tmp[..], s, ChunkStart(|s|, T, tid + 1), pivot, lt, eq,
      CountLess(s[..ChunkStart(|s|, T, tid + 1)], pivot), lt + CountEqual(s[..ChunkStart(|s|, T, tid + 1)], pivot))
    ensures forall m :: (0 <= m < tmp.Length && !(ltIdx <= m < CountLess(s[..ChunkStart(|s|, T, tid + 1)], pivot))
      && !(eqIdx <= m < lt + CountEqual(s[..ChunkStart(|s|, T, tid + 1)], pivot))) ==> tmp[m] == old(tmp[m])
  {
    var n := |s|;
    var start := (n * tid) / T;
    var end := (n * (tid + 1)) / T;
    ChunkOrder(n, T, tid, tid + 1);
    var idxLt, idxEq := ScatterRange(tmp, s, pivot, start, end, lt, eq, ltIdx, eqIdx);
    LowCursors(tmp[..], s, end, pivot, lt, eq, idxLt, idxEq);
  }

  /**
   * The scatter loop of one thread over s[start..end], advancing the
   * cursors lt_idx and eq_idx; it writes only between their old and new
   * values.
   */
  method ScatterRange(tmp: array<int>, s: seq<int>, pivot: int, start: int, end: int,
                      ghost lt: int, ghost eq: int, ltIdx: int, eqIdx: int)
    returns (idxLt: int, idxEq: int)
    requires start <= end <= |s|
    requires LowScattered(tmp[..], s, start, pivot, lt, eq, ltIdx, eqIdx)
    modifies tmp
    ensures LowScattered(tmp[..], s, end, pivot, lt, eq, idxLt, idxEq)
    ensures forall m :: (0 <= m < tmp.Length && !(ltIdx <= m < idxLt) && !(eqIdx <= m < idxEq)) ==>
      tmp[m] == old(tmp[m])
  {
    idxLt, idxEq := ltIdx, eqIdx;
    for i := start to end
      invariant LowScattered(tmp[..], s, i, pivot, lt, eq, idxLt, idxEq)
      invariant ltIdx <= idxLt && eqIdx <= idxEq
      invariant forall m :: (0 <= m < tmp.Length && !(ltIdx <= m < idxLt) && !(eqIdx <= m < idxEq)) ==>
        tmp[m] == old(tmp[m])
    {
      idxLt, idxEq := ScatterLowOne(tmp, s[i], s, i, pivot, lt, eq, idxLt, idxEq);
    }
  }

  /** Proof step only, modelling no line of the C code: the cursors of the scatter state are determined by the prefix of s already placed. */
  lemma LowCursors(t: seq<int>, s: seq<int>, i: int, p: int, lt: int, eq: int, idxLt: int, idxEq: int)
    requires LowScattered(t, s, i, p, lt, eq, idxLt, idxEq)
    ensures idxLt == CountLess(s[..i], p) && idxEq == lt + CountEqual(s[..i], p)
  {
  }

  /**
   * The second parallel region, one thread after another: thread tid starts
   * its cursors at less_offset[tid] and total_less + equal_offset[tid].
   * Afterwards the buffer holds the whole below zone at [0, total_less) and
   * the whole equal zone at [total_less, total_less + total_equal).
   */
  method ScatterLowChunks(tmp: array<int>, s: seq<int>, pivot: int, T: int,
                          lessOffset: seq<int>, equalOffset: seq<int>,
                          totalLess: int, totalEqual: int)
    requires 1 <= T && tmp.Length == |s|
    requires |lessOffset| == T && |equalOffset| == T
    requires totalLess == CountLess(s, pivot) && totalEqual == CountEqual(s, pivot)
    requires forall tid :: 0 <= tid < T ==> lessOffset[tid] == CountLess(s[..ChunkStart(|s|, T, tid)], pivot)
    requires forall tid :: 0 <= tid < T ==> equalOffset[tid] == CountEqual(s[..ChunkStart(|s|, T, tid)], pivot)
    modifies tmp
    ensures LowScattered(tmp[..], s, |s|, pivot, totalLess, totalEqual, totalLess, totalLess + totalEqual)
  {
    ChunkOrder(|s|, T, 0, T);
    LowStart(tmp[..], s, pivot, totalLess, totalEqual);
    for tid := 0 to T
      invariant LowScattered(tmp[..], s, ChunkStart(|s|, T, tid), pivot, totalLess, totalEqual,
        CountLess(s[..ChunkStart(|s|, T, tid)], pivot), totalLess + CountEqual(s[..ChunkStart(|s|, T, tid)], pivot))
    {
      ScatterChunk(tmp, s, pivot, T, tid, totalLess, totalEqual, lessOffset[tid], totalLess + equalOffset[tid]);
    }
    LowFinish(tmp[..], s, pivot, totalLess, totalEqual);
  }

  /** Before any thread runs, both zones are empty at their starts. */
  lemma LowStart(t: seq<int>, s: seq<int>, p: int, lt: int, eq: int)
    requires |t| == |s| && lt == CountLess(s, p) && eq == CountEqual(s, p)
    ensures LowScattered(t, s, 0, p, lt, eq, CountLess(s[..0], p), lt + CountEqual(s[..0], p))
  {
    ZoneSizes(s, p);
    assert s[..0] == [];
  }

  /** After the last thread the cursors stand at the ends of the zones. */
  lemma LowFinish(t: seq<int>, s: seq<int>, p: int, lt: int, eq: int)
    requires LowScattered(t, s, |s|, p, lt, eq, CountLess(s[..|s|], p), lt + CountEqual(s[..|s|], p))
    ensures LowScattered(t, s, |s|, p, lt, eq, lt, lt + eq)
  {
    assert s[..|s|] == s;
  }

  /* ---------------------------------------------------------------------- */
  /* The serial scatter of the above zone                                    */
  /* ---------------------------------------------------------------------- */

  /**
   * The state of the serial `>` scan after s[..i]: the below and equal
   * zones are complete, and the above zone t[lt + eq..idxGt] holds, in
   * order, the elements of s[..i] above the pivot.
   */
  ghost predicate AboveScattered(t: seq<int>, s: seq<int>, i: int, p: int, lt: int, eq: int, idxGt: int)
  {
    var ok := 0 <= i <= |s| == |t|
    && lt == CountLess(s, p) && eq == CountEqual(s, p)
    && Placed(t, 0, lt, s, |s|, p, Below)
    && Placed(t, lt, lt + eq, s, |s|, p, At)
    && Placed(t, lt + eq, idxGt, s, i, p, Above);
    ok
  }

  /** The scan starts at gt_start = total_less + total_equal with the other zones complete. */
  lemma AboveStart(t: seq<int>, s: seq<int>, p: int, lt: int, eq: int)
    requires LowScattered(t, s, |s|, p, lt, eq, lt, lt + eq)
    ensures AboveScattered(t, s, 0, p, lt, eq, lt + eq)
  {
    assert s[..0] == [];
  }

  /** Appending an above-pivot s[i] at the cursor keeps the complete zones. */
  lemma AboveStep(t: seq<int>, s: seq<int>, i: int, p: int, lt: int, eq: int, idxGt: int)
    requires AboveScattered(t, s, i, p, lt, eq, idxGt) && i < |s| && s[i] > p
    ensures idxGt < |t|
    ensures AboveScattered(t[idxGt := s[i]], s, i + 1, p, lt, eq, idxGt + 1)
  {
    ZoneSizes(s, p);
    PlacedGrow(t, lt + eq, idxGt, s, i, p, Above, |s|);
    assert t[idxGt := s[i]][0..lt] == t[0..lt];
    assert t[idxGt := s[i]][lt..lt + eq] == t[lt..lt + eq];
  }

  /** An element that is not above the pivot is skipped by the scan. */
  lemma AboveSkip(t: seq<int>, s: seq<int>, i: int, p: int, lt: int, eq: int, idxGt: int)
    requires AboveScattered(t, s, i, p, lt, eq, idxGt) && i < |s| && s[i] <= p
    ensures AboveScattered(t, s, i + 1, p, lt, eq, idxGt)
  {
    PickPrefixStep(s, i, p, Above);
  }

  /**
   * At the end of the scan the above zone fills exactly [lt + eq, |s|), and
   * the buffer is the three-way partition of s.
   */
  lemma AboveDone(t: seq<int>, s: seq<int>, p: int, lt: int, eq: int, idxGt: int)
    requires AboveScattered(t, s, |s|, p, lt, eq, idxGt)
    ensures idxGt == |s|
    ensures t == ThreeWay(s, p)
  {
    assert s[..|s|] == s;
    ZoneSizes(s, p);
    assert t == t[0..lt] + t[lt..lt + eq] + t[lt + eq..idxGt];
  }

  /** The serial `>` scan over the whole segment, writing from gt_start on. */
  method ScatterAbovePass(tmp: array<int>, s: seq<int>, pivot: int, lt: int, eq: int)
    requires tmp.Length == |s|
    requires LowScattered(tmp[..], s, |s|, pivot, lt, eq, lt, lt + eq)
    modifies tmp
    ensures tmp[..] == ThreeWay(s, pivot)
  {
    var n := |s|;
    var gtIdx := lt + eq;
    AboveStart(tmp[..], s, pivot, lt, eq);
    for i := 0 to n
      invariant AboveScattered(tmp[..], s, i, pivot, lt, eq, gtIdx)
    {
      ghost var t := tmp[..];
      if s[i] > pivot {
        AboveStep(t, s, i, pivot, lt, eq, gtIdx);
        tmp[gtIdx] := s[i];
        assert tmp[..] == t[gtIdx := s[i]];
        gtIdx := gtIdx + 1;
      } else {
        AboveSkip(t, s, i, pivot, lt, eq, gtIdx);
      }
    }
    AboveDone(tmp[..], s, pivot, lt, eq, gtIdx);
  }

  /* ---------------------------------------------------------------------- */
  /* parallel_partition                                                      */
  /* ---------------------------------------------------------------------- */

  /**
   * The parallel path of parallel_partition on the segment s with T threads:
   * count per chunk, total, prefix-sum offsets, scatter the below and equal
   * zones chunk by chunk, then scan for the above zone. The buffer ends up
   * holding the three-way partition of s, and the totals are the zone sizes.
   */
  method PartitionIntoBuffer(s: seq<int>, pivot: int, T: int)
    returns (tmp: array<int>, totalLess: int, totalEqual: int)
    requires 1 <= T
    ensures fresh(tmp)
    ensures tmp[..] == ThreeWay(s, pivot)
    ensures totalLess == CountLess(s, pivot) && totalEqual == CountEqual(s, pivot)
  {
    var lessOffset, equalOffset;
    totalLess, totalEqual, lessOffset, equalOffset := CountAndOffsets(s, pivot, T);
    tmp := new int[|s|];
    ScatterLowChunks(tmp, s, pivot, T, lessOffset[..], equalOffset[..], totalLess, totalEqual);
    ScatterAbovePass(tmp, s, pivot, totalLess, totalEqual);
  }

  /**
   * parallel_partition on a[lo..lo + n] with numThreads threads. Below
   * 10000 elements or with at most one thread it is serial_partition; either
   * way a[lo..lo + n] becomes the three-way partition of its old contents
   * (the same array serial_partition produces), the zone sizes are
   * returned, and nothing outside the segment changes.
   */
  method ParallelPartition(a: array<int>, lo: int, n: int, pivot: int, numThreads: int)
    returns (size: int, nLess: int, nEqual: int)
    requires 0 <= lo && 0 <= n && lo + n <= a.Length
    modifies a
    ensures size == n
    ensures a[lo..lo + n] == ThreeWay(old(a[lo..lo + n]), pivot)
    ensures nLess == CountLess(old(a[lo..lo + n]), pivot)
    ensures nEqual == CountEqual(old(a[lo..lo + n]), pivot)
    ensures SameOutside(old(a[..]), a[..], lo, lo + n)
  {
    if n < 10000 || numThreads <= 1 {
      size, nLess, nEqual := SerialPartition(a, lo, n, pivot);
      return;
    }
    var tmp, totalLess, totalEqual := PartitionIntoBuffer(a[lo..lo + n], pivot, numThreads);
    forall m | 0 <= m < n {
      a[lo + m] := tmp[m];
    }
    assert a[lo..lo + n] == tmp[..];
    size, nLess, nEqual := n, totalLess, totalEqual;
  }

  /* ---------------------------------------------------------------------- */
  /* parallel_momselect_omp                                                  */
  /* ---------------------------------------------------------------------- */

  /**
   * parallel_momselect_omp on a[0..n] for rank k: the result is the k-th
   * smallest of the old contents, which are left permuted, and nothing
   * after them changes.
   */
  method ParallelMomSelect(a: array<int>, n: int, k: int, numThreads: int) returns (r: int)
    requires 1 <= n <= a.Length && 0 <= k < n
    modifies a
    ensures r == KthSmallest(old(a[0..n]), k)
    ensures multiset(a[0..n]) == multiset(old(a[0..n]))
    ensures SameOutside(old(a[..]), a[..], 0, n)
  {
    ghost var v := RankWitness(a[0..n], k);
    r := MomSelectLoop(a, n, k, numThreads, v);
    KthRank(old(a[0..n]), k, r);
  }

  /**
   * The loop of parallel_momselect_omp, specified by rank: for any value v
   * of rank k in a[0..n] the loop returns v. An active range of at most
   * 20000 elements is finished by serial_select; a larger one is
   * partitioned around its median of medians, and the loop keeps the zone
   * that holds index k or returns the pivot. The state is that of
   * serial_select's loop (SelectState): the active range holds k and is
   * bracketed by what lies before and after it.
   */
  method MomSelectLoop(a: array<int>, n: int, k: int, numThreads: int, ghost v: int) returns (r: int)
    requires 1 <= n <= a.Length && 0 <= k < n
    requires HasRank(a[0..n], k, v)
    modifies a
    ensures r == v
    ensures multiset(a[0..n]) == multiset(old(a[0..n]))
    ensures SameOutside(old(a[..]), a[..], 0, n)
  {
    ghost var orig := a[..];
    var left, right := 0, n - 1;
    ghost var parts := SelectStart(orig, v, 0, n, k);
    while true
      invariant SelectState(orig, a[..], v, 0, n, left, right, k, parts)
      decreases right - left
    {
      var activeN := right - left + 1;
      if activeN <= 20000 {
        r := SerialFinish(a, orig, v, n, left, right, k, parts);
        return;
      }
      var found, pivot, left', right';
      found, pivot, left', right', parts := MomRound(a, orig, v, n, left, right, k, parts, numThreads);
      if found {
        return pivot;
      }
      left, right := left', right';
    }
  }

  /**
   * The small-range exit: serial_select on a + left with rank k - left
   * returns the answer v and keeps the loop's frame.
   */
  method SerialFinish(a: array<int>, ghost orig: seq<int>, ghost v: int, n: int,
                      left: int, right: int, k: int, ghost parts: Parts)
    returns (r: int)
    requires SelectState(orig, a[..], v, 0, n, left, right, k, parts)
    modifies a
    ensures r == v
    ensures SameOutside(orig, a[..], 0, n) && multiset(a[0..n]) == multiset(orig[0..n])
  {
    var activeN := right - left + 1;
    ghost var w := a[..];
    r := SerialSelect(a, left, activeN, k - left);
    FinishState(orig, w, a[..], v, n, left, right, k, parts, activeN, r);
  }

  /** What serial_select on the active range leaves, in terms of the loop state. */
  lemma FinishState(orig: seq<int>, w: seq<int>, w': seq<int>, v: int, n: int,
                    left: int, right: int, k: int, parts: Parts, activeN: int, r: int)
    requires SelectState(orig, w, v, 0, n, left, right, k, parts)
    requires activeN == right - left + 1
    requires r == KthSmallest(w[left..left + activeN], k - left)
    requires SameOutside(w, w', left, left + activeN)
    requires multiset(w'[left..left + activeN]) == multiset(w[left..left + activeN])
    ensures r == v
    ensures SameOutside(orig, w', 0, n) && multiset(w'[0..n]) == multiset(orig[0..n])
  {
    PartsSlices(w, 0, n, left, right, parts);
    KthRank(w[left..right + 1], k - left, r);
    if r != v {
      KthRank(w[left..right + 1], k - left, v);
      assert false;
    }
    PermuteInside(w, w', left, right + 1, 0, n);
    RegroupFrame(orig, w, w', 0, n, left, right);
  }

  /**
   * One pass of the driver's loop over a range of more than 20000
   * elements: mom_pivot on the range, parallel_partition around the pivot,
   * then keep the zone that holds k or answer with the pivot. A kept zone is
   * strictly smaller than the range, because the pivot is an element of the
   * range and so its zone is not empty.
   */
  method MomRound(a: array<int>, ghost orig: seq<int>, ghost v: int, n: int,
                  left: int, right: int, k: int, ghost parts: Parts, numThreads: int)
    returns (found: bool, pivot: int, left': int, right': int, ghost parts': Parts)
    requires SelectState(orig, a[..], v, 0, n, left, right, k, parts)
    modifies a
    ensures found ==> (pivot == v && SameOutside(orig, a[..], 0, n)
      && multiset(a[0..n]) == multiset(orig[0..n]))
    ensures !found ==> (SelectState(orig, a[..], v, 0, n, left', right', k, parts')
      && right' - left' < right - left)
  {
    var activeN := right - left + 1;
    ghost var w := a[..];
    pivot := MomPivot(a, left, activeN);
    ghost var w1 := a[..];
    var size, nLess, nEqual := ParallelPartition(a, left, activeN, pivot, numThreads);
    ghost var w2 := a[..];
    var equalStart := left + nLess;
    var greaterStart := left + nLess + nEqual;
    ghost var parts1, pivotIndex := RoundSetup(orig, w, w1, w2, v, n, left, right, k, parts,
                                               activeN, pivot, nLess, nEqual);
    if k < equalStart {
      found, left', right' := false, left, equalStart - 1;
      parts' := RoundBelow(orig, w1, w2, v, 0, n, left, right, k, pivotIndex,
                           equalStart, greaterStart - 1, pivot, parts1);
    } else if k < greaterStart {
      RoundAt(orig, w1, w2, v, 0, n, left, right, k, pivotIndex,
              equalStart, greaterStart - 1, pivot, parts1);
      found, left', right', parts' := true, left, right, parts;
    } else {
      found, left', right' := false, greaterStart, right;
      parts' := RoundAbove(orig, w1, w2, v, 0, n, left, right, k, pivotIndex,
                           equalStart, greaterStart - 1, pivot, parts1);
    }
  }

  /**
   * The round's pivot and partition, in the terms of serial_select's round
   * lemmas: after mom_pivot the loop state still holds (the range was only
   * permuted) and the pivot sits at some index of the range; the partition
   * then leaves the range in the Dutch-flag layout with the equal zone at
   * [left + nLess, left + nLess + nEqual - 1].
   */
  lemma RoundSetup(orig: seq<int>, w: seq<int>, w1: seq<int>, w2: seq<int>, v: int, n: int,
                   left: int, right: int, k: int, parts: Parts,
                   activeN: int, pivot: int, nLess: int, nEqual: int)
    returns (parts1: Parts, pivotIndex: int)
    requires SelectState(orig, w, v, 0, n, left, right, k, parts)
    requires activeN == right - left + 1
    requires pivot == MedianOfMedians(w[left..left + activeN])
    requires SameOutside(w, w1, left, left + activeN)
    requires multiset(w1[left..left + activeN]) == multiset(w[left..left + activeN])
    requires SameOutside(w1, w2, left, left + activeN)
    requires w2[left..left + activeN] == ThreeWay(w1[left..left + activeN], pivot)
    requires nLess == CountLess(w1[left..left + activeN], pivot)
    requires nEqual == CountEqual(w1[left..left + activeN], pivot)
    ensures SelectState(orig, w1, v, 0, n, left, right, k, parts1)
    ensures left <= pivotIndex <= right && w1[pivotIndex] == pivot
    ensures left <= left + nLess <= left + nLess + nEqual <= right + 1
    ensures FlagZones(w2, left, left + nLess, left + nLess + nEqual, left + nLess + nEqual - 1, right, pivot)
    ensures multiset(w2) == multiset(w1)
    ensures SameOutside(w1, w2, left, right + 1)
  {
    assert left + activeN == right + 1;
    parts1 := PermutedState(orig, w, w1, v, n, left, right, k, parts);
    MedianOfMediansMember(w[left..right + 1]);
    pivotIndex := PivotIndex(w, w1, left, right, pivot);
    PartitionFlag(w1, w2, left, right, pivot, nLess, nEqual);
  }

  /** A value of the range that was only permuted is still at some index of it. */
  lemma PivotIndex(w: seq<int>, w1: seq<int>, left: int, right: int, pivot: int) returns (pivotIndex: int)
    requires 0 <= left <= right < |w| == |w1|
    requires pivot in w[left..right + 1]
    requires multiset(w1[left..right + 1]) == multiset(w[left..right + 1])
    ensures left <= pivotIndex <= right && w1[pivotIndex] == pivot
  {
    assert pivot in multiset(w1[left..right + 1]);
    pivotIndex :| left <= pivotIndex <= right && w1[pivotIndex] == pivot;
  }

  /**
   * Permuting the active range keeps the loop state: rank and bracketing
   * depend only on the multiset of the range.
   */
  lemma PermutedState(orig: seq<int>, w: seq<int>, w1: seq<int>, v: int, n: int,
                      left: int, right: int, k: int, parts: Parts)
    returns (parts1: Parts)
    requires SelectState(orig, w, v, 0, n, left, right, k, parts)
    requires SameOutside(w, w1, left, right + 1)
    requires multiset(w1[left..right + 1]) == multiset(w[left..right + 1])
    ensures SelectState(orig, w1, v, 0, n, left, right, k, parts1)
  {
    PartsSlices(w, 0, n, left, right, parts);
    parts1 := Parts(parts.before, w1[left..right + 1], parts.after);
    PermutedRange(parts.before, parts.active, parts1.active, parts.after, k - left, v);
    PermutedLayout(w, w1, n, left, right);
    PermuteInside(w, w1, left, right + 1, 0, n);
    RegroupFrame(orig, w, w1, 0, n, left, right);
  }

  /** A permutation R1 of the active range R keeps the rank of v and the bracketing. */
  lemma PermutedRange(before: seq<int>, R: seq<int>, R1: seq<int>, after: seq<int>, j: int, v: int)
    requires HasRank(R, j, v) && AllAtMost(before, R) && AllAtMost(R, after)
    requires multiset(R1) == multiset(R)
    ensures HasRank(R1, j, v) && AllAtMost(before, R1) && AllAtMost(R1, after)
  {
    CountsPermutation(R, R1, v);
    forall y | y in R1 ensures y in R {
      assert y in multiset(R1);
    }
  }

  /** Proof step only, modelling no line of the C code: only the active range of w1 differs from w, so w1[0..n] reads before, new range, after. */
  lemma PermutedLayout(w: seq<int>, w1: seq<int>, n: int, left: int, right: int)
    requires 0 <= left <= right < n <= |w|
    requires SameOutside(w, w1, left, right + 1)
    ensures w1[0..left] == w[0..left] && w1[right + 1..n] == w[right + 1..n]
    ensures w1[0..n] == w[0..left] + w1[left..right + 1] + w[right + 1..n]
  {
    assert w1[0..left] == w[0..left];
    assert w1[right + 1..n] == w[right + 1..n];
    SliceSplit(w1, 0, left, right + 1, n);
  }

  /**
   * A three-way partition of the range w1[left..right] is a finished
   * Dutch-flag layout: [left, left + nLess) below the pivot, the next nEqual
   * equal to it, the rest above; and the whole sequence keeps its multiset.
   */
  lemma PartitionFlag(w1: seq<int>, w2: seq<int>, left: int, right: int, pivot: int, nLess: int, nEqual: int)
    requires 0 <= left <= right < |w1| == |w2|
    requires SameOutside(w1, w2, left, right + 1)
    requires w2[left..right + 1] == ThreeWay(w1[left..right + 1], pivot)
    requires nLess == CountLess(w1[left..right + 1], pivot)
    requires nEqual == CountEqual(w1[left..right + 1], pivot)
    ensures left <= left + nLess <= left + nLess + nEqual <= right + 1
    ensures FlagZones(w2, left, left + nLess, left + nLess + nEqual, left + nLess + nEqual - 1, right, pivot)
    ensures multiset(w2) == multiset(w1)
  {
    var r := w2[left..right + 1];
    forall m | left <= m < left + nLess ensures w2[m] < pivot {
      assert w2[m] == r[m - left];
    }
    forall m | left + nLess <= m < left + nLess + nEqual ensures w2[m] == pivot {
      assert w2[m] == r[m - left];
    }
    forall m | left + nLess + nEqual - 1 < m <= right ensures w2[m] > pivot {
      assert w2[m] == r[m - left];
    }
    PermuteInside(w1, w2, left, right + 1, 0, |w1|);
    assert w1[0..|w1|] == w1 && w2[0..|w2|] == w2;
  }
}
