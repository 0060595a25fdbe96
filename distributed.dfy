/**
 * The distributed path of src/quickselect_mpi.c: local_compact, the round
 * loop of parallel_quickselect_mpi, and the block distribution of main.
 *
 * The process group is a sequence of local segments, one per rank, and
 * the global dataset is their concatenation in rank order (Flatten). Each
 * collective is modelled by what it computes: MPI_Allreduce with MPI_SUM
 * is a Sum over the ranks, MPI_Gather and MPI_Gatherv build a
 * concatenation in rank order, and MPI_Bcast hands the root's value to
 * every rank, so one returned value stands for all of them. Every rank
 * runs the same loop on the same global values, so one loop over the
 * segments stands for the lock-step execution of the group.
 */
module Distributed {
  import opened OrderStatistics
  import opened PrefixSums
  import opened SerialKernel

  datatype Option<T> = None | Some(value: T)

  /** Below this many elements in total, the group gathers and finishes serially. */
  const GatherThreshold := 50000

  /* ---------------------------------------------------------------------- */
  /* The global dataset                                                      */
  /* ---------------------------------------------------------------------- */

  /** All segments concatenated in rank order: the layout MPI_Gatherv produces at the root. */
  function Flatten(segs: seq<seq<int>>): seq<int> {
    if segs == [] then [] else Flatten(segs[..|segs| - 1]) + segs[|segs| - 1]
  }

  /** The local lengths n_local of all ranks, in rank order. */
  function Lengths(segs: seq<seq<int>>): seq<int> {
    seq(|segs|, i requires 0 <= i < |segs| => |segs[i]|)
  }

  lemma FlattenStep(segs: seq<seq<int>>, i: int)
    requires 0 <= i < |segs|
    ensures Flatten(segs[..i + 1]) == Flatten(segs[..i]) + segs[i]
  {
    assert segs[..i + 1][..i] == segs[..i];
  }

  /** The concatenation is as long as the sum of the local lengths. */
  lemma {:induction false} FlattenLength(segs: seq<seq<int>>)
    ensures |Flatten(segs)| == Sum(Lengths(segs))
  {
    if segs != [] {
      var m := |segs| - 1;
      FlattenLength(segs[..m]);
      assert Lengths(segs)[..m] == Lengths(segs[..m]);
    }
  }

  lemma {:induction false} FlattenConcat(a: seq<seq<int>>, b: seq<seq<int>>)
    ensures Flatten(a + b) == Flatten(a) + Flatten(b)
  {
    if b != [] {
      var b' := b[..|b| - 1];
      assert (a + b)[..|a + b| - 1] == a + b';
      FlattenConcat(a, b');
    } else {
      assert a + b == a;
    }
  }

  /** A value held by some rank belongs to the global dataset. */
  lemma {:induction false} FlattenMember(segs: seq<seq<int>>, i: int, x: int)
    requires 0 <= i < |segs| && x in segs[i]
    ensures x in Flatten(segs)
  {
    var m := |segs| - 1;
    if i < m {
      assert segs[..m][i] == segs[i];
      FlattenMember(segs[..m], i, x);
    }
  }

  /**
   * global_n: the MPI_Allreduce sum of n_local over all ranks, which is
   * the size of the global dataset.
   */
  function GlobalCount(segs: seq<seq<int>>): (n: int)
    ensures n == |Flatten(segs)|
  {
    FlattenLength(segs);
    Sum(Lengths(segs))
  }

  /** Zone z of every segment, rank by rank. */
  function PickAll(segs: seq<seq<int>>, p: int, z: Zone): (r: seq<seq<int>>)
    ensures |r| == |segs|
  {
    seq(|segs|, i requires 0 <= i < |segs| => Pick(segs[i], p, z))
  }

  /** Taking zone z on every rank and concatenating takes zone z of the global dataset. */
  lemma {:induction false} FlattenPick(segs: seq<seq<int>>, p: int, z: Zone)
    ensures Flatten(PickAll(segs, p, z)) == Pick(Flatten(segs), p, z)
  {
    if segs != [] {
      var m := |segs| - 1;
      FlattenPick(segs[..m], p, z);
      assert PickAll(segs, p, z)[..m] == PickAll(segs[..m], p, z);
      PickConcat(Flatten(segs[..m]), segs[m], p, z);
    }
  }

  /* ---------------------------------------------------------------------- */
  /* local_compact                                                           */
  /* ---------------------------------------------------------------------- */

  /**
   * local_compact: the counting pass and the scatter pass of
   * serial_partition, written into a fresh buffer that replaces the old
   * one (the old buffer is freed, so its contents do not matter after).
   */
  method LocalCompact(a: seq<int>, pivot: int)
    returns (newA: array<int>, newN: int, localLess: int, localEqual: int)
    ensures fresh(newA)
    ensures newN == |a| == newA.Length
    ensures newA[..] == ThreeWay(a, pivot)
    ensures localLess == CountLess(a, pivot)
    ensures localEqual == CountEqual(a, pivot)
  {
    var lt, eq, gt := CountZones(a, pivot);
    newA := ScatterZones(a, pivot, lt, eq);
    newN := |a|;
    localLess, localEqual := lt, eq;
  }

  /**
   * What every rank holds after local_compact: its less, equal and greater
   * zones one after another (ThreeWay), and the counts it reports.
   */
  predicate Compacted(segs: seq<seq<int>>, pivot: int, compacted: seq<seq<int>>,
                      lessCounts: seq<int>, equalCounts: seq<int>)
  {
    && |compacted| == |segs| && |lessCounts| == |segs| && |equalCounts| == |segs|
    && forall i :: 0 <= i < |segs| ==>
         && lessCounts[i] == CountLess(segs[i], pivot)
         && equalCounts[i] == CountEqual(segs[i], pivot)
         && compacted[i] == Pick(segs[i], pivot, Below) + Pick(segs[i], pivot, At) + Pick(segs[i], pivot, Above)
  }

  /** Every rank runs local_compact on its own segment. */
  method CompactAll(segs: seq<seq<int>>, pivot: int)
    returns (compacted: seq<seq<int>>, lessCounts: seq<int>, equalCounts: seq<int>)
    ensures Compacted(segs, pivot, compacted, lessCounts, equalCounts)
  {
    compacted, lessCounts, equalCounts := [], [], [];
    for i := 0 to |segs|
      invariant Compacted(segs[..i], pivot, compacted, lessCounts, equalCounts)
    {
      var newA, newN, localLess, localEqual := LocalCompact(segs[i], pivot);
      CompactedStep(segs, pivot, compacted, lessCounts, equalCounts, i, newA[..], localLess, localEqual);
      compacted := compacted + [newA[..]];
      lessCounts := lessCounts + [localLess];
      equalCounts := equalCounts + [localEqual];
    }
    assert segs[..|segs|] == segs;
  }

  lemma CompactedStep(segs: seq<seq<int>>, pivot: int, compacted: seq<seq<int>>,
                      lessCounts: seq<int>, equalCounts: seq<int>,
                      i: int, buf: seq<int>, localLess: int, localEqual: int)
    requires 0 <= i < |segs|
    requires Compacted(segs[..i], pivot, compacted, lessCounts, equalCounts)
    requires buf == ThreeWay(segs[i], pivot)
    requires localLess == CountLess(segs[i], pivot) && localEqual == CountEqual(segs[i], pivot)
    ensures Compacted(segs[..i + 1], pivot, compacted + [buf],
                      lessCounts + [localLess], equalCounts + [localEqual])
  {
    var s, s' := segs[i], segs[..i + 1];
    assert buf == Pick(s, pivot, Below) + Pick(s, pivot, At) + Pick(s, pivot, Above);
    forall j | 0 <= j < i + 1
      ensures s'[j] == segs[j]
    {
    }
  }

  /** The MPI_Allreduce sums of the local counts are the counts of the global dataset. */
  lemma CountTotals(segs: seq<seq<int>>, pivot: int, compacted: seq<seq<int>>,
                    lessCounts: seq<int>, equalCounts: seq<int>)
    requires Compacted(segs, pivot, compacted, lessCounts, equalCounts)
    ensures Sum(lessCounts) == CountLess(Flatten(segs), pivot)
    ensures Sum(equalCounts) == CountEqual(Flatten(segs), pivot)
  {
    assert lessCounts == Lengths(PickAll(segs, pivot, Below));
    FlattenLength(PickAll(segs, pivot, Below));
    FlattenPick(segs, pivot, Below);
    assert equalCounts == Lengths(PickAll(segs, pivot, At));
    FlattenLength(PickAll(segs, pivot, At));
    FlattenPick(segs, pivot, At);
  }

  /** The element-by-element copy of count elements from offset from into a fresh buffer. */
  method CopyRange(buf: seq<int>, from: int, count: int) returns (newA: array<int>)
    requires 0 <= from && 0 <= count && from + count <= |buf|
    ensures fresh(newA)
    ensures newA[..] == buf[from..from + count]
  {
    newA := new int[count];
    for i := 0 to count
      invariant newA[..i] == buf[from..from + i]
    {
      newA[i] := buf[from + i];
    }
  }

  /** The less branch on every rank: keep the first local_less elements. */
  method KeepLess(segs: seq<seq<int>>, pivot: int, compacted: seq<seq<int>>,
                  lessCounts: seq<int>, equalCounts: seq<int>)
    returns (kept: seq<seq<int>>)
    requires Compacted(segs, pivot, compacted, lessCounts, equalCounts)
    ensures kept == PickAll(segs, pivot, Below)
  {
    kept := [];
    for i := 0 to |segs|
      invariant kept == PickAll(segs, pivot, Below)[..i]
    {
      var newA := KeepLessLocal(segs[i], pivot, compacted[i], lessCounts[i]);
      assert PickAll(segs, pivot, Below)[..i + 1] == kept + [newA[..]];
      kept := kept + [newA[..]];
    }
    assert PickAll(segs, pivot, Below)[..|segs|] == PickAll(segs, pivot, Below);
  }

  /** One rank's less branch: new_a[i] = a[i] for i < local_less. */
  method KeepLessLocal(s: seq<int>, pivot: int, buf: seq<int>, localLess: int)
    returns (newA: array<int>)
    requires localLess == CountLess(s, pivot)
    requires buf == Pick(s, pivot, Below) + Pick(s, pivot, At) + Pick(s, pivot, Above)
    ensures fresh(newA)
    ensures newA[..] == Pick(s, pivot, Below)
  {
    assert buf[0..0 + localLess] == Pick(s, pivot, Below);
    newA := CopyRange(buf, 0, localLess);
  }

  /** The greater branch on every rank: keep the local_gt elements after the less and equal zones. */
  method KeepGreater(segs: seq<seq<int>>, pivot: int, compacted: seq<seq<int>>,
                     lessCounts: seq<int>, equalCounts: seq<int>)
    returns (kept: seq<seq<int>>)
    requires Compacted(segs, pivot, compacted, lessCounts, equalCounts)
    ensures kept == PickAll(segs, pivot, Above)
  {
    kept := [];
    for i := 0 to |segs|
      invariant kept == PickAll(segs, pivot, Above)[..i]
    {
      var newA := KeepGreaterLocal(segs[i], pivot, compacted[i], lessCounts[i], equalCounts[i]);
      assert PickAll(segs, pivot, Above)[..i + 1] == kept + [newA[..]];
      kept := kept + [newA[..]];
    }
    assert PickAll(segs, pivot, Above)[..|segs|] == PickAll(segs, pivot, Above);
  }

  /** One rank's greater branch: new_a[i] = a[local_less + local_equal + i] for i < local_gt. */
  method KeepGreaterLocal(s: seq<int>, pivot: int, buf: seq<int>, localLess: int, localEqual: int)
    returns (newA: array<int>)
    requires localLess == CountLess(s, pivot) && localEqual == CountEqual(s, pivot)
    requires buf == Pick(s, pivot, Below) + Pick(s, pivot, At) + Pick(s, pivot, Above)
    ensures fresh(newA)
    ensures newA[..] == Pick(s, pivot, Above)
  {
    var localGt := |buf| - localLess - localEqual;
    assert buf[localLess + localEqual..localLess + localEqual + localGt] == Pick(s, pivot, Above);
    newA := CopyRange(buf, localLess + localEqual, localGt);
  }

  /* ---------------------------------------------------------------------- */
  /* One round of parallel_quickselect_mpi                                   */
  /* ---------------------------------------------------------------------- */

  /** How a round ends: the pivot is the answer, or the group continues on a narrowed dataset. */
  datatype RoundResult =
    | Found(pivot: int)
    | Narrowed(segs: seq<seq<int>>, globalN: int, k: int)

  /**
   * The outcome of a round with the given pivot, stated on the global
   * dataset: keep the less zone of every rank, return the pivot, or keep
   * the greater zone of every rank with k shifted past the less and equal
   * zones.
   */
  function NextRound(segs: seq<seq<int>>, k: int, pivot: int): RoundResult {
    var data := Flatten(segs);
    var lessEnd := CountLess(data, pivot);
    var equalEnd := lessEnd + CountEqual(data, pivot);
    if k < lessEnd then Narrowed(PickAll(segs, pivot, Below), lessEnd, k)
    else if k < equalEnd then Found(pivot)
    else Narrowed(PickAll(segs, pivot, Above), GlobalCount(segs) - equalEnd, k - equalEnd)
  }

  /**
   * The round after the pivot is agreed: local_compact on every rank, the
   * two MPI_Allreduce sums, and the three-way branch on k.
   */
  method Round(segs: seq<seq<int>>, globalN: int, k: int, pivot: int) returns (res: RoundResult)
    requires globalN == GlobalCount(segs)
    ensures res == NextRound(segs, k, pivot)
  {
    var compacted, lessCounts, equalCounts := CompactAll(segs, pivot);
    var globalLess := Sum(lessCounts);
    var globalEqual := Sum(equalCounts);
    CountTotals(segs, pivot, compacted, lessCounts, equalCounts);
    var lessEnd := globalLess;
    var equalEnd := globalLess + globalEqual;
    if k < lessEnd {
      var kept := KeepLess(segs, pivot, compacted, lessCounts, equalCounts);
      res := Narrowed(kept, globalLess, k);
    } else if k < equalEnd {
      res := Found(pivot);
    } else {
      var kept := KeepGreater(segs, pivot, compacted, lessCounts, equalCounts);
      res := Narrowed(kept, globalN - (globalLess + globalEqual), k - equalEnd);
    }
  }

  /**
   * Every round preserves the answer, for any pivot value at all: a
   * returned pivot is the k-th smallest of the dataset, and a narrowed
   * dataset keeps global_n equal to its size, keeps k in range and has the
   * same k-th smallest element (at the shifted k). The narrowed dataset is
   * never larger.
   */
  lemma RoundPreservesAnswer(segs: seq<seq<int>>, k: int, pivot: int)
    requires 0 <= k < GlobalCount(segs)
    ensures NextRound(segs, k, pivot).Found? ==>
      NextRound(segs, k, pivot).pivot == KthSmallest(Flatten(segs), k)
    ensures NextRound(segs, k, pivot).Narrowed? ==>
      var next := NextRound(segs, k, pivot);
      && next.globalN == GlobalCount(next.segs) <= GlobalCount(segs)
      && |next.segs| == |segs|
      && 0 <= next.k < next.globalN
      && KthSmallest(Flatten(next.segs), next.k) == KthSmallest(Flatten(segs), k)
  {
    var data := Flatten(segs);
    var L, E, G := Pick(data, pivot, Below), Pick(data, pivot, At), Pick(data, pivot, Above);
    ThreeWayMultiset(data, pivot);
    ZoneSizes(data, pivot);
    FlattenPick(segs, pivot, Below);
    FlattenPick(segs, pivot, Above);
    KthOfZones(data, L, E, G, pivot, k);
  }

  /**
   * A round whose pivot occurs in the dataset and that does not return
   * strictly shrinks global_n: the equal zone is non-empty and is dropped.
   */
  lemma RoundProgress(segs: seq<seq<int>>, k: int, pivot: int)
    requires pivot in Flatten(segs)
    ensures NextRound(segs, k, pivot).Narrowed? ==>
      NextRound(segs, k, pivot).globalN < GlobalCount(segs)
  {
    var data := Flatten(segs);
    CountEqualMember(data, pivot);
    ZoneSizes(data, pivot);
  }

  /**
   * A pivot below every element leaves the round where it began: no rank
   * has a less or equal zone, so every rank keeps its whole segment, and
   * global_n and k are unchanged.
   */
  lemma SentinelStalls(segs: seq<seq<int>>, k: int, pivot: int)
    requires forall i :: 0 <= i < |segs| ==> AllIn(segs[i], pivot, Above)
    requires 0 <= k
    ensures NextRound(segs, k, pivot) == Narrowed(segs, GlobalCount(segs), k)
  {
    var data := Flatten(segs);
    forall i | 0 <= i < |segs|
      ensures PickAll(segs, pivot, Above)[i] == segs[i]
    {
      PickWhole(segs[i], pivot, Above);
    }
    assert PickAll(segs, pivot, Above) == segs;
    FlattenPick(segs, pivot, Above);
    ZoneSizes(data, pivot);
  }

  /**
   * Two ranks, one holding 50001 copies of 1 and one holding nothing:
   * the empty rank proposes the sentinel 0, global_n is above the gather
   * threshold, and a round on 0 changes nothing.
   */
  lemma SentinelStallExample()
    ensures var segs := [seq(50001, i => 1), []];
      && Proposes(segs[1], 0)
      && GlobalCount(segs) > GatherThreshold
      && NextRound(segs, 0, 0) == Narrowed(segs, GlobalCount(segs), 0)
  {
    var ones: seq<int> := seq(50001, i => 1);
    var segs := [ones, []];
    assert segs[..1] == [ones] && [ones][..0] == [];
    assert Flatten([ones]) == Flatten([]) + ones;
    assert Flatten(segs) == Flatten([ones]) + [];
    assert AllIn(ones, 0, Above);
    SentinelStalls(segs, 0, 0);
  }

  /* ---------------------------------------------------------------------- */
  /* Pivot consensus                                                         */
  /* ---------------------------------------------------------------------- */

  /** A rank's proposal: an element of its segment, or the sentinel 0 when the segment is empty. */
  predicate Proposes(seg: seq<int>, p: int) {
    if |seg| == 0 then p == 0 else p in seg
  }

  /**
   * Pivot consensus as written: every rank proposes a[rand() % n_local]
   * or the sentinel 0, the root gathers the proposals and picks
   * pivots[rand() % size]. Random draws are arbitrary choices.
   */
  method ChoosePivotAsWritten(segs: seq<seq<int>>) returns (pivot: int)
    requires 1 <= |segs|
    ensures exists i :: 0 <= i < |segs| && Proposes(segs[i], pivot)
  {
    var pivots: seq<int> := [];
    for i := 0 to |segs|
      invariant |pivots| == i
      invariant forall j :: 0 <= j < i ==> Proposes(segs[j], pivots[j])
    {
      var localPivot := 0;
      if |segs[i]| > 0 {
        var r :| 0 <= r < |segs[i]|;
        localPivot := segs[i][r];
      }
      pivots := pivots + [localPivot];
    }
    var r :| 0 <= r < |pivots|;
    pivot := pivots[r];
    assert Proposes(segs[r], pivot);
  }

  /**
   * Pivot consensus with the sentinel excluded: only ranks with a
   * non-empty segment propose, so the agreed pivot is an element of the
   * dataset.
   */
  method ChoosePivot(segs: seq<seq<int>>) returns (pivot: int)
    requires GlobalCount(segs) > 0
    ensures pivot in Flatten(segs)
  {
    var pivots: seq<int> := [];
    for i := 0 to |segs|
      invariant forall j :: 0 <= j < |pivots| ==> pivots[j] in Flatten(segs)
      invariant |pivots| == 0 ==> Flatten(segs[..i]) == []
    {
      FlattenStep(segs, i);
      if |segs[i]| > 0 {
        var r :| 0 <= r < |segs[i]|;
        FlattenMember(segs, i, segs[i][r]);
        pivots := pivots + [segs[i][r]];
      }
    }
    assert segs[..|segs|] == segs;
    var r :| 0 <= r < |pivots|;
    pivot := pivots[r];
  }

  /* ---------------------------------------------------------------------- */
  /* The serial finish                                                       */
  /* ---------------------------------------------------------------------- */

  /** The root's displacement loop: displs are the prefix sums of recvcounts, total their sum. */
  method Displacements(recvcounts: seq<int>) returns (displs: array<int>, total: int)
    ensures fresh(displs) && displs.Length == |recvcounts|
    ensures forall i :: 0 <= i < |recvcounts| ==> displs[i] == Sum(recvcounts[..i])
    ensures total == Sum(recvcounts)
  {
    displs := new int[|recvcounts|];
    total := 0;
    for i := 0 to |recvcounts|
      invariant total == Sum(recvcounts[..i])
      invariant forall j :: 0 <= j < i ==> displs[j] == Sum(recvcounts[..j])
    {
      displs[i] := total;
      SumPrefixStep(recvcounts, i);
      total := total + recvcounts[i];
    }
    assert recvcounts[..|recvcounts|] == recvcounts;
  }

  /** The displacement of rank i is where its segment starts in the concatenation. */
  lemma PrefixLength(segs: seq<seq<int>>, i: int)
    requires 0 <= i <= |segs|
    ensures Sum(Lengths(segs)[..i]) == |Flatten(segs[..i])| <= |Flatten(segs)|
  {
    assert Lengths(segs)[..i] == Lengths(segs[..i]);
    FlattenLength(segs[..i]);
    assert segs == segs[..i] + segs[i..];
    FlattenConcat(segs[..i], segs[i..]);
  }

  /** Writes seg at offset at, leaving everything before it alone. */
  method CopyInto(all: array<int>, seg: seq<int>, at: int)
    requires 0 <= at && at + |seg| <= all.Length
    modifies all
    ensures all[..at] == old(all[..at])
    ensures all[at..at + |seg|] == seg
  {
    forall j | 0 <= j < |seg| {
      all[at + j] := seg[j];
    }
  }

  /** MPI_Gatherv at the root: segment i lands at displs[i]. */
  method Gatherv(segs: seq<seq<int>>, displs: seq<int>, total: int) returns (all: array<int>)
    requires |displs| == |segs|
    requires forall i :: 0 <= i < |segs| ==> displs[i] == Sum(Lengths(segs)[..i])
    requires total == Sum(Lengths(segs))
    ensures fresh(all)
    ensures all[..] == Flatten(segs)
  {
    FlattenLength(segs);
    all := new int[total];
    for i := 0 to |segs|
      invariant |Flatten(segs[..i])| <= total
      invariant all[..|Flatten(segs[..i])|] == Flatten(segs[..i])
    {
      PrefixLength(segs, i);
      PrefixLength(segs, i + 1);
      FlattenStep(segs, i);
      var at := displs[i];
      CopyInto(all, segs[i], at);
      assert all[..at + |segs[i]|] == all[..at] + all[at..at + |segs[i]|];
    }
    assert segs[..|segs|] == segs;
  }

  /**
   * The small case: gather every segment at the root, run serial_select
   * on the concatenation and broadcast its answer.
   */
  method GatherAndSelect(segs: seq<seq<int>>, k: int) returns (ans: int)
    requires 0 <= k < GlobalCount(segs)
    ensures ans == KthSmallest(Flatten(segs), k)
  {
    var recvcounts := Lengths(segs);
    var displs, total := Displacements(recvcounts);
    var all := Gatherv(segs, displs[..], total);
    assert all[0..total] == Flatten(segs);
    ans := SerialSelect(all, 0, total, k);
  }

  /* ---------------------------------------------------------------------- */
  /* The driver                                                              */
  /* ---------------------------------------------------------------------- */

  /**
   * parallel_quickselect_mpi as written, pivot consensus included. Its
   * while (1) loop need not end (see SentinelStalls), so the model runs
   * at most `rounds` rounds and answers None when they run out. Any
   * answer it gives is the k-th smallest element of the whole dataset,
   * and a dataset at or below the gather threshold is always answered.
   */
  method QuickselectAsWritten(segs: seq<seq<int>>, k: int, rounds: nat) returns (r: Option<int>)
    requires 1 <= |segs|
    requires 0 <= k < GlobalCount(segs)
    ensures r.Some? ==> r.value == KthSmallest(Flatten(segs), k)
    ensures GlobalCount(segs) <= GatherThreshold ==> r.Some?
  {
    var cur, curK := segs, k;
    var globalN := GlobalCount(segs);
    var budget := rounds;
    while true
      invariant |cur| == |segs|
      invariant globalN == GlobalCount(cur) <= GlobalCount(segs)
      invariant 0 <= curK < globalN
      invariant KthSmallest(Flatten(cur), curK) == KthSmallest(Flatten(segs), k)
      decreases budget
    {
      if globalN <= GatherThreshold {
        var ans := GatherAndSelect(cur, curK);
        return Some(ans);
      }
      if budget == 0 {
        return None;
      }
      var pivot := ChoosePivotAsWritten(cur);
      var res := Round(cur, globalN, curK, pivot);
      RoundPreservesAnswer(cur, curK, pivot);
      if res.Found? {
        return Some(res.pivot);
      }
      cur, globalN, curK := res.segs, res.globalN, res.k;
      budget := budget - 1;
    }
  }

  /**
   * parallel_quickselect_mpi with the sentinel never agreed on: every
   * round that does not answer strictly shrinks global_n, so the loop
   * ends, and it returns the k-th smallest element of the whole dataset.
   */
  method ParallelQuickselect(segs: seq<seq<int>>, k: int) returns (r: int)
    requires 0 <= k < GlobalCount(segs)
    ensures r == KthSmallest(Flatten(segs), k)
  {
    var cur, curK := segs, k;
    var globalN := GlobalCount(segs);
    while true
      invariant globalN == GlobalCount(cur)
      invariant 0 <= curK < globalN
      invariant KthSmallest(Flatten(cur), curK) == KthSmallest(Flatten(segs), k)
      decreases globalN
    {
      if globalN <= GatherThreshold {
        r := GatherAndSelect(cur, curK);
        return;
      }
      var pivot := ChoosePivot(cur);
      var res := Round(cur, globalN, curK, pivot);
      RoundPreservesAnswer(cur, curK, pivot);
      RoundProgress(cur, curK, pivot);
      if res.Found? {
        return res.pivot;
      }
      cur, globalN, curK := res.segs, res.globalN, res.k;
    }
  }

  /* ---------------------------------------------------------------------- */
  /* Block distribution in main                                              */
  /* ---------------------------------------------------------------------- */

  /*
   * main splits n elements among size ranks with base = n / size and
   * rem = n % size; the arithmetic below takes base and rem as given, and
   * BlockEnds is the one place that relates them back to n and size.
   */

  /** local_n of rank `rank`, and sendcounts[rank]: base, plus one for each of the first rem ranks. */
  function BlockCount(base: int, rem: int, rank: int): int {
    base + (if rank < rem then 1 else 0)
  }

  /** sendcounts, rank by rank. */
  function BlockCounts(base: int, rem: int, size: nat): (c: seq<int>)
    ensures |c| == size
  {
    seq(size, i requires 0 <= i < size => BlockCount(base, rem, i))
  }

  /** Where rank `rank`'s block starts, in closed form: rank * base + min(rank, rem). */
  function BlockStart(base: int, rem: int, rank: int): int {
    rank * base + (if rank < rem then rank else rem)
  }

  lemma BlockStartStep(base: int, rem: int, rank: int)
    ensures BlockStart(base, rem, rank + 1) == BlockStart(base, rem, rank) + BlockCount(base, rem, rank)
  {
    assert (rank + 1) * base == rank * base + base;
  }

  /** With base = n / size and rem = n % size, the blocks tile [0, n). */
  lemma BlockEnds(n: int, size: int)
    requires 0 <= n && 1 <= size
    ensures 0 <= n / size && 0 <= n % size < size
    ensures BlockStart(n / size, n % size, 0) == 0
    ensures BlockStart(n / size, n % size, size) == n
  {
  }

  /** displs[m] = Sum(sendcounts[..m]) is the closed-form start of block m. */
  lemma {:induction false} BlockPrefix(base: int, rem: int, size: nat, m: int)
    requires 0 <= rem && 0 <= m <= size
    ensures Sum(BlockCounts(base, rem, size)[..m]) == BlockStart(base, rem, m)
  {
    if m > 0 {
      BlockPrefix(base, rem, size, m - 1);
      SumPrefixStep(BlockCounts(base, rem, size), m - 1);
      BlockStartStep(base, rem, m - 1);
    }
  }

  /** The block counts add up to n. */
  lemma BlockTotal(n: int, size: int)
    requires 0 <= n && 1 <= size
    ensures Sum(BlockCounts(n / size, n % size, size)) == n
  {
    var c := BlockCounts(n / size, n % size, size);
    BlockEnds(n, size);
    BlockPrefix(n / size, n % size, size, size);
    assert c[..size] == c;
  }

  /** Block sizes never grow with the rank and differ by at most one. */
  lemma BlockBalanced(n: int, size: int, i: int, j: int)
    requires 0 <= n && 1 <= size && 0 <= i <= j < size
    ensures 0 <= BlockCount(n / size, n % size, j)
    ensures BlockCount(n / size, n % size, j) <= BlockCount(n / size, n % size, i)
    ensures BlockCount(n / size, n % size, i) <= BlockCount(n / size, n % size, j) + 1
  {
  }

  lemma BlockMonotone(base: int, rem: int, i: int, j: int)
    requires 0 <= base && 0 <= rem && 0 <= i <= j
    ensures 0 <= BlockStart(base, rem, i) <= BlockStart(base, rem, j)
  {
    assert j * base == i * base + (j - i) * base;
    assert 0 <= i * base && 0 <= (j - i) * base;
  }

  /** The root's sendcounts and displs for n elements over size ranks. */
  method BlockDistribution(n: int, size: int) returns (sendcounts: array<int>, displs: array<int>)
    requires 0 <= n && 1 <= size
    ensures fresh(sendcounts) && fresh(displs)
    ensures sendcounts[..] == BlockCounts(n / size, n % size, size)
    ensures displs.Length == size
    ensures forall i :: 0 <= i < size ==> displs[i] == Sum(sendcounts[..i])
  {
    var base := n / size;
    var rem := n % size;
    BlockEnds(n, size);
    sendcounts, displs := BlockLoop(base, rem, size);
  }

  /** The loop that fills sendcounts and displs, with offset running over the prefix sums. */
  method BlockLoop(base: int, rem: int, size: nat) returns (sendcounts: array<int>, displs: array<int>)
    requires 0 <= rem
    ensures fresh(sendcounts) && fresh(displs)
    ensures sendcounts[..] == BlockCounts(base, rem, size)
    ensures displs.Length == size
    ensures forall i :: 0 <= i < size ==> displs[i] == Sum(sendcounts[..i])
  {
    sendcounts := new int[size];
    displs := new int[size];
    var offset := 0;
    for i := 0 to size
      invariant forall j :: 0 <= j < i ==> sendcounts[j] == BlockCount(base, rem, j)
      invariant forall j :: 0 <= j < i ==> displs[j] == BlockStart(base, rem, j)
      invariant offset == BlockStart(base, rem, i)
    {
      sendcounts[i] := base + (if i < rem then 1 else 0);
      displs[i] := offset;
      BlockStartStep(base, rem, i);
      offset := offset + sendcounts[i];
    }
    assert sendcounts[..] == BlockCounts(base, rem, size);
    forall i | 0 <= i < size
      ensures displs[i] == Sum(sendcounts[..i])
    {
      BlockPrefix(base, rem, size, i);
    }
  }

  /** Rank `rank`'s block of the global array g. */
  function Block(g: seq<int>, size: int, rank: int): (b: seq<int>)
    requires 1 <= size && 0 <= rank < size
    ensures |b| == BlockCount(|g| / size, |g| % size, rank)
  {
    var base, rem := |g| / size, |g| % size;
    BlockEnds(|g|, size);
    BlockStartStep(base, rem, rank);
    BlockMonotone(base, rem, rank + 1, size);
    g[BlockStart(base, rem, rank)..BlockStart(base, rem, rank + 1)]
  }

  /** The segments MPI_Scatterv hands out: rank i receives its block. */
  function Scatter(g: seq<int>, size: int): (segs: seq<seq<int>>)
    requires 1 <= size
    ensures |segs| == size
  {
    seq(size, i requires 0 <= i < size => Block(g, size, i))
  }

  lemma {:induction false} ScatterPrefix(g: seq<int>, size: int, m: int)
    requires 1 <= size && 0 <= m <= size
    ensures BlockStart(|g| / size, |g| % size, m) <= |g|
    ensures Flatten(Scatter(g, size)[..m]) == g[..BlockStart(|g| / size, |g| % size, m)]
  {
    var base, rem := |g| / size, |g| % size;
    BlockEnds(|g|, size);
    BlockMonotone(base, rem, m, size);
    if m > 0 {
      ScatterPrefix(g, size, m - 1);
      FlattenStep(Scatter(g, size), m - 1);
      BlockMonotone(base, rem, m - 1, m);
      var a, b := BlockStart(base, rem, m - 1), BlockStart(base, rem, m);
      assert g[..b] == g[..a] + g[a..b];
    }
  }

  /** Scattering by blocks and gathering in rank order gives back the global array. */
  lemma ScatterFlatten(g: seq<int>, size: int)
    requires 1 <= size
    ensures Flatten(Scatter(g, size)) == g
  {
    ScatterPrefix(g, size, size);
    assert Scatter(g, size)[..size] == Scatter(g, size);
    BlockEnds(|g|, size);
  }

  /** What MPI_Scatterv sends rank i, given the root's sendcounts and displs. */
  lemma ScatterBlock(g: seq<int>, size: int, sc: seq<int>, ds: seq<int>, i: int)
    requires 1 <= size && 0 <= i < size
    requires sc == BlockCounts(|g| / size, |g| % size, size) && |ds| == size
    requires forall j :: 0 <= j < size ==> ds[j] == Sum(sc[..j])
    ensures 0 <= ds[i] <= ds[i] + sc[i] <= |g|
    ensures g[ds[i]..ds[i] + sc[i]] == Block(g, size, i)
    ensures Scatter(g, size)[..i] + [Block(g, size, i)] == Scatter(g, size)[..i + 1]
  {
    var base, rem := |g| / size, |g| % size;
    BlockEnds(|g|, size);
    BlockPrefix(base, rem, size, i);
    BlockStartStep(base, rem, i);
    BlockMonotone(base, rem, i + 1, size);
  }

  /**
   * The root's share of main: compute the block distribution and hand every
   * rank its block, as MPI_Scatterv does. The segments, in rank order, are
   * the blocks of the array and concatenate back to it.
   */
  method ScatterSegments(g: seq<int>, size: int) returns (segs: seq<seq<int>>)
    requires 1 <= size
    ensures segs == Scatter(g, size)
    ensures |segs| == size && Flatten(segs) == g
  {
    var sendcounts, displs := BlockDistribution(|g|, size);
    var sc, ds := sendcounts[..], displs[..];
    segs := [];
    for i := 0 to size
      invariant segs == Scatter(g, size)[..i]
    {
      ScatterBlock(g, size, sc, ds, i);
      segs := segs + [g[ds[i]..ds[i] + sc[i]]];
    }
    assert segs == Scatter(g, size);
    ScatterFlatten(g, size);
  }

  /**
   * main without its I/O: distribute the array by blocks, then run the
   * selection as written, which may stall on the sentinel pivot; `rounds`
   * bounds its `while (1)` loop. Any answer is the k-th smallest element of
   * the whole array, and an array of at most 50000 elements is always answered.
   */
  method DistributedSelect(g: seq<int>, size: int, k: int, rounds: nat) returns (r: Option<int>)
    requires 1 <= size
    requires 0 <= k < |g|
    ensures r.Some? ==> r.value == KthSmallest(g, k)
    ensures |g| <= GatherThreshold ==> r.Some?
  {
    var segs := ScatterSegments(g, size);
    r := QuickselectAsWritten(segs, k, rounds);
  }

  /**
   * main with the corrected pivot agreement (only ranks holding data propose):
   * it always terminates with the k-th smallest element of the whole array,
   * whatever the number of processes.
   */
  method DistributedSelectCorrected(g: seq<int>, size: int, k: int) returns (r: int)
    requires 1 <= size
    requires 0 <= k < |g|
    ensures r == KthSmallest(g, k)
  {
    var segs := ScatterSegments(g, size);
    r := ParallelQuickselect(segs, k);
  }
}
