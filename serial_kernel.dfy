/**
 * The serial kernel of src/utils.c: the stable three-way partition, the
 * quickselect with its Dutch-national-flag partition, the insertion sort of
 * small groups, the median-of-medians pivot and the verification oracle.
 *
 * A C slice `a + lo` of n elements is modelled by an array together with
 * the offset lo: the elements are a[lo..lo + n], and nothing outside them
 * changes.
 */
module SerialKernel {
  import opened OrderStatistics

  /* ---------------------------------------------------------------------- */
  /* verify_kth_smallest                                                     */
  /* ---------------------------------------------------------------------- */

  /**
   * The oracle: sort a copy and compare index k with the candidate. It
   * rejects every k outside [0, |a|), and otherwise accepts exactly the value
   * whose rank range in a covers k.
   */
  function VerifyKthSmallest(a: seq<int>, k: int, candidate: int): (ok: bool)
    ensures ok <==> 0 <= k < |a| && CountLess(a, candidate) <= k < CountAtMost(a, candidate)
    ensures ok ==> candidate in a
  {
    if k < 0 || k >= |a| then false
    else
      KthRank(a, k, candidate);
      KthMember(a, k);
      SortSeq(a)[k] == candidate
  }

  /* ---------------------------------------------------------------------- */
  /* serial_partition                                                        */
  /* ---------------------------------------------------------------------- */

  /**
   * serial_partition: a counting pass, then a stable scatter into a
   * temporary buffer, then the copy back. a[lo..lo + n] becomes the
   * three-way partition of its old contents, the zone sizes are returned,
   * and nothing outside the slice changes.
   */
  method SerialPartition(a: array<int>, lo: int, n: int, pivot: int)
    returns (size: int, nLess: int, nEqual: int)
    requires 0 <= lo && 0 <= n && lo + n <= a.Length
    modifies a
    ensures size == n
    ensures a[lo..lo + n] == ThreeWay(old(a[lo..lo + n]), pivot)
    ensures nLess == CountLess(old(a[lo..lo + n]), pivot)
    ensures nEqual == CountEqual(old(a[lo..lo + n]), pivot)
    ensures SameOutside(old(a[..]), a[..], lo, lo + n)
  {
    var lt, eq, gt := CountZones(a[lo..lo + n], pivot);
    var tmp := ScatterZones(a[lo..lo + n], pivot, lt, eq);
    forall m | 0 <= m < n {
      a[lo + m] := tmp[m];
    }
    assert a[lo..lo + n] == tmp[..];
    size, nLess, nEqual := n, lt, eq;
  }

  /** The counting pass of serial_partition over the slice s: the sizes of the three zones. */
  method CountZones(s: seq<int>, pivot: int) returns (lt: int, eq: int, gt: int)
    ensures lt == CountLess(s, pivot)
    ensures eq == CountEqual(s, pivot)
    ensures gt == CountGreater(s, pivot)
    ensures lt + eq + gt == |s|
  {
    lt, eq, gt := 0, 0, 0;
    for i := 0 to |s|
      invariant lt == CountLess(s[..i], pivot)
      invariant eq == CountEqual(s[..i], pivot)
      invariant gt == CountGreater(s[..i], pivot)
    {
      CountsPrefixStep(s, i, pivot);
      if s[i] < pivot {
        lt := lt + 1;
      } else if s[i] == pivot {
        eq := eq + 1;
      } else {
        gt := gt + 1;
      }
    }
    assert s[..|s|] == s;
    ZoneSizes(s, pivot);
  }

  /**
   * The scatter pass of serial_partition: each element of a[lo..lo + n] is
   * appended to its zone of a fresh buffer, whose zones start at 0, lt and
   * lt + eq. The buffer ends up holding the three-way partition.
   */
  method ScatterZones(s: seq<int>, pivot: int, lt: int, eq: int)
    returns (tmp: array<int>)
    requires lt == CountLess(s, pivot)
    requires eq == CountEqual(s, pivot)
    ensures fresh(tmp) && tmp.Length == |s|
    ensures tmp[..] == ThreeWay(s, pivot)
  {
    var n := |s|;
    tmp := new int[n];
    var idxLt, idxEq, idxGt := 0, lt, lt + eq;
    ScatterStart(tmp[..], s, pivot, lt, eq);
    for i := 0 to n
      invariant tmp.Length == n
      invariant Scattered(tmp[..], s, i, pivot, lt, eq, idxLt, idxEq, idxGt)
    {
      var x := s[i];
      idxLt, idxEq, idxGt := ScatterOne(tmp, x, s, i, pivot, lt, eq, idxLt, idxEq, idxGt);
    }
    ScatterDone(tmp[..], s, pivot, lt, eq, idxLt, idxEq, idxGt);
  }

  /** One step of the scatter pass: x = s[i] goes to the cursor of its zone, which advances. */
  method ScatterOne(tmp: array<int>, x: int, ghost s: seq<int>, ghost i: int, pivot: int,
                    ghost lt: int, ghost eq: int, idxLt: int, idxEq: int, idxGt: int)
    returns (idxLt': int, idxEq': int, idxGt': int)
    requires Scattered(tmp[..], s, i, pivot, lt, eq, idxLt, idxEq, idxGt)
    requires i < |s| && x == s[i]
    modifies tmp
    ensures Scattered(tmp[..], s, i + 1, pivot, lt, eq, idxLt', idxEq', idxGt')
  {
    ghost var t := tmp[..];
    ScatterStep(t, s, i, pivot, lt, eq, idxLt, idxEq, idxGt);
    idxLt', idxEq', idxGt' := idxLt, idxEq, idxGt;
    if x < pivot {
      tmp[idxLt] := x;
      assert tmp[..] == t[idxLt := x];
      idxLt' := idxLt + 1;
    } else if x == pivot {
      tmp[idxEq] := x;
      assert tmp[..] == t[idxEq := x];
      idxEq' := idxEq + 1;
    } else {
      tmp[idxGt] := x;
      assert tmp[..] == t[idxGt := x];
      idxGt' := idxGt + 1;
    }
  }

  /**
   * The scatter invariant after the first i elements of s: zone z of the
   * buffer t, which starts at 0, lt or lt + eq, holds the elements of s[..i]
   * in zone z, in order, up to its cursor.
   */
  ghost predicate Scattered(t: seq<int>, s: seq<int>, i: int, p: int, lt: int, eq: int,
                            idxLt: int, idxEq: int, idxGt: int)
  {
    var ok := 0 <= i <= |s| == |t|
    && lt == CountLess(s, p) && eq == CountEqual(s, p)
    && idxLt <= lt <= idxEq <= lt + eq <= idxGt
    && Placed(t, 0, idxLt, s, i, p, Below)
    && Placed(t, lt, idxEq, s, i, p, At)
    && Placed(t, lt + eq, idxGt, s, i, p, Above);
    ok
  }

  /** Before the first element, every zone is empty at its start. */
  lemma ScatterStart(t: seq<int>, s: seq<int>, p: int, lt: int, eq: int)
    requires |t| == |s|
    requires lt == CountLess(s, p) && eq == CountEqual(s, p)
    ensures Scattered(t, s, 0, p, lt, eq, 0, lt, lt + eq)
  {
    ZoneSizes(s, p);
  }

  /** Writing s[i] at the cursor of its zone keeps the scatter invariant. */
  lemma ScatterStep(t: seq<int>, s: seq<int>, i: int, p: int, lt: int, eq: int,
                    idxLt: int, idxEq: int, idxGt: int)
    requires Scattered(t, s, i, p, lt, eq, idxLt, idxEq, idxGt) && i < |s|
    ensures s[i] < p ==> (idxLt < |t|
      && Scattered(t[idxLt := s[i]], s, i + 1, p, lt, eq, idxLt + 1, idxEq, idxGt))
    ensures s[i] == p ==> (idxEq < |t|
      && Scattered(t[idxEq := s[i]], s, i + 1, p, lt, eq, idxLt, idxEq + 1, idxGt))
    ensures s[i] > p ==> (idxGt < |t|
      && Scattered(t[idxGt := s[i]], s, i + 1, p, lt, eq, idxLt, idxEq, idxGt + 1))
  {
    if s[i] < p {
      ScatterBelow(t, s, i, p, lt, eq, idxLt, idxEq, idxGt);
    } else if s[i] == p {
      ScatterAt(t, s, i, p, lt, eq, idxLt, idxEq, idxGt);
    } else {
      ScatterAbove(t, s, i, p, lt, eq, idxLt, idxEq, idxGt);
    }
  }

  /** Writing a below-pivot s[i] at the lower cursor keeps the scatter invariant. */
  lemma ScatterBelow(t: seq<int>, s: seq<int>, i: int, p: int, lt: int, eq: int,
                     idxLt: int, idxEq: int, idxGt: int)
    requires Scattered(t, s, i, p, lt, eq, idxLt, idxEq, idxGt) && i < |s| && s[i] < p
    ensures idxLt < |t|
    ensures Scattered(t[idxLt := s[i]], s, i + 1, p, lt, eq, idxLt + 1, idxEq, idxGt)
  {
    PlacedGrow(t, 0, idxLt, s, i, p, Below, lt);
    PlacedKeep(t, lt, idxEq, s, i, p, At, idxLt);
    PlacedKeep(t, lt + eq, idxGt, s, i, p, Above, idxLt);
  }

  /** Writing a pivot-equal s[i] at the middle cursor keeps the scatter invariant. */
  lemma ScatterAt(t: seq<int>, s: seq<int>, i: int, p: int, lt: int, eq: int,
                  idxLt: int, idxEq: int, idxGt: int)
    requires Scattered(t, s, i, p, lt, eq, idxLt, idxEq, idxGt) && i < |s| && s[i] == p
    ensures idxEq < |t|
    ensures Scattered(t[idxEq := s[i]], s, i + 1, p, lt, eq, idxLt, idxEq + 1, idxGt)
  {
    PlacedGrow(t, lt, idxEq, s, i, p, At, lt + eq);
    PlacedKeep(t, 0, idxLt, s, i, p, Below, idxEq);
    PlacedKeep(t, lt + eq, idxGt, s, i, p, Above, idxEq);
  }

  /** Writing an above-pivot s[i] at the upper cursor keeps the scatter invariant. */
  lemma ScatterAbove(t: seq<int>, s: seq<int>, i: int, p: int, lt: int, eq: int,
                     idxLt: int, idxEq: int, idxGt: int)
    requires Scattered(t, s, i, p, lt, eq, idxLt, idxEq, idxGt) && i < |s| && s[i] > p
    ensures idxGt < |t|
    ensures Scattered(t[idxGt := s[i]], s, i + 1, p, lt, eq, idxLt, idxEq, idxGt + 1)
  {
    ZoneSizes(s, p);
    PlacedGrow(t, lt + eq, idxGt, s, i, p, Above, |s|);
    PlacedKeep(t, 0, idxLt, s, i, p, Below, idxGt);
    PlacedKeep(t, lt, idxEq, s, i, p, At, idxGt);
  }

  /**
   * When the whole of s has been placed, the three zones fill the buffer
   * and it holds the three-way partition.
   */
  lemma ScatterDone(t: seq<int>, s: seq<int>, p: int, lt: int, eq: int,
                    idxLt: int, idxEq: int, idxGt: int)
    requires Scattered(t, s, |s|, p, lt, eq, idxLt, idxEq, idxGt)
    ensures t == ThreeWay(s, p)
  {
    assert s[..|s|] == s;
    ZoneSizes(s, p);
    assert idxLt == lt && idxEq == lt + eq && idxGt == |t|;
    assert t == t[0..idxLt] + t[lt..idxEq] + t[lt + eq..idxGt];
  }

  /** t[start..idx] holds, in order, the elements of s[..i] in zone z of p. */
  ghost predicate Placed(t: seq<int>, start: int, idx: int, s: seq<int>, i: int, p: int, z: Zone)
  {
    0 <= start <= idx <= |t| && 0 <= i <= |s| && t[start..idx] == Pick(s[..i], p, z)
  }

  /**
   * Appending s[i], which lies in zone z, at idx extends zone z by one, and
   * there is room for it below the zone's end: the zone of the whole of s
   * ends there.
   */
  lemma PlacedGrow(t: seq<int>, start: int, idx: int, s: seq<int>, i: int, p: int, z: Zone,
                   end: int)
    requires Placed(t, start, idx, s, i, p, z) && i < |s| && ZoneOf(s[i], p) == z
    requires end == start + |Pick(s, p, z)| <= |t|
    ensures idx < end
    ensures Placed(t[idx := s[i]], start, idx + 1, s, i + 1, p, z)
  {
    PickPrefixStep(s, i, p, z);
    assert t[idx := s[i]][start..idx + 1] == t[start..idx] + [s[i]];
  }

  /** Writing s[i], which lies outside zone z, outside t[start..idx] keeps zone z. */
  lemma PlacedKeep(t: seq<int>, start: int, idx: int, s: seq<int>, i: int, p: int, z: Zone,
                   j: int)
    requires Placed(t, start, idx, s, i, p, z) && i < |s| && ZoneOf(s[i], p) != z
    requires 0 <= j < |t| && !(start <= j < idx)
    ensures Placed(t[j := s[i]], start, idx, s, i + 1, p, z)
  {
    PickPrefixStep(s, i, p, z);
    assert t[j := s[i]][start..idx] == t[start..idx];
  }

  /* ---------------------------------------------------------------------- */
  /* serial_select                                                           */
  /* ---------------------------------------------------------------------- */

  /**
   * The in-place Dutch-national-flag pass of serial_select over
   * a[left..right]: three cursors lt, i and gt; afterwards the range reads
   * [<pivot][==pivot][>pivot] with the equal zone at [lt, gt].
   */
  method DutchFlagPartition(a: array<int>, left: int, right: int, pivot: int)
    returns (lt: int, gt: int)
    requires 0 <= left <= right < a.Length
    modifies a
    ensures left <= lt <= gt + 1 <= right + 1
    ensures FlagZones(a[..], left, lt, gt + 1, gt, right, pivot)
    ensures multiset(a[..]) == multiset(old(a[..]))
    ensures SameOutside(old(a[..]), a[..], left, right + 1)
  {
    var i := left;
    lt, gt := left, right;
    while i <= gt
      invariant left <= lt <= i <= gt + 1 <= right + 1 <= a.Length
      invariant FlagZones(a[..], left, lt, i, gt, right, pivot)
      invariant multiset(a[..]) == multiset(old(a[..]))
      invariant SameOutside(old(a[..]), a[..], left, right + 1)
      decreases gt + 1 - i
    {
      ghost var w := a[..];
      if a[i] < pivot {
        Swap(a, lt, i);
        FlagStepBelow(w, a[..], left, lt, i, gt, right, pivot);
        lt, i := lt + 1, i + 1;
      } else if a[i] > pivot {
        Swap(a, gt, i);
        FlagStepAbove(w, a[..], left, lt, i, gt, right, pivot);
        gt := gt - 1;
      } else {
        i := i + 1;
      }
    }
  }

  /**
   * The invariant of the Dutch-flag pass over w[left..right]: [left, lt)
   * is below the pivot, [lt, i) equal to it, (gt, right] above it, and
   * [i, gt] not yet examined.
   */
  ghost predicate FlagZones(w: seq<int>, left: int, lt: int, i: int, gt: int, right: int, pivot: int)
  {
    0 <= left <= lt <= i <= gt + 1 <= right + 1 <= |w|
    && (forall m :: left <= m < lt ==> w[m] < pivot)
    && (forall m :: lt <= m < i ==> w[m] == pivot)
    && (forall m :: gt < m <= right ==> w[m] > pivot)
  }

  /** Swapping a below-pivot w[i] with w[lt] grows the lower zone and keeps the equal one. */
  lemma FlagStepBelow(w: seq<int>, w': seq<int>, left: int, lt: int, i: int, gt: int, right: int, pivot: int)
    requires 0 <= left <= lt <= i <= gt < right + 1 <= |w|
    requires FlagZones(w, left, lt, i, gt, right, pivot)
    requires w[i] < pivot
    requires w' == w[lt := w[i]][i := w[lt]]
    ensures FlagZones(w', left, lt + 1, i + 1, gt, right, pivot)
  {
  }

  /** Swapping an above-pivot w[i] with w[gt] grows the upper zone. */
  lemma FlagStepAbove(w: seq<int>, w': seq<int>, left: int, lt: int, i: int, gt: int, right: int, pivot: int)
    requires 0 <= left <= lt <= i <= gt < right + 1 <= |w|
    requires FlagZones(w, left, lt, i, gt, right, pivot)
    requires w[i] > pivot
    requires w' == w[gt := w[i]][i := w[gt]]
    ensures FlagZones(w', left, lt, i, gt - 1, right, pivot)
  {
  }

  /** Exchanges a[i] and a[j]; the array keeps its multiset of values. */
  method Swap(a: array<int>, i: int, j: int)
    requires 0 <= i < a.Length && 0 <= j < a.Length
    modifies a
    ensures a[..] == old(a[..])[i := old(a[j])][j := old(a[i])]
    ensures multiset(a[..]) == multiset(old(a[..]))
  {
    a[i], a[j] := a[j], a[i];
  }

  /**
   * serial_select on a[lo..lo + n] for rank k: the result is the k-th
   * smallest of the old contents, which are left permuted in place, and
   * nothing outside them changes.
   */
  method SerialSelect(a: array<int>, lo: int, n: int, k: int) returns (r: int)
    requires 0 <= lo && 1 <= n && lo + n <= a.Length
    requires 0 <= k < n
    modifies a
    ensures r == KthSmallest(old(a[lo..lo + n]), k)
    ensures multiset(a[lo..lo + n]) == multiset(old(a[lo..lo + n]))
    ensures SameOutside(old(a[..]), a[..], lo, lo + n)
  {
    ghost var v := RankWitness(a[lo..lo + n], k);
    r := SelectLoop(a, lo, n, k, v);
    KthRank(old(a[lo..lo + n]), k, r);
  }

  /**
   * The loop of serial_select, specified by rank: for any value v of rank k
   * in a[lo..lo + n], the loop returns v. Each pass picks any pivot in the
   * active range [left, right], partitions the range, and keeps the zone
   * that holds the target index lo + k, until the range is one element or
   * the pivot's zone holds the target.
   */
  method SelectLoop(a: array<int>, lo: int, n: int, k: int, ghost v: int) returns (r: int)
    requires 0 <= lo && 1 <= n && lo + n <= a.Length
    requires 0 <= k < n
    requires HasRank(a[lo..lo + n], k, v)
    modifies a
    ensures r == v
    ensures multiset(a[lo..lo + n]) == multiset(old(a[lo..lo + n]))
    ensures SameOutside(old(a[..]), a[..], lo, lo + n)
  {
    ghost var orig := a[..];
    var target := lo + k;
    var left, right := lo, lo + n - 1;
    ghost var parts := SelectStart(orig, v, lo, lo + n, k);
    while true
      invariant SelectState(orig, a[..], v, lo, lo + n, left, right, target, parts)
      decreases right - left
    {
      var found, pivot, left', right';
      found, pivot, left', right', parts := SelectRound(a, orig, v, lo, lo + n, left, right, target, parts);
      if found {
        return pivot;
      }
      left, right := left', right';
    }
  }

  /**
   * One pass of the outer loop of serial_select over the active range
   * [left, right]: a one-element range is the answer; otherwise pick any
   * pivot in the range, run the Dutch-flag pass, and either report the
   * pivot as the answer (the target lies in its zone) or narrow the range
   * to the zone that holds the target.
   */
  method SelectRound(a: array<int>, ghost orig: seq<int>, ghost v: int, lo: int, hi: int,
                     left: int, right: int, target: int, ghost parts: Parts)
    returns (found: bool, pivot: int, left': int, right': int, ghost parts': Parts)
    requires SelectState(orig, a[..], v, lo, hi, left, right, target, parts)
    modifies a
    ensures found ==> (pivot == v && SameOutside(orig, a[..], lo, hi)
      && multiset(a[lo..hi]) == multiset(orig[lo..hi]))
    ensures !found ==> (SelectState(orig, a[..], v, lo, hi, left', right', target, parts')
      && right' - left' < right - left)
  {
    if left == right {
      SelectDone(orig, a[..], v, lo, hi, left, right, target, parts);
      return true, a[left], left, right, parts;
    }
    // rand() % (right - left + 1): any index of the active range
    var pivotIndex :| left <= pivotIndex <= right;
    pivot := a[pivotIndex];
    ghost var w := a[..];
    var lt, gt := DutchFlagPartition(a, left, right, pivot);
    ghost var w' := a[..];
    if target < lt {
      found, left', right' := false, left, lt - 1;
      parts' := RoundBelow(orig, w, w', v, lo, hi, left, right, target, pivotIndex, lt, gt, pivot, parts);
    } else if target > gt {
      found, left', right' := false, gt + 1, right;
      parts' := RoundAbove(orig, w, w', v, lo, hi, left, right, target, pivotIndex, lt, gt, pivot, parts);
    } else {
      RoundAt(orig, w, w', v, lo, hi, left, right, target, pivotIndex, lt, gt, pivot, parts);
      found, left', right', parts' := true, left, right, parts;
    }
  }

  /**
   * The values of w[lo..hi] around the active range [left, right] of
   * serial_select: those before it, those in it and those after it.
   */
  datatype Parts = Parts(before: seq<int>, active: seq<int>, after: seq<int>)

  /**
   * The loop state of serial_select on w, which started as orig: w[lo..hi]
   * is a permutation of orig[lo..hi] and nothing outside it has moved; the
   * active range [left, right] holds the target index t; w[lo..hi] reads
   * parts.before + parts.active + parts.after with parts.active the active
   * range; the answer v has rank t - left within it; and everything before
   * the range is at most everything in it, which is at most everything
   * after it.
   */
  ghost predicate SelectState(orig: seq<int>, w: seq<int>, v: int, lo: int, hi: int,
                              left: int, right: int, t: int, parts: Parts)
  {
    0 <= lo <= left <= t <= right < hi <= |w| &&
    var framed := SameOutside(orig, w, lo, hi) && multiset(w[lo..hi]) == multiset(orig[lo..hi]);
    var split := w[lo..hi] == parts.before + parts.active + parts.after
      && |parts.before| == left - lo && |parts.active| == right + 1 - left;
    var ranked := HasRank(parts.active, t - left, v);
    var bracketed := AllAtMost(parts.before, parts.active) && AllAtMost(parts.active, parts.after);
    framed && split && ranked && bracketed
  }

  /** The whole of orig[lo..hi] is the first active range, and v has rank k in it. */
  lemma SelectStart(orig: seq<int>, v: int, lo: int, hi: int, k: int) returns (parts: Parts)
    requires 0 <= lo < hi <= |orig| && 0 <= k < hi - lo
    requires HasRank(orig[lo..hi], k, v)
    ensures SelectState(orig, orig, v, lo, hi, lo, hi - 1, lo + k, parts)
  {
    parts := Parts([], orig[lo..hi], []);
    assert orig[lo..hi] == parts.before + parts.active + parts.after;
  }

  /** A one-element active range holds the answer. */
  lemma SelectDone(orig: seq<int>, w: seq<int>, v: int, lo: int, hi: int, left: int, right: int,
                   t: int, parts: Parts)
    requires SelectState(orig, w, v, lo, hi, left, right, t, parts)
    requires left == right
    ensures w[left] == v
  {
    var R := parts.active;
    assert w[left] == w[lo..hi][left - lo] == (parts.before + R + parts.after)[left - lo] == R[0];
    assert R == [w[left]];
    if w[left] < v {
      CountsAllBelow(R, v);
    } else if w[left] > v {
      CountsAllAbove(R, v);
    }
  }

  /** The parts of w[lo..hi] are its slices around the active range. */
  lemma PartsSlices(w: seq<int>, lo: int, hi: int, left: int, right: int, parts: Parts)
    requires 0 <= lo <= left <= right < hi <= |w|
    requires w[lo..hi] == parts.before + parts.active + parts.after
    requires |parts.before| == left - lo && |parts.active| == right + 1 - left
    ensures w[lo..left] == parts.before
    ensures w[left..right + 1] == parts.active
    ensures w[right + 1..hi] == parts.after
  {
    var u := parts.before + parts.active + parts.after;
    var b, m := left - lo, right + 1 - lo;
    assert u[..b] == parts.before;
    assert u[b..m] == parts.active;
    assert u[m..] == parts.after;
    SubSlice(w, lo, hi, 0, b);
    SubSlice(w, lo, hi, b, m);
    SubSlice(w, lo, hi, m, hi - lo);
  }

  /** A slice of a slice is a slice. */
  lemma SubSlice(w: seq<int>, lo: int, hi: int, i: int, j: int)
    requires 0 <= lo <= hi <= |w| && 0 <= i <= j <= hi - lo
    ensures w[lo..hi][i..j] == w[lo + i..lo + j]
  {
    assert forall x :: 0 <= x < j - i ==> w[lo..hi][i..j][x] == w[lo + i + x];
  }

  /**
   * What one Dutch-flag pass over the active range of w leaves in w', in
   * terms of the loop state: w'[lo..hi] reads before + L + E + G + after
   * for the three zones L, E, G of the pass, which together permute the
   * active values, with the pivot's zone E not empty; and the slice
   * w'[lo..hi] is still a permutation of orig[lo..hi] with nothing outside
   * it moved.
   */
  lemma Regroup(orig: seq<int>, w: seq<int>, w': seq<int>, v: int, lo: int, hi: int,
                left: int, right: int, t: int, pivotIndex: int, lt: int, gt: int, pivot: int,
                parts: Parts)
    requires SelectState(orig, w, v, lo, hi, left, right, t, parts)
    requires left <= lt <= gt + 1 <= right + 1
    requires FlagZones(w', left, lt, gt + 1, gt, right, pivot)
    requires multiset(w') == multiset(w)
    requires SameOutside(w, w', left, right + 1)
    requires left <= pivotIndex <= right && w[pivotIndex] == pivot
    ensures lt <= gt
    ensures SameOutside(orig, w', lo, hi)
    ensures multiset(w'[lo..hi]) == multiset(orig[lo..hi])
    ensures w'[lo..hi] == parts.before + w'[left..lt] + w'[lt..gt + 1] + w'[gt + 1..right + 1] + parts.after
    ensures multiset(parts.active) == multiset(w'[left..lt] + w'[lt..gt + 1] + w'[gt + 1..right + 1])
    ensures AllIn(w'[left..lt], pivot, Below)
    ensures AllIn(w'[lt..gt + 1], pivot, At)
    ensures AllIn(w'[gt + 1..right + 1], pivot, Above)
  {
    FlagOutcome(w, w', lo, hi, left, right, pivotIndex, lt, gt, pivot);
    RegroupFrame(orig, w, w', lo, hi, left, right);
    RegroupLayout(w, w', lo, hi, left, right, lt, gt, parts);
  }

  /** Proof step only, modelling no line of the C code: a pass that moves values only inside the active range keeps the frame of the loop state. */
  lemma RegroupFrame(orig: seq<int>, w: seq<int>, w': seq<int>, lo: int, hi: int, left: int, right: int)
    requires 0 <= lo <= left <= right < hi <= |w| == |w'|
    requires SameOutside(orig, w, lo, hi) && multiset(w[lo..hi]) == multiset(orig[lo..hi])
    requires multiset(w'[lo..hi]) == multiset(w[lo..hi])
    requires SameOutside(w, w', left, right + 1)
    ensures SameOutside(orig, w', lo, hi)
    ensures multiset(w'[lo..hi]) == multiset(orig[lo..hi])
  {
  }

  /** After the pass, w'[lo..hi] reads before, the three zones, after. */
  lemma RegroupLayout(w: seq<int>, w': seq<int>, lo: int, hi: int, left: int, right: int,
                      lt: int, gt: int, parts: Parts)
    requires 0 <= lo <= left <= lt <= gt + 1 <= right + 1 <= hi <= |w| == |w'| && left <= right
    requires w[lo..hi] == parts.before + parts.active + parts.after
    requires |parts.before| == left - lo && |parts.active| == right + 1 - left
    requires w'[lo..left] == w[lo..left] && w'[right + 1..hi] == w[right + 1..hi]
    ensures w[left..right + 1] == parts.active
    ensures w'[lo..hi] == parts.before + w'[left..lt] + w'[lt..gt + 1] + w'[gt + 1..right + 1] + parts.after
  {
    PartsSlices(w, lo, hi, left, right, parts);
    var L, E, G := w'[left..lt], w'[lt..gt + 1], w'[gt + 1..right + 1];
    var before, after := parts.before, parts.after;
    SliceSplit(w', lo, left, right + 1, hi);
    SliceSplit(w', left, lt, gt + 1, right + 1);
    assert w'[lo..hi] == before + (L + E + G) + after;
    assert before + (L + E + G) + after == before + L + E + G + after;
  }

  /** A round whose target lies below the pivot's zone continues on [left, lt - 1]. */
  lemma RoundBelow(orig: seq<int>, w: seq<int>, w': seq<int>, v: int, lo: int, hi: int,
                   left: int, right: int, t: int, pivotIndex: int, lt: int, gt: int, pivot: int,
                   parts: Parts)
    returns (parts': Parts)
    requires SelectState(orig, w, v, lo, hi, left, right, t, parts)
    requires left <= lt <= gt + 1 <= right + 1
    requires FlagZones(w', left, lt, gt + 1, gt, right, pivot)
    requires multiset(w') == multiset(w)
    requires SameOutside(w, w', left, right + 1)
    requires left <= pivotIndex <= right && w[pivotIndex] == pivot
    requires t < lt
    ensures SelectState(orig, w', v, lo, hi, left, lt - 1, t, parts')
    ensures lt <= gt
  {
    Regroup(orig, w, w', v, lo, hi, left, right, t, pivotIndex, lt, gt, pivot, parts);
    var L, E, G := w'[left..lt], w'[lt..gt + 1], w'[gt + 1..right + 1];
    Narrow(parts.before, parts.active, L, E, G, parts.after, pivot, t - left, v);
    parts' := Parts(parts.before, L, E + G + parts.after);
    assert parts.before + L + E + G + parts.after == parts'.before + parts'.active + parts'.after;
  }

  /** A round whose target lies above the pivot's zone continues on [gt + 1, right]. */
  lemma RoundAbove(orig: seq<int>, w: seq<int>, w': seq<int>, v: int, lo: int, hi: int,
                   left: int, right: int, t: int, pivotIndex: int, lt: int, gt: int, pivot: int,
                   parts: Parts)
    returns (parts': Parts)
    requires SelectState(orig, w, v, lo, hi, left, right, t, parts)
    requires left <= lt <= gt + 1 <= right + 1
    requires FlagZones(w', left, lt, gt + 1, gt, right, pivot)
    requires multiset(w') == multiset(w)
    requires SameOutside(w, w', left, right + 1)
    requires left <= pivotIndex <= right && w[pivotIndex] == pivot
    requires gt < t
    ensures SelectState(orig, w', v, lo, hi, gt + 1, right, t, parts')
    ensures lt <= gt
  {
    Regroup(orig, w, w', v, lo, hi, left, right, t, pivotIndex, lt, gt, pivot, parts);
    var L, E, G := w'[left..lt], w'[lt..gt + 1], w'[gt + 1..right + 1];
    Narrow(parts.before, parts.active, L, E, G, parts.after, pivot, t - left, v);
    parts' := Parts(parts.before + L + E, G, parts.after);
    assert parts.before + L + E + G + parts.after == parts'.before + parts'.active + parts'.after;
  }

  /** A round whose target lies in the pivot's zone has found the answer: the pivot. */
  lemma RoundAt(orig: seq<int>, w: seq<int>, w': seq<int>, v: int, lo: int, hi: int,
                left: int, right: int, t: int, pivotIndex: int, lt: int, gt: int, pivot: int,
                parts: Parts)
    requires SelectState(orig, w, v, lo, hi, left, right, t, parts)
    requires left <= lt <= gt + 1 <= right + 1
    requires FlagZones(w', left, lt, gt + 1, gt, right, pivot)
    requires multiset(w') == multiset(w)
    requires SameOutside(w, w', left, right + 1)
    requires left <= pivotIndex <= right && w[pivotIndex] == pivot
    requires lt <= t <= gt
    ensures pivot == v
    ensures multiset(w'[lo..hi]) == multiset(orig[lo..hi])
    ensures SameOutside(orig, w', lo, hi)
  {
    Regroup(orig, w, w', v, lo, hi, left, right, t, pivotIndex, lt, gt, pivot, parts);
    var L, E, G := w'[left..lt], w'[lt..gt + 1], w'[gt + 1..right + 1];
    Narrow(parts.before, parts.active, L, E, G, parts.after, pivot, t - left, v);
  }

  /**
   * What the Dutch-flag pass leaves: three zones below, at and above the
   * pivot that together permute the active range, a non-empty pivot zone
   * [lt, gt], and the rest of [lo, hi) in place.
   */
  lemma FlagOutcome(w: seq<int>, w': seq<int>, lo: int, hi: int, left: int, right: int,
                    pivotIndex: int, lt: int, gt: int, pivot: int)
    requires 0 <= lo <= left <= right < hi <= |w|
    requires left <= lt <= gt + 1 <= right + 1
    requires FlagZones(w', left, lt, gt + 1, gt, right, pivot)
    requires multiset(w') == multiset(w)
    requires SameOutside(w, w', left, right + 1)
    requires left <= pivotIndex <= right && w[pivotIndex] == pivot
    ensures lt <= gt
    ensures multiset(w'[left..lt] + w'[lt..gt + 1] + w'[gt + 1..right + 1]) == multiset(w[left..right + 1])
    ensures multiset(w'[lo..hi]) == multiset(w[lo..hi])
    ensures AllIn(w'[left..lt], pivot, Below)
    ensures AllIn(w'[lt..gt + 1], pivot, At)
    ensures AllIn(w'[gt + 1..right + 1], pivot, Above)
    ensures w'[lo..left] == w[lo..left] && w'[right + 1..hi] == w[right + 1..hi]
  {
    FlagPermutes(w, w', lo, hi, left, right);
    FlagPivotZone(w, w', left, right, pivotIndex, lt, gt, pivot);
    SliceSplit(w', left, lt, gt + 1, right + 1);
  }

  /** A pass that only moves values inside [left, right] permutes that range and [lo, hi). */
  lemma FlagPermutes(w: seq<int>, w': seq<int>, lo: int, hi: int, left: int, right: int)
    requires 0 <= lo <= left <= right < hi <= |w|
    requires multiset(w') == multiset(w)
    requires SameOutside(w, w', left, right + 1)
    ensures multiset(w'[left..right + 1]) == multiset(w[left..right + 1])
    ensures multiset(w'[lo..hi]) == multiset(w[lo..hi])
    ensures w'[lo..left] == w[lo..left] && w'[right + 1..hi] == w[right + 1..hi]
  {
    PermuteInsideOnly(w, w', left, right + 1);
    PermuteInside(w, w', left, right + 1, lo, hi);
  }

  /** The pivot, taken from the range, ends up in the zone [lt, gt], which is therefore not empty. */
  lemma FlagPivotZone(w: seq<int>, w': seq<int>, left: int, right: int,
                      pivotIndex: int, lt: int, gt: int, pivot: int)
    requires 0 <= left <= lt <= gt + 1 <= right + 1 <= |w| == |w'|
    requires FlagZones(w', left, lt, gt + 1, gt, right, pivot)
    requires multiset(w'[left..right + 1]) == multiset(w[left..right + 1])
    requires left <= pivotIndex <= right && w[pivotIndex] == pivot
    ensures lt <= gt
  {
    assert w[left..right + 1][pivotIndex - left] == pivot;
    assert pivot in multiset(w'[left..right + 1]);
    var m :| left <= m <= right && w'[m] == pivot;
  }

  /* ---------------------------------------------------------------------- */
  /* insertion_sort5                                                         */
  /* ---------------------------------------------------------------------- */

  /**
   * Insertion sort of a[start..start + len] by shifting: the slice becomes
   * sorted and a permutation of its old contents (so, by SortedUnique, their
   * ascending sort), and nothing else changes.
   */
  method InsertionSort5(a: array<int>, start: int, len: int)
    requires 0 <= start && 0 <= len && start + len <= a.Length
    modifies a
    ensures SortedRun(old(a[..]), a[..], start, start + len)
  {
    ghost var orig := a[..];
    ghost var s := a[start..start + len];
    if len == 0 {
      return;
    }
    var i := start + 1;
    while i < start + len
      invariant InsertState(orig, a[..], start, start + len, i)
    {
      InsertOne(a, orig, start, i, start + len);
      i := i + 1;
    }
    assert orig[start..start + len] == s;
  }

  /**
   * w' is w with w[start..end] sorted in place: that range of w' is sorted
   * and a permutation of the same range of w, and nothing else differs.
   */
  ghost predicate SortedRun(w: seq<int>, w': seq<int>, start: int, end: int)
  {
    0 <= start <= end <= |w| == |w'| &&
    var ok := Sorted(w'[start..end]) && multiset(w'[start..end]) == multiset(w[start..end])
      && SameOutside(w, w', start, end);
    ok
  }

  /**
   * The invariant of the outer loop of insertion_sort5 on w, which started
   * as orig: the prefix w[start..i] is sorted, w[start..end] is a
   * permutation of orig[start..end], and nothing outside it has moved.
   */
  ghost predicate InsertState(orig: seq<int>, w: seq<int>, start: int, end: int, i: int)
  {
    0 <= start < i <= end <= |w| == |orig| &&
    var permuted := multiset(w[start..end]) == multiset(orig[start..end]) && SameOutside(orig, w, start, end);
    Sorted(w[start..i]) && permuted
  }

  /**
   * The body of the outer loop of insertion_sort5: shift the entries of
   * a[start..i] that exceed key = a[i] up by one, from the right, and drop
   * key into the gap at j + 1. The outer loop's invariant advances from i
   * to i + 1.
   */
  method InsertOne(a: array<int>, ghost orig: seq<int>, start: int, i: int, ghost end: int)
    requires InsertState(orig, a[..], start, end, i) && i < end
    modifies a
    ensures InsertState(orig, a[..], start, end, i + 1)
  {
    ghost var b := a[..];
    var key := a[i];
    assert key == b[i];
    var j := i - 1;
    while j >= start && a[j] > key
      invariant start - 1 <= j <= i - 1
      invariant forall m :: 0 <= m <= j + 1 ==> a[m] == b[m]
      invariant forall m :: j + 2 <= m <= i ==> a[m] == b[m - 1] && b[m - 1] > key
      invariant forall m :: i < m < a.Length ==> a[m] == b[m]
      decreases j
    {
      a[j + 1] := a[j];
      j := j - 1;
    }
    a[j + 1] := key;
    forall m | j + 2 <= m <= i
      ensures a[..][m] == b[m - 1] && b[m - 1] > b[i]
    {
      assert a[..][m] == a[m];
    }
    InsertStep(orig, b, a[..], start, j, i, end);
  }

  /**
   * c is b after one pass of the inner loop of insertion_sort5 that stopped
   * at j: b[i] has moved down to j + 1, the entries b[j + 1..i], which all
   * exceed it, have moved up by one, b[j] (if any in the range) does not
   * exceed it, and everything else is in place.
   */
  ghost predicate Shifted(b: seq<int>, c: seq<int>, start: int, j: int, i: int)
  {
    0 <= start <= j + 1 <= i < |b| == |c|
    && (forall m :: 0 <= m <= j ==> c[m] == b[m])
    && c[j + 1] == b[i]
    && (forall m :: j + 2 <= m <= i ==> c[m] == b[m - 1] && b[m - 1] > b[i])
    && (j >= start ==> b[j] <= b[i])
    && (forall m :: i < m < |b| ==> c[m] == b[m])
  }

  /**
   * One round of the outer loop, on values: c is b with b[i] moved down to
   * index j + 1 past entries that all exceed it. The sorted prefix grows by
   * one, and the slice keeps its multiset and its frame.
   */
  lemma InsertStep(orig: seq<int>, b: seq<int>, c: seq<int>, start: int, j: int, i: int, end: int)
    requires InsertState(orig, b, start, end, i) && i < end
    requires Shifted(b, c, start, j, i)
    ensures InsertState(orig, c, start, end, i + 1)
  {
    InsertStepSorted(b, c, start, j, i);
    ShiftedLayout(b, c, start, j, i);
    InsertStepMultiset(b, c, start, j, i);
    PermuteInside(b, c, start, i + 1, start, end);
  }

  /**
   * One step of insertion sort, on values: c is b with b[i] moved down to
   * index j + 1 past entries that all exceed it. If b[start..i] is sorted,
   * so is c[start..i + 1].
   */
  lemma InsertStepSorted(b: seq<int>, c: seq<int>, start: int, j: int, i: int)
    requires Shifted(b, c, start, j, i)
    requires Sorted(b[start..i])
    ensures Sorted(c[start..i + 1])
  {
    forall p, q | start <= p < q <= i ensures c[p] <= c[q] {
      if q <= j {
        assert b[start..i][p - start] <= b[start..i][q - start];
      } else if q == j + 1 {
        assert b[start..i][p - start] <= b[start..i][j - start];
      } else if p <= j {
        assert b[start..i][p - start] <= b[start..i][q - 1 - start];
      } else if p > j + 1 {
        assert b[start..i][p - 1 - start] <= b[start..i][q - 1 - start];
      }
    }
  }

  /** Moving b[i] down to index j + 1 and shifting b[j + 1..i] up keeps the multiset of b[start..i + 1]. */
  lemma InsertStepMultiset(b: seq<int>, c: seq<int>, start: int, j: int, i: int)
    requires 0 <= start <= j + 1 <= i < |b| == |c|
    requires c[start..i + 1] == b[start..j + 1] + [b[i]] + b[j + 1..i]
    ensures multiset(c[start..i + 1]) == multiset(b[start..i + 1])
  {
    var front, moved, tail := b[start..j + 1], b[j + 1..i], [b[i]];
    assert b[start..i + 1] == front + moved + tail;
    assert multiset(front + tail + moved) == multiset(front + moved + tail);
  }

  /** After the shift, the run reads: the untouched front, the key, then the moved block. */
  lemma ShiftedLayout(b: seq<int>, c: seq<int>, start: int, j: int, i: int)
    requires Shifted(b, c, start, j, i)
    ensures c[start..i + 1] == b[start..j + 1] + [b[i]] + b[j + 1..i]
  {
    var u, v := c[start..i + 1], b[start..j + 1] + [b[i]] + b[j + 1..i];
    forall m | 0 <= m < |u|
      ensures u[m] == v[m]
    {
      if start + m <= j {
        assert u[m] == c[start + m] == b[start + m];
      } else if start + m == j + 1 {
        assert u[m] == c[j + 1];
      } else {
        assert u[m] == c[start + m] == b[start + m - 1];
      }
    }
  }

  /* ---------------------------------------------------------------------- */
  /* mom_pivot                                                               */
  /* ---------------------------------------------------------------------- */

  /** Number of groups of five, the last possibly shorter, that cover n elements. */
  function GroupCount(n: int): (g: int)
    requires n >= 1
    ensures 1 <= g && 5 * (g - 1) < n <= 5 * g
    ensures n > 5 ==> g < n
  {
    (n + 4) / 5
  }

  /** Length of group h of n elements: five, or what is left for the last group. */
  function GroupLen(n: int, h: int): int {
    if 5 * h + 5 <= n then 5 else n - 5 * h
  }

  /** Group h of s: s[5h .. 5h + GroupLen(|s|, h)]. */
  function Group(s: seq<int>, h: int): (grp: seq<int>)
    requires 0 <= h && 5 * h < |s|
    ensures 1 <= |grp| <= 5
    ensures forall x :: x in grp ==> x in s
  {
    s[5 * h .. 5 * h + GroupLen(|s|, h)]
  }

  /** The median of every group, in group order. */
  function GroupMedians(s: seq<int>): (m: seq<int>)
    requires |s| >= 1
    ensures |m| == GroupCount(|s|)
  {
    seq(GroupCount(|s|), h requires 0 <= h < GroupCount(|s|) => Median(Group(s, h)))
  }

  /**
   * The pivot mom_pivot computes: the median of at most five elements, or
   * else the same computation applied to the group medians.
   */
  function MedianOfMedians(s: seq<int>): int
    requires |s| >= 1
    decreases |s|
  {
    if |s| <= 5 then Median(s) else MedianOfMedians(GroupMedians(s))
  }

  /** Being built only from medians of parts of s, the pivot is an element of s. */
  lemma {:induction false} MedianOfMediansMember(s: seq<int>)
    requires |s| >= 1
    ensures MedianOfMedians(s) in s
    decreases |s|
  {
    if |s| > 5 {
      var m := GroupMedians(s);
      MedianOfMediansMember(m);
      var h :| 0 <= h < |m| && m[h] == MedianOfMedians(m);
      assert m[h] in Group(s, h);
    }
  }

  /**
   * mom_pivot: sorts each group of five in place, swaps each group's median
   * to the front, then recurses on the medians. It scrambles a[lo..lo + n]
   * (a permutation of the old contents) and returns MedianOfMedians of the
   * old contents.
   */
  method MomPivot(a: array<int>, lo: int, n: int) returns (pivot: int)
    requires 0 <= lo && 1 <= n && lo + n <= a.Length
    modifies a
    ensures pivot == MedianOfMedians(old(a[lo..lo + n]))
    ensures multiset(a[lo..lo + n]) == multiset(old(a[lo..lo + n]))
    ensures SameOutside(old(a[..]), a[..], lo, lo + n)
    decreases n
  {
    if n <= 5 {
      pivot := SmallMedian(a, lo, n);
      return;
    }
    ghost var orig := a[..];
    ghost var s := a[lo..lo + n];
    var numGroups := (n + 4) / 5;
    MediansToFront(a, lo, n);
    ghost var w := a[..];
    pivot := MomPivot(a, lo, numGroups);
    MomRecurse(orig, w, a[..], s, lo, n, numGroups);
  }

  /** The base case of mom_pivot: sort the at most five entries and take the middle one. */
  method SmallMedian(a: array<int>, lo: int, n: int) returns (pivot: int)
    requires 0 <= lo && 1 <= n <= 5 && lo + n <= a.Length
    modifies a
    ensures pivot == Median(old(a[lo..lo + n]))
    ensures SortedRun(old(a[..]), a[..], lo, lo + n)
  {
    ghost var s := a[lo..lo + n];
    InsertionSort5(a, lo, n);
    SortedKth(a[lo..lo + n], s, n / 2);
    assert a[lo + n / 2] == a[lo..lo + n][n / 2];
    pivot := a[lo + n / 2];
  }

  /**
   * The group loop of mom_pivot: afterwards a[lo..lo + GroupCount(n)] holds
   * the group medians of the old slice, in group order, and the slice is a
   * permutation of the old one.
   */
  method MediansToFront(a: array<int>, lo: int, n: int)
    requires 0 <= lo && 5 < n && lo + n <= a.Length
    modifies a
    ensures a[lo..lo + GroupCount(n)] == GroupMedians(old(a[lo..lo + n]))
    ensures multiset(a[lo..lo + n]) == multiset(old(a[lo..lo + n]))
    ensures SameOutside(old(a[..]), a[..], lo, lo + n)
  {
    ghost var orig := a[..];
    ghost var s := a[lo..lo + n];
    var numGroups := (n + 4) / 5;
    MomStart(orig, s, lo, n);
    for g := 0 to numGroups
      invariant MomState(orig, a[..], s, lo, n, g)
    {
      ghost var w := a[..];
      ghost var w1 := GroupMedianToFront(a, lo, n, g);
      MomStep(orig, s, w, w1, a[..], lo, n, g);
    }
    MomMedians(orig, a[..], s, lo, n);
  }

  /**
   * One pass of the group loop of mom_pivot: sort group g of a[lo..lo + n]
   * in place (w1 is the array after the sort) and swap its median, at
   * lo + MedianOffset(n, g), into a[lo + g].
   */
  method GroupMedianToFront(a: array<int>, lo: int, n: int, g: int) returns (ghost w1: seq<int>)
    requires 0 <= lo && lo + n <= a.Length && 0 <= g && 5 * g < n
    modifies a
    ensures SortedRun(old(a[..]), w1, lo + 5 * g, lo + 5 * g + GroupLen(n, g))
    ensures a[..] == w1[lo + g := w1[lo + MedianOffset(n, g)]][lo + MedianOffset(n, g) := w1[lo + g]]
  {
    var start := lo + 5 * g;
    var len := GroupLen(n, g);
    InsertionSort5(a, start, len);
    w1 := a[..];
    var mid := lo + MedianOffset(n, g);
    a[lo + g], a[mid] := a[mid], a[lo + g];
  }

  /** Offset in a slice of n of the median of its sorted group g. */
  function MedianOffset(n: int, g: int): int {
    5 * g + GroupLen(n, g) / 2
  }

  /**
   * The invariant of the group loop of mom_pivot on w, which started as
   * orig: nothing outside w[lo..lo + n] has moved, and the slice is in the
   * state GroupsDone describes.
   */
  ghost predicate MomState(orig: seq<int>, w: seq<int>, s: seq<int>, lo: int, n: int, g: int)
  {
    0 <= lo && 5 < n && lo + n <= |w| && |s| == n && 0 <= g <= GroupCount(n)
    && SameOutside(orig, w, lo, lo + n) && GroupsDone(s, w[lo..lo + n], g)
  }

  /**
   * The slice u of mom_pivot after the first g groups of s: a permutation
   * of s whose first g entries are the first g group medians, with the
   * groups from g on untouched.
   */
  ghost predicate GroupsDone(s: seq<int>, u: seq<int>, g: int)
  {
    |u| == |s| > 5 && 0 <= g <= GroupCount(|s|) &&
    var ok := multiset(u) == multiset(s)
      && (forall h :: 0 <= h < g ==> u[h] == GroupMedians(s)[h])
      && (forall m :: 5 * g <= m < |s| ==> u[m] == s[m]);
    ok
  }

  /**
   * u1 is u with u[start..start + len] sorted in place: that run is sorted
   * and a permutation of the same run of u, and the prefix before it and
   * the suffix after it are unchanged.
   */
  ghost predicate SortedGroup(u: seq<int>, u1: seq<int>, start: int, len: int)
  {
    0 <= start && 0 <= len && start + len <= |u| == |u1| &&
    var ok := Sorted(u1[start..start + len]) && RunPermuted(u, u1, start, len);
    ok
  }

  /**
   * u1 is u with u[start..start + len] permuted in place: the multiset of
   * that run is kept and the prefix before it and the suffix after it are
   * unchanged.
   */
  ghost predicate RunPermuted(u: seq<int>, u1: seq<int>, start: int, len: int)
  {
    0 <= start && 0 <= len && start + len <= |u| == |u1| &&
    var ok := multiset(u1[start..start + len]) == multiset(u[start..start + len])
      && u1[..start] == u[..start] && u1[start + len..] == u[start + len..];
    ok
  }

  /** Proof step only, modelling no line of the C code: before the loop, no group is done and the slice is s itself. */
  lemma MomStart(orig: seq<int>, s: seq<int>, lo: int, n: int)
    requires 0 <= lo && 5 < n && lo + n <= |orig| && s == orig[lo..lo + n]
    ensures MomState(orig, orig, s, lo, n, 0)
  {
  }

  /**
   * Sorting group g, at start = 5g with length len (w to w1), and swapping
   * its median at start + len / 2 with a[lo + g] (w1 to w2) moves the loop
   * state of mom_pivot from g to g + 1.
   */
  lemma MomStep(orig: seq<int>, s: seq<int>, w: seq<int>, w1: seq<int>, w2: seq<int>,
                lo: int, n: int, g: int)
    requires MomState(orig, w, s, lo, n, g) && g < GroupCount(n)
    requires SortedRun(w, w1, lo + 5 * g, lo + 5 * g + GroupLen(n, g))
    requires w2 == w1[lo + g := w1[lo + MedianOffset(n, g)]][lo + MedianOffset(n, g) := w1[lo + g]]
    ensures MomState(orig, w2, s, lo, n, g + 1)
  {
    SortInSlice(w, w1, lo, n, 5 * g, GroupLen(n, g));
    SwapInSlice(w1, w2, lo, n, g, MedianOffset(n, g));
    GroupStep(s, w[lo..lo + n], w1[lo..lo + n], w2[lo..lo + n], g, 5 * g, GroupLen(n, g), MedianOffset(n, g));
  }

  /** Sorting w[lo + start..lo + start + len] in place, seen on the slice w[lo..lo + n]. */
  lemma SortInSlice(w: seq<int>, w1: seq<int>, lo: int, n: int, start: int, len: int)
    requires 0 <= lo && 0 <= start && 0 <= len && start + len <= n && lo + n <= |w| == |w1|
    requires SortedRun(w, w1, lo + start, lo + start + len)
    ensures SameOutside(w, w1, lo, lo + n)
    ensures SortedGroup(w[lo..lo + n], w1[lo..lo + n], start, len)
  {
    var v, v1 := w[lo..lo + n], w1[lo..lo + n];
    SubSlice(w, lo, lo + n, start, start + len);
    SubSlice(w1, lo, lo + n, start, start + len);
    assert v1[start..start + len] == w1[lo + start..lo + start + len];
    assert v[start..start + len] == w[lo + start..lo + start + len];
    SortInSliceRest(w, w1, lo, n, start, len);
  }

  /** Outside the sorted group, the slices w[lo..lo + n] and w1[lo..lo + n] agree. */
  lemma SortInSliceRest(w: seq<int>, w1: seq<int>, lo: int, n: int, start: int, len: int)
    requires 0 <= lo && 0 <= start && 0 <= len && start + len <= n && lo + n <= |w| == |w1|
    requires SameOutside(w, w1, lo + start, lo + start + len)
    ensures w1[lo..lo + n][..start] == w[lo..lo + n][..start]
    ensures w1[lo..lo + n][start + len..] == w[lo..lo + n][start + len..]
  {
    var v, v1 := w[lo..lo + n], w1[lo..lo + n];
    assert forall i :: 0 <= i < start ==> v1[i] == w1[lo + i] == w[lo + i] == v[i];
    assert forall i :: start + len <= i < n ==> v1[i] == w1[lo + i] == w[lo + i] == v[i];
  }

  /** Proof step only, modelling no line of the C code: exchanging w1[lo + i] and w1[lo + j], seen on the slice w1[lo..lo + n]. */
  lemma SwapInSlice(w1: seq<int>, w2: seq<int>, lo: int, n: int, i: int, j: int)
    requires 0 <= lo && 0 <= i < n && 0 <= j < n && lo + n <= |w1|
    requires w2 == w1[lo + i := w1[lo + j]][lo + j := w1[lo + i]]
    ensures w2[lo..lo + n] == w1[lo..lo + n][i := w1[lo..lo + n][j]][j := w1[lo..lo + n][i]]
    ensures SameOutside(w1, w2, lo, lo + n)
  {
    var v1, v2 := w1[lo..lo + n], w2[lo..lo + n];
    assert forall m :: 0 <= m < n ==> v2[m] == v1[i := v1[j]][j := v1[i]][m];
  }

  /**
   * One pass of the group loop on the slice: u1 is u with group g sorted,
   * and u2 is u1 with its median swapped to index g.
   */
  lemma GroupStep(s: seq<int>, u: seq<int>, u1: seq<int>, u2: seq<int>, g: int, start: int, len: int, m: int)
    requires GroupsDone(s, u, g) && g < GroupCount(|s|)
    requires start == 5 * g && len == GroupLen(|s|, g) && SortedGroup(u, u1, start, len)
    requires m == MedianOffset(|s|, g) && u2 == u1[g := u1[m]][m := u1[g]]
    ensures GroupsDone(s, u2, g + 1)
  {
    UntouchedGroup(s, u, g, start, len);
    GroupSortedMedian(s, u1, g, start, len);
    GroupStepMultiset(u, u1, u2, g, start, len, m);
    GroupStepMedians(s, u, u1, u2, g, start, len, m);
    GroupStepUntouched(s, u, u1, u2, g, start, len, m);
  }

  /** Group g of u is still group g of s. */
  lemma UntouchedGroup(s: seq<int>, u: seq<int>, g: int, start: int, len: int)
    requires GroupsDone(s, u, g) && g < GroupCount(|s|)
    requires start == 5 * g && len == GroupLen(|s|, g)
    ensures u[start..start + len] == Group(s, g)
  {
    forall x | 0 <= x < len
      ensures u[start..start + len][x] == Group(s, g)[x]
    {
      assert u[start + x] == s[start + x];
    }
  }

  /** Once group g is sorted in place, it holds the group's median at MedianOffset(|s|, g). */
  lemma GroupSortedMedian(s: seq<int>, u1: seq<int>, g: int, start: int, len: int)
    requires 1 <= |s| && 0 <= g < GroupCount(|s|)
    requires start == 5 * g && len == GroupLen(|s|, g) && start + len <= |u1|
    requires Sorted(u1[start..start + len]) && multiset(u1[start..start + len]) == multiset(Group(s, g))
    ensures u1[MedianOffset(|s|, g)] == GroupMedians(s)[g]
  {
    SortedKth(u1[start..start + len], Group(s, g), len / 2);
    assert MedianOffset(|s|, g) == start + len / 2;
    assert u1[start + len / 2] == u1[start..start + len][len / 2];
  }

  /** Sorting a group in place and one swap keep the slice a permutation of s. */
  lemma GroupStepMultiset(u: seq<int>, u1: seq<int>, u2: seq<int>, g: int, start: int, len: int, m: int)
    requires 0 <= g < |u| && 0 <= m < |u| && RunPermuted(u, u1, start, len)
    requires u2 == u1[g := u1[m]][m := u1[g]]
    ensures multiset(u2) == multiset(u1) == multiset(u)
  {
    assert u == u[..start] + u[start..start + len] + u[start + len..];
    assert u1 == u1[..start] + u1[start..start + len] + u1[start + len..];
    SwapInside(u1, u2, g, m, 0, |u|);
    assert u1[0..|u|] == u1 && u2[0..|u|] == u2;
  }

  /** After the swap the first g + 1 entries are the first g + 1 group medians. */
  lemma GroupStepMedians(s: seq<int>, u: seq<int>, u1: seq<int>, u2: seq<int>, g: int, start: int, len: int, m: int)
    requires GroupsDone(s, u, g) && g < GroupCount(|s|)
    requires start == 5 * g && RunPermuted(u, u1, start, len) && start <= m < start + len
    requires u1[m] == GroupMedians(s)[g]
    requires u2 == u1[g := u1[m]][m := u1[g]]
    ensures forall h :: 0 <= h < g + 1 ==> u2[h] == GroupMedians(s)[h]
  {
    forall h | 0 <= h < g + 1 ensures u2[h] == GroupMedians(s)[h] {
      if h < g {
        assert u2[h] == u1[h] == u1[..start][h] == u[..start][h];
      }
    }
  }

  /** The groups after g are still untouched. */
  lemma GroupStepUntouched(s: seq<int>, u: seq<int>, u1: seq<int>, u2: seq<int>, g: int, start: int, len: int, m: int)
    requires GroupsDone(s, u, g) && g < GroupCount(|s|)
    requires start == 5 * g && len == GroupLen(|s|, g) && RunPermuted(u, u1, start, len)
    requires start <= m < start + len && u2 == u1[g := u1[m]][m := u1[g]]
    ensures forall i :: 5 * (g + 1) <= i < |s| ==> u2[i] == s[i]
  {
    forall i | 5 * (g + 1) <= i < |s| ensures u2[i] == s[i] {
      assert u2[i] == u1[i] == u1[start + len..][i - start - len] == u[start + len..][i - start - len];
    }
  }

  /** When every group is done, the medians sit at the front of the slice. */
  lemma MomMedians(orig: seq<int>, w: seq<int>, s: seq<int>, lo: int, n: int)
    requires 5 < n && MomState(orig, w, s, lo, n, GroupCount(n))
    ensures w[lo..lo + GroupCount(n)] == GroupMedians(s)
  {
    forall h | 0 <= h < GroupCount(n)
      ensures w[lo..lo + GroupCount(n)][h] == GroupMedians(s)[h]
    {
      assert w[lo..lo + n][h] == w[lo + h];
    }
  }

  /**
   * After the recursive call has permuted the medians in place, the slice
   * is still a permutation of s and nothing outside it has moved.
   */
  lemma MomRecurse(orig: seq<int>, w: seq<int>, w': seq<int>, s: seq<int>, lo: int, n: int, g: int)
    requires 0 <= lo && 0 <= g <= n && lo + n <= |w| == |w'| == |orig|
    requires multiset(w[lo..lo + n]) == multiset(s) && SameOutside(orig, w, lo, lo + n)
    requires multiset(w'[lo..lo + g]) == multiset(w[lo..lo + g])
    requires SameOutside(w, w', lo, lo + g)
    ensures multiset(w'[lo..lo + n]) == multiset(s)
    ensures SameOutside(orig, w', lo, lo + n)
  {
    PermuteInside(w, w', lo, lo + g, lo, lo + n);
  }

  /** Exchanging two entries inside [lo, hi) permutes the slice. */
  lemma SwapInside(w: seq<int>, w': seq<int>, i: int, j: int, lo: int, hi: int)
    requires 0 <= lo <= i < hi && lo <= j < hi && hi <= |w|
    requires w' == w[i := w[j]][j := w[i]]
    ensures multiset(w'[lo..hi]) == multiset(w[lo..hi])
  {
    var v := w[lo..hi];
    assert w'[lo..hi] == v[i - lo := v[j - lo]][j - lo := v[i - lo]];
  }
}
