/**
 * The specification every selection routine is proved against: the k-th
 * smallest element of an integer sequence (the element at index k of its
 * ascending sort), the three zones of a sequence around a pivot, and the
 * facts that let a selection step drop a zone without losing the answer.
 */
module OrderStatistics {

  /** Ascending order. */
  predicate Sorted(s: seq<int>) {
    forall i, j :: 0 <= i < j < |s| ==> s[i] <= s[j]
  }

  /** Inserts x in front of the first element of t that is not below it. */
  function Insert(x: int, t: seq<int>): (r: seq<int>)
    ensures |r| == |t| + 1
  {
    if t == [] || x <= t[0] then [x] + t
    else [t[0]] + Insert(x, t[1..])
  }

  /** Inserting into a sorted sequence keeps it sorted and adds exactly x. */
  lemma {:induction false} InsertSorted(x: int, t: seq<int>)
    requires Sorted(t)
    ensures Sorted(Insert(x, t))
    ensures multiset(Insert(x, t)) == multiset(t) + multiset{x}
  {
    if t != [] && t[0] < x {
      InsertSorted(x, t[1..]);
      InsertBehindHead(x, t, Insert(x, t[1..]));
    }
  }

  lemma InsertBehindHead(x: int, t: seq<int>, rest: seq<int>)
    requires Sorted(t) && t != [] && t[0] < x
    requires Sorted(rest) && multiset(rest) == multiset(t[1..]) + multiset{x}
    ensures Sorted([t[0]] + rest)
    ensures multiset([t[0]] + rest) == multiset(t) + multiset{x}
  {
    assert t == [t[0]] + t[1..];
    forall i | 0 <= i < |rest| ensures t[0] <= rest[i] {
      assert rest[i] in multiset(rest);
      if rest[i] != x {
        assert rest[i] in t[1..];
      }
    }
  }

  /** The ascending sort of s by insertion; it plays the part of the C library's qsort. */
  function SortSeq(s: seq<int>): (r: seq<int>)
    ensures |r| == |s|
  {
    if s == [] then [] else Insert(s[0], SortSeq(s[1..]))
  }

  /** SortSeq(s) is sorted and a permutation of s. */
  lemma {:induction false} SortSeqSorted(s: seq<int>)
    ensures Sorted(SortSeq(s))
    ensures multiset(SortSeq(s)) == multiset(s)
  {
    if s != [] {
      SortSeqSorted(s[1..]);
      InsertSorted(s[0], SortSeq(s[1..]));
      assert s == [s[0]] + s[1..];
    }
  }

  /** The k-th smallest element (0-based) of s: index k of its ascending sort. */
  function KthSmallest(s: seq<int>, k: int): int
    requires 0 <= k < |s|
  {
    SortSeq(s)[k]
  }

  /** The k-th smallest element is an element of s. */
  lemma KthMember(s: seq<int>, k: int)
    requires 0 <= k < |s|
    ensures KthSmallest(s, k) in s
  {
    SortSeqSorted(s);
    assert SortSeq(s)[k] in multiset(SortSeq(s));
  }

  /** The median in the sense of the source: index len/2 of the sorted group. */
  function Median(s: seq<int>): (v: int)
    requires |s| >= 1
    ensures v in s
  {
    KthMember(s, |s| / 2);
    KthSmallest(s, |s| / 2)
  }

  /** Where an element falls relative to a pivot. */
  datatype Zone = Below | At | Above

  /** The comparison chain `x < p`, `x == p`, otherwise greater. */
  function ZoneOf(x: int, p: int): Zone {
    if x < p then Below else if x == p then At else Above
  }

  /** Every element of s lies in zone z of p. */
  predicate AllIn(s: seq<int>, p: int, z: Zone) {
    forall x :: x in s ==> ZoneOf(x, p) == z
  }

  /**
   * The elements of s that lie in zone z of p, in their original order:
   * what one pass of a stable scatter writes into that zone.
   */
  function Pick(s: seq<int>, p: int, z: Zone): (r: seq<int>)
    ensures |r| <= |s|
    ensures AllIn(r, p, z)
  {
    if s == [] then []
    else Pick(s[..|s| - 1], p, z) + (if ZoneOf(s[|s| - 1], p) == z then [s[|s| - 1]] else [])
  }

  function CountLess(s: seq<int>, p: int): nat {
    |Pick(s, p, Below)|
  }

  function CountEqual(s: seq<int>, p: int): nat {
    |Pick(s, p, At)|
  }

  function CountGreater(s: seq<int>, p: int): nat {
    |Pick(s, p, Above)|
  }

  /** Number of elements that are at most p. */
  function CountAtMost(s: seq<int>, p: int): nat {
    CountLess(s, p) + CountEqual(s, p)
  }

  /**
   * The stable three-way partition of s around p: first the elements below p,
   * then those equal to it, then those above, each zone in input order. The
   * result is a permutation of s laid out as [<p][=p][>p].
   */
  function ThreeWay(s: seq<int>, p: int): (r: seq<int>)
    ensures |r| == |s| == CountLess(s, p) + CountEqual(s, p) + CountGreater(s, p)
    ensures multiset(r) == multiset(s)
    ensures forall i :: 0 <= i < CountLess(s, p) ==> r[i] < p
    ensures forall i :: CountLess(s, p) <= i < CountAtMost(s, p) ==> r[i] == p
    ensures forall i :: CountAtMost(s, p) <= i < |r| ==> r[i] > p
  {
    var lo, eq, hi := Pick(s, p, Below), Pick(s, p, At), Pick(s, p, Above);
    ThreeWayMultiset(s, p);
    ZonesLayout(lo, eq, hi, p);
    assert |lo + eq + hi| == |multiset(lo + eq + hi)|;
    lo + eq + hi
  }

  /** The three zones of s together have as many elements as s. */
  lemma ZoneSizes(s: seq<int>, p: int)
    ensures CountLess(s, p) + CountEqual(s, p) + CountGreater(s, p) == |s|
  {
    var r := ThreeWay(s, p);
  }

  /** Zones concatenated in order give the layout [<p][=p][>p] by index. */
  lemma ZonesLayout(lo: seq<int>, eq: seq<int>, hi: seq<int>, p: int)
    requires AllIn(lo, p, Below) && AllIn(eq, p, At) && AllIn(hi, p, Above)
    ensures forall i :: 0 <= i < |lo| ==> (lo + eq + hi)[i] < p
    ensures forall i :: |lo| <= i < |lo| + |eq| ==> (lo + eq + hi)[i] == p
    ensures forall i :: |lo| + |eq| <= i < |lo + eq + hi| ==> (lo + eq + hi)[i] > p
  {
    var r := lo + eq + hi;
    forall i | 0 <= i < |lo| ensures r[i] < p {
      assert r[i] == lo[i] && ZoneOf(lo[i], p) == Below;
    }
    forall i | |lo| <= i < |lo| + |eq| ensures r[i] == p {
      assert r[i] == eq[i - |lo|] && ZoneOf(eq[i - |lo|], p) == At;
    }
    forall i | |lo| + |eq| <= i < |r| ensures r[i] > p {
      assert r[i] == hi[i - |lo| - |eq|] && ZoneOf(hi[i - |lo| - |eq|], p) == Above;
    }
  }

  /* ---------------------------------------------------------------------- */
  /* Facts about Pick                                                        */
  /* ---------------------------------------------------------------------- */

  lemma {:induction false} PickConcat(a: seq<int>, b: seq<int>, p: int, z: Zone)
    ensures Pick(a + b, p, z) == Pick(a, p, z) + Pick(b, p, z)
  {
    if b == [] {
      assert a + b == a;
    } else {
      var b' := b[..|b| - 1];
      assert (a + b)[..|a + b| - 1] == a + b';
      PickConcat(a, b', p, z);
    }
  }

  /** Each count of a prefix grows by one exactly when the next element lies in its zone. */
  lemma CountsPrefixStep(s: seq<int>, i: int, p: int)
    requires 0 <= i < |s|
    ensures CountLess(s[..i + 1], p) == CountLess(s[..i], p) + (if s[i] < p then 1 else 0)
    ensures CountEqual(s[..i + 1], p) == CountEqual(s[..i], p) + (if s[i] == p then 1 else 0)
    ensures CountGreater(s[..i + 1], p) == CountGreater(s[..i], p) + (if s[i] > p then 1 else 0)
  {
    PickPrefixStep(s, i, p, Below);
    PickPrefixStep(s, i, p, At);
    PickPrefixStep(s, i, p, Above);
  }

  /** Pick of a prefix grows by at most the next element. */
  lemma PickPrefixStep(s: seq<int>, i: int, p: int, z: Zone)
    requires 0 <= i < |s|
    ensures Pick(s[..i + 1], p, z)
         == Pick(s[..i], p, z) + (if ZoneOf(s[i], p) == z then [s[i]] else [])
    ensures |Pick(s[..i + 1], p, z)| <= |Pick(s, p, z)|
  {
    assert s[..i + 1][..i] == s[..i];
    assert s == s[..i + 1] + s[i + 1..];
    PickConcat(s[..i + 1], s[i + 1..], p, z);
  }

  /** Pick keeps exactly the occurrences of the values in zone z. */
  lemma {:induction false} PickMultiset(s: seq<int>, p: int, z: Zone, x: int)
    ensures multiset(Pick(s, p, z))[x] == if ZoneOf(x, p) == z then multiset(s)[x] else 0
  {
    if s != [] {
      var s' := s[..|s| - 1];
      assert s == s' + [s[|s| - 1]];
      PickMultiset(s', p, z, x);
    }
  }

  lemma ThreeWayMultiset(s: seq<int>, p: int)
    ensures multiset(Pick(s, p, Below) + Pick(s, p, At) + Pick(s, p, Above)) == multiset(s)
  {
    forall x
      ensures multiset(Pick(s, p, Below) + Pick(s, p, At) + Pick(s, p, Above))[x] == multiset(s)[x]
    {
      PickMultiset(s, p, Below, x);
      PickMultiset(s, p, At, x);
      PickMultiset(s, p, Above, x);
    }
  }

  /** Zone counts depend only on the multiset of values. */
  lemma PickPermutation(s: seq<int>, t: seq<int>, p: int, z: Zone)
    requires multiset(s) == multiset(t)
    ensures multiset(Pick(s, p, z)) == multiset(Pick(t, p, z))
    ensures |Pick(s, p, z)| == |Pick(t, p, z)|
  {
    forall x ensures multiset(Pick(s, p, z))[x] == multiset(Pick(t, p, z))[x] {
      PickMultiset(s, p, z, x);
      PickMultiset(t, p, z, x);
    }
    assert multiset(Pick(s, p, z)) == multiset(Pick(t, p, z));
    assert |Pick(s, p, z)| == |multiset(Pick(s, p, z))|;
    assert |Pick(t, p, z)| == |multiset(Pick(t, p, z))|;
  }

  lemma CountsPermutation(s: seq<int>, t: seq<int>, v: int)
    requires multiset(s) == multiset(t)
    ensures CountLess(s, v) == CountLess(t, v)
    ensures CountEqual(s, v) == CountEqual(t, v)
  {
    PickPermutation(s, t, v, Below);
    PickPermutation(s, t, v, At);
  }

  lemma CountsConcat(a: seq<int>, b: seq<int>, v: int)
    ensures CountLess(a + b, v) == CountLess(a, v) + CountLess(b, v)
    ensures CountEqual(a + b, v) == CountEqual(a, v) + CountEqual(b, v)
  {
    PickConcat(a, b, v, Below);
    PickConcat(a, b, v, At);
  }

  lemma {:induction false} PickWhole(s: seq<int>, p: int, z: Zone)
    requires AllIn(s, p, z)
    ensures Pick(s, p, z) == s
  {
    if s != [] {
      var s' := s[..|s| - 1];
      assert s == s' + [s[|s| - 1]];
      PickWhole(s', p, z);
    }
  }

  lemma {:induction false} PickNone(s: seq<int>, p: int, z: Zone)
    requires forall x :: x in s ==> ZoneOf(x, p) != z
    ensures Pick(s, p, z) == []
  {
    if s != [] {
      var s' := s[..|s| - 1];
      assert s == s' + [s[|s| - 1]];
      PickNone(s', p, z);
    }
  }

  /** A value that occurs in s is counted as equal at least once. */
  lemma CountEqualMember(s: seq<int>, x: int)
    requires x in s
    ensures CountEqual(s, x) >= 1
  {
    PickMultiset(s, x, At, x);
    assert x in multiset(Pick(s, x, At));
  }

  /** Counts of a sequence whose elements all lie strictly below v. */
  lemma CountsAllBelow(s: seq<int>, v: int)
    requires forall x :: x in s ==> x < v
    ensures CountLess(s, v) == |s| && CountEqual(s, v) == 0
  {
    PickWhole(s, v, Below);
    PickNone(s, v, At);
  }

  /** Counts of a sequence whose elements all lie strictly above v. */
  lemma CountsAllAbove(s: seq<int>, v: int)
    requires forall x :: x in s ==> x > v
    ensures CountLess(s, v) == 0 && CountEqual(s, v) == 0
  {
    PickNone(s, v, Below);
    PickNone(s, v, At);
  }

  /* ---------------------------------------------------------------------- */
  /* The rank characterisation of the k-th smallest element                  */
  /* ---------------------------------------------------------------------- */

  /** Elements at most v number at most |s|, and exactly |s| when all are at most v. */
  lemma CountAtMostBound(s: seq<int>, v: int)
    ensures CountAtMost(s, v) <= |s|
    ensures (forall x :: x in s ==> x <= v) ==> CountAtMost(s, v) == |s|
  {
    assert |ThreeWay(s, v)| == |s|;
    if forall x :: x in s ==> x <= v {
      PickNone(s, v, Above);
    }
  }

  /** In a sorted sequence, index k holds v exactly when v's rank range covers k. */
  lemma SortedRank(t: seq<int>, k: int, v: int)
    requires Sorted(t)
    requires 0 <= k < |t|
    ensures t[k] == v <==> CountLess(t, v) <= k < CountAtMost(t, v)
  {
    if t[k] < v {
      SortedRankBelow(t, k, v);
    } else if t[k] > v {
      SortedRankAbove(t, k, v);
    } else {
      SortedRankAt(t, k, v);
    }
  }

  lemma SortedRankBelow(t: seq<int>, k: int, v: int)
    requires Sorted(t) && 0 <= k < |t| && t[k] < v
    ensures CountLess(t, v) > k
  {
    var pre, post := t[..k + 1], t[k + 1..];
    assert t == pre + post;
    CountsConcat(pre, post, v);
    forall x | x in pre ensures x < v {
      var i :| 0 <= i < |pre| && pre[i] == x;
      assert t[i] <= t[k];
    }
    CountsAllBelow(pre, v);
  }

  lemma SortedRankAbove(t: seq<int>, k: int, v: int)
    requires Sorted(t) && 0 <= k < |t| && t[k] > v
    ensures CountAtMost(t, v) <= k
  {
    var pre, post := t[..k], t[k..];
    assert t == pre + post;
    CountsConcat(pre, post, v);
    forall x | x in post ensures x > v {
      var i :| 0 <= i < |post| && post[i] == x;
      assert t[k] <= t[k + i];
    }
    CountsAllAbove(post, v);
    CountAtMostBound(pre, v);
  }

  lemma SortedRankAt(t: seq<int>, k: int, v: int)
    requires Sorted(t) && 0 <= k < |t| && t[k] == v
    ensures CountLess(t, v) <= k < CountAtMost(t, v)
  {
    SortedRankAtLow(t, k, v);
    SortedRankAtHigh(t, k, v);
  }

  lemma SortedRankAtLow(t: seq<int>, k: int, v: int)
    requires Sorted(t) && 0 <= k < |t| && t[k] == v
    ensures CountLess(t, v) <= k
  {
    var pre, post := t[..k], t[k..];
    assert t == pre + post;
    CountsConcat(pre, post, v);
    forall x | x in post ensures ZoneOf(x, v) != Below {
      var i :| 0 <= i < |post| && post[i] == x;
      assert t[k] <= t[k + i];
    }
    PickNone(post, v, Below);
    CountAtMostBound(pre, v);
  }

  lemma SortedRankAtHigh(t: seq<int>, k: int, v: int)
    requires Sorted(t) && 0 <= k < |t| && t[k] == v
    ensures k < CountAtMost(t, v)
  {
    var pre, post := t[..k + 1], t[k + 1..];
    assert t == pre + post;
    CountsConcat(pre, post, v);
    forall x | x in pre ensures x <= v {
      var i :| 0 <= i < |pre| && pre[i] == x;
      assert t[i] <= t[k];
    }
    CountAtMostBound(pre, v);
  }

  /**
   * v has rank k in s: at most k elements of s are below v and more than k
   * are at most v, so index k of any ascending arrangement of s holds v.
   */
  predicate HasRank(s: seq<int>, k: int, v: int) {
    CountLess(s, v) <= k < CountAtMost(s, v)
  }

  /**
   * The k-th smallest element of s is v exactly when fewer than k+1 elements
   * are below v and more than k elements are at most v. This is a statement
   * about the multiset of s alone; no sort appears in it.
   */
  lemma KthRank(s: seq<int>, k: int, v: int)
    requires 0 <= k < |s|
    ensures KthSmallest(s, k) == v <==> HasRank(s, k, v)
  {
    SortSeqSorted(s);
    SortedRank(SortSeq(s), k, v);
    CountsPermutation(SortSeq(s), s, v);
  }

  /** Every rank of a non-empty sequence is held by some value. */
  lemma RankWitness(s: seq<int>, k: int) returns (v: int)
    requires 0 <= k < |s|
    ensures HasRank(s, k, v)
  {
    v := KthSmallest(s, k);
    KthRank(s, k, v);
  }

  /** Index k of a sorted permutation of s is the k-th smallest element of s. */
  lemma SortedKth(t: seq<int>, s: seq<int>, k: int)
    requires Sorted(t) && multiset(t) == multiset(s)
    requires 0 <= k < |t|
    ensures k < |s| && t[k] == KthSmallest(s, k)
  {
    assert |t| == |multiset(t)| == |s|;
    SortedRank(t, k, t[k]);
    CountsPermutation(t, s, t[k]);
    KthRank(s, k, t[k]);
  }

  /** A sorted permutation of s is the sort of s. */
  lemma SortedUnique(t: seq<int>, s: seq<int>)
    requires Sorted(t)
    requires multiset(t) == multiset(s)
    ensures t == SortSeq(s)
  {
    assert |t| == |multiset(t)| == |s|;
    forall k | 0 <= k < |t| ensures t[k] == SortSeq(s)[k] {
      SortedRank(t, k, t[k]);
      CountsPermutation(t, s, t[k]);
      KthRank(s, k, t[k]);
    }
  }

  /**
   * Ranks by zones: if R is a permutation of L + E + G, with L below p, E
   * equal to p and G above p, then the value of rank j in R has rank j in L,
   * or is p, or has the shifted rank j - |L| - |E| in G, according to the
   * zone j falls in.
   */
  lemma RankOfZones(R: seq<int>, L: seq<int>, E: seq<int>, G: seq<int>, p: int, j: int, v: int)
    requires multiset(R) == multiset(L + E + G)
    requires AllIn(L, p, Below) && AllIn(E, p, At) && AllIn(G, p, Above)
    requires HasRank(R, j, v)
    ensures j < |L| ==> HasRank(L, j, v)
    ensures |L| <= j < |L| + |E| ==> v == p
    ensures |L| + |E| <= j ==> j - |L| - |E| < |G| && HasRank(G, j - |L| - |E|, v)
  {
    if v < p {
      RankBelowPivot(R, L, E, G, p, j, v);
    } else if v == p {
      RankAtPivot(R, L, E, G, p, j, v);
    } else {
      RankAbovePivot(R, L, E, G, p, j, v);
    }
  }

  /** A value below the pivot has its rank inside L. */
  lemma RankBelowPivot(R: seq<int>, L: seq<int>, E: seq<int>, G: seq<int>, p: int, j: int, v: int)
    requires multiset(R) == multiset(L + E + G)
    requires AllIn(L, p, Below) && AllIn(E, p, At) && AllIn(G, p, Above)
    requires HasRank(R, j, v) && v < p
    ensures j < |L| && HasRank(L, j, v)
  {
    CountsPermutation(R, L + E + G, v);
    CountsConcat(L + E, G, v);
    CountsConcat(L, E, v);
    CountAtMostBound(L, v);
    forall x | x in E ensures x > v { assert ZoneOf(x, p) == At; }
    forall x | x in G ensures x > v { assert ZoneOf(x, p) == Above; }
    CountsAllAbove(E, v);
    CountsAllAbove(G, v);
  }

  /** The pivot itself has its rank inside E. */
  lemma RankAtPivot(R: seq<int>, L: seq<int>, E: seq<int>, G: seq<int>, p: int, j: int, v: int)
    requires multiset(R) == multiset(L + E + G)
    requires AllIn(L, p, Below) && AllIn(E, p, At) && AllIn(G, p, Above)
    requires HasRank(R, j, v) && v == p
    ensures |L| <= j < |L| + |E|
  {
    CountsPermutation(R, L + E + G, v);
    CountsConcat(L + E, G, v);
    CountsConcat(L, E, v);
    forall x | x in L ensures x < v { assert ZoneOf(x, p) == Below; }
    forall x | x in G ensures x > v { assert ZoneOf(x, p) == Above; }
    CountsAllBelow(L, v);
    CountsAllAbove(G, v);
    PickWhole(E, p, At);
    PickNone(E, p, Below);
  }

  /** A value above the pivot has its rank, shifted by |L| + |E|, inside G. */
  lemma RankAbovePivot(R: seq<int>, L: seq<int>, E: seq<int>, G: seq<int>, p: int, j: int, v: int)
    requires multiset(R) == multiset(L + E + G)
    requires AllIn(L, p, Below) && AllIn(E, p, At) && AllIn(G, p, Above)
    requires HasRank(R, j, v) && v > p
    ensures |L| + |E| <= j && j - |L| - |E| < |G| && HasRank(G, j - |L| - |E|, v)
  {
    CountsPermutation(R, L + E + G, v);
    CountsConcat(L + E, G, v);
    CountsConcat(L, E, v);
    CountAtMostBound(G, v);
    forall x | x in L ensures x < v { assert ZoneOf(x, p) == Below; }
    forall x | x in E ensures x < v { assert ZoneOf(x, p) == At; }
    CountsAllBelow(L, v);
    CountsAllBelow(E, v);
  }

  /**
   * Selecting by zones, the same fact for the k-th smallest element itself:
   * it is the k-th smallest of L, or p, or a shifted rank in G.
   */
  lemma KthOfZones(s: seq<int>, L: seq<int>, E: seq<int>, G: seq<int>, p: int, k: int)
    requires multiset(s) == multiset(L + E + G)
    requires AllIn(L, p, Below) && AllIn(E, p, At) && AllIn(G, p, Above)
    requires 0 <= k < |s|
    ensures k < |L| ==> KthSmallest(s, k) == KthSmallest(L, k)
    ensures |L| <= k < |L| + |E| ==> KthSmallest(s, k) == p
    ensures |L| + |E| <= k ==>
      k - |L| - |E| < |G| && KthSmallest(s, k) == KthSmallest(G, k - |L| - |E|)
  {
    var v := KthSmallest(s, k);
    KthRank(s, k, v);
    RankOfZones(s, L, E, G, p, k, v);
    if k < |L| {
      KthRank(L, k, v);
    } else if |L| + |E| <= k {
      KthRank(G, k - |L| - |E|, v);
    }
  }

  /* ---------------------------------------------------------------------- */
  /* Narrowing an active range                                               */
  /* ---------------------------------------------------------------------- */

  /** Every element of X is at most every element of Y. */
  predicate AllAtMost(X: seq<int>, Y: seq<int>) {
    forall x, y :: x in X && y in Y ==> x <= y
  }

  /**
   * One narrowing step of a selection loop. The active range R sits between
   * `before` (all at most R) and `after` (all at least R); R has been
   * rearranged into L + E + G around p, and v has rank j in R. Keeping the
   * zone that holds j keeps v at the matching rank, keeps the bracketing of
   * the new active range, and the equal zone answers with p itself.
   */
  lemma Narrow(before: seq<int>, R: seq<int>, L: seq<int>, E: seq<int>, G: seq<int>,
               after: seq<int>, p: int, j: int, v: int)
    requires AllAtMost(before, R) && AllAtMost(R, after)
    requires multiset(R) == multiset(L + E + G)
    requires AllIn(L, p, Below) && AllIn(E, p, At) && AllIn(G, p, Above)
    requires HasRank(R, j, v)
    ensures j < |L| ==>
      HasRank(L, j, v) && AllAtMost(before, L) && AllAtMost(L, E + G + after)
    ensures |L| <= j < |L| + |E| ==> v == p
    ensures |L| + |E| <= j ==>
      j - |L| - |E| < |G| && HasRank(G, j - |L| - |E|, v)
      && AllAtMost(before + L + E, G) && AllAtMost(G, after)
  {
    RankOfZones(R, L, E, G, p, j, v);
    forall y | y in L + E + G ensures y in R {
      assert y in multiset(L + E + G);
    }
    if j < |L| {
      BracketBelow(R, L, E, G, after, p);
    }
    if |L| + |E| <= j {
      BracketAbove(before, R, L, E, G, p);
    }
  }

  lemma BracketBelow(R: seq<int>, L: seq<int>, E: seq<int>, G: seq<int>, after: seq<int>, p: int)
    requires AllAtMost(R, after)
    requires forall y :: y in L ==> y in R
    requires AllIn(L, p, Below) && AllIn(E, p, At) && AllIn(G, p, Above)
    ensures AllAtMost(L, E + G + after)
  {
    forall x, y | x in L && y in E + G + after ensures x <= y {
      assert ZoneOf(x, p) == Below;
      if y in E {
        assert ZoneOf(y, p) == At;
      } else if y in G {
        assert ZoneOf(y, p) == Above;
      }
    }
  }

  lemma BracketAbove(before: seq<int>, R: seq<int>, L: seq<int>, E: seq<int>, G: seq<int>, p: int)
    requires AllAtMost(before, R)
    requires forall y :: y in G ==> y in R
    requires AllIn(L, p, Below) && AllIn(E, p, At) && AllIn(G, p, Above)
    ensures AllAtMost(before + L + E, G)
  {
    forall x, y | x in before + L + E && y in G ensures x <= y {
      assert ZoneOf(y, p) == Above;
      if x in L {
        assert ZoneOf(x, p) == Below;
      } else if x in E {
        assert ZoneOf(x, p) == At;
      }
    }
  }

  /* ---------------------------------------------------------------------- */
  /* Permuting a slice of an array                                           */
  /* ---------------------------------------------------------------------- */

  /** w' agrees with w everywhere outside [lo, hi). */
  ghost predicate SameOutside(w: seq<int>, w': seq<int>, lo: int, hi: int)
  {
    |w| == |w'| && forall m :: 0 <= m < |w| && !(lo <= m < hi) ==> w'[m] == w[m]
  }

  /**
   * If w' agrees with w outside [lo, hi) and permutes w[lo..hi), then it
   * permutes every enclosing slice w[i..j).
   */
  lemma PermuteInside(w: seq<int>, w': seq<int>, lo: int, hi: int, i: int, j: int)
    requires |w| == |w'|
    requires 0 <= i <= lo <= hi <= j <= |w|
    requires SameOutside(w, w', lo, hi)
    requires multiset(w[lo..hi]) == multiset(w'[lo..hi])
    ensures multiset(w[i..j]) == multiset(w'[i..j])
  {
    assert w[i..j] == w[i..lo] + w[lo..hi] + w[hi..j];
    assert w'[i..j] == w'[i..lo] + w'[lo..hi] + w'[hi..j];
    assert w[i..lo] == w'[i..lo];
    assert w[hi..j] == w'[hi..j];
  }

  /** Cutting a slice at two inner points gives three adjacent slices. */
  lemma SliceSplit(w: seq<int>, i: int, j: int, k: int, l: int)
    requires 0 <= i <= j <= k <= l <= |w|
    ensures w[i..l] == w[i..j] + w[j..k] + w[k..l]
  {
    assert forall x :: 0 <= x < l - i ==> w[i..l][x] == (w[i..j] + w[j..k] + w[k..l])[x];
  }

  /**
   * Conversely, if w' agrees with w outside [lo, hi) and permutes the whole
   * of w[i..j) around it, then it permutes w[lo..hi).
   */
  lemma PermuteInsideOnly(w: seq<int>, w': seq<int>, lo: int, hi: int)
    requires |w| == |w'|
    requires 0 <= lo <= hi <= |w|
    requires SameOutside(w, w', lo, hi)
    requires multiset(w) == multiset(w')
    ensures multiset(w[lo..hi]) == multiset(w'[lo..hi])
  {
    SliceSplit(w, 0, lo, hi, |w|);
    SliceSplit(w', 0, lo, hi, |w|);
    assert w[0..|w|] == w && w'[0..|w|] == w';
    assert w[0..lo] == w'[0..lo];
    assert w[hi..|w|] == w'[hi..|w|];
    forall x ensures multiset(w[lo..hi])[x] == multiset(w'[lo..hi])[x] {
      assert multiset(w)[x] == multiset(w')[x];
    }
  }
}
