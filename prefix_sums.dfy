/**
 * Sums of per-thread or per-process counts, and the prefix sums that the
 * drivers turn into write offsets and displacements.
 */
module PrefixSums {

  /** Sum of c, peeled from the end so that Sum(c[..i + 1]) unfolds to Sum(c[..i]) + c[i]. */
  function Sum(c: seq<int>): int {
    if c == [] then 0 else Sum(c[..|c| - 1]) + c[|c| - 1]
  }

  predicate NonNegative(c: seq<int>) {
    forall i :: 0 <= i < |c| ==> c[i] >= 0
  }

  lemma SumPrefixStep(c: seq<int>, i: int)
    requires 0 <= i < |c|
    ensures Sum(c[..i + 1]) == Sum(c[..i]) + c[i]
  {
    assert c[..i + 1][..i] == c[..i];
  }

  lemma {:induction false} SumConcat(a: seq<int>, b: seq<int>)
    ensures Sum(a + b) == Sum(a) + Sum(b)
  {
    if b == [] {
      assert a + b == a;
    } else {
      assert (a + b)[..|a + b| - 1] == a + b[..|b| - 1];
      SumConcat(a, b[..|b| - 1]);
    }
  }

  lemma {:induction false} SumNonNegative(c: seq<int>)
    requires NonNegative(c)
    ensures Sum(c) >= 0
  {
    if c != [] {
      SumNonNegative(c[..|c| - 1]);
    }
  }

  /**
   * The write range [Sum(c[..t]), Sum(c[..t]) + c[t]) of slot t ends no later
   * than the range of any later slot u begins, and all ranges lie inside
   * [0, Sum(c)): prefix-sum offsets give pairwise disjoint, ordered ranges.
   */
  lemma OffsetRanges(c: seq<int>, t: int, u: int)
    requires NonNegative(c)
    requires 0 <= t < u <= |c|
    ensures 0 <= Sum(c[..t])
    ensures Sum(c[..t]) + c[t] <= Sum(c[..u]) <= Sum(c)
  {
    SumNonNegative(c[..t]);
    SumPrefixStep(c, t);
    assert c[..u] == c[..t + 1] + c[t + 1..u];
    SumConcat(c[..t + 1], c[t + 1..u]);
    SumNonNegative(c[t + 1..u]);
    assert c == c[..u] + c[u..];
    SumConcat(c[..u], c[u..]);
    SumNonNegative(c[u..]);
  }
}
