/**
  lvl2/module_4/day3_2.cpp: the sum of `a[q] - a[p]` over all pairs
  `p < q`, in one pass with a running prefix sum: index `i` contributes
  `a[i] * i - (a[0] + ... + a[i-1])`.
 */
module PairGaps {
  import opened Sums
  import opened Sorting

  /** `(a[q] - a[0]) + ... + (a[q] - a[p-1])`. */
  function GapsTo(a: seq<int>, q: nat, p: nat): int
    requires p <= q < |a|
  {
    if p == 0 then 0 else GapsTo(a, q, p - 1) + (a[q] - a[p - 1])
  }

  /** The sum of `a[q] - a[p]` over all pairs `p < q < m`. */
  function PairGapSum(a: seq<int>, m: nat): int
    requires m <= |a|
  {
    if m == 0 then 0 else PairGapSum(a, m - 1) + GapsTo(a, m - 1, m - 1)
  }

  /** The gaps up to `q` collapse to `a[q] * p` minus the first `p` elements. */
  lemma {:induction false} GapsToClosedForm(a: seq<int>, q: nat, p: nat)
    requires p <= q < |a|
    ensures GapsTo(a, q, p) == a[q] * p - Sum(a[..p])
  {
    if p == 0 {
      assert a[..0] == [];
    } else {
      GapsToClosedForm(a, q, p - 1);
      SumPrefixStep(a, p - 1);
      assert a[q] * p == a[q] * (p - 1) + a[q];
    }
  }

  /** On an ascending sequence every gap is non-negative, so the total is too. */
  lemma {:induction false} SortedGapsNonNegative(a: seq<int>, m: nat)
    requires m <= |a| && SortedAsc(a)
    ensures PairGapSum(a, m) >= 0
  {
    if m > 0 {
      SortedGapsNonNegative(a, m - 1);
      GapsToNonNegative(a, m - 1, m - 1);
    }
  }

  lemma {:induction false} GapsToNonNegative(a: seq<int>, q: nat, p: nat)
    requires p <= q < |a| && SortedAsc(a)
    ensures GapsTo(a, q, p) >= 0
  {
    if p > 0 {
      GapsToNonNegative(a, q, p - 1);
    }
  }

  /** Lines 14-22: `result` is the sum of all pair differences; 0 when `n <= 1`. */
  method SumOfPairGaps(a: seq<int>) returns (result: int)
    ensures result == PairGapSum(a, |a|)
    ensures |a| <= 1 ==> result == 0
  {
    var prefixSum := 0;
    result := 0;
    for i := 0 to |a|
      invariant prefixSum == Sum(a[..i])
      invariant result == PairGapSum(a, i)
    {
      GapsToClosedForm(a, i, i);
      result := result + a[i] * i - prefixSum;
      SumPrefixStep(a, i);
      prefixSum := prefixSum + a[i];
    }
  }
}
