/**
  lvl2/module_1/day2_2.cpp: range sums over `a` (query type 1) and over
  `a` sorted ascending (any other type), both from prefix-sum arrays.
 */
module SortedRangeSums {
  import opened Sums
  import opened Sorting
  import opened RangeSum

  /** Lines 12-24: `pre` over `a`, a sorted copy `sorted_a`, and `pre_cost` over the copy. */
  method Precompute(a: seq<int>) returns (pre: array<int>, sortedA: array<int>, preCost: array<int>)
    requires |a| >= 1
    ensures fresh(pre) && fresh(sortedA) && fresh(preCost)
    ensures IsPrefixSums(pre[..], a)
    ensures sortedA[..] == SortAsc(a)
    ensures IsPrefixSums(preCost[..], sortedA[..])
  {
    pre := BuildPrefixSums(a);
    sortedA := new int[|a|];
    forall i | 0 <= i < |a| {
      sortedA[i] := a[i];
    }
    assert sortedA[..] == a;
    SortArrayAsc(sortedA);
    preCost := BuildPrefixSums(sortedA[..]);
  }

  /** Lines 26-35: type 1 sums `a[l-1..r-1]`; any other type sums the sorted copy. */
  method Query(pre: array<int>, preCost: array<int>, ghost a: seq<int>, ghost sortedA: seq<int>,
               t: int, l: int, r: int) returns (answer: int)
    requires IsPrefixSums(pre[..], a) && IsPrefixSums(preCost[..], sortedA)
    requires |sortedA| == |a|
    requires 1 <= l <= r <= |a|
    ensures t == 1 ==> answer == Sum(a[l - 1..r])
    ensures t != 1 ==> answer == Sum(sortedA[l - 1..r])
  {
    if t == 1 {
      answer := RangeQuery(pre, a, l, r);
    } else {
      answer := RangeQuery(preCost, sortedA, l, r);
    }
  }

  /** Both prefix arrays end at the same total, because sorting only reorders `a`. */
  lemma TotalsAgree(pre: seq<int>, preCost: seq<int>, a: seq<int>)
    requires |a| >= 1
    requires IsPrefixSums(pre, a) && IsPrefixSums(preCost, SortAsc(a))
    ensures pre[|a| - 1] == preCost[|a| - 1]
  {
    var n, t := |a|, SortAsc(a);
    SumPermutation(a, t);
    assert pre[n - 1] == Sum(a[..n]) && preCost[n - 1] == Sum(t[..n]);
    assert a[..n] == a && t[..n] == t;
  }
}
