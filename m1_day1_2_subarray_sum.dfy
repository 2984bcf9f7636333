/**
  lvl2/module_1/day1_2.cpp: counts the non-empty subarrays of `a` whose sum
  is `x`, using a frequency map of the prefix sums seen so far. The
  `map<long long, long long>` is a multiset here: `m[v]` is 0 for an absent
  key, exactly as `operator[]` reads it.
 */
module SubarraySum {
  import opened Sums

  /** The number of starts `i < k` whose subarray `a[i..j]` sums to `x`. */
  function StartsWithSum(a: seq<int>, k: nat, j: nat, x: int): nat
    requires k <= j <= |a|
  {
    if k == 0 then 0
    else StartsWithSum(a, k - 1, j, x) + (if Sum(a[k - 1..j]) == x then 1 else 0)
  }

  /** `#{(i, j) : 0 <= i < j <= m, a[i] + ... + a[j-1] == x}`. */
  function SubarraysWithSum(a: seq<int>, m: nat, x: int): nat
    requires m <= |a|
  {
    if m == 0 then 0 else SubarraysWithSum(a, m - 1, x) + StartsWithSum(a, m, m, x)
  }

  /** The prefix sums `P0, ..., P(k-1)` of `a` as a bag, `Pi = a[0] + ... + a[i-1]`. */
  function PrefixBag(a: seq<int>, k: nat): (bag: multiset<int>)
    requires k <= |a| + 1
    ensures |bag| == k
  {
    if k == 0 then multiset{} else PrefixBag(a, k - 1) + multiset{Sum(a[..k - 1])}
  }

  /**
    A subarray `a[i..j]` sums to `x` exactly when `Pi == Pj - x`, so the
    starts that work for `j` are counted by the bag of earlier prefix sums.
   */
  lemma {:induction false} StartsFromPrefixBag(a: seq<int>, k: nat, j: nat, x: int)
    requires k <= j <= |a|
    ensures StartsWithSum(a, k, j, x) == PrefixBag(a, k)[Sum(a[..j]) - x]
  {
    if k > 0 {
      StartsFromPrefixBag(a, k - 1, j, x);
      SumSlice(a, k - 1, j);
    }
  }

  /**
    Lines 11-18. The bag starts as `{0}` (the empty prefix); at index `i` the
    lookup of `sum - x` sees `P0..Pi` and only then is `P(i+1)` added.
   */
  method CountSubarrays(a: seq<int>, x: int) returns (ans: int, prefixCount: multiset<int>)
    ensures ans == SubarraysWithSum(a, |a|, x)
    ensures prefixCount == PrefixBag(a, |a| + 1) && |prefixCount| == |a| + 1
  {
    prefixCount := multiset{0};
    assert a[..0] == [];
    var sum := 0;
    ans := 0;
    for i := 0 to |a|
      invariant sum == Sum(a[..i])
      invariant prefixCount == PrefixBag(a, i + 1)
      invariant ans == SubarraysWithSum(a, i, x)
    {
      SumPrefixStep(a, i);
      sum := sum + a[i];
      StartsFromPrefixBag(a, i + 1, i + 1, x);
      ans := ans + prefixCount[sum - x];
      prefixCount := prefixCount + multiset{sum};
    }
  }
}
