/**
  lvl2/day1_1.cpp: a prefix-sum array over `a` answers 1-based inclusive
  range-sum queries in constant time.
 */
module RangeSum {
  import opened Sums

  /** `ps[0] = a[0]; ps[i] = ps[i - 1] + a[i]` (the source needs `n >= 1` for `ps[0]`). */
  method BuildPrefixSums(a: seq<int>) returns (ps: array<int>)
    requires |a| >= 1
    ensures fresh(ps)
    ensures IsPrefixSums(ps[..], a)
  {
    ps := new int[|a|];
    ps[0] := a[0];
    assert a[..1] == a[..0] + [a[0]];
    for i := 1 to |a|
      invariant forall p :: 0 <= p < i ==> ps[p] == Sum(a[..p + 1])
    {
      SumPrefixStep(a, i);
      ps[i] := ps[i - 1] + a[i];
    }
  }

  /**
    The query `l r` (1-based, inclusive): `ps[r-1] - (l > 1 ? ps[l-2] : 0)`.
    The method reads `ps` and nothing else, so queries change neither `ps` nor `a`.
   */
  method RangeQuery(ps: array<int>, ghost a: seq<int>, l: int, r: int) returns (ans: int)
    requires IsPrefixSums(ps[..], a)
    requires 1 <= l <= r <= |a|
    ensures ans == Sum(a[l - 1..r])
    ensures l == 1 ==> ans == ps[r - 1]
  {
    var l0, r0 := l - 1, r - 1;
    ans := ps[r0] - (if l0 > 0 then ps[l0 - 1] else 0);
    SumSlice(a, l0, r0 + 1);
    assert a[..0] == [];
  }
}
