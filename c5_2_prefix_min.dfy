/**
  contests/contest5/2.cpp: the sum of prefix minima of `a`, computed once
  by a helper and once through a prefix-minimum array and its prefix sums;
  then, for every `i` in `1..n-2`, the candidate that keeps the first `i`
  prefix minima and takes `min(prefix_min[i], a[i] + a[i+1])` next. The
  candidates below the full sum are printed, or the full sum when there are none.
 */
module PrefixMinSum {
  import opened Sums
  import opened RangeSum

  function Min(x: int, y: int): int
  {
    if x <= y then x else y
  }

  /** The least element of a non-empty sequence. */
  function MinOf(s: seq<int>): (m: int)
    requires |s| >= 1
    ensures forall k :: 0 <= k < |s| ==> m <= s[k]
  {
    if |s| == 1 then s[0] else Min(MinOf(s[..|s| - 1]), s[|s| - 1])
  }

  /** The minimum is attained: it is one of the elements. */
  lemma {:induction false} MinOfIn(s: seq<int>)
    requires |s| >= 1
    ensures MinOf(s) in s
  {
    if |s| > 1 {
      MinOfIn(s[..|s| - 1]);
      assert MinOf(s[..|s| - 1]) in s;
    }
  }

  /** `pm[i]` is the minimum of `a[0..i]`. */
  function PrefixMins(a: seq<int>): (pm: seq<int>)
    ensures |pm| == |a|
    ensures forall i :: 0 <= i < |a| ==> pm[i] == MinOf(a[..i + 1])
  {
    seq(|a|, i requires 0 <= i < |a| => MinOf(a[..i + 1]))
  }

  /** Prefix minima never increase, and each lies at or below its own element. */
  lemma PrefixMinsShape(a: seq<int>, i: nat, j: nat)
    requires i <= j < |a|
    ensures PrefixMins(a)[j] <= PrefixMins(a)[i]
    ensures PrefixMins(a)[j] <= a[j]
    ensures PrefixMins(a)[j] in a
  {
    var m := MinOf(a[..i + 1]);
    MinOfIn(a[..i + 1]);
    MinOfIn(a[..j + 1]);
    var k :| 0 <= k < i + 1 && a[..i + 1][k] == m;
    assert a[..j + 1][k] == a[k] == m;
    assert a[..j + 1][j] == a[j];
    assert MinOf(a[..j + 1]) in a[..j + 1];
    assert a[..j + 1] == a[..|a|][..j + 1];
    assert a[..|a|] == a;
  }

  /** The sum of prefix minima. */
  function Total(a: seq<int>): int
  {
    Sum(PrefixMins(a))
  }

  /** Candidate `i`: the first `i` prefix minima, then the smaller of `pm[i]` and `a[i] + a[i+1]`. */
  function Candidate(a: seq<int>, i: nat): int
    requires 1 <= i && i + 1 < |a|
  {
    Sum(PrefixMins(a)[..i]) + Min(PrefixMins(a)[i], a[i] + a[i + 1])
  }

  /** Candidates `1..n-2` in order; none when `n <= 2`. */
  function Candidates(a: seq<int>): (c: seq<int>)
    ensures |c| == if |a| >= 2 then |a| - 2 else 0
    ensures forall k :: 0 <= k < |c| ==> c[k] == Candidate(a, k + 1)
  {
    seq(if |a| >= 2 then |a| - 2 else 0, k requires 0 <= k && k + 3 <= |a| => Candidate(a, k + 1))
  }

  /** The elements of `c` strictly below `t`, in order. */
  function Below(c: seq<int>, t: int): (r: seq<int>)
    ensures |r| <= |c|
    ensures forall x :: x in r ==> x < t
    ensures forall x :: x in r ==> x in c
  {
    if c == [] then []
    else if c[|c| - 1] < t then Below(c[..|c| - 1], t) + [c[|c| - 1]]
    else Below(c[..|c| - 1], t)
  }

  /** Nothing is kept exactly when every element is at least `t`. */
  lemma {:induction false} BelowEmpty(c: seq<int>, t: int)
    ensures Below(c, t) == [] <==> forall k :: 0 <= k < |c| ==> c[k] >= t
  {
    if c != [] {
      BelowEmpty(c[..|c| - 1], t);
    }
  }

  /** Lines 55-57: the candidates below the total, or the total alone when there are none. */
  function Printed(a: seq<int>): (out: seq<int>)
    requires |a| >= 1
  {
    var imp := Below(Candidates(a), Total(a));
    if imp == [] then [Total(a)] else imp
  }

  /** Whatever is printed is at most the sum of prefix minima, and never nothing. */
  lemma PrintedBounded(a: seq<int>)
    requires |a| >= 1
    ensures Printed(a) != []
    ensures forall x :: x in Printed(a) ==> x <= Total(a)
    ensures Printed(a) == [Total(a)] <==> forall i :: 1 <= i < |a| - 1 ==> Candidate(a, i) >= Total(a)
  {
    var c := Candidates(a);
    var imp := Below(c, Total(a));
    BelowEmpty(c, Total(a));
    if imp != [] {
      assert imp[0] in imp;
    } else {
      forall i | 1 <= i < |a| - 1 ensures Candidate(a, i) >= Total(a) {
        assert c[i - 1] == Candidate(a, i);
      }
    }
  }

  /** Lines 7-16. */
  method ComputePrefixMinSum(a: seq<int>) returns (sum: int)
    requires |a| >= 1
    ensures sum == Total(a)
  {
    var pm := PrefixMins(a);
    sum := a[0];
    var currentMin := a[0];
    assert a[..1] == [a[0]];
    assert pm[..1] == [pm[0]];
    for i := 1 to |a|
      invariant currentMin == MinOf(a[..i]) == pm[i - 1]
      invariant sum == Sum(pm[..i])
    {
      assert a[..i + 1][..i] == a[..i];
      currentMin := Min(currentMin, a[i]);
      SumPrefixStep(pm, i);
      sum := sum + currentMin;
    }
    assert pm[..|a|] == pm;
  }

  /** Lines 30-35. */
  method PrefixMinArray(a: seq<int>) returns (prefixMin: array<int>)
    requires |a| >= 1
    ensures fresh(prefixMin)
    ensures prefixMin[..] == PrefixMins(a)
  {
    var pm := PrefixMins(a);
    prefixMin := new int[|a|];
    var minTill := a[0];
    for i := 0 to |a|
      invariant i == 0 ==> minTill == a[0]
      invariant i > 0 ==> minTill == pm[i - 1]
      invariant forall p :: 0 <= p < i ==> prefixMin[p] == pm[p]
    {
      if i > 0 {
        assert a[..i + 1][..i] == a[..i];
      }
      minTill := Min(minTill, a[i]);
      prefixMin[i] := minTill;
    }
  }

  /** Candidate `i` is the sum of the first `i` prefix minima plus the next choice. */
  lemma NextCandidate(a: seq<int>, ps: seq<int>, i: nat)
    requires IsPrefixSums(ps, PrefixMins(a)) && 1 <= i && i + 1 < |a|
    ensures ps[i - 1] + Min(PrefixMins(a)[i], a[i] + a[i + 1]) == Candidates(a)[i - 1]
  {
  }

  /** One more candidate is kept exactly when it lies below `t`. */
  lemma BelowStep(c: seq<int>, i: nat, t: int)
    requires 1 <= i <= |c|
    ensures Below(c[..i], t) == if c[i - 1] < t then Below(c[..i - 1], t) + [c[i - 1]] else Below(c[..i - 1], t)
  {
    assert c[..i][..i - 1] == c[..i - 1];
  }

  /** Lines 25-57 for one test case: the sequence of printed values. */
  method Solve(a: seq<int>) returns (printed: seq<int>)
    requires |a| >= 1
    ensures printed == Printed(a)
  {
    var n := |a|;
    var prefixMin := PrefixMinArray(a);
    var prefixSum := BuildPrefixSums(prefixMin[..]);
    ghost var pm := PrefixMins(a);
    assert pm[..n] == pm;
    printed := [];
    var found := false;
    ghost var c := Candidates(a);
    var i := 1;
    while i < n - 1
      invariant 1 <= i <= (if n >= 2 then n - 1 else 1)
      invariant prefixMin[..] == pm && IsPrefixSums(prefixSum[..], pm)
      invariant printed == Below(c[..i - 1], Total(a))
      invariant found <==> printed != []
    {
      var newCurrent := a[i] + a[i + 1];
      var newSum := prefixSum[i - 1] + (if prefixMin[i] > newCurrent then newCurrent else prefixMin[i]);
      NextCandidate(a, prefixSum[..], i);
      BelowStep(c, i, Total(a));
      if newSum < prefixSum[n - 1] {
        found := true;
        printed := printed + [newSum];
      }
      i := i + 1;
    }
    assert c[..i - 1] == c;
    if !found {
      printed := [prefixSum[n - 1]];
    }
  }
}
