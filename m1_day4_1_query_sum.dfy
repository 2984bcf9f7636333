/**
  lvl2/module_1/day4_1.cpp: counts how many queries cover each index of
  `a` with a difference array, then pairs the largest values of `a` with
  the most-covered positions by sorting both descending and taking the
  dot product.
 */
module QuerySum {
  import opened Sums
  import opened Sorting
  import opened Coverage
  import opened RangeSum

  /** The coverage count of every index below `n`. */
  function Coverages(spans: seq<Span>, n: nat): (c: seq<int>)
    ensures |c| == n
  {
    seq(n, i => Covered(spans, i))
  }

  /** `x[0]*y[0] + ... + x[n-1]*y[n-1]`. */
  function Dot(x: seq<int>, y: seq<int>): int
    requires |x| == |y|
  {
    if x == [] then 0 else Dot(x[..|x| - 1], y[..|y| - 1]) + x[|x| - 1] * y[|y| - 1]
  }

  /** The sum of the answers to all queries, each query summing `v[lo..hi]`. */
  function QueryTotal(v: seq<int>, spans: seq<Span>): int
    requires ValidSpans(spans, |v|)
  {
    if spans == [] then 0
    else
      var s := spans[|spans| - 1];
      assert s in spans;
      QueryTotal(v, spans[..|spans| - 1]) + Sum(v[s.lo..s.hi + 1])
  }

  function Min(x: int, y: int): int
  {
    if x <= y then x else y
  }

  /** One more index `m` adds `v[m]` to the part of a range that lies below `m + 1`. */
  lemma ClippedSumStep(v: seq<int>, s: Span, m: nat)
    requires 0 <= s.lo <= s.hi < |v| && m < |v|
    ensures Sum(v[Min(s.lo, m + 1)..Min(s.hi + 1, m + 1)])
         == Sum(v[Min(s.lo, m)..Min(s.hi + 1, m)]) + (if s.lo <= m <= s.hi then v[m] else 0)
  {
    var a, b := Min(s.lo, m), Min(s.hi + 1, m);
    var a', b' := Min(s.lo, m + 1), Min(s.hi + 1, m + 1);
    SumSlice(v, a, b);
    SumSlice(v, a', b');
    SumPrefixStep(v, m);
  }

  /** Removing the last query takes its clipped range sum off the weighted total. */
  lemma {:induction false} DotCoverageStep(v: seq<int>, spans: seq<Span>, m: nat)
    requires spans != [] && ValidSpans(spans, |v|) && m <= |v|
    ensures var s := spans[|spans| - 1];
      Dot(v[..m], Coverages(spans, m))
        == Dot(v[..m], Coverages(spans[..|spans| - 1], m)) + Sum(v[Min(s.lo, m)..Min(s.hi + 1, m)])
  {
    var s := spans[|spans| - 1];
    assert s in spans;
    var init := spans[..|spans| - 1];
    if m > 0 {
      DotCoverageStep(v, spans, m - 1);
      CoverageRow(v, spans, m);
      CoverageRow(v, init, m);
      var x := v[m - 1];
      var c := Covered(init, m - 1);
      var e := if s.lo <= m - 1 <= s.hi then 1 else 0;
      assert Covered(spans, m - 1) == c + e;
      Distribute(x, c, e);
      ClippedSumStep(v, s, m - 1);
    }
  }

  /** The last index `m - 1` adds `v[m - 1]` weighted by its coverage. */
  lemma CoverageRow(v: seq<int>, spans: seq<Span>, m: nat)
    requires 0 < m <= |v|
    ensures Dot(v[..m], Coverages(spans, m))
         == Dot(v[..m - 1], Coverages(spans, m - 1)) + v[m - 1] * Covered(spans, m - 1)
  {
    assert v[..m][..m - 1] == v[..m - 1];
    assert Coverages(spans, m)[..m - 1] == Coverages(spans, m - 1);
  }

  lemma Distribute(x: int, c: int, e: int)
    ensures x * (c + e) == x * c + x * e
  {
  }

  /** Weighting `v` by the coverage counts gives the total of all query answers over `v`. */
  lemma {:induction false} DotCoverageIsQueryTotal(v: seq<int>, spans: seq<Span>)
    requires ValidSpans(spans, |v|)
    ensures Dot(v, Coverages(spans, |v|)) == QueryTotal(v, spans)
  {
    assert v[..|v|] == v;
    if spans == [] {
      DotOfZeros(v, Coverages(spans, |v|));
    } else {
      DotCoverageIsQueryTotal(v, spans[..|spans| - 1]);
      DotCoverageStep(v, spans, |v|);
    }
  }

  lemma {:induction false} DotOfZeros(v: seq<int>, z: seq<int>)
    requires |v| == |z| && forall i :: 0 <= i < |z| ==> z[i] == 0
    ensures Dot(v, z) == 0
  {
    if v != [] {
      DotOfZeros(v[..|v| - 1], z[..|z| - 1]);
    }
  }

  /**
    Lines 15-32: the difference array has `n + 1` cells, ends are marked only
    below `n`, and `prefix[i] = diff[0] + ... + diff[i]` for `i < n`.
   */
  method CoverageCounts(spans: seq<Span>, n: int) returns (prefix: array<int>)
    requires n >= 1 && ValidSpans(spans, n)
    ensures fresh(prefix)
    ensures prefix[..] == Coverages(spans, n)
    ensures forall i :: 0 <= i < n ==> 0 <= prefix[i] <= |spans|
  {
    var diff := new int[n + 1](_ => 0);
    AddSpans(diff, spans, n);
    prefix := BuildPrefixSums(diff[..n]);
    forall i | 0 <= i < n
      ensures prefix[i] == Covered(spans, i)
    {
      PrefixIsCoverage(diff[..n], spans, n, i + 1);
      CoveredBound(spans, i);
    }
    forall i | 0 <= i < n
      ensures 0 <= prefix[i] <= |spans|
    {
      CoveredBound(spans, i);
    }
  }

  /** Lines 38-41. */
  method DotProduct(x: array<int>, y: array<int>) returns (ans: int)
    requires x.Length == y.Length
    ensures ans == Dot(x[..], y[..])
  {
    ans := 0;
    for i := 0 to x.Length
      invariant ans == Dot(x[..i], y[..i])
    {
      assert x[..i + 1][..i] == x[..i] && y[..i + 1][..i] == y[..i];
      ans := ans + x[i] * y[i];
    }
    assert x[..x.Length] == x[..] && y[..y.Length] == y[..];
  }

  /**
    The whole kernel for one input: `a` is sorted descending in place, the
    coverage counts are sorted descending, and the answer is their dot product.
   */
  method MaxQuerySum(a: array<int>, spans: seq<Span>) returns (ans: int)
    modifies a
    requires a.Length >= 1 && ValidSpans(spans, a.Length)
    ensures a[..] == SortDesc(old(a[..]))
    ensures ans == Dot(SortDesc(old(a[..])), SortDesc(Coverages(spans, a.Length)))
  {
    var prefix := CoverageCounts(spans, a.Length);
    SortArrayDesc(a);
    SortArrayDesc(prefix);
    ans := DotProduct(a, prefix);
  }
}
