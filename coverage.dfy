/**
  Difference arrays over inclusive index ranges, shared by
  lvl2/module_1/day4_1.cpp and lvl2/module_1/day5_1.cpp: each range adds
  +1 at its start and -1 just past its end, the latter only while that
  index is below a `limit`, and a running sum then counts how many ranges
  cover each index.
 */
module Coverage {
  import opened Sums

  /** An inclusive range `lo..hi` of 0-based indices. */
  datatype Span = Span(lo: int, hi: int)

  predicate ValidSpans(spans: seq<Span>, limit: int)
  {
    forall s :: s in spans ==> 0 <= s.lo <= s.hi < limit
  }

  /** The number of ranges that contain index `i`. */
  function Covered(spans: seq<Span>, i: int): nat
  {
    if spans == [] then 0
    else
      var s := spans[|spans| - 1];
      Covered(spans[..|spans| - 1], i) + (if s.lo <= i <= s.hi then 1 else 0)
  }

  /** What the ranges leave at `diff[t]`: +1 per start, -1 per guarded end. */
  function DiffAt(spans: seq<Span>, limit: int, t: int): int
  {
    if spans == [] then 0
    else
      var s := spans[|spans| - 1];
      DiffAt(spans[..|spans| - 1], limit, t)
        + (if s.lo == t then 1 else 0)
        - (if s.hi + 1 == t && s.hi + 1 < limit then 1 else 0)
  }

  lemma {:induction false} CoveredBound(spans: seq<Span>, i: int)
    ensures Covered(spans, i) <= |spans|
  {
    if spans != [] {
      CoveredBound(spans[..|spans| - 1], i);
    }
  }

  /** Nothing is marked at or beyond the limit. */
  lemma {:induction false} DiffAtBeyond(spans: seq<Span>, limit: int, t: int)
    requires ValidSpans(spans, limit) && t >= limit
    ensures DiffAt(spans, limit, t) == 0
  {
    if spans != [] {
      assert spans[|spans| - 1] in spans;
      DiffAtBeyond(spans[..|spans| - 1], limit, t);
    }
  }

  /** Index 0 is covered by exactly the ranges that start there. */
  lemma {:induction false} CoveredAtZero(spans: seq<Span>, limit: int)
    requires ValidSpans(spans, limit)
    ensures Covered(spans, 0) == DiffAt(spans, limit, 0)
  {
    if spans != [] {
      assert spans[|spans| - 1] in spans;
      CoveredAtZero(spans[..|spans| - 1], limit);
    }
  }

  /** Moving from `t - 1` to `t < limit` gains the starts at `t` and loses the ends at `t - 1`. */
  lemma {:induction false} CoveredStep(spans: seq<Span>, limit: int, t: int)
    requires ValidSpans(spans, limit) && 1 <= t < limit
    ensures Covered(spans, t) == Covered(spans, t - 1) + DiffAt(spans, limit, t)
  {
    if spans != [] {
      assert spans[|spans| - 1] in spans;
      CoveredStep(spans[..|spans| - 1], limit, t);
    }
  }

  /**
    Below the limit the guard never fires, so writing the end mark of a
    range that ends at `limit - 1` into one extra cell changes no prefix.
   */
  lemma {:induction false} GuardOnlyAtLimit(spans: seq<Span>, limit: int, t: int)
    requires ValidSpans(spans, limit) && t < limit
    ensures DiffAt(spans, limit, t) == DiffAt(spans, limit + 1, t)
  {
    if spans != [] {
      assert spans[|spans| - 1] in spans;
      GuardOnlyAtLimit(spans[..|spans| - 1], limit, t);
    }
  }

  /** A running sum of the difference cells recovers the coverage counts. */
  lemma {:induction false} PrefixIsCoverage(d: seq<int>, spans: seq<Span>, limit: int, m: nat)
    requires ValidSpans(spans, limit) && 1 <= m <= |d| && m <= limit
    requires forall t :: 0 <= t < |d| ==> d[t] == DiffAt(spans, limit, t)
    ensures Sum(d[..m]) == Covered(spans, m - 1)
  {
    SumPrefixStep(d, m - 1);
    if m == 1 {
      assert d[..0] == [];
      CoveredAtZero(spans, limit);
    } else {
      PrefixIsCoverage(d, spans, limit, m - 1);
      CoveredStep(spans, limit, m - 1);
    }
  }

  /**
    Lines 18-25 of day4_1.cpp and 12-17 of day5_1.cpp: `diff[lo]++` and,
    when `hi + 1 < limit`, `diff[hi + 1]--` for every range, on a zeroed array.
   */
  method AddSpans(diff: array<int>, spans: seq<Span>, limit: int)
    modifies diff
    requires ValidSpans(spans, limit) && limit <= diff.Length
    requires forall t :: 0 <= t < diff.Length ==> diff[t] == 0
    ensures forall t :: 0 <= t < diff.Length ==> diff[t] == DiffAt(spans, limit, t)
  {
    for k := 0 to |spans|
      invariant forall t :: 0 <= t < diff.Length ==> diff[t] == DiffAt(spans[..k], limit, t)
    {
      assert spans[..k + 1][..k] == spans[..k];
      var s := spans[k];
      assert s in spans;
      diff[s.lo] := diff[s.lo] + 1;
      if s.hi + 1 < limit {
        diff[s.hi + 1] := diff[s.hi + 1] - 1;
      }
    }
    assert spans[..|spans|] == spans;
  }
}
