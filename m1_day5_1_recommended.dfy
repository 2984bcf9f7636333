/**
  lvl2/module_1/day5_1.cpp: recipes recommend inclusive temperature ranges
  inside `0..200000`; a temperature is admissible when at least `k` recipes
  cover it, and each question asks how many admissible temperatures lie in
  `l..r`. A difference array gives the coverage, a 0/1 flag per temperature
  marks admissibility, and prefix sums of the flags answer the questions.
 */
module Recommended {
  import opened Sums
  import opened Coverage
  import opened RangeSum

  /** The arrays have one cell per temperature `0..200000`. */
  const Size := 200001

  /**
    Lines 20-30 as written: `diff_prefix[0]` is the raw `a[0]`, and every later
    flag adds `a[i]` to the previous, already capped, flag rather than to a
    running coverage count.
   */
  function FlagAsWritten(d: seq<int>, k: int, i: nat): int
    requires i < |d|
  {
    if i == 0 then d[0]
    else if FlagAsWritten(d, k, i - 1) + d[i] >= k then 1 else 0
  }

  /** The intended flag: 1 exactly when at least `k` recipes cover temperature `i`. */
  function HotFlags(spans: seq<Span>, k: int): (f: seq<int>)
    ensures |f| == Size
    ensures forall i :: 0 <= i < Size ==> (f[i] == 1 <==> Covered(spans, i) >= k)
    ensures forall i :: 0 <= i < Size ==> (f[i] == 0 <==> Covered(spans, i) < k)
  {
    seq(Size, i => if Covered(spans, i) >= k then 1 else 0)
  }

  /** The number of admissible temperatures in `lo..hi-1`. */
  function HotCount(spans: seq<Span>, k: int, lo: int, hi: int): nat
    requires lo <= hi
    decreases hi - lo
  {
    if hi == lo then 0 else HotCount(spans, k, lo, hi - 1) + (if Covered(spans, hi - 1) >= k then 1 else 0)
  }

  lemma {:induction false} HotCountBound(spans: seq<Span>, k: int, lo: int, hi: int)
    requires lo <= hi
    ensures HotCount(spans, k, lo, hi) <= hi - lo
    decreases hi - lo
  {
    if hi > lo {
      HotCountBound(spans, k, lo, hi - 1);
    }
  }

  /** Summing the flags over a range counts its admissible temperatures. */
  lemma {:induction false} FlagSumCounts(spans: seq<Span>, k: int, lo: nat, hi: nat)
    requires lo <= hi <= Size
    ensures Sum(HotFlags(spans, k)[lo..hi]) == HotCount(spans, k, lo, hi)
    decreases hi - lo
  {
    var f := HotFlags(spans, k);
    if hi > lo {
      FlagSumCounts(spans, k, lo, hi - 1);
      assert f[lo..hi][..hi - 1 - lo] == f[lo..hi - 1];
    } else {
      assert f[lo..hi] == [];
    }
  }

  /**
    The capped flags as written lose the count: two recipes `1..2` and `2..2`
    with `k = 2` cover temperature 2 twice, yet its flag is 0, because the
    flag of temperature 1 was already capped to 0 before `a[2] = 1` was added.
   */
  lemma CappedFlagMissesOverlap()
    ensures var spans := [Span(1, 2), Span(2, 2)];
      var d := seq(Size, t => DiffAt(spans, Size, t));
      Covered(spans, 2) == 2 && HotFlags(spans, 2)[2] == 1 && FlagAsWritten(d, 2, 2) == 0
  {
    var spans := [Span(1, 2), Span(2, 2)];
    var d := seq(Size, t => DiffAt(spans, Size, t));
    assert spans[..1] == [Span(1, 2)] && [Span(1, 2)][..0] == [];
    assert DiffAt([Span(1, 2)], Size, 0) == 0 && DiffAt([Span(1, 2)], Size, 1) == 1;
    assert DiffAt([Span(1, 2)], Size, 2) == 0;
    assert d[0] == 0 && d[1] == 1 && d[2] == 1;
    assert FlagAsWritten(d, 2, 1) == 0;
  }

  lemma FlagStep(d: seq<int>, k: int, i: nat)
    requires 1 <= i < |d|
    ensures FlagAsWritten(d, k, i) == if FlagAsWritten(d, k, i - 1) + d[i] >= k then 1 else 0
  {
  }

  /** Lines 20-30 as written; the flags from index 1 on are 0 or 1. */
  method CappedFlagsAsWritten(a: array<int>, k: int) returns (dp: array<int>)
    requires a.Length == Size
    ensures fresh(dp) && dp.Length == Size
    ensures forall i :: 0 <= i < Size ==> dp[i] == FlagAsWritten(a[..], k, i)
    ensures dp[0] == a[0]
    ensures forall i :: 1 <= i < Size ==> dp[i] == 0 || dp[i] == 1
  {
    ghost var d := a[..];
    dp := new int[Size];
    dp[0] := a[0];
    for i := 1 to Size
      invariant forall p :: 0 <= p < i ==> dp[p] == FlagAsWritten(d, k, p)
      invariant forall p :: 1 <= p < i ==> dp[p] == 0 || dp[p] == 1
    {
      var running := dp[i - 1] + a[i];
      FlagStep(d, k, i);
      if running >= k {
        dp[i] := 1;
      } else {
        dp[i] := 0;
      }
    }
  }

  /**
    Lines 20-30 corrected: a running `cover` accumulates the difference cells,
    and each flag compares the coverage itself with `k`.
   */
  method HotFlagArray(a: array<int>, ghost spans: seq<Span>, k: int) returns (flags: array<int>)
    requires a.Length == Size && ValidSpans(spans, Size)
    requires forall t :: 0 <= t < Size ==> a[t] == DiffAt(spans, Size, t)
    ensures fresh(flags)
    ensures flags[..] == HotFlags(spans, k)
  {
    flags := new int[Size];
    var cover := 0;
    for i := 0 to Size
      invariant i == 0 ==> cover == 0
      invariant i >= 1 ==> cover == Covered(spans, i - 1)
      invariant forall p :: 0 <= p < i ==> flags[p] == HotFlags(spans, k)[p]
    {
      if i == 0 {
        CoveredAtZero(spans, Size);
      } else {
        CoveredStep(spans, Size, i);
      }
      cover := cover + a[i];
      flags[i] := if cover >= k then 1 else 0;
    }
  }

  /** The flags summed over `l..r` count the admissible temperatures there. */
  lemma QueryAnswer(spans: seq<Span>, k: int, q: Span, ans: int)
    requires 0 <= q.lo <= q.hi < Size && ans == Sum(HotFlags(spans, k)[q.lo..q.hi + 1])
    ensures ans == HotCount(spans, k, q.lo, q.hi + 1)
    ensures 0 <= ans <= q.hi - q.lo + 1
  {
    FlagSumCounts(spans, k, q.lo, q.hi + 1);
    HotCountBound(spans, k, q.lo, q.hi + 1);
  }

  /**
    One input: the recipes, `k`, and the questions `(l, r)` with
    `0 <= l <= r <= 200000`; each answer is `prefix[r] - prefix[l - 1]` over
    the corrected flags.
   */
  method Recommend(spans: seq<Span>, k: int, questions: seq<Span>) returns (answers: seq<int>)
    requires ValidSpans(spans, Size) && ValidSpans(questions, Size)
    ensures |answers| == |questions|
    ensures forall j :: 0 <= j < |questions| ==>
      answers[j] == HotCount(spans, k, questions[j].lo, questions[j].hi + 1)
    ensures forall j :: 0 <= j < |questions| ==> 0 <= answers[j] <= questions[j].hi - questions[j].lo + 1
  {
    var a := new int[Size](_ => 0);
    AddSpans(a, spans, Size);
    var flags := HotFlagArray(a, spans, k);
    var prefix := BuildPrefixSums(flags[..]);
    answers := AnswerQuestions(prefix, spans, k, questions);
  }

  /** Lines 39-45: each question `(l, r)` is answered as `prefix[r] - prefix[l - 1]`. */
  method AnswerQuestions(prefix: array<int>, ghost spans: seq<Span>, k: int, questions: seq<Span>)
    returns (answers: seq<int>)
    requires IsPrefixSums(prefix[..], HotFlags(spans, k)) && ValidSpans(questions, Size)
    ensures |answers| == |questions|
    ensures forall j :: 0 <= j < |questions| ==>
      answers[j] == HotCount(spans, k, questions[j].lo, questions[j].hi + 1)
    ensures forall j :: 0 <= j < |questions| ==> 0 <= answers[j] <= questions[j].hi - questions[j].lo + 1
  {
    ghost var f := HotFlags(spans, k);
    answers := [];
    for j := 0 to |questions|
      invariant |answers| == j
      invariant forall p :: 0 <= p < j ==> answers[p] == HotCount(spans, k, questions[p].lo, questions[p].hi + 1)
      invariant forall p :: 0 <= p < j ==> 0 <= answers[p] <= questions[p].hi - questions[p].lo + 1
    {
      var q := questions[j];
      assert q in questions;
      var ans := RangeQuery(prefix, f, q.lo + 1, q.hi + 1);
      QueryAnswer(spans, k, q, ans);
      answers := answers + [ans];
    }
  }
}
