/**
  lvl2/module_1/day3_2.cpp: counts the non-empty subarrays whose sum is
  divisible by `n = |a|`, by bucketing prefix sums by residue and adding
  `c(c-1)/2` pairs per bucket.
 */
module DivisibleSubarrays {
  import opened Sums
  import opened CppInt

  /** Line 17: `(sum % n + n) % n` with C++ remainders is the mathematical residue. */
  function Residue(sum: int, n: int): (r: int)
    requires n >= 1
    ensures 0 <= r < n
    ensures r == sum % n
  {
    ResidueAgrees(sum, n);
    TruncRem(TruncRem(sum, n) + n, n)
  }

  lemma ResidueAgrees(sum: int, n: int)
    requires n >= 1
    ensures TruncRem(TruncRem(sum, n) + n, n) == sum % n
  {
    var t := TruncRem(sum, n);
    var q := TruncDiv(sum, n);
    assert sum == n * q + t;
    if t >= 0 {
      ModOfMultiplePlus(n, 1, t);
      assert n * 1 + t == t + n;
      ModOfMultiplePlus(n, q, t);
    } else {
      ModOfMultiplePlus(n, 0, t + n);
      assert n * 0 + (t + n) == t + n;
      assert sum == n * (q - 1) + (t + n);
      ModOfMultiplePlus(n, q - 1, t + n);
    }
  }

  /** Sums differ by a multiple of `n` exactly when their residues agree. */
  lemma ModDifference(p: int, s: int, n: int)
    requires n >= 1
    ensures (s - p) % n == 0 <==> p % n == s % n
  {
    var qp, qs := p / n, s / n;
    var rp, rs := p % n, s % n;
    assert p == n * qp + rp && s == n * qs + rs;
    assert s - p == n * (qs - qp) + (rs - rp);
    if rs >= rp {
      ModOfMultiplePlus(n, qs - qp, rs - rp);
    } else {
      assert s - p == n * (qs - qp - 1) + (rs - rp + n);
      ModOfMultiplePlus(n, qs - qp - 1, rs - rp + n);
    }
  }

  /** The number of starts `i < k` whose subarray `a[i..j]` has a sum divisible by `n`. */
  function DivisibleStarts(a: seq<int>, n: int, k: nat, j: nat): nat
    requires n >= 1 && k <= j <= |a|
  {
    if k == 0 then 0
    else DivisibleStarts(a, n, k - 1, j) + (if Sum(a[k - 1..j]) % n == 0 then 1 else 0)
  }

  /** `#{(i, j) : 0 <= i < j <= m, n divides a[i] + ... + a[j-1]}`. */
  function DivisibleCount(a: seq<int>, n: int, m: nat): nat
    requires n >= 1 && m <= |a|
  {
    if m == 0 then 0 else DivisibleCount(a, n, m - 1) + DivisibleStarts(a, n, m, m)
  }

  /** The residues of the prefix sums `P0, ..., P(k-1)`. */
  function ResidueBag(a: seq<int>, n: int, k: nat): (bag: multiset<int>)
    requires n >= 1 && k <= |a| + 1
    ensures |bag| == k
  {
    if k == 0 then multiset{} else ResidueBag(a, n, k - 1) + multiset{Residue(Sum(a[..k - 1]), n)}
  }

  /** The pairs a bucket of `c` equal residues contributes. */
  function Pairs(c: nat): nat
  {
    c * (c - 1) / 2
  }

  /** `Pairs` summed over the buckets `0..r-1`. */
  function PairTotal(bag: multiset<int>, r: nat): nat
  {
    if r == 0 then 0 else PairTotal(bag, r - 1) + Pairs(bag[r - 1])
  }

  lemma PairsSmall()
    ensures Pairs(0) == 0 && Pairs(1) == 0 && Pairs(2) == 1
  {
  }

  lemma PairsStep(c: nat)
    ensures Pairs(c + 1) == Pairs(c) + c
  {
    assert (c + 1) * c == c * (c - 1) + 2 * c;
  }

  /** Adding one residue `v` to its bucket makes `bag[v]` new pairs. */
  lemma {:induction false} PairTotalAdd(bag: multiset<int>, v: int, r: nat)
    requires 0 <= v
    ensures PairTotal(bag + multiset{v}, r) == PairTotal(bag, r) + (if v < r then bag[v] else 0)
  {
    if r > 0 {
      PairTotalAdd(bag, v, r - 1);
      if v == r - 1 {
        PairsStep(bag[v]);
      }
    }
  }

  lemma {:induction false} PairTotalEmpty(r: nat)
    ensures PairTotal(multiset{}, r) == 0
  {
    if r > 0 {
      PairTotalEmpty(r - 1);
    }
  }

  lemma {:induction false} StartsFromResidueBag(a: seq<int>, n: int, k: nat, j: nat)
    requires n >= 1 && k <= j <= |a|
    ensures DivisibleStarts(a, n, k, j) == ResidueBag(a, n, k)[Residue(Sum(a[..j]), n)]
  {
    if k > 0 {
      StartsFromResidueBag(a, n, k - 1, j);
      var p, q := Sum(a[..k - 1]), Sum(a[..j]);
      SumSlice(a, k - 1, j);
      StartStep(p, q, Sum(a[k - 1..j]), n);
      var x, r := Residue(p, n), Residue(q, n);
      assert ResidueBag(a, n, k)[r] == ResidueBag(a, n, k - 1)[r] + (if x == r then 1 else 0);
    }
  }

  /** A subarray sum `s = q - p` is divisible by `n` exactly when the residues of `p` and `q` agree. */
  lemma StartStep(p: int, q: int, s: int, n: int)
    requires n >= 1 && s == q - p
    ensures (s % n == 0) == (Residue(p, n) == Residue(q, n))
  {
    ModDifference(p, q, n);
  }

  /** Counting equal-residue pairs of prefix sums counts the divisible subarrays. */
  lemma {:induction false} PairTotalCountsSubarrays(a: seq<int>, n: int, k: nat)
    requires n >= 1 && 1 <= k <= |a| + 1
    ensures PairTotal(ResidueBag(a, n, k), n) == DivisibleCount(a, n, k - 1)
  {
    var v := Residue(Sum(a[..k - 1]), n);
    PairTotalAdd(ResidueBag(a, n, k - 1), v, n);
    if k == 1 {
      PairTotalEmpty(n);
    } else {
      PairTotalCountsSubarrays(a, n, k - 1);
      StartsFromResidueBag(a, n, k - 1, k - 1);
    }
  }

  /**
    Lines 11-26 with `n = |a|` (the source needs `n >= 1` to divide). The
    second loop visits the residues `0..n-1` in key order; a residue absent
    from the map has count 0 and adds nothing, like a key the map never had.
   */
  method CountDivisible(a: seq<int>) returns (ans: int, prefixCountMod: multiset<int>)
    requires |a| >= 1
    ensures |prefixCountMod| == |a| + 1
    ensures forall v :: v in prefixCountMod ==> 0 <= v < |a|
    ensures ans == DivisibleCount(a, |a|, |a|)
  {
    var n := |a|;
    prefixCountMod := multiset{0};
    assert a[..0] == [];
    var sum := 0;
    for i := 0 to n
      invariant sum == Sum(a[..i])
      invariant prefixCountMod == ResidueBag(a, n, i + 1)
      invariant forall v :: v in prefixCountMod ==> 0 <= v < n
    {
      SumPrefixStep(a, i);
      sum := sum + a[i];
      prefixCountMod := prefixCountMod + multiset{Residue(sum, n)};
    }
    ans := 0;
    for key := 0 to n
      invariant ans == PairTotal(prefixCountMod, key)
    {
      var c := prefixCountMod[key];
      PairsSmall();
      if c > 2 {
        ans := ans + Pairs(c);
      } else if c == 2 {
        ans := ans + 1;
      }
    }
    PairTotalCountsSubarrays(a, n, n + 1);
  }
}
