/**
  lvl2/module_4/day2_2.cpp: the cheapest way to make all elements equal
  when changing an element by one costs one. The elements are sorted, the
  target is the median (the truncated midpoint of the two middle elements
  for an even count), and the cost is the sum of distances to it.
 */
module MedianCost {
  import opened Sums
  import opened Sorting
  import opened CppInt

  function Abs(x: int): nat
  {
    if x < 0 then -x else x
  }

  /** `|s[0] - m| + ... + |s[|s| - 1] - m|`, the cost of moving every element to `m`. */
  function Dev(s: seq<int>, m: int): nat
  {
    if s == [] then 0 else Dev(s[..|s| - 1], m) + Abs(s[|s| - 1] - m)
  }

  /** `(s[last] - s[0]) + (s[last - 1] - s[1]) + ...`, pairing the ends inwards. */
  function Spread(s: seq<int>): int
    decreases |s|
  {
    if |s| <= 1 then 0 else s[|s| - 1] - s[0] + Spread(s[1..|s| - 1])
  }

  lemma {:induction false} DevAppend(s: seq<int>, t: seq<int>, m: int)
    ensures Dev(s + t, m) == Dev(s, m) + Dev(t, m)
    decreases |t|
  {
    if t == [] {
      assert s + t == s;
    } else {
      assert (s + t)[..|s + t| - 1] == s + t[..|t| - 1];
      DevAppend(s, t[..|t| - 1], m);
    }
  }

  lemma DevPrefixStep(s: seq<int>, i: nat, m: int)
    requires i < |s|
    ensures Dev(s[..i + 1], m) == Dev(s[..i], m) + Abs(s[i] - m)
  {
    assert s[..i + 1][..i] == s[..i];
  }

  lemma DevSingle(x: int, m: int)
    ensures Dev([x], m) == Abs(x - m)
  {
    assert [x][..0] == [];
  }

  /** Taking out one element takes out its distance. */
  lemma DevRemove(t: seq<int>, j: nat, m: int)
    requires j < |t|
    ensures Dev(t, m) == Dev(Without(t, j), m) + Abs(t[j] - m)
  {
    assert t == t[..j] + [t[j]] + t[j + 1..];
    DevAppend(t[..j] + [t[j]], t[j + 1..], m);
    DevAppend(t[..j], [t[j]], m);
    DevAppend(t[..j], t[j + 1..], m);
    DevSingle(t[j], m);
  }

  /** The cost does not depend on the order of the elements. */
  lemma {:induction false} DevPermutation(s: seq<int>, t: seq<int>, m: int)
    requires multiset(s) == multiset(t)
    ensures Dev(s, m) == Dev(t, m)
    decreases |s|
  {
    if s != [] {
      var init, x := s[..|s| - 1], s[|s| - 1];
      assert s == init + [x];
      assert x in multiset(t);
      var j :| 0 <= j < |t| && t[j] == x;
      assert multiset(init) == multiset(Without(t, j)) by {
        assert multiset(s) == multiset(init) + multiset{x};
        assert multiset(init) == multiset(s) - multiset{x};
      }
      DevPermutation(init, Without(t, j), m);
      DevRemove(t, j, m);
    }
  }

  /** Peeling both ends off. */
  lemma DevEnds(s: seq<int>, m: int)
    requires |s| >= 2
    ensures Dev(s, m) == Abs(s[0] - m) + Dev(s[1..|s| - 1], m) + Abs(s[|s| - 1] - m)
  {
    assert s[..|s| - 1] == [s[0]] + s[1..|s| - 1];
    DevAppend([s[0]], s[1..|s| - 1], m);
    assert Dev([s[0]], m) == Abs(s[0] - m) by { assert [s[0]][..0] == []; }
  }

  /** No target costs less than the paired spread. */
  lemma {:induction false} DevAtLeastSpread(s: seq<int>, m: int)
    ensures Dev(s, m) >= Spread(s)
    decreases |s|
  {
    if |s| == 1 {
      assert s[..0] == [];
    } else if |s| >= 2 {
      DevEnds(s, m);
      DevAtLeastSpread(s[1..|s| - 1], m);
    }
  }

  /** A target between the two middle elements of a sorted sequence costs exactly the spread. */
  lemma {:induction false} DevAtMedian(s: seq<int>, m: int)
    requires SortedAsc(s) && |s| >= 1
    requires s[(|s| - 1) / 2] <= m <= s[|s| / 2]
    ensures Dev(s, m) == Spread(s)
    decreases |s|
  {
    var n := |s|;
    if n == 1 {
      assert s[..0] == [] && m == s[0];
    } else {
      DevEnds(s, m);
      EndsAround(s, m);
      var inner := s[1..n - 1];
      if n >= 3 {
        InnerMedian(s, m);
        DevAtMedian(inner, m);
      } else {
        assert inner == [];
      }
      assert Abs(s[0] - m) + Abs(s[n - 1] - m) == s[n - 1] - s[0];
      assert Spread(s) == s[n - 1] - s[0] + Spread(inner);
    }
  }

  /** The target lies between the two ends. */
  lemma EndsAround(s: seq<int>, m: int)
    requires SortedAsc(s) && |s| >= 2
    requires s[(|s| - 1) / 2] <= m <= s[|s| / 2]
    ensures s[0] <= m <= s[|s| - 1]
  {
  }

  /** Without its two ends, the sequence is still sorted with the target between its middle elements. */
  lemma InnerMedian(s: seq<int>, m: int)
    requires SortedAsc(s) && |s| >= 3
    requires s[(|s| - 1) / 2] <= m <= s[|s| / 2]
    ensures var inner := s[1..|s| - 1];
      SortedAsc(inner) && inner[(|inner| - 1) / 2] <= m <= inner[|inner| / 2]
  {
    var n, inner := |s|, s[1..|s| - 1];
    var q, r := n / 2, n % 2;
    assert n == 2 * q + r && 0 <= r < 2;
    assert (n - 3) / 2 == (n - 1) / 2 - 1 && (n - 2) / 2 == q - 1 by {
      assert n - 3 == 2 * (q - 2) + (r + 1) && n - 1 == 2 * (q - 1) + (r + 1);
      assert n - 2 == 2 * (q - 1) + r;
    }
    forall i, j | 0 <= i < j < |inner| ensures inner[i] <= inner[j] {
      assert inner[i] == s[i + 1] && inner[j] == s[j + 1];
    }
  }

  /** Line 16: the target read off the sorted elements. */
  function Median(t: seq<int>): int
    requires |t| >= 1
  {
    var n := |t|;
    if n % 2 == 0 then TruncDiv(t[n / 2 - 1] + t[n / 2], 2) else t[n / 2]
  }

  /** The target lies between the two middle elements. */
  lemma MedianBetween(t: seq<int>)
    requires SortedAsc(t) && |t| >= 1
    ensures t[(|t| - 1) / 2] <= Median(t) <= t[|t| / 2]
  {
    var n := |t|;
    if n % 2 == 0 {
      TruncMidpoint(t[n / 2 - 1], t[n / 2]);
    }
  }

  /** Once sorted, the median target costs the least of all targets. */
  lemma MedianOptimal(a: seq<int>, t: seq<int>, median: int)
    requires t == SortAsc(a) && |a| >= 1 && median == Median(t)
    ensures forall m :: Dev(a, m) >= Dev(a, median)
  {
    DevPermutation(a, t, median);
    MedianBetween(t);
    DevAtMedian(t, median);
    forall m ensures Dev(a, m) >= Dev(a, median) {
      DevPermutation(a, t, m);
      DevAtLeastSpread(t, m);
    }
  }

  /** Lines 17-20: the distances to `median`, added up. */
  method SumDistances(arr: array<int>, median: int) returns (cost: int)
    ensures cost == Dev(arr[..], median)
  {
    cost := 0;
    for i := 0 to arr.Length
      invariant cost == Dev(arr[..i], median)
    {
      DevPrefixStep(arr[..], i, median);
      cost := cost + Abs(arr[i] - median);
    }
    assert arr[..arr.Length] == arr[..];
  }

  /**
    Lines 10-22: sort, pick the target, add up the distances. The cost is
    that of moving every element to the target, and no other target is
    cheaper.
   */
  method MinimalCost(a: seq<int>) returns (cost: int, median: int)
    requires |a| >= 1
    ensures median == Median(SortAsc(a))
    ensures cost == Dev(a, median) && cost >= 0
    ensures forall m :: Dev(a, m) >= cost
  {
    var n := |a|;
    var arr := new int[n](i requires 0 <= i < n => a[i]);
    assert arr[..] == a;
    SortArrayAsc(arr);
    ghost var t := arr[..];
    median := Median(arr[..]);
    cost := SumDistances(arr, median);
    DevPermutation(a, t, median);
    MedianOptimal(a, t, median);
  }
}
