/**
  Finite sums over sequences of integers, the specification vocabulary of
  every prefix-sum kernel in the collection.
 */
module Sums {

  /** The sum of `s`, peeling the last element (the order a prefix loop adds them in). */
  function Sum(s: seq<int>): int
  {
    if |s| == 0 then 0 else Sum(s[..|s| - 1]) + s[|s| - 1]
  }

  /** `ps` holds the running totals of `a`: `ps[i] == a[0] + ... + a[i]`. */
  ghost predicate IsPrefixSums(ps: seq<int>, a: seq<int>)
  {
    |ps| == |a| && forall i :: 0 <= i < |a| ==> ps[i] == Sum(a[..i + 1])
  }

  lemma SumPrefixStep(s: seq<int>, i: nat)
    requires i < |s|
    ensures Sum(s[..i + 1]) == Sum(s[..i]) + s[i]
  {
    assert s[..i + 1][..i] == s[..i];
  }

  lemma {:induction false} SumAppend(s: seq<int>, t: seq<int>)
    ensures Sum(s + t) == Sum(s) + Sum(t)
    decreases |t|
  {
    if |t| == 0 {
      assert s + t == s;
    } else {
      assert (s + t)[..|s + t| - 1] == s + t[..|t| - 1];
      SumAppend(s, t[..|t| - 1]);
    }
  }

  /** The sum of a slice is a difference of two prefix sums. */
  lemma SumSlice(s: seq<int>, i: nat, j: nat)
    requires i <= j <= |s|
    ensures Sum(s[i..j]) == Sum(s[..j]) - Sum(s[..i])
  {
    assert s[..j] == s[..i] + s[i..j];
    SumAppend(s[..i], s[i..j]);
  }

  /** Reordering does not change a sum. */
  lemma {:induction false} SumPermutation(s: seq<int>, t: seq<int>)
    requires multiset(s) == multiset(t)
    ensures Sum(s) == Sum(t)
    decreases |s|
  {
    if |s| > 0 {
      var x := s[|s| - 1];
      assert x in multiset(t);
      var j :| 0 <= j < |t| && t[j] == x;
      var rest := t[..j] + t[j + 1..];
      assert t == t[..j] + [x] + t[j + 1..];
      assert s == s[..|s| - 1] + [x];
      assert multiset(t) == multiset(t[..j]) + multiset{x} + multiset(t[j + 1..]);
      assert multiset(s) == multiset(s[..|s| - 1]) + multiset{x};
      assert multiset(rest) == multiset(t[..j]) + multiset(t[j + 1..]);
      assert multiset(s[..|s| - 1]) == multiset(s) - multiset{x};
      assert multiset(rest) == multiset(t) - multiset{x};
      SumPermutation(s[..|s| - 1], rest);
      SumAppend(t[..j] + [x], t[j + 1..]);
      SumAppend(t[..j], [x]);
      SumAppend(t[..j], t[j + 1..]);
      assert Sum([x]) == x;
    }
  }

  /** A sum of non-negative terms is non-negative. */
  lemma {:induction false} SumNonNegative(s: seq<int>)
    requires forall i :: 0 <= i < |s| ==> s[i] >= 0
    ensures Sum(s) >= 0
    decreases |s|
  {
    if |s| > 0 {
      SumNonNegative(s[..|s| - 1]);
    }
  }

  lemma SumCons(x: int, s: seq<int>)
    ensures Sum([x] + s) == x + Sum(s)
  {
    SumAppend([x], s);
    assert Sum([x]) == x by { assert [x][..0] == []; }
  }

  /** `s` with the element at `j` taken out. */
  function Without(s: seq<int>, j: nat): (r: seq<int>)
    requires j < |s|
    ensures |r| == |s| - 1
    ensures multiset(s) == multiset(r) + multiset{s[j]}
  {
    var r := s[..j] + s[j + 1..];
    assert s == s[..j] + [s[j]] + s[j + 1..];
    assert multiset(s) == multiset(s[..j]) + multiset{s[j]} + multiset(s[j + 1..]);
    r
  }

  /** Taking out one element takes it out of the sum. */
  lemma SumRemove(s: seq<int>, j: nat)
    requires j < |s|
    ensures Sum(s) == s[j] + Sum(Without(s, j))
  {
    var rest := Without(s, j);
    assert multiset(s) == multiset([s[j]] + rest);
    SumPermutation(s, [s[j]] + rest);
    SumCons(s[j], rest);
  }
}
