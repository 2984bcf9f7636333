/**
  lvl2/module_4/day1_3.cpp: position `i` (0-based) costs `(i + 1) + a[i]`;
  with budget `c`, how many positions can be paid for? The costs are sorted
  and bought cheapest first until the next one is unaffordable.
 */
module BudgetGreedy {
  import opened Sums
  import opened Sorting

  /** Lines 13-18: `totalCost[i] = (i + 1) + a[i]`. */
  function Costs(a: seq<int>): (t: seq<int>)
    ensures |t| == |a| && forall i :: 0 <= i < |a| ==> t[i] == (i + 1) + a[i]
  {
    seq(|a|, i requires 0 <= i < |a| => (i + 1) + a[i])
  }

  /**
    Any `m` of the costs add up to at least the `m` cheapest ones: the
    sorted prefix is the cheapest way to buy `m` positions.
   */
  lemma {:induction false} CheapestFirst(t: seq<int>, s: seq<int>)
    requires SortedAsc(t) && multiset(s) <= multiset(t)
    ensures |s| <= |t| && Sum(s) >= Sum(t[..|s|])
    decreases |t|
  {
    if s != [] {
      assert s[0] in multiset(s);
      var x := t[0];
      var y := if x in s then x else s[0];
      var j :| 0 <= j < |s| && s[j] == y;
      assert y in multiset(s);
      assert x <= y by {
        assert y in multiset(t);
        var p :| 0 <= p < |t| && t[p] == y;
      }
      var rest := Without(s, j);
      SumRemove(s, j);
      RemoveSmallest(t, s, j);
      CheapestFirst(t[1..], rest);
      assert t[..|s|] == [x] + t[1..][..|rest|];
      SumCons(x, t[1..][..|rest|]);
    }
  }

  /** Taking the smallest cost out of `t`, or another element out of `s` when `s` lacks it. */
  lemma RemoveSmallest(t: seq<int>, s: seq<int>, j: nat)
    requires t != [] && j < |s| && multiset(s) <= multiset(t)
    requires s[j] == t[0] || t[0] !in s
    ensures multiset(Without(s, j)) <= multiset(t[1..])
  {
    var x := t[0];
    assert t == [x] + t[1..];
    assert multiset(t) == multiset{x} + multiset(t[1..]);
    var rest := Without(s, j);
    if s[j] == x {
      assert multiset(rest) == multiset(s) - multiset{x};
    } else {
      assert multiset(s)[x] == 0;
      assert multiset(s) <= multiset(t[1..]);
    }
  }

  /** With sorted costs from a non-negative one on, longer prefixes cost no less. */
  lemma {:induction false} PrefixGrows(t: seq<int>, i: nat, m: nat)
    requires SortedAsc(t) && i < m <= |t| && t[i] >= 0
    ensures Sum(t[..m]) >= Sum(t[..i + 1])
    decreases m
  {
    if m > i + 1 {
      PrefixGrows(t, i, m - 1);
      SumPrefixStep(t, m - 1);
    }
  }

  /**
    Where the scan stops: when the next sorted cost exceeds what is left,
    no longer prefix and no larger choice of costs fits the budget.
   */
  lemma LongestAffordable(t: seq<int>, c: int, cnt: nat)
    requires SortedAsc(t) && cnt <= |t| && c - Sum(t[..cnt]) >= 0
    requires cnt < |t| ==> t[cnt] > c - Sum(t[..cnt])
    ensures forall m :: cnt < m <= |t| ==> Sum(t[..m]) > c
    ensures forall s :: multiset(s) <= multiset(t) && Sum(s) <= c ==> |s| <= cnt
  {
    if cnt < |t| {
      SumPrefixStep(t, cnt);
      forall m | cnt < m <= |t| ensures Sum(t[..m]) > c {
        PrefixGrows(t, cnt, m);
      }
    }
    forall s | multiset(s) <= multiset(t) && Sum(s) <= c ensures |s| <= cnt {
      CheapestFirst(t, s);
    }
  }

  /**
    Lines 13-32 for a budget `c >= 0`. `cnt` positions are bought, the
    cheapest first; the budget covers them and no longer prefix, and no
    choice of more than `cnt` positions fits the budget.
   */
  method CountAffordable(a: seq<int>, c: int) returns (cnt: nat, totalCost: array<int>)
    requires c >= 0
    ensures totalCost[..] == SortAsc(Costs(a))
    ensures cnt <= |a| && Sum(totalCost[..cnt]) <= c
    ensures forall m :: cnt < m <= |a| ==> Sum(totalCost[..m]) > c
    ensures forall s :: multiset(s) <= multiset(Costs(a)) && Sum(s) <= c ==> |s| <= cnt
  {
    var n := |a|;
    totalCost := new int[n];
    for i := 0 to n
      invariant forall p :: 0 <= p < i ==> totalCost[p] == Costs(a)[p]
    {
      totalCost[i] := (i + 1) + a[i];
    }
    assert totalCost[..] == Costs(a);
    SortArrayAsc(totalCost);
    ghost var t := totalCost[..];
    var left := c;
    cnt := 0;
    while cnt < n
      invariant totalCost[..] == t
      invariant cnt <= n && left == c - Sum(t[..cnt]) && left >= 0
    {
      if left >= totalCost[cnt] {
        SumPrefixStep(t, cnt);
        left := left - totalCost[cnt];
        cnt := cnt + 1;
      } else {
        break;
      }
    }
    LongestAffordable(t, c, cnt);
  }
}
