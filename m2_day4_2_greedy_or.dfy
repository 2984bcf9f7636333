/**
  lvl2/module_2/day4_2.cpp: reorder `a` so that its running OR grows as
  fast as possible: repeatedly take the unused element that gives the
  largest OR with what has been taken (the lowest index on ties), stop when
  no unused element raises the OR, then append the rest in index order.
 */
module GreedyOr {
  import opened Bits

  predicate NonNegative(a: seq<int>)
  {
    forall i :: 0 <= i < |a| ==> a[i] >= 0
  }

  /** The OR of all elements of `s`. */
  function OrAll(s: seq<int>): nat
    requires NonNegative(s)
  {
    if s == [] then 0 else Or(OrAll(s[..|s| - 1]), s[|s| - 1])
  }

  /** The elements at the taken indices, in the order taken. */
  function Picked(a: seq<int>, order: seq<int>): (p: seq<int>)
    requires forall j :: 0 <= j < |order| ==> 0 <= order[j] < |a|
    ensures |p| == |order|
    ensures forall j :: 0 <= j < |order| ==> p[j] == a[order[j]]
  {
    seq(|order|, j requires 0 <= j < |order| => a[order[j]])
  }

  /** The OR of the taken elements (`cur_or`). */
  function Current(a: seq<int>, order: seq<int>): nat
    requires NonNegative(a) && forall j :: 0 <= j < |order| ==> 0 <= order[j] < |a|
  {
    OrAll(Picked(a, order))
  }

  /** The `used` flags of the taken indices `order`. */
  function TakenFlags(order: seq<int>, n: nat): (used: seq<bool>)
    ensures |used| == n
  {
    seq(n, i => i in order)
  }

  /** The untaken elements among the first `m`, in index order. */
  function Rest(a: seq<int>, used: seq<bool>, m: nat): seq<int>
    requires m <= |a| == |used|
  {
    if m == 0 then [] else if used[m - 1] then Rest(a, used, m - 1) else Rest(a, used, m - 1) + [a[m - 1]]
  }

  predicate Distinct(order: seq<int>)
  {
    forall i, j :: 0 <= i < j < |order| ==> order[i] != order[j]
  }

  predicate Indices(a: seq<int>, order: seq<int>)
  {
    forall j :: 0 <= j < |order| ==> 0 <= order[j] < |a|
  }

  /**
    Lines 13-21: `b` is untaken, raises the OR, gives the largest OR among
    the untaken elements, and no untaken element before it gives as much.
   */
  predicate BestPick(a: seq<int>, taken: seq<int>, b: int)
    requires NonNegative(a) && Indices(a, taken)
  {
    var cur := Current(a, taken);
    0 <= b < |a| && b !in taken && Or(cur, a[b]) > cur
    && (forall i :: 0 <= i < |a| && i !in taken ==> Or(cur, a[i]) <= Or(cur, a[b]))
    && (forall i :: 0 <= i < b && i !in taken ==> Or(cur, a[i]) < Or(cur, a[b]))
  }

  /** Line 22: no untaken element raises the OR. */
  predicate Saturated(a: seq<int>, taken: seq<int>)
    requires NonNegative(a) && Indices(a, taken)
  {
    forall i :: 0 <= i < |a| && i !in taken ==> Or(Current(a, taken), a[i]) <= Current(a, taken)
  }

  lemma {:induction false} OrAllBit(s: seq<int>, t: nat)
    requires NonNegative(s)
    ensures Bit(OrAll(s), t) <==> exists j :: 0 <= j < |s| && Bit(s[j], t)
  {
    if s == [] {
      BitOfZero(t);
    } else {
      var init := s[..|s| - 1];
      OrAllBit(init, t);
      BitOr(OrAll(init), s[|s| - 1], t);
      if exists j :: 0 <= j < |s| && Bit(s[j], t) {
        var j :| 0 <= j < |s| && Bit(s[j], t);
        if j < |s| - 1 {
          assert Bit(init[j], t);
        }
      }
    }
  }

  /** Taking one more element ORs it into the current value. */
  lemma CurrentStep(a: seq<int>, taken: seq<int>, b: int)
    requires NonNegative(a) && Indices(a, taken) && 0 <= b < |a|
    ensures Current(a, taken + [b]) == Or(Current(a, taken), a[b])
  {
    assert Picked(a, taken + [b])[..|taken|] == Picked(a, taken);
  }

  /** Once saturated, the current OR is the OR of the whole array. */
  lemma SaturatedIsOrAll(a: seq<int>, taken: seq<int>)
    requires NonNegative(a) && Indices(a, taken) && Saturated(a, taken)
    ensures Current(a, taken) == OrAll(a)
  {
    forall t: nat ensures Bit(Current(a, taken), t) == Bit(OrAll(a), t) {
      SaturatedBit(a, taken, t);
    }
    BitsDetermine(Current(a, taken), OrAll(a));
  }

  /** Once saturated, every bit of the whole array's OR is already in the current OR. */
  lemma SaturatedBit(a: seq<int>, taken: seq<int>, t: nat)
    requires NonNegative(a) && Indices(a, taken) && Saturated(a, taken)
    ensures Bit(Current(a, taken), t) == Bit(OrAll(a), t)
  {
    var cur := Current(a, taken);
    var p := Picked(a, taken);
    OrAllBit(a, t);
    OrAllBit(p, t);
    if Bit(OrAll(a), t) {
      var i :| 0 <= i < |a| && Bit(a[i], t);
      if i in taken {
        var j :| 0 <= j < |taken| && taken[j] == i;
        assert Bit(p[j], t);
      } else {
        OrAtLeast(cur, a[i]);
        BitOr(cur, a[i], t);
      }
    }
  }

  /** The pick at step `s`, a best one, raises the current OR. */
  lemma PickGrows(a: seq<int>, order: seq<int>, s: int)
    requires NonNegative(a) && Indices(a, order) && 0 <= s < |order|
    requires BestPick(a, order[..s], order[s])
    ensures Current(a, order[..s]) < Current(a, order[..s + 1])
  {
    assert order[..s + 1] == order[..s] + [order[s]];
    CurrentStep(a, order[..s], order[s]);
  }

  /** Every greedy pick makes `cur_or` strictly larger. */
  lemma OrStrictlyGrows(a: seq<int>, order: seq<int>)
    requires NonNegative(a) && Indices(a, order)
    requires forall s :: 0 <= s < |order| ==> BestPick(a, order[..s], order[s])
    ensures forall s :: 0 <= s < |order| ==> Current(a, order[..s]) < Current(a, order[..s + 1])
  {
    forall s | 0 <= s < |order| ensures Current(a, order[..s]) < Current(a, order[..s + 1]) {
      PickGrows(a, order, s);
    }
  }

  lemma {:induction false} RestOfNone(a: seq<int>, used: seq<bool>, m: nat)
    requires m <= |a| == |used| && forall i :: 0 <= i < |used| ==> !used[i]
    ensures Rest(a, used, m) == a[..m]
  {
    if m > 0 {
      RestOfNone(a, used, m - 1);
      assert a[..m] == a[..m - 1] + [a[m - 1]];
    }
  }

  /** Flagging an index at or beyond `m` leaves the first `m` untaken elements alone. */
  lemma {:induction false} RestBelow(a: seq<int>, used: seq<bool>, b: int, m: nat)
    requires m <= |a| == |used| && m <= b < |a|
    ensures Rest(a, used[b := true], m) == Rest(a, used, m)
  {
    if m > 0 {
      RestBelow(a, used, b, m - 1);
    }
  }

  /** Taking `b` removes the element at position `|Rest(a, used, b)|` of the untaken ones. */
  lemma {:induction false} RestTakeAt(a: seq<int>, used: seq<bool>, b: int, m: nat)
    requires m <= |a| == |used| && 0 <= b < m && !used[b]
    ensures var r, k := Rest(a, used, m), |Rest(a, used, b)|;
      k < |r| && r[k] == a[b] && Rest(a, used[b := true], m) == r[..k] + r[k + 1..]
  {
    var u := used[b := true];
    var r0, k := Rest(a, used, m - 1), |Rest(a, used, b)|;
    if m - 1 == b {
      RestBelow(a, used, b, b);
      assert Rest(a, used, m) == r0 + [a[b]];
    } else {
      RestTakeAt(a, used, b, m - 1);
      assert u[m - 1] == used[m - 1];
      if !used[m - 1] {
        var x := a[m - 1];
        assert (r0 + [x])[..k] == r0[..k];
        assert (r0 + [x])[k + 1..] == r0[k + 1..] + [x];
      }
    }
  }

  /** Taking `b` moves `a[b]` out of the untaken elements. */
  lemma RestTake(a: seq<int>, used: seq<bool>, b: int, m: nat)
    requires m <= |a| == |used| && 0 <= b < m && !used[b]
    ensures multiset(Rest(a, used, m)) == multiset(Rest(a, used[b := true], m)) + multiset{a[b]}
  {
    RestTakeAt(a, used, b, m);
    var r, k := Rest(a, used, m), |Rest(a, used, b)|;
    assert r == r[..k] + [r[k]] + r[k + 1..];
  }

  lemma {:induction false} RestHas(a: seq<int>, used: seq<bool>, b: int, m: nat)
    requires m <= |a| == |used| && 0 <= b < m && !used[b]
    ensures a[b] in Rest(a, used, m)
  {
    if b < m - 1 {
      RestHas(a, used, b, m - 1);
    }
  }

  /** Lines 13-21: the best untaken index for `cur_or`, or -1 when none raises it. */
  method BestUnused(a: seq<int>, used: seq<bool>, curOr: nat) returns (best: int, bestVal: nat)
    requires NonNegative(a) && |used| == |a|
    ensures best == -1 ==> bestVal == curOr
    ensures best == -1 ==> forall j :: 0 <= j < |a| && !used[j] ==> Or(curOr, a[j]) <= curOr
    ensures best != -1 ==> 0 <= best < |a| && !used[best] && bestVal == Or(curOr, a[best]) > curOr
    ensures best != -1 ==> forall j :: 0 <= j < |a| && !used[j] ==> Or(curOr, a[j]) <= bestVal
    ensures best != -1 ==> forall j :: 0 <= j < best && !used[j] ==> Or(curOr, a[j]) < bestVal
  {
    best, bestVal := -1, curOr;
    for i := 0 to |a|
      invariant best == -1 ==> bestVal == curOr
      invariant best != -1 ==> 0 <= best < i && !used[best] && bestVal == Or(curOr, a[best]) > curOr
      invariant forall j :: 0 <= j < i && !used[j] ==> Or(curOr, a[j]) <= bestVal
      invariant best != -1 ==> forall j :: 0 <= j < best && !used[j] ==> Or(curOr, a[j]) < bestVal
    {
      if used[i] {
        continue;
      }
      var newOr := Or(curOr, a[i]);
      if newOr > bestVal {
        bestVal := newOr;
        best := i;
      }
    }
  }

  /**
    Lines 12-26: pick best untaken indices until none raises `cur_or` or all
    `n` are taken; `used` records the picks.
   */
  method GreedyPhase(a: seq<int>, used: array<bool>) returns (ans: seq<int>, ghost order: seq<int>)
    requires NonNegative(a) && used.Length == |a|
    requires forall i :: 0 <= i < used.Length ==> !used[i]
    modifies used
    ensures Indices(a, order) && Distinct(order)
    ensures forall s :: 0 <= s < |order| ==> BestPick(a, order[..s], order[s])
    ensures Saturated(a, order)
    ensures used[..] == TakenFlags(order, |a|)
    ensures ans == Picked(a, order)
    ensures multiset(ans) + multiset(Rest(a, used[..], |a|)) == multiset(a)
  {
    var n := |a|;
    ans := [];
    order := [];
    var curOr := 0;
    RestOfNone(a, used[..], n);
    assert a[..n] == a;
    FlagsMean(order, n);
    assert used[..] == TakenFlags(order, n);
    var step := 0;
    var done := false;
    while step < n && !done
      invariant |order| == step <= n && Phase(a, order, used[..], ans)
      invariant curOr == Current(a, order)
      invariant done ==> Saturated(a, order)
      decreases n - step, if done then 0 else 1
    {
      var best, bestVal := BestUnused(a, used[..], curOr);
      ScanMeans(a, order, used[..], curOr, best, bestVal);
      if best == -1 {
        done := true;
      } else {
        Advance(a, order, used[..], ans, best);
        ghost var flags := used[..][best := true];
        ans := ans + [a[best]];
        used[best] := true;
        assert used[..] == flags;
        curOr := bestVal;
        order := order + [best];
        step := step + 1;
      }
    }
    if !done {
      AllTakenSaturated(a, order, ans);
    }
  }

  /** Lines 29-30: append the untaken elements in index order. */
  method AppendUnused(a: seq<int>, used: array<bool>, picked: seq<int>) returns (ans: seq<int>)
    requires used.Length == |a|
    ensures ans == picked + Rest(a, used[..], |a|)
  {
    ans := picked;
    for i := 0 to |a|
      invariant ans == picked + Rest(a, used[..], i)
    {
      if !used[i] {
        ans := ans + [a[i]];
      }
    }
  }

  /** The greedy phase followed by the tail; `ans` is what is printed. */
  method ArrangeForOr(a: seq<int>) returns (ans: seq<int>, ghost order: seq<int>)
    requires NonNegative(a)
    ensures Indices(a, order) && Distinct(order)
    ensures forall s :: 0 <= s < |order| ==> BestPick(a, order[..s], order[s])
    ensures Saturated(a, order)
    ensures Current(a, order) == OrAll(a)
    ensures ans == Picked(a, order) + Rest(a, TakenFlags(order, |a|), |a|)
    ensures multiset(ans) == multiset(a)
  {
    var used := new bool[|a|](_ => false);
    var picked;
    picked, order := GreedyPhase(a, used);
    ans := AppendUnused(a, used, picked);
    SaturatedIsOrAll(a, order);
  }

  /**
    The greedy phase's state: `order` holds distinct indices, each a best
    pick when it was taken; `flags` marks them; `ans` holds their elements,
    which with the untaken ones make up `a`.
   */
  ghost predicate Phase(a: seq<int>, order: seq<int>, flags: seq<bool>, ans: seq<int>)
    requires NonNegative(a)
  {
    Indices(a, order) && Distinct(order) && flags == TakenFlags(order, |a|) &&
    (forall s :: 0 <= s < |order| ==> BestPick(a, order[..s], order[s])) &&
    ans == Picked(a, order) &&
    multiset(ans) + multiset(Rest(a, flags, |a|)) == multiset(a)
  }

  /** What the scan over the flags reports, in terms of the picks so far. */
  lemma ScanMeans(a: seq<int>, order: seq<int>, flags: seq<bool>, cur: nat, best: int, bestVal: nat)
    requires NonNegative(a) && Indices(a, order) && flags == TakenFlags(order, |a|)
    requires cur == Current(a, order)
    requires best == -1 ==> forall j :: 0 <= j < |a| && !flags[j] ==> Or(cur, a[j]) <= cur
    requires best != -1 ==> 0 <= best < |a| && !flags[best] && bestVal == Or(cur, a[best]) > cur
    requires best != -1 ==> forall j :: 0 <= j < |a| && !flags[j] ==> Or(cur, a[j]) <= bestVal
    requires best != -1 ==> forall j :: 0 <= j < best && !flags[j] ==> Or(cur, a[j]) < bestVal
    ensures best == -1 ==> Saturated(a, order)
    ensures best != -1 ==> BestPick(a, order, best)
  {
    FlagsMean(order, |a|);
  }

  /** One best pick keeps every invariant of the greedy phase. */
  lemma Advance(a: seq<int>, order: seq<int>, flags: seq<bool>, ans: seq<int>, b: int)
    requires NonNegative(a) && Phase(a, order, flags, ans)
    requires BestPick(a, order, b)
    ensures Phase(a, order + [b], flags[b := true], ans + [a[b]])
    ensures Current(a, order + [b]) == Or(Current(a, order), a[b])
  {
    ExtendPicks(a, order, b);
    CurrentStep(a, order, b);
    PickedSnoc(a, order, b);
    DistinctSnoc(order, b);
    FlagsTake(order, b, |a|);
    FlagsMean(order, |a|);
    BagStep(a, flags, b, ans);
  }

  /** Taking `b` sets its flag and no other. */
  lemma FlagsTake(order: seq<int>, b: int, n: nat)
    requires 0 <= b < n
    ensures TakenFlags(order + [b], n) == TakenFlags(order, n)[b := true]
  {
    var used, used' := TakenFlags(order, n), TakenFlags(order + [b], n);
    forall i | 0 <= i < n ensures used'[i] == used[b := true][i] {
      assert (i in order + [b]) <==> (i in order || i == b);
    }
  }

  /** A flag is set exactly for a taken index. */
  lemma FlagsMean(order: seq<int>, n: nat)
    ensures forall i :: 0 <= i < n ==> (TakenFlags(order, n)[i] <==> i in order)
  {
  }

  lemma DistinctSnoc(order: seq<int>, b: int)
    requires Distinct(order) && b !in order
    ensures Distinct(order + [b])
  {
    var o := order + [b];
    forall i, j | 0 <= i < j < |o| ensures o[i] != o[j] {
      assert o[i] == order[i];
      if j < |order| {
        assert o[j] == order[j];
      }
    }
  }

  lemma PickedSnoc(a: seq<int>, order: seq<int>, b: int)
    requires Indices(a, order) && 0 <= b < |a|
    ensures Indices(a, order + [b])
    ensures Picked(a, order + [b]) == Picked(a, order) + [a[b]]
  {
  }

  /** The taken and the untaken elements together stay a permutation of `a`. */
  lemma BagStep(a: seq<int>, used: seq<bool>, b: int, ans: seq<int>)
    requires |used| == |a| && 0 <= b < |a| && !used[b]
    requires multiset(ans) + multiset(Rest(a, used, |a|)) == multiset(a)
    ensures multiset(ans + [a[b]]) + multiset(Rest(a, used[b := true], |a|)) == multiset(a)
  {
    RestTake(a, used, b, |a|);
  }

  /** After `n` picks nothing is left untaken, so the greedy phase is saturated. */
  lemma AllTakenSaturated(a: seq<int>, order: seq<int>, ans: seq<int>)
    requires NonNegative(a) && Indices(a, order) && |ans| == |a|
    requires multiset(ans) + multiset(Rest(a, TakenFlags(order, |a|), |a|)) == multiset(a)
    ensures Saturated(a, order)
  {
    var used := TakenFlags(order, |a|);
    assert |multiset(ans)| == |a| == |multiset(a)|;
    assert |multiset(Rest(a, used, |a|))| == 0;
    UntakenInRest(a, used);
  }

  /** An index that was not taken leaves its element among the rest. */
  lemma UntakenInRest(a: seq<int>, used: seq<bool>)
    requires |a| == |used|
    ensures forall i :: 0 <= i < |a| && !used[i] ==> a[i] in Rest(a, used, |a|)
  {
    forall i | 0 <= i < |a| && !used[i] ensures a[i] in Rest(a, used, |a|) {
      RestHas(a, used, i, |a|);
    }
  }

  /** One more best pick extends the record of best picks. */
  lemma ExtendPicks(a: seq<int>, order: seq<int>, b: int)
    requires NonNegative(a) && Indices(a, order)
    requires forall s :: 0 <= s < |order| ==> BestPick(a, order[..s], order[s])
    requires BestPick(a, order, b)
    ensures Indices(a, order + [b])
    ensures forall s :: 0 <= s < |order| + 1 ==> BestPick(a, (order + [b])[..s], (order + [b])[s])
  {
    var o := order + [b];
    assert o[..|order|] == order;
    forall s | 0 <= s < |order| ensures o[..s] == order[..s] && o[s] == order[s] {
      assert o[..s] == o[..|order|][..s];
    }
  }
}
