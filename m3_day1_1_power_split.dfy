/**
  lvl2/module_3/day1_1.cpp: write `n` as a sum of exactly `k` powers of two.
  The binary digits of `n` give the fewest parts; the largest part is then
  halved until there are `k`. The `priority_queue<int>` is a sequence kept
  in non-increasing order, so its top is the first element.
 */
module PowerSplit {
  import opened Bits
  import opened Sums
  import opened Sorting

  /** `x` is `1 << i` for some `i`. */
  predicate IsPow2(x: int)
    decreases if x < 0 then 0 else x
  {
    x == 1 || (x >= 2 && x % 2 == 0 && IsPow2(x / 2))
  }

  predicate AllPow2(s: seq<int>)
  {
    forall i :: 0 <= i < |s| ==> IsPow2(s[i])
  }

  lemma {:induction false} Pow2IsPow2(i: nat)
    ensures IsPow2(Pow2(i))
  {
    if i > 0 {
      Pow2IsPow2(i - 1);
      assert Pow2(i) / 2 == Pow2(i - 1);
    }
  }

  lemma {:induction false} Pow2Increasing(j: nat, i: nat)
    requires j < i
    ensures Pow2(j) < Pow2(i)
    decreases i
  {
    if j < i - 1 {
      Pow2Increasing(j, i - 1);
    }
  }

  /** A power of two has exactly one set bit. */
  lemma {:induction false} Pow2BitCount(x: int)
    requires IsPow2(x)
    ensures x >= 1 && BitCount(x) == 1
    decreases if x < 0 then 0 else x
  {
    if x != 1 {
      Pow2BitCount(x / 2);
    }
  }

  /** Adding two numbers never makes more set bits than they have together. */
  lemma {:induction false} BitCountAdd(x: nat, y: nat)
    ensures BitCount(x + y) <= BitCount(x) + BitCount(y)
    decreases x + y
  {
    if x != 0 && y != 0 {
      if x % 2 == 1 && y % 2 == 1 {
        assert (x + y) / 2 == x / 2 + y / 2 + 1 && (x + y) % 2 == 0;
        BitCountAdd(x / 2 + y / 2, 1);
        BitCountAdd(x / 2, y / 2);
      } else {
        assert (x + y) / 2 == x / 2 + y / 2 && (x + y) % 2 == x % 2 + y % 2;
        BitCountAdd(x / 2, y / 2);
      }
    }
  }

  /**
    Any way of writing `n` as a sum of powers of two uses at least
    `popcount(n)` parts and at most `n` parts.
   */
  lemma {:induction false} PartsBounds(s: seq<int>)
    requires AllPow2(s)
    ensures Sum(s) >= |s|
    ensures BitCount(Sum(s)) <= |s|
    decreases |s|
  {
    if s != [] {
      var init := s[..|s| - 1];
      PartsBounds(init);
      Pow2BitCount(s[|s| - 1]);
      BitCountAdd(Sum(init), s[|s| - 1]);
    }
  }

  /** An upper bound in front of a non-increasing sequence keeps it non-increasing. */
  lemma ConsSortedDesc(y: int, rest: seq<int>)
    requires SortedDesc(rest) && forall k :: 0 <= k < |rest| ==> rest[k] <= y
    ensures SortedDesc([y] + rest)
  {
  }

  /** An element of `s` or `x` is bounded above by anything that bounds both. */
  lemma BoundedAbove(y: int, s: seq<int>, x: int, rest: seq<int>)
    requires multiset(rest) == multiset(s) + multiset{x}
    requires x <= y && forall k :: 0 <= k < |s| ==> s[k] <= y
    ensures forall k :: 0 <= k < |rest| ==> rest[k] <= y
  {
    forall k | 0 <= k < |rest| ensures rest[k] <= y {
      assert rest[k] in multiset(s) + multiset{x};
      if rest[k] != x {
        assert rest[k] in s;
      }
    }
  }

  /** A `priority_queue::push`: place `x` in the non-increasing sequence. */
  function Push(s: seq<int>, x: int): (r: seq<int>)
    requires SortedDesc(s)
    ensures |r| == |s| + 1
    ensures SortedDesc(r) && multiset(r) == multiset(s) + multiset{x}
  {
    if s == [] || x >= s[0] then
      ConsSortedDesc(x, s);
      [x] + s
    else
      var rest := Push(s[1..], x);
      assert s == [s[0]] + s[1..];
      BoundedAbove(s[0], s[1..], x, rest);
      ConsSortedDesc(s[0], rest);
      [s[0]] + rest
  }

  /** Pushing keeps every element a power of two and adds `x` to the sum. */
  lemma PushFacts(s: seq<int>, x: int)
    requires SortedDesc(s)
    ensures Sum(Push(s, x)) == Sum(s) + x
    ensures AllPow2(s) && IsPow2(x) ==> AllPow2(Push(s, x))
  {
    var r := Push(s, x);
    SumPermutation(r, s + [x]);
    SumAppend(s, [x]);
    assert Sum([x]) == x by { assert [x][..0] == []; }
    forall k | 0 <= k < |r| ensures r[k] in s || r[k] == x {
      assert r[k] in multiset(s) + multiset{x};
    }
  }

  lemma {:induction false} SumOfOnes(s: seq<int>)
    requires forall i :: 0 <= i < |s| ==> s[i] == 1
    ensures Sum(s) == |s|
    decreases |s|
  {
    if s != [] {
      SumOfOnes(s[..|s| - 1]);
    }
  }

  /** The powers `1 << j`, `j < i`, whose bit is set in `n`, largest first. */
  function SetPowers(n: nat, i: nat): (s: seq<int>)
  {
    if i == 0 then []
    else if Bit(n, i - 1) then [Pow2(i - 1)] + SetPowers(n, i - 1)
    else SetPowers(n, i - 1)
  }

  /** The set powers below `1 << i` are powers of two, each below `1 << i`, largest first. */
  lemma {:induction false} SetPowersOrdered(n: nat, i: nat)
    ensures forall k :: 0 <= k < |SetPowers(n, i)| ==> SetPowers(n, i)[k] < Pow2(i)
    ensures SortedDesc(SetPowers(n, i)) && AllPow2(SetPowers(n, i))
  {
    if i > 0 {
      SetPowersOrdered(n, i - 1);
      Pow2Increasing(i - 1, i);
      Pow2IsPow2(i - 1);
    }
  }

  /** They add up to `n % (1 << i)`, one part per set bit. */
  lemma {:induction false} SetPowersSum(n: nat, i: nat)
    ensures Sum(SetPowers(n, i)) == Low(n, i)
    ensures |SetPowers(n, i)| == BitCount(Low(n, i))
  {
    if i > 0 {
      SetPowersSum(n, i - 1);
      LowStep(n, i - 1);
      var s := SetPowers(n, i - 1);
      if Bit(n, i - 1) {
        SumCons(Pow2(i - 1), s);
      } else {
        assert SetPowers(n, i) == s;
      }
    }
  }

  /** `SetPowers(n, i)` holds `1 << j` exactly for the set bits `j < i` of `n`. */
  lemma {:induction false} SetPowersMembers(n: nat, i: nat, j: nat)
    ensures Pow2(j) in SetPowers(n, i) <==> j < i && Bit(n, j)
  {
    if i > 0 {
      SetPowersMembers(n, i - 1, j);
      if j != i - 1 && Pow2(j) == Pow2(i - 1) {
        if j < i - 1 {
          Pow2Increasing(j, i - 1);
        } else {
          Pow2Increasing(i - 1, j);
        }
      }
    }
  }

  /** Pushing the next set power puts it on top, where it extends the set powers below it. */
  lemma SetPowersStep(n: nat, i: nat)
    ensures SortedDesc(SetPowers(n, i))
    ensures SetPowers(n, i + 1) == if Bit(n, i) then Push(SetPowers(n, i), Pow2(i)) else SetPowers(n, i)
  {
    var pq := SetPowers(n, i);
    SetPowersOrdered(n, i);
    if Bit(n, i) {
      assert pq == [] || pq[0] < Pow2(i);
      assert Push(pq, Pow2(i)) == [Pow2(i)] + pq;
    }
  }

  /** Lines 9-15: the heap starts with the set bits of `n`. */
  method Decompose(n: nat) returns (pq: seq<int>)
    ensures pq == SetPowers(n, n + 1)
    ensures SortedDesc(pq) && AllPow2(pq)
    ensures Sum(pq) == n && |pq| == BitCount(n)
  {
    pq := [];
    var i := 0;
    while Pow2(i) <= n
      invariant i == 0 || Pow2(i - 1) <= n
      invariant pq == SetPowers(n, i)
      decreases n - i
    {
      Pow2AboveIndex(i);
      SetPowersStep(n, i);
      if Bit(n, i) {
        pq := Push(pq, Pow2(i));
      }
      i := i + 1;
    }
    SetPowersDone(n, i);
  }

  /** Once `1 << i` exceeds `n`, the set powers below it are all of them and add up to `n`. */
  lemma SetPowersDone(n: nat, i: nat)
    requires n < Pow2(i) && (i == 0 || Pow2(i - 1) <= n)
    ensures SetPowers(n, i) == SetPowers(n, n + 1)
    ensures SortedDesc(SetPowers(n, i)) && AllPow2(SetPowers(n, i))
    ensures Sum(SetPowers(n, i)) == n && |SetPowers(n, i)| == BitCount(n)
  {
    if i > 0 {
      Pow2AboveIndex(i - 1);
    }
    SetPowersOrdered(n, i);
    SetPowersSum(n, i);
    LowFull(n, i);
    SetPowersBeyond(n, i, n + 1);
  }

  /** Bits at or above the width of `n` add nothing. */
  lemma {:induction false} SetPowersBeyond(n: nat, i: nat, m: nat)
    requires n < Pow2(i) && i <= m
    ensures SetPowers(n, m) == SetPowers(n, i)
    decreases m
  {
    if m > i {
      SetPowersBeyond(n, i, m - 1);
      BitAboveWidth(n, i, m - 1);
    }
  }

  /** Lines 24-30: halve the largest part until there are `k` parts. */
  method SplitLargest(pq0: seq<int>, k: int) returns (pq: seq<int>)
    requires SortedDesc(pq0) && AllPow2(pq0)
    requires |pq0| <= k <= Sum(pq0)
    ensures SortedDesc(pq) && AllPow2(pq)
    ensures |pq| == k && Sum(pq) == Sum(pq0)
  {
    pq := pq0;
    while |pq| < k
      invariant SortedDesc(pq) && AllPow2(pq)
      invariant |pq| <= k && Sum(pq) == Sum(pq0)
      decreases k - |pq|
    {
      var top := pq[0];
      if top < 2 {
        forall i | 0 <= i < |pq| ensures pq[i] == 1 {
          Pow2BitCount(pq[i]);
        }
        SumOfOnes(pq);
      }
      assert pq == [top] + pq[1..];
      SumCons(top, pq[1..]);
      pq := pq[1..];
      PushFacts(pq, top / 2);
      pq := Push(pq, top / 2);
      PushFacts(pq, top / 2);
      pq := Push(pq, top / 2);
    }
  }

  /** Lines 35-38: pop the heap into `result`, largest first. */
  method Drain(pq0: seq<int>) returns (result: seq<int>)
    ensures result == pq0
  {
    result := [];
    var pq := pq0;
    while pq != []
      invariant result + pq == pq0
    {
      result := result + [pq[0]];
      pq := pq[1..];
    }
  }

  /**
    Lines 9-38. "NO" exactly when `k` is below the number of set bits of
    `n` or above `n`, and then no `k` powers of two add up to `n`;
    otherwise `k` powers of two, largest first, that add up to `n`.
   */
  method SplitIntoPowers(n: nat, k: int) returns (yes: bool, result: seq<int>)
    ensures yes <==> BitCount(n) <= k <= n
    ensures yes ==> |result| == k && Sum(result) == n && AllPow2(result) && SortedDesc(result)
    ensures !yes ==> result == []
    ensures !yes ==> forall s :: AllPow2(s) && Sum(s) == n ==> |s| != k
  {
    var pq := Decompose(n);
    if k < |pq| || k > n {
      forall s | AllPow2(s) && Sum(s) == n ensures |s| != k {
        PartsBounds(s);
      }
      return false, [];
    }
    pq := SplitLargest(pq, k);
    result := Drain(pq);
    yes := true;
  }
}
