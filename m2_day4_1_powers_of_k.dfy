/**
  lvl2/module_2/day4_1.cpp: can every `a[i]` be written as a sum of powers
  of `k`, no power used twice over the whole array? Starting from the least
  power of `k` that reaches `max(a)`, each power is subtracted from every
  element still at least as large; two takers of one power answer "No", and
  otherwise the answer is "Yes" exactly when everything reaches 0.
 */
module PowersOfK {
  import opened CppInt

  /** `k^e`. */
  function Power(k: int, e: nat): (p: int)
    requires k >= 2
    ensures p >= 1
  {
    if e == 0 then 1 else k * Power(k, e - 1)
  }

  lemma PowerStep(k: int, e: nat)
    requires k >= 2
    ensures Power(k, e + 1) > Power(k, e)
    ensures Power(k, e + 1) / k == Power(k, e)
  {
    var p := Power(k, e);
    assert Power(k, e + 1) == k * p;
    assert k * p == 2 * p + (k - 2) * p;
    MulNonNegative(k - 2, p);
    DivOfMultiple(k, p);
  }

  /** `(k * p) / k == p` for `k >= 1`. */
  lemma DivOfMultiple(k: int, p: int)
    requires k >= 1
    ensures (k * p) / k == p
  {
    var q, r := (k * p) / k, (k * p) % k;
    assert k * (p - q) == r;
    if p - q >= 1 {
      assert k * (p - q) == k + k * (p - q - 1);
      MulNonNegative(k, p - q - 1);
    } else if p - q <= -1 {
      assert k * (q - p) == k + k * (q - p - 1);
      MulNonNegative(k, q - p - 1);
    }
  }

  predicate NonNegative(s: seq<int>)
  {
    forall i :: 0 <= i < |s| ==> s[i] >= 0
  }

  /** The largest element (`*max_element`). */
  function Largest(s: seq<int>): (m: int)
    requires |s| >= 1
    ensures forall i :: 0 <= i < |s| ==> s[i] <= m
  {
    if |s| == 1 then s[0]
    else
      var r := Largest(s[..|s| - 1]);
      if r >= s[|s| - 1] then r else s[|s| - 1]
  }

  lemma {:induction false} LargestIn(s: seq<int>)
    requires |s| >= 1
    ensures exists i :: 0 <= i < |s| && s[i] == Largest(s)
  {
    if |s| > 1 {
      var init := s[..|s| - 1];
      LargestIn(init);
      assert Largest(s) == if Largest(init) >= s[|s| - 1] then Largest(init) else s[|s| - 1];
      if Largest(init) >= s[|s| - 1] {
        var i :| 0 <= i < |init| && init[i] == Largest(init);
        assert 0 <= i < |s| && s[i] == Largest(s);
      } else {
        assert 0 <= |s| - 1 < |s| && s[|s| - 1] == Largest(s);
      }
    } else {
      assert s[0] == Largest(s);
    }
  }

  /** The least exponent `r >= e` with `k^r >= v`. */
  function LeastExp(k: int, v: int, e: nat): (r: nat)
    requires k >= 2
    ensures r >= e && Power(k, r) >= v
    ensures r == e || Power(k, r - 1) < v
    decreases if Power(k, e) >= v then 0 else v - Power(k, e)
  {
    PowerStep(k, e);
    if Power(k, e) >= v then e else LeastExp(k, v, e + 1)
  }

  /** Subtract `p` from every element that is at least `p` (lines 30-35). */
  function Pass(s: seq<int>, p: int): (r: seq<int>)
    ensures |r| == |s|
    ensures forall i :: 0 <= i < |s| ==> r[i] == if s[i] >= p then s[i] - p else s[i]
  {
    seq(|s|, i requires 0 <= i < |s| => if s[i] >= p then s[i] - p else s[i])
  }

  /** How many elements are at least `p` (the `count` of lines 29-35). */
  function Taken(s: seq<int>, p: int): nat
  {
    if s == [] then 0 else Taken(s[..|s| - 1], p) + (if s[|s| - 1] >= p then 1 else 0)
  }

  datatype Outcome = Outcome(rest: seq<int>, clash: bool)

  /**
    Lines 27-41 on values: the powers `k^e, ..., k^0` in turn; a power with
    two or more takers stops the run with `clash` set.
   */
  function Run(s: seq<int>, k: int, e: int): (o: Outcome)
    requires k >= 2
    ensures |o.rest| == |s|
    decreases if e < 0 then 0 else e + 1
  {
    if e < 0 then Outcome(s, false)
    else
      var p := Power(k, e);
      if Taken(s, p) > 1 then Outcome(Pass(s, p), true) else Run(Pass(s, p), k, e - 1)
  }

  /** Lines 43-47. */
  predicate Verdict(o: Outcome)
  {
    !o.clash && forall i :: 0 <= i < |o.rest| ==> o.rest[i] == 0
  }

  /** One element alone: does the greedy subtract `k^t` when it runs from `k^e` down? */
  predicate Uses(x: int, k: int, e: nat, t: nat)
    requires k >= 2 && t <= e
    decreases e
  {
    var p := Power(k, e);
    if t == e then x >= p else Uses(if x >= p then x - p else x, k, e - 1, t)
  }

  /** What one element keeps after the greedy over `k^e, ..., k^0`. */
  function Greedy(x: int, k: int, e: int): int
    requires k >= 2
    decreases if e < 0 then 0 else e + 1
  {
    if e < 0 then x
    else
      var p := Power(k, e);
      Greedy(if x >= p then x - p else x, k, e - 1)
  }

  /** The powers `k^t`, `t < m`, that one element takes. */
  function UsedSum(x: int, k: int, e: nat, m: nat): int
    requires k >= 2 && m <= e + 1
  {
    if m == 0 then 0 else UsedSum(x, k, e, m - 1) + (if Uses(x, k, e, m - 1) then Power(k, m - 1) else 0)
  }

  /** How many elements take `k^t`. */
  function Users(s: seq<int>, k: int, e: nat, t: nat): nat
    requires k >= 2 && t <= e
  {
    if s == [] then 0 else Users(s[..|s| - 1], k, e, t) + (if Uses(s[|s| - 1], k, e, t) then 1 else 0)
  }

  /** No power among `k^0..k^e` has two takers. */
  predicate ClashFree(s: seq<int>, k: int, e: int)
    requires k >= 2
  {
    forall t: nat :: t <= e ==> Users(s, k, e, t) <= 1
  }

  lemma {:induction false} UsedSumShift(x: int, k: int, e: nat, m: nat)
    requires k >= 2 && 1 <= e && m <= e
    ensures var p := Power(k, e);
      UsedSum(x, k, e, m) == UsedSum(if x >= p then x - p else x, k, e - 1, m)
  {
    if m > 0 {
      UsedSumShift(x, k, e, m - 1);
    }
  }

  /** Each element is what it keeps plus the powers it takes. */
  lemma {:induction false} Decompose(x: int, k: int, e: int)
    requires k >= 2 && e >= -1
    ensures e >= 0 ==> x == Greedy(x, k, e) + UsedSum(x, k, e, e + 1)
    decreases e + 1
  {
    if e >= 0 {
      var p := Power(k, e);
      var x' := if x >= p then x - p else x;
      if e >= 1 {
        Decompose(x', k, e - 1);
        UsedSumShift(x, k, e, e);
      }
    }
  }

  lemma {:induction false} TakenIsUsers(s: seq<int>, k: int, e: nat)
    requires k >= 2
    ensures Taken(s, Power(k, e)) == Users(s, k, e, e)
  {
    if s != [] {
      TakenIsUsers(s[..|s| - 1], k, e);
    }
  }

  lemma {:induction false} UsersShift(s: seq<int>, k: int, e: nat, t: nat)
    requires k >= 2 && t < e
    ensures Users(Pass(s, Power(k, e)), k, e - 1, t) == Users(s, k, e, t)
  {
    if s != [] {
      var p := Power(k, e);
      assert Pass(s, p)[..|s| - 1] == Pass(s[..|s| - 1], p);
      UsersShift(s[..|s| - 1], k, e, t);
    }
  }

  /**
    The run clashes exactly when some power has two takers; without a clash
    every element ends at its own greedy remainder.
   */
  lemma {:induction false} RunCharacterized(s: seq<int>, k: int, e: int)
    requires k >= 2 && e >= -1
    ensures Run(s, k, e).clash <==> !ClashFree(s, k, e)
    ensures !Run(s, k, e).clash ==> forall i :: 0 <= i < |s| ==> Run(s, k, e).rest[i] == Greedy(s[i], k, e)
    decreases e + 1
  {
    if e >= 0 {
      var p := Power(k, e);
      var s' := Pass(s, p);
      TakenIsUsers(s, k, e);
      RunCharacterized(s', k, e - 1);
      forall t: nat | t < e ensures Users(s', k, e - 1, t) == Users(s, k, e, t) {
        UsersShift(s, k, e, t);
      }
      if Taken(s, p) <= 1 {
        if ClashFree(s', k, e - 1) {
          forall t: nat | t <= e ensures Users(s, k, e, t) <= 1 {
            if t < e {
              assert Users(s', k, e - 1, t) <= 1;
            }
          }
        }
        if ClashFree(s, k, e) && e >= 1 {
          var e1: nat := e - 1;
          forall t: nat | t <= e1 ensures Users(s', k, e1, t) <= 1 {
            assert Users(s, k, e, t) <= 1;
          }
        }
      }
    }
  }

  /**
    A "Yes" means every element is exactly the sum of the powers it took, and
    no power `k^t` with `t <= e` was taken by two elements.
   */
  lemma YesMeansDisjointPowers(s: seq<int>, k: int, e: int)
    requires k >= 2 && e >= 0
    requires Verdict(Run(s, k, e))
    ensures forall i :: 0 <= i < |s| ==> s[i] == UsedSum(s[i], k, e, e + 1)
    ensures forall t: nat :: t <= e ==> Users(s, k, e, t) <= 1
  {
    RunCharacterized(s, k, e);
    forall i | 0 <= i < |s| ensures s[i] == UsedSum(s[i], k, e, e + 1) {
      Decompose(s[i], k, e);
    }
  }

  /** Line 32 never makes an element negative. */
  lemma {:induction false} RunKeepsNonNegative(s: seq<int>, k: int, e: int)
    requires k >= 2 && NonNegative(s)
    ensures NonNegative(Run(s, k, e).rest)
    decreases if e < 0 then 0 else e + 1
  {
    if e >= 0 {
      RunKeepsNonNegative(Pass(s, Power(k, e)), k, e - 1);
    }
  }

  /** On non-negative values the largest is 0 exactly when all are 0. */
  lemma LargestZero(s: seq<int>)
    requires |s| >= 1 && NonNegative(s)
    ensures Largest(s) == 0 <==> forall i :: 0 <= i < |s| ==> s[i] == 0
  {
    LargestIn(s);
  }

  /** Lines 22-25: the least power of `k` that reaches `v`, starting from `k^0 = 1`. */
  method LeastPowerAtLeast(k: int, v: int) returns (p: int)
    requires k >= 2
    ensures p == Power(k, LeastExp(k, v, 0))
  {
    p := 1;
    ghost var e: nat := 0;
    while p < v
      invariant p == Power(k, e)
      invariant LeastExp(k, v, e) == LeastExp(k, v, 0)
      decreases v - p
    {
      PowerStep(k, e);
      p := p * k;
      e := e + 1;
    }
  }

  /** Lines 29-35: one pass with power `p`. */
  method SubtractPass(a: array<int>, p: int) returns (count: int)
    modifies a
    ensures a[..] == Pass(old(a[..]), p)
    ensures count == Taken(old(a[..]), p)
  {
    ghost var before := a[..];
    count := 0;
    for i := 0 to a.Length
      invariant forall j :: 0 <= j < i ==> a[j] == Pass(before, p)[j]
      invariant forall j :: i <= j < a.Length ==> a[j] == before[j]
      invariant count == Taken(before[..i], p)
    {
      assert before[..i + 1][..i] == before[..i];
      if a[i] >= p {
        a[i] := a[i] - p;
        count := count + 1;
      }
    }
    assert before[..a.Length] == before;
    assert a[..] == Pass(before, p);
  }

  /** Dividing `k^e` by `k` gives the next smaller power, and `1 / k` is 0. */
  lemma NextPower(k: int, e: nat)
    requires k >= 2
    ensures Power(k, e) / k == if e >= 1 then Power(k, e - 1) else 0
  {
    if e >= 1 {
      PowerStep(k, e - 1);
    } else {
      assert Power(k, e) == 1;
    }
  }

  /** Lines 20-47 for one test case; `k = 1` never terminates in the source and is excluded. */
  method PowersVerdict(a: array<int>, k: int) returns (yes: bool)
    modifies a
    requires a.Length >= 1 && k >= 2 && NonNegative(a[..])
    ensures var out := Run(old(a[..]), k, LeastExp(k, Largest(old(a[..])), 0));
      a[..] == out.rest && yes == Verdict(out)
    ensures NonNegative(a[..])
  {
    ghost var a0 := a[..];
    var maxValue := Largest(a[..]);
    var maxPowerK := LeastPowerAtLeast(k, maxValue);
    ghost var top := LeastExp(k, maxValue, 0);
    ghost var e: int := top;
    var found := false;
    while maxPowerK > 0
      invariant -1 <= e
      invariant e >= 0 ==> maxPowerK == Power(k, e)
      invariant e == -1 ==> maxPowerK == 0
      invariant !found && Run(a[..], k, e) == Run(a0, k, top)
      decreases e + 1
    {
      var count := SubtractPass(a, maxPowerK);
      if count > 1 {
        found := true;
        break;
      }
      NextPower(k, e);
      maxPowerK := maxPowerK / k;
      e := e - 1;
    }
    RunKeepsNonNegative(a0, k, top);
    LargestZero(a[..]);
    yes := !found && Largest(a[..]) == 0;
  }
}
