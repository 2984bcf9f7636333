/**
  lvl2/module_3/day4_2.cpp: the values `k` for which the whole array can
  be cleared by repeatedly subtracting the AND of `k` chosen elements. They
  are exactly the `k` in `1..n` that divide, for every bit, the number of
  elements having that bit: all of `1..n` when no bit is set at all, and
  otherwise the divisors of the gcd of the non-zero counts.
 */
module CountDivisors {
  import opened Bits
  import opened Sorting
  import opened CppInt

  predicate NonNegative(a: seq<int>)
  {
    forall i :: 0 <= i < |a| ==> a[i] >= 0
  }

  /** The number of elements of `a[..n]` with bit `j` set. */
  function CountBit(a: seq<int>, n: nat, j: nat): (c: nat)
    requires NonNegative(a) && n <= |a|
    ensures c <= n
  {
    if n == 0 then 0 else CountBit(a, n - 1, j) + (if Bit(a[n - 1], j) then 1 else 0)
  }

  /** `d` is a positive divisor of `x`. */
  predicate Divides(d: int, x: int)
  {
    d >= 1 && x % d == 0
  }

  /** Euclid's algorithm; `__gcd(0, y) == y`. */
  function Gcd(x: nat, y: nat): nat
    decreases y
  {
    if y == 0 then x else Gcd(y, x % y)
  }

  /** Division with remainder has a single answer. */
  lemma DivUnique(n: int, d: int, q: int, r: int)
    requires d >= 1 && n == d * q + r && 0 <= r < d
    ensures n / d == q && n % d == r
  {
    var q', r' := n / d, n % d;
    assert d * (q - q') == r' - r;
    if q - q' >= 1 {
      assert d * (q - q') == d + d * (q - q' - 1);
      MulNonNegative(d, q - q' - 1);
    } else if q - q' <= -1 {
      assert d * (q' - q) == d + d * (q' - q - 1);
      MulNonNegative(d, q' - q - 1);
    }
  }

  lemma DividesCombine(d: int, u: int, v: int, c: int)
    requires Divides(d, u) && Divides(d, v)
    ensures Divides(d, u * c + v)
  {
    var p, q := u / d, v / d;
    assert u == d * p && v == d * q;
    assert u * c + v == d * (p * c + q);
    DivUnique(u * c + v, d, p * c + q, 0);
  }

  /** A positive multiple of `d` is at least `d`. */
  lemma DivisorAtMost(d: int, x: int)
    requires Divides(d, x) && x >= 1
    ensures d <= x
  {
    var q := x / d;
    assert x == d * q;
    if q <= 0 {
      MulNonNegative(d, -q);
    } else {
      assert x == d + d * (q - 1);
      MulNonNegative(d, q - 1);
    }
  }

  lemma DividesTrans(d: int, g: int, x: int)
    requires Divides(d, g) && Divides(g, x)
    ensures Divides(d, x)
  {
    DividesCombine(d, g, 0, x / g);
    assert x == g * (x / g);
  }

  /** The gcd divides both arguments and is positive unless both are 0. */
  lemma {:induction false} GcdDivides(x: nat, y: nat)
    requires x > 0 || y > 0
    ensures Divides(Gcd(x, y), x) && Divides(Gcd(x, y), y)
    decreases y
  {
    if y == 0 {
      DivUnique(x, x, 1, 0);
    } else {
      GcdDivides(y, x % y);
      var g := Gcd(x, y);
      DividesCombine(g, y, x % y, x / y);
      assert x == y * (x / y) + x % y;
    }
  }

  /** Every common divisor divides the gcd. */
  lemma {:induction false} GcdGreatest(x: nat, y: nat, d: int)
    requires Divides(d, x) && Divides(d, y)
    ensures Divides(d, Gcd(x, y))
    decreases y
  {
    if y > 0 {
      DividesCombine(d, y, x, -(x / y));
      assert x % y == y * (-(x / y)) + x;
      GcdGreatest(y, x % y, d);
    }
  }

  /** Lines 19-26: one pass per element, one test per bit. */
  method CountBits(a: seq<int>) returns (cnt: array<int>)
    requires NonNegative(a)
    ensures fresh(cnt) && cnt.Length == 30
    ensures forall j :: 0 <= j < 30 ==> cnt[j] == CountBit(a, |a|, j)
  {
    cnt := new int[30](_ => 0);
    for i := 0 to |a|
      invariant forall j :: 0 <= j < 30 ==> cnt[j] == CountBit(a, i, j)
    {
      for j := 0 to 30
        invariant forall t :: 0 <= t < j ==> cnt[t] == CountBit(a, i + 1, t)
        invariant forall t :: j <= t < 30 ==> cnt[t] == CountBit(a, i, t)
      {
        if Bit(a[i], j) {
          cnt[j] := cnt[j] + 1;
        }
      }
    }
  }

  /** Lines 29-35: stop at the first non-zero count. */
  method AllZero(cnt: array<int>) returns (allZero: bool)
    ensures allZero <==> forall j :: 0 <= j < cnt.Length ==> cnt[j] <= 0
  {
    allZero := true;
    for j := 0 to cnt.Length
      invariant allZero <==> forall t :: 0 <= t < j ==> cnt[t] <= 0
    {
      if cnt[j] > 0 {
        allZero := false;
        break;
      }
    }
  }

  /**
    Lines 45-50: the gcd of the non-zero counts, characterised by its
    divisors, which are the common divisors of all the counts.
   */
  method FoldGcd(cnt: array<int>) returns (g: nat)
    requires forall j :: 0 <= j < cnt.Length ==> cnt[j] >= 0
    ensures g == 0 <==> forall j :: 0 <= j < cnt.Length ==> cnt[j] == 0
    ensures forall d :: d >= 1 ==> (Divides(d, g) <==> forall j :: 0 <= j < cnt.Length ==> Divides(d, cnt[j]))
  {
    g := 0;
    for j := 0 to cnt.Length
      invariant g == 0 <==> forall t :: 0 <= t < j ==> cnt[t] == 0
      invariant forall d :: d >= 1 ==> (Divides(d, g) <==> forall t :: 0 <= t < j ==> Divides(d, cnt[t]))
    {
      if cnt[j] > 0 {
        var c: nat := cnt[j];
        GcdDivides(g, c);
        forall d | d >= 1 ensures Divides(d, Gcd(g, c)) <==> Divides(d, g) && Divides(d, c) {
          if Divides(d, Gcd(g, c)) {
            DividesTrans(d, Gcd(g, c), g);
            DividesTrans(d, Gcd(g, c), c);
          }
          if Divides(d, g) && Divides(d, c) {
            GcdGreatest(g, c, d);
          }
        }
        g := Gcd(g, c);
      }
    }
  }

  /** `k` divides `g` and so does `g / k`, with `k * (g / k) == g`. */
  lemma CoDivisor(g: int, k: int)
    requires g >= 1 && Divides(k, g)
    ensures g / k >= 1 && k * (g / k) == g
    ensures Divides(g / k, g) && g / (g / k) == k
  {
    var q := g / k;
    assert g == k * q;
    if q <= 0 {
      MulNonNegative(k, -q);
    }
    DivUnique(g, q, k, 0);
  }

  /** Two factors both at least `k` multiply to at least `k * k`. */
  lemma SquareAtMost(k: int, x: int, y: int)
    requires 0 <= k <= x && k <= y
    ensures k * k <= x * y
  {
    MulNonNegative(x - k, y);
    MulNonNegative(k, y - k);
    assert x * y == (x - k) * y + k * (y - k) + k * k;
  }

  /** The divisors `x` of `g` collected before `k`: `x` itself or its partner `g / x` is below `k`. */
  predicate Found(g: int, k: int, x: int)
    requires g >= 1
  {
    Divides(x, g) && (x < k || g / x < k)
  }

  /** Moving from `k` to `k + 1` adds `x` exactly when `x` is `k` or `g / k` and `k` divides `g`. */
  lemma FoundStepAt(g: int, k: int, x: int)
    requires g >= 1 && k >= 1
    ensures Found(g, k + 1, x) <==> Found(g, k, x) || (Divides(k, g) && (x == k || x == g / k))
  {
    if Divides(x, g) {
      CoDivisor(g, x);
      var y := g / x;
      if y == k {
        assert g == k * x;
        DivUnique(g, k, x, 0);
      }
      if Divides(k, g) && x == g / k {
        CoDivisor(g, k);
      }
    } else if Divides(k, g) && x == g / k {
      CoDivisor(g, k);
    }
  }

  /**
    While `k * k <= g`, step `k` adds exactly `k` and `g / k` when `k`
    divides `g`, and neither was collected before.
   */
  lemma FoundStep(g: int, k: int)
    requires g >= 1 && k >= 1 && k * k <= g
    ensures forall x :: Found(g, k + 1, x) <==> Found(g, k, x) || (Divides(k, g) && (x == k || x == g / k))
    ensures Divides(k, g) ==> !Found(g, k, k) && !Found(g, k, g / k) && Divides(g / k, g)
  {
    if Divides(k, g) {
      CoDivisor(g, k);
      if g / k < k {
        SquareAtMost(g / k, g / k, k);
      }
    }
    forall x ensures Found(g, k + 1, x) <==> Found(g, k, x) || (Divides(k, g) && (x == k || x == g / k)) {
      FoundStepAt(g, k, x);
    }
  }

  /** Once `k * k > g`, every divisor or its partner is below `k`. */
  lemma PairsCovered(g: int, k: int)
    requires g >= 1 && k >= 1 && k * k > g
    ensures forall x :: Found(g, k, x) <==> Divides(x, g)
  {
    forall x | Divides(x, g) ensures Found(g, k, x) {
      CoDivisor(g, x);
      if x >= k && g / x >= k {
        SquareAtMost(k, x, g / x);
      }
    }
  }

  /** A value found at two positions occurs at least twice. */
  lemma RepeatCounted(t: seq<int>, i: nat, j: nat)
    requires i < j < |t| && t[i] == t[j]
    ensures multiset(t)[t[i]] >= 2
  {
    assert t == t[..j] + t[j..];
    assert t[i] in t[..j] && t[j] in t[j..];
    assert multiset(t)[t[i]] == multiset(t[..j])[t[i]] + multiset(t[j..])[t[i]];
  }

  /** Sorting a sequence without repeated values makes it strictly increasing. */
  lemma SortedStrictly(s: seq<int>)
    requires forall x :: multiset(s)[x] <= 1
    ensures forall i, j :: 0 <= i < j < |SortAsc(s)| ==> SortAsc(s)[i] < SortAsc(s)[j]
    ensures forall x :: x in SortAsc(s) <==> x in s
  {
    var t := SortAsc(s);
    forall x ensures x in t <==> x in s {
      assert x in t <==> x in multiset(t);
      assert x in s <==> x in multiset(s);
    }
    forall i, j | 0 <= i < j < |t| ensures t[i] < t[j] {
      if t[i] == t[j] {
        RepeatCounted(t, i, j);
      }
    }
  }

  /** Lines 53-62: divisors in pairs `k`, `g / k` while `k * k <= g`, then sorted. */
  method Divisors(g: int) returns (ans: seq<int>)
    requires g >= 1
    ensures forall x :: x in ans <==> Divides(x, g)
    ensures forall i, j :: 0 <= i < j < |ans| ==> ans[i] < ans[j]
  {
    ans := [];
    var k := 1;
    while k * k <= g
      invariant k >= 1
      invariant forall x :: x in ans <==> Found(g, k, x)
      invariant forall x :: multiset(ans)[x] <= 1
      decreases g - k
    {
      SquareAtMost(1, k, k);
      FoundStep(g, k);
      if g % k == 0 {
        ans := ans + [k];
        if k != g / k {
          ans := ans + [g / k];
        }
      }
      k := k + 1;
    }
    PairsCovered(g, k);
    SortedStrictly(ans);
    ans := SortAsc(ans);
  }

  /** `[1, 2, ..., n]`, lines 37-39. */
  method UpTo(n: nat) returns (ans: seq<int>)
    ensures |ans| == n && forall i :: 0 <= i < n ==> ans[i] == i + 1
  {
    ans := [];
    for k := 1 to n + 1
      invariant |ans| == k - 1 && forall i :: 0 <= i < k - 1 ==> ans[i] == i + 1
    {
      ans := ans + [k];
    }
  }

  /** `k` works: it is between 1 and `n` and divides the count of every bit. */
  predicate ValidSize(a: seq<int>, x: int)
    requires NonNegative(a)
  {
    1 <= x <= |a| && forall j :: 0 <= j < 30 ==> CountBit(a, |a|, j) % x == 0
  }

  /** With some bit set, the valid sizes are the divisors of the gcd of the counts. */
  lemma DivisorsAreValid(a: seq<int>, cnt: seq<int>, g: int)
    requires NonNegative(a) && |cnt| == 30 && g >= 1
    requires forall j :: 0 <= j < 30 ==> cnt[j] == CountBit(a, |a|, j)
    requires exists j :: 0 <= j < 30 && cnt[j] > 0
    requires forall d :: d >= 1 ==> (Divides(d, g) <==> forall j :: 0 <= j < 30 ==> Divides(d, cnt[j]))
    ensures forall x :: Divides(x, g) <==> ValidSize(a, x)
  {
    var j0 :| 0 <= j0 < 30 && cnt[j0] > 0;
    DivUnique(g, g, 1, 0);
    assert Divides(g, g);
    DivisorAtMost(g, cnt[j0]);
    forall x | Divides(x, g) ensures x <= |a| {
      DivisorAtMost(x, g);
    }
  }

  /**
    Lines 19-68: the printed values, ascending, are exactly the `k` in
    `1..n` dividing every bit count.
   */
  method ValidSizes(a: seq<int>) returns (ans: seq<int>)
    requires NonNegative(a)
    ensures forall x :: x in ans <==> ValidSize(a, x)
    ensures forall i, j :: 0 <= i < j < |ans| ==> ans[i] < ans[j]
  {
    var n := |a|;
    var cnt := CountBits(a);
    var allZero := AllZero(cnt);
    if allZero {
      ans := UpTo(n);
      forall x | 1 <= x <= n ensures x in ans {
        assert ans[x - 1] == x;
      }
      return;
    }
    var g := FoldGcd(cnt);
    DivisorsAreValid(a, cnt[..], g);
    ans := Divisors(g);
  }
}
