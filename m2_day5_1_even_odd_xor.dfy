/**
  lvl2/module_2/day5_1.cpp: builds `n` non-negative numbers whose XOR over
  the even positions equals their XOR over the odd positions. Consecutive
  pairs `(i + 2, i + 3)` each contribute `1` to the difference of the two
  XORs, so an odd number of pairs is repaired by flipping the low bit of the
  last odd-position element and then setting one high bit in two elements of
  opposite parity.
 */
module EvenOddXor {
  import opened Bits

  /** The XOR of all elements. */
  function XorAll(s: seq<nat>): nat
  {
    if s == [] then 0 else Xor(XorAll(s[..|s| - 1]), s[|s| - 1])
  }

  /** The XOR of the elements at the positions of parity `p`. */
  function XorAt(s: seq<nat>, p: nat): nat
  {
    if s == [] then 0
    else Xor(XorAt(s[..|s| - 1], p), if (|s| - 1) % 2 == p then s[|s| - 1] else 0)
  }

  /** The even positions and the odd positions have the same XOR. */
  predicate Balanced(s: seq<nat>)
  {
    XorAt(s, 0) == XorAt(s, 1)
  }

  predicate Distinct(s: seq<nat>)
  {
    forall i, j :: 0 <= i < j < |s| ==> s[i] != s[j]
  }

  /** `[2, 3, ..., m + 1]`: what the filling loops (lines 22-30 and the three copies) write. */
  function Fill(m: nat): (s: seq<nat>)
    ensures |s| == m && forall i :: 0 <= i < m ==> s[i] == i + 2
  {
    seq(m, i => i + 2)
  }

  lemma Xor4(w: nat, x: nat, y: nat, z: nat)
    ensures Xor(Xor(w, x), Xor(y, z)) == Xor(Xor(w, y), Xor(x, z))
  {
    forall t: nat ensures Bit(Xor(Xor(w, x), Xor(y, z)), t) == Bit(Xor(Xor(w, y), Xor(x, z)), t) {
      BitXor(Xor(w, x), Xor(y, z), t);
      BitXor(Xor(w, y), Xor(x, z), t);
      BitXor(w, x, t);
      BitXor(y, z, t);
      BitXor(w, y, t);
      BitXor(x, z, t);
    }
    BitsDetermine(Xor(Xor(w, x), Xor(y, z)), Xor(Xor(w, y), Xor(x, z)));
  }

  /** Two numbers XOR to zero exactly when they are equal. */
  lemma XorZeroIffEqual(x: nat, y: nat)
    ensures Xor(x, y) == 0 <==> x == y
  {
    if Xor(x, y) == 0 {
      forall t: nat ensures Bit(x, t) == Bit(y, t) {
        BitXor(x, y, t);
        BitOfZero(t);
      }
      BitsDetermine(x, y);
    } else if x == y {
      XorSelf(x);
    }
  }

  /** An even number and its successor differ in the low bit only. */
  lemma PairXor(x: nat)
    requires x % 2 == 0
    ensures Xor(x, x + 1) == 1
    ensures Xor(x + 1, 1) == x
  {
    var h := x / 2;
    LowAndHigh(0, h);
    LowAndHigh(1, h);
    XorHalves(x, x + 1);
    XorSelf(h);
    LowAndHigh(1, 0);
    XorHalves(x + 1, 1);
    XorZero(h);
    LowAndHigh(0, h);
  }

  /** Setting bit `k` of a number below `1 << k` changes it by exactly that bit. */
  lemma {:induction false} XorAddPow2(w: nat, k: nat)
    requires w < Pow2(k)
    ensures Xor(w, w + Pow2(k)) == Pow2(k)
    decreases k
  {
    if k == 0 {
      XorZero(1);
    } else {
      XorAddPow2(w / 2, k - 1);
      XorHalves(w, w + Pow2(k));
      assert (w + Pow2(k)) / 2 == w / 2 + Pow2(k - 1);
    }
  }

  lemma XorAllSnoc(s: seq<nat>, x: nat)
    ensures XorAll(s + [x]) == Xor(XorAll(s), x)
  {
    assert (s + [x])[..|s|] == s;
  }

  /** The XOR of everything is the XOR of the two parity classes. */
  lemma {:induction false} XorAllSplit(s: seq<nat>)
    ensures XorAll(s) == Xor(XorAt(s, 0), XorAt(s, 1))
  {
    if s == [] {
      XorZero(0);
    } else {
      var init, x := s[..|s| - 1], s[|s| - 1];
      XorAllSplit(init);
      if (|s| - 1) % 2 == 0 {
        Xor4(XorAt(init, 0), XorAt(init, 1), x, 0);
        XorZero(x);
        XorZero(XorAt(init, 1));
      } else {
        Xor4(XorAt(init, 0), 0, XorAt(init, 1), x);
        XorZero(x);
        XorZero(XorAt(init, 0));
      }
    }
  }

  /** Balanced exactly when the XOR of all elements is zero. */
  lemma BalancedIffZero(s: seq<nat>)
    ensures Balanced(s) <==> XorAll(s) == 0
  {
    XorAllSplit(s);
    XorZeroIffEqual(XorAt(s, 0), XorAt(s, 1));
  }

  /** Replacing one element XORs out the old value and XORs in the new. */
  lemma {:induction false} XorAllUpdate(s: seq<nat>, i: nat, v: nat)
    requires i < |s|
    ensures XorAll(s[i := v]) == Xor(Xor(XorAll(s), s[i]), v)
  {
    var init, last := s[..|s| - 1], s[|s| - 1];
    var u := s[i := v];
    if i == |s| - 1 {
      assert u[..|u| - 1] == init;
      XorAssoc(XorAll(init), last, last);
      XorSelf(last);
      XorZero(XorAll(init));
    } else {
      XorAllUpdate(init, i, v);
      assert u[..|u| - 1] == init[i := v];
      // ((I ^ w) ^ v) ^ last == ((I ^ last) ^ w) ^ v
      var I, w := XorAll(init), s[i];
      XorAssoc(I, w, v);
      XorAssoc(I, last, w);
      Xor4(I, Xor(w, v), last, 0);
      Xor4(I, last, w, v);
      XorZero(Xor(w, v));
      XorZero(last);
      XorAssoc(Xor(I, last), w, v);
      XorAssoc(I, Xor(w, v), last);
      XorComm(Xor(w, v), last);
      XorAssoc(I, last, Xor(w, v));
    }
  }

  lemma FillSnoc(m: nat)
    ensures Fill(m + 1) == Fill(m) + [m + 2]
  {
    assert Fill(m + 1)[..m] == Fill(m);
  }

  /** Appending a pair `(x, x + 1)` with `x` even flips the low bit of the total. */
  lemma XorAllPair(s: seq<nat>, x: nat)
    requires x % 2 == 0
    ensures XorAll(s + [x] + [x + 1]) == Xor(XorAll(s), 1)
  {
    XorAllSnoc(s + [x], x + 1);
    XorAllSnoc(s, x);
    XorAssoc(XorAll(s), x, x + 1);
    PairXor(x);
  }

  /** Two more filled values, `m + 2` and `m + 3`, flip the low bit of the total. */
  lemma FillPairXor(m: nat)
    requires m % 2 == 0
    ensures XorAll(Fill(m + 2)) == Xor(XorAll(Fill(m)), 1)
  {
    FillSnoc(m);
    FillSnoc(m + 1);
    XorAllPair(Fill(m), m + 2);
  }

  /** `h % 2`, counted one step at a time. */
  function Parity(h: nat): (r: nat)
    ensures r <= 1
  {
    if h == 0 then 0 else 1 - Parity(h - 1)
  }

  lemma {:induction false} ParityIsMod(h: nat)
    ensures Parity(h) == h % 2
  {
    if h > 0 {
      ParityIsMod(h - 1);
      var q := (h - 1) / 2;
      LowAndHigh((h - 1) % 2, q);
      if (h - 1) % 2 == 0 {
        LowAndHigh(1, q);
      } else {
        LowAndHigh(0, q + 1);
      }
    }
  }

  lemma {:induction false} XorAllFillParity(h: nat)
    ensures XorAll(Fill(2 * h)) == Parity(h)
  {
    if h == 0 {
      assert Fill(0) == [];
    } else {
      var m: nat := 2 * (h - 1);
      XorAllFillParity(h - 1);
      FillPairXor(m);
      assert m + 2 == 2 * h;
      if Parity(h - 1) == 0 {
        XorZero(1);
      } else {
        XorSelf(1);
      }
    }
  }

  /** The first `h` pairs XOR to the parity of `h`. */
  lemma XorAllFill(h: nat)
    ensures XorAll(Fill(2 * h)) == h % 2
  {
    XorAllFillParity(h);
    ParityIsMod(h);
  }

  /** Flipping the low bit of an odd element turns a total XOR of 1 into 0 (lines 41 and 70). */
  lemma FlipRepairs(s: seq<nat>, i: nat)
    requires i < |s| && s[i] % 2 == 1 && XorAll(s) == 1
    ensures Xor(s[i], 1) == s[i] - 1
    ensures XorAll(s[i := s[i] - 1]) == 0
  {
    var x := s[i] - 1;
    PairXor(x);
    XorAllUpdate(s, i, x);
    XorAssoc(1, x + 1, x);
    XorComm(x + 1, x);
    XorSelf(1);
  }

  /** Four XORs applied one after another are one XOR by their combination. */
  lemma XorChain(x: nat, p: nat, q: nat, r: nat, u: nat)
    ensures Xor(Xor(Xor(Xor(x, p), q), r), u) == Xor(x, Xor(Xor(p, q), Xor(r, u)))
  {
    var lhs, rhs := Xor(Xor(Xor(Xor(x, p), q), r), u), Xor(x, Xor(Xor(p, q), Xor(r, u)));
    forall t: nat ensures Bit(lhs, t) == Bit(rhs, t) {
      BitXor(Xor(Xor(Xor(x, p), q), r), u, t);
      BitXor(Xor(Xor(x, p), q), r, t);
      BitXor(Xor(x, p), q, t);
      BitXor(x, p, t);
      BitXor(x, Xor(Xor(p, q), Xor(r, u)), t);
      BitXor(Xor(p, q), Xor(r, u), t);
      BitXor(p, q, t);
      BitXor(r, u, t);
    }
    BitsDetermine(lhs, rhs);
  }

  /** Two updates whose XOR changes cancel leave the total XOR as it was. */
  lemma UpdateTwice(s: seq<nat>, i: nat, j: nat, v: nat, u: nat)
    requires i < |s| && j < |s| && i != j && Xor(s[i], v) == Xor(s[j], u)
    ensures XorAll(s[i := v][j := u]) == XorAll(s)
  {
    var x := XorAll(s);
    XorAllUpdate(s, i, v);
    XorAllUpdate(s[i := v], j, u);
    XorChain(x, s[i], v, s[j], u);
    XorSelf(Xor(s[i], v));
    XorZero(x);
  }

  /** Giving two elements of equal value the same new value keeps the total XOR (lines 42-43 and 71-72). */
  lemma SameUpdateTwice(s: seq<nat>, i: nat, j: nat, v: nat)
    requires i < |s| && j < |s| && i != j && s[i] == s[j]
    ensures XorAll(s[i := v][j := v]) == XorAll(s)
  {
    UpdateTwice(s, i, j, v, v);
  }

  /**
    Setting bit `k`, unset in both, in two elements keeps the total XOR,
    whatever their values.
   */
  lemma SetBitInTwo(s: seq<nat>, i: nat, j: nat, k: nat)
    requires i < |s| && j < |s| && i != j && s[i] < Pow2(k) && s[j] < Pow2(k)
    ensures XorAll(s[i := s[i] + Pow2(k)][j := s[j] + Pow2(k)]) == XorAll(s)
  {
    XorAddPow2(s[i], k);
    XorAddPow2(s[j], k);
    UpdateTwice(s, i, j, s[i] + Pow2(k), s[j] + Pow2(k));
  }

  /** Lines 22-30 (and their copies): `a[i] = i + 2` for `i < m`, through `even`. */
  method FillPairs(a: array<nat>, m: nat)
    requires m <= a.Length
    modifies a
    ensures a[..m] == Fill(m)
    ensures forall i :: m <= i < a.Length ==> a[i] == old(a[i])
  {
    var even := 2;
    for i := 0 to m
      invariant even == (if i % 2 == 0 then i + 2 else i + 3)
      invariant forall j :: 0 <= j < i ==> a[j] == j + 2
      invariant forall j :: m <= j < a.Length ==> a[j] == old(a[j])
    {
      if i % 2 == 0 {
        a[i] := even;
        even := even + 2;
      } else {
        a[i] := a[i - 1] + 1;
      }
    }
  }

  /** The parities of the last few positions for the two repaired residues. */
  lemma TailParity(n: nat)
    ensures n % 4 == 2 ==> n % 2 == 0 && (n - 1) % 2 == 1 && (n + 1) % 2 == 1
    ensures n % 4 == 2 ==> 2 * (n / 2) == n && (n / 2) % 2 == 1
    ensures n % 4 == 3 ==> (n - 1) % 2 == 0 && (n - 2) % 2 == 1 && n % 2 == 1
    ensures n % 4 == 3 ==> 2 * (n / 2) == n - 1 && (n / 2) % 2 == 1
  {
    var q := n / 4;
    assert n == 4 * q + n % 4;
    if n % 4 == 2 {
      LowAndHigh(0, 2 * q + 1);
      LowAndHigh(1, 2 * q);
      LowAndHigh(1, 2 * q + 1);
      LowAndHigh(1, q);
    } else if n % 4 == 3 {
      LowAndHigh(0, 2 * q + 1);
      LowAndHigh(1, 2 * q);
      LowAndHigh(1, 2 * q + 1);
      LowAndHigh(1, q);
    }
  }

  /** `n % 4` read as the parity of `n / 2` and the parity of `n`. */
  lemma ModFour(n: nat)
    ensures (n / 2) % 2 == 1 <==> n % 4 == 2 || n % 4 == 3
    ensures n % 2 == 0 <==> n % 4 == 0 || n % 4 == 2
  {
    var q, r := n / 4, n % 4;
    assert n == 4 * q + r;
    LowAndHigh(r % 2, 2 * q + r / 2);
    LowAndHigh(r / 2, q);
  }

  /**
    The four filling loops: all `n` positions for even `n` (lines 22-30,
    32-40), the first `n - 1` and a final `0` for odd `n` (lines 50-59,
    61-73). The total XOR is the parity of the number of pairs.
   */
  method FillAll(n: nat) returns (a: array<nat>)
    ensures fresh(a)
    ensures n % 2 == 0 ==> a[..] == Fill(n)
    ensures n % 2 == 1 ==> a[..] == Fill(n - 1) + [0]
    ensures XorAll(a[..]) == (n / 2) % 2
  {
    a := new nat[n](_ => 0);
    XorAllFill(n / 2);
    if n % 2 == 0 {
      assert 2 * (n / 2) == n;
      FillPairs(a, n);
      assert a[..] == a[..n];
    } else {
      assert 2 * (n / 2) == n - 1;
      FillPairs(a, n - 1);
      a[n - 1] := 0;
      assert a[..] == a[..n - 1] + [a[n - 1]];
      XorAllSnoc(Fill(n - 1), 0);
      XorZero(XorAll(Fill(n - 1)));
    }
  }

  /** `1 << 17` and `1 << 20`, the bits the program sets to repair the XOR, and `1 << 31`. */
  const Bit17: nat := 131072
  const Bit20: nat := 1048576
  const Two31: nat := 2147483648

  /** `1 << 29` and `1 << 30`, the bits the corrected construction sets instead. */
  const Bit29: nat := 536870912
  const Bit30: nat := 1073741824

  /** The positions of the tweak bits. */
  const Shift17: nat := 17
  const Shift20: nat := 20
  const Shift29: nat := 29
  const Shift30: nat := 30

  lemma Pow2Large()
    ensures Pow2(Shift29) == Bit29 && Pow2(Shift30) == Bit30
  {
    Pow2Values();
    assert Pow2(30) == 2 * Pow2(29);
  }

  /** Lines 11-13: the fixed answer for `n = 3`. */
  lemma ThreeElements()
    ensures Balanced([1, 2, 3]) && Distinct([1, 2, 3])
  {
    var t: seq<nat> := [1, 2, 3];
    assert t[..2] == [1, 2] && t[..2][..1] == [1] && [1, 2][..1] == [1];
    assert [1][..0] == [];
    XorZero(1);
    XorZero(2);
    XorHalves(1, 3);
    XorHalves(0, 1);
    XorZero(0);
    assert Xor(1, 3) == 2;
    XorZero(Xor(1, 3));
  }

  /** Lines 41-43: flip the low bit of `a[n-1]`, then set bit 17 in `a[n-1]` and `a[n-2]`. */
  method RepairEvenAsWritten(a: array<nat>)
    requires a.Length % 4 == 2 && a[..] == Fill(a.Length)
    modifies a
    ensures XorAll(a[..]) == 0
    ensures a[..a.Length - 2] == Fill(a.Length - 2)
    ensures a[a.Length - 2] == a[a.Length - 1] == Or(a.Length, Bit17)
  {
    var n: nat := a.Length;
    ghost var s := a[..];
    TailParity(n);
    PairXor(n);
    assert a[n - 1] == n + 1 && a[n - 2] == n;
    var flipped := Xor(a[n - 1], 1);
    assert flipped == n;
    a[n - 1] := flipped;
    ghost var s1: seq<nat> := s[n - 1 := flipped];
    assert a[..] == s1;
    var v := Or(a[n - 1], Bit17);
    a[n - 1] := v;
    ghost var s2: seq<nat> := s1[n - 1 := v];
    assert a[..] == s2;
    assert a[n - 2] == n;
    a[n - 2] := Or(a[n - 2], Bit17);
    assert a[..] == s2[n - 2 := v];
    EvenAsWrittenXor(n, v);
    assert a[..n - 2] == s[..n - 2];
  }

  /** Giving `a[n-1]` and `a[n-2]`, equal after the flip, one common value keeps the total XOR at zero. */
  lemma EvenAsWrittenXor(n: nat, v: nat)
    requires n % 4 == 2
    ensures XorAll(Fill(n)[n - 1 := n][n - 1 := v][n - 2 := v]) == 0
  {
    var s := Fill(n);
    TailParity(n);
    XorAllFill(n / 2);
    assert XorAll(s) == 1 && s[n - 1] == n + 1;
    FlipRepairs(s, n - 1);
    var s1 := s[n - 1 := n];
    assert XorAll(s1) == 0 && s1[n - 1] == s1[n - 2];
    SameUpdateTwice(s1, n - 1, n - 2, v);
  }

  /** Lines 70-73: flip the low bit of `a[n-2]`, then set bit 20 in `a[n-2]` and `a[n-3]`; `a[n-1] = 0`. */
  method RepairOddAsWritten(a: array<nat>)
    requires a.Length % 4 == 3 && a.Length >= 7 && a[..] == Fill(a.Length - 1) + [0]
    modifies a
    ensures XorAll(a[..]) == 0
    ensures a[..a.Length - 3] == Fill(a.Length - 3)
    ensures a[a.Length - 3] == a[a.Length - 2] == Or(a.Length - 1, Bit20)
    ensures a[a.Length - 1] == 0
  {
    var n: nat := a.Length;
    ghost var s := a[..];
    TailParity(n);
    PairXor(n - 1);
    assert a[n - 2] == n && a[n - 3] == n - 1 && a[n - 1] == 0;
    var flipped := Xor(a[n - 2], 1);
    assert flipped == n - 1;
    a[n - 2] := flipped;
    ghost var s1: seq<nat> := s[n - 2 := flipped];
    assert a[..] == s1;
    var v := Or(a[n - 2], Bit20);
    a[n - 2] := v;
    ghost var s2: seq<nat> := s1[n - 2 := v];
    assert a[..] == s2;
    assert a[n - 3] == n - 1;
    a[n - 3] := Or(a[n - 3], Bit20);
    assert a[..] == s2[n - 3 := v];
    a[n - 1] := 0;
    assert a[..] == s2[n - 3 := v];
    OddAsWrittenXor(n, v);
    assert a[..n - 3] == s[..n - 3];
  }

  /** Giving `a[n-2]` and `a[n-3]`, equal after the flip, one common value keeps the total XOR at zero. */
  lemma OddAsWrittenXor(n: nat, v: nat)
    requires n % 4 == 3 && 7 <= n
    ensures XorAll((Fill(n - 1) + [0])[n - 2 := n - 1][n - 2 := v][n - 3 := v]) == 0
  {
    var s := Fill(n - 1) + [0];
    TailParity(n);
    OddFillXor(n);
    assert s[n - 2] == n;
    FlipRepairs(s, n - 2);
    var s1 := s[n - 2 := n - 1];
    assert XorAll(s1) == 0 && s1[n - 2] == s1[n - 3];
    SameUpdateTwice(s1, n - 2, n - 3, v);
  }

  /**
    Lines 11-75 as written. The result is always balanced; but for
    `n % 4 == 2` the two elements given bit 17 are equal, and so are the two
    given bit 20 for `n % 4 == 3, n > 3`.
   */
  method BuildAsWritten(n: nat) returns (a: array<nat>)
    ensures a.Length == n
    ensures n == 3 ==> a[..] == [1, 2, 3]
    ensures Balanced(a[..])
    ensures n % 4 == 0 ==> a[..] == Fill(n)
    ensures n % 4 == 1 ==> a[..] == Fill(n - 1) + [0]
    ensures n % 4 == 2 ==> a[..n - 2] == Fill(n - 2) && a[n - 2] == a[n - 1] == Or(n, Bit17)
    ensures n % 4 == 3 && n != 3 ==> a[..n - 3] == Fill(n - 3) && a[n - 3] == a[n - 2] == Or(n - 1, Bit20)
    ensures n % 4 == 3 && n != 3 ==> a[n - 1] == 0
    ensures n % 4 == 2 || (n % 4 == 3 && n != 3) ==> !Distinct(a[..])
  {
    if n == 3 {
      a := new nat[3];
      a[0], a[1], a[2] := 1, 2, 3;
      assert a[..] == [1, 2, 3];
      ThreeElements();
      return;
    }
    a := FillAll(n);
    var half := n / 2;
    ModFour(n);
    if half % 2 == 1 {
      if n % 2 == 0 {
        RepairEvenAsWritten(a);
      } else {
        RepairOddAsWritten(a);
      }
    }
    BalancedIffZero(a[..]);
  }

  /**
    The corrected construction in closed form: `[1, 2, 3]` for `n = 3`,
    otherwise the filled values with the repaired tail.
   */
  function Corrected(n: nat): (s: seq<nat>)
    requires n >= 3
    ensures |s| == n
  {
    if n == 3 then [1, 2, 3] else Fill(n - |RepairedTail(n)|) + RepairedTail(n)
  }

  /** What follows the filled values in the corrected construction, by `n % 4`. */
  function RepairedTail(n: nat): (t: seq<nat>)
    ensures |t| <= 4
  {
    if n % 4 == 0 then []
    else if n % 4 == 1 then [0]
    else if n % 4 == 2 then [n - 1 + Bit29, n, n + Bit29]
    else [n - 2 + Bit30, n - 1, n - 1 + Bit30, 0]
  }

  /** The filled values followed by a repetition-free tail that avoids `2..m+1`. */
  lemma FillTailDistinct(m: nat, tail: seq<nat>)
    requires Distinct(tail)
    requires forall k :: 0 <= k < |tail| ==> tail[k] < 2 || tail[k] >= m + 2
    ensures Distinct(Fill(m) + tail)
  {
    var s := Fill(m) + tail;
    forall i, j | 0 <= i < j < |s| ensures s[i] != s[j] {
      if j < m {
        assert s[i] == i + 2 && s[j] == j + 2;
      } else if i < m {
        assert s[i] == i + 2 && s[j] == tail[j - m];
      } else {
        assert s[i] == tail[i - m] && s[j] == tail[j - m];
      }
    }
  }

  /** The tail repeats nothing, avoids the filled values, and stays below `1 << 31`. */
  predicate GoodTail(t: seq<nat>, m: nat)
  {
    Distinct(t) && forall k :: 0 <= k < |t| ==> (t[k] < 2 || t[k] >= m + 2) && t[k] < Two31
  }

  lemma TailFacts(n: nat)
    requires 4 <= n && n + 2 <= Bit29
    ensures GoodTail(RepairedTail(n), n - |RepairedTail(n)|)
  {
    var t := RepairedTail(n);
    if n % 4 == 2 {
      assert t == [n - 1 + Bit29, n, n + Bit29];
    } else if n % 4 == 3 {
      assert t == [n - 2 + Bit30, n - 1, n - 1 + Bit30, 0];
    }
  }

  /** No value repeats in the corrected construction while the filled values stay below `1 << 29`. */
  lemma CorrectedDistinct(n: nat)
    requires 3 <= n && n + 2 <= Bit29
    ensures Distinct(Corrected(n))
    ensures forall i :: 0 <= i < n ==> Corrected(n)[i] < Two31
  {
    if n == 3 {
      ThreeElements();
    } else {
      var t := RepairedTail(n);
      var m := n - |t|;
      TailFacts(n);
      FillTailDistinct(m, t);
      forall i | 0 <= i < n ensures Corrected(n)[i] < Two31 {
        if i >= m {
          assert Corrected(n)[i] == t[i - m];
        }
      }
    }
  }

  /** Lines 41-43 with bit 29 in place of bit 17, and the second bit set in `a[n-3]`, an element of the other parity. */
  method RepairEvenDistinct(a: array<nat>)
    requires a.Length % 4 == 2 && 6 <= a.Length && a.Length + 2 <= Bit29 && a[..] == Fill(a.Length)
    modifies a
    ensures XorAll(a[..]) == 0
    ensures a[..] == Fill(a.Length - 3) + [a.Length - 1 + Bit29, a.Length, a.Length + Bit29]
  {
    var n: nat := a.Length;
    ghost var s := a[..];
    Pow2Large();
    TailParity(n);
    PairXor(n);
    AddPow2IsOr(n, Shift29);
    AddPow2IsOr(n - 1, Shift29);
    ghost var hi: nat, lo: nat := n + Bit29, n - 1 + Bit29;
    assert a[n - 1] == n + 1 && a[n - 3] == n - 1;
    var flipped := Xor(a[n - 1], 1);
    assert flipped == n;
    a[n - 1] := flipped;
    ghost var s1: seq<nat> := s[n - 1 := n];
    assert a[..] == s1;
    var high := Or(a[n - 1], Bit29);
    assert high == hi;
    a[n - 1] := high;
    ghost var s2: seq<nat> := s1[n - 1 := hi];
    assert a[..] == s2;
    var low := Or(a[n - 3], Bit29);
    assert low == lo;
    a[n - 3] := low;
    assert a[..] == s2[n - 3 := lo];
    assert s2[n - 3 := lo] == Fill(n)[n - 1 := n][n - 1 := n + Bit29][n - 3 := n - 1 + Bit29];
    EvenTailXor(n, Shift29);
    EvenTailShape(n, Bit29);
  }

  /** The even-case repair leaves a total XOR of zero. */
  lemma EvenTailXor(n: nat, k: nat)
    requires n % 4 == 2 && 6 <= n && n + 2 <= Pow2(k)
    ensures XorAll(Fill(n)[n - 1 := n][n - 1 := n + Pow2(k)][n - 3 := n - 1 + Pow2(k)]) == 0
  {
    var s := Fill(n);
    TailParity(n);
    XorAllFill(n / 2);
    assert s[n - 1] == n + 1 && s[n - 3] == n - 1;
    FlipThenSet(s, n - 1, n - 3, k);
  }

  /**
    From a total XOR of 1: flipping the low bit of the odd `s[i]` and then
    setting bit `k`, unset in both, in `s[i]` and `s[j]` leaves a total of 0.
   */
  lemma FlipThenSet(s: seq<nat>, i: nat, j: nat, k: nat)
    requires i < |s| && j < |s| && i != j && XorAll(s) == 1
    requires s[i] % 2 == 1 && s[i] < Pow2(k) && s[j] < Pow2(k)
    ensures XorAll(s[i := s[i] - 1][i := s[i] - 1 + Pow2(k)][j := s[j] + Pow2(k)]) == 0
  {
    FlipRepairs(s, i);
    var s1 := s[i := s[i] - 1];
    assert s1[i] == s[i] - 1 && s1[j] == s[j];
    SetBitInTwo(s1, i, j, k);
  }

  /** The filled values with the even-case tail written over them. */
  lemma EvenTailShape(n: nat, b: nat)
    requires n % 4 == 2 && 6 <= n
    ensures Fill(n)[n - 1 := n][n - 1 := n + b][n - 3 := n - 1 + b] == Fill(n - 3) + [n - 1 + b, n, n + b]
  {
    var t := Fill(n)[n - 1 := n][n - 1 := n + b][n - 3 := n - 1 + b];
    var want := Fill(n - 3) + [n - 1 + b, n, n + b];
    forall i | 0 <= i < n ensures t[i] == want[i] {
      if i < n - 3 {
        assert want[i] == Fill(n - 3)[i];
      }
    }
  }

  /** Lines 70-73 with bit 30 in place of bit 20, and the second bit set in `a[n-4]`, an element of the other parity. */
  method RepairOddDistinct(a: array<nat>)
    requires a.Length % 4 == 3 && a.Length >= 7 && a.Length + 2 <= Bit30
    requires a[..] == Fill(a.Length - 1) + [0]
    modifies a
    ensures XorAll(a[..]) == 0
    ensures a[..] == Fill(a.Length - 4) + [a.Length - 2 + Bit30, a.Length - 1, a.Length - 1 + Bit30, 0]
  {
    var n: nat := a.Length;
    ghost var s := a[..];
    Pow2Large();
    TailParity(n);
    PairXor(n - 1);
    AddPow2IsOr(n - 1, Shift30);
    AddPow2IsOr(n - 2, Shift30);
    ghost var hi: nat, lo: nat := n - 1 + Bit30, n - 2 + Bit30;
    assert a[n - 2] == n && a[n - 4] == n - 2;
    var flipped := Xor(a[n - 2], 1);
    assert flipped == n - 1;
    a[n - 2] := flipped;
    ghost var s1: seq<nat> := s[n - 2 := flipped];
    assert a[..] == s1;
    var high := Or(a[n - 2], Bit30);
    assert high == hi;
    a[n - 2] := high;
    ghost var s2: seq<nat> := s1[n - 2 := hi];
    assert a[..] == s2;
    var low := Or(a[n - 4], Bit30);
    assert low == lo;
    a[n - 4] := low;
    assert a[..] == s2[n - 4 := lo];
    assert s2[n - 4 := lo] == (Fill(n - 1) + [0])[n - 2 := n - 1][n - 2 := n - 1 + Bit30][n - 4 := n - 2 + Bit30];
    OddTailXor(n, Shift30);
    OddTailShape(n, Bit30);
  }

  /** The odd-case repair leaves a total XOR of zero. */
  lemma OddTailXor(n: nat, k: nat)
    requires n % 4 == 3 && 7 <= n && n + 2 <= Pow2(k)
    ensures XorAll((Fill(n - 1) + [0])[n - 2 := n - 1][n - 2 := n - 1 + Pow2(k)][n - 4 := n - 2 + Pow2(k)]) == 0
  {
    var s := Fill(n - 1) + [0];
    TailParity(n);
    OddFillXor(n);
    assert s[n - 2] == n && s[n - 4] == n - 2;
    FlipThenSet(s, n - 2, n - 4, k);
  }

  /** Before the odd-case repair the total XOR is 1. */
  lemma OddFillXor(n: nat)
    requires n % 4 == 3 && 7 <= n
    ensures XorAll(Fill(n - 1) + [0]) == 1
  {
    TailParity(n);
    XorAllFill(n / 2);
    XorAllSnoc(Fill(n - 1), 0);
    XorZero(XorAll(Fill(n - 1)));
  }

  /** The filled values and the final `0` with the odd-case tail written over them. */
  lemma OddTailShape(n: nat, b: nat)
    requires n % 4 == 3 && 7 <= n
    ensures (Fill(n - 1) + [0])[n - 2 := n - 1][n - 2 := n - 1 + b][n - 4 := n - 2 + b]
         == Fill(n - 4) + [n - 2 + b, n - 1, n - 1 + b, 0]
  {
    var t := (Fill(n - 1) + [0])[n - 2 := n - 1][n - 2 := n - 1 + b][n - 4 := n - 2 + b];
    var want := Fill(n - 4) + [n - 2 + b, n - 1, n - 1 + b, 0];
    forall i | 0 <= i < n ensures t[i] == want[i] {
      if i < n - 4 {
        assert want[i] == Fill(n - 4)[i];
      }
    }
  }

  /** The four cases of the corrected construction for `n >= 4`. */
  method BuildRepaired(n: nat) returns (a: array<nat>)
    requires 4 <= n && n + 2 <= Bit29
    ensures a[..] == Corrected(n)
    ensures XorAll(a[..]) == 0
  {
    a := FillAll(n);
    var half := n / 2;
    ModFour(n);
    if half % 2 == 1 {
      RepairTail(a);
    } else if n % 2 == 0 {
      assert RepairedTail(n) == [];
      assert Fill(n) + [] == Fill(n);
    } else {
      assert RepairedTail(n) == [0];
    }
  }

  /** Lines 41-43 and 70-73 for `n % 4 == 2` or `n % 4 == 3`, with the distinct tweak bits. */
  method RepairTail(a: array<nat>)
    requires 4 <= a.Length && a.Length + 2 <= Bit29 && (a.Length % 4 == 2 || a.Length % 4 == 3)
    requires a.Length % 2 == 0 ==> a[..] == Fill(a.Length)
    requires a.Length % 2 == 1 ==> a[..] == Fill(a.Length - 1) + [0]
    modifies a
    ensures a[..] == Corrected(a.Length)
    ensures XorAll(a[..]) == 0
  {
    var n := a.Length;
    ModFour(n);
    if n % 2 == 0 {
      RepairEvenDistinct(a);
    } else {
      RepairOddDistinct(a);
    }
    CorrectedTail(n);
  }

  /** The corrected sequence spelled out for the two repaired residues. */
  lemma CorrectedTail(n: nat)
    requires 4 <= n && (n % 4 == 2 || n % 4 == 3)
    ensures n % 4 == 2 ==> Corrected(n) == Fill(n - 3) + [n - 1 + Bit29, n, n + Bit29]
    ensures n % 4 == 3 ==> Corrected(n) == Fill(n - 4) + [n - 2 + Bit30, n - 1, n - 1 + Bit30, 0]
  {
  }

  /**
    The corrected construction: balanced and repetition-free for every
    `n >= 3` whose filled values stay below `1 << 29`, and below `1 << 31`.
   */
  method BuildDistinct(n: nat) returns (a: array<nat>)
    requires 3 <= n && n + 2 <= Bit29
    ensures a[..] == Corrected(n)
    ensures Balanced(a[..])
    ensures Distinct(a[..])
    ensures forall i :: 0 <= i < n ==> a[i] < Two31
  {
    if n == 3 {
      a := new nat[3];
      a[0], a[1], a[2] := 1, 2, 3;
      assert a[..] == [1, 2, 3];
      ThreeElements();
    } else {
      a := BuildRepaired(n);
      BalancedIffZero(a[..]);
    }
    CorrectedDistinct(n);
  }
}
