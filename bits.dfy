/**
  Bit-level view of non-negative integers. C++ applies `&`, `|`, `^`, `<<`
  and `>>` to `int`; on non-negative values they agree with the structural
  definitions below, which peel the lowest bit (`x % 2`) and shift (`x / 2`).
 */
module Bits {

  /** `1 << k`. */
  function Pow2(k: nat): (p: nat)
    ensures p >= 1
  {
    if k == 0 then 1 else 2 * Pow2(k - 1)
  }

  /** `x & (1 << t)` is non-zero. */
  predicate Bit(x: nat, t: nat)
  {
    if t == 0 then x % 2 == 1 else Bit(x / 2, t - 1)
  }

  /** The number of set bits of `x`. */
  function BitCount(x: nat): nat
  {
    if x == 0 then 0 else x % 2 + BitCount(x / 2)
  }

  function Xor(x: nat, y: nat): nat
    decreases x + y
  {
    if x == 0 && y == 0 then 0
    else (if x % 2 != y % 2 then 1 else 0) + 2 * Xor(x / 2, y / 2)
  }

  function Or(x: nat, y: nat): nat
    decreases x + y
  {
    if x == 0 && y == 0 then 0
    else (if x % 2 == 1 || y % 2 == 1 then 1 else 0) + 2 * Or(x / 2, y / 2)
  }

  function And(x: nat, y: nat): nat
    decreases x + y
  {
    if x == 0 || y == 0 then 0
    else (if x % 2 == 1 && y % 2 == 1 then 1 else 0) + 2 * And(x / 2, y / 2)
  }

  /** The number whose bit `t` is `bs[t]`. */
  function FromBits(bs: seq<bool>): nat
  {
    if bs == [] then 0 else (if bs[0] then 1 else 0) + 2 * FromBits(bs[1..])
  }

  /** The low `i` bits of `x`, i.e. `x % (1 << i)`. */
  function Low(x: nat, i: nat): nat
  {
    if i == 0 then 0 else x % 2 + 2 * Low(x / 2, i - 1)
  }

  lemma {:induction false} BitXor(x: nat, y: nat, t: nat)
    ensures Bit(Xor(x, y), t) == (Bit(x, t) != Bit(y, t))
    decreases t
  {
    XorHalves(x, y);
    if t > 0 {
      BitXor(x / 2, y / 2, t - 1);
    }
  }

  /** A low bit `b` below `2 * h` is read back by `% 2` and `/ 2`. */
  lemma LowAndHigh(b: nat, h: nat)
    requires b < 2
    ensures (b + 2 * h) % 2 == b && (b + 2 * h) / 2 == h
  {
  }

  /** The lowest bit of `x ^ y`, and `(x ^ y) >> 1 == (x >> 1) ^ (y >> 1)`. */
  lemma XorHalves(x: nat, y: nat)
    ensures Xor(x, y) % 2 == (if x % 2 != y % 2 then 1 else 0)
    ensures Xor(x, y) / 2 == Xor(x / 2, y / 2)
  {
    if x == 0 && y == 0 {
      assert x / 2 == 0 && y / 2 == 0;
    } else {
      var b := if x % 2 != y % 2 then 1 else 0;
      LowAndHigh(b, Xor(x / 2, y / 2));
    }
  }

  /** The lowest bit of `x | y`, and `(x | y) >> 1 == (x >> 1) | (y >> 1)`. */
  lemma OrHalves(x: nat, y: nat)
    ensures Or(x, y) % 2 == (if x % 2 == 1 || y % 2 == 1 then 1 else 0)
    ensures Or(x, y) / 2 == Or(x / 2, y / 2)
  {
    if x == 0 && y == 0 {
      assert x / 2 == 0 && y / 2 == 0;
    } else {
      var b := if x % 2 == 1 || y % 2 == 1 then 1 else 0;
      LowAndHigh(b, Or(x / 2, y / 2));
    }
  }

  lemma {:induction false} BitOr(x: nat, y: nat, t: nat)
    ensures Bit(Or(x, y), t) == (Bit(x, t) || Bit(y, t))
    decreases t
  {
    OrHalves(x, y);
    if t > 0 {
      BitOr(x / 2, y / 2, t - 1);
    }
  }

  /** The lowest bit of `x & y`, and `(x & y) >> 1 == (x >> 1) & (y >> 1)`. */
  lemma AndHalves(x: nat, y: nat)
    ensures And(x, y) % 2 == (if x % 2 == 1 && y % 2 == 1 then 1 else 0)
    ensures And(x, y) / 2 == And(x / 2, y / 2)
  {
    if x == 0 || y == 0 {
      assert x / 2 == 0 || y / 2 == 0;
      assert And(x / 2, y / 2) == 0;
    } else {
      var b := if x % 2 == 1 && y % 2 == 1 then 1 else 0;
      LowAndHigh(b, And(x / 2, y / 2));
    }
  }

  lemma {:induction false} BitAnd(x: nat, y: nat, t: nat)
    ensures Bit(And(x, y), t) == (Bit(x, t) && Bit(y, t))
    decreases t
  {
    AndHalves(x, y);
    if t > 0 {
      BitAnd(x / 2, y / 2, t - 1);
    }
  }

  /** `x | y` keeps every bit of `x`, so it is at least `x`. */
  lemma {:induction false} OrAtLeast(x: nat, y: nat)
    ensures Or(x, y) >= x
    decreases x + y
  {
    if !(x == 0 && y == 0) {
      OrAtLeast(x / 2, y / 2);
    }
  }

  /** Adding `1 << i` to a number below `1 << i` sets bit `i`: `x + (1 << i) == x | (1 << i)`. */
  lemma {:induction false} AddPow2IsOr(x: nat, i: nat)
    requires x < Pow2(i)
    ensures x + Pow2(i) == Or(x, Pow2(i))
    decreases i
  {
    if i > 0 {
      AddPow2IsOr(x / 2, i - 1);
      OrHalves(x, Pow2(i));
      assert (x + Pow2(i)) / 2 == x / 2 + Pow2(i - 1);
      assert Or(x, Pow2(i)) == Or(x, Pow2(i)) % 2 + 2 * (Or(x, Pow2(i)) / 2);
    }
  }

  /** `i < 2^i`. */
  lemma Pow2AboveIndex(i: nat)
    ensures i < Pow2(i)
  {
    if i > 0 {
      Pow2AboveIndex(i - 1);
    }
  }

  /** `1 << 10`, `1 << 30` and `1 << 31`. */
  lemma Pow2Values()
    ensures Pow2(10) == 1024
    ensures Pow2(30) == 1073741824
    ensures Pow2(31) == 2147483648
  {
    assert Pow2(5) == 32;
    assert Pow2(10) == 1024;
    assert Pow2(20) == 1048576;
    assert Pow2(30) == 1073741824;
  }

  lemma {:induction false} BitOfZero(t: nat)
    ensures !Bit(0, t)
  {
    if t > 0 {
      BitOfZero(t - 1);
    }
  }

  /** Two numbers with the same bits are equal. */
  lemma {:induction false} BitsDetermine(x: nat, y: nat)
    requires forall t: nat :: Bit(x, t) == Bit(y, t)
    ensures x == y
    decreases x + y
  {
    assert Bit(x, 0) == Bit(y, 0);
    if x / 2 != x || y / 2 != y {
      forall t: nat ensures Bit(x / 2, t) == Bit(y / 2, t) {
        assert Bit(x, t + 1) == Bit(y, t + 1);
      }
      BitsDetermine(x / 2, y / 2);
    }
  }

  /** No bit at or above position `k` is set in a number below `1 << k`. */
  lemma {:induction false} BitAboveWidth(x: nat, k: nat, t: nat)
    requires x < Pow2(k) && k <= t
    ensures !Bit(x, t)
    decreases t
  {
    if t == 0 {
    } else if k == 0 {
      assert x == 0;
      BitOfZero(t);
    } else {
      BitAboveWidth(x / 2, k - 1, t - 1);
    }
  }

  /** A number whose bits at and above `k` are clear is below `1 << k`. */
  lemma {:induction false} BelowWidth(x: nat, k: nat)
    requires forall t: nat :: k <= t ==> !Bit(x, t)
    ensures x < Pow2(k)
    decreases k
  {
    if k == 0 {
      forall t: nat ensures !Bit(x, t) { }
      BitOfZero(0);
      forall t: nat ensures Bit(x, t) == Bit(0, t) { BitOfZero(t); }
      BitsDetermine(x, 0);
    } else {
      forall t: nat | k - 1 <= t ensures !Bit(x / 2, t) {
        assert !Bit(x, t + 1);
      }
      BelowWidth(x / 2, k - 1);
    }
  }

  lemma {:induction false} XorBelow(x: nat, y: nat, k: nat)
    requires x < Pow2(k) && y < Pow2(k)
    ensures Xor(x, y) < Pow2(k)
    decreases k
  {
    if k > 0 && !(x == 0 && y == 0) {
      XorBelow(x / 2, y / 2, k - 1);
    }
  }

  lemma XorComm(x: nat, y: nat)
    ensures Xor(x, y) == Xor(y, x)
  {
    forall t: nat ensures Bit(Xor(x, y), t) == Bit(Xor(y, x), t) {
      BitXor(x, y, t);
      BitXor(y, x, t);
    }
    BitsDetermine(Xor(x, y), Xor(y, x));
  }

  lemma XorAssoc(x: nat, y: nat, z: nat)
    ensures Xor(Xor(x, y), z) == Xor(x, Xor(y, z))
  {
    forall t: nat ensures Bit(Xor(Xor(x, y), z), t) == Bit(Xor(x, Xor(y, z)), t) {
      BitXor(Xor(x, y), z, t);
      BitXor(x, y, t);
      BitXor(x, Xor(y, z), t);
      BitXor(y, z, t);
    }
    BitsDetermine(Xor(Xor(x, y), z), Xor(x, Xor(y, z)));
  }

  lemma {:induction false} XorSelf(x: nat)
    ensures Xor(x, x) == 0
    decreases x
  {
    if x > 0 {
      XorSelf(x / 2);
    }
  }

  lemma {:induction false} XorZero(x: nat)
    ensures Xor(x, 0) == x && Xor(0, x) == x
    decreases x
  {
    if x > 0 {
      XorZero(x / 2);
    }
  }

  lemma {:induction false} BitCountBelow(x: nat, k: nat)
    requires x < Pow2(k)
    ensures BitCount(x) <= k
    decreases k
  {
    if x > 0 {
      BitCountBelow(x / 2, k - 1);
    }
  }

  lemma {:induction false} FromBitsBit(bs: seq<bool>, t: nat)
    ensures Bit(FromBits(bs), t) == (t < |bs| && bs[t])
    decreases t
  {
    if bs == [] {
      BitOfZero(t);
    } else if t > 0 {
      FromBitsBit(bs[1..], t - 1);
    }
  }

  lemma {:induction false} FromBitsBelow(bs: seq<bool>)
    ensures FromBits(bs) < Pow2(|bs|)
    decreases |bs|
  {
    if bs != [] {
      FromBitsBelow(bs[1..]);
    }
  }

  /** Appending a bit on top adds `1 << |bs|` when it is set. */
  lemma {:induction false} FromBitsSnoc(bs: seq<bool>, b: bool)
    ensures FromBits(bs + [b]) == FromBits(bs) + (if b then Pow2(|bs|) else 0)
    decreases |bs|
  {
    if bs != [] {
      assert (bs + [b])[1..] == bs[1..] + [b];
      FromBitsSnoc(bs[1..], b);
    }
  }

  /** Setting a clear bit `i` adds `1 << i`. */
  lemma {:induction false} FromBitsSet(bs: seq<bool>, i: nat)
    requires i < |bs| && !bs[i]
    ensures FromBits(bs[i := true]) == FromBits(bs) + Pow2(i)
    decreases i
  {
    if i > 0 {
      assert bs[i := true][1..] == bs[1..][i - 1 := true];
      FromBitsSet(bs[1..], i - 1);
    }
  }

  lemma {:induction false} LowFull(x: nat, i: nat)
    requires x < Pow2(i)
    ensures Low(x, i) == x
    decreases i
  {
    if i > 0 {
      LowFull(x / 2, i - 1);
    }
  }

  /** `x % (1 << (i + 1))` adds bit `i` of `x` to `x % (1 << i)`. */
  lemma LowStep(x: nat, i: nat)
    ensures Low(x, i + 1) == Low(x, i) + (if Bit(x, i) then Pow2(i) else 0)
    ensures BitCount(Low(x, i + 1)) == BitCount(Low(x, i)) + (if Bit(x, i) then 1 else 0)
  {
    LowValueStep(x, i);
    LowCountStep(x, i);
  }

  /** The next bit of `x` adds its power of two to the low part. */
  lemma {:induction false} LowValueStep(x: nat, i: nat)
    ensures Low(x, i + 1) == Low(x, i) + (if Bit(x, i) then Pow2(i) else 0)
    decreases i
  {
    if i > 0 {
      LowValueStep(x / 2, i - 1);
      assert Bit(x, i) == Bit(x / 2, i - 1);
    }
  }

  /** The next bit of `x` adds one set bit to the low part when it is set. */
  lemma {:induction false} LowCountStep(x: nat, i: nat)
    ensures BitCount(Low(x, i + 1)) == BitCount(Low(x, i)) + (if Bit(x, i) then 1 else 0)
    decreases i
  {
    if i == 0 {
      BitCountLowBit(x % 2, 0);
    } else {
      LowCountStep(x / 2, i - 1);
      BitCountShift(x % 2, Low(x / 2, i), Low(x / 2, i - 1), if Bit(x / 2, i - 1) then 1 else 0);
    }
  }

  /** Shifting in the same low bit keeps a difference in set bits. */
  lemma BitCountShift(b: nat, m: nat, m': nat, c: int)
    requires b < 2 && BitCount(m) == BitCount(m') + c
    ensures BitCount(b + 2 * m) == BitCount(b + 2 * m') + c
  {
    BitCountLowBit(b, m);
    BitCountLowBit(b, m');
  }

  lemma BitCountLowBit(b: nat, m: nat)
    requires b < 2
    ensures BitCount(b + 2 * m) == b + BitCount(m)
  {
    LowAndHigh(b, m);
  }
}
