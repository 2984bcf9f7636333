/**
  lvl2/module_2/day1_2.cpp: the number of 1 bits of a non-negative `x`,
  by adding the low bit and shifting right until nothing is left.
 */
module PopCount {
  import opened Bits

  /** The number of positions `t < k` at which `x` has a 1 bit. */
  function SetBitsBelow(x: nat, k: nat): nat
  {
    if k == 0 then 0 else SetBitsBelow(x, k - 1) + (if Bit(x, k - 1) then 1 else 0)
  }

  /** Counting bit positions below any width that holds `x` gives its bit count. */
  lemma {:induction false} BitCountCountsPositions(x: nat, k: nat)
    requires x < Pow2(k)
    ensures BitCount(x) == SetBitsBelow(x, k)
  {
    LowFull(x, k);
    LowCountsPositions(x, k);
  }

  lemma {:induction false} LowCountsPositions(x: nat, i: nat)
    ensures BitCount(Low(x, i)) == SetBitsBelow(x, i)
  {
    if i > 0 {
      LowCountsPositions(x, i - 1);
      LowStep(x, i - 1);
    }
  }

  /**
    Lines 11-15 for `x >= 0` (shifting a negative `int` is left out): `x & 1`
    is `x % 2` and `x >>= 1` is `x / 2` on non-negative values.
   */
  method CountBits(x0: int) returns (count: int)
    requires x0 >= 0
    ensures count == BitCount(x0)
    ensures x0 == 0 ==> count == 0
    ensures x0 < Pow2(31) ==> count <= 31
  {
    count := 0;
    var x := x0;
    while x != 0
      invariant 0 <= x
      invariant count + BitCount(x) == BitCount(x0)
      decreases x
    {
      count := count + x % 2;
      x := x / 2;
    }
    if x0 < Pow2(31) {
      BitCountBelow(x0, 31);
    }
  }
}
