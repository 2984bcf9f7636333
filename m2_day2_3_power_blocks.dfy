/**
  lvl2/module_2/day2_3.cpp: the numbers `1..n` split into the blocks
  `[2^m, 2^(m+1) - 1]`, the last one cut off at `n`; the answer is the
  length of the longest block.
 */
module PowerBlocks {
  import opened Bits

  function Min(x: int, y: int): int
  {
    if x <= y then x else y
  }

  function Max(x: int, y: int): int
  {
    if x >= y then x else y
  }

  /** Lines 15-16: the block starting at `2^m`, cut at `n`, has `1..2^m` elements. */
  function Block(n: int, m: nat): (len: int)
    requires Pow2(m) <= n
    ensures 1 <= len <= Pow2(m)
  {
    Min(n, 2 * Pow2(m) - 1) - Pow2(m) + 1
  }

  /** The longest of the blocks that start at `2^0, ..., 2^(e-1)`. */
  function BestBlock(n: int, e: nat): int
    requires e == 0 || Pow2(e - 1) <= n
  {
    if e == 0 then 0 else Max(BestBlock(n, e - 1), Block(n, e - 1))
  }

  /** The exponent of the largest power of two not above `n`. */
  function TopExp(n: int): (e: nat)
    requires n >= 1
    ensures Pow2(e) <= n < 2 * Pow2(e)
  {
    if n < 2 then 0 else 1 + TopExp(n / 2)
  }

  lemma {:induction false} Pow2Grows(i: nat, j: nat)
    requires i < j
    ensures 2 * Pow2(i) <= Pow2(j)
    decreases j
  {
    if j > i + 1 {
      Pow2Grows(i, j - 1);
    }
  }

  /** The exponents `e` with `2^(e-1) <= n < 2^e` are exactly `TopExp(n) + 1`. */
  lemma TopExpUnique(n: int, e: nat)
    requires n >= 1 && e >= 1 && Pow2(e - 1) <= n < Pow2(e)
    ensures e == TopExp(n) + 1
  {
    var t := TopExp(n);
    if e - 1 < t {
      Pow2Grows(e - 1, t);
    } else if e - 1 > t {
      Pow2Grows(t, e - 1);
    }
  }

  /** Every block below the top one is full, so the longest of them is the previous one. */
  lemma {:induction false} FullBlocks(n: int, e: nat)
    requires n >= 1 && e <= TopExp(n)
    ensures e == 0 || Pow2(e - 1) <= n
    ensures BestBlock(n, e) == Pow2(e) / 2
  {
    if e > 0 {
      if e - 1 < TopExp(n) {
        Pow2Grows(e - 1, TopExp(n));
      }
      FullBlocks(n, e - 1);
      if e >= 2 {
        Pow2Grows(e - 2, e - 1);
      }
    }
  }

  /** The answer in closed form: the last full block or the cut top block, whichever is longer. */
  lemma {:induction false} BestBlockClosedForm(n: int)
    requires n >= 1
    ensures BestBlock(n, TopExp(n) + 1) == Max(Pow2(TopExp(n)) / 2, n - Pow2(TopExp(n)) + 1)
    ensures 1 <= BestBlock(n, TopExp(n) + 1) <= n
  {
    FullBlocks(n, TopExp(n));
  }

  /** Lines 12-18 with `currPos = 2^e`; `n <= 0` gives 0. */
  method LongestBlock(n: int) returns (ans: int)
    ensures n <= 0 ==> ans == 0
    ensures n >= 1 ==> ans == BestBlock(n, TopExp(n) + 1)
    ensures n >= 1 ==> ans == Max(Pow2(TopExp(n)) / 2, n - Pow2(TopExp(n)) + 1)
    ensures n >= 1 ==> 1 <= ans <= n
  {
    ans := 0;
    var currPos := 1;
    ghost var e: nat := 0;
    while currPos <= n
      invariant currPos == Pow2(e)
      invariant e == 0 || Pow2(e - 1) <= n
      invariant ans == BestBlock(n, e)
      decreases n - currPos
    {
      var nxt := Min(n, currPos * 2 - 1);
      ans := Max(ans, nxt - currPos + 1);
      currPos := currPos * 2;
      e := e + 1;
    }
    if n >= 1 {
      TopExpUnique(n, e);
      BestBlockClosedForm(n);
    }
  }
}
