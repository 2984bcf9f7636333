/**
  lvl2/module_2/day5_2.cpp: with a budget of `k` single-bit additions spread
  over the array, make the AND of all elements as large as possible. Bits
  are tried from 30 down to 0; bit `b` costs the number of elements lacking
  it and is bought whenever the remaining budget covers that cost.

  A candidate answer is described by its high part `h`: the bits of the
  answer at positions `b, b + 1, ...` shifted down by `b`.
 */
module BitBuying {
  import opened Bits

  predicate NonNegative(a: seq<int>)
  {
    forall i :: 0 <= i < |a| ==> a[i] >= 0
  }

  /** The number of elements among `a[..n]` without bit `b` (`cnt`). */
  function Missing(a: seq<int>, n: nat, b: nat): (c: nat)
    requires NonNegative(a) && n <= |a|
    ensures c <= n
  {
    if n == 0 then 0 else Missing(a, n - 1, b) + (if Bit(a[n - 1], b) then 0 else 1)
  }

  /**
    What it costs to give every element the bits of `h`, read as the bits
    at positions `b, b + 1, ..., 30`.
   */
  function CostFrom(a: seq<int>, h: nat, b: nat): nat
    requires NonNegative(a)
    decreases 31 - b
  {
    if b >= 31 then 0
    else (if h % 2 == 1 then Missing(a, |a|, b) else 0) + CostFrom(a, h / 2, b + 1)
  }

  /** The budget an answer `x` needs. */
  function Cost(a: seq<int>, x: nat): nat
    requires NonNegative(a)
  {
    CostFrom(a, x, 0)
  }

  /** `x >> b`. */
  function Shr(x: nat, b: nat): nat
  {
    if b == 0 then x else Shr(x / 2, b - 1)
  }

  /** `1 << 31`: the answer uses bits 0 to 30 only. */
  const Two31: nat := 2147483648

  /** A number below `1 << 31` has nothing left after shifting out 31 bits. */
  lemma ShrOfSmall(y: nat)
    requires y < Two31
    ensures Shr(y, 31) == 0
  {
    Pow2Values();
    ShrBelow(y, 31);
  }

  /** The greedy answer has its high part's 31 bits. */
  lemma GreedyBelow(a: seq<int>, k: int)
    requires NonNegative(a)
    ensures Greedy(a, k) < Two31
  {
    RunInvariant(a, k, 0);
    Pow2Values();
  }

  datatype State = State(high: nat, left: int)

  /** The greedy state once the bits `30, ..., b` have been tried. */
  function Run(a: seq<int>, k: int, b: nat): State
    requires NonNegative(a) && b <= 31
    decreases 31 - b
  {
    if b == 31 then State(0, k)
    else
      var s := Run(a, k, b + 1);
      var c := Missing(a, |a|, b);
      if c <= s.left then State(2 * s.high + 1, s.left - c) else State(2 * s.high, s.left)
  }

  /** The printed answer. */
  function Greedy(a: seq<int>, k: int): nat
    requires NonNegative(a)
  {
    Run(a, k, 0).high
  }

  /**
    The remaining budget is the initial one minus what the bought bits
    cost; it never goes negative, and the high part has `31 - b` bits.
   */
  lemma {:induction false} RunInvariant(a: seq<int>, k: int, b: nat)
    requires NonNegative(a) && b <= 31
    ensures Run(a, k, b).left == k - CostFrom(a, Run(a, k, b).high, b)
    ensures k >= 0 ==> Run(a, k, b).left >= 0
    ensures Run(a, k, b).high < Pow2(31 - b)
    decreases 31 - b
  {
    if b < 31 {
      RunInvariant(a, k, b + 1);
      var h := Run(a, k, b + 1).high;
      assert (2 * h + 1) / 2 == h && (2 * h) / 2 == h;
      assert Pow2(31 - b) == 2 * Pow2(31 - (b + 1));
    }
  }

  lemma {:induction false} ShrStep(x: nat, b: nat)
    ensures Shr(x, b + 1) == Shr(x, b) / 2
    decreases b
  {
    if b > 0 {
      ShrStep(x / 2, b - 1);
    }
  }

  lemma {:induction false} ShrBelow(x: nat, b: nat)
    requires x < Pow2(b)
    ensures Shr(x, b) == 0
    decreases b
  {
    if b > 0 {
      ShrBelow(x / 2, b - 1);
    }
  }

  /** Dropping the low `d` bits can only lower the cost. */
  lemma {:induction false} CostOfHigh(a: seq<int>, h: nat, c: nat, d: nat)
    requires NonNegative(a)
    ensures CostFrom(a, h, c) >= CostFrom(a, Shr(h, d), c + d)
    decreases d
  {
    if d > 0 {
      CostOfHigh(a, h / 2, c + 1, d - 1);
    }
  }

  /**
    Every affordable `y` agrees with the greedy answer on the bits above
    `b` or is smaller there: a bit the greedy refused could not be paid
    for by `y` either, since both paid the same for the higher bits.
   */
  lemma {:induction false} HighPartBounded(a: seq<int>, k: int, y: nat, b: nat)
    requires NonNegative(a) && b <= 31
    requires y < Two31 && Cost(a, y) <= k
    ensures Shr(y, b) <= Run(a, k, b).high
    decreases 31 - b
  {
    if b == 31 {
      ShrOfSmall(y);
    } else {
      HighPartBounded(a, k, y, b + 1);
      ShrStep(y, b);
      var s := Run(a, k, b + 1);
      var hy := Shr(y, b);
      assert hy == 2 * (hy / 2) + hy % 2;
      if hy / 2 == s.high && hy % 2 == 1 {
        BitBought(a, k, y, b);
      } else {
        assert Run(a, k, b).high >= 2 * s.high;
      }
    }
  }

  /**
    When an affordable `y` agrees with the greedy answer above bit `b` and
    has bit `b` set, the greedy run could pay for that bit too.
   */
  lemma BitBought(a: seq<int>, k: int, y: nat, b: nat)
    requires NonNegative(a) && b < 31
    requires Cost(a, y) <= k
    requires Shr(y, b) / 2 == Run(a, k, b + 1).high && Shr(y, b) % 2 == 1
    ensures Run(a, k, b).high == 2 * Run(a, k, b + 1).high + 1
  {
    var s := Run(a, k, b + 1);
    RunInvariant(a, k, b + 1);
    CostOfHigh(a, y, 0, b);
    assert CostFrom(a, Shr(y, b), b) == Missing(a, |a|, b) + CostFrom(a, s.high, b + 1);
  }

  /** The greedy answer is the largest `x < 2^31` the budget pays for. */
  lemma GreedyIsLargest(a: seq<int>, k: int)
    requires NonNegative(a) && k >= 0
    ensures Greedy(a, k) < Two31
    ensures Cost(a, Greedy(a, k)) <= k
    ensures forall y: nat :: y < Two31 && Cost(a, y) <= k ==> y <= Greedy(a, k)
  {
    RunInvariant(a, k, 0);
    GreedyBelow(a, k);
    forall y: nat | y < Two31 && Cost(a, y) <= k ensures y <= Greedy(a, k) {
      HighPartBounded(a, k, y, 0);
    }
  }

  /** `h << b`. */
  function Place(h: nat, b: nat): nat
  {
    if b == 0 then h else 2 * Place(h, b - 1)
  }

  lemma {:induction false} PlaceOfZero(b: nat)
    ensures Place(0, b) == 0
  {
    if b > 0 {
      PlaceOfZero(b - 1);
    }
  }

  /** Appending bit `v` below the high part `h` at position `i`. */
  lemma {:induction false} PlaceAppend(h: nat, v: nat, i: nat)
    requires v < 2
    ensures Place(2 * h + v, i) == Place(h, i + 1) + v * Pow2(i)
    decreases i
  {
    if i > 0 {
      PlaceAppend(h, v, i - 1);
    }
  }

  /** `(h << (i + 1)) | (1 << i)` adds the lower bit. */
  lemma {:induction false} OrLowerBit(h: nat, i: nat)
    ensures Or(Place(h, i + 1), Pow2(i)) == Place(h, i + 1) + Pow2(i)
    decreases i
  {
    var x := Place(h, i + 1);
    OrHalves(x, Pow2(i));
    if i == 0 {
      OrZero(h);
    } else {
      OrLowerBit(h, i - 1);
    }
    assert Or(x, Pow2(i)) == Or(x, Pow2(i)) % 2 + 2 * (Or(x, Pow2(i)) / 2);
  }

  lemma {:induction false} OrZero(x: nat)
    ensures Or(x, 0) == x
    decreases x
  {
    if x > 0 {
      OrZero(x / 2);
    }
  }

  /** One more bit tried: buying it sets it in the answer, refusing it leaves the answer as it is. */
  lemma BuyStep(a: seq<int>, k: int, bit: nat, ans: nat, left: int, cnt: nat)
    requires NonNegative(a) && bit < 31
    requires ans == Place(Run(a, k, bit + 1).high, bit + 1) && left == Run(a, k, bit + 1).left
    requires cnt == Missing(a, |a|, bit)
    ensures cnt <= left ==> Or(ans, Pow2(bit)) == Place(Run(a, k, bit).high, bit) && left - cnt == Run(a, k, bit).left
    ensures cnt > left ==> ans == Place(Run(a, k, bit).high, bit) && left == Run(a, k, bit).left
  {
    var h := Run(a, k, bit + 1).high;
    if cnt <= left {
      assert Run(a, k, bit).high == 2 * h + 1;
      OrLowerBit(h, bit);
      PlaceAppend(h, 1, bit);
    } else {
      assert Run(a, k, bit).high == 2 * h;
      PlaceAppend(h, 0, bit);
    }
  }

  /** Lines 15-19: count the elements lacking bit `b`. */
  method CountMissing(a: seq<int>, b: nat) returns (cnt: nat)
    requires NonNegative(a)
    ensures cnt == Missing(a, |a|, b)
  {
    cnt := 0;
    for i := 0 to |a|
      invariant cnt == Missing(a, i, b)
    {
      if !Bit(a[i], b) {
        cnt := cnt + 1;
      }
    }
  }

  /** Lines 11-25: bits 30 down to 0, each bought while the budget lasts. */
  method MaximiseAnd(a: seq<int>, k: int) returns (ans: nat)
    requires NonNegative(a)
    ensures ans == Greedy(a, k)
    ensures ans < Two31
    ensures k >= 0 ==> Cost(a, ans) <= k
    ensures forall y: nat :: y < Two31 && Cost(a, y) <= k ==> y <= ans
  {
    ans := 0;
    var left := k;
    var bit := 31;
    PlaceOfZero(31);
    while bit > 0
      invariant 0 <= bit <= 31
      invariant ans == Place(Run(a, k, bit).high, bit)
      invariant left == Run(a, k, bit).left
    {
      bit := bit - 1;
      var cnt := CountMissing(a, bit);
      BuyStep(a, k, bit, ans, left, cnt);
      if cnt <= left {
        left := left - cnt;
        ans := Or(ans, Pow2(bit));
      }
    }
    RunInvariant(a, k, 0);
    GreedyBelow(a, k);
    if k >= 0 {
      GreedyIsLargest(a, k);
    } else {
      forall y: nat | y < Two31 ensures Cost(a, y) > k { }
    }
  }
}
