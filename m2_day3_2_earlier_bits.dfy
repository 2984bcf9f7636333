/**
  lvl2/module_2/day3_2.cpp: for every position `j` and bit `i < 30`, `y[j]`
  gets bit `i` when some earlier element has that bit and `arr[j]` lacks it.
  The bits are processed one at a time, each in one left-to-right pass.
 */
module EarlierBits {
  import opened Bits

  predicate NonNegative(arr: seq<int>)
  {
    forall j :: 0 <= j < |arr| ==> arr[j] >= 0
  }

  /** Some element before position `j` has bit `i` set (the `found` flag). */
  predicate SeenBefore(arr: seq<int>, j: nat, i: nat)
    requires NonNegative(arr) && j <= |arr|
  {
    j > 0 && (SeenBefore(arr, j - 1, i) || Bit(arr[j - 1], i))
  }

  lemma {:induction false} SeenBeforeMeans(arr: seq<int>, j: nat, i: nat)
    requires NonNegative(arr) && j <= |arr|
    ensures SeenBefore(arr, j, i) <==> exists p :: 0 <= p < j && Bit(arr[p], i)
  {
    if j > 0 {
      SeenBeforeMeans(arr, j - 1, i);
    }
  }

  /** The bits `0..w-1` that `y[j]` receives. */
  function YBits(arr: seq<int>, j: nat, w: nat): (bs: seq<bool>)
    requires NonNegative(arr) && j < |arr|
    ensures |bs| == w
    ensures forall i :: 0 <= i < w ==> bs[i] == (SeenBefore(arr, j, i) && !Bit(arr[j], i))
  {
    seq(w, i requires 0 <= i => SeenBefore(arr, j, i) && !Bit(arr[j], i))
  }

  /** The value printed for position `j`. */
  function Y(arr: seq<int>, j: nat): nat
    requires NonNegative(arr) && j < |arr|
  {
    FromBits(YBits(arr, j, 30))
  }

  /** Bit `i` of `y[j]`: below 30, seen earlier, and clear in `arr[j]`. */
  lemma YBit(arr: seq<int>, j: nat, i: nat)
    requires NonNegative(arr) && j < |arr|
    ensures Bit(Y(arr, j), i) <==> i < 30 && (exists p :: 0 <= p < j && Bit(arr[p], i)) && !Bit(arr[j], i)
  {
    FromBitsBit(YBits(arr, j, 30), i);
    SeenBeforeMeans(arr, j, i);
  }

  /** `y[j] & arr[j] == 0` and `y[j] < 2^30`. */
  lemma YDisjoint(arr: seq<int>, j: nat)
    requires NonNegative(arr) && j < |arr|
    ensures And(Y(arr, j), arr[j]) == 0
    ensures Y(arr, j) < Pow2(30)
  {
    forall t: nat ensures Bit(And(Y(arr, j), arr[j]), t) == Bit(0, t) {
      BitAnd(Y(arr, j), arr[j], t);
      YBit(arr, j, t);
      BitOfZero(t);
    }
    BitsDetermine(And(Y(arr, j), arr[j]), 0);
    FromBitsBelow(YBits(arr, j, 30));
  }

  /** Nothing precedes the first element, so `y[0] == 0`. */
  lemma YFirst(arr: seq<int>)
    requires NonNegative(arr) && |arr| >= 1
    ensures Y(arr, 0) == 0
  {
    forall t: nat ensures Bit(Y(arr, 0), t) == Bit(0, t) {
      YBit(arr, 0, t);
      BitOfZero(t);
    }
    BitsDetermine(Y(arr, 0), 0);
  }

  /** Bit `i` of `y[j]` is added exactly when `found` is set and `arr[j]` lacks it. */
  lemma YCellStep(arr: seq<int>, j: nat, i: nat, found: bool)
    requires NonNegative(arr) && j < |arr| && found == SeenBefore(arr, j, i)
    ensures FromBits(YBits(arr, j, i + 1))
         == FromBits(YBits(arr, j, i)) + (if found && !Bit(arr[j], i) then Pow2(i) else 0)
  {
    assert YBits(arr, j, i + 1) == YBits(arr, j, i) + [found && !Bit(arr[j], i)];
    FromBitsSnoc(YBits(arr, j, i), found && !Bit(arr[j], i));
  }

  /** Lines 18-30; `arr` is a value and is left as it was. */
  method BuildY(arr: seq<int>) returns (y: array<int>)
    requires NonNegative(arr)
    ensures fresh(y) && y.Length == |arr|
    ensures forall j :: 0 <= j < |arr| ==> y[j] == Y(arr, j)
  {
    var n := |arr|;
    y := new int[n](_ => 0);
    forall j | 0 <= j < n ensures y[j] == FromBits(YBits(arr, j, 0)) {
      assert YBits(arr, j, 0) == [];
    }
    for i := 0 to 30
      invariant forall p :: 0 <= p < n ==> y[p] == FromBits(YBits(arr, p, i))
    {
      var found := false;
      for j := 0 to n
        invariant found == SeenBefore(arr, j, i)
        invariant forall p :: 0 <= p < j ==> y[p] == FromBits(YBits(arr, p, i + 1))
        invariant forall p :: j <= p < n ==> y[p] == FromBits(YBits(arr, p, i))
      {
        var bit := Bit(arr[j], i);
        YCellStep(arr, j, i, found);
        if bit && !found {
          found := true;
        } else if !bit && found {
          y[j] := y[j] + Pow2(i);
        }
      }
    }
  }
}
