/**
  lvl2/module_3/day5_1.cpp: the length of the shortest array of
  non-negative integers whose MEX is `a` and whose XOR is `b`. Such an array
  holds every value below `a` and never `a` itself; the XOR of `0..a-1`
  comes from a closed form in `a % 4`, and one or two further elements
  fix the XOR when it is not already `b`.
 */
module XorMex {
  import opened Bits
  import opened CppInt

  /** `0 ^ 1 ^ ... ^ (a - 1)`. */
  function XorUpTo(a: nat): nat
  {
    if a == 0 then 0 else Xor(XorUpTo(a - 1), a - 1)
  }

  /** Lines 15-19: the XOR of `0..a-1` read off `a % 4`. */
  function PrefixXor(a: nat): (sum: nat)
  {
    var m := a % 4;
    if m == 0 then 0 else if m == 1 then a - 1 else if m == 2 then 1 else a
  }

  /** An even number and its successor differ in the lowest bit only. */
  lemma EvenPair(e: nat)
    requires e % 2 == 0
    ensures Xor(e, e + 1) == 1
    ensures Xor(1, e) == e + 1
  {
    XorHalves(e, e + 1);
    XorSelf(e / 2);
    assert (e + 1) / 2 == e / 2;
    assert Xor(e, e + 1) == Xor(e, e + 1) % 2 + 2 * (Xor(e, e + 1) / 2);
    XorHalves(1, e);
    XorZero(e / 2);
    assert Xor(1, e) == Xor(1, e) % 2 + 2 * (Xor(1, e) / 2);
  }

  /** One more value moves the closed form one residue on. */
  lemma PrefixXorStep(p: nat)
    ensures PrefixXor(p + 1) == Xor(PrefixXor(p), p)
  {
    var q, r := p / 4, p % 4;
    assert p == 4 * q + r;
    if r < 3 {
      assert p + 1 == 4 * q + (r + 1);
      ModOfMultiplePlus(4, q, r + 1);
    } else {
      assert p + 1 == 4 * (q + 1) + 0;
      ModOfMultiplePlus(4, q + 1, 0);
    }
    if r == 0 {
      XorZero(p);
    } else if r == 1 {
      assert p - 1 == 0 + 2 * (2 * q);
      LowAndHigh(0, 2 * q);
      EvenPair(p - 1);
    } else if r == 2 {
      assert p == 0 + 2 * (2 * q + 1);
      LowAndHigh(0, 2 * q + 1);
      EvenPair(p);
    } else {
      XorSelf(p);
    }
  }

  /** The closed form is the XOR of `0..a-1` for every `a`. */
  lemma {:induction false} PrefixXorIsXorUpTo(a: nat)
    ensures PrefixXor(a) == XorUpTo(a)
  {
    if a > 0 {
      PrefixXorIsXorUpTo(a - 1);
      PrefixXorStep(a - 1);
    }
  }

  /** Lines 21-31: `a` when `0..a-1` already XOR to `b`, `a + 2` when the one missing value would be `a`, else `a + 1`. */
  function ShortestLength(a: nat, b: nat): (len: nat)
  {
    var sum := PrefixXor(a);
    var x := Xor(sum, b);
    if sum == b then a else if x == a then a + 2 else a + 1
  }

  /** The XOR of all elements, first element outermost. */
  function XorSeq(s: seq<nat>): nat
  {
    if s == [] then 0 else Xor(s[0], XorSeq(s[1..]))
  }

  /** MEX `a` (every value below `a` occurs, `a` does not) and XOR `b`. */
  predicate Valid(s: seq<nat>, a: nat, b: nat)
  {
    (forall v :: 0 <= v < a ==> v in s) && a !in s && XorSeq(s) == b
  }

  /** `[0, 1, ..., a - 1]`. */
  function Range(a: nat): (r: seq<nat>)
    ensures |r| == a && forall i :: 0 <= i < a ==> r[i] == i
  {
    seq(a, i requires 0 <= i => i)
  }

  lemma {:induction false} XorSeqAppend(s: seq<nat>, t: seq<nat>)
    ensures XorSeq(s + t) == Xor(XorSeq(s), XorSeq(t))
    decreases |s|
  {
    if s == [] {
      assert s + t == t;
      XorZero(XorSeq(t));
    } else {
      assert (s + t)[1..] == s[1..] + t;
      XorSeqAppend(s[1..], t);
      XorAssoc(s[0], XorSeq(s[1..]), XorSeq(t));
    }
  }

  lemma {:induction false} XorSeqRange(a: nat)
    ensures XorSeq(Range(a)) == XorUpTo(a)
  {
    if a > 0 {
      XorSeqRange(a - 1);
      assert Range(a) == Range(a - 1) + [a - 1];
      XorSeqAppend(Range(a - 1), [a - 1]);
      XorZero(a - 1);
    }
  }

  /** An array as short as `ShortestLength(a, b)`. */
  function Witness(a: nat, b: nat): seq<nat>
  {
    var sum := PrefixXor(a);
    var x := Xor(sum, b);
    if sum == b then Range(a)
    else if x != a then Range(a) + [x]
    else Range(a) + [Pow2(a), Xor(Pow2(a), a)]
  }

  /** `x ^ (x ^ y) == y`. */
  lemma XorCancel(x: nat, y: nat)
    ensures Xor(x, Xor(x, y)) == y
  {
    XorAssoc(x, x, y);
    XorSelf(x);
    XorZero(y);
  }

  /** `0..a-1` followed by `t`: MEX `a` unless `t` holds `a`, and XOR `XorUpTo(a) ^ XorSeq(t)`. */
  lemma ExtendRange(a: nat, t: seq<nat>)
    ensures forall v :: 0 <= v < a ==> v in Range(a) + t
    ensures a in Range(a) + t <==> a in t
    ensures XorSeq(Range(a) + t) == Xor(XorUpTo(a), XorSeq(t))
  {
    var w := Range(a) + t;
    forall v | 0 <= v < a ensures v in w {
      assert w[v] == v;
    }
    XorSeqRange(a);
    XorSeqAppend(Range(a), t);
  }

  /** Two values other than `a` whose XOR is `a`. */
  lemma TwoExtra(a: nat)
    ensures Pow2(a) != a && Xor(Pow2(a), a) != a
    ensures XorSeq([Pow2(a), Xor(Pow2(a), a)]) == a
  {
    var y, z := Pow2(a), Xor(Pow2(a), a);
    Pow2AboveIndex(a);
    XorCancel(y, a);
    XorAssoc(y, a, a);
    XorSelf(a);
    XorZero(y);
    assert [y, z][1..] == [z] && [z][1..] == [];
    XorZero(z);
    assert XorSeq([z]) == z;
    assert XorSeq([y, z]) == Xor(y, z);
  }

  /** The answer is reached: `Witness(a, b)` has MEX `a`, XOR `b`, and that length. */
  lemma ShortestLengthReached(a: nat, b: nat)
    ensures Valid(Witness(a, b), a, b)
    ensures |Witness(a, b)| == ShortestLength(a, b)
  {
    var sum := PrefixXor(a);
    var x := Xor(sum, b);
    PrefixXorIsXorUpTo(a);
    XorCancel(sum, b);
    if sum == b {
      ExtendRange(a, []);
      assert Range(a) + [] == Range(a);
      XorZero(sum);
    } else if x != a {
      ExtendRange(a, [x]);
      XorZero(x);
    } else {
      ExtendRange(a, [Pow2(a), Xor(Pow2(a), a)]);
      TwoExtra(a);
    }
  }

  /** `s` with its first `v` removed. */
  function Remove(s: seq<nat>, v: nat): (r: seq<nat>)
    ensures forall u :: u in r ==> u in s
  {
    if s == [] then []
    else if s[0] == v then s[1..]
    else [s[0]] + Remove(s[1..], v)
  }

  lemma {:induction false} RemoveFacts(s: seq<nat>, v: nat)
    requires v in s
    ensures |Remove(s, v)| == |s| - 1
    ensures XorSeq(s) == Xor(XorSeq(Remove(s, v)), v)
    ensures forall u :: u in s && u != v ==> u in Remove(s, v)
    decreases |s|
  {
    if s[0] == v {
      XorComm(v, XorSeq(s[1..]));
    } else {
      RemoveFacts(s[1..], v);
      XorAssoc(s[0], XorSeq(Remove(s[1..], v)), v);
      assert Remove(s, v)[1..] == Remove(s[1..], v);
    }
  }

  /** What remains of `s` once one copy of each of `0..a-1` is taken out. */
  function Leftover(s: seq<nat>, a: nat): (r: seq<nat>)
    ensures forall u :: u in r ==> u in s
  {
    if a == 0 then s else Remove(Leftover(s, a - 1), a - 1)
  }

  /**
    Taking one copy of each of `0..a-1` out of an array that holds them all
    leaves `|s| - a` elements, among them every element of `s` from `a` on.
   */
  lemma {:induction false} LeftoverMembers(s: seq<nat>, a: nat)
    requires forall v :: 0 <= v < a ==> v in s
    ensures |s| >= a && |Leftover(s, a)| == |s| - a
    ensures forall u :: u in s && u >= a ==> u in Leftover(s, a)
  {
    if a > 0 {
      LeftoverMembers(s, a - 1);
      RemoveFacts(Leftover(s, a - 1), a - 1);
    }
  }

  /** The XOR of an array holding every value below `a` is that of `0..a-1` with the XOR of the rest. */
  lemma {:induction false} LeftoverFacts(s: seq<nat>, a: nat)
    requires forall v :: 0 <= v < a ==> v in s
    ensures XorSeq(s) == Xor(XorSeq(Leftover(s, a)), XorUpTo(a))
  {
    if a == 0 {
      XorZero(XorSeq(s));
    } else {
      LeftoverFacts(s, a - 1);
      LeftoverMembers(s, a - 1);
      var l := Leftover(s, a - 1);
      RemoveFacts(l, a - 1);
      XorRegroup(XorSeq(Remove(l, a - 1)), a - 1, XorUpTo(a - 1));
    }
  }

  /** `(x ^ y) ^ z == x ^ (z ^ y)`. */
  lemma XorRegroup(x: nat, y: nat, z: nat)
    ensures Xor(Xor(x, y), z) == Xor(x, Xor(z, y))
  {
    XorAssoc(x, y, z);
    XorComm(y, z);
  }

  /** No array with MEX `a` and XOR `b` is shorter than the answer. */
  lemma ShortestLengthIsLeast(a: nat, b: nat, s: seq<nat>)
    requires Valid(s, a, b)
    ensures |s| >= ShortestLength(a, b)
  {
    LeftoverMembers(s, a);
    LeftoverFacts(s, a);
    PrefixXorIsXorUpTo(a);
    var sum := PrefixXor(a);
    var l := Leftover(s, a);
    if |s| == a {
      assert l == [];
      XorZero(sum);
    } else if |s| == a + 1 {
      var u := l[0];
      assert l == [u] && u in l;
      XorZero(u);
      XorComm(u, sum);
      XorCancel(sum, u);
    }
  }
}
