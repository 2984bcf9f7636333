/**
  lvl2/module_4/day4_1.cpp: make a binary string good, meaning that
  `t[i] != t[|t| - 1 - i]` for every `i`, by inserting "01" at chosen
  positions. The program peels matching ends off a deque; when both ends
  are equal it inserts "01" at the back (both '0') or at the front (both
  '1') and records where. Any character other than '0' counts as '1', as
  in the program's counting loop.
 */
module InsertPairs {

  /** The number of '0' characters. */
  function Zeros(s: seq<char>): (z: nat)
    ensures z <= |s|
  {
    if s == [] then 0 else Zeros(s[..|s| - 1]) + (if s[|s| - 1] == '0' then 1 else 0)
  }

  /** Counting distributes over concatenation. */
  lemma {:induction false} ZerosAppend(u: seq<char>, v: seq<char>)
    ensures Zeros(u + v) == Zeros(u) + Zeros(v)
    decreases |v|
  {
    if v == [] {
      assert u + v == u;
    } else {
      assert (u + v)[..|u + v| - 1] == u + v[..|v| - 1];
      ZerosAppend(u, v[..|v| - 1]);
    }
  }

  lemma ZerosOfOne(c: char)
    ensures Zeros([c]) == if c == '0' then 1 else 0
  {
    assert [c][..0] == [];
  }

  /** A string whose characters are all '0', or all other, counts all or none. */
  lemma {:induction false} ZerosUniform(q: seq<char>, z: bool)
    requires forall k :: 0 <= k < |q| ==> (q[k] == '0') == z
    ensures Zeros(q) == if z then |q| else 0
    decreases |q|
  {
    if q != [] {
      ZerosUniform(q[..|q| - 1], z);
    }
  }

  /** Equal numbers of '0' and other characters. */
  predicate Balanced(s: seq<char>)
  {
    2 * Zeros(s) == |s|
  }

  /** Position `i` and its mirror hold one '0' and one other character. */
  predicate Mirrored(t: seq<char>, i: int)
    requires 0 <= i < |t|
  {
    (t[i] == '0') != (t[|t| - 1 - i] == '0')
  }

  predicate Good(t: seq<char>)
  {
    forall i :: 0 <= i < |t| ==> Mirrored(t, i)
  }

  /** Inserting "01" before position `p`; a position outside the string inserts nothing. */
  function Insert(t: seq<char>, p: int): seq<char>
  {
    if 0 <= p <= |t| then t[..p] + ['0', '1'] + t[p..] else t
  }

  /** The string after the recorded insertions, in order. */
  function Apply(s: seq<char>, ps: seq<int>): seq<char>
  {
    if ps == [] then s else Insert(Apply(s, ps[..|ps| - 1]), ps[|ps| - 1])
  }

  /** Every recorded position lies within the string at the time of its insertion. */
  predicate InRange(s: seq<char>, ps: seq<int>)
  {
    forall k :: 0 <= k < |ps| ==> 0 <= ps[k] <= |Apply(s, ps[..k])|
  }

  lemma InsertZeros(t: seq<char>, p: int)
    requires 0 <= p <= |t|
    ensures Zeros(Insert(t, p)) == Zeros(t) + 1 && |Insert(t, p)| == |t| + 2
  {
    assert t == t[..p] + t[p..];
    ZerosAppend(t[..p], t[p..]);
    ZerosAppend(t[..p] + ['0', '1'], t[p..]);
    ZerosAppend(t[..p], ['0', '1']);
    ZerosAppend(['0'], ['1']);
    assert ['0'] + ['1'] == ['0', '1'];
    ZerosOfOne('0');
    ZerosOfOne('1');
  }

  /** Inserting "01" never changes how far the string is from balanced. */
  lemma {:induction false} ApplyImbalance(s: seq<char>, ps: seq<int>)
    ensures 2 * Zeros(Apply(s, ps)) - |Apply(s, ps)| == 2 * Zeros(s) - |s|
    decreases |ps|
  {
    if ps != [] {
      var t := Apply(s, ps[..|ps| - 1]);
      ApplyImbalance(s, ps[..|ps| - 1]);
      if 0 <= ps[|ps| - 1] <= |t| {
        InsertZeros(t, ps[|ps| - 1]);
      }
    }
  }

  /** A good string is balanced: each mirrored pair holds one '0'. */
  lemma {:induction false} GoodIsBalanced(t: seq<char>)
    requires Good(t)
    ensures Balanced(t)
    decreases |t|
  {
    if |t| > 0 {
      assert Mirrored(t, 0);
    }
    if |t| >= 2 {
      var inner := t[1..|t| - 1];
      assert Good(inner) by {
        forall i | 0 <= i < |inner| ensures Mirrored(inner, i) {
          assert Mirrored(t, i + 1);
        }
      }
      GoodIsBalanced(inner);
      assert Mirrored(t, 0);
      assert t == [t[0]] + inner + [t[|t| - 1]];
      ZerosAppend([t[0]] + inner, [t[|t| - 1]]);
      ZerosAppend([t[0]], inner);
      ZerosOfOne(t[0]);
      ZerosOfOne(t[|t| - 1]);
    }
  }

  /** With unequal counts no sequence of insertions makes the string good. */
  lemma NeverGood(s: seq<char>, ps: seq<int>)
    requires !Balanced(s)
    ensures !Good(Apply(s, ps))
  {
    ApplyImbalance(s, ps);
    if Good(Apply(s, ps)) {
      GoodIsBalanced(Apply(s, ps));
    }
  }

  /** Lines 16-20: `no_0` counts '0', `no_1` everything else. */
  method CountChars(s: seq<char>) returns (no0: nat, no1: nat)
    ensures no0 == Zeros(s) && no0 + no1 == |s|
  {
    no0, no1 := 0, 0;
    for i := 0 to |s|
      invariant no0 == Zeros(s[..i]) && no0 + no1 == i
    {
      assert s[..i + 1] == s[..i] + [s[i]];
      if s[i] == '0' {
        no0 := no0 + 1;
      } else {
        no1 := no1 + 1;
      }
    }
    assert s[..|s|] == s;
  }

  /** Leading '0' characters. */
  function Lead(s: seq<char>): nat
  {
    if s == [] || s[0] != '0' then 0 else 1 + Lead(s[1..])
  }

  /** Trailing characters other than '0'. */
  function Trail(s: seq<char>): nat
  {
    if s == [] || s[|s| - 1] == '0' then 0 else 1 + Trail(s[..|s| - 1])
  }

  lemma {:induction false} LeadAppend(x: seq<char>, u: seq<char>, j: nat)
    requires j < |x| && x[j] != '0'
    ensures Lead(x + u) == Lead(x)
    decreases |x|
  {
    if x[0] == '0' {
      assert (x + u)[1..] == x[1..] + u;
      LeadAppend(x[1..], u, j - 1);
    }
  }

  lemma {:induction false} TrailPrepend(u: seq<char>, x: seq<char>, j: nat)
    requires j < |x| && x[j] == '0'
    ensures Trail(u + x) == Trail(x)
    decreases |x|
  {
    if x[|x| - 1] != '0' {
      assert (u + x)[..|u + x| - 1] == u + x[..|x| - 1];
      TrailPrepend(u, x[..|x| - 1], j);
    }
  }

  /** A balanced string with equal ends has the other character strictly inside. */
  lemma InnerOther(q: seq<char>) returns (j: nat)
    requires Balanced(q) && q != [] && q[0] == q[|q| - 1]
    ensures 0 < j < |q| - 1 && (q[j] == '0') != (q[0] == '0')
  {
    var z := q[0] == '0';
    if forall k :: 0 <= k < |q| ==> (q[k] == '0') == z {
      ZerosUniform(q, z);
      assert false;
    }
    j :| 0 <= j < |q| && (q[j] == '0') != z;
  }

  /** What the deque loop can shrink: leading '0's plus trailing '1's. */
  function Potential(q: seq<char>): nat
  {
    Lead(q) + Trail(q)
  }

  /** `q` is shorter than `q0`, or as long with a smaller potential. */
  predicate Progress(q: seq<char>, q0: seq<char>)
  {
    |q| < |q0| || (|q| == |q0| && Potential(q) < Potential(q0))
  }

  /**
    Both ends '0': "01" goes to the back, the new ends differ, and peeling
    them leaves a string as long as `q` with fewer leading '0's.
   */
  lemma BackRotates(q: seq<char>)
    requires Balanced(q) && q != [] && q[0] == q[|q| - 1] == '0'
    ensures var q1 := q + ['0'] + ['1']; q1[0] != q1[|q1| - 1] && Progress(q1[1..|q1| - 1], q)
  {
    var j := InnerOther(q);
    var q1 := q + ['0'] + ['1'];
    assert q1[1..|q1| - 1] == q[1..] + ['0'];
    LeadAppend(q[1..], ['0'], j - 1);
  }

  /**
    Both ends '1': "01" goes to the front, the new ends differ, and peeling
    them leaves a string as long as `q` with fewer trailing '1's.
   */
  lemma FrontRotates(q: seq<char>)
    requires Balanced(q) && q != [] && q[0] == q[|q| - 1] && q[0] != '0'
    ensures var q1 := ['0'] + (['1'] + q); q1[0] != q1[|q1| - 1] && Progress(q1[1..|q1| - 1], q)
  {
    var j := InnerOther(q);
    var q1 := ['0'] + (['1'] + q);
    assert q1[1..|q1| - 1] == ['1'] + q[..|q| - 1];
    TrailPrepend(['1'], q[..|q| - 1], j);
  }

  predicate Binary(t: seq<char>)
  {
    forall i :: 0 <= i < |t| ==> t[i] == '0' || t[i] == '1'
  }

  /** The deque is `t[d..n - d]`, and the `d` outer pairs of `t` are mirrored. */
  ghost predicate Framed(t: seq<char>, dq: seq<char>, d: int, n: int)
  {
    |t| == n && 0 <= d && 2 * d <= n && dq == t[d..n - d] && Binary(t) &&
    forall i :: 0 <= i < d ==> Mirrored(t, i)
  }

  /** The loop state: besides the frame, `t` is `s` with the recorded insertions made. */
  ghost predicate State(s: seq<char>, t: seq<char>, dq: seq<char>, d: int, n: int, ans: seq<int>)
  {
    Framed(t, dq, d, n) && t == Apply(s, ans) && InRange(s, ans) && Balanced(dq)
  }

  lemma Recorded(s: seq<char>, ans: seq<int>, p: int)
    requires InRange(s, ans) && 0 <= p <= |Apply(s, ans)|
    ensures Apply(s, ans + [p]) == Insert(Apply(s, ans), p)
    ensures InRange(s, ans + [p])
  {
    var ps := ans + [p];
    assert ps[..|ps| - 1] == ans;
    forall k | 0 <= k < |ps| ensures 0 <= ps[k] <= |Apply(s, ps[..k])| {
      if k < |ans| {
        assert ps[..k] == ans[..k];
      }
    }
  }

  /** Where each character of `t` lands after an insertion at `p`. */
  lemma InsertAt(t: seq<char>, p: int)
    requires 0 <= p <= |t|
    ensures |Insert(t, p)| == |t| + 2
    ensures forall k :: 0 <= k < p ==> Insert(t, p)[k] == t[k]
    ensures Insert(t, p)[p] == '0' && Insert(t, p)[p + 1] == '1'
    ensures forall k :: p <= k < |t| ==> Insert(t, p)[k + 2] == t[k]
  {
  }

  /** An insertion inside the window keeps `t` binary and its `d` outer pairs mirrored. */
  lemma OuterKept(t: seq<char>, p: int, d: int, n: int)
    requires |t| == n && 0 <= d <= p <= n - d && Binary(t)
    requires forall i :: 0 <= i < d ==> Mirrored(t, i)
    ensures Binary(Insert(t, p))
    ensures forall i :: 0 <= i < d ==> Mirrored(Insert(t, p), i)
  {
    var t' := Insert(t, p);
    InsertAt(t, p);
    forall k | 0 <= k < n + 2 ensures t'[k] == '0' || t'[k] == '1' {
      if k >= p + 2 {
        assert t'[k] == t[k - 2];
      }
    }
    forall i | 0 <= i < d ensures Mirrored(t', i) {
      assert Mirrored(t, i);
      assert t'[i] == t[i] && t'[n + 1 - i] == t[n - 1 - i];
    }
  }

  /** "01" inserted just after the window `t[d..n - d]` extends it at the back. */
  lemma BackShape(t: seq<char>, dq: seq<char>, d: int, n: int)
    requires Framed(t, dq, d, n)
    ensures Framed(Insert(t, n - d), dq + ['0'] + ['1'], d, n + 2)
  {
    OuterKept(t, n - d, d, n);
    assert Insert(t, n - d)[d..n + 2 - d] == dq + ['0'] + ['1'];
  }

  /** "01" inserted just before the window `t[d..n - d]` extends it at the front. */
  lemma FrontShape(t: seq<char>, dq: seq<char>, d: int, n: int)
    requires Framed(t, dq, d, n)
    ensures Framed(Insert(t, d), ['0'] + (['1'] + dq), d, n + 2)
  {
    OuterKept(t, d, d, n);
    assert Insert(t, d)[d..n + 2 - d] == ['0'] + (['1'] + dq);
  }

  /** Adding one '0' and one '1' keeps a string balanced. */
  lemma PairBalanced(dq: seq<char>, dq': seq<char>)
    requires Balanced(dq)
    requires dq' == dq + ['0'] + ['1'] || dq' == ['0'] + (['1'] + dq)
    ensures Balanced(dq')
  {
    ZerosOfOne('0');
    ZerosOfOne('1');
    if dq' == dq + ['0'] + ['1'] {
      ZerosAppend(dq + ['0'], ['1']);
      ZerosAppend(dq, ['0']);
    } else {
      ZerosAppend(['0'], ['1'] + dq);
      ZerosAppend(['1'], dq);
    }
  }

  /** Lines 36-39 and 45: "01" at the back is an insertion at `n - d`. */
  lemma InsertBackStep(s: seq<char>, t: seq<char>, dq: seq<char>, d: int, n: int, ans: seq<int>)
    requires State(s, t, dq, d, n, ans)
    ensures State(s, Insert(t, n - d), dq + ['0'] + ['1'], d, n + 2, ans + [n - d])
  {
    BackShape(t, dq, d, n);
    Recorded(s, ans, n - d);
    PairBalanced(dq, dq + ['0'] + ['1']);
  }

  /** Lines 40-45: "01" at the front is an insertion at `d`. */
  lemma InsertFrontStep(s: seq<char>, t: seq<char>, dq: seq<char>, d: int, n: int, ans: seq<int>)
    requires State(s, t, dq, d, n, ans)
    ensures State(s, Insert(t, d), ['0'] + (['1'] + dq), d, n + 2, ans + [d])
  {
    FrontShape(t, dq, d, n);
    Recorded(s, ans, d);
    PairBalanced(dq, ['0'] + (['1'] + dq));
  }

  /** Differing ends of the window are a mirrored pair of `t`; the inner window stays framed. */
  lemma PeelShape(t: seq<char>, dq: seq<char>, d: int, n: int)
    requires Framed(t, dq, d, n) && dq != [] && dq[0] != dq[|dq| - 1]
    ensures Framed(t, dq[1..|dq| - 1], d + 1, n)
    ensures (dq[0] == '0') != (dq[|dq| - 1] == '0')
  {
    assert dq[0] == t[d] && dq[|dq| - 1] == t[n - 1 - d];
    assert Mirrored(t, d);
    assert |dq| >= 2;
    var inner := t[d + 1..n - (d + 1)];
    forall k | 0 <= k < |inner| ensures dq[1..|dq| - 1][k] == inner[k] {
      assert dq[k + 1] == t[d + 1 + k];
    }
  }

  /** Peeling one '0' and one other character off the ends keeps the deque balanced. */
  lemma PeelBalanced(dq: seq<char>)
    requires Balanced(dq) && |dq| >= 2 && (dq[0] == '0') != (dq[|dq| - 1] == '0')
    ensures Balanced(dq[1..|dq| - 1])
  {
    var mid := dq[1..|dq| - 1];
    assert dq == [dq[0]] + mid + [dq[|dq| - 1]];
    ZerosAppend([dq[0]] + mid, [dq[|dq| - 1]]);
    ZerosAppend([dq[0]], mid);
    ZerosOfOne(dq[0]);
    ZerosOfOne(dq[|dq| - 1]);
  }

  /** Lines 47-51: differing ends of the deque are a mirrored pair of `t`. */
  lemma PopStep(s: seq<char>, t: seq<char>, dq: seq<char>, d: int, n: int, ans: seq<int>)
    requires State(s, t, dq, d, n, ans) && dq != [] && dq[0] != dq[|dq| - 1]
    ensures State(s, t, dq[1..|dq| - 1], d + 1, n, ans)
  {
    PeelShape(t, dq, d, n);
    PeelBalanced(dq);
  }

  /** An empty deque means every pair of `t` is mirrored. */
  lemma EmptyIsGood(s: seq<char>, t: seq<char>, d: int, n: int, ans: seq<int>)
    requires State(s, t, [], d, n, ans)
    ensures Good(Apply(s, ans))
  {
    forall i | 0 <= i < n ensures Mirrored(t, i) {
      if i >= d {
        assert Mirrored(t, n - 1 - i);
      }
    }
  }

  /**
    Lines 35-45: equal ends get "01" inserted, at the back behind two '0'
    ends and at the front before two '1' ends; `p` is the recorded
    position. The new ends differ, and peeling them makes progress.
   */
  method InsertPair(ghost s: seq<char>, ghost t: seq<char>, dq: seq<char>, d: int, n: int, ans: seq<int>)
    returns (dq': seq<char>, n': int, p: int, ghost t': seq<char>)
    requires State(s, t, dq, d, n, ans) && dq != [] && dq[0] == dq[|dq| - 1]
    ensures State(s, t', dq', d, n', ans + [p])
    ensures n' == n + 2 && p == (if dq[0] == '0' then n - d else d)
    ensures dq'[0] != dq'[|dq'| - 1] && Progress(dq'[1..|dq'| - 1], dq)
  {
    n' := n + 2;
    if dq[0] == '0' {
      dq' := dq + ['0'];
      dq' := dq' + ['1'];
      p := n - d;
      t' := Insert(t, p);
      InsertBackStep(s, t, dq, d, n, ans);
      BackRotates(dq);
    } else {
      dq' := ['1'] + dq;
      dq' := ['0'] + dq';
      p := d;
      t' := Insert(t, p);
      InsertFrontStep(s, t, dq, d, n, ans);
      FrontRotates(dq);
    }
  }

  /**
    Lines 47-51: peel the ends while they differ; each peeled pair is a
    mirrored pair of `t`, and `d` counts them.
   */
  method PeelEnds(ghost s: seq<char>, ghost t: seq<char>, dq0: seq<char>, d0: int, ghost n: int, ghost ans: seq<int>)
    returns (dq: seq<char>, d: int)
    requires State(s, t, dq0, d0, n, ans)
    ensures State(s, t, dq, d, n, ans)
    ensures dq == [] || dq[0] == dq[|dq| - 1]
    ensures 2 * (d - d0) == |dq0| - |dq|
    ensures dq == dq0 || (|dq0| >= 2 && dq == dq0[1..|dq0| - 1]) || |dq| + 4 <= |dq0|
  {
    dq, d := dq0, d0;
    while dq != [] && dq[0] != dq[|dq| - 1]
      invariant State(s, t, dq, d, n, ans)
      invariant 2 * (d - d0) == |dq0| - |dq|
      invariant dq == dq0 || (|dq0| >= 2 && dq == dq0[1..|dq0| - 1]) || |dq| + 4 <= |dq0|
      decreases |dq|
    {
      PopStep(s, t, dq, d, n, ans);
      ghost var peeled := dq[1..|dq| - 1];
      dq := dq[1..];
      dq := dq[..|dq| - 1];
      assert dq == peeled;
      d := d + 1;
    }
  }

  /** One round of the loop (an optional insertion, then peeling) makes progress. */
  lemma PeelProgress(dq0: seq<char>, dq1: seq<char>, dq: seq<char>)
    requires |dq1| <= |dq0| + 2
    requires dq1 != [] && dq1[0] != dq1[|dq1| - 1] && Progress(dq1[1..|dq1| - 1], dq0)
    requires dq == [] || dq[0] == dq[|dq| - 1]
    requires dq == dq1 || (|dq1| >= 2 && dq == dq1[1..|dq1| - 1]) || |dq| + 4 <= |dq1|
    ensures Progress(dq, dq0)
  {
  }

  /**
    Lines 16-52. With unequal counts the answer is -1, and indeed no
    insertions make the string good. Otherwise the recorded positions,
    applied in order, make it good.
   */
  method MakeGood(s: seq<char>) returns (possible: bool, ans: seq<int>)
    requires Binary(s)
    ensures possible <==> Balanced(s)
    ensures !possible ==> ans == [] && forall ps :: !Good(Apply(s, ps))
    ensures possible ==> InRange(s, ans) && Good(Apply(s, ans))
  {
    var no0, no1 := CountChars(s);
    if no0 != no1 {
      forall ps ensures !Good(Apply(s, ps)) {
        NeverGood(s, ps);
      }
      return false, [];
    }
    possible := true;
    ans := [];
    var dq := s;
    var n := |s|;
    var d := 0;
    ghost var t := s;
    assert s[0..|s|] == s;
    while dq != []
      invariant State(s, t, dq, d, n, ans)
      decreases |dq|, Potential(dq)
    {
      ghost var dq0 := dq;
      if dq[0] == dq[|dq| - 1] {
        var p;
        dq, n, p, t := InsertPair(s, t, dq, d, n, ans);
        ans := ans + [p];
      }
      ghost var dq1 := dq;
      assert |dq1| <= |dq0| + 2;
      assert dq1 != [] && dq1[0] != dq1[|dq1| - 1] && Progress(dq1[1..|dq1| - 1], dq0);
      dq, d := PeelEnds(s, t, dq, d, n, ans);
      PeelProgress(dq0, dq1, dq);
    }
    EmptyIsGood(s, t, d, n, ans);
  }
}
