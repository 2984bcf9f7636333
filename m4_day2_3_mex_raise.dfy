/**
  lvl2/module_4/day2_3.cpp: can one operation, setting a contiguous part of
  the array to a single value, raise the MEX by exactly one? The program
  sets the values it chooses to the current MEX and compares MEXes. The
  `map<long long, int>` of frequencies is a multiset: `freq[v]` is the
  number of occurrences of `v`, zero when absent.
 */
module MexRaise {

  /** `m` is the MEX of `freq`: every value below it occurs, `m` does not. */
  predicate IsMex(freq: multiset<int>, m: int)
  {
    m >= 0 && freq[m] == 0 && forall v :: 0 <= v < m ==> freq[v] > 0
  }

  /** Only one number is the MEX. */
  lemma MexUnique(freq: multiset<int>, m: int, m': int)
    requires IsMex(freq, m) && IsMex(freq, m')
    ensures m == m'
  {
  }

  /** Lines 18-21 and 61-64: the frequencies of the array. */
  method CountAll(a: array<int>) returns (freq: multiset<int>)
    ensures freq == multiset(a[..])
  {
    freq := multiset{};
    for i := 0 to a.Length
      invariant freq == multiset(a[..i])
    {
      assert a[..i + 1] == a[..i] + [a[i]];
      freq := freq[a[i] := freq[a[i]] + 1];
    }
    assert a[..a.Length] == a[..];
  }

  /** Lines 23-26 and 66-69: count up from 0 to the first absent value. */
  method ComputeMex(freq: multiset<int>) returns (mex: int)
    ensures IsMex(freq, mex)
  {
    mex := 0;
    while freq[mex] > 0
      invariant mex >= 0 && forall v :: 0 <= v < mex ==> freq[v] > 0
      decreases |set v | v in freq && v >= mex|
    {
      var above := set v | v in freq && v >= mex;
      assert mex in above;
      assert (set v | v in freq && v >= mex + 1) == above - {mex};
      mex := mex + 1;
    }
  }

  /**
    Lines 31-40: `l` and `r` are the first and last occurrence of
    `mex + 1`, and every position from `l` to `r` becomes `mex`.
   */
  method CoverOccurrences(a: array<int>, mex: int) returns (l: int, r: int)
    requires mex + 1 in a[..]
    modifies a
    ensures 0 <= l <= r < a.Length
    ensures old(a[l]) == mex + 1 && old(a[r]) == mex + 1
    ensures forall i :: 0 <= i < l ==> old(a[i]) != mex + 1
    ensures forall i :: r < i < a.Length ==> old(a[i]) != mex + 1
    ensures forall i :: 0 <= i < a.Length ==> a[i] == if l <= i <= r then mex else old(a[i])
  {
    l, r := -1, -1;
    for i := 0 to a.Length
      invariant -1 <= l <= r < i
      invariant l == -1 <==> forall p :: 0 <= p < i ==> a[p] != mex + 1
      invariant l >= 0 ==> a[l] == mex + 1 && a[r] == mex + 1
      invariant l >= 0 ==> forall p :: 0 <= p < l ==> a[p] != mex + 1
      invariant forall p :: r < p < i ==> a[p] != mex + 1
    {
      if a[i] == mex + 1 {
        if l == -1 {
          l := i;
        }
        r := i;
      }
    }
    ghost var before := a[..];
    for i := l to r + 1
      invariant forall p :: 0 <= p < a.Length ==> a[p] == if l <= p < i then mex else before[p]
    {
      a[i] := mex;
    }
  }

  /**
    Lines 42-49: the first element that occurs more than once and is below
    `mex` becomes `mex`; `idx` is its position, `-1` when there is none.
   */
  method ReplaceDuplicate(a: array<int>, freq: multiset<int>, mex: int) returns (idx: int)
    requires freq == multiset(a[..])
    modifies a
    ensures -1 <= idx < a.Length
    ensures forall i :: 0 <= i < a.Length && (idx == -1 || i < idx) ==> !(freq[old(a[i])] > 1 && old(a[i]) < mex)
    ensures idx == -1 ==> a[..] == old(a[..])
    ensures idx >= 0 ==> freq[old(a[idx])] > 1 && old(a[idx]) < mex && a[..] == old(a[..])[idx := mex]
  {
    idx := -1;
    for i := 0 to a.Length
      invariant forall p :: 0 <= p < i ==> !(freq[a[p]] > 1 && a[p] < mex)
    {
      if freq[a[i]] > 1 && a[i] < mex {
        a[i] := mex;
        idx := i;
        return;
      }
    }
  }

  /**
    Lines 50-57: failing that, the first element above `mex + 1` becomes
    `mex`; `idx` is its position, `-1` when there is none.
   */
  method ReplaceLarge(a: array<int>, mex: int) returns (idx: int)
    modifies a
    ensures -1 <= idx < a.Length
    ensures forall i :: 0 <= i < a.Length && (idx == -1 || i < idx) ==> old(a[i]) <= mex + 1
    ensures idx == -1 ==> a[..] == old(a[..])
    ensures idx >= 0 ==> old(a[idx]) > mex + 1 && a[..] == old(a[..])[idx := mex]
  {
    idx := -1;
    for i := 0 to a.Length
      invariant forall p :: 0 <= p < i ==> a[p] <= mex + 1
    {
      if a[i] > mex + 1 {
        a[i] := mex;
        idx := i;
        return;
      }
    }
  }

  /** The first position whose element satisfies `p`, or `|a|` when none does. */
  function FirstWhere(a: seq<int>, p: int -> bool): (i: nat)
    ensures i <= |a|
    ensures i < |a| ==> p(a[i])
    ensures forall k :: 0 <= k < i ==> !p(a[k])
  {
    if a == [] then 0
    else if p(a[0]) then 0
    else
      var j := FirstWhere(a[1..], p);
      assert forall k :: 0 < k <= j ==> a[k] == a[1..][k - 1];
      1 + j
  }

  /** The last position holding `v`, or `-1` when none does. */
  function LastOf(a: seq<int>, v: int): (r: int)
    ensures -1 <= r < |a|
    ensures r >= 0 ==> a[r] == v
    ensures forall k :: r < k < |a| ==> a[k] != v
  {
    if a == [] then -1
    else if a[|a| - 1] == v then |a| - 1
    else LastOf(a[..|a| - 1], v)
  }

  /**
    The array after the program's one operation, defined position by
    position: with `mex + 1` present, everything from its first to its last
    occurrence becomes `mex`; otherwise the first element below `mex` that
    occurs more than once becomes `mex`, failing that the first element
    above `mex + 1` does, and failing both nothing changes.
   */
  function Operated(a: seq<int>, mex: int): (b: seq<int>)
    ensures |b| == |a|
  {
    var l := FirstWhere(a, x => x == mex + 1);
    if l < |a| then
      var r := LastOf(a, mex + 1);
      seq(|a|, i requires 0 <= i < |a| => if l <= i <= r then mex else a[i])
    else
      var d := FirstWhere(a, x => multiset(a)[x] > 1 && x < mex);
      if d < |a| then a[d := mex]
      else
        var g := FirstWhere(a, x => x > mex + 1);
        if g < |a| then a[g := mex] else a
  }

  /**
    The operation only writes `mex`, removes every `mex + 1`, and changes
    the array exactly when `mex + 1` occurs, some value below `mex` occurs
    twice, or some value exceeds `mex + 1`.
   */
  lemma OperatedShape(a: seq<int>, mex: int)
    requires IsMex(multiset(a), mex)
    ensures forall i :: 0 <= i < |a| ==> Operated(a, mex)[i] == a[i] || Operated(a, mex)[i] == mex
    ensures mex + 1 !in Operated(a, mex)
    ensures Operated(a, mex) != a <==>
      mex + 1 in a
      || (exists i :: 0 <= i < |a| && multiset(a)[a[i]] > 1 && a[i] < mex)
      || (exists i :: 0 <= i < |a| && a[i] > mex + 1)
  {
    var b := Operated(a, mex);
    assert forall x :: x in a ==> x in multiset(a);
    var l := FirstWhere(a, x => x == mex + 1);
    if l < |a| {
      assert b[l] == mex != a[l];
    } else {
      assert mex + 1 !in a;
      var d := FirstWhere(a, x => multiset(a)[x] > 1 && x < mex);
      if d < |a| {
        assert b[d] == mex != a[d];
      } else {
        var g := FirstWhere(a, x => x > mex + 1);
        if g < |a| {
          assert b[g] == mex != a[g];
        }
      }
    }
  }

  /**
    Lines 28-59: with `mex + 1` present its occurrences are covered,
    otherwise at most one element is replaced: the array afterwards is
    `Operated` of the array before.
   */
  method ApplyOperation(arr: array<int>, freq: multiset<int>, mex: int)
    requires freq == multiset(arr[..])
    modifies arr
    ensures arr[..] == Operated(old(arr[..]), mex)
  {
    ghost var a := arr[..];
    if freq[mex + 1] > 0 {
      assert mex + 1 in a;
      var l, r := CoverOccurrences(arr, mex);
      assert l == FirstWhere(a, x => x == mex + 1);
      assert r == LastOf(a, mex + 1);
      assert forall i :: 0 <= i < |a| ==> arr[..][i] == Operated(a, mex)[i];
    } else {
      assert forall x :: x in a ==> x in multiset(a);
      assert FirstWhere(a, x => x == mex + 1) == |a|;
      var idx := ReplaceDuplicate(arr, freq, mex);
      if idx == -1 {
        assert FirstWhere(a, x => multiset(a)[x] > 1 && x < mex) == |a|;
        idx := ReplaceLarge(arr, mex);
        if idx == -1 {
          assert FirstWhere(a, x => x > mex + 1) == |a|;
        } else {
          assert FirstWhere(a, x => x > mex + 1) == idx;
        }
      } else {
        assert FirstWhere(a, x => multiset(a)[x] > 1 && x < mex) == idx;
      }
    }
  }

  /**
    After such an operation the MEX is `mex + 1` exactly when something
    changed and every value below `mex` survived.
   */
  lemma RaisedExactly(a: seq<int>, b: seq<int>, mex: int)
    requires IsMex(multiset(a), mex)
    requires |b| == |a| && forall i :: 0 <= i < |a| ==> b[i] == a[i] || b[i] == mex
    requires mex + 1 !in b
    ensures IsMex(multiset(b), mex + 1) <==> b != a && forall v :: 0 <= v < mex ==> v in b
  {
    if b != a {
      var i :| 0 <= i < |a| && b[i] != a[i];
      assert b[i] == mex;
    }
    if IsMex(multiset(b), mex + 1) {
      assert mex in multiset(b);
      assert mex !in multiset(a);
      forall v | 0 <= v < mex ensures v in b {
        assert v in multiset(b);
      }
    } else if b != a && forall v :: 0 <= v < mex ==> v in b {
      forall v | 0 <= v < mex + 1 ensures multiset(b)[v] > 0 {
        assert v in b;
      }
    }
  }

  /** The verdict on the array after the operation, in terms of the array before it. */
  lemma OperatedVerdict(a: seq<int>, mex: int, b: seq<int>)
    requires IsMex(multiset(a), mex) && b == Operated(a, mex)
    ensures |b| == |a| && forall i :: 0 <= i < |a| ==> b[i] == a[i] || b[i] == mex
    ensures mex + 1 !in b
    ensures IsMex(multiset(b), mex + 1) <==> b != a && forall v :: 0 <= v < mex ==> v in b
  {
    OperatedShape(a, mex);
    RaisedExactly(a, b, mex);
  }

  /**
    Lines 13-75 for one test case. `mex` is the MEX of `a` and `b` is
    `Operated(a, mex)`, the array after the program's operation. "YES"
    exactly when the MEX of `b` is `mex + 1`, which is when something
    changed and every value below `mex` is still present.
   */
  method MexPlusOne(a: seq<int>) returns (yes: bool, mex: int, b: seq<int>)
    ensures IsMex(multiset(a), mex)
    ensures b == Operated(a, mex)
    ensures |b| == |a| && forall i :: 0 <= i < |a| ==> b[i] == a[i] || b[i] == mex
    ensures mex + 1 !in b
    ensures yes <==> IsMex(multiset(b), mex + 1)
    ensures yes <==> b != a && forall v :: 0 <= v < mex ==> v in b
  {
    var arr := new int[|a|](i requires 0 <= i < |a| => a[i]);
    assert arr[..] == a;
    yes, mex := Solve(arr);
    b := arr[..];
    OperatedVerdict(a, mex, b);
  }

  /** Lines 18-75 on the array itself: count, find the MEX, operate, recount. */
  method Solve(arr: array<int>) returns (yes: bool, mex: int)
    modifies arr
    ensures IsMex(multiset(old(arr[..])), mex)
    ensures arr[..] == Operated(old(arr[..]), mex)
    ensures yes <==> IsMex(multiset(arr[..]), mex + 1)
  {
    var freq := CountAll(arr);
    mex := ComputeMex(freq);
    ApplyOperation(arr, freq, mex);
    yes := MexIs(arr, mex + 1);
  }

  /** Lines 61-73: recount the array and compare its MEX with `target`. */
  method MexIs(arr: array<int>, target: int) returns (yes: bool)
    ensures yes <==> IsMex(multiset(arr[..]), target)
  {
    var newFreq := CountAll(arr);
    var newMex := ComputeMex(newFreq);
    yes := newMex == target;
    if IsMex(newFreq, target) {
      MexUnique(newFreq, newMex, target);
    }
  }
}
