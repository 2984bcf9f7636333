/**
  lvl2/module_4/day2_1.cpp: `b` is `a` with one subarray sorted; report the
  longest subarray whose sorting turns `a` into `b`. It spans the first to
  the last index where the two differ, widened over the non-decreasing run
  of `b` on either side.
 */
module SortWindow {

  /** Lines 21-25: the first index where `a` and `b` differ, `|a|` if none. */
  method FirstDiff(a: seq<int>, b: seq<int>) returns (l: nat)
    requires |a| == |b|
    ensures l <= |a|
    ensures forall i :: 0 <= i < l ==> a[i] == b[i]
    ensures l < |a| ==> a[l] != b[l]
  {
    l := 0;
    while l < |a|
      invariant l <= |a| && forall i :: 0 <= i < l ==> a[i] == b[i]
    {
      if b[l] != a[l] {
        break;
      }
      l := l + 1;
    }
  }

  /** Lines 26-30: the last index where `a` and `b` differ, `-1` if none. */
  method LastDiff(a: seq<int>, b: seq<int>) returns (r: int)
    requires |a| == |b|
    ensures -1 <= r < |a|
    ensures forall i :: r < i < |a| ==> a[i] == b[i]
    ensures r >= 0 ==> a[r] != b[r]
  {
    r := |a| - 1;
    while r >= 0
      invariant -1 <= r < |a| && forall i :: r < i < |a| ==> a[i] == b[i]
    {
      if b[r] != a[r] {
        break;
      }
      r := r - 1;
    }
  }

  /**
    `l..r` covers every index where `a` and `b` differ; `b` does not
    decrease from `l` up to the first such index, nor from the last one up
    to `r`; and neither end can move further out.
   */
  predicate IsWindow(a: seq<int>, b: seq<int>, l: int, r: int)
    requires |a| == |b|
  {
    0 <= l <= r < |b| &&
    (forall i :: 0 <= i < |a| && a[i] != b[i] ==> l <= i <= r) &&
    (forall i :: l <= i < r && a[..i + 1] == b[..i + 1] ==> b[i] <= b[i + 1]) &&
    (forall i :: l < i <= r && a[i..] == b[i..] ==> b[i - 1] <= b[i]) &&
    (l == 0 || b[l - 1] > b[l]) &&
    (r == |b| - 1 || b[r + 1] < b[r])
  }

  /** The window is determined by `a` and `b`: two windows coincide. */
  lemma WindowUnique(a: seq<int>, b: seq<int>, l: int, r: int, l': int, r': int)
    requires |a| == |b| && a != b
    requires IsWindow(a, b, l, r) && IsWindow(a, b, l', r')
    ensures l == l' && r == r'
  {
    var d :| 0 <= d < |a| && a[d] != b[d];
    LeftEndUnique(a, b, l, r, l', r', d);
    LeftEndUnique(a, b, l', r', l, r, d);
    RightEndUnique(a, b, l, r, l', r', d);
    RightEndUnique(a, b, l', r', l, r, d);
  }

  /** Below a window's left end, `a` and `b` agree. */
  lemma PrefixAgrees(a: seq<int>, b: seq<int>, l: int, r: int, i: int)
    requires |a| == |b| && IsWindow(a, b, l, r) && 0 <= i < l
    ensures a[..i + 1] == b[..i + 1]
  {
    assert forall j :: 0 <= j <= i ==> a[j] == b[j];
  }

  /** Above a window's right end, `a` and `b` agree. */
  lemma SuffixAgrees(a: seq<int>, b: seq<int>, l: int, r: int, i: int)
    requires |a| == |b| && IsWindow(a, b, l, r) && r < i < |a|
    ensures a[i..] == b[i..]
  {
    assert forall j :: i <= j < |a| ==> a[j] == b[j];
  }

  /** A window's left end is not below another's: the other would stop at a descent inside the run. */
  lemma LeftEndUnique(a: seq<int>, b: seq<int>, l: int, r: int, l': int, r': int, d: int)
    requires |a| == |b| && IsWindow(a, b, l, r) && IsWindow(a, b, l', r')
    requires 0 <= d < |a| && a[d] != b[d]
    ensures l' <= l
  {
    if 0 < l' {
      var i := l' - 1;
      PrefixAgrees(a, b, l', r', i);
      assert l' <= d <= r;
    }
  }

  /** A window's right end is not beyond another's, symmetrically. */
  lemma RightEndUnique(a: seq<int>, b: seq<int>, l: int, r: int, l': int, r': int, d: int)
    requires |a| == |b| && IsWindow(a, b, l, r) && IsWindow(a, b, l', r')
    requires 0 <= d < |a| && a[d] != b[d]
    ensures r <= r'
  {
    if r' < |a| - 1 {
      var i := r' + 1;
      SuffixAgrees(a, b, l', r', i);
      assert l <= d <= r';
    }
  }

  /**
    Lines 20-37 for `a != b`; the program prints `l + 1` and `r + 1`. The
    widening loops test the index bound before reading `b[r + 1]` and
    `b[l - 1]`.
   */
  method Window(a: seq<int>, b: seq<int>) returns (l: nat, r: nat)
    requires |a| == |b| && a != b
    ensures IsWindow(a, b, l, r)
  {
    var n := |a|;
    var l0 := FirstDiff(a, b);
    var r0 := LastDiff(a, b);
    assert 0 <= l0 <= r0;
    r := r0;
    while r < n - 1 && b[r + 1] >= b[r]
      invariant r0 <= r < n
      invariant forall i :: r0 < i <= r ==> b[i - 1] <= b[i]
    {
      r := r + 1;
    }
    l := l0;
    while l > 0 && b[l - 1] <= b[l]
      invariant 0 <= l <= l0
      invariant forall i :: l <= i < l0 ==> b[i] <= b[i + 1]
    {
      l := l - 1;
    }
    WindowOf(a, b, l0, r0, l, r);
  }

  /** A prefix through index `i` on which `a` and `b` agree ends before their first difference. */
  lemma PrefixBeforeDiff(a: seq<int>, b: seq<int>, l0: int, i: int)
    requires |a| == |b| && 0 <= l0 < |a| && a[l0] != b[l0] && 0 <= i < |a|
    ensures a[..i + 1] == b[..i + 1] ==> i < l0
  {
    if l0 <= i {
      assert a[..i + 1][l0] != b[..i + 1][l0];
    }
  }

  /** A suffix from index `i` on which `a` and `b` agree starts after their last difference. */
  lemma SuffixAfterDiff(a: seq<int>, b: seq<int>, r0: int, i: int)
    requires |a| == |b| && 0 <= r0 < |a| && a[r0] != b[r0] && 0 <= i < |a|
    ensures a[i..] == b[i..] ==> r0 < i
  {
    if i <= r0 {
      assert a[i..][r0 - i] != b[i..][r0 - i];
    }
  }

  /** The differences span `l0..r0`; widening over the runs of `b` to `l..r` gives the window. */
  lemma WindowOf(a: seq<int>, b: seq<int>, l0: int, r0: int, l: int, r: int)
    requires |a| == |b| && 0 <= l0 <= r0 < |a|
    requires (forall i :: 0 <= i < l0 ==> a[i] == b[i]) && a[l0] != b[l0]
    requires (forall i :: r0 < i < |a| ==> a[i] == b[i]) && a[r0] != b[r0]
    requires 0 <= l <= l0 && r0 <= r < |a|
    requires forall i :: l <= i < l0 ==> b[i] <= b[i + 1]
    requires forall i :: r0 < i <= r ==> b[i - 1] <= b[i]
    requires (l == 0 || b[l - 1] > b[l]) && (r == |b| - 1 || b[r + 1] < b[r])
    ensures IsWindow(a, b, l, r)
  {
    forall i | l <= i < r && a[..i + 1] == b[..i + 1] ensures b[i] <= b[i + 1] {
      PrefixBeforeDiff(a, b, l0, i);
    }
    forall i | l < i <= r && a[i..] == b[i..] ensures b[i - 1] <= b[i] {
      SuffixAfterDiff(a, b, r0, i);
    }
  }
}
