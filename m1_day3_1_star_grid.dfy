/**
  lvl2/module_1/day3_1.cpp: an `n x n` grid of `*` and `.` cells, a 2-D
  inclusion–exclusion prefix table over it, and rectangle star counts
  answered from four table entries.
 */
module StarGrid {

  /** The grid is square: `n` rows of `n` cells each. */
  predicate Square(g: seq<seq<char>>)
  {
    forall i :: 0 <= i < |g| ==> |g[i]| == |g|
  }

  /** Line 16: a star counts 1, anything else 0. */
  function Cell(g: seq<seq<char>>, i: nat, j: nat): (c: int)
    requires Square(g) && i < |g| && j < |g|
    ensures c == 0 || c == 1
    ensures c == 1 <==> g[i][j] == '*'
  {
    if g[i][j] == '*' then 1 else 0
  }

  /** The stars in row `i`, columns `c0..c1-1`. */
  function RowStars(g: seq<seq<char>>, i: nat, c0: nat, c1: nat): int
    requires Square(g) && i < |g| && c0 <= c1 <= |g|
    decreases c1
  {
    if c1 == c0 then 0 else RowStars(g, i, c0, c1 - 1) + Cell(g, i, c1 - 1)
  }

  /** The stars in rows `r0..r1-1` and columns `c0..c1-1`. */
  function Stars(g: seq<seq<char>>, r0: nat, r1: nat, c0: nat, c1: nat): int
    requires Square(g) && r0 <= r1 <= |g| && c0 <= c1 <= |g|
    decreases r1
  {
    if r1 == r0 then 0 else Stars(g, r0, r1 - 1, c0, c1) + RowStars(g, r1 - 1, c0, c1)
  }

  lemma {:induction false} RowStarsBounds(g: seq<seq<char>>, i: nat, c0: nat, c1: nat)
    requires Square(g) && i < |g| && c0 <= c1 <= |g|
    ensures 0 <= RowStars(g, i, c0, c1) <= c1 - c0
    decreases c1
  {
    if c1 > c0 {
      RowStarsBounds(g, i, c0, c1 - 1);
    }
  }

  lemma {:induction false} RowStarsSplit(g: seq<seq<char>>, i: nat, c0: nat, cm: nat, c1: nat)
    requires Square(g) && i < |g| && c0 <= cm <= c1 <= |g|
    ensures RowStars(g, i, c0, c1) == RowStars(g, i, c0, cm) + RowStars(g, i, cm, c1)
    decreases c1
  {
    if c1 > cm {
      RowStarsSplit(g, i, c0, cm, c1 - 1);
    }
  }

  /** A rectangle splits into the rows above and below any middle row. */
  lemma {:induction false} StarsSplitRows(g: seq<seq<char>>, r0: nat, rm: nat, r1: nat, c0: nat, c1: nat)
    requires Square(g) && r0 <= rm <= r1 <= |g| && c0 <= c1 <= |g|
    ensures Stars(g, r0, r1, c0, c1) == Stars(g, r0, rm, c0, c1) + Stars(g, rm, r1, c0, c1)
    decreases r1
  {
    if r1 > rm {
      StarsSplitRows(g, r0, rm, r1 - 1, c0, c1);
    }
  }

  /** A rectangle splits into the columns left and right of any middle column. */
  lemma {:induction false} StarsSplitCols(g: seq<seq<char>>, r0: nat, r1: nat, c0: nat, cm: nat, c1: nat)
    requires Square(g) && r0 <= r1 <= |g| && c0 <= cm <= c1 <= |g|
    ensures Stars(g, r0, r1, c0, c1) == Stars(g, r0, r1, c0, cm) + Stars(g, r0, r1, cm, c1)
    decreases r1
  {
    if r1 > r0 {
      StarsSplitCols(g, r0, r1 - 1, c0, cm, c1);
      RowStarsSplit(g, r1 - 1, c0, cm, c1);
    }
  }

  /** A rectangle holds between 0 and its area of stars. */
  lemma {:induction false} StarsBounds(g: seq<seq<char>>, r0: nat, r1: nat, c0: nat, c1: nat)
    requires Square(g) && r0 <= r1 <= |g| && c0 <= c1 <= |g|
    ensures 0 <= Stars(g, r0, r1, c0, c1) <= (r1 - r0) * (c1 - c0)
    decreases r1
  {
    if r1 > r0 {
      StarsBounds(g, r0, r1 - 1, c0, c1);
      RowStarsBounds(g, r1 - 1, c0, c1);
      assert (r1 - r0) * (c1 - c0) == (r1 - 1 - r0) * (c1 - c0) + (c1 - c0);
    }
  }

  /** Prefix rectangles grow with both corners. */
  lemma PrefixMonotone(g: seq<seq<char>>, i: nat, j: nat, i2: nat, j2: nat)
    requires Square(g) && i <= i2 <= |g| && j <= j2 <= |g|
    ensures Stars(g, 0, i, 0, j) <= Stars(g, 0, i2, 0, j2)
  {
    StarsSplitRows(g, 0, i, i2, 0, j2);
    StarsSplitCols(g, 0, i, 0, j, j2);
    StarsBounds(g, i, i2, 0, j2);
    StarsBounds(g, 0, i, j, j2);
  }

  /** Lines 11-18: the 0/1 matrix of the grid. */
  method ReadGrid(g: seq<seq<char>>) returns (a: array2<int>)
    requires Square(g)
    ensures fresh(a)
    ensures a.Length0 == |g| && a.Length1 == |g|
    ensures forall i, j :: 0 <= i < |g| && 0 <= j < |g| ==> a[i, j] == Cell(g, i, j)
  {
    var n := |g|;
    a := new int[n, n];
    for i := 0 to n
      invariant forall p, q :: 0 <= p < i && 0 <= q < n ==> a[p, q] == Cell(g, p, q)
    {
      for j := 0 to n
        invariant forall p, q :: 0 <= p < i && 0 <= q < n ==> a[p, q] == Cell(g, p, q)
        invariant forall q :: 0 <= q < j ==> a[i, q] == Cell(g, i, q)
      {
        a[i, j] := if g[i][j] == '*' then 1 else 0;
      }
    }
  }

  /** Lines 21-29: `pre[i][j]` counts the stars in rows `0..i` and columns `0..j`. */
  method BuildPrefix(a: array2<int>, ghost g: seq<seq<char>>) returns (pre: array2<int>)
    requires Square(g) && a.Length0 == |g| && a.Length1 == |g|
    requires forall i, j :: 0 <= i < |g| && 0 <= j < |g| ==> a[i, j] == Cell(g, i, j)
    ensures fresh(pre)
    ensures pre.Length0 == |g| && pre.Length1 == |g|
    ensures forall i, j :: 0 <= i < |g| && 0 <= j < |g| ==> pre[i, j] == Stars(g, 0, i + 1, 0, j + 1)
  {
    var n := a.Length0;
    pre := new int[n, n];
    for i := 0 to n
      invariant forall p, q :: 0 <= p < i && 0 <= q < n ==> pre[p, q] == Stars(g, 0, p + 1, 0, q + 1)
    {
      for j := 0 to n
        invariant forall p, q :: 0 <= p < i && 0 <= q < n ==> pre[p, q] == Stars(g, 0, p + 1, 0, q + 1)
        invariant forall q :: 0 <= q < j ==> pre[i, q] == Stars(g, 0, i + 1, 0, q + 1)
      {
        pre[i, j] := a[i, j]
          + (if i > 0 then pre[i - 1, j] else 0)
          + (if j > 0 then pre[i, j - 1] else 0)
          - (if i > 0 && j > 0 then pre[i - 1, j - 1] else 0);
      }
    }
  }

  /**
    Lines 31-40: the corners `(l1, r1)` and `(l2, r2)` are 1-based (row,
    column) pairs; the answer is the star count of the rectangle between them.
   */
  method Query(pre: array2<int>, ghost g: seq<seq<char>>, l1: int, r1: int, l2: int, r2: int) returns (ans: int)
    requires Square(g) && pre.Length0 == |g| && pre.Length1 == |g|
    requires forall i, j :: 0 <= i < |g| && 0 <= j < |g| ==> pre[i, j] == Stars(g, 0, i + 1, 0, j + 1)
    requires 1 <= l1 <= l2 <= |g| && 1 <= r1 <= r2 <= |g|
    ensures ans == Stars(g, l1 - 1, l2, r1 - 1, r2)
    ensures 0 <= ans <= (l2 - l1 + 1) * (r2 - r1 + 1)
  {
    var top, left, bottom, right := l1 - 1, r1 - 1, l2 - 1, r2 - 1;
    ans := pre[bottom, right];
    if top > 0 {
      ans := ans - pre[top - 1, right];
    }
    if left > 0 {
      ans := ans - pre[bottom, left - 1];
    }
    if top > 0 && left > 0 {
      ans := ans + pre[top - 1, left - 1];
    }
    StarsSplitRows(g, 0, top, l2, 0, r2);
    StarsSplitCols(g, top, l2, 0, left, r2);
    StarsSplitRows(g, 0, top, l2, 0, left);
    StarsBounds(g, top, l2, left, r2);
  }
}
