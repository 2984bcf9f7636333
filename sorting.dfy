/**
  The sorted rearrangement of a sequence, the model of `std::sort`: the
  kernels only rely on the result being ordered and a permutation of the
  input, which `SortAsc` and `SortDesc` promise.
 */
module Sorting {

  predicate SortedAsc(s: seq<int>)
  {
    forall i, j :: 0 <= i < j < |s| ==> s[i] <= s[j]
  }

  predicate SortedDesc(s: seq<int>)
  {
    forall i, j :: 0 <= i < j < |s| ==> s[i] >= s[j]
  }

  /** A lower bound in front of an ascending sequence keeps it ascending. */
  lemma ConsSorted(y: int, rest: seq<int>)
    requires SortedAsc(rest) && forall k :: 0 <= k < |rest| ==> y <= rest[k]
    ensures SortedAsc([y] + rest)
  {
  }

  /** An element of `s` or `x` is bounded below by anything that bounds both. */
  lemma BoundedMembers(y: int, s: seq<int>, x: int, rest: seq<int>)
    requires multiset(rest) == multiset(s) + multiset{x}
    requires y <= x && forall k :: 0 <= k < |s| ==> y <= s[k]
    ensures forall k :: 0 <= k < |rest| ==> y <= rest[k]
  {
    forall k | 0 <= k < |rest| ensures y <= rest[k] {
      assert rest[k] in multiset(s) + multiset{x};
      if rest[k] != x {
        assert rest[k] in s;
      }
    }
  }

  /** Places `x` into the ascending sequence `s`. */
  function InsertAsc(x: int, s: seq<int>): (r: seq<int>)
    requires SortedAsc(s)
    ensures |r| == |s| + 1
    ensures SortedAsc(r) && multiset(r) == multiset(s) + multiset{x}
  {
    if s == [] || x <= s[0] then
      ConsSorted(x, s);
      [x] + s
    else
      var rest := InsertAsc(x, s[1..]);
      assert s == [s[0]] + s[1..];
      BoundedMembers(s[0], s[1..], x, rest);
      ConsSorted(s[0], rest);
      [s[0]] + rest
  }

  /** `std::sort` with the default `<`. */
  function SortAsc(s: seq<int>): (r: seq<int>)
    ensures |r| == |s|
    ensures SortedAsc(r) && multiset(r) == multiset(s)
  {
    if s == [] then []
    else
      assert s == [s[0]] + s[1..];
      InsertAsc(s[0], SortAsc(s[1..]))
  }

  function Reverse(s: seq<int>): (r: seq<int>)
    ensures |r| == |s|
    ensures forall i :: 0 <= i < |s| ==> r[i] == s[|s| - 1 - i]
  {
    if s == [] then [] else Reverse(s[1..]) + [s[0]]
  }

  lemma {:induction false} ReversePermutes(s: seq<int>)
    ensures multiset(Reverse(s)) == multiset(s)
    decreases |s|
  {
    if s != [] {
      ReversePermutes(s[1..]);
      assert s == [s[0]] + s[1..];
    }
  }

  /** `std::sort` with `greater<int>()`. */
  function SortDesc(s: seq<int>): (r: seq<int>)
    ensures |r| == |s|
    ensures SortedDesc(r) && multiset(r) == multiset(s)
  {
    ReversePermutes(SortAsc(s));
    Reverse(SortAsc(s))
  }

  /** Sorting an array in place: the array afterwards holds the ascending rearrangement. */
  method SortArrayAsc(a: array<int>)
    modifies a
    ensures a[..] == SortAsc(old(a[..]))
  {
    var s := SortAsc(a[..]);
    forall i | 0 <= i < a.Length {
      a[i] := s[i];
    }
    assert a[..] == s;
  }

  /** Sorting an array in place in descending order. */
  method SortArrayDesc(a: array<int>)
    modifies a
    ensures a[..] == SortDesc(old(a[..]))
  {
    var s := SortDesc(a[..]);
    forall i | 0 <= i < a.Length {
      a[i] := s[i];
    }
    assert a[..] == s;
  }
}
