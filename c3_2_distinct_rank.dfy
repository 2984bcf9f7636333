/**
  contests/contest3/2.cpp: each query gives an array `a`, a position `j`
  and a bound `k`; the value at position `j` is ranked among the distinct
  values of `a` in descending order, and the answer is YES when that rank
  is at most 2 or at most `k`. The `set<int, greater<int>>` is a strictly
  descending sequence.
 */
module DistinctRank {

  predicate StrictlyDesc(s: seq<int>)
  {
    forall i, j :: 0 <= i < j < |s| ==> s[i] > s[j]
  }

  /** The distinct values of `a`. */
  function Distinct(a: seq<int>): set<int>
  {
    set x | x in a
  }

  /** The distinct values of `a` above `v`. */
  function Above(a: seq<int>, v: int): set<int>
  {
    set x | x in a && x > v
  }

  /**
    The number of set elements visited up to and including `v`: one more
    than the distinct values above it when `v` occurs, and every distinct
    value when it does not.
   */
  function Rank(a: seq<int>, v: int): nat
  {
    if v in a then |Above(a, v)| + 1 else |Distinct(a)|
  }

  /** A query: the array, the 1-based position `j`, and the bound `k`. */
  datatype Query = Query(a: seq<int>, j: int, k: int)

  /** The value the query asks about: `a[j - 1]`, or 0 when `j` is out of range. */
  function Value(q: Query): int
  {
    if 1 <= q.j <= |q.a| then q.a[q.j - 1] else 0
  }

  /** The printed verdict for one query. */
  function Answer(q: Query): bool
  {
    var rem := Rank(q.a, Value(q));
    rem == 1 || rem == 2 || rem <= q.k
  }

  /** A strictly descending sequence has as many distinct elements as entries. */
  lemma {:induction false} DistinctCount(s: seq<int>)
    requires StrictlyDesc(s)
    ensures |Distinct(s)| == |s|
  {
    if s != [] {
      DistinctCount(s[1..]);
      assert Distinct(s) == {s[0]} + Distinct(s[1..]);
      assert s[0] !in Distinct(s[1..]);
    }
  }

  /** In a strictly descending sequence the entries above `s[p]` are exactly the first `p`. */
  lemma AboveIsPrefix(s: seq<int>, p: nat)
    requires StrictlyDesc(s) && p < |s|
    ensures Above(s, s[p]) == Distinct(s[..p])
  {
    forall x | x in Above(s, s[p]) ensures x in Distinct(s[..p]) {
      var i :| 0 <= i < |s| && s[i] == x;
      assert s[..p][i] == x;
    }
  }

  /** Where `v` sits in the descending sequence of the distinct values is its rank. */
  lemma RankAt(a: seq<int>, s: seq<int>, p: nat)
    requires StrictlyDesc(s) && Distinct(s) == Distinct(a) && p < |s|
    ensures Rank(a, s[p]) == p + 1
  {
    assert s[p] in Distinct(s);
    SameAbove(a, s, s[p]);
    AboveIsPrefix(s, p);
    DistinctCount(s[..p]);
  }

  lemma SameAbove(a: seq<int>, s: seq<int>, v: int)
    requires Distinct(s) == Distinct(a)
    ensures Above(a, v) == Above(s, v)
  {
    forall x ensures x in Above(a, v) <==> x in Above(s, v) {
      assert x in a <==> x in Distinct(a);
      assert x in s <==> x in Distinct(s);
    }
  }

  /** The rank lies between 1 and the number of distinct values. */
  lemma RankBounds(a: seq<int>, v: int)
    ensures a != [] ==> 1 <= Rank(a, v)
    ensures Rank(a, v) <= |Distinct(a)|
  {
    if v in a {
      var up := Above(a, v) + {v};
      assert |up| == |Above(a, v)| + 1;
      assert Distinct(a) == up + (Distinct(a) - up);
    } else if a != [] {
      assert a[0] in Distinct(a);
    }
  }

  /** Lines 14-21: the value at position `j`, or 0 when there is none. */
  method ReadValue(a: seq<int>, j: int) returns (value: int)
    ensures 1 <= j <= |a| ==> value == a[j - 1]
    ensures !(1 <= j <= |a|) ==> value == 0
  {
    value := 0;
    for i := 0 to |a|
      invariant value == if 1 <= j <= i then a[j - 1] else 0
    {
      if j - 1 == i {
        value := a[i];
      }
    }
  }

  /** `set::insert` into a strictly descending sequence. */
  function Insert(s: seq<int>, x: int): (r: seq<int>)
    requires StrictlyDesc(s)
    ensures StrictlyDesc(r) && Distinct(r) == Distinct(s) + {x}
  {
    if s == [] then [x]
    else if x == s[0] then s
    else if x > s[0] then [x] + s
    else
      var rest := Insert(s[1..], x);
      assert Distinct(s) == {s[0]} + Distinct(s[1..]);
      assert forall i :: 0 <= i < |rest| ==> rest[i] < s[0] by {
        forall i | 0 <= i < |rest| ensures rest[i] < s[0] {
          assert rest[i] in Distinct(rest);
        }
      }
      assert Distinct([s[0]] + rest) == {s[0]} + Distinct(rest);
      [s[0]] + rest
  }

  /** Line 23: the set of the values of `a`, largest first. */
  method BuildSet(a: seq<int>) returns (s: seq<int>)
    ensures StrictlyDesc(s) && Distinct(s) == Distinct(a)
    ensures |s| == |Distinct(a)|
  {
    s := [];
    for i := 0 to |a|
      invariant StrictlyDesc(s) && Distinct(s) == Distinct(a[..i])
    {
      assert Distinct(a[..i + 1]) == Distinct(a[..i]) + {a[i]} by {
        assert a[..i + 1] == a[..i] + [a[i]];
      }
      s := Insert(s, a[i]);
    }
    assert a[..|a|] == a;
    DistinctCount(s);
  }

  /** Lines 24-30: count the set elements up to and including `value`. */
  method CountRank(a: seq<int>, s: seq<int>, value: int) returns (rem: nat)
    requires StrictlyDesc(s) && Distinct(s) == Distinct(a)
    ensures rem == Rank(a, value)
  {
    rem := 0;
    var found := false;
    while rem < |s| && !found
      invariant rem <= |s|
      invariant found ==> rem >= 1 && s[rem - 1] == value
      invariant !found ==> value !in s[..rem]
    {
      rem := rem + 1;
      if s[rem - 1] == value {
        found := true;
      }
    }
    if found {
      RankAt(a, s, rem - 1);
    } else {
      assert s[..rem] == s;
      assert value !in Distinct(a);
      DistinctCount(s);
    }
  }

  /**
    Lines 14-44 for one query: the rank of `a[j - 1]` among the distinct
    values, and YES when it is at most 2 or at most `k`.
   */
  method Solve(q: Query) returns (rem: nat, yes: bool)
    ensures rem == Rank(q.a, Value(q))
    ensures 1 <= q.j <= |q.a| ==> rem == |Above(q.a, q.a[q.j - 1])| + 1
    ensures q.a != [] ==> 1 <= rem
    ensures rem <= |Distinct(q.a)|
    ensures q.a != [] ==> (yes <==> rem <= 2 || rem <= q.k)
    ensures yes == Answer(q)
  {
    var value := ReadValue(q.a, q.j);
    var s := BuildSet(q.a);
    rem := CountRank(q.a, s, value);
    RankBounds(q.a, value);
    yes := rem == 1 || rem == 2 || rem <= q.k;
  }

  /** The verdicts of the queries, one per query. */
  function Answers(qs: seq<Query>): (r: seq<bool>)
    ensures |r| == |qs| && forall i :: 0 <= i < |qs| ==> r[i] == Answer(qs[i])
  {
    if qs == [] then [] else [Answer(qs[0])] + Answers(qs[1..])
  }

  /** The query's value is the largest in its array. */
  predicate Top(q: Query)
  {
    Rank(q.a, Value(q)) == 1
  }

  /** Lines 10-45 as written: a query of rank 1 prints YES and ends the loop. */
  function AnswersAsWritten(qs: seq<Query>): seq<bool>
  {
    if qs == [] then []
    else if Top(qs[0]) then [true]
    else [Answer(qs[0])] + AnswersAsWritten(qs[1..])
  }

  /** The loop as written answers a prefix of the queries, each correctly. */
  lemma {:induction false} AsWrittenIsPrefix(qs: seq<Query>)
    ensures |AnswersAsWritten(qs)| <= |qs|
    ensures AnswersAsWritten(qs) == Answers(qs)[..|AnswersAsWritten(qs)|]
  {
    if qs != [] {
      AsWrittenIsPrefix(qs[1..]);
      if Top(qs[0]) {
        assert Answer(qs[0]);
      } else {
        assert Answers(qs) == [Answer(qs[0])] + Answers(qs[1..]);
      }
    }
  }

  /** It stops short exactly when a query other than the last has rank 1. */
  lemma {:induction false} AsWrittenStopsShort(qs: seq<Query>)
    ensures |AnswersAsWritten(qs)| < |qs| <==> exists i :: 0 <= i < |qs| - 1 && Top(qs[i])
  {
    if qs != [] && !Top(qs[0]) {
      AsWrittenStopsShort(qs[1..]);
      if exists i :: 0 <= i < |qs| - 1 && Top(qs[i]) {
        var i :| 0 <= i < |qs| - 1 && Top(qs[i]);
        assert qs[1..][i - 1] == qs[i];
      }
      if exists i :: 0 <= i < |qs| - 2 && Top(qs[1..][i]) {
        var i :| 0 <= i < |qs| - 2 && Top(qs[1..][i]);
        assert qs[i + 1] == qs[1..][i];
      }
    } else if qs != [] && |qs| > 1 {
      assert Top(qs[0]);
    }
  }

  /** Two queries on `[5]` at position 1: the first has rank 1, so the second is never answered. */
  lemma BreakSkipsQueries()
    ensures |AnswersAsWritten([Query([5], 1, 1), Query([5], 1, 1)])| == 1
    ensures |Answers([Query([5], 1, 1), Query([5], 1, 1)])| == 2
  {
    var q := Query([5], 1, 1);
    assert Value(q) == 5;
    assert Above([5], 5) == {} by {
      forall x | x in Above([5], 5) ensures false {
      }
    }
  }

  /** Lines 10-45 with the `break` of line 34 removed: every query is answered. */
  method AnswerAll(qs: seq<Query>) returns (out: seq<bool>)
    ensures out == Answers(qs)
    ensures |out| == |qs| && forall i :: 0 <= i < |qs| ==> out[i] == Answer(qs[i])
  {
    out := [];
    for i := 0 to |qs|
      invariant out == Answers(qs[..i])
    {
      var rem, yes := Solve(qs[i]);
      AnswersSnoc(qs[..i], qs[i]);
      assert qs[..i + 1] == qs[..i] + [qs[i]];
      out := out + [yes];
    }
    assert qs[..|qs|] == qs;
  }

  lemma AnswersSnoc(qs: seq<Query>, q: Query)
    ensures Answers(qs + [q]) == Answers(qs) + [Answer(q)]
  {
  }

  lemma AsWrittenStep(qs: seq<Query>, i: nat)
    requires i < |qs|
    ensures AnswersAsWritten(qs[i..]) ==
      if Top(qs[i]) then [true] else [Answer(qs[i])] + AnswersAsWritten(qs[i + 1..])
  {
    assert qs[i..][0] == qs[i] && qs[i..][1..] == qs[i + 1..];
  }

  /** Lines 10-45 as written, `break` included. */
  method AnswerAllAsWritten(qs: seq<Query>) returns (out: seq<bool>)
    ensures out == AnswersAsWritten(qs)
  {
    out := [];
    var i := 0;
    while i < |qs|
      invariant i <= |qs|
      invariant out + AnswersAsWritten(qs[i..]) == AnswersAsWritten(qs)
    {
      var rem, yes := Solve(qs[i]);
      AsWrittenStep(qs, i);
      if rem == 1 {
        out := out + [true];
        break;
      }
      out := out + [yes];
      i := i + 1;
    }
  }
}
