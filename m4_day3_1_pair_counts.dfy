/**
  lvl2/module_4/day3_1.cpp: count the adjacent pairs "00" and "11" of a
  string and report the larger count.
 */
module PairCounts {

  /** `s[i]` and `s[i + 1]` are both `c`. */
  predicate PairAt(s: seq<char>, i: int, c: char)
    requires 0 <= i && i + 1 < |s|
  {
    s[i] == c && s[i + 1] == c
  }

  /** The number of pairs `c c` starting before index `m`. */
  function Pairs(s: seq<char>, m: nat, c: char): nat
    requires m < |s| || m == 0
  {
    if m == 0 then 0 else Pairs(s, m - 1, c) + (if PairAt(s, m - 1, c) then 1 else 0)
  }

  /** The start positions of all pairs `c c`. */
  function Starts(s: seq<char>, c: char): set<int>
  {
    set i | 0 <= i < |s| - 1 && PairAt(s, i, c)
  }

  /** The running count agrees with the set of start positions. */
  lemma {:induction false} PairsCountStarts(s: seq<char>, m: nat, c: char)
    requires m < |s| || m == 0
    ensures Pairs(s, m, c) == |set i | 0 <= i < m && PairAt(s, i, c)|
  {
    if m > 0 {
      PairsCountStarts(s, m - 1, c);
      var before := set i | 0 <= i < m - 1 && PairAt(s, i, c);
      var upto := set i | 0 <= i < m && PairAt(s, i, c);
      if PairAt(s, m - 1, c) {
        assert upto == before + {m - 1};
      } else {
        assert upto == before;
      }
    }
  }

  /** A position starts a "00" pair or a "11" pair, never both. */
  lemma {:induction false} PairsShareLength(s: seq<char>, m: nat)
    requires m < |s| || m == 0
    ensures Pairs(s, m, '0') + Pairs(s, m, '1') <= m
  {
    if m > 0 {
      PairsShareLength(s, m - 1);
    }
  }

  /**
    Lines 15-25: `pair0` and `pair1` are the numbers of "00" and "11"
    pairs, together at most `max(0, n - 1)`, and the answer is the larger.
   */
  method MaxPairs(s: seq<char>) returns (pair0: nat, pair1: nat, ans: nat)
    ensures pair0 == |Starts(s, '0')| && pair1 == |Starts(s, '1')|
    ensures pair0 + pair1 <= if |s| == 0 then 0 else |s| - 1
    ensures ans >= pair0 && ans >= pair1 && (ans == pair0 || ans == pair1)
  {
    var n := |s|;
    pair0, pair1 := 0, 0;
    var i := 0;
    while i < n - 1
      invariant 0 <= i && (i < n || i == 0)
      invariant pair0 == Pairs(s, i, '0') && pair1 == Pairs(s, i, '1')
    {
      if s[i] == '0' && s[i + 1] == '0' {
        pair0 := pair0 + 1;
      } else if s[i] == '1' && s[i + 1] == '1' {
        pair1 := pair1 + 1;
      }
      i := i + 1;
    }
    ghost var m := if n == 0 then 0 else n - 1;
    assert i == m;
    PairsCountStarts(s, m, '0');
    PairsCountStarts(s, m, '1');
    assert Starts(s, '0') == set j | 0 <= j < m && PairAt(s, j, '0');
    assert Starts(s, '1') == set j | 0 <= j < m && PairAt(s, j, '1');
    PairsShareLength(s, m);
    ans := if pair0 >= pair1 then pair0 else pair1;
  }
}
