/**
  lvl2/module_2/day2_1.cpp: values below 1024; the smallest `k` in
  `1..1023` such that XOR-ing every element with `k` gives back the same
  multiset of values, or -1 when there is none. Both multisets are compared
  through their 1024-cell frequency arrays.
 */
module XorShift {
  import opened Bits

  /** Every element is a valid index of a 1024-cell frequency array. */
  predicate InRange(a: seq<int>)
  {
    forall j :: 0 <= j < |a| ==> 0 <= a[j] < 1024
  }

  /** `a[j] ^ k` for every `j`. */
  function Shifted(a: seq<int>, k: nat): (s: seq<int>)
    requires InRange(a)
    ensures |s| == |a|
    ensures forall j :: 0 <= j < |a| ==> s[j] == Xor(a[j], k)
  {
    seq(|a|, j requires 0 <= j < |a| => Xor(a[j], k))
  }

  /** `k` maps the multiset of values onto itself. */
  predicate Stable(a: seq<int>, k: nat)
    requires InRange(a)
  {
    multiset(Shifted(a, k)) == multiset(a)
  }

  /** Line 31: `a[j] ^ k` stays below 1024 for `k < 1024`, so it indexes `temp_freq`. */
  lemma ShiftedInRange(a: seq<int>, k: nat)
    requires InRange(a) && k < 1024
    ensures InRange(Shifted(a, k))
  {
    Pow2Values();
    forall j | 0 <= j < |a| ensures Xor(a[j], k) < 1024 {
      XorBelow(a[j], k, 10);
    }
  }

  /** Bags of in-range values are equal exactly when their 1024 counts agree. */
  lemma CountsDetermine(s: seq<int>, t: seq<int>)
    requires InRange(s) && InRange(t)
    ensures multiset(s) == multiset(t) <==> forall v :: 0 <= v < 1024 ==> multiset(s)[v] == multiset(t)[v]
  {
    if forall v :: 0 <= v < 1024 ==> multiset(s)[v] == multiset(t)[v] {
      forall v ensures multiset(s)[v] == multiset(t)[v] {
        if !(0 <= v < 1024) {
          assert v !in s && v !in t;
        }
      }
    }
  }

  /** Line 33: two frequency tables are equal exactly when the bags are. */
  lemma FrequencyTablesAgree(f: seq<int>, g: seq<int>, s: seq<int>, t: seq<int>)
    requires InRange(s) && InRange(t) && |f| == 1024 && |g| == 1024
    requires forall v :: 0 <= v < 1024 ==> f[v] == multiset(s)[v]
    requires forall v :: 0 <= v < 1024 ==> g[v] == multiset(t)[v]
    ensures f == g <==> multiset(s) == multiset(t)
  {
    CountsDetermine(s, t);
    if forall v :: 0 <= v < 1024 ==> f[v] == g[v] {
      assert f == g;
    }
  }

  /** Lines 19-22 and 29-32: `freq[v]` counts the occurrences of `v`. */
  method Frequencies(s: seq<int>) returns (freq: array<int>)
    requires InRange(s)
    ensures fresh(freq) && freq.Length == 1024
    ensures forall v :: 0 <= v < 1024 ==> freq[v] == multiset(s)[v]
  {
    freq := new int[1024](_ => 0);
    for j := 0 to |s|
      invariant forall v :: 0 <= v < 1024 ==> freq[v] == multiset(s[..j])[v]
    {
      assert s[..j + 1] == s[..j] + [s[j]];
      freq[s[j]] := freq[s[j]] + 1;
    }
    assert s[..|s|] == s;
  }

  /** Lines 19-37: the least stable `k`, or -1; never 0. */
  method SmallestStableShift(a: seq<int>) returns (k: int)
    requires InRange(a)
    ensures k == -1 || 1 <= k < 1024
    ensures k == -1 <==> forall i :: 1 <= i < 1024 ==> !Stable(a, i)
    ensures k != -1 ==> Stable(a, k) && forall i :: 1 <= i < k ==> !Stable(a, i)
  {
    var freq := Frequencies(a);
    k := -1;
    for i := 1 to 1024
      invariant forall p :: 1 <= p < i ==> !Stable(a, p)
      invariant k == -1
      invariant freq.Length == 1024 && forall v :: 0 <= v < 1024 ==> freq[v] == multiset(a)[v]
    {
      ShiftedInRange(a, i);
      var shifted := seq(|a|, j requires 0 <= j < |a| => Xor(a[j], i));
      assert shifted == Shifted(a, i);
      var tempFreq := Frequencies(shifted);
      FrequencyTablesAgree(tempFreq[..], freq[..], shifted, a);
      if tempFreq[..] == freq[..] {
        k := i;
        break;
      }
    }
    if k != -1 {
      assert 1 <= k < 1024 && Stable(a, k);
    }
  }
}
