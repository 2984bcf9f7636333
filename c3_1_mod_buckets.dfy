/**
  contests/contest3/1.cpp: the indices `0..n-1` fall into four buckets by
  their residue mod 4; buckets 0 and 3, and buckets 1 and 2, are paired
  off, and Alice wins exactly when the number of pairs is odd.
 */
module ModBuckets {

  /** The number of indices `i < n` with `i % 4 == r`. */
  function Bucket(n: nat, r: int): nat
  {
    if n == 0 then 0 else Bucket(n - 1, r) + (if (n - 1) % 4 == r then 1 else 0)
  }

  /** Bucket `r` holds `ceil((n - r) / 4)` indices. */
  lemma {:induction false} BucketClosedForm(n: nat, r: int)
    requires 0 <= r < 4
    ensures Bucket(n, r) == (n + 3 - r) / 4
  {
    if n > 0 {
      BucketClosedForm(n - 1, r);
      var q, t := (n - 1) / 4, (n - 1) % 4;
      assert n - 1 == 4 * q + t;
      if t == r {
        assert (n + 3 - r) / 4 == (n + 2 - r) / 4 + 1;
      } else {
        assert (n + 3 - r) / 4 == (n + 2 - r) / 4;
      }
    }
  }

  /**
    The four buckets split `n`, each holds at most one more index than the
    next, and the two pairings come to `c2 + c3`, whose parity is that of
    `n / 4 + (n + 1) / 4`.
   */
  lemma BucketFacts(n: nat)
    ensures Bucket(n, 0) + Bucket(n, 1) + Bucket(n, 2) + Bucket(n, 3) == n
    ensures Bucket(n, 0) >= Bucket(n, 1) >= Bucket(n, 2) >= Bucket(n, 3) >= Bucket(n, 0) - 1
    ensures Bucket(n, 2) == (n + 1) / 4 && Bucket(n, 3) == n / 4
    ensures Min(Bucket(n, 0), Bucket(n, 3)) + Min(Bucket(n, 1), Bucket(n, 2)) == Bucket(n, 2) + Bucket(n, 3)
  {
    var k, t := n / 4, n % 4;
    assert n == 4 * k + t;
    BucketOfSplit(k, t, 0);
    BucketOfSplit(k, t, 1);
    BucketOfSplit(k, t, 2);
    BucketOfSplit(k, t, 3);
    Quarter(k, t + 1);
  }

  /** With `n == 4k + t`, bucket `r` holds `k` indices, plus one when `r < t`. */
  lemma BucketOfSplit(k: nat, t: int, r: int)
    requires 0 <= t < 4 && 0 <= r < 4
    ensures Bucket(4 * k + t, r) == k + (if r < t then 1 else 0)
  {
    BucketClosedForm(4 * k + t, r);
    Quarter(k, t + 3 - r);
  }

  /** `(4k + d) / 4` for a small `d`. */
  lemma Quarter(k: int, d: int)
    requires 0 <= d < 8
    ensures (4 * k + d) / 4 == if d < 4 then k else k + 1
  {
  }

  function Min(x: int, y: int): int
  {
    if x <= y then x else y
  }

  /** Lines 14-21: count the indices `0..n-1` of each residue. */
  method Tally(n: nat) returns (c0: nat, c1: nat, c2: nat, c3: nat)
    ensures c0 == Bucket(n, 0) && c1 == Bucket(n, 1) && c2 == Bucket(n, 2) && c3 == Bucket(n, 3)
  {
    c0, c1, c2, c3 := 0, 0, 0, 0;
    for i := 0 to n
      invariant c0 == Bucket(i, 0) && c1 == Bucket(i, 1) && c2 == Bucket(i, 2) && c3 == Bucket(i, 3)
    {
      var r := i % 4;
      if r == 0 {
        c0 := c0 + 1;
      } else if r == 1 {
        c1 := c1 + 1;
      } else if r == 2 {
        c2 := c2 + 1;
      } else {
        c3 := c3 + 1;
      }
    }
  }

  /**
    Lines 14-26: the bucket sizes, the number of pairs, and whether Alice
    wins. The buckets split `n`, shrink by at most one from residue 0 to
    residue 3, and Alice wins exactly when `n / 4 + (n + 1) / 4` is odd.
   */
  method Winner(n: int) returns (c0: nat, c1: nat, c2: nat, c3: nat, pairs: int, alice: bool)
    ensures n >= 0 ==> c0 + c1 + c2 + c3 == n
    ensures n >= 0 ==> c0 == Bucket(n, 0) && c1 == Bucket(n, 1) && c2 == Bucket(n, 2) && c3 == Bucket(n, 3)
    ensures c0 >= c1 >= c2 >= c3 >= c0 - 1
    ensures pairs == Min(c0, c3) + Min(c1, c2) && pairs == c2 + c3
    ensures alice <==> pairs % 2 == 1
    ensures n >= 0 ==> (alice <==> (n / 4 + (n + 1) / 4) % 2 == 1)
  {
    var m: nat := if n < 0 then 0 else n;
    c0, c1, c2, c3 := Tally(m);
    BucketFacts(m);
    pairs := Min(c0, c3) + Min(c1, c2);
    alice := pairs % 2 == 1;
  }
}
