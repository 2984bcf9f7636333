/**
  C++ integer division and remainder round toward zero, unlike Dafny's
  Euclidean `/` and `%`. Both kernels that divide possibly negative values
  do so by a positive divisor, which is all that is modelled here.
 */
module CppInt {

  /** C++ `a / b` for `b > 0`. */
  function TruncDiv(a: int, b: int): int
    requires b > 0
  {
    if a >= 0 then a / b else -((-a) / b)
  }

  /** C++ `a % b` for `b > 0`: the sign follows the dividend. */
  function TruncRem(a: int, b: int): (r: int)
    requires b > 0
    ensures a == b * TruncDiv(a, b) + r
    ensures a >= 0 ==> 0 <= r < b
    ensures a < 0 ==> -b < r <= 0
  {
    if a >= 0 then a % b else -((-a) % b)
  }

  /** Halving the sum of two ordered integers, rounding toward zero, stays between them. */
  lemma TruncMidpoint(lo: int, hi: int)
    requires lo <= hi
    ensures lo <= TruncDiv(lo + hi, 2) <= hi
  {
  }

  /** The remainder of `n * q + t` by `n` is `t` whenever `0 <= t < n`. */
  lemma ModOfMultiplePlus(n: int, q: int, t: int)
    requires n >= 1 && 0 <= t < n
    ensures (n * q + t) % n == t
  {
    var s := n * q + t;
    var d, r := s / n, s % n;
    var k := q - d;
    assert n * q + t == n * d + r;
    assert n * k == r - t;
    if k >= 1 {
      MulAtLeast(n, k);
    } else if k <= -1 {
      assert n * (-k) == -(n * k);
      MulAtLeast(n, -k);
    }
  }

  lemma {:induction false} MulAtLeast(n: int, m: int)
    requires n >= 1 && m >= 1
    ensures n * m >= n
    decreases m
  {
    if m > 1 {
      MulAtLeast(n, m - 1);
      assert n * m == n * (m - 1) + n;
    }
  }

  /** A product of two non-negative factors is non-negative. */
  lemma MulNonNegative(x: int, y: int)
    requires x >= 0 && y >= 0
    ensures x * y >= 0
  {
  }
}
