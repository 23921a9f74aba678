/**
  Integer remainders as the engine's two languages compute them. Dafny's `%` is Euclidean, which
  for a positive divisor agrees with Python's floored `%`; JavaScript's `%` truncates toward zero
  and so keeps the dividend's sign.
 */
module Arith {

  /** A product of a positive number and a positive multiplier is at least the number. */
  lemma MulAtLeast(n: int, x: int)
    requires n > 0 && x >= 1
    ensures n * x >= n
  {
    var k := x - 1;
    assert n * x == n * k + n;
    assert n * k >= 0;
  }

  lemma MulNonPositive(n: int, x: int)
    requires n > 0 && x <= 0
    ensures n * x <= 0
  {
    MulAtLeast(n, 1 - x);
    assert n * (1 - x) == n - n * x;
  }

  /** A multiple of `n` strictly between `-n` and `n` is zero. */
  lemma SmallMultiple(n: int, x: int)
    requires n > 0 && -n < n * x < n
    ensures x == 0
  {
    if x >= 1 {
      MulAtLeast(n, x);
    } else if x <= -1 {
      MulAtLeast(n, -x);
    }
  }

  /** Euclidean remainder is determined by any quotient/remainder decomposition. */
  lemma ModUnique(a: int, n: int, k: int, s: int)
    requires n > 0 && a == n * k + s && 0 <= s < n
    ensures a % n == s && a / n == k
  {
    var q, r := a / n, a % n;
    assert a == n * q + r;
    assert n * (k - q) == r - s;
    SmallMultiple(n, k - q);
  }

  /** Two values with the same Euclidean remainder lie at least `n` apart unless equal. */
  lemma SameRemainderFar(a: int, b: int, n: int)
    requires n > 0 && a < b && a % n == b % n
    ensures b - a >= n
  {
    var qa, qb := a / n, b / n;
    assert a == n * qa + a % n;
    assert b == n * qb + b % n;
    var d := qb - qa;
    assert b - a == n * d;
    assert d >= 1 by {
      if d <= 0 {
        MulNonPositive(n, d);
      }
    }
    MulAtLeast(n, d);
  }

  /** JavaScript's `a % b`: the remainder of truncated division, with the dividend's sign. */
  function JsRem(a: int, b: int): (r: int)
    requires b > 0
    ensures a == b * JsQuot(a, b) + r
    ensures a >= 0 ==> 0 <= r < b
    ensures a < 0 ==> -b < r <= 0
  {
    if a >= 0 then a % b else -((-a) % b)
  }

  /** Quotient of truncated division (rounds toward zero). */
  function JsQuot(a: int, b: int): int
    requires b > 0
  {
    if a >= 0 then a / b else -((-a) / b)
  }

  /**
    The two remainders agree on non-negative dividends; on a negative dividend that `b` does not
    divide, JavaScript's is Python's minus `b`.
   */
  lemma JsRemVersusMod(a: int, b: int)
    requires b > 0
    ensures a >= 0 || a % b == 0 ==> JsRem(a, b) == a % b
    ensures a < 0 && a % b != 0 ==> JsRem(a, b) == a % b - b
  {
    if a < 0 {
      var q, r := (-a) / b, (-a) % b;
      assert -a == b * q + r;
      if r == 0 {
        ModUnique(a, b, -q, 0);
      } else {
        ModUnique(a, b, -q - 1, b - r);
      }
    }
  }
}
