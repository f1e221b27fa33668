/** JavaScript's remainder operator next to Dafny's Euclidean one. */
module Arith {

  /** JavaScript's `a % n` for n > 0: the remainder of division truncated
      toward zero, which takes the sign of a. */
  function JsRem(a: int, n: int): (r: int)
    requires n > 0
    ensures -n < r < n
    ensures a >= 0 ==> 0 <= r
    ensures a <= 0 ==> r <= 0
    ensures a >= 0 ==> r == a % n
    ensures a < 0 ==> -r == (-a) % n
  {
    if a >= 0 then a % n else -((-a) % n)
  }

  lemma MulAtLeast(k: int, n: int)
    requires k >= 1 && n > 0
    ensures k * n >= n
  {
  }

  /** A remainder in [0, n) is the Euclidean remainder. */
  lemma ModUnique(a: int, n: int, q: int, r: int)
    requires n > 0 && 0 <= r < n && a == q * n + r
    ensures a % n == r
  {
    var q', r' := a / n, a % n;
    assert a == q' * n + r';
    if q > q' {
      MulAtLeast(q - q', n);
    } else if q < q' {
      MulAtLeast(q' - q, n);
    }
  }

  /** Adding the divisor does not change the Euclidean remainder. */
  lemma ModAddDivisor(i: int, n: int)
    requires n > 0
    ensures (i + n) % n == i % n
  {
    var q, r := i / n, i % n;
    assert i + n == (q + 1) * n + r;
    ModUnique(i + n, n, q + 1, r);
  }

  /** n divides a exactly when it divides -a. */
  lemma DividesNegation(a: int, n: int)
    requires n > 0
    ensures a % n == 0 <==> (-a) % n == 0
  {
    if a % n == 0 {
      assert -a == (-(a / n)) * n + 0;
      ModUnique(-a, n, -(a / n), 0);
    }
    if (-a) % n == 0 {
      assert a == (-((-a) / n)) * n + 0;
      ModUnique(a, n, -((-a) / n), 0);
    }
  }

  /** The two remainders agree exactly on non-negative dividends and on
      multiples of n; for any other negative dividend JavaScript's is negative. */
  lemma JsRemAgreesWithEuclidean(a: int, n: int)
    requires n > 0
    ensures JsRem(a, n) == a % n <==> (a >= 0 || a % n == 0)
    ensures a < 0 && a % n != 0 ==> JsRem(a, n) < 0
  {
    if a < 0 {
      DividesNegation(a, n);
    }
  }

  /** One step forward or back from an index in [0, n), wrapped. */
  lemma StepWraps(c: int, n: int)
    ensures 0 <= c < n ==> (c + 1) % n == (if c == n - 1 then 0 else c + 1)
    ensures 0 <= c < n ==> (c - 1) % n == (if c == 0 then n - 1 else c - 1)
  {
  }
}
