/** Monetary arithmetic of the loan engine, on exact reals.
    The engine computes with JavaScript numbers and rounds to cents with
    `Math.round(x * 100) / 100`; here amounts are `real`, `Math.pow` with a
    whole exponent is `Pow`, and the rounding is `Round2`. */
module Money {

  /** x to the n-th power. */
  function Pow(x: real, n: nat): real
  {
    if n == 0 then 1.0 else x * Pow(x, n - 1)
  }

  /** x is a whole number of cents. */
  predicate IsCents(x: real)
  {
    (100.0 * x).Floor as real == 100.0 * x
  }

  /** `Math.round(x * 100) / 100`: the nearest cent, a half cent rounding
      toward plus infinity (as `Math.round` does). */
  function Round2(x: real): (r: real)
    ensures IsCents(r)
    ensures x - 0.005 < r <= x + 0.005
  {
    var k := (100.0 * x + 0.5).Floor;
    CentsOfInt(k);
    k as real / 100.0
  }

  function Max0(x: real): (r: real)
    ensures r >= 0.0 && r >= x
    ensures r == x || r == 0.0
  {
    if x < 0.0 then 0.0 else x
  }

  /** A whole number of cents is its own rounding. */
  lemma Round2OfCents(c: real)
    requires IsCents(c)
    ensures Round2(c) == c
  {
    var k := (100.0 * c).Floor;
    assert (100.0 * c + 0.5).Floor == k;
  }

  /** The rounding of x is k cents when k is the whole part of `100x + 1/2`. */
  lemma Round2Of(x: real, k: int)
    requires k as real <= 100.0 * x + 0.5 < k as real + 1.0
    ensures Round2(x) == k as real / 100.0
  {
    assert (100.0 * x + 0.5).Floor == k;
  }

  /** Rounding never reorders amounts. */
  lemma Round2Monotone(x: real, y: real)
    requires x <= y
    ensures Round2(x) <= Round2(y)
  {
    assert (100.0 * x + 0.5).Floor <= (100.0 * y + 0.5).Floor;
  }

  /** A non-negative amount rounds to a non-negative amount. */
  lemma Round2NonNegative(x: real)
    requires x >= 0.0
    ensures Round2(x) >= 0.0
  {
    Round2Monotone(0.0, x);
    Round2OfCents(0.0);
  }

  /** A negative half cent rounds up, toward plus infinity, not away from
      zero: -0.025 becomes -0.02. */
  lemma Round2NegativeTie()
    ensures Round2(-0.025) == -0.02
  {
    assert 100.0 * -0.025 + 0.5 == -2.0;
  }

  /** n / 100 is n cents. */
  lemma CentsOfInt(n: int)
    ensures IsCents(n as real / 100.0)
  {
    assert 100.0 * (n as real / 100.0) == n as real;
  }

  /** Sums and differences of whole cents are whole cents. */
  lemma IsCentsSum(a: real, b: real)
    requires IsCents(a) && IsCents(b)
    ensures IsCents(a + b) && IsCents(a - b)
  {
    var i, j := (100.0 * a).Floor, (100.0 * b).Floor;
    assert a == i as real / 100.0 && b == j as real / 100.0;
    assert a + b == (i + j) as real / 100.0;
    assert a - b == (i - j) as real / 100.0;
    CentsOfInt(i + j);
    CentsOfInt(i - j);
  }

  /** A whole number of instalments of whole cents is whole cents. */
  lemma IsCentsTimes(a: real, n: int)
    requires IsCents(a)
    ensures IsCents(a * n as real)
  {
    var i := (100.0 * a).Floor;
    assert a == i as real / 100.0;
    assert a * n as real == (i * n) as real / 100.0;
    CentsOfInt(i * n);
  }

  /** Above one, every positive power is above one. */
  lemma {:induction false} PowAboveOne(x: real, n: nat)
    requires x > 1.0 && n >= 1
    ensures Pow(x, n) > 1.0
  {
    if n > 1 {
      PowAboveOne(x, n - 1);
      assert x * Pow(x, n - 1) > 1.0 * Pow(x, n - 1);
    }
  }
}
