/** Currency arithmetic shared by every part of the lending core.

    Amounts are exact reals. The only rounding the program applies is
    `Math.round(x * 100) / 100`, which is round-half-up to the cent:
    `Math.round(y)` is `floor(y + 1/2)`. */
module Money {

  /** True when `x` is a whole number of cents. */
  predicate IsCents(x: real) {
    (x * 100.0).Floor as real == x * 100.0
  }

  /** Round to the nearest cent, halves rounded up. */
  function Round2(x: real): (r: real)
    ensures IsCents(r)
    ensures x - 0.005 < r <= x + 0.005
  {
    ((x * 100.0 + 0.5).Floor as real) / 100.0
  }

  /** `max(0, x)`, as `Math.max(0, x)`. */
  function Max0(x: real): (r: real)
    ensures r >= 0.0 && r >= x
    ensures r == 0.0 || r == x
  {
    if x < 0.0 then 0.0 else x
  }

  /** Rounding an amount that already is a whole number of cents is the identity. */
  lemma Round2OfCents(x: real)
    requires IsCents(x)
    ensures Round2(x) == x
  {
    var k := (x * 100.0).Floor;
    assert x * 100.0 == k as real;
    assert (x * 100.0 + 0.5).Floor == k;
  }

  /** Round2 preserves order. */
  lemma Round2Monotone(x: real, y: real)
    requires x <= y
    ensures Round2(x) <= Round2(y)
  {
    assert (x * 100.0 + 0.5).Floor <= (y * 100.0 + 0.5).Floor;
  }

  /** Round2 of a non-negative amount is non-negative. */
  lemma Round2NonNegative(x: real)
    requires x >= 0.0
    ensures Round2(x) >= 0.0
  {
  }

  /** Whole cents are closed under subtraction. */
  lemma CentsSub(a: real, b: real)
    requires IsCents(a) && IsCents(b)
    ensures IsCents(a - b)
  {
    var ka := (a * 100.0).Floor;
    var kb := (b * 100.0).Floor;
    assert (a - b) * 100.0 == (ka - kb) as real;
  }

  /** A whole number of cents times a whole number is a whole number of cents. */
  lemma CentsScale(a: real, n: int)
    requires IsCents(a)
    ensures IsCents(a * n as real)
  {
    var ka := (a * 100.0).Floor;
    assert (a * n as real) * 100.0 == (ka * n) as real;
  }

  /** `b` raised to the natural power `n`, as `Math.pow` on these arguments. */
  function Pow(b: real, n: nat): real
  {
    if n == 0 then 1.0 else b * Pow(b, n - 1)
  }

  /** One more factor of the base. */
  lemma PowStep(b: real, n: nat)
    requires n >= 1
    ensures Pow(b, n) == b * Pow(b, n - 1)
  {
  }

  /** A base above 1 raised to a positive power stays above 1. */
  lemma {:induction false} PowAboveOne(b: real, n: nat)
    requires b > 1.0 && n >= 1
    ensures Pow(b, n) > 1.0
  {
    if n > 1 {
      PowAboveOne(b, n - 1);
      assert b * Pow(b, n - 1) > 1.0 * Pow(b, n - 1);
    }
  }
}
