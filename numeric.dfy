/** Numeric helpers shared by the ray tracer model: the contract of the host
    square root, JavaScript's Math.min/Math.max, `clamp` (lib.js:231-233) and
    the integer power used by `reflectance`. Numbers are exact reals. */
module Numeric {

  /** `sqrt` behaves as the square root on the non-negative reals.
      Math.sqrt is a host function; every operation that needs it receives
      it as a parameter constrained by this predicate. */
  ghost predicate SqrtSpec(sqrt: real -> real) {
    forall x: real :: 0.0 <= x ==> 0.0 <= sqrt(x) && sqrt(x) * sqrt(x) == x
  }

  /** A product of two positive reals is positive. */
  lemma MulPositive(a: real, b: real)
    requires 0.0 < a && 0.0 < b
    ensures 0.0 < a * b
  {
  }

  /** A product of two non-negative reals is non-negative. */
  lemma MulNonNegative(a: real, b: real)
    requires 0.0 <= a && 0.0 <= b
    ensures 0.0 <= a * b
  {
    if 0.0 < a && 0.0 < b {
      MulPositive(a, b);
    }
  }

  /** The product of two numbers in [0, 1] lies in [0, 1] and is at most
      either factor. */
  lemma MulUnitInterval(a: real, b: real)
    requires 0.0 <= a <= 1.0 && 0.0 <= b <= 1.0
    ensures 0.0 <= a * b <= a && a * b <= b
  {
    MulNonNegative(a, b);
    MulNonNegative(a, 1.0 - b);
    MulNonNegative(1.0 - a, b);
    assert a * b == a - a * (1.0 - b);
    assert a * b == b - (1.0 - a) * b;
  }

  /** The square of a number in [-1, 1] lies in [0, 1], and is below 1
      when the number is strictly inside. */
  lemma SquareUnitInterval(c: real)
    requires -1.0 <= c <= 1.0
    ensures 0.0 <= c * c <= 1.0
    ensures -1.0 < c < 1.0 ==> c * c < 1.0
  {
    var a := Abs(c);
    assert c * c == a * a;
    MulUnitInterval(a, a);
  }

  /** A non-negative number with a positive square is positive. */
  lemma PositiveFromSquare(l: real)
    requires 0.0 <= l
    ensures 0.0 < l * l ==> 0.0 < l
  {
  }

  /** Squaring is strictly monotone on the non-negative reals. */
  lemma SquareLess(a: real, b: real)
    requires 0.0 <= a < b
    ensures a * a < b * b
  {
    MulPositive(b - a, b + a);
  }

  /** The non-negative square root is unique: any `s >= 0` with `s * s == x`
      is what `sqrt` returns. */
  lemma SqrtUnique(sqrt: real -> real, x: real, s: real)
    requires SqrtSpec(sqrt)
    requires 0.0 <= s && s * s == x
    ensures sqrt(x) == s
  {
    var q := sqrt(x);
    assert 0.0 <= q && q * q == x;
    assert (q - s) * (q + s) == q * q - s * s == 0.0;
    if q > s {
      MulPositive(q - s, q + s);
    } else if q < s {
      MulPositive(s - q, q + s);
    }
  }

  /** The square root is monotone and maps [0, 1] into [0, 1]. */
  lemma SqrtAtMostOne(sqrt: real -> real, x: real)
    requires SqrtSpec(sqrt)
    requires 0.0 <= x <= 1.0
    ensures 0.0 <= sqrt(x) <= 1.0
  {
    var q := sqrt(x);
    if q > 1.0 {
      MulPositive(q - 1.0, q + 1.0);
      assert false;
    }
  }

  /** Math.abs. */
  function Abs(a: real): (r: real)
    ensures 0.0 <= r && (r == a || r == -a)
  {
    if a < 0.0 then -a else a
  }

  /** Math.min for ordinary (non-NaN) numbers. */
  function Min(a: real, b: real): real {
    if a <= b then a else b
  }

  /** Math.max for ordinary (non-NaN) numbers. */
  function Max(a: real, b: real): real {
    if a >= b then a else b
  }

  /** `clamp(v, min, max)`, written as Math.max(Math.min(v, max), min).
      With `lo <= hi` the result is the point of [lo, hi] nearest to `v`;
      with `lo > hi` the lower bound wins. */
  function Clamp(v: real, lo: real, hi: real): (r: real)
    ensures lo <= hi ==> lo <= r <= hi
    ensures lo <= v <= hi ==> r == v
    ensures v < lo ==> r == lo
    ensures lo <= hi < v ==> r == hi
    ensures hi < lo ==> r == lo
  {
    Max(Min(v, hi), lo)
  }

  /** `x` raised to the natural power `n` (Math.pow with an integral exponent). */
  function Pow(x: real, n: nat): real {
    if n == 0 then 1.0 else x * Pow(x, n - 1)
  }

  /** A power of a number in [0, 1] stays in [0, 1]. */
  lemma {:induction false} PowUnitInterval(x: real, n: nat)
    requires 0.0 <= x <= 1.0
    ensures 0.0 <= Pow(x, n) <= 1.0
  {
    if n > 0 {
      PowUnitInterval(x, n - 1);
      var p := Pow(x, n - 1);
      assert Pow(x, n) == x * p;
      assert 0.0 <= x * p by {
        if x > 0.0 && p > 0.0 { MulPositive(x, p); }
      }
      assert x * p <= p by {
        if 1.0 - x > 0.0 && p > 0.0 { MulPositive(1.0 - x, p); }
      }
    }
  }
}
