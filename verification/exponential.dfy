/**
  The natural exponential, as the kinetic formulas use it.

  Dafny's reals have no transcendental functions, so the model never fixes one
  particular `exp`. Every formula instead receives an `exp: real -> real` and
  requires the laws of the exponential that the proofs rely on. Any property
  proved here therefore holds for the true exponential over the ideal reals.
 */
module Exponential {
  import opened RealFacts

  /** Real addition as a function, so that the multiplicative law below is
      only instantiated where a proof mentions `Sum(x, y)`. */
  function Sum(x: real, y: real): real
  {
    x + y
  }

  /** The order of the reals as a predicate, so that monotonicity is only
      instantiated where a proof mentions `Below(x, y)`. */
  predicate Below(x: real, y: real)
  {
    x < y
  }

  /** The laws of the real exponential used by the model. */
  ghost predicate IsExponential(exp: real -> real)
  {
    && exp(0.0) == 1.0
    && (forall x :: exp(x) > 0.0)
    && (forall x, y {:trigger Below(x, y)} :: Below(x, y) ==> exp(x) < exp(y))
    && (forall x, y {:trigger Sum(x, y)} :: exp(Sum(x, y)) == exp(x) * exp(y))
  }

  /** On the non-positive half-line the exponential is a factor in (0, 1],
      and strictly below 1 away from the origin. */
  lemma DecayFactor(exp: real -> real, x: real)
    requires IsExponential(exp)
    requires x <= 0.0
    ensures 0.0 < exp(x) <= 1.0
    ensures x < 0.0 ==> exp(x) < 1.0
  {
    if x < 0.0 {
      assert Below(x, 0.0);
    }
  }

  /** The exponential is strictly increasing. */
  lemma ExpStrictlyIncreasing(exp: real -> real, x: real, y: real)
    requires IsExponential(exp)
    requires x < y
    ensures exp(x) < exp(y)
  {
    assert Below(x, y);
  }

  /** exp(x + y) = exp(x) * exp(y), stated on `+` itself. */
  lemma ProductOfExponentials(exp: real -> real, x: real, y: real)
    requires IsExponential(exp)
    ensures exp(x + y) == exp(x) * exp(y)
  {
    assert exp(Sum(x, y)) == exp(x) * exp(y);
  }

  /** The n-th power of b. */
  function Power(b: real, n: nat): real
  {
    if n == 0 then 1.0 else b * Power(b, n - 1)
  }

  /** At the naturals the exponential is a power of exp(1). */
  lemma {:induction false} ExpOfNatural(exp: real -> real, n: nat)
    requires IsExponential(exp)
    ensures exp(n as real) == Power(exp(1.0), n)
  {
    if n > 0 {
      ExpOfNatural(exp, n - 1);
      ProductOfExponentials(exp, 1.0, (n - 1) as real);
      assert 1.0 + (n - 1) as real == n as real;
    }
  }

  /** Bernoulli's inequality: b^n >= 1 + n * (b - 1) for b >= 1. */
  lemma {:induction false} PowerAtLeastLinear(b: real, n: nat)
    requires b >= 1.0
    ensures Power(b, n) >= 1.0 + n as real * (b - 1.0)
  {
    if n > 0 {
      PowerAtLeastLinear(b, n - 1);
      BernoulliStep(b, (n - 1) as real, Power(b, n - 1));
      assert (n - 1) as real + 1.0 == n as real;
    }
  }

  /** A natural n at which b^n exceeds m, for a base b > 1. */
  function EscapeIndex(b: real, m: real): nat
  {
    if b <= 1.0 || m < 1.0 then 0 else (m / (b - 1.0)).Floor + 1
  }

  /** The exponential is unbounded: it exceeds m at EscapeIndex(exp(1), m). */
  lemma ExpExceeds(exp: real -> real, m: real)
    requires IsExponential(exp)
    ensures exp(EscapeIndex(exp(1.0), m) as real) > m
  {
    var b := exp(1.0);
    ExpStrictlyIncreasing(exp, 0.0, 1.0);
    var n := EscapeIndex(b, m);
    ExpOfNatural(exp, n);
    PowerAtLeastLinear(b, n);
    if m >= 1.0 {
      var q := m / (b - 1.0);
      assert q * (b - 1.0) == m;
      assert q < n as real;
      MulStrict(b - 1.0, q, n as real);
    }
  }

  /** The point from which a * exp(-x) stays below eps. */
  function VanishingPoint(exp: real -> real, a: real, eps: real): real
    requires eps > 0.0
  {
    EscapeIndex(exp(1.0), a / eps) as real
  }

  /** a * exp(-x) tends to 0: it is below eps once x reaches
      VanishingPoint(exp, a, eps). */
  lemma ScaledExpVanishes(exp: real -> real, a: real, eps: real, x: real)
    requires IsExponential(exp)
    requires a >= 0.0 && eps > 0.0
    requires x >= VanishingPoint(exp, a, eps)
    ensures a * exp(-x) < eps
  {
    var n := EscapeIndex(exp(1.0), a / eps) as real;
    ExpExceeds(exp, a / eps);
    ExpAtMost(exp, -x, -n);
    ExpReciprocal(exp, n);
    BelowReciprocal(a, eps, exp(n), exp(-n));
    MulAtLeast(a, exp(-x), exp(-n));
  }

  /** The exponential is weakly increasing. */
  lemma ExpAtMost(exp: real -> real, x: real, y: real)
    requires IsExponential(exp)
    requires x <= y
    ensures exp(x) <= exp(y)
  {
    if x < y {
      ExpStrictlyIncreasing(exp, x, y);
    }
  }

  /** exp(-y) is the reciprocal of exp(y). */
  lemma ExpReciprocal(exp: real -> real, y: real)
    requires IsExponential(exp)
    ensures exp(-y) * exp(y) == 1.0
  {
    ProductOfExponentials(exp, -y, y);
    assert -y + y == 0.0;
  }
}
