/**
  The three closed-form kinetic laws of `InteractiveKineticModel`:
  competitive inhibition of the growth rate, single-constant decay of the
  inhibitor concentration, and the two-branch population growth rule.
  All quantities are ideal reals; `exp` is any function with the laws of the
  exponential (see module Exponential).

  The laws themselves carry no postconditions: their properties are stated by
  the lemmas below, each of which does its nonlinear steps through the small
  facts of module RealFacts.
 */
module Kinetics {
  import opened Exponential
  import opened RealFacts

  /** Initial population N0, the default argument of the growth law. */
  const DefaultInitialPopulation: real := 1000000.0

  /** Fixed rate of the decline applied to a culture whose growth rate is not positive. */
  const DeclineRate: real := 0.1

  // ---------------------------------------------------------------------------
  // Competitive inhibition
  // ---------------------------------------------------------------------------

  /** The law mu_max / (1 + c / Ki) is defined: Ki is not zero and neither is
      the denominator. */
  predicate InhibitionDefined(c: real, ki: real)
  {
    ki != 0.0 && 1.0 + c / ki != 0.0
  }

  /** Growth rate left by an inhibitor at concentration `c` with inhibition
      constant `ki`, for a maximal rate `muMax`. */
  function Inhibition(c: real, muMax: real, ki: real): real
    requires InhibitionDefined(c, ki)
  {
    muMax / (1.0 + c / ki)
  }

  /** The rate removed by the inhibitor is the fraction c / (Ki + c) of the
      maximal rate (the occupancy of competitive binding); with no inhibitor
      the rate is maximal. */
  lemma InhibitionOccupancy(c: real, muMax: real, ki: real)
    requires InhibitionDefined(c, ki)
    ensures ki + c != 0.0
    ensures muMax - Inhibition(c, muMax, ki) == muMax * (c / (ki + c))
    ensures c == 0.0 ==> Inhibition(c, muMax, ki) == muMax
  {
    var d := 1.0 + c / ki;
    var mu := muMax / d;
    assert (c / ki) * ki == c;
    assert d * ki == ki + c;
    assert mu * d == muMax;
    var occ := c / (ki + c);
    assert occ * (ki + c) == c;
    assert (muMax - mu) * (ki + c) == muMax * occ * (ki + c) by {
      assert (muMax - mu) * d == muMax * (c / ki);
      assert (muMax - mu) * d * ki == muMax * c;
    }
    CancelNonZero(muMax - mu, muMax * occ, ki + c);
  }

  /** For a positive maximal rate and Ki, a non-negative concentration leaves
      a rate in (0, mu_max], equal to mu_max only without inhibitor. */
  lemma InhibitionBounds(c: real, muMax: real, ki: real)
    requires ki > 0.0 && muMax > 0.0 && c >= 0.0
    ensures InhibitionDefined(c, ki)
    ensures 0.0 < Inhibition(c, muMax, ki) <= muMax
    ensures Inhibition(c, muMax, ki) == muMax <==> c == 0.0
  {
    var d := 1.0 + c / ki;
    QuotientSign(c, ki);
    if c > 0.0 {
      DivByLarger(muMax, 1.0, d);
    }
  }

  /** With positive constants the response is strictly decreasing in the
      concentration. */
  lemma InhibitionStrictlyDecreasing(c1: real, c2: real, muMax: real, ki: real)
    requires ki > 0.0 && muMax > 0.0
    requires 0.0 <= c1 < c2
    ensures InhibitionDefined(c1, ki) && InhibitionDefined(c2, ki)
    ensures Inhibition(c2, muMax, ki) < Inhibition(c1, muMax, ki)
  {
    QuotientSign(c1, ki);
    QuotientOrder(c1, c2, ki);
    DivByLarger(muMax, 1.0 + c1 / ki, 1.0 + c2 / ki);
  }

  /** At a positive concentration a larger inhibition constant (a weaker
      inhibitor) leaves a strictly larger growth rate. */
  lemma InhibitionIncreasingInKi(c: real, muMax: real, ki1: real, ki2: real)
    requires c > 0.0 && muMax > 0.0
    requires 0.0 < ki1 < ki2
    ensures InhibitionDefined(c, ki1) && InhibitionDefined(c, ki2)
    ensures Inhibition(c, muMax, ki1) < Inhibition(c, muMax, ki2)
  {
    DivByLarger(c, ki1, ki2);
    DivByLarger(muMax, 1.0 + c / ki2, 1.0 + c / ki1);
  }

  /** The growth rate is exactly half the maximum at c = Ki and at no other
      concentration: the identity behind reporting ED50 = Ki. */
  lemma HalfMaximalExactlyAtKi(c: real, muMax: real, ki: real)
    requires InhibitionDefined(c, ki)
    requires muMax != 0.0
    ensures Inhibition(c, muMax, ki) == muMax / 2.0 <==> c == ki
  {
    var d := 1.0 + c / ki;
    var mu := muMax / d;
    assert mu * d == muMax;
    if mu == muMax / 2.0 {
      assert muMax / 2.0 * d == muMax;
      CancelNonZero(d, 2.0, muMax / 2.0);
      assert (c / ki) * ki == c;
    }
    if c == ki {
      assert c / ki == 1.0;
      DivIsUnique(muMax, 2.0, mu);
    }
  }

  /** The rate tends to 0 as the concentration grows: it is below any
      eps > 0 once c >= mu_max * Ki / eps. */
  lemma InhibitionVanishes(c: real, muMax: real, ki: real, eps: real)
    requires muMax > 0.0 && ki > 0.0 && eps > 0.0
    requires c >= muMax * ki / eps
    ensures InhibitionDefined(c, ki)
    ensures 0.0 < Inhibition(c, muMax, ki) < eps
  {
    var m := muMax / eps;
    assert m * eps == muMax;
    DivIsUnique(muMax * ki, eps, m * ki);
    QuotientSign(muMax, eps);
    MulPos(m, ki);
    InhibitionBounds(c, muMax, ki);
    QuotientAtLeast(c, m, ki);
    DivByLarger(muMax, m, 1.0 + c / ki);
    DivIsUnique(muMax, m, eps);
  }

  // ---------------------------------------------------------------------------
  // Pharmacokinetics
  // ---------------------------------------------------------------------------

  /** Inhibitor concentration at time `t` after starting at `c0`: a single
      exponential decay whose constant is the sum ka + ke. */
  function Pharmacokinetic(t: real, c0: real, ka: real, ke: real, exp: real -> real): real
  {
    c0 * exp(-(ka + ke) * t)
  }

  /** At time 0 the concentration is the initial one; it keeps the sign of the
      initial concentration, and for a non-negative start, a non-negative
      constant and t >= 0 it never exceeds the start. */
  lemma PharmacokineticBounds(t: real, c0: real, ka: real, ke: real, exp: real -> real)
    requires IsExponential(exp)
    ensures t == 0.0 ==> Pharmacokinetic(t, c0, ka, ke, exp) == c0
    ensures c0 > 0.0 <==> Pharmacokinetic(t, c0, ka, ke, exp) > 0.0
    ensures c0 == 0.0 <==> Pharmacokinetic(t, c0, ka, ke, exp) == 0.0
    ensures c0 >= 0.0 && ka + ke >= 0.0 && t >= 0.0 ==> Pharmacokinetic(t, c0, ka, ke, exp) <= c0
  {
    assert exp(-(ka + ke) * t) > 0.0;
    ScaleByFactor(c0, exp(-(ka + ke) * t));
    if t == 0.0 {
      assert -(ka + ke) * t == 0.0;
    }
    if ka + ke >= 0.0 && t >= 0.0 {
      DecayExponentSign(ka + ke, t);
      DecayFactor(exp, -(ka + ke) * t);
    }
  }

  /** Only the combined constant ka + ke matters. */
  lemma PharmacokineticCombinedConstant(t: real, c0: real, ka1: real, ke1: real, ka2: real, ke2: real, exp: real -> real)
    requires ka1 + ke1 == ka2 + ke2
    ensures Pharmacokinetic(t, c0, ka1, ke1, exp) == Pharmacokinetic(t, c0, ka2, ke2, exp)
  {
    var x1, x2 := -(ka1 + ke1) * t, -(ka2 + ke2) * t;
    assert x1 == x2;
    assert exp(x1) == exp(x2);
  }

  /** With a positive decay constant and a positive start the concentration
      strictly decreases with time. */
  lemma PharmacokineticStrictlyDecreasing(t1: real, t2: real, c0: real, ka: real, ke: real, exp: real -> real)
    requires IsExponential(exp)
    requires ka + ke > 0.0 && c0 > 0.0
    requires t1 < t2
    ensures Pharmacokinetic(t2, c0, ka, ke, exp) < Pharmacokinetic(t1, c0, ka, ke, exp)
  {
    DecayExponentOrder(ka + ke, t1, t2);
    ExpStrictlyIncreasing(exp, -(ka + ke) * t2, -(ka + ke) * t1);
    MulStrict(c0, exp(-(ka + ke) * t2), exp(-(ka + ke) * t1));
  }

  /** The closed form is the flow of first-order decay: running for t and then
      for s from the concentration reached is the same as running for t + s. */
  lemma PharmacokineticFlow(t: real, s: real, c0: real, ka: real, ke: real, exp: real -> real)
    requires IsExponential(exp)
    ensures Pharmacokinetic(t + s, c0, ka, ke, exp)
         == Pharmacokinetic(s, Pharmacokinetic(t, c0, ka, ke, exp), ka, ke, exp)
  {
    assert -(ka + ke) * (t + s) == -(ka + ke) * t + -(ka + ke) * s;
    ProductOfExponentials(exp, -(ka + ke) * t, -(ka + ke) * s);
    MulAssoc(c0, exp(-(ka + ke) * t), exp(-(ka + ke) * s));
  }

  /** The concentration decays to 0: from a non-negative start with a
      positive constant it is below any eps > 0 from time
      VanishingPoint(exp, c0, eps) / (ka + ke) on. */
  lemma PharmacokineticVanishes(t: real, c0: real, ka: real, ke: real, eps: real, exp: real -> real)
    requires IsExponential(exp)
    requires c0 >= 0.0 && ka + ke > 0.0 && eps > 0.0
    requires t >= VanishingPoint(exp, c0, eps) / (ka + ke)
    ensures 0.0 <= Pharmacokinetic(t, c0, ka, ke, exp) < eps
  {
    PharmacokineticBounds(t, c0, ka, ke, exp);
    ScaledAtLeast(t, VanishingPoint(exp, c0, eps), ka + ke);
    ScaledExpVanishes(exp, c0, eps, (ka + ke) * t);
    var x1, x2 := -(ka + ke) * t, -((ka + ke) * t);
    assert x1 == x2;
    assert exp(x1) == exp(x2);
  }

  // ---------------------------------------------------------------------------
  // Population growth
  // ---------------------------------------------------------------------------

  /** The logistic branch divides by N0 + (K_max - N0) * exp(-mu * t); the
      decline branch is always defined. */
  predicate GrowthDefined(t: real, mu: real, kMax: real, n0: real, exp: real -> real)
  {
    mu <= 0.0 || n0 + (kMax - n0) * exp(-mu * t) != 0.0
  }

  /** Population at time `t` from `n0` cells with specific growth rate `mu`:
      a fixed exponential decline when the rate is not positive, the logistic
      closed form towards the carrying capacity `kMax` otherwise. */
  function PopulationGrowth(t: real, mu: real, kMax: real, n0: real, exp: real -> real): real
    requires GrowthDefined(t, mu, kMax, n0, exp)
  {
    if mu <= 0.0 then
      n0 * exp(-DeclineRate * t)
    else
      kMax * n0 / (n0 + (kMax - n0) * exp(-mu * t))
  }

  /** Both branches start from the initial population. */
  lemma PopulationAtTimeZero(mu: real, kMax: real, n0: real, exp: real -> real)
    requires IsExponential(exp)
    requires GrowthDefined(0.0, mu, kMax, n0, exp)
    ensures PopulationGrowth(0.0, mu, kMax, n0, exp) == n0
  {
    assert -mu * 0.0 == 0.0;
    assert -DeclineRate * 0.0 == 0.0;
    if mu > 0.0 {
      assert n0 + (kMax - n0) * exp(0.0) == kMax;
      DivIsUnique(kMax * n0, kMax, n0);
    }
  }

  /** For a positive carrying capacity, a positive start and t >= 0 the
      logistic denominator is positive, so the growth law is defined. */
  lemma GrowthDefinedForward(t: real, mu: real, kMax: real, n0: real, exp: real -> real)
    requires IsExponential(exp)
    requires kMax > 0.0 && n0 > 0.0 && t >= 0.0
    ensures GrowthDefined(t, mu, kMax, n0, exp)
    ensures mu > 0.0 ==> n0 + (kMax - n0) * exp(-mu * t) > 0.0
  {
    if mu > 0.0 {
      DecayExponentSign(mu, t);
      DecayFactor(exp, -mu * t);
      LogisticDenominatorPositive(exp(-mu * t), kMax, n0);
    }
  }

  /** N0 + (K_max - N0) * e = N0 * (1 - e) + K_max * e is positive for a
      decay factor e in (0, 1]. */
  lemma LogisticDenominatorPositive(e: real, kMax: real, n0: real)
    requires kMax > 0.0 && n0 > 0.0 && 0.0 < e <= 1.0
    ensures n0 + (kMax - n0) * e > 0.0
  {
    assert n0 + (kMax - n0) * e == n0 * (1.0 - e) + kMax * e;
    MulPos(kMax, e);
    MulAtMost(n0, e);
    assert n0 * (1.0 - e) == n0 - n0 * e;
  }

  /** The logistic value is strictly decreasing in the decay factor
      exp(-mu * t) when 0 < N0 < K_max. */
  lemma LogisticDecreasingInFactor(e1: real, e2: real, kMax: real, n0: real)
    requires 0.0 < n0 < kMax
    requires 0.0 < e1 < e2
    ensures n0 + (kMax - n0) * e1 > 0.0
    ensures kMax * n0 / (n0 + (kMax - n0) * e2) < kMax * n0 / (n0 + (kMax - n0) * e1)
  {
    MulStrict(kMax - n0, e1, e2);
    MulStrict(kMax - n0, 0.0, e1);
    MulStrict(kMax, 0.0, n0);
    DivByLarger(kMax * n0, n0 + (kMax - n0) * e1, n0 + (kMax - n0) * e2);
  }

  /** For a decay factor e in (0, 1] and 0 < N0 < K_max the logistic value
      lies in [N0, K_max). */
  lemma LogisticFactorBounds(e: real, kMax: real, n0: real)
    requires 0.0 < n0 < kMax && 0.0 < e <= 1.0
    ensures n0 + (kMax - n0) * e > 0.0
    ensures n0 <= kMax * n0 / (n0 + (kMax - n0) * e) < kMax
  {
    var gap := kMax - n0;
    DecayShare(e, kMax, n0);
    LogisticQuotientBounds(kMax, n0, gap * e);
  }

  /** The share (K_max - N0) * e of the gap to the carrying capacity lies in
      (0, K_max - N0]. */
  lemma DecayShare(e: real, kMax: real, n0: real)
    requires 0.0 < n0 < kMax && 0.0 < e <= 1.0
    ensures 0.0 < (kMax - n0) * e <= kMax - n0
  {
    MulPos(kMax - n0, e);
    MulAtMost(kMax - n0, e);
  }

  /** K_max * N0 / (N0 + w) lies in [N0, K_max) for 0 < w <= K_max - N0. */
  lemma LogisticQuotientBounds(kMax: real, n0: real, w: real)
    requires 0.0 < n0 && 0.0 < w <= kMax - n0
    ensures n0 + w > 0.0
    ensures n0 <= kMax * n0 / (n0 + w) < kMax
  {
    MulPos(kMax, n0);
    DivByLarger(kMax * n0, n0, n0 + w);
    DivIsUnique(kMax * n0, n0, kMax);
    DivIsUnique(kMax * n0, kMax, n0);
    if n0 + w < kMax {
      DivByLarger(kMax * n0, n0 + w, kMax);
    }
  }

  /** Logistic populations are ordered by their exponents: a larger mu * t
      gives a strictly larger population. This covers time-varying rates. */
  lemma LogisticOrderedByExponent(t1: real, mu1: real, t2: real, mu2: real, kMax: real, n0: real, exp: real -> real)
    requires IsExponential(exp)
    requires 0.0 < n0 < kMax
    requires mu1 > 0.0 && mu2 > 0.0 && t1 >= 0.0 && t2 >= 0.0
    requires mu1 * t1 < mu2 * t2
    ensures GrowthDefined(t1, mu1, kMax, n0, exp) && GrowthDefined(t2, mu2, kMax, n0, exp)
    ensures PopulationGrowth(t1, mu1, kMax, n0, exp) < PopulationGrowth(t2, mu2, kMax, n0, exp)
  {
    GrowthDefinedForward(t1, mu1, kMax, n0, exp);
    GrowthDefinedForward(t2, mu2, kMax, n0, exp);
    assert -mu2 * t2 == -(mu2 * t2) && -mu1 * t1 == -(mu1 * t1);
    ExpStrictlyIncreasing(exp, -mu2 * t2, -mu1 * t1);
    LogisticDecreasingInFactor(exp(-mu2 * t2), exp(-mu1 * t1), kMax, n0);
  }

  /** In the logistic branch with 0 < N0 < K_max and t >= 0 the population is
      positive, never below N0, strictly above N0 once t > 0, and strictly
      below the carrying capacity. */
  lemma LogisticBounds(t: real, mu: real, kMax: real, n0: real, exp: real -> real)
    requires IsExponential(exp)
    requires 0.0 < n0 < kMax && mu > 0.0 && t >= 0.0
    ensures GrowthDefined(t, mu, kMax, n0, exp)
    ensures 0.0 < n0 <= PopulationGrowth(t, mu, kMax, n0, exp) < kMax
    ensures t > 0.0 ==> n0 < PopulationGrowth(t, mu, kMax, n0, exp)
  {
    GrowthDefinedForward(t, mu, kMax, n0, exp);
    DecayExponentSign(mu, t);
    DecayFactor(exp, -mu * t);
    LogisticFactorBounds(exp(-mu * t), kMax, n0);
    LogisticUnfold(t, mu, kMax, n0, exp);
    if t > 0.0 {
      LogisticAboveInitial(t, mu, kMax, n0, exp);
    }
  }

  /** The logistic branch, with the population as an opaque argument. */
  lemma LogisticUnfold(t: real, mu: real, kMax: real, n: real, exp: real -> real)
    requires mu > 0.0 && GrowthDefined(t, mu, kMax, n, exp)
    ensures PopulationGrowth(t, mu, kMax, n, exp) == kMax * n / (n + (kMax - n) * exp(-mu * t))
  {
  }

  /** After a positive time the logistic population has left N0. */
  lemma LogisticAboveInitial(t: real, mu: real, kMax: real, n0: real, exp: real -> real)
    requires IsExponential(exp)
    requires 0.0 < n0 < kMax && mu > 0.0 && t > 0.0
    ensures GrowthDefined(t, mu, kMax, n0, exp)
    ensures n0 < PopulationGrowth(t, mu, kMax, n0, exp)
  {
    MulStrict(mu, 0.0, t);
    LogisticOrderedByExponent(0.0, mu, t, mu, kMax, n0, exp);
    PopulationAtTimeZero(mu, kMax, n0, exp);
  }

  /** In the logistic branch the population strictly increases with time. */
  lemma LogisticStrictlyIncreasing(t1: real, t2: real, mu: real, kMax: real, n0: real, exp: real -> real)
    requires IsExponential(exp)
    requires 0.0 < n0 < kMax && mu > 0.0
    requires 0.0 <= t1 < t2
    ensures GrowthDefined(t1, mu, kMax, n0, exp) && GrowthDefined(t2, mu, kMax, n0, exp)
    ensures PopulationGrowth(t1, mu, kMax, n0, exp) < PopulationGrowth(t2, mu, kMax, n0, exp)
  {
    MulStrict(mu, t1, t2);
    LogisticOrderedByExponent(t1, mu, t2, mu, kMax, n0, exp);
  }

  /** A non-viable culture (mu <= 0) stays positive and strictly declines with
      time, whatever its rate and the carrying capacity. */
  lemma DeclineStrictlyDecreasing(t1: real, t2: real, mu: real, kMax: real, n0: real, exp: real -> real)
    requires IsExponential(exp)
    requires mu <= 0.0 && n0 > 0.0
    requires t1 < t2
    ensures 0.0 < PopulationGrowth(t2, mu, kMax, n0, exp) < PopulationGrowth(t1, mu, kMax, n0, exp)
  {
    DecayExponentOrder(DeclineRate, t1, t2);
    ExpStrictlyIncreasing(exp, -DeclineRate * t2, -DeclineRate * t1);
    MulStrict(n0, exp(-DeclineRate * t2), exp(-DeclineRate * t1));
    MulStrict(n0, 0.0, exp(-DeclineRate * t2));
    DeclineUnfold(t1, mu, kMax, n0, exp);
    DeclineUnfold(t2, mu, kMax, n0, exp);
  }

  /** The decline branch, with the population as an opaque argument. */
  lemma DeclineUnfold(t: real, mu: real, kMax: real, n: real, exp: real -> real)
    requires mu <= 0.0
    ensures PopulationGrowth(t, mu, kMax, n, exp) == n * exp(-DeclineRate * t)
  {
  }

  /** The branch is chosen by the sign of mu: from 0 < N0 < K_max the
      population has grown after any positive time exactly when mu > 0. */
  lemma GrowsExactlyWhenRatePositive(t: real, mu: real, kMax: real, n0: real, exp: real -> real)
    requires IsExponential(exp)
    requires 0.0 < n0 < kMax && t > 0.0
    ensures GrowthDefined(t, mu, kMax, n0, exp)
    ensures PopulationGrowth(t, mu, kMax, n0, exp) > n0 <==> mu > 0.0
  {
    GrowthDefinedForward(t, mu, kMax, n0, exp);
    if mu > 0.0 {
      LogisticBounds(t, mu, kMax, n0, exp);
    } else {
      DeclineStrictlyDecreasing(0.0, t, mu, kMax, n0, exp);
      PopulationAtTimeZero(mu, kMax, n0, exp);
    }
  }

  /** The logistic closed form is characterised by its odds: K_max / N(t) - 1
      decays exactly like exp(-mu * t) from its initial value K_max / N0 - 1. */
  lemma LogisticOdds(t: real, mu: real, kMax: real, n0: real, exp: real -> real)
    requires IsExponential(exp)
    requires mu > 0.0 && kMax > 0.0 && n0 > 0.0 && t >= 0.0
    ensures GrowthDefined(t, mu, kMax, n0, exp)
    ensures PopulationGrowth(t, mu, kMax, n0, exp) > 0.0
    ensures kMax / PopulationGrowth(t, mu, kMax, n0, exp) - 1.0 == (kMax / n0 - 1.0) * exp(-mu * t)
  {
    LogisticClearedDenominator(t, mu, kMax, n0, exp);
    OddsAlgebra(exp(-mu * t), kMax, n0, PopulationGrowth(t, mu, kMax, n0, exp));
  }

  /** In the logistic branch with positive K_max, N0 and t >= 0 the population
      is positive and times its denominator gives K_max * N0. */
  lemma LogisticClearedDenominator(t: real, mu: real, kMax: real, n0: real, exp: real -> real)
    requires IsExponential(exp)
    requires mu > 0.0 && kMax > 0.0 && n0 > 0.0 && t >= 0.0
    ensures GrowthDefined(t, mu, kMax, n0, exp)
    ensures n0 + (kMax - n0) * exp(-mu * t) > 0.0
    ensures PopulationGrowth(t, mu, kMax, n0, exp) > 0.0
    ensures PopulationGrowth(t, mu, kMax, n0, exp) * (n0 + (kMax - n0) * exp(-mu * t)) == kMax * n0
  {
    GrowthDefinedForward(t, mu, kMax, n0, exp);
    MulPos(kMax, n0);
    QuotientSign(kMax * n0, n0 + (kMax - n0) * exp(-mu * t));
    DivIsUnique(kMax * n0, n0 + (kMax - n0) * exp(-mu * t), kMax * n0 / (n0 + (kMax - n0) * exp(-mu * t)));
  }

  /** The algebra behind LogisticOdds: if p * (N0 + (K - N0) * e) = K * N0,
      then K / p - 1 = (K / N0 - 1) * e. */
  lemma OddsAlgebra(e: real, kMax: real, n0: real, p: real)
    requires n0 > 0.0 && p > 0.0
    requires p * (n0 + (kMax - n0) * e) == kMax * n0
    ensures kMax / p - 1.0 == (kMax / n0 - 1.0) * e
  {
    DivCross(kMax, p, n0 + (kMax - n0) * e, n0);
    DivSplit(n0, (kMax - n0) * e);
    ScaledShare(kMax, n0, e);
  }

  /** (N0 + w) / N0 = 1 + w / N0. */
  lemma DivSplit(n0: real, w: real)
    requires n0 != 0.0
    ensures (n0 + w) / n0 == 1.0 + w / n0
  {
    assert (w / n0) * n0 == w;
    DivIsUnique(n0 + w, n0, 1.0 + w / n0);
  }

  /** (K - N0) * e / N0 = (K / N0 - 1) * e. */
  lemma ScaledShare(kMax: real, n0: real, e: real)
    requires n0 != 0.0
    ensures (kMax - n0) * e / n0 == (kMax / n0 - 1.0) * e
  {
    assert (kMax / n0) * n0 == kMax;
    assert ((kMax / n0 - 1.0) * e) * n0 == ((kMax / n0) * n0 - n0) * e;
    DivIsUnique((kMax - n0) * e, n0, (kMax / n0 - 1.0) * e);
  }

  /** The logistic biomass approaches the carrying capacity: from
      0 < N0 < K_max it is within any eps > 0 of K_max from time
      VanishingPoint(exp, K_max * (K_max - N0) / N0, eps) / mu on. */
  lemma LogisticApproachesCapacity(t: real, mu: real, kMax: real, n0: real, eps: real, exp: real -> real)
    requires IsExponential(exp)
    requires 0.0 < n0 < kMax && mu > 0.0 && eps > 0.0
    requires t >= VanishingPoint(exp, kMax * (kMax - n0) / n0, eps) / mu
    ensures GrowthDefined(t, mu, kMax, n0, exp)
    ensures kMax - eps < PopulationGrowth(t, mu, kMax, n0, exp) < kMax
  {
    CapacityScale(kMax, n0);
    ScaledAtLeast(t, VanishingPoint(exp, kMax * (kMax - n0) / n0, eps), mu);
    ScaledExpVanishes(exp, kMax * (kMax - n0) / n0, eps, mu * t);
    QuotientSign(VanishingPoint(exp, kMax * (kMax - n0) / n0, eps), mu);
    LogisticBounds(t, mu, kMax, n0, exp);
    LogisticUnfold(t, mu, kMax, n0, exp);
    var x1, x2 := -mu * t, -(mu * t);
    assert x1 == x2;
    assert exp(x1) == exp(x2);
    GrowthDefinedForward(t, mu, kMax, n0, exp);
    CapacityDistance(kMax, n0, exp(-mu * t), PopulationGrowth(t, mu, kMax, n0, exp));
  }

  /** The scale K_max * (K_max - N0) / N0 of the distance to the carrying
      capacity is positive. */
  lemma CapacityScale(kMax: real, n0: real)
    requires 0.0 < n0 < kMax
    ensures kMax * (kMax - n0) / n0 > 0.0
  {
    MulPos(kMax, kMax - n0);
    QuotientSign(kMax * (kMax - n0), n0);
  }

  /** From 0 < N0 < K_max, the logistic value p for a factor e > 0 is within
      (K_max * (K_max - N0) / N0) * e of K_max. */
  lemma CapacityDistance(kMax: real, n0: real, e: real, p: real)
    requires 0.0 < n0 < kMax && e > 0.0
    requires n0 + (kMax - n0) * e > 0.0
    requires p == kMax * n0 / (n0 + (kMax - n0) * e)
    ensures kMax - p <= (kMax * (kMax - n0) / n0) * e
  {
    MulPos(kMax - n0, e);
    GapQuotient(kMax, n0, (kMax - n0) * e);
    GapRegroup(kMax, kMax - n0, e, n0);
  }

  /** The distance K_max - K_max * N0 / (N0 + w) to the carrying capacity is
      at most K_max * w / N0. */
  lemma GapQuotient(kMax: real, n0: real, w: real)
    requires kMax > 0.0 && n0 > 0.0 && w >= 0.0
    ensures kMax - kMax * n0 / (n0 + w) <= kMax * w / n0
  {
    var q := kMax * n0 / (n0 + w);
    assert q * (n0 + w) == kMax * n0;
    assert (kMax - q) * (n0 + w) == kMax * w;
    DivIsUnique(kMax * w, n0 + w, kMax - q);
    if w > 0.0 {
      MulPos(kMax, w);
      DivByLarger(kMax * w, n0, n0 + w);
    }
  }

  /** K * (g * e) / N0 = (K * g / N0) * e. */
  lemma GapRegroup(kMax: real, g: real, e: real, n0: real)
    requires n0 != 0.0
    ensures kMax * (g * e) / n0 == (kMax * g / n0) * e
  {
    assert (kMax * g / n0) * n0 == kMax * g;
    assert ((kMax * g / n0) * e) * n0 == kMax * (g * e);
    DivIsUnique(kMax * (g * e), n0, (kMax * g / n0) * e);
  }
}
