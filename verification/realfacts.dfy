/**
  Small facts of ordered-field arithmetic over `real`, kept apart so that each
  nonlinear step is proved in a context without the exponential's laws.
 */
module RealFacts {

  /** Multiplying by a positive constant keeps a strict order. */
  lemma MulStrict(k: real, a: real, b: real)
    requires k > 0.0 && a < b
    ensures k * a < k * b
  {
  }

  /** For a positive rate a later time gives a strictly smaller exponent. */
  lemma DecayExponentOrder(k: real, t1: real, t2: real)
    requires k > 0.0 && t1 < t2
    ensures -k * t2 < -k * t1
  {
    MulStrict(k, t1, t2);
    assert -k * t2 == -(k * t2);
    assert -k * t1 == -(k * t1);
  }

  /** The exponent -k * t of a decay is not positive for k, t >= 0, and
      negative for k, t > 0. */
  lemma DecayExponentSign(k: real, t: real)
    requires k >= 0.0 && t >= 0.0
    ensures -k * t <= 0.0
    ensures k > 0.0 && t > 0.0 ==> -k * t < 0.0
  {
    if k > 0.0 && t > 0.0 {
      MulStrict(k, 0.0, t);
    }
  }

  /** A product of positive numbers is positive. */
  lemma MulPos(a: real, b: real)
    requires a > 0.0 && b > 0.0
    ensures a * b > 0.0
  {
  }

  /** Scaling a non-negative number by a factor at most 1 does not increase it. */
  lemma MulAtMost(c: real, e: real)
    requires c >= 0.0 && e <= 1.0
    ensures c * e <= c
  {
    assert c * e <= c * 1.0;
  }

  /** Scaling `c` by a positive factor `e` keeps its sign, and by a factor at
      most 1 (strictly below 1) never increases (strictly decreases) a
      non-negative (positive) value. */
  lemma ScaleByFactor(c: real, e: real)
    requires e > 0.0
    ensures c > 0.0 <==> c * e > 0.0
    ensures c == 0.0 <==> c * e == 0.0
    ensures c >= 0.0 && e <= 1.0 ==> c * e <= c
    ensures c > 0.0 && e < 1.0 ==> c * e < c
  {
    if c > 0.0 && e <= 1.0 {
      assert c * e <= c * 1.0;
    }
    if c > 0.0 && e < 1.0 {
      MulStrict(c, e, 1.0);
    }
    if c < 0.0 {
      assert c * e < 0.0;
    }
  }

  /** Multiplication is associative (stated for use on exponential factors). */
  lemma MulAssoc(a: real, b: real, c: real)
    ensures a * (b * c) == (a * b) * c
  {
  }

  /** A non-zero factor can be cancelled from both sides. */
  lemma CancelNonZero(x: real, y: real, d: real)
    requires d != 0.0
    requires x * d == y * d
    ensures x == y
  {
    assert (x - y) * d == 0.0;
  }

  /** A quotient by a positive divisor has the sign of its numerator. */
  lemma QuotientSign(c: real, k: real)
    requires k > 0.0
    ensures c >= 0.0 ==> c / k >= 0.0
    ensures c > 0.0 ==> c / k > 0.0
  {
    assert (c / k) * k == c;
    if c / k < 0.0 {
      MulStrict(k, c / k, 0.0);
    }
  }

  /** Dividing by a positive divisor keeps a strict order. */
  lemma QuotientOrder(c1: real, c2: real, k: real)
    requires k > 0.0 && c1 < c2
    ensures c1 / k < c2 / k
  {
    QuotientSign(c2 - c1, k);
    assert (c2 - c1) / k == c2 / k - c1 / k;
  }

  /** A quotient is characterised by its product with the divisor. */
  lemma DivIsUnique(x: real, y: real, q: real)
    requires y != 0.0
    requires q * y == x
    ensures x / y == q
  {
  }

  /** Two quotients are equal when their cross products are. */
  lemma DivCross(x: real, y: real, u: real, v: real)
    requires y != 0.0 && v != 0.0
    requires x * v == u * y
    ensures x / y == u / v
  {
    var q := u / v;
    assert q * v == u;
    assert q * y * v == u * y;
    assert (q * y) * v == x * v;
    assert q * y == x;
    DivIsUnique(x, y, q);
  }

  /** A positive numerator over a larger positive divisor gives a strictly
      smaller quotient. */
  lemma DivByLarger(num: real, d1: real, d2: real)
    requires num > 0.0 && 0.0 < d1 < d2
    ensures 0.0 < num / d2 < num / d1
  {
    var q1 := num / d1;
    var q2 := num / d2;
    assert q1 * d1 == num;
    assert q2 * d2 == num;
    assert q2 > 0.0;
    MulStrict(q2, d1, d2);
    assert q2 * d1 < q1 * d1;
  }

  /** Products of ordered factors are ordered: 0 < a1 <= a2 and 0 <= b1 < b2
      give a1 * b1 < a2 * b2. */
  lemma ProductOrder(a1: real, b1: real, a2: real, b2: real)
    requires 0.0 < a1 <= a2 && 0.0 <= b1 < b2
    ensures a1 * b1 < a2 * b2
  {
    assert a1 * b1 <= a2 * b1;
    MulStrict(a2, b1, b2);
  }

  /** Multiplying by a non-negative constant keeps a weak order. */
  lemma MulAtLeast(k: real, a: real, b: real)
    requires k >= 0.0 && a <= b
    ensures k * a <= k * b
  {
    assert k * b - k * a == k * (b - a);
  }

  /** A non-negative number times a non-positive one is not positive. */
  lemma MulNonPositive(a: real, b: real)
    requires a >= 0.0 && b <= 0.0
    ensures a * b <= 0.0
  {
    MulAtLeast(a, b, 0.0);
  }

  /** If a / eps < u and v is the reciprocal of u, then a * v < eps. */
  lemma BelowReciprocal(a: real, eps: real, u: real, v: real)
    requires a >= 0.0 && eps > 0.0 && v > 0.0
    requires a / eps < u && v * u == 1.0
    ensures a * v < eps
  {
    assert (a / eps) * eps == a;
    MulStrict(eps, a / eps, u);
    MulStrict(v, a, eps * u);
    assert v * (eps * u) == eps * (v * u);
  }

  /** A lower bound on c gives one on c / k: c >= m * k implies c / k >= m. */
  lemma QuotientAtLeast(c: real, m: real, k: real)
    requires k > 0.0 && c >= m * k
    ensures c / k >= m
  {
    DivIsUnique(m * k, k, m);
    if c > m * k {
      QuotientOrder(m * k, c, k);
    }
  }

  /** A lower bound on t gives one on k * t: t >= v / k implies k * t >= v. */
  lemma ScaledAtLeast(t: real, v: real, k: real)
    requires k > 0.0 && t >= v / k
    ensures k * t >= v
  {
    MulAtLeast(k, v / k, t);
    assert k * (v / k) == v;
  }

  /** The induction step of Bernoulli's inequality: from p >= 1 + k * (b - 1)
      follows b * p >= 1 + (k + 1) * (b - 1), for b >= 1 and k >= 0. */
  lemma BernoulliStep(b: real, k: real, p: real)
    requires b >= 1.0 && k >= 0.0
    requires p >= 1.0 + k * (b - 1.0)
    ensures b * p >= 1.0 + (k + 1.0) * (b - 1.0)
  {
    MulAtLeast(b, 1.0 + k * (b - 1.0), p);
    MulAtLeast(k, 0.0, b - 1.0);
    MulAtLeast(k * (b - 1.0), 0.0, b - 1.0);
    assert b * (1.0 + k * (b - 1.0)) == 1.0 + (k + 1.0) * (b - 1.0) + k * (b - 1.0) * (b - 1.0);
  }
}
