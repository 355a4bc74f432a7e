/**
  The results panel: the ED50 of each compound, its relative potency and the
  Ki ratio, together with the 50 % inhibition level drawn in the comparison
  plot.
 */
module Results {
  import opened RealFacts
  import opened Kinetics
  import opened KineticData

  /** The four values the results panel reports. */
  datatype Summary = Summary(ed50Comp1: real, ed50Comp2: real, relativePotency: real, kiRatio: real)

  /** Ki2 / Ki1, guarded by the sentinel 0 when Ki1 is not positive. */
  function RelativePotency(ki1: real, ki2: real): (rp: real)
    ensures ki1 > 0.0 ==> rp * ki1 == ki2
    ensures ki1 <= 0.0 ==> rp == 0.0
  {
    if ki1 > 0.0 then ki2 / ki1 else 0.0
  }

  /** The results panel for the current parameters: under competitive
      inhibition the ED50 of a compound is its Ki; one potency value, the
      ratio of the two ED50s (or the sentinel 0), is reported both as relative
      potency and as Ki ratio. */
  function UpdateResults(p: Parameters): (s: Summary)
    ensures s.ed50Comp1 == p.kiComp1 && s.ed50Comp2 == p.kiComp2
    ensures s.relativePotency == s.kiRatio
    ensures p.kiComp1 > 0.0 ==> s.relativePotency * s.ed50Comp1 == s.ed50Comp2
    ensures p.kiComp1 <= 0.0 ==> s.relativePotency == 0.0
  {
    PotencyScalesKi(p.kiComp1, p.kiComp2);
    var potency := RelativePotency(p.kiComp1, p.kiComp2);
    Summary(p.kiComp1, p.kiComp2, potency, potency)
  }

  /** The growth rate at which the 50 % inhibition line is drawn. */
  function HalfInhibitionLevel(muMax: real): (level: real)
    ensures level + level == muMax
  {
    muMax * 0.5
  }

  /** The relative potency is the factor by which Ki1 must be scaled to give
      Ki2, and it is the sentinel 0 exactly when Ki1 is not positive (for a
      positive Ki2). */
  lemma PotencyScalesKi(ki1: real, ki2: real)
    ensures ki1 > 0.0 ==> RelativePotency(ki1, ki2) * ki1 == ki2
    ensures ki1 <= 0.0 ==> RelativePotency(ki1, ki2) == 0.0
    ensures ki2 > 0.0 ==> (RelativePotency(ki1, ki2) > 0.0 <==> ki1 > 0.0)
  {
    if ki1 > 0.0 {
      assert (ki2 / ki1) * ki1 == ki2;
      QuotientSign(ki2, ki1);
    }
  }

  /** A potency above 1 means compound 1 is the stronger inhibitor: for
      positive constants it holds exactly when Ki1 < Ki2. */
  lemma PotencyAboveOneIffFirstStronger(ki1: real, ki2: real)
    requires ki1 > 0.0 && ki2 > 0.0
    ensures RelativePotency(ki1, ki2) > 1.0 <==> ki1 < ki2
  {
    DivIsUnique(ki1, ki1, 1.0);
    if ki1 < ki2 {
      QuotientOrder(ki1, ki2, ki1);
    } else if ki2 < ki1 {
      QuotientOrder(ki2, ki1, ki1);
    }
  }

  /** The potency is an equi-effective dose ratio: compound 2 at RP times a
      concentration leaves the same growth rate as compound 1 at that
      concentration. */
  lemma PotencyIsEquieffectiveRatio(c: real, muMax: real, ki1: real, ki2: real)
    requires ki1 > 0.0 && ki2 > 0.0 && c >= 0.0
    ensures InhibitionDefined(c, ki1)
    ensures InhibitionDefined(c * RelativePotency(ki1, ki2), ki2)
    ensures Inhibition(c * RelativePotency(ki1, ki2), muMax, ki2) == Inhibition(c, muMax, ki1)
  {
    QuotientSign(c, ki1);
    QuotientSign(c, ki2);
    ScaledRatio(c, ki1, ki2);
  }

  /** (c * (k2 / k1)) / k2 = c / k1. */
  lemma ScaledRatio(c: real, ki1: real, ki2: real)
    requires ki1 > 0.0 && ki2 > 0.0
    ensures c * (ki2 / ki1) / ki2 == c / ki1
  {
    assert (ki2 / ki1) * ki1 == ki2;
    assert (c / ki1) * ki2 * ki1 == c * ki2;
    DivIsUnique(c * (ki2 / ki1), ki2, c / ki1);
  }

  /** Reporting ED50 = Ki is exact: for positive constants the growth rate
      sits on the 50 % line at the reported ED50 and at no other
      concentration. */
  lemma Ed50IsHalfInhibition(p: Parameters, c: real)
    requires p.kiComp1 > 0.0 && p.kiComp2 > 0.0 && p.muMax > 0.0 && c >= 0.0
    ensures InhibitionDefined(c, p.kiComp1) && InhibitionDefined(c, p.kiComp2)
    ensures Inhibition(c, p.muMax, p.kiComp1) == HalfInhibitionLevel(p.muMax) <==> c == UpdateResults(p).ed50Comp1
    ensures Inhibition(c, p.muMax, p.kiComp2) == HalfInhibitionLevel(p.muMax) <==> c == UpdateResults(p).ed50Comp2
  {
    InhibitionBounds(c, p.muMax, p.kiComp1);
    InhibitionBounds(c, p.muMax, p.kiComp2);
    HalfMaximalExactlyAtKi(c, p.muMax, p.kiComp1);
    HalfMaximalExactlyAtKi(c, p.muMax, p.kiComp2);
  }

  /** With the default constants compound 1 is 250/3 (about 83.3) times as
      potent as compound 2. */
  lemma DefaultSummary()
    ensures UpdateResults(Defaults) == Summary(0.12, 10.0, 250.0 / 3.0, 250.0 / 3.0)
  {
    DivIsUnique(10.0, 0.12, 250.0 / 3.0);
  }
}
