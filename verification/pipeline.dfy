/**
  The per-sample pipeline of the simulator (`calculate_kinetic_data`): an
  exact-real time grid over the horizon of 8 hours, and at every grid time
  the chain drug concentration -> growth rate -> biomass.

  The grid idealises NumPy's `arange(0, 8 + dt, dt)` with `dt = 8 / n` to
  exact reals; the logarithm of the biomass, which the program also stores,
  is not part of this model.
 */
module KineticData {
  import opened Exponential
  import opened RealFacts
  import opened Kinetics

  /** The parameters of the simulator: all but the carrying capacity, which
      stays at 1e9, are set by sliders. */
  datatype Parameters = Parameters(
    muMax: real,        // maximal growth rate (1/h)
    kiComp1: real,      // inhibition constant of compound 1 (mmol/L)
    kiComp2: real,      // inhibition constant of compound 2 (mmol/L)
    kMax: real,         // carrying capacity (cells)
    ka: real,           // absorption constant (1/h)
    ke: real,           // elimination constant (1/h)
    initialConc: real,  // initial drug concentration (mmol/L)
    timePoints: int)    // number of grid intervals over the horizon

  /** The values the simulator starts with and resets to. */
  const Defaults: Parameters := Parameters(0.95, 0.12, 10.0, 1000000000.0, 0.1, 0.05, 0.2, 100)

  /** The selector value that picks compound 1; any other selects compound 2. */
  const FirstCompound: string := "compound1"

  /** The simulated time span in hours. */
  const Horizon: real := 8.0

  /** One row of the kinetic table (the logarithmic biomass column aside). */
  datatype Sample = Sample(time: real, concentration: real, mu: real, rawBiomass: real)

  /** The one failure of the pipeline: a grid of zero intervals divides by zero. */
  datatype GridError = ZeroTimePoints

  datatype Result<T> = Success(value: T) | Failure(error: GridError)

  /** The inhibition constant of the selected compound. */
  function SelectedKi(p: Parameters, compound: string): real
  {
    if compound == FirstCompound then p.kiComp1 else p.kiComp2
  }

  /** The parameter ranges under which every sample is defined: a positive
      Ki for the selected compound, a non-negative initial concentration and a
      positive carrying capacity. The sliders keep every Ki >= 0.01 and the
      initial concentration >= 0.05, and the carrying capacity is fixed at
      1e9, so every reachable setting satisfies them. */
  predicate Computable(p: Parameters, compound: string)
  {
    SelectedKi(p, compound) > 0.0 && p.initialConc >= 0.0 && p.kMax > 0.0
  }

  /** The grid step 8 / n. */
  function GridStep(n: int): real
    requires n != 0
  {
    Horizon / n as real
  }

  /** The i-th grid time. */
  function GridTime(i: int, n: int): real
    requires n != 0
  {
    i as real * GridStep(n)
  }

  /** The number of grid times for n intervals. */
  function GridLength(n: int): nat
  {
    if n > 0 then n + 1 else 0
  }

  /** When `arange(0, 8 + dt, dt)` produces its i-th value, stated over exact
      reals: while i * dt lies strictly before the stop value in the step's
      direction. NumPy itself fixes the length ceil((8 + dt) / dt) up front;
      over exact reals the two agree (ArangeLength), over floats they can
      differ in the last value. */
  predicate ArangeContinues(i: nat, n: int)
    requires n != 0
  {
    if GridStep(n) > 0.0 then GridTime(i, n) < Horizon + GridStep(n)
    else GridTime(i, n) > Horizon + GridStep(n)
  }

  /** The arange rule stops exactly after GridLength(n) values: n + 1 values
      for n > 0 and none for n < 0. */
  lemma ArangeLength(i: nat, n: int)
    requires n != 0
    ensures ArangeContinues(i, n) <==> i < GridLength(n)
  {
    if n > 0 {
      StepTimesCount(n);
      QuotientSign(Horizon, n as real);
      if i < n + 1 {
        MulStrict(GridStep(n), i as real, n as real + 1.0);
      } else {
        MulAtLeast(GridStep(n), n as real + 1.0, i as real);
      }
      assert (n as real + 1.0) * GridStep(n) == Horizon + GridStep(n);
    } else {
      NegativeStep(n);
      MulNonPositive(i as real, GridStep(n));
    }
  }

  /** n * (8 / n) = 8. */
  lemma StepTimesCount(n: int)
    requires n != 0
    ensures n as real * GridStep(n) == Horizon
  {
    DivIsUnique(Horizon, n as real, Horizon / n as real);
  }

  /** For n < 0 the step lies in [-8, 0), so the stop value 8 + dt is not
      negative. */
  lemma NegativeStep(n: int)
    requires n < 0
    ensures -Horizon <= GridStep(n) < 0.0
  {
    var m := -(n as real);
    QuotientSign(Horizon, m);
    assert (Horizon / m) * m == Horizon;
    DivIsUnique(Horizon, n as real, -(Horizon / m));
    if m > 1.0 {
      DivByLarger(Horizon, 1.0, m);
    }
  }

  /** Computes the time grid like NumPy's `arange(0, 8 + dt, dt)` with
      `dt = 8 / n`, over exact reals. */
  method TimeGrid(n: int) returns (r: Result<seq<real>>)
    ensures r.Failure? <==> n == 0
    ensures r.Success? ==> |r.value| == GridLength(n)
    ensures r.Success? ==> forall i :: 0 <= i < |r.value| ==> r.value[i] == GridTime(i, n)
  {
    if n == 0 {
      return Failure(ZeroTimePoints);
    }
    var dt := Horizon / n as real;
    var stop := Horizon + dt;
    var grid: seq<real> := [];
    var i: nat := 0;
    ArangeLength(i, n);
    while if dt > 0.0 then i as real * dt < stop else i as real * dt > stop
      invariant i <= GridLength(n)
      invariant ArangeContinues(i, n) <==> i < GridLength(n)
      invariant |grid| == i
      invariant forall k :: 0 <= k < i ==> grid[k] == GridTime(k, n)
      decreases GridLength(n) - i
    {
      grid := grid + [i as real * dt];
      i := i + 1;
      ArangeLength(i, n);
    }
    return Success(grid);
  }

  /** Grid times are not negative when the grid exists. */
  lemma GridTimeNonNegative(i: nat, n: int)
    requires n > 0
    ensures GridTime(i, n) >= 0.0
  {
    QuotientSign(Horizon, n as real);
  }

  /** The grid starts at 0, ends at the horizon and is evenly spaced by 8 / n,
      so it is strictly increasing. */
  lemma GridShape(i: int, j: int, n: int)
    requires n > 0
    ensures GridTime(0, n) == 0.0 && GridTime(n, n) == Horizon
    ensures GridTime(i + 1, n) - GridTime(i, n) == GridStep(n)
    ensures i < j ==> GridTime(i, n) < GridTime(j, n)
  {
    StepTimesCount(n);
    QuotientSign(Horizon, n as real);
    if i < j {
      MulStrict(GridStep(n), i as real, j as real);
    }
  }

  /** With the default 100 intervals the grid has 101 times, 0.08 h apart. */
  lemma DefaultGrid()
    ensures GridLength(Defaults.timePoints) == 101
    ensures GridStep(Defaults.timePoints) == 0.08
  {
  }

  /** s is the sample the model computes at time t: the concentration from the
      decay law, the growth rate from the inhibition law at that concentration
      with the selected compound's Ki, and the biomass from the growth law at
      that rate, from the default initial population. */
  predicate SampleAt(s: Sample, t: real, p: Parameters, compound: string, exp: real -> real)
  {
    && s.time == t
    && s.concentration == Pharmacokinetic(t, p.initialConc, p.ka, p.ke, exp)
    && InhibitionDefined(s.concentration, SelectedKi(p, compound))
    && s.mu == Inhibition(s.concentration, p.muMax, SelectedKi(p, compound))
    && GrowthDefined(t, s.mu, p.kMax, DefaultInitialPopulation, exp)
    && s.rawBiomass == PopulationGrowth(t, s.mu, p.kMax, DefaultInitialPopulation, exp)
  }

  /** Under the slider ranges every step of the chain is defined at t >= 0. */
  lemma ChainDefined(t: real, p: Parameters, compound: string, exp: real -> real)
    requires IsExponential(exp) && Computable(p, compound) && t >= 0.0
    ensures Pharmacokinetic(t, p.initialConc, p.ka, p.ke, exp) >= 0.0
    ensures InhibitionDefined(Pharmacokinetic(t, p.initialConc, p.ka, p.ke, exp), SelectedKi(p, compound))
    ensures forall mu :: GrowthDefined(t, mu, p.kMax, DefaultInitialPopulation, exp)
  {
    PharmacokineticBounds(t, p.initialConc, p.ka, p.ke, exp);
    QuotientSign(Pharmacokinetic(t, p.initialConc, p.ka, p.ke, exp), SelectedKi(p, compound));
    forall mu {
      GrowthDefinedForward(t, mu, p.kMax, DefaultInitialPopulation, exp);
    }
  }

  /** Computes the kinetic table: one sample per grid time, in grid order. */
  method CalculateKineticData(p: Parameters, compound: string, exp: real -> real) returns (r: Result<seq<Sample>>)
    requires IsExponential(exp)
    requires Computable(p, compound)
    ensures r.Failure? <==> p.timePoints == 0
    ensures r.Success? ==> |r.value| == GridLength(p.timePoints)
    ensures r.Success? ==> forall i :: 0 <= i < |r.value| ==>
              SampleAt(r.value[i], GridTime(i, p.timePoints), p, compound, exp)
  {
    var grid := TimeGrid(p.timePoints);
    if grid.Failure? {
      return Failure(grid.error);
    }
    var times := grid.value;
    var samples: seq<Sample> := [];
    var j := 0;
    while j < |times|
      invariant 0 <= j <= |times|
      invariant |samples| == j
      invariant forall k :: 0 <= k < j ==> SampleAt(samples[k], GridTime(k, p.timePoints), p, compound, exp)
    {
      var time := times[j];
      GridTimeNonNegative(j, p.timePoints);
      ChainDefined(time, p, compound, exp);
      var concentration := Pharmacokinetic(time, p.initialConc, p.ka, p.ke, exp);
      var ki := if compound == FirstCompound then p.kiComp1 else p.kiComp2;
      var mu := Inhibition(concentration, p.muMax, ki);
      var biomass := PopulationGrowth(time, mu, p.kMax, DefaultInitialPopulation, exp);
      samples := samples + [Sample(time, concentration, mu, biomass)];
      j := j + 1;
    }
    return Success(samples);
  }

  /** Within the slider ranges (and a carrying capacity above the initial
      population) a sample's concentration lies in [0, c0], its growth rate in
      (0, mu_max] and its biomass in [N0, K_max). */
  lemma SampleBounds(s: Sample, t: real, p: Parameters, compound: string, exp: real -> real)
    requires IsExponential(exp) && Computable(p, compound)
    requires p.ka + p.ke >= 0.0 && p.muMax > 0.0 && DefaultInitialPopulation < p.kMax
    requires t >= 0.0 && SampleAt(s, t, p, compound, exp)
    ensures 0.0 <= s.concentration <= p.initialConc
    ensures 0.0 < s.mu <= p.muMax
    ensures DefaultInitialPopulation <= s.rawBiomass < p.kMax
  {
    PharmacokineticBounds(t, p.initialConc, p.ka, p.ke, exp);
    InhibitionBounds(s.concentration, p.muMax, SelectedKi(p, compound));
    LogisticBounds(t, s.mu, p.kMax, DefaultInitialPopulation, exp);
  }

  /** Along the time axis the drug washes out, so a later sample has a
      strictly lower concentration, a strictly higher growth rate and a
      strictly larger biomass. */
  lemma SamplesOrdered(s1: Sample, t1: real, s2: Sample, t2: real, p: Parameters, compound: string, exp: real -> real)
    requires IsExponential(exp) && Computable(p, compound)
    requires p.initialConc > 0.0 && p.ka + p.ke > 0.0 && p.muMax > 0.0
    requires DefaultInitialPopulation < p.kMax
    requires 0.0 <= t1 < t2
    requires SampleAt(s1, t1, p, compound, exp) && SampleAt(s2, t2, p, compound, exp)
    ensures s2.concentration < s1.concentration
    ensures s1.mu < s2.mu
    ensures s1.rawBiomass < s2.rawBiomass
  {
    PharmacokineticBounds(t2, p.initialConc, p.ka, p.ke, exp);
    PharmacokineticStrictlyDecreasing(t1, t2, p.initialConc, p.ka, p.ke, exp);
    InhibitionStrictlyDecreasing(s2.concentration, s1.concentration, p.muMax, SelectedKi(p, compound));
    InhibitionBounds(s1.concentration, p.muMax, SelectedKi(p, compound));
    ProductOrder(s1.mu, t1, s2.mu, t2);
    LogisticOrderedByExponent(t1, s1.mu, t2, s2.mu, p.kMax, DefaultInitialPopulation, exp);
  }

  /** The kinetic table is ordered along the grid as SamplesOrdered states. */
  lemma TableOrdered(samples: seq<Sample>, p: Parameters, compound: string, exp: real -> real)
    requires IsExponential(exp) && Computable(p, compound)
    requires p.initialConc > 0.0 && p.ka + p.ke > 0.0 && p.muMax > 0.0
    requires DefaultInitialPopulation < p.kMax && p.timePoints > 0
    requires forall i :: 0 <= i < |samples| ==> SampleAt(samples[i], GridTime(i, p.timePoints), p, compound, exp)
    ensures forall i, j :: 0 <= i < j < |samples| ==>
              && samples[j].concentration < samples[i].concentration
              && samples[i].mu < samples[j].mu
              && samples[i].rawBiomass < samples[j].rawBiomass
  {
    forall i, j | 0 <= i < j < |samples|
      ensures samples[j].concentration < samples[i].concentration
      ensures samples[i].mu < samples[j].mu
      ensures samples[i].rawBiomass < samples[j].rawBiomass
    {
      GridTimeNonNegative(i, p.timePoints);
      GridShape(i, j, p.timePoints);
      SamplesOrdered(samples[i], GridTime(i, p.timePoints), samples[j], GridTime(j, p.timePoints), p, compound, exp);
    }
  }

  /** With the default parameters and compound 1 the first sample is
      (0 h, 0.2 mmol/L, 0.35625 1/h, 10^6 cells). */
  lemma DefaultsAtTimeZero(s: Sample, exp: real -> real)
    requires IsExponential(exp)
    requires SampleAt(s, 0.0, Defaults, FirstCompound, exp)
    ensures s == Sample(0.0, 0.2, 0.35625, 1000000.0)
  {
    PharmacokineticBounds(0.0, 0.2, 0.1, 0.05, exp);
    assert s.concentration == 0.2;
    assert s.mu == 0.35625;
    PopulationAtTimeZero(0.35625, 1000000000.0, DefaultInitialPopulation, exp);
  }

  /** With a positive initial concentration and 0 < Ki_comp1 < Ki_comp2,
      compound 2 (the weaker inhibitor) leaves a strictly larger rate at every
      time t >= 0; its biomass is strictly larger once t > 0 and equal to
      compound 1's at t = 0. */
  lemma WeakerCompoundGrowsFaster(s1: Sample, s2: Sample, t: real, p: Parameters, exp: real -> real)
    requires IsExponential(exp)
    requires p.initialConc > 0.0 && p.muMax > 0.0 && p.kMax > DefaultInitialPopulation
    requires 0.0 < p.kiComp1 < p.kiComp2 && t >= 0.0
    requires SampleAt(s1, t, p, FirstCompound, exp) && SampleAt(s2, t, p, "compound2", exp)
    ensures s1.mu < s2.mu
    ensures t > 0.0 ==> s1.rawBiomass < s2.rawBiomass
    ensures t == 0.0 ==> s1.rawBiomass == s2.rawBiomass
  {
    PharmacokineticBounds(t, p.initialConc, p.ka, p.ke, exp);
    InhibitionIncreasingInKi(s1.concentration, p.muMax, p.kiComp1, p.kiComp2);
    InhibitionBounds(s1.concentration, p.muMax, p.kiComp1);
    if t > 0.0 {
      MulStrict(t, s1.mu, s2.mu);
      LogisticOrderedByExponent(t, s1.mu, t, s2.mu, p.kMax, DefaultInitialPopulation, exp);
    } else {
      PopulationAtTimeZero(s1.mu, p.kMax, DefaultInitialPopulation, exp);
      PopulationAtTimeZero(s2.mu, p.kMax, DefaultInitialPopulation, exp);
    }
  }
}
