# Enzyme-inhibition kinetic model in Dafny

This project models the computational core of `InteractiveKineticModel`. The
model follows the growth of a bacterial culture exposed to an inhibitor. It has
three closed-form laws:

- **competitive inhibition** of the growth rate, `mu = mu_max / (1 + c / Ki)`;
- **first-order decay** of the drug concentration, `c(t) = c0 * exp(-(ka + ke) t)`;
- **two-branch population growth**: a fixed decline `N0 * exp(-0.1 t)` when the
  rate is not positive, otherwise the logistic closed form
  `K_max * N0 / (N0 + (K_max - N0) * exp(-mu t))`.

The pipeline composes these laws on a time grid over 8 hours. At every grid time
it takes concentration, then growth rate (with the selected compound's Ki), then
biomass. The results panel shows ED50 = Ki for each compound and the relative
potency `Ki2 / Ki1`, with the sentinel 0 when Ki1 is not positive.

Modules:

- `Exponential` (exponential.dfy) — the laws of `exp` that the proofs use. These
  are `exp(0) = 1`, positivity, strict monotonicity and `exp(x + y) = exp(x) exp(y)`.
  Dafny has no transcendental functions. So every law takes `exp` as a
  parameter, and every lemma requires `IsExponential(exp)`. From these laws
  alone the module proves that `a * exp(-x)` falls below any `eps > 0` beyond
  an explicit point (`ScaledExpVanishes`), through Bernoulli's inequality.
- `RealFacts` (realfacts.dfy) — small ordered-field facts. Each nonlinear step of
  a proof is one of these.
- `Kinetics` (kinetics.dfy) — the three laws and their properties.
- `KineticData` (pipeline.dfy) — parameters, the time grid and the per-sample
  pipeline.
- `Results` (results.dfy) — ED50, relative potency and the 50 % inhibition level.

All quantities are exact reals. Preconditions take the place of the
division-by-zero and overflow behaviour of floating point:

- the law's own definedness (`InhibitionDefined`, `GrowthDefined`);
- the ranges under which every sample is defined (`Computable`: a positive Ki
  for the selected compound, a non-negative initial concentration, a positive
  `K_max`). Every reachable setting meets them: the sliders keep each Ki at
  0.01 or more and the initial concentration at 0.05 or more, and `K_max` has
  no slider but stays at 1e9 (`Kinetic_Model.py:27`, `Kinetic_Model.py:495`).

The one error the pipeline reports is `time_points = 0`. In the program, `8 / 0`
raises there, so `TimeGrid` and `CalculateKineticData` return `Failure(ZeroTimePoints)`.

Three edge values of the program:

- At the default parameters, compound 1 and time 0, the growth rate is
  `0.95 / (1 + 0.2 / 0.12) = 0.35625` (`DefaultsAtTimeZero`).
- A non-positive `Ki_comp1` gives the relative potency the sentinel 0
  (`Kinetic_Model.py:454`).
- A negative `time_points` gives an empty grid (`ArangeLength`).

## Model

| member | source | states |
|---|---|---|
| Kinetics.Inhibition | Kinetic_Model.py:275-277 | the competitive-inhibition law mu_max / (1 + c / Ki), defined (`InhibitionDefined`) when Ki != 0 and 1 + c / Ki != 0; its properties are the Inhibition lemmas below |
| Kinetics.InhibitionOccupancy | Kinetic_Model.py:275-277 | the rate removed by the inhibitor is the occupancy fraction c / (Ki + c) of mu_max; at concentration 0 the law returns exactly mu_max |
| Kinetics.InhibitionBounds | Kinetic_Model.py:275-277 | for Ki > 0, mu_max > 0 and c >= 0 the law is defined and lies in (0, mu_max], reaching mu_max exactly when c = 0 |
| Kinetics.InhibitionStrictlyDecreasing | Kinetic_Model.py:275-277 | for positive constants the rate strictly decreases as the concentration grows |
| Kinetics.InhibitionIncreasingInKi | Kinetic_Model.py:275-277 | at a positive concentration a larger Ki (a weaker inhibitor) leaves a strictly larger rate |
| Kinetics.InhibitionVanishes | Kinetic_Model.py:275-277 | the rate tends to 0 as the concentration grows: for any eps > 0 it is below eps once c >= mu_max * Ki / eps |
| Kinetics.HalfMaximalExactlyAtKi | Kinetic_Model.py:275-277 | the rate equals mu_max / 2 if and only if the concentration equals Ki |
| Kinetics.Pharmacokinetic | Kinetic_Model.py:279-282 | the decay law c0 * exp(-(ka + ke) t) with the single constant k_total = ka + ke, defined everywhere; its properties are the Pharmacokinetic lemmas below |
| Kinetics.PharmacokineticBounds | Kinetic_Model.py:279-282 | at time 0 the concentration is the initial one; it is positive (zero) exactly when the start is; from a non-negative start, with ka + ke >= 0 and t >= 0, it never exceeds the start |
| Kinetics.PharmacokineticCombinedConstant | Kinetic_Model.py:279-282 | only the sum ka + ke matters: equal sums give equal concentrations |
| Kinetics.PharmacokineticStrictlyDecreasing | Kinetic_Model.py:279-282 | for ka + ke > 0 and a positive start the concentration strictly decreases with time |
| Kinetics.PharmacokineticFlow | Kinetic_Model.py:279-282 | decaying for t + s equals decaying for s from the concentration reached after t |
| Kinetics.PharmacokineticVanishes | Kinetic_Model.py:279-282 | the concentration decays to 0: from a non-negative start with ka + ke > 0 it is below any eps > 0 from the time VanishingPoint(exp, c0, eps) / (ka + ke) on |
| Kinetics.PopulationGrowth | Kinetic_Model.py:284-290 | the two-branch growth law: N0 * exp(-0.1 t) for mu <= 0, otherwise K_max * N0 / (N0 + (K_max - N0) * exp(-mu t)), defined (`GrowthDefined`) when the logistic denominator is non-zero; its properties are the growth lemmas below |
| Kinetics.PopulationAtTimeZero | Kinetic_Model.py:284-290 | in either branch the population at time 0 is N0 |
| Kinetics.GrowthDefinedForward | Kinetic_Model.py:284-290 | for K_max > 0, N0 > 0 and t >= 0 the growth law is defined for every rate, with a positive logistic denominator |
| Kinetics.LogisticOrderedByExponent | Kinetic_Model.py:289 | for 0 < N0 < K_max, logistic populations are strictly ordered by mu * t |
| Kinetics.LogisticBounds | Kinetic_Model.py:289 | for 0 < N0 < K_max, mu > 0 and t >= 0 the biomass lies in [N0, K_max), strictly above N0 once t > 0 |
| Kinetics.LogisticAboveInitial | Kinetic_Model.py:289 | after any positive time the logistic population is strictly above N0 |
| Kinetics.LogisticStrictlyIncreasing | Kinetic_Model.py:289 | with a positive rate the logistic population strictly increases with time |
| Kinetics.LogisticOdds | Kinetic_Model.py:289 | the odds K_max / N(t) - 1 equal (K_max / N0 - 1) * exp(-mu t): they decay exponentially at rate mu |
| Kinetics.LogisticApproachesCapacity | Kinetic_Model.py:289 | from 0 < N0 < K_max with mu > 0 the biomass tends to K_max: it lies within any eps > 0 below K_max from an explicit time on |
| Kinetics.DeclineStrictlyDecreasing | Kinetic_Model.py:286-287 | for mu <= 0 the population stays positive and strictly declines with time, whatever K_max |
| Kinetics.GrowsExactlyWhenRatePositive | Kinetic_Model.py:286-290 | from 0 < N0 < K_max, after a positive time the population exceeds N0 if and only if mu > 0: the branch is chosen by the sign of mu |
| KineticData.ArangeLength | Kinetic_Model.py:294-295 | the arange rule (produce i * dt while it is short of 8 + dt) runs for exactly n + 1 values when n > 0 and for none when n < 0 |
| KineticData.TimeGrid | Kinetic_Model.py:294-295 | fails exactly when time_points = 0; otherwise returns GridLength(n) values, the i-th being i * (8 / n) |
| KineticData.GridTimeNonNegative | Kinetic_Model.py:294-295 | every grid time is non-negative |
| KineticData.GridShape | Kinetic_Model.py:294-295 | the grid starts at 0, ends at 8, is evenly spaced by 8 / n and strictly increasing |
| KineticData.DefaultGrid | Kinetic_Model.py:31 | with the default 100 intervals the grid has 101 times, 0.08 h apart |
| KineticData.SelectedKi | Kinetic_Model.py:307-309 | the Ki used for a sample: Ki_comp1 when the selector is "compound1", Ki_comp2 for any other value |
| KineticData.ChainDefined | Kinetic_Model.py:298-319 | under the slider ranges and t >= 0 the concentration is non-negative and every later step of the chain is defined |
| KineticData.CalculateKineticData | Kinetic_Model.py:292-330 | fails exactly when time_points = 0; otherwise sample i sits at grid time i. Its concentration comes from the decay law, its rate from the inhibition law at that concentration with Ki_comp1 for "compound1" and Ki_comp2 otherwise, and its biomass from the growth law at that rate and time from N0 = 10^6 |
| KineticData.SampleBounds | Kinetic_Model.py:298-319 | within the slider ranges a sample's concentration lies in [0, c0], its rate in (0, mu_max] and its biomass in [N0, K_max) |
| KineticData.SamplesOrdered | Kinetic_Model.py:298-319 | a later sample has a strictly lower concentration, a strictly higher rate and a strictly larger biomass |
| KineticData.TableOrdered | Kinetic_Model.py:292-330 | along the computed table, concentration strictly falls and rate and biomass strictly rise |
| KineticData.DefaultsAtTimeZero | Kinetic_Model.py:23-35 | at the defaults with compound 1 the first sample is (0, 0.2, 0.35625, 10^6) |
| KineticData.WeakerCompoundGrowsFaster | Kinetic_Model.py:306-319 | with c0 > 0 and 0 < Ki_comp1 < Ki_comp2, at the same time t >= 0 compound 2's sample has a strictly larger rate; its biomass is strictly larger once t > 0 and equal at t = 0 |
| Results.RelativePotency | Kinetic_Model.py:454 | the potency is the factor taking Ki1 to Ki2 (rp * Ki1 = Ki2) when Ki1 > 0, and the sentinel 0 otherwise |
| Results.HalfInhibitionLevel | Kinetic_Model.py:444 | the height of the 50 % inhibition line: twice it is mu_max |
| Results.UpdateResults | Kinetic_Model.py:449-459 | the ED50 of each compound is its Ki; the single potency value is shown both as relative potency and as Ki ratio; it is the factor taking ED50 of compound 1 to that of compound 2 when Ki1 > 0, and 0 otherwise |
| Results.PotencyScalesKi | Kinetic_Model.py:454 | for Ki1 > 0 the potency times Ki1 is Ki2; for Ki1 <= 0 it is the sentinel 0; for Ki2 > 0 it is positive exactly when Ki1 is |
| Results.PotencyAboveOneIffFirstStronger | Kinetic_Model.py:454 | for positive constants the potency exceeds 1 if and only if Ki1 < Ki2 |
| Results.PotencyIsEquieffectiveRatio | Kinetic_Model.py:454 | compound 2 at potency-times a concentration leaves the same rate as compound 1 at that concentration |
| Results.Ed50IsHalfInhibition | Kinetic_Model.py:365 | the rate lies on the 50 % line mu_max * 0.5 at the reported ED50 (= Ki) and at no other non-negative concentration, for both compounds |
| Results.DefaultSummary | Kinetic_Model.py:449-459 | at the default constants both the potency and the Ki ratio are 250/3 (about 83.3) |

## Left out

- The Tk user interface: widgets, sliders, styles, tabs and label tracing. The
  slider ranges survive only as the preconditions in `Computable`.
- Plotting with matplotlib and seaborn, including the `linspace` overlay curves.
  `HalfInhibitionLevel` keeps only the height of the 50 % line.
- The debounce timer, CSV export with pandas, and `messagebox` error reporting.
  These are event-loop scheduling and I/O.
- The static experimental data tables. They are only plotted.
- The `log10` biomass column. A sample carries the raw biomass only; Dafny's
  reals have no logarithm.
- Floating point. The grid is exact `i * (8 / n)`. NumPy's float `arange` can
  differ in the last sample, and the model does not claim to match it. IEEE
  outcomes are excluded by preconditions: `inf` for Ki = 0, and `exp` underflow
  that would make the biomass reach `K_max` exactly.
- A concrete exponential. The laws take `exp` as a parameter, and the lemmas hold
  for every function with the laws in `IsExponential`.
- The logistic bounds and monotonicity assume `N0 < K_max`. This holds at the
  defaults and for every slider position. For `K_max <= N0` the law is still
  modelled, but its bounds are not stated.
- Display formatting of the results panel: ED50 is shown rounded to three
  decimals and the potency and Ki ratio to one (`.3f` and `.1f`). The model
  keeps the exact values.
- The compound selector is any string. The radio buttons only produce
  "compound1" and "compound2"; the model treats every value other than
  "compound1" as compound 2, as `InteractiveKineticModel` does.
