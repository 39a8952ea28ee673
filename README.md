# Population III black hole seeds — a Dafny model

This project models how black hole seeds left by the first (Population III)
stars grow between a formation redshift and a later redshift. It covers three
parts:

- **Remnant prescription** (`RemnantMassPrescriptions`). This maps a stellar
  mass to the pair (outcome label, optional remnant mass). The bands are
  (0, 10) no remnant, [10, 40) a black hole of 0.3·m, [40, 140) 0.5·m,
  [140, 260] no remnant (pair-instability disruption) and (260, ∞) 0.9·m.
  A mass ≤ 0 is rejected.
- **Accretion growth** (`AccretionGrowth`). The Eddington timescale is
  0.45·ε/(1−ε) Gyr for 0 < ε < 1. The growth law is
  M·exp(Δt·f·χ / t_Edd). Four parameter checks run first, in a fixed order.
  The efficiency is checked last, through the timescale.
- **Population evolution** (`Evolution`). Redshift order is checked first.
  Then come the cosmic ages at both redshifts and a positivity check on the
  window between them. Then a loop classifies each sampled star, skips stars
  without a black hole, and grows each black hole over that same window. The
  final masses are appended in sampled order.

All quantities are Dafny `real` (exact rationals), not floating point. Each
`ValueError` raised by the modelled functions is an `Error` constructor that
names the violated parameter, returned in `Result.Err`. These functions are
`remnant_outcome`, `eddington_timescale`, `grow_black_hole`, the z < 0 guard
of `cosmic_time`, and the two guards of `evolve_population`. A failing call
yields no partial list. `GrowBlackHole` and `EvolvePopulation` take the
source's defaults: radiative efficiency 0.1, duty cycle 1.0 and
super-Eddington factor 1.0.

The exponential is a function parameter `exp`. The model assumes only
`ExpLaws(exp)`: exp(0) = 1, and exp strictly increases on [0, ∞).
`ExpLawsSatisfiable` shows the laws can be met. The cosmic-age integral is
a function parameter `age`. The stellar masses the random sampler would
draw are an input sequence.

## Model

| member | source | states |
|---|---|---|
| RemnantMassPrescriptions.RemnantOutcome | src/src/remnant_mass_prescriptions.py:35-54 | Fails exactly when stellar_mass ≤ 0, with the stellar-mass error. Otherwise the label is "black_hole" exactly when a mass is present. Any remnant mass lies strictly between 0 and the stellar mass. |
| RemnantMassPrescriptions.BandOf | src/src/remnant_mass_prescriptions.py:39-54 | The five mass bands (0,10), [10,40), [40,140), [140,260], (260,∞) cover every positive mass. |
| RemnantMassPrescriptions.BandsDisjoint | src/src/remnant_mass_prescriptions.py:39-54 | No mass lies in two bands. |
| RemnantMassPrescriptions.OutcomeFollowsBandTable | src/src/remnant_mass_prescriptions.py:39-54 | In every band the prescription gives the table's outcome: black hole of 0.3·m, 0.5·m or 0.9·m, or no remnant with no mass. |
| RemnantMassPrescriptions.BandEdges | src/src/remnant_mass_prescriptions.py:39-54 | Exact edge behaviour: 10 → BH 3, 40 → BH 20, 140 and 260 → no remnant, 260+δ → BH 0.9·(260+δ), just below 10 → no remnant, 140 − δ for 0 < δ ≤ 100 → BH 0.5·(140 − δ). |
| AccretionGrowth.ExpAtLeastOne | src/accretion_growth.py:79 | Under the exp laws, exp(x) ≥ 1 for x ≥ 0, and exp(x) > 1 for x > 0. |
| AccretionGrowth.EddingtonTimescale | src/accretion_growth.py:29-32 | Succeeds exactly when 0 < ε < 1 and then is strictly positive. Otherwise it fails with the efficiency error. |
| AccretionGrowth.EddingtonTimescaleIncreasing | src/accretion_growth.py:32 | The timescale strictly increases with ε on (0, 1). |
| AccretionGrowth.EfficiencyFromTimescale | src/accretion_growth.py:32 | The timescale t determines the efficiency: ε = t / (0.45 + t). |
| AccretionGrowth.GrowBlackHole | src/accretion_growth.py:63-79 | Succeeds exactly when initial_mass > 0, delta_time ≥ 0, 0 ≤ duty_cycle ≤ 1, super_eddington_factor > 0 and 0 < ε < 1. |
| AccretionGrowth.GrowthValidationOrder | src/accretion_growth.py:63-75 | The first violated check decides the error: mass, then time, then duty cycle, then super-Eddington factor. The efficiency is checked only after all four pass. |
| AccretionGrowth.ExponentNonNegative | src/accretion_growth.py:75-79 | For valid inputs effective_time / t_Edd ≥ 0. It is 0 exactly when delta_time = 0 or duty_cycle = 0. |
| AccretionGrowth.GrowthIdentity | src/accretion_growth.py:77-79 | With delta_time = 0 or duty_cycle = 0, a valid call returns initial_mass exactly. |
| AccretionGrowth.GrowthNeverShrinks | src/accretion_growth.py:77-79 | A call with valid parameters succeeds and returns a mass ≥ initial_mass > 0. It is strictly larger exactly when delta_time > 0 and duty_cycle > 0. |
| AccretionGrowth.GrowthMonotoneInEffectiveTime | src/accretion_growth.py:77-79 | With mass and ε fixed, a larger Δt·f·χ never gives a smaller final mass. |
| AccretionGrowth.GrowthMonotoneInTime | src/accretion_growth.py:77-79 | With the other arguments fixed, the final mass is non-decreasing in delta_time. |
| AccretionGrowth.GrowthMonotoneInDutyCycle | src/accretion_growth.py:77-79 | With the other arguments fixed, the final mass is non-decreasing in duty_cycle. |
| AccretionGrowth.GrowthMonotoneInSuperEddingtonFactor | src/accretion_growth.py:77-79 | With the other arguments fixed, the final mass is non-decreasing in super_eddington_factor. |
| Evolution.CosmicTime | src/src/src/cosmological_time.py:61-70 | Fails, with the redshift error, exactly when z < 0. |
| Evolution.GrowSurvivors | src/evolution.py:80-96 | The filter-and-grow loop over a prefix of the sample. It never yields more masses than stars. |
| Evolution.EvolvedMasses | src/evolution.py:60-98 | The whole population call as a function. It never yields more masses than sampled stars. |
| Evolution.EvolvePopulation | src/evolution.py:60-98 | The loop that appends one final mass per black-hole star computes exactly `EvolvedMasses`. This covers the early failures and the abort on the first failing star. |
| Evolution.FirstFailureStands | src/evolution.py:82-96 | Once a prefix of the sample fails, the whole call fails with that same error. No partial list is returned. |
| Evolution.StarRemnant | src/evolution.py:83-86 | A star contributes at most one remnant. Any remnant is positive and below the star's mass. |
| Evolution.BlackHoleRemnantsBounded | src/evolution.py:82-96 | There are at most as many black-hole remnants as stars, and all are positive. |
| Evolution.GrowSurvivorsMatchesPipeline | src/evolution.py:82-96 | The loop succeeds exactly when every mass is positive and, if a black hole forms, the growth settings are valid. Then its k-th output is the k-th black-hole remnant, in sampled order, grown over the shared available_time. |
| Evolution.NoRemnantStarContributesNothing | src/evolution.py:83-86 | Removing a no-remnant star from anywhere in the sample changes neither the output list nor the error. |
| Evolution.EvolutionGuards | src/evolution.py:60-71 | z_final ≥ z_initial fails with the redshift-order error before anything else. A negative z_final fails in cosmic_time. A window age(z_final) − age(z_initial) ≤ 0 fails with the no-time error. |
| Evolution.EvolutionOutput | src/evolution.py:60-98 | End to end: success exactly when the guards pass, every mass is positive and, if any black hole forms, the growth settings are valid. The output has one element per black-hole star, in order, each grown over the same window. Each element is ≥ its remnant mass and > 0. |

## Left out

- Floating point: the model computes over exact reals, so rounding of 0.3·m, 0.45·ε/(1−ε) and the exponent is not modelled.
- Overflow to infinity: `np.exp` returns inf once its argument passes about 709.8, which valid inputs reach (z_initial = 20, z_final = 0, ε = 0.1, χ = 3 gives an exponent near 816). The model then yields a finite real m·exp(x). `GrowthNeverShrinks` and `EvolutionOutput` describe that finite value, not the source's inf.
- NaN inputs: NaN passes the stellar-mass guard of `remnant_outcome` and the initial_mass, delta_time and super_eddington_factor guards of `grow_black_hole`, because those comparisons are false. For example, `remnant_outcome(nan)` returns ("no_remnant", None). The duty-cycle and efficiency guards are negated ranges and do reject NaN. Reals have no NaN, so none of this is modelled.
- Cosmology flatness check and sampler checks: their `ValueError`s (constructor flatness; sample size, mass_min, mass_max, slope) have no `Error` constructor, because those functions are not modelled (see below).
- `np.exp`: its value is not modelled. Only exp(0) = 1 and strict growth on [0, ∞) are assumed, as a requirement on the `exp` parameter.
- `Cosmology.cosmic_time`: the quadrature over [z, ∞) is the `age` parameter. Only its z < 0 guard is modelled. The flatness check of the constructor never fails for the fixed defaults (0.315 + 0.685), so it is not modelled.
- `truncated_power_law`: the random draw and its fractional powers are replaced by the input sequence `stellarMasses`. Its own validation (sample size, mass bounds, slope = 1) is therefore not part of `EvolvePopulation`, and `n_stars` is the length of that sequence.
- Plotting (src/visualization.py) has no computational contract and is not modelled.
- Growth settings (ε, duty cycle, super-Eddington factor) are only checked when some star yields a black hole. This matches the source: with no black-hole star the call returns an empty list even for ε outside (0, 1). `EvolutionOutput` states this in its success condition.
