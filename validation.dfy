/** Validation failures shared by the seed-growth pipeline.

    Each `ValueError` raised by the modelled functions is one constructor of
    `Error`, named after the parameter (or the condition) it rejects. These are
    `remnant_outcome`, `eddington_timescale`, `grow_black_hole`, the z < 0 guard
    of `cosmic_time`, and the two guards of `evolve_population`. A failing call
    returns `Err` and never a partial result.
 */
module Validation {

  datatype Error =
    | NonPositiveStellarMass           // remnant_outcome: stellar_mass <= 0
    | EfficiencyOutOfRange             // eddington_timescale: not 0 < epsilon < 1
    | NonPositiveInitialMass           // grow_black_hole: initial_mass <= 0
    | NegativeDeltaTime                // grow_black_hole: delta_time < 0
    | DutyCycleOutOfRange              // grow_black_hole: not 0 <= duty_cycle <= 1
    | NonPositiveSuperEddingtonFactor  // grow_black_hole: super_eddington_factor <= 0
    | NegativeRedshift                 // cosmic_time: z < 0
    | RedshiftOrder                    // evolve_population: z_final >= z_initial
    | NoCosmicTime                     // evolve_population: available_time <= 0

  datatype Option<+T> = None | Some(value: T)

  /** A value, or the validation failure that stopped the computation.
      Failure-compatible, so `:-` propagates the first failure. */
  datatype Result<+T> = Ok(value: T) | Err(error: Error) {
    predicate IsFailure() {
      Err?
    }

    function PropagateFailure<U>(): Result<U>
      requires Err?
    {
      Err(error)
    }

    function Extract(): T
      requires Ok?
    {
      value
    }
  }
}
