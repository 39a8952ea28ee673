/** Remnant prescription for Population III stars: maps a zero-age
    main-sequence stellar mass (in solar masses) to the compact-object
    outcome, and to the remnant mass when a black hole forms.

    The source returns a pair (outcome label, optional remnant mass); `Outcome`
    keeps that pair shape so that the pairing of label and mass is something
    to prove rather than something the type already guarantees.
 */
module RemnantMassPrescriptions {
  import opened Validation

  /** The two outcome labels, "no_remnant" and "black_hole". */
  datatype Kind = NoRemnant | BlackHole

  /** The (label, remnant mass or None) pair the prescription returns. */
  datatype Outcome = Outcome(kind: Kind, remnantMass: Option<real>)

  /** The pairing the prescription always keeps: "black_hole" comes with a
      mass and "no_remnant" with None. */
  predicate WellPaired(o: Outcome) {
    o.kind == BlackHole <==> o.remnantMass.Some?
  }

  /** The prescription. Lower band edges are inclusive and upper edges
      exclusive, except the pair-instability band [140, 260], which is closed
      at both ends. Masses in (0, 10) fall through every test to "no_remnant". */
  function RemnantOutcome(stellarMass: real): (r: Result<Outcome>)
    ensures r.Err? <==> stellarMass <= 0.0
    ensures r.Err? ==> r.error == NonPositiveStellarMass
    ensures r.Ok? ==> WellPaired(r.value)
    ensures r.Ok? && r.value.remnantMass.Some? ==>
              0.0 < r.value.remnantMass.value < stellarMass
  {
    if stellarMass <= 0.0 then
      Err(NonPositiveStellarMass)
    else if 10.0 <= stellarMass < 40.0 then
      Ok(Outcome(BlackHole, Some(0.3 * stellarMass)))
    else if 40.0 <= stellarMass < 140.0 then
      Ok(Outcome(BlackHole, Some(0.5 * stellarMass)))
    else if 140.0 <= stellarMass <= 260.0 then
      Ok(Outcome(NoRemnant, None))
    else if stellarMass > 260.0 then
      Ok(Outcome(BlackHole, Some(0.9 * stellarMass)))
    else
      Ok(Outcome(NoRemnant, None))
  }

  /** The outcome the population loop keeps: a black-hole label with a mass. */
  predicate IsBlackHole(r: Result<Outcome>) {
    r.Ok? && r.value.kind == BlackHole && r.value.remnantMass.Some?
  }

  // ---------------------------------------------------------------------
  // The mass bands, stated as a table independent of the if-chain above.
  // ---------------------------------------------------------------------

  datatype Band =
    | BelowCoreCollapse    // (0, 10): no compact remnant
    | CoreCollapse         // [10, 40): fallback black hole, 30% of the mass
    | DirectCollapse       // [40, 140): direct collapse, 50% of the mass
    | PairInstability      // [140, 260]: complete disruption
    | Photodisintegration  // (260, oo): collapse, 90% of the mass

  predicate InBand(m: real, b: Band) {
    match b
    case BelowCoreCollapse => 0.0 < m < 10.0
    case CoreCollapse => 10.0 <= m < 40.0
    case DirectCollapse => 40.0 <= m < 140.0
    case PairInstability => 140.0 <= m <= 260.0
    case Photodisintegration => 260.0 < m
  }

  /** Fraction of the stellar mass left in a black hole, None for no remnant. */
  function RemnantFraction(b: Band): Option<real> {
    match b
    case BelowCoreCollapse => None
    case CoreCollapse => Some(0.3)
    case DirectCollapse => Some(0.5)
    case PairInstability => None
    case Photodisintegration => Some(0.9)
  }

  /** The outcome the band table prescribes for mass `m` in band `b`. */
  function TableOutcome(b: Band, m: real): Outcome {
    match RemnantFraction(b)
    case None => Outcome(NoRemnant, None)
    case Some(f) => Outcome(BlackHole, Some(f * m))
  }

  /** Every positive mass lies in some band (the bands cover (0, oo)). */
  function BandOf(m: real): (b: Band)
    requires m > 0.0
    ensures InBand(m, b)
  {
    if m < 10.0 then BelowCoreCollapse
    else if m < 40.0 then CoreCollapse
    else if m < 140.0 then DirectCollapse
    else if m <= 260.0 then PairInstability
    else Photodisintegration
  }

  /** No mass lies in two bands. */
  lemma BandsDisjoint(m: real, b1: Band, b2: Band)
    requires InBand(m, b1) && InBand(m, b2)
    ensures b1 == b2
  {
  }

  /** The prescription agrees with the band table on every positive mass. */
  lemma OutcomeFollowsBandTable(m: real, b: Band)
    requires InBand(m, b)
    ensures RemnantOutcome(m) == Ok(TableOutcome(b, m))
  {
  }

  /** Exact behaviour at the band edges 10, 40, 140 and 260. */
  lemma BandEdges(eps: real)
    requires eps > 0.0
    ensures RemnantOutcome(10.0) == Ok(Outcome(BlackHole, Some(3.0)))
    ensures RemnantOutcome(40.0) == Ok(Outcome(BlackHole, Some(20.0)))
    ensures RemnantOutcome(140.0) == Ok(Outcome(NoRemnant, None))
    ensures RemnantOutcome(260.0) == Ok(Outcome(NoRemnant, None))
    ensures RemnantOutcome(260.0 + eps) == Ok(Outcome(BlackHole, Some(0.9 * (260.0 + eps))))
    ensures 10.0 - eps > 0.0 ==> RemnantOutcome(10.0 - eps) == Ok(Outcome(NoRemnant, None))
    ensures 0.0 < eps <= 100.0 ==>
              RemnantOutcome(140.0 - eps) == Ok(Outcome(BlackHole, Some(0.5 * (140.0 - eps))))
  {
  }
}
