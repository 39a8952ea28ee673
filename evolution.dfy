/** Evolution of a Population III black hole seed population: every sampled
    star is classified by the remnant prescription, stars without a black
    hole are dropped, and each black hole grows over the one window of cosmic
    time between the formation and the final redshift.

    The cosmic-age integral is the parameter `age` (its z < 0 guard is
    modelled by `CosmicTime`); the random draw of stellar masses is the input
    sequence `stellarMasses`.
 */
module Evolution {
  import opened Validation
  import opened RemnantMassPrescriptions
  import opened AccretionGrowth

  /** Cosmic age at redshift `z`, in gigayears; negative redshifts are
      rejected before the integral `age` is consulted. */
  function CosmicTime(age: real -> real, z: real): (r: Result<real>)
    ensures r.Err? <==> z < 0.0
    ensures r.Err? ==> r.error == NegativeRedshift
  {
    if z < 0.0 then Err(NegativeRedshift) else Ok(age(z))
  }

  /** The filter-and-grow loop over the stars in sampled order, as a function
      of the stars processed so far (it peels off the LAST star, as the loop
      appends). The first failing star aborts the whole population. */
  function GrowSurvivors(stellarMasses: seq<real>, availableTime: real, exp: real -> real,
                         radiativeEfficiency: real, dutyCycle: real, superEddingtonFactor: real)
    : (r: Result<seq<real>>)
    ensures r.Ok? ==> |r.value| <= |stellarMasses|
    decreases |stellarMasses|
  {
    if stellarMasses == [] then
      Ok([])
    else
      var processed :- GrowSurvivors(stellarMasses[..|stellarMasses| - 1], availableTime, exp,
                                     radiativeEfficiency, dutyCycle, superEddingtonFactor);
      var outcome :- RemnantOutcome(stellarMasses[|stellarMasses| - 1]);
      if outcome.kind != BlackHole || outcome.remnantMass.None? then
        Ok(processed)
      else
        var finalMass :- GrowBlackHole(outcome.remnantMass.value, availableTime, exp, radiativeEfficiency,
                                       dutyCycle, superEddingtonFactor);
        Ok(processed + [finalMass])
  }

  /** The whole population call: the redshift order is checked first, then
      the cosmic times and the positivity of the window between them; only
      then are the stars processed. */
  function EvolvedMasses(stellarMasses: seq<real>, zInitial: real, zFinal: real, age: real -> real,
                     exp: real -> real, radiativeEfficiency: real, dutyCycle: real, superEddingtonFactor: real)
    : (r: Result<seq<real>>)
    ensures r.Ok? ==> |r.value| <= |stellarMasses|
  {
    if zFinal >= zInitial then
      Err(RedshiftOrder)
    else
      var tInitial :- CosmicTime(age, zInitial);
      var tFinal :- CosmicTime(age, zFinal);
      var availableTime := tFinal - tInitial;
      if availableTime <= 0.0 then
        Err(NoCosmicTime)
      else
        GrowSurvivors(stellarMasses, availableTime, exp, radiativeEfficiency, dutyCycle, superEddingtonFactor)
  }

  /** The population evolution as the source runs it: a loop that appends
      one final mass per black-hole star, in sampled order. */
  method EvolvePopulation(stellarMasses: seq<real>, zInitial: real, zFinal: real, age: real -> real,
                          exp: real -> real, radiativeEfficiency: real := 0.1, dutyCycle: real := 1.0,
                          superEddingtonFactor: real := 1.0)
    returns (r: Result<seq<real>>)
    ensures r == EvolvedMasses(stellarMasses, zInitial, zFinal, age, exp, radiativeEfficiency, dutyCycle,
                           superEddingtonFactor)
  {
    if zFinal >= zInitial {
      return Err(RedshiftOrder);
    }
    var tInitial :- CosmicTime(age, zInitial);
    var tFinal :- CosmicTime(age, zFinal);
    var availableTime := tFinal - tInitial;
    if availableTime <= 0.0 {
      return Err(NoCosmicTime);
    }

    var finalMasses: seq<real> := [];
    for i := 0 to |stellarMasses|
      invariant GrowSurvivors(stellarMasses[..i], availableTime, exp, radiativeEfficiency, dutyCycle,
                              superEddingtonFactor) == Ok(finalMasses)
    {
      assert stellarMasses[..i + 1][..i] == stellarMasses[..i];
      var outcome := RemnantOutcome(stellarMasses[i]);
      if outcome.Err? {
        FirstFailureStands(stellarMasses, i + 1, availableTime, exp, radiativeEfficiency,
            dutyCycle, superEddingtonFactor);
        return Err(outcome.error);
      }
      if outcome.value.kind != BlackHole || outcome.value.remnantMass.None? {
        continue;
      }
      var finalMass := GrowBlackHole(outcome.value.remnantMass.value, availableTime, exp,
                                     radiativeEfficiency, dutyCycle, superEddingtonFactor);
      if finalMass.Err? {
        FirstFailureStands(stellarMasses, i + 1, availableTime, exp, radiativeEfficiency,
            dutyCycle, superEddingtonFactor);
        return Err(finalMass.error);
      }
      finalMasses := finalMasses + [finalMass.value];
    }
    assert stellarMasses[..|stellarMasses|] == stellarMasses;
    r := Ok(finalMasses);
  }

  /** Once a prefix of the stars fails, the whole population fails with the
      same error: no later star is looked at and no partial list survives. */
  lemma {:induction false} FirstFailureStands(stellarMasses: seq<real>, k: nat,
      availableTime: real, exp: real -> real, radiativeEfficiency: real, dutyCycle: real,
      superEddingtonFactor: real)
    requires k <= |stellarMasses|
    requires GrowSurvivors(stellarMasses[..k], availableTime, exp, radiativeEfficiency, dutyCycle,
                           superEddingtonFactor).Err?
    ensures GrowSurvivors(stellarMasses, availableTime, exp, radiativeEfficiency, dutyCycle,
                          superEddingtonFactor)
         == GrowSurvivors(stellarMasses[..k], availableTime, exp, radiativeEfficiency, dutyCycle,
                          superEddingtonFactor)
    decreases |stellarMasses| - k
  {
    if k == |stellarMasses| {
      assert stellarMasses[..k] == stellarMasses;
    } else {
      var front := stellarMasses[..|stellarMasses| - 1];
      assert front[..k] == stellarMasses[..k];
      FirstFailureStands(front, k, availableTime, exp, radiativeEfficiency, dutyCycle, superEddingtonFactor);
    }
  }

  // ---------------------------------------------------------------------
  // Reference: sample -> outcome -> keep black holes -> remnant masses,
  // defined front to back, independently of the loop's order of work.
  // ---------------------------------------------------------------------

  /** What one star contributes to the remnant list: its black hole's mass,
      or nothing. */
  function StarRemnant(stellarMass: real): (r: seq<real>)
    ensures |r| <= 1
    ensures r != [] ==> 0.0 < r[0] < stellarMass
  {
    var outcome := RemnantOutcome(stellarMass);
    if IsBlackHole(outcome) then [outcome.value.remnantMass.value] else []
  }

  /** The remnant masses of the black-hole stars, in sampled order. */
  function BlackHoleRemnants(stellarMasses: seq<real>): seq<real> {
    if stellarMasses == [] then
      []
    else
      StarRemnant(stellarMasses[0]) + BlackHoleRemnants(stellarMasses[1..])
  }

  predicate AllPositive(stellarMasses: seq<real>) {
    forall i :: 0 <= i < |stellarMasses| ==> stellarMasses[i] > 0.0
  }

  /** Every remnant is a positive mass, so only the mass-independent checks
      of the growth law, and the efficiency, decide whether a black hole grows. */
  predicate GrowthSettingsValid(availableTime: real, radiativeEfficiency: real, dutyCycle: real,
                                superEddingtonFactor: real) {
    GrowthSettingsInRange(availableTime, dutyCycle, superEddingtonFactor)
    && 0.0 < radiativeEfficiency < 1.0
  }

  lemma {:induction false} BlackHoleRemnantsConcat(a: seq<real>, b: seq<real>)
    ensures BlackHoleRemnants(a + b) == BlackHoleRemnants(a) + BlackHoleRemnants(b)
  {
    if a == [] {
      assert a + b == b;
    } else {
      assert (a + b)[0] == a[0] && (a + b)[1..] == a[1..] + b;
      BlackHoleRemnantsConcat(a[1..], b);
      calc {
        BlackHoleRemnants(a + b);
        StarRemnant(a[0]) + BlackHoleRemnants(a[1..] + b);
        StarRemnant(a[0]) + (BlackHoleRemnants(a[1..]) + BlackHoleRemnants(b));
        (StarRemnant(a[0]) + BlackHoleRemnants(a[1..])) + BlackHoleRemnants(b);
      }
    }
  }

  /** Stars never multiply: at most one black hole per star, and every
      remnant is lighter than the star it came from and positive. */
  lemma {:induction false} BlackHoleRemnantsBounded(stellarMasses: seq<real>)
    ensures |BlackHoleRemnants(stellarMasses)| <= |stellarMasses|
    ensures forall k :: 0 <= k < |BlackHoleRemnants(stellarMasses)| ==> BlackHoleRemnants(stellarMasses)[k] > 0.0
  {
    if stellarMasses != [] {
      BlackHoleRemnantsBounded(stellarMasses[1..]);
    }
  }

  /** The loop computes the reference pipeline: it succeeds exactly when
      every star is a valid mass and, if any black hole forms, the growth
      settings are valid; then its k-th output is the k-th black-hole
      remnant grown over the shared `availableTime`. */
  lemma {:induction false} GrowSurvivorsMatchesPipeline(stellarMasses: seq<real>,
      availableTime: real, exp: real -> real, radiativeEfficiency: real, dutyCycle: real,
      superEddingtonFactor: real)
    ensures var r := GrowSurvivors(stellarMasses, availableTime, exp, radiativeEfficiency, dutyCycle,
                                   superEddingtonFactor);
            r.Ok? <==> AllPositive(stellarMasses)
                       && (BlackHoleRemnants(stellarMasses) != [] ==>
                             GrowthSettingsValid(availableTime, radiativeEfficiency, dutyCycle,
                                                 superEddingtonFactor))
    ensures var r := GrowSurvivors(stellarMasses, availableTime, exp, radiativeEfficiency, dutyCycle,
                                   superEddingtonFactor);
            var remnants := BlackHoleRemnants(stellarMasses);
            r.Ok? ==> |r.value| == |remnants|
                      && forall k :: 0 <= k < |remnants| ==>
                           GrowBlackHole(remnants[k], availableTime, exp, radiativeEfficiency, dutyCycle,
                                         superEddingtonFactor) == Ok(r.value[k])
    decreases |stellarMasses|
  {
    if stellarMasses != [] {
      var front, last := stellarMasses[..|stellarMasses| - 1], stellarMasses[|stellarMasses| - 1];
      assert stellarMasses == front + [last];
      GrowSurvivorsMatchesPipeline(front, availableTime, exp, radiativeEfficiency, dutyCycle,
          superEddingtonFactor);
      BlackHoleRemnantsConcat(front, [last]);
      assert BlackHoleRemnants([last][1..]) == [];
      BlackHoleRemnantsBounded(front);
      assert AllPositive(stellarMasses) <==> AllPositive(front) && last > 0.0;
    }
  }

  /** A star that leaves no remnant contributes nothing: removing it from
      the sample changes neither the output list nor the error. */
  lemma {:induction false} NoRemnantStarContributesNothing(before: seq<real>, star: real,
      after: seq<real>, availableTime: real, exp: real -> real, radiativeEfficiency: real,
      dutyCycle: real, superEddingtonFactor: real)
    requires RemnantOutcome(star) == Ok(Outcome(NoRemnant, None))
    ensures GrowSurvivors(before + [star] + after, availableTime, exp, radiativeEfficiency, dutyCycle,
                          superEddingtonFactor)
         == GrowSurvivors(before + after, availableTime, exp, radiativeEfficiency, dutyCycle,
                          superEddingtonFactor)
    decreases |after|
  {
    if after == [] {
      assert before + [star] + after == before + [star];
      assert before + after == before;
      assert (before + [star])[..|before + [star]| - 1] == before;
    } else {
      var front, last := after[..|after| - 1], after[|after| - 1];
      NoRemnantStarContributesNothing(before, star, front, availableTime, exp, radiativeEfficiency,
          dutyCycle, superEddingtonFactor);
      var with, without := before + [star] + after, before + after;
      assert with[..|with| - 1] == before + [star] + front && with[|with| - 1] == last;
      assert without[..|without| - 1] == before + front && without[|without| - 1] == last;
    }
  }

  /** The guards of the population call, in their order: redshift order
      first, then non-negative redshifts, then a positive time window. */
  lemma EvolutionGuards(stellarMasses: seq<real>, zInitial: real, zFinal: real, age: real -> real,
      exp: real -> real, radiativeEfficiency: real, dutyCycle: real, superEddingtonFactor: real)
    ensures var r := EvolvedMasses(stellarMasses, zInitial, zFinal, age, exp, radiativeEfficiency, dutyCycle,
                               superEddingtonFactor);
            && (zFinal >= zInitial ==> r == Err(RedshiftOrder))
            && (zFinal < zInitial && zFinal < 0.0 ==> r == Err(NegativeRedshift))
            && (0.0 <= zFinal < zInitial && age(zFinal) - age(zInitial) <= 0.0 ==> r == Err(NoCosmicTime))
  {
  }

  /** End-to-end: a population call succeeds exactly when the redshifts are
      ordered and non-negative, the window age(zFinal) - age(zInitial) is
      positive, every sampled mass is positive and, if a black hole forms, the
      growth settings are valid. On success the output lists, in sampled
      order and one per black-hole star, that star's remnant grown over the
      same window; under the laws of exp each is at least its remnant and
      positive. */
  lemma EvolutionOutput(stellarMasses: seq<real>, zInitial: real, zFinal: real, age: real -> real,
      exp: real -> real, radiativeEfficiency: real, dutyCycle: real, superEddingtonFactor: real)
    requires ExpLaws(exp)
    ensures var r := EvolvedMasses(stellarMasses, zInitial, zFinal, age, exp, radiativeEfficiency, dutyCycle,
                               superEddingtonFactor);
            r.Ok? <==> && 0.0 <= zFinal < zInitial
                       && age(zFinal) - age(zInitial) > 0.0
                       && AllPositive(stellarMasses)
                       && (BlackHoleRemnants(stellarMasses) != [] ==>
                             GrowthSettingsValid(age(zFinal) - age(zInitial), radiativeEfficiency, dutyCycle,
                                                 superEddingtonFactor))
    ensures var r := EvolvedMasses(stellarMasses, zInitial, zFinal, age, exp, radiativeEfficiency, dutyCycle,
                               superEddingtonFactor);
            var remnants := BlackHoleRemnants(stellarMasses);
            r.Ok? ==> && |r.value| == |remnants| <= |stellarMasses|
                      && forall k :: 0 <= k < |remnants| ==>
                           && GrowBlackHole(remnants[k], age(zFinal) - age(zInitial), exp,
                                            radiativeEfficiency, dutyCycle, superEddingtonFactor) == Ok(r.value[k])
                           && r.value[k] >= remnants[k] > 0.0
  {
    var availableTime := age(zFinal) - age(zInitial);
    GrowSurvivorsMatchesPipeline(stellarMasses, availableTime, exp, radiativeEfficiency, dutyCycle,
        superEddingtonFactor);
    BlackHoleRemnantsBounded(stellarMasses);
    var r := EvolvedMasses(stellarMasses, zInitial, zFinal, age, exp, radiativeEfficiency, dutyCycle,
                       superEddingtonFactor);
    var remnants := BlackHoleRemnants(stellarMasses);
    if r.Ok? {
      forall k | 0 <= k < |remnants|
        ensures r.value[k] >= remnants[k] > 0.0
      {
        GrowthNeverShrinks(remnants[k], availableTime, exp, radiativeEfficiency, dutyCycle,
            superEddingtonFactor);
      }
    }
  }
}
