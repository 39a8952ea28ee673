/** Eddington-limited black hole growth over a window of cosmic time, with
    radiative efficiency, duty cycle and a super-Eddington factor.

    The exponential is a parameter `exp` of which only `ExpLaws` is known:
    exp(0) = 1 and exp strictly increases on [0, oo). Times are in gigayears,
    masses in solar masses.
 */
module AccretionGrowth {
  import opened Validation

  /** What the model relies on about the exponential. */
  ghost predicate ExpLaws(exp: real -> real) {
    && exp(0.0) == 1.0
    && forall x: real, y: real :: 0.0 <= x < y ==> exp(x) < exp(y)
  }

  /** The laws can be met, so lemmas that assume them are not vacuous. */
  lemma ExpLawsSatisfiable()
    ensures ExpLaws(x => 1.0 + x)
  {
  }

  /** Under the laws, exp is at least 1 on [0, oo) and above 1 past 0. */
  lemma ExpAtLeastOne(exp: real -> real, x: real)
    requires ExpLaws(exp)
    requires x >= 0.0
    ensures exp(x) >= 1.0
    ensures x > 0.0 ==> exp(x) > 1.0
  {
    if x > 0.0 {
      assert exp(0.0) < exp(x);
    }
  }

  /** Eddington e-folding time 0.45 * eps / (1 - eps), in gigayears. */
  function EddingtonTimescale(radiativeEfficiency: real): (r: Result<real>)
    ensures r.Ok? <==> 0.0 < radiativeEfficiency < 1.0
    ensures r.Err? ==> r.error == EfficiencyOutOfRange
    ensures r.Ok? ==> r.value > 0.0
  {
    if !(0.0 < radiativeEfficiency < 1.0) then
      Err(EfficiencyOutOfRange)
    else
      var tEdd := 0.45 * radiativeEfficiency / (1.0 - radiativeEfficiency);
      assert tEdd > 0.0 by {
        PositiveQuotient(0.45 * radiativeEfficiency, 1.0 - radiativeEfficiency);
      }
      Ok(tEdd)
  }

  /** The timescale strictly increases with the efficiency. */
  lemma EddingtonTimescaleIncreasing(a: real, b: real)
    requires 0.0 < a < b < 1.0
    ensures EddingtonTimescale(a).Ok? && EddingtonTimescale(b).Ok?
    ensures EddingtonTimescale(a).value < EddingtonTimescale(b).value
  {
    var ta, tb := a / (1.0 - a), b / (1.0 - b);
    assert ta * (1.0 - a) == a;
    assert tb * (1.0 - b) == b;
    // a / (1 - a) = 1 / (1 - a) - 1, and 1 / (1 - a) < 1 / (1 - b).
    assert ta == 1.0 / (1.0 - a) - 1.0;
    assert tb == 1.0 / (1.0 - b) - 1.0;
    ReciprocalDecreasing(1.0 - b, 1.0 - a);
  }

  lemma PositiveQuotient(a: real, b: real)
    requires a > 0.0 && b > 0.0
    ensures a / b > 0.0
  {
    assert (a / b) * b == a;
  }

  lemma ReciprocalDecreasing(x: real, y: real)
    requires 0.0 < x < y
    ensures 1.0 / y < 1.0 / x
  {
    assert x * y > 0.0;
    assert 1.0 / x - 1.0 / y == (y - x) / (x * y);
  }

  /** The timescale determines the efficiency: eps = t / (0.45 + t). */
  lemma EfficiencyFromTimescale(eps: real)
    requires 0.0 < eps < 1.0
    ensures var t := EddingtonTimescale(eps).value; eps == t / (0.45 + t)
  {
    var t := EddingtonTimescale(eps).value;
    assert t * (1.0 - eps) == 0.45 * eps;
    assert (0.45 + t) * eps == t;
  }

  /** The checks of the growth law that do not involve the mass, in the
      source's order. */
  predicate GrowthSettingsInRange(deltaTime: real, dutyCycle: real, superEddingtonFactor: real) {
    && deltaTime >= 0.0
    && 0.0 <= dutyCycle <= 1.0
    && superEddingtonFactor > 0.0
  }

  /** The parameter checks of the growth law, in the source's order. */
  predicate GrowthParametersValid(initialMass: real, deltaTime: real, dutyCycle: real,
                                  superEddingtonFactor: real) {
    initialMass > 0.0 && GrowthSettingsInRange(deltaTime, dutyCycle, superEddingtonFactor)
  }

  /** Final mass after growing `initialMass` for `deltaTime`:
      initialMass * exp(deltaTime * dutyCycle * superEddingtonFactor / t_Edd).
      The four parameter checks run first, in order; the efficiency is
      checked last, through the Eddington timescale. */
  function GrowBlackHole(initialMass: real, deltaTime: real, exp: real -> real,
                         radiativeEfficiency: real := 0.1, dutyCycle: real := 1.0,
                         superEddingtonFactor: real := 1.0): (r: Result<real>)
    ensures r.Ok? <==> GrowthParametersValid(initialMass, deltaTime, dutyCycle, superEddingtonFactor)
                       && 0.0 < radiativeEfficiency < 1.0
  {
    if initialMass <= 0.0 then
      Err(NonPositiveInitialMass)
    else if deltaTime < 0.0 then
      Err(NegativeDeltaTime)
    else if !(0.0 <= dutyCycle <= 1.0) then
      Err(DutyCycleOutOfRange)
    else if superEddingtonFactor <= 0.0 then
      Err(NonPositiveSuperEddingtonFactor)
    else
      var tEdd :- EddingtonTimescale(radiativeEfficiency);
      var effectiveTime := deltaTime * dutyCycle * superEddingtonFactor;
      Ok(initialMass * exp(effectiveTime / tEdd))
  }

  /** The first failing check decides the error; the efficiency is checked
      only once the four parameter checks pass. */
  lemma GrowthValidationOrder(m: real, dt: real, exp: real -> real, eps: real, f: real, chi: real)
    ensures m <= 0.0 ==> GrowBlackHole(m, dt, exp, eps, f, chi) == Err(NonPositiveInitialMass)
    ensures m > 0.0 && dt < 0.0 ==> GrowBlackHole(m, dt, exp, eps, f, chi) == Err(NegativeDeltaTime)
    ensures m > 0.0 && dt >= 0.0 && !(0.0 <= f <= 1.0) ==>
              GrowBlackHole(m, dt, exp, eps, f, chi) == Err(DutyCycleOutOfRange)
    ensures m > 0.0 && dt >= 0.0 && 0.0 <= f <= 1.0 && chi <= 0.0 ==>
              GrowBlackHole(m, dt, exp, eps, f, chi) == Err(NonPositiveSuperEddingtonFactor)
    ensures GrowthParametersValid(m, dt, f, chi) && !(0.0 < eps < 1.0) ==>
              GrowBlackHole(m, dt, exp, eps, f, chi) == Err(EfficiencyOutOfRange)
  {
  }

  /** The exponent effective_time / t_Edd of a valid call is non-negative. */
  lemma ExponentNonNegative(dt: real, eps: real, f: real, chi: real)
    requires dt >= 0.0 && 0.0 <= f <= 1.0 && chi > 0.0 && 0.0 < eps < 1.0
    ensures dt * f * chi / EddingtonTimescale(eps).value >= 0.0
    ensures dt * f * chi / EddingtonTimescale(eps).value == 0.0 <==> dt == 0.0 || f == 0.0
  {
    var tEdd := EddingtonTimescale(eps).value;
    assert dt * f >= 0.0;
    assert dt * f * chi >= 0.0;
    if dt * f * chi / tEdd == 0.0 {
      assert dt * f * chi == (dt * f * chi / tEdd) * tEdd;
    }
  }

  /** Zero time or zero duty cycle leaves the mass exactly unchanged. */
  lemma GrowthIdentity(m: real, dt: real, exp: real -> real, eps: real, f: real, chi: real)
    requires ExpLaws(exp)
    requires GrowthParametersValid(m, dt, f, chi) && 0.0 < eps < 1.0
    requires dt == 0.0 || f == 0.0
    ensures GrowBlackHole(m, dt, exp, eps, f, chi) == Ok(m)
  {
    ExponentNonNegative(dt, eps, f, chi);
  }

  /** Growth never shrinks a black hole, and grows it strictly exactly when
      both the time and the duty cycle are positive. */
  lemma GrowthNeverShrinks(m: real, dt: real, exp: real -> real, eps: real, f: real, chi: real)
    requires ExpLaws(exp)
    requires GrowthParametersValid(m, dt, f, chi) && 0.0 < eps < 1.0
    ensures GrowBlackHole(m, dt, exp, eps, f, chi).Ok?
    ensures GrowBlackHole(m, dt, exp, eps, f, chi).value >= m > 0.0
    ensures GrowBlackHole(m, dt, exp, eps, f, chi).value > m <==> dt > 0.0 && f > 0.0
  {
    var x := dt * f * chi / EddingtonTimescale(eps).value;
    ExponentNonNegative(dt, eps, f, chi);
    ExpAtLeastOne(exp, x);
    assert m * exp(x) >= m * 1.0;
    if x > 0.0 {
      assert m * exp(x) > m * 1.0;
    }
  }

  /** Growth is monotone in the exponent: with mass and efficiency fixed, a
      larger effective time never yields a smaller final mass. */
  lemma GrowthMonotoneInEffectiveTime(m: real, exp: real -> real, eps: real, dt1: real, f1: real,
      chi1: real, dt2: real, f2: real, chi2: real)
    requires ExpLaws(exp)
    requires GrowthParametersValid(m, dt1, f1, chi1) && GrowthParametersValid(m, dt2, f2, chi2)
    requires 0.0 < eps < 1.0
    requires dt1 * f1 * chi1 <= dt2 * f2 * chi2
    ensures GrowBlackHole(m, dt1, exp, eps, f1, chi1).Ok? && GrowBlackHole(m, dt2, exp, eps, f2, chi2).Ok?
    ensures GrowBlackHole(m, dt1, exp, eps, f1, chi1).value <= GrowBlackHole(m, dt2, exp, eps, f2, chi2).value
  {
    var tEdd := EddingtonTimescale(eps).value;
    var x1, x2 := dt1 * f1 * chi1 / tEdd, dt2 * f2 * chi2 / tEdd;
    ExponentNonNegative(dt1, eps, f1, chi1);
    DivideMonotone(dt1 * f1 * chi1, dt2 * f2 * chi2, tEdd);
    if x1 < x2 {
      assert exp(x1) < exp(x2);
      assert m * exp(x1) <= m * exp(x2);
    }
  }

  lemma DivideMonotone(a: real, b: real, d: real)
    requires a <= b && d > 0.0
    ensures a / d <= b / d
  {
    assert (b - a) / d >= 0.0;
    assert b / d - a / d == (b - a) / d;
  }

  /** With the other arguments fixed, the final mass is non-decreasing in the
      time window. */
  lemma GrowthMonotoneInTime(m: real, dt1: real, dt2: real, exp: real -> real, eps: real, f: real, chi: real)
    requires ExpLaws(exp)
    requires GrowthParametersValid(m, dt1, f, chi) && 0.0 < eps < 1.0
    requires dt1 <= dt2
    ensures GrowBlackHole(m, dt2, exp, eps, f, chi).Ok?
    ensures GrowBlackHole(m, dt1, exp, eps, f, chi).value <= GrowBlackHole(m, dt2, exp, eps, f, chi).value
  {
    assert f * chi >= 0.0;
    assert dt1 * (f * chi) <= dt2 * (f * chi);
    GrowthMonotoneInEffectiveTime(m, exp, eps, dt1, f, chi, dt2, f, chi);
  }

  /** With the other arguments fixed, the final mass is non-decreasing in the
      duty cycle. */
  lemma GrowthMonotoneInDutyCycle(m: real, dt: real, exp: real -> real, eps: real, f1: real,
      f2: real, chi: real)
    requires ExpLaws(exp)
    requires GrowthParametersValid(m, dt, f1, chi) && GrowthParametersValid(m, dt, f2, chi)
    requires 0.0 < eps < 1.0
    requires f1 <= f2
    ensures GrowBlackHole(m, dt, exp, eps, f1, chi).Ok? && GrowBlackHole(m, dt, exp, eps, f2, chi).Ok?
    ensures GrowBlackHole(m, dt, exp, eps, f1, chi).value <= GrowBlackHole(m, dt, exp, eps, f2, chi).value
  {
    assert dt * chi >= 0.0;
    assert f1 * (dt * chi) <= f2 * (dt * chi);
    assert dt * f1 * chi == f1 * (dt * chi);
    assert dt * f2 * chi == f2 * (dt * chi);
    GrowthMonotoneInEffectiveTime(m, exp, eps, dt, f1, chi, dt, f2, chi);
  }

  /** With the other arguments fixed, the final mass is non-decreasing in the
      super-Eddington factor. */
  lemma GrowthMonotoneInSuperEddingtonFactor(m: real, dt: real, exp: real -> real, eps: real,
      f: real, chi1: real, chi2: real)
    requires ExpLaws(exp)
    requires GrowthParametersValid(m, dt, f, chi1) && 0.0 < eps < 1.0
    requires chi1 <= chi2
    ensures GrowBlackHole(m, dt, exp, eps, f, chi2).Ok?
    ensures GrowBlackHole(m, dt, exp, eps, f, chi1).value <= GrowBlackHole(m, dt, exp, eps, f, chi2).value
  {
    assert dt * f >= 0.0;
    assert (dt * f) * chi1 <= (dt * f) * chi2;
    GrowthMonotoneInEffectiveTime(m, exp, eps, dt, f, chi1, dt, f, chi2);
  }
}
