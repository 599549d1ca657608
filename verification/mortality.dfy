/**
  Demographic and survivorship series: attained age, the monthly death rate
  and the expected number of policies still in force, each a recurrence on
  the month index t.
*/
module Mortality {
  import opened ProjectionInputs

  /**
    Attained age in whole years at month t. The first projection year
    truncates age-at-entry plus elapsed years toward zero; every later month
    is one year older than the same month a year before.
  */
  function CurrentAge(p: Policy, t: nat): int
    decreases t
  {
    if t < 12 then TruncDiv(12 * p.ageAtEntry + p.durationIF + t, 12)
    else CurrentAge(p, t - 12) + 1
  }

  /** Adding at most twelve months to a numerator moves its truncated twelfth by 0 or 1. */
  lemma TruncTwelfthStep(n: int, k: int)
    requires 0 <= k <= 12
    ensures TruncDiv(n, 12) <= TruncDiv(n + k, 12) <= TruncDiv(n, 12) + 1
  {
  }

  /** From one month to the next the age stays or goes up by exactly one year. */
  lemma {:induction false} CurrentAgeStep(p: Policy, t: nat)
    ensures CurrentAge(p, t) <= CurrentAge(p, t + 1) <= CurrentAge(p, t) + 1
  {
    var n := 12 * p.ageAtEntry + p.durationIF;
    if t + 1 < 12 {
      TruncTwelfthStep(n + t, 1);
    } else if t + 1 == 12 {
      TruncTwelfthStep(n, 11);
    } else {
      CurrentAgeStep(p, t - 12);
    }
  }

  /** Age never decreases, and twelve months on it is exactly one year more. */
  lemma {:induction false} CurrentAgeNonDecreasing(p: Policy, s: nat, t: nat)
    requires s <= t
    ensures CurrentAge(p, s) <= CurrentAge(p, t)
    ensures CurrentAge(p, t + 12) == CurrentAge(p, t) + 1
  {
    if s < t {
      CurrentAgeNonDecreasing(p, s, t - 1);
      CurrentAgeStep(p, t - 1);
    }
  }

  /**
    When the policyholder's age at the valuation date is not negative, the
    age at month t is age-at-entry plus the whole years of duration at t.
  */
  lemma {:induction false} CurrentAgeClosedForm(p: Policy, t: nat)
    requires 12 * p.ageAtEntry + p.durationIF >= 0
    ensures CurrentAge(p, t) == p.ageAtEntry + (p.durationIF + t) / 12
  {
    if t >= 12 {
      CurrentAgeClosedForm(p, t - 12);
      assert (p.durationIF + t) / 12 == (p.durationIF + t - 12) / 12 + 1;
    } else {
      var n := 12 * p.ageAtEntry + p.durationIF + t;
      assert TruncDiv(n, 12) == n / 12;
      assert n / 12 == p.ageAtEntry + (p.durationIF + t) / 12;
    }
  }

  /**
    The assumption basis gives death rates in the unit interval: table rates
    that are not negative (one above 1 is an error), a conversion to monthly
    rates that keeps [0, 1] and a non-negative overlay.
  */
  ghost predicate MortalityBasisValid(b: Basis)
  {
    && 0.0 <= b.mortalityOverlay
    && (forall key :: key in b.mortalityTable ==> 0.0 <= b.mortalityTable[key])
    && (forall q: real :: 0.0 <= q <= 1.0 ==> 0.0 <= b.monthlyFromAnnual(q) <= 1.0)
  }

  /**
    The monthly death rate for an attained age, evaluated directly: certain
    death beyond the last age of the table, otherwise the converted table
    rate times the overlay, capped at 1. A missing table entry stops the
    projection, and so does a table rate above 1, whose monthly conversion
    takes a fractional power of a negative number and leaves the reals.
  */
  function MortalityRateAtAge(p: Policy, b: Basis, age: int): (r: Result<real>)
    ensures r.Ok? ==> r.value <= 1.0
    ensures age > b.maxMortalityAge ==> r == Ok(1.0)
    ensures r.Err? <==>
      (age <= b.maxMortalityAge &&
       ((age, SexOf(p.gender)) !in b.mortalityTable || b.mortalityTable[(age, SexOf(p.gender))] > 1.0))
    ensures r.Err? && (age, SexOf(p.gender)) !in b.mortalityTable ==>
      r.error == MissingMortalityRate(age, SexOf(p.gender))
    ensures r.Err? && (age, SexOf(p.gender)) in b.mortalityTable ==>
      r.error == AnnualRateAboveOne(age, SexOf(p.gender))
    ensures MortalityBasisValid(b) && r.Ok? ==> 0.0 <= r.value
  {
    if age <= b.maxMortalityAge then
      var key := (age, SexOf(p.gender));
      if key !in b.mortalityTable then
        Err(MissingMortalityRate(age, SexOf(p.gender)))
      else if b.mortalityTable[key] > 1.0 then
        Err(AnnualRateAboveOne(age, SexOf(p.gender)))
      else
        var monthly := b.monthlyFromAnnual(b.mortalityTable[key]);
        ProductNonNegative(monthly, b.mortalityOverlay);
        Ok(Min(1.0, ScaledBy(monthly, b.mortalityOverlay)))
    else
      Ok(1.0)
  }

  /**
    Monthly death rate at month t. When the age has not changed since the
    month before, the previous month's rate is reused instead of looking the
    table up again.
  */
  function DeathRate(p: Policy, b: Basis, t: nat): (r: Result<real>)
    ensures r.Ok? ==> r.value <= 1.0
    ensures CurrentAge(p, t) > b.maxMortalityAge ==> r == Ok(1.0)
    ensures MortalityBasisValid(b) && r.Ok? ==> 0.0 <= r.value
    decreases t
  {
    if t != 0 && CurrentAge(p, t) == CurrentAge(p, t - 1) then DeathRate(p, b, t - 1)
    else MortalityRateAtAge(p, b, CurrentAge(p, t))
  }

  /**
    Reusing the previous month's rate is sound: at every month the rate
    equals the direct evaluation for that month's age, failures included.
  */
  lemma {:induction false} DeathRateShortCircuitSound(p: Policy, b: Basis, t: nat)
    ensures DeathRate(p, b, t) == MortalityRateAtAge(p, b, CurrentAge(p, t))
  {
    if t != 0 && CurrentAge(p, t) == CurrentAge(p, t - 1) {
      DeathRateShortCircuitSound(p, b, t - 1);
    }
  }

  /** The number still in force after one month at a given monthly death rate. */
  function Survived(inForce: real, rate: real): real
  {
    inForce * (1.0 - rate)
  }

  /**
    Expected number of policies in force at month t per policy at the
    valuation date: last month's number times the chance of surviving last
    month.
  */
  function ExpectedPoliciesInForce(p: Policy, b: Basis, t: nat): (r: Result<real>)
    ensures t == 0 ==> r == Ok(1.0)
    decreases t
  {
    if t == 0 then
      Ok(1.0)
    else
      var inForce :- ExpectedPoliciesInForce(p, b, t - 1);
      var rate :- DeathRate(p, b, t - 1);
      Ok(Survived(inForce, rate))
  }

  /** One step of the survivorship recurrence, as facts about definedness and value. */
  lemma InForceUnfold(p: Policy, b: Basis, t: nat)
    requires t > 0
    ensures ExpectedPoliciesInForce(p, b, t).Ok?
      <==> ExpectedPoliciesInForce(p, b, t - 1).Ok? && DeathRate(p, b, t - 1).Ok?
    ensures ExpectedPoliciesInForce(p, b, t).Ok? ==>
      ExpectedPoliciesInForce(p, b, t).value
        == Survived(ExpectedPoliciesInForce(p, b, t - 1).value, DeathRate(p, b, t - 1).value)
  {
  }

  /** Every death rate met before month t that is defined is not negative. */
  ghost predicate RatesNonNegativeBefore(p: Policy, b: Basis, t: nat)
  {
    forall s: nat :: s < t && DeathRate(p, b, s).Ok? ==> 0.0 <= DeathRate(p, b, s).value
  }

  /** A valid basis makes every death rate met non-negative. */
  lemma ValidBasisGivesNonNegativeRates(p: Policy, b: Basis, t: nat)
    requires MortalityBasisValid(b)
    ensures RatesNonNegativeBefore(p, b, t)
  {
    forall s: nat | s < t && DeathRate(p, b, s).Ok?
      ensures 0.0 <= DeathRate(p, b, s).value
    {
    }
  }

  /** Surviving a month at a rate in [0, 1] keeps a number in [0, 1] and does not raise it. */
  lemma SurvivalFactorBounds(n: real, q: real)
    requires 0.0 <= n <= 1.0 && 0.0 <= q <= 1.0
    ensures 0.0 <= Survived(n, q) <= n
  {
    ProductNonNegative(n, q);
    ProductNonNegative(n, 1.0 - q);
  }

  /**
    With the death rates met before t in the unit interval the number in
    force stays in [0, 1]; every rate is at most 1 already, so only their
    being non-negative is assumed.
  */
  lemma {:induction false} InForceInUnitInterval(p: Policy, b: Basis, t: nat)
    requires RatesNonNegativeBefore(p, b, t)
    requires ExpectedPoliciesInForce(p, b, t).Ok?
    ensures 0.0 <= ExpectedPoliciesInForce(p, b, t).value <= 1.0
  {
    if t > 0 {
      InForceUnfold(p, b, t);
      InForceInUnitInterval(p, b, t - 1);
      SurvivalFactorBounds(ExpectedPoliciesInForce(p, b, t - 1).value, DeathRate(p, b, t - 1).value);
    }
  }

  /** The number in force is defined exactly when every earlier death rate is. */
  lemma {:induction false} InForceDefinedIff(p: Policy, b: Basis, t: nat)
    ensures ExpectedPoliciesInForce(p, b, t).Ok? <==> forall s: nat :: s < t ==> DeathRate(p, b, s).Ok?
  {
    if t > 0 {
      InForceDefinedIff(p, b, t - 1);
      InForceUnfold(p, b, t);
    }
  }

  /** One month of survivorship does not raise the number in force. */
  lemma InForceStepDown(p: Policy, b: Basis, t: nat)
    requires RatesNonNegativeBefore(p, b, t + 1)
    requires ExpectedPoliciesInForce(p, b, t + 1).Ok?
    ensures ExpectedPoliciesInForce(p, b, t).Ok?
    ensures ExpectedPoliciesInForce(p, b, t + 1).value <= ExpectedPoliciesInForce(p, b, t).value
  {
    InForceUnfold(p, b, t + 1);
    InForceInUnitInterval(p, b, t);
    SurvivalFactorBounds(ExpectedPoliciesInForce(p, b, t).value, DeathRate(p, b, t).value);
  }

  /**
    With the death rates met in the unit interval the number in force never grows:
    a later month that is defined has an earlier month that is defined and
    no larger.
  */
  lemma {:induction false} InForceNonIncreasing(p: Policy, b: Basis, s: nat, t: nat)
    requires RatesNonNegativeBefore(p, b, t)
    requires s <= t
    requires ExpectedPoliciesInForce(p, b, t).Ok?
    ensures ExpectedPoliciesInForce(p, b, s).Ok?
    ensures ExpectedPoliciesInForce(p, b, t).value <= ExpectedPoliciesInForce(p, b, s).value
  {
    if s < t {
      InForceStepDown(p, b, t - 1);
      InForceNonIncreasing(p, b, s, t - 1);
    }
  }
}
