/**
  Renewal expenses: a per-policy expense due on policy anniversaries only,
  growing each year by the inflation of the same month a year earlier plus
  a margin, and its expected value weighted by survivorship.
*/
module Expenses {
  import opened ProjectionInputs
  import opened Inflation
  import opened Mortality

  /** Month t is a policy anniversary: a whole number of years since commencement. */
  predicate IsAnniversary(p: Policy, t: int)
  {
    (p.durationIF + t) % 12 == 0
  }

  /**
    Renewal expense per policy at month t: nothing outside anniversaries,
    the base expense on an anniversary in the first projection year, and
    the expense of twelve months earlier grown by one plus inflation plus
    the margin on every later anniversary.
  */
  function RenewalExpensePerPolicy(p: Policy, b: Basis, t: nat): (r: Result<real>)
    ensures !IsAnniversary(p, t) ==> r == Ok(0.0)
    ensures IsAnniversary(p, t) && t < 12 ==> r == Ok(b.baseRenewalExpense)
    ensures r.Err? ==> r.error.MissingInflationRate? && 0 <= r.error.month < t
    decreases t
  {
    if (p.durationIF + t) % 12 != 0 then
      Ok(0.0)
    else if t < 12 then
      Ok(b.baseRenewalExpense)
    else
      var previous :- RenewalExpensePerPolicy(p, b, t - 12);
      var inflation :- InflationAt(b, t - 12);
      Ok(Escalate(previous, inflation, b.renewalExpenseInflationMargin))
  }

  /** Anniversaries recur every twelve months, so the look-back of an anniversary is one too. */
  lemma AnniversariesRecurYearly(p: Policy, t: int)
    ensures IsAnniversary(p, t) <==> IsAnniversary(p, t + 12)
  {
    assert (p.durationIF + t + 12) % 12 == (p.durationIF + t) % 12;
  }

  /** One year of expense inflation, as facts about definedness, value and the error reported. */
  lemma RenewalExpenseStep(p: Policy, b: Basis, t: nat)
    requires IsAnniversary(p, t) && t >= 12
    ensures RenewalExpensePerPolicy(p, b, t).Ok?
      <==> RenewalExpensePerPolicy(p, b, t - 12).Ok? && t - 12 in b.inflationForward
    ensures RenewalExpensePerPolicy(p, b, t).Ok? ==>
      RenewalExpensePerPolicy(p, b, t).value
        == Escalate(RenewalExpensePerPolicy(p, b, t - 12).value, b.inflationForward[t - 12],
          b.renewalExpenseInflationMargin)
    ensures RenewalExpensePerPolicy(p, b, t - 12).Err? ==>
      RenewalExpensePerPolicy(p, b, t).error == RenewalExpensePerPolicy(p, b, t - 12).error
    ensures RenewalExpensePerPolicy(p, b, t - 12).Ok? && t - 12 !in b.inflationForward ==>
      RenewalExpensePerPolicy(p, b, t).error == MissingInflationRate(t - 12)
  {
  }

  /**
    The link between the expense and the growth compounded with the margin
    carries over from an anniversary to the next one.
  */
  lemma RenewalExpenseYearOn(p: Policy, b: Basis, t: nat)
    requires IsAnniversary(p, t) && t >= 12
    requires RenewalExpensePerPolicy(p, b, t - 12).Ok?
      <==> CompoundedGrowth(b, b.renewalExpenseInflationMargin, t - 12).Ok?
    requires RenewalExpensePerPolicy(p, b, t - 12).Ok? ==>
      RenewalExpensePerPolicy(p, b, t - 12).value
        == ScaledBy(b.baseRenewalExpense, CompoundedGrowth(b, b.renewalExpenseInflationMargin, t - 12).value)
    requires RenewalExpensePerPolicy(p, b, t - 12).Err? ==>
      RenewalExpensePerPolicy(p, b, t - 12).error
        == CompoundedGrowth(b, b.renewalExpenseInflationMargin, t - 12).error
    ensures RenewalExpensePerPolicy(p, b, t).Ok?
      <==> CompoundedGrowth(b, b.renewalExpenseInflationMargin, t).Ok?
    ensures RenewalExpensePerPolicy(p, b, t).Ok? ==>
      RenewalExpensePerPolicy(p, b, t).value
        == ScaledBy(b.baseRenewalExpense, CompoundedGrowth(b, b.renewalExpenseInflationMargin, t).value)
    ensures RenewalExpensePerPolicy(p, b, t).Err? ==>
      RenewalExpensePerPolicy(p, b, t).error
        == CompoundedGrowth(b, b.renewalExpenseInflationMargin, t).error
  {
    RenewalExpenseStep(p, b, t);
    CompoundedGrowthStep(b, b.renewalExpenseInflationMargin, t);
    var growth := CompoundedGrowth(b, b.renewalExpenseInflationMargin, t - 12);
    if growth.Ok? && t - 12 in b.inflationForward {
      EscalateScales(b.baseRenewalExpense, RenewalExpensePerPolicy(p, b, t - 12).value, growth.value,
        b.inflationForward[t - 12], b.renewalExpenseInflationMargin,
        CompoundedGrowth(b, b.renewalExpenseInflationMargin, t).value);
    }
  }

  /**
    On every anniversary the expense is the base expense times the growth
    compounded with the margin, and it fails exactly when that growth does,
    with the same missing month.
  */
  lemma {:induction false} RenewalExpenseClosedForm(p: Policy, b: Basis, t: nat)
    requires IsAnniversary(p, t)
    ensures RenewalExpensePerPolicy(p, b, t).Ok?
      <==> CompoundedGrowth(b, b.renewalExpenseInflationMargin, t).Ok?
    ensures RenewalExpensePerPolicy(p, b, t).Ok? ==>
      RenewalExpensePerPolicy(p, b, t).value
        == ScaledBy(b.baseRenewalExpense, CompoundedGrowth(b, b.renewalExpenseInflationMargin, t).value)
    ensures RenewalExpensePerPolicy(p, b, t).Err? ==>
      RenewalExpensePerPolicy(p, b, t).error
        == CompoundedGrowth(b, b.renewalExpenseInflationMargin, t).error
  {
    if t >= 12 {
      AnniversariesRecurYearly(p, t - 12);
      RenewalExpenseClosedForm(p, b, t - 12);
      RenewalExpenseYearOn(p, b, t);
    }
  }

  /**
    The expense is defined outside anniversaries, and on an anniversary
    exactly when the curve has a rate for every earlier month on the same
    position within the projection year.
  */
  lemma RenewalExpenseDefinedIff(p: Policy, b: Basis, t: nat)
    ensures RenewalExpensePerPolicy(p, b, t).Ok? <==> !IsAnniversary(p, t) || CurveCoversYearsBefore(b, t)
  {
    if IsAnniversary(p, t) {
      RenewalExpenseClosedForm(p, b, t);
    }
  }

  /**
    A non-negative base expense and years that never shrink an amount below
    zero give a non-negative expense.
  */
  lemma RenewalExpenseNonNegative(p: Policy, b: Basis, t: nat)
    requires 0.0 <= b.baseRenewalExpense
    requires forall s :: s in b.inflationForward ==>
      0.0 <= 1.0 + b.inflationForward[s] + b.renewalExpenseInflationMargin
    requires RenewalExpensePerPolicy(p, b, t).Ok?
    ensures 0.0 <= RenewalExpensePerPolicy(p, b, t).value
  {
    if IsAnniversary(p, t) {
      RenewalExpenseClosedForm(p, b, t);
      var growth := CompoundedGrowth(b, b.renewalExpenseInflationMargin, t);
      CompoundedGrowthNonNegative(b, b.renewalExpenseInflationMargin, t);
      ProductNonNegative(b.baseRenewalExpense, growth.value);
      assert RenewalExpensePerPolicy(p, b, t).value == ScaledBy(b.baseRenewalExpense, growth.value);
    }
  }

  /**
    Expected renewal expense at month t: the expense per policy times the
    expected number of policies in force, both evaluated even when the
    expense is zero.
  */
  function ExpectedRenewalExpensePayment(p: Policy, b: Basis, t: nat): (r: Result<real>)
    ensures r.Ok? <==> RenewalExpensePerPolicy(p, b, t).Ok? && ExpectedPoliciesInForce(p, b, t).Ok?
    ensures r.Err? && RenewalExpensePerPolicy(p, b, t).Err? ==>
      r.error == RenewalExpensePerPolicy(p, b, t).error
  {
    Times(RenewalExpensePerPolicy(p, b, t), ExpectedPoliciesInForce(p, b, t))
  }

  /**
    Outside anniversaries nothing is expected to be paid, provided the
    number in force is defined; a missing death rate still stops the
    projection there.
  */
  lemma ExpectedRenewalExpenseOffAnniversary(p: Policy, b: Basis, t: nat)
    requires !IsAnniversary(p, t)
    ensures ExpectedRenewalExpensePayment(p, b, t).Ok? <==> ExpectedPoliciesInForce(p, b, t).Ok?
    ensures ExpectedRenewalExpensePayment(p, b, t).Ok? ==> ExpectedRenewalExpensePayment(p, b, t).value == 0.0
  {
  }

  /**
    With the death rates met in the unit interval, weighting never raises a
    non-negative expense: the expected expense lies between 0 and the
    expense per policy.
  */
  lemma ExpectedRenewalExpenseBounded(p: Policy, b: Basis, t: nat)
    requires RatesNonNegativeBefore(p, b, t)
    requires ExpectedRenewalExpensePayment(p, b, t).Ok?
    requires 0.0 <= RenewalExpensePerPolicy(p, b, t).value
    ensures 0.0 <= ExpectedRenewalExpensePayment(p, b, t).value <= RenewalExpensePerPolicy(p, b, t).value
  {
    InForceInUnitInterval(p, b, t);
    WeightedResultBounds(RenewalExpensePerPolicy(p, b, t), ExpectedPoliciesInForce(p, b, t));
  }
}
