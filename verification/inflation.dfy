/**
  The forward inflation curve and the annual compounding built on it. Both
  escalating series of the projection (inflation-linked annuity payments and
  renewal expenses) grow once a year by one plus the curve's rate twelve
  months earlier, plus a margin for expenses.
*/
module Inflation {
  import opened ProjectionInputs

  /** The curve's rate at a month index; a missing index stops the projection. */
  function InflationAt(b: Basis, month: int): (r: Result<real>)
    ensures r.Ok? <==> month in b.inflationForward
    ensures r.Ok? ==> r.value == b.inflationForward[month]
    ensures r.Err? ==> r.error == MissingInflationRate(month)
  {
    if month in b.inflationForward then Ok(b.inflationForward[month])
    else Err(MissingInflationRate(month))
  }

  /**
    The months whose rates compound into month t: t - 12, t - 24, ... down
    to the first one at or above 0, that is every earlier month on the same
    position within the projection year.
  */
  ghost predicate CurveCoversYearsBefore(b: Basis, t: nat)
  {
    forall s: int :: 0 <= s < t && s % 12 == t % 12 ==> s in b.inflationForward
  }

  /**
    Growth accumulated by month t: the product, over the months t - 12,
    t - 24, ... >= 0, of (1 + rate + margin), multiplied from the earliest
    year onward so that the first missing month reported is the earliest.
  */
  function CompoundedGrowth(b: Basis, margin: real, t: nat): (r: Result<real>)
    ensures r.Ok? <==> CurveCoversYearsBefore(b, t)
    ensures r.Err? ==> r.error.MissingInflationRate? && 0 <= r.error.month < t
    ensures t < 12 ==> r == Ok(1.0)
    decreases t
  {
    if t < 12 then
      Ok(1.0)
    else
      var growth :- CompoundedGrowth(b, margin, t - 12);
      var rate :- InflationAt(b, t - 12);
      Ok(Escalate(growth, rate, margin))
  }

  /** One year of compounding, as facts about definedness, value and the error reported. */
  lemma CompoundedGrowthStep(b: Basis, margin: real, t: nat)
    requires t >= 12
    ensures CompoundedGrowth(b, margin, t).Ok?
      <==> CompoundedGrowth(b, margin, t - 12).Ok? && t - 12 in b.inflationForward
    ensures CompoundedGrowth(b, margin, t).Ok? ==>
      CompoundedGrowth(b, margin, t).value
        == Escalate(CompoundedGrowth(b, margin, t - 12).value, b.inflationForward[t - 12], margin)
    ensures CompoundedGrowth(b, margin, t - 12).Err? ==>
      CompoundedGrowth(b, margin, t).error == CompoundedGrowth(b, margin, t - 12).error
    ensures CompoundedGrowth(b, margin, t - 12).Ok? && t - 12 !in b.inflationForward ==>
      CompoundedGrowth(b, margin, t).error == MissingInflationRate(t - 12)
  {
  }

  /**
    With every compounded rate at least -1 - margin (no year shrinks an
    amount below zero), the growth is non-negative.
  */
  lemma {:induction false} CompoundedGrowthNonNegative(b: Basis, margin: real, t: nat)
    requires forall s :: s in b.inflationForward ==> 0.0 <= 1.0 + b.inflationForward[s] + margin
    requires CompoundedGrowth(b, margin, t).Ok?
    ensures 0.0 <= CompoundedGrowth(b, margin, t).value
  {
    if t >= 12 {
      CompoundedGrowthStep(b, margin, t);
      CompoundedGrowthNonNegative(b, margin, t - 12);
      EscalateNonNegative(CompoundedGrowth(b, margin, t - 12).value, b.inflationForward[t - 12], margin);
    }
  }
}
