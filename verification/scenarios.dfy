/**
  Worked examples on concrete policies: a level monthly annuity, a first
  fixed-rate escalation, a two-year guarantee, an attained age at 65, a
  table rate above 1 and a death rate beyond the end of the mortality table.
*/
module Scenarios {
  import opened ProjectionInputs
  import opened Mortality
  import opened Guarantee
  import opened Benefits

  /** A level annuity of 1200 a year paid monthly from commencement pays 100 every month. */
  lemma LevelMonthlyAnnuity(p: Policy, b: Basis, t: nat)
    requires p.annuityPaymentFrequency == 12 && p.escalationType == 0
    requires p.initialAnnuity == 1200.0 && p.durationIF == 0
    ensures AnnuityPaymentPerPolicy(p, b, t) == Ok(100.0)
  {
    assert FloorDiv(12, 12) == 1;
    assert IsPaymentMonth(p, t);
    assert LevelPayment(p) == 100.0;
  }

  /** An annual annuity of 1200 escalating at 3% a year pays 1236 on the first anniversary. */
  lemma FirstFixedEscalation(p: Policy, b: Basis)
    requires p.annuityPaymentFrequency == 1 && p.escalationType == 1
    requires p.initialAnnuity == 1200.0 && p.escalationRate == 0.03 && p.durationIF == 0
    ensures AnnuityPaymentPerPolicy(p, b, 12).Ok?
    ensures AnnuityPaymentPerPolicy(p, b, 12).value == 1236.0
  {
    assert FloorDiv(12, 1) == 12;
    assert IsPaymentMonth(p, 12);
    FixedRatePaymentClosedForm(p, b, 12);
    assert Pow(1.03, 1) == 1.03;
  }

  /** A 24-month guarantee from commencement covers months 0 to 23 and no later month. */
  lemma TwoYearGuarantee(p: Policy, t: nat)
    requires p.initialGuaranteeTerm == 24 && p.durationIF == 0
    ensures WithinGuaranteePeriod(p, t) == (if t < 24 then 1 else 0)
  {
    GuaranteeClosedForm(p, t);
  }

  /** Entering at 65 at commencement, the policyholder is 65 for the first year and 66 at month 12. */
  lemma AgeSixtyFive(p: Policy, t: nat)
    requires p.ageAtEntry == 65 && p.durationIF == 0
    ensures t < 12 ==> CurrentAge(p, t) == 65
    ensures CurrentAge(p, 12) == 66
  {
    CurrentAgeClosedForm(p, t);
    CurrentAgeClosedForm(p, 12);
  }

  /**
    With an entry age below zero the truncated age is not the floor: entering
    at -1 six months after commencement gives age 0, not -1 + 6 div 12 = -1.
  */
  lemma TruncationIsNotFloorBelowZero(p: Policy)
    requires p.ageAtEntry == -1 && p.durationIF == 6
    ensures CurrentAge(p, 0) == 0
    ensures CurrentAge(p, 0) != p.ageAtEntry + (p.durationIF + 0) / 12
  {
  }

  /**
    A table rate of 1.5 at age 70 within a table ending at 110 stops the
    projection instead of giving a capped rate.
  */
  lemma RateAboveOneStops(p: Policy, b: Basis)
    requires b.maxMortalityAge == 110 && (70, SexOf(p.gender)) in b.mortalityTable
    requires b.mortalityTable[(70, SexOf(p.gender))] == 1.5
    ensures MortalityRateAtAge(p, b, 70) == Err(AnnualRateAboveOne(70, SexOf(p.gender)))
  {
  }

  /** Beyond a table ending at 110 the monthly death rate is 1 whatever the overlay. */
  lemma BeyondTheTable(p: Policy, b: Basis, t: nat)
    requires b.maxMortalityAge == 110 && CurrentAge(p, t) == 111
    ensures DeathRate(p, b, t).Ok? && DeathRate(p, b, t).value == 1.0
  {
    DeathRateShortCircuitSound(p, b, t);
  }
}
