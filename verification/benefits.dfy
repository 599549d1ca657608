/**
  Annuity benefits: the payment per policy in force, due only in payment
  months and escalating once a year by a fixed rate or by inflation, and the
  expected payment, weighted by survivorship once the guarantee has ended.
*/
module Benefits {
  import opened ProjectionInputs
  import opened Inflation
  import opened Mortality
  import opened Guarantee

  /** The escalation types a policy may carry. */
  datatype Escalation = NoEscalation | FixedRate | InflationLinked

  /** The policy's integer escalation code: 0, 1 and 2 are known, any other is an error. */
  function EscalationOf(code: int): (r: Result<Escalation>)
    ensures r.Ok? <==> 0 <= code <= 2
    ensures r.Err? ==> r.error == UnsupportedEscalationType(code)
    ensures r == Ok(NoEscalation) <==> code == 0
    ensures r == Ok(FixedRate) <==> code == 1
  {
    if code == 0 then Ok(NoEscalation)
    else if code == 1 then Ok(FixedRate)
    else if code == 2 then Ok(InflationLinked)
    else Err(UnsupportedEscalationType(code))
  }

  /** The annual annuity split evenly over the payments of one year. */
  function LevelPayment(p: Policy): (r: real)
    requires p.annuityPaymentFrequency != 0
    ensures r * (p.annuityPaymentFrequency as real) == p.initialAnnuity
  {
    p.initialAnnuity / (p.annuityPaymentFrequency as real)
  }

  /** The level payment, or the error a zero frequency raises. */
  function InitialAnnuityPerPaymentPeriod(p: Policy): (r: Result<real>)
    ensures r.Ok? <==> p.annuityPaymentFrequency != 0
    ensures r.Err? ==> r.error == PaymentFrequencyDivisionByZero(p.annuityPaymentFrequency)
    ensures r.Ok? ==> r.value * (p.annuityPaymentFrequency as real) == p.initialAnnuity
  {
    if p.annuityPaymentFrequency == 0 then Err(PaymentFrequencyDivisionByZero(0))
    else Ok(LevelPayment(p))
  }

  /**
    The interval 12 // frequency for every non-zero frequency: 0 exactly
    above twelve payments a year, otherwise a divisor of the year.
  */
  lemma IntervalDividesYear(frequency: int)
    requires frequency != 0
    ensures FloorDiv(12, frequency) == 0 <==> frequency > 12
    ensures FloorDiv(12, frequency) != 0 ==> FloorDiv(12, frequency) in {-12, -6, -4, -3, -2, -1, 1, 2, 3, 4, 6, 12}
    ensures FloorDiv(12, frequency) != 0 ==> 12 % FloorDiv(12, frequency) == 0
  {
  }

  /**
    Months between payments, 12 // frequency. A zero frequency stops the
    projection; a frequency above 12 gives 0, and every other interval
    divides the year exactly.
  */
  function PaymentInterval(p: Policy): (r: Result<int>)
    ensures r.Ok? <==> p.annuityPaymentFrequency != 0
    ensures r.Err? ==> r.error == PaymentFrequencyDivisionByZero(p.annuityPaymentFrequency)
    ensures r.Ok? ==> (r.value == 0 <==> p.annuityPaymentFrequency > 12)
    ensures r.Ok? && r.value != 0 ==> 12 % r.value == 0
  {
    if p.annuityPaymentFrequency == 0 then Err(PaymentFrequencyDivisionByZero(0))
    else
      IntervalDividesYear(p.annuityPaymentFrequency);
      Ok(FloorDiv(12, p.annuityPaymentFrequency))
  }

  /** The frequency gives a usable, non-zero payment interval. */
  predicate HasPaymentInterval(p: Policy)
  {
    p.annuityPaymentFrequency != 0 && p.annuityPaymentFrequency <= 12
  }

  /** Month t falls on a multiple of the payment interval since commencement. */
  predicate IsPaymentMonth(p: Policy, t: int)
    requires HasPaymentInterval(p)
  {
    IntervalDividesYear(p.annuityPaymentFrequency);
    (p.durationIF + t) % FloorDiv(12, p.annuityPaymentFrequency) == 0
  }

  /** Euclidean remainders by a divisor and by its negation agree. */
  lemma RemainderIgnoresDivisorSign(x: int, divisor: int)
    requires divisor < 0
    ensures x % divisor == x % -divisor
  {
  }

  /** Adding a year of months leaves the remainder by a positive divisor of the year unchanged. */
  lemma YearShiftKeepsRemainder(x: int, divisor: int)
    requires divisor in {1, 2, 3, 4, 6, 12}
    ensures (x + 12) % divisor == x % divisor
  {
  }

  /** Because the interval divides the year, payment months recur every twelve months. */
  lemma PaymentMonthsRecurYearly(p: Policy, t: int)
    requires HasPaymentInterval(p)
    ensures IsPaymentMonth(p, t) <==> IsPaymentMonth(p, t + 12)
  {
    var interval := FloorDiv(12, p.annuityPaymentFrequency);
    var x := p.durationIF + t;
    IntervalDividesYear(p.annuityPaymentFrequency);
    if interval < 0 {
      RemainderIgnoresDivisorSign(x, interval);
      RemainderIgnoresDivisorSign(x + 12, interval);
      YearShiftKeepsRemainder(x, -interval);
    } else {
      YearShiftKeepsRemainder(x, interval);
    }
  }

  /**
    Payment per policy in force at month t. Nothing is paid outside payment
    months; in a payment month the amount depends on the escalation type,
    and the escalating types grow the payment of twelve months earlier.
  */
  function AnnuityPaymentPerPolicy(p: Policy, b: Basis, t: nat): (r: Result<real>)
    ensures r == Err(PaymentFrequencyDivisionByZero(p.annuityPaymentFrequency)) <==> !HasPaymentInterval(p)
    ensures HasPaymentInterval(p) && !IsPaymentMonth(p, t) ==> r == Ok(0.0)
    ensures HasPaymentInterval(p) && IsPaymentMonth(p, t) && p.escalationType == 0 ==>
      r.Ok? && r.value == LevelPayment(p)
    ensures HasPaymentInterval(p) && IsPaymentMonth(p, t) && !(0 <= p.escalationType <= 2) ==>
      r == Err(UnsupportedEscalationType(p.escalationType))
    decreases t
  {
    var interval :- PaymentInterval(p);
    if interval == 0 then
      Err(PaymentFrequencyDivisionByZero(p.annuityPaymentFrequency))
    else if !IsPaymentMonth(p, t) then
      Ok(0.0)
    else
      var escalation :- EscalationOf(p.escalationType);
      match escalation
      case NoEscalation =>
        Ok(LevelPayment(p))
      case FixedRate =>
        if t < 12 then InitialAnnuityPerPaymentPeriod(p)
        else
          var previous :- AnnuityPaymentPerPolicy(p, b, t - 12);
          Ok(Escalate(previous, p.escalationRate, 0.0))
      case InflationLinked =>
        if t < 12 then InitialAnnuityPerPaymentPeriod(p)
        else
          var previous :- AnnuityPaymentPerPolicy(p, b, t - 12);
          var inflation :- InflationAt(b, t - 12);
          Ok(Escalate(previous, inflation, 0.0))
  }

  /** One year of fixed-rate escalation, as facts about definedness and value. */
  lemma FixedRatePaymentStep(p: Policy, b: Basis, t: nat)
    requires HasPaymentInterval(p) && IsPaymentMonth(p, t)
    requires p.escalationType == 1 && t >= 12
    ensures AnnuityPaymentPerPolicy(p, b, t).Ok? <==> AnnuityPaymentPerPolicy(p, b, t - 12).Ok?
    ensures AnnuityPaymentPerPolicy(p, b, t).Ok? ==>
      AnnuityPaymentPerPolicy(p, b, t).value
        == Escalate(AnnuityPaymentPerPolicy(p, b, t - 12).value, p.escalationRate, 0.0)
  {
  }

  /** The fixed-rate closed form carries over from a payment month to the same month a year later. */
  lemma FixedRatePaymentYearOn(p: Policy, b: Basis, t: nat)
    requires HasPaymentInterval(p) && IsPaymentMonth(p, t)
    requires p.escalationType == 1 && t >= 12
    requires AnnuityPaymentPerPolicy(p, b, t - 12).Ok?
    requires AnnuityPaymentPerPolicy(p, b, t - 12).value
      == ScaledBy(LevelPayment(p), Pow(1.0 + p.escalationRate, (t - 12) / 12))
    ensures AnnuityPaymentPerPolicy(p, b, t).Ok?
    ensures AnnuityPaymentPerPolicy(p, b, t).value == ScaledBy(LevelPayment(p), Pow(1.0 + p.escalationRate, t / 12))
  {
    FixedRatePaymentStep(p, b, t);
    assert (t - 12) / 12 == t / 12 - 1;
    CompoundOnceMore(LevelPayment(p), p.escalationRate, t / 12, AnnuityPaymentPerPolicy(p, b, t - 12).value);
  }

  /** A fixed-rate payment compounds once per completed projection year. */
  lemma {:induction false} FixedRatePaymentClosedForm(p: Policy, b: Basis, t: nat)
    requires HasPaymentInterval(p) && IsPaymentMonth(p, t)
    requires p.escalationType == 1
    ensures AnnuityPaymentPerPolicy(p, b, t).Ok?
    ensures AnnuityPaymentPerPolicy(p, b, t).value == ScaledBy(LevelPayment(p), Pow(1.0 + p.escalationRate, t / 12))
  {
    if t >= 12 {
      PaymentMonthsRecurYearly(p, t - 12);
      FixedRatePaymentClosedForm(p, b, t - 12);
      FixedRatePaymentYearOn(p, b, t);
    }
  }

  /** One year of inflation-linked escalation, as facts about definedness, value and the error reported. */
  lemma InflationLinkedPaymentStep(p: Policy, b: Basis, t: nat)
    requires HasPaymentInterval(p) && IsPaymentMonth(p, t)
    requires p.escalationType == 2 && t >= 12
    ensures AnnuityPaymentPerPolicy(p, b, t).Ok?
      <==> AnnuityPaymentPerPolicy(p, b, t - 12).Ok? && t - 12 in b.inflationForward
    ensures AnnuityPaymentPerPolicy(p, b, t).Ok? ==>
      AnnuityPaymentPerPolicy(p, b, t).value
        == Escalate(AnnuityPaymentPerPolicy(p, b, t - 12).value, b.inflationForward[t - 12], 0.0)
    ensures AnnuityPaymentPerPolicy(p, b, t - 12).Err? ==>
      AnnuityPaymentPerPolicy(p, b, t).error == AnnuityPaymentPerPolicy(p, b, t - 12).error
    ensures AnnuityPaymentPerPolicy(p, b, t - 12).Ok? && t - 12 !in b.inflationForward ==>
      AnnuityPaymentPerPolicy(p, b, t).error == MissingInflationRate(t - 12)
  {
  }

  /**
    A payment that is the level payment times the compounded inflation is
    still so twelve months later, when the curve has the rate in between.
  */
  lemma InflationLinkedPaymentYearOn(p: Policy, b: Basis, t: nat)
    requires HasPaymentInterval(p) && IsPaymentMonth(p, t)
    requires p.escalationType == 2 && t >= 12
    requires AnnuityPaymentPerPolicy(p, b, t - 12).Ok? && CompoundedGrowth(b, 0.0, t - 12).Ok?
    requires AnnuityPaymentPerPolicy(p, b, t - 12).value == ScaledBy(LevelPayment(p), CompoundedGrowth(b, 0.0, t - 12).value)
    requires t - 12 in b.inflationForward
    ensures AnnuityPaymentPerPolicy(p, b, t).Ok?
    ensures AnnuityPaymentPerPolicy(p, b, t).value == ScaledBy(LevelPayment(p), CompoundedGrowth(b, 0.0, t).value)
  {
    InflationLinkedPaymentStep(p, b, t);
    CompoundedGrowthStep(b, 0.0, t);
    EscalateScales(LevelPayment(p), AnnuityPaymentPerPolicy(p, b, t - 12).value,
      CompoundedGrowth(b, 0.0, t - 12).value, b.inflationForward[t - 12], 0.0, CompoundedGrowth(b, 0.0, t).value);
  }

  /** An inflation-linked payment is the level payment times the compounded inflation. */
  lemma {:induction false} InflationLinkedPaymentClosedForm(p: Policy, b: Basis, t: nat)
    requires HasPaymentInterval(p) && IsPaymentMonth(p, t)
    requires p.escalationType == 2
    ensures AnnuityPaymentPerPolicy(p, b, t).Ok? <==> CompoundedGrowth(b, 0.0, t).Ok?
    ensures AnnuityPaymentPerPolicy(p, b, t).Ok? ==>
      AnnuityPaymentPerPolicy(p, b, t).value
        == ScaledBy(LevelPayment(p), CompoundedGrowth(b, 0.0, t).value)
    ensures AnnuityPaymentPerPolicy(p, b, t).Err? ==>
      AnnuityPaymentPerPolicy(p, b, t).error == CompoundedGrowth(b, 0.0, t).error
  {
    if t >= 12 {
      PaymentMonthsRecurYearly(p, t - 12);
      InflationLinkedPaymentClosedForm(p, b, t - 12);
      InflationLinkedPaymentStep(p, b, t);
      CompoundedGrowthStep(b, 0.0, t);
      if AnnuityPaymentPerPolicy(p, b, t - 12).Ok? && t - 12 in b.inflationForward {
        InflationLinkedPaymentYearOn(p, b, t);
      }
    }
  }

  /**
    Expected payment at month t: the payment itself while the guarantee
    runs, otherwise weighted by the expected number of policies in force.
  */
  function ExpectedAnnuityPayment(p: Policy, b: Basis, t: nat): (r: Result<real>)
    ensures r.Ok? ==> AnnuityPaymentPerPolicy(p, b, t).Ok?
    ensures AnnuityPaymentPerPolicy(p, b, t).Err? ==> r == AnnuityPaymentPerPolicy(p, b, t)
    ensures WithinGuaranteePeriod(p, t) == 0 && AnnuityPaymentPerPolicy(p, b, t).Ok? ==>
      (r.Ok? <==> ExpectedPoliciesInForce(p, b, t).Ok?)
  {
    if WithinGuaranteePeriod(p, t) != 0 then AnnuityPaymentPerPolicy(p, b, t)
    else Times(AnnuityPaymentPerPolicy(p, b, t), ExpectedPoliciesInForce(p, b, t))
  }

  /**
    Inside the guaranteed term the expected payment is the payment per
    policy; after it, the payment times the number in force.
  */
  lemma ExpectedAnnuityPaymentByTerm(p: Policy, b: Basis, t: nat)
    ensures p.durationIF + t < p.initialGuaranteeTerm ==>
      ExpectedAnnuityPayment(p, b, t) == AnnuityPaymentPerPolicy(p, b, t)
    ensures p.durationIF + t >= p.initialGuaranteeTerm ==>
      ExpectedAnnuityPayment(p, b, t)
        == Times(AnnuityPaymentPerPolicy(p, b, t), ExpectedPoliciesInForce(p, b, t))
  {
    GuaranteeClosedForm(p, t);
  }

  /**
    With the death rates met in the unit interval, weighting never raises a
    non-negative payment: the expected payment lies between 0 and the
    payment per policy.
  */
  lemma ExpectedAnnuityPaymentBounded(p: Policy, b: Basis, t: nat)
    requires RatesNonNegativeBefore(p, b, t)
    requires ExpectedAnnuityPayment(p, b, t).Ok?
    ensures AnnuityPaymentPerPolicy(p, b, t).Ok?
    ensures 0.0 <= AnnuityPaymentPerPolicy(p, b, t).value ==>
      0.0 <= ExpectedAnnuityPayment(p, b, t).value <= AnnuityPaymentPerPolicy(p, b, t).value
  {
    if WithinGuaranteePeriod(p, t) == 0 {
      InForceInUnitInterval(p, b, t);
      WeightedResultBounds(AnnuityPaymentPerPolicy(p, b, t), ExpectedPoliciesInForce(p, b, t));
    }
  }
}
