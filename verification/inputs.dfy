/**
  Inputs of a single-policy annuity projection: the policy record, the
  assumption basis, the errors a projection can stop with, and the integer
  operators of the source language written out over Dafny's unbounded
  integers.
*/
module ProjectionInputs {

  /** Sex used as the second key of the mortality table. */
  datatype Sex = Male | Female

  /** Gender code 0 reads as male, every other code as female. */
  function SexOf(gender: int): Sex
  {
    if gender == 0 then Male else Female
  }

  /** The policy record, read once per projection. */
  datatype Policy = Policy(
    ageAtEntry: int,
    gender: int,
    initialGuaranteeTerm: int,     // months
    initialAnnuity: real,          // annual amount
    escalationType: int,           // 0 none, 1 fixed, 2 inflation-linked
    escalationRate: real,
    annuityPaymentFrequency: int,  // payments per year
    durationIF: int)               // months since commencement at t = 0

  /**
    The assumption basis. The two keyed tables keep their lookups partial;
    the scalars are already resolved for the product and the policy's sex.
    `monthlyFromAnnual` stands for the conversion of an annual rate q into
    the monthly rate 1 - (1 - q) ^ (1/12), left uninterpreted.
  */
  datatype Basis = Basis(
    maxMortalityAge: int,
    mortalityTable: map<(int, Sex), real>,  // annual q_x by age and sex
    monthlyFromAnnual: real -> real,
    mortalityOverlay: real,
    baseRenewalExpense: real,
    renewalExpenseInflationMargin: real,
    inflationForward: map<int, real>)       // forward inflation by month index

  /** Why a projection stops. */
  datatype Error =
    | PaymentFrequencyDivisionByZero(frequency: int)
    | UnsupportedEscalationType(code: int)
    | MissingMortalityRate(age: int, sex: Sex)
    | AnnualRateAboveOne(age: int, sex: Sex)
    | MissingInflationRate(month: int)

  datatype Result<T> = Ok(value: T) | Err(error: Error) {
    predicate IsFailure() {
      Err?
    }

    function PropagateFailure<U>(): Result<U>
      requires Err?
    {
      Err(error)
    }

    function Extract(): T
      requires Ok?
    {
      value
    }
  }

  /** An amount multiplied by a factor: a growth factor, a survival probability or a rate. */
  function ScaledBy(amount: real, factor: real): real
  {
    amount * factor
  }

  /** `a * b`, evaluating `a` first: the first failure wins. */
  function Times(a: Result<real>, b: Result<real>): Result<real>
  {
    var x :- a;
    var y :- b;
    Ok(ScaledBy(x, y))
  }

  /**
    `int(n / d)` of the source for a positive divisor: the true quotient
    truncated toward zero.
  */
  function TruncDiv(n: int, d: int): (q: int)
    requires d > 0
    ensures n >= 0 ==> 0 <= n - q * d < d
    ensures n < 0 ==> -d < n - q * d <= 0
  {
    if n >= 0 then n / d else -((-n) / d)
  }

  /** `n // d` of the source: the true quotient rounded down. */
  function FloorDiv(n: int, d: int): int
    requires d != 0
  {
    if d > 0 then n / d else (-n) / (-d)
  }

  /** The floor quotient is the largest q with q * d on the same side of n as 0 is of d. */
  lemma FloorDivBounds(n: int, d: int)
    requires d != 0
    ensures d > 0 ==> FloorDiv(n, d) * d <= n < FloorDiv(n, d) * d + d
    ensures d < 0 ==> FloorDiv(n, d) * d >= n > FloorDiv(n, d) * d + d
  {
  }

  function Pow(x: real, n: nat): real
  {
    if n == 0 then 1.0 else Pow(x, n - 1) * x
  }

  /**
    An amount after one year of growth at `rate` plus `margin`. Payments
    escalate with no margin; renewal expenses add an inflation margin.
  */
  function Escalate(amount: real, rate: real, margin: real): real
  {
    amount * (1.0 + rate + margin)
  }

  /** Escalating a multiple of an amount gives the same multiple of the escalated amount. */
  lemma EscalateScales(c: real, amount: real, base: real, rate: real, margin: real, grown: real)
    requires amount == ScaledBy(c, base)
    requires grown == Escalate(base, rate, margin)
    ensures Escalate(amount, rate, margin) == ScaledBy(c, grown)
  {
  }

  /** A year of growth that is not a full loss keeps an amount non-negative. */
  lemma EscalateNonNegative(amount: real, rate: real, margin: real)
    requires 0.0 <= amount && 0.0 <= 1.0 + rate + margin
    ensures 0.0 <= Escalate(amount, rate, margin)
  {
    ProductNonNegative(amount, 1.0 + rate + margin);
  }

  /** An amount compounded n - 1 times at a fixed rate and escalated once more is compounded n times. */
  lemma CompoundOnceMore(amount: real, rate: real, n: nat, earlier: real)
    requires n > 0
    requires earlier == ScaledBy(amount, Pow(1.0 + rate, n - 1))
    ensures Escalate(earlier, rate, 0.0) == ScaledBy(amount, Pow(1.0 + rate, n))
  {
  }

  function Min(a: real, b: real): real
  {
    if b < a then b else a
  }

  lemma ProductNonNegative(x: real, y: real)
    ensures 0.0 <= x && 0.0 <= y ==> 0.0 <= x * y
  {
  }

  /**
    A defined product of a non-negative amount and a weight in [0, 1] lies
    between 0 and the amount.
  */
  lemma WeightedResultBounds(amount: Result<real>, weight: Result<real>)
    requires Times(amount, weight).Ok?
    requires 0.0 <= weight.value <= 1.0
    ensures amount.Ok?
    ensures 0.0 <= amount.value ==> 0.0 <= Times(amount, weight).value <= amount.value
  {
    ProductNonNegative(amount.value, weight.value);
    ProductNonNegative(amount.value, 1.0 - weight.value);
  }
}
