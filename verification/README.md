# Annuity projection recurrences

A Dafny model of the monthly cash-flow recurrences of a single-policy
annuity projection (`model.py`). Every series is a function of the month
index `t`, with a base case at `t == 0` or `t < 12`, and a step that looks
back one month or twelve months:

- the attained age (`CurrentAge`);
- the monthly death rate, including its same-age short-circuit (`DeathRate`);
- the expected number of policies in force (`ExpectedPoliciesInForce`);
- the guarantee flag, in its recurrence form and its list form;
- the annuity payment per policy. It is paid in payment months only and
  escalates by nothing, by a fixed rate, or by forward inflation;
- the expected annuity payment;
- the renewal expense per policy, paid on policy anniversaries and grown
  by inflation plus a margin;
- the expected renewal expense.

Money and rates are `real`. The policy record and the assumption basis are
immutable inputs (`ProjectionInputs.Policy`, `ProjectionInputs.Basis`).

The mortality table and the forward inflation curve are partial maps. A
missing key, a mortality table rate above 1 (its monthly conversion is a
complex number, which `min` rejects), an unsupported escalation type and a
division by zero on the payment frequency each stop the projection, as the
source does. In the
model they are a `Result` error, and the first failing lookup in the
source's left-to-right evaluation order is the one reported.

Python's operators are written out over unbounded integers:
- `int(x / 12)` truncates toward zero (`TruncDiv`);
- `12 // frequency` rounds down (`FloorDiv`), also for a negative frequency;
- `%` in the source is only compared with zero, and for that test Dafny's
  Euclidean remainder gives the same answer.

Every multiplication the recurrences perform goes through a named step
function: `ScaledBy`, `Escalate` or `Mortality.Survived`. The closed forms
are then stated with those same step functions.

Modules:
- `ProjectionInputs`: inputs, errors and integer operators;
- `Inflation`: the curve lookup and the annual compounding;
- `Mortality`: age, death rate and in-force numbers;
- `Guarantee`;
- `Benefits`;
- `Expenses`;
- `Scenarios`: worked examples on concrete policies.

Two points of the code shape what is proved:
- From month 12 on, `current_age` steps back twelve months and adds one
  year (`model.py:69`), so `Mortality.CurrentAgeNonDecreasing` states the
  twelve-month step exactly and `Mortality.CurrentAgeStep` bounds the
  one-month step.
- A month with a zero death rate leaves the in-force number unchanged
  (`model.py:94`), which is why `Mortality.InForceNonIncreasing` proves
  "non-increasing" and not "decreasing".

## Model

| member | source | states |
|---|---|---|
| ProjectionInputs.TruncDiv | model.py:68 | the quotient truncates toward zero: the remainder has the sign of the numerator and is smaller than the divisor |
| ProjectionInputs.FloorDivBounds | model.py:122 | `12 // frequency` is the floor quotient: the largest multiple of the divisor on the same side of the numerator |
| Inflation.InflationAt | model.py:141 | the forward rate is defined exactly at the curve's month indices, and a missing index is the error reported |
| Inflation.CompoundedGrowth | model.py:168-171 | annual compounding is defined exactly when the curve covers every earlier month on the same position in the year; a failure names a month in [0, t); in the first year the growth is 1 |
| Inflation.CompoundedGrowthStep | model.py:168-171 | one year of compounding multiplies by one plus the rate twelve months earlier plus the margin, and an earlier failure is passed on unchanged |
| Inflation.CompoundedGrowthNonNegative | model.py:171 | if no year's factor is negative, the compounded growth is not negative |
| Mortality.TruncTwelfthStep | model.py:68 | adding at most twelve months moves the truncated age by 0 or 1 |
| Mortality.CurrentAgeStep | model.py:64-69 | `CurrentAge` (the model of `current_age`) stays the same or rises by exactly one from one month to the next |
| Mortality.CurrentAgeNonDecreasing | model.py:64-69 | age never decreases, and twelve months later it is exactly one more |
| Mortality.CurrentAgeClosedForm | model.py:64-69 | if the age at the valuation date is not negative, the age is age-at-entry plus the whole years of duration at t |
| Mortality.MortalityRateAtAge | model.py:78-85 | the rate is at most 1; it is 1 beyond the table's last age; within the table's range it fails exactly on a missing (age, sex) entry or a table rate above 1, with an error naming which; it is at least 0 under a valid basis |
| Mortality.DeathRate | model.py:71-85 | the same bounds hold for the value the short-circuit returns: at most 1, exactly 1 beyond the last age, at least 0 under a valid basis |
| Mortality.DeathRateShortCircuitSound | model.py:75-83 | reusing last month's rate for an unchanged age equals a direct lookup at this month's age, failures included |
| Mortality.ExpectedPoliciesInForce | model.py:89-94 | the cohort starts at exactly 1 |
| Mortality.InForceUnfold | model.py:94 | one survivorship step: defined exactly when last month's number and rate are, and equal to the number surviving last month's rate |
| Mortality.SurvivalFactorBounds | model.py:94 | surviving one month at a rate in [0, 1] keeps a number in [0, 1] without raising it |
| Mortality.InForceInUnitInterval | model.py:89-94 | if no death rate met before t is negative, the number in force stays in [0, 1] |
| Mortality.InForceDefinedIff | model.py:89-94 | the number in force at t is defined exactly when every death rate before t is |
| Mortality.InForceStepDown | model.py:94 | if no death rate met is negative, one month of survivorship never raises the number in force |
| Mortality.InForceNonIncreasing | model.py:89-94 | if no death rate met is negative, the number in force is non-increasing over any span of months |
| Mortality.ValidBasisGivesNonNegativeRates | model.py:78-85 | a valid mortality basis (non-negative table rates and overlay, a conversion keeping [0, 1]) makes every death rate met non-negative |
| Guarantee.WithinGuaranteePeriod | model.py:99-105 | the flag is 0 or 1 |
| Guarantee.GuaranteeClosedForm | model.py:99-105 | the guard never matters: the flag is 1 exactly when the duration at t is below the guaranteed term |
| Guarantee.GuaranteeAbsorbing | model.py:102-103 | once the flag is 0 it stays 0 at every later month |
| Guarantee.WithinGuaranteePeriodArray | model.py:108-113 | the list has one entry per month 0 .. projection length |
| Guarantee.GuaranteeArrayMatchesSeries | model.py:108-113 | every entry of the list equals the recurrence at that month |
| Benefits.EscalationOf | model.py:128-144 | codes 0, 1 and 2 are none, fixed and inflation-linked; every other code is an unsupported-type error naming the code |
| Benefits.LevelPayment | model.py:58-60 | the level payment times the frequency is the annual annuity |
| Benefits.InitialAnnuityPerPaymentPeriod | model.py:58-60 | defined exactly for a non-zero frequency, where the payment times the frequency is the annual annuity; a zero frequency gives the division error |
| Benefits.IntervalDividesYear | model.py:122 | `12 // frequency` is 0 exactly above twelve payments a year; otherwise it is one of ±1, ±2, ±3, ±4, ±6, ±12 and divides 12 |
| Benefits.PaymentInterval | model.py:122 | defined exactly for a non-zero frequency; 0 exactly above twelve; otherwise a divisor of 12 |
| Benefits.RemainderIgnoresDivisorSign | model.py:123 | the payment-month test gives the same answer for a negative interval and for its negation |
| Benefits.YearShiftKeepsRemainder | model.py:123 | shifting by twelve months does not change the remainder by a positive divisor of 12 |
| Benefits.PaymentMonthsRecurYearly | model.py:121-126 | month t is a payment month exactly when t + 12 is, so the look-back at t - 12 lands on a payment month |
| Benefits.AnnuityPaymentPerPolicy | model.py:118-144 | a frequency without a usable interval is the division error and nothing else is; outside payment months the payment is 0; with no escalation every payment month pays the level payment; an unsupported type fails in a payment month |
| Benefits.FixedRatePaymentStep | model.py:131-135 | a fixed-rate payment is the payment twelve months earlier times one plus the rate |
| Benefits.FixedRatePaymentYearOn | model.py:131-135 | the fixed-rate closed form carries over from one payment month to the same month a year later |
| Benefits.FixedRatePaymentClosedForm | model.py:131-135 | a fixed-rate payment month pays the level payment times (1 + rate) raised to the number of completed projection years |
| Benefits.InflationLinkedPaymentStep | model.py:137-142 | an inflation-linked payment is the payment twelve months earlier times one plus the inflation then; it fails with the earlier failure or, failing that, with the missing month t - 12 |
| Benefits.InflationLinkedPaymentYearOn | model.py:137-142 | the level-payment-times-compounded-inflation form carries over to the same month a year later |
| Benefits.InflationLinkedPaymentClosedForm | model.py:137-142 | an inflation-linked payment month pays the level payment times the compounded inflation; it fails exactly when that compounding does, with the same missing month |
| Benefits.ExpectedAnnuityPayment | model.py:147-152 | a failing payment is the failure reported; after the guarantee, the result is defined exactly when the number in force is |
| Benefits.ExpectedAnnuityPaymentByTerm | model.py:147-152 | inside the guaranteed term the expected payment is the payment per policy; after it, the payment times the number in force |
| Benefits.ExpectedAnnuityPaymentBounded | model.py:147-152 | if no death rate met before t is negative, a non-negative payment's expectation lies between 0 and the payment |
| Expenses.RenewalExpensePerPolicy | model.py:157-171 | 0 outside anniversaries; the base expense on an anniversary in the first year; a failure is a missing inflation month in [0, t) |
| Expenses.AnniversariesRecurYearly | model.py:162 | month t is an anniversary exactly when t + 12 is |
| Expenses.RenewalExpenseStep | model.py:168-171 | a later anniversary's expense is the expense twelve months earlier times one plus inflation plus the margin; failures are passed on as in the source's order |
| Expenses.RenewalExpenseYearOn | model.py:165-171 | the base-expense-times-compounded-growth form carries over to the next anniversary |
| Expenses.RenewalExpenseClosedForm | model.py:157-171 | on every anniversary the expense is the base expense times the growth compounded with the margin; it fails exactly when that compounding does, with the same missing month |
| Expenses.RenewalExpenseDefinedIff | model.py:157-171 | the expense is defined off anniversaries, and on an anniversary exactly when the curve covers the earlier same-position months |
| Expenses.RenewalExpenseNonNegative | model.py:157-171 | a non-negative base expense, in years that never turn an amount negative, stays non-negative |
| Expenses.ExpectedRenewalExpensePayment | model.py:174-177 | defined exactly when both the expense and the number in force are; an expense failure is the failure reported |
| Expenses.ExpectedRenewalExpenseOffAnniversary | model.py:174-177 | off anniversaries the expected expense is 0 whenever the number in force is defined, and it fails when that number does |
| Expenses.ExpectedRenewalExpenseBounded | model.py:174-177 | if no death rate met before t is negative, a non-negative expense's expectation lies between 0 and the expense |
| Scenarios.LevelMonthlyAnnuity | model.py:118-129 | 1200 a year, paid monthly with no escalation from commencement, pays 100 in every month |
| Scenarios.FirstFixedEscalation | model.py:131-135 | 1200 a year, paid annually and escalating at 3%, pays 1236 at month 12 |
| Scenarios.TwoYearGuarantee | model.py:99-105 | a 24-month guarantee from commencement covers months 0 to 23 only |
| Scenarios.AgeSixtyFive | model.py:64-69 | entry at 65 at commencement gives age 65 through month 11 and 66 at month 12 |
| Scenarios.TruncationIsNotFloorBelowZero | model.py:68 | with entry age -1 and duration 6 the truncated age is 0, not the floor value -1 |
| Scenarios.RateAboveOneStops | model.py:78-83 | a table rate of 1.5 within the table's range is the rate-above-one error, not a capped rate |
| Scenarios.BeyondTheTable | model.py:71-85 | beyond a table ending at 110 the death rate is exactly 1 |

## Left out

- `investment_expense_payment`, `discount_rate`, every `EPV_*` series and `liability` (model.py:181-238). They rest on the discounting primitive of the `cashflower` package, which is not part of this model, and on a fractional power of the yield curve.
- The `cashflower` variable decorator: memoization, evaluation order and the at-most-once evaluation of each (series, t) pair. Each series is a mathematical function of `t`.
- Loading of the policy record, the assumption tables and the settings (model.py:2-56). The scalars are plain fields of `Policy` and `Basis`. The overlay is the one already chosen for the policy's sex (model.py:48); the base expense and the margin are the product's values (model.py:52, 56).
- The monthly conversion `1 - (1 - q) ** (1/12)` (model.py:81). It is the arbitrary function `Basis.monthlyFromAnnual`, applied only to table rates of at most 1. A table rate above 1 makes the power complex and `min` at model.py:83 fail; the model reports that as `AnnualRateAboveOne` before converting. Only the conversion's staying in [0, 1] is assumed, and only through `MortalityBasisValid`.
- Floating point. Money and rates are exact reals, and `int(age + (duration + t) / 12)` is evaluated exactly, so float rounding near whole years is not modelled.
- String keys and `float(...)` casts of the table lookups (model.py:80, 141, 169). They are typed map lookups.
- The two kinds of division failure, `12 // 0` and `x % 0` for a frequency above twelve (model.py:122-123), are one error, `PaymentFrequencyDivisionByZero`, carrying the frequency.
- Mortality.CurrentAgeClosedForm: requires `12 * age_at_entry + duration_IF >= 0` rather than only a non-negative duration. With a negative entry age, truncation toward zero and the floor differ (see `Scenarios.TruncationIsNotFloorBelowZero`).
- Mortality.InForceInUnitInterval, Mortality.InForceStepDown, Mortality.InForceNonIncreasing, Benefits.ExpectedAnnuityPaymentBounded, Expenses.ExpectedRenewalExpenseBounded: they assume that no death rate met is negative (`Mortality.RatesNonNegativeBefore`), because nothing in the source rules out a negative table rate or overlay. Every rate is at most 1 without any assumption.
