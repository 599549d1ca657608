/**
  The guarantee flag: 1 while the months since commencement are still
  inside the guaranteed term, 0 afterwards, kept at 0 once it has dropped.
*/
module Guarantee {
  import opened ProjectionInputs

  /** The comparison the flag is built on: is the duration at month t inside the term? */
  function InTerm(p: Policy, t: int): int
  {
    if p.durationIF + t < p.initialGuaranteeTerm then 1 else 0
  }

  /** The flag as a recurrence: once 0 the month before, 0 from then on. */
  function WithinGuaranteePeriod(p: Policy, t: nat): (r: int)
    ensures r == 0 || r == 1
    decreases t
  {
    if t != 0 && WithinGuaranteePeriod(p, t - 1) == 0 then 0
    else InTerm(p, t)
  }

  /**
    The guard never changes the answer: the recurrence gives 1 exactly when
    the duration at month t is still below the guaranteed term.
  */
  lemma {:induction false} GuaranteeClosedForm(p: Policy, t: nat)
    ensures WithinGuaranteePeriod(p, t) == 1 <==> p.durationIF + t < p.initialGuaranteeTerm
  {
    if t != 0 {
      GuaranteeClosedForm(p, t - 1);
    }
  }

  /** Once the guarantee has ended it stays ended. */
  lemma GuaranteeAbsorbing(p: Policy, s: nat, t: nat)
    requires s <= t
    requires WithinGuaranteePeriod(p, s) == 0
    ensures WithinGuaranteePeriod(p, t) == 0
  {
    GuaranteeClosedForm(p, s);
    GuaranteeClosedForm(p, t);
  }

  /** The flag for months 0 .. projectionLength in one list, from the comparison alone. */
  function WithinGuaranteePeriodArray(p: Policy, projectionLength: int): (r: seq<int>)
    ensures |r| == if projectionLength < 0 then 0 else projectionLength + 1
  {
    if projectionLength < 0 then [] else seq(projectionLength + 1, t => InTerm(p, t))
  }

  /** The list form agrees with the recurrence at every month it covers. */
  lemma GuaranteeArrayMatchesSeries(p: Policy, projectionLength: int)
    ensures forall t: nat :: t < |WithinGuaranteePeriodArray(p, projectionLength)| ==>
      WithinGuaranteePeriodArray(p, projectionLength)[t] == WithinGuaranteePeriod(p, t)
  {
    forall t: nat | t < |WithinGuaranteePeriodArray(p, projectionLength)|
      ensures WithinGuaranteePeriodArray(p, projectionLength)[t] == WithinGuaranteePeriod(p, t)
    {
      GuaranteeClosedForm(p, t);
    }
  }
}
