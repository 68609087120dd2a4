/**
 The overdue fine of a loan, in cents, and the account charge made from it.
 */
module Fines {
  import opened Common
  import opened StateMachines
  import opened Circulation
  import opened LoanService

  datatype FinePolicy = FinePolicy(finePerDay: nat, gracePeriodDays: nat, maxFine: Option<nat>)

  datatype Charge = Charge(amount: nat, daysCharged: nat)

  datatype FineError = LoanNotFound | LoanReturned

  datatype FineResult = Fined(charge: Charge) | NotFined(error: FineError)

  /** Whole days past the due date, rounded down also before it, less the grace period. */
  function DaysCharged(policy: FinePolicy, dueAt: int, asOf: int): nat {
    var days := (asOf - dueAt) / MS_PER_DAY - policy.gracePeriodDays;
    if days < 0 then 0 else days
  }

  function ChargeFor(policy: FinePolicy, dueAt: int, asOf: int): Charge {
    var days := DaysCharged(policy, dueAt, asOf);
    if days == 0 then Charge(0, 0) else
      var amount := policy.finePerDay * days;
      match policy.maxFine
      case Some(cap) => Charge(if amount > cap then cap else amount, days)
      case None => Charge(amount, days)
  }

  function CalculateOverdueFine(policy: FinePolicy, loans: seq<Loan>, l: int, asOf: int): FineResult {
    if !(0 <= l < |loans|) then NotFined(LoanNotFound)
    else if loans[l].returnedAt.Some? then NotFined(LoanReturned)
    else Fined(ChargeFor(policy, loans[l].dueAt, asOf))
  }

  /** Nothing is charged exactly until the grace period and one more day have passed. */
  lemma FreeUntilGraceEnds(policy: FinePolicy, dueAt: int, asOf: int)
    ensures DaysCharged(policy, dueAt, asOf) == 0 <==> asOf < dueAt + (policy.gracePeriodDays + 1) * 86_400_000
    ensures DaysCharged(policy, dueAt, asOf) == 0 <==> ChargeFor(policy, dueAt, asOf).daysCharged == 0
    ensures asOf < dueAt + (policy.gracePeriodDays + 1) * MS_PER_DAY ==>
              ChargeFor(policy, dueAt, asOf) == Charge(0, 0)
  {
  }

  lemma MulMonotone(a: nat, x: nat, y: nat)
    requires x <= y
    ensures a * x <= a * y
  {
    assert a * y == a * x + a * (y - x);
  }

  /** The fine never falls as time passes and never exceeds the maximum the policy sets. */
  lemma FineGrowsUpToItsCap(policy: FinePolicy, dueAt: int, asOf: int, later: int)
    requires asOf <= later
    ensures ChargeFor(policy, dueAt, asOf).amount <= ChargeFor(policy, dueAt, later).amount
    ensures ChargeFor(policy, dueAt, asOf).daysCharged <= ChargeFor(policy, dueAt, later).daysCharged
    ensures policy.maxFine.Some? ==> ChargeFor(policy, dueAt, later).amount <= policy.maxFine.value
  {
    MulMonotone(policy.finePerDay, DaysCharged(policy, dueAt, asOf), DaysCharged(policy, dueAt, later));
  }

  /** From the end of the grace period every further day adds one day's rate, up to the maximum. */
  lemma EachDayAddsOneRate(policy: FinePolicy, dueAt: int, asOf: int)
    requires asOf >= dueAt + policy.gracePeriodDays * MS_PER_DAY
    ensures var before, after := ChargeFor(policy, dueAt, asOf), ChargeFor(policy, dueAt, asOf + MS_PER_DAY);
            after.daysCharged == before.daysCharged + 1 &&
            after.amount == if policy.maxFine.Some? && before.amount + policy.finePerDay > policy.maxFine.value
                            then policy.maxFine.value else before.amount + policy.finePerDay
  {
    var days := DaysCharged(policy, dueAt, asOf);
    assert DaysCharged(policy, dueAt, asOf + MS_PER_DAY) == days + 1;
    assert policy.finePerDay * (days + 1) == policy.finePerDay * days + policy.finePerDay;
  }

  /** After a sweep, every open loan that owes a fine at the sweep's instant is overdue. */
  lemma FinedLoansAreOverdueAfterSweep(policy: FinePolicy, db: Db, asOf: int, l: nat)
    requires l < |db.loans| && IsOpen(AfterSweep(db, asOf).loans[l].status)
    requires var r := CalculateOverdueFine(policy, AfterSweep(db, asOf).loans, l, asOf); r.Fined? && r.charge.amount > 0
    ensures AfterSweep(db, asOf).loans[l].status == Overdue
  {
    FreeUntilGraceEnds(policy, db.loans[l].dueAt, asOf);
  }

  datatype Fine = Fine(member: int, loan: int, amount: nat, daysCharged: nat)

  class FineLedger {
    const policy: FinePolicy
    var fines: seq<Fine>

    constructor (policy: FinePolicy)
      ensures this.policy == policy && fines == []
    {
      this.policy := policy;
      fines := [];
    }

    /** A row is added exactly when the calculation answers a positive amount. */
    method CreateOverdueFine(loans: seq<Loan>, l: int, member: int, asOf: int) returns (r: FineResult)
      modifies this
      ensures r == CalculateOverdueFine(policy, loans, l, asOf)
      ensures r == NotFined(LoanNotFound) <==> !(0 <= l < |loans|)
      ensures r == NotFined(LoanReturned) <==> 0 <= l < |loans| && loans[l].returnedAt.Some?
      ensures r.Fined? ==> r.charge == ChargeFor(policy, loans[l].dueAt, asOf)
      ensures fines == old(fines) +
                       if r.Fined? && r.charge.amount > 0 then
                         [Fine(member, l, r.charge.amount, r.charge.daysCharged)]
                       else []
    {
      r := CalculateOverdueFine(policy, loans, l, asOf);
      if r.NotFined? || r.charge.daysCharged == 0 || r.charge.amount == 0 {
        return;
      }
      fines := fines + [Fine(member, l, r.charge.amount, r.charge.daysCharged)];
    }
  }
}
