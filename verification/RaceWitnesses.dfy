/**
 Concrete interleavings the circulation code allows at its statements and in which a write is not fresh.
 All start from one copy on loan.
 */
module RaceWitnesses {
  import opened Common
  import opened StateMachines
  import opened Circulation
  import opened Ledger

  const LENT: Copy := Copy(1, OnLoan, 1)
  const FIRST: Loan := Loan(0, 10, Active, 0, 0, None)

  function OneCopyOnLoan(): State {
    State(Db([LENT], [FIRST]), map[], [])
  }

  /** The starting point satisfies the invariant: the runs below break it, not the state. */
  lemma OneCopyOnLoanIsCoupled()
    ensures CouplingInv(OneCopyOnLoan())
  {
    var s := OneCopyOnLoan();
    assert forall kind: Kind :: CountLoans(kind, s.db.loans[..0], 0) == 0;
  }

  lemma Prepend(policy: Policy, s: State, st: Statement, rest: seq<Statement>, l: nat)
    returns (schedule: seq<Statement>)
    ensures Run(policy, s, schedule) == Run(policy, Step(policy, s, st), rest)
    ensures ReturnsOf(policy, s, schedule, l) ==
            One(Returns(s, st, l)) + ReturnsOf(policy, Step(policy, s, st), rest, l)
  {
    schedule := [st] + rest;
    assert schedule[1..] == rest;
  }

  /** Both returns read the open loan, then the second finishes. */
  lemma TwoReturnsOfOneLoan(policy: Policy)
    ensures var s2 := Step(policy, Step(policy, OneCopyOnLoan(), ReadLoanToReturn(1, 0)), ReadLoanToReturn(2, 0));
            Step(policy, Step(policy, s2, ReadCopyToReturn(2)), WriteReturn(2, 5)) ==
            State(Db([Copy(1, Available, 2)], [FIRST.(status := Returned, returnedAt := Some(5))]),
                  map[1 := LoanRead(0, 1)], [])
  {
    var s1 := Step(policy, OneCopyOnLoan(), ReadLoanToReturn(1, 0));
    assert s1 == State(Db([LENT], [FIRST]), map[1 := LoanRead(0, 1)], []);
    var s2 := Step(policy, s1, ReadLoanToReturn(2, 0));
    var s3 := Step(policy, s2, ReadCopyToReturn(2));
    assert s3.calls[2] == BothRead(0, 1, 1);
    var s4 := Step(policy, s3, WriteReturn(2, 5));
    assert s4.calls == map[1 := LoanRead(0, 1)];
  }

  /** A new borrow, and the first return goes on. */
  lemma BorrowBetweenTheReads(policy: Policy, returned: Loan)
    requires returned.copy == 0
    ensures var s4 := State(Db([Copy(1, Available, 2)], [returned]), map[1 := LoanRead(0, 1)], []);
            var s6 := Step(policy, Step(policy, s4, Borrow(1, 11, 9)), ReadCopyToReturn(1));
            s6 == State(Db([Copy(1, OnLoan, 3)], [returned, Loan(0, 11, Active, 0, 9, None)]),
                        map[1 := BothRead(0, 3, 1)], [])
  {
    var copies := [Copy(1, Available, 2)];
    assert AvailableIds(copies[..0], 1) == [];
    assert AvailableIds(copies, 1) == [0];
  }

  /**
   With the two reads of a return in different snapshots, another return and a new borrow fit between them:
   the swap succeeds, the loan is returned a second time, and a copy whose second loan is open is shelved.
   */
  lemma SplitReadReturnShelvesALentCopy(policy: Policy) returns (schedule: seq<Statement>)
    ensures var t := Run(policy, OneCopyOnLoan(), schedule);
            |t.db.copies| == 1 && t.db.copies[0].status == Available &&
            |t.db.loans| == 2 && t.db.loans[1].copy == 0 && IsOpen(t.db.loans[1].status)
    ensures ReturnsOf(policy, OneCopyOnLoan(), schedule, 0) == 2
  {
    var s0 := OneCopyOnLoan();
    var s1 := Step(policy, s0, ReadLoanToReturn(1, 0));
    var s2 := Step(policy, s1, ReadLoanToReturn(2, 0));
    var s3 := Step(policy, s2, ReadCopyToReturn(2));
    assert Swaps(s3, 2);
    TwoReturnsOfOneLoan(policy);
    var s4 := Step(policy, s3, WriteReturn(2, 5));
    BorrowBetweenTheReads(policy, s4.db.loans[0]);
    var s5 := Step(policy, s4, Borrow(1, 11, 9));
    var s6 := Step(policy, s5, ReadCopyToReturn(1));
    schedule := Prepend(policy, s6, WriteReturn(1, 6), [], 0);
    schedule := Prepend(policy, s5, ReadCopyToReturn(1), schedule, 0);
    schedule := Prepend(policy, s4, Borrow(1, 11, 9), schedule, 0);
    schedule := Prepend(policy, s3, WriteReturn(2, 5), schedule, 0);
    schedule := Prepend(policy, s2, ReadCopyToReturn(2), schedule, 0);
    schedule := Prepend(policy, s1, ReadLoanToReturn(2, 0), schedule, 0);
    schedule := Prepend(policy, s0, ReadLoanToReturn(1, 0), schedule, 0);
  }

  /** A whole return of the loan while another call is at p. */
  lemma ReturnWhileOtherWaits(policy: Policy, p: Pending)
    ensures var s1 := State(Db([LENT], [FIRST]), map[1 := p], []);
            var s3 := Step(policy, Step(policy, s1, ReadLoanToReturn(2, 0)), ReadCopyToReturn(2));
            Step(policy, s3, WriteReturn(2, 5)) ==
            State(Db([Copy(1, Available, 2)], [FIRST.(status := Returned, returnedAt := Some(5))]), map[1 := p], [])
  {
    var s1 := State(Db([LENT], [FIRST]), map[1 := p], []);
    var s2 := Step(policy, s1, ReadLoanToReturn(2, 0));
    assert s2 == s1.(calls := map[1 := p, 2 := LoanRead(0, 1)]);
    var s3 := Step(policy, s2, ReadCopyToReturn(2));
    assert s3 == s1.(calls := map[1 := p, 2 := BothRead(0, 1, 1)]);
    assert s3.calls - {2} == map[1 := p];
  }

  /** Call 1 starts with a statement, a whole return of the loan commits, and call 1 writes. */
  lemma ReturnInBetween(policy: Policy, first: Statement, p: Pending, last: Statement)
    returns (schedule: seq<Statement>)
    requires Step(policy, OneCopyOnLoan(), first) == OneCopyOnLoan().(calls := map[1 := p])
    ensures var returned := FIRST.(status := Returned, returnedAt := Some(5));
            Run(policy, OneCopyOnLoan(), schedule) ==
            Step(policy, State(Db([Copy(1, Available, 2)], [returned]), map[1 := p], []), last)
  {
    ReturnWhileOtherWaits(policy, p);
    var s0 := OneCopyOnLoan();
    var s1 := Step(policy, s0, first);
    var s2 := Step(policy, s1, ReadLoanToReturn(2, 0));
    var s3 := Step(policy, s2, ReadCopyToReturn(2));
    schedule := Prepend(policy, Step(policy, s3, WriteReturn(2, 5)), last, [], 0);
    schedule := Prepend(policy, s3, WriteReturn(2, 5), schedule, 0);
    schedule := Prepend(policy, s2, ReadCopyToReturn(2), schedule, 0);
    schedule := Prepend(policy, s1, ReadLoanToReturn(2, 0), schedule, 0);
    schedule := Prepend(policy, s0, first, schedule, 0);
  }

  /** A renewal that read an open loan reopens it when a whole return commits before the renewal writes. */
  lemma LateRenewalReopensAReturnedLoan(policy: Policy) returns (schedule: seq<Statement>)
    requires policy.maxRenewals > 0
    ensures var t := Run(policy, OneCopyOnLoan(), schedule);
            |t.db.copies| == 1 && t.db.copies[0].status == Available &&
            |t.db.loans| == 1 && t.db.loans[0].status == Active
  {
    var p := Renewing(0, 0);
    assert Step(policy, OneCopyOnLoan(), ReadLoanToRenew(1, 0, false)).calls == map[1 := p];
    schedule := ReturnInBetween(policy, ReadLoanToRenew(1, 0, false), p, WriteRenewal(1));
  }

  lemma FirstIsDue()
    ensures DueIds([FIRST], 1) == [0]
  {
    assert [FIRST][..0] == [] && DueIds([], 1) == [];
    assert IsDue(FIRST, 1);
  }

  /** A sweep marks a loan overdue that was returned since it was listed: the copy is shelved, a loan of it open. */
  lemma LateSweepReopensAReturnedLoan(policy: Policy) returns (schedule: seq<Statement>)
    ensures var t := Run(policy, OneCopyOnLoan(), schedule);
            |t.db.copies| == 1 && t.db.copies[0].status == Available &&
            |t.db.loans| == 1 && t.db.loans[0].status == Overdue && t.db.loans[0].returnedAt.Some?
  {
    FirstIsDue();
    assert Step(policy, OneCopyOnLoan(), ReadDue(1, 1)).calls == map[1 := Sweeping([0])];
    schedule := ReturnInBetween(policy, ReadDue(1, 1), Sweeping([0]), WriteOverdue(1));
  }

  /** Two sweeps that both listed a loan both report it, though the second one changes nothing. */
  lemma TwoSweepsReportTwice(policy: Policy) returns (schedule: seq<Statement>)
    ensures Run(policy, OneCopyOnLoan(), schedule) ==
            State(Db([LENT], [FIRST.(status := Overdue)]), map[], [0, 0])
  {
    var s0 := OneCopyOnLoan();
    FirstIsDue();
    var s1 := Step(policy, s0, ReadDue(1, 1));
    var s2 := Step(policy, s1, ReadDue(2, 1));
    assert s2 == State(s0.db, map[1 := Sweeping([0]), 2 := Sweeping([0])], []);
    var s3 := Step(policy, s2, WriteOverdue(1));
    assert s3.calls == map[2 := Sweeping([0])] && s3.overdueEvents == [0];
    var s4 := Step(policy, s3, WriteOverdue(2));
    assert s4.calls == map[] && s4.overdueEvents == [0, 0];
    schedule := Prepend(policy, s3, WriteOverdue(2), [], 0);
    schedule := Prepend(policy, s2, WriteOverdue(1), schedule, 0);
    schedule := Prepend(policy, s1, ReadDue(2, 1), schedule, 0);
    schedule := Prepend(policy, s0, ReadDue(1, 1), schedule, 0);
  }
}
