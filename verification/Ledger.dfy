/**
 The coupling between copies and loans: a copy is on loan exactly when one loan of it is open, and its
 version counts the borrows and returns it went through. Which interleavings keep it, exactly.
 */
module Ledger {
  import opened Common
  import opened StateMachines
  import opened Circulation

  datatype Kind = Made | Opened | Closed

  predicate Counts(kind: Kind, loan: Loan, c: nat) {
    loan.copy == c &&
    match kind
    case Made => true
    case Opened => IsOpen(loan.status)
    case Closed => loan.status == Returned
  }

  function CountLoans(kind: Kind, loans: seq<Loan>, c: nat): nat {
    if loans == [] then 0 else
      CountLoans(kind, loans[..|loans| - 1], c) + One(Counts(kind, loans[|loans| - 1], c))
  }

  lemma {:induction false} CountAfterUpdate(kind: Kind, loans: seq<Loan>, l: nat, loan: Loan, c: nat)
    requires l < |loans|
    ensures CountLoans(kind, loans[l := loan], c) + One(Counts(kind, loans[l], c))
         == CountLoans(kind, loans, c) + One(Counts(kind, loan, c))
  {
    var n := |loans| - 1;
    if l < n {
      assert loans[l := loan][..n] == loans[..n][l := loan];
      CountAfterUpdate(kind, loans[..n], l, loan, c);
    } else {
      assert loans[l := loan][..n] == loans[..n];
    }
  }

  lemma CountAfterAppend(kind: Kind, loans: seq<Loan>, loan: Loan, c: nat)
    ensures CountLoans(kind, loans + [loan], c) == CountLoans(kind, loans, c) + One(Counts(kind, loan, c))
  {
    assert (loans + [loan])[..|loans|] == loans;
  }

  lemma {:induction false} OpenLoanIsCounted(loans: seq<Loan>, l: nat)
    requires l < |loans| && IsOpen(loans[l].status)
    ensures CountLoans(Opened, loans, loans[l].copy) >= 1
    ensures forall k | 0 <= k < |loans| && k != l && IsOpen(loans[k].status) && loans[k].copy == loans[l].copy ::
              CountLoans(Opened, loans, loans[l].copy) >= 2
  {
    var n := |loans| - 1;
    var c := loans[l].copy;
    if l < n {
      OpenLoanIsCounted(loans[..n], l);
      forall k | 0 <= k < |loans| && k != l && IsOpen(loans[k].status) && loans[k].copy == c
        ensures CountLoans(Opened, loans, c) >= 2
      {
        if k < n { assert loans[..n][k] == loans[k]; }
      }
    } else {
      forall k | 0 <= k < |loans| && k != l && IsOpen(loans[k].status) && loans[k].copy == c
        ensures CountLoans(Opened, loans, c) >= 2
      {
        OpenLoanIsCounted(loans[..n], k);
      }
    }
  }

  /** One copy's books balance. */
  predicate CopyBalances(db: Db, c: nat)
    requires c < |db.copies|
  {
    db.copies[c].version == CountLoans(Made, db.loans, c) + CountLoans(Closed, db.loans, c) &&
    CountLoans(Opened, db.loans, c) == One(db.copies[c].status == OnLoan)
  }

  /**
   Every loan is active, overdue or returned, every copy on loan has exactly one open loan and every other
   copy none, and each version is the number of loans ever made plus the number given back.
   */
  ghost predicate Balances(db: Db) {
    (forall l | 0 <= l < |db.loans| :: db.loans[l].copy < |db.copies| && db.loans[l].status != LoanLost) &&
    forall c | 0 <= c < |db.copies| :: CopyBalances(db, c)
  }

  lemma {:induction false} MadeIsOpenPlusClosed(loans: seq<Loan>, c: nat)
    requires forall l | 0 <= l < |loans| :: loans[l].status != LoanLost
    ensures CountLoans(Made, loans, c) == CountLoans(Opened, loans, c) + CountLoans(Closed, loans, c)
  {
    if loans != [] { MadeIsOpenPlusClosed(loans[..|loans| - 1], c); }
  }

  /** The version is odd exactly while the copy is on loan. */
  lemma VersionIsOddWhileOnLoan(db: Db, c: nat)
    requires Balances(db) && c < |db.copies|
    ensures db.copies[c].status == OnLoan <==> db.copies[c].version % 2 == 1
  {
    assert CopyBalances(db, c);
    MadeIsOpenPlusClosed(db.loans, c);
  }

  // ---------- which single writes keep the balance ----------

  lemma BorrowBalances(db: Db, book: int, member: int, dueAt: int)
    requires Balances(db)
    ensures Balances(AfterBorrow(db, book, member, dueAt))
  {
    var ids := AvailableIds(db.copies, book);
    if ids != [] {
      var after := AfterBorrow(db, book, member, dueAt);
      var loan := Loan(ids[0], member, Active, 0, dueAt, None);
      forall c | 0 <= c < |after.copies| ensures CopyBalances(after, c) {
        assert CopyBalances(db, c);
        CountAfterAppend(Made, db.loans, loan, c);
        CountAfterAppend(Opened, db.loans, loan, c);
        CountAfterAppend(Closed, db.loans, loan, c);
      }
    }
  }

  lemma UpdateMovesCounts(db: Db, l: nat, loan: Loan, c: nat)
    requires l < |db.loans| && loan.copy == db.loans[l].copy
    ensures CountLoans(Made, db.loans[l := loan], c) == CountLoans(Made, db.loans, c)
    ensures CountLoans(Opened, db.loans[l := loan], c) + One(Counts(Opened, db.loans[l], c))
         == CountLoans(Opened, db.loans, c) + One(Counts(Opened, loan, c))
    ensures CountLoans(Closed, db.loans[l := loan], c) + One(Counts(Closed, db.loans[l], c))
         == CountLoans(Closed, db.loans, c) + One(Counts(Closed, loan, c))
  {
    CountAfterUpdate(Made, db.loans, l, loan, c);
    CountAfterUpdate(Opened, db.loans, l, loan, c);
    CountAfterUpdate(Closed, db.loans, l, loan, c);
  }

  lemma ReturnBalancesExactly(db: Db, l: nat, now: int)
    requires Balances(db) && LoanExists(db, l)
    ensures Balances(AfterReturn(db, l, now)) <==> IsOpen(db.loans[l].status)
  {
    var after := AfterReturn(db, l, now);
    var k := db.loans[l].copy;
    forall c | 0 <= c < |db.copies|
      ensures CopyBalances(after, c) <==> (c == k ==> IsOpen(db.loans[l].status))
    {
      assert CopyBalances(db, c);
      UpdateMovesCounts(db, l, after.loans[l], c);
    }
    assert CopyBalances(after, k) <==> IsOpen(db.loans[l].status);
  }

  lemma LoanWriteBalancesExactly(db: Db, l: nat, loan: Loan)
    requires Balances(db) && LoanExists(db, l)
    requires loan.copy == db.loans[l].copy && IsOpen(loan.status)
    ensures Balances(db.(loans := db.loans[l := loan])) <==> IsOpen(db.loans[l].status)
  {
    var after := db.(loans := db.loans[l := loan]);
    forall c | 0 <= c < |db.copies|
      ensures CopyBalances(after, c) <==> (c == loan.copy ==> IsOpen(db.loans[l].status))
    {
      assert CopyBalances(db, c);
      UpdateMovesCounts(db, l, loan, c);
    }
    assert CopyBalances(after, loan.copy) <==> IsOpen(db.loans[l].status);
  }

  /**
   The guard the three late writes lack: the loan they are about to write is still open. A return's write
   has it only through the version it compares; renewals and sweeps write by id alone.
   */
  predicate Fresh(s: State, st: Statement) {
    match st
    case WriteReturn(c, _) => Swaps(s, c) ==> IsOpen(s.db.loans[s.calls[c].loan].status)
    case WriteRenewal(c) => WritesRenewal(s, c) ==> IsOpen(s.db.loans[s.calls[c].loan].status)
    case WriteOverdue(c) => WritesOverdue(s, c) ==> IsOpen(s.db.loans[s.calls[c].todo[0]].status)
    case _ => true
  }

  /** A statement keeps the balance exactly when it is fresh. */
  lemma FreshIsExact(policy: Policy, s: State, st: Statement)
    requires Balances(s.db)
    ensures Balances(Step(policy, s, st).db) <==> Fresh(s, st)
  {
    match st
    case Borrow(book, member, dueAt) => BorrowBalances(s.db, book, member, dueAt);
    case WriteReturn(c, now) =>
      if Swaps(s, c) { ReturnBalancesExactly(s.db, s.calls[c].loan, now); }
    case WriteRenewal(c) =>
      if WritesRenewal(s, c) {
        var l := s.calls[c].loan;
        LoanWriteBalancesExactly(s.db, l, AfterRenewal(s.db, l, s.calls[c].dueAt + policy.duration).loans[l]);
      }
    case WriteOverdue(c) =>
      if WritesOverdue(s, c) {
        var l := s.calls[c].todo[0];
        LoanWriteBalancesExactly(s.db, l, AfterOverdue(s.db, l).loans[l]);
      }
    case _ =>
  }

  ghost predicate AlwaysBalances(policy: Policy, s: State, schedule: seq<Statement>)
    decreases |schedule|
  {
    Balances(s.db) &&
    (schedule == [] || AlwaysBalances(policy, Step(policy, s, schedule[0]), schedule[1..]))
  }

  predicate AllFresh(policy: Policy, s: State, schedule: seq<Statement>)
    decreases |schedule|
  {
    schedule == [] ||
    (Fresh(s, schedule[0]) && AllFresh(policy, Step(policy, s, schedule[0]), schedule[1..]))
  }

  /** Copies and loans stay coupled all along a run exactly when every write in it is fresh. */
  lemma {:induction false} CoupledExactlyWhenFresh(policy: Policy, s: State, schedule: seq<Statement>)
    requires Balances(s.db)
    ensures AlwaysBalances(policy, s, schedule) <==> AllFresh(policy, s, schedule)
    decreases |schedule|
  {
    if schedule != [] {
      FreshIsExact(policy, s, schedule[0]);
      if Fresh(s, schedule[0]) {
        CoupledExactlyWhenFresh(policy, Step(policy, s, schedule[0]), schedule[1..]);
      }
    }
  }

  // ---------- what the return's compare-and-set buys ----------

  /** The loan is open exactly while the copy still has the version it had when the loan was read. */
  predicate SeenAgrees(db: Db, l: nat, seen: nat) {
    LoanExists(db, l) &&
    seen <= db.copies[db.loans[l].copy].version &&
    (IsOpen(db.loans[l].status) <==> db.copies[db.loans[l].copy].version == seen)
  }

  predicate ReturnInFlight(db: Db, p: Pending) {
    match p
    case LoanRead(l, seen) => SeenAgrees(db, l, seen)
    case BothRead(l, version, seen) =>
      SeenAgrees(db, l, seen) && seen <= version <= db.copies[db.loans[l].copy].version
    case _ => true
  }

  ghost predicate CouplingInv(s: State) {
    Balances(s.db) && InRange(s) && forall c | c in s.calls :: ReturnInFlight(s.db, s.calls[c])
  }

  /** A desk without loans is coupled exactly when its copies are fresh: version 0, none on loan. */
  lemma NewDeskIsCoupled(copies: seq<Copy>)
    ensures CouplingInv(State(Db(copies, []), map[], [])) <==>
            forall c | 0 <= c < |copies| :: copies[c].version == 0 && copies[c].status != OnLoan
  {
    var db := Db(copies, []);
    forall c | 0 <= c < |copies|
      ensures CopyBalances(db, c) <==> copies[c].version == 0 && copies[c].status != OnLoan
    {
      assert forall kind: Kind :: CountLoans(kind, db.loans, c) == 0;
    }
  }

  /**
   A return whose two reads saw the same version of the copy, as one snapshot gives it, and renewals and
   sweeps whose loan did not close in between, as a call without overlap has it.
   */
  predicate Disciplined(s: State, st: Statement) {
    match st
    case WriteReturn(c, _) => c in s.calls && s.calls[c].BothRead? ==> s.calls[c].version == s.calls[c].seen
    case _ => Fresh(s, st)
  }

  /** For a return, reading both rows from one snapshot is exactly what makes the swap fresh. */
  lemma SnapshotMakesReturnsFresh(s: State, c: nat, now: int)
    requires CouplingInv(s) && Swaps(s, c)
    ensures Fresh(s, WriteReturn(c, now)) <==> s.calls[c].version == s.calls[c].seen
  {
    assert ReturnInFlight(s.db, s.calls[c]);
  }

  lemma OneOpenLoanPerCopy(db: Db, k: nat, l: nat)
    requires Balances(db) && k < |db.loans| && l < |db.loans|
    requires db.loans[k].copy == db.loans[l].copy && IsOpen(db.loans[k].status)
    ensures db.copies[db.loans[k].copy].status == OnLoan
    ensures IsOpen(db.loans[l].status) ==> k == l
  {
    OpenLoanIsCounted(db.loans, k);
    assert CopyBalances(db, db.loans[k].copy);
  }

  lemma BorrowKeepsSeen(db: Db, book: int, member: int, dueAt: int, l: nat, seen: nat)
    requires Balances(db) && SeenAgrees(db, l, seen)
    ensures SeenAgrees(AfterBorrow(db, book, member, dueAt), l, seen)
  {
    if IsOpen(db.loans[l].status) { OneOpenLoanPerCopy(db, l, l); }
  }

  lemma ReturnKeepsSeen(db: Db, k: nat, now: int, l: nat, seen: nat)
    requires Balances(db) && SeenAgrees(db, l, seen) && LoanExists(db, k) && IsOpen(db.loans[k].status)
    ensures SeenAgrees(AfterReturn(db, k, now), l, seen)
  {
    if db.loans[k].copy == db.loans[l].copy { OneOpenLoanPerCopy(db, k, l); }
  }

  predicate ReadsAgree(db: Db, p: Pending) {
    (p.LoanRead? || p.BothRead?) ==> SeenAgrees(db, p.loan, p.seen)
  }

  lemma DbKeepsInFlight(s: State, after: Db, p: Pending)
    requires ReturnInFlight(s.db, p) && ReadsAgree(after, p)
    requires p.LoanRead? || p.BothRead? ==>
               after.loans[p.loan].copy == s.db.loans[p.loan].copy &&
               after.copies[s.db.loans[p.loan].copy].version >= s.db.copies[s.db.loans[p.loan].copy].version
    ensures ReturnInFlight(after, p)
  {
  }

  lemma BorrowKeepsInFlight(s: State, book: int, member: int, dueAt: int, p: Pending)
    requires Balances(s.db) && ReturnInFlight(s.db, p)
    ensures ReturnInFlight(AfterBorrow(s.db, book, member, dueAt), p)
  {
    if p.LoanRead? || p.BothRead? { BorrowKeepsSeen(s.db, book, member, dueAt, p.loan, p.seen); }
    DbKeepsInFlight(s, AfterBorrow(s.db, book, member, dueAt), p);
  }

  lemma ReturnKeepsInFlight(s: State, l: nat, now: int, p: Pending)
    requires Balances(s.db) && ReturnInFlight(s.db, p) && LoanExists(s.db, l) && IsOpen(s.db.loans[l].status)
    ensures ReturnInFlight(AfterReturn(s.db, l, now), p)
  {
    if p.LoanRead? || p.BothRead? { ReturnKeepsSeen(s.db, l, now, p.loan, p.seen); }
    DbKeepsInFlight(s, AfterReturn(s.db, l, now), p);
  }

  lemma LoanWriteKeepsInFlight(s: State, l: nat, loan: Loan, p: Pending)
    requires ReturnInFlight(s.db, p) && LoanExists(s.db, l) && IsOpen(s.db.loans[l].status)
    requires loan.copy == s.db.loans[l].copy && IsOpen(loan.status)
    ensures ReturnInFlight(s.db.(loans := s.db.loans[l := loan]), p)
  {
  }

  lemma LateWriteKeepsInFlight(policy: Policy, s: State, st: Statement, p: Pending)
    requires Fresh(s, st) && ReturnInFlight(s.db, p) && (st.WriteRenewal? || st.WriteOverdue?)
    ensures ReturnInFlight(Step(policy, s, st).db, p)
  {
    if st.WriteRenewal? && WritesRenewal(s, st.call) {
      var l := s.calls[st.call].loan;
      LoanWriteKeepsInFlight(s, l, AfterRenewal(s.db, l, s.calls[st.call].dueAt + policy.duration).loans[l], p);
    } else if st.WriteOverdue? && WritesOverdue(s, st.call) {
      var l := s.calls[st.call].todo[0];
      LoanWriteKeepsInFlight(s, l, AfterOverdue(s.db, l).loans[l], p);
    }
  }

  lemma InFlightStep(policy: Policy, s: State, st: Statement, c: nat)
    requires CouplingInv(s) && Fresh(s, st) && c in Step(policy, s, st).calls
    ensures ReturnInFlight(Step(policy, s, st).db, Step(policy, s, st).calls[c])
  {
    if c in s.calls { assert ReturnInFlight(s.db, s.calls[c]); }
    match st
    case Borrow(book, member, dueAt) => BorrowKeepsInFlight(s, book, member, dueAt, s.calls[c]);
    case WriteReturn(d, now) =>
      if Swaps(s, d) { ReturnKeepsInFlight(s, s.calls[d].loan, now, s.calls[c]); }
    case WriteRenewal(d) => LateWriteKeepsInFlight(policy, s, st, s.calls[c]);
    case WriteOverdue(d) => if c in s.calls { LateWriteKeepsInFlight(policy, s, st, s.calls[c]); }
    case _ =>
  }

  lemma DisciplinedStep(policy: Policy, s: State, st: Statement)
    requires CouplingInv(s) && Disciplined(s, st)
    ensures Fresh(s, st) && CouplingInv(Step(policy, s, st))
  {
    if st.WriteReturn? && Swaps(s, st.call) {
      SnapshotMakesReturnsFresh(s, st.call, st.now);
    }
    FreshIsExact(policy, s, st);
    StepStaysInRange(policy, s, st);
    forall c | c in Step(policy, s, st).calls
      ensures ReturnInFlight(Step(policy, s, st).db, Step(policy, s, st).calls[c])
    {
      InFlightStep(policy, s, st, c);
    }
  }

  predicate AllDisciplined(policy: Policy, s: State, schedule: seq<Statement>)
    decreases |schedule|
  {
    schedule == [] ||
    (Disciplined(s, schedule[0]) && AllDisciplined(policy, Step(policy, s, schedule[0]), schedule[1..]))
  }

  /**
   With any number of borrows and returns interleaved, each return reading one snapshot, a copy is on loan
   exactly when it has one open loan and otherwise has none, at every point of the run.
   */
  lemma {:induction false} SnapshotReturnsStayCoupled(policy: Policy, s: State, schedule: seq<Statement>)
    requires CouplingInv(s) && AllDisciplined(policy, s, schedule)
    ensures CouplingInv(Run(policy, s, schedule)) && AlwaysBalances(policy, s, schedule)
    decreases |schedule|
  {
    if schedule != [] {
      DisciplinedStep(policy, s, schedule[0]);
      SnapshotReturnsStayCoupled(policy, Step(policy, s, schedule[0]), schedule[1..]);
    }
  }

  predicate Returns(s: State, st: Statement, l: nat) {
    st.WriteReturn? && Swaps(s, st.call) && s.calls[st.call].loan == l
  }

  function ReturnsOf(policy: Policy, s: State, schedule: seq<Statement>, l: nat): nat
    decreases |schedule|
  {
    if schedule == [] then 0 else
      One(Returns(s, schedule[0], l)) + ReturnsOf(policy, Step(policy, s, schedule[0]), schedule[1..], l)
  }

  predicate IsReturned(db: Db, l: nat) {
    l < |db.loans| && db.loans[l].status == Returned
  }

  /** Each loan is returned at most once, and a loan ends returned exactly when one return of it committed. */
  lemma {:induction false} ReturnedAtMostOnce(policy: Policy, s: State, schedule: seq<Statement>, l: nat)
    requires AllFresh(policy, s, schedule)
    ensures ReturnsOf(policy, s, schedule, l) + One(IsReturned(s.db, l)) ==
            One(IsReturned(Run(policy, s, schedule).db, l))
    decreases |schedule|
  {
    if schedule != [] {
      ReturnedAtMostOnce(policy, Step(policy, s, schedule[0]), schedule[1..], l);
    }
  }
}
