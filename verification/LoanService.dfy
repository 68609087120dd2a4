/**
 The loan service as an object over its tables, its operations taken whole, and what they do to the life
 of one loan. Each operation is also shown to be the uninterrupted run of its statements.
 */
module LoanService {
  import opened Common
  import opened StateMachines
  import opened Circulation
  import opened Ledger
  import opened CopyTokens
  import HoldQueue

  datatype Failure =
    | NotFound
    | NoAvailableCopy
    | IllegalTransition
    | NotRenewable
    | RenewalCapReached
    | RenewalBlocked
    | CopyChanged

  datatype Result<+T> = Ok(value: T) | Err(error: Failure)

  // ---------- whole operations ----------

  /** A copy id that dangles, which the foreign key rules out, reads as a loan not found. */
  function ReturnCheck(db: Db, l: int): Result<nat> {
    if !(0 <= l < |db.loans|) || db.loans[l].copy >= |db.copies| then Err(NotFound)
    else if !IsLegal(LOAN_TRANSITIONS, db.loans[l].status, Returned) then Err(IllegalTransition)
    else Ok(l)
  }

  function RenewCheck(policy: Policy, db: Db, l: int, blocked: bool): Result<nat> {
    if !(0 <= l < |db.loans|) || db.loans[l].copy >= |db.copies| then Err(NotFound)
    else if !IsOpen(db.loans[l].status) then Err(NotRenewable)
    else if db.loans[l].renewals >= policy.maxRenewals then Err(RenewalCapReached)
    else if blocked then Err(RenewalBlocked)
    else Ok(l)
  }

  /** Another member holds an active place in the queue for the loan's book. */
  predicate BlockingHold(db: Db, l: int, holds: seq<HoldQueue.Reservation>) {
    0 <= l < |db.loans| && db.loans[l].copy < |db.copies| &&
    exists i | 0 <= i < |holds| ::
      HoldQueue.IsActiveFor(holds[i], db.copies[db.loans[l].copy].book) && holds[i].member != db.loans[l].member
  }

  function Swept(loan: Loan, asOf: int): Loan {
    if IsDue(loan, asOf) then loan.(status := Overdue) else loan
  }

  function AfterSweep(db: Db, asOf: int): Db {
    db.(loans := seq(|db.loans|, l requires 0 <= l < |db.loans| => Swept(db.loans[l], asOf)))
  }

  /** It flips the active loans that are not given back and were due before, and no other. */
  lemma SweepFlipsTheDue(db: Db, asOf: int)
    ensures forall l | 0 <= l < |db.loans| ::
              var loan := db.loans[l];
              AfterSweep(db, asOf).loans[l] ==
              if loan.status == Active && loan.dueAt < asOf && loan.returnedAt == None
              then loan.(status := Overdue) else loan
    ensures forall l :: l in DueIds(db.loans, asOf) <==>
              0 <= l < |db.loans| && db.loans[l].status == Active && db.loans[l].dueAt < asOf &&
              db.loans[l].returnedAt == None
  {
    DueIdsAreTheDue(db.loans, asOf);
  }

  datatype Operation =
    | BorrowOp(book: int, member: int, dueAt: int)
    | ReturnOp(loan: int, now: int)
    | RenewOp(loan: int, blocked: bool)
    | SweepOp(asOf: int)

  function Apply(policy: Policy, db: Db, op: Operation): Db {
    match op
    case BorrowOp(book, member, dueAt) => AfterBorrow(db, book, member, dueAt)
    case ReturnOp(l, now) => if ReturnCheck(db, l).Ok? then AfterReturn(db, l, now) else db
    case RenewOp(l, blocked) =>
      if RenewCheck(policy, db, l, blocked).Ok? then AfterRenewal(db, l, db.loans[l].dueAt + policy.duration) else db
    case SweepOp(asOf) => AfterSweep(db, asOf)
  }

  /** The tables and events after a schedule of other calls' statements, from whatever those calls hold. */
  function AfterOthers(policy: Policy, db: Db, events: seq<nat>, calls: map<nat, Pending>,
                       schedule: seq<Statement>): State
  {
    Run(policy, State(db, calls, events), schedule)
  }

  class LoanDesk {
    const policy: Policy
    var copies: seq<Copy>
    var loans: seq<Loan>
    var overdueEvents: seq<nat>

    constructor (policy: Policy, copies: seq<Copy>)
      ensures this.policy == policy && Tables() == Db(copies, []) && overdueEvents == []
      ensures (forall c | 0 <= c < |copies| :: copies[c].version == 0 && copies[c].status != OnLoan) ==>
                CouplingInv(State(Tables(), map[], overdueEvents))
    {
      this.policy := policy;
      this.copies := copies;
      loans, overdueEvents := [], [];
      NewDeskIsCoupled(copies);
    }

    function Tables(): Db
      reads this
    {
      Db(copies, loans)
    }

    method BorrowCopy(book: int, member: int, dueAt: int) returns (r: Result<Loan>)
      modifies this
      ensures Tables() == Apply(policy, old(Tables()), BorrowOp(book, member, dueAt))
      ensures overdueEvents == old(overdueEvents)
      ensures r.Err? <==>
              forall c | 0 <= c < |old(copies)| :: old(copies)[c].book != book || old(copies)[c].status != Available
      ensures r.Err? ==> r == Err(NoAvailableCopy) && Tables() == old(Tables())
      ensures r.Ok? ==> loans == old(loans) + [r.value] && r.value == Loan(r.value.copy, member, Active, 0, dueAt, None)
      ensures r.Ok? ==> r.value.copy < |old(copies)| &&
                        old(copies)[r.value.copy].book == book && old(copies)[r.value.copy].status == Available &&
                        forall c | 0 <= c < r.value.copy ::
                          old(copies)[c].book != book || old(copies)[c].status != Available
      ensures r.Ok? ==>
                var c := r.value.copy;
                copies == old(copies)[c := Copy(book, OnLoan, old(copies)[c].version + 1)]
    {
      PageShowsTheLowest(Tables(), book);
      var rows := AvailableIds(copies, book);
      if rows == [] {
        return Err(NoAvailableCopy);
      }
      var candidate := rows[0];
      copies := copies[candidate := LendCopy(copies[candidate])];
      var loan := Loan(candidate, member, Active, 0, dueAt, None);
      loans := loans + [loan];
      r := Ok(loan);
    }

    /** The loan is there; that its copy is, the foreign key promises. */
    predicate HasLoan(l: int)
      reads this
    {
      0 <= l < |loans| && loans[l].copy < |copies|
    }

    /** Taken whole, the version compared is the one just read, so the swap cannot fail. */
    method ReturnLoan(l: int, now: int) returns (r: Result<Loan>)
      modifies this
      ensures Tables() == Apply(policy, old(Tables()), ReturnOp(l, now))
      ensures overdueEvents == old(overdueEvents)
      ensures r == Err(NotFound) <==> !old(HasLoan(l))
      ensures r == Err(IllegalTransition) <==>
              old(HasLoan(l)) && old(loans)[l].status != Active && old(loans)[l].status != Overdue
      ensures r.Err? ==> r.error in {NotFound, IllegalTransition} && Tables() == old(Tables())
      ensures r.Ok? ==> loans == old(loans)[l := r.value] &&
                        r.value == old(loans)[l].(status := Returned, returnedAt := Some(now))
      ensures r.Ok? ==>
                var c := old(loans)[l].copy;
                copies == old(copies)[c := Copy(old(copies)[c].book, Available, old(copies)[c].version + 1)]
    {
      if 0 <= l < |loans| { LoanMovesAreExact(loans[l].status, Returned); }
      if !(0 <= l < |loans|) || loans[l].copy >= |copies| {
        return Err(NotFound);
      }
      if !IsLegal(LOAN_TRANSITIONS, loans[l].status, Returned) {
        return Err(IllegalTransition);
      }
      var c := loans[l].copy;
      copies := copies[c := ShelveCopy(copies[c])];
      loans := loans[l := loans[l].(status := Returned, returnedAt := Some(now))];
      r := Ok(loans[l]);
    }

    method RenewLoan(l: int, holds: seq<HoldQueue.Reservation>) returns (r: Result<Loan>)
      modifies this
      ensures Tables() == Apply(policy, old(Tables()), RenewOp(l, BlockingHold(old(Tables()), l, holds)))
      ensures overdueEvents == old(overdueEvents)
      ensures r == Err(NotFound) <==> !old(HasLoan(l))
      ensures r == Err(NotRenewable) <==>
              old(HasLoan(l)) && old(loans)[l].status != Active && old(loans)[l].status != Overdue
      ensures r == Err(RenewalCapReached) <==>
              old(HasLoan(l)) && (old(loans)[l].status == Active || old(loans)[l].status == Overdue) &&
              old(loans)[l].renewals >= policy.maxRenewals
      ensures r == Err(RenewalBlocked) <==>
              old(HasLoan(l)) && (old(loans)[l].status == Active || old(loans)[l].status == Overdue) &&
              old(loans)[l].renewals < policy.maxRenewals &&
              exists i | 0 <= i < |holds| ::
                holds[i].resource == old(copies)[old(loans)[l].copy].book && holds[i].member != old(loans)[l].member &&
                (holds[i].status == Queued || holds[i].status == ReadyForPickup)
      ensures r.Err? ==> r.error in {NotFound, NotRenewable, RenewalCapReached, RenewalBlocked} &&
                         Tables() == old(Tables())
      ensures r.Ok? ==> copies == old(copies) && loans == old(loans)[l := r.value] &&
                        r.value == old(loans)[l].(renewals := old(loans)[l].renewals + 1,
                                                  dueAt := old(loans)[l].dueAt + policy.duration, status := Active)
    {
      if !(0 <= l < |loans|) || loans[l].copy >= |copies| {
        return Err(NotFound);
      }
      var loan := loans[l];
      if loan.status != Active && loan.status != Overdue {
        return Err(NotRenewable);
      }
      if loan.renewals >= policy.maxRenewals {
        return Err(RenewalCapReached);
      }
      if BlockingHold(Tables(), l, holds) {
        return Err(RenewalBlocked);
      }
      var newDueAt := loan.dueAt + policy.duration;
      loans := loans[l := loan.(renewals := loan.renewals + 1, dueAt := newDueAt, status := Active)];
      r := Ok(loans[l]);
    }

    /** Flips exactly the active loans due before `asOf`, one event each, and answers their number. */
    method MarkOverdueLoans(asOf: int) returns (n: nat)
      modifies this
      ensures Tables() == Apply(policy, old(Tables()), SweepOp(asOf))
      ensures overdueEvents == old(overdueEvents) + DueIds(old(loans), asOf)
      ensures n == |DueIds(old(loans), asOf)|
      ensures copies == old(copies) && |loans| == |old(loans)|
      ensures forall l | 0 <= l < |loans| ::
                var loan := old(loans)[l];
                loans[l] == if loan.status == Active && loan.dueAt < asOf && loan.returnedAt == None
                            then loan.(status := Overdue) else loan
      ensures old(overdueEvents) <= overdueEvents && n == |overdueEvents| - |old(overdueEvents)|
      ensures var events := overdueEvents[|old(overdueEvents)|..];
              (forall i, j | 0 <= i < j < |events| :: events[i] < events[j]) &&
              forall l :: l in events <==>
                0 <= l < |old(loans)| && old(loans)[l].status == Active && old(loans)[l].dueAt < asOf &&
                old(loans)[l].returnedAt == None
    {
      DueIdsAreAll(loans, asOf);
      var overdue := DueIds(loans, asOf);
      for k := 0 to |overdue|
        invariant copies == old(copies) && |loans| == |old(loans)|
        invariant overdueEvents == old(overdueEvents) + overdue[..k]
        invariant forall l | 0 <= l < |loans| ::
                    loans[l] == if l in overdue[..k] then old(loans)[l].(status := Overdue) else old(loans)[l]
      {
        var l := overdue[k];
        assert l !in overdue[..k];
        assert IsLegal(LOAN_TRANSITIONS, loans[l].status, Overdue);
        loans := loans[l := loans[l].(status := Overdue)];
        overdueEvents := overdueEvents + [l];
        assert overdue[..k + 1] == overdue[..k] + [l];
      }
      assert overdue[..|overdue|] == overdue;
      assert loans == AfterSweep(old(Tables()), asOf).loans;
      n := |overdue|;
      SweepFlipsTheDue(old(Tables()), asOf);
      assert overdueEvents[|old(overdueEvents)|..] == overdue;
    }

    /** What others commit while this operation is between two of its statements; their calls may be under way. */
    method Interfere(calls: map<nat, Pending>, schedule: seq<Statement>)
      modifies this
      ensures Tables() == AfterOthers(policy, old(Tables()), old(overdueEvents), calls, schedule).db
      ensures overdueEvents == AfterOthers(policy, old(Tables()), old(overdueEvents), calls, schedule).overdueEvents
    {
      var s := State(Tables(), calls, overdueEvents);
      for k := 0 to |schedule|
        invariant Tables() == old(Tables()) && overdueEvents == old(overdueEvents)
        invariant Run(policy, s, schedule[k..]) == AfterOthers(policy, Tables(), overdueEvents, calls, schedule)
      {
        assert schedule[k..][1..] == schedule[k + 1..];
        s := Step(policy, s, schedule[k]);
      }
      copies, loans, overdueEvents := s.db.copies, s.db.loans, s.overdueEvents;
    }

    /**
     The portal's borrow: the page token is checked, others go on, then the lowest available copy is lent
     without a look at the token.
     */
    method PostBorrow(book: int, c: int, version: nat, member: int, dueAt: int, calls: map<nat, Pending>,
                      between: seq<Statement>)
      returns (r: Result<Loan>)
      modifies this
      ensures r == Err(NotFound) <==> !(0 <= c < |old(copies)| && old(copies)[c].book == book)
      ensures r == Err(CopyChanged) <==>
              0 <= c < |old(copies)| && old(copies)[c].book == book &&
              (old(copies)[c].version != version || old(copies)[c].status != Available)
      ensures r.Err? ==> r.error in {NotFound, CopyChanged, NoAvailableCopy}
      ensures r.Err? && r.error != NoAvailableCopy ==> Tables() == old(Tables())
      ensures var db := AfterOthers(policy, old(Tables()), old(overdueEvents), calls, between).db;
              0 <= c && TokenHolds(old(Tables()), book, c, version) ==>
                Tables() == AfterBorrow(db, book, member, dueAt) &&
                (r.Ok? <==> AvailableIds(db.copies, book) != []) &&
                (r.Ok? ==> loans == db.loans + [r.value] &&
                           (r.value.copy <= c <==>
                            exists k | 0 <= k < |db.copies| :: k <= c && CanBeLent(db.copies[k], book)))
      ensures 0 <= c && TokenHolds(old(Tables()), book, c, version) &&
              TouchCount(policy, State(old(Tables()), calls, old(overdueEvents)), between, c) == 0 ==>
                r.Ok? && r.value.copy <= c
    {
      if !(0 <= c < |copies|) || copies[c].book != book {
        return Err(NotFound);
      }
      if copies[c].version != version || copies[c].status != Available {
        return Err(CopyChanged);
      }
      ghost var checked := State(Tables(), calls, overdueEvents);
      Interfere(calls, between);
      FirstAvailableIsLowest(copies, book);
      if TouchCount(policy, checked, between, c) == 0 {
        UntouchedPostLends(policy, checked, between, book, c, version, member, dueAt);
      }
      if AvailableIds(copies, book) != [] {
        LentIdIsExact(Tables(), book, member, dueAt, c);
      }
      r := BorrowCopy(book, member, dueAt);
    }
  }

  // ---------- whole operations are uninterrupted runs of their statements ----------

  lemma RunOfThree(policy: Policy, s: State, a: Statement, b: Statement, c: Statement)
    ensures Run(policy, s, [a, b, c]) == Step(policy, Step(policy, Step(policy, s, a), b), c)
  {
    assert [a, b, c][1..][1..] == [c];
    assert Run(policy, Step(policy, s, a), [a, b, c][1..]) == Run(policy, Step(policy, Step(policy, s, a), b), [c]);
    assert [c][1..] == [];
  }

  lemma ReturnIsUninterrupted(policy: Policy, s: State, call: nat, l: nat, now: int)
    requires call !in s.calls
    ensures Run(policy, s, [ReadLoanToReturn(call, l), ReadCopyToReturn(call), WriteReturn(call, now)]) ==
            s.(db := Apply(policy, s.db, ReturnOp(l, now)))
  {
    RunOfThree(policy, s, ReadLoanToReturn(call, l), ReadCopyToReturn(call), WriteReturn(call, now));
    var s1 := Step(policy, s, ReadLoanToReturn(call, l));
    var s2 := Step(policy, s1, ReadCopyToReturn(call));
    if ReturnCheck(s.db, l).Ok? {
      assert s2.calls - {call} == s.calls;
    }
  }

  lemma RenewIsUninterrupted(policy: Policy, s: State, call: nat, l: nat, blocked: bool)
    requires call !in s.calls
    ensures Step(policy, Step(policy, s, ReadLoanToRenew(call, l, blocked)), WriteRenewal(call)) ==
            s.(db := Apply(policy, s.db, RenewOp(l, blocked)))
  {
    var s1 := Step(policy, s, ReadLoanToRenew(call, l, blocked));
    if RenewCheck(policy, s.db, l, blocked).Ok? {
      assert s1.calls - {call} == s.calls;
    }
  }

  predicate AllExist(db: Db, todo: seq<nat>) {
    forall k | 0 <= k < |todo| :: LoanExists(db, todo[k])
  }

  lemma RestExists(db: Db, todo: seq<nat>)
    requires todo != [] && AllExist(db, todo)
    ensures LoanExists(db, todo[0]) && AllExist(AfterOverdue(db, todo[0]), todo[1..])
  {
    assert LoanExists(db, todo[0]);
    var after := AfterOverdue(db, todo[0]);
    forall k | 0 <= k < |todo[1..]| ensures LoanExists(after, todo[1..][k]) {
      assert LoanExists(db, todo[k + 1]);
    }
  }

  function MarkAll(db: Db, todo: seq<nat>): Db
    requires AllExist(db, todo)
    decreases |todo|
  {
    if todo == [] then db else
      RestExists(db, todo);
      MarkAll(AfterOverdue(db, todo[0]), todo[1..])
  }

  lemma {:induction false} MarkAllMarks(db: Db, todo: seq<nat>)
    requires AllExist(db, todo)
    ensures var after := MarkAll(db, todo);
            after.copies == db.copies && |after.loans| == |db.loans| &&
            forall l | 0 <= l < |db.loans| ::
              after.loans[l] == if l in todo then db.loans[l].(status := Overdue) else db.loans[l]
    decreases |todo|
  {
    if todo != [] {
      RestExists(db, todo);
      MarkAllMarks(AfterOverdue(db, todo[0]), todo[1..]);
      assert todo == [todo[0]] + todo[1..];
    }
  }

  function Repeat(st: Statement, n: nat): seq<Statement> {
    if n == 0 then [] else [st] + Repeat(st, n - 1)
  }

  lemma SweepWriteStep(policy: Policy, s: State, call: nat, calls: map<nat, Pending>, todo: seq<nat>)
    requires call !in calls && s.calls == calls[call := Sweeping(todo)] && todo != [] && LoanExists(s.db, todo[0])
    ensures Step(policy, s, WriteOverdue(call)) ==
            State(AfterOverdue(s.db, todo[0]),
                  if |todo| == 1 then calls else calls[call := Sweeping(todo[1..])],
                  s.overdueEvents + [todo[0]])
  {
    var t := Step(policy, s, WriteOverdue(call));
    assert t.calls == if |todo| == 1 then calls else calls[call := Sweeping(todo[1..])];
  }

  lemma {:induction false} SweepWrites(policy: Policy, s: State, call: nat, calls: map<nat, Pending>, todo: seq<nat>)
    requires call !in calls && s.calls == calls[call := Sweeping(todo)] && todo != []
    requires AllExist(s.db, todo)
    ensures Run(policy, s, Repeat(WriteOverdue(call), |todo|)) ==
            State(MarkAll(s.db, todo), calls, s.overdueEvents + todo)
    decreases |todo|
  {
    RestExists(s.db, todo);
    SweepWriteStep(policy, s, call, calls, todo);
    var t := Step(policy, s, WriteOverdue(call));
    assert Repeat(WriteOverdue(call), |todo|)[1..] == Repeat(WriteOverdue(call), |todo| - 1);
    assert todo == [todo[0]] + todo[1..];
    if |todo| > 1 {
      SweepWrites(policy, t, call, calls, todo[1..]);
      assert s.overdueEvents + todo == s.overdueEvents + [todo[0]] + todo[1..];
    }
  }

  lemma MarkingTheDueIsTheSweep(s: State, asOf: int)
    requires InRange(s)
    ensures AllExist(s.db, DueIds(s.db.loans, asOf))
    ensures MarkAll(s.db, DueIds(s.db.loans, asOf)) == AfterSweep(s.db, asOf)
  {
    DueIdsAreAll(s.db.loans, asOf);
    var due := DueIds(s.db.loans, asOf);
    forall k | 0 <= k < |due| ensures LoanExists(s.db, due[k]) {
      assert IsDue(s.db.loans[due[k]], asOf);
    }
    MarkAllMarks(s.db, due);
    var after := MarkAll(s.db, due).loans;
    forall l | 0 <= l < |s.db.loans| ensures after[l] == Swept(s.db.loans[l], asOf) {
      if l in due {
        var k :| 0 <= k < |due| && due[k] == l;
        assert IsDue(s.db.loans[due[k]], asOf);
      }
    }
    assert after == AfterSweep(s.db, asOf).loans;
  }

  lemma SweepIsUninterrupted(policy: Policy, s: State, call: nat, asOf: int)
    requires call !in s.calls && InRange(s)
    ensures var due := DueIds(s.db.loans, asOf);
            Run(policy, Step(policy, s, ReadDue(call, asOf)), Repeat(WriteOverdue(call), |due|)) ==
            State(Apply(policy, s.db, SweepOp(asOf)), s.calls, s.overdueEvents + due)
  {
    var due := DueIds(s.db.loans, asOf);
    MarkingTheDueIsTheSweep(s, asOf);
    if due == [] {
      assert s.overdueEvents + due == s.overdueEvents;
    } else {
      SweepWrites(policy, Step(policy, s, ReadDue(call, asOf)), call, s.calls, due);
    }
  }

  // ---------- the sweep ----------

  lemma {:induction false} SweepKeepsCounts(kind: Kind, db: Db, asOf: int, n: nat, c: nat)
    requires n <= |db.loans|
    ensures CountLoans(kind, AfterSweep(db, asOf).loans[..n], c) == CountLoans(kind, db.loans[..n], c)
  {
    if n > 0 {
      SweepKeepsCounts(kind, db, asOf, n - 1, c);
      assert AfterSweep(db, asOf).loans[..n][..n - 1] == AfterSweep(db, asOf).loans[..n - 1];
      assert db.loans[..n][..n - 1] == db.loans[..n - 1];
    }
  }

  /** Taken whole, every operation keeps copies and loans coupled. */
  lemma WholeOperationsBalance(policy: Policy, db: Db, op: Operation)
    requires Balances(db)
    ensures Balances(Apply(policy, db, op))
  {
    match op
    case BorrowOp(book, member, dueAt) => BorrowBalances(db, book, member, dueAt);
    case ReturnOp(l, now) =>
      if ReturnCheck(db, l).Ok? { ReturnBalancesExactly(db, l, now); }
    case RenewOp(l, blocked) =>
      if RenewCheck(policy, db, l, blocked).Ok? {
        LoanWriteBalancesExactly(db, l, AfterRenewal(db, l, db.loans[l].dueAt + policy.duration).loans[l]);
      }
    case SweepOp(asOf) =>
      var after := AfterSweep(db, asOf);
      assert after.loans[..|db.loans|] == after.loans && db.loans[..|db.loans|] == db.loans;
      forall c | 0 <= c < |after.copies| ensures CopyBalances(after, c) {
        assert CopyBalances(db, c);
        forall kind { SweepKeepsCounts(kind, db, asOf, |db.loans|, c); }
      }
  }

  /**
   A second sweep at the same instant, or at an earlier one, flips nothing, and the loans it flips are
   exactly those that were due.
   */
  lemma SweepIsIdempotent(db: Db, asOf: int, earlier: int)
    requires earlier <= asOf
    ensures DueIds(AfterSweep(db, asOf).loans, earlier) == []
    ensures forall l | 0 <= l < |db.loans| ::
              AfterSweep(db, asOf).loans[l] != db.loans[l] <==> l in DueIds(db.loans, asOf)
  {
    var after := AfterSweep(db, asOf);
    var ids := DueIds(after.loans, earlier);
    if ids != [] {
      assert IsDue(after.loans[ids[0]], earlier);
    }
    forall l | 0 <= l < |db.loans|
      ensures after.loans[l] != db.loans[l] <==> l in DueIds(db.loans, asOf)
    {
      DueIdsAreAll(db.loans, asOf);
      var due := DueIds(db.loans, asOf);
      if l in due {
        var k :| 0 <= k < |due| && due[k] == l;
        assert IsDue(db.loans[due[k]], asOf);
      }
    }
  }

  // ---------- every loan's life ends ----------

  function Rank(status: LoanStatus): nat {
    match status
    case Active => 2
    case Overdue => 1
    case Returned => 0
    case LoanLost => 0
  }

  /** A renewal may send an overdue loan back to active, against the transition table; the cap pays for it. */
  function Measure(policy: Policy, loan: Loan): int {
    2 * (policy.maxRenewals - loan.renewals) + Rank(loan.status)
  }

  predicate Affects(policy: Policy, db: Db, op: Operation, l: nat) {
    l < |db.loans| && l < |Apply(policy, db, op).loans| && Apply(policy, db, op).loans[l] != db.loans[l]
  }

  predicate Flips(db: Db, op: Operation, l: nat) {
    op.SweepOp? && l < |db.loans| && IsDue(db.loans[l], op.asOf)
  }

  function ApplyAll(policy: Policy, db: Db, ops: seq<Operation>): Db
    decreases |ops|
  {
    if ops == [] then db else ApplyAll(policy, Apply(policy, db, ops[0]), ops[1..])
  }

  function AffectCount(policy: Policy, db: Db, ops: seq<Operation>, l: nat): nat
    decreases |ops|
  {
    if ops == [] then 0 else
      One(Affects(policy, db, ops[0], l)) + AffectCount(policy, Apply(policy, db, ops[0]), ops[1..], l)
  }

  function FlipCount(policy: Policy, db: Db, ops: seq<Operation>, l: nat): nat
    decreases |ops|
  {
    if ops == [] then 0 else
      One(Flips(db, ops[0], l)) + FlipCount(policy, Apply(policy, db, ops[0]), ops[1..], l)
  }

  predicate WithinCap(policy: Policy, db: Db, l: nat) {
    l < |db.loans| && db.loans[l].renewals <= policy.maxRenewals
  }

  lemma LifeStep(policy: Policy, db: Db, op: Operation, l: nat)
    requires WithinCap(policy, db, l)
    ensures WithinCap(policy, Apply(policy, db, op), l)
    ensures var before, after := db.loans[l], Apply(policy, db, op).loans[l];
            Measure(policy, after) + One(Affects(policy, db, op, l)) <= Measure(policy, before) &&
            One(Flips(db, op, l)) + One(after.status == Active) + before.renewals
              <= One(before.status == Active) + after.renewals
  {
    match op
    case BorrowOp(_, _, _) =>
    case ReturnOp(_, _) =>
    case RenewOp(_, _) =>
    case SweepOp(_) =>
  }

  /**
   In any run of whole operations at most as many take effect on a loan as its measure says, twice the cap
   plus two for a new loan, and it is reported overdue at most once more than it was renewed.
   */
  lemma {:induction false} EveryLoanSettles(policy: Policy, db: Db, ops: seq<Operation>, l: nat)
    requires WithinCap(policy, db, l)
    ensures WithinCap(policy, ApplyAll(policy, db, ops), l)
    ensures AffectCount(policy, db, ops, l) + Measure(policy, ApplyAll(policy, db, ops).loans[l])
            <= Measure(policy, db.loans[l])
    ensures AffectCount(policy, db, ops, l) <= 2 * policy.maxRenewals + 2
    ensures FlipCount(policy, db, ops, l) <=
            One(db.loans[l].status == Active) + ApplyAll(policy, db, ops).loans[l].renewals - db.loans[l].renewals
    decreases |ops|
  {
    if ops != [] {
      LifeStep(policy, db, ops[0], l);
      EveryLoanSettles(policy, Apply(policy, db, ops[0]), ops[1..], l);
    }
  }
}
