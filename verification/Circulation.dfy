/**
 Copies and loans, and the borrow, return, renew and sweep operations as the database statements they
 issue, so that any number of them may interleave.
 */
module Circulation {
  import opened Common
  import opened StateMachines

  datatype CopyStatus = Available | OnLoan | Reserved | CopyLost

  /** `version` is the optimistic-lock column. */
  datatype Copy = Copy(book: int, status: CopyStatus, version: nat)

  /** Instants are milliseconds. */
  datatype Loan =
    Loan(copy: nat, member: int, status: LoanStatus, renewals: nat, dueAt: int, returnedAt: Option<int>)

  /** A row's id is its index; rows are never deleted. */
  datatype Db = Db(copies: seq<Copy>, loans: seq<Loan>)

  datatype Policy = Policy(maxRenewals: nat, duration: nat)

  predicate IsOpen(status: LoanStatus) {
    status == Active || status == Overdue
  }

  predicate CanBeLent(copy: Copy, book: int) {
    copy.book == book && copy.status == Available
  }

  /** The ids of the book's available copies, in order. */
  function AvailableIds(copies: seq<Copy>, book: int): (ids: seq<nat>)
    ensures forall i | 0 <= i < |ids| :: ids[i] < |copies| && CanBeLent(copies[ids[i]], book)
  {
    if copies == [] then [] else
      var n := |copies| - 1;
      AvailableIds(copies[..n], book) + if CanBeLent(copies[n], book) then [n] else []
  }

  /** All of them, each once. */
  lemma {:induction false} AvailableIdsAreAll(copies: seq<Copy>, book: int)
    ensures var ids := AvailableIds(copies, book);
            (forall c | 0 <= c < |copies| && CanBeLent(copies[c], book) :: c in ids) &&
            (forall i, j | 0 <= i < j < |ids| :: ids[i] < ids[j])
  {
    if copies != [] { AvailableIdsAreAll(copies[..|copies| - 1], book); }
  }

  lemma FirstAvailableIsLowest(copies: seq<Copy>, book: int)
    ensures var ids := AvailableIds(copies, book);
            (ids == [] <==> forall c | 0 <= c < |copies| :: !CanBeLent(copies[c], book)) &&
            (ids != [] ==> forall c | 0 <= c < ids[0] :: !CanBeLent(copies[c], book))
  {
    AvailableIdsAreAll(copies, book);
    var ids := AvailableIds(copies, book);
    forall c | 0 <= c < |copies| && CanBeLent(copies[c], book) ensures ids != [] && ids[0] <= c {
      assert c in ids;
    }
    if ids != [] { assert CanBeLent(copies[ids[0]], book); }
  }

  // ---------- what each committed write does ----------

  function LendCopy(copy: Copy): Copy {
    copy.(status := OnLoan, version := copy.version + 1)
  }

  function ShelveCopy(copy: Copy): Copy {
    copy.(status := Available, version := copy.version + 1)
  }

  /** The first available copy is lent; nothing happens when there is none. */
  function AfterBorrow(db: Db, book: int, member: int, dueAt: int): Db {
    var ids := AvailableIds(db.copies, book);
    if ids == [] then db else
      Db(db.copies[ids[0] := LendCopy(db.copies[ids[0]])],
         db.loans + [Loan(ids[0], member, Active, 0, dueAt, None)])
  }

  function AfterReturn(db: Db, l: nat, now: int): Db
    requires l < |db.loans| && db.loans[l].copy < |db.copies|
  {
    var c := db.loans[l].copy;
    Db(db.copies[c := ShelveCopy(db.copies[c])],
       db.loans[l := db.loans[l].(status := Returned, returnedAt := Some(now))])
  }

  function AfterRenewal(db: Db, l: nat, dueAt: int): Db
    requires l < |db.loans|
  {
    var loan := db.loans[l];
    db.(loans := db.loans[l := loan.(renewals := loan.renewals + 1, dueAt := dueAt, status := Active)])
  }

  function AfterOverdue(db: Db, l: nat): Db
    requires l < |db.loans|
  {
    db.(loans := db.loans[l := db.loans[l].(status := Overdue)])
  }

  predicate IsDue(loan: Loan, asOf: int) {
    loan.status == Active && loan.dueAt < asOf && loan.returnedAt == None
  }

  /** What the sweep's query answers. */
  function DueIds(loans: seq<Loan>, asOf: int): (ids: seq<nat>)
    ensures forall i | 0 <= i < |ids| :: ids[i] < |loans| && IsDue(loans[ids[i]], asOf)
  {
    if loans == [] then [] else
      var n := |loans| - 1;
      DueIds(loans[..n], asOf) + if IsDue(loans[n], asOf) then [n] else []
  }

  lemma {:induction false} DueIdsAreAll(loans: seq<Loan>, asOf: int)
    ensures var ids := DueIds(loans, asOf);
            (forall l | 0 <= l < |loans| && IsDue(loans[l], asOf) :: l in ids) &&
            (forall i, j | 0 <= i < j < |ids| :: ids[i] < ids[j])
  {
    if loans != [] { DueIdsAreAll(loans[..|loans| - 1], asOf); }
  }

  /** It lists the active loans that are not given back and were due before, and nothing else. */
  lemma DueIdsAreTheDue(loans: seq<Loan>, asOf: int)
    ensures forall l :: l in DueIds(loans, asOf) <==>
              0 <= l < |loans| && loans[l].status == Active && loans[l].dueAt < asOf && loans[l].returnedAt == None
  {
    var ids := DueIds(loans, asOf);
    DueIdsAreAll(loans, asOf);
    forall l: int | l in ids
      ensures 0 <= l < |loans| && loans[l].status == Active && loans[l].dueAt < asOf && loans[l].returnedAt == None
    {
      var i :| 0 <= i < |ids| && ids[i] == l;
      assert IsDue(loans[ids[i]], asOf);
    }
    forall l: int | 0 <= l < |loans| && loans[l].status == Active && loans[l].dueAt < asOf &&
                    loans[l].returnedAt == None
      ensures l in ids
    {
      assert IsDue(loans[l], asOf);
    }
  }

  // ---------- the statement machine ----------

  /**
   What a call holds between its statements. `seen` is the version of the loan's copy when the loan was
   read: a history variable the code does not keep, in which the two reads of a return are compared.
   */
  datatype Pending =
    | LoanRead(loan: nat, seen: nat)
    | BothRead(loan: nat, version: nat, seen: nat)
    | Renewing(loan: nat, dueAt: int)
    | Sweeping(todo: seq<nat>)

  datatype State = State(db: Db, calls: map<nat, Pending>, overdueEvents: seq<nat>)

  datatype Statement =
    | Borrow(book: int, member: int, dueAt: int)
    | ReadLoanToReturn(call: nat, loan: nat)
    | ReadCopyToReturn(call: nat)
    | WriteReturn(call: nat, now: int)
    | ReadLoanToRenew(call: nat, loan: nat, blocked: bool)
    | WriteRenewal(call: nat)
    | ReadDue(call: nat, asOf: int)
    | WriteOverdue(call: nat)

  predicate LoanExists(db: Db, l: nat) {
    l < |db.loans| && db.loans[l].copy < |db.copies|
  }

  predicate MayRenew(policy: Policy, loan: Loan, blocked: bool) {
    IsOpen(loan.status) && loan.renewals < policy.maxRenewals && !blocked
  }

  predicate PendingInRange(db: Db, p: Pending) {
    match p
    case LoanRead(l, _) => LoanExists(db, l)
    case BothRead(l, _, _) => LoanExists(db, l)
    case Renewing(l, _) => LoanExists(db, l)
    case Sweeping(todo) => forall k | 0 <= k < |todo| :: LoanExists(db, todo[k])
  }

  /** Foreign keys hold. */
  ghost predicate InRange(s: State) {
    (forall l | 0 <= l < |s.db.loans| :: s.db.loans[l].copy < |s.db.copies|) &&
    (forall c | c in s.calls :: PendingInRange(s.db, s.calls[c]))
  }

  /** The compare-and-set of the call finds the version it read. */
  predicate Swaps(s: State, c: nat) {
    c in s.calls && s.calls[c].BothRead? && LoanExists(s.db, s.calls[c].loan) &&
    s.db.copies[s.db.loans[s.calls[c].loan].copy].version == s.calls[c].version
  }

  predicate WritesRenewal(s: State, c: nat) {
    c in s.calls && s.calls[c].Renewing? && LoanExists(s.db, s.calls[c].loan)
  }

  predicate WritesOverdue(s: State, c: nat) {
    c in s.calls && s.calls[c].Sweeping? && s.calls[c].todo != [] && LoanExists(s.db, s.calls[c].todo[0])
  }

  /** A statement that is not enabled, or whose check fails, leaves the database alone. */
  function Step(policy: Policy, s: State, st: Statement): State {
    match st
    case Borrow(book, member, dueAt) => s.(db := AfterBorrow(s.db, book, member, dueAt))
    case ReadLoanToReturn(c, l) =>
      if c !in s.calls && LoanExists(s.db, l) && IsLegal(LOAN_TRANSITIONS, s.db.loans[l].status, Returned) then
        s.(calls := s.calls[c := LoanRead(l, s.db.copies[s.db.loans[l].copy].version)])
      else s
    case ReadCopyToReturn(c) =>
      if c in s.calls && s.calls[c].LoanRead? && LoanExists(s.db, s.calls[c].loan) then
        var p := s.calls[c];
        s.(calls := s.calls[c := BothRead(p.loan, s.db.copies[s.db.loans[p.loan].copy].version, p.seen)])
      else s
    case WriteReturn(c, now) =>
      if c in s.calls && s.calls[c].BothRead? then
        s.(db := if Swaps(s, c) then AfterReturn(s.db, s.calls[c].loan, now) else s.db, calls := s.calls - {c})
      else s
    case ReadLoanToRenew(c, l, blocked) =>
      if c !in s.calls && LoanExists(s.db, l) && MayRenew(policy, s.db.loans[l], blocked) then
        s.(calls := s.calls[c := Renewing(l, s.db.loans[l].dueAt)])
      else s
    case WriteRenewal(c) =>
      if WritesRenewal(s, c) then
        s.(db := AfterRenewal(s.db, s.calls[c].loan, s.calls[c].dueAt + policy.duration), calls := s.calls - {c})
      else s
    case ReadDue(c, asOf) =>
      if c !in s.calls && DueIds(s.db.loans, asOf) != [] then
        s.(calls := s.calls[c := Sweeping(DueIds(s.db.loans, asOf))])
      else s
    case WriteOverdue(c) =>
      if WritesOverdue(s, c) then
        var todo := s.calls[c].todo;
        State(AfterOverdue(s.db, todo[0]),
              if |todo| == 1 then s.calls - {c} else s.calls[c := Sweeping(todo[1..])],
              s.overdueEvents + [todo[0]])
      else s
  }

  function Run(policy: Policy, s: State, schedule: seq<Statement>): State
    decreases |schedule|
  {
    if schedule == [] then s else Run(policy, Step(policy, s, schedule[0]), schedule[1..])
  }

  lemma StepKeepsRows(policy: Policy, s: State, st: Statement)
    requires forall l | 0 <= l < |s.db.loans| :: s.db.loans[l].copy < |s.db.copies|
    ensures var t := Step(policy, s, st);
            |t.db.copies| == |s.db.copies| && |s.db.loans| <= |t.db.loans| &&
            (forall l | 0 <= l < |s.db.loans| :: t.db.loans[l].copy == s.db.loans[l].copy) &&
            (forall l | 0 <= l < |t.db.loans| :: t.db.loans[l].copy < |t.db.copies|)
  {
  }

  lemma PendingStaysInRange(policy: Policy, s: State, st: Statement, c: nat)
    requires c in Step(policy, s, st).calls && (c in s.calls ==> PendingInRange(s.db, s.calls[c]))
    requires forall l | 0 <= l < |s.db.loans| :: s.db.loans[l].copy < |s.db.copies|
    ensures PendingInRange(s.db, Step(policy, s, st).calls[c])
  {
  }

  lemma StepStaysInRange(policy: Policy, s: State, st: Statement)
    requires InRange(s)
    ensures InRange(Step(policy, s, st))
    ensures |Step(policy, s, st).db.copies| == |s.db.copies| && |s.db.loans| <= |Step(policy, s, st).db.loans|
    ensures forall l | 0 <= l < |s.db.loans| :: Step(policy, s, st).db.loans[l].copy == s.db.loans[l].copy
  {
    var t := Step(policy, s, st);
    StepKeepsRows(policy, s, st);
    forall c | c in t.calls ensures PendingInRange(t.db, t.calls[c]) {
      PendingStaysInRange(policy, s, st, c);
    }
  }
}
