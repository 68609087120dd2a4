/**
 Runs in which borrows, returns that read one snapshot, whole renewals and whole sweeps follow one another in
 any order, the writes of returns falling anywhere after their reads. None of them can lose the coupling.
 */
module CoupledRuns {
  import opened Circulation
  import opened Ledger
  import opened LoanService

  datatype Block =
    | Lend(book: int, member: int, dueAt: int)
    | SnapshotRead(call: nat, loan: nat)
    | Swap(call: nat, now: int)
    | WholeRenewal(call: nat, loan: nat, blocked: bool)
    | WholeSweep(call: nat, asOf: int)

  /** A call that is still busy starts nothing else. */
  function StatementsOf(s: State, block: Block): seq<Statement> {
    match block
    case Lend(book, member, dueAt) => [Borrow(book, member, dueAt)]
    case SnapshotRead(c, l) => if c in s.calls then [] else [ReadLoanToReturn(c, l), ReadCopyToReturn(c)]
    case Swap(c, now) => [WriteReturn(c, now)]
    case WholeRenewal(c, l, blocked) => if c in s.calls then [] else [ReadLoanToRenew(c, l, blocked), WriteRenewal(c)]
    case WholeSweep(c, asOf) =>
      if c in s.calls then []
      else [ReadDue(c, asOf)] + Repeat(WriteOverdue(c), |DueIds(s.db.loans, asOf)|)
  }

  function ScheduleOf(policy: Policy, s: State, blocks: seq<Block>): seq<Statement>
    decreases |blocks|
  {
    if blocks == [] then [] else
      StatementsOf(s, blocks[0]) + ScheduleOf(policy, Run(policy, s, StatementsOf(s, blocks[0])), blocks[1..])
  }

  /** Between blocks only returns are in flight, and both their reads saw one version. */
  ghost predicate SnapshotsOnly(s: State) {
    forall c | c in s.calls :: s.calls[c].BothRead? && s.calls[c].version == s.calls[c].seen
  }

  lemma {:induction false} DisciplinedInTurn(policy: Policy, s: State, a: seq<Statement>, b: seq<Statement>)
    requires AllDisciplined(policy, s, a) && AllDisciplined(policy, Run(policy, s, a), b)
    ensures AllDisciplined(policy, s, a + b) && Run(policy, s, a + b) == Run(policy, Run(policy, s, a), b)
    decreases |a|
  {
    if a == [] {
      assert a + b == b;
    } else {
      assert (a + b)[1..] == a[1..] + b;
      DisciplinedInTurn(policy, Step(policy, s, a[0]), a[1..], b);
    }
  }

  lemma RunOfTwo(policy: Policy, s: State, a: Statement, b: Statement)
    requires Disciplined(s, a) && Disciplined(Step(policy, s, a), b)
    ensures AllDisciplined(policy, s, [a, b]) && Run(policy, s, [a, b]) == Step(policy, Step(policy, s, a), b)
  {
    assert [a, b][1..] == [b] && [b][1..] == [];
    var t := Step(policy, s, a);
    assert Run(policy, t, [b]) == Run(policy, Step(policy, t, b), [b][1..]) == Step(policy, t, b);
    assert Run(policy, s, [a, b]) == Run(policy, t, [a, b][1..]);
    assert AllDisciplined(policy, Step(policy, t, b), [b][1..]);
    assert AllDisciplined(policy, t, [b]);
  }

  lemma {:induction false} SweepWritesAreDisciplined(policy: Policy, s: State, call: nat, calls: map<nat, Pending>,
                                                     todo: seq<nat>)
    requires call !in calls && s.calls == calls[call := Sweeping(todo)] && todo != [] && AllExist(s.db, todo)
    requires forall k | 0 <= k < |todo| :: IsOpen(s.db.loans[todo[k]].status)
    ensures AllDisciplined(policy, s, Repeat(WriteOverdue(call), |todo|))
    decreases |todo|
  {
    RestExists(s.db, todo);
    SweepWriteStep(policy, s, call, calls, todo);
    var t := Step(policy, s, WriteOverdue(call));
    assert Repeat(WriteOverdue(call), |todo|)[1..] == Repeat(WriteOverdue(call), |todo| - 1);
    if |todo| > 1 {
      SweepWritesAreDisciplined(policy, t, call, calls, todo[1..]);
    }
  }

  lemma SweepBlock(policy: Policy, s: State, call: nat, asOf: int)
    requires CouplingInv(s) && SnapshotsOnly(s) && call !in s.calls
    ensures var sts := StatementsOf(s, WholeSweep(call, asOf));
            AllDisciplined(policy, s, sts) && SnapshotsOnly(Run(policy, s, sts))
  {
    var due := DueIds(s.db.loans, asOf);
    var writes := Repeat(WriteOverdue(call), |due|);
    var t := Step(policy, s, ReadDue(call, asOf));
    MarkingTheDueIsTheSweep(s, asOf);
    SweepIsUninterrupted(policy, s, call, asOf);
    if due != [] {
      SweepWritesAreDisciplined(policy, t, call, s.calls, due);
    }
    assert ([ReadDue(call, asOf)] + writes)[1..] == writes;
  }

  lemma RenewalBlock(policy: Policy, s: State, call: nat, l: nat, blocked: bool)
    requires CouplingInv(s) && SnapshotsOnly(s) && call !in s.calls
    ensures var sts := StatementsOf(s, WholeRenewal(call, l, blocked));
            AllDisciplined(policy, s, sts) && SnapshotsOnly(Run(policy, s, sts))
  {
    RunOfTwo(policy, s, ReadLoanToRenew(call, l, blocked), WriteRenewal(call));
    RenewIsUninterrupted(policy, s, call, l, blocked);
  }

  lemma SnapshotBlock(policy: Policy, s: State, call: nat, l: nat)
    requires CouplingInv(s) && SnapshotsOnly(s) && call !in s.calls
    ensures var sts := StatementsOf(s, SnapshotRead(call, l));
            AllDisciplined(policy, s, sts) && SnapshotsOnly(Run(policy, s, sts))
  {
    RunOfTwo(policy, s, ReadLoanToReturn(call, l), ReadCopyToReturn(call));
  }

  lemma BlockIsDisciplined(policy: Policy, s: State, block: Block)
    requires CouplingInv(s) && SnapshotsOnly(s)
    ensures AllDisciplined(policy, s, StatementsOf(s, block))
    ensures SnapshotsOnly(Run(policy, s, StatementsOf(s, block)))
  {
    match block
    case Lend(book, member, dueAt) => assert [Borrow(book, member, dueAt)][1..] == [];
    case Swap(c, now) => assert [WriteReturn(c, now)][1..] == [];
    case SnapshotRead(c, l) => if c !in s.calls { SnapshotBlock(policy, s, c, l); }
    case WholeRenewal(c, l, blocked) => if c !in s.calls { RenewalBlock(policy, s, c, l, blocked); }
    case WholeSweep(c, asOf) => if c !in s.calls { SweepBlock(policy, s, c, asOf); }
  }

  lemma {:induction false} BlocksAreDisciplined(policy: Policy, s: State, blocks: seq<Block>)
    requires CouplingInv(s) && SnapshotsOnly(s)
    ensures AllDisciplined(policy, s, ScheduleOf(policy, s, blocks))
    decreases |blocks|
  {
    if blocks != [] {
      var sts := StatementsOf(s, blocks[0]);
      BlockIsDisciplined(policy, s, blocks[0]);
      SnapshotReturnsStayCoupled(policy, s, sts);
      BlocksAreDisciplined(policy, Run(policy, s, sts), blocks[1..]);
      DisciplinedInTurn(policy, s, sts, ScheduleOf(policy, Run(policy, s, sts), blocks[1..]));
    }
  }

  /**
   Any number of borrows, snapshot returns, whole renewals and whole sweeps, in any order: at every statement
   a copy is on loan exactly when it has one open loan, otherwise it has none, and no loan is returned twice.
   */
  lemma BlocksStayCoupled(policy: Policy, s: State, blocks: seq<Block>, l: nat)
    requires CouplingInv(s) && SnapshotsOnly(s)
    ensures AlwaysBalances(policy, s, ScheduleOf(policy, s, blocks))
    ensures ReturnsOf(policy, s, ScheduleOf(policy, s, blocks), l) <= 1
  {
    BlocksAreDisciplined(policy, s, blocks);
    SnapshotReturnsStayCoupled(policy, s, ScheduleOf(policy, s, blocks));
    CoupledExactlyWhenFresh(policy, s, ScheduleOf(policy, s, blocks));
    ReturnedAtMostOnce(policy, s, ScheduleOf(policy, s, blocks), l);
  }
}
