/**
 Overdue events under interleaved sweeps. Each sweep reports every loan it listed, so a loan can be reported
 without being flipped; how often both can happen.
 */
module SweepEvents {
  import opened Common
  import opened StateMachines
  import opened Circulation

  /** The sweeps that listed the loan and have not come to it yet. */
  function Holders(calls: map<nat, Pending>, l: nat): set<nat> {
    set c | c in calls && calls[c].Sweeping? && l in calls[c].todo
  }

  function EventsOf(events: seq<nat>, l: nat): nat {
    if events == [] then 0 else EventsOf(events[..|events| - 1], l) + One(events[|events| - 1] == l)
  }

  ghost predicate Increasing(todo: seq<nat>) {
    forall i, j | 0 <= i < j < |todo| :: todo[i] < todo[j]
  }

  /** A sweep lists a loan at most once. */
  ghost predicate ListsInOrder(s: State) {
    forall c | c in s.calls && s.calls[c].Sweeping? :: Increasing(s.calls[c].todo)
  }

  ghost predicate AtMostHolding(policy: Policy, s: State, schedule: seq<Statement>, l: nat, bound: nat)
    decreases |schedule|
  {
    |Holders(s.calls, l)| <= bound &&
    (schedule == [] || AtMostHolding(policy, Step(policy, s, schedule[0]), schedule[1..], l, bound))
  }

  lemma ListsStayInOrder(policy: Policy, s: State, st: Statement)
    requires ListsInOrder(s)
    ensures ListsInOrder(Step(policy, s, st))
  {
    match st
    case ReadDue(_, asOf) => DueIdsAreAll(s.db.loans, asOf);
    case _ =>
  }

  // ---------- flips ----------

  predicate ReportsLoan(s: State, st: Statement, l: nat) {
    st.WriteOverdue? && WritesOverdue(s, st.call) && s.calls[st.call].todo[0] == l
  }

  predicate FlipsLoan(s: State, st: Statement, l: nat) {
    ReportsLoan(s, st, l) && s.db.loans[l].status == Active
  }

  function FlipsOf(policy: Policy, s: State, schedule: seq<Statement>, l: nat): nat
    decreases |schedule|
  {
    if schedule == [] then 0 else
      One(FlipsLoan(s, schedule[0], l)) + FlipsOf(policy, Step(policy, s, schedule[0]), schedule[1..], l)
  }

  lemma FlipStep(policy: Policy, s: State, st: Statement, l: nat)
    requires l < |s.db.loans|
    ensures var t := Step(policy, s, st);
            l < |t.db.loans| &&
            One(FlipsLoan(s, st, l)) + One(t.db.loans[l].status == Active) + s.db.loans[l].renewals
              <= One(s.db.loans[l].status == Active) + t.db.loans[l].renewals
  {
  }

  /** Under every interleaving a loan turns from active to overdue at most once more than it is renewed. */
  lemma {:induction false} FlipsAreBounded(policy: Policy, s: State, schedule: seq<Statement>, l: nat)
    requires l < |s.db.loans|
    ensures var t := Run(policy, s, schedule);
            l < |t.db.loans| &&
            FlipsOf(policy, s, schedule, l) + One(t.db.loans[l].status == Active) + s.db.loans[l].renewals
              <= One(s.db.loans[l].status == Active) + t.db.loans[l].renewals
    decreases |schedule|
  {
    if schedule != [] {
      FlipStep(policy, s, schedule[0], l);
      FlipsAreBounded(policy, Step(policy, s, schedule[0]), schedule[1..], l);
    }
  }

  // ---------- exactly when each report is a flip ----------

  /** A sweep that reports the loan still finds it active, as it did when it listed it. */
  predicate FindsActive(s: State, st: Statement, l: nat) {
    ReportsLoan(s, st, l) ==> s.db.loans[l].status == Active
  }

  predicate AllFindActive(policy: Policy, s: State, schedule: seq<Statement>, l: nat)
    decreases |schedule|
  {
    schedule == [] ||
    (FindsActive(s, schedule[0], l) && AllFindActive(policy, Step(policy, s, schedule[0]), schedule[1..], l))
  }

  lemma ReportStep(policy: Policy, s: State, st: Statement, l: nat)
    ensures EventsOf(Step(policy, s, st).overdueEvents, l) ==
            EventsOf(s.overdueEvents, l) + One(ReportsLoan(s, st, l))
  {
    if st.WriteOverdue? && WritesOverdue(s, st.call) {
      assert Step(policy, s, st).overdueEvents[..|s.overdueEvents|] == s.overdueEvents;
    }
  }

  lemma {:induction false} FlipsAreReported(policy: Policy, s: State, schedule: seq<Statement>, l: nat)
    ensures EventsOf(Run(policy, s, schedule).overdueEvents, l) >=
            EventsOf(s.overdueEvents, l) + FlipsOf(policy, s, schedule, l)
    decreases |schedule|
  {
    if schedule != [] {
      ReportStep(policy, s, schedule[0], l);
      FlipsAreReported(policy, Step(policy, s, schedule[0]), schedule[1..], l);
    }
  }

  /** A run reports a loan once for each flip exactly when every sweep that reports it finds it active. */
  lemma {:induction false} ReportsAreFlipsExactly(policy: Policy, s: State, schedule: seq<Statement>, l: nat)
    ensures EventsOf(Run(policy, s, schedule).overdueEvents, l) ==
            EventsOf(s.overdueEvents, l) + FlipsOf(policy, s, schedule, l) <==>
            AllFindActive(policy, s, schedule, l)
    decreases |schedule|
  {
    if schedule != [] {
      var t := Step(policy, s, schedule[0]);
      ReportStep(policy, s, schedule[0], l);
      FlipsAreReported(policy, t, schedule[1..], l);
      if FindsActive(s, schedule[0], l) {
        ReportsAreFlipsExactly(policy, t, schedule[1..], l);
      }
    }
  }

  // ---------- how many events ----------

  /** The events so far and those a flip could still set off: all that may be pending while the loan is active. */
  function Potential(s: State, l: nat, bound: nat): nat
    requires l < |s.db.loans|
  {
    EventsOf(s.overdueEvents, l) + if s.db.loans[l].status == Active then bound else |Holders(s.calls, l)|
  }

  lemma OnlySweepsMoveHolders(policy: Policy, s: State, st: Statement, l: nat)
    requires !st.ReadDue? && !st.WriteOverdue?
    ensures Holders(Step(policy, s, st).calls, l) == Holders(s.calls, l)
    ensures Step(policy, s, st).overdueEvents == s.overdueEvents
  {
    var t := Step(policy, s, st);
    assert forall c :: (c in t.calls && t.calls[c].Sweeping?) <==> (c in s.calls && s.calls[c].Sweeping?);
    assert forall c | c in t.calls && t.calls[c].Sweeping? :: t.calls[c] == s.calls[c];
  }

  lemma SweepReadsActiveLoans(policy: Policy, s: State, c: nat, asOf: int, l: nat)
    requires l < |s.db.loans|
    ensures var t := Step(policy, s, ReadDue(c, asOf));
            t.db == s.db && t.overdueEvents == s.overdueEvents &&
            (s.db.loans[l].status == Active || Holders(t.calls, l) == Holders(s.calls, l))
  {
    var due := DueIds(s.db.loans, asOf);
    if l in due {
      var k :| 0 <= k < |due| && due[k] == l;
      assert IsDue(s.db.loans[due[k]], asOf);
    }
  }

  lemma SweepWriteMovesHolders(policy: Policy, s: State, c: nat, l: nat)
    requires WritesOverdue(s, c) && ListsInOrder(s)
    ensures Holders(Step(policy, s, WriteOverdue(c)).calls, l) ==
            if s.calls[c].todo[0] == l then Holders(s.calls, l) - {c} else Holders(s.calls, l)
  {
    var todo, t := s.calls[c].todo, Step(policy, s, WriteOverdue(c));
    assert todo == [todo[0]] + todo[1..];
    assert Increasing(todo);
    assert todo[0] !in todo[1..];
  }

  lemma SweepWriteKeepsPotential(policy: Policy, s: State, c: nat, l: nat, bound: nat)
    requires l < |s.db.loans| && ListsInOrder(s) && |Holders(s.calls, l)| <= bound && WritesOverdue(s, c)
    ensures var t := Step(policy, s, WriteOverdue(c));
            l < |t.db.loans| && t.db.loans[l].renewals == s.db.loans[l].renewals &&
            Potential(t, l, bound) <= Potential(s, l, bound)
  {
    var t, first := Step(policy, s, WriteOverdue(c)), s.calls[c].todo[0];
    SweepWriteMovesHolders(policy, s, c, l);
    assert t.overdueEvents[..|s.overdueEvents|] == s.overdueEvents;
    if first == l { assert c in Holders(s.calls, l); }
  }

  /** Only a renewal raises the potential, by at most what may be pending. */
  lemma PotentialStep(policy: Policy, s: State, st: Statement, l: nat, bound: nat)
    requires l < |s.db.loans| && ListsInOrder(s) && |Holders(s.calls, l)| <= bound
    ensures var t := Step(policy, s, st);
            l < |t.db.loans| && s.db.loans[l].renewals <= t.db.loans[l].renewals <= s.db.loans[l].renewals + 1 &&
            Potential(t, l, bound) <=
              Potential(s, l, bound) + if t.db.loans[l].renewals > s.db.loans[l].renewals then bound else 0
  {
    match st
    case ReadDue(c, asOf) => SweepReadsActiveLoans(policy, s, c, asOf, l);
    case WriteOverdue(c) => if WritesOverdue(s, c) { SweepWriteKeepsPotential(policy, s, c, l, bound); }
    case _ => OnlySweepsMoveHolders(policy, s, st, l);
  }

  lemma OneMoreRenewal(bound: nat, renewals: nat)
    ensures bound * (renewals + 1) == bound * renewals + bound
  {
  }

  /**
   With at most K sweeps at once holding the loan, it is reported at most K times for being active at the
   start and K times for each renewal, besides the reports pending at the start.
   */
  lemma {:induction false} EventsAreBounded(policy: Policy, s: State, schedule: seq<Statement>, l: nat, bound: nat)
    requires l < |s.db.loans| && ListsInOrder(s) && AtMostHolding(policy, s, schedule, l, bound)
    ensures var t := Run(policy, s, schedule);
            l < |t.db.loans| &&
            Potential(t, l, bound) + bound * s.db.loans[l].renewals <=
            Potential(s, l, bound) + bound * t.db.loans[l].renewals
    decreases |schedule|
  {
    if schedule != [] {
      var t := Step(policy, s, schedule[0]);
      PotentialStep(policy, s, schedule[0], l, bound);
      ListsStayInOrder(policy, s, schedule[0]);
      OneMoreRenewal(bound, s.db.loans[l].renewals);
      EventsAreBounded(policy, t, schedule[1..], l, bound);
    }
  }

  lemma RenewalsGained(bound: int, before: int, after: int)
    ensures bound * (1 + after - before) == bound + bound * after - bound * before
  {
  }

  /** So an active loan is reported at most K times more than K times the renewals it gets. */
  lemma ReportsOfAnActiveLoan(policy: Policy, s: State, schedule: seq<Statement>, l: nat, bound: nat)
    requires l < |s.db.loans| && ListsInOrder(s) && AtMostHolding(policy, s, schedule, l, bound)
    requires s.db.loans[l].status == Active
    ensures var t := Run(policy, s, schedule);
            l < |t.db.loans| &&
            EventsOf(t.overdueEvents, l) <=
            EventsOf(s.overdueEvents, l) + bound * (1 + t.db.loans[l].renewals - s.db.loans[l].renewals)
  {
    EventsAreBounded(policy, s, schedule, l, bound);
    var before, after := s.db.loans[l].renewals, Run(policy, s, schedule).db.loans[l].renewals;
    RenewalsGained(bound, before, after);
  }
}
