/**
 How far interleaved renewals of one loan can push its renewal count and its due date.
 */
module Renewals {
  import opened Common
  import opened Circulation
  import opened RaceWitnesses

  /** The renew calls that passed their checks on the loan and have not written yet. */
  function InFlight(calls: map<nat, Pending>, l: nat): set<nat> {
    set c | c in calls && calls[c].Renewing? && calls[c].loan == l
  }

  ghost predicate AtMostInFlight(policy: Policy, s: State, schedule: seq<Statement>, l: nat, bound: nat)
    decreases |schedule|
  {
    |InFlight(s.calls, l)| <= bound &&
    (schedule == [] || AtMostInFlight(policy, Step(policy, s, schedule[0]), schedule[1..], l, bound))
  }

  /** Only the two statements of a renewal start or end one. */
  lemma OtherStatementsKeepInFlight(policy: Policy, s: State, st: Statement, l: nat)
    requires !st.ReadLoanToRenew? && !st.WriteRenewal? && l < |s.db.loans|
    ensures InFlight(Step(policy, s, st).calls, l) == InFlight(s.calls, l)
    ensures l < |Step(policy, s, st).db.loans| && Step(policy, s, st).db.loans[l].renewals == s.db.loans[l].renewals
  {
    var t := Step(policy, s, st);
    assert forall c :: (c in t.calls && t.calls[c].Renewing?) <==> (c in s.calls && s.calls[c].Renewing?);
  }

  lemma RenewalWriteMovesInFlight(policy: Policy, s: State, c: nat, l: nat)
    requires l < |s.db.loans|
    ensures var t := Step(policy, s, WriteRenewal(c));
            |t.db.loans| == |s.db.loans| &&
            t.db.loans[l].renewals + |InFlight(t.calls, l)| == s.db.loans[l].renewals + |InFlight(s.calls, l)|
  {
    if WritesRenewal(s, c) {
      assert InFlight(s.calls - {c}, l) ==
             if s.calls[c].loan == l then InFlight(s.calls, l) - {c} else InFlight(s.calls, l);
    }
  }

  lemma RenewalReadStartsBelowCap(policy: Policy, s: State, c: nat, k: nat, blocked: bool, l: nat)
    requires l < |s.db.loans|
    ensures var t := Step(policy, s, ReadLoanToRenew(c, k, blocked));
            t.db == s.db &&
            (InFlight(t.calls, l) == InFlight(s.calls, l) || s.db.loans[l].renewals < policy.maxRenewals)
  {
    var t := Step(policy, s, ReadLoanToRenew(c, k, blocked));
    if k != l { assert InFlight(t.calls, l) == InFlight(s.calls, l); }
  }

  /** A step starts a renewal below the cap or leaves renewals done plus renewals in flight no greater. */
  lemma InFlightStep(policy: Policy, s: State, st: Statement, l: nat)
    requires l < |s.db.loans|
    ensures var t := Step(policy, s, st);
            l < |t.db.loans| &&
            (t.db.loans[l].renewals + |InFlight(t.calls, l)| <= s.db.loans[l].renewals + |InFlight(s.calls, l)| ||
             (s.db.loans[l].renewals < policy.maxRenewals && t.db.loans[l].renewals == s.db.loans[l].renewals))
  {
    if st.ReadLoanToRenew? {
      RenewalReadStartsBelowCap(policy, s, st.call, st.loan, st.blocked, l);
    } else if st.WriteRenewal? {
      RenewalWriteMovesInFlight(policy, s, st.call, l);
    } else {
      OtherStatementsKeepInFlight(policy, s, st, l);
    }
  }

  /**
   With at most P renewals of the loan in flight at any time, its count never passes maxRenewals - 1 + P;
   one at a time keeps the cap exactly.
   */
  lemma {:induction false} RenewalCountIsBounded(policy: Policy, s: State, schedule: seq<Statement>, l: nat, bound: nat)
    requires l < |s.db.loans| && bound >= 1
    requires s.db.loans[l].renewals + |InFlight(s.calls, l)| <= policy.maxRenewals - 1 + bound
    requires AtMostInFlight(policy, s, schedule, l, bound)
    ensures l < |Run(policy, s, schedule).db.loans|
    ensures Run(policy, s, schedule).db.loans[l].renewals <= policy.maxRenewals - 1 + bound
    decreases |schedule|
  {
    if schedule != [] {
      InFlightStep(policy, s, schedule[0], l);
      RenewalCountIsBounded(policy, Step(policy, s, schedule[0]), schedule[1..], l, bound);
    }
  }

  function DueAfter(policy: Policy, start: int, renewals: nat): int {
    start + renewals * policy.duration
  }

  lemma OneMoreExtension(policy: Policy, start: int, renewals: nat)
    ensures DueAfter(policy, start, renewals + 1) == DueAfter(policy, start, renewals) + policy.duration
  {
    assert (renewals + 1) * policy.duration == renewals * policy.duration + policy.duration;
  }

  ghost predicate DueAtMost(policy: Policy, s: State, l: nat, start: int) {
    l < |s.db.loans| &&
    s.db.loans[l].dueAt <= DueAfter(policy, start, s.db.loans[l].renewals) &&
    forall c | c in InFlight(s.calls, l) :: s.calls[c].dueAt <= DueAfter(policy, start, s.db.loans[l].renewals)
  }

  lemma DueAtMostStep(policy: Policy, s: State, st: Statement, l: nat, start: int)
    requires DueAtMost(policy, s, l, start)
    ensures DueAtMost(policy, Step(policy, s, st), l, start)
  {
    OneMoreExtension(policy, start, s.db.loans[l].renewals);
    var t := Step(policy, s, st);
    forall c | c in InFlight(t.calls, l)
      ensures t.calls[c].dueAt <= DueAfter(policy, start, t.db.loans[l].renewals)
    {
      if c in InFlight(s.calls, l) { assert s.calls[c].dueAt <= DueAfter(policy, start, s.db.loans[l].renewals); }
    }
    if st.WriteRenewal? && WritesRenewal(s, st.call) && s.calls[st.call].loan == l {
      assert st.call in InFlight(s.calls, l);
    }
  }

  /** However renewals interleave, the due date never passes the original one plus one duration a renewal. */
  lemma {:induction false} DueDateIsBounded(policy: Policy, s: State, schedule: seq<Statement>, l: nat, start: int)
    requires DueAtMost(policy, s, l, start)
    ensures DueAtMost(policy, Run(policy, s, schedule), l, start)
    decreases |schedule|
  {
    if schedule != [] {
      DueAtMostStep(policy, s, schedule[0], l, start);
      DueDateIsBounded(policy, Step(policy, s, schedule[0]), schedule[1..], l, start);
    }
  }

  /** Every renewal counted so far has extended the due date, and a renewal in flight starts from it. */
  ghost predicate DueExactly(policy: Policy, s: State, l: nat, start: int) {
    l < |s.db.loans| &&
    s.db.loans[l].dueAt == DueAfter(policy, start, s.db.loans[l].renewals) &&
    forall c | c in InFlight(s.calls, l) :: s.calls[c].dueAt == s.db.loans[l].dueAt
  }

  lemma OnlyOneInFlight(calls: map<nat, Pending>, l: nat, c: nat)
    requires |InFlight(calls, l)| <= 1 && c in InFlight(calls, l)
    ensures InFlight(calls, l) == {c}
  {
    assert |InFlight(calls, l) - {c}| == 0;
  }

  lemma DueExactlyStep(policy: Policy, s: State, st: Statement, l: nat, start: int)
    requires DueExactly(policy, s, l, start) && |InFlight(s.calls, l)| <= 1
    ensures DueExactly(policy, Step(policy, s, st), l, start)
  {
    OneMoreExtension(policy, start, s.db.loans[l].renewals);
    var t := Step(policy, s, st);
    if st.WriteRenewal? && WritesRenewal(s, st.call) && s.calls[st.call].loan == l {
      OnlyOneInFlight(s.calls, l, st.call);
      assert InFlight(t.calls, l) == {};
    } else {
      forall c | c in InFlight(t.calls, l) ensures t.calls[c].dueAt == t.db.loans[l].dueAt {
        if c in InFlight(s.calls, l) { assert s.calls[c].dueAt == s.db.loans[l].dueAt; }
      }
    }
  }

  /** When renewals of the loan do not overlap, its due date is the original one plus a duration for each. */
  lemma {:induction false} DueDateIsExactWithoutOverlap(policy: Policy, s: State, schedule: seq<Statement>, l: nat,
                                                        start: int)
    requires DueExactly(policy, s, l, start) && AtMostInFlight(policy, s, schedule, l, 1)
    ensures DueExactly(policy, Run(policy, s, schedule), l, start)
    decreases |schedule|
  {
    if schedule != [] {
      DueExactlyStep(policy, s, schedule[0], l, start);
      DueDateIsExactWithoutOverlap(policy, Step(policy, s, schedule[0]), schedule[1..], l, start);
    }
  }

  // ---------- exactly when every extension counts ----------

  predicate DueMatches(policy: Policy, s: State, l: nat, start: int) {
    l < |s.db.loans| && s.db.loans[l].dueAt == DueAfter(policy, start, s.db.loans[l].renewals)
  }

  predicate RenewsLoan(s: State, st: Statement, l: nat) {
    st.WriteRenewal? && WritesRenewal(s, st.call) && s.calls[st.call].loan == l
  }

  /** A renewal of the loan that writes still finds the due date it read. */
  predicate IsCurrent(s: State, st: Statement, l: nat) {
    RenewsLoan(s, st, l) ==> s.calls[st.call].dueAt == s.db.loans[l].dueAt
  }

  lemma CurrentIsExact(policy: Policy, s: State, st: Statement, l: nat, start: int)
    requires DueMatches(policy, s, l, start)
    ensures DueMatches(policy, Step(policy, s, st), l, start) <==> IsCurrent(s, st, l)
  {
    OneMoreExtension(policy, start, s.db.loans[l].renewals);
  }

  ghost predicate AlwaysMatches(policy: Policy, s: State, schedule: seq<Statement>, l: nat, start: int)
    decreases |schedule|
  {
    DueMatches(policy, s, l, start) &&
    (schedule == [] || AlwaysMatches(policy, Step(policy, s, schedule[0]), schedule[1..], l, start))
  }

  predicate AllCurrent(policy: Policy, s: State, schedule: seq<Statement>, l: nat)
    decreases |schedule|
  {
    schedule == [] ||
    (IsCurrent(s, schedule[0], l) && AllCurrent(policy, Step(policy, s, schedule[0]), schedule[1..], l))
  }

  /** The due date counts every renewal all along a run exactly when each renewal finds the date it read. */
  lemma {:induction false} DueDateMatchesExactlyWhenCurrent(policy: Policy, s: State, schedule: seq<Statement>, l: nat,
                                                            start: int)
    requires DueMatches(policy, s, l, start)
    ensures AlwaysMatches(policy, s, schedule, l, start) <==> AllCurrent(policy, s, schedule, l)
    decreases |schedule|
  {
    if schedule != [] {
      CurrentIsExact(policy, s, schedule[0], l, start);
      if IsCurrent(s, schedule[0], l) {
        DueDateMatchesExactlyWhenCurrent(policy, Step(policy, s, schedule[0]), schedule[1..], l, start);
      }
    }
  }

  /** An extension is lost: the due date, and whatever a renewal in flight starts from, lags behind the count. */
  ghost predicate LagsBehind(policy: Policy, s: State, l: nat, start: int) {
    l < |s.db.loans| &&
    s.db.loans[l].dueAt < DueAfter(policy, start, s.db.loans[l].renewals) &&
    forall c | c in InFlight(s.calls, l) :: s.calls[c].dueAt < DueAfter(policy, start, s.db.loans[l].renewals)
  }

  lemma StaleRenewalLags(policy: Policy, s: State, st: Statement, l: nat, start: int)
    requires policy.duration > 0 && DueAtMost(policy, s, l, start)
    requires DueMatches(policy, s, l, start) && !IsCurrent(s, st, l)
    ensures LagsBehind(policy, Step(policy, s, st), l, start)
  {
    OneMoreExtension(policy, start, s.db.loans[l].renewals);
    var t := Step(policy, s, st);
    assert st.call in InFlight(s.calls, l);
    forall c | c in InFlight(t.calls, l)
      ensures t.calls[c].dueAt < DueAfter(policy, start, t.db.loans[l].renewals)
    {
      assert c in InFlight(s.calls, l);
    }
  }

  lemma LagStep(policy: Policy, s: State, st: Statement, l: nat, start: int)
    requires LagsBehind(policy, s, l, start)
    ensures LagsBehind(policy, Step(policy, s, st), l, start)
  {
    OneMoreExtension(policy, start, s.db.loans[l].renewals);
    var t := Step(policy, s, st);
    forall c | c in InFlight(t.calls, l)
      ensures t.calls[c].dueAt < DueAfter(policy, start, t.db.loans[l].renewals)
    {
      if c in InFlight(s.calls, l) { assert s.calls[c].dueAt < DueAfter(policy, start, s.db.loans[l].renewals); }
    }
    if RenewsLoan(s, st, l) { assert st.call in InFlight(s.calls, l); }
  }

  lemma {:induction false} LagIsForGood(policy: Policy, s: State, schedule: seq<Statement>, l: nat, start: int)
    requires LagsBehind(policy, s, l, start)
    ensures LagsBehind(policy, Run(policy, s, schedule), l, start)
    decreases |schedule|
  {
    if schedule != [] {
      LagStep(policy, s, schedule[0], l, start);
      LagIsForGood(policy, Step(policy, s, schedule[0]), schedule[1..], l, start);
    }
  }

  /**
   A lost extension is never made good: a run ends with the due date counting every renewal exactly when each
   renewal of the loan found the due date it had read.
   */
  lemma {:induction false} DueDateIsExact(policy: Policy, s: State, schedule: seq<Statement>, l: nat, start: int)
    requires policy.duration > 0 && DueAtMost(policy, s, l, start) && DueMatches(policy, s, l, start)
    ensures DueMatches(policy, Run(policy, s, schedule), l, start) <==> AllCurrent(policy, s, schedule, l)
    decreases |schedule|
  {
    if schedule != [] {
      if IsCurrent(s, schedule[0], l) {
        CurrentIsExact(policy, s, schedule[0], l, start);
        DueAtMostStep(policy, s, schedule[0], l, start);
        DueDateIsExact(policy, Step(policy, s, schedule[0]), schedule[1..], l, start);
      } else {
        StaleRenewalLags(policy, s, schedule[0], l, start);
        LagIsForGood(policy, Step(policy, s, schedule[0]), schedule[1..], l, start);
      }
    }
  }

  // ---------- exactly when the cap holds ----------

  /** A renewal of the loan that writes still finds a renewal free: the check it made when it read. */
  predicate FindsOneFree(policy: Policy, s: State, st: Statement, l: nat) {
    RenewsLoan(s, st, l) ==> s.db.loans[l].renewals < policy.maxRenewals
  }

  predicate AllFindOneFree(policy: Policy, s: State, schedule: seq<Statement>, l: nat)
    decreases |schedule|
  {
    schedule == [] ||
    (FindsOneFree(policy, s, schedule[0], l) &&
     AllFindOneFree(policy, Step(policy, s, schedule[0]), schedule[1..], l))
  }

  lemma RenewalsStep(policy: Policy, s: State, st: Statement, l: nat)
    requires l < |s.db.loans|
    ensures var t := Step(policy, s, st);
            l < |t.db.loans| && t.db.loans[l].renewals == s.db.loans[l].renewals + One(RenewsLoan(s, st, l))
  {
  }

  lemma {:induction false} RenewalsNeverFall(policy: Policy, s: State, schedule: seq<Statement>, l: nat)
    requires l < |s.db.loans|
    ensures var t := Run(policy, s, schedule);
            l < |t.db.loans| && s.db.loans[l].renewals <= t.db.loans[l].renewals
    decreases |schedule|
  {
    if schedule != [] {
      RenewalsStep(policy, s, schedule[0], l);
      RenewalsNeverFall(policy, Step(policy, s, schedule[0]), schedule[1..], l);
    }
  }

  /** A run keeps the renewal count within the cap exactly when every renewal that writes finds one free. */
  lemma {:induction false} CapHoldsExactly(policy: Policy, s: State, schedule: seq<Statement>, l: nat)
    requires l < |s.db.loans| && s.db.loans[l].renewals <= policy.maxRenewals
    ensures l < |Run(policy, s, schedule).db.loans|
    ensures Run(policy, s, schedule).db.loans[l].renewals <= policy.maxRenewals <==>
            AllFindOneFree(policy, s, schedule, l)
    decreases |schedule|
  {
    if schedule != [] {
      var t := Step(policy, s, schedule[0]);
      RenewalsStep(policy, s, schedule[0], l);
      RenewalsNeverFall(policy, t, schedule[1..], l);
      if FindsOneFree(policy, s, schedule[0], l) {
        CapHoldsExactly(policy, t, schedule[1..], l);
      }
    }
  }

  // ---------- the bound is reached ----------

  lemma {:induction false} RunInTurn(policy: Policy, s: State, a: seq<Statement>, b: seq<Statement>)
    ensures Run(policy, s, a + b) == Run(policy, Run(policy, s, a), b)
    decreases |a|
  {
    if a == [] {
      assert a + b == b;
    } else {
      assert (a + b)[0] == a[0] && (a + b)[1..] == a[1..] + b;
      RunInTurn(policy, Step(policy, s, a[0]), a[1..], b);
    }
  }

  lemma {:induction false} InFlightInTurn(policy: Policy, s: State, a: seq<Statement>, b: seq<Statement>, l: nat,
                                          bound: nat)
    requires AtMostInFlight(policy, s, a, l, bound) && AtMostInFlight(policy, Run(policy, s, a), b, l, bound)
    ensures AtMostInFlight(policy, s, a + b, l, bound)
    decreases |a|
  {
    if a == [] {
      assert a + b == b;
    } else {
      var t := Step(policy, s, a[0]);
      assert (a + b)[0] == a[0] && (a + b)[1..] == a[1..] + b;
      assert Run(policy, s, a) == Run(policy, t, a[1..]);
      InFlightInTurn(policy, t, a[1..], b, l, bound);
    }
  }

  lemma InTurn(policy: Policy, s: State, a: seq<Statement>, b: seq<Statement>, l: nat, bound: nat)
    requires AtMostInFlight(policy, s, a, l, bound) && AtMostInFlight(policy, Run(policy, s, a), b, l, bound)
    ensures AtMostInFlight(policy, s, a + b, l, bound) && Run(policy, s, a + b) == Run(policy, Run(policy, s, a), b)
  {
    InFlightInTurn(policy, s, a, b, l, bound);
    RunInTurn(policy, s, a, b);
  }

  /** The one loan after k renewals that did not overlap. */
  function Renewed(policy: Policy, k: nat): State {
    var s := OneCopyOnLoan();
    s.(db := s.db.(loans := [FIRST.(renewals := k, dueAt := DueAfter(policy, 0, k))]))
  }

  function WholeRenewals(k: nat): seq<Statement> {
    if k == 0 then [] else [ReadLoanToRenew(0, 0, false), WriteRenewal(0)] + WholeRenewals(k - 1)
  }

  lemma WholeRenewal(policy: Policy, k: nat)
    requires k < policy.maxRenewals
    ensures var s := Step(policy, Renewed(policy, k), ReadLoanToRenew(0, 0, false));
            |InFlight(s.calls, 0)| <= 1 && Step(policy, s, WriteRenewal(0)) == Renewed(policy, k + 1)
  {
    OneMoreExtension(policy, 0, k);
    var s := Step(policy, Renewed(policy, k), ReadLoanToRenew(0, 0, false));
    assert s.calls == map[0 := Renewing(0, DueAfter(policy, 0, k))];
    assert InFlight(s.calls, 0) == {0} && s.calls - {0} == map[];
  }

  lemma {:induction false} WholeRenewalsRenew(policy: Policy, from: nat, k: nat)
    requires from + k <= policy.maxRenewals
    ensures Run(policy, Renewed(policy, from), WholeRenewals(k)) == Renewed(policy, from + k)
    ensures AtMostInFlight(policy, Renewed(policy, from), WholeRenewals(k), 0, 1)
    decreases k
  {
    assert InFlight(Renewed(policy, from).calls, 0) == {};
    if k > 0 {
      WholeRenewal(policy, from);
      var s := Step(policy, Renewed(policy, from), ReadLoanToRenew(0, 0, false));
      var rest := WholeRenewals(k)[1..];
      assert rest[0] == WriteRenewal(0) && rest[1..] == WholeRenewals(k - 1);
      WholeRenewalsRenew(policy, from + 1, k - 1);
      assert Run(policy, s, rest) == Run(policy, Renewed(policy, from + 1), WholeRenewals(k - 1));
      assert AtMostInFlight(policy, s, rest, 0, 1);
    }
  }

  /** Calls 0..n-1 read the loan. */
  function Readers(n: nat): seq<Statement> {
    seq(n, i requires 0 <= i => ReadLoanToRenew(i, 0, false))
  }

  function Writers(from: nat, n: nat): seq<Statement>
    requires from <= n
  {
    seq(n - from, i requires 0 <= i => WriteRenewal(from + i))
  }

  function Range(from: nat, n: nat): (r: set<nat>)
    ensures forall c :: c in r <==> from <= c < n
    ensures from <= n ==> |r| == n - from
    decreases n - from
  {
    if from >= n then {} else {from} + Range(from + 1, n)
  }

  function AllRenewing(from: nat, n: nat, dueAt: int): map<nat, Pending> {
    map c | c in Range(from, n) :: Renewing(0, dueAt)
  }

  lemma FewRenewing(from: nat, n: nat, dueAt: int, bound: nat)
    requires from <= n <= bound
    ensures |InFlight(AllRenewing(from, n, dueAt), 0)| <= bound
  {
    assert InFlight(AllRenewing(from, n, dueAt), 0) == Range(from, n);
  }

  /** Calls 0..n-1 have read the loan after k renewals and none has written. */
  function Overlapping(policy: Policy, k: nat, n: nat): State {
    Renewed(policy, k).(calls := AllRenewing(0, n, DueAfter(policy, 0, k)))
  }

  lemma ReaderReads(policy: Policy, k: nat, n: nat)
    requires k < policy.maxRenewals
    ensures Step(policy, Overlapping(policy, k, n), ReadLoanToRenew(n, 0, false)) == Overlapping(policy, k, n + 1)
  {
    var dueAt := DueAfter(policy, 0, k);
    assert AllRenewing(0, n, dueAt)[n := Renewing(0, dueAt)] == AllRenewing(0, n + 1, dueAt);
  }

  lemma {:induction false} ReadersRead(policy: Policy, k: nat, from: nat, n: nat)
    requires k < policy.maxRenewals && from <= n
    ensures Run(policy, Overlapping(policy, k, from), Readers(n)[from..]) == Overlapping(policy, k, n)
    ensures AtMostInFlight(policy, Overlapping(policy, k, from), Readers(n)[from..], 0, n)
    decreases n - from
  {
    FewRenewing(0, from, DueAfter(policy, 0, k), n);
    if from < n {
      assert Readers(n)[from..][0] == ReadLoanToRenew(from, 0, false);
      assert Readers(n)[from..][1..] == Readers(n)[from + 1..];
      ReaderReads(policy, k, from);
      ReadersRead(policy, k, from + 1, n);
    }
  }

  /** The first j of those n calls have written. */
  function Drained(policy: Policy, k: nat, j: nat, n: nat): State {
    var dueAt := DueAfter(policy, 0, if j == 0 then k else k + 1);
    var s := OneCopyOnLoan();
    State(s.db.(loans := [FIRST.(renewals := k + j, dueAt := dueAt)]), AllRenewing(j, n, DueAfter(policy, 0, k)), [])
  }

  lemma WriterWrites(policy: Policy, k: nat, j: nat, n: nat)
    requires j < n
    ensures Step(policy, Drained(policy, k, j, n), WriteRenewal(j)) == Drained(policy, k, j + 1, n)
  {
    OneMoreExtension(policy, 0, k);
    var s, dueAt := Drained(policy, k, j, n), DueAfter(policy, 0, k);
    assert j in s.calls;
    assert s.calls - {j} == AllRenewing(j + 1, n, dueAt);
  }

  lemma {:induction false} WritersWrite(policy: Policy, k: nat, j: nat, n: nat)
    requires j <= n
    ensures Run(policy, Drained(policy, k, j, n), Writers(j, n)) == Drained(policy, k, n, n)
    decreases n - j
  {
    if j < n {
      assert Writers(j, n)[0] == WriteRenewal(j) && Writers(j, n)[1..] == Writers(j + 1, n);
      WriterWrites(policy, k, j, n);
      WritersWrite(policy, k, j + 1, n);
    }
  }

  lemma FewFromHere(policy: Policy, s: State, t: State, schedule: seq<Statement>, l: nat, bound: nat)
    requires schedule != [] && t == Step(policy, s, schedule[0])
    requires |InFlight(s.calls, l)| <= bound && AtMostInFlight(policy, t, schedule[1..], l, bound)
    ensures AtMostInFlight(policy, s, schedule, l, bound)
  {
  }

  lemma {:induction false} WritersAreFew(policy: Policy, k: nat, j: nat, n: nat)
    requires j <= n
    ensures AtMostInFlight(policy, Drained(policy, k, j, n), Writers(j, n), 0, n)
    decreases n - j
  {
    FewRenewing(j, n, DueAfter(policy, 0, k), n);
    if j < n {
      assert Writers(j, n)[0] == WriteRenewal(j) && Writers(j, n)[1..] == Writers(j + 1, n);
      WriterWrites(policy, k, j, n);
      WritersAreFew(policy, k, j + 1, n);
      FewFromHere(policy, Drained(policy, k, j, n), Drained(policy, k, j + 1, n), Writers(j, n), 0, n);
    }
  }

  lemma {:induction false} MoreMayBeInFlight(policy: Policy, s: State, schedule: seq<Statement>, l: nat, bound: nat,
                                             more: nat)
    requires AtMostInFlight(policy, s, schedule, l, bound) && bound <= more
    ensures AtMostInFlight(policy, s, schedule, l, more)
    decreases |schedule|
  {
    if schedule != [] { MoreMayBeInFlight(policy, Step(policy, s, schedule[0]), schedule[1..], l, bound, more); }
  }

  /** P calls that all read the loan at its last free renewal before any of them writes. */
  lemma OverlapAtTheCap(policy: Policy, n: nat)
    requires policy.maxRenewals >= 1 && n >= 1
    ensures var k := policy.maxRenewals - 1;
            Run(policy, Overlapping(policy, k, 0), Readers(n) + Writers(0, n)) == Drained(policy, k, n, n) &&
            AtMostInFlight(policy, Overlapping(policy, k, 0), Readers(n) + Writers(0, n), 0, n)
  {
    var k := policy.maxRenewals - 1;
    assert Readers(n)[0..] == Readers(n);
    ReadersRead(policy, k, 0, n);
    assert Overlapping(policy, k, n) == Drained(policy, k, 0, n);
    WritersWrite(policy, k, 0, n);
    WritersAreFew(policy, k, 0, n);
    InTurn(policy, Overlapping(policy, k, 0), Readers(n), Writers(0, n), 0, n);
  }

  /**
   For every cap and every P the bound is reached with no more than P renewals in flight: after all renewals
   but one, P calls read before any of them writes. All but one of their extensions are lost.
   */
  lemma RenewalBoundIsReached(policy: Policy, n: nat) returns (schedule: seq<Statement>)
    requires policy.maxRenewals >= 1 && n >= 1
    ensures AtMostInFlight(policy, OneCopyOnLoan(), schedule, 0, n)
    ensures var t := Run(policy, OneCopyOnLoan(), schedule);
            |t.db.loans| == 1 && t.db.loans[0].renewals == policy.maxRenewals - 1 + n &&
            t.db.loans[0].dueAt == DueAfter(policy, 0, policy.maxRenewals)
  {
    var k := policy.maxRenewals - 1;
    assert OneCopyOnLoan() == Renewed(policy, 0) && Renewed(policy, k) == Overlapping(policy, k, 0);
    WholeRenewalsRenew(policy, 0, k);
    MoreMayBeInFlight(policy, OneCopyOnLoan(), WholeRenewals(k), 0, 1, n);
    OverlapAtTheCap(policy, n);
    schedule := WholeRenewals(k) + (Readers(n) + Writers(0, n));
    InTurn(policy, OneCopyOnLoan(), WholeRenewals(k), Readers(n) + Writers(0, n), 0, n);
  }
}
