/**
 What enqueue calls and rows have to do with each other, and how, under the full key, a resource jams for
 good.
 */
module HoldQueueProgress {
  import opened Common
  import opened StateMachines
  import opened HoldQueue

  // ---------- calls and their ends ----------

  /** How a call is counted for its resource. */
  datatype Tally = Asked | Answered | Refused

  predicate CountsAs(kind: Tally, call: Call, resource: int) {
    call.resource == resource &&
    match kind
    case Asked => true
    case Answered => call.phase.Enqueued?
    case Refused => call.phase.GaveUp?
  }

  function CountCalls(kind: Tally, calls: seq<Call>, resource: int): nat {
    if calls == [] then 0 else
      CountCalls(kind, calls[..|calls| - 1], resource) + One(CountsAs(kind, calls[|calls| - 1], resource))
  }

  lemma {:induction false} CountAfterPhase(kind: Tally, calls: seq<Call>, c: nat, phase: Phase, resource: int)
    requires c < |calls|
    ensures CountCalls(kind, WithPhase(calls, c, phase), resource) + One(CountsAs(kind, calls[c], resource))
         == CountCalls(kind, calls, resource) + One(CountsAs(kind, calls[c].(phase := phase), resource))
  {
    var n := |calls| - 1;
    if c < n {
      assert WithPhase(calls, c, phase)[..n] == WithPhase(calls[..n], c, phase);
      CountAfterPhase(kind, calls[..n], c, phase, resource);
    } else {
      assert WithPhase(calls, c, phase)[..n] == calls[..n];
    }
  }

  lemma CountAfterArrival(kind: Tally, calls: seq<Call>, call: Call, resource: int)
    ensures CountCalls(kind, calls + [call], resource) ==
            CountCalls(kind, calls, resource) + One(CountsAs(kind, call, resource))
  {
    assert (calls + [call])[..|calls|] == calls;
  }

  lemma {:induction false} SettledAtMostAsked(calls: seq<Call>, resource: int)
    ensures CountCalls(Answered, calls, resource) + CountCalls(Refused, calls, resource)
         <= CountCalls(Asked, calls, resource)
  {
    if calls != [] { SettledAtMostAsked(calls[..|calls| - 1], resource); }
  }

  // ---------- what raises the highest active position ----------

  lemma StatusMoveLowersMax(rows: seq<Reservation>, i: nat, to: ReservationStatus, resource: int)
    ensures MaxActive(ChangeStatusOf(rows, i, to), resource) <= MaxActive(rows, resource)
  {
    var later := ChangeStatusOf(rows, i, to);
    var m := MaxActive(later, resource);
    if m > 0 {
      var j :| 0 <= j < |later| && IsActiveFor(later[j], resource) && later[j].position == m;
      assert IsActiveFor(rows[j], resource);
    }
  }

  lemma AppendKeepsOtherMax(rows: seq<Reservation>, row: Reservation, resource: int)
    requires row.resource != resource
    ensures MaxActive(rows + [row], resource) == MaxActive(rows, resource)
  {
    assert (rows + [row])[..|rows|] == rows;
  }

  lemma CollisionNeedsRival(rows: seq<Reservation>, resource: int, position: nat)
    requires MaxActive(rows, resource) < position
    ensures !Collides(ActiveKey, rows, resource, position)
  {
  }

  lemma {:induction false} RunAppend(key: UniqueKey, s: State, a: seq<Statement>, b: seq<Statement>)
    ensures Run(key, s, a + b) == Run(key, Run(key, s, a), b)
    decreases |a|
  {
    if a == [] {
      assert a + b == b;
    } else {
      assert (a + b)[1..] == a[1..] + b;
      RunAppend(key, Step(key, s, a[0]), a[1..], b);
    }
  }

  // ---------- either key: as many new rows as calls answered ----------

  lemma StatusWriteKeepsIssued(rows: seq<Reservation>, i: nat, to: ReservationStatus, resource: int)
    requires i < |rows|
    ensures IssuedFor(WithStatus(rows, i, to), resource) == IssuedFor(rows, resource)
  {
    IssuedIgnoresStatus(rows, WithStatus(rows, i, to), resource);
  }

  lemma RowPerAnswerInsert(key: UniqueKey, s: State, c: nat, resource: int)
    requires c < |s.calls|
    ensures var t := InsertStep(key, s, c);
            IssuedFor(t.rows, resource) + CountCalls(Answered, s.calls, resource) ==
            IssuedFor(s.rows, resource) + CountCalls(Answered, t.calls, resource)
  {
    if s.calls[c].phase.Inserting? {
      var t := InsertStep(key, s, c);
      CountAfterPhase(Answered, s.calls, c, t.calls[c].phase, resource);
      if |t.rows| > |s.rows| { IssuedAppend(s.rows, t.rows[|s.rows|], resource); }
    }
  }

  lemma RowPerAnswerStep(key: UniqueKey, s: State, st: Statement, resource: int)
    ensures var t := Step(key, s, st);
            IssuedFor(t.rows, resource) + CountCalls(Answered, s.calls, resource) ==
            IssuedFor(s.rows, resource) + CountCalls(Answered, t.calls, resource)
  {
    match st
    case Arrive(r, member) => CountAfterArrival(Answered, s.calls, Call(r, member, Reading(0)), resource);
    case ReadMax(c) =>
      if c < |s.calls| { CountAfterPhase(Answered, s.calls, c, ReadStep(s, c).calls[c].phase, resource); }
    case TryInsert(c) => if c < |s.calls| { RowPerAnswerInsert(key, s, c, resource); }
    case ChangeStatus(i, to) => if i < |s.rows| { StatusWriteKeepsIssued(s.rows, i, to, resource); }
    case OverwriteStatus(i, to) => if i < |s.rows| { StatusWriteKeepsIssued(s.rows, i, to, resource); }
  }

  /** A run adds to a resource exactly one row for each call on it that it answers. */
  lemma {:induction false} RowPerAnsweredCall(key: UniqueKey, s: State, schedule: seq<Statement>, resource: int)
    ensures var t := Run(key, s, schedule);
            IssuedFor(t.rows, resource) + CountCalls(Answered, s.calls, resource) ==
            IssuedFor(s.rows, resource) + CountCalls(Answered, t.calls, resource)
    decreases |schedule|
  {
    if schedule != [] {
      RowPerAnswerStep(key, s, schedule[0], resource);
      RowPerAnsweredCall(key, Step(key, s, schedule[0]), schedule[1..], resource);
    }
  }

  /**
   From an empty table under the full key, the positions held on a resource are exactly 1 to the number of
   calls on it answered so far.
   */
  lemma PositionsCountAnsweredCalls(schedule: seq<Statement>, resource: int)
    ensures var t := Run(FullKey, State([], []), schedule);
            Gapless(t.rows) &&
            forall p: nat :: Holds(t.rows, resource, p) <==> 1 <= p <= CountCalls(Answered, t.calls, resource)
  {
    FullKeyRunIsGapless(State([], []), schedule);
    RowPerAnsweredCall(FullKey, State([], []), schedule, resource);
    IssuedPositionsAreOneToN(Run(FullKey, State([], []), schedule).rows, resource);
  }

  // ---------- full key ----------

  /** The newest position of the resource belongs to a row that left the queue. */
  ghost predicate LastIssuedIsDead(rows: seq<Reservation>, resource: int) {
    exists i | 0 <= i < |rows| ::
      rows[i].resource == resource && rows[i].position == IssuedFor(rows, resource) && !IsActive(rows[i].status)
  }

  /** The newest row is dead and no call still holds the next free position from an earlier read. */
  ghost predicate Jammed(s: State, resource: int) {
    LastIssuedIsDead(s.rows, resource) &&
    forall c | 0 <= c < |s.calls| && s.calls[c].resource == resource && s.calls[c].phase.Inserting? ::
      s.calls[c].phase.next <= IssuedFor(s.rows, resource)
  }

  lemma BelowIssuedMeansDead(rows: seq<Reservation>, resource: int)
    requires Gapless(rows) && MaxActive(rows, resource) < IssuedFor(rows, resource)
    ensures LastIssuedIsDead(rows, resource)
  {
    IssuedPositionsAreOneToN(rows, resource);
    assert Holds(rows, resource, IssuedFor(rows, resource));
    var i :| 0 <= i < |rows| && rows[i].resource == resource && rows[i].position == IssuedFor(rows, resource);
    assert !IsActiveFor(rows[i], resource);
  }

  lemma AtIssuedMeansAlive(rows: seq<Reservation>, resource: int, i: nat)
    requires Gapless(rows) && MaxActive(rows, resource) == IssuedFor(rows, resource)
    requires i < |rows| && rows[i].resource == resource && rows[i].position == IssuedFor(rows, resource)
    ensures IsActive(rows[i].status)
  {
    assert IsNextInLine(rows, i);
    var j :| 0 <= j < |rows| && IsActiveFor(rows[j], resource) && rows[j].position == rows[i].position;
    if i < j {
      CommitOrderIsQueueOrder(rows, i, j);
    } else if j < i {
      CommitOrderIsQueueOrder(rows, j, i);
    }
  }

  lemma MaxActiveReachesIssued(rows: seq<Reservation>, resource: int)
    requires Gapless(rows)
    ensures MaxActive(rows, resource) < IssuedFor(rows, resource) <==> LastIssuedIsDead(rows, resource)
  {
    MaxActiveAtMostIssued(rows, resource);
    if MaxActive(rows, resource) < IssuedFor(rows, resource) {
      BelowIssuedMeansDead(rows, resource);
    } else {
      forall i | 0 <= i < |rows| && rows[i].resource == resource && rows[i].position == IssuedFor(rows, resource)
        ensures IsActive(rows[i].status)
      {
        AtIssuedMeansAlive(rows, resource, i);
      }
    }
  }

  lemma StatusMoveKeepsLastDead(rows: seq<Reservation>, i: nat, to: ReservationStatus, resource: int)
    requires LastIssuedIsDead(rows, resource)
    ensures LastIssuedIsDead(ChangeStatusOf(rows, i, to), resource)
    ensures IssuedFor(ChangeStatusOf(rows, i, to), resource) == IssuedFor(rows, resource)
  {
    var later := ChangeStatusOf(rows, i, to);
    IssuedIgnoresStatus(rows, later, resource);
    var j :| 0 <= j < |rows| && rows[j].resource == resource &&
             rows[j].position == IssuedFor(rows, resource) && !IsActive(rows[j].status);
    assert later[j] == rows[j];
  }

  lemma AppendKeepsLastDead(rows: seq<Reservation>, row: Reservation, resource: int)
    requires LastIssuedIsDead(rows, resource) && row.resource != resource
    ensures LastIssuedIsDead(rows + [row], resource)
    ensures IssuedFor(rows + [row], resource) == IssuedFor(rows, resource)
  {
    IssuedAppend(rows, row, resource);
    var j :| 0 <= j < |rows| && rows[j].resource == resource &&
             rows[j].position == IssuedFor(rows, resource) && !IsActive(rows[j].status);
    assert (rows + [row])[j] == rows[j];
  }

  lemma JammedInsert(s: State, c: nat, resource: int)
    requires FullKeyInv(s) && Jammed(s, resource) && c < |s.calls|
    ensures var t := InsertStep(FullKey, s, c);
            Jammed(t, resource) && IssuedFor(t.rows, resource) == IssuedFor(s.rows, resource) &&
            CountCalls(Answered, t.calls, resource) == CountCalls(Answered, s.calls, resource)
  {
    var call := s.calls[c];
    if call.phase.Inserting? {
      var t := InsertStep(FullKey, s, c);
      CountAfterPhase(Answered, s.calls, c, t.calls[c].phase, resource);
      FullKeyCollides(s.rows, call.resource, call.phase.next);
      if call.resource != resource && |t.rows| > |s.rows| {
        AppendKeepsLastDead(s.rows, t.rows[|s.rows|], resource);
      }
    }
  }

  lemma JammedRead(s: State, c: nat, resource: int)
    requires FullKeyInv(s) && Jammed(s, resource) && c < |s.calls|
    ensures Jammed(ReadStep(s, c), resource)
    ensures CountCalls(Answered, ReadStep(s, c).calls, resource) == CountCalls(Answered, s.calls, resource)
  {
    CountAfterPhase(Answered, s.calls, c, ReadStep(s, c).calls[c].phase, resource);
    MaxActiveReachesIssued(s.rows, resource);
  }

  lemma JammedArrive(s: State, r: int, member: int, resource: int)
    requires Jammed(s, resource)
    ensures var t := Step(FullKey, s, Arrive(r, member));
            Jammed(t, resource) && t.rows == s.rows &&
            CountCalls(Answered, t.calls, resource) == CountCalls(Answered, s.calls, resource)
  {
    CountAfterArrival(Answered, s.calls, Call(r, member, Reading(0)), resource);
  }

  lemma JammedStatusMove(s: State, i: nat, to: ReservationStatus, resource: int)
    requires Jammed(s, resource)
    ensures var t := Step(FullKey, s, ChangeStatus(i, to));
            Jammed(t, resource) && IssuedFor(t.rows, resource) == IssuedFor(s.rows, resource) && t.calls == s.calls
  {
    StatusMoveKeepsLastDead(s.rows, i, to, resource);
  }

  lemma JammedStep(s: State, st: Statement, resource: int)
    requires FullKeyInv(s) && Jammed(s, resource) && !st.OverwriteStatus?
    ensures var t := Step(FullKey, s, st);
            Jammed(t, resource) && IssuedFor(t.rows, resource) == IssuedFor(s.rows, resource) &&
            CountCalls(Answered, t.calls, resource) == CountCalls(Answered, s.calls, resource)
  {
    match st
    case Arrive(r, member) => JammedArrive(s, r, member, resource);
    case ReadMax(c) => if c < |s.calls| { JammedRead(s, c, resource); }
    case TryInsert(c) => if c < |s.calls| { JammedInsert(s, c, resource); }
    case ChangeStatus(i, to) => JammedStatusMove(s, i, to, resource);
  }

  /** A jammed resource stays jammed: whatever follows, no call on it ever gets a row again. */
  lemma {:induction false} JamIsForever(s: State, schedule: seq<Statement>, resource: int)
    requires FullKeyInv(s) && Jammed(s, resource) && WholeSteps(schedule)
    ensures var t := Run(FullKey, s, schedule);
            Jammed(t, resource) && IssuedFor(t.rows, resource) == IssuedFor(s.rows, resource) &&
            CountCalls(Answered, t.calls, resource) == CountCalls(Answered, s.calls, resource)
    decreases |schedule|
  {
    if schedule != [] {
      JammedStep(s, schedule[0], resource);
      FullKeyStep(s, schedule[0]);
      JamIsForever(Step(FullKey, s, schedule[0]), schedule[1..], resource);
    }
  }

  lemma StaleReaderGetsThrough(s: State, c: nat)
    requires FullKeyInv(s) && c < |s.calls| && s.calls[c].phase.Inserting?
    requires s.calls[c].phase.next > IssuedFor(s.rows, s.calls[c].resource)
    ensures var resource := s.calls[c].resource;
            IssuedFor(Run(FullKey, s, [TryInsert(c)]).rows, resource) > IssuedFor(s.rows, resource)
  {
    var call := s.calls[c];
    FullKeyCollides(s.rows, call.resource, call.phase.next);
    IssuedAppend(s.rows, Reservation(call.resource, call.member, call.phase.next, Queued), call.resource);
    assert [TryInsert(c)][1..] == [];
    assert Run(FullKey, s, [TryInsert(c)]) == Step(FullKey, s, TryInsert(c));
  }

  lemma NewcomerGetsThrough(s: State, resource: int)
    requires FullKeyInv(s) && !LastIssuedIsDead(s.rows, resource)
    ensures var n := |s.calls|;
            IssuedFor(Run(FullKey, s, [Arrive(resource, 0), ReadMax(n), TryInsert(n)]).rows, resource)
            > IssuedFor(s.rows, resource)
  {
    var n := |s.calls|;
    MaxActiveReachesIssued(s.rows, resource);
    var s1 := Step(FullKey, s, Arrive(resource, 0));
    var s2 := Step(FullKey, s1, ReadMax(n));
    FullKeyStep(s, Arrive(resource, 0));
    FullKeyStep(s1, ReadMax(n));
    StaleReaderGetsThrough(s2, n);
    var sts := [Arrive(resource, 0), ReadMax(n), TryInsert(n)];
    assert sts[1..][1..] == [TryInsert(n)];
    assert Run(FullKey, s1, sts[1..]) == Run(FullKey, s2, [TryInsert(n)]);
  }

  /** Some continuation gives the resource one more row exactly when it is not jammed. */
  lemma JamIsExact(s: State, resource: int)
    requires FullKeyInv(s)
    ensures Jammed(s, resource) <==>
            !exists schedule :: WholeSteps(schedule) &&
              IssuedFor(Run(FullKey, s, schedule).rows, resource) > IssuedFor(s.rows, resource)
  {
    if Jammed(s, resource) {
      forall schedule | WholeSteps(schedule)
        ensures IssuedFor(Run(FullKey, s, schedule).rows, resource) == IssuedFor(s.rows, resource)
      {
        JamIsForever(s, schedule, resource);
      }
    } else if !LastIssuedIsDead(s.rows, resource) {
      NewcomerGetsThrough(s, resource);
      var n := |s.calls|;
      assert WholeSteps([Arrive(resource, 0), ReadMax(n), TryInsert(n)]);
    } else {
      var c :| 0 <= c < |s.calls| && s.calls[c].resource == resource && s.calls[c].phase.Inserting? &&
               s.calls[c].phase.next > IssuedFor(s.rows, resource);
      StaleReaderGetsThrough(s, c);
      assert WholeSteps([TryInsert(c)]);
    }
  }

  /**
   That status moves are whole steps matters: a ready-mark that checked the newest row before its cancel
   and writes after it brings the row back, and with it the queue.
   */
  lemma LateReadyMarkUnjams(s: State, i: nat)
    requires FullKeyInv(s) && i < |s.rows| && Jammed(s, s.rows[i].resource)
    requires s.rows[i].position == IssuedFor(s.rows, s.rows[i].resource)
    ensures !Jammed(Step(FullKey, s, OverwriteStatus(i, ReadyForPickup)), s.rows[i].resource)
  {
    var resource := s.rows[i].resource;
    var t := Step(FullKey, s, OverwriteStatus(i, ReadyForPickup));
    FullKeyStatusWrite(s, i, ReadyForPickup);
    assert IsActiveFor(t.rows[i], resource);
    MaxActiveReachesIssued(t.rows, resource);
  }
}
