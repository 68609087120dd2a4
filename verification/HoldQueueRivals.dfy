/**
 Enqueue calls and their rivals. As long as the next position of a resource is free to take, a call on it
 gives up only after five rivals got through since it started, under either key; and when the order of
 commits is the order of the queue.
 */
module HoldQueueRivals {
  import opened Common
  import opened StateMachines
  import opened HoldQueue
  import opened HoldQueueProgress

  /** A read finds a free position now: always under the active-only key, else unless the newest row died. */
  ghost predicate Alive(key: UniqueKey, rows: seq<Reservation>, resource: int) {
    key == FullKey ==> !LastIssuedIsDead(rows, resource)
  }

  ghost predicate StaysAlive(key: UniqueKey, s: State, schedule: seq<Statement>, resource: int)
    decreases |schedule|
  {
    Alive(key, s.rows, resource) &&
    (schedule == [] || StaysAlive(key, Step(key, s, schedule[0]), schedule[1..], resource))
  }

  ghost predicate KeyInv(key: UniqueKey, s: State) {
    key == FullKey ==> FullKeyInv(s)
  }

  /** Under the active-only key a status move is a whole step; under the full key it may also be late. */
  ghost predicate MovesAreWhole(key: UniqueKey, st: Statement) {
    key == ActiveKey ==> !st.OverwriteStatus?
  }

  /** The highest position the key keeps taken. */
  function Top(key: UniqueKey, rows: seq<Reservation>, resource: int): nat {
    match key
    case FullKey => IssuedFor(rows, resource)
    case ActiveKey => MaxActive(rows, resource)
  }

  lemma AboveTopIsFree(key: UniqueKey, rows: seq<Reservation>, resource: int, position: nat)
    requires key == FullKey ==> Gapless(rows)
    requires Top(key, rows, resource) < position
    ensures !Collides(key, rows, resource, position)
  {
    if key == FullKey { FullKeyCollides(rows, resource, position); }
  }

  lemma ReadsAboveTop(key: UniqueKey, rows: seq<Reservation>, resource: int)
    requires key == FullKey ==> Gapless(rows)
    requires Alive(key, rows, resource)
    ensures Top(key, rows, resource) < MaxActive(rows, resource) + 1
  {
    if key == FullKey { MaxActiveReachesIssued(rows, resource); }
  }

  /**
   A call has collided at most as often as rivals got through. While it holds a position to insert, either
   that position is still free or one more rival got through since the read.
   */
  ghost predicate RivalBound(key: UniqueKey, rows: seq<Reservation>, call: Call, through: nat) {
    match call.phase
    case Reading(attempt) => attempt < MAX_ENQUEUE_ATTEMPTS && attempt <= through
    case Inserting(attempt, next) =>
      attempt < MAX_ENQUEUE_ATTEMPTS && attempt <= through &&
      (Top(key, rows, call.resource) < next || attempt + 1 <= through)
    case GaveUp => MAX_ENQUEUE_ATTEMPTS <= through
    case Enqueued(_) => true
  }

  /** The call is still to come, or is at its first attempt and no rival has overtaken it, or was answered. */
  ghost predicate NotOvertaken(key: UniqueKey, s: State, c: nat) {
    c < |s.calls| ==> RivalBound(key, s.rows, s.calls[c], 0)
  }

  /** `base` calls on the resource had been answered when call c was not yet overtaken. */
  ghost predicate Bounded(key: UniqueKey, s: State, c: nat, resource: int, base: nat) {
    base <= CountCalls(Answered, s.calls, resource) &&
    (c < |s.calls| && s.calls[c].resource == resource ==>
       RivalBound(key, s.rows, s.calls[c], CountCalls(Answered, s.calls, resource) - base))
  }

  lemma BoundedArrive(key: UniqueKey, s: State, r: int, member: int, c: nat, resource: int, base: nat)
    requires Bounded(key, s, c, resource, base)
    ensures Bounded(key, Step(key, s, Arrive(r, member)), c, resource, base)
  {
    CountAfterArrival(Answered, s.calls, Call(r, member, Reading(0)), resource);
  }

  lemma BoundedRead(key: UniqueKey, s: State, d: nat, c: nat, resource: int, base: nat)
    requires Bounded(key, s, c, resource, base) && KeyInv(key, s) && Alive(key, s.rows, resource) && d < |s.calls|
    ensures Bounded(key, ReadStep(s, d), c, resource, base)
  {
    CountAfterPhase(Answered, s.calls, d, ReadStep(s, d).calls[d].phase, resource);
    ReadsAboveTop(key, s.rows, resource);
  }

  lemma TopOfOtherResource(key: UniqueKey, rows: seq<Reservation>, row: Reservation, resource: int)
    requires row.resource != resource
    ensures Top(key, rows + [row], resource) == Top(key, rows, resource)
  {
    AppendKeepsOtherMax(rows, row, resource);
    IssuedAppend(rows, row, resource);
  }

  /** The call's own insert: it gets through unless one more rival did. */
  lemma BoundedOwnInsert(key: UniqueKey, s: State, c: nat, resource: int, base: nat)
    requires Bounded(key, s, c, resource, base) && KeyInv(key, s)
    requires c < |s.calls| && s.calls[c].phase.Inserting?
    ensures Bounded(key, InsertStep(key, s, c), c, resource, base)
  {
    var call, t := s.calls[c], InsertStep(key, s, c);
    CountAfterPhase(Answered, s.calls, c, t.calls[c].phase, resource);
    if call.resource == resource && Top(key, s.rows, resource) < call.phase.next {
      AboveTopIsFree(key, s.rows, resource, call.phase.next);
    }
  }

  lemma RivalInsertKeepsBound(key: UniqueKey, s: State, d: nat, call: Call, through: nat, more: nat)
    requires d < |s.calls| && RivalBound(key, s.rows, call, through) && through <= more
    requires |InsertStep(key, s, d).rows| > |s.rows| && s.calls[d].resource == call.resource ==> through < more
    ensures RivalBound(key, InsertStep(key, s, d).rows, call, more)
  {
    var t := InsertStep(key, s, d);
    if |t.rows| > |s.rows| && s.calls[d].resource != call.resource {
      TopOfOtherResource(key, s.rows, t.rows[|s.rows|], call.resource);
    }
  }

  lemma BoundedInsert(key: UniqueKey, s: State, d: nat, c: nat, resource: int, base: nat)
    requires Bounded(key, s, c, resource, base) && KeyInv(key, s) && d < |s.calls| && s.calls[d].phase.Inserting?
    ensures Bounded(key, InsertStep(key, s, d), c, resource, base)
  {
    if c == d {
      BoundedOwnInsert(key, s, c, resource, base);
    } else {
      var t := InsertStep(key, s, d);
      CountAfterPhase(Answered, s.calls, d, t.calls[d].phase, resource);
      if c < |s.calls| && s.calls[c].resource == resource {
        var through := CountCalls(Answered, s.calls, resource) - base;
        RivalInsertKeepsBound(key, s, d, s.calls[c], through, CountCalls(Answered, t.calls, resource) - base);
      }
    }
  }

  lemma TopAfterMove(key: UniqueKey, s: State, st: Statement, resource: int)
    requires MovesAreWhole(key, st) && (st.ChangeStatus? || st.OverwriteStatus?)
    ensures Top(key, Step(key, s, st).rows, resource) <= Top(key, s.rows, resource)
  {
    if key == ActiveKey {
      StatusMoveLowersMax(s.rows, st.row, st.to, resource);
    } else if st.row < |s.rows| {
      StatusWriteKeepsIssued(s.rows, st.row, st.to, resource);
    }
  }

  lemma BoundedStep(key: UniqueKey, s: State, st: Statement, c: nat, resource: int, base: nat)
    requires Bounded(key, s, c, resource, base) && KeyInv(key, s) && Alive(key, s.rows, resource)
    requires MovesAreWhole(key, st)
    ensures Bounded(key, Step(key, s, st), c, resource, base) && KeyInv(key, Step(key, s, st))
  {
    if key == FullKey { FullKeyStep(s, st); }
    match st
    case Arrive(r, member) => BoundedArrive(key, s, r, member, c, resource, base);
    case ReadMax(d) => if d < |s.calls| { BoundedRead(key, s, d, c, resource, base); }
    case TryInsert(d) =>
      if d < |s.calls| && s.calls[d].phase.Inserting? { BoundedInsert(key, s, d, c, resource, base); }
    case ChangeStatus(_, _) => TopAfterMove(key, s, st, resource);
    case OverwriteStatus(_, _) => TopAfterMove(key, s, st, resource);
  }

  lemma {:induction false} BoundedRun(key: UniqueKey, s: State, schedule: seq<Statement>, c: nat, resource: int,
                                      base: nat)
    requires Bounded(key, s, c, resource, base) && KeyInv(key, s) && StaysAlive(key, s, schedule, resource)
    requires forall k | 0 <= k < |schedule| :: MovesAreWhole(key, schedule[k])
    ensures Bounded(key, Run(key, s, schedule), c, resource, base)
    decreases |schedule|
  {
    if schedule != [] {
      BoundedStep(key, s, schedule[0], c, resource, base);
      BoundedRun(key, Step(key, s, schedule[0]), schedule[1..], c, resource, base);
    }
  }

  /**
   From any state and under every schedule, a call that gives up was overtaken since then by five other calls
   on its resource, each of which inserted its row; under the full key, unless the newest row of the resource
   died on the way.
   */
  lemma GivesUpOnlyAfterFiveRivals(key: UniqueKey, s: State, schedule: seq<Statement>, c: nat)
    requires KeyInv(key, s) && NotOvertaken(key, s, c)
    requires forall k | 0 <= k < |schedule| :: MovesAreWhole(key, schedule[k])
    requires var t := Run(key, s, schedule);
             c < |t.calls| && t.calls[c].phase.GaveUp? && StaysAlive(key, s, schedule, t.calls[c].resource)
    ensures var t := Run(key, s, schedule);
            CountCalls(Answered, t.calls, t.calls[c].resource) >=
            CountCalls(Answered, s.calls, t.calls[c].resource) + MAX_ENQUEUE_ATTEMPTS
  {
    var resource := Run(key, s, schedule).calls[c].resource;
    BoundedRun(key, s, schedule, c, resource, CountCalls(Answered, s.calls, resource));
  }

  predicate IsRefused(s: State, c: nat, resource: int) {
    c < |s.calls| && CountsAs(Refused, s.calls[c], resource)
  }

  lemma RefusedInsert(key: UniqueKey, s: State, d: nat, c: nat, resource: int)
    requires d < |s.calls| && s.calls[d].phase.Inserting?
    ensures CountCalls(Refused, s.calls, resource) + One(IsRefused(InsertStep(key, s, d), c, resource)) <=
            CountCalls(Refused, InsertStep(key, s, d).calls, resource) + One(IsRefused(s, c, resource))
  {
    CountAfterPhase(Refused, s.calls, d, InsertStep(key, s, d).calls[d].phase, resource);
  }

  lemma RefusedStep(key: UniqueKey, s: State, st: Statement, c: nat, resource: int)
    ensures CountCalls(Refused, s.calls, resource) + One(IsRefused(Step(key, s, st), c, resource)) <=
            CountCalls(Refused, Step(key, s, st).calls, resource) + One(IsRefused(s, c, resource))
  {
    match st
    case Arrive(r, member) => CountAfterArrival(Refused, s.calls, Call(r, member, Reading(0)), resource);
    case ReadMax(d) =>
      if d < |s.calls| { CountAfterPhase(Refused, s.calls, d, ReadStep(s, d).calls[d].phase, resource); }
    case TryInsert(d) =>
      if d < |s.calls| && s.calls[d].phase.Inserting? { RefusedInsert(key, s, d, c, resource); }
    case _ =>
  }

  lemma {:induction false} RefusedRun(key: UniqueKey, s: State, schedule: seq<Statement>, c: nat, resource: int)
    ensures var t := Run(key, s, schedule);
            CountCalls(Refused, s.calls, resource) + One(IsRefused(t, c, resource)) <=
            CountCalls(Refused, t.calls, resource) + One(IsRefused(s, c, resource))
    decreases |schedule|
  {
    if schedule != [] {
      RefusedStep(key, s, schedule[0], c, resource);
      RefusedRun(key, Step(key, s, schedule[0]), schedule[1..], c, resource);
    }
  }

  // ---------- five reads and five inserts settle a call ----------

  /** The statement is the call's own next one. */
  predicate TakesTurn(s: State, st: Statement, c: nat) {
    c < |s.calls| &&
    ((st == ReadMax(c) && s.calls[c].phase.Reading?) || (st == TryInsert(c) && s.calls[c].phase.Inserting?))
  }

  function TurnsOf(key: UniqueKey, s: State, schedule: seq<Statement>, c: nat): nat
    decreases |schedule|
  {
    if schedule == [] then 0 else
      One(TakesTurn(s, schedule[0], c)) + TurnsOf(key, Step(key, s, schedule[0]), schedule[1..], c)
  }

  /** Five attempts of two statements each. */
  const ALL_TURNS: nat := 2 * MAX_ENQUEUE_ATTEMPTS

  /** The turns a call has behind it; all of them once it is settled, none before it arrives. */
  function TurnsTaken(s: State, c: nat): nat {
    if c >= |s.calls| then 0 else
      match s.calls[c].phase
      case Reading(attempt) => 2 * attempt
      case Inserting(attempt, _) => 2 * attempt + 1
      case Enqueued(_) => ALL_TURNS
      case GaveUp => ALL_TURNS
  }

  predicate IsSettled(s: State, c: nat) {
    c < |s.calls| && (s.calls[c].phase.Enqueued? || s.calls[c].phase.GaveUp?)
  }

  predicate InAttempts(s: State, c: nat) {
    IsSettled(s, c) || TurnsTaken(s, c) < ALL_TURNS
  }

  lemma TurnStep(key: UniqueKey, s: State, st: Statement, c: nat)
    requires InAttempts(s, c)
    ensures InAttempts(Step(key, s, st), c)
    ensures TurnsTaken(Step(key, s, st), c) >= TurnsTaken(s, c) + One(TakesTurn(s, st, c))
  {
    match st
    case Arrive(_, _) =>
    case ReadMax(_) =>
    case TryInsert(_) =>
    case _ =>
  }

  lemma {:induction false} TurnsAddUp(key: UniqueKey, s: State, schedule: seq<Statement>, c: nat)
    requires InAttempts(s, c)
    ensures var t := Run(key, s, schedule);
            InAttempts(t, c) && TurnsTaken(t, c) >= TurnsTaken(s, c) + TurnsOf(key, s, schedule, c)
    decreases |schedule|
  {
    if schedule != [] {
      TurnStep(key, s, schedule[0], c);
      TurnsAddUp(key, Step(key, s, schedule[0]), schedule[1..], c);
    }
  }

  /** A call that gets the turns it lacks is answered or gives up. */
  lemma TurnsSettle(key: UniqueKey, s: State, schedule: seq<Statement>, c: nat)
    requires InAttempts(s, c) && TurnsTaken(s, c) + TurnsOf(key, s, schedule, c) >= ALL_TURNS
    ensures IsSettled(Run(key, s, schedule), c)
  {
    TurnsAddUp(key, s, schedule, c);
  }

  // ---------- five calls at once ----------

  /** The calls on the resource that ended before s are not more than five short of all those in t. */
  ghost predicate AtMostFiveOpen(s: State, t: State, resource: int) {
    CountCalls(Asked, t.calls, resource) <=
    CountCalls(Answered, s.calls, resource) + CountCalls(Refused, s.calls, resource) + MAX_ENQUEUE_ATTEMPTS
  }

  /**
   Hence of at most five calls on a resource that are open at once or come later none gives up, and each is
   answered once it had its turns.
   */
  lemma FiveCallsNeverGiveUp(key: UniqueKey, s: State, schedule: seq<Statement>, c: nat)
    requires KeyInv(key, s) && NotOvertaken(key, s, c)
    requires forall k | 0 <= k < |schedule| :: MovesAreWhole(key, schedule[k])
    requires var t := Run(key, s, schedule);
             c < |t.calls| && AtMostFiveOpen(s, t, t.calls[c].resource) &&
             StaysAlive(key, s, schedule, t.calls[c].resource)
    ensures !Run(key, s, schedule).calls[c].phase.GaveUp?
    ensures TurnsTaken(s, c) + TurnsOf(key, s, schedule, c) >= ALL_TURNS ==>
              Run(key, s, schedule).calls[c].phase.Enqueued?
  {
    var t := Run(key, s, schedule);
    TurnsAddUp(key, s, schedule, c);
    if t.calls[c].phase.GaveUp? {
      GivesUpOnlyAfterFiveRivals(key, s, schedule, c);
      RefusedRun(key, s, schedule, c, t.calls[c].resource);
      SettledAtMostAsked(t.calls, t.calls[c].resource);
    }
  }

  // ---------- the full key: a queue nobody leaves stays alive ----------

  predicate Spares(rows: seq<Reservation>, st: Statement, resource: int) {
    (st.ChangeStatus? || st.OverwriteStatus?) && st.row < |rows| ==> rows[st.row].resource != resource
  }

  predicate AllSpare(key: UniqueKey, s: State, schedule: seq<Statement>, resource: int)
    decreases |schedule|
  {
    schedule == [] ||
    (Spares(s.rows, schedule[0], resource) && AllSpare(key, Step(key, s, schedule[0]), schedule[1..], resource))
  }

  lemma InsertKeepsAlive(s: State, c: nat, resource: int)
    requires FullKeyInv(s) && c < |s.calls| && !LastIssuedIsDead(s.rows, resource)
    ensures !LastIssuedIsDead(InsertStep(FullKey, s, c).rows, resource)
  {
    var call, t := s.calls[c], InsertStep(FullKey, s, c);
    if |t.rows| > |s.rows| {
      var row := t.rows[|s.rows|];
      IssuedAppend(s.rows, row, resource);
      IssuedPositionsAreOneToN(s.rows, resource);
      forall i | 0 <= i < |t.rows| && t.rows[i].resource == resource &&
                 t.rows[i].position == IssuedFor(t.rows, resource)
        ensures IsActive(t.rows[i].status)
      {
        if i < |s.rows| { assert Holds(s.rows, resource, t.rows[i].position); }
      }
    }
  }

  lemma MoveElsewhereKeepsAlive(s: State, i: nat, status: ReservationStatus, resource: int)
    requires i < |s.rows| && s.rows[i].resource != resource && !LastIssuedIsDead(s.rows, resource)
    ensures !LastIssuedIsDead(WithStatus(s.rows, i, status), resource)
  {
    StatusWriteKeepsIssued(s.rows, i, status, resource);
    var later := WithStatus(s.rows, i, status);
    assert forall j | 0 <= j < |later| && later[j].resource == resource :: later[j] == s.rows[j];
  }

  lemma SparingStep(s: State, st: Statement, resource: int)
    requires FullKeyInv(s) && !LastIssuedIsDead(s.rows, resource) && Spares(s.rows, st, resource)
    ensures !LastIssuedIsDead(Step(FullKey, s, st).rows, resource)
  {
    match st
    case TryInsert(c) => if c < |s.calls| { InsertKeepsAlive(s, c, resource); }
    case ChangeStatus(i, to) => if i < |s.rows| { MoveElsewhereKeepsAlive(s, i, to, resource); }
    case OverwriteStatus(i, to) => if i < |s.rows| { MoveElsewhereKeepsAlive(s, i, to, resource); }
    case _ =>
  }

  lemma {:induction false} SparingRunStaysAlive(s: State, schedule: seq<Statement>, resource: int)
    requires FullKeyInv(s) && !LastIssuedIsDead(s.rows, resource) && AllSpare(FullKey, s, schedule, resource)
    ensures StaysAlive(FullKey, s, schedule, resource)
    decreases |schedule|
  {
    if schedule != [] {
      SparingStep(s, schedule[0], resource);
      FullKeyStep(s, schedule[0]);
      SparingRunStaysAlive(Step(FullKey, s, schedule[0]), schedule[1..], resource);
    }
  }

  /**
   Under the full key of at most five open calls on a resource whose newest row, if any, is active none gives up
   while no row of the resource changes status, and each is answered once it had its turns.
   */
  lemma FiveCallsOnALiveQueue(s: State, schedule: seq<Statement>, c: nat)
    requires FullKeyInv(s) && NotOvertaken(FullKey, s, c)
    requires var t := Run(FullKey, s, schedule);
             c < |t.calls| && AtMostFiveOpen(s, t, t.calls[c].resource) &&
             !LastIssuedIsDead(s.rows, t.calls[c].resource) && AllSpare(FullKey, s, schedule, t.calls[c].resource)
    ensures !Run(FullKey, s, schedule).calls[c].phase.GaveUp?
    ensures TurnsTaken(s, c) + TurnsOf(FullKey, s, schedule, c) >= ALL_TURNS ==>
              Run(FullKey, s, schedule).calls[c].phase.Enqueued?
  {
    SparingRunStaysAlive(s, schedule, Run(FullKey, s, schedule).calls[c].resource);
    FiveCallsNeverGiveUp(FullKey, s, schedule, c);
  }

  // ---------- five is the exact bound ----------

  function Newcomer(s: State, resource: int, member: int): seq<Statement> {
    [Arrive(resource, member), ReadMax(|s.calls|), TryInsert(|s.calls|)]
  }

  lemma RunOfTwo(key: UniqueKey, s: State, a: Statement, b: Statement)
    ensures Run(key, s, [a, b]) == Step(key, Step(key, s, a), b)
  {
    assert [a, b][1..] == [b] && [b][1..] == [];
    assert Run(key, Step(key, s, a), [b]) == Step(key, Step(key, s, a), b);
  }

  lemma RunOfThree(key: UniqueKey, s: State, a: Statement, b: Statement, c: Statement)
    ensures Run(key, s, [a, b, c]) == Step(key, Step(key, Step(key, s, a), b), c)
  {
    assert [a, b, c][1..] == [b, c];
    RunOfTwo(key, Step(key, s, a), b, c);
  }

  lemma NewcomerReads(key: UniqueKey, s: State, resource: int, member: int)
    ensures Step(key, Step(key, s, Arrive(resource, member)), ReadMax(|s.calls|)) ==
            s.(calls := s.calls + [Call(resource, member, Inserting(0, MaxActive(s.rows, resource) + 1))])
  {
  }

  lemma NewcomerIsQueued(key: UniqueKey, s: State, resource: int, member: int)
    requires KeyInv(key, s) && Alive(key, s.rows, resource)
    ensures var row := Reservation(resource, member, MaxActive(s.rows, resource) + 1, Queued);
            Run(key, s, Newcomer(s, resource, member)) ==
            State(s.rows + [row], s.calls + [Call(resource, member, Enqueued(|s.rows|))])
  {
    var n := |s.calls|;
    RunOfThree(key, s, Arrive(resource, member), ReadMax(n), TryInsert(n));
    NewcomerReads(key, s, resource, member);
    ReadsAboveTop(key, s.rows, resource);
    AboveTopIsFree(key, s.rows, resource, MaxActive(s.rows, resource) + 1);
  }

  ghost predicate NoMoves(schedule: seq<Statement>) {
    forall k | 0 <= k < |schedule| :: !schedule[k].ChangeStatus? && !schedule[k].OverwriteStatus?
  }

  lemma {:induction false} NoMovesKeepsAlive(key: UniqueKey, s: State, schedule: seq<Statement>, resource: int)
    requires KeyInv(key, s) && Alive(key, s.rows, resource) && NoMoves(schedule)
    ensures KeyInv(key, Run(key, s, schedule)) && Alive(key, Run(key, s, schedule).rows, resource)
    decreases |schedule|
  {
    if schedule != [] {
      if key == FullKey {
        FullKeyStep(s, schedule[0]);
        SparingStep(s, schedule[0], resource);
      }
      NoMovesKeepsAlive(key, Step(key, s, schedule[0]), schedule[1..], resource);
    }
  }

  /** Call c reads, a newcomer gets through, and c finds its position taken. */
  function Overtaking(s: State, c: nat, resource: int): seq<Statement> {
    [ReadMax(c)] + Newcomer(s, resource, 0) + [TryInsert(c)]
  }

  lemma OvertakingRound(key: UniqueKey, s: State, c: nat)
    requires c < |s.calls| && s.calls[c].phase.Reading? && KeyInv(key, s) && Alive(key, s.rows, s.calls[c].resource)
    ensures var call := s.calls[c];
            var t := Run(key, s, Overtaking(s, c, call.resource));
            |t.calls| == |s.calls| + 1 &&
            t.calls[c] == call.(phase := AfterCollision(call.phase.attempt))
  {
    var call := s.calls[c];
    var resource := call.resource;
    var s1 := Step(key, s, ReadMax(c));
    if key == FullKey { FullKeyStep(s, ReadMax(c)); }
    NewcomerIsQueued(key, s1, resource, 0);
    var s2 := Run(key, s1, Newcomer(s, resource, 0));
    assert Occupies(key, s2.rows[|s.rows|], resource, MaxActive(s.rows, resource) + 1);
    RunAppend(key, s, [ReadMax(c)], Newcomer(s, resource, 0));
    RunAppend(key, s, [ReadMax(c)] + Newcomer(s, resource, 0), [TryInsert(c)]);
    assert Run(key, s, [ReadMax(c)]) == s1 && [TryInsert(c)][1..] == [];
    assert Run(key, s2, [TryInsert(c)]) == Step(key, s2, TryInsert(c));
  }

  lemma {:induction false} OvertakenUntilGivingUp(key: UniqueKey, s: State, c: nat) returns (schedule: seq<Statement>)
    requires c < |s.calls| && s.calls[c].phase.Reading? && s.calls[c].phase.attempt < MAX_ENQUEUE_ATTEMPTS
    requires KeyInv(key, s) && Alive(key, s.rows, s.calls[c].resource)
    ensures NoMoves(schedule)
    ensures var t := Run(key, s, schedule);
            |t.calls| == |s.calls| + MAX_ENQUEUE_ATTEMPTS - s.calls[c].phase.attempt &&
            t.calls[c] == s.calls[c].(phase := GaveUp)
    decreases MAX_ENQUEUE_ATTEMPTS - s.calls[c].phase.attempt
  {
    var round := Overtaking(s, c, s.calls[c].resource);
    OvertakingRound(key, s, c);
    var t := Run(key, s, round);
    if t.calls[c].phase.GaveUp? {
      schedule := round;
    } else {
      NoMovesKeepsAlive(key, s, round, s.calls[c].resource);
      var rest := OvertakenUntilGivingUp(key, t, c);
      RunAppend(key, s, round, rest);
      schedule := round + rest;
    }
  }

  /**
   Five is the exact bound: on any table whose queue is alive, six calls have a schedule in which one gives up
   and no row changes status.
   */
  lemma SixCallsCanFail(key: UniqueKey, rows: seq<Reservation>, resource: int) returns (schedule: seq<Statement>)
    requires KeyInv(key, State(rows, [])) && Alive(key, rows, resource)
    ensures NoMoves(schedule)
    ensures var s := Run(key, State(rows, []), schedule);
            |s.calls| == 6 && s.calls[0].phase.GaveUp?
  {
    var start := Step(key, State(rows, []), Arrive(resource, 0));
    var rest := OvertakenUntilGivingUp(key, start, 0);
    schedule := [Arrive(resource, 0)] + rest;
    assert schedule[1..] == rest;
  }

  // ---------- commit order and queue order ----------

  /** Of two active rows of the resource the one committed first stands first. */
  ghost predicate InCommitOrder(rows: seq<Reservation>, resource: int) {
    forall i, j | 0 <= i < j < |rows| && IsActiveFor(rows[i], resource) && IsActiveFor(rows[j], resource) ::
      rows[i].position < rows[j].position
  }

  /** An insert on the resource that the key accepts lands above every active row. */
  predicate LandsOnTop(key: UniqueKey, s: State, st: Statement, resource: int) {
    st.TryInsert? && st.call < |s.calls| && s.calls[st.call].resource == resource &&
    s.calls[st.call].phase.Inserting? && !Collides(key, s.rows, resource, s.calls[st.call].phase.next) ==>
      MaxActive(s.rows, resource) < s.calls[st.call].phase.next
  }

  /** Every position a call is about to insert came from a read. */
  ghost predicate NextsAreRead(s: State) {
    forall c | 0 <= c < |s.calls| && s.calls[c].phase.Inserting? :: s.calls[c].phase.next >= 1
  }

  lemma AppendKeepsOrderExactly(rows: seq<Reservation>, row: Reservation)
    requires InCommitOrder(rows, row.resource) && IsActive(row.status) && row.position >= 1
    ensures InCommitOrder(rows + [row], row.resource) <==> MaxActive(rows, row.resource) < row.position
  {
    var longer, m := rows + [row], MaxActive(rows, row.resource);
    assert longer[|rows|] == row && forall i | 0 <= i < |rows| :: longer[i] == rows[i];
    if m >= row.position {
      var i :| 0 <= i < |rows| && IsActiveFor(rows[i], row.resource) && rows[i].position == m;
      assert IsActiveFor(longer[i], row.resource);
    }
  }

  lemma AppendElsewhereKeepsOrder(rows: seq<Reservation>, row: Reservation, resource: int)
    requires InCommitOrder(rows, resource) && row.resource != resource
    ensures InCommitOrder(rows + [row], resource)
  {
    assert forall i | 0 <= i < |rows| :: (rows + [row])[i] == rows[i];
  }

  lemma OrderInsert(key: UniqueKey, s: State, c: nat, resource: int)
    requires InCommitOrder(s.rows, resource) && NextsAreRead(s) && c < |s.calls|
    ensures InCommitOrder(InsertStep(key, s, c).rows, resource) <==> LandsOnTop(key, s, TryInsert(c), resource)
  {
    if s.calls[c].phase.Inserting? {
      var row := Reservation(s.calls[c].resource, s.calls[c].member, s.calls[c].phase.next, Queued);
      if row.resource == resource {
        AppendKeepsOrderExactly(s.rows, row);
      } else {
        AppendElsewhereKeepsOrder(s.rows, row, resource);
      }
    }
  }

  lemma MoveKeepsOrder(rows: seq<Reservation>, i: nat, to: ReservationStatus, resource: int)
    requires InCommitOrder(rows, resource)
    ensures InCommitOrder(ChangeStatusOf(rows, i, to), resource)
  {
    var later := ChangeStatusOf(rows, i, to);
    assert forall j | 0 <= j < |rows| && IsActiveFor(later[j], resource) ::
      IsActiveFor(rows[j], resource) && later[j].position == rows[j].position;
  }

  lemma OrderStep(key: UniqueKey, s: State, st: Statement, resource: int)
    requires InCommitOrder(s.rows, resource) && NextsAreRead(s) && !st.OverwriteStatus?
    ensures NextsAreRead(Step(key, s, st))
    ensures InCommitOrder(Step(key, s, st).rows, resource) <==> LandsOnTop(key, s, st, resource)
  {
    match st
    case TryInsert(c) => if c < |s.calls| { OrderInsert(key, s, c, resource); }
    case ChangeStatus(i, to) => MoveKeepsOrder(s.rows, i, to, resource);
    case _ =>
  }

  ghost predicate AlwaysInOrder(key: UniqueKey, s: State, schedule: seq<Statement>, resource: int)
    decreases |schedule|
  {
    InCommitOrder(s.rows, resource) &&
    (schedule == [] || AlwaysInOrder(key, Step(key, s, schedule[0]), schedule[1..], resource))
  }

  predicate AllLandOnTop(key: UniqueKey, s: State, schedule: seq<Statement>, resource: int)
    decreases |schedule|
  {
    schedule == [] ||
    (LandsOnTop(key, s, schedule[0], resource) && AllLandOnTop(key, Step(key, s, schedule[0]), schedule[1..], resource))
  }

  /** The queue stays in commit order all along a run exactly when every insert lands above the active rows. */
  lemma {:induction false} InOrderExactlyWhenOnTop(key: UniqueKey, s: State, schedule: seq<Statement>, resource: int)
    requires InCommitOrder(s.rows, resource) && NextsAreRead(s) && WholeSteps(schedule)
    ensures AlwaysInOrder(key, s, schedule, resource) <==> AllLandOnTop(key, s, schedule, resource)
    decreases |schedule|
  {
    if schedule != [] {
      OrderStep(key, s, schedule[0], resource);
      if LandsOnTop(key, s, schedule[0], resource) {
        InOrderExactlyWhenOnTop(key, Step(key, s, schedule[0]), schedule[1..], resource);
      }
    }
  }

  /** Under the full key it always does, late status writes included. */
  lemma {:induction false} FullKeyStaysInOrder(s: State, schedule: seq<Statement>, resource: int)
    requires FullKeyInv(s)
    ensures AlwaysInOrder(FullKey, s, schedule, resource)
    decreases |schedule|
  {
    forall i, j | 0 <= i < j < |s.rows| && IsActiveFor(s.rows[i], resource) && IsActiveFor(s.rows[j], resource)
      ensures s.rows[i].position < s.rows[j].position
    {
      CommitOrderIsQueueOrder(s.rows, i, j);
    }
    if schedule != [] {
      FullKeyStep(s, schedule[0]);
      FullKeyStaysInOrder(Step(FullKey, s, schedule[0]), schedule[1..], resource);
    }
  }

  lemma CancelledFirstLetsTheLateIn(s: State)
    requires s.rows == [Reservation(7, 1, 1, Queued), Reservation(7, 2, 2, Queued)]
    requires s.calls != [] && s.calls[0] == Call(7, 0, Inserting(0, 1))
    ensures Run(ActiveKey, s, [ChangeStatus(0, Cancelled), TryInsert(0)]).rows ==
            [Reservation(7, 1, 1, Cancelled), Reservation(7, 2, 2, Queued), Reservation(7, 0, 1, Queued)]
  {
    RunOfTwo(ActiveKey, s, ChangeStatus(0, Cancelled), TryInsert(0));
  }

  lemma TwoMoreHolds(s: State) returns (schedule: seq<Statement>)
    requires s == State([], [Call(7, 0, Inserting(0, 1))])
    ensures WholeSteps(schedule)
    ensures var t := Run(ActiveKey, s, schedule);
            t.rows == [Reservation(7, 1, 1, Queued), Reservation(7, 2, 2, Queued)] && t.calls != [] &&
            t.calls[0] == s.calls[0]
  {
    NewcomerIsQueued(ActiveKey, s, 7, 1);
    var t := Run(ActiveKey, s, Newcomer(s, 7, 1));
    assert MaxActive([Reservation(7, 1, 1, Queued)], 7) == 1;
    NewcomerIsQueued(ActiveKey, t, 7, 2);
    RunAppend(ActiveKey, s, Newcomer(s, 7, 1), Newcomer(t, 7, 2));
    schedule := Newcomer(s, 7, 1) + Newcomer(t, 7, 2);
  }

  lemma EarlyReaderJumps(s: State, late: State) returns (schedule: seq<Statement>)
    requires s == State([], []) && late == State([], [Call(7, 0, Inserting(0, 1))])
    ensures WholeSteps(schedule)
    ensures Run(ActiveKey, s, schedule).rows ==
            [Reservation(7, 1, 1, Cancelled), Reservation(7, 2, 2, Queued), Reservation(7, 0, 1, Queued)]
  {
    var read, end := [Arrive(7, 0), ReadMax(0)], [ChangeStatus(0, Cancelled), TryInsert(0)];
    RunOfTwo(ActiveKey, s, Arrive(7, 0), ReadMax(0));
    NewcomerReads(ActiveKey, s, 7, 0);
    assert Run(ActiveKey, s, read) == late;
    var more := TwoMoreHolds(late);
    CancelledFirstLetsTheLateIn(Run(ActiveKey, late, more));
    RunAppend(ActiveKey, late, more, end);
    RunAppend(ActiveKey, s, read, more + end);
    schedule := read + (more + end);
  }

  /**
   The active-only key gives up first-come-first-served order: call 0 reads the empty queue, two rivals
   take positions 1 and 2, the first cancels, and call 0 commits last but stands before the second.
   */
  lemma ActiveKeyCanJumpTheQueue() returns (schedule: seq<Statement>)
    ensures WholeSteps(schedule)
    ensures var rows := Run(ActiveKey, State([], []), schedule).rows;
            |rows| == 3 && IsActive(rows[1].status) && IsActive(rows[2].status) &&
            rows[1].resource == rows[2].resource && rows[2].position < rows[1].position
  {
    schedule := EarlyReaderJumps(State([], []), State([], [Call(7, 0, Inserting(0, 1))]));
  }
}
