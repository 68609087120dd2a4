/**
 The hold-queue service as an object over its table. Between the two statements of each attempt of
 `Enqueue` the rest of the system may commit anything; that interference is a parameter.
 */
module ReservationQueue {
  import opened Common
  import opened StateMachines
  import opened HoldQueue
  import opened HoldQueueProgress

  datatype Failure = NotFound | IllegalTransition | AttemptsExhausted

  datatype Result<+T> = Ok(value: T) | Err(error: Failure)

  /**
   One committed write of another caller: an insert the key may reject, a status move checked against the row it
   writes, or the bare status write of an operation whose check ran earlier.
   */
  datatype RivalWrite =
    | RivalInsert(row: Reservation)
    | RivalMove(id: nat, to: ReservationStatus)
    | RivalOverwrite(id: nat, to: ReservationStatus)

  predicate Accepted(key: UniqueKey, rows: seq<Reservation>, row: Reservation) {
    !Collides(key, rows, row.resource, row.position)
  }

  function AfterWrite(key: UniqueKey, rows: seq<Reservation>, write: RivalWrite): seq<Reservation> {
    match write
    case RivalInsert(row) => if Accepted(key, rows, row) then rows + [row] else rows
    case RivalMove(i, to) => ChangeStatusOf(rows, i, to)
    case RivalOverwrite(i, to) =>
      if i < |rows| && !OverwriteRejected(key, rows, i, to) then WithStatus(rows, i, to) else rows
  }

  function AfterWrites(key: UniqueKey, rows: seq<Reservation>, writes: seq<RivalWrite>): seq<Reservation>
    decreases |writes|
  {
    if writes == [] then rows else AfterWrites(key, AfterWrite(key, rows, writes[0]), writes[1..])
  }

  datatype Outcome = Outcome(rows: seq<Reservation>, result: Result<Reservation>)

  /** The attempts that are left, one per window of rival writes. */
  function EnqueueOutcome(key: UniqueKey, rows: seq<Reservation>, resource: int, member: int,
                          windows: seq<seq<RivalWrite>>): Outcome
    decreases |windows|
  {
    if windows == [] then Outcome(rows, Err(AttemptsExhausted)) else
      var row := Reservation(resource, member, MaxActive(rows, resource) + 1, Queued);
      var current := AfterWrites(key, rows, windows[0]);
      if Accepted(key, current, row) then Outcome(current + [row], Ok(row))
      else EnqueueOutcome(key, current, resource, member, windows[1..])
  }

  class ReservationQueueService {
    const key: UniqueKey
    var rows: seq<Reservation>

    constructor (key: UniqueKey)
      ensures this.key == key && rows == []
    {
      this.key := key;
      rows := [];
    }

    /** What the rest of the system commits while this call is between two statements. */
    method Interfere(writes: seq<RivalWrite>)
      modifies this
      ensures rows == AfterWrites(key, old(rows), writes)
    {
      for k := 0 to |writes|
        invariant AfterWrites(key, rows, writes[k..]) == AfterWrites(key, old(rows), writes)
      {
        assert writes[k..][1..] == writes[k + 1..];
        rows := AfterWrite(key, rows, writes[k]);
      }
    }

    method Enqueue(resource: int, member: int, windows: seq<seq<RivalWrite>>) returns (r: Result<Reservation>)
      requires |windows| == MAX_ENQUEUE_ATTEMPTS
      modifies this
      ensures Outcome(rows, r) == EnqueueOutcome(key, old(rows), resource, member, windows)
      ensures r.Ok? ==> r.value == Reservation(resource, member, r.value.position, Queued) &&
                        rows != [] && rows[|rows| - 1] == r.value && r.value.position >= 1
      ensures r.Err? ==> r == Err(AttemptsExhausted)
    {
      assert windows[0..] == windows;
      for attempt := 0 to MAX_ENQUEUE_ATTEMPTS
        invariant EnqueueOutcome(key, rows, resource, member, windows[attempt..]) ==
                  EnqueueOutcome(key, old(rows), resource, member, windows)
      {
        assert windows[attempt..][1..] == windows[attempt + 1..];
        var nextPosition := MaxActive(rows, resource) + 1;
        Interfere(windows[attempt]);
        var row := Reservation(resource, member, nextPosition, Queued);
        if Collides(key, rows, resource, nextPosition) {
          continue;
        }
        rows := rows + [row];
        return Ok(row);
      }
      r := Err(AttemptsExhausted);
    }

    method Cancel(id: int) returns (r: Result<Reservation>)
      modifies this
      ensures r == Err(NotFound) <==> !(0 <= id < |old(rows)|)
      ensures r == Err(IllegalTransition) <==> 0 <= id < |old(rows)| && !IsActive(old(rows)[id].status)
      ensures r.Ok? ==> rows == old(rows)[id := r.value] && r.value == old(rows)[id].(status := Cancelled)
      ensures r.Err? ==> rows == old(rows) && r.error != AttemptsExhausted
    {
      if !(0 <= id < |rows|) {
        return Err(NotFound);
      }
      if !IsLegal(RESERVATION_TRANSITIONS, rows[id].status, Cancelled) {
        return Err(IllegalTransition);
      }
      rows := WithStatus(rows, id, Cancelled);
      return Ok(rows[id]);
    }

    /** The ready event is not modelled beyond the row it carries. */
    method MarkReadyForPickup(id: int) returns (r: Result<Reservation>)
      modifies this
      ensures r == Err(NotFound) <==> !(0 <= id < |old(rows)|)
      ensures r == Err(IllegalTransition) <==> 0 <= id < |old(rows)| && old(rows)[id].status != Queued
      ensures r.Ok? ==> rows == old(rows)[id := r.value] && r.value == old(rows)[id].(status := ReadyForPickup)
      ensures r.Err? ==> rows == old(rows) && r.error != AttemptsExhausted
    {
      if !(0 <= id < |rows|) {
        return Err(NotFound);
      }
      if !IsLegal(RESERVATION_TRANSITIONS, rows[id].status, ReadyForPickup) {
        return Err(IllegalTransition);
      }
      rows := WithStatus(rows, id, ReadyForPickup);
      return Ok(rows[id]);
    }
  }

  // ---------- what the outcome promises ----------

  /** The write takes a position of the resource: it adds a row or, under the active-only key, brings one back. */
  ghost predicate Overtakes(key: UniqueKey, rows: seq<Reservation>, write: RivalWrite, resource: int) {
    match write
    case RivalInsert(row) => row.resource == resource && Accepted(key, rows, row)
    case RivalMove(_, _) => false
    case RivalOverwrite(i, to) =>
      key == ActiveKey && i < |rows| && rows[i].resource == resource && !IsActive(rows[i].status) && IsActive(to) &&
      !OverwriteRejected(key, rows, i, to)
  }

  /** The window holds a rival's write that takes a position of the resource. */
  ghost predicate RivalCommitted(key: UniqueKey, rows: seq<Reservation>, writes: seq<RivalWrite>, resource: int)
    decreases |writes|
  {
    writes != [] &&
    (Overtakes(key, rows, writes[0], resource) ||
     RivalCommitted(key, AfterWrite(key, rows, writes[0]), writes[1..], resource))
  }

  /** Every window of the call, each taken from the table the call had reached, holds such a write. */
  ghost predicate RivalInEveryWindow(key: UniqueKey, rows: seq<Reservation>, windows: seq<seq<RivalWrite>>,
                                     resource: int)
    decreases |windows|
  {
    windows == [] ||
    (RivalCommitted(key, rows, windows[0], resource) &&
     RivalInEveryWindow(key, AfterWrites(key, rows, windows[0]), windows[1..], resource))
  }

  lemma OverwriteLowersMax(rows: seq<Reservation>, i: nat, to: ReservationStatus, resource: int)
    requires i < |rows| && (rows[i].resource == resource && IsActive(to) ==> IsActive(rows[i].status))
    ensures MaxActive(WithStatus(rows, i, to), resource) <= MaxActive(rows, resource)
  {
    var later := WithStatus(rows, i, to);
    var m := MaxActive(later, resource);
    if m > 0 {
      var j :| 0 <= j < |later| && IsActiveFor(later[j], resource) && later[j].position == m;
      assert IsActiveFor(rows[j], resource);
    }
  }

  lemma {:induction false} WithoutRivalsMaxFalls(key: UniqueKey, rows: seq<Reservation>, writes: seq<RivalWrite>,
                                                 resource: int)
    requires key == ActiveKey && !RivalCommitted(key, rows, writes, resource)
    ensures MaxActive(AfterWrites(key, rows, writes), resource) <= MaxActive(rows, resource)
    decreases |writes|
  {
    if writes != [] {
      match writes[0] {
        case RivalInsert(row) => if row.resource != resource { AppendKeepsOtherMax(rows, row, resource); }
        case RivalMove(i, to) => StatusMoveLowersMax(rows, i, to, resource);
        case RivalOverwrite(i, to) =>
          if i < |rows| && !OverwriteRejected(key, rows, i, to) { OverwriteLowersMax(rows, i, to, resource); }
      }
      WithoutRivalsMaxFalls(key, AfterWrite(key, rows, writes[0]), writes[1..], resource);
    }
  }

  /** Under the active-only key each failed attempt is the work of a rival that committed inside it. */
  lemma {:induction false} ExhaustedOnlyByRivals(rows: seq<Reservation>, resource: int, member: int,
                                                 windows: seq<seq<RivalWrite>>)
    requires EnqueueOutcome(ActiveKey, rows, resource, member, windows).result.Err?
    ensures RivalInEveryWindow(ActiveKey, rows, windows, resource)
    decreases |windows|
  {
    if windows != [] {
      var current := AfterWrites(ActiveKey, rows, windows[0]);
      if !RivalCommitted(ActiveKey, rows, windows[0], resource) {
        WithoutRivalsMaxFalls(ActiveKey, rows, windows[0], resource);
        CollisionNeedsRival(current, resource, MaxActive(rows, resource) + 1);
      }
      ExhaustedOnlyByRivals(current, resource, member, windows[1..]);
    }
  }

  // ---------- the full key: each attempt fails on a dead newest row or on a rival, and on nothing else ----------

  /** None of the inserts aims past the next free position; those of the state machine's calls are such. */
  ghost predicate InLine(rows: seq<Reservation>, writes: seq<RivalWrite>)
    decreases |writes|
  {
    writes == [] ||
    ((writes[0].RivalInsert? ==>
        1 <= writes[0].row.position <= IssuedFor(rows, writes[0].row.resource) + 1) &&
     InLine(AfterWrite(FullKey, rows, writes[0]), writes[1..]))
  }

  lemma InLineWrite(rows: seq<Reservation>, write: RivalWrite, resource: int)
    requires Gapless(rows)
    requires write.RivalInsert? ==> 1 <= write.row.position <= IssuedFor(rows, write.row.resource) + 1
    ensures var later := AfterWrite(FullKey, rows, write);
            Gapless(later) &&
            IssuedFor(later, resource) == IssuedFor(rows, resource) + One(Overtakes(FullKey, rows, write, resource))
  {
    match write
    case RivalInsert(row) =>
      FullKeyCollides(rows, row.resource, row.position);
      if Accepted(FullKey, rows, row) {
        GaplessAppend(rows, row);
        IssuedAppend(rows, row, resource);
      }
    case RivalMove(i, to) =>
      GaplessIgnoresStatus(rows, ChangeStatusOf(rows, i, to));
      IssuedIgnoresStatus(rows, ChangeStatusOf(rows, i, to), resource);
    case RivalOverwrite(i, to) =>
      GaplessIgnoresStatus(rows, AfterWrite(FullKey, rows, write));
      IssuedIgnoresStatus(rows, AfterWrite(FullKey, rows, write), resource);
  }

  lemma {:induction false} RivalsRaiseIssued(rows: seq<Reservation>, writes: seq<RivalWrite>, resource: int)
    requires Gapless(rows) && InLine(rows, writes)
    ensures var later := AfterWrites(FullKey, rows, writes);
            Gapless(later) && IssuedFor(rows, resource) <= IssuedFor(later, resource) &&
            (IssuedFor(rows, resource) < IssuedFor(later, resource) <==>
             RivalCommitted(FullKey, rows, writes, resource))
    decreases |writes|
  {
    if writes != [] {
      InLineWrite(rows, writes[0], resource);
      RivalsRaiseIssued(AfterWrite(FullKey, rows, writes[0]), writes[1..], resource);
    }
  }

  /** What an attempt fails on: it read a table whose newest row is dead, or a rival committed in its window. */
  ghost predicate Doomed(rows: seq<Reservation>, writes: seq<RivalWrite>, resource: int) {
    LastIssuedIsDead(rows, resource) || RivalCommitted(FullKey, rows, writes, resource)
  }

  ghost predicate AllDoomed(rows: seq<Reservation>, windows: seq<seq<RivalWrite>>, resource: int)
    decreases |windows|
  {
    windows == [] ||
    (Doomed(rows, windows[0], resource) &&
     AllDoomed(AfterWrites(FullKey, rows, windows[0]), windows[1..], resource))
  }

  /** As far as the call gets, its windows are in line. */
  ghost predicate AllInLine(rows: seq<Reservation>, windows: seq<seq<RivalWrite>>, resource: int)
    decreases |windows|
  {
    windows == [] ||
    (InLine(rows, windows[0]) &&
     (Doomed(rows, windows[0], resource) ==>
        AllInLine(AfterWrites(FullKey, rows, windows[0]), windows[1..], resource)))
  }

  lemma AttemptFailsExactly(rows: seq<Reservation>, writes: seq<RivalWrite>, resource: int, member: int)
    requires Gapless(rows) && InLine(rows, writes)
    ensures Gapless(AfterWrites(FullKey, rows, writes))
    ensures !Accepted(FullKey, AfterWrites(FullKey, rows, writes),
                      Reservation(resource, member, MaxActive(rows, resource) + 1, Queued)) <==>
            Doomed(rows, writes, resource)
  {
    RivalsRaiseIssued(rows, writes, resource);
    MaxActiveAtMostIssued(rows, resource);
    MaxActiveReachesIssued(rows, resource);
    FullKeyCollides(AfterWrites(FullKey, rows, writes), resource, MaxActive(rows, resource) + 1);
  }

  /** Under the full key a call fails exactly when every one of its attempts is doomed in that way. */
  lemma {:induction false} FullKeyFailsExactly(rows: seq<Reservation>, resource: int, member: int,
                                               windows: seq<seq<RivalWrite>>)
    requires Gapless(rows) && AllInLine(rows, windows, resource)
    ensures EnqueueOutcome(FullKey, rows, resource, member, windows).result.Err? <==>
            AllDoomed(rows, windows, resource)
    decreases |windows|
  {
    if windows != [] {
      AttemptFailsExactly(rows, windows[0], resource, member);
      if Doomed(rows, windows[0], resource) {
        FullKeyFailsExactly(AfterWrites(FullKey, rows, windows[0]), resource, member, windows[1..]);
      }
    }
  }

  /** The windows of a call that runs alone. */
  function Undisturbed(attempts: nat): seq<seq<RivalWrite>> {
    seq(attempts, _ => [])
  }

  lemma {:induction false} UndisturbedOutcome(key: UniqueKey, rows: seq<Reservation>, resource: int, member: int,
                                              attempts: nat)
    requires attempts > 0
    ensures var row := Reservation(resource, member, MaxActive(rows, resource) + 1, Queued);
            EnqueueOutcome(key, rows, resource, member, Undisturbed(attempts)) ==
            if Accepted(key, rows, row) then Outcome(rows + [row], Ok(row))
            else Outcome(rows, Err(AttemptsExhausted))
  {
    assert Undisturbed(attempts)[1..] == Undisturbed(attempts - 1);
    if attempts > 1 {
      UndisturbedOutcome(key, rows, resource, member, attempts - 1);
    }
  }

  lemma NextIsFreeUnderFullKey(rows: seq<Reservation>, resource: int)
    requires Gapless(rows)
    ensures var next := MaxActive(rows, resource) + 1;
            (!Collides(FullKey, rows, resource, next) <==> !LastIssuedIsDead(rows, resource)) &&
            (!LastIssuedIsDead(rows, resource) ==> next == IssuedFor(rows, resource) + 1)
  {
    var m, n := MaxActive(rows, resource), IssuedFor(rows, resource);
    assert m <= n by { MaxActiveAtMostIssued(rows, resource); }
    assert m < n <==> LastIssuedIsDead(rows, resource) by { MaxActiveReachesIssued(rows, resource); }
    assert Collides(FullKey, rows, resource, m + 1) <==> m + 1 <= n by { FullKeyCollides(rows, resource, m + 1); }
  }

  lemma NextIsAccepted(key: UniqueKey, rows: seq<Reservation>, resource: int, member: int)
    requires key == FullKey ==> Gapless(rows)
    ensures Accepted(key, rows, Reservation(resource, member, MaxActive(rows, resource) + 1, Queued)) <==>
            key == ActiveKey || !LastIssuedIsDead(rows, resource)
    ensures key == FullKey && !LastIssuedIsDead(rows, resource) ==>
              MaxActive(rows, resource) == IssuedFor(rows, resource)
  {
    if key == ActiveKey {
      CollisionNeedsRival(rows, resource, MaxActive(rows, resource) + 1);
    } else {
      NextIsFreeUnderFullKey(rows, resource);
    }
  }

  /**
   A lone call succeeds exactly when the key is the active-only one or the newest row of the resource, if
   any, is still active. It then takes the next position of its queue; otherwise all five attempts fail
   alike and the table stays as it was.
   */
  lemma LoneEnqueueIsExact(key: UniqueKey, rows: seq<Reservation>, resource: int, member: int)
    requires key == FullKey ==> Gapless(rows)
    ensures var o := EnqueueOutcome(key, rows, resource, member, Undisturbed(MAX_ENQUEUE_ATTEMPTS));
            (o.result.Ok? <==> key == ActiveKey || !LastIssuedIsDead(rows, resource)) &&
            (o.result.Ok? ==>
               o.rows == rows + [Reservation(resource, member, o.result.value.position, Queued)] &&
               o.result.value.position ==
                 if key == FullKey then IssuedFor(rows, resource) + 1 else MaxActive(rows, resource) + 1) &&
            (o.result.Err? ==> o.rows == rows)
  {
    UndisturbedOutcome(key, rows, resource, member, MAX_ENQUEUE_ATTEMPTS);
    NextIsAccepted(key, rows, resource, member);
  }

  // ---------- the method is one call of the state machine ----------

  /** What a statement of another call does to the table. */
  function EffectOf(s: State, st: Statement): seq<RivalWrite> {
    match st
    case TryInsert(d) =>
      if d < |s.calls| && s.calls[d].phase.Inserting? then
        [RivalInsert(Reservation(s.calls[d].resource, s.calls[d].member, s.calls[d].phase.next, Queued))]
      else []
    case ChangeStatus(i, to) => [RivalMove(i, to)]
    case OverwriteStatus(i, to) => [RivalOverwrite(i, to)]
    case _ => []
  }

  function EffectsOf(key: UniqueKey, s: State, schedule: seq<Statement>): seq<RivalWrite>
    decreases |schedule|
  {
    if schedule == [] then [] else EffectOf(s, schedule[0]) + EffectsOf(key, Step(key, s, schedule[0]), schedule[1..])
  }

  ghost predicate LeavesAlone(c: nat, schedule: seq<Statement>) {
    forall k | 0 <= k < |schedule| :: schedule[k] != ReadMax(c) && schedule[k] != TryInsert(c)
  }

  lemma {:induction false} AfterWritesInTurn(key: UniqueKey, rows: seq<Reservation>, a: seq<RivalWrite>,
                                             b: seq<RivalWrite>)
    ensures AfterWrites(key, rows, a + b) == AfterWrites(key, AfterWrites(key, rows, a), b)
    decreases |a|
  {
    if a == [] {
      assert a + b == b;
    } else {
      assert (a + b)[1..] == a[1..] + b;
      AfterWritesInTurn(key, AfterWrite(key, rows, a[0]), a[1..], b);
    }
  }

  lemma EffectIsTheTable(key: UniqueKey, s: State, st: Statement, c: nat)
    requires st != ReadMax(c) && st != TryInsert(c) && c < |s.calls|
    ensures var t := Step(key, s, st);
            t.rows == AfterWrites(key, s.rows, EffectOf(s, st)) && c < |t.calls| && t.calls[c] == s.calls[c]
  {
    var effect := EffectOf(s, st);
    if effect != [] {
      assert effect[1..] == [];
      assert AfterWrites(key, s.rows, effect) == AfterWrite(key, s.rows, effect[0]);
    }
  }

  lemma {:induction false} EffectsAreTheTable(key: UniqueKey, s: State, schedule: seq<Statement>, c: nat)
    requires LeavesAlone(c, schedule) && c < |s.calls|
    ensures var t := Run(key, s, schedule);
            t.rows == AfterWrites(key, s.rows, EffectsOf(key, s, schedule)) &&
            c < |t.calls| && t.calls[c] == s.calls[c]
    decreases |schedule|
  {
    if schedule != [] {
      var t := Step(key, s, schedule[0]);
      EffectIsTheTable(key, s, schedule[0], c);
      EffectsAreTheTable(key, t, schedule[1..], c);
      AfterWritesInTurn(key, s.rows, EffectOf(s, schedule[0]), EffectsOf(key, t, schedule[1..]));
    }
  }

  /** Each attempt of call c is its two statements with a window of other statements between them. */
  function Attempt(c: nat, window: seq<Statement>): seq<Statement> {
    [ReadMax(c)] + window + [TryInsert(c)]
  }

  function CallSchedule(c: nat, windows: seq<seq<Statement>>): seq<Statement> {
    if windows == [] then [] else Attempt(c, windows[0]) + CallSchedule(c, windows[1..])
  }

  function WindowsOf(key: UniqueKey, s: State, c: nat, windows: seq<seq<Statement>>): seq<seq<RivalWrite>>
    decreases |windows|
  {
    if windows == [] then [] else
      [EffectsOf(key, Step(key, s, ReadMax(c)), windows[0])]
      + WindowsOf(key, Run(key, s, Attempt(c, windows[0])), c, windows[1..])
  }

  lemma AttemptInParts(key: UniqueKey, s: State, c: nat, window: seq<Statement>)
    ensures Run(key, s, Attempt(c, window)) == Step(key, Run(key, Step(key, s, ReadMax(c)), window), TryInsert(c))
  {
    var s1 := Step(key, s, ReadMax(c));
    RunAppend(key, s, [ReadMax(c)] + window, [TryInsert(c)]);
    RunAppend(key, s, [ReadMax(c)], window);
    assert [ReadMax(c)][1..] == [] && [TryInsert(c)][1..] == [];
    assert Run(key, s, [ReadMax(c)]) == s1;
    assert Run(key, Run(key, s1, window), [TryInsert(c)]) == Step(key, Run(key, s1, window), TryInsert(c));
  }

  /** From s to t the call made one attempt around that window: answered with a new row, or one collision more. */
  predicate AttemptEnds(key: UniqueKey, s: State, t: State, c: nat, window: seq<RivalWrite>) {
    c < |s.calls| && c < |t.calls| && s.calls[c].phase.Reading? &&
    var call := s.calls[c];
    var row := Reservation(call.resource, call.member, MaxActive(s.rows, call.resource) + 1, Queued);
    var current := AfterWrites(key, s.rows, window);
    if Accepted(key, current, row) then
      t.rows == current + [row] && t.calls[c] == call.(phase := Enqueued(|current|))
    else
      t.rows == current && t.calls[c] == call.(phase := AfterCollision(call.phase.attempt))
  }

  lemma AttemptRuns(key: UniqueKey, s: State, c: nat, window: seq<Statement>)
    requires c < |s.calls| && s.calls[c].phase.Reading? && LeavesAlone(c, window)
    ensures AttemptEnds(key, s, Run(key, s, Attempt(c, window)), c, EffectsOf(key, Step(key, s, ReadMax(c)), window))
  {
    EffectsAreTheTable(key, Step(key, s, ReadMax(c)), window, c);
    AttemptInParts(key, s, c, window);
  }

  /** The call was answered with that row, whose status may have moved on since, or gave up. */
  ghost predicate EndsAs(s: State, c: nat, result: Result<Reservation>) {
    c < |s.calls| &&
    match result
    case Err(_) => s.calls[c].phase == GaveUp
    case Ok(row) =>
      s.calls[c].phase.Enqueued? && s.calls[c].phase.row < |s.rows| &&
      s.rows[s.calls[c].phase.row].(status := row.status) == row
  }

  lemma AnswerStays(key: UniqueKey, s: State, c: nat, result: Result<Reservation>, schedule: seq<Statement>)
    requires EndsAs(s, c, result) && result.Ok?
    ensures EndsAs(Run(key, s, schedule), c, result)
  {
    RowsOnlyGrow(key, s, schedule);
  }

  function OutcomeOf(key: UniqueKey, s: State, c: nat, windows: seq<seq<Statement>>): Result<Reservation>
    requires c < |s.calls|
  {
    var call := s.calls[c];
    EnqueueOutcome(key, s.rows, call.resource, call.member, WindowsOf(key, s, c, windows)).result
  }

  lemma FirstWindow(key: UniqueKey, s: State, c: nat, windows: seq<seq<Statement>>)
    requires windows != []
    ensures var all := WindowsOf(key, s, c, windows);
            all != [] && all[0] == EffectsOf(key, Step(key, s, ReadMax(c)), windows[0]) &&
            all[1..] == WindowsOf(key, Run(key, s, Attempt(c, windows[0])), c, windows[1..])
  {
  }

  /** One attempt either settles the call as the outcome says or leaves the rest of the outcome to come. */
  lemma AttemptDecides(key: UniqueKey, s: State, t: State, c: nat, windows: seq<seq<RivalWrite>>)
    requires windows != [] && AttemptEnds(key, s, t, c, windows[0])
    ensures var call := s.calls[c];
            var result := EnqueueOutcome(key, s.rows, call.resource, call.member, windows).result;
            (result.Ok? && t.calls[c].phase.Enqueued? && EndsAs(t, c, result)) ||
            (result == EnqueueOutcome(key, t.rows, call.resource, call.member, windows[1..]).result &&
             t.calls[c] == call.(phase := AfterCollision(call.phase.attempt)))
  {
  }

  /**
   A call interleaved with any statements of the others ends as `EnqueueOutcome`, hence as the method,
   says.
   */
  lemma {:induction false} CallRefinesEnqueue(key: UniqueKey, s: State, c: nat, windows: seq<seq<Statement>>)
    requires c < |s.calls| && s.calls[c].phase.Reading?
    requires |windows| > 0 && s.calls[c].phase.attempt + |windows| == MAX_ENQUEUE_ATTEMPTS
    requires forall k | 0 <= k < |windows| :: LeavesAlone(c, windows[k])
    ensures EndsAs(Run(key, s, CallSchedule(c, windows)), c, OutcomeOf(key, s, c, windows))
    decreases |windows|
  {
    var t := Run(key, s, Attempt(c, windows[0]));
    var rest := CallSchedule(c, windows[1..]);
    AttemptRuns(key, s, c, windows[0]);
    FirstWindow(key, s, c, windows);
    AttemptDecides(key, s, t, c, WindowsOf(key, s, c, windows));
    assert Run(key, s, CallSchedule(c, windows)) == Run(key, t, rest) by {
      RunAppend(key, s, Attempt(c, windows[0]), rest);
    }
    if t.calls[c].phase.Enqueued? {
      AnswerStays(key, t, c, OutcomeOf(key, s, c, windows), rest);
    } else if t.calls[c].phase.Reading? {
      CallRefinesEnqueue(key, t, c, windows[1..]);
    } else {
      assert windows[1..] == [];
    }
  }

  // ---------- when a call of the state machine fails under the full key ----------

  lemma {:induction false} InLineInTurn(rows: seq<Reservation>, a: seq<RivalWrite>, b: seq<RivalWrite>)
    requires InLine(rows, a) && InLine(AfterWrites(FullKey, rows, a), b)
    ensures InLine(rows, a + b)
    decreases |a|
  {
    if a == [] {
      assert a + b == b;
    } else {
      assert (a + b)[1..] == a[1..] + b;
      InLineInTurn(AfterWrite(FullKey, rows, a[0]), a[1..], b);
    }
  }

  lemma EffectIsInLine(s: State, st: Statement)
    requires FullKeyInv(s)
    ensures InLine(s.rows, EffectOf(s, st))
  {
    var effect := EffectOf(s, st);
    if effect != [] { assert effect[1..] == []; }
  }

  lemma {:induction false} EffectsAreInLine(s: State, schedule: seq<Statement>, c: nat)
    requires FullKeyInv(s) && LeavesAlone(c, schedule) && c < |s.calls|
    ensures InLine(s.rows, EffectsOf(FullKey, s, schedule))
    decreases |schedule|
  {
    if schedule != [] {
      var t := Step(FullKey, s, schedule[0]);
      FullKeyStep(s, schedule[0]);
      EffectIsTheTable(FullKey, s, schedule[0], c);
      EffectIsInLine(s, schedule[0]);
      EffectsAreInLine(t, schedule[1..], c);
      InLineInTurn(s.rows, EffectOf(s, schedule[0]), EffectsOf(FullKey, t, schedule[1..]));
    }
  }

  lemma FirstWindowIsInLine(s: State, c: nat, window: seq<Statement>)
    requires FullKeyInv(s) && c < |s.calls| && LeavesAlone(c, window)
    ensures InLine(s.rows, EffectsOf(FullKey, Step(FullKey, s, ReadMax(c)), window))
  {
    FullKeyStep(s, ReadMax(c));
    EffectsAreInLine(Step(FullKey, s, ReadMax(c)), window, c);
  }

  lemma {:induction false} WindowsAreInLine(s: State, c: nat, windows: seq<seq<Statement>>)
    requires FullKeyInv(s) && c < |s.calls| && s.calls[c].phase.Reading?
    requires s.calls[c].phase.attempt + |windows| == MAX_ENQUEUE_ATTEMPTS
    requires forall k | 0 <= k < |windows| :: LeavesAlone(c, windows[k])
    ensures AllInLine(s.rows, WindowsOf(FullKey, s, c, windows), s.calls[c].resource)
    decreases |windows|
  {
    if windows != [] {
      var call, t := s.calls[c], Run(FullKey, s, Attempt(c, windows[0]));
      var all := WindowsOf(FullKey, s, c, windows);
      FirstWindow(FullKey, s, c, windows);
      FirstWindowIsInLine(s, c, windows[0]);
      if Doomed(s.rows, all[0], call.resource) {
        AttemptFailsExactly(s.rows, all[0], call.resource, call.member);
        AttemptRuns(FullKey, s, c, windows[0]);
        if |windows| > 1 {
          FullKeyRunIsGapless(s, Attempt(c, windows[0]));
          WindowsAreInLine(t, c, windows[1..]);
        } else {
          assert all[1..] == [];
        }
      }
    }
  }

  /**
   Under the full key, whatever the others do between its statements, late status writes included, a call
   gives up exactly when each of its attempts read a table whose newest row was dead or was overtaken by a
   rival's insert.
   */
  lemma CallFailsExactly(s: State, c: nat, windows: seq<seq<Statement>>)
    requires FullKeyInv(s) && c < |s.calls| && s.calls[c].phase.Reading?
    requires |windows| > 0 && s.calls[c].phase.attempt + |windows| == MAX_ENQUEUE_ATTEMPTS
    requires forall k | 0 <= k < |windows| :: LeavesAlone(c, windows[k])
    ensures var t := Run(FullKey, s, CallSchedule(c, windows));
            c < |t.calls| &&
            (t.calls[c].phase.GaveUp? || t.calls[c].phase.Enqueued?) &&
            (t.calls[c].phase.GaveUp? <==>
             AllDoomed(s.rows, WindowsOf(FullKey, s, c, windows), s.calls[c].resource))
  {
    CallRefinesEnqueue(FullKey, s, c, windows);
    WindowsAreInLine(s, c, windows);
    FullKeyFailsExactly(s.rows, s.calls[c].resource, s.calls[c].member, WindowsOf(FullKey, s, c, windows));
  }
}
