/**
 The hold-queue protocol. Any number of enqueue calls run at once; each reads the highest active
 position of its resource, tries to insert the next one, and starts over when the unique key
 rejects the row. The atomic step is one database statement.
 */
module HoldQueue {
  import opened StateMachines

  const MAX_ENQUEUE_ATTEMPTS: nat := 5

  /**
   What the unique key on (resource, position) ranges over: all rows ever inserted, as the schema
   and its migration declare it, or the active rows only, as the service's own comment describes it.
   */
  datatype UniqueKey = FullKey | ActiveKey

  datatype Reservation =
    Reservation(resource: int, member: int, position: nat, status: ReservationStatus)

  predicate IsActive(status: ReservationStatus) {
    status == Queued || status == ReadyForPickup
  }

  predicate IsActiveFor(row: Reservation, resource: int) {
    row.resource == resource && IsActive(row.status)
  }

  /** The greatest position held by an active row of the resource, 0 when there is none. */
  function MaxActive(rows: seq<Reservation>, resource: int): (m: nat)
    ensures forall i | 0 <= i < |rows| && IsActiveFor(rows[i], resource) :: rows[i].position <= m
    ensures m == 0 || exists i | 0 <= i < |rows| :: IsActiveFor(rows[i], resource) && rows[i].position == m
  {
    if rows == [] then 0 else
      var last := rows[|rows| - 1];
      var rest := MaxActive(rows[..|rows| - 1], resource);
      if IsActiveFor(last, resource) && last.position > rest then last.position else rest
  }

  predicate Occupies(key: UniqueKey, row: Reservation, resource: int, position: nat) {
    row.resource == resource && row.position == position && (key == FullKey || IsActive(row.status))
  }

  /** Whether inserting the position would violate the unique key. */
  predicate Collides(key: UniqueKey, rows: seq<Reservation>, resource: int, position: nat) {
    exists i | 0 <= i < |rows| :: Occupies(key, rows[i], resource, position)
  }

  // ---------- the state machine ----------

  datatype Phase =
    | Reading(attempt: nat)
    | Inserting(attempt: nat, next: nat)
    | Enqueued(row: nat)
    | GaveUp

  datatype Call = Call(resource: int, member: int, phase: Phase)

  /** Rows stand in commit order and are never deleted. */
  datatype State = State(rows: seq<Reservation>, calls: seq<Call>)

  /**
   `ChangeStatus` is a cancel, a ready-mark, an expiry or a fulfilment taken as one step: its legality
   check sees the status it replaces. `OverwriteStatus` is the bare update by id of such an operation
   whose check ran earlier, so it may write any status.
   */
  datatype Statement =
    | Arrive(resource: int, member: int)
    | ReadMax(call: nat)
    | TryInsert(call: nat)
    | ChangeStatus(row: nat, to: ReservationStatus)
    | OverwriteStatus(row: nat, to: ReservationStatus)

  function AfterCollision(attempt: nat): Phase {
    if attempt + 1 < MAX_ENQUEUE_ATTEMPTS then Reading(attempt + 1) else GaveUp
  }

  function WithPhase(calls: seq<Call>, c: nat, phase: Phase): seq<Call>
    requires c < |calls|
  {
    calls[c := calls[c].(phase := phase)]
  }

  function WithStatus(rows: seq<Reservation>, i: nat, status: ReservationStatus): seq<Reservation>
    requires i < |rows|
  {
    rows[i := rows[i].(status := status)]
  }

  /** Moves a row's status when the move is legal from the status it has now. */
  function ChangeStatusOf(rows: seq<Reservation>, i: nat, to: ReservationStatus): seq<Reservation> {
    if i < |rows| && IsLegal(RESERVATION_TRANSITIONS, rows[i].status, to) then WithStatus(rows, i, to) else rows
  }

  function ReadStep(s: State, c: nat): State
    requires c < |s.calls|
  {
    var call := s.calls[c];
    match call.phase
    case Reading(attempt) =>
      s.(calls := WithPhase(s.calls, c, Inserting(attempt, MaxActive(s.rows, call.resource) + 1)))
    case _ => s
  }

  function InsertStep(key: UniqueKey, s: State, c: nat): State
    requires c < |s.calls|
  {
    var call := s.calls[c];
    match call.phase
    case Inserting(attempt, next) =>
      if Collides(key, s.rows, call.resource, next) then
        s.(calls := WithPhase(s.calls, c, AfterCollision(attempt)))
      else
        State(s.rows + [Reservation(call.resource, call.member, next, Queued)],
              WithPhase(s.calls, c, Enqueued(|s.rows|)))
    case _ => s
  }

  /** A statement that is not enabled leaves the state alone. */
  function Step(key: UniqueKey, s: State, st: Statement): State {
    match st
    case Arrive(resource, member) => s.(calls := s.calls + [Call(resource, member, Reading(0))])
    case ReadMax(c) => if c < |s.calls| then ReadStep(s, c) else s
    case TryInsert(c) => if c < |s.calls| then InsertStep(key, s, c) else s
    case ChangeStatus(i, to) => s.(rows := ChangeStatusOf(s.rows, i, to))
    case OverwriteStatus(i, to) =>
      if i < |s.rows| && !OverwriteRejected(key, s.rows, i, to) then s.(rows := WithStatus(s.rows, i, to)) else s
  }

  /** Under the active-only key, bringing a dead row back can itself violate the key. */
  predicate OverwriteRejected(key: UniqueKey, rows: seq<Reservation>, i: nat, to: ReservationStatus)
    requires i < |rows|
  {
    key == ActiveKey && IsActive(to) &&
    exists j | 0 <= j < |rows| && j != i :: Occupies(key, rows[j], rows[i].resource, rows[i].position)
  }

  function Run(key: UniqueKey, s: State, schedule: seq<Statement>): State
    decreases |schedule|
  {
    if schedule == [] then s else Run(key, Step(key, s, schedule[0]), schedule[1..])
  }

  ghost predicate WholeSteps(schedule: seq<Statement>) {
    forall k | 0 <= k < |schedule| :: !schedule[k].OverwriteStatus?
  }

  // ---------- full key: the k-th row committed for a resource has position k ----------

  function IssuedFor(rows: seq<Reservation>, resource: int): nat {
    if rows == [] then 0 else
      IssuedFor(rows[..|rows| - 1], resource) + if rows[|rows| - 1].resource == resource then 1 else 0
  }

  predicate IsNextInLine(rows: seq<Reservation>, i: nat)
    requires i < |rows|
  {
    rows[i].position == IssuedFor(rows[..i], rows[i].resource) + 1
  }

  /** Every row's position is one more than the number of rows of its resource committed before it. */
  ghost predicate Gapless(rows: seq<Reservation>) {
    forall i | 0 <= i < |rows| :: IsNextInLine(rows, i)
  }

  ghost predicate Holds(rows: seq<Reservation>, resource: int, position: nat) {
    exists i | 0 <= i < |rows| :: rows[i].resource == resource && rows[i].position == position
  }

  /** No row was lost, and nothing but its status ever changed. */
  ghost predicate Extends(rows: seq<Reservation>, later: seq<Reservation>) {
    |rows| <= |later| &&
    forall i | 0 <= i < |rows| :: later[i] == rows[i].(status := later[i].status)
  }

  lemma GaplessPrefix(rows: seq<Reservation>)
    requires Gapless(rows) && rows != []
    ensures Gapless(rows[..|rows| - 1]) && IsNextInLine(rows, |rows| - 1)
  {
    var init := rows[..|rows| - 1];
    assert IsNextInLine(rows, |rows| - 1);
    forall i | 0 <= i < |init| ensures IsNextInLine(init, i) {
      assert IsNextInLine(rows, i);
      assert init[..i] == rows[..i];
    }
  }

  lemma HoldsSplits(rows: seq<Reservation>, resource: int, position: nat)
    requires rows != []
    ensures var last := rows[|rows| - 1];
            Holds(rows, resource, position) <==>
            Holds(rows[..|rows| - 1], resource, position) || (last.resource == resource && last.position == position)
  {
    var init := rows[..|rows| - 1];
    if Holds(init, resource, position) {
      var i :| 0 <= i < |init| && init[i].resource == resource && init[i].position == position;
      assert rows[i] == init[i];
    }
    if Holds(rows, resource, position) {
      var i :| 0 <= i < |rows| && rows[i].resource == resource && rows[i].position == position;
      if i < |init| { assert init[i] == rows[i]; }
    }
  }

  /** The positions ever issued for a resource are exactly 1..N. */
  lemma {:induction false} IssuedPositionsAreOneToN(rows: seq<Reservation>, resource: int)
    requires Gapless(rows)
    ensures forall p: nat :: Holds(rows, resource, p) <==> 1 <= p <= IssuedFor(rows, resource)
  {
    if rows != [] {
      GaplessPrefix(rows);
      IssuedPositionsAreOneToN(rows[..|rows| - 1], resource);
      forall p: nat ensures Holds(rows, resource, p) <==> 1 <= p <= IssuedFor(rows, resource) {
        HoldsSplits(rows, resource, p);
      }
    }
  }

  /** First come, first served: a row committed earlier for a resource stands before a later one. */
  lemma CommitOrderIsQueueOrder(rows: seq<Reservation>, i: nat, j: nat)
    requires Gapless(rows) && i < j < |rows| && rows[i].resource == rows[j].resource
    ensures rows[i].position < rows[j].position
  {
    var before := rows[..j];
    forall k | 0 <= k < |before| ensures IsNextInLine(before, k) {
      assert IsNextInLine(rows, k);
      assert before[..k] == rows[..k];
    }
    assert IsNextInLine(rows, j);
    IssuedPositionsAreOneToN(before, rows[j].resource);
    assert before[i] == rows[i];
    assert Holds(before, rows[j].resource, rows[i].position);
  }

  lemma {:induction false} IssuedIgnoresStatus(rows: seq<Reservation>, later: seq<Reservation>, resource: int)
    requires |rows| == |later| && Extends(rows, later)
    ensures IssuedFor(later, resource) == IssuedFor(rows, resource)
  {
    if rows != [] {
      IssuedIgnoresStatus(rows[..|rows| - 1], later[..|rows| - 1], resource);
    }
  }

  lemma GaplessIgnoresStatus(rows: seq<Reservation>, later: seq<Reservation>)
    requires |rows| == |later| && Extends(rows, later) && Gapless(rows)
    ensures Gapless(later)
  {
    forall i | 0 <= i < |later| ensures IsNextInLine(later, i) {
      assert IsNextInLine(rows, i);
      IssuedIgnoresStatus(rows[..i], later[..i], later[i].resource);
    }
  }

  lemma GaplessAppend(rows: seq<Reservation>, row: Reservation)
    requires Gapless(rows) && row.position == IssuedFor(rows, row.resource) + 1
    ensures Gapless(rows + [row])
  {
    var longer := rows + [row];
    assert longer[..|rows|] == rows;
    forall i | 0 <= i < |longer| ensures IsNextInLine(longer, i) {
      if i < |rows| {
        assert IsNextInLine(rows, i);
        assert longer[..i] == rows[..i];
      }
    }
  }

  lemma IssuedAppend(rows: seq<Reservation>, row: Reservation, resource: int)
    ensures IssuedFor(rows + [row], resource) == IssuedFor(rows, resource) + if row.resource == resource then 1 else 0
  {
    assert (rows + [row])[..|rows|] == rows;
  }

  lemma MaxActiveAtMostIssued(rows: seq<Reservation>, resource: int)
    requires Gapless(rows)
    ensures MaxActive(rows, resource) <= IssuedFor(rows, resource)
  {
    IssuedPositionsAreOneToN(rows, resource);
    var m := MaxActive(rows, resource);
    if m > 0 {
      assert Holds(rows, resource, m);
    }
  }

  /** Gapless rows, and no call in flight aims past the next free position. */
  ghost predicate FullKeyInv(s: State) {
    Gapless(s.rows) &&
    forall c | 0 <= c < |s.calls| && s.calls[c].phase.Inserting? ::
      1 <= s.calls[c].phase.next <= IssuedFor(s.rows, s.calls[c].resource) + 1
  }

  lemma FullKeyStatusWrite(s: State, i: nat, to: ReservationStatus)
    requires FullKeyInv(s) && i < |s.rows|
    ensures FullKeyInv(s.(rows := WithStatus(s.rows, i, to)))
    ensures forall r :: IssuedFor(WithStatus(s.rows, i, to), r) == IssuedFor(s.rows, r)
  {
    var later := WithStatus(s.rows, i, to);
    GaplessIgnoresStatus(s.rows, later);
    forall r ensures IssuedFor(later, r) == IssuedFor(s.rows, r) {
      IssuedIgnoresStatus(s.rows, later, r);
    }
  }

  /** Under the full key a position is taken exactly when it was issued before. */
  lemma FullKeyCollides(rows: seq<Reservation>, resource: int, position: nat)
    requires Gapless(rows) && position >= 1
    ensures Collides(FullKey, rows, resource, position) <==> position <= IssuedFor(rows, resource)
  {
    IssuedPositionsAreOneToN(rows, resource);
    assert Holds(rows, resource, position) <==> position <= IssuedFor(rows, resource);
    if Holds(rows, resource, position) {
      var i :| 0 <= i < |rows| && rows[i].resource == resource && rows[i].position == position;
      assert Occupies(FullKey, rows[i], resource, position);
    }
  }

  lemma FullKeyInsertStep(s: State, c: nat)
    requires FullKeyInv(s) && c < |s.calls|
    ensures FullKeyInv(InsertStep(FullKey, s, c))
  {
    var call := s.calls[c];
    if call.phase.Inserting? {
      FullKeyCollides(s.rows, call.resource, call.phase.next);
      var row := Reservation(call.resource, call.member, call.phase.next, Queued);
      if call.phase.next == IssuedFor(s.rows, call.resource) + 1 {
        GaplessAppend(s.rows, row);
        forall r { IssuedAppend(s.rows, row, r); }
      }
    }
  }

  lemma FullKeyStep(s: State, st: Statement)
    requires FullKeyInv(s)
    ensures FullKeyInv(Step(FullKey, s, st))
  {
    match st
    case Arrive(_, _) =>
    case ReadMax(c) =>
      if c < |s.calls| { MaxActiveAtMostIssued(s.rows, s.calls[c].resource); }
    case TryInsert(c) =>
      if c < |s.calls| { FullKeyInsertStep(s, c); }
    case ChangeStatus(i, to) =>
      if i < |s.rows| { FullKeyStatusWrite(s, i, to); }
    case OverwriteStatus(i, to) =>
      if i < |s.rows| { FullKeyStatusWrite(s, i, to); }
  }

  /**
   Under the full key, whatever the calls, cancels and late status writes do in between, the k-th row
   committed for a resource carries position k.
   */
  lemma {:induction false} FullKeyRunIsGapless(s: State, schedule: seq<Statement>)
    requires FullKeyInv(s)
    ensures FullKeyInv(Run(FullKey, s, schedule))
    decreases |schedule|
  {
    if schedule != [] {
      FullKeyStep(s, schedule[0]);
      FullKeyRunIsGapless(Step(FullKey, s, schedule[0]), schedule[1..]);
    }
  }

  // ---------- either key: rows are only appended, and a call that returns holds a row of its own ----------

  /** An answered call keeps its answer, and a committed row keeps everything but its status. */
  lemma {:induction false} RowsOnlyGrow(key: UniqueKey, s: State, schedule: seq<Statement>)
    ensures var t := Run(key, s, schedule);
            Extends(s.rows, t.rows) && |s.calls| <= |t.calls| &&
            forall c | 0 <= c < |s.calls| && s.calls[c].phase.Enqueued? :: t.calls[c] == s.calls[c]
    decreases |schedule|
  {
    if schedule != [] {
      RowsOnlyGrow(key, Step(key, s, schedule[0]), schedule[1..]);
    }
  }

  /** The row a call was answered with is for its resource and member, and no two calls share one. */
  ghost predicate OwnRows(s: State) {
    (forall c | 0 <= c < |s.calls| && s.calls[c].phase.Enqueued? ::
       s.calls[c].phase.row < |s.rows| &&
       s.rows[s.calls[c].phase.row].resource == s.calls[c].resource &&
       s.rows[s.calls[c].phase.row].member == s.calls[c].member) &&
    (forall c, d | 0 <= c < d < |s.calls| && s.calls[c].phase.Enqueued? && s.calls[d].phase.Enqueued? ::
       s.calls[c].phase.row != s.calls[d].phase.row)
  }

  lemma InsertKeepsOwnRows(key: UniqueKey, s: State, c: nat)
    requires OwnRows(s) && c < |s.calls|
    ensures OwnRows(InsertStep(key, s, c))
  {
    var t := InsertStep(key, s, c);
    assert forall d | 0 <= d < |s.calls| && d != c :: t.calls[d] == s.calls[d];
  }

  lemma OwnRowsStep(key: UniqueKey, s: State, st: Statement)
    requires OwnRows(s)
    ensures OwnRows(Step(key, s, st))
  {
    match st
    case Arrive(_, _) =>
    case ReadMax(_) =>
    case TryInsert(c) => if c < |s.calls| { InsertKeepsOwnRows(key, s, c); }
    case ChangeStatus(_, _) =>
    case OverwriteStatus(_, _) =>
  }

  lemma {:induction false} EveryAnsweredCallOwnsARow(key: UniqueKey, s: State, schedule: seq<Statement>)
    requires OwnRows(s)
    ensures OwnRows(Run(key, s, schedule))
    decreases |schedule|
  {
    if schedule != [] {
      OwnRowsStep(key, s, schedule[0]);
      EveryAnsweredCallOwnsARow(key, Step(key, s, schedule[0]), schedule[1..]);
    }
  }

  // ---------- what the unique key is for ----------

  predicate CountsForKey(key: UniqueKey, row: Reservation) {
    match key
    case FullKey => true
    case ActiveKey => row.status == Queued || row.status == ReadyForPickup
  }

  /** No two rows that the key ranges over stand at the same position of a resource. */
  ghost predicate KeyHolds(key: UniqueKey, rows: seq<Reservation>) {
    forall i, j | 0 <= i < j < |rows| && CountsForKey(key, rows[i]) && CountsForKey(key, rows[j]) ::
      rows[i].resource != rows[j].resource || rows[i].position != rows[j].position
  }

  /** An insert of an active row is rejected exactly when it would violate the key. */
  lemma RejectsInsertExactly(key: UniqueKey, rows: seq<Reservation>, row: Reservation)
    requires KeyHolds(key, rows) && CountsForKey(key, row)
    ensures Collides(key, rows, row.resource, row.position) <==> !KeyHolds(key, rows + [row])
  {
    var longer := rows + [row];
    if Collides(key, rows, row.resource, row.position) {
      var i :| 0 <= i < |rows| && Occupies(key, rows[i], row.resource, row.position);
      assert longer[i] == rows[i] && longer[|rows|] == row;
    } else {
      forall i, j | 0 <= i < j < |longer| && CountsForKey(key, longer[i]) && CountsForKey(key, longer[j])
        ensures longer[i].resource != longer[j].resource || longer[i].position != longer[j].position
      {
        assert !Occupies(key, rows[i], row.resource, row.position);
        if j < |rows| { assert longer[i] == rows[i] && longer[j] == rows[j]; }
      }
    }
  }

  /** So is a status write. */
  lemma RejectsOverwriteExactly(key: UniqueKey, rows: seq<Reservation>, i: nat, to: ReservationStatus)
    requires KeyHolds(key, rows) && i < |rows|
    ensures OverwriteRejected(key, rows, i, to) <==> !KeyHolds(key, WithStatus(rows, i, to))
  {
    var later := WithStatus(rows, i, to);
    if OverwriteRejected(key, rows, i, to) {
      var j :| 0 <= j < |rows| && j != i && Occupies(key, rows[j], rows[i].resource, rows[i].position);
      assert later[j] == rows[j] && later[i].position == rows[i].position;
      assert CountsForKey(key, later[i]) && CountsForKey(key, later[j]);
    } else {
      forall a, b | 0 <= a < b < |later| && CountsForKey(key, later[a]) && CountsForKey(key, later[b])
        ensures later[a].resource != later[b].resource || later[a].position != later[b].position
      {
        assert a == i ==> CountsForKey(key, rows[b]) && later[b] == rows[b];
        assert b == i ==> CountsForKey(key, rows[a]) && later[a] == rows[a];
        if key == ActiveKey && a == i { assert !Occupies(key, rows[b], rows[i].resource, rows[i].position); }
        if key == ActiveKey && b == i { assert !Occupies(key, rows[a], rows[i].resource, rows[i].position); }
      }
    }
  }

  lemma MoveKeepsKey(key: UniqueKey, rows: seq<Reservation>, i: nat, to: ReservationStatus)
    requires KeyHolds(key, rows)
    ensures KeyHolds(key, ChangeStatusOf(rows, i, to))
  {
    var later := ChangeStatusOf(rows, i, to);
    forall j | 0 <= j < |rows| && CountsForKey(key, later[j])
      ensures CountsForKey(key, rows[j])
      ensures later[j].resource == rows[j].resource && later[j].position == rows[j].position
    {
      if j == i && i < |rows| { ReservationMovesAreExact(rows[i].status, to); }
    }
  }

  lemma KeyStep(key: UniqueKey, s: State, st: Statement)
    requires KeyHolds(key, s.rows)
    ensures KeyHolds(key, Step(key, s, st).rows)
  {
    match st
    case TryInsert(c) =>
      if c < |s.calls| && s.calls[c].phase.Inserting? {
        RejectsInsertExactly(key, s.rows,
                             Reservation(s.calls[c].resource, s.calls[c].member, s.calls[c].phase.next, Queued));
      }
    case ChangeStatus(i, to) => MoveKeepsKey(key, s.rows, i, to);
    case OverwriteStatus(i, to) => if i < |s.rows| { RejectsOverwriteExactly(key, s.rows, i, to); }
    case _ =>
  }

  /** Whatever runs, no two rows the key ranges over ever share a position of a resource. */
  lemma {:induction false} KeyIsKept(key: UniqueKey, s: State, schedule: seq<Statement>)
    requires KeyHolds(key, s.rows)
    ensures KeyHolds(key, Run(key, s, schedule).rows)
    decreases |schedule|
  {
    if schedule != [] {
      KeyStep(key, s, schedule[0]);
      KeyIsKept(key, Step(key, s, schedule[0]), schedule[1..]);
    }
  }
}
