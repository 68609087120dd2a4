/**
 A thesis submission under concurrent uploads and status moves, each a read with checks followed by an
 update by id.
 */
module ThesisSubmission {
  import opened Common
  import opened StateMachines
  import opened Numerals

  datatype Submission =
    Submission(status: SubmissionStatus, filePath: Option<string>, submittedAt: Option<int>, version: nat)

  const NEW_DRAFT: Submission := Submission(Draft, None, None, 0)

  function Prefix(id: nat): string {
    "theses/" + Numeral(id) + "/"
  }

  /** The key an upload of this submission may have. */
  predicate IsOwnKey(id: nat, key: string) {
    Prefix(id) <= key && !Contains(key, "..")
  }

  predicate HasFile(s: Submission) {
    s.filePath.Some? && s.filePath.value != ""
  }

  predicate MayMove(s: Submission, to: SubmissionStatus) {
    !(to == Submitted && !HasFile(s)) && IsLegal(SUBMISSION_TRANSITIONS, s.status, to)
  }

  function AfterConfirm(s: Submission, key: string): Submission {
    s.(filePath := Some(key), version := s.version + 1)
  }

  /** The update writes the status and the submission time it read, or now when it submits. */
  function AfterMove(s: Submission, to: SubmissionStatus, readAt: Option<int>, now: int): Submission {
    s.(status := to, submittedAt := if to == Submitted then Some(now) else readAt, version := s.version + 1)
  }

  // ---------- the service, its operations whole ----------

  datatype Failure = NotFound | NotADraft | ForeignKey | NoFile | IllegalTransition

  datatype Result = Ok(submission: Submission) | Err(error: Failure)

  class ThesisSubmissionService {
    var submissions: seq<Submission>

    constructor ()
      ensures submissions == []
    {
      submissions := [];
    }

    method CreateDraft() returns (id: nat)
      modifies this
      ensures id == |old(submissions)| && submissions == old(submissions) + [Submission(Draft, None, None, 0)]
      ensures Sound(id, State(submissions[id], map[]))
    {
      id := |submissions|;
      NewDraftIsSound(id);
      submissions := submissions + [NEW_DRAFT];
    }

    method ConfirmUpload(id: nat, key: string) returns (r: Result)
      modifies this
      ensures r == Err(NotFound) <==> id >= |old(submissions)|
      ensures r == Err(NotADraft) <==> id < |old(submissions)| && old(submissions)[id].status != Draft
      ensures r.Ok? <==> id < |old(submissions)| && old(submissions)[id].status == Draft && IsOwnKey(id, key)
      ensures id < |old(submissions)| ==>
                var x := old(submissions)[id];
                (r.Ok? <==> x.status == Draft && "theses/" + Numeral(id) + "/" <= key && !Contains(key, "..")) &&
                (r.Ok? ==> submissions == old(submissions)[id := r.submission] &&
                           r.submission == Submission(x.status, Some(key), x.submittedAt, x.version + 1) &&
                           r.submission == AfterConfirm(x, key))
      ensures r.Err? ==> submissions == old(submissions) && r.error in {NotFound, NotADraft, ForeignKey}
    {
      if id >= |submissions| {
        return Err(NotFound);
      }
      if submissions[id].status != Draft {
        return Err(NotADraft);
      }
      if !(Prefix(id) <= key) || Contains(key, "..") {
        return Err(ForeignKey);
      }
      submissions := submissions[id := AfterConfirm(submissions[id], key)];
      r := Ok(submissions[id]);
    }

    method Transition(id: nat, to: SubmissionStatus, now: int) returns (r: Result)
      modifies this
      ensures r == Err(NotFound) <==> id >= |old(submissions)|
      ensures r == Err(NoFile) <==>
              id < |old(submissions)| && to == Submitted &&
              (old(submissions)[id].filePath == None || old(submissions)[id].filePath == Some(""))
      ensures r.Ok? <==> id < |old(submissions)| && MayMove(old(submissions)[id], to)
      ensures r.Ok? ==>
                var x := old(submissions)[id];
                submissions == old(submissions)[id := r.submission] &&
                r.submission.status == to && r.submission.version == x.version + 1 &&
                r.submission.filePath == x.filePath &&
                r.submission.submittedAt == (if to == Submitted then Some(now) else x.submittedAt) &&
                r.submission == AfterMove(x, to, x.submittedAt, now)
      ensures r.Err? ==> submissions == old(submissions) && r.error in {NotFound, NoFile, IllegalTransition}
    {
      if id >= |submissions| {
        return Err(NotFound);
      }
      var submission := submissions[id];
      if to == Submitted && !HasFile(submission) {
        return Err(NoFile);
      }
      if !IsLegal(SUBMISSION_TRANSITIONS, submission.status, to) {
        return Err(IllegalTransition);
      }
      submissions := submissions[id := AfterMove(submission, to, submission.submittedAt, now)];
      r := Ok(submissions[id]);
    }
  }

  // ---------- the statements, interleaved, on one submission ----------

  /** `seen` is the version at the read, which the code does not keep. */
  datatype Pending =
    | Confirming(key: string, seen: nat)
    | Moving(from: SubmissionStatus, to: SubmissionStatus, readAt: Option<int>, seen: nat)

  datatype State = State(submission: Submission, calls: map<nat, Pending>)

  datatype Statement =
    | ReadToConfirm(call: nat, key: string)
    | WriteConfirm(call: nat)
    | ReadToMove(call: nat, to: SubmissionStatus)
    | WriteMove(call: nat, now: int)

  predicate Writes(s: State, st: Statement) {
    match st
    case WriteConfirm(c) => c in s.calls && s.calls[c].Confirming?
    case WriteMove(c, _) => c in s.calls && s.calls[c].Moving?
    case _ => false
  }

  function Step(id: nat, s: State, st: Statement): State {
    var x := s.submission;
    match st
    case ReadToConfirm(c, key) =>
      if c !in s.calls && x.status == Draft && IsOwnKey(id, key) then
        s.(calls := s.calls[c := Confirming(key, x.version)])
      else s
    case WriteConfirm(c) =>
      if Writes(s, st) then State(AfterConfirm(x, s.calls[c].key), s.calls - {c}) else s
    case ReadToMove(c, to) =>
      if c !in s.calls && MayMove(x, to) then
        s.(calls := s.calls[c := Moving(x.status, to, x.submittedAt, x.version)])
      else s
    case WriteMove(c, now) =>
      if Writes(s, st) then State(AfterMove(x, s.calls[c].to, s.calls[c].readAt, now), s.calls - {c}) else s
  }

  function Run(id: nat, s: State, schedule: seq<Statement>): State
    decreases |schedule|
  {
    if schedule == [] then s else Run(id, Step(id, s, schedule[0]), schedule[1..])
  }

  function WriteCount(id: nat, s: State, schedule: seq<Statement>): nat
    decreases |schedule|
  {
    if schedule == [] then 0 else
      (if Writes(s, schedule[0]) then 1 else 0) + WriteCount(id, Step(id, s, schedule[0]), schedule[1..])
  }

  predicate HasOwnFile(id: nat, x: Submission) {
    x.filePath.Some? && IsOwnKey(id, x.filePath.value)
  }

  /** A submission past draft has its submission time and a file of its own. */
  predicate IsComplete(id: nat, x: Submission) {
    x.status != Draft ==> x.submittedAt.Some? && HasOwnFile(id, x)
  }

  predicate PendingIsSound(id: nat, x: Submission, p: Pending) {
    p.seen <= x.version &&
    match p
    case Confirming(key, seen) => IsOwnKey(id, key) && (seen == x.version ==> x.status == Draft)
    case Moving(from, to, readAt, seen) =>
      IsLegal(SUBMISSION_TRANSITIONS, from, to) && to != Draft && HasOwnFile(id, x) &&
      (to != Submitted ==> readAt.Some?) && (seen == x.version ==> x.status == from)
  }

  ghost predicate Sound(id: nat, s: State) {
    IsComplete(id, s.submission) && (s.submission.filePath.Some? ==> HasOwnFile(id, s.submission)) &&
    forall c | c in s.calls :: PendingIsSound(id, s.submission, s.calls[c])
  }

  /** The runs below may start where the service starts a submission. */
  lemma NewDraftIsSound(id: nat)
    ensures Sound(id, State(NEW_DRAFT, map[])) && TimesAgree(State(NEW_DRAFT, map[]))
  {
  }

  lemma StepStaysSound(id: nat, s: State, st: Statement)
    requires Sound(id, s)
    ensures Sound(id, Step(id, s, st))
    ensures s.submission.status != Draft ==> Step(id, s, st).submission.status != Draft
    ensures Step(id, s, st).submission.version == s.submission.version + if Writes(s, st) then 1 else 0
  {
    var t := Step(id, s, st);
    forall c | c in t.calls ensures PendingIsSound(id, t.submission, t.calls[c]) {
      if c in s.calls { assert PendingIsSound(id, s.submission, s.calls[c]); }
    }
  }

  /**
   Whatever interleaves, a submission past draft has its submission time and a file under its own prefix, it
   never becomes a draft again, and its version counts the committed writes.
   */
  lemma {:induction false} SubmissionsStayComplete(id: nat, s: State, schedule: seq<Statement>)
    requires Sound(id, s)
    ensures var t := Run(id, s, schedule);
            Sound(id, t) && IsComplete(id, t.submission) &&
            (s.submission.status != Draft ==> t.submission.status != Draft) &&
            t.submission.version == s.submission.version + WriteCount(id, s, schedule)
    decreases |schedule|
  {
    if schedule != [] {
      StepStaysSound(id, s, schedule[0]);
      SubmissionsStayComplete(id, Step(id, s, schedule[0]), schedule[1..]);
    }
  }

  // ---------- exactly which late writes keep to the table ----------

  /** The write moves along the transition table, or replaces no file but a draft's. */
  predicate Conforms(x: Submission, y: Submission, st: Statement) {
    match st
    case WriteMove(_, _) => IsLegal(SUBMISSION_TRANSITIONS, x.status, y.status)
    case WriteConfirm(_) => x.status != Draft ==> y.filePath == x.filePath
    case _ => true
  }

  /**
   The guard the late writes lack: the status is still the one the move was checked against, or one from which
   the thesis may be published as well; the upload still finds a draft, or brings the file that is there.
   */
  predicate Applies(s: State, st: Statement) {
    match st
    case WriteMove(c, _) =>
      Writes(s, st) ==>
        s.submission.status == s.calls[c].from ||
        (s.calls[c].to == Published && s.submission.status in {Approved, Embargoed})
    case WriteConfirm(c) =>
      Writes(s, st) ==> s.submission.status == Draft || s.submission.filePath == Some(s.calls[c].key)
    case _ => true
  }

  /** A write conforms exactly when its guard holds. */
  lemma ConformingIsExact(id: nat, s: State, st: Statement)
    requires Sound(id, s) && Writes(s, st)
    ensures Conforms(s.submission, Step(id, s, st).submission, st) <==> Applies(s, st)
  {
    assert PendingIsSound(id, s.submission, s.calls[st.call]);
  }

  ghost predicate AlwaysConforms(id: nat, s: State, schedule: seq<Statement>)
    decreases |schedule|
  {
    schedule == [] ||
    ((Writes(s, schedule[0]) ==> Conforms(s.submission, Step(id, s, schedule[0]).submission, schedule[0])) &&
     AlwaysConforms(id, Step(id, s, schedule[0]), schedule[1..]))
  }

  predicate AllApply(id: nat, s: State, schedule: seq<Statement>)
    decreases |schedule|
  {
    schedule == [] || (Applies(s, schedule[0]) && AllApply(id, Step(id, s, schedule[0]), schedule[1..]))
  }

  /** A run keeps to the table, and to the file that was submitted, exactly when every write's guard holds. */
  lemma {:induction false} ConformsExactlyWhenApplying(id: nat, s: State, schedule: seq<Statement>)
    requires Sound(id, s)
    ensures AlwaysConforms(id, s, schedule) <==> AllApply(id, s, schedule)
    decreases |schedule|
  {
    if schedule != [] {
      StepStaysSound(id, s, schedule[0]);
      if Writes(s, schedule[0]) { ConformingIsExact(id, s, schedule[0]); }
      ConformsExactlyWhenApplying(id, Step(id, s, schedule[0]), schedule[1..]);
    }
  }

  /** The version the call read is still there: the check the schema asks of every writer and the code lacks. */
  predicate IsFresh(s: State, st: Statement) {
    match st
    case WriteConfirm(c) => c in s.calls ==> s.calls[c].seen == s.submission.version
    case WriteMove(c, _) => c in s.calls ==> s.calls[c].seen == s.submission.version
    case _ => true
  }

  /** That check is enough: a fresh write's guard holds, and only a draft's file is replaced. */
  lemma FreshWritesFollowTheTable(id: nat, s: State, st: Statement)
    requires Sound(id, s) && IsFresh(s, st) && Writes(s, st)
    ensures Applies(s, st)
    ensures var x, y := s.submission, Step(id, s, st).submission;
            match st
            case WriteConfirm(_) => x.status == y.status == Draft
            case WriteMove(_, _) => IsLegal(SUBMISSION_TRANSITIONS, x.status, y.status) && y.filePath == x.filePath
            case _ => true
  {
    assert PendingIsSound(id, s.submission, s.calls[st.call]);
  }

  /** The order in which the table passes through the statuses. */
  function Rank(status: SubmissionStatus): nat {
    match status
    case Draft => 0
    case Submitted => 1
    case UnderReview => 2
    case Approved => 3
    case Embargoed => 4
    case Published => 5
    case Rejected => 5
  }

  /** Along a run whose writes keep to the table the status only advances and a submitted file never changes. */
  lemma {:induction false} ApplyingRunsAdvance(id: nat, s: State, schedule: seq<Statement>)
    requires Sound(id, s) && AllApply(id, s, schedule)
    ensures var x, y := s.submission, Run(id, s, schedule).submission;
            Rank(x.status) <= Rank(y.status) &&
            (Rank(x.status) == Rank(y.status) ==> x.status == y.status) &&
            (x.status != Draft ==> y.filePath == x.filePath)
    decreases |schedule|
  {
    if schedule != [] {
      StepStaysSound(id, s, schedule[0]);
      if Writes(s, schedule[0]) { ConformingIsExact(id, s, schedule[0]); }
      ApplyingRunsAdvance(id, Step(id, s, schedule[0]), schedule[1..]);
    }
  }

  // ---------- the submission time ----------

  /** Whoever is about to move a submission past draft holds the submission time it has. */
  ghost predicate TimesAgree(s: State) {
    forall c | c in s.calls && s.calls[c].Moving? && s.calls[c].from != Draft ::
      s.submission.status != Draft && s.calls[c].readAt == s.submission.submittedAt
  }

  /** A submission that writes finds the draft, or writes the very time that is there. */
  predicate SubmitsOnce(s: State, st: Statement) {
    match st
    case WriteMove(c, now) =>
      Writes(s, st) && s.calls[c].to == Submitted ==>
        s.submission.status == Draft || s.submission.submittedAt == Some(now)
    case _ => true
  }

  predicate KeepsTime(x: Submission, y: Submission) {
    x.status != Draft ==> y.submittedAt == x.submittedAt
  }

  lemma TimeStep(id: nat, s: State, st: Statement)
    requires Sound(id, s) && TimesAgree(s)
    ensures KeepsTime(s.submission, Step(id, s, st).submission) <==> SubmitsOnce(s, st)
    ensures SubmitsOnce(s, st) ==> TimesAgree(Step(id, s, st))
  {
    var t := Step(id, s, st);
    if Writes(s, st) { assert PendingIsSound(id, s.submission, s.calls[st.call]); }
    if SubmitsOnce(s, st) {
      forall c | c in t.calls && t.calls[c].Moving? && t.calls[c].from != Draft
        ensures t.submission.status != Draft && t.calls[c].readAt == t.submission.submittedAt
      {
        if c in s.calls { assert s.calls[c] == t.calls[c]; }
      }
    }
  }

  predicate AlwaysKeepsTime(id: nat, s: State, schedule: seq<Statement>)
    decreases |schedule|
  {
    schedule == [] ||
    (KeepsTime(s.submission, Step(id, s, schedule[0]).submission) &&
     AlwaysKeepsTime(id, Step(id, s, schedule[0]), schedule[1..]))
  }

  predicate AllSubmitOnce(id: nat, s: State, schedule: seq<Statement>)
    decreases |schedule|
  {
    schedule == [] || (SubmitsOnce(s, schedule[0]) && AllSubmitOnce(id, Step(id, s, schedule[0]), schedule[1..]))
  }

  /** Once past draft the submission time never changes exactly when no second submission writes another time. */
  lemma {:induction false} TimeStaysExactly(id: nat, s: State, schedule: seq<Statement>)
    requires Sound(id, s) && TimesAgree(s)
    ensures AlwaysKeepsTime(id, s, schedule) <==> AllSubmitOnce(id, s, schedule)
    decreases |schedule|
  {
    if schedule != [] {
      TimeStep(id, s, schedule[0]);
      StepStaysSound(id, s, schedule[0]);
      if SubmitsOnce(s, schedule[0]) {
        TimeStaysExactly(id, Step(id, s, schedule[0]), schedule[1..]);
      }
    }
  }

  /** In particular along a run in which each write's guard holds. */
  lemma {:induction false} ApplyingRunsKeepTheTime(id: nat, s: State, schedule: seq<Statement>)
    requires Sound(id, s) && TimesAgree(s) && AllApply(id, s, schedule)
    ensures KeepsTime(s.submission, Run(id, s, schedule).submission) && TimesAgree(Run(id, s, schedule))
    decreases |schedule|
  {
    if schedule != [] {
      if Writes(s, schedule[0]) { assert PendingIsSound(id, s.submission, s.calls[schedule[0].call]); }
      TimeStep(id, s, schedule[0]);
      StepStaysSound(id, s, schedule[0]);
      ApplyingRunsKeepTheTime(id, Step(id, s, schedule[0]), schedule[1..]);
    }
  }

  // ---------- whose file it is ----------

  lemma {:induction false} SlashEndsTheNumber(a: string, b: string, rest: string)
    requires '/' !in a && '/' !in b && a + "/" <= b + "/" + rest
    ensures a == b
    decreases |a|
  {
    var key := b + "/" + rest;
    assert (a + "/")[0] == key[0];
    assert a != [] ==> a[0] in a && a[0] != '/';
    assert b != [] ==> b[0] in b && b[0] != '/' && key[0] == b[0];
    if a != [] && b != [] {
      assert (a + "/")[1..] == a[1..] + "/" && key[1..] == b[1..] + "/" + rest;
      assert (a + "/")[1..] <= key[1..];
      SlashEndsTheNumber(a[1..], b[1..], rest);
    }
  }

  /** No upload belongs to two submissions. */
  lemma OwnKeysDiffer(i: nat, j: nat, key: string)
    requires IsOwnKey(i, key) && IsOwnKey(j, key)
    ensures i == j
  {
    var a, b := Numeral(i), Numeral(j);
    var n := |"theses/"|;
    assert Prefix(i)[n..] == a + "/" && Prefix(j)[n..] == b + "/";
    assert key == Prefix(j) + key[|Prefix(j)|..];
    assert key[n..] == b + "/" + key[|Prefix(j)|..];
    assert Prefix(i)[n..] <= key[n..];
    SlashEndsTheNumber(a, b, key[|Prefix(j)|..]);
    ParseNumeral(i);
    ParseNumeral(j);
  }

  // ---------- a run that leaves the table ----------

  lemma {:induction false} RunInTurn(id: nat, s: State, a: seq<Statement>, b: seq<Statement>)
    ensures Run(id, s, a + b) == Run(id, Run(id, s, a), b)
    decreases |a|
  {
    if a == [] {
      assert a + b == b;
    } else {
      assert (a + b)[1..] == a[1..] + b;
      RunInTurn(id, Step(id, s, a[0]), a[1..], b);
    }
  }

  lemma RunOfTwo(id: nat, s: State, a: Statement, b: Statement)
    ensures Run(id, s, [a, b]) == Step(id, Step(id, s, a), b)
  {
    assert [a, b][1..] == [b] && [b][1..] == [];
    assert Run(id, Step(id, s, a), [b]) == Step(id, Step(id, s, a), b);
  }

  lemma WholeUpload(id: nat, x: Submission, key: string)
    requires x.status == Draft && IsOwnKey(id, key)
    ensures Run(id, State(x, map[]), [ReadToConfirm(0, key), WriteConfirm(0)]) == State(AfterConfirm(x, key), map[])
  {
    RunOfTwo(id, State(x, map[]), ReadToConfirm(0, key), WriteConfirm(0));
    assert map[0 := Confirming(key, x.version)] - {0} == map[];
  }

  lemma WholeMove(id: nat, x: Submission, to: SubmissionStatus, now: int)
    requires MayMove(x, to)
    ensures Run(id, State(x, map[]), [ReadToMove(0, to), WriteMove(0, now)]) ==
            State(AfterMove(x, to, x.submittedAt, now), map[])
  {
    RunOfTwo(id, State(x, map[]), ReadToMove(0, to), WriteMove(0, now));
    assert map[0 := Moving(x.status, to, x.submittedAt, x.version)] - {0} == map[];
  }

  lemma UndottedKeyIsOwn(id: nat, name: string)
    requires '.' !in name
    ensures IsOwnKey(id, Prefix(id) + name) && Prefix(id) + name != ""
  {
    var key := Prefix(id) + name;
    assert forall i | 0 <= i < |key| :: key[i] != '.';
    forall i | 0 <= i <= |key| ensures !(".." <= key[i..]) {
      if i < |key| { assert key[i..][0] != '.'; }
    }
  }

  /** A new draft's upload, submission and move to review, one after the other. */
  lemma ReachesReview(id: nat, now: int) returns (schedule: seq<Statement>)
    ensures var s := Run(id, State(NEW_DRAFT, map[]), schedule);
            s.submission.status == UnderReview && s.calls == map[]
  {
    var key := Prefix(id) + "a";
    UndottedKeyIsOwn(id, "a");
    var upload := [ReadToConfirm(0, key), WriteConfirm(0)];
    var submit := [ReadToMove(0, Submitted), WriteMove(0, now)];
    var review := [ReadToMove(0, UnderReview), WriteMove(0, now)];
    var x1 := AfterConfirm(NEW_DRAFT, key);
    var x2 := AfterMove(x1, Submitted, None, now);
    WholeUpload(id, NEW_DRAFT, key);
    WholeMove(id, x1, Submitted, now);
    WholeMove(id, x2, UnderReview, now);
    RunInTurn(id, State(NEW_DRAFT, map[]), upload, submit);
    RunInTurn(id, State(NEW_DRAFT, map[]), upload + submit, review);
    schedule := upload + submit + review;
  }

  /**
   The table can be left from a new draft: of two reviews that both read the submission under review, the one
   that writes second approves what the other rejected.
   */
  lemma StaleReviewRevivesARejection(id: nat, now: int) returns (schedule: seq<Statement>)
    ensures var s := Run(id, State(NEW_DRAFT, map[]), schedule);
            var r := Step(id, s, WriteMove(1, now));
            r.submission.status == Rejected && Step(id, r, WriteMove(2, now)).submission.status == Approved
  {
    var before := ReachesReview(id, now);
    var s := Run(id, State(NEW_DRAFT, map[]), before);
    var both := [ReadToMove(1, Rejected), ReadToMove(2, Approved)];
    RunOfTwo(id, s, ReadToMove(1, Rejected), ReadToMove(2, Approved));
    RunInTurn(id, State(NEW_DRAFT, map[]), before, both);
    schedule := before + both;
  }

  /** Another one: an upload that read the draft replaces the file after the submission. */
  lemma StaleUploadReplacesASubmittedFile(id: nat, now: int) returns (schedule: seq<Statement>)
    ensures var s := Run(id, State(NEW_DRAFT, map[]), schedule);
            s.submission.status == Submitted &&
            Step(id, s, WriteConfirm(1)).submission.filePath != s.submission.filePath
  {
    var a, b := Prefix(id) + "a", Prefix(id) + "b";
    UndottedKeyIsOwn(id, "a");
    UndottedKeyIsOwn(id, "b");
    assert a != b by { assert a[|a| - 1] != b[|a| - 1]; }
    var upload := [ReadToConfirm(0, a), WriteConfirm(0)];
    var late, submit := [ReadToConfirm(1, b)], [ReadToMove(2, Submitted), WriteMove(2, now)];
    var x := AfterConfirm(NEW_DRAFT, a);
    WholeUpload(id, NEW_DRAFT, a);
    var s := Step(id, State(x, map[]), ReadToConfirm(1, b));
    assert late[1..] == [] && Run(id, State(x, map[]), late) == s;
    RunOfTwo(id, s, ReadToMove(2, Submitted), WriteMove(2, now));
    RunInTurn(id, State(NEW_DRAFT, map[]), upload, late);
    RunInTurn(id, State(NEW_DRAFT, map[]), upload + late, submit);
    schedule := upload + late + submit;
  }
}
