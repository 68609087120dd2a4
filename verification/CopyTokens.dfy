/**
 The copy version as a page token, and what borrows do to the copies of one book.
 */
module CopyTokens {
  import opened Common
  import opened StateMachines
  import opened Circulation
  import opened Ledger

  /** The copy the detail page shows and the version it embeds. */
  function PageCopy(db: Db, book: int): Option<nat> {
    var ids := AvailableIds(db.copies, book);
    if ids == [] then None else Some(ids[0])
  }

  /** The page shows the available copy of the book with the lowest id, and none exactly when there is none. */
  lemma PageShowsTheLowest(db: Db, book: int)
    ensures PageCopy(db, book) == None <==>
            forall c | 0 <= c < |db.copies| :: db.copies[c].book != book || db.copies[c].status != Available
    ensures PageCopy(db, book).Some? ==>
              var c := PageCopy(db, book).value;
              c < |db.copies| && db.copies[c].book == book && db.copies[c].status == Available &&
              forall k | 0 <= k < c :: db.copies[k].book != book || db.copies[k].status != Available
  {
    FirstAvailableIsLowest(db.copies, book);
    var ids := AvailableIds(db.copies, book);
    if ids != [] { assert CanBeLent(db.copies[ids[0]], book); }
    assert forall c | 0 <= c < |db.copies| ::
      CanBeLent(db.copies[c], book) <==> db.copies[c].book == book && db.copies[c].status == Available;
  }

  /** The check a borrow post passes before the borrow. */
  predicate TokenHolds(db: Db, book: int, c: nat, version: nat) {
    c < |db.copies| && db.copies[c].book == book &&
    db.copies[c].version == version && db.copies[c].status == Available
  }

  /** The statement lends or shelves the copy. */
  predicate Touches(s: State, st: Statement, c: nat) {
    match st
    case Borrow(book, _, _) => PageCopy(s.db, book) == Some(c)
    case WriteReturn(d, _) => Swaps(s, d) && s.db.loans[s.calls[d].loan].copy == c
    case _ => false
  }

  function TouchCount(policy: Policy, s: State, schedule: seq<Statement>, c: nat): nat
    decreases |schedule|
  {
    if schedule == [] then 0 else
      One(Touches(s, schedule[0], c)) + TouchCount(policy, Step(policy, s, schedule[0]), schedule[1..], c)
  }

  lemma StepTouches(policy: Policy, s: State, st: Statement, c: nat)
    requires c < |s.db.copies|
    ensures var t := Step(policy, s, st);
            |t.db.copies| == |s.db.copies| && t.db.copies[c].book == s.db.copies[c].book &&
            t.db.copies[c].version == s.db.copies[c].version + One(Touches(s, st, c)) &&
            (!Touches(s, st, c) ==> t.db.copies[c] == s.db.copies[c])
  {
    match st
    case Borrow(_, _, _) =>
    case WriteReturn(_, _) =>
    case _ =>
  }

  /** The version counts the borrows and returns of the copy, and without one the copy keeps its status. */
  lemma {:induction false} VersionCountsTouches(policy: Policy, s: State, schedule: seq<Statement>, c: nat)
    requires c < |s.db.copies|
    ensures var t := Run(policy, s, schedule);
            |t.db.copies| == |s.db.copies| && t.db.copies[c].book == s.db.copies[c].book &&
            t.db.copies[c].version == s.db.copies[c].version + TouchCount(policy, s, schedule, c) &&
            (TouchCount(policy, s, schedule, c) == 0 ==> t.db.copies[c] == s.db.copies[c])
    decreases |schedule|
  {
    if schedule != [] {
      StepTouches(policy, s, schedule[0], c);
      VersionCountsTouches(policy, Step(policy, s, schedule[0]), schedule[1..], c);
    }
  }

  /** A token taken from a page holds, whatever ran since, exactly when no borrow or return touched the copy. */
  lemma TokenIsExact(policy: Policy, s: State, schedule: seq<Statement>, book: int)
    requires PageCopy(s.db, book).Some?
    ensures var c := PageCopy(s.db, book).value;
            TokenHolds(Run(policy, s, schedule).db, book, c, s.db.copies[c].version) <==>
            TouchCount(policy, s, schedule, c) == 0
  {
    VersionCountsTouches(policy, s, schedule, PageCopy(s.db, book).value);
  }

  // ---------- a post is the check and, later, the borrow ----------

  /** The borrow lends a copy with an id no greater than c exactly when one of those is available by then. */
  lemma LentIdIsExact(db: Db, book: int, member: int, dueAt: int, c: nat)
    requires AvailableIds(db.copies, book) != []
    ensures var after := AfterBorrow(db, book, member, dueAt);
            |after.loans| == |db.loans| + 1 &&
            (after.loans[|db.loans|].copy <= c <==>
             exists k | 0 <= k < |db.copies| :: k <= c && CanBeLent(db.copies[k], book))
  {
    FirstAvailableIsLowest(db.copies, book);
    var first := AvailableIds(db.copies, book)[0];
    assert first < |db.copies| && CanBeLent(db.copies[first], book);
  }

  /**
   When the copy is not touched between a post's check and its borrow, the borrow succeeds and lends a copy
   with an id no greater than the one posted.
   */
  lemma UntouchedPostLends(policy: Policy, checked: State, between: seq<Statement>, book: int, c: nat, version: nat,
                           member: int, dueAt: int)
    requires TokenHolds(checked.db, book, c, version) && TouchCount(policy, checked, between, c) == 0
    ensures var db := Run(policy, checked, between).db;
            var after := AfterBorrow(db, book, member, dueAt);
            |after.loans| == |db.loans| + 1 && after.loans[|db.loans|].copy <= c
  {
    var db := Run(policy, checked, between).db;
    VersionCountsTouches(policy, checked, between, c);
    FirstAvailableIsLowest(db.copies, book);
    assert CanBeLent(db.copies[c], book);
    LentIdIsExact(db, book, member, dueAt, c);
  }

  /**
   The borrow does not look at the token again: of two posts of the first copy that both pass the check, the
   second lends another copy, with a greater id.
   */
  lemma SecondPostLendsAnotherCopy(policy: Policy, member: int, other: int, dueAt: int)
    ensures var copy := Copy(1, Available, 0);
            var s := State(Db([copy, copy], []), map[], []);
            TokenHolds(s.db, 1, 0, 0) &&
            Run(policy, s, [Borrow(1, member, dueAt), Borrow(1, other, dueAt)]).db.loans ==
            [Loan(0, member, Active, 0, dueAt, None), Loan(1, other, Active, 0, dueAt, None)]
  {
    var copy := Copy(1, Available, 0);
    var s := State(Db([copy, copy], []), map[], []);
    var sts := [Borrow(1, member, dueAt), Borrow(1, other, dueAt)];
    FirstAvailableIsLowest(s.db.copies, 1);
    assert CanBeLent(s.db.copies[0], 1);
    var t := Step(policy, s, sts[0]);
    assert t.db.copies == [LendCopy(copy), copy];
    FirstAvailableIsLowest(t.db.copies, 1);
    assert CanBeLent(t.db.copies[1], 1) && !CanBeLent(t.db.copies[0], 1);
    assert sts[1..] == [sts[1]] && [sts[1]][1..] == [];
    assert Run(policy, s, sts) == Run(policy, t, [sts[1]]) == Step(policy, t, sts[1]);
  }

  // ---------- many borrows of one book ----------

  datatype Request = Request(member: int, dueAt: int)

  function AfterBorrows(db: Db, book: int, requests: seq<Request>): Db
    decreases |requests|
  {
    if requests == [] then db else
      AfterBorrows(AfterBorrow(db, book, requests[0].member, requests[0].dueAt), book, requests[1..])
  }

  lemma {:induction false} LendingTheFirst(copies: seq<Copy>, book: int, c: nat, copy: Copy)
    requires AvailableIds(copies, book) != [] && c == AvailableIds(copies, book)[0] && !CanBeLent(copy, book)
    ensures AvailableIds(copies[c := copy], book) == AvailableIds(copies, book)[1..]
  {
    var n := |copies| - 1;
    var init, last := copies[..n], if CanBeLent(copies[n], book) then [n] else [];
    var rest := AvailableIds(init, book);
    assert AvailableIds(copies, book) == rest + last;
    if rest == [] {
      assert c == n && copies[c := copy][..n] == init;
    } else {
      assert c == rest[0] < n;
      LendingTheFirst(init, book, c, copy);
      assert copies[c := copy][..n] == init[c := copy];
      assert copies[c := copy][n] == copies[n];
      assert (rest + last)[1..] == rest[1..] + last;
    }
  }

  function CopiesOf(loans: seq<Loan>): seq<nat> {
    seq(|loans|, i requires 0 <= i < |loans| => loans[i].copy)
  }

  /** The borrows made the given number of loans, of the first of those copies in order. */
  ghost predicate Granted(before: Db, after: Db, book: int, ids: seq<nat>, n: nat) {
    n <= |ids| && |after.loans| == |before.loans| + n &&
    after.loans[..|before.loans|] == before.loans &&
    CopiesOf(after.loans[|before.loans|..]) == ids[..n] &&
    AvailableIds(after.copies, book) == ids[n..]
  }

  lemma OneMoreGranted(before: Db, next: Db, after: Db, book: int, ids: seq<nat>, n: nat)
    requires ids != [] && |next.loans| == |before.loans| + 1
    requires next.loans[..|before.loans|] == before.loans && next.loans[|before.loans|].copy == ids[0]
    requires Granted(next, after, book, ids[1..], n)
    ensures Granted(before, after, book, ids, n + 1)
  {
    var m := |before.loans|;
    assert after.loans[..m] == after.loans[..m + 1][..m];
    assert after.loans[m] == after.loans[..m + 1][m];
    assert CopiesOf(after.loans[m..]) == [ids[0]] + CopiesOf(after.loans[m + 1..]);
    assert ids[..n + 1] == [ids[0]] + ids[1..][..n];
    assert ids[n + 1..] == ids[1..][n..];
  }

  /**
   A run of n borrows on a book with k available copies makes min(n, k) loans, one on each of the first
   copies in order of id, and leaves the rest available.
   */
  lemma {:induction false} BorrowsTakeCopiesInOrder(db: Db, book: int, requests: seq<Request>)
    ensures var ids := AvailableIds(db.copies, book);
            Granted(db, AfterBorrows(db, book, requests), book, ids, Min(|requests|, |ids|))
    decreases |requests|
  {
    var ids := AvailableIds(db.copies, book);
    if requests != [] {
      var next := AfterBorrow(db, book, requests[0].member, requests[0].dueAt);
      BorrowsTakeCopiesInOrder(next, book, requests[1..]);
      if ids != [] {
        LendingTheFirst(db.copies, book, ids[0], LendCopy(db.copies[ids[0]]));
        OneMoreGranted(db, next, AfterBorrows(db, book, requests), book, ids, Min(|requests| - 1, |ids| - 1));
      }
    }
  }

  // ---------- a book's copies on loan are its open loans ----------

  function OnLoanBelow(copies: seq<Copy>, book: int, n: nat): nat
    requires n <= |copies|
  {
    if n == 0 then 0 else
      OnLoanBelow(copies, book, n - 1) + One(copies[n - 1].book == book && copies[n - 1].status == OnLoan)
  }

  predicate IsOpenBelow(loan: Loan, copies: seq<Copy>, book: int, n: nat)
    requires n <= |copies|
  {
    IsOpen(loan.status) && loan.copy < n && copies[loan.copy].book == book
  }

  function OpenBelow(loans: seq<Loan>, copies: seq<Copy>, book: int, n: nat): nat
    requires n <= |copies|
  {
    if loans == [] then 0 else
      OpenBelow(loans[..|loans| - 1], copies, book, n) + One(IsOpenBelow(loans[|loans| - 1], copies, book, n))
  }

  lemma {:induction false} OpenOnOneMoreCopy(loans: seq<Loan>, copies: seq<Copy>, book: int, n: nat)
    requires 0 < n <= |copies|
    ensures OpenBelow(loans, copies, book, n) == OpenBelow(loans, copies, book, n - 1) +
            if copies[n - 1].book == book then CountLoans(Opened, loans, n - 1) else 0
  {
    if loans != [] { OpenOnOneMoreCopy(loans[..|loans| - 1], copies, book, n); }
  }

  lemma {:induction false} NothingBelowZero(loans: seq<Loan>, copies: seq<Copy>, book: int)
    ensures OpenBelow(loans, copies, book, 0) == 0
  {
    if loans != [] { NothingBelowZero(loans[..|loans| - 1], copies, book); }
  }

  /** Up to any copy, the book has as many copies on loan as open loans. */
  lemma {:induction false} OnLoanCountIsOpenLoanCount(db: Db, book: int, n: nat)
    requires Balances(db) && n <= |db.copies|
    ensures OnLoanBelow(db.copies, book, n) == OpenBelow(db.loans, db.copies, book, n)
  {
    if n == 0 {
      NothingBelowZero(db.loans, db.copies, book);
    } else {
      OnLoanCountIsOpenLoanCount(db, book, n - 1);
      OpenOnOneMoreCopy(db.loans, db.copies, book, n);
      assert CopyBalances(db, n - 1);
    }
  }
}
