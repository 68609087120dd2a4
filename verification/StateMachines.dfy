/**
 The statuses of the three state machines modelled here and the table of legal moves of each,
 declared as data and consulted through one predicate.
 */
module StateMachines {

  datatype LoanStatus = Active | Returned | Overdue | LoanLost

  datatype ReservationStatus = Queued | ReadyForPickup | Expired | Fulfilled | Cancelled

  datatype SubmissionStatus =
    Draft | Submitted | UnderReview | Approved | Rejected | Embargoed | Published

  const LOAN_TRANSITIONS: map<LoanStatus, set<LoanStatus>> :=
    map[
      Active := {Returned, Overdue, LoanLost},
      Overdue := {Returned, LoanLost},
      Returned := {},
      LoanLost := {}
    ]

  const RESERVATION_TRANSITIONS: map<ReservationStatus, set<ReservationStatus>> :=
    map[
      Queued := {ReadyForPickup, Cancelled},
      ReadyForPickup := {Fulfilled, Expired, Cancelled},
      Expired := {},
      Fulfilled := {},
      Cancelled := {}
    ]

  const SUBMISSION_TRANSITIONS: map<SubmissionStatus, set<SubmissionStatus>> :=
    map[
      Draft := {Submitted},
      Submitted := {UnderReview},
      UnderReview := {Approved, Rejected},
      Approved := {Embargoed, Published},
      Embargoed := {Published},
      Rejected := {},
      Published := {}
    ]

  /** A status missing from the table has no legal move. */
  predicate IsLegal<S(==)>(transitions: map<S, set<S>>, from: S, to: S) {
    from in transitions && to in transitions[from]
  }

  /** A loan ends from any open status, turns overdue from active alone, and never turns active again. */
  lemma LoanMovesAreExact(from: LoanStatus, to: LoanStatus)
    ensures IsLegal(LOAN_TRANSITIONS, from, to) <==>
            (from == Active || from == Overdue) &&
            (to == Returned || to == LoanLost || (from == Active && to == Overdue))
  {
  }

  /** A hold is cancelled from any active status, gets ready from the queue, and ends otherwise from ready alone. */
  lemma ReservationMovesAreExact(from: ReservationStatus, to: ReservationStatus)
    ensures IsLegal(RESERVATION_TRANSITIONS, from, to) <==>
            (from == Queued && to == ReadyForPickup) ||
            (from == ReadyForPickup && (to == Fulfilled || to == Expired)) ||
            ((from == Queued || from == ReadyForPickup) && to == Cancelled)
  {
  }

  /** Where a submission may come from, by where it goes. */
  lemma SubmissionMovesAreExact(from: SubmissionStatus, to: SubmissionStatus)
    ensures IsLegal(SUBMISSION_TRANSITIONS, from, to) <==>
            match to
            case Draft => false
            case Submitted => from == Draft
            case UnderReview => from == Submitted
            case Approved => from == UnderReview
            case Rejected => from == UnderReview
            case Embargoed => from == Approved
            case Published => from == Approved || from == Embargoed
  {
  }
}
