# Verification of the university library backend

A Dafny 4.11 model of the parts of the library portal in which the order of database statements, or the
agreement of two implementations, decides whether the answer is right. `dafny verify dfyconfig.toml` checks
it all.

- **Hold queue** (`HoldQueue`, `HoldQueueProgress`, `HoldQueueRivals`, `ReservationQueue`). Any number of `enqueue`
  calls interleave; one step is one database statement. The unique key is a parameter. The Prisma schema
  (`backend/prisma/schema.prisma:338`) and its migration
  (`backend/prisma/migrations/20260715011953_init/migration.sql:297`) put it on all rows, while the service's own
  comment (`backend/src/reservation/service/reservation-queue.service.ts:13`) says that a dead row's position is free
  to reuse. The two differ, and the proofs say how: with the key of the schema positions are exactly 1..N in commit
  order, but a resource whose newest row was cancelled takes no further hold, ever, unless a call that read earlier is
  still in flight; with the key of the comment nothing jams, but a later commit can stand before an earlier one. Of
  five calls at once on a resource none gives up, under the schema's key as long as the newest row of the resource, if
  any, stays active; of six one can. The code runs under the schema's key, so the jam is real.
- **Circulation** (`Circulation`, `Ledger`, `RaceWitnesses`, `CopyTokens`, `Renewals`, `LoanService`, `CoupledRuns`,
  `SweepEvents`, `Fines`). Borrow is one step, since it holds a row lock; return, renew and the overdue sweep are the
  statements they issue. Copies and loans stay coupled exactly when each late write finds its loan still open. A
  return whose two reads come from one snapshot has that by its version check; at the default isolation level, and for
  renewals and sweeps, which write by id alone, it can fail, and `RaceWitnesses` shows how for each of the three. A
  page token is checked in a statement of its own, so a post can lend another copy than the one it names; `CopyTokens`
  says exactly when.
- **Search** (`Numerals`, `Catalog`, `Sql`, `SearchFilters`, `Facets`, `Paging`, `SearchEngines`, `WebSearch`). The
  WHERE and CASE fragments of the Postgres engine are expressions evaluated under three-valued logic and compared with
  the filters and the counting loops of the in-memory engine. The text predicate and the order of strings are
  parameters both share. The engines agree except on two inputs, each with its exact condition: a YEAR filter not
  written as the number prints, and a report whose department scope is the empty string. The links from page to page
  drop the type filter (`backend/src/web/controllers/web-search.controller.ts:110-121`), so with a type set the pages
  after the first are those of a wider query; `WebSearch` says exactly when a visitor still sees the matches.
- **Access, resources, theses** (`AccessPolicy`, `ResourceStore`, `ThesisSubmission`): the access decision against the
  label search shows, the six-table store the joins range over, and a submission under interleaved uploads and moves,
  which leaves the transition table exactly when a late write no longer applies to the row it finds.

Objects whose methods update rows are classes whose methods are proved equal to functions of the old tables; the runs
are over those functions. Instants are integer milliseconds, dates are day numbers (UTC), money is integer cents. A row's id
is its index in commit order. The clock, the fault of an insert, what other callers commit between two statements and
the rows a query must consult are parameters.

## Model

| member | source | states |
|---|---|---|
| StateMachines.LoanMovesAreExact | backend/src/common/statemachine/transition-rules.ts:47-53 | a loan ends from any open status, turns overdue from active alone, and no legal move makes it active again |
| StateMachines.ReservationMovesAreExact | backend/src/common/statemachine/transition-rules.ts:55-62 | a hold is cancelled from any active status, gets ready from the queue, and is fulfilled or expires from ready alone |
| StateMachines.SubmissionMovesAreExact | backend/src/common/statemachine/transition-rules.ts:64-73 | where a submission may come from, for each status it may go to |
| HoldQueue.MaxActive | backend/src/reservation/service/reservation-queue.service.ts:35-39 | the aggregate is an upper bound of the active positions of the resource and, unless 0, is held by one of them |
| HoldQueue.FullKeyRunIsGapless | backend/src/reservation/service/reservation-queue.service.ts:33-61 | under the full key, for any number of concurrent calls and any status writes in between, even late ones, the k-th row committed for a resource has position k |
| HoldQueue.IssuedPositionsAreOneToN | backend/prisma/schema.prisma:336-338 | the positions ever issued for a resource are exactly 1..N |
| HoldQueue.CommitOrderIsQueueOrder | backend/src/reservation/service/reservation-queue.service.ts:21-24 | first come, first served: of two rows of a resource the one committed earlier has the smaller position |
| HoldQueue.RowsOnlyGrow | backend/src/reservation/service/reservation-queue.service.ts:41-49 | a committed row keeps all but its status and an answered call keeps its answer, under either key |
| HoldQueue.EveryAnsweredCallOwnsARow | backend/src/reservation/service/reservation-queue.service.ts:41-49 | every answered call holds a row for its own resource and member that no other call holds |
| HoldQueue.KeyIsKept | backend/prisma/schema.prisma:336-338 | whatever runs, no two rows the unique key ranges over share a position of a resource |
| HoldQueue.RejectsInsertExactly | backend/src/reservation/service/reservation-queue.service.ts:41-55 | an insert is rejected if and only if it would violate the key |
| HoldQueue.RejectsOverwriteExactly | backend/src/reservation/service/reservation-queue.service.ts:13-17 | and so is a status write |
| HoldQueueRivals.GivesUpOnlyAfterFiveRivals | backend/src/reservation/service/reservation-queue.service.ts:34-60 | from any state, under either key and every schedule, a call that gives up was overtaken since that state by five other calls on its resource, each of which inserted; under the full key, while the newest row of the resource lives |
| HoldQueueRivals.FiveCallsNeverGiveUp | backend/src/reservation/service/reservation-queue.service.ts:19-60 | hence, of at most five calls on a resource that are open at once or come later, none that was not overtaken before gives up, and each is answered once it has had its five reads and five inserts |
| HoldQueueRivals.FiveCallsOnALiveQueue | backend/src/reservation/service/reservation-queue.service.ts:34-60 | under the full key: of at most five open calls on a resource whose newest row, if any, is active none that was not overtaken before gives up while no row of it changes status, and each is answered once it has had its five reads and five inserts |
| HoldQueueRivals.SixCallsCanFail | backend/src/reservation/service/reservation-queue.service.ts:19-60 | the bound is exact under either key: on any table whose queue is not jammed, six calls have a schedule in which one gives up while no row changes status |
| HoldQueueRivals.InOrderExactlyWhenOnTop | backend/src/reservation/service/reservation-queue.service.ts:13-17 | under either key the active rows of a resource stay in commit order all along a run if and only if every accepted insert lands above them |
| HoldQueueRivals.FullKeyStaysInOrder | backend/src/reservation/service/reservation-queue.service.ts:13-17 | under the full key they always do, late status writes included |
| HoldQueueRivals.ActiveKeyCanJumpTheQueue | backend/src/reservation/service/reservation-queue.service.ts:13-17 | the active-only key does not keep commit order: a concrete run in which the last commit stands before an earlier active row |
| HoldQueueProgress.JamIsForever | backend/src/reservation/service/reservation-queue.service.ts:35-60 | under the full key, once the newest row is dead and no earlier reader is in flight, no continuation gives any call on the resource a row |
| HoldQueueProgress.JamIsExact | backend/src/reservation/service/reservation-queue.service.ts:35-60 | and otherwise some continuation does: a resource can still take a hold if and only if it is not jammed |
| HoldQueueProgress.RowPerAnsweredCall | backend/src/reservation/service/reservation-queue.service.ts:33-61 | under either key and from any state, a run adds to a resource exactly one row for each call on it that it answers |
| HoldQueueProgress.PositionsCountAnsweredCalls | backend/src/reservation/service/reservation-queue.service.ts:33-61 | from an empty table under the full key, the positions held on a resource are exactly 1 to the number of calls on it answered |
| HoldQueueProgress.LateReadyMarkUnjams | backend/src/reservation/service/reservation-queue.service.ts:100-121 | the whole-step assumption matters: a ready-mark that checked before the cancel and writes after it revives the newest row and the queue |
| ReservationQueue.ReservationQueueService.Enqueue | backend/src/reservation/service/reservation-queue.service.ts:33-61 | the retry loop under arbitrary interference in each attempt ends in `EnqueueOutcome`; a success appends a queued row for the resource and member asked for, a failure is the exhausted attempts |
| ReservationQueue.ReservationQueueService.Cancel | backend/src/reservation/service/reservation-queue.service.ts:63-82 | not found, refused exactly for a row that left the queue, else only the status changes, to cancelled |
| ReservationQueue.ReservationQueueService.MarkReadyForPickup | backend/src/reservation/service/reservation-queue.service.ts:100-121 | not found, refused exactly for a row that is not queued, else only the status changes, to ready |
| ReservationQueue.ExhaustedOnlyByRivals | backend/src/reservation/service/reservation-queue.service.ts:34-60 | under the active-only key a call that fails had, inside every attempt, an accepted rival insert on its resource or a late status write that brought a row of it back |
| ReservationQueue.FullKeyFailsExactly | backend/src/reservation/service/reservation-queue.service.ts:33-60 | under the full key a call fails if and only if each of its attempts read a table whose newest row was dead or had an accepted rival insert in its window |
| ReservationQueue.LoneEnqueueIsExact | backend/src/reservation/service/reservation-queue.service.ts:33-60 | a lone call succeeds if and only if the key is active-only or the newest row, if any, is active; what it inserts then, and that nothing changes otherwise |
| ReservationQueue.CallRefinesEnqueue | backend/src/reservation/service/reservation-queue.service.ts:33-61 | a call of the state machine interleaved with any statements of others, late status writes included, ends as the method does under the writes those statements make |
| ReservationQueue.CallFailsExactly | backend/src/reservation/service/reservation-queue.service.ts:33-61 | so under the full key a call of the state machine gives up if and only if each of its attempts is doomed in that way, and is answered otherwise |
| Ledger.FreshIsExact | backend/src/loan/service/loan.service.ts:82-93 | one statement keeps the books of copies and loans if and only if the loan its late write hits is still open |
| Ledger.CoupledExactlyWhenFresh | backend/src/loan/service/loan.service.ts:33-177 | a whole run keeps them at every point if and only if all its writes are fresh |
| Ledger.NewDeskIsCoupled | backend/prisma/schema.prisma:225-232 | without loans the invariant of the runs holds if and only if every copy has version 0 and none is on loan |
| Ledger.SnapshotMakesReturnsFresh | backend/src/loan/service/loan.service.ts:67-88 | when the swap succeeds the loan is open if and only if both reads saw the same version of the copy |
| Ledger.SnapshotReturnsStayCoupled | backend/src/loan/service/loan.service.ts:33-95 | with borrows and snapshot returns interleaved at will, a copy is on loan exactly when one loan of it is open and otherwise none is |
| CoupledRuns.BlocksStayCoupled | backend/src/loan/service/loan.service.ts:33-177 | borrows, snapshot returns, whole renewals and whole sweeps in any order keep copies and loans coupled at every statement, and no loan is returned twice |
| Ledger.ReturnedAtMostOnce | backend/src/loan/service/loan.service.ts:65-94 | each loan is returned at most once, and is returned at the end exactly if one return committed or it was before |
| Ledger.VersionIsOddWhileOnLoan | backend/src/loan/service/loan.service.ts:49-52 | the version is odd exactly while the copy is on loan |
| RaceWitnesses.SplitReadReturnShelvesALentCopy | backend/src/loan/service/loan.service.ts:67-88 | with the two reads apart, a run in which a loan is returned twice and a copy with an open loan is shelved |
| RaceWitnesses.LateRenewalReopensAReturnedLoan | backend/src/loan/service/loan.service.ts:102-146 | a run in which a renewal reopens a loan that was returned between its read and its write |
| RaceWitnesses.LateSweepReopensAReturnedLoan | backend/src/loan/service/loan.service.ts:150-168 | a run in which a sweep marks a loan overdue that was returned after it was listed, so a shelved copy has an open loan |
| CopyTokens.PageShowsTheLowest | backend/src/web/controllers/web-resource.controller.ts:76-79 | the page shows the available copy of the book with the lowest id, and none exactly when there is none |
| CopyTokens.VersionCountsTouches | backend/src/loan/service/loan.service.ts:49-52 | over any run the version grows by the number of borrows and returns of the copy, and with none the copy is unchanged |
| CopyTokens.TokenIsExact | backend/src/web/controllers/web-resource.controller.ts:149-160 | a page's token passes the check after any run if and only if no borrow or return touched the copy since the page was rendered |
| CopyTokens.LentIdIsExact | backend/src/loan/service/loan.service.ts:33-63 | the borrow lends a copy with an id no greater than a given one if and only if such a copy of the book is available at that moment |
| CopyTokens.UntouchedPostLends | backend/src/web/controllers/web-resource.controller.ts:149-169 | when no borrow or return touches the copy between the check of a post and its borrow, the borrow succeeds and lends a copy with an id no greater |
| CopyTokens.SecondPostLendsAnotherCopy | backend/src/web/controllers/web-resource.controller.ts:151-169 | the borrow does not look at the token again: two posts of copy 0 both pass the check and the second lends copy 1 |
| CopyTokens.BorrowsTakeCopiesInOrder | backend/src/loan/service/loan.service.ts:33-63 | n borrows with k copies available make min(n, k) loans, one on each of the first copies by id, and leave the others available |
| CopyTokens.OnLoanCountIsOpenLoanCount | backend/src/loan/service/loan.service.ts:33-95 | while the books balance a book has as many copies on loan as open loans |
| LoanService.LoanDesk.BorrowCopy | backend/src/loan/service/loan.service.ts:33-63 | lends the lowest available copy of the book on a new active loan: the copy gets on loan with its version one up, nothing else changes, and it refuses exactly when no copy of the book is available |
| LoanService.LoanDesk.ReturnLoan | backend/src/loan/service/loan.service.ts:65-95 | not found exactly for a missing loan, illegal exactly for one neither active nor overdue; else the loan is returned at that time, its copy available with its version one up, and nothing else changes |
| LoanService.LoanDesk.RenewLoan | backend/src/loan/service/loan.service.ts:101-147 | each of the four refusals exactly, in the order checked, over the rows; else the loan is active, one renewal and one duration up, and nothing else changes |
| LoanService.LoanDesk.MarkOverdueLoans | backend/src/loan/service/loan.service.ts:150-177 | a loan turns overdue exactly if it was active, not given back and due before the instant; the new events are those ids in order, each once, and the answer is their number |
| LoanService.LoanDesk.PostBorrow | backend/src/web/controllers/web-resource.controller.ts:149-186 | the check, any statements of other calls, then the borrow: each refusal exactly, the new tables, and the id lent against the id posted if and only if one up to it is available by then |
| LoanService.ReturnIsUninterrupted | backend/src/loan/service/loan.service.ts:65-95 | the whole return is the uninterrupted run of its three statements |
| LoanService.RenewIsUninterrupted | backend/src/loan/service/loan.service.ts:101-147 | the whole renewal is the uninterrupted run of its two statements |
| LoanService.SweepIsUninterrupted | backend/src/loan/service/loan.service.ts:150-177 | the whole sweep is the uninterrupted run of its query and its updates, with the same events |
| LoanService.SweepIsIdempotent | backend/src/loan/service/loan.service.ts:150-177 | a second sweep at the same or an earlier instant finds nothing, and the loans changed are exactly those that were due |
| LoanService.WholeOperationsBalance | backend/src/loan/service/loan.service.ts:33-177 | every operation taken whole keeps copies and loans coupled |
| LoanService.EveryLoanSettles | backend/src/common/statemachine/transition-rules.ts:47-53 | although renewal leaves the transition table, at most twice the cap plus two operations take effect on a loan and it is reported overdue at most once more than it was renewed |
| SweepEvents.FlipsAreBounded | backend/src/loan/service/loan.service.ts:150-177 | under every interleaving a loan turns from active to overdue at most once more than it is renewed |
| SweepEvents.ReportsOfAnActiveLoan | backend/src/loan/service/loan.service.ts:150-177 | with at most K overlapping sweeps holding a loan it is reported at most K times, and K times more for each renewal |
| SweepEvents.ReportsAreFlipsExactly | backend/src/loan/service/loan.service.ts:150-177 | a run reports a loan once for each flip if and only if every sweep that reports it finds it active |
| RaceWitnesses.TwoSweepsReportTwice | backend/src/loan/service/loan.service.ts:151-174 | two sweeps that both listed a loan report it twice for one flip |
| Renewals.RenewalCountIsBounded | backend/src/loan/service/loan.service.ts:113-146 | with at most P renewals in flight the count never passes maxRenewals - 1 + P under any interleaving |
| Renewals.RenewalBoundIsReached | backend/src/loan/service/loan.service.ts:113-146 | for every cap of at least one and every P a run with at most P in flight reaches the bound, and all but one of the P extensions are lost |
| Renewals.CapHoldsExactly | backend/src/loan/service/loan.service.ts:113-146 | a run keeps the renewal count within the cap if and only if every renewal that writes finds one free |
| Renewals.DueDateIsBounded | backend/src/loan/service/loan.service.ts:136-146 | under any interleaving the due date is at most the original one plus a duration for each renewal counted |
| Renewals.DueDateMatchesExactlyWhenCurrent | backend/src/loan/service/loan.service.ts:136-146 | all along a run the due date counts every renewal if and only if each renewal that writes finds the due date it read |
| Renewals.DueDateIsExact | backend/src/loan/service/loan.service.ts:136-146 | a lost extension is never made good: the run ends with all renewals counted if and only if each of them found the due date it read |
| Renewals.DueDateIsExactWithoutOverlap | backend/src/loan/service/loan.service.ts:136-146 | renewals that do not overlap all count |
| Fines.FineGrowsUpToItsCap | backend/src/loan/service/fine-calculation.service.ts:33-47 | fine and days are monotone in time and the fine is never above the maximum |
| Fines.FreeUntilGraceEnds | backend/src/loan/service/fine-calculation.service.ts:35-41 | no day and no amount is charged before the due date plus grace plus one day, and a day is charged from then on |
| Fines.EachDayAddsOneRate | backend/src/loan/service/fine-calculation.service.ts:43-46 | past the grace period each further day adds one rate up to the maximum |
| Fines.FinedLoansAreOverdueAfterSweep | backend/src/loan/service/loan.service.ts:150-177 | after a sweep every open loan that owes a fine at its instant is overdue |
| Fines.FineLedger.CreateOverdueFine | backend/src/loan/service/fine-calculation.service.ts:18-72 | not found and already returned are refused exactly; a fine row is added exactly when the calculated amount is positive |
| Numerals.ParseNumeral | backend/src/search/service/postgres-fts-search.service.ts:144 | parsing the numeral of an integer gives the integer back |
| Numerals.ParseIgnoresTheTail | backend/src/search/service/postgres-fts-search.service.ts:144 | what follows the digits is ignored |
| Numerals.NumeralsAreDecimal | backend/src/search/testing/in-memory-search.service.ts:77 | numerals are decimal with a leading minus sign, and text that starts with no digit is no number |
| Catalog.TypeNamesAreExact | backend/prisma/schema.prisma:32-38 | the names of the five types, each its own |
| Catalog.StatusNamesAreExact | backend/src/search/api/facet.ts:6-11 | the names of the five access labels, each its own |
| Catalog.LabelIsExact | backend/src/search/service/catalog-access-status.ts:4-26 | which resources are shown under which label, by their own fields |
| Catalog.YearIsTheFirstSet | backend/src/search/service/postgres-fts-search.service.ts:144 | the publication year counts before the report year, and that before the year of the record |
| Catalog.SummaryShowsTheRow | backend/src/search/service/postgres-fts-search.service.ts:247-315 | the summary carries each field of the row in its own place |
| Catalog.SearchTextHasTheFields | backend/src/search/service/postgres-fts-search.service.ts:120-127 | title, description, author, isbn and doi are all in the text that is searched |
| Sql.ConnectivesAreKleene | backend/src/search/service/postgres-fts-search.service.ts:117-176 | AND and OR of the clauses follow three-valued logic |
| Sql.ComparisonsAreUnknownOfNull | backend/src/search/service/postgres-fts-search.service.ts:137-176 | a comparison is unknown exactly when a side is NULL, and the tests for NULL never are |
| SearchFilters.BuildWhereSql | backend/src/search/service/postgres-fts-search.service.ts:117-135 | the loop builds the conjunction, and a clause exists exactly when no filter is refused |
| SearchFilters.WhereIsConjunction | backend/src/search/service/postgres-fts-search.service.ts:130-134 | under three-valued logic the clause selects a row if and only if the text part and every filter are true of it |
| SearchFilters.AccessFilterSelects | backend/src/search/service/postgres-fts-search.service.ts:157-176 | the access filter for a label selects exactly the rows stored under it, with its date compared by calendar day |
| SearchFilters.FilterSelectsExactly | backend/src/search/service/postgres-fts-search.service.ts:137-176 | a filter's part of the WHERE clause is true of exactly the rows that have the value |
| SearchFilters.FilterIsRefusedExactly | backend/src/search/service/postgres-fts-search.service.ts:137-155 | only an unknown type, an unknown degree and a year that is no number are refused |
| SearchFilters.CaseGivesLabel | backend/src/search/service/postgres-fts-search.service.ts:229-241 | the CASE facet equals the label of the summary if and only if the scope is not blank |
| SearchFilters.YearFilterIsExact | backend/src/search/service/postgres-fts-search.service.ts:143-144 | the engines agree on a year filter for every row if and only if it is written canonically |
| SearchFilters.BlankScopeIsExact | backend/src/search/service/catalog-access-status.ts:19-20 | the engines agree on all well-formed filters about a row if and only if its scope is not blank |
| SearchFilters.WhereAgrees | backend/src/search/testing/in-memory-search.service.ts:32-37 | the WHERE clause is true of a row if and only if the in-memory engine accepts its document |
| SearchFilters.FacetValueAgrees | backend/src/search/service/postgres-fts-search.service.ts:217-245 | in every dimension the SQL value is the document's facet value, NULL for none |
| SearchFilters.FacetValueIsFilter | backend/src/search/testing/in-memory-search.service.ts:65-139 | a document has a facet value if and only if it passes the filter for it |
| Facets.GroupCountIsUnique | backend/src/search/service/postgres-fts-search.service.ts:190-202 | GROUP BY with its ORDER BY has one answer |
| Facets.LoopAnswersTheQuery | backend/src/search/testing/in-memory-search.service.ts:99-109 | counting into a map and sorting gives that answer: distinct values, exact positive counts, the greatest count first and equal counts in the order of strings |
| SearchEngines.InMemorySearchService.ComputeFacets | backend/src/search/testing/in-memory-search.service.ts:84-117 | the nested loops give the facet list of every dimension |
| SearchEngines.InMemorySearchService.Search | backend/src/search/testing/in-memory-search.service.ts:28-63 | total, page of the ranked matches, and facets |
| SearchEngines.PostgresSearchService.ComputeFacets | backend/src/search/service/postgres-fts-search.service.ts:178-215 | one grouped query a dimension, whatever answer the database gives within its promise, makes the one facet list |
| SearchEngines.PostgresSearchService.Search | backend/src/search/service/postgres-fts-search.service.ts:25-115 | answers exactly when no filter is refused, with the count, the page and the facets of the selected rows |
| SearchEngines.EnginesAgree | backend/src/search/testing/unified-search.contract-tests.ts:8-12 | over the same catalog and well-formed filters both engines find the same resources and show the same facet list |
| SearchEngines.FieldsAreSearched | backend/src/search/service/postgres-fts-search.service.ts:117-135 | a row one of whose five searched fields contains the query is found by both engines if and only if it has the value of every filter |
| SearchEngines.MatchedInParts | backend/src/search/testing/in-memory-search.service.ts:32-37 | the matches of two parts of a catalog are those of the parts, in order |
| SearchEngines.SelectedInParts | backend/src/search/service/postgres-fts-search.service.ts:34-43 | and so are the selected rows |
| SearchEngines.DrillDownIsExact | backend/src/search/testing/in-memory-search.service.ts:90-113 | a facet shows a value with count n if and only if n > 0 documents match the query with that dimension's filters replaced by the value |
| SearchEngines.FacetCountsAddUp | backend/src/search/testing/unified-search.contract-tests.ts:69-80 | counts of a dimension add up to the counted documents with a value in it; for type, language and access without a filter on it, to the total |
| SearchEngines.FacetsAreListedInOrder | backend/src/search/testing/in-memory-search.service.ts:99-113 | the facet list names each value of a dimension once, the greatest counts first |
| SearchEngines.WithoutIsExact | backend/src/search/testing/in-memory-search.service.ts:84 | the filters of other dimensions are kept when a dimension is counted, and only they |
| SearchEngines.RankedIsBucketed | backend/src/search/testing/in-memory-search.service.ts:39-50 | the stable sort lists title prefixes, then title infixes, then the rest, each in the old order |
| SearchEngines.RankedPutsTitlesFirst | backend/src/search/testing/in-memory-search.service.ts:39-50 | the list has the matches, titles that start with the text before those that do not, and titles that contain it before those that do not |
| WebSearch.ToSearchQuery | backend/src/web/controllers/web-search.controller.ts:86-108 | the filters pushed in turn and the numbers read form the query of the request |
| WebSearch.QueryIsExact | backend/src/web/controllers/web-search.controller.ts:86-108 | which has the text or none, a filter exactly for each of type and department that is set, and page and size as written or 1 and 10 |
| WebSearch.BuildQueryString | backend/src/web/controllers/web-search.controller.ts:110-121 | what a link carries along: text, department and size where set, never the type or the page |
| WebSearch.MemoryPage | backend/src/web/controllers/web-search.controller.ts:52-84 | the page answered with the in-memory engine: the slice asked for of the list, its total, and a next link exactly when there is more |
| WebSearch.PostgresPage | backend/src/web/controllers/web-search.controller.ts:52-84 | the page answered with the Postgres engine likewise, and none exactly when the type is one the database refuses |
| WebSearch.PageLinkIsExact | backend/src/web/controllers/web-search.controller.ts:110-121 | a page link asks the query of the page it stands on, but for the page, if and only if the request set no type |
| WebSearch.NextLinkIsNext | backend/src/web/views/search/results.hbs:32-38 | the next link asks for the next page of the same size without the type |
| WebSearch.LinksAreExact | backend/src/web/views/search/results.hbs:32-38 | all next links on the way ask the same if and only if the request set no type or there is no next page |
| WebSearch.WalkStartsAtThePage | backend/src/web/controllers/web-search.controller.ts:77-82 | what a visitor sees is the page answered, followed by what its next link leads to |
| WebSearch.EveryMatchIsOnOnePage | backend/src/web/controllers/web-search.controller.ts:77-82 | while they do, following them from page 1 shows each match once, in ceil(total / size) pages, whatever engine lists the matches |
| WebSearch.PagesAfterTheFirst | backend/src/web/controllers/web-search.controller.ts:77-82 | with a type set and more than one page, the pages from the second on are those of the query without the type |
| WebSearch.MemoryVisitorIsExact | backend/src/web/controllers/web-search.controller.ts:77-82 | with the in-memory engine the visitor sees exactly the matches if and only if no type is set, they fit on one page, or dropping the type finds no more |
| WebSearch.PostgresVisitorIsExact | backend/src/web/controllers/web-search.controller.ts:77-82 | and likewise with the Postgres engine |
| WebSearch.TypeIsLostOnTheWay | backend/src/web/controllers/web-search.controller.ts:110-121 | a catalog and a request whose second page shows the first match again |
| WebSearch.FacetLinkKeepsItsPromise | backend/src/web/views/search/results.hbs:5-12 | the link of a type facet leads to page 1 of as many matches as the facet shows |
| Paging.ClampPagination | backend/src/search/api/pagination.ts:17-24 | the integer part of what was asked, held to at least page 1 and a size of 1 to 50; page 1 and size 20 for what is not finite |
| Paging.PagesAreTheWholeList | backend/src/web/controllers/web-search.controller.ts:77-81 | the pages concatenate to the list and are ceil(total / size) many |
| AccessPolicy.AllowsExactly | backend/src/resource/service/access-policy.resolver.ts:21-199 | who is allowed, type by type, in terms of embargo, licence days and faculties, and scope; and the status of each refusal |
| AccessPolicy.StatusIsLabelOrAvailable | backend/src/resource/service/access-policy.resolver.ts:21-199 | a member is admitted if and only if the status is AVAILABLE, and a refusal carries search's label |
| AccessPolicy.LabelAvailableMeansOpenToAll | backend/src/resource/service/access-policy.resolver.ts:161-185 | the label AVAILABLE means open to every member under any licences, if and only if the scope is not blank |
| ResourceStore.ResourceService.Create | backend/src/resource/service/resource.service.ts:36-152 | both rows or neither, the hierarchy kept; the answer has each field that was given and just its subtype row, is found again by id, and every other resource is found as before |
| ResourceStore.ReadsNeverThrow | backend/src/resource/service/resource.service.ts:161-201 | after any creates, failing or not, no read misses a subtype row and earlier resources read the same |
| ResourceStore.JoinIsFindById | backend/src/search/service/postgres-fts-search.service.ts:34-39 | the left-joined row of a resource is the entity a read by id answers |
| ThesisSubmission.ThesisSubmissionService.ConfirmUpload | backend/src/thesis/service/thesis-submission.service.ts:62-75 | each refusal exactly; else the file is the key and the version one up, and nothing else changes |
| ThesisSubmission.ThesisSubmissionService.Transition | backend/src/thesis/service/thesis-submission.service.ts:77-109 | each refusal; else the status is the one asked for, the version one up, the file kept, and the time set on submission and kept otherwise |
| ThesisSubmission.NewDraftIsSound | backend/src/thesis/service/thesis-submission.service.ts:31-39 | a new draft satisfies the invariant of the runs |
| ThesisSubmission.SubmissionsStayComplete | backend/src/thesis/service/thesis-submission.service.ts:62-122 | under every interleaving a submission past draft has its time and a file under its own prefix, never becomes a draft again, and its version counts the writes |
| ThesisSubmission.FreshWritesFollowTheTable | backend/prisma/schema.prisma:360-362 | a write that finds the version it read moves along the transition table and replaces only a draft's file |
| ThesisSubmission.ConformingIsExact | backend/src/thesis/service/thesis-submission.service.ts:62-108 | a late write moves along the transition table, or leaves a submitted file alone, if and only if its guard on the row it finds holds |
| ThesisSubmission.ConformsExactlyWhenApplying | backend/src/thesis/service/thesis-submission.service.ts:62-122 | a whole run does so if and only if the guard of every write holds |
| ThesisSubmission.ApplyingRunsAdvance | backend/src/common/statemachine/transition-rules.ts:64-73 | along such runs the status only advances and the file of a submitted thesis never changes |
| ThesisSubmission.TimeStaysExactly | backend/src/thesis/service/thesis-submission.service.ts:100-108 | past draft the submission time never changes along a run if and only if no second submission writes another time |
| ThesisSubmission.ApplyingRunsKeepTheTime | backend/src/thesis/service/thesis-submission.service.ts:100-108 | in particular along a run in which the guard of every write holds |
| ThesisSubmission.OwnKeysDiffer | backend/src/thesis/service/thesis-submission.service.ts:64-67 | no upload key belongs to two submissions |
| ThesisSubmission.StaleReviewRevivesARejection | backend/src/thesis/service/thesis-submission.service.ts:77-108 | from a new draft a run in which a rejected submission becomes approved |
| ThesisSubmission.StaleUploadReplacesASubmittedFile | backend/src/thesis/service/thesis-submission.service.ts:62-75 | from a new draft a run in which an upload replaces the file after submission |

## Left out

- Borrow's row lock: a borrow is one step; how Postgres re-evaluates a row it waited for is not modelled.
- The access decision that comes before a post's token check is modelled on its own.
- HoldQueueProgress.JamIsForever: a cancel or ready-mark is one step here, since a late one can end the jam
  (`HoldQueueProgress.LateReadyMarkUnjams`).
- HoldQueueProgress.JamIsExact: a cancel or ready-mark is one step here, for the same reason.
- HoldQueueRivals.InOrderExactlyWhenOnTop: a cancel or ready-mark is one step here; for the full key
  `HoldQueueRivals.FullKeyStaysInOrder` allows late ones.
- HoldQueueRivals.GivesUpOnlyAfterFiveRivals: under the active-only key a cancel or ready-mark is one step, here and in
  `HoldQueueRivals.FiveCallsNeverGiveUp`; under the full key late ones are allowed.
- Lost loans and copies, expiry and fulfilment of reservations: no service performs them; a reservation may still move so
  along the table.
- Policies differ by member type; a run has one policy. A policy that is not found is not modelled.
- Full-text matching, ranking, trimming, lower-casing and collation: parameters. The Postgres engine's own result order is
  the order its rows are given in.
- A YEAR filter that is no number: what the driver does with it is not modelled, so no clause is built for it.
- Integers the host language rounds: the page and the size of a request are exact however long their numerals.
- URL encoding and repeated parameters: a link is a list of names and values, each read as it was written.
- Numerals.ParseNumeral: leading space is blank, tab, newline and carriage return only.
- Reasons in texts, publisher, call number, page range, journal and handling notes: carried unchanged and read by nothing
  modelled.
- The five create methods differ only in their table and are one method over a sum of subtype rows.
- Several submissions at once: the interleaved machine has one; rows of different submissions do not meet.
- The inter-library loan service, presigned uploads, e-mail, audit and notification rows, guards, sessions and views.
