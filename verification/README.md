# Research orchestrator: a verified model of its state-keeping layer

The orchestrator runs trading-strategy research. Its state lives in Postgres and in a few small
in-memory objects, and it has to survive crashed ticks, retries and concurrent callers. This
project models that layer and proves what it promises.

How the source is represented:

- A table is a map from keys to rows, and an SQL statement is one atomic step: a WHERE clause
  (which rows it hits) and a SET list (what they become). A run is any finite sequence of such
  steps, by any number of clients. NOW(), generated keys and the network are parameters.
- What changes state in place is a class whose methods are proved equal to the step functions
  (`ResearchQueue.Queue`, `IterationNumbers.IterationLog`, `Experiments.ExperimentStore`,
  `Promotion.Registry`, `HypothesisAudit.AuditLedger`, `Reviews.ReviewJournal`,
  `MlTraining.TrainingRuns`, `MlCap.TrainingRequests`, `ErrorLatch.ErrorReporter`, `JvmRequests.JvmClient`). The theorems are about runs of the steps.
- Where statements of open transactions really overlap (FOR UPDATE SKIP LOCKED, the advisory
  lock, read-then-compare-and-set), the steps are the single statements and the theorems
  quantify over every interleaving.
- WHERE clauses of the listings are built step by step as syntax, with numbered placeholders and
  three-valued logic, and their meaning is proved.

Files:

| file | content |
|---|---|
| QueueTable, ResearchQueue | the research_queue statements; the table as an object |
| QueueFence, QueueRuns, ClaimLocks | the fence; invariants over runs; claiming with row locks |
| IterationNumbers | numbering under the advisory lock |
| Pagination, Sql | keyset pagination in general; the SQL fragment of the listings |
| Journal, Papers, Listings, CursorCodec | the listings and the cursor text |
| Experiments | the metric log and its mirror |
| Promotion | the model lifecycle with optimistic locking |
| AxisSet, HypothesisAudit, Reviews, EnqueueGates | axis identity, the trial ledger, reviews, the gates of POST /queue |
| ErrorLatch, JvmRequests | dedup latch, retry loop |
| MlTraining, MlCap | training budget; the cap under overlapping requests |

Results where the code does less than its comments or its name suggest; the exact condition is
proved in each case, and a failing input where it helps:

- The started_at fence is exact if and only if no two claims of a row share a timestamp
  (`QueueFence.FenceExactIffDistinct`). The status guards of rollback, park, fail, reset and
  set_active_run are as good only while the row is claimed once (`QueueFence.GuardIsFenceIff`);
  `QueueFence.GuardTakesNewerIff` says when such a statement takes the row of a newer tick, and
  `QueueFence.GuardIsNotFence` is a run in which it does.
- The comment on the papers query calls the ascending direction symmetric, but ORDER BY always
  ends in `created_time DESC, paper_id DESC`. `Papers.PapersWalkExactIff` gives the tables on
  which the walk is exact; `Papers.PapersAscendingFails` is the smallest family where it is not.
- Commas are allowed in axis names, so they can merge axis sets: every list of two names or more
  looks like the one long name (`AxisSet.ConfusedIff`, with `AxisSet.ConfusedAxes` as a witness).
  Sweep names only have to have 1 to 80 characters; the names of a plan review may be any strings.
- The journal can show an entry twice while it is parked, in the ascending listing by status and in
  no other, and not under a filter on the status or on another entry type (`Journal.NoRepeatIff`,
  `Journal.ParkedEntryRepeats`).
- POST /reviews refuses an agent that was the latest to ask. `Reviews.IndependentIff` is the exact
  condition under which the verdict a gate reads is not by the latest to ask, and
  `Reviews.SelfApproval` two histories that break it. The promise that no agent judges a review it
  requested itself is broken by a second asker, too (`Reviews.SecondAskerHidesFirst`);
  `Reviews.AnswersOwnIff` is its exact condition.
- `slot_frees_at` is wrong exactly when more runs than the cap are counted and those of the oldest
  time are too few (`MlTraining.ReleaseExactIff`). The cap is counted and used in two statements, so
  this happens: `MlCap.OverlapMispredicts`. Without overlapping requests it does not
  (`MlCap.SerialRequestsExact`, `MlCap.CapHoldsIff`).
- The mirror of overlapping log transactions agrees with the log only if the last write of each name
  carries the value of its latest row (`Experiments.OverlapAgreesIff`); `Experiments.TransactionsAgreeIff`
  puts it as an order of commits.
- The module docstring of repo/queue.py says that the listing has the order of the claim query, so
  that it shows what will be claimed next. It orders by created_time and ignores priorities:
  `QueueTable.ListingShowsClaimIff` and `QueueTable.ListingIsClaimOrderIff` are the exact conditions,
  `QueueTable.ListingMisleads` a table where they fail.
- The module docstring of repo/queue_write.py speaks of claiming PENDING and RUNNING rows; the
  query claims PENDING rows only, and so does the model.

## Model

| member | source | states |
|---|---|---|
| QueueFence.FenceExactIffDistinct | src/orchestrator/repo/queue_write.py:112-189 | over every interleaving, a claim's token attaches exactly while nobody else has claimed or recovered the row, if and only if claim timestamps of the row are distinct |
| QueueFence.FenceSafety | src/orchestrator/repo/queue_write.py:415-464 | on the whole table: the fenced attach reports 1 row exactly for the undisturbed owner, otherwise changes nothing, and never touches another row |
| QueueFence.AttachesMeansLastClaim | src/orchestrator/repo/queue_write.py:451-464 | with no assumption on the clock: a token attaches exactly when it equals that of the last claim and no recovery followed |
| QueueFence.OneOwner | src/orchestrator/repo/queue_write.py:112-120 | once a row is claimed again, the older token never attaches, however late its tick returns |
| QueueFence.GuardIsFenceIff | src/orchestrator/repo/queue_write.py:192-271 | over every run and on any clock, whoever finds the row RUNNING after its claim still owns it, if and only if the row is claimed at most once |
| QueueFence.GuardTakesNewerIff | src/orchestrator/repo/queue_write.py:192-393 | a rollback, park, fail, reset, complete or set_active_run guarded by RUNNING takes a newer tick's attempt exactly when the row is RUNNING under another started_at than the issuer's |
| QueueFence.FencedGuardIff | src/orchestrator/repo/queue_write.py:192-393 | with the issuer's started_at in the WHERE clause it would hit exactly the attempt of its own tick |
| QueueFence.GuardIsNotFence | src/orchestrator/repo/queue_write.py:192-220 | a concrete run in which a rollback guarded by RUNNING takes the row from a newer tick |
| QueueRuns.IterationConserved | src/orchestrator/repo/queue_write.py:145-148 | over guarded runs iteration_number = claims - (recoveries + rollbacks + requeues), and RUNNING and FAILED rows have at least 1 |
| QueueRuns.NoClamp | src/orchestrator/repo/queue_write.py:176-189 | GREATEST(n - 1, 0) never clamps in a guarded run |
| QueueRuns.UnguardedFailClamps | src/orchestrator/repo/queue_write.py:256-271 | without the guard it can: an unguarded fail of a fresh row followed by a requeue |
| QueueRuns.UndoneAttemptRepeats | src/orchestrator/repo/queue_write.py:192-220 | between two claims an attempt is either undone once, and the next claim gets the same prior_iter, or reset once, and it gets the next one |
| QueueRuns.ResumePointerExact | src/orchestrator/repo/queue_write.py:301-318 | a claim returns run r exactly when r was set on the RUNNING row and no attach, park, fail, complete or newer set followed, across recoveries, rollbacks, resets, requeues and cancels |
| QueueRuns.DeadRunsForgotten | src/orchestrator/repo/queue_write.py:248-271 | FAILED and COMPLETED rows never carry a run pointer, over every run |
| QueueRuns.RequeuedStartsAfresh | src/orchestrator/repo/queue_write.py:274-298 | after a requeue the row resumes nothing until a run is set again |
| QueueRuns.CancelFinal | src/orchestrator/repo/queue_write.py:396-412 | after a cancel the row is PARKED, or COMPLETED exactly when an unguarded complete was issued, whatever stale ticks do |
| QueueRuns.CompletedFinal | src/orchestrator/repo/queue_write.py:321-351 | COMPLETED, the counter and started_at are closed under every guarded run |
| QueueRuns.RowShape | src/orchestrator/repo/queue_write.py:192-412 | in guarded runs completed_at is set exactly on closed rows, the verdict exactly on completed ones, and RUNNING rows have a started_at |
| QueueRuns.ReaperMissesNothing | src/orchestrator/repo/queue_write.py:162-189 | right after the reaper every RUNNING row is younger than the limit, and exactly the older ones were changed |
| QueueRuns.AttachRemembered | src/orchestrator/repo/queue_write.py:415-464 | the last-iteration columns always name the pair of the last attach that took effect |
| QueueRuns.StepKeeps | src/orchestrator/repo/queue_write.py:58-464 | a guarded statement keeps every row sound (counter, stamps and run pointer fit the status), and a keyed one touches at most its row |
| QueueRuns.StatusOfHistory | src/orchestrator/repo/queue_write.py:112-412 | status, completed_at, verdict and walk-forward run are those that the last effective statement of the history set |
| QueueTable.RowOfTable | src/orchestrator/repo/queue_write.py:58-464 | rows are never deleted and each evolves as if alone, so row theorems hold of tables |
| QueueTable.AffectedByKey | src/orchestrator/repo/queue_write.py:415-464 | the affected-row count of a keyed statement is 1 exactly when it hits, and no other row changes |
| QueueTable.TracksPartition | src/orchestrator/repo/queue_write.py:130-141 | on the columns: a hedging claim takes from the HEDGING rows, a trading one from the TRADING and the untracked ones; the two sets are disjoint and together the unscoped candidates |
| QueueTable.ListingShowsClaimIff | src/orchestrator/repo/queue.py:1-8 | the head of the listing may be the row claimed next exactly when no candidate has a smaller priority number |
| QueueTable.ListingIsClaimOrderIff | src/orchestrator/repo/queue.py:1-8 | the whole listing is an order in which its rows may be claimed one after the other exactly when the priorities are nondecreasing along it |
| QueueTable.ListingMisleads | src/orchestrator/repo/queue.py:63-71 | a two-row table whose listing head is not what the claim picks |
| ResearchQueue.Queue.InsertQueue | src/orchestrator/repo/queue_write.py:58-109 | the new row is PENDING with counter 0 and the priority, track and time that were given; the rest of the table is unchanged |
| ResearchQueue.Queue.ClaimNext | src/orchestrator/repo/queue_write.py:112-159 | the claimed row was PENDING, unlocked and of the track (or untracked, for a trading claim) and first by (priority, created_time) among all such rows; none is claimed only if there is none; returns the values before the update and the new started_at |
| ResearchQueue.Queue.RecoverStuck | src/orchestrator/repo/queue_write.py:162-189 | exactly the stuck rows go back to PENDING without started_at; none is stuck afterwards |
| ResearchQueue.Queue.RollbackIter | src/orchestrator/repo/queue_write.py:192-220 | new table and affected count under the optional status guard |
| ResearchQueue.Queue.ParkExhausted | src/orchestrator/repo/queue_write.py:223-245 | new table and affected count; the run pointer is cleared |
| ResearchQueue.Queue.FailQueue | src/orchestrator/repo/queue_write.py:248-271 | new table and affected count; the run pointer is cleared |
| ResearchQueue.Queue.RequeueFailed | src/orchestrator/repo/queue_write.py:274-298 | only FAILED rows; undoes one attempt |
| ResearchQueue.Queue.SetActiveRun | src/orchestrator/repo/queue_write.py:301-318 | only RUNNING rows |
| ResearchQueue.Queue.CompleteQueue | src/orchestrator/repo/queue_write.py:321-351 | new table and affected count, guarded or not |
| ResearchQueue.Queue.ResetToPending | src/orchestrator/repo/queue_write.py:373-393 | new table and affected count under the optional guard |
| ResearchQueue.Queue.CancelQueue | src/orchestrator/repo/queue_write.py:396-412 | only PENDING and RUNNING rows are parked |
| ResearchQueue.Queue.AttachIteration | src/orchestrator/repo/queue_write.py:415-464 | fenced by started_at when a token is given; clears the run pointer |
| ClaimLocks.ClaimsDisjoint | src/orchestrator/repo/queue_write.py:130-144 | over every interleaving of claim transactions, other transactions that hold a row, and other statements, no two open transactions hold one row and rows held by a claim stay PENDING |
| ClaimLocks.SelectionIsFirst | src/orchestrator/repo/queue_write.py:137-144 | a selection finds a row exactly when an eligible unheld one exists, and every eligible row ahead of it is held by another open transaction, a claim or not |
| ClaimLocks.LocksRefineAtomic | src/orchestrator/repo/queue_write.py:112-159 | every interleaving commits the table of a run of atomic statements in which each claim hits a PENDING row |
| ClaimLocks.OneClaim | src/orchestrator/repo/queue_write.py:130-159 | after every run, a claim transaction that selects a row holds it until it ends; a commit makes exactly this row RUNNING, one attempt further, an abort changes nothing, and either frees the row |
| IterationNumbers.NumbersDense | src/orchestrator/repo/iterations_write.py:18-38 | under any interleaving of lock, read MAX, insert, commit and abort, and any hash collisions, the committed numbers of each code are 1..n |
| IterationNumbers.InsertIsNew | src/orchestrator/repo/iterations_write.py:102-154 | the number inserted is new among committed rows and those of its own transaction, and no other open transaction has rows of that code |
| IterationNumbers.OneMore | src/orchestrator/repo/iterations_write.py:18-154 | after every run, a transaction that comes while nobody holds the lock of the code commits exactly one row, with the next number of the code; if it aborts, nothing changes |
| IterationNumbers.LockThenRead | src/orchestrator/repo/iterations_write.py:27-38 | lock and read together give one more than the visible rows of the code and keep the invariant |
| IterationNumbers.IterationLog.NextIterationNumber | src/orchestrator/repo/iterations_write.py:18-38 | waits exactly when another open transaction holds the lock of the code; otherwise returns the visible count plus one |
| IterationNumbers.IterationLog.InsertIteration | src/orchestrator/repo/iterations_write.py:102-154 | inserts the drawn number and keeps the invariant |
| Pagination.WalkExactIffAgree | src/orchestrator/repo/journal.py:62-117 | for any strict cursor predicate: the pages concatenate to the sorted table for every page size, if and only if the predicate means "strictly after in the ORDER BY" |
| Pagination.NextShrinks | src/orchestrator/api/journal.py:131-164 | following a cursor leaves strictly fewer rows, so every walk ends |
| Pagination.ChangingTableNoDuplicates | src/orchestrator/api/journal.py:131-164 | a walk over a table that changes between pages stays in order and shows no version of a row twice |
| Pagination.ChangingTableNoRepeats | src/orchestrator/api/journal.py:131-164 | and shows no two versions of one row if updates never move a row forward in the ORDER BY |
| Pagination.ChangingTableHidesNothing | src/orchestrator/api/journal.py:131-164 | and shows every row that stayed there unchanged |
| Pagination.SessionsAreWalks | src/orchestrator/api/journal.py:102-164 | a client that sends every next_cursor back always comes to an end, and the items it gets are those of the walk |
| Sql.AppendCond | src/orchestrator/repo/journal.py:45-107 | appending a conjunct and its arguments keeps the meaning of the earlier placeholders |
| Sql.ShiftPlace | src/orchestrator/repo/journal.py:62-107 | a conjunct written for its own arguments means the same behind any others once its placeholders are shifted |
| Sql.OrderOk | src/orchestrator/repo/journal.py:109-117 | an ORDER BY that ends in the primary key orders every table strictly and totally, NULLS FIRST/LAST included |
| Sql.Fetch | src/orchestrator/repo/journal.py:118-130 | filter, sort and limit by repeated minimum equals the first rows of the sorted listing |
| Journal.KeysetExact | src/orchestrator/repo/journal.py:62-117 | for all sort keys, directions and null cases the keyset of a row's cursor keeps exactly the rows strictly after it |
| Journal.JournalWalkExact | src/orchestrator/api/journal.py:105-164 | for every table, filter, sort and page size the walk is the filtered table in order, each row once |
| Journal.JournalSessionExact | src/orchestrator/api/journal.py:102-164 | the same of the handler's own answers: sending each next_cursor back ends and gives the filtered table in order |
| Journal.JournalWalkNoDuplicates | src/orchestrator/api/journal.py:131-164 | inserts, deletes and updates between pages keep the pages in order and never show one version of a row twice; two versions of one journal_id can be shown, see the next row |
| Journal.NoRepeatIff | src/orchestrator/repo/journal.py:109-117 | over every history of inserts and parkings and every walk during it, no journal_id is shown twice, if and only if the listing is not the ascending one by status with backlog entries of all statuses among its filters |
| Journal.ParkedEntryRepeats | src/orchestrator/repo/reviews.py:143-155 | a walk of every such listing that shows an entry ACTIVE and again PARKED |
| Journal.JournalWalkHidesNothing | src/orchestrator/api/journal.py:131-164 | and never hide a matching row that was there and unchanged |
| Journal.AnswerContinues | src/orchestrator/api/journal.py:102-164 | a request with the cursor of an earlier page gets the next page of that walk, whatever sort it asks for itself |
| Journal.ListJournal | src/orchestrator/repo/journal.py:28-130 | the WHERE clause built step by step means the filters and the keyset, for every sort and cursor |
| Journal.ListJournalPage | src/orchestrator/api/journal.py:59-171 | the handler: which of the five errors, or the page of the sorted rows that filters and cursor leave, in the order named by sort_by, with its next cursor; forged and undecodable cursors included |
| Journal.AnswerInOrder | src/orchestrator/repo/journal.py:17-117 | on the cells of the rows: every answer holds matching rows of the table, at most a page, in the order asked for by name (created_time, strategy_code, status or entry_type), without a strategy code last, ties newest first |
| Journal.EntryOfHistory | src/orchestrator/repo/reviews.py:143-155 | over every history of inserts and parkings no entry leaves the journal, and it reads as inserted until a parking names it while it is an ACTIVE backlog entry, then PARKED and otherwise the same |
| Papers.KeysetOrders | src/orchestrator/repo/papers.py:98-156 | the keyset keeps the rows with a later sort value (NULLs where the sort puts them) and, among equal ones, those later in its own tie order |
| Papers.PapersWalkExactIff | src/orchestrator/repo/papers.py:98-187 | for every sort key and direction the walk is exact for all page sizes if and only if the tie condition holds on the table |
| Papers.PapersDescendingExact | src/orchestrator/repo/papers.py:115-187 | descending metric and created_time listings are exact on every table |
| Papers.PapersAscendingFails | src/orchestrator/repo/papers.py:104-187 | two papers with equal profit factor, ascending: some page size goes wrong |
| Papers.ListPapers | src/orchestrator/repo/papers.py:55-187 | the built WHERE clause means the filters and the keyset |
| Papers.ListPapersPage | src/orchestrator/api/papers.py:76-207 | the handler: which of the five errors, the page in the order named by sort_by, the next cursor; readers who are not admins only get finalized papers |
| Papers.AnswerInOrder | src/orchestrator/repo/papers.py:98-187 | on the cells of the rows: every answer holds matching rows of the table, at most a page, in the order asked for by each of the seven names, papers without a value last when descending and first when ascending, ties newest first |
| Papers.KindWords | src/orchestrator/api/papers.py:108-117 | exactly HEDGING and TRADING are known kinds, in any mixture of cases |
| Papers.DirWords | src/orchestrator/api/papers.py:131-138 | exactly asc and desc are known directions, in any mixture of cases |
| Papers.MisfitCursor | src/orchestrator/repo/papers.py:102-115 | a cursor without a time or an id, or without a value for a metric sort, is ignored: the first page comes again |
| Papers.PageContinues | src/orchestrator/api/papers.py:140-199 | without a cursor, or with that of an earlier page, the handler answers that page of the walk over the filtered table |
| Papers.PapersSessionExactIff | src/orchestrator/api/papers.py:140-207 | PapersWalkExactIff of the handler's own answers, with filters: exact for all page sizes if and only if the tie condition holds on the filtered table |
| Listings.ListQueue | src/orchestrator/repo/queue.py:33-73 | the built WHERE clause means the filters and the keyset; order created_time, queue_id ascending |
| Listings.ListIterations | src/orchestrator/repo/iterations.py:53-93 | the same for iterations, newest first |
| Listings.ListingWalkExact | src/orchestrator/repo/queue.py:33-73 | both keysets page exactly through every table |
| Listings.QueuePage | src/orchestrator/api/queue.py:196-242 | GET /queue: which error, or the page of the sorted rows that filters and cursor leave |
| Listings.IterationsPage | src/orchestrator/api/iterations.py:21-60 | GET /iterations, the same, newest first |
| Listings.ListingSessionExact | src/orchestrator/api/queue.py:196-242 | both listings, of the handlers' own answers: sending each next_cursor back ends and gives the filtered table in order |
| CursorCodec.CursorRoundTrip | src/orchestrator/api/pagination.py:39-83 | encoding, stripping, re-padding and decoding give back every byte string |
| CursorCodec.RepadRestores | src/orchestrator/api/pagination.py:61-74 | the length of the stripped text determines the padding |
| CursorCodec.CanonicalCursor | src/orchestrator/api/pagination.py:39-83 | out of all texts, the cursors this API issues are exactly those over the alphabet whose length is not 1 modulo 4 and whose spare bits are zero, each for one byte string |
| Experiments.MirrorAgreesWithLog | src/orchestrator/repo/experiments.py:158-276 | after any serial run summary_metrics has exactly the names with a run-level row, each with the latest value, duplicates in a batch and rejected batches included |
| Experiments.LeaderboardsAgree | src/orchestrator/repo/experiments.py:452-497 | a list of runs is a leaderboard of the mirror exactly when it is one of the log |
| Experiments.CandidateIff | src/orchestrator/repo/experiments.py:452-497 | over any serial run the candidates are the runs of the spec, and of the status if one is given, that logged the metric without a fold, each with the last value logged that way |
| Experiments.BoardShows | src/orchestrator/repo/experiments.py:480-497 | a leaderboard holds distinct candidates, best first, as many as limit or table allow, and none left out is better than one on it |
| Experiments.OverlapAgreesIff | src/orchestrator/repo/experiments.py:183-204 | for any interleaving of inserts and mirror updates, the mirror of a run agrees with the log exactly when, for every name, its last write carries the value of the latest run-level row |
| Experiments.TransactionsAgreeIff | src/orchestrator/repo/experiments.py:158-276 | however the transactions of any calls overlap, the mirror of a run agrees with the log exactly when, for every name, the mirror updates end with the transaction that inserted the latest row, or write its value |
| Experiments.OverlapOfTwo | src/orchestrator/repo/experiments.py:183-204 | two transactions that update the mirror against the order of the log: it agrees exactly if names differ or values are equal |
| Experiments.TerminalKept | src/orchestrator/repo/experiments.py:279-325 | a terminal status never changes again |
| Experiments.HeaderThere | src/orchestrator/repo/experiments.py:42-86 | a run header is there exactly from its insert on |
| Experiments.HeaderOfHistory | src/orchestrator/repo/experiments.py:279-325 | it keeps the spec of its first insert, is running until the first finish call with completed, failed or aborted, and has that word from then on |
| Experiments.ExperimentStore.NewRun | src/orchestrator/repo/experiments.py:42-86 | the new run is running with an empty mirror; mirrors still agree |
| Experiments.ExperimentStore.Log | src/orchestrator/repo/experiments.py:158-204 | row and mirror land together or not at all; fails exactly for an unknown run or a value that is not finite |
| Experiments.ExperimentStore.LogBatch | src/orchestrator/repo/experiments.py:207-276 | the loop, the collapsed object and the one update equal the batch step; an empty batch does nothing |
| Experiments.ExperimentStore.Finish | src/orchestrator/repo/experiments.py:279-325 | only running runs end, once; a status that is not terminal is an error |
| Promotion.HistoriesArePaths | src/orchestrator/api/models.py:617-757 | under any interleaving of reads and compare-and-sets every status history is a path of the transition graph from the derived status |
| Promotion.AtMostSixSteps | src/orchestrator/api/models.py:176-185 | at most six steps, and no status ever repeats |
| Promotion.LiveRoad | src/orchestrator/api/models.py:176-204 | a model that is or was live passed the gauntlet and went trained, staged, shadow, cooling_down, live, before at most a retirement, and after a review exactly if it was registered without being ready for deployment |
| Promotion.TransitionIff | src/orchestrator/api/models.py:176-185 | a promotion is valid exactly if it is one stage forward on the road to live, or gives the model up: by rejection before it is staged, by retirement from then on or after a rejection |
| Promotion.SuccessMeansUntouched | src/orchestrator/repo/models.py:244-300 | no ABA: an update succeeds exactly when nobody changed the model since this client's read |
| Promotion.Registry.InsertModel | src/orchestrator/repo/models.py:47-123 | the first status is training without a gauntlet, rejected_by_operator after a failed one, trained after a passed one if the model is ready for deployment and awaiting_operator_review if not |
| Promotion.Registry.ReadAndValidate | src/orchestrator/api/models.py:586-614 | an update is pending exactly when the transition is allowed |
| Promotion.Registry.UpdateStatus | src/orchestrator/repo/models.py:282-300 | the compare-and-set step; None is a conflict |
| AxisSet.CanonicalIff | src/orchestrator/repo/hypothesis_audit.py:29-38 | comma-free lists have the same pre-hash string exactly when they are the same multiset, except that no name and one empty name agree |
| AxisSet.PiecesIff | src/orchestrator/repo/hypothesis_audit.py:29-38 | any two lists, whatever their names, have the same pre-hash string exactly when their sorted names have the same pieces between commas |
| AxisSet.ConfusedIff | src/orchestrator/repo/hypothesis_audit.py:29-38 | a nonempty list is taken for some different nonempty list exactly when it has two names or more, or its one name is two sorted names joined by a comma |
| AxisSet.ConfusedAxes | src/orchestrator/repo/hypothesis_audit.py:29-38 | two pairs of different axis sets with equal pre-hash strings |
| AxisSet.OrderIrrelevant | src/orchestrator/repo/hypothesis_audit.py:29-38 | order never matters, whatever the names |
| AxisSet.SplitJoin | src/orchestrator/repo/hypothesis_audit.py:37 | splitting at commas undoes the join |
| AxisSet.TargetIff | src/orchestrator/repo/reviews.py:41-52 | for strategy codes of at most 60 characters and any names and hypotheses, two plan reviews share a target exactly when strategy, pieces of the axes and hypothesis agree |
| HypothesisAudit.TrialIffCompleted | src/orchestrator/repo/hypothesis_audit.py:196-253 | over any history exactly the audits of the universe that were drawn by the null screen or backfilled are counted, under any strategy code; crashed trials are not |
| HypothesisAudit.CountNeverFalls | src/orchestrator/repo/hypothesis_audit.py:196-253 | no inserts or backfills lower the count; it is the trials plus the external ones if those are positive, and the trials alone otherwise |
| HypothesisAudit.BackfillCount | src/orchestrator/repo/hypothesis_audit.py:158-182 | a backfill raises the count of its own universe by one the first time, and no other count |
| HypothesisAudit.RowOfHistory | src/orchestrator/repo/hypothesis_audit.py:158-182 | an audit row is its opening step with the iteration and verdicts of its last backfill |
| HypothesisAudit.GlobalIffSomeTrack | src/orchestrator/repo/hypothesis_audit.py:271-320 | the global gate is shut exactly when that of some track is |
| HypothesisAudit.AuditLedger.InsertAudit | src/orchestrator/repo/hypothesis_audit.py:70-129 | adds the row with the canonical axis set and no iteration |
| HypothesisAudit.AuditLedger.UpdateAuditVerdict | src/orchestrator/repo/hypothesis_audit.py:158-182 | attaches the iteration and overwrites the decision |
| HypothesisAudit.AuditLedger.CountDataUniverseTrials | src/orchestrator/repo/hypothesis_audit.py:196-253 | trials plus the declared ones, clamped at 0 |
| HypothesisAudit.AuditLedger.AxisHasDiscard | src/orchestrator/repo/hypothesis_audit.py:271-320 | a most recent blocking discard, or none exactly when there is none |
| Reviews.VerdictOfHistory | src/orchestrator/repo/reviews.py:93-205 | over every interleaving of POST /reviews/request, both statements of POST /reviews, the automatic checklist and POST /journal, a gate reads the verdict of the last event that wrote an active verdict row on the target, whoever wrote it |
| Reviews.VerdictColumns | src/orchestrator/repo/reviews.py:183-205 | the verdict a gate reads, on the columns: that of the last row of type STRATEGY_OUTCOME, status ACTIVE and kind review_verdict with the target, none without one |
| Reviews.RequesterColumns | src/orchestrator/repo/reviews.py:208-231 | the requester a check reads: that of the last row of type IDEA_BACKLOG and kind review_request with the target, of any status |
| Reviews.IndependentIff | src/orchestrator/api/reviews.py:188-226 | the author of that verdict is not the latest to ask, if and only if, since its check or ever if there was none, the latest request to land is not in its name |
| Reviews.AnswersOwnIff | src/orchestrator/api/reviews.py:188-226 | a verdict posted through POST /reviews answers an open request of its own author exactly when one was open at the check and not closed since, or was opened between check and insert and is still open |
| Reviews.PendingByOfHistory | src/orchestrator/repo/reviews.py:59-180 | an open request in an agent's name is in the journal exactly when the history opened one that is unanswered, so a query for such a row tells before the insert |
| Reviews.SecondAskerHidesFirst | src/orchestrator/api/reviews.py:188-226 | a asks, b asks for the same target, a approves: the check holds, the gate reads the approval, and it answers a's own request |
| Reviews.OrderlyIsIndependent | src/orchestrator/api/reviews.py:188-226 | without review rows from POST /journal, requests under the checklist's name, checks by agents that have an open request of their own, and requests by an agent between its own check and post, no verdict is by the latest to ask and none answers a request of its own author |
| Reviews.SelfApproval | src/orchestrator/api/journal.py:193-240 | two histories in which the agent who asked last passes its own request: a verdict row sent to POST /journal, and asking between check and insert |
| Reviews.StateOfHistory | src/orchestrator/repo/reviews.py:208-231 | the requester a check reads and the checks in flight are those of the history |
| Reviews.PendingOfHistory | src/orchestrator/repo/reviews.py:59-180 | a target is on the reviewers' list exactly when an open request was written for it and no verdict was posted or computed since |
| Reviews.ReviewJournal.InsertReviewRequest | src/orchestrator/repo/reviews.py:59-90 | appends an open request: the target waits, and this agent is the latest to ask |
| Reviews.ReviewJournal.CheckRequester | src/orchestrator/api/reviews.py:188-207 | the first statement of POST /reviews: refuses the latest requester, otherwise lets the verdict through to its insert |
| Reviews.ReviewJournal.InsertReviewVerdict | src/orchestrator/repo/reviews.py:93-155 | appends the verdict row, which gates now read, and turns exactly the ACTIVE requests for the target to PARKED |
| Reviews.ReviewJournal.AutoRunChecklist | src/orchestrator/api/reviews.py:335-361 | the same under the checklist's name, without a check |
| Reviews.ReviewJournal.InsertJournal | src/orchestrator/repo/journal.py:133-182 | appends any row |
| EnqueueGates.AcceptedIff | src/orchestrator/api/queue.py:331-420 | over any histories of reviews and audits and for any names, a sweep passes both gates exactly when the last verdict on its plan passes, whoever wrote it, or the review is overridden, and its axes are not written off on its track, or that is overridden |
| EnqueueGates.UnreviewedIsRefused | src/orchestrator/api/queue.py:331-377 | for every history: a sweep without an override whose plan has no verdict, or whose last verdict is anything but APPROVED and CONDITIONAL_APPROVAL, is review_required, and one without a hypothesis is refused for that |
| EnqueueGates.AcceptedIsReviewed | src/orchestrator/api/queue.py:331-377 | in an orderly history of reviews, a sweep let through without an override was approved by somebody who was not the latest to ask and whose verdict answers no request of its own |
| EnqueueGates.RefusedIffWrittenOff | src/orchestrator/api/queue.py:378-420 | over any ledger history and for any names, a reviewed sweep is refused exactly when an audit of the same strategy and axis set was written off on its track or on none, and no later backfill changed that |
| EnqueueGates.GatesIgnoreOrder | src/orchestrator/api/queue.py:331-420 | permuting the sweep parameters never changes the outcome |
| EnqueueGates.GatesAgreeOnAxes | src/orchestrator/api/queue.py:331-396 | the review gate and the re-discovery gate identify the same axis sets |
| ErrorLatch.PrunedRefinesUnpruned | src/orchestrator/observability/error_reporter.py:214-224 | for every nondecreasing clock each call is answered as by a table that is never pruned |
| ErrorLatch.SentIffNotRecentlySent | src/orchestrator/observability/error_reporter.py:214-224 | a report is sent exactly when its fingerprint was not sent in the last 60 seconds |
| ErrorLatch.SizeBound | src/orchestrator/observability/error_reporter.py:217-218 | after a call at most max(63, live entries) + 1 fingerprints are held |
| ErrorLatch.ErrorReporter.ClaimFingerprint | src/orchestrator/observability/error_reporter.py:214-224 | the locked body is one step of the latch |
| JvmRequests.PostAtMostOnce | src/orchestrator/clients/jvm.py:191-227 | for every network a non-idempotent call makes 1 to 3 attempts and only the last can have been accepted |
| JvmRequests.AtMostOnceIffNotIdempotent | src/orchestrator/clients/jvm.py:154-161 | the calls that are at-most-once against every network are exactly the non-idempotent ones |
| JvmRequests.NextAttempt | src/orchestrator/clients/jvm.py:191-227 | no attempt follows an ambiguous failure of a POST, and one after a 401 mints first and sends that token |
| JvmRequests.LastAttemptIff | src/orchestrator/clients/jvm.py:191-227 | for every network a call makes fewer than 3 attempts exactly if its last one returned, was refused a token or failed ambiguously while not idempotent; so a connect failure or a 401 before the third is always followed by another |
| JvmRequests.JvmClient.TryOnce | src/orchestrator/clients/jvm.py:213-224 | one attempt: the cached or minted token, the request, the 401 branch |
| JvmRequests.JvmClient.Request | src/orchestrator/clients/jvm.py:191-227 | the retry loop makes exactly the specified attempts and ends with the outcome of the last: a return, the error of a failed one, or no retry left after the third |
| JvmRequests.JvmClient.Post | src/orchestrator/clients/jvm.py:157-161 | at most 3 attempts, at most one of them accepted |
| MlTraining.ReleaseExactIff | src/orchestrator/repo/agent_state.py:378-401 | with no change to the runs, a slot is free exactly from slot_frees_at on, if and only if the runs of the oldest time are enough to get under the cap |
| MlTraining.ReleaseAtCap | src/orchestrator/repo/agent_state.py:389-401 | with used equal to the cap the prediction is always exact |
| MlCap.OvershootBound | src/orchestrator/api/ml_training.py:119-136 | over every interleaving of counts and inserts, the cap is exceeded by less than the number of the agent's requests that are between the two at a time |
| MlCap.OvershootReached | src/orchestrator/api/ml_training.py:119-136 | the bound is tight: for every cap and every overlap p, p requests counted first exceed the cap by p - 1 |
| MlCap.CapHoldsIff | src/orchestrator/api/ml_training.py:119-136 | the cap holds in every run with at most p overlapping requests of an agent, if and only if p <= 1 |
| MlCap.SerialRequestsExact | src/orchestrator/api/ml_training.py:119-136 | if an agent's requests never overlap, the cap holds and every predicted release time is exact |
| MlCap.RunsOfRequests | src/orchestrator/api/ml_training.py:119-136 | the table of overlapping requests is that of a history of inserts, marks and reaps, so all theorems about those hold of it |
| MlCap.OverlapMispredicts | src/orchestrator/api/ml_training.py:119-136 | two overlapping requests from the empty table, cap 1: two runs are counted and no slot is free at the announced time |
| MlCap.TrainingRequests.EnforceDailyCap | src/orchestrator/services/ml_training.py:137-170 | lets a request through exactly while fewer runs than the cap are counted |
| MlCap.TrainingRequests.SubmitRun | src/orchestrator/repo/ml_training_runs.py:41-68 | inserts the PENDING run of a request that was let through |
| MlTraining.FreeFromRelease | src/orchestrator/repo/ml_training_runs.py:189-208 | if the runs of the oldest time are enough to get under the cap and the agent starts no new run, a slot is free at every time from slot_frees_at on, through any marks, reaps and other agents' runs |
| MlTraining.TerminalFinal | src/orchestrator/repo/ml_training_runs.py:96-140 | the first terminal write wins: no later steps change the run or its report |
| MlTraining.RunOfHistory | src/orchestrator/repo/ml_training_runs.py:41-140 | a run is what its insert and the first step that ended it say: a terminal mark, or a reap after it was marked running |
| MlTraining.CountedIffCharged | src/orchestrator/repo/ml_training_runs.py:189-208 | what the budget counts, on events: the runs the agent inserted within the window that were not ended by a reap or by a first terminal mark other than COMPLETED |
| MlTraining.TerminalMarkCount | src/orchestrator/repo/ml_training_runs.py:96-140 | completing a run changes no count; failing, timing out or orphaning a counted one lowers its agent's by one |
| MlTraining.ReapCount | src/orchestrator/repo/ml_training_runs.py:211-233 | a reap takes exactly the running runs off the count |
| MlTraining.TrainingRuns.SetRunning | src/orchestrator/repo/ml_training_runs.py:71-93 | only PENDING runs start, and no budget count changes |
| MlTraining.TrainingRuns.SetTerminal | src/orchestrator/repo/ml_training_runs.py:96-140 | only runs that are not terminal end, with the status and report given; another status is an error and changes nothing |
| MlTraining.TrainingRuns.Reap | src/orchestrator/repo/ml_training_runs.py:211-233 | exactly the running runs become ORPHANED with the restart report; the number of them is returned |
| MlTraining.TrainingRuns.CountActiveInWindow | src/orchestrator/repo/ml_training_runs.py:189-208 | the number the budget snapshot also reports |
| MlTraining.TrainingRuns.MlTrainingBudget | src/orchestrator/repo/agent_state.py:366-401 | used, exhausted and the release time, which is the oldest counted creation time plus the window |

## Left out

Assumptions about what is not in the repository:

- Constraints of the database (primary keys, NOT NULL, the foreign key and the finite-value check of experiment_metric, the advisory lock being released at the end of a transaction) are taken as the source describes them; the migrations are not part of this model.
- Callers of the queue functions follow the contract the source states: ticks guard every transition by RUNNING, and only walk-forward completes without a guard. Theorems that need it say so (`GuardedRun`); the fence and pointer theorems do not.
- Text collation, timestamps, UUIDs, JSON and full-text matching: column values are opaque with a total order, and a full-text query is a set of matching rows. The cursor theorems start at the bytes of the JSON text, and the narrowing of NUMERIC to float in a papers cursor is taken to round-trip.
- SHA-256: the ledger keeps the pre-hash string, so equal hashes stand for equal strings. Review targets take the hash as a parameter; theorems that compare two targets assume that it has no collision on these two.

Weaker than the source, or stated under a condition:

- QueueTable.RowOfTable: notes (free text), hypothesis text, strategy, instrument, interval, budget, sweep_config other than the track, require_walk_forward and update_regime_label are not columns of the model.
- ResearchQueue.Queue.InsertQueue: the same columns are missing from the inserted row; they are only passed through.
- ClaimLocks.SelectionIsFirst: an uncommitted recover_stuck, which can hold many rows, is not modelled; it commits at once.
- Experiments.MirrorAgreesWithLog: for serial transactions; `OverlapAgreesIff` says when overlapping ones agree. Metric values are reals.
- CursorCodec.CursorRoundTrip: the decoder is modelled on the URL-safe alphabet; that the library also drops unknown characters and accepts '+' and '/' is not. The condition in `CanonicalCursor` does not depend on it.
- Journal.JournalWalkExact: the filters are resent with each cursor, because the next_actions path of the source drops them.
- Papers.PapersSessionExactIff: the client resends sort_by, sort_dir and the filters with each cursor, because the next_actions path drops all of them and the cursor holds none.
- Listings.ListingSessionExact: the filters are resent, for the same reason.
- Journal.ListJournalPage: a forged cursor that decodes to something other than an object, or holds a text that is no timestamp, ends in an internal error of the source and is not modelled. The same holds of the papers cursor.
- Journal.NoRepeatIff: the writes are those the repository has, insert_journal and the parking of answered requests; the collation orders the four statuses alphabetically.
- Papers.ListPapersPage: upper and lower case are those of ASCII and of the dotless i, which is all that can matter for the four words compared.
- AxisSet.TargetIff: for strategy codes within the limit of 60 characters that the API sets, and for two lists of names on which the hash has no collision.
- Reviews.VerdictOfHistory: rows become visible in the order of their created_time, and no two have the same.
- EnqueueGates.AcceptedIff: the other checks of the handler (intervals, protected strategies, symbols, account strategy) come before or after the two gates and are not modelled.
- JvmRequests.PostAtMostOnce: one request at a time uses the cached token; back-off times are not modelled.
- ErrorLatch.PrunedRefinesUnpruned: times are reals, so rounding of the monotonic clock is not modelled.
- HypothesisAudit.AuditLedger.InsertAudit: params_snapshot and param_combo_hash are not columns of the model, the symbol and interval allow-lists of the database are not modelled, and a missing or unparsable external count is None.
- Promotion.Registry.InsertModel: version numbering, artifact hashes and the idempotency cache around it are not modelled.

Not modelled, since it would add only easy members or is plumbing:

- HTTP routing, request validation and lower-casing of parameters, headers, logging, Redis, activity rows and the idempotency store.
- Signals promotion, which has no expected-status predicate.
- param_combo_hash, combo_already_tested, count_axis_trials and latest_unattached_for_queue.
- Rankings and registry views, TPE history, walk-forward backlog, find_account_strategy_id, exports and everything in services/.
