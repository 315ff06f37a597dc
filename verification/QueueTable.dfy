/**
 The rows of research_queue and the SQL statements that write them.

 Every statement is a pair: Hits is its WHERE clause, Updated its SET list. A statement is
 atomic and touches each row on its own, so a run of statements is studied row by row.
 Notes (free text) and the columns that are only passed through are not modelled.
 */
module QueueTable {
  import opened Wrappers

  type Id = nat
  type Time = int

  datatype Status = PENDING | RUNNING | PARKED | COMPLETED | FAILED

  datatype Track = TRADING | HEDGING

  datatype Row = Row(
    priority: int,
    created: Time,
    track: Option<Track>,
    status: Status,
    iteration: int,
    startedAt: Option<Time>,
    activeRun: Option<Id>,
    lastIteration: Option<Id>,
    lastRun: Option<Id>,
    completedAt: Option<Time>,
    finalVerdict: Option<string>,
    walkForward: Option<Id>)

  type Table = map<Id, Row>

  /**
   One committed statement. The expected status of a transition is None when the caller passes
   no guard; the fence of an attach is None when the caller passes no started_at.
   */
  datatype Step =
    | Insert(q: Id, priority: int, track: Option<Track>, now: Time)
    | Claim(q: Id, now: Time)
    | Recover(maxAge: int, now: Time)
    | Rollback(q: Id, expected: Option<Status>)
    | Park(q: Id, expected: Option<Status>, now: Time)
    | Fail(q: Id, expected: Option<Status>, now: Time)
    | Requeue(q: Id)
    | SetActive(q: Id, run: Id)
    | Complete(q: Id, expected: Option<Status>, verdict: string, walkForward: Option<Id>, now: Time)
    | Reset(q: Id, expected: Option<Status>)
    | Cancel(q: Id, now: Time)
    | Attach(q: Id, iterationId: Id, run: Id, fence: Option<Time>)

  function NewRow(priority: int, track: Option<Track>, now: Time): Row {
    Row(priority, now, track, PENDING, 0, None, None, None, None, None, None, None)
  }

  // GREATEST(iteration_number - 1, 0)
  function UndoIteration(iteration: int): int {
    if iteration - 1 > 0 then iteration - 1 else 0
  }

  predicate Expects(expected: Option<Status>, row: Row) {
    expected.None? || expected.value == row.status
  }

  // started_at IS NOT NULL AND started_at < NOW() - make_interval(secs => max_age)
  predicate Stuck(row: Row, maxAge: int, now: Time) {
    row.status == RUNNING && row.startedAt.Some? && row.startedAt.value < now - maxAge
  }

  /** The WHERE clause of a statement on the row stored under q. */
  predicate Hits(q: Id, row: Row, step: Step) {
    match step
    case Insert(_, _, _, _) => false
    case Claim(id, _) => id == q && row.status == PENDING
    case Recover(maxAge, now) => Stuck(row, maxAge, now)
    case Rollback(id, expected) => id == q && Expects(expected, row)
    case Park(id, expected, _) => id == q && Expects(expected, row)
    case Fail(id, expected, _) => id == q && Expects(expected, row)
    case Requeue(id) => id == q && row.status == FAILED
    case SetActive(id, _) => id == q && row.status == RUNNING
    case Complete(id, expected, _, _, _) => id == q && Expects(expected, row)
    case Reset(id, expected) => id == q && Expects(expected, row)
    case Cancel(id, _) => id == q && (row.status == PENDING || row.status == RUNNING)
    case Attach(id, _, _, fence) => id == q && (fence.None? || row.startedAt == fence)
  }

  /** The SET list of a statement. */
  function Updated(row: Row, step: Step): Row {
    match step
    case Insert(_, _, _, _) => row
    case Claim(_, now) => row.(status := RUNNING, iteration := row.iteration + 1, startedAt := Some(now))
    case Recover(_, _) => row.(status := PENDING, startedAt := None, iteration := UndoIteration(row.iteration))
    case Rollback(_, _) => row.(iteration := UndoIteration(row.iteration), status := PENDING)
    case Park(_, _, now) => row.(status := PARKED, completedAt := Some(now), activeRun := None)
    case Fail(_, _, now) => row.(status := FAILED, completedAt := Some(now), activeRun := None)
    case Requeue(_) => row.(status := PENDING, iteration := UndoIteration(row.iteration), completedAt := None)
    case SetActive(_, run) => row.(activeRun := Some(run))
    case Complete(_, _, verdict, wf, now) =>
      row.(status := COMPLETED, finalVerdict := Some(verdict), walkForward := wf,
           completedAt := Some(now), activeRun := None)
    case Reset(_, _) => row.(status := PENDING)
    case Cancel(_, now) => row.(status := PARKED, completedAt := Some(now))
    case Attach(_, iterationId, run, _) =>
      row.(lastIteration := Some(iterationId), lastRun := Some(run), activeRun := None)
  }

  function StepRow(q: Id, row: Row, step: Step): Row {
    if Hits(q, row, step) then Updated(row, step) else row
  }

  /** The table after one statement. queue_id is the primary key, so a clashing INSERT changes nothing. */
  function Apply(t: Table, step: Step): Table {
    var updated := map q | q in t :: StepRow(q, t[q], step);
    if step.Insert? && step.q !in t
    then updated[step.q := NewRow(step.priority, step.track, step.now)]
    else updated
  }

  /** The affected-row count asyncpg reports for an UPDATE. */
  function Affected(t: Table, step: Step): nat {
    |set q | q in t && Hits(q, t[q], step)|
  }

  /** The table after the first i statements of a run. */
  function TableAt(t: Table, steps: seq<Step>, i: nat): Table
    requires i <= |steps|
  {
    if i == 0 then t else Apply(TableAt(t, steps, i - 1), steps[i - 1])
  }

  /** One row after the first i statements of a run. */
  function At(q: Id, row: Row, steps: seq<Step>, i: nat): Row
    requires i <= |steps|
  {
    if i == 0 then row else StepRow(q, At(q, row, steps, i - 1), steps[i - 1])
  }

  /** Rows are never deleted, and each evolves on its own. */
  lemma {:induction false} RowOfTable(t: Table, q: Id, steps: seq<Step>, i: nat)
    requires q in t && i <= |steps|
    ensures q in TableAt(t, steps, i) && TableAt(t, steps, i)[q] == At(q, t[q], steps, i)
  {
    if i > 0 {
      RowOfTable(t, q, steps, i - 1);
    }
  }

  /** An UPDATE keyed on a queue_id reports 1 exactly when it hits that row, and 0 otherwise. */
  lemma AffectedByKey(t: Table, q: Id, step: Step)
    requires !step.Insert? && !step.Recover? && step.q == q
    ensures Affected(t, step) == if q in t && Hits(q, t[q], step) then 1 else 0
    ensures q in t ==> Apply(t, step) == t[q := StepRow(q, t[q], step)]
    ensures q !in t ==> Apply(t, step) == t
  {
    var hit := set p | p in t && Hits(p, t[p], step);
    if q in t && Hits(q, t[q], step) {
      assert hit == {q};
    } else {
      assert hit == {};
    }
  }

  // ---- Claiming order ----

  /** The track predicate of the claim query; a row without a track belongs to 'trading'. */
  predicate Eligible(row: Row, track: Option<Track>) {
    && row.status == PENDING
    && (track.None? || row.track == track || (track == Some(TRADING) && row.track.None?))
  }

  /** ORDER BY priority ASC, created_time ASC (strictly before). */
  predicate Ahead(a: Row, b: Row) {
    a.priority < b.priority || (a.priority == b.priority && a.created < b.created)
  }

  function Candidates(t: Table, track: Option<Track>, locked: set<Id>): set<Id> {
    set q | q in t && Eligible(t[q], track) && q !in locked
  }

  /** q may be returned by ORDER BY ... LIMIT 1 over the candidates (ties are the planner's choice). */
  predicate FirstOf(t: Table, candidates: set<Id>, q: Id)
    requires candidates <= t.Keys
  {
    q in candidates && forall p | p in candidates :: !Ahead(t[p], t[q])
  }

  lemma {:induction false} FirstExists(t: Table, candidates: set<Id>)
    requires candidates <= t.Keys && candidates != {}
    ensures exists q :: FirstOf(t, candidates, q)
    decreases |candidates|
  {
    var p :| p in candidates;
    var rest := candidates - {p};
    if rest == {} {
      assert candidates == {p};
      assert FirstOf(t, candidates, p);
    } else {
      FirstExists(t, rest);
      var q :| FirstOf(t, rest, q);
      if Ahead(t[p], t[q]) {
        assert FirstOf(t, candidates, p);
      } else {
        assert FirstOf(t, candidates, q);
      }
    }
  }

  /**
   Who claims what, on the columns: every claim draws from the PENDING rows that nobody holds,
   'hedging' from those tagged hedging and 'trading' from those tagged trading or not at all. So
   the two tracks claim from disjoint sets, and a claim without a track from their union.
   */
  lemma TracksPartition(t: Table, locked: set<Id>)
    ensures forall q | q in t ::
      (q in Candidates(t, Some(HEDGING), locked)
       <==> t[q].status == PENDING && q !in locked && t[q].track == Some(HEDGING))
    ensures forall q | q in t ::
      (q in Candidates(t, Some(TRADING), locked)
       <==> t[q].status == PENDING && q !in locked && t[q].track != Some(HEDGING))
    ensures Candidates(t, Some(TRADING), locked) !! Candidates(t, Some(HEDGING), locked)
    ensures Candidates(t, None, locked) == Candidates(t, Some(TRADING), locked) + Candidates(t, Some(HEDGING), locked)
    ensures forall q | q in Candidates(t, None, locked) && t[q].track.None? :: q in Candidates(t, Some(TRADING), locked)
  {
    forall q | q in Candidates(t, None, locked)
      ensures q in Candidates(t, Some(TRADING), locked) + Candidates(t, Some(HEDGING), locked)
    {
      match t[q].track
      case None =>
      case Some(TRADING) =>
      case Some(HEDGING) =>
    }
  }

  /** q heads the queue listing of these rows, which is by created_time alone. */
  predicate HeadsListing(t: Table, candidates: set<Id>, q: Id)
    requires candidates <= t.Keys
  {
    q in candidates && forall p | p in candidates :: t[q].created <= t[p].created
  }

  /**
   The listing is meant to show what the claim will pick, but it ignores priorities. Its head
   may be picked exactly when no other candidate is more urgent.
   */
  lemma ListingShowsClaimIff(t: Table, candidates: set<Id>, q: Id)
    requires candidates <= t.Keys && HeadsListing(t, candidates, q)
    ensures FirstOf(t, candidates, q) <==> forall p | p in candidates :: t[q].priority <= t[p].priority
  {
  }

  /** The rows of a listing from place i on. */
  function Remaining(rows: seq<Id>, i: nat): set<Id> {
    set k | i <= k < |rows| :: rows[k]
  }

  /** The rows as the queue listing shows them. */
  ghost predicate InListingOrder(t: Table, rows: seq<Id>) {
    && (forall k | 0 <= k < |rows| :: rows[k] in t)
    && (forall i, j | 0 <= i < j < |rows| :: t[rows[i]].created <= t[rows[j]].created)
  }

  /** One claim after the other may pick the rows in this order. */
  ghost predicate InClaimOrder(t: Table, rows: seq<Id>)
    requires forall k | 0 <= k < |rows| :: rows[k] in t
  {
    forall i | 0 <= i < |rows| :: Remaining(rows, i) <= t.Keys && FirstOf(t, Remaining(rows, i), rows[i])
  }

  /**
   The whole listing is the order in which its rows are claimed exactly when the priorities are
   nondecreasing along it.
   */
  lemma ListingIsClaimOrderIff(t: Table, rows: seq<Id>)
    requires InListingOrder(t, rows)
    ensures InClaimOrder(t, rows)
      <==> forall i, j | 0 <= i < j < |rows| :: t[rows[i]].priority <= t[rows[j]].priority
  {
    if InClaimOrder(t, rows) {
      forall i, j | 0 <= i < j < |rows| ensures t[rows[i]].priority <= t[rows[j]].priority {
        assert FirstOf(t, Remaining(rows, i), rows[i]);
        assert rows[j] in Remaining(rows, i);
      }
    }
    if forall i, j | 0 <= i < j < |rows| :: t[rows[i]].priority <= t[rows[j]].priority {
      forall i | 0 <= i < |rows| ensures Remaining(rows, i) <= t.Keys && FirstOf(t, Remaining(rows, i), rows[i]) {
        forall p | p in Remaining(rows, i) ensures p in t && !Ahead(t[p], t[rows[i]]) {
          var k :| i <= k < |rows| && rows[k] == p;
        }
        assert rows[i] in Remaining(rows, i);
      }
    }
  }

  /** A low-priority row enqueued first heads the listing and is not what the claim picks. */
  lemma ListingMisleads()
    ensures var t := map[0 := NewRow(50, None, 10), 1 := NewRow(1, None, 20)];
      && HeadsListing(t, Candidates(t, None, {}), 0)
      && !FirstOf(t, Candidates(t, None, {}), 0) && FirstOf(t, Candidates(t, None, {}), 1)
  {
    var t: Table := map[0 := NewRow(50, None, 10), 1 := NewRow(1, None, 20)];
    assert Candidates(t, None, {}) == {0, 1};
  }
}
