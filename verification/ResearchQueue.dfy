/** The research_queue table as an object that the statements of repo/queue_write.py update in place. */
module ResearchQueue {
  import opened Wrappers
  import opened QueueTable
  import opened QueueRuns

  /** What claim_next returns. */
  datatype ClaimedRow = ClaimedRow(q: Id, track: Option<Track>, priorIter: int, startedAt: Time, activeRun: Option<Id>)

  class Queue {
    var rows: Table

    /** Sound rows: the counter, the stamps and the run pointer fit the status. */
    ghost predicate Valid()
      reads this
    {
      TableOk(rows)
    }

    constructor ()
      ensures rows == map[] && Valid()
    {
      rows := map[];
    }

    /** insert_queue; q is the fresh gen_random_uuid(). */
    method InsertQueue(q: Id, priority: int, track: Option<Track>, now: Time)
      requires q !in rows
      modifies this
      ensures rows == Apply(old(rows), Insert(q, priority, track, now))
      ensures rows.Keys == old(rows).Keys + {q} && forall p | p in old(rows) :: rows[p] == old(rows)[p]
      ensures var row := rows[q];
        && row.priority == priority && row.track == track && row.created == now
        && row.status == PENDING && row.iteration == 0 && row.startedAt == None && row.activeRun == None
        && row.lastIteration == None && row.lastRun == None
        && row.completedAt == None && row.finalVerdict == None && row.walkForward == None
      ensures old(Valid()) ==> Valid()
    {
      StepKeeps(rows, Insert(q, priority, track, now));
      rows := rows[q := NewRow(priority, track, now)];
    }

    /** claim_next; locked holds the rows that other open transactions have locked. */
    method ClaimNext(track: Option<Track>, locked: set<Id>, now: Time) returns (claim: Option<ClaimedRow>)
      modifies this
      ensures claim.None? <==> Candidates(old(rows), track, locked) == {}
      ensures claim.None? ==> rows == old(rows)
      ensures claim.Some? ==>
        var c := claim.value;
        && FirstOf(old(rows), Candidates(old(rows), track, locked), c.q)
        && rows == Apply(old(rows), Claim(c.q, now))
        && Affected(old(rows), Claim(c.q, now)) == 1
        && c == ClaimedRow(c.q, old(rows)[c.q].track, old(rows)[c.q].iteration, now, old(rows)[c.q].activeRun)
        && rows[c.q].iteration == c.priorIter + 1 && rows[c.q].startedAt == Some(c.startedAt)
        && OnlyRow(old(rows), rows, c.q)
      ensures claim.Some? ==>
        var row := old(rows)[claim.value.q];
        && row.status == PENDING && claim.value.q !in locked
        && (track == Some(HEDGING) ==> row.track == Some(HEDGING))
        && (track == Some(TRADING) ==> row.track == Some(TRADING) || row.track == None)
      ensures forall p | p in old(rows) && old(rows)[p].status == PENDING && p !in locked ::
        var row := old(rows)[p];
        (track == None || row.track == track || (track == Some(TRADING) && row.track == None)) ==>
          && claim.Some?
          && var first := old(rows)[claim.value.q];
             first.priority < row.priority || (first.priority == row.priority && first.created <= row.created)
      ensures old(Valid()) ==> Valid()
    {
      TracksPartition(rows, locked);
      var candidates := Candidates(rows, track, locked);
      if candidates == {} {
        return None;
      }
      FirstExists(rows, candidates);
      var q :| q in candidates && FirstOf(rows, candidates, q);
      var row := rows[q];
      AffectedByKey(rows, q, Claim(q, now));
      StepKeeps(rows, Claim(q, now));
      rows := rows[q := row.(status := RUNNING, iteration := row.iteration + 1, startedAt := Some(now))];
      claim := Some(ClaimedRow(q, row.track, row.iteration, now, row.activeRun));
    }

    /** recover_stuck */
    method RecoverStuck(maxAge: int, now: Time) returns (affected: nat)
      modifies this
      ensures rows == Apply(old(rows), Recover(maxAge, now))
      ensures affected == Affected(old(rows), Recover(maxAge, now))
      ensures forall q | q in rows :: !Stuck(rows[q], maxAge, now)
      ensures old(Valid()) ==> Valid()
    {
      StepKeeps(rows, Recover(maxAge, now));
      var stuck := set q | q in rows && Stuck(rows[q], maxAge, now);
      affected := |stuck|;
      assert stuck == set q | q in rows && Hits(q, rows[q], Recover(maxAge, now));
      rows := map q | q in rows ::
        if q in stuck
        then rows[q].(status := PENDING, startedAt := None, iteration := UndoIteration(rows[q].iteration))
        else rows[q];
    }

    /** rollback_iter */
    method RollbackIter(q: Id, expected: Option<Status>) returns (affected: nat)
      modifies this
      ensures rows == Apply(old(rows), Rollback(q, expected))
      ensures affected == Affected(old(rows), Rollback(q, expected))
      ensures affected <= 1 && OnlyRow(old(rows), rows, q)
      ensures old(Valid()) && expected == Some(RUNNING) ==> Valid()
    {
      AffectedByKey(rows, q, Rollback(q, expected));
      StepKeeps(rows, Rollback(q, expected));
      affected := 0;
      if q in rows && Expects(expected, rows[q]) {
        rows := rows[q := rows[q].(iteration := UndoIteration(rows[q].iteration), status := PENDING)];
        affected := 1;
      }
    }

    /** park_exhausted */
    method ParkExhausted(q: Id, expected: Option<Status>, now: Time) returns (affected: nat)
      modifies this
      ensures rows == Apply(old(rows), Park(q, expected, now))
      ensures affected == Affected(old(rows), Park(q, expected, now))
      ensures affected <= 1 && OnlyRow(old(rows), rows, q)
      ensures old(Valid()) && expected == Some(RUNNING) ==> Valid()
    {
      AffectedByKey(rows, q, Park(q, expected, now));
      StepKeeps(rows, Park(q, expected, now));
      affected := 0;
      if q in rows && Expects(expected, rows[q]) {
        rows := rows[q := rows[q].(status := PARKED, completedAt := Some(now), activeRun := None)];
        affected := 1;
      }
    }

    /** fail_queue */
    method FailQueue(q: Id, expected: Option<Status>, now: Time) returns (affected: nat)
      modifies this
      ensures rows == Apply(old(rows), Fail(q, expected, now))
      ensures affected == Affected(old(rows), Fail(q, expected, now))
      ensures affected <= 1 && OnlyRow(old(rows), rows, q)
      ensures old(Valid()) && expected == Some(RUNNING) ==> Valid()
    {
      AffectedByKey(rows, q, Fail(q, expected, now));
      StepKeeps(rows, Fail(q, expected, now));
      affected := 0;
      if q in rows && Expects(expected, rows[q]) {
        rows := rows[q := rows[q].(status := FAILED, completedAt := Some(now), activeRun := None)];
        affected := 1;
      }
    }

    /** requeue_failed */
    method RequeueFailed(q: Id) returns (affected: nat)
      modifies this
      ensures rows == Apply(old(rows), Requeue(q))
      ensures affected == Affected(old(rows), Requeue(q))
      ensures affected <= 1 && OnlyRow(old(rows), rows, q)
      ensures old(Valid()) ==> Valid()
    {
      AffectedByKey(rows, q, Requeue(q));
      StepKeeps(rows, Requeue(q));
      affected := 0;
      if q in rows && rows[q].status == FAILED {
        rows := rows[q := rows[q].(status := PENDING, iteration := UndoIteration(rows[q].iteration),
          completedAt := None)];
        affected := 1;
      }
    }

    /** set_active_run */
    method SetActiveRun(q: Id, run: Id) returns (affected: nat)
      modifies this
      ensures rows == Apply(old(rows), SetActive(q, run))
      ensures affected == Affected(old(rows), SetActive(q, run))
      ensures affected <= 1 && OnlyRow(old(rows), rows, q)
      ensures old(Valid()) ==> Valid()
    {
      AffectedByKey(rows, q, SetActive(q, run));
      StepKeeps(rows, SetActive(q, run));
      affected := 0;
      if q in rows && rows[q].status == RUNNING {
        rows := rows[q := rows[q].(activeRun := Some(run))];
        affected := 1;
      }
    }

    /** complete_queue */
    method CompleteQueue(q: Id, expected: Option<Status>, verdict: string, walkForward: Option<Id>, now: Time)
      returns (affected: nat)
      modifies this
      ensures rows == Apply(old(rows), Complete(q, expected, verdict, walkForward, now))
      ensures affected == Affected(old(rows), Complete(q, expected, verdict, walkForward, now))
      ensures affected <= 1 && OnlyRow(old(rows), rows, q)
      ensures old(Valid()) && (expected == Some(RUNNING) || expected == None) ==> Valid()
    {
      AffectedByKey(rows, q, Complete(q, expected, verdict, walkForward, now));
      StepKeeps(rows, Complete(q, expected, verdict, walkForward, now));
      affected := 0;
      if q in rows && Expects(expected, rows[q]) {
        rows := rows[q := rows[q].(status := COMPLETED, finalVerdict := Some(verdict), walkForward := walkForward,
                                   completedAt := Some(now), activeRun := None)];
        affected := 1;
      }
    }

    /** reset_to_pending */
    method ResetToPending(q: Id, expected: Option<Status>) returns (affected: nat)
      modifies this
      ensures rows == Apply(old(rows), Reset(q, expected))
      ensures affected == Affected(old(rows), Reset(q, expected))
      ensures affected <= 1 && OnlyRow(old(rows), rows, q)
      ensures old(Valid()) && expected == Some(RUNNING) ==> Valid()
    {
      AffectedByKey(rows, q, Reset(q, expected));
      StepKeeps(rows, Reset(q, expected));
      affected := 0;
      if q in rows && Expects(expected, rows[q]) {
        rows := rows[q := rows[q].(status := PENDING)];
        affected := 1;
      }
    }

    /** cancel_queue */
    method CancelQueue(q: Id, now: Time) returns (affected: nat)
      modifies this
      ensures rows == Apply(old(rows), Cancel(q, now))
      ensures affected == Affected(old(rows), Cancel(q, now))
      ensures affected <= 1 && OnlyRow(old(rows), rows, q)
      ensures old(Valid()) ==> Valid()
    {
      AffectedByKey(rows, q, Cancel(q, now));
      StepKeeps(rows, Cancel(q, now));
      affected := 0;
      if q in rows && (rows[q].status == PENDING || rows[q].status == RUNNING) {
        rows := rows[q := rows[q].(status := PARKED, completedAt := Some(now))];
        affected := 1;
      }
    }

    /** attach_iteration */
    method AttachIteration(q: Id, iterationId: Id, run: Id, fence: Option<Time>) returns (affected: nat)
      modifies this
      ensures rows == Apply(old(rows), Attach(q, iterationId, run, fence))
      ensures affected == Affected(old(rows), Attach(q, iterationId, run, fence))
      ensures affected <= 1 && OnlyRow(old(rows), rows, q)
      ensures old(Valid()) ==> Valid()
    {
      AffectedByKey(rows, q, Attach(q, iterationId, run, fence));
      StepKeeps(rows, Attach(q, iterationId, run, fence));
      affected := 0;
      if q in rows && (fence.None? || rows[q].startedAt == fence) {
        rows := rows[q := rows[q].(lastIteration := Some(iterationId), lastRun := Some(run), activeRun := None)];
        affected := 1;
      }
    }
  }
}
