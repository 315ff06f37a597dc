/**
 Invariants of one research_queue row over whole runs: the attempt counter, the resume
 pointer and the finality of an operator cancel.
 */
module QueueRuns {
  import opened Wrappers
  import opened QueueTable

  /**
   The contract of the callers: a tick guards every transition by RUNNING, and only the
   walk-forward caller completes a row without a guard.
   */
  predicate Guarded(step: Step) {
    match step
    case Rollback(_, expected) => expected == Some(RUNNING)
    case Park(_, expected, _) => expected == Some(RUNNING)
    case Fail(_, expected, _) => expected == Some(RUNNING)
    case Reset(_, expected) => expected == Some(RUNNING)
    case Complete(_, expected, _, _, _) => expected == Some(RUNNING) || expected == None
    case _ => true
  }

  ghost predicate GuardedRun(steps: seq<Step>) {
    forall i | 0 <= i < |steps| :: Guarded(steps[i])
  }

  /** Statement i affects the row. */
  predicate HitAt(q: Id, row: Row, steps: seq<Step>, i: nat) {
    i < |steps| && Hits(q, At(q, row, steps, i), steps[i])
  }

  predicate IsUndo(step: Step) {
    step.Recover? || step.Rollback? || step.Requeue?
  }

  function Claims(q: Id, row: Row, steps: seq<Step>, n: nat): nat
    requires n <= |steps|
  {
    if n == 0 then 0
    else Claims(q, row, steps, n - 1) + if HitAt(q, row, steps, n - 1) && steps[n - 1].Claim? then 1 else 0
  }

  /** Recoveries, rollbacks and requeues of the row. */
  function Undos(q: Id, row: Row, steps: seq<Step>, n: nat): nat
    requires n <= |steps|
  {
    if n == 0 then 0
    else Undos(q, row, steps, n - 1) + if HitAt(q, row, steps, n - 1) && IsUndo(steps[n - 1]) then 1 else 0
  }

  function Resets(q: Id, row: Row, steps: seq<Step>, n: nat): nat
    requires n <= |steps|
  {
    if n == 0 then 0
    else Resets(q, row, steps, n - 1) + if HitAt(q, row, steps, n - 1) && steps[n - 1].Reset? then 1 else 0
  }

  predicate CounterOk(row: Row) {
    row.iteration >= 0 && (row.status == RUNNING || row.status == FAILED ==> row.iteration >= 1)
  }

  // ---- The attempt counter ----

  /** Conservation: the counter is the claims minus everything that undid a claim. */
  lemma {:induction false} IterationConserved(q: Id, row: Row, steps: seq<Step>, n: nat)
    requires GuardedRun(steps) && n <= |steps| && CounterOk(row)
    ensures CounterOk(At(q, row, steps, n))
    ensures At(q, row, steps, n).iteration
         == row.iteration + Claims(q, row, steps, n) - Undos(q, row, steps, n)
  {
    if n > 0 {
      IterationConserved(q, row, steps, n - 1);
      assert Guarded(steps[n - 1]);
    }
  }

  /** GREATEST(iteration_number - 1, 0) never clamps: every undo takes back exactly one. */
  lemma NoClamp(q: Id, row: Row, steps: seq<Step>, i: nat)
    requires GuardedRun(steps) && CounterOk(row)
    requires HitAt(q, row, steps, i) && IsUndo(steps[i])
    ensures At(q, row, steps, i + 1).iteration == At(q, row, steps, i).iteration - 1 >= 0
  {
    IterationConserved(q, row, steps, i);
    assert Guarded(steps[i]);
  }

  /** Without the caller contract the counter is not conserved: an unguarded fail of a fresh row, requeued. */
  lemma UnguardedFailClamps()
    ensures var row := NewRow(1, None, 0);
      var steps := [Fail(0, None, 1), Requeue(0)];
      && HitAt(0, row, steps, 1)
      && Undos(0, row, steps, 2) == 1 && Claims(0, row, steps, 2) == 0
      && At(0, row, steps, 2).iteration == 0
  {
    var row := NewRow(1, None, 0);
    var steps := [Fail(0, None, 1), Requeue(0)];
    assert At(0, row, steps, 0) == row;
    assert At(0, row, steps, 1) == row.(status := FAILED, completedAt := Some(1));
    assert At(0, row, steps, 2) == row;
    assert Undos(0, row, steps, 1) == 0;
    assert Claims(0, row, steps, 1) == 0;
  }

  /** How far a row can be between a claim that found counter p and the next claim. */
  predicate Attempt(row: Row, p: int, undos: int, resets: int) {
    && (row.status == RUNNING || row.status == FAILED ==> row.iteration == p + 1 && undos == 0 && resets == 0)
    && (row.status == PENDING ==>
        || (row.iteration == p && undos == 1 && resets == 0)
        || (row.iteration == p + 1 && undos == 0 && resets == 1))
  }

  lemma {:induction false} AttemptKept(q: Id, row: Row, steps: seq<Step>, i: nat, k: nat)
    requires GuardedRun(steps) && CounterOk(row)
    requires i < k <= |steps| && HitAt(q, row, steps, i) && steps[i].Claim?
    requires forall m | i < m < k :: !(steps[m].Claim? && HitAt(q, row, steps, m))
    ensures Attempt(At(q, row, steps, k), At(q, row, steps, i).iteration,
                    Undos(q, row, steps, k) - Undos(q, row, steps, i),
                    Resets(q, row, steps, k) - Resets(q, row, steps, i))
  {
    IterationConserved(q, row, steps, i);
    if k > i + 1 {
      AttemptKept(q, row, steps, i, k - 1);
      assert Guarded(steps[k - 1]);
    }
  }

  /**
   The next claim is handed prior_iter again exactly when the attempt was undone, which
   happens at most once between two claims; otherwise it was reset once and prior_iter grew by one.
   */
  lemma UndoneAttemptRepeats(q: Id, row: Row, steps: seq<Step>, i: nat, j: nat)
    requires GuardedRun(steps) && CounterOk(row)
    requires i < j && HitAt(q, row, steps, i) && steps[i].Claim? && HitAt(q, row, steps, j) && steps[j].Claim?
    requires forall m | i < m < j :: !(steps[m].Claim? && HitAt(q, row, steps, m))
    ensures var undos := Undos(q, row, steps, j) - Undos(q, row, steps, i);
      var resets := Resets(q, row, steps, j) - Resets(q, row, steps, i);
      && 0 <= undos <= 1 && undos + resets == 1
      && At(q, row, steps, j).iteration == At(q, row, steps, i).iteration + 1 - undos
  {
    AttemptKept(q, row, steps, i, j);
  }

  // ---- The resume pointer ----

  predicate SetAt(q: Id, row: Row, steps: seq<Step>, i: nat, run: Id) {
    HitAt(q, row, steps, i) && steps[i] == SetActive(q, run)
  }

  predicate ClearsPointer(step: Step) {
    step.Attach? || step.Park? || step.Fail? || step.Complete? || step.SetActive?
  }

  /** No attach, park, fail, complete or newer set of the row strictly between i and n. */
  ghost predicate Uncleared(q: Id, row: Row, steps: seq<Step>, i: nat, n: nat) {
    forall j | i < j < n :: !(HitAt(q, row, steps, j) && ClearsPointer(steps[j]))
  }

  lemma {:induction false} PointerKept(q: Id, row: Row, steps: seq<Step>, i: nat, n: nat, run: Id)
    requires i < n <= |steps| && SetAt(q, row, steps, i, run) && Uncleared(q, row, steps, i, n)
    ensures At(q, row, steps, n).activeRun == Some(run)
  {
    if n > i + 1 {
      PointerKept(q, row, steps, i, n - 1, run);
    }
  }

  lemma {:induction false} PointerOrigin(q: Id, row: Row, steps: seq<Step>, n: nat, run: Id)
    requires n <= |steps| && row.activeRun == None
    requires At(q, row, steps, n).activeRun == Some(run)
    ensures exists i | 0 <= i < n :: SetAt(q, row, steps, i, run) && Uncleared(q, row, steps, i, n)
  {
    if n > 0 {
      if HitAt(q, row, steps, n - 1) && ClearsPointer(steps[n - 1]) {
        assert SetAt(q, row, steps, n - 1, run) && Uncleared(q, row, steps, n - 1, n);
      } else {
        PointerOrigin(q, row, steps, n - 1, run);
        var i :| 0 <= i < n - 1 && SetAt(q, row, steps, i, run) && Uncleared(q, row, steps, i, n - 1);
        assert Uncleared(q, row, steps, i, n);
      }
    }
  }

  /**
   Over every run, guarded or not, a claim returns run r as active_backtest_run_id exactly
   when r was set while the row was RUNNING and nothing has cleared or replaced it since.
   Recoveries, rollbacks, resets, requeues, cancels and other claims are free to happen.
   */
  lemma ResumePointerExact(q: Id, row: Row, steps: seq<Step>, n: nat, run: Id)
    requires n <= |steps| && row.activeRun == None
    ensures At(q, row, steps, n).activeRun == Some(run)
       <==> exists i | 0 <= i < n :: SetAt(q, row, steps, i, run) && Uncleared(q, row, steps, i, n)
  {
    if At(q, row, steps, n).activeRun == Some(run) {
      PointerOrigin(q, row, steps, n, run);
    }
    if i: nat :| i < n && SetAt(q, row, steps, i, run) && Uncleared(q, row, steps, i, n) {
      PointerKept(q, row, steps, i, n, run);
    }
  }

  predicate DeadRowsHaveNoRun(row: Row) {
    row.status == FAILED || row.status == COMPLETED ==> row.activeRun == None
  }

  /** FAILED and COMPLETED rows never point at a run, over every run of guarded or unguarded statements. */
  lemma {:induction false} DeadRunsForgotten(q: Id, row: Row, steps: seq<Step>, n: nat)
    requires n <= |steps| && DeadRowsHaveNoRun(row)
    ensures DeadRowsHaveNoRun(At(q, row, steps, n))
    ensures At(q, row, steps, n).status in {FAILED, COMPLETED} ==> At(q, row, steps, n).activeRun == None
  {
    if n > 0 {
      DeadRunsForgotten(q, row, steps, n - 1);
    }
  }

  /** So a requeued row resumes nothing until some tick sets a run again. */
  lemma {:induction false} RequeuedStartsAfresh(q: Id, row: Row, steps: seq<Step>, i: nat, n: nat)
    requires DeadRowsHaveNoRun(row) && i < n <= |steps|
    requires HitAt(q, row, steps, i) && steps[i].Requeue?
    requires forall j | i < j < n :: !(HitAt(q, row, steps, j) && steps[j].SetActive?)
    ensures At(q, row, steps, n).activeRun == None
  {
    if n == i + 1 {
      DeadRunsForgotten(q, row, steps, i);
    } else {
      RequeuedStartsAfresh(q, row, steps, i, n - 1);
    }
  }

  // ---- Operator cancel ----

  predicate UnguardedComplete(q: Id, step: Step) {
    step.Complete? && step.q == q && step.expected.None?
  }

  /**
   A cancel is final: whatever guarded statements follow, the row stays PARKED until an
   unguarded complete of it, and from then on it is COMPLETED. So it is PARKED at the end if
   and only if no such complete was issued.
   */
  lemma {:induction false} CancelFinal(q: Id, row: Row, steps: seq<Step>, i: nat, n: nat)
    requires GuardedRun(steps) && i < n <= |steps|
    requires HitAt(q, row, steps, i) && steps[i].Cancel?
    ensures At(q, row, steps, n).status
         == if exists j :: i < j < n && UnguardedComplete(q, steps[j]) then COMPLETED else PARKED
  {
    if n > i + 1 {
      CancelFinal(q, row, steps, i, n - 1);
      assert Guarded(steps[n - 1]);
      if j :| i < j < n - 1 && UnguardedComplete(q, steps[j]) {
        assert i < j < n && UnguardedComplete(q, steps[j]);
      }
    }
  }

  /** COMPLETED is closed under every guarded run. */
  lemma {:induction false} CompletedFinal(q: Id, row: Row, steps: seq<Step>, n: nat)
    requires GuardedRun(steps) && n <= |steps| && row.status == COMPLETED
    ensures At(q, row, steps, n).status == COMPLETED
    ensures At(q, row, steps, n).iteration == row.iteration && At(q, row, steps, n).startedAt == row.startedAt
  {
    if n > 0 {
      CompletedFinal(q, row, steps, n - 1);
      assert Guarded(steps[n - 1]);
    }
  }

  // ---- Stamps and the reaper ----

  /** Which columns are filled in which status. */
  predicate ShapeOk(row: Row) {
    && (row.completedAt.Some? <==> row.status == PARKED || row.status == FAILED || row.status == COMPLETED)
    && (row.finalVerdict.Some? <==> row.status == COMPLETED)
    && (row.walkForward.Some? ==> row.status == COMPLETED)
    && (row.status == RUNNING ==> row.startedAt.Some?)
  }

  /**
   In guarded runs completed_at is set exactly on closed rows and the verdict exactly on
   completed ones, whatever is requeued, cancelled or completed in between, and a RUNNING row
   always has a started_at.
   */
  lemma {:induction false} RowShape(q: Id, row: Row, steps: seq<Step>, n: nat)
    requires GuardedRun(steps) && n <= |steps| && ShapeOk(row)
    ensures ShapeOk(At(q, row, steps, n))
    ensures var after := At(q, row, steps, n);
      && (after.completedAt != None <==> after.status in {PARKED, FAILED, COMPLETED})
      && (after.finalVerdict != None <==> after.status == COMPLETED)
      && (after.walkForward != None ==> after.status == COMPLETED)
      && (after.status == RUNNING ==> after.startedAt != None)
  {
    if n > 0 {
      RowShape(q, row, steps, n - 1);
      assert Guarded(steps[n - 1]);
    }
  }

  /**
   The reaper misses nothing: although it skips rows without a started_at, right after it ran
   every RUNNING row was claimed within the last maxAge seconds, and no young one was touched.
   */
  lemma ReaperMissesNothing(t: Table, q: Id, steps: seq<Step>, n: nat, maxAge: int, now: Time)
    requires q in t && ShapeOk(t[q]) && GuardedRun(steps) && n <= |steps|
    ensures var before := TableAt(t, steps, n);
      var after := Apply(before, Recover(maxAge, now));
      && q in before && q in after
      && (after[q].status == RUNNING ==> after[q].startedAt.Some? && after[q].startedAt.value >= now - maxAge)
      && (after[q] != before[q] <==>
          before[q].status == RUNNING && before[q].startedAt.Some? && before[q].startedAt.value < now - maxAge)
  {
    RowOfTable(t, q, steps, n);
    RowShape(q, t[q], steps, n);
  }

  /**
   Status and closing columns, read off the history: they are those of the last statement that
   took effect on the row (step i - 1, or none when i is 0), attaches and pointer updates aside.
   */
  lemma {:induction false} StatusOfHistory(q: Id, row: Row, steps: seq<Step>, n: nat) returns (i: nat)
    requires n <= |steps|
    ensures i <= n && forall j: nat | i <= j < n && HitAt(q, row, steps, j) :: steps[j].Attach? || steps[j].SetActive?
    ensures i > 0 ==> HitAt(q, row, steps, i - 1) && !steps[i - 1].Attach? && !steps[i - 1].SetActive?
    ensures var now := At(q, row, steps, n);
      if i == 0 then
        && now.status == row.status && now.completedAt == row.completedAt
        && now.finalVerdict == row.finalVerdict && now.walkForward == row.walkForward
      else
        var s := steps[i - 1];
        && (s.Claim? ==> now.status == RUNNING)
        && (s.Recover? || s.Rollback? || s.Reset? ==> now.status == PENDING)
        && (s.Requeue? ==> now.status == PENDING && now.completedAt == None)
        && (s.Park? || s.Cancel? ==> now.status == PARKED && now.completedAt == Some(s.now))
        && (s.Fail? ==> now.status == FAILED && now.completedAt == Some(s.now))
        && (s.Complete? ==>
            && now.status == COMPLETED && now.completedAt == Some(s.now)
            && now.finalVerdict == Some(s.verdict) && now.walkForward == s.walkForward)
  {
    if n == 0 {
      i := 0;
    } else if HitAt(q, row, steps, n - 1) && !steps[n - 1].Attach? && !steps[n - 1].SetActive? {
      i := n;
    } else {
      i := StatusOfHistory(q, row, steps, n - 1);
    }
  }

  // ---- The last attached iteration ----

  predicate AttachAt(q: Id, row: Row, steps: seq<Step>, i: nat) {
    HitAt(q, row, steps, i) && steps[i].Attach?
  }

  /**
   last_iteration_id and last_run_id always name the pair of the last attach that took
   effect (step i - 1, or none when i is 0), and nothing else writes them.
   */
  lemma {:induction false} AttachRemembered(q: Id, row: Row, steps: seq<Step>, n: nat) returns (i: nat)
    requires n <= |steps|
    ensures i <= n && forall j: nat | i <= j < n :: !AttachAt(q, row, steps, j)
    ensures i == 0 ==>
      At(q, row, steps, n).lastIteration == row.lastIteration && At(q, row, steps, n).lastRun == row.lastRun
    ensures i > 0 ==>
      && AttachAt(q, row, steps, i - 1)
      && At(q, row, steps, n).lastIteration == Some(steps[i - 1].iterationId)
      && At(q, row, steps, n).lastRun == Some(steps[i - 1].run)
  {
    if n == 0 {
      i := 0;
    } else if AttachAt(q, row, steps, n - 1) {
      i := n;
    } else {
      i := AttachRemembered(q, row, steps, n - 1);
    }
  }

  // ---- What every guarded call keeps ----

  predicate RowOk(row: Row) {
    CounterOk(row) && DeadRowsHaveNoRun(row) && ShapeOk(row)
  }

  ghost predicate TableOk(t: Table) {
    forall q | q in t :: RowOk(t[q])
  }

  ghost predicate OnlyRow(before: Table, after: Table, q: Id) {
    after.Keys == before.Keys && forall p | p in before && p != q :: after[p] == before[p]
  }

  /** A guarded statement keeps a sound table sound; a statement keyed on a row touches that row only. */
  lemma StepKeeps(t: Table, step: Step)
    ensures Guarded(step) && TableOk(t) ==> TableOk(Apply(t, step))
    ensures !step.Insert? && !step.Recover? ==> Affected(t, step) <= 1 && OnlyRow(t, Apply(t, step), step.q)
  {
    if Guarded(step) && TableOk(t) {
      forall q | q in t ensures RowOk(StepRow(q, t[q], step)) {
        assert RowOk(t[q]);
      }
    }
    if !step.Insert? && !step.Recover? {
      AffectedByKey(t, step.q, step);
    }
  }
}
