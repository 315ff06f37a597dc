/**
 The started_at fence. A tick keeps the started_at its claim returned and passes it to
 attach_iteration. Between the two, any statements of any number of other clients may run.
 */
module QueueFence {
  import opened Wrappers
  import opened QueueTable

  predicate ClaimedAt(q: Id, row: Row, steps: seq<Step>, i: nat) {
    i < |steps| && steps[i].Claim? && Hits(q, At(q, row, steps, i), steps[i])
  }

  predicate RecoveredAt(q: Id, row: Row, steps: seq<Step>, i: nat) {
    i < |steps| && steps[i].Recover? && Hits(q, At(q, row, steps, i), steps[i])
  }

  /** No claim and no recovery of the row strictly between statements i and n. */
  ghost predicate Undisturbed(q: Id, row: Row, steps: seq<Step>, i: nat, n: nat) {
    forall j | i < j < n :: !ClaimedAt(q, row, steps, j) && !RecoveredAt(q, row, steps, j)
  }

  /** After n statements, an attach fenced with this token affects the row. */
  predicate Attaches(q: Id, row: Row, steps: seq<Step>, n: nat, token: Time)
    requires n <= |steps|
  {
    Hits(q, At(q, row, steps, n), Attach(q, 0, 0, Some(token)))
  }

  /** All claims of the row returned different timestamps. */
  ghost predicate DistinctTokens(q: Id, row: Row, steps: seq<Step>) {
    forall i, j | 0 <= i < j && ClaimedAt(q, row, steps, i) && ClaimedAt(q, row, steps, j) ::
      steps[i].now != steps[j].now
  }

  /**
   The promise of the fence: at every moment after a claim, the tick that made it can attach
   exactly when nobody has claimed or recovered the row since.
   */
  ghost predicate FenceExact(q: Id, row: Row, steps: seq<Step>) {
    forall i, n | 0 <= i < n <= |steps| && ClaimedAt(q, row, steps, i) ::
      Attaches(q, row, steps, n, steps[i].now) <==> Undisturbed(q, row, steps, i, n)
  }

  /** The last claim or recovery of the row before statement n, or -1. */
  function LastMark(q: Id, row: Row, steps: seq<Step>, n: nat): int
    requires n <= |steps|
  {
    if n == 0 then -1
    else if ClaimedAt(q, row, steps, n - 1) || RecoveredAt(q, row, steps, n - 1) then n - 1
    else LastMark(q, row, steps, n - 1)
  }

  /** started_at is written by claims and recoveries only, so the last of them decides it. */
  lemma {:induction false} LastMarkDecides(q: Id, row: Row, steps: seq<Step>, n: nat)
    requires n <= |steps|
    ensures var m := LastMark(q, row, steps, n);
      && -1 <= m < n
      && (forall j | m < j < n :: !ClaimedAt(q, row, steps, j) && !RecoveredAt(q, row, steps, j))
      && (m >= 0 && ClaimedAt(q, row, steps, m) ==> At(q, row, steps, n).startedAt == Some(steps[m].now))
      && (m >= 0 && !ClaimedAt(q, row, steps, m) ==>
        At(q, row, steps, n).startedAt == None && RecoveredAt(q, row, steps, m))
  {
    if n > 0 {
      LastMarkDecides(q, row, steps, n - 1);
    }
  }

  /** The fence with no assumption: it compares the token with that of the last claim. */
  lemma AttachesMeansLastClaim(q: Id, row: Row, steps: seq<Step>, i: nat, n: nat)
    requires i < n <= |steps| && ClaimedAt(q, row, steps, i)
    ensures var m := LastMark(q, row, steps, n);
      && i <= m
      && (m == i <==> Undisturbed(q, row, steps, i, n))
      && (Attaches(q, row, steps, n, steps[i].now) <==>
          ClaimedAt(q, row, steps, m) && steps[m].now == steps[i].now)
  {
    LastMarkDecides(q, row, steps, n);
  }

  /**
   Fence safety over every interleaving, with its exact condition: the fence tells the owner
   from every stale tick if and only if no two claims of the row share a timestamp.
   */
  lemma FenceExactIffDistinct(q: Id, row: Row, steps: seq<Step>)
    ensures FenceExact(q, row, steps) <==> DistinctTokens(q, row, steps)
  {
    if DistinctTokens(q, row, steps) {
      forall i, n | 0 <= i < n <= |steps| && ClaimedAt(q, row, steps, i)
        ensures Attaches(q, row, steps, n, steps[i].now) <==> Undisturbed(q, row, steps, i, n)
      {
        AttachesMeansLastClaim(q, row, steps, i, n);
      }
    }
    if FenceExact(q, row, steps) {
      forall i, j | 0 <= i < j && ClaimedAt(q, row, steps, i) && ClaimedAt(q, row, steps, j)
        ensures steps[i].now != steps[j].now
      {
        AttachesMeansLastClaim(q, row, steps, i, j + 1);
        assert LastMark(q, row, steps, j + 1) == j;
        assert !Undisturbed(q, row, steps, i, j + 1);
      }
    }
  }

  /**
   Fence safety on a whole table: if a tick's fenced attach affects a row, no other claim and
   no recovery of that row has happened since the claim that issued its token, and the
   statement leaves every other row alone.
   */
  lemma FenceSafety(t: Table, q: Id, steps: seq<Step>, i: nat, n: nat, iterationId: Id, run: Id)
    requires q in t && i < n <= |steps|
    requires ClaimedAt(q, t[q], steps, i) && DistinctTokens(q, t[q], steps)
    ensures var now := TableAt(t, steps, n);
      var attach := Attach(q, iterationId, run, Some(steps[i].now));
      && Affected(now, attach) == (if Undisturbed(q, t[q], steps, i, n) then 1 else 0)
      && (!Undisturbed(q, t[q], steps, i, n) ==> Apply(now, attach) == now)
      && (forall p | p in now && p != q :: Apply(now, attach)[p] == now[p])
  {
    FenceExactIffDistinct(q, t[q], steps);
    RowOfTable(t, q, steps, n);
    var attach := Attach(q, iterationId, run, Some(steps[i].now));
    AffectedByKey(TableAt(t, steps, n), q, attach);
    assert Hits(q, At(q, t[q], steps, n), attach) == Attaches(q, t[q], steps, n, steps[i].now);
  }

  /** At any moment the tokens of two different claims of a row cannot both attach. */
  lemma OneOwner(q: Id, row: Row, steps: seq<Step>, i: nat, j: nat, n: nat)
    requires DistinctTokens(q, row, steps)
    requires i < j < n <= |steps| && ClaimedAt(q, row, steps, i) && ClaimedAt(q, row, steps, j)
    ensures !Attaches(q, row, steps, n, steps[i].now)
  {
    FenceExactIffDistinct(q, row, steps);
  }

  // ---- The status guards ----

  /** A statement on the row that a tick guards by RUNNING and by nothing else. */
  predicate GuardedByRunning(q: Id, stmt: Step) {
    match stmt
    case Rollback(id, expected) => id == q && expected == Some(RUNNING)
    case Park(id, expected, _) => id == q && expected == Some(RUNNING)
    case Fail(id, expected, _) => id == q && expected == Some(RUNNING)
    case Reset(id, expected) => id == q && expected == Some(RUNNING)
    case Complete(id, expected, _, _, _) => id == q && expected == Some(RUNNING)
    case SetActive(id, _) => id == q
    case _ => false
  }

  /** Only a claim makes a row RUNNING, and a recovery ends that, so the last mark of a RUNNING row is a claim. */
  lemma {:induction false} RunningIsClaimed(q: Id, row: Row, steps: seq<Step>, n: nat)
    requires row.status != RUNNING && n <= |steps| && At(q, row, steps, n).status == RUNNING
    ensures var m := LastMark(q, row, steps, n); m >= 0 && ClaimedAt(q, row, steps, m)
  {
    if !ClaimedAt(q, row, steps, n - 1) {
      RunningIsClaimed(q, row, steps, n - 1);
    }
  }

  /** Whoever finds the row RUNNING after its claim still owns it. */
  ghost predicate RunningIsOwned(q: Id, row: Row, steps: seq<Step>) {
    forall i, n | 0 <= i < n <= |steps| && ClaimedAt(q, row, steps, i) && At(q, row, steps, n).status == RUNNING ::
      Undisturbed(q, row, steps, i, n)
  }

  ghost predicate ClaimedAtMostOnce(q: Id, row: Row, steps: seq<Step>) {
    forall i, j | 0 <= i < j && ClaimedAt(q, row, steps, i) :: !ClaimedAt(q, row, steps, j)
  }

  /**
   When the status guard is as good as the fence, over every run and on any clock: exactly when
   the row is claimed at most once. From the second claim on it does not tell the owner.
   */
  lemma GuardIsFenceIff(q: Id, row: Row, steps: seq<Step>)
    requires row.status != RUNNING
    ensures RunningIsOwned(q, row, steps) <==> ClaimedAtMostOnce(q, row, steps)
  {
    if ClaimedAtMostOnce(q, row, steps) {
      forall i, n | 0 <= i < n <= |steps| && ClaimedAt(q, row, steps, i) && At(q, row, steps, n).status == RUNNING
        ensures Undisturbed(q, row, steps, i, n)
      {
        RunningIsClaimed(q, row, steps, n);
        AttachesMeansLastClaim(q, row, steps, i, n);
      }
    }
    if RunningIsOwned(q, row, steps) {
      forall i, j | 0 <= i < j && ClaimedAt(q, row, steps, i) ensures !ClaimedAt(q, row, steps, j) {
        assert ClaimedAt(q, row, steps, j) ==> !Undisturbed(q, row, steps, i, j + 1);
      }
    }
  }

  /** Tick i issues the statement after n steps, and it lands on the attempt of a newer claim. */
  ghost predicate TakesNewer(q: Id, row: Row, steps: seq<Step>, i: nat, n: nat, stmt: Step)
    requires n <= |steps|
  {
    && Hits(q, At(q, row, steps, n), stmt)
    && exists j | i < j < n :: ClaimedAt(q, row, steps, j) && Undisturbed(q, row, steps, j, n)
  }

  /**
   When a rollback, park, fail, reset, complete or set_active_run that is guarded by RUNNING takes
   a newer tick's attempt: exactly when the row is RUNNING under another started_at than the
   issuer's. The same test in the WHERE clause would rule it out, as it does for the attach.
   */
  lemma GuardTakesNewerIff(q: Id, row: Row, steps: seq<Step>, i: nat, n: nat, stmt: Step)
    requires row.status != RUNNING && DistinctTokens(q, row, steps) && GuardedByRunning(q, stmt)
    requires i < n <= |steps| && ClaimedAt(q, row, steps, i)
    ensures var now := At(q, row, steps, n);
      TakesNewer(q, row, steps, i, n, stmt) <==> now.status == RUNNING && now.startedAt != Some(steps[i].now)
  {
    AttachesMeansLastClaim(q, row, steps, i, n);
    LastMarkDecides(q, row, steps, n);
    var now := At(q, row, steps, n);
    assert Hits(q, now, stmt) <==> now.status == RUNNING;
    if now.status == RUNNING {
      RunningIsClaimed(q, row, steps, n);
      var m := LastMark(q, row, steps, n);
      assert Undisturbed(q, row, steps, m, n);
      if j: nat :| i < j < n && ClaimedAt(q, row, steps, j) && Undisturbed(q, row, steps, j, n) {
        AttachesMeansLastClaim(q, row, steps, j, n);
      }
    }
  }

  /** With that test, a guarded statement hits exactly the attempt of its own tick. */
  lemma FencedGuardIff(q: Id, row: Row, steps: seq<Step>, i: nat, n: nat, stmt: Step)
    requires row.status != RUNNING && DistinctTokens(q, row, steps) && GuardedByRunning(q, stmt)
    requires i < n <= |steps| && ClaimedAt(q, row, steps, i)
    ensures var now := At(q, row, steps, n);
      Hits(q, now, stmt) && now.startedAt == Some(steps[i].now)
      <==> now.status == RUNNING && Undisturbed(q, row, steps, i, n)
  {
    FenceExactIffDistinct(q, row, steps);
    assert Attaches(q, row, steps, n, steps[i].now) <==> Undisturbed(q, row, steps, i, n);
  }

  /**
   The witness. Tick A claims at 10 and is recovered at 20; tick B claims at 21; A comes back and
   its rollback, guarded by RUNNING, takes the row from B. B's token still attaches although the
   row is PENDING again, and A's token does not.
   */
  lemma GuardIsNotFence()
    ensures var row := NewRow(1, None, 0);
      var steps := [Claim(0, 10), Recover(5, 20), Claim(0, 21), Rollback(0, Some(RUNNING))];
      && ClaimedAt(0, row, steps, 0) && ClaimedAt(0, row, steps, 2) && DistinctTokens(0, row, steps)
      && Hits(0, At(0, row, steps, 3), steps[3])
      && At(0, row, steps, 4).status == PENDING
      && Attaches(0, row, steps, 4, 21) && !Attaches(0, row, steps, 4, 10)
  {
    var row := NewRow(1, None, 0);
    var steps := [Claim(0, 10), Recover(5, 20), Claim(0, 21), Rollback(0, Some(RUNNING))];
    assert At(0, row, steps, 0) == row;
    assert At(0, row, steps, 1) == row.(status := RUNNING, iteration := 1, startedAt := Some(10));
    assert At(0, row, steps, 2) == row;
    assert At(0, row, steps, 3) == row.(status := RUNNING, iteration := 1, startedAt := Some(21));
    assert At(0, row, steps, 4) == row.(startedAt := Some(21));
  }
}
