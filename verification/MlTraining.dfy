/**
 ML training runs (repo/ml_training_runs.py) and the budget snapshot of repo/agent_state.py.
 Times are hours on the database clock; each statement is one atomic step.
 */
module MlTraining {
  import opened Wrappers

  type Id = nat

  datatype Status = Pending | Running | Completed | Failed | TimedOut | Orphaned

  /** report stands for exit code, output tails, error envelope and model id. */
  datatype Run = Run(agent: string, status: Status, created: int, report: Option<string>)

  type Table = map<Id, Run>

  datatype Step =
    | InsertPending(id: Id, agent: string, now: int)
    | MarkRunning(id: Id)
    | MarkTerminal(id: Id, status: Status, report: Option<string>)
    | ReapOrphaned

  predicate Terminal(s: Status) {
    s.Completed? || s.Failed? || s.TimedOut? || s.Orphaned?
  }

  const RESTART := Some("orchestrator_restart")

  function Reaped(r: Run): Run {
    if r.status.Running? then r.(status := Orphaned, report := RESTART) else r
  }

  /** mark_terminal raises ValueError on a status that is not terminal. */
  function Apply(t: Table, s: Step): Table {
    match s
    case InsertPending(id, agent, now) => if id in t then t else t[id := Run(agent, Pending, now, None)]
    case MarkRunning(id) => if id in t && t[id].status.Pending? then t[id := t[id].(status := Running)] else t
    case MarkTerminal(id, status, report) =>
      if id in t && Terminal(status) && !Terminal(t[id].status)
      then t[id := t[id].(status := status, report := report)] else t
    case ReapOrphaned => map id | id in t :: Reaped(t[id])
  }

  function TableAt(t: Table, steps: seq<Step>, n: nat): Table
    requires n <= |steps|
  {
    if n == 0 then t else Apply(TableAt(t, steps, n - 1), steps[n - 1])
  }

  /** The first terminal write wins: no steps whatever change a terminal run or its report. */
  lemma {:induction false} TerminalFinal(t: Table, steps: seq<Step>, n: nat, id: Id)
    requires n <= |steps| && id in t && Terminal(t[id].status)
    ensures id in TableAt(t, steps, n) && TableAt(t, steps, n)[id] == t[id]
  {
    if n > 0 {
      TerminalFinal(t, steps, n - 1, id);
    }
  }

  /** The WHERE clause that count_active_in_window and _ml_training_budget share. */
  predicate IsCounted(r: Run, agent: string, now: int, window: int) {
    r.agent == agent && (r.status.Pending? || r.status.Running? || r.status.Completed?) && r.created > now - window
  }

  function Counted(t: Table, agent: string, now: int, window: int): set<Id> {
    set id | id in t && IsCounted(t[id], agent, now, window)
  }

  function Used(t: Table, agent: string, now: int, window: int): nat {
    |Counted(t, agent, now, window)|
  }

  // ---- The count, read off the history ----

  /** Step k is the one that inserts run id. */
  ghost predicate Starts(steps: seq<Step>, k: int, id: Id) {
    && 0 <= k < |steps| && steps[k].InsertPending? && steps[k].id == id
    && forall j | 0 <= j < k :: !(steps[j].InsertPending? && steps[j].id == id)
  }

  ghost predicate WasStarted(steps: seq<Step>, k: int, m: int, id: Id) {
    exists r | k < r < m && 0 <= r < |steps| :: steps[r] == MarkRunning(id)
  }

  /** Step m would end the run inserted by step k: a terminal mark, or a reap after it was marked running. */
  ghost predicate Ends(steps: seq<Step>, k: int, m: int, id: Id) {
    && 0 <= k < m < |steps|
    && ((steps[m].MarkTerminal? && steps[m].id == id && steps[m].status in {Completed, Failed, TimedOut, Orphaned})
        || (steps[m].ReapOrphaned? && WasStarted(steps, k, m, id)))
  }

  ghost predicate EndsFirst(steps: seq<Step>, k: int, m: int, id: Id) {
    Ends(steps, k, m, id) && forall j | k < j < m :: !Ends(steps, k, j, id)
  }

  lemma {:induction false} NotYetInserted(steps: seq<Step>, n: nat, id: Id)
    requires n <= |steps| && forall j | 0 <= j < n :: !(steps[j].InsertPending? && steps[j].id == id)
    ensures id !in TableAt(map[], steps, n)
  {
    if n > 0 {
      NotYetInserted(steps, n - 1, id);
    }
  }

  /** A run, read off the history: the step that inserted it and the first one that ended it, m < 0 if none did. */
  lemma {:induction false} RunOfHistory(steps: seq<Step>, k: nat, n: nat, id: Id) returns (m: int)
    requires k < n <= |steps| && Starts(steps, k, id)
    ensures id in TableAt(map[], steps, n)
    ensures var run := TableAt(map[], steps, n)[id];
      && run.agent == steps[k].agent && run.created == steps[k].now
      && (m < 0 ==>
          && (forall j | k < j < n :: !Ends(steps, k, j, id))
          && run.status == (if WasStarted(steps, k, n, id) then Running else Pending) && run.report == None)
      && (m >= 0 ==>
          && m < n && EndsFirst(steps, k, m, id)
          && if steps[m].ReapOrphaned? then run.status == Orphaned && run.report == Some("orchestrator_restart")
             else run.status == steps[m].status && run.report == steps[m].report)
  {
    if n == k + 1 {
      NotYetInserted(steps, k, id);
      m := -1;
      assert !WasStarted(steps, k, n, id);
    } else {
      m := RunOfHistory(steps, k, n - 1, id);
      if m < 0 {
        StartedStep(steps, k, n - 1, n, id);
        if Ends(steps, k, n - 1, id) {
          m := n - 1;
        }
      }
    }
  }

  lemma StartedStep(steps: seq<Step>, k: nat, m: nat, n: nat, id: Id)
    requires k < m && m + 1 == n <= |steps|
    ensures WasStarted(steps, k, n, id) <==> WasStarted(steps, k, m, id) || steps[m] == MarkRunning(id)
  {
    if steps[m] == MarkRunning(id) {
      assert WasStarted(steps, k, n, id);
    }
  }

  lemma {:induction false} InsertOf(steps: seq<Step>, n: nat, id: Id) returns (k: int)
    requires n <= |steps| && id in TableAt(map[], steps, n)
    ensures 0 <= k < n && Starts(steps, k, id)
  {
    var before := TableAt(map[], steps, n - 1);
    if id in before {
      k := InsertOf(steps, n - 1, id);
    } else {
      k := n - 1;
      forall j | 0 <= j < k ensures !(steps[j].InsertPending? && steps[j].id == id) {
        Remains(steps, j, k, id);
      }
    }
  }

  lemma {:induction false} Remains(steps: seq<Step>, j: nat, n: nat, id: Id)
    requires j < n <= |steps|
    ensures steps[j].InsertPending? && steps[j].id == id ==> id in TableAt(map[], steps, n)
  {
    if j + 1 < n {
      Remains(steps, j, n - 1, id);
    }
  }

  /** The run was inserted by this agent within the window, and it waits, runs or was ended first by COMPLETED. */
  ghost predicate Charged(steps: seq<Step>, k: int, n: int, id: Id, agent: string, now: int, window: int) {
    && 0 <= k < n <= |steps| && Starts(steps, k, id) && steps[k].agent == agent && steps[k].now > now - window
    && forall m | k < m < n && EndsFirst(steps, k, m, id) :: steps[m].MarkTerminal? && steps[m].status == Completed
  }

  /**
   What the budget counts, over every history: a run counts exactly when the agent inserted it
   within the window and it was not ended by a reap or by a first terminal mark other than
   COMPLETED. Completed runs stay charged; failed, timed-out and reaped ones do not.
   */
  lemma CountedIffCharged(steps: seq<Step>, n: nat, id: Id, agent: string, now: int, window: int)
    requires n <= |steps|
    ensures id in Counted(TableAt(map[], steps, n), agent, now, window)
      <==> exists k :: Charged(steps, k, n, id, agent, now, window)
  {
    if id in TableAt(map[], steps, n) {
      var k := InsertOf(steps, n, id);
      var m := RunOfHistory(steps, k, n, id);
      assert forall other | Starts(steps, other, id) :: other == k;
      assert m >= 0 ==> forall other | EndsFirst(steps, k, other, id) :: other == m;
      assert id in Counted(TableAt(map[], steps, n), agent, now, window)
        <==> Charged(steps, k, n, id, agent, now, window);
    } else if k: int :| Charged(steps, k, n, id, agent, now, window) {
      var m := RunOfHistory(steps, k, n, id);
    }
  }

  /** So completing a run changes no count, and failing, timing out or orphaning a counted one lowers it by one. */
  lemma TerminalMarkCount(t: Table, id: Id, status: Status, report: Option<string>,
      agent: string, now: int, window: int)
    ensures var charged := id in Counted(t, agent, now, window) && (t[id].status == Pending || t[id].status == Running);
      Used(Apply(t, MarkTerminal(id, status, report)), agent, now, window)
      == Used(t, agent, now, window) - (if charged && status in {Failed, TimedOut, Orphaned} then 1 else 0)
  {
    var before := Counted(t, agent, now, window);
    var after := Counted(Apply(t, MarkTerminal(id, status, report)), agent, now, window);
    if id in before && (t[id].status == Pending || t[id].status == Running) && status in {Failed, TimedOut, Orphaned} {
      assert after == before - {id};
    } else {
      assert after == before;
    }
  }

  /** And a reap takes exactly the running ones off the count. */
  lemma ReapCount(t: Table, agent: string, now: int, window: int)
    ensures Counted(Apply(t, ReapOrphaned), agent, now, window)
         == set id | id in Counted(t, agent, now, window) && t[id].status != Running
  {
  }

  function Times(t: Table, ids: set<Id>): set<int>
    requires forall id | id in ids :: id in t
  {
    set id | id in ids :: t[id].created
  }

  ghost predicate IsMin(times: set<int>, x: int) {
    x in times && forall y | y in times :: x <= y
  }

  lemma {:induction false} MinExists(times: set<int>, some: int) returns (x: int)
    requires some in times
    ensures IsMin(times, x)
    decreases times
  {
    var below := set y | y in times && y < some;
    x := some;
    if y :| y in times && y < some {
      assert some !in below;
      x := MinExists(below, y);
      assert x in below;
      assert forall z | z in times :: z in below || some <= z;
    }
  }

  datatype Budget = Budget(used: nat, cap: int, exhausted: bool, slotFreesAt: Option<int>)

  /** What the snapshot must say. */
  ghost predicate IsBudget(b: Budget, t: Table, agent: string, now: int, window: int, cap: int) {
    && b.used == Used(t, agent, now, window) && b.cap == cap && (b.exhausted <==> b.used >= cap)
    && (b.slotFreesAt.Some? <==> b.used >= cap && Counted(t, agent, now, window) != {})
    && (b.slotFreesAt.Some? ==> IsMin(Times(t, Counted(t, agent, now, window)), b.slotFreesAt.value - window))
  }

  /** The counted runs created at one time. */
  function CreatedAt(t: Table, agent: string, now: int, window: int, time: int): set<Id> {
    set id | id in Counted(t, agent, now, window) && t[id].created == time
  }

  lemma OldestInTimes(t: Table, agent: string, now: int, window: int, oldest: int, id: Id)
    requires IsMin(Times(t, Counted(t, agent, now, window)), oldest) && id in Counted(t, agent, now, window)
    ensures oldest <= t[id].created && now - window < oldest
  {
    var ids := Counted(t, agent, now, window);
    assert t[id].created in Times(t, ids);
    assert oldest in Times(t, ids);
    var first :| first in ids && t[first].created == oldest;
  }

  /** Before the oldest counted run ages out nothing is released; then all runs of that time are. */
  lemma AgesOut(t: Table, agent: string, now: int, window: int, oldest: int, later: int)
    requires IsMin(Times(t, Counted(t, agent, now, window)), oldest) && now <= later
    ensures later < oldest + window ==> Counted(t, agent, later, window) == Counted(t, agent, now, window)
    ensures later >= oldest + window ==>
      Counted(t, agent, later, window) <= Counted(t, agent, now, window) - CreatedAt(t, agent, now, window, oldest)
    ensures later == oldest + window ==>
      Counted(t, agent, later, window) == Counted(t, agent, now, window) - CreatedAt(t, agent, now, window, oldest)
  {
    var ids, tied := Counted(t, agent, now, window), CreatedAt(t, agent, now, window, oldest);
    forall id | id in ids ensures oldest <= t[id].created && now - window < oldest {
      OldestInTimes(t, agent, now, window, oldest, id);
    }
    assert Counted(t, agent, later, window) <= ids;
    assert later < oldest + window ==> ids <= Counted(t, agent, later, window);
  }

  lemma TiedSize(t: Table, agent: string, now: int, window: int, oldest: int)
    ensures |Counted(t, agent, now, window) - CreatedAt(t, agent, now, window, oldest)|
      == Used(t, agent, now, window) - |CreatedAt(t, agent, now, window, oldest)|
  {
    var ids, tied := Counted(t, agent, now, window), CreatedAt(t, agent, now, window, oldest);
    assert ids == (ids - tied) + tied;
  }

  /** With no new run and no status change, a slot is free at a later time exactly from release on. */
  ghost predicate ExactRelease(t: Table, agent: string, now: int, window: int, cap: int, release: int) {
    forall later | now <= later :: SlotFree(t, agent, later, window, cap) <==> later >= release
  }

  predicate SlotFree(t: Table, agent: string, now: int, window: int, cap: int) {
    Used(t, agent, now, window) < cap
  }

  /**
   The predicted release time is exact when, and only when, the runs that share the oldest
   counted time are enough to get under the cap. The cap is checked without a lock, so more runs
   than the cap can be counted, and then one run ageing out need not free a slot.
   */
  lemma ReleaseExactIff(t: Table, agent: string, now: int, window: int, cap: int, b: Budget)
    requires IsBudget(b, t, agent, now, window, cap) && b.slotFreesAt.Some?
    ensures ExactRelease(t, agent, now, window, cap, b.slotFreesAt.value)
      <==> b.used - |CreatedAt(t, agent, now, window, b.slotFreesAt.value - window)| < cap
  {
    var release := b.slotFreesAt.value;
    var oldest := release - window;
    var id :| id in Counted(t, agent, now, window);
    OldestInTimes(t, agent, now, window, oldest, id);
    TiedSize(t, agent, now, window, oldest);
    var left := Counted(t, agent, now, window) - CreatedAt(t, agent, now, window, oldest);
    AgesOut(t, agent, now, window, oldest, release);
    assert SlotFree(t, agent, release, window, cap) <==> |left| < cap;
    if |left| < cap {
      forall later | now <= later ensures SlotFree(t, agent, later, window, cap) <==> later >= release {
        AgesOut(t, agent, now, window, oldest, later);
        if later >= release {
          SubsetSize(Counted(t, agent, later, window), left);
        }
      }
    }
  }

  /** With the budget exactly used up, the prediction is always exact. */
  lemma ReleaseAtCap(t: Table, agent: string, now: int, window: int, cap: int, b: Budget)
    requires IsBudget(b, t, agent, now, window, cap) && b.slotFreesAt.Some? && b.used == cap
    ensures ExactRelease(t, agent, now, window, cap, b.slotFreesAt.value)
  {
    var oldest := b.slotFreesAt.value - window;
    var ids := Counted(t, agent, now, window);
    assert oldest in Times(t, ids);
    var first :| first in ids && t[first].created == oldest;
    var tied := CreatedAt(t, agent, now, window, oldest);
    assert first in tied;
    SubsetSize({first}, tied);
    ReleaseExactIff(t, agent, now, window, cap, b);
  }

  /** No insert for this agent among the first n steps. */
  ghost predicate NoNewRuns(steps: seq<Step>, n: nat, agent: string)
    requires n <= |steps|
  {
    forall k | 0 <= k < n :: !(steps[k].InsertPending? && steps[k].agent == agent)
  }

  lemma {:induction false} CountedShrinks(t: Table, steps: seq<Step>, n: nat, agent: string, now: int, window: int)
    requires n <= |steps| && NoNewRuns(steps, n, agent)
    ensures Counted(TableAt(t, steps, n), agent, now, window) <= Counted(t, agent, now, window)
  {
    if n > 0 {
      CountedShrinks(t, steps, n - 1, agent, now, window);
    }
  }

  /**
   The promise to the agent: as long as it starts no run itself, a slot is free at every time
   from the release on, whatever marks, reaps and runs of other agents happen in between.
   */
  lemma FreeFromRelease(t: Table, steps: seq<Step>, n: nat, agent: string, now: int, later: int, window: int,
      cap: int, b: Budget)
    requires n <= |steps| && NoNewRuns(steps, n, agent)
    requires IsBudget(b, t, agent, now, window, cap) && b.slotFreesAt.Some? && now <= later
    requires b.used - |CreatedAt(t, agent, now, window, b.slotFreesAt.value - window)| < cap
    requires later >= b.slotFreesAt.value
    ensures SlotFree(TableAt(t, steps, n), agent, later, window, cap)
  {
    ReleaseExactIff(t, agent, now, window, cap, b);
    assert SlotFree(t, agent, later, window, cap);
    CountedShrinks(t, steps, n, agent, later, window);
    SubsetSize(Counted(TableAt(t, steps, n), agent, later, window), Counted(t, agent, later, window));
  }

  class TrainingRuns {
    var runs: Table

    constructor ()
      ensures runs == map[]
    {
      runs := map[];
    }

    method Insert(id: Id, agent: string, now: int)
      requires id !in runs
      modifies this
      ensures runs == Apply(old(runs), InsertPending(id, agent, now))
      ensures runs == old(runs)[id := Run(agent, Pending, now, None)]
    {
      runs := runs[id := Run(agent, Pending, now, None)];
    }

    method SetRunning(id: Id)
      modifies this
      ensures runs == Apply(old(runs), MarkRunning(id))
      ensures runs.Keys == old(runs.Keys)
      ensures forall other | other in runs ::
        (runs[other] ==
         if other == id && old(runs)[id].status == Pending
         then old(runs)[id].(status := Running) else old(runs)[other])
      ensures forall agent, now, window :: Counted(runs, agent, now, window) == Counted(old(runs), agent, now, window)
    {
      if id in runs && runs[id].status == Pending {
        runs := runs[id := runs[id].(status := Running)];
      }
    }

    /** mark_terminal; Failure is the ValueError. */
    method SetTerminal(id: Id, status: Status, report: Option<string>) returns (r: Result<(), string>)
      modifies this
      ensures runs == Apply(old(runs), MarkTerminal(id, status, report))
      ensures r.Failure? <==> status in {Pending, Running}
      ensures runs.Keys == old(runs.Keys)
      ensures forall other | other in runs ::
        (runs[other] ==
         if other == id && r.Success? && old(runs)[id].status in {Pending, Running}
         then old(runs)[id].(status := status, report := report) else old(runs)[other])
    {
      if !Terminal(status) {
        return Failure("mark_terminal requires terminal status");
      }
      if id in runs && !Terminal(runs[id].status) {
        runs := runs[id := runs[id].(status := status, report := report)];
      }
      return Success(());
    }

    method Reap() returns (reaped: nat)
      modifies this
      ensures runs == Apply(old(runs), ReapOrphaned)
      ensures runs.Keys == old(runs.Keys)
      ensures forall id | id in runs ::
        (runs[id] ==
         if old(runs)[id].status == Running
         then old(runs)[id].(status := Orphaned, report := Some("orchestrator_restart")) else old(runs)[id])
      ensures reaped == |set id | id in old(runs) && old(runs)[id].status.Running?|
    {
      var hit := set id | id in runs && runs[id].status.Running?;
      runs := map id | id in runs :: Reaped(runs[id]);
      reaped := |hit|;
    }

    method CountActiveInWindow(agent: string, now: int, window: int) returns (n: nat)
      ensures n == Used(runs, agent, now, window)
    {
      var rows := set id | id in runs && IsCounted(runs[id], agent, now, window);
      assert rows == Counted(runs, agent, now, window);
      n := |rows|;
    }

    /** _ml_training_budget */
    method MlTrainingBudget(agent: string, cap: int, now: int, window: int) returns (b: Budget)
      ensures IsBudget(b, runs, agent, now, window, cap)
      ensures b.used == Used(runs, agent, now, window) && b.cap == cap && (b.exhausted <==> b.used >= cap)
      ensures b.slotFreesAt.None? <==> b.used < cap || b.used == 0
      ensures b.slotFreesAt.Some? ==> forall id | id in Counted(runs, agent, now, window) ::
        b.slotFreesAt.value <= runs[id].created + window
      ensures b.slotFreesAt.Some? ==> exists id | id in Counted(runs, agent, now, window) ::
        b.slotFreesAt.value == runs[id].created + window
    {
      var rows := Counted(runs, agent, now, window);
      var resetsAt: Option<int> := None;
      if rows != {} && |rows| >= cap {
        var times := Times(runs, rows);
        var some :| some in rows;
        assert runs[some].created in times;
        ghost var min := MinExists(times, runs[some].created);
        var oldest :| oldest in times && forall y | y in times :: oldest <= y;
        resetsAt := Some(oldest + window);
        assert forall id | id in rows :: runs[id].created in times;
      }
      b := Budget(|rows|, cap, |rows| >= cap, resetsAt);
    }
  }
}
