/**
 The daily cap of POST /ml/training-runs: enforce_daily_cap counts, insert_pending inserts, and
 nothing holds the two together, so requests of any number of clients interleave between them.
 */
module MlCap {
  import opened Wrappers
  import opened MlTraining

  type ClientId = nat

  /** passed holds the requests between a count below the cap and their insert. */
  datatype State = State(runs: Table, passed: map<ClientId, string>)

  datatype Event =
    | Enforce(client: ClientId, agent: string, now: int)
    | Submit(client: ClientId, id: Id, now: int)
    | Mark(step: Step)

  datatype Cap = Cap(cap: int, window: int)

  /** Ids are fresh; a step that inserts goes through Submit. */
  function Next(s: State, e: Event, c: Cap): State {
    match e
    case Enforce(client, agent, now) =>
      if Used(s.runs, agent, now, c.window) >= c.cap then s.(passed := s.passed - {client})
      else s.(passed := s.passed[client := agent])
    case Submit(client, id, now) =>
      if client in s.passed && id !in s.runs
      then State(Apply(s.runs, InsertPending(id, s.passed[client], now)), s.passed - {client}) else s
    case Mark(step) => if step.InsertPending? then s else s.(runs := Apply(s.runs, step))
  }

  function StateAt(events: seq<Event>, c: Cap, n: nat): State
    requires n <= |events|
  {
    if n == 0 then State(map[], map[]) else Next(StateAt(events, c, n - 1), events[n - 1], c)
  }

  /** The insert of a request that was let through, or a mark or reap. */
  function StepOf(s: State, e: Event): Option<Step> {
    match e
    case Enforce(_, _, _) => None
    case Submit(client, id, now) =>
      if client in s.passed then Some(InsertPending(id, s.passed[client], now)) else None
    case Mark(step) => if step.InsertPending? then None else Some(step)
  }

  /** What the events do to the table of runs. */
  function StepsOf(events: seq<Event>, c: Cap, n: nat): seq<Step>
    requires n <= |events|
  {
    if n == 0 then []
    else
      var step := StepOf(StateAt(events, c, n - 1), events[n - 1]);
      StepsOf(events, c, n - 1) + if step.Some? then [step.value] else []
  }

  lemma StepTaken(s: State, e: Event, c: Cap)
    ensures Next(s, e, c).runs == if StepOf(s, e).Some? then Apply(s.runs, StepOf(s, e).value) else s.runs
  {
    hide Used, Counted;
  }

  /** So every theorem about histories of runs holds of the runs of overlapping requests, too. */
  lemma {:induction false} RunsOfRequests(events: seq<Event>, c: Cap, n: nat)
    requires n <= |events|
    ensures StateAt(events, c, n).runs == TableAt(map[], StepsOf(events, c, n), |StepsOf(events, c, n)|)
  {
    hide Next, Apply, StepOf;
    if n > 0 {
      RunsOfRequests(events, c, n - 1);
      StepTaken(StateAt(events, c, n - 1), events[n - 1], c);
      TableOfPrefix(StepsOf(events, c, n - 1), StepsOf(events, c, n), |StepsOf(events, c, n - 1)|);
    }
  }

  lemma {:induction false} TableOfPrefix(before: seq<Step>, all: seq<Step>, n: nat)
    requires n <= |before| && before <= all
    ensures TableAt(map[], all, n) == TableAt(map[], before, n)
  {
    if n > 0 {
      TableOfPrefix(before, all, n - 1);
    }
  }

  predicate NotAfter(e: Event, now: int) {
    e.Mark? || e.now <= now
  }

  /** The database clock does not go back. */
  ghost predicate Ordered(events: seq<Event>) {
    forall i, j | 0 <= i < j < |events| && !events[j].Mark? :: NotAfter(events[i], events[j].now)
  }

  /** The agent's requests that have been counted and not yet inserted. */
  function Waiting(s: State, agent: string): set<ClientId> {
    set client | client in s.passed && s.passed[client] == agent
  }

  /** Never more than p requests of the agent are between count and insert during the first n events. */
  ghost predicate AtMostWaiting(events: seq<Event>, c: Cap, n: nat, agent: string, p: nat)
    requires n <= |events|
  {
    forall i: nat | i <= n :: |Waiting(StateAt(events, c, i), agent)| <= p
  }

  lemma UsedLater(t: Table, agent: string, now: int, later: int, window: int)
    requires now <= later
    ensures Used(t, agent, later, window) <= Used(t, agent, now, window)
  {
    SubsetSize(Counted(t, agent, later, window), Counted(t, agent, now, window));
  }

  lemma SubmitStep(s: State, client: ClientId, id: Id, now: int, later: int, c: Cap, agent: string)
    requires client in s.passed && id !in s.runs
    ensures var after := Next(s, Submit(client, id, now), c);
      Used(after.runs, agent, later, c.window) + |Waiting(after, agent)|
      <= Used(s.runs, agent, later, c.window) + |Waiting(s, agent)|
  {
    var after := Next(s, Submit(client, id, now), c);
    var before := Counted(s.runs, agent, later, c.window);
    if s.passed[client] == agent {
      assert Waiting(after, agent) == Waiting(s, agent) - {client};
      SubsetSize(Counted(after.runs, agent, later, c.window), before + {id});
    } else {
      assert Waiting(after, agent) == Waiting(s, agent);
      SubsetSize(Counted(after.runs, agent, later, c.window), before);
    }
  }

  lemma MarkStep(s: State, step: Step, c: Cap, agent: string, now: int)
    requires !step.InsertPending?
    ensures Used(Next(s, Mark(step), c).runs, agent, now, c.window) <= Used(s.runs, agent, now, c.window)
  {
    CountedShrinks(s.runs, [step], 1, agent, now, c.window);
    assert TableAt(s.runs, [step], 0) == s.runs;
    assert TableAt(s.runs, [step], 1) == Apply(s.runs, step);
    SubsetSize(Counted(Apply(s.runs, step), agent, now, c.window), Counted(s.runs, agent, now, c.window));
  }

  /** Conservation: what is counted and what is waiting together exceed the cap by less than the overlap. */
  lemma {:induction false} CountedAndWaiting(events: seq<Event>, c: Cap, n: nat, agent: string, p: nat, now: int)
    requires c.cap >= 1 && Ordered(events) && n <= |events| && AtMostWaiting(events, c, n, agent, p)
    requires forall k | 0 <= k < n :: NotAfter(events[k], now)
    ensures var s := StateAt(events, c, n);
      Used(s.runs, agent, now, c.window) + |Waiting(s, agent)| <= c.cap - 1 + p
  {
    if n == 0 {
      assert Counted(map[], agent, now, c.window) == {};
      assert Waiting(State(map[], map[]), agent) == {};
    } else {
      hide Used, Counted, Waiting, Apply, Ordered;
      var m := n - 1;
      var s, e := StateAt(events, c, m), events[m];
      assert |Waiting(StateAt(events, c, n), agent)| <= p;
      CountedAndWaiting(events, c, m, agent, p, now);
      match e
      case Enforce(client, who, at) => EnforceStep(s, client, who, at, c, agent, now, p);
      case Submit(client, id, at) =>
        if client in s.passed && id !in s.runs {
          SubmitStep(s, client, id, at, now, c, agent);
        }
      case Mark(step) =>
        if !step.InsertPending? {
          MarkStep(s, step, c, agent, now);
        }
        WaitingOfRuns(s, Next(s, e, c).runs, agent);
    }
  }

  lemma WaitingOfRuns(s: State, runs: Table, agent: string)
    ensures Waiting(s.(runs := runs), agent) == Waiting(s, agent)
  {
  }

  lemma EnforceStep(s: State, client: ClientId, who: string, at: int, c: Cap, agent: string, now: int, p: nat)
    requires at <= now
    requires Used(s.runs, agent, now, c.window) + |Waiting(s, agent)| <= c.cap - 1 + p
    requires |Waiting(Next(s, Enforce(client, who, at), c), agent)| <= p
    ensures var after := Next(s, Enforce(client, who, at), c);
      Used(after.runs, agent, now, c.window) + |Waiting(after, agent)| <= c.cap - 1 + p
  {
    var after := Next(s, Enforce(client, who, at), c);
    if who == agent && Used(s.runs, agent, at, c.window) < c.cap {
      UsedLater(s.runs, agent, at, now, c.window);
    } else {
      assert Waiting(after, agent) <= Waiting(s, agent);
      SubsetSize(Waiting(after, agent), Waiting(s, agent));
    }
  }

  /** The cap is exceeded by at most the overlap: with p requests at a time between count and insert, by p - 1 runs. */
  lemma OvershootBound(events: seq<Event>, c: Cap, n: nat, agent: string, p: nat, now: int)
    requires c.cap >= 1 && Ordered(events) && n <= |events| && AtMostWaiting(events, c, n, agent, p)
    requires forall k | 0 <= k < n :: NotAfter(events[k], now)
    ensures Used(StateAt(events, c, n).runs, agent, now, c.window) <= c.cap - 1 + p
  {
    CountedAndWaiting(events, c, n, agent, p, now);
  }

  /** If an agent's requests never overlap, the cap holds and every predicted release time is exact. */
  lemma SerialRequestsExact(events: seq<Event>, c: Cap, n: nat, agent: string, now: int, b: Budget)
    requires c.cap >= 1 && Ordered(events) && n <= |events| && AtMostWaiting(events, c, n, agent, 1)
    requires forall k | 0 <= k < n :: NotAfter(events[k], now)
    requires IsBudget(b, StateAt(events, c, n).runs, agent, now, c.window, c.cap)
    ensures b.used <= c.cap
    ensures b.slotFreesAt.Some? ==>
      ExactRelease(StateAt(events, c, n).runs, agent, now, c.window, c.cap, b.slotFreesAt.value)
  {
    OvershootBound(events, c, n, agent, 1, now);
    if b.slotFreesAt.Some? {
      ReleaseAtCap(StateAt(events, c, n).runs, agent, now, c.window, c.cap, b);
    }
  }

  /**
   Two overlapping requests, cap 1, window 24: both are counted before either is inserted, so two
   runs count against a cap of one, and at the announced hour 24 no slot is free.
   */
  lemma OverlapMispredicts()
    ensures var events := [Enforce(0, "a", 0), Enforce(1, "a", 0), Submit(0, 0, 0), Submit(1, 1, 1)];
      var runs := StateAt(events, Cap(1, 24), 4).runs;
      && Ordered(events)
      && IsBudget(Budget(2, 1, true, Some(24)), runs, "a", 2, 24, 1)
      && !SlotFree(runs, "a", 24, 24, 1) && !ExactRelease(runs, "a", 2, 24, 1, 24)
  {
    var events := [Enforce(0, "a", 0), Enforce(1, "a", 0), Submit(0, 0, 0), Submit(1, 1, 1)];
    var c := Cap(1, 24);
    var first, second := Run("a", Pending, 0, None), Run("a", Pending, 1, None);
    assert Counted(map[], "a", 0, 24) == {};
    assert StateAt(events, c, 1) == State(map[], map[0 := "a"]);
    assert StateAt(events, c, 2) == State(map[], map[0 := "a", 1 := "a"]);
    assert StateAt(events, c, 3) == State(map[0 := first], map[1 := "a"]);
    assert StateAt(events, c, 4) == State(map[0 := first, 1 := second], map[]);
    TwoRuns(map[0 := first, 1 := second]);
  }

  lemma TwoRuns(runs: Table)
    requires runs == map[0 := Run("a", Pending, 0, None), 1 := Run("a", Pending, 1, None)]
    ensures IsBudget(Budget(2, 1, true, Some(24)), runs, "a", 2, 24, 1)
    ensures !SlotFree(runs, "a", 24, 24, 1) && !ExactRelease(runs, "a", 2, 24, 1, 24)
  {
    assert Counted(runs, "a", 2, 24) == {0, 1};
    assert Counted(runs, "a", 24, 24) == {1};
    assert 0 in {0, 1} && runs[0].created == 0;
    assert 0 in Times(runs, {0, 1});
    assert !SlotFree(runs, "a", 24, 24, 1);
  }

  // ---- The bound is reached ----

  predicate Between(x: int, from: int, to: int) {
    from <= x < to
  }

  function Range(from: nat, to: nat): set<nat> {
    set x: nat | from <= x < to && Between(x, from, to)
  }

  /** k runs of the agent, all created at time 0. */
  function RunsTo(k: nat): Table {
    map id | id in Range(0, k) :: Run("a", Pending, 0, None)
  }

  /** The requests from..to of the agent are waiting. */
  function Clients(from: nat, to: nat): map<ClientId, string> {
    map client | client in Range(from, to) :: "a"
  }

  lemma {:induction false} RangeSize(from: nat, to: nat)
    requires from <= to
    ensures |Range(from, to)| == to - from
  {
    if from < to {
      RangeSize(from, to - 1);
      assert Range(from, to) == Range(from, to - 1) + {to - 1};
    } else {
      assert Range(from, to) == {};
    }
  }

  lemma CountsOf(k: nat, from: nat, to: nat, window: nat)
    requires window >= 1 && from <= to
    ensures Used(RunsTo(k), "a", 0, window) == k
    ensures |Waiting(State(RunsTo(k), Clients(from, to)), "a")| == to - from
  {
    assert Counted(RunsTo(k), "a", 0, window) == Range(0, k);
    assert Waiting(State(RunsTo(k), Clients(from, to)), "a") == Range(from, to);
    RangeSize(0, k);
    RangeSize(from, to);
  }

  /** These events, all at time 0, lead to the state with at most p requests waiting at a time. */
  ghost predicate Leads(events: seq<Event>, c: Cap, s: State, p: nat) {
    && StateAt(events, c, |events|) == s
    && AtMostWaiting(events, c, |events|, "a", p)
    && forall k | 0 <= k < |events| :: !events[k].Mark? && events[k].now == 0
  }

  lemma {:induction false} PrefixState(events: seq<Event>, e: Event, c: Cap, n: nat)
    requires n <= |events|
    ensures StateAt(events + [e], c, n) == StateAt(events, c, n)
  {
    if n > 0 {
      PrefixState(events, e, c, n - 1);
    }
  }

  lemma Extend(events: seq<Event>, e: Event, c: Cap, s: State, p: nat)
    requires Leads(events, c, s, p) && !e.Mark? && e.now == 0 && |Waiting(Next(s, e, c), "a")| <= p
    ensures Leads(events + [e], c, Next(s, e, c), p)
  {
    hide Waiting, Next;
    var more := events + [e];
    PrefixState(events, e, c, |events|);
    forall i: nat | i <= |more| ensures |Waiting(StateAt(more, c, i), "a")| <= p {
      if i <= |events| {
        PrefixState(events, e, c, i);
      }
    }
  }

  /** Serial requests fill the budget up to one below the cap. */
  lemma {:induction false} Fill(c: Cap, k: nat, p: nat) returns (events: seq<Event>)
    requires k < c.cap && c.window >= 1 && p >= 1
    ensures Leads(events, c, State(RunsTo(k), Clients(0, 0)), p)
  {
    hide Leads;
    if k == 0 {
      events := [];
      CountsOf(0, 0, 0, c.window);
      Empty(c, p);
    } else {
      var before := Fill(c, k - 1, p);
      var s := State(RunsTo(k - 1), Clients(0, 0));
      var passed := Counts(c, k - 1, 0, 0, p);
      Extend(before, Enforce(0, "a", 0), c, s, p);
      var filled := State(RunsTo(k), Clients(1, 1));
      assert Clients(1, 1) == Clients(0, 0);
      Submitted(c, k - 1, 0, 1);
      CountsOf(k, 1, 1, c.window);
      Extend(before + [Enforce(0, "a", 0)], Submit(0, k - 1, 0), c, passed, p);
      events := before + [Enforce(0, "a", 0)] + [Submit(0, k - 1, 0)];
    }
  }

  lemma Empty(c: Cap, p: nat)
    ensures Leads([], c, State(RunsTo(0), Clients(0, 0)), p)
  {
    assert State(RunsTo(0), Clients(0, 0)) == State(map[], map[]);
    assert Waiting(State(map[], map[]), "a") == {};
  }

  /** One more request passes the count. */
  lemma Counts(c: Cap, k: nat, from: nat, to: nat, p: nat) returns (passed: State)
    requires k < c.cap && c.window >= 1 && from <= to < from + p
    ensures passed == Next(State(RunsTo(k), Clients(from, to)), Enforce(to, "a", 0), c)
    ensures passed == State(RunsTo(k), Clients(from, to + 1)) && |Waiting(passed, "a")| <= p
  {
    CountsOf(k, from, to, c.window);
    CountsOf(k, from, to + 1, c.window);
    passed := State(RunsTo(k), Clients(from, to + 1));
    assert Clients(from, to)[to := "a"] == Clients(from, to + 1);
  }

  /** The first waiting request inserts. */
  lemma Submitted(c: Cap, k: nat, from: nat, to: nat)
    requires from < to
    ensures Next(State(RunsTo(k), Clients(from, to)), Submit(from, k, 0), c)
      == State(RunsTo(k + 1), Clients(from + 1, to))
  {
    assert RunsTo(k)[k := Run("a", Pending, 0, None)] == RunsTo(k + 1);
    assert Clients(from, to) - {from} == Clients(from + 1, to);
  }

  /** Then q requests are all counted before any of them inserts. */
  lemma {:induction false} Pile(c: Cap, q: nat, p: nat) returns (events: seq<Event>)
    requires c.cap >= 1 && c.window >= 1 && q <= p && p >= 1
    ensures Leads(events, c, State(RunsTo(c.cap - 1), Clients(0, q)), p)
  {
    hide Leads;
    if q == 0 {
      events := Fill(c, c.cap - 1, p);
    } else {
      var before := Pile(c, q - 1, p);
      var passed := Counts(c, c.cap - 1, 0, q - 1, p);
      Extend(before, Enforce(q - 1, "a", 0), c, State(RunsTo(c.cap - 1), Clients(0, q - 1)), p);
      events := before + [Enforce(q - 1, "a", 0)];
    }
  }

  lemma {:induction false} Drain(c: Cap, q: nat, p: nat) returns (events: seq<Event>)
    requires c.cap >= 1 && c.window >= 1 && q <= p && p >= 1
    ensures Leads(events, c, State(RunsTo(c.cap - 1 + q), Clients(q, p)), p)
  {
    hide Leads;
    if q == 0 {
      events := Pile(c, p, p);
    } else {
      var before := Drain(c, q - 1, p);
      var k := c.cap - 1 + (q - 1);
      Submitted(c, k, q - 1, p);
      CountsOf(k + 1, q, p, c.window);
      Extend(before, Submit(q - 1, k, 0), c, State(RunsTo(k), Clients(q - 1, p)), p);
      events := before + [Submit(q - 1, k, 0)];
    }
  }

  /**
   The bound is tight: for every cap and every overlap p, p requests that are all counted first
   exceed the cap by p - 1.
   */
  lemma OvershootReached(c: Cap, p: nat) returns (events: seq<Event>)
    requires c.cap >= 1 && c.window >= 1 && p >= 1
    ensures Ordered(events) && AtMostWaiting(events, c, |events|, "a", p)
    ensures forall k | 0 <= k < |events| :: NotAfter(events[k], 0)
    ensures Used(StateAt(events, c, |events|).runs, "a", 0, c.window) == c.cap - 1 + p
  {
    events := Drain(c, p, p);
    CountsOf(c.cap - 1 + p, p, p, c.window);
  }

  /** The cap holds for every agent, in every run in which at most p of its requests overlap. */
  ghost predicate CapHolds(c: Cap, p: nat) {
    forall events, n, agent, now | Overlaps(events, c, n, agent, p, now) ::
      Used(StateAt(events, c, n).runs, agent, now, c.window) <= c.cap
  }

  ghost predicate Overlaps(events: seq<Event>, c: Cap, n: nat, agent: string, p: nat, now: int) {
    && Ordered(events) && n <= |events| && AtMostWaiting(events, c, n, agent, p)
    && forall k | 0 <= k < n :: NotAfter(events[k], now)
  }

  /** So the cap is safe exactly when an agent's requests never overlap. */
  lemma CapHoldsIff(c: Cap, p: nat)
    requires c.cap >= 1 && c.window >= 1
    ensures CapHolds(c, p) <==> p <= 1
  {
    if p <= 1 {
      forall events, n, agent, now | Overlaps(events, c, n, agent, p, now)
        ensures Used(StateAt(events, c, n).runs, agent, now, c.window) <= c.cap
      {
        OvershootBound(events, c, n, agent, p, now);
      }
    } else {
      var events := OvershootReached(c, p);
      assert Overlaps(events, c, |events|, "a", p, 0);
    }
  }

  /** The two halves of the request handler. */
  class TrainingRequests {
    const c: Cap
    var runs: Table
    var passed: map<ClientId, string>

    constructor (c: Cap)
      ensures this.c == c && Snapshot() == State(map[], map[])
    {
      this.c := c;
      runs, passed := map[], map[];
    }

    function Snapshot(): State
      reads this
    {
      State(runs, passed)
    }

    /** enforce_daily_cap; false is the 429 */
    method EnforceDailyCap(client: ClientId, agent: string, now: int) returns (ok: bool)
      modifies this
      ensures Snapshot() == Next(old(Snapshot()), Enforce(client, agent, now), c)
      ensures ok <==> old(Used(runs, agent, now, c.window)) < c.cap
      ensures runs == old(runs)
      ensures passed == if ok then old(passed)[client := agent] else old(passed) - {client}
    {
      var rows := set id | id in runs && IsCounted(runs[id], agent, now, c.window);
      assert rows == Counted(runs, agent, now, c.window);
      ok := |rows| < c.cap;
      passed := if ok then passed[client := agent] else passed - {client};
    }

    /** insert_pending, for a request that was let through */
    method SubmitRun(client: ClientId, id: Id, now: int)
      requires client in passed && id !in runs
      modifies this
      ensures Snapshot() == Next(old(Snapshot()), Submit(client, id, now), c)
      ensures runs == old(runs)[id := Run(old(passed)[client], Pending, now, None)]
      ensures passed == old(passed) - {client}
    {
      runs := runs[id := Run(passed[client], Pending, now, None)];
      passed := passed - {client};
    }
  }
}
