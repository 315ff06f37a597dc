/**
 Claiming as the database runs it. A claim transaction first selects a row and locks it
 (FOR UPDATE SKIP LOCKED), and its update becomes visible only when it commits. Other updates
 may lock a row in the same way until they commit. Any number of transactions and of statements
 that commit at once interleave; a statement whose WHERE clause matches a locked row waits,
 which is modelled by the attempt changing nothing.
 */
module ClaimLocks {
  import opened Wrappers
  import opened QueueTable

  type TxId = nat

  /** The row that an open transaction has locked, and what becomes of it at the commit. */
  datatype Open = Open(q: Id, step: Step)

  datatype State = State(committed: Table, open: map<TxId, Open>)

  datatype Event =
    | Select(tx: TxId, track: Option<Track>, now: Time, q: Id)
    | Update(tx: TxId, step: Step)
    | Commit(tx: TxId)
    | Abort(tx: TxId)
    | Other(step: Step)

  function Locked(s: State): set<Id> {
    set tx | tx in s.open :: s.open[tx].q
  }

  /** The committed rows whose current version matches the WHERE clause of the statement. */
  function Touched(t: Table, step: Step): set<Id> {
    set q | q in t && Hits(q, t[q], step)
  }

  predicate Keyed(step: Step) {
    !step.Insert? && !step.Recover?
  }

  predicate Enabled(s: State, e: Event) {
    match e
    case Select(tx, track, now, q) =>
      tx !in s.open && FirstOf(s.committed, Candidates(s.committed, track, Locked(s)), q)
    case Update(tx, step) =>
      && tx !in s.open && Keyed(step) && !step.Claim?
      && step.q in s.committed && Hits(step.q, s.committed[step.q], step) && step.q !in Locked(s)
    case Commit(tx) => tx in s.open
    case Abort(tx) => tx in s.open
    case Other(step) => !step.Claim? && Touched(s.committed, step) !! Locked(s)
  }

  function Next(s: State, e: Event): State {
    if !Enabled(s, e) then s else
    match e
    case Select(tx, _, now, q) => s.(open := s.open[tx := Open(q, Claim(q, now))])
    case Update(tx, step) => s.(open := s.open[tx := Open(step.q, step)])
    case Commit(tx) => State(Apply(s.committed, s.open[tx].step), s.open - {tx})
    case Abort(tx) => s.(open := s.open - {tx})
    case Other(step) => s.(committed := Apply(s.committed, step))
  }

  function StateAt(s: State, events: seq<Event>, i: nat): State
    requires i <= |events|
  {
    if i == 0 then s else Next(StateAt(s, events, i - 1), events[i - 1])
  }

  predicate LockOk(t: Table, o: Open) {
    Keyed(o.step) && o.step.q == o.q && o.q in t && Hits(o.q, t[o.q], o.step)
  }

  /**
   A locked row still matches the statement that locked it (for a claim: is PENDING), and no two
   transactions hold the same row.
   */
  ghost predicate LocksOk(s: State) {
    && (forall tx | tx in s.open :: LockOk(s.committed, s.open[tx]))
    && (forall a, b | a in s.open && b in s.open && a != b :: s.open[a].q != s.open[b].q)
  }

  lemma CommitKeepsOthers(s: State, tx: TxId)
    requires LocksOk(s) && tx in s.open
    ensures forall other | other in s.open && other != tx ::
      var after := Apply(s.committed, s.open[tx].step);
      s.open[other].q in after && after[s.open[other].q] == s.committed[s.open[other].q]
  {
    AffectedByKey(s.committed, s.open[tx].q, s.open[tx].step);
  }

  lemma NextKeepsLocks(s: State, e: Event)
    requires LocksOk(s)
    ensures LocksOk(Next(s, e))
    ensures forall tx | tx in s.open && tx in Next(s, e).open ::
      Next(s, e).open[tx] == s.open[tx] && Next(s, e).committed[s.open[tx].q] == s.committed[s.open[tx].q]
  {
    if Enabled(s, e) {
      match e
      case Select(tx, track, now, q) =>
        assert forall a | a in s.open :: s.open[a].q in Locked(s);
      case Update(tx, step) =>
        assert forall a | a in s.open :: s.open[a].q in Locked(s);
      case Commit(tx) =>
        CommitKeepsOthers(s, tx);
      case Abort(tx) =>
      case Other(step) =>
        forall a | a in s.open
          ensures !Hits(s.open[a].q, s.committed[s.open[a].q], step)
          ensures step.Insert? ==> step.q != s.open[a].q || step.q in s.committed
        {
          assert s.open[a].q in Locked(s);
          assert s.open[a].q !in Touched(s.committed, step);
        }
    }
  }

  /**
   Overlapping transactions never hold the same row, and a row held by a claim stays PENDING, over
   every interleaving.
   */
  lemma {:induction false} ClaimsDisjoint(s: State, events: seq<Event>, i: nat)
    requires i <= |events| && LocksOk(s)
    ensures LocksOk(StateAt(s, events, i))
    ensures var now := StateAt(s, events, i);
      forall tx | tx in now.open && now.open[tx].step.Claim? :: now.committed[now.open[tx].q].status == PENDING
  {
    if i > 0 {
      ClaimsDisjoint(s, events, i - 1);
      NextKeepsLocks(StateAt(s, events, i - 1), events[i - 1]);
    }
  }

  /** A selection takes the first PENDING row of its track that nobody holds, and gets none only when there is none. */
  lemma SelectionIsFirst(s: State, tx: TxId, track: Option<Track>, now: Time)
    requires LocksOk(s) && tx !in s.open
    ensures (exists q :: Enabled(s, Select(tx, track, now, q)))
       <==> (exists q :: q in s.committed && Eligible(s.committed[q], track) && q !in Locked(s))
    ensures forall q, p | Enabled(s, Select(tx, track, now, q)) && p in s.committed
                       && Eligible(s.committed[p], track) && Ahead(s.committed[p], s.committed[q]) ::
      exists other | other in s.open :: s.open[other].q == p
  {
    var candidates := Candidates(s.committed, track, Locked(s));
    if q :| q in s.committed && Eligible(s.committed[q], track) && q !in Locked(s) {
      assert q in candidates;
      FirstExists(s.committed, candidates);
      var first :| FirstOf(s.committed, candidates, first);
      assert Enabled(s, Select(tx, track, now, first));
    }
    if q :| Enabled(s, Select(tx, track, now, q)) {
      assert q in candidates;
    }
    forall q, p | Enabled(s, Select(tx, track, now, q)) && p in s.committed
               && Eligible(s.committed[p], track) && Ahead(s.committed[p], s.committed[q])
      ensures exists other | other in s.open :: s.open[other].q == p
    {
      assert p !in candidates;
      assert p in Locked(s);
    }
  }

  // ---- Refinement: the interleaved machine commits a run of atomic statements ----

  /** The atomic statement an event commits, if any: a transaction counts at its commit. */
  function AtomicOf(s: State, e: Event): (steps: seq<Step>)
    ensures |steps| <= 1
  {
    if !Enabled(s, e) then []
    else match e
      case Commit(tx) => [s.open[tx].step]
      case Other(step) => [step]
      case _ => []
  }

  /** The atomic statements behind the first i events. */
  function Atomic(s: State, events: seq<Event>, i: nat): seq<Step>
    requires i <= |events|
  {
    if i == 0 then [] else Atomic(s, events, i - 1) + AtomicOf(StateAt(s, events, i - 1), events[i - 1])
  }

  /** Every claim of the run hits a PENDING row. */
  ghost predicate ClaimsHit(t: Table, steps: seq<Step>) {
    forall k | 0 <= k < |steps| && steps[k].Claim? :: Affected(TableAt(t, steps, k), steps[k]) == 1
  }

  lemma {:induction false} TableAtExtends(t: Table, steps: seq<Step>, step: Step, i: nat)
    requires i <= |steps|
    ensures TableAt(t, steps + [step], i) == TableAt(t, steps, i)
  {
    if i > 0 {
      TableAtExtends(t, steps, step, i - 1);
    }
  }

  lemma AppendStep(t: Table, steps: seq<Step>, step: Step)
    requires ClaimsHit(t, steps)
    requires step.Claim? ==> Affected(TableAt(t, steps, |steps|), step) == 1
    ensures ClaimsHit(t, steps + [step])
    ensures TableAt(t, steps + [step], |steps + [step]|) == Apply(TableAt(t, steps, |steps|), step)
  {
    hide Apply, Affected;
    forall k: nat | k <= |steps| ensures TableAt(t, steps + [step], k) == TableAt(t, steps, k) {
      TableAtExtends(t, steps, step, k);
    }
    forall k | 0 <= k <= |steps| && (steps + [step])[k].Claim?
      ensures Affected(TableAt(t, steps + [step], k), (steps + [step])[k]) == 1
    {
      assert k < |steps| ==> steps[k].Claim?;
    }
  }

  /** What an event does to the committed table is exactly its atomic statement. */
  lemma CommittedStep(s: State, e: Event)
    requires LocksOk(s)
    ensures AtomicOf(s, e) == [] ==> Next(s, e).committed == s.committed
    ensures AtomicOf(s, e) != [] ==>
      var step := AtomicOf(s, e)[0];
      Next(s, e).committed == Apply(s.committed, step) && (step.Claim? ==> Affected(s.committed, step) == 1)
  {
    if e.Commit? && Enabled(s, e) {
      AffectedByKey(s.committed, s.open[e.tx].q, s.open[e.tx].step);
    }
  }

  /**
   Every interleaving of claim transactions with other transactions and statements commits
   exactly the table of a run of atomic statements, in which every claim hits a PENDING row. So what is proved
   about runs of atomic statements holds for the database with its locks.
   */
  lemma {:induction false} LocksRefineAtomic(s: State, events: seq<Event>, i: nat)
    requires i <= |events| && LocksOk(s)
    ensures var steps := Atomic(s, events, i);
      && TableAt(s.committed, steps, |steps|) == StateAt(s, events, i).committed
      && ClaimsHit(s.committed, steps)
  {
    if i > 0 {
      hide Apply, Affected, LocksOk, ClaimsHit, TableAt, AtomicOf, Next;
      LocksRefineAtomic(s, events, i - 1);
      ClaimsDisjoint(s, events, i - 1);
      var before := Atomic(s, events, i - 1);
      var more := AtomicOf(StateAt(s, events, i - 1), events[i - 1]);
      CommittedStep(StateAt(s, events, i - 1), events[i - 1]);
      if more == [] {
        assert before + more == before;
      } else {
        assert more == [more[0]];
        AppendStep(s.committed, before, more[0]);
      }
    }
  }

  /**
   After every run, a transaction that selects a row it may claim holds it until it ends: a commit
   makes the row RUNNING, one attempt further, and changes no other; an abort changes nothing.
   Either way the row is free again.
   */
  lemma OneClaim(events: seq<Event>, t: Table, tx: TxId, track: Option<Track>, now: Time, q: Id)
    requires var s := StateAt(State(t, map[]), events, |events|);
      tx !in s.open && FirstOf(s.committed, Candidates(s.committed, track, Locked(s)), q)
    ensures var s := StateAt(State(t, map[]), events, |events|);
      var row := s.committed[q];
      var claimed := s.committed[q := row.(status := RUNNING, iteration := row.iteration + 1, startedAt := Some(now))];
      var select := Select(tx, track, now, q);
      var selected := StateAt(State(t, map[]), events + [select], |events + [select]|);
      && selected.committed == s.committed && Locked(selected) == Locked(s) + {q}
      && StateAt(State(t, map[]), events + [select, Commit(tx)], |events| + 2) == State(claimed, s.open)
      && StateAt(State(t, map[]), events + [select, Abort(tx)], |events| + 2) == s
  {
    hide FirstOf, Next, Locked;
    var s := StateAt(State(t, map[]), events, |events|);
    var select := Select(tx, track, now, q);
    SelectThen(s, tx, track, now, q);
    Extended(State(t, map[]), events, select);
    assert events + [select, Commit(tx)] == events + [select] + [Commit(tx)];
    assert events + [select, Abort(tx)] == events + [select] + [Abort(tx)];
    Extended(State(t, map[]), events + [select], Commit(tx));
    Extended(State(t, map[]), events + [select], Abort(tx));
  }

  lemma SelectThen(s: State, tx: TxId, track: Option<Track>, now: Time, q: Id)
    requires tx !in s.open && FirstOf(s.committed, Candidates(s.committed, track, Locked(s)), q)
    ensures q in s.committed
    ensures var selected := Next(s, Select(tx, track, now, q));
      var row := s.committed[q];
      var claimed := s.committed[q := row.(status := RUNNING, iteration := row.iteration + 1, startedAt := Some(now))];
      && selected.committed == s.committed && Locked(selected) == Locked(s) + {q}
      && Next(selected, Commit(tx)) == State(claimed, s.open) && Next(selected, Abort(tx)) == s
  {
    var selected := Next(s, Select(tx, track, now, q));
    assert selected.open - {tx} == s.open;
    forall p ensures p in Locked(selected) <==> p in Locked(s) || p == q {
      if p in Locked(s) {
        var other :| other in s.open && s.open[other].q == p;
        assert other in selected.open && selected.open[other].q == p;
      }
      assert selected.open[tx].q == q;
    }
    AffectedByKey(s.committed, q, Claim(q, now));
  }

  lemma Extended(s: State, events: seq<Event>, e: Event)
    ensures StateAt(s, events + [e], |events + [e]|) == Next(StateAt(s, events, |events|), e)
  {
    SamePrefix(s, events, [e], |events|);
  }

  lemma {:induction false} SamePrefix(s: State, events: seq<Event>, more: seq<Event>, i: nat)
    requires i <= |events|
    ensures StateAt(s, events + more, i) == StateAt(s, events, i)
  {
    if i > 0 {
      SamePrefix(s, events, more, i - 1);
    }
  }
}
