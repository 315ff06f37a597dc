/**
 repo/hypothesis_audit.py: the trial ledger that drives multiplicity and the re-discovery gate.
 The axis set is kept as the string that the source hashes; equal hashes stand for equal strings.
 */
module HypothesisAudit {
  import opened Wrappers
  import AxisSet

  type Id = nat

  const DISCARD := "DISCARD"
  const NULL_SCREEN_DRAW := "NULL_SCREEN_DRAW"

  /** A NULL symbol or interval names no data universe. */
  datatype Audit = Audit(strategy: string, symbol: Option<string>, interval: Option<string>, axisSet: string,
    queue: Option<nat>, iteration: Option<nat>, statistical: Option<string>, decision: Option<string>, created: int)

  type Ledger = map<Id, Audit>

  /** sweep_config->>'track' of the research_queue rows. */
  type Tracks = map<nat, Option<string>>

  datatype Step =
    | Insert(id: Id, strategy: string, symbol: Option<string>, interval: string, names: seq<string>,
        queue: Option<nat>, decision: Option<string>, now: int)
    | Backfill(id: Id, iteration: nat, statistical: Option<string>, decision: Option<string>)

  function Opened(s: Step): Audit
    requires s.Insert?
  {
    Audit(s.strategy, s.symbol, Some(s.interval), AxisSet.Canonical(s.names), s.queue, None, None, s.decision, s.now)
  }

  function Apply(l: Ledger, s: Step): Ledger {
    match s
    case Insert(id, _, _, _, _, _, _, _) => if id in l then l else l[id := Opened(s)]
    case Backfill(id, iteration, statistical, decision) =>
      if id in l
      then l[id := l[id].(iteration := Some(iteration), statistical := statistical, decision := decision)]
      else l
  }

  function LedgerAt(l: Ledger, steps: seq<Step>, n: nat): Ledger
    requires n <= |steps|
  {
    if n == 0 then l else Apply(LedgerAt(l, steps, n - 1), steps[n - 1])
  }

  predicate InUniverse(a: Audit, symbol: string, interval: string) {
    a.symbol == Some(symbol) && a.interval == Some(interval)
  }

  /** The WHERE clause of count_data_universe_trials. */
  predicate IsTrial(a: Audit, symbol: string, interval: string) {
    && InUniverse(a, symbol, interval)
    && (a.iteration.Some? || a.decision == Some(NULL_SCREEN_DRAW))
  }

  function Trials(l: Ledger, symbol: string, interval: string): set<Id> {
    set id | id in l && IsTrial(l[id], symbol, interval)
  }

  function CountTrials(l: Ledger, symbol: string, interval: string, external: int): nat {
    |Trials(l, symbol, interval)| + if external > 0 then external else 0
  }

  lemma {:induction false} TrialsGrow(l: Ledger, steps: seq<Step>, n: nat, symbol: string, interval: string)
    requires n <= |steps|
    ensures l.Keys <= LedgerAt(l, steps, n).Keys
    ensures Trials(l, symbol, interval) <= Trials(LedgerAt(l, steps, n), symbol, interval)
  {
    if n > 0 {
      TrialsGrow(l, steps, n - 1, symbol, interval);
    }
  }

  /** No sequence of inserts and backfills lowers a universe's count, and declaring external trials never lowers it. */
  lemma CountNeverFalls(l: Ledger, steps: seq<Step>, n: nat, symbol: string, interval: string, external: int, more: int)
    requires n <= |steps| && external <= more
    ensures CountTrials(l, symbol, interval, external) <= CountTrials(LedgerAt(l, steps, n), symbol, interval, more)
    ensures external >= 0 ==> CountTrials(l, symbol, interval, external) == |Trials(l, symbol, interval)| + external
    ensures external <= 0 ==> CountTrials(l, symbol, interval, external) == |Trials(l, symbol, interval)|
  {
    TrialsGrow(l, steps, n, symbol, interval);
    SubsetSize(Trials(l, symbol, interval), Trials(LedgerAt(l, steps, n), symbol, interval));
  }

  /** A backfill raises the count of the audit's own universe by one, the first time, and no other count. */
  lemma BackfillCount(l: Ledger, id: Id, iteration: nat, statistical: Option<string>, decision: Option<string>,
                      symbol: string, interval: string)
    ensures |Trials(Apply(l, Backfill(id, iteration, statistical, decision)), symbol, interval)|
         == |Trials(l, symbol, interval)|
            + if id in l && InUniverse(l[id], symbol, interval) && !IsTrial(l[id], symbol, interval)
              then 1 else 0
  {
    var before := Trials(l, symbol, interval);
    var after := Trials(Apply(l, Backfill(id, iteration, statistical, decision)), symbol, interval);
    if id in l && InUniverse(l[id], symbol, interval) && !IsTrial(l[id], symbol, interval) {
      assert after == before + {id};
    } else {
      assert after == before;
    }
  }

  predicate Inserts(s: Step, id: Id) {
    s.Insert? && s.id == id
  }

  predicate Judges(s: Step, id: Id) {
    s.Backfill? && s.id == id
  }

  /** Step k is the one that creates audit id. */
  ghost predicate Opens(steps: seq<Step>, k: int, id: Id) {
    0 <= k < |steps| && Inserts(steps[k], id) && forall j | 0 <= j < k :: !Inserts(steps[j], id)
  }

  /** Step m is the last before n that sets the decision of the audit opened by step k. */
  ghost predicate Settles(steps: seq<Step>, k: int, m: int, n: int, id: Id) {
    && 0 <= k <= m < n <= |steps|
    && (m == k || Judges(steps[m], id))
    && forall j | m < j < n :: !Judges(steps[j], id)
  }

  lemma {:induction false} Absent(steps: seq<Step>, n: nat, id: Id)
    requires n <= |steps| && forall j | 0 <= j < n :: !Inserts(steps[j], id)
    ensures id !in LedgerAt(map[], steps, n)
  {
    if n > 0 {
      Absent(steps, n - 1, id);
    }
  }

  lemma {:induction false} Present(steps: seq<Step>, n: nat, id: Id) returns (k: int)
    requires n <= |steps| && id in LedgerAt(map[], steps, n)
    ensures k < n && Opens(steps, k, id)
  {
    if id in LedgerAt(map[], steps, n - 1) {
      k := Present(steps, n - 1, id);
    } else {
      k := n - 1;
      forall j | 0 <= j < k ensures !Inserts(steps[j], id) {
        if Inserts(steps[j], id) {
          Stays(steps, j + 1, k, id);
          assert false;
        }
      }
    }
  }

  lemma {:induction false} Stays(steps: seq<Step>, k: nat, n: nat, id: Id)
    requires k <= n <= |steps| && id in LedgerAt(map[], steps, k)
    ensures id in LedgerAt(map[], steps, n)
  {
    if k < n {
      Stays(steps, k, n - 1, id);
    }
  }

  /** An audit row, read off the history: the step that opened it and the last one that judged it. */
  lemma {:induction false} RowOfHistory(steps: seq<Step>, k: nat, n: nat, id: Id) returns (m: int)
    requires k < n <= |steps| && Opens(steps, k, id)
    ensures Settles(steps, k, m, n, id) && id in LedgerAt(map[], steps, n)
    ensures LedgerAt(map[], steps, n)[id] == Opened(steps[k]).(
      iteration := if m == k then None else Some(steps[m].iteration),
      statistical := if m == k then None else steps[m].statistical, decision := steps[m].decision)
  {
    if n == k + 1 {
      Absent(steps, k, id);
      m := k;
    } else {
      m := RowOfHistory(steps, k, n - 1, id);
      if Judges(steps[n - 1], id) {
        m := n - 1;
      }
    }
  }

  /** The audit was opened in this universe, and its backtest completed: drawn by the null screen or backfilled. */
  ghost predicate Completed(steps: seq<Step>, k: int, n: nat, id: Id, symbol: string, interval: string)
    requires n <= |steps|
  {
    && k < n && Opens(steps, k, id)
    && steps[k].symbol == Some(symbol) && steps[k].interval == interval
    && (steps[k].decision == Some("NULL_SCREEN_DRAW") || exists m | k < m < n :: Judges(steps[m], id))
  }

  /**
   What is counted, over any history: each audit of the universe whose backtest completed, once,
   under whatever strategy code. A crashed trial, which is never backfilled, is not.
   */
  lemma TrialIffCompleted(steps: seq<Step>, n: nat, id: Id, symbol: string, interval: string)
    requires n <= |steps|
    ensures id in Trials(LedgerAt(map[], steps, n), symbol, interval)
      <==> exists k :: Completed(steps, k, n, id, symbol, interval)
  {
    if id in LedgerAt(map[], steps, n) {
      var k := Present(steps, n, id);
      var m := RowOfHistory(steps, k, n, id);
      assert Opens(steps, k, id);
      if id in Trials(LedgerAt(map[], steps, n), symbol, interval) {
        assert m > k ==> Judges(steps[m], id);
        assert Completed(steps, k, n, id, symbol, interval);
      }
      if k': int :| Completed(steps, k', n, id, symbol, interval) {
        assert k' == k;
        if m == k {
          assert forall j | k < j < n :: !Judges(steps[j], id);
        }
      }
    } else if k: int :| Completed(steps, k, n, id, symbol, interval) {
      var m := RowOfHistory(steps, k, n, id);
      assert false;
    }
  }

  /** The joined queue row's track: NULL without a queue row. */
  function TrackOf(a: Audit, tracks: Tracks): Option<string> {
    if a.queue.Some? && a.queue.value in tracks then tracks[a.queue.value] else None
  }

  /** The WHERE clause of axis_has_discard. */
  predicate IsDiscard(a: Audit, tracks: Tracks, strategy: string, axisSet: string, track: Option<string>) {
    && a.strategy == strategy && a.axisSet == axisSet && a.decision == Some(DISCARD)
    && (track.None? || TrackOf(a, tracks).None? || TrackOf(a, tracks) == track)
  }

  function Discards(l: Ledger, tracks: Tracks, strategy: string, axisSet: string, track: Option<string>): set<Id> {
    set id | id in l && IsDiscard(l[id], tracks, strategy, axisSet, track)
  }

  /** Scoping by track never weakens the gate as a whole: the global gate is shut exactly when that of some track is. */
  lemma GlobalIffSomeTrack(l: Ledger, tracks: Tracks, strategy: string, axisSet: string)
    ensures Discards(l, tracks, strategy, axisSet, None) != {}
      <==> exists t :: Discards(l, tracks, strategy, axisSet, Some(t)) != {}
  {
    if id :| id in Discards(l, tracks, strategy, axisSet, None) {
      var own := TrackOf(l[id], tracks);
      var t := if own.Some? then own.value else "trading";
      assert id in Discards(l, tracks, strategy, axisSet, Some(t));
    }
    if t :| Discards(l, tracks, strategy, axisSet, Some(t)) != {} {
      var id :| id in Discards(l, tracks, strategy, axisSet, Some(t));
      assert id in Discards(l, tracks, strategy, axisSet, None);
    }
  }

  ghost predicate IsLatest(l: Ledger, ids: set<Id>, id: Id)
    requires forall i | i in ids :: i in l
  {
    id in ids && forall i | i in ids :: l[i].created <= l[id].created
  }

  lemma {:induction false} LatestExists(l: Ledger, ids: set<Id>) returns (id: Id)
    requires ids != {} && forall i | i in ids :: i in l
    ensures IsLatest(l, ids, id)
  {
    id :| id in ids;
    var rest := ids - {id};
    assert forall i | i in ids :: i == id || i in rest;
    if rest != {} {
      var best := LatestExists(l, rest);
      if l[id].created < l[best].created {
        id := best;
      }
    }
  }

  class AuditLedger {
    var audits: Ledger

    constructor ()
      ensures audits == map[]
    {
      audits := map[];
    }

    /** insert_audit; the id is fresh (gen_random_uuid) and now is the transaction time. */
    method InsertAudit(id: Id, strategy: string, symbol: Option<string>, interval: string, names: seq<string>,
        queue: Option<nat>, decision: Option<string>, now: int)
      requires id !in audits
      modifies this
      ensures audits == Apply(old(audits), Insert(id, strategy, symbol, interval, names, queue, decision, now))
    {
      var axisSet := AxisSet.Canonical(names);
      audits := audits[id := Audit(strategy, symbol, Some(interval), axisSet, queue, None, None, decision, now)];
    }

    /** update_audit_verdict: no guard on the status, so the last backfill wins */
    method UpdateAuditVerdict(id: Id, iteration: nat, statistical: Option<string>, decision: Option<string>)
      modifies this
      ensures audits == Apply(old(audits), Backfill(id, iteration, statistical, decision))
      ensures forall symbol, interval ::
        |Trials(audits, symbol, interval)| <= |old(Trials(audits, symbol, interval))| + 1
    {
      forall symbol, interval
        ensures |Trials(Apply(audits, Backfill(id, iteration, statistical, decision)), symbol, interval)|
             <= |Trials(audits, symbol, interval)| + 1
      {
        BackfillCount(audits, id, iteration, statistical, decision, symbol, interval);
      }
      if id in audits {
        audits := audits[id := audits[id].(iteration := Some(iteration), statistical := statistical,
          decision := decision)];
      }
    }

    /** count_data_universe_trials; external is None when it is missing or does not parse. */
    method CountDataUniverseTrials(symbol: string, interval: string, external: Option<int>) returns (n: nat)
      ensures n == CountTrials(audits, symbol, interval, if external.Some? then external.value else 0)
    {
      var rows := set id | id in audits && IsTrial(audits[id], symbol, interval);
      var extra := if external.Some? && external.value > 0 then external.value else 0;
      assert rows == Trials(audits, symbol, interval);
      n := |rows| + extra;
    }

    /** axis_has_discard: ORDER BY created_time DESC LIMIT 1 */
    method AxisHasDiscard(tracks: Tracks, strategy: string, axisSet: string, track: Option<string>)
      returns (prior: Option<Id>)
      ensures prior.None? <==> Discards(audits, tracks, strategy, axisSet, track) == {}
      ensures prior.Some? ==> IsLatest(audits, Discards(audits, tracks, strategy, axisSet, track), prior.value)
    {
      var rows := Discards(audits, tracks, strategy, axisSet, track);
      if rows == {} {
        return None;
      }
      ghost var latest := LatestExists(audits, rows);
      var id :| id in rows && forall i | i in rows :: audits[i].created <= audits[id].created;
      return Some(id);
    }
  }
}
