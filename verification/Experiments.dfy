/**
 repo/experiments.py: the append-only experiment_metric log, the summary_metrics mirror on the
 run header, and the leaderboard that reads the mirror. Statements of one call form a
 transaction, and transactions are serial here. A metric row must name an existing run (foreign
 key) and hold a finite value (check constraint); otherwise the whole call is rolled back.
 */
module Experiments {
  import opened Wrappers

  type RunId = nat

  datatype Number = Finite(value: real) | NotFinite

  /** A metric as the caller sends it. */
  datatype Entry = Entry(name: string, value: Number, fold: Option<int>, step: Option<int>)

  /** A row of experiment_metric; metric_id is its position in the log. */
  datatype Metric = Metric(run: RunId, name: string, value: real, fold: Option<int>, step: Option<int>)

  datatype Run = Run(spec: string, status: string, summary: map<string, real>)

  datatype Store = Store(log: seq<Metric>, runs: map<RunId, Run>)

  datatype Op =
    | InsertRun(run: RunId, spec: string)
    | LogMetric(run: RunId, entry: Entry)
    | LogMetrics(run: RunId, entries: seq<Entry>)
    | FinishRun(run: RunId, status: string)

  predicate Terminal(status: string) {
    status == "completed" || status == "failed" || status == "aborted"
  }

  predicate Insertable(s: Store, run: RunId, entries: seq<Entry>) {
    run in s.runs && forall i | 0 <= i < |entries| :: entries[i].value.Finite?
  }

  function Rows(run: RunId, entries: seq<Entry>): seq<Metric>
    requires forall i | 0 <= i < |entries| :: entries[i].value.Finite?
    ensures |Rows(run, entries)| == |entries|
  {
    seq(|entries|, i requires 0 <= i < |entries| =>
      Metric(run, entries[i].name, entries[i].value.value, entries[i].fold, entries[i].step))
  }

  /** The run-level entries collapsed into one JSON object: the rightmost of equal names wins. */
  function Collapse(entries: seq<Entry>): map<string, real>
    requires forall i | 0 <= i < |entries| :: entries[i].value.Finite?
  {
    if entries == [] then map[]
    else
      var rest := Collapse(entries[..|entries| - 1]);
      var last := entries[|entries| - 1];
      if last.fold.None? then rest[last.name := last.value.value] else rest
  }

  function Apply(s: Store, op: Op): Store {
    match op
    case InsertRun(run, spec) =>
      if run in s.runs then s else s.(runs := s.runs[run := Run(spec, "running", map[])])
    case LogMetric(run, entry) => if Insertable(s, run, [entry]) then Logged(s, run, [entry]) else s
    case LogMetrics(run, entries) => if Insertable(s, run, entries) then Logged(s, run, entries) else s
    case FinishRun(run, status) =>
      if run in s.runs && Terminal(status) && s.runs[run].status == "running"
      then s.(runs := s.runs[run := s.runs[run].(status := status)]) else s
  }

  function Logged(s: Store, run: RunId, entries: seq<Entry>): Store
    requires Insertable(s, run, entries)
  {
    var header := s.runs[run];
    Store(s.log + Rows(run, entries), s.runs[run := header.(summary := header.summary + Collapse(entries))])
  }

  function StoreAt(s: Store, ops: seq<Op>, i: nat): Store
    requires i <= |ops|
  {
    if i == 0 then s else Apply(StoreAt(s, ops, i - 1), ops[i - 1])
  }

  // ---- The log is the truth ----

  predicate IsRunLevel(m: Metric, run: RunId, name: string) {
    m.run == run && m.name == name && m.fold.None?
  }

  /** Row i is the latest run-level row of that name. */
  ghost predicate IsLatest(log: seq<Metric>, run: RunId, name: string, i: int) {
    && 0 <= i < |log| && IsRunLevel(log[i], run, name)
    && forall j | i < j < |log| :: !IsRunLevel(log[j], run, name)
  }

  /** The mirror has exactly the names that have a run-level row, each with the value of the latest one. */
  ghost predicate Mirrors(summary: map<string, real>, log: seq<Metric>, run: RunId) {
    && (forall name | name in summary :: exists i :: IsLatest(log, run, name, i) && summary[name] == log[i].value)
    && (forall i | 0 <= i < |log| && log[i].run == run && log[i].fold.None? :: log[i].name in summary)
  }

  ghost predicate MirrorOk(s: Store) {
    && (forall i | 0 <= i < |s.log| :: s.log[i].run in s.runs)
    && (forall run | run in s.runs :: Mirrors(s.runs[run].summary, s.log, run))
  }

  lemma LatestUnique(log: seq<Metric>, run: RunId, name: string, i: int, j: int)
    requires IsLatest(log, run, name, i) && IsLatest(log, run, name, j)
    ensures i == j
  {
  }

  lemma LatestKept(log: seq<Metric>, m: Metric, run: RunId, name: string, i: int)
    requires IsLatest(log, run, name, i) && !IsRunLevel(m, run, name)
    ensures IsLatest(log + [m], run, name, i)
  {
  }

  /** One row and its mirror update. */
  lemma MirrorsOne(summary: map<string, real>, log: seq<Metric>, m: Metric)
    requires Mirrors(summary, log, m.run)
    ensures Mirrors(if m.fold.None? then summary[m.name := m.value] else summary, log + [m], m.run)
  {
    var all := log + [m];
    var mirror := if m.fold.None? then summary[m.name := m.value] else summary;
    forall name | name in mirror
      ensures exists i :: IsLatest(all, m.run, name, i) && mirror[name] == all[i].value
    {
      if m.fold.None? && name == m.name {
        assert IsLatest(all, m.run, name, |log|);
      } else {
        var i :| IsLatest(log, m.run, name, i) && summary[name] == log[i].value;
        LatestKept(log, m, m.run, name, i);
      }
    }
  }

  lemma {:induction false} MirrorsBatch(summary: map<string, real>, log: seq<Metric>, run: RunId, entries: seq<Entry>)
    requires Mirrors(summary, log, run)
    requires forall i | 0 <= i < |entries| :: entries[i].value.Finite?
    ensures Mirrors(summary + Collapse(entries), log + Rows(run, entries), run)
  {
    hide Mirrors;
    if entries == [] {
      assert summary + Collapse(entries) == summary && log + Rows(run, entries) == log;
    } else {
      var init, last := entries[..|entries| - 1], entries[|entries| - 1];
      MirrorsBatch(summary, log, run, init);
      var rows := Rows(run, entries);
      assert rows == Rows(run, init) + [rows[|entries| - 1]];
      MirrorsOne(summary + Collapse(init), log + Rows(run, init), rows[|entries| - 1]);
      assert log + rows == (log + Rows(run, init)) + [rows[|entries| - 1]];
      assert last.fold.None? ==>
        summary + Collapse(entries) == (summary + Collapse(init))[last.name := last.value.value];
    }
  }

  lemma {:induction false} MirrorsOther(summary: map<string, real>, log: seq<Metric>, other: RunId, rows: seq<Metric>)
    requires Mirrors(summary, log, other) && forall i | 0 <= i < |rows| :: rows[i].run != other
    ensures Mirrors(summary, log + rows, other)
  {
    if rows == [] {
      assert log + rows == log;
    } else {
      var init, last := rows[..|rows| - 1], rows[|rows| - 1];
      MirrorsOther(summary, log, other, init);
      assert log + rows == (log + init) + [last];
      forall name | name in summary
        ensures exists i :: IsLatest(log + rows, other, name, i) && summary[name] == (log + rows)[i].value
      {
        var i :| IsLatest(log + init, other, name, i) && summary[name] == (log + init)[i].value;
        LatestKept(log + init, last, other, name, i);
      }
    }
  }

  lemma LoggedKeepsMirror(s: Store, run: RunId, entries: seq<Entry>)
    requires MirrorOk(s) && Insertable(s, run, entries)
    ensures MirrorOk(Logged(s, run, entries))
  {
    var rows := Rows(run, entries);
    MirrorsBatch(s.runs[run].summary, s.log, run, entries);
    forall other | other in s.runs && other != run ensures Mirrors(s.runs[other].summary, s.log + rows, other) {
      MirrorsOther(s.runs[other].summary, s.log, other, rows);
    }
  }

  lemma ApplyKeepsMirror(s: Store, op: Op)
    requires MirrorOk(s)
    ensures MirrorOk(Apply(s, op))
  {
    match op
    case InsertRun(run, spec) =>
      if run !in s.runs {
        assert Mirrors(map[], s.log, run);
      }
    case LogMetric(run, entry) =>
      if Insertable(s, run, [entry]) {
        LoggedKeepsMirror(s, run, [entry]);
      }
    case LogMetrics(run, entries) =>
      if Insertable(s, run, entries) {
        LoggedKeepsMirror(s, run, entries);
      }
    case FinishRun(run, status) =>
  }

  /**
   After any serial run of calls, duplicate names in one batch and rejected batches included,
   every summary_metrics has exactly the names with a run-level row, each with its latest value.
   */
  lemma {:induction false} MirrorAgreesWithLog(ops: seq<Op>, i: nat)
    requires i <= |ops|
    ensures MirrorOk(StoreAt(Store([], map[]), ops, i))
  {
    if i > 0 {
      MirrorAgreesWithLog(ops, i - 1);
      ApplyKeepsMirror(StoreAt(Store([], map[]), ops, i - 1), ops[i - 1]);
    }
  }

  // ---- Overlapping transactions ----

  /** One statement of log_metric or log_metrics, in the order the database executes them. */
  datatype Statement = InsertMetric(metric: Metric) | MergeSummary(run: RunId, values: map<string, real>)

  function LogOf(stmts: seq<Statement>, n: nat): seq<Metric>
    requires n <= |stmts|
  {
    if n == 0 then []
    else if stmts[n - 1].InsertMetric? then LogOf(stmts, n - 1) + [stmts[n - 1].metric] else LogOf(stmts, n - 1)
  }

  function SummaryOf(stmts: seq<Statement>, run: RunId, n: nat): map<string, real>
    requires n <= |stmts|
  {
    if n == 0 then map[]
    else if stmts[n - 1].MergeSummary? && stmts[n - 1].run == run
    then SummaryOf(stmts, run, n - 1) + stmts[n - 1].values
    else SummaryOf(stmts, run, n - 1)
  }

  predicate Merges(s: Statement, run: RunId, name: string) {
    s.MergeSummary? && s.run == run && name in s.values
  }

  /** Statement k is the last that writes this name into the mirror of the run. */
  ghost predicate LastMerge(stmts: seq<Statement>, n: int, run: RunId, name: string, k: int) {
    && 0 <= k < n <= |stmts| && Merges(stmts[k], run, name)
    && forall j | k < j < n :: !Merges(stmts[j], run, name)
  }

  lemma {:induction false} SummaryOfMerges(stmts: seq<Statement>, run: RunId, n: nat, name: string) returns (k: int)
    requires n <= |stmts|
    ensures name in SummaryOf(stmts, run, n) <==> k >= 0
    ensures k < 0 ==> forall j | 0 <= j < n :: !Merges(stmts[j], run, name)
    ensures k >= 0 ==> LastMerge(stmts, n, run, name, k) && SummaryOf(stmts, run, n)[name] == stmts[k].values[name]
  {
    if n == 0 {
      k := -1;
    } else if Merges(stmts[n - 1], run, name) {
      k := n - 1;
    } else {
      k := SummaryOfMerges(stmts, run, n - 1, name);
    }
  }

  lemma {:induction false} LatestExists(log: seq<Metric>, run: RunId, name: string, n: nat) returns (i: int)
    requires n <= |log|
    ensures -1 <= i < n && forall j | i < j < n :: !IsRunLevel(log[j], run, name)
    ensures i >= 0 ==> IsRunLevel(log[i], run, name)
  {
    if n == 0 {
      i := -1;
    } else if IsRunLevel(log[n - 1], run, name) {
      i := n - 1;
    } else {
      i := LatestExists(log, run, name, n - 1);
    }
  }

  /** The last write of the name into the mirror carries the value of its latest run-level row; or there is neither. */
  ghost predicate NameAgrees(stmts: seq<Statement>, n: nat, run: RunId, name: string)
    requires n <= |stmts|
  {
    var log := LogOf(stmts, n);
    && ((exists k :: LastMerge(stmts, n, run, name, k)) <==> (exists i :: IsLatest(log, run, name, i)))
    && forall k, i | LastMerge(stmts, n, run, name, k) && IsLatest(log, run, name, i) ::
      stmts[k].values[name] == log[i].value
  }

  /**
   Transactions may overlap: their inserts and mirror updates interleave in any order. The mirror
   of a run agrees with the log exactly when, for every name, the last write into the mirror
   carries the value of the latest run-level row.
   */
  lemma OverlapAgreesIff(stmts: seq<Statement>, n: nat, run: RunId)
    requires n <= |stmts|
    ensures Mirrors(SummaryOf(stmts, run, n), LogOf(stmts, n), run) <==> forall name :: NameAgrees(stmts, n, run, name)
  {
    hide SummaryOf, LogOf, IsLatest, LastMerge, NameAgrees;
    var summary, log := SummaryOf(stmts, run, n), LogOf(stmts, n);
    forall name
      ensures NameAgrees(stmts, n, run, name) <==> MirrorsName(summary, log, run, name)
    {
      NameAgreesIff(stmts, n, run, name);
    }
    MirrorsByName(summary, log, run);
  }

  /** Mirrors, for one name. */
  ghost predicate MirrorsName(summary: map<string, real>, log: seq<Metric>, run: RunId, name: string) {
    && (name in summary <==> exists i :: IsLatest(log, run, name, i))
    && forall i | IsLatest(log, run, name, i) && name in summary :: summary[name] == log[i].value
  }

  lemma NameAgreesIff(stmts: seq<Statement>, n: nat, run: RunId, name: string)
    requires n <= |stmts|
    ensures NameAgrees(stmts, n, run, name) <==> MirrorsName(SummaryOf(stmts, run, n), LogOf(stmts, n), run, name)
  {
    hide IsLatest;
    var k := SummaryOfMerges(stmts, run, n, name);
    if k >= 0 {
      assert forall other | LastMerge(stmts, n, run, name, other) :: other == k;
    } else {
      assert forall other :: !LastMerge(stmts, n, run, name, other);
    }
  }

  lemma MirrorsByName(summary: map<string, real>, log: seq<Metric>, run: RunId)
    ensures Mirrors(summary, log, run) <==> forall name :: MirrorsName(summary, log, run, name)
  {
    if Mirrors(summary, log, run) {
      forall name ensures MirrorsName(summary, log, run, name) {
        forall i | IsLatest(log, run, name, i) ensures name in summary && summary[name] == log[i].value {
          var j :| IsLatest(log, run, name, j) && summary[name] == log[j].value;
          LatestUnique(log, run, name, i, j);
        }
      }
    }
    if forall name :: MirrorsName(summary, log, run, name) {
      forall i | 0 <= i < |log| && log[i].run == run && log[i].fold.None? ensures log[i].name in summary {
        var name := log[i].name;
        assert MirrorsName(summary, log, run, name);
        var latest := LatestExists(log, run, name, |log|);
        assert IsRunLevel(log[i], run, name);
        assert IsLatest(log, run, name, latest);
      }
      forall name | name in summary ensures exists i :: IsLatest(log, run, name, i) && summary[name] == log[i].value {
        assert MirrorsName(summary, log, run, name);
        var i :| IsLatest(log, run, name, i);
      }
    }
  }

  // ---- Statements grouped into the transactions of the calls ----

  /** A call of log_metric or log_metrics that goes through. */
  datatype Call = Call(run: RunId, entries: seq<Entry>)

  predicate AllFinite(c: Call) {
    forall i | 0 <= i < |c.entries| :: c.entries[i].value.Finite?
  }

  /** The statements of a call: its inserts, then one mirror update if it has run-level entries. */
  function StatementsOf(c: Call): seq<Statement>
    requires AllFinite(c)
  {
    var rows := Rows(c.run, c.entries);
    seq(|rows|, i requires 0 <= i < |rows| => InsertMetric(rows[i]))
    + if Collapse(c.entries) == map[] then [] else [MergeSummary(c.run, Collapse(c.entries))]
  }

  /** What transaction x has executed among the first n statements. */
  function OfTx(stmts: seq<Statement>, tx: seq<nat>, x: nat, n: nat): seq<Statement>
    requires n <= |stmts| == |tx|
  {
    if n == 0 then []
    else if tx[n - 1] == x then OfTx(stmts, tx, x, n - 1) + [stmts[n - 1]]
    else OfTx(stmts, tx, x, n - 1)
  }

  /** The statements are those of the calls, each executed completely and in its own order; tx says whose each is. */
  ghost predicate Executes(calls: seq<Call>, stmts: seq<Statement>, tx: seq<nat>) {
    && |tx| == |stmts|
    && (forall x | 0 <= x < |calls| :: AllFinite(calls[x]))
    && (forall k | 0 <= k < |tx| :: tx[k] < |calls|)
    && (forall x | 0 <= x < |calls| :: OfTx(stmts, tx, x, |stmts|) == StatementsOf(calls[x]))
  }

  lemma {:induction false} OfTxGrows(stmts: seq<Statement>, tx: seq<nat>, x: nat, i: nat, n: nat)
    requires i <= n <= |stmts| == |tx|
    ensures OfTx(stmts, tx, x, i) <= OfTx(stmts, tx, x, n)
  {
    if i < n {
      OfTxGrows(stmts, tx, x, i, n - 1);
    }
  }

  /** Statement i of the execution is this one of its transaction. */
  function Place(stmts: seq<Statement>, tx: seq<nat>, i: nat): nat
    requires i < |stmts| == |tx|
  {
    |OfTx(stmts, tx, tx[i], i)|
  }

  lemma PlaceHolds(stmts: seq<Statement>, tx: seq<nat>, i: nat)
    requires i < |stmts| == |tx|
    ensures var all, p := OfTx(stmts, tx, tx[i], |stmts|), Place(stmts, tx, i);
      p < |all| && all[p] == stmts[i]
  {
    OfTxGrows(stmts, tx, tx[i], i + 1, |stmts|);
    assert OfTx(stmts, tx, tx[i], i + 1)[Place(stmts, tx, i)] == stmts[i];
  }

  lemma PlaceGrows(stmts: seq<Statement>, tx: seq<nat>, i: nat, j: nat)
    requires i < j < |stmts| == |tx| && tx[i] == tx[j]
    ensures Place(stmts, tx, i) < Place(stmts, tx, j)
  {
    OfTxGrows(stmts, tx, tx[i], i + 1, j);
  }

  lemma {:induction false} StatementAt(stmts: seq<Statement>, tx: seq<nat>, x: nat, n: nat, p: nat) returns (i: nat)
    requires n <= |stmts| == |tx| && p < |OfTx(stmts, tx, x, n)|
    ensures i < n && tx[i] == x && Place(stmts, tx, i) == p && stmts[i] == OfTx(stmts, tx, x, n)[p]
  {
    if p < |OfTx(stmts, tx, x, n - 1)| {
      i := StatementAt(stmts, tx, x, n - 1, p);
    } else {
      i := n - 1;
    }
  }

  /** The value a batch writes for a name is that of its last run-level entry with the name. */
  lemma {:induction false} CollapseLast(entries: seq<Entry>, name: string) returns (e: int)
    requires forall i | 0 <= i < |entries| :: entries[i].value.Finite?
    ensures -1 <= e < |entries| && (name in Collapse(entries) <==> e >= 0)
    ensures e >= 0 ==>
      entries[e].name == name && entries[e].fold.None? && Collapse(entries)[name] == entries[e].value.value
    ensures forall i | e < i < |entries| :: entries[i].name != name || entries[i].fold.Some?
  {
    if entries == [] {
      e := -1;
    } else {
      var init, last := entries[..|entries| - 1], entries[|entries| - 1];
      if last.name == name && last.fold.None? {
        e := |entries| - 1;
      } else {
        e := CollapseLast(init, name);
        assert forall i | 0 <= i < |init| :: entries[i] == init[i];
      }
    }
  }

  predicate InsertsName(s: Statement, run: RunId, name: string) {
    s.InsertMetric? && IsRunLevel(s.metric, run, name)
  }

  /** Statement i inserts the latest run-level row of the name. */
  ghost predicate LastInsert(stmts: seq<Statement>, n: int, run: RunId, name: string, i: int) {
    && 0 <= i < n <= |stmts| && InsertsName(stmts[i], run, name)
    && forall j | i < j < n :: !InsertsName(stmts[j], run, name)
  }

  lemma {:induction false} LogLatest(stmts: seq<Statement>, n: nat, run: RunId, name: string) returns (l: int, i: int)
    requires n <= |stmts|
    ensures l < 0 <==> i < 0
    ensures i < 0 ==>
      && (forall j | 0 <= j < n :: !InsertsName(stmts[j], run, name))
      && (forall j | 0 <= j < |LogOf(stmts, n)| :: !IsRunLevel(LogOf(stmts, n)[j], run, name))
    ensures i >= 0 ==>
      && IsLatest(LogOf(stmts, n), run, name, l) && LastInsert(stmts, n, run, name, i)
      && LogOf(stmts, n)[l] == stmts[i].metric
  {
    if n == 0 {
      l, i := -1, -1;
    } else {
      l, i := LogLatest(stmts, n - 1, run, name);
      if InsertsName(stmts[n - 1], run, name) {
        l, i := |LogOf(stmts, n)| - 1, n - 1;
      }
    }
  }

  /** A transaction that inserts a run-level row of a name also merges the name. */
  lemma InsertMerges(calls: seq<Call>, stmts: seq<Statement>, tx: seq<nat>, run: RunId, name: string, i: nat)
    returns (k: nat)
    requires Executes(calls, stmts, tx) && i < |stmts| && InsertsName(stmts[i], run, name)
    ensures k < |stmts| && tx[k] == tx[i] && Merges(stmts[k], run, name)
  {
    var x := tx[i];
    var c := calls[x];
    PlaceHolds(stmts, tx, i);
    var e := CollapseLast(c.entries, name);
    assert StatementsOf(c)[Place(stmts, tx, i)] == stmts[i];
    k := StatementAt(stmts, tx, x, |stmts|, |c.entries|);
  }

  /** A transaction that merges a name inserts a run-level row of it, and merges the value of its own last one. */
  lemma MergeInserts(calls: seq<Call>, stmts: seq<Statement>, tx: seq<nat>, run: RunId, name: string, k: nat)
    returns (i: nat)
    requires Executes(calls, stmts, tx) && k < |stmts| && Merges(stmts[k], run, name)
    ensures i < |stmts| && tx[i] == tx[k] && InsertsName(stmts[i], run, name)
    ensures stmts[i].metric.value == stmts[k].values[name]
    ensures forall j | i < j < |stmts| && tx[j] == tx[k] :: !InsertsName(stmts[j], run, name)
  {
    var x := tx[k];
    var c := calls[x];
    PlaceHolds(stmts, tx, k);
    assert StatementsOf(c)[Place(stmts, tx, k)] == stmts[k];
    var e := CollapseLast(c.entries, name);
    i := StatementAt(stmts, tx, x, |stmts|, e);
    forall j | i < j < |stmts| && tx[j] == x ensures !InsertsName(stmts[j], run, name) {
      PlaceGrows(stmts, tx, i, j);
      PlaceHolds(stmts, tx, j);
      assert StatementsOf(c)[Place(stmts, tx, j)] == stmts[j];
    }
  }

  /**
   The transaction that updates the mirror last is the one that inserted the latest row, or it
   writes the same value.
   */
  ghost predicate MergesInOrder(stmts: seq<Statement>, tx: seq<nat>, run: RunId, name: string)
    requires |tx| == |stmts|
  {
    forall k, i | LastMerge(stmts, |stmts|, run, name, k) && LastInsert(stmts, |stmts|, run, name, i) ::
      tx[k] == tx[i] || stmts[k].values[name] == stmts[i].metric.value
  }

  /**
   What callers can arrange. Whatever calls overlap and however, the mirror agrees with the log
   exactly when, for every name, the mirror updates end with the transaction that inserted the
   latest row, or write its value. So it is enough that calls which share a run and a name
   commit in the order of their inserts.
   */
  lemma TransactionsAgreeIff(calls: seq<Call>, stmts: seq<Statement>, tx: seq<nat>, run: RunId)
    requires Executes(calls, stmts, tx)
    ensures Mirrors(SummaryOf(stmts, run, |stmts|), LogOf(stmts, |stmts|), run)
      <==> forall name :: MergesInOrder(stmts, tx, run, name)
  {
    assert |tx| == |stmts|;
    hide Executes, SummaryOf, LogOf, Mirrors, NameAgrees, MergesInOrder;
    OverlapAgreesIff(stmts, |stmts|, run);
    forall name ensures NameAgrees(stmts, |stmts|, run, name) <==> MergesInOrder(stmts, tx, run, name) {
      NameInOrder(calls, stmts, tx, run, name);
    }
  }

  lemma NameInOrder(calls: seq<Call>, stmts: seq<Statement>, tx: seq<nat>, run: RunId, name: string)
    requires Executes(calls, stmts, tx)
    ensures |tx| == |stmts|
    ensures NameAgrees(stmts, |stmts|, run, name) <==> MergesInOrder(stmts, tx, run, name)
  {
    assert |tx| == |stmts|;
    hide Executes, SummaryOf, LogOf, IsRunLevel;
    var n := |stmts|;
    var k := SummaryOfMerges(stmts, run, n, name);
    var l, i := LogLatest(stmts, n, run, name);
    if k >= 0 {
      var own := MergeInserts(calls, stmts, tx, run, name, k);
      assert own <= i;
      assert tx[k] == tx[i] ==> own == i;
      OnlyLatest(stmts, run, name, k, l, i);
    } else {
      if i >= 0 {
        var merge := InsertMerges(calls, stmts, tx, run, name, i);
        assert false;
      }
      assert forall j :: !LastMerge(stmts, n, run, name, j);
      assert forall j :: !IsLatest(LogOf(stmts, n), run, name, j);
    }
  }

  lemma OnlyLatest(stmts: seq<Statement>, run: RunId, name: string, k: int, l: int, i: int)
    requires LastMerge(stmts, |stmts|, run, name, k) && LastInsert(stmts, |stmts|, run, name, i)
    requires IsLatest(LogOf(stmts, |stmts|), run, name, l)
    ensures forall j | LastMerge(stmts, |stmts|, run, name, j) :: j == k
    ensures forall j | LastInsert(stmts, |stmts|, run, name, j) :: j == i
    ensures forall j | IsLatest(LogOf(stmts, |stmts|), run, name, j) :: j == l
  {
  }

  /**
   The smallest overlap. Two run-level rows a and b are logged in this order, but
   the transaction of a updates the mirror last: the mirror still agrees with the log exactly
   when the names differ or the values are equal.
   */
  lemma OverlapOfTwo(summary: map<string, real>, log: seq<Metric>, a: Metric, b: Metric)
    requires Mirrors(summary, log, a.run) && a.run == b.run && a.fold.None? && b.fold.None?
    ensures Mirrors(summary[b.name := b.value][a.name := a.value], log + [a] + [b], a.run)
       <==> a.name != b.name || a.value == b.value
  {
    var inOrder := summary[a.name := a.value][b.name := b.value];
    var overlapped := summary[b.name := b.value][a.name := a.value];
    var all := log + [a] + [b];
    MirrorsOne(summary, log, a);
    MirrorsOne(summary[a.name := a.value], log + [a], b);
    if a.name != b.name || a.value == b.value {
      assert overlapped == inOrder;
    } else {
      assert IsLatest(all, a.run, a.name, |log| + 1);
      forall i | IsLatest(all, a.run, a.name, i) ensures i == |log| + 1 {
        LatestUnique(all, a.run, a.name, i, |log| + 1);
      }
      assert a.name in overlapped;
    }
  }

  /** A terminal run keeps its status for ever, over any serial run of calls. */
  lemma {:induction false} TerminalKept(s: Store, ops: seq<Op>, i: nat, run: RunId)
    requires i <= |ops| && run in s.runs && s.runs[run].status != "running"
    ensures run in StoreAt(s, ops, i).runs && StoreAt(s, ops, i).runs[run].status == s.runs[run].status
  {
    if i > 0 {
      TerminalKept(s, ops, i - 1, run);
    }
  }

  ghost predicate Inserts(op: Op, run: RunId) {
    op.InsertRun? && op.run == run
  }

  ghost predicate Ends(op: Op, run: RunId) {
    op.FinishRun? && op.run == run && op.status in {"completed", "failed", "aborted"}
  }

  /** Call e is the first after call k that ends the run. */
  ghost predicate FirstEnds(ops: seq<Op>, n: nat, run: RunId, k: nat, e: int) {
    k < e < n <= |ops| && Ends(ops[e], run) && forall j | k < j < e :: !Ends(ops[j], run)
  }

  /** A run header is there exactly from its insert on. */
  lemma {:induction false} HeaderThere(ops: seq<Op>, n: nat, run: RunId)
    requires n <= |ops|
    ensures run in StoreAt(Store([], map[]), ops, n).runs <==> exists k :: 0 <= k < n && Inserts(ops[k], run)
  {
    hide Apply;
    if n > 0 {
      HeaderThere(ops, n - 1, run);
      HeaderStep(StoreAt(Store([], map[]), ops, n - 1), ops[n - 1], run);
    }
  }

  lemma HeaderStep(s: Store, op: Op, run: RunId)
    ensures run in Apply(s, op).runs <==> run in s.runs || Inserts(op, run)
    ensures run in s.runs ==>
      var before, after := s.runs[run], Apply(s, op).runs[run];
      && after.spec == before.spec
      && after.status == if Ends(op, run) && before.status == "running" then op.status else before.status
    ensures run !in s.runs && Inserts(op, run) ==> Apply(s, op).runs[run] == Run(op.spec, "running", map[])
  {
    hide Rows, Collapse;
  }

  /**
   A run header keeps the spec of its first insert. It is running until the first finish call
   with one of the three terminal words, and has that word for ever after.
   */
  lemma {:induction false} HeaderOfHistory(ops: seq<Op>, n: nat, run: RunId, k: nat)
    requires k < n <= |ops| && Inserts(ops[k], run) && forall j | 0 <= j < k :: !Inserts(ops[j], run)
    ensures run in StoreAt(Store([], map[]), ops, n).runs
    ensures var header := StoreAt(Store([], map[]), ops, n).runs[run];
      && header.spec == ops[k].spec
      && ((forall j | k < j < n :: !Ends(ops[j], run)) ==> header.status == "running")
      && (forall e | FirstEnds(ops, n, run, k, e) :: header.status == ops[e].status)
  {
    hide Apply;
    var m := n - 1;
    HeaderStep(StoreAt(Store([], map[]), ops, m), ops[m], run);
    if k == m {
      HeaderThere(ops, m, run);
    } else {
      HeaderOfHistory(ops, m, run, k);
      forall e | FirstEnds(ops, n, run, k, e) && e < m ensures FirstEnds(ops, m, run, k, e) {
      }
      if !exists e :: FirstEnds(ops, m, run, k, e) {
        NoEnd(ops, m, run, k);
      }
    }
  }

  lemma {:induction false} NoEnd(ops: seq<Op>, n: nat, run: RunId, k: nat)
    requires k < n <= |ops| && forall e :: !FirstEnds(ops, n, run, k, e)
    ensures forall j | k < j < n :: !Ends(ops[j], run)
  {
    if k < n - 1 {
      var m := n - 1;
      assert forall e | FirstEnds(ops, m, run, k, e) :: FirstEnds(ops, n, run, k, e);
      NoEnd(ops, m, run, k);
      assert Ends(ops[m], run) ==> FirstEnds(ops, n, run, k, m);
    }
  }

  // ---- Leaderboard ----

  predicate Listed(s: Store, run: RunId, spec: string, status: Option<string>) {
    run in s.runs && s.runs[run].spec == spec && (status.Some? ==> s.runs[run].status == status.value)
  }

  /** What leaderboard() ranks: the filtered runs whose mirror has the metric, with the mirrored value. */
  function FromMirror(s: Store, spec: string, metric: string, status: Option<string>): map<RunId, real> {
    map run | run in s.runs && Listed(s, run, spec, status) && metric in s.runs[run].summary ::
      s.runs[run].summary[metric]
  }

  /** The same ranking computed from the log alone. */
  ghost function FromLog(s: Store, spec: string, metric: string, status: Option<string>): map<RunId, real> {
    map run | run in s.runs && Listed(s, run, spec, status) && (exists i :: IsLatest(s.log, run, metric, i)) ::
      var i :| IsLatest(s.log, run, metric, i); s.log[i].value
  }

  /** ORDER BY value DIR: every candidate once; ties are the planner's choice. */
  ghost predicate IsRanking(candidates: map<RunId, real>, desc: bool, order: seq<RunId>) {
    && (forall run :: run in order <==> run in candidates)
    && (forall i, j | 0 <= i < j < |order| :: order[i] != order[j])
    && (forall i, j | 0 <= i < j < |order| ::
        if desc then candidates[order[i]] >= candidates[order[j]] else candidates[order[i]] <= candidates[order[j]])
  }

  /** ORDER BY value DIR LIMIT limit */
  ghost predicate IsBoard(candidates: map<RunId, real>, desc: bool, limit: nat, board: seq<RunId>) {
    exists order | IsRanking(candidates, desc, order) ::
      board == order[..if |order| < limit then |order| else limit]
  }

  lemma {:induction false} DistinctMembers(order: seq<RunId>, keys: set<RunId>)
    requires forall run :: run in order <==> run in keys
    requires forall i, j | 0 <= i < j < |order| :: order[i] != order[j]
    ensures |order| == |keys|
  {
    if order == [] {
      assert keys == {};
    } else {
      var init, last := order[..|order| - 1], order[|order| - 1];
      forall run ensures run in init <==> run in keys - {last} {
      }
      DistinctMembers(init, keys - {last});
    }
  }

  /**
   What a leaderboard shows: distinct candidates, best first, as many as the limit or the table
   allows, and no candidate that is left out is better than one on the board.
   */
  lemma BoardShows(candidates: map<RunId, real>, desc: bool, limit: nat, board: seq<RunId>)
    requires IsBoard(candidates, desc, limit, board)
    ensures |board| == |candidates| < limit || |board| == limit <= |candidates|
    ensures forall i | 0 <= i < |board| :: board[i] in candidates
    ensures forall i, j | 0 <= i < j < |board| :: board[i] != board[j]
    ensures forall i, j | 0 <= i < j < |board| ::
      if desc then candidates[board[i]] >= candidates[board[j]] else candidates[board[i]] <= candidates[board[j]]
    ensures forall run, i | run in candidates && run !in board && 0 <= i < |board| ::
      if desc then candidates[board[i]] >= candidates[run] else candidates[board[i]] <= candidates[run]
  {
    var order :| IsRanking(candidates, desc, order) && board == order[..if |order| < limit then |order| else limit];
    DistinctMembers(order, candidates.Keys);
    assert forall i | 0 <= i < |board| :: board[i] == order[i] && order[i] in order;
    forall run, i | run in candidates && run !in board && 0 <= i < |board|
      ensures if desc then candidates[board[i]] >= candidates[run] else candidates[board[i]] <= candidates[run]
    {
      var j :| 0 <= j < |order| && order[j] == run;
      if j < |board| {
        assert false;
      }
    }
  }

  lemma {:induction false} BestExists(candidates: map<RunId, real>, desc: bool) returns (best: RunId)
    requires candidates != map[]
    ensures best in candidates
    ensures forall run | run in candidates ::
      if desc then candidates[best] >= candidates[run] else candidates[best] <= candidates[run]
    decreases |candidates|
  {
    var some :| some in candidates;
    best := some;
    var rest := candidates - {some};
    if rest != map[] {
      var other := BestExists(rest, desc);
      if desc {
        best := if candidates[other] >= candidates[some] then other else some;
      } else {
        best := if candidates[other] <= candidates[some] then other else some;
      }
      assert forall run | run in candidates && run != some :: run in rest && rest[run] == candidates[run];
    } else {
      assert forall run | run in candidates && run != some :: run in rest;
    }
  }

  lemma {:induction false} RankingExists(candidates: map<RunId, real>, desc: bool) returns (order: seq<RunId>)
    ensures IsRanking(candidates, desc, order)
    decreases |candidates|
  {
    if candidates == map[] {
      order := [];
    } else {
      var best := BestExists(candidates, desc);
      var rest := RankingExists(candidates - {best}, desc);
      order := [best] + rest;
      BestFirst(candidates, desc, best, rest);
    }
  }

  lemma BestFirst(candidates: map<RunId, real>, desc: bool, best: RunId, rest: seq<RunId>)
    requires best in candidates && IsRanking(candidates - {best}, desc, rest)
    requires forall run | run in candidates ::
      if desc then candidates[best] >= candidates[run] else candidates[best] <= candidates[run]
    ensures IsRanking(candidates, desc, [best] + rest)
  {
    var order := [best] + rest;
    var others := candidates - {best};
    forall i | 0 <= i < |rest| ensures rest[i] in others {
      assert rest[i] in rest;
    }
    forall run ensures run in order <==> run in candidates {
      assert run in rest <==> run in others;
    }
    forall i, j | 0 <= i < j < |order|
      ensures order[i] != order[j]
      ensures if desc then candidates[order[i]] >= candidates[order[j]]
              else candidates[order[i]] <= candidates[order[j]]
    {
      assert order[j] == rest[j - 1] && (i > 0 ==> order[i] == rest[i - 1]);
    }
  }

  /** There is a leaderboard of every candidate set and limit. */
  lemma BoardExists(candidates: map<RunId, real>, desc: bool, limit: nat) returns (board: seq<RunId>)
    ensures IsBoard(candidates, desc, limit, board)
  {
    var order := RankingExists(candidates, desc);
    board := order[..if |order| < limit then |order| else limit];
  }

  lemma MirroredValue(s: Store, run: RunId, metric: string)
    requires MirrorOk(s) && run in s.runs
    ensures metric in s.runs[run].summary <==> exists i :: IsLatest(s.log, run, metric, i)
    ensures forall i | IsLatest(s.log, run, metric, i) && metric in s.runs[run].summary ::
      s.log[i].value == s.runs[run].summary[metric]
  {
    var summary := s.runs[run].summary;
    assert Mirrors(summary, s.log, run);
    if metric in summary {
      var k :| IsLatest(s.log, run, metric, k) && summary[metric] == s.log[k].value;
      forall i | IsLatest(s.log, run, metric, i) ensures s.log[i].value == summary[metric] {
        LatestUnique(s.log, run, metric, i, k);
      }
    }
  }

  lemma CandidatesAgree(s: Store, spec: string, metric: string, status: Option<string>)
    requires MirrorOk(s)
    ensures FromMirror(s, spec, metric, status) == FromLog(s, spec, metric, status)
  {
    hide MirrorOk, IsLatest;
    forall run | run in s.runs
      ensures metric in s.runs[run].summary <==> exists i :: IsLatest(s.log, run, metric, i)
      ensures forall i | IsLatest(s.log, run, metric, i) && metric in s.runs[run].summary ::
        0 <= i < |s.log| && s.log[i].value == s.runs[run].summary[metric]
    {
      MirroredValue(s, run, metric);
      LatestInLog(s.log, run, metric);
    }
  }

  lemma LatestInLog(log: seq<Metric>, run: RunId, name: string)
    ensures forall i | IsLatest(log, run, name, i) :: 0 <= i < |log|
  {
  }

  /** The leaderboard read from the mirror is the leaderboard computed from the log, after any serial run of calls. */
  lemma LeaderboardsAgree(ops: seq<Op>, i: nat, spec: string, metric: string, status: Option<string>,
                          desc: bool, limit: nat, board: seq<RunId>)
    requires i <= |ops|
    ensures var s := StoreAt(Store([], map[]), ops, i);
      IsBoard(FromMirror(s, spec, metric, status), desc, limit, board)
      <==> IsBoard(FromLog(s, spec, metric, status), desc, limit, board)
  {
    hide IsBoard, FromMirror, FromLog;
    MirrorAgreesWithLog(ops, i);
    CandidatesAgree(StoreAt(Store([], map[]), ops, i), spec, metric, status);
  }

  /**
   Who is a candidate, over every serial run of calls: a run of this spec (and of this status, if
   one is given) that logged the metric without a fold, with the last value it logged that way.
   */
  lemma CandidateIff(ops: seq<Op>, n: nat, spec: string, metric: string, status: Option<string>, run: RunId)
    requires n <= |ops|
    ensures var s := StoreAt(Store([], map[]), ops, n);
      var board := FromMirror(s, spec, metric, status);
      && (run in board <==>
        run in s.runs && s.runs[run].spec == spec && (status == None || status == Some(s.runs[run].status))
        && exists i :: 0 <= i < |s.log| && s.log[i].run == run && s.log[i].name == metric && s.log[i].fold == None)
      && forall i | 0 <= i < |s.log| && s.log[i].run == run && s.log[i].name == metric && s.log[i].fold == None
        && run in board
        && (forall j | i < j < |s.log| :: s.log[j].run != run || s.log[j].name != metric || s.log[j].fold != None) ::
        board[run] == s.log[i].value
  {
    var s := StoreAt(Store([], map[]), ops, n);
    MirrorAgreesWithLog(ops, n);
    if run in s.runs {
      MirroredValue(s, run, metric);
    }
  }

  // ---- The tables as an object ----

  datatype Error = UnknownRun | ValueNotFinite | StatusNotTerminal

  class ExperimentStore {
    var log: seq<Metric>
    var runs: map<RunId, Run>

    function Snapshot(): Store
      reads this
    {
      Store(log, runs)
    }

    constructor ()
      ensures Snapshot() == Store([], map[]) && MirrorOk(Snapshot())
    {
      log, runs := [], map[];
    }

    /** insert_run; run is the fresh key the database generates. */
    method NewRun(run: RunId, spec: string)
      requires run !in runs && MirrorOk(Snapshot())
      modifies this
      ensures Snapshot() == Apply(old(Snapshot()), InsertRun(run, spec)) && MirrorOk(Snapshot())
      ensures run in runs && runs[run] == Run(spec, "running", map[])
    {
      ApplyKeepsMirror(Snapshot(), InsertRun(run, spec));
      runs := runs[run := Run(spec, "running", map[])];
    }

    /** log_metric */
    method Log(run: RunId, entry: Entry) returns (r: Result<nat, Error>)
      requires MirrorOk(Snapshot())
      modifies this
      ensures Snapshot() == Apply(old(Snapshot()), LogMetric(run, entry)) && MirrorOk(Snapshot())
      ensures r.Success? <==> old(Insertable(Snapshot(), run, [entry]))
      ensures r.Success? ==> r.value == old(|log|)
    {
      ApplyKeepsMirror(Snapshot(), LogMetric(run, entry));
      if run !in runs {
        return Failure(UnknownRun);
      }
      if entry.value.NotFinite? {
        assert ![entry][0].value.Finite?;
        return Failure(ValueNotFinite);
      }
      ghost var s := Snapshot();
      CollapseOne(run, entry);
      var v := entry.value.value;
      log := log + [Metric(run, entry.name, v, entry.fold, entry.step)];
      if entry.fold.None? {
        runs := runs[run := runs[run].(summary := runs[run].summary + map[entry.name := v])];
      } else {
        assert s.runs[run].summary + map[] == s.runs[run].summary;
        assert s.runs[run := s.runs[run]] == s.runs;
      }
      r := Success(|log| - 1);
    }

    /** log_metrics: insert row by row, collapse the run-level entries, and merge them with one update. */
    method LogBatch(run: RunId, entries: seq<Entry>) returns (r: Result<nat, Error>)
      requires MirrorOk(Snapshot())
      modifies this
      ensures entries == [] ==> r == Success(0) && Snapshot() == old(Snapshot())
      ensures entries != [] ==> Snapshot() == Apply(old(Snapshot()), LogMetrics(run, entries))
      ensures entries != [] ==> (r.Success? <==> old(Insertable(Snapshot(), run, entries)))
      ensures r.Success? ==> r.value == |entries|
      ensures MirrorOk(Snapshot())
    {
      if entries == [] {
        return Success(0);
      }
      ApplyKeepsMirror(Snapshot(), LogMetrics(run, entries));
      if run !in runs {
        return Failure(UnknownRun);
      }
      var inserted: seq<Metric> := [];
      var runLevel: map<string, real> := map[];
      for i := 0 to |entries|
        invariant forall k | 0 <= k < i :: entries[k].value.Finite?
        invariant inserted == Rows(run, entries[..i])
        invariant runLevel == Collapse(entries[..i])
        invariant Snapshot() == old(Snapshot())
      {
        var m := entries[i];
        if m.value.NotFinite? {
          return Failure(ValueNotFinite);
        }
        assert entries[..i + 1][..i] == entries[..i];
        inserted := inserted + [Metric(run, m.name, m.value.value, m.fold, m.step)];
        if m.fold.None? {
          runLevel := runLevel[m.name := m.value.value];
        }
      }
      assert entries[..|entries|] == entries;
      log := log + inserted;
      if runLevel != map[] {
        runs := runs[run := runs[run].(summary := runs[run].summary + runLevel)];
      } else {
        assert runs[run].summary + runLevel == runs[run].summary;
        assert runs[run := runs[run]] == runs;
      }
      r := Success(|entries|);
    }

    /** finish_run; Failure is the ValueError, None a run that is unknown or already terminal. */
    method Finish(run: RunId, status: string) returns (r: Result<Option<Run>, Error>)
      requires MirrorOk(Snapshot())
      modifies this
      ensures Snapshot() == Apply(old(Snapshot()), FinishRun(run, status)) && MirrorOk(Snapshot())
      ensures r.Failure? <==> !Terminal(status)
      ensures r.Success? ==> (r.value.Some? <==> run in old(runs) && old(runs)[run].status == "running")
      ensures r.Success? && r.value.Some? ==> r.value.value == old(runs)[run].(status := status)
    {
      ApplyKeepsMirror(Snapshot(), FinishRun(run, status));
      if !Terminal(status) {
        return Failure(StatusNotTerminal);
      }
      if run !in runs || runs[run].status != "running" {
        return Success(None);
      }
      runs := runs[run := runs[run].(status := status)];
      r := Success(Some(runs[run]));
    }
  }

  lemma CollapseOne(run: RunId, entry: Entry)
    requires entry.value.Finite?
    ensures Rows(run, [entry]) == [Metric(run, entry.name, entry.value.value, entry.fold, entry.step)]
    ensures Collapse([entry]) == if entry.fold.None? then map[entry.name := entry.value.value] else map[]
  {
    assert [entry][..0] == [];
    assert Collapse([]) == map[];
  }
}
