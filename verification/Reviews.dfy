/**
 Review requests and verdicts are rows of research_journal (repo/reviews.py). They are written by
 POST /reviews/request, by POST /reviews in two statements (the distinctness check, then the
 insert), by the automatic checklist, and by POST /journal, which takes any row. Statements of any
 number of clients interleave. Rows are kept in created_time order.
 */
module Reviews {
  import opened Wrappers

  type ClientId = nat

  const BACKLOG := "IDEA_BACKLOG"
  const OUTCOME := "STRATEGY_OUTCOME"
  const ACTIVE := "ACTIVE"
  const PARKED := "PARKED"
  const KIND_REQUEST := "review_request"
  const KIND_VERDICT := "review_verdict"
  const AUTO_REVIEWER := "research-orchestrator-auto-reviewer"

  /** kind, target, requestedBy and verdict are fields of structured_data, author is created_by. */
  datatype Entry = Entry(entryType: string, status: string, kind: Option<string>, target: Option<string>,
    requestedBy: Option<string>, verdict: Option<string>, author: string)

  type Log = seq<Entry>

  /** A verdict between its check and its insert. */
  datatype Checked = Checked(target: string, agent: string, verdict: string)

  datatype State = State(log: Log, checked: map<ClientId, Checked>)

  datatype Event =
    | Ask(target: string, agent: string)
    | Check(client: ClientId, target: string, agent: string, verdict: string)
    | Post(client: ClientId)
    | Checklist(target: string, verdict: string)
    | Write(entry: Entry)

  predicate IsRequest(e: Entry, target: string) {
    e.entryType == BACKLOG && e.kind == Some(KIND_REQUEST) && e.target == Some(target)
  }

  predicate IsVerdict(e: Entry, target: string) {
    e.entryType == OUTCOME && e.status == ACTIVE && e.kind == Some(KIND_VERDICT) && e.target == Some(target)
  }

  /** fetch_latest_request_requester: a request of any status counts, and its requested_by may be missing. */
  function LatestRequester(log: Log, target: string): Option<string> {
    if log == [] then None
    else
      var last := log[|log| - 1];
      if IsRequest(last, target) then last.requestedBy else LatestRequester(log[..|log| - 1], target)
  }

  /** The verdict field of fetch_latest_verdict. */
  function LatestVerdict(log: Log, target: string): Option<string> {
    if log == [] then None
    else
      var last := log[|log| - 1];
      if IsVerdict(last, target) then last.verdict else LatestVerdict(log[..|log| - 1], target)
  }

  predicate IsOpen(e: Entry, target: string) {
    IsRequest(e, target) && e.status == ACTIVE
  }

  function Closed(e: Entry, target: string): Entry {
    if IsOpen(e, target) then e.(status := PARKED) else e
  }

  function Parked(log: Log, target: string): Log {
    seq(|log|, i requires 0 <= i < |log| => Closed(log[i], target))
  }

  function RequestRow(target: string, agent: string): Entry {
    Entry(BACKLOG, ACTIVE, Some(KIND_REQUEST), Some(target), Some(agent), None, agent)
  }

  function VerdictRow(target: string, agent: string, verdict: string): Entry {
    Entry(OUTCOME, ACTIVE, Some(KIND_VERDICT), Some(target), None, Some(verdict), agent)
  }

  /** insert_review_verdict: one transaction */
  function Judged(log: Log, target: string, agent: string, verdict: string): Log {
    Parked(log, target) + [VerdictRow(target, agent, verdict)]
  }

  function Next(s: State, e: Event): State {
    match e
    case Ask(target, agent) => s.(log := s.log + [RequestRow(target, agent)])
    case Check(client, target, agent, verdict) =>
      if LatestRequester(s.log, target) == Some(agent) then s.(checked := s.checked - {client})
      else s.(checked := s.checked[client := Checked(target, agent, verdict)])
    case Post(client) =>
      if client !in s.checked then s
      else
        var c := s.checked[client];
        State(Judged(s.log, c.target, c.agent, c.verdict), s.checked - {client})
    case Checklist(target, verdict) => s.(log := Judged(s.log, target, AUTO_REVIEWER, verdict))
    case Write(entry) => s.(log := s.log + [entry])
  }

  const EMPTY := State([], map[])

  function StateAt(events: seq<Event>, n: nat): State
    requires n <= |events|
  {
    if n == 0 then EMPTY else Next(StateAt(events, n - 1), events[n - 1])
  }

  // ---- The queries, on the columns ----

  /** fetch_latest_verdict reads the last ACTIVE verdict row of the target; v is its index, -1 without one. */
  lemma {:induction false} VerdictColumns(log: Log, target: string) returns (v: int)
    ensures -1 <= v < |log| && (v < 0 ==> LatestVerdict(log, target) == None)
    ensures v >= 0 ==>
      && log[v].entryType == "STRATEGY_OUTCOME" && log[v].status == "ACTIVE"
      && log[v].kind == Some("review_verdict") && log[v].target == Some(target)
      && LatestVerdict(log, target) == log[v].verdict
    ensures forall j | v < j < |log| ::
      || log[j].entryType != "STRATEGY_OUTCOME" || log[j].status != "ACTIVE"
      || log[j].kind != Some("review_verdict") || log[j].target != Some(target)
  {
    if log == [] {
      v := -1;
    } else if IsVerdict(log[|log| - 1], target) {
      v := |log| - 1;
    } else {
      v := VerdictColumns(log[..|log| - 1], target);
    }
  }

  /** fetch_latest_request_requester reads the last request row of the target, whatever its status. */
  lemma {:induction false} RequesterColumns(log: Log, target: string) returns (r: int)
    ensures -1 <= r < |log| && (r < 0 ==> LatestRequester(log, target) == None)
    ensures r >= 0 ==>
      && log[r].entryType == "IDEA_BACKLOG" && log[r].kind == Some("review_request")
      && log[r].target == Some(target) && LatestRequester(log, target) == log[r].requestedBy
    ensures forall j | r < j < |log| ::
      log[j].entryType != "IDEA_BACKLOG" || log[j].kind != Some("review_request") || log[j].target != Some(target)
  {
    if log == [] {
      r := -1;
    } else if IsRequest(log[|log| - 1], target) {
      r := |log| - 1;
    } else {
      r := RequesterColumns(log[..|log| - 1], target);
    }
  }

  // ---- The rows, read off the history of events ----

  /** The event writes a request row for the target. */
  predicate Asks(e: Event, target: string) {
    (e.Ask? && e.target == target) || (e.Write? && IsRequest(e.entry, target))
  }

  function AskerOf(e: Event): Option<string>
    requires e.Ask? || e.Write?
  {
    if e.Ask? then Some(e.agent) else e.entry.requestedBy
  }

  /** Who asked last for a review of the target, before event n. */
  function AskedBy(events: seq<Event>, n: nat, target: string): Option<string>
    requires n <= |events|
  {
    if n == 0 then None
    else if Asks(events[n - 1], target) then AskerOf(events[n - 1])
    else AskedBy(events, n - 1, target)
  }

  /** The index of the check that a post of this client at time n relies on, if any. */
  function CheckOf(events: seq<Event>, n: nat, client: ClientId): (c: Option<nat>)
    requires n <= |events|
    ensures c.Some? ==>
      && c.value < n && events[c.value].Check? && events[c.value].client == client
      && AskedBy(events, c.value, events[c.value].target) != Some(events[c.value].agent)
  {
    if n == 0 then None
    else
      var e := events[n - 1];
      if e.Check? && e.client == client then
        if AskedBy(events, n - 1, e.target) == Some(e.agent) then None else Some(n - 1)
      else if e == Post(client) then None
      else CheckOf(events, n - 1, client)
  }

  /** The row with a verdict on the target that event k writes. */
  function VerdictAt(events: seq<Event>, k: nat, target: string): Option<Entry>
    requires k < |events|
  {
    match events[k]
    case Post(client) =>
      var c := CheckOf(events, k, client);
      if c.Some? && events[c.value].target == target
      then Some(VerdictRow(target, events[c.value].agent, events[c.value].verdict)) else None
    case Checklist(t, verdict) => if t == target then Some(VerdictRow(target, AUTO_REVIEWER, verdict)) else None
    case Write(entry) => if IsVerdict(entry, target) then Some(entry) else None
    case _ => None
  }

  predicate Judges(events: seq<Event>, k: int, target: string) {
    0 <= k < |events| && VerdictAt(events, k, target).Some?
  }

  /** Event k wrote the last verdict on the target before event n. */
  ghost predicate LastJudged(events: seq<Event>, n: int, target: string, k: int) {
    k < n && Judges(events, k, target) && forall j | k < j < n :: !Judges(events, j, target)
  }

  lemma {:induction false} ParkedReads(log: Log, closed: string, target: string)
    ensures LatestRequester(Parked(log, closed), target) == LatestRequester(log, target)
    ensures LatestVerdict(Parked(log, closed), target) == LatestVerdict(log, target)
  {
    if log != [] {
      ParkedReads(log[..|log| - 1], closed, target);
      var parked := Parked(log, closed);
      assert parked[..|parked| - 1] == Parked(log[..|log| - 1], closed);
    }
  }

  lemma AppendReads(log: Log, e: Entry, target: string)
    ensures LatestRequester(log + [e], target)
         == if IsRequest(e, target) then e.requestedBy else LatestRequester(log, target)
    ensures LatestVerdict(log + [e], target) == if IsVerdict(e, target) then e.verdict else LatestVerdict(log, target)
  {
    assert (log + [e])[..|log|] == log;
  }

  lemma JudgedReads(log: Log, t: string, agent: string, verdict: string, target: string)
    ensures LatestRequester(Judged(log, t, agent, verdict), target) == LatestRequester(log, target)
    ensures LatestVerdict(Judged(log, t, agent, verdict), target)
         == if t == target then Some(verdict) else LatestVerdict(log, target)
  {
    hide LatestRequester, LatestVerdict, Parked;
    ParkedReads(log, t, target);
    AppendReads(Parked(log, t), VerdictRow(t, agent, verdict), target);
  }

  /** The requester read from the rows and the checks in flight are those of the history. */
  lemma {:induction false} StateOfHistory(events: seq<Event>, n: nat)
    requires n <= |events|
    ensures forall target :: LatestRequester(StateAt(events, n).log, target) == AskedBy(events, n, target)
    ensures ClientsOk(events, n)
  {
    if n > 0 {
      var m := n - 1;
      StateOfHistory(events, m);
      ClientsStep(events, m, n);
      hide Next, CheckOf;
      forall target ensures LatestRequester(StateAt(events, n).log, target) == AskedBy(events, n, target) {
        RequesterStep(StateAt(events, m), events[m], target);
      }
    } else {
      assert forall target :: LatestRequester([], target) == None;
    }
  }

  ghost predicate ClientsOk(events: seq<Event>, n: nat)
    requires n <= |events|
  {
    && (forall client :: client in StateAt(events, n).checked <==> CheckOf(events, n, client).Some?)
    && (forall client | client in StateAt(events, n).checked ::
        var c := events[CheckOf(events, n, client).value];
        StateAt(events, n).checked[client] == Checked(c.target, c.agent, c.verdict))
  }

  lemma ClientsStep(events: seq<Event>, m: nat, n: nat)
    requires m + 1 == n <= |events| && ClientsOk(events, m)
    requires forall target :: LatestRequester(StateAt(events, m).log, target) == AskedBy(events, m, target)
    ensures ClientsOk(events, n)
  {
    hide LatestRequester, LatestVerdict, Judged, AskedBy;
    var s, e := StateAt(events, m), events[m];
    assert StateAt(events, n) == Next(s, e);
    if e.Check? {
      assert LatestRequester(s.log, e.target) == AskedBy(events, m, e.target);
    }
    forall client
      ensures client in Next(s, e).checked <==> CheckOf(events, n, client).Some?
      ensures client in Next(s, e).checked ==>
        var c := events[CheckOf(events, n, client).value];
        Next(s, e).checked[client] == Checked(c.target, c.agent, c.verdict)
    {
      assert client in s.checked <==> CheckOf(events, m, client).Some?;
    }
  }

  lemma RequesterStep(s: State, e: Event, target: string)
    ensures LatestRequester(Next(s, e).log, target)
      == if Asks(e, target) then AskerOf(e) else LatestRequester(s.log, target)
  {
    hide LatestRequester, LatestVerdict, Judged;
    match e
    case Ask(t, agent) => AppendReads(s.log, RequestRow(t, agent), target);
    case Check(_, _, _, _) =>
    case Post(client) =>
      if client in s.checked {
        var c := s.checked[client];
        JudgedReads(s.log, c.target, c.agent, c.verdict, target);
      }
    case Checklist(t, verdict) => JudgedReads(s.log, t, AUTO_REVIEWER, verdict, target);
    case Write(entry) => AppendReads(s.log, entry, target);
  }

  lemma VerdictStep(events: seq<Event>, m: nat, target: string)
    requires m < |events|
    ensures var before, after := StateAt(events, m).log, Next(StateAt(events, m), events[m]).log;
      LatestVerdict(after, target)
      == if Judges(events, m, target) then VerdictAt(events, m, target).value.verdict else LatestVerdict(before, target)
  {
    hide LatestRequester, LatestVerdict, Judged, CheckOf;
    StateOfHistory(events, m);
    var s := StateAt(events, m);
    match events[m]
    case Ask(t, agent) => AppendReads(s.log, RequestRow(t, agent), target);
    case Check(_, _, _, _) =>
    case Post(client) =>
      if client in s.checked {
        var c := s.checked[client];
        JudgedReads(s.log, c.target, c.agent, c.verdict, target);
      }
    case Checklist(t, verdict) => JudgedReads(s.log, t, AUTO_REVIEWER, verdict, target);
    case Write(entry) => AppendReads(s.log, entry, target);
  }

  lemma LastJudgedStep(events: seq<Event>, m: nat, n: nat, target: string)
    requires m + 1 == n <= |events|
    ensures Judges(events, m, target) ==>
      LastJudged(events, n, target, m) && forall k | LastJudged(events, n, target, k) :: k == m
    ensures !Judges(events, m, target) ==>
      forall k :: LastJudged(events, n, target, k) <==> LastJudged(events, m, target, k)
  {
    hide VerdictAt;
  }

  lemma NoHistory(events: seq<Event>, target: string)
    ensures LatestVerdict([], target).None? && forall k :: !LastJudged(events, 0, target, k)
  {
  }

  /**
   What a gate reads, over every interleaving of all the statements that write review rows: the
   verdict of the last event that wrote an active verdict row on the target, whoever wrote it.
   */
  lemma {:induction false} VerdictOfHistory(events: seq<Event>, n: nat, target: string)
    requires n <= |events|
    ensures (forall k :: !LastJudged(events, n, target, k)) ==> LatestVerdict(StateAt(events, n).log, target).None?
    ensures forall k | LastJudged(events, n, target, k) ::
      0 <= k < |events| && VerdictAt(events, k, target).Some?
      && LatestVerdict(StateAt(events, n).log, target) == VerdictAt(events, k, target).value.verdict
  {
    hide Next, LatestRequester, LatestVerdict, LastJudged, VerdictAt;
    if n > 0 {
      var m := n - 1;
      VerdictOfHistory(events, m, target);
      VerdictStep(events, m, target);
      LastJudgedStep(events, m, n, target);
    } else {
      NoHistory(events, target);
    }
  }

  // ---- The reviewers' list ----

  /** fetch_pending_requests lists the target. */
  ghost predicate Pending(log: Log, target: string) {
    exists i | 0 <= i < |log| :: IsOpen(log[i], target)
  }

  /** The event writes an open request for the target. */
  predicate Opens(e: Event, target: string) {
    (e.Ask? && e.target == target) || (e.Write? && IsOpen(e.entry, target))
  }

  /** Event k closes the open requests for the target. */
  predicate Parks(events: seq<Event>, k: int, target: string) {
    Judges(events, k, target) && !events[k].Write?
  }

  ghost predicate Unanswered(events: seq<Event>, n: int, target: string, k: int) {
    && 0 <= k < n <= |events| && Opens(events[k], target)
    && forall j | k < j < n :: !Parks(events, j, target)
  }

  lemma AppendPending(log: Log, e: Entry, target: string)
    ensures Pending(log + [e], target) <==> Pending(log, target) || IsOpen(e, target)
  {
    assert (log + [e])[|log|] == e;
    assert forall i | 0 <= i < |log| :: (log + [e])[i] == log[i];
  }

  lemma JudgedPending(log: Log, t: string, agent: string, verdict: string, target: string)
    ensures Pending(Judged(log, t, agent, verdict), target) <==> Pending(log, target) && t != target
  {
    var after := Judged(log, t, agent, verdict);
    assert forall i | 0 <= i < |log| :: after[i] == Closed(log[i], t);
    assert !IsOpen(after[|log|], target);
  }

  lemma PendingStep(events: seq<Event>, m: nat, target: string)
    requires m < |events|
    ensures var before, after := StateAt(events, m).log, Next(StateAt(events, m), events[m]).log;
      Pending(after, target) <==> Opens(events[m], target) || (Pending(before, target) && !Parks(events, m, target))
  {
    hide LatestRequester, LatestVerdict, Judged, CheckOf, Pending;
    StateOfHistory(events, m);
    var s := StateAt(events, m);
    match events[m]
    case Ask(t, agent) => AppendPending(s.log, RequestRow(t, agent), target);
    case Check(_, _, _, _) =>
    case Post(client) =>
      if client in s.checked {
        var c := s.checked[client];
        JudgedPending(s.log, c.target, c.agent, c.verdict, target);
      }
    case Checklist(t, verdict) => JudgedPending(s.log, t, AUTO_REVIEWER, verdict, target);
    case Write(entry) => AppendPending(s.log, entry, target);
  }

  lemma UnansweredStep(events: seq<Event>, m: nat, n: nat, target: string)
    requires m + 1 == n <= |events|
    ensures Opens(events[m], target) ==> Unanswered(events, n, target, m)
    ensures Parks(events, m, target) ==> forall k | Unanswered(events, n, target, k) :: k == m
    ensures !Opens(events[m], target) && !Parks(events, m, target) ==>
      forall k :: Unanswered(events, n, target, k) <==> Unanswered(events, m, target, k)
    ensures !Opens(events[m], target) && Parks(events, m, target) ==> forall k :: !Unanswered(events, n, target, k)
  {
    hide VerdictAt;
  }

  lemma NothingPending(events: seq<Event>, target: string)
    ensures !Pending([], target) && forall k :: !Unanswered(events, 0, target, k)
  {
  }

  /**
   A target waits for a reviewer exactly when an open request was written for it and no verdict
   was posted or computed since; a verdict written through POST /journal leaves it waiting.
   */
  lemma {:induction false} PendingOfHistory(events: seq<Event>, n: nat, target: string)
    requires n <= |events|
    ensures Pending(StateAt(events, n).log, target) <==> exists k :: Unanswered(events, n, target, k)
  {
    hide Next, LatestRequester, Pending, Unanswered, VerdictAt;
    if n > 0 {
      var m := n - 1;
      PendingOfHistory(events, m, target);
      PendingStep(events, m, target);
      UnansweredStep(events, m, n, target);
    } else {
      NothingPending(events, target);
    }
  }

  // ---- When a verdict is independent ----

  /** The author of the verdict that event k writes is not the one who asked for it last. */
  predicate Independent(events: seq<Event>, k: nat, target: string)
    requires k < |events| && VerdictAt(events, k, target).Some?
  {
    AskedBy(events, k, target) != Some(VerdictAt(events, k, target).value.author)
  }

  /** Event j wrote the last request for the target after event c and before k, in this agent's name. */
  predicate LastAskBetween(events: seq<Event>, c: int, j: int, k: int, target: string, agent: string) {
    && -1 <= c < j < k <= |events| && Asks(events[j], target) && AskerOf(events[j]) == Some(agent)
    && forall i | j < i < k :: !Asks(events[i], target)
  }

  lemma {:induction false} AskedSince(events: seq<Event>, c: int, k: nat, target: string, agent: string)
    requires -1 <= c < k <= |events|
    requires c >= 0 ==> events[c].Check? && AskedBy(events, c, target) != Some(agent)
    ensures AskedBy(events, k, target) == Some(agent) <==> exists j :: LastAskBetween(events, c, j, k, target, agent)
  {
    if k == c + 1 {
      assert c >= 0 ==> AskedBy(events, k, target) == AskedBy(events, c, target);
    } else {
      var m := k - 1;
      AskedSince(events, c, m, target, agent);
      if Asks(events[m], target) {
        assert AskerOf(events[m]) == Some(agent) ==> LastAskBetween(events, c, m, k, target, agent);
        assert forall j | LastAskBetween(events, c, j, k, target, agent) :: j == m;
      } else {
        forall j
          ensures LastAskBetween(events, c, j, k, target, agent) <==> LastAskBetween(events, c, j, m, target, agent)
        {
        }
      }
    }
  }

  /** The check that the verdict written by event k relies on; -1 for the writers that do not check. */
  function CheckIndex(events: seq<Event>, k: nat): int
    requires k < |events| && (events[k].Post? ==> CheckOf(events, k, events[k].client).Some?)
  {
    if events[k].Post? then CheckOf(events, k, events[k].client).value else -1
  }

  /** Since the check, or ever if there was none, the latest request to land is not in the author's name. */
  ghost predicate Guarded(events: seq<Event>, k: nat, target: string)
    requires k < |events| && VerdictAt(events, k, target).Some?
  {
    var author := VerdictAt(events, k, target).value.author;
    !exists j :: LastAskBetween(events, CheckIndex(events, k), j, k, target, author)
  }

  /** The verdict a gate reads was given by somebody other than the latest to ask if and only if the guard held. */
  lemma IndependentIff(events: seq<Event>, n: nat, target: string, k: nat)
    requires n <= |events| && LastJudged(events, n, target, k)
    ensures Independent(events, k, target) <==> Guarded(events, k, target)
  {
    AskedSince(events, CheckIndex(events, k), k, target, VerdictAt(events, k, target).value.author);
  }

  /** Event j opened a request in this agent's name, and it is still open at time n. */
  ghost predicate OwnOpen(events: seq<Event>, n: int, target: string, agent: string, j: int) {
    Unanswered(events, n, target, j) && AskerOf(events[j]) == Some(agent)
  }

  /** The verdict that event k writes answers a request of its own author. */
  ghost predicate AnswersOwn(events: seq<Event>, k: nat, target: string)
    requires k < |events| && VerdictAt(events, k, target).Some?
  {
    exists j :: OwnOpen(events, k, target, VerdictAt(events, k, target).value.author, j)
  }

  /** No verdict closes requests for the target from event c up to event k. */
  ghost predicate NothingParked(events: seq<Event>, c: int, k: int, target: string) {
    forall i | c <= i < k :: !Parks(events, i, target)
  }

  /**
   The check of POST /reviews compares with the latest request only. A posted verdict answers a
   request of its own author exactly when the author had an open request at the check, which no
   other verdict has closed since, or opened one between check and insert that is still open.
   */
  lemma AnswersOwnIff(events: seq<Event>, k: nat, target: string)
    requires k < |events| && events[k].Post? && VerdictAt(events, k, target).Some?
    ensures var c := CheckIndex(events, k);
      var agent := events[c].agent;
      AnswersOwn(events, k, target) <==>
        || (NothingParked(events, c, k, target) && exists j :: OwnOpen(events, c, target, agent, j))
        || exists j | c < j :: OwnOpen(events, k, target, agent, j)
  {
    hide Parks;
    var c := CheckIndex(events, k);
    var agent := events[c].agent;
    assert VerdictAt(events, k, target).value.author == agent;
    forall j | j <= c
      ensures OwnOpen(events, k, target, agent, j)
         <==> NothingParked(events, c, k, target) && OwnOpen(events, c, target, agent, j)
    {
      OpenAcross(events, c, k, target, agent, j);
    }
    forall j | OwnOpen(events, c, target, agent, j) ensures j <= c {
    }
  }

  lemma OpenAcross(events: seq<Event>, c: nat, k: nat, target: string, agent: string, j: int)
    requires j <= c < k <= |events| && events[c].Check?
    ensures OwnOpen(events, k, target, agent, j)
       <==> NothingParked(events, c, k, target) && OwnOpen(events, c, target, agent, j)
  {
    hide Parks;
  }

  /** An open request row in this agent's name: what a query could look for before the insert. */
  ghost predicate PendingBy(log: Log, target: string, agent: string) {
    exists i | 0 <= i < |log| :: IsOpenBy(log[i], target, agent)
  }

  predicate IsOpenBy(e: Entry, target: string, agent: string) {
    IsOpen(e, target) && e.requestedBy == Some(agent)
  }

  lemma AppendPendingBy(log: Log, e: Entry, target: string, agent: string)
    ensures PendingBy(log + [e], target, agent) <==> PendingBy(log, target, agent) || IsOpenBy(e, target, agent)
  {
    assert (log + [e])[|log|] == e;
    assert forall i | 0 <= i < |log| :: (log + [e])[i] == log[i];
  }

  lemma JudgedPendingBy(log: Log, t: string, judge: string, verdict: string, target: string, agent: string)
    ensures PendingBy(Judged(log, t, judge, verdict), target, agent) <==> PendingBy(log, target, agent) && t != target
  {
    var after := Judged(log, t, judge, verdict);
    assert forall i | 0 <= i < |log| :: after[i] == Closed(log[i], t);
    assert !IsOpenBy(after[|log|], target, agent);
  }

  lemma PendingByStep(events: seq<Event>, m: nat, target: string, agent: string)
    requires m < |events|
    ensures var before, after := StateAt(events, m).log, Next(StateAt(events, m), events[m]).log;
      PendingBy(after, target, agent) <==>
        || (Opens(events[m], target) && AskerOf(events[m]) == Some(agent))
        || (PendingBy(before, target, agent) && !Parks(events, m, target))
  {
    hide LatestRequester, LatestVerdict, Judged, CheckOf, PendingBy;
    StateOfHistory(events, m);
    var s := StateAt(events, m);
    match events[m]
    case Ask(t, a) => AppendPendingBy(s.log, RequestRow(t, a), target, agent);
    case Check(_, _, _, _) =>
    case Post(client) =>
      if client in s.checked {
        var c := s.checked[client];
        JudgedPendingBy(s.log, c.target, c.agent, c.verdict, target, agent);
      }
    case Checklist(t, verdict) => JudgedPendingBy(s.log, t, AUTO_REVIEWER, verdict, target, agent);
    case Write(entry) => AppendPendingBy(s.log, entry, target, agent);
  }

  lemma OwnOpenStep(events: seq<Event>, m: nat, n: nat, target: string, agent: string)
    requires m + 1 == n <= |events|
    ensures (exists j :: OwnOpen(events, n, target, agent, j)) <==>
      || (Opens(events[m], target) && AskerOf(events[m]) == Some(agent))
      || (!Parks(events, m, target) && exists j :: OwnOpen(events, m, target, agent, j))
  {
    hide Parks;
    if Opens(events[m], target) && AskerOf(events[m]) == Some(agent) {
      assert OwnOpen(events, n, target, agent, m);
    }
    forall j | j < m
      ensures OwnOpen(events, n, target, agent, j)
        <==> !Parks(events, m, target) && OwnOpen(events, m, target, agent, j)
    {
    }
    assert forall j | OwnOpen(events, n, target, agent, j) :: j <= m;
    assert forall j | OwnOpen(events, m, target, agent, j) :: j < m;
  }

  lemma NothingOwn(events: seq<Event>, target: string, agent: string)
    ensures !PendingBy([], target, agent) && forall j :: !OwnOpen(events, 0, target, agent, j)
  {
  }

  /** So a verdict answers its author's own request exactly when such a row is in the journal at the insert. */
  lemma {:induction false} PendingByOfHistory(events: seq<Event>, n: nat, target: string, agent: string)
    requires n <= |events|
    ensures PendingBy(StateAt(events, n).log, target, agent) <==> exists j :: OwnOpen(events, n, target, agent, j)
  {
    hide Next, LatestRequester, PendingBy, OwnOpen, VerdictAt;
    if n > 0 {
      var m := n - 1;
      PendingByOfHistory(events, m, target, agent);
      PendingByStep(events, m, target, agent);
      OwnOpenStep(events, m, n, target, agent);
    } else {
      NothingOwn(events, target, agent);
    }
  }

  predicate Pairs(events: seq<Event>, c: int, k: int) {
    0 <= c < k < |events| && events[k].Post? && CheckOf(events, k, events[k].client) == Some(c)
  }

  /**
   Nobody writes review rows through POST /journal or asks under the checklist's name, no agent
   checks a verdict while it has an open request of its own for the target, and none asks for a
   target between its own check and its post.
   */
  ghost predicate Orderly(events: seq<Event>) {
    && (forall k | 0 <= k < |events| && events[k].Write? ::
        forall target :: !IsRequest(events[k].entry, target) && !IsVerdict(events[k].entry, target))
    && (forall k | 0 <= k < |events| && events[k].Ask? :: events[k].agent != AUTO_REVIEWER)
    && (forall c, k | Pairs(events, c, k) :: forall j :: !OwnOpen(events, c, events[c].target, events[c].agent, j))
    && (forall c, j, k | 0 <= c < j < k < |events| && Pairs(events, c, k) && events[j].Ask? ::
        events[j].agent != events[c].agent || events[j].target != events[c].target)
  }

  lemma {:induction false} AutoNeverAsks(events: seq<Event>, n: nat, target: string)
    requires n <= |events| && Orderly(events)
    ensures AskedBy(events, n, target) != Some(AUTO_REVIEWER)
    ensures forall j :: !OwnOpen(events, n, target, AUTO_REVIEWER, j)
  {
    hide Parks;
    if n > 0 {
      AutoNeverAsks(events, n - 1, target);
    }
  }

  lemma NoAskBetween(events: seq<Event>, c: nat, j: int, k: nat, target: string)
    requires Orderly(events) && Pairs(events, c, k) && events[c].Check? && events[c].target == target
    ensures !LastAskBetween(events, c, j, k, target, events[c].agent)
    ensures c < j ==> !OwnOpen(events, k, target, events[c].agent, j)
  {
    hide Parks;
  }

  /**
   In an orderly history no verdict that a gate reads is by the latest to ask, and none answers a
   request of its own author.
   */
  lemma OrderlyIsIndependent(events: seq<Event>, n: nat, target: string, k: nat)
    requires n <= |events| && Orderly(events) && LastJudged(events, n, target, k)
    ensures Independent(events, k, target) && !AnswersOwn(events, k, target)
  {
    IndependentIff(events, n, target, k);
    match events[k]
    case Post(client) =>
      var c := CheckOf(events, k, client).value;
      assert Pairs(events, c, k);
      forall j
        ensures !LastAskBetween(events, c, j, k, target, events[c].agent)
        ensures c < j ==> !OwnOpen(events, k, target, events[c].agent, j)
      {
        NoAskBetween(events, c, j, k, target);
      }
      AnswersOwnIff(events, k, target);
    case Checklist(_, _) => AutoNeverAsks(events, k, target);
    case Write(entry) =>
  }

  /**
   An agent passes its own request: through POST /journal, and through POST /reviews by asking
   between check and post.
   */
  lemma SelfApproval()
    ensures var verdict :=
        Entry("STRATEGY_OUTCOME", "ACTIVE", Some("review_verdict"), Some("t"), None, Some("APPROVED"), "a");
      var byJournal := [Ask("t", "a"), Write(verdict)];
      && LatestVerdict(StateAt(byJournal, 2).log, "t") == Some("APPROVED")
      && LastJudged(byJournal, 2, "t", 1) && !Independent(byJournal, 1, "t")
    ensures var byRace := [Check(0, "t", "a", "APPROVED"), Ask("t", "a"), Post(0)];
      && LatestVerdict(StateAt(byRace, 3).log, "t") == Some("APPROVED")
      && LastJudged(byRace, 3, "t", 2) && !Independent(byRace, 2, "t")
  {
    var byJournal := [Ask("t", "a"), Write(VerdictRow("t", "a", "APPROVED"))];
    assert AskedBy(byJournal, 1, "t") == Some("a");
    VerdictOfHistory(byJournal, 2, "t");
    assert LastJudged(byJournal, 2, "t", 1);
    var byRace := [Check(0, "t", "a", "APPROVED"), Ask("t", "a"), Post(0)];
    assert AskedBy(byRace, 0, "t") == None && AskedBy(byRace, 1, "t") == None && AskedBy(byRace, 2, "t") == Some("a");
    assert CheckOf(byRace, 1, 0) == Some(0) && CheckOf(byRace, 2, 0) == Some(0);
    VerdictOfHistory(byRace, 3, "t");
    assert LastJudged(byRace, 3, "t", 2);
  }

  /**
   The check holds and the verdict still answers its author's own request: a asks, then b asks for
   the same target, and a approves. The gate reads the approval and a's request is closed.
   */
  lemma SecondAskerHidesFirst()
    ensures var events := [Ask("t", "a"), Ask("t", "b"), Check(0, "t", "a", "APPROVED"), Post(0)];
      && LastJudged(events, 4, "t", 3) && LatestVerdict(StateAt(events, 4).log, "t") == Some("APPROVED")
      && Independent(events, 3, "t") && AnswersOwn(events, 3, "t")
  {
    hide LatestVerdict, StateAt, LastJudged, OwnOpen, VerdictAt, AskedBy;
    var events := [Ask("t", "a"), Ask("t", "b"), Check(0, "t", "a", "APPROVED"), Post(0)];
    SecondAskerReads(events);
    VerdictOfHistory(events, 4, "t");
    assert OwnOpen(events, 3, "t", "a", 0);
  }

  lemma SecondAskerReads(events: seq<Event>)
    requires events == [Ask("t", "a"), Ask("t", "b"), Check(0, "t", "a", "APPROVED"), Post(0)]
    ensures AskedBy(events, 3, "t") == Some("b")
    ensures VerdictAt(events, 3, "t") == Some(VerdictRow("t", "a", "APPROVED"))
    ensures LastJudged(events, 4, "t", 3) && OwnOpen(events, 3, "t", "a", 0)
  {
    assert AskedBy(events, 2, "t") == Some("b") && AskedBy(events, 3, "t") == Some("b");
    assert CheckOf(events, 3, 0) == Some(2);
    hide AskedBy, CheckOf;
    assert VerdictAt(events, 3, "t") == Some(VerdictRow("t", "a", "APPROVED"));
    assert !Parks(events, 1, "t") && !Parks(events, 2, "t");
  }

  class ReviewJournal {
    var entries: Log
    var checked: map<ClientId, Checked>

    function Snapshot(): State
      reads this
    {
      State(entries, checked)
    }

    constructor ()
      ensures Snapshot() == EMPTY
    {
      entries, checked := [], map[];
    }

    /** insert_review_request */
    method InsertReviewRequest(target: string, agent: string)
      modifies this
      ensures Snapshot() == Next(old(Snapshot()), Ask(target, agent))
      ensures entries == old(entries) + [
        Entry("IDEA_BACKLOG", "ACTIVE", Some("review_request"), Some(target), Some(agent), None, agent)]
      ensures checked == old(checked)
      ensures Pending(entries, target) && LatestRequester(entries, target) == Some(agent)
    {
      AppendPending(entries, RequestRow(target, agent), target);
      AppendReads(entries, RequestRow(target, agent), target);
      entries := entries + [RequestRow(target, agent)];
    }

    /** The first statement of POST /reviews. False is self_review_forbidden. */
    method CheckRequester(client: ClientId, target: string, agent: string, verdict: string) returns (ok: bool)
      modifies this
      ensures Snapshot() == Next(old(Snapshot()), Check(client, target, agent, verdict))
      ensures ok <==> client in checked
      ensures ok <==> LatestRequester(entries, target) != Some(agent)
      ensures entries == old(entries)
      ensures checked == if ok then old(checked)[client := Checked(target, agent, verdict)] else old(checked) - {client}
    {
      checked := checked - {client};
      ok := LatestRequester(entries, target) != Some(agent);
      if ok {
        checked := checked[client := Checked(target, agent, verdict)];
      }
    }

    /** insert_review_verdict for a verdict that passed the check */
    method InsertReviewVerdict(client: ClientId)
      requires client in checked
      modifies this
      ensures Snapshot() == Next(old(Snapshot()), Post(client))
      ensures var c := old(checked)[client];
        LatestVerdict(entries, c.target) == Some(c.verdict) && !Pending(entries, c.target)
      ensures |entries| == |old(entries)| + 1 && checked == old(checked) - {client}
      ensures var c := old(checked)[client];
        entries[|old(entries)|] ==
        Entry("STRATEGY_OUTCOME", "ACTIVE", Some("review_verdict"), Some(c.target), None, Some(c.verdict), c.agent)
      ensures forall i | 0 <= i < |old(entries)| ::
        var e := old(entries)[i];
        (entries[i] ==
         if e.entryType == "IDEA_BACKLOG" && e.status == "ACTIVE" && e.kind == Some("review_request")
            && e.target == Some(old(checked)[client].target)
         then e.(status := "PARKED") else e)
    {
      var c := checked[client];
      JudgedReads(entries, c.target, c.agent, c.verdict, c.target);
      JudgedPending(entries, c.target, c.agent, c.verdict, c.target);
      entries := Parked(entries, c.target) + [VerdictRow(c.target, c.agent, c.verdict)];
      checked := checked - {client};
    }

    /** POST /reviews/auto-run-checklist, with the verdict the checklist computed */
    method AutoRunChecklist(target: string, verdict: string)
      modifies this
      ensures Snapshot() == Next(old(Snapshot()), Checklist(target, verdict))
      ensures LatestVerdict(entries, target) == Some(verdict) && !Pending(entries, target)
      ensures |entries| == |old(entries)| + 1 && checked == old(checked)
      ensures entries[|old(entries)|] ==
        Entry("STRATEGY_OUTCOME", "ACTIVE", Some("review_verdict"), Some(target), None, Some(verdict),
              "research-orchestrator-auto-reviewer")
      ensures forall i | 0 <= i < |old(entries)| ::
        var e := old(entries)[i];
        (entries[i] ==
         if e.entryType == "IDEA_BACKLOG" && e.status == "ACTIVE" && e.kind == Some("review_request")
            && e.target == Some(target)
         then e.(status := "PARKED") else e)
    {
      JudgedReads(entries, target, AUTO_REVIEWER, verdict, target);
      JudgedPending(entries, target, AUTO_REVIEWER, verdict, target);
      entries := Parked(entries, target) + [VerdictRow(target, AUTO_REVIEWER, verdict)];
    }

    /** insert_journal: any row */
    method InsertJournal(entry: Entry)
      modifies this
      ensures Snapshot() == Next(old(Snapshot()), Write(entry))
      ensures entries == old(entries) + [entry] && checked == old(checked)
    {
      entries := entries + [entry];
    }
  }
}
