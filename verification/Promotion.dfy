/**
 Model promotion: repo/models.py and the promote handler of api/models.py. A client reads the
 status, validates the transition and then updates with the status it read as the expected
 one. Any number of clients interleave these two steps.
 */
module Promotion {
  import opened Wrappers

  type ModelId = nat
  type ClientId = nat

  datatype Status =
    | TRAINING | TRAINED | AWAITING_OPERATOR_REVIEW | STAGED | SHADOW | COOLING_DOWN | LIVE | RETIRED
    | REJECTED_BY_OPERATOR

  // _PROMOTION_TRANSITIONS
  function Transitions(s: Status): set<Status> {
    match s
    case AWAITING_OPERATOR_REVIEW => {TRAINED, REJECTED_BY_OPERATOR}
    case TRAINED => {STAGED, REJECTED_BY_OPERATOR}
    case STAGED => {SHADOW, RETIRED}
    case SHADOW => {COOLING_DOWN, RETIRED}
    case COOLING_DOWN => {LIVE, RETIRED}
    case LIVE => {RETIRED}
    case REJECTED_BY_OPERATOR => {RETIRED}
    case _ => {}
  }

  datatype Gauntlet = NoGauntlet | Passed | NotPassed

  // _derive_status
  function DeriveStatus(gauntlet: Gauntlet, deploymentReady: bool): Status {
    match gauntlet
    case NoGauntlet => TRAINING
    case Passed => if deploymentReady then TRAINED else AWAITING_OPERATOR_REVIEW
    case NotPassed => REJECTED_BY_OPERATOR
  }

  datatype Verdict = Proceed | Noop | Terminal | Invalid(valid: set<Status>)

  // validate_transition
  function ValidateTransition(current: Status, target: Status): Verdict {
    if current == target then Noop
    else if target in Transitions(current) then Proceed
    else if Transitions(current) == {} then Terminal
    else Invalid(Transitions(current))
  }

  /** A client between its read and its update. */
  datatype Pending = Pending(model: ModelId, seen: Status, target: Status)

  /** What the model was registered with, and every status it has had, the current one last. */
  datatype Model = Model(gauntlet: Gauntlet, ready: bool, history: seq<Status>) {
    function Current(): Status
      requires history != []
    {
      history[|history| - 1]
    }
  }

  datatype State = State(models: map<ModelId, Model>, pending: map<ClientId, Pending>)

  datatype Event =
    | Register(model: ModelId, gauntlet: Gauntlet, deploymentReady: bool)
    | Read(client: ClientId, model: ModelId, target: Status)
    | CompareAndSet(client: ClientId)

  predicate Succeeds(s: State, client: ClientId) {
    && client in s.pending && s.pending[client].model in s.models
    && s.models[s.pending[client].model].history != []
    && s.models[s.pending[client].model].Current() == s.pending[client].seen
  }

  function Next(s: State, e: Event): State {
    match e
    case Register(m, gauntlet, ready) =>
      if m in s.models then s
      else s.(models := s.models[m := Model(gauntlet, ready, [DeriveStatus(gauntlet, ready)])])
    case Read(client, m, target) =>
      if m in s.models && s.models[m].history != [] && ValidateTransition(s.models[m].Current(), target) == Proceed
      then s.(pending := s.pending[client := Pending(m, s.models[m].Current(), target)])
      else s.(pending := s.pending - {client})
    case CompareAndSet(client) =>
      if !Succeeds(s, client) then s.(pending := s.pending - {client})
      else
        var p := s.pending[client];
        var model := s.models[p.model];
        State(s.models[p.model := model.(history := model.history + [p.target])], s.pending - {client})
  }

  function StateAt(s: State, events: seq<Event>, i: nat): State
    requires i <= |events|
  {
    if i == 0 then s else Next(StateAt(s, events, i - 1), events[i - 1])
  }

  const EMPTY := State(map[], map[])

  // ---- Histories are paths ----

  ghost predicate IsPath(history: seq<Status>) {
    forall k | 0 <= k < |history| - 1 :: history[k + 1] in Transitions(history[k])
  }

  ghost predicate ModelOk(m: Model) {
    m.history != [] && IsPath(m.history) && m.history[0] == DeriveStatus(m.gauntlet, m.ready)
  }

  ghost predicate Inv(s: State) {
    && (forall m | m in s.models :: ModelOk(s.models[m]))
    && (forall c | c in s.pending :: s.pending[c].target in Transitions(s.pending[c].seen))
  }

  lemma NextKeepsInv(s: State, e: Event)
    requires Inv(s)
    ensures Inv(Next(s, e))
  {
    match e
    case Register(m, gauntlet, ready) =>
      assert ModelOk(Model(gauntlet, ready, [DeriveStatus(gauntlet, ready)]));
    case Read(client, m, target) =>
    case CompareAndSet(client) =>
      if Succeeds(s, client) {
        var p := s.pending[client];
        var model := s.models[p.model];
        var longer := model.(history := model.history + [p.target]);
        assert ModelOk(model);
        assert ModelOk(longer);
      }
  }

  /**
   Under any interleaving, every model's status history is a path of the transition graph from its
   registered status.
   */
  lemma {:induction false} HistoriesArePaths(events: seq<Event>, i: nat)
    requires i <= |events|
    ensures Inv(StateAt(EMPTY, events, i))
  {
    if i > 0 {
      HistoriesArePaths(events, i - 1);
      NextKeepsInv(StateAt(EMPTY, events, i - 1), events[i - 1]);
    }
  }

  function Rank(s: Status): nat {
    match s
    case AWAITING_OPERATOR_REVIEW => 6
    case TRAINED => 5
    case STAGED => 4
    case SHADOW => 3
    case COOLING_DOWN => 2
    case LIVE => 1
    case REJECTED_BY_OPERATOR => 1
    case RETIRED => 0
    case TRAINING => 0
  }

  /** Each applied step lowers the rank, so a path has at most six steps and never repeats a status. */
  lemma {:induction false} PathDescends(history: seq<Status>, i: nat, j: nat)
    requires IsPath(history) && i <= j < |history|
    ensures Rank(history[j]) + (j - i) <= Rank(history[i])
  {
    if i < j {
      PathDescends(history, i, j - 1);
      assert history[j - 1 + 1] in Transitions(history[j - 1]);
    }
  }

  lemma AtMostSixSteps(events: seq<Event>, i: nat, m: ModelId)
    requires i <= |events| && m in StateAt(EMPTY, events, i).models
    ensures var history := StateAt(EMPTY, events, i).models[m].history;
      && 1 <= |history| <= 7
      && forall a, b | 0 <= a < b < |history| :: history[a] != history[b]
  {
    HistoriesArePaths(events, i);
    var history := StateAt(EMPTY, events, i).models[m].history;
    assert ModelOk(StateAt(EMPTY, events, i).models[m]);
    PathDescends(history, 0, |history| - 1);
    forall a, b | 0 <= a < b < |history| ensures history[a] != history[b] {
      PathDescends(history, a, b);
    }
  }

  /** The only way from a registered status to a status that trades or may still trade. */
  function RoadTo(first: Status, s: Status): seq<Status> {
    (if first == AWAITING_OPERATOR_REVIEW then [AWAITING_OPERATOR_REVIEW] else [])
    + match s
      case TRAINED => [TRAINED]
      case STAGED => [TRAINED, STAGED]
      case SHADOW => [TRAINED, STAGED, SHADOW]
      case COOLING_DOWN => [TRAINED, STAGED, SHADOW, COOLING_DOWN]
      case LIVE => [TRAINED, STAGED, SHADOW, COOLING_DOWN, LIVE]
      case _ => []
  }

  predicate OnRoad(s: Status) {
    s == TRAINED || s == AWAITING_OPERATOR_REVIEW || s == STAGED || s == SHADOW || s == COOLING_DOWN || s == LIVE
  }

  predicate Registered(s: Status) {
    s == TRAINING || s == TRAINED || s == AWAITING_OPERATOR_REVIEW || s == REJECTED_BY_OPERATOR
  }

  lemma RoadStep(first: Status, s: Status, t: Status)
    requires OnRoad(t) && t in Transitions(s)
    ensures OnRoad(s) && RoadTo(first, t) == RoadTo(first, s) + [t]
  {
  }

  lemma PathPrefix(history: seq<Status>, n: nat)
    requires IsPath(history) && n <= |history|
    ensures IsPath(history[..n])
  {
    forall k | 0 <= k < n - 1 ensures history[..n][k + 1] in Transitions(history[..n][k]) {
      assert history[k + 1] in Transitions(history[k]);
    }
  }

  lemma {:induction false} OneRoad(history: seq<Status>)
    requires history != [] && IsPath(history) && OnRoad(history[|history| - 1]) && Registered(history[0])
    ensures OnRoad(history[0]) && history == RoadTo(history[0], history[|history| - 1])
    decreases |history|
  {
    var n := |history|;
    if n == 1 {
      assert history == [history[0]];
    } else {
      assert history[n - 2 + 1] in Transitions(history[n - 2]);
      RoadStep(history[0], history[n - 2], history[n - 1]);
      PathPrefix(history, n - 1);
      OneRoad(history[..n - 1]);
      assert history == history[..n - 1] + [history[n - 1]];
    }
  }

  /** After live only retired can follow, once. */
  lemma AfterLive(history: seq<Status>, k: nat)
    requires IsPath(history) && k < |history| && history[k] == LIVE
    ensures |history| == k + 1 || (|history| == k + 2 && history[k + 1] == RETIRED)
  {
    PathDescends(history, k, |history| - 1);
    if k + 1 < |history| {
      assert history[k + 1] in Transitions(history[k]);
    }
  }

  /**
   A model that is or was live has passed the gauntlet, and its whole history is trained,
   staged, shadow, cooling_down, live in this order, before at most a retirement and after an
   operator review exactly if it was registered without being ready for deployment; so a
   rejected or untested model never becomes live.
   */
  lemma LiveRoad(events: seq<Event>, i: nat, m: ModelId)
    requires i <= |events| && m in StateAt(EMPTY, events, i).models
    requires LIVE in StateAt(EMPTY, events, i).models[m].history
    ensures var model := StateAt(EMPTY, events, i).models[m];
      var review := if model.ready then [] else [AWAITING_OPERATOR_REVIEW];
      var toLive := review + [TRAINED, STAGED, SHADOW, COOLING_DOWN, LIVE];
      && model.gauntlet == Passed
      && (model.history == toLive || model.history == toLive + [RETIRED])
  {
    HistoriesArePaths(events, i);
    var model := StateAt(EMPTY, events, i).models[m];
    assert ModelOk(model);
    LiveHistory(model.history);
  }

  lemma LiveHistory(history: seq<Status>)
    requires IsPath(history) && LIVE in history && Registered(history[0])
    ensures OnRoad(history[0])
    ensures history == RoadTo(history[0], LIVE) || history == RoadTo(history[0], LIVE) + [RETIRED]
  {
    var k :| 0 <= k < |history| && history[k] == LIVE;
    PathPrefix(history, k + 1);
    OneRoad(history[..k + 1]);
    AfterLive(history, k);
    assert history == history[..k + 1] + history[k + 1..];
  }

  /** The stages on the way to trading, in order. */
  const ROAD := [AWAITING_OPERATOR_REVIEW, TRAINED, STAGED, SHADOW, COOLING_DOWN, LIVE]

  /**
   A promotion is valid exactly if it is one stage forward, or gives the model up: by rejection
   before it is staged, by retirement from then on or after a rejection. In flight or retired
   it is stuck.
   */
  lemma TransitionIff(s: Status, t: Status)
    ensures ValidateTransition(s, t) == Proceed <==>
      || (exists k :: 0 <= k < 5 && s == ROAD[k] && t == ROAD[k + 1])
      || (t == REJECTED_BY_OPERATOR && s in {AWAITING_OPERATOR_REVIEW, TRAINED})
      || (t == RETIRED && s in {STAGED, SHADOW, COOLING_DOWN, LIVE, REJECTED_BY_OPERATOR})
    ensures ValidateTransition(s, t) == Noop <==> s == t
    ensures ValidateTransition(s, t) == Terminal <==> s != t && s in {TRAINING, RETIRED}
    ensures ValidateTransition(s, t).Invalid? ==>
      forall u :: u in ValidateTransition(s, t).valid <==> ValidateTransition(s, u) == Proceed
  {
    forall k: nat | k < 5 && s == ROAD[k] && t == ROAD[k + 1]
      ensures ValidateTransition(s, t) == Proceed
    {
    }
    if ValidateTransition(s, t) == Proceed && OnRoad(t) {
      var k :=
        match s
        case AWAITING_OPERATOR_REVIEW => 0
        case TRAINED => 1
        case STAGED => 2
        case SHADOW => 3
        case _ => 4;
      assert s == ROAD[k] && t == ROAD[k + 1];
    }
  }

  // ---- Comparing values is as good as comparing versions ----

  lemma {:induction false} HistoryGrows(s: State, events: seq<Event>, i: nat, n: nat, m: ModelId)
    requires i <= n <= |events| && m in StateAt(s, events, i).models
    ensures m in StateAt(s, events, n).models
    ensures StateAt(s, events, i).models[m].history <= StateAt(s, events, n).models[m].history
  {
    if i < n {
      HistoryGrows(s, events, i, n - 1, m);
    }
  }

  /**
   No ABA: statuses never come back, so if the update of a client succeeds, no other client
   has changed the model since this client read it.
   */
  lemma SuccessMeansUntouched(events: seq<Event>, i: nat, n: nat, client: ClientId)
    requires i < n <= |events| && events[i].Read? && events[i].client == client
    requires client in StateAt(EMPTY, events, i + 1).pending
    requires client in StateAt(EMPTY, events, n).pending
    requires StateAt(EMPTY, events, n).pending[client] == StateAt(EMPTY, events, i + 1).pending[client]
    ensures events[i].model in StateAt(EMPTY, events, i).models
    ensures Succeeds(StateAt(EMPTY, events, n), client) <==>
      StateAt(EMPTY, events, n).models.Keys >= {events[i].model}
      && StateAt(EMPTY, events, n).models[events[i].model].history
        == StateAt(EMPTY, events, i).models[events[i].model].history
  {
    var m := events[i].model;
    HistoriesArePaths(events, i);
    HistoriesArePaths(events, n);
    HistoryGrows(EMPTY, events, i, n, m);
    var before, now := StateAt(EMPTY, events, i).models[m].history, StateAt(EMPTY, events, n).models[m].history;
    assert ModelOk(StateAt(EMPTY, events, n).models[m]) && ModelOk(StateAt(EMPTY, events, i).models[m]);
    if before != now {
      assert now[|before| - 1] == before[|before| - 1];
      PathDescends(now, |before| - 1, |now| - 1);
    }
  }

  // ---- The registry as an object ----

  class Registry {
    var models: map<ModelId, Model>
    var pending: map<ClientId, Pending>

    function Snapshot(): State
      reads this
    {
      State(models, pending)
    }

    constructor ()
      ensures Snapshot() == EMPTY && Inv(Snapshot())
    {
      models, pending := map[], map[];
    }

    /** insert_model with the status register_model derives */
    method InsertModel(m: ModelId, gauntlet: Gauntlet, deploymentReady: bool)
      requires m !in models && Inv(Snapshot())
      modifies this
      ensures Snapshot() == Next(old(Snapshot()), Register(m, gauntlet, deploymentReady)) && Inv(Snapshot())
      ensures models.Keys == old(models.Keys) + {m} && |models[m].history| == 1
      ensures models[m].gauntlet == gauntlet && models[m].ready == deploymentReady
      ensures gauntlet == NoGauntlet ==> models[m].history == [TRAINING]
      ensures gauntlet == NotPassed ==> models[m].history == [REJECTED_BY_OPERATOR]
      ensures gauntlet == Passed && deploymentReady ==> models[m].history == [TRAINED]
      ensures gauntlet == Passed && !deploymentReady ==> models[m].history == [AWAITING_OPERATOR_REVIEW]
    {
      NextKeepsInv(Snapshot(), Register(m, gauntlet, deploymentReady));
      models := models[m := Model(gauntlet, deploymentReady, [DeriveStatus(gauntlet, deploymentReady)])];
    }

    /** The first half of promote_model: read and validate. None means the model is unknown. */
    method ReadAndValidate(client: ClientId, m: ModelId, target: Status) returns (verdict: Option<Verdict>)
      requires Inv(Snapshot())
      modifies this
      ensures Snapshot() == Next(old(Snapshot()), Read(client, m, target)) && Inv(Snapshot())
      ensures verdict.None? <==> m !in models
      ensures verdict.Some? ==>
        models[m].history != [] && verdict.value == ValidateTransition(models[m].Current(), target)
      ensures client in pending <==> verdict == Some(Proceed)
    {
      NextKeepsInv(Snapshot(), Read(client, m, target));
      pending := pending - {client};
      if m !in models {
        return None;
      }
      assert ModelOk(models[m]);
      var current := models[m].Current();
      var v := ValidateTransition(current, target);
      if v == Proceed {
        pending := pending[client := Pending(m, current, target)];
      }
      verdict := Some(v);
    }

    /** The second half: update_status with the status that was read as the expected one. None is a conflict. */
    method UpdateStatus(client: ClientId) returns (updated: Option<Status>)
      requires client in pending && Inv(Snapshot())
      modifies this
      ensures Snapshot() == Next(old(Snapshot()), CompareAndSet(client)) && Inv(Snapshot())
      ensures updated == if Succeeds(old(Snapshot()), client) then Some(old(pending)[client].target) else None
    {
      NextKeepsInv(Snapshot(), CompareAndSet(client));
      var p := pending[client];
      pending := pending - {client};
      updated := None;
      if p.model in models && models[p.model].history != [] && models[p.model].Current() == p.seen {
        models := models[p.model := models[p.model].(history := models[p.model].history + [p.target])];
        updated := Some(p.target);
      }
    }
  }
}
