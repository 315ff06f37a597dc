/**
 The two gates of POST /queue that are keyed on the axis set (api/queue.py): the plan-review gate
 and the re-discovery gate. Verdicts are looked up by review target, discards by axis set.
 */
module EnqueueGates {
  import opened Wrappers
  import AxisSet
  import A = HypothesisAudit
  import R = Reviews

  /** The gated part of an EnqueueRequest; names are those of the sweep parameters. */
  datatype Request = Request(strategy: string, names: seq<string>, hypothesis: Option<string>, track: Option<string>,
    overrideReview: bool, overrideDiscard: bool)

  datatype Decision = Accepted | HypothesisIdRequired | ReviewRequired(target: string) | AxisDiscarded

  /** What the gates look at: the hash, the reviews, the audit ledger and the queue rows' tracks. */
  datatype World = World(hash: string -> string, reviews: R.Log, ledger: A.Ledger, tracks: A.Tracks)

  predicate Passing(verdict: Option<string>) {
    verdict == Some("APPROVED") || verdict == Some("CONDITIONAL_APPROVAL")
  }

  /** A missing or empty hypothesis_id is refused. */
  function ReviewGate(r: Request, w: World): Decision {
    if r.names == [] || r.overrideReview then Accepted
    else if r.hypothesis.None? || r.hypothesis.value == "" then HypothesisIdRequired
    else
      var target := AxisSet.PlanTarget(w.hash, r.strategy, r.names, r.hypothesis.value);
      if Passing(R.LatestVerdict(w.reviews, target)) then Accepted else ReviewRequired(target)
  }

  predicate Discarded(r: Request, w: World) {
    A.Discards(w.ledger, w.tracks, r.strategy, AxisSet.Canonical(r.names), r.track) != {}
  }

  /** enqueue, from the review gate to the re-discovery gate */
  function Enqueue(r: Request, w: World): Decision {
    var review := ReviewGate(r, w);
    if review != Accepted then review
    else if r.names != [] && !r.overrideDiscard && Discarded(r, w) then AxisDiscarded
    else Accepted
  }

  /** The order of the sweep parameters never changes what either gate says. */
  lemma GatesIgnoreOrder(r: Request, w: World, names: seq<string>)
    requires multiset(names) == multiset(r.names)
    ensures Enqueue(r.(names := names), w) == Enqueue(r, w)
  {
    assert |names| == |multiset(names)| == |r.names|;
    AxisSet.OrderIrrelevant(names, r.names);
  }

  /**
   Within the first n steps of the ledger's history an audit of the request's strategy and axis
   set was opened, its last decision is DISCARD, and it is global or of the request's track.
   Axis sets are compared by their pieces; for comma-free names that is as multisets.
   */
  ghost predicate WroteOff(r: Request, tracks: A.Tracks, steps: seq<A.Step>, n: int, id: A.Id, k: int, m: int) {
    && 0 <= n <= |steps| && A.Opens(steps, k, id) && A.Settles(steps, k, m, n, id)
    && steps[m].decision == Some("DISCARD")
    && steps[k].strategy == r.strategy && AxisSet.Pieces(steps[k].names) == AxisSet.Pieces(r.names)
    && (r.track == None || steps[k].queue == None || steps[k].queue.value !in tracks
        || tracks[steps[k].queue.value] == None || tracks[steps[k].queue.value] == r.track)
  }

  lemma SettlesOnce(steps: seq<A.Step>, k: int, m: int, other: int, n: int, id: A.Id)
    requires A.Settles(steps, k, m, n, id) && A.Settles(steps, k, other, n, id)
    ensures m == other
  {
  }

  lemma RowWroteOff(r: Request, w: World, steps: seq<A.Step>, n: nat, id: A.Id, k: nat)
    requires k < n <= |steps| && A.Opens(steps, k, id)
    requires w.ledger == A.LedgerAt(map[], steps, n)
    ensures id in A.Discards(w.ledger, w.tracks, r.strategy, AxisSet.Canonical(r.names), r.track)
      <==> exists m :: WroteOff(r, w.tracks, steps, n, id, k, m)
  {
    hide AxisSet.Canonical, AxisSet.Pieces;
    var m := A.RowOfHistory(steps, k, n, id);
    AxisSet.PiecesIff(steps[k].names, r.names);
    if m': int :| WroteOff(r, w.tracks, steps, n, id, k, m') {
      SettlesOnce(steps, k, m, m', n, id);
    }
    if id in A.Discards(w.ledger, w.tracks, r.strategy, AxisSet.Canonical(r.names), r.track) {
      assert WroteOff(r, w.tracks, steps, n, id, k, m);
    }
  }

  /**
   The re-discovery gate over whole histories and for any names: a reviewed sweep is refused
   exactly when, at some point of the ledger's history, an audit of the same strategy and axis
   set was written off on this track or on none, and no later backfill has changed that.
   */
  lemma RefusedIffWrittenOff(r: Request, w: World, steps: seq<A.Step>, n: nat)
    requires r.names != [] && n <= |steps|
    requires w.ledger == A.LedgerAt(map[], steps, n)
    requires ReviewGate(r, w) == Accepted
    ensures Enqueue(r, w) == AxisDiscarded
      <==> !r.overrideDiscard && exists id, k, m :: WroteOff(r, w.tracks, steps, n, id, k, m)
  {
    hide AxisSet.Canonical, AxisSet.Pieces, A.Opens, A.Settles, A.LedgerAt;
    var ids := A.Discards(w.ledger, w.tracks, r.strategy, AxisSet.Canonical(r.names), r.track);
    if id :| id in ids {
      var k := A.Present(steps, n, id);
      OpensNat(steps, k, id);
      RowWroteOff(r, w, steps, n, id, k);
    }
    if id, k, m :| WroteOff(r, w.tracks, steps, n, id, k, m) {
      SettlesNat(steps, k, m, n, id);
      RowWroteOff(r, w, steps, n, id, k);
    }
  }

  lemma OpensNat(steps: seq<A.Step>, k: int, id: A.Id)
    requires A.Opens(steps, k, id)
    ensures 0 <= k < |steps|
  {
  }

  lemma SettlesNat(steps: seq<A.Step>, k: int, m: int, n: int, id: A.Id)
    requires A.Settles(steps, k, m, n, id)
    ensures 0 <= k < n <= |steps|
  {
  }

  /**
   Within the first n events of the reviews' history, event k wrote the last verdict on the
   request's plan, and it passes.
   */
  ghost predicate Approved(r: Request, hash: string -> string, events: seq<R.Event>, n: int, k: int) {
    && r.hypothesis.Some? && r.hypothesis.value != ""
    && var target := AxisSet.PlanTarget(hash, r.strategy, r.names, r.hypothesis.value);
    && R.LastJudged(events, n, target, k) && 0 <= k < |events|
    && R.VerdictAt(events, k, target).Some?
    && R.VerdictAt(events, k, target).value.verdict in {Some("APPROVED"), Some("CONDITIONAL_APPROVAL")}
  }

  lemma ReviewedIff(r: Request, w: World, events: seq<R.Event>, n: nat)
    requires r.names != [] && n <= |events| && w.reviews == R.StateAt(events, n).log
    ensures ReviewGate(r, w) == Accepted <==> r.overrideReview || exists k :: Approved(r, w.hash, events, n, k)
  {
    hide AxisSet.Canonical, R.StateAt, R.LatestVerdict, R.LastJudged, R.VerdictAt;
    if r.hypothesis.Some? && r.hypothesis.value != "" {
      var target := AxisSet.PlanTarget(w.hash, r.strategy, r.names, r.hypothesis.value);
      R.VerdictOfHistory(events, n, target);
      if k :| R.LastJudged(events, n, target, k) {
        assert Passing(R.VerdictAt(events, k, target).value.verdict) ==> Approved(r, w.hash, events, n, k);
      }
    }
  }

  /**
   Both gates over both histories, whoever writes to them: a sweep is accepted exactly when the
   last verdict on its plan passes, or the review is overridden, and its axes are not written
   off on its track, or the write-off is overridden.
   */
  lemma AcceptedIff(r: Request, w: World, events: seq<R.Event>, i: nat, steps: seq<A.Step>, n: nat)
    requires r.names != [] && n <= |steps| && i <= |events|
    requires w.ledger == A.LedgerAt(map[], steps, n) && w.reviews == R.StateAt(events, i).log
    ensures Enqueue(r, w) == Accepted
      <==> && (r.overrideReview || exists k :: Approved(r, w.hash, events, i, k))
           && (r.overrideDiscard || !exists id, k, m :: WroteOff(r, w.tracks, steps, n, id, k, m))
  {
    hide AxisSet.Canonical, Approved, WroteOff, A.LedgerAt, R.StateAt, ReviewGate, Discarded;
    ReviewedIff(r, w, events, i);
    if ReviewGate(r, w) == Accepted {
      RefusedIffWrittenOff(r, w, steps, n);
    }
  }

  /**
   The review gate, case by case, over every history: without an override, a sweep with parameters
   is asked for its hypothesis if it names none, and is refused with review_required if its plan
   has no verdict or the last one is REJECTED or anything else than the two passing ones.
   */
  lemma UnreviewedIsRefused(r: Request, w: World, events: seq<R.Event>, n: nat)
    requires r.names != [] && !r.overrideReview && n <= |events| && w.reviews == R.StateAt(events, n).log
    ensures Enqueue(r, w) == HypothesisIdRequired <==> r.hypothesis == None || r.hypothesis == Some("")
    ensures r.hypothesis != None && r.hypothesis != Some("") ==>
      var target := AxisSet.PlanTarget(w.hash, r.strategy, r.names, r.hypothesis.value);
      && ((forall k :: !R.LastJudged(events, n, target, k)) ==> Enqueue(r, w) == ReviewRequired(target))
      && forall k | R.LastJudged(events, n, target, k) && 0 <= k < |events| && R.VerdictAt(events, k, target).Some? ::
           var verdict := R.VerdictAt(events, k, target).value.verdict;
           (Enqueue(r, w) == ReviewRequired(target)
            <==> verdict != Some("APPROVED") && verdict != Some("CONDITIONAL_APPROVAL"))
  {
    hide AxisSet.Canonical, R.StateAt, R.LatestVerdict, R.LastJudged, R.VerdictAt, Discarded;
    if r.hypothesis != None && r.hypothesis != Some("") {
      R.VerdictOfHistory(events, n, AxisSet.PlanTarget(w.hash, r.strategy, r.names, r.hypothesis.value));
    }
  }

  /** Without parameters neither gate applies, whatever is on file. */
  lemma NoParametersNoGates(r: Request, w: World)
    requires r.names == []
    ensures Enqueue(r, w) == Accepted
  {
  }

  /**
   In an orderly history of reviews, a sweep that is let through without an override was approved
   by somebody who was not the latest to ask and whose verdict answers no request of its own.
   */
  lemma AcceptedIsReviewed(r: Request, w: World, events: seq<R.Event>, i: nat) returns (k: nat)
    requires r.names != [] && !r.overrideReview && i <= |events|
    requires w.reviews == R.StateAt(events, i).log && R.Orderly(events)
    requires ReviewGate(r, w) == Accepted
    ensures Approved(r, w.hash, events, i, k)
    ensures var target := AxisSet.PlanTarget(w.hash, r.strategy, r.names, r.hypothesis.value);
      R.Independent(events, k, target) && !R.AnswersOwn(events, k, target)
  {
    hide AxisSet.Canonical, R.StateAt, R.VerdictAt, R.Orderly, R.Independent, R.AnswersOwn, R.LastJudged, ReviewGate;
    ReviewedIff(r, w, events, i);
    k :| Approved(r, w.hash, events, i, k);
    R.OrderlyIsIndependent(events, i, AxisSet.PlanTarget(w.hash, r.strategy, r.names, r.hypothesis.value), k);
  }

  /**
   Both gates name one axis set: a plan approved for some axes lets through, and a discard of them
   stops, the same sweeps.
   */
  lemma GatesAgreeOnAxes(r: Request, w: World, names: seq<string>)
    requires AxisSet.Digest(w.hash) && AxisSet.NoCollision(w.hash, names, r.names) && r.hypothesis.Some?
    ensures AxisSet.PlanTarget(w.hash, r.strategy, names, r.hypothesis.value)
         == AxisSet.PlanTarget(w.hash, r.strategy, r.names, r.hypothesis.value)
      <==> AxisSet.Canonical(names) == AxisSet.Canonical(r.names)
  {
    AxisSet.TargetOfAxesIff(w.hash, r.strategy, names, r.names, r.hypothesis.value);
  }
}
