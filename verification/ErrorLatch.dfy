/**
 The in-flight dedup latch of observability/error_reporter.py: fingerprint to expiry, pruned
 when it holds 64 entries. The clock (time.monotonic) never goes back. Calls are serialised by
 the reporter's lock.
 */
module ErrorLatch {
  import opened Wrappers

  const DEDUP_TTL_S := 60.0

  type Latch = map<string, real>

  datatype Call = Call(fp: string, now: real)

  function Live(latch: Latch, now: real): Latch {
    map fp | fp in latch && latch[fp] > now :: latch[fp]
  }

  function Pruned(latch: Latch, now: real): Latch {
    if |latch| >= 64 then Live(latch, now) else latch
  }

  predicate Recent(latch: Latch, c: Call) {
    c.fp in latch && latch[c.fp] > c.now
  }

  function Claimed(latch: Latch, c: Call): Latch {
    if Recent(latch, c) then latch else latch[c.fp := c.now + DEDUP_TTL_S]
  }

  /** The latch after a call, with and without pruning. */
  function Next(latch: Latch, c: Call): Latch {
    Claimed(Pruned(latch, c.now), c)
  }

  function LatchAt(calls: seq<Call>, i: nat): Latch
    requires i <= |calls|
  {
    if i == 0 then map[] else Next(LatchAt(calls, i - 1), calls[i - 1])
  }

  function UnprunedAt(calls: seq<Call>, i: nat): Latch
    requires i <= |calls|
  {
    if i == 0 then map[] else Claimed(UnprunedAt(calls, i - 1), calls[i - 1])
  }

  /** Call i is answered True: the report is sent. */
  predicate Sent(calls: seq<Call>, i: nat)
    requires i < |calls|
  {
    !Recent(Pruned(LatchAt(calls, i), calls[i].now), calls[i])
  }

  ghost predicate Monotonic(calls: seq<Call>) {
    forall i, j | 0 <= i <= j < |calls| :: calls[i].now <= calls[j].now
  }

  /** Both tables have the same entries that are still live. */
  ghost predicate SameLive(a: Latch, b: Latch, now: real) {
    Live(a, now) == Live(b, now)
  }

  lemma LiveLater(a: Latch, b: Latch, now: real, later: real)
    requires SameLive(a, b, now) && now <= later
    ensures SameLive(a, b, later)
  {
    forall fp
      ensures fp in Live(a, later) <==> fp in Live(b, later)
      ensures fp in Live(a, later) ==> Live(a, later)[fp] == Live(b, later)[fp]
    {
      assert fp in Live(a, later) ==> fp in Live(a, now);
      assert fp in Live(b, later) ==> fp in Live(b, now);
      assert fp in Live(a, now) <==> fp in Live(b, now);
      assert fp in Live(a, now) ==> Live(a, now)[fp] == Live(b, now)[fp];
    }
  }

  lemma LiveRecent(a: Latch, b: Latch, c: Call)
    requires SameLive(a, b, c.now)
    ensures Recent(a, c) == Recent(b, c)
    ensures SameLive(Claimed(a, c), Claimed(b, c), c.now)
  {
    assert Recent(a, c) <==> c.fp in Live(a, c.now);
    assert Recent(b, c) <==> c.fp in Live(b, c.now);
    assert !Recent(a, c) ==> Live(Claimed(a, c), c.now) == Live(a, c.now)[c.fp := c.now + DEDUP_TTL_S];
    assert !Recent(b, c) ==> Live(Claimed(b, c), c.now) == Live(b, c.now)[c.fp := c.now + DEDUP_TTL_S];
  }

  lemma PruningKeepsLive(latch: Latch, now: real)
    ensures SameLive(Pruned(latch, now), latch, now)
  {
    assert Live(Live(latch, now), now) == Live(latch, now);
  }

  lemma {:induction false} PrunedSimulates(calls: seq<Call>, i: nat)
    requires Monotonic(calls) && i < |calls|
    ensures SameLive(LatchAt(calls, i), UnprunedAt(calls, i), calls[i].now)
  {
    if i > 0 {
      PrunedSimulates(calls, i - 1);
      var c := calls[i - 1];
      var pruned, full := Pruned(LatchAt(calls, i - 1), c.now), UnprunedAt(calls, i - 1);
      PruningKeepsLive(LatchAt(calls, i - 1), c.now);
      LiveRecent(pruned, full, c);
      LiveLater(Claimed(pruned, c), Claimed(full, c), c.now, calls[i].now);
    }
  }

  /** Pruning is invisible: on every nondecreasing clock each call is answered as by a table that is never pruned. */
  lemma PrunedRefinesUnpruned(calls: seq<Call>, i: nat)
    requires Monotonic(calls) && i < |calls|
    ensures Sent(calls, i) <==> !Recent(UnprunedAt(calls, i), calls[i])
  {
    PrunedSimulates(calls, i);
    PruningKeepsLive(LatchAt(calls, i), calls[i].now);
    LiveRecent(Pruned(LatchAt(calls, i), calls[i].now), UnprunedAt(calls, i), calls[i]);
  }

  /** Call i sent this fingerprint less than 60 seconds before time now. */
  ghost predicate SentWithin(calls: seq<Call>, i: int, fp: string, now: real) {
    0 <= i < |calls| && Sent(calls, i) && calls[i].fp == fp && now < calls[i].now + 60.0
  }

  /** The expiry the unpruned table holds is that of the last send. */
  lemma {:induction false} ExpiryOfLastSend(calls: seq<Call>, n: nat, fp: string, now: real)
    requires Monotonic(calls) && n <= |calls| && (n > 0 ==> calls[n - 1].now <= now)
    ensures (fp in UnprunedAt(calls, n) && UnprunedAt(calls, n)[fp] > now) <==>
      exists i | 0 <= i < n :: SentWithin(calls, i, fp, now)
  {
    if n > 0 {
      assert n > 1 ==> calls[n - 2].now <= calls[n - 1].now;
      ExpiryOfLastSend(calls, n - 1, fp, now);
      PrunedRefinesUnpruned(calls, n - 1);
      var c := calls[n - 1];
      if Sent(calls, n - 1) && c.fp == fp {
        assert UnprunedAt(calls, n)[fp] == c.now + DEDUP_TTL_S;
        assert SentWithin(calls, n - 1, fp, now) <==> c.now + DEDUP_TTL_S > now;
      } else {
        assert fp in UnprunedAt(calls, n) <==> fp in UnprunedAt(calls, n - 1);
        assert fp in UnprunedAt(calls, n) ==> UnprunedAt(calls, n)[fp] == UnprunedAt(calls, n - 1)[fp];
        assert !SentWithin(calls, n - 1, fp, now);
      }
    }
  }

  /**
   Exactly when a report is sent: when the same fingerprint was not sent in the last 60
   seconds. So two sends of one fingerprint are at least 60 seconds apart and no report that
   is due is dropped.
   */
  lemma SentIffNotRecentlySent(calls: seq<Call>, j: nat)
    requires Monotonic(calls) && j < |calls|
    ensures Sent(calls, j) <==> forall i | 0 <= i < j :: !SentWithin(calls, i, calls[j].fp, calls[j].now)
  {
    PrunedRefinesUnpruned(calls, j);
    assert j > 0 ==> calls[j - 1].now <= calls[j].now;
    ExpiryOfLastSend(calls, j, calls[j].fp, calls[j].now);
  }

  /** The latch stays small: after a call it holds at most max(63, live entries) + 1 fingerprints. */
  lemma SizeBound(latch: Latch, c: Call)
    ensures |Next(latch, c)| <= (if |Live(latch, c.now)| > 63 then |Live(latch, c.now)| else 63) + 1
  {
    var pruned := Pruned(latch, c.now);
    assert Claimed(pruned, c).Keys <= pruned.Keys + {c.fp};
    SubsetSize(Claimed(pruned, c).Keys, pruned.Keys + {c.fp});
    assert |pruned.Keys + {c.fp}| <= |pruned.Keys| + 1;
  }

  class ErrorReporter {
    var inflight: Latch

    constructor ()
      ensures inflight == map[]
    {
      inflight := map[];
    }

    /** _claim_fingerprint, the body under the lock; now is time.monotonic(). */
    method ClaimFingerprint(fp: string, now: real) returns (send: bool)
      modifies this
      ensures inflight == Next(old(inflight), Call(fp, now))
      ensures send == !Recent(Pruned(old(inflight), now), Call(fp, now))
    {
      if |inflight| >= 64 {
        inflight := map k | k in inflight && inflight[k] > now :: inflight[k];
      }
      if fp in inflight && inflight[fp] > now {
        return false;
      }
      inflight := inflight[fp := now + DEDUP_TTL_S];
      return true;
    }
  }
}
