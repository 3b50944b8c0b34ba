/** Waiting until the gateway listens. */
module GatewayReadiness {
  import opened Wrappers
  import opened Text

  datatype Probe = Probe(ok: bool, reason: string)

  datatype Unit = Unit(activeState: Option<string>, restarts: Option<int>)

  /** What the wait sees: the probes, the unit (first before the wait, then once a round), and the clock (first at the
      start, then once a round). */
  datatype World = World(probe: nat -> Probe, unit: nat -> Unit, clock: nat -> int)

  datatype Outcome = Outcome(
    unitStarted: bool,
    ready: bool,
    waitedMs: int,
    deadlineMs: int,
    lastProbe: Option<string>
  )

  // ---------- one round ----------

  function Waited(w: World, k: nat): int {
    w.clock(k + 1) - w.clock(0)
  }

  predicate UnitFailed(w: World, k: nat) {
    w.unit(k + 1).activeState == Some("failed")
  }

  predicate UnitRestarted(w: World, k: nat) {
    var baseline, now := w.unit(0).restarts, w.unit(k + 1).restarts;
    baseline.Some? && now.Some? && now.value > baseline.value
  }

  /** Round k gives an answer. */
  predicate Decides(w: World, deadlineMs: int, k: nat) {
    w.probe(k).ok || UnitFailed(w, k) || UnitRestarted(w, k) || Waited(w, k) >= deadlineMs
  }

  function Answer(w: World, deadlineMs: int, k: nat): Outcome {
    var waited, reason := Waited(w, k), w.probe(k).reason;
    if w.probe(k).ok then Outcome(true, true, waited, deadlineMs, None)
    else if UnitFailed(w, k) then Outcome(false, false, waited, deadlineMs, Some("unit failed; last probe: " + reason))
    else if UnitRestarted(w, k) then
      Outcome(false, false, waited, deadlineMs,
        Some("unit restarted " + Decimal(w.unit(k + 1).restarts.value - w.unit(0).restarts.value)
          + " time(s) while starting; last probe: " + reason))
    else Outcome(true, false, waited, deadlineMs, Some(reason))
  }

  function Min(a: int, b: int): int {
    if a < b then a else b
  }

  /** The clock does not go back before the first probe, and each sleep takes at least as long as was asked for. */
  ghost predicate ClockAdvances(w: World, deadlineMs: int, pollMs: int) {
    Waited(w, 0) >= 0
    && forall k: nat :: Waited(w, k) < deadlineMs ==>
      Waited(w, k + 1) >= Waited(w, k) + Min(pollMs, deadlineMs - Waited(w, k))
  }

  function Rounds(deadlineMs: int, pollMs: int): nat
    requires pollMs >= 1
  {
    if deadlineMs <= 0 then 0 else (deadlineMs + pollMs - 1) / pollMs
  }

  ghost predicate Open(w: World, deadlineMs: int, k: nat) {
    forall j: nat :: j < k ==> !Decides(w, deadlineMs, j)
  }

  /** Every round before k left the question open and k answers it. */
  ghost predicate FirstDecision(w: World, deadlineMs: int, k: nat) {
    Decides(w, deadlineMs, k) && Open(w, deadlineMs, k)
  }

  // ---------- how many rounds there are ----------

  lemma RoundsCover(deadlineMs: int, pollMs: int, k: nat)
    requires pollMs >= 1
    ensures k >= Rounds(deadlineMs, pollMs) <==> k * pollMs >= deadlineMs
  {
    if deadlineMs > 0 {
      var n := (deadlineMs + pollMs - 1) / pollMs;
      assert n * pollMs >= deadlineMs > (n - 1) * pollMs;
      if k >= n {
        MulMonotone(n, k, pollMs);
      } else {
        MulMonotone(k, n - 1, pollMs);
      }
    } else {
      MulMonotone(0, k, pollMs);
    }
  }

  lemma MulMonotone(a: int, b: int, c: int)
    requires a <= b && c >= 0
    ensures a * c <= b * c
  {
  }

  lemma {:induction false} WaitedAtLeast(w: World, deadlineMs: int, pollMs: int, k: nat)
    requires pollMs >= 1 && ClockAdvances(w, deadlineMs, pollMs)
    requires Open(w, deadlineMs, k)
    ensures Waited(w, k) >= Min(k * pollMs, deadlineMs)
  {
    hide Waited;
    if k > 0 {
      WaitedAtLeast(w, deadlineMs, pollMs, k - 1);
      assert !Decides(w, deadlineMs, k - 1);
      assert Waited(w, k - 1 + 1) >= Waited(w, k - 1) + Min(pollMs, deadlineMs - Waited(w, k - 1));
      assert k * pollMs == (k - 1) * pollMs + pollMs;
    }
  }

  /** The wait ends after at most as many rounds as polls fit the deadline, and one more. */
  lemma DecidesInTime(w: World, deadlineMs: int, pollMs: int, k: nat)
    requires pollMs >= 1 && ClockAdvances(w, deadlineMs, pollMs) && FirstDecision(w, deadlineMs, k)
    ensures k <= Rounds(deadlineMs, pollMs)
  {
    if k > 0 {
      assert !Decides(w, deadlineMs, k - 1);
      WaitedAtLeast(w, deadlineMs, pollMs, k - 1);
      RoundsCover(deadlineMs, pollMs, k - 1);
    }
  }

  /** No smaller bound holds: a gateway that never answers takes that many rounds when sleeps take exactly their time. */
  lemma BoundIsReached(deadlineMs: int, pollMs: int)
    requires pollMs >= 1
    ensures exists w: World ::
      ClockAdvances(w, deadlineMs, pollMs) && FirstDecision(w, deadlineMs, Rounds(deadlineMs, pollMs))
  {
    var w := World(k => Probe(false, ""), k => Unit(None, None),
      (k: nat) => if k == 0 then 0 else if deadlineMs <= 0 then 0 else Min((k - 1) * pollMs, deadlineMs));
    forall k: nat | Waited(w, k) < deadlineMs
      ensures Waited(w, k + 1) >= Waited(w, k) + Min(pollMs, deadlineMs - Waited(w, k))
    {
      assert (k + 1) * pollMs == k * pollMs + pollMs;
    }
    assert ClockAdvances(w, deadlineMs, pollMs);
    var n := Rounds(deadlineMs, pollMs);
    forall k: nat ensures Decides(w, deadlineMs, k) <==> k >= n {
      RoundsCover(deadlineMs, pollMs, k);
    }
    assert FirstDecision(w, deadlineMs, n);
  }

  // ---------- the wait ----------

  /** Polls. It says ready exactly when its last probe succeeded, blames the unit exactly when the unit failed or was
      restarted, and otherwise has waited out the deadline. It never gives up earlier. */
  method WaitForGatewayReady(w: World, deadlineMs: int, pollMs: int) returns (r: Outcome, probes: nat)
    requires pollMs >= 1 && ClockAdvances(w, deadlineMs, pollMs)
    ensures 1 <= probes <= Rounds(deadlineMs, pollMs) + 1
    ensures FirstDecision(w, deadlineMs, probes - 1) && r == Answer(w, deadlineMs, probes - 1)
    ensures r.ready <==> w.probe(probes - 1).ok
    ensures forall k: nat :: k < probes - 1 ==> !w.probe(k).ok
    ensures !r.ready && r.unitStarted ==> r.waitedMs >= deadlineMs
    ensures !r.unitStarted ==> UnitFailed(w, probes - 1) || UnitRestarted(w, probes - 1)
  {
    var startedAt := w.clock(0);
    var baseline := w.unit(0);
    probes := 0;
    while true
      invariant Open(w, deadlineMs, probes)
      invariant probes <= Rounds(deadlineMs, pollMs)
      decreases Rounds(deadlineMs, pollMs) - probes
    {
      ghost var k := probes;
      var probe := w.probe(probes);
      var waitedMs := w.clock(probes + 1) - startedAt;
      var unit := w.unit(probes + 1);
      probes := probes + 1;
      assert forall j: nat {:trigger w.probe(j)} :: j < k ==> !Decides(w, deadlineMs, j);
      if probe.ok {
        return Outcome(true, true, waitedMs, deadlineMs, None), probes;
      }
      if unit.activeState == Some("failed") {
        return Outcome(false, false, waitedMs, deadlineMs, Some("unit failed; last probe: " + probe.reason)), probes;
      }
      if baseline.restarts.Some? && unit.restarts.Some? && unit.restarts.value > baseline.restarts.value {
        var reason := "unit restarted " + Decimal(unit.restarts.value - baseline.restarts.value)
          + " time(s) while starting; last probe: " + probe.reason;
        return Outcome(false, false, waitedMs, deadlineMs, Some(reason)), probes;
      }
      var remainingMs := deadlineMs - waitedMs;
      if remainingMs <= 0 {
        return Outcome(true, false, waitedMs, deadlineMs, Some(probe.reason)), probes;
      }
      WaitedAtLeast(w, deadlineMs, pollMs, k);
      RoundsCover(deadlineMs, pollMs, k);
    }
  }
}
