/** What the numbers of a replay summary are, in terms of the snapshots alone: how
    each changes when one more snapshot is recorded, and what it comes to over a
    whole trace. */
module ReplaySummary {
  import opened Common
  import opened Directions
  import opened ReplayLab

  // ------------------------------------------------------------------ time

  function With(trace: Trace, s: TimelineSnapshot): Trace {
    trace.(snapshots := trace.snapshots + [s])
  }

  lemma {:induction false} SameBeforeLast(trace: Trace, s: TimelineSnapshot, maxReplicas: int, demand: Option<Trace>,
                                          n: nat)
    requires n < |trace.snapshots|
    ensures ReplicaSeconds(With(trace, s), n) == ReplicaSeconds(trace, n)
    ensures CappedSeconds(With(trace, s), maxReplicas, demand, n) == CappedSeconds(trace, maxReplicas, demand, n)
  {
    if n > 0 {
      SameBeforeLast(trace, s, maxReplicas, demand, n - 1);
    }
  }

  /** A snapshot alone stands for the sampling interval, or for nothing. */
  lemma FirstSnapshotTime(interval: int, s: TimelineSnapshot, maxReplicas: int, demand: Option<Trace>)
    ensures var sampled := if interval > 0 then interval / 1_000_000_000 else 0;
      SummaryOf(Trace(interval, [s]), maxReplicas, demand).replicaSeconds == s.desired * sampled
    ensures SummaryOf(Trace(interval, []), maxReplicas, demand).replicaSeconds == 0
  {
    var trace := Trace(interval, [s]);
    assert ReplicaSeconds(trace, 0) == 0;
    assert ReplicaSeconds(trace, 1) == Usage(s.desired, DurationSeconds(trace, 0));
  }

  /** One more snapshot: the one before it now lasts until then, in whole seconds,
      and the new one takes over the sampling interval. */
  lemma ReplicaSecondsExtended(trace: Trace, s: TimelineSnapshot, maxReplicas: int, demand: Option<Trace>)
    requires trace.snapshots != []
    ensures var last := trace.snapshots[|trace.snapshots| - 1];
      var sampled := if trace.interval > 0 then trace.interval / 1_000_000_000 else 0;
      var passed := s.timestamp - last.timestamp;
      var lasted := if passed > 0 then passed / 1_000_000_000 else sampled;
      SummaryOf(With(trace, s), maxReplicas, demand).replicaSeconds
        == SummaryOf(trace, maxReplicas, demand).replicaSeconds
           + last.desired * lasted - last.desired * sampled + s.desired * sampled
  {
    var n, longer := |trace.snapshots|, With(trace, s);
    SameBeforeLast(trace, s, maxReplicas, demand, n - 1);
    assert longer.snapshots[n - 1] == trace.snapshots[n - 1] && longer.snapshots[n] == s;
    assert ReplicaSeconds(longer, n + 1) == ReplicaSeconds(longer, n) + Usage(s.desired, DurationSeconds(longer, n));
    assert ReplicaSeconds(longer, n)
        == ReplicaSeconds(longer, n - 1) + Usage(trace.snapshots[n - 1].desired, DurationSeconds(longer, n - 1));
    assert ReplicaSeconds(trace, n)
        == ReplicaSeconds(trace, n - 1) + Usage(trace.snapshots[n - 1].desired, DurationSeconds(trace, n - 1));
  }

  /** At its limit: above the maximum in the recorded demand where there is one,
      otherwise at the maximum; without a maximum, reported as limited. */
  predicate Counted(s: TimelineSnapshot, index: nat, maxReplicas: int, demand: Option<Trace>) {
    if maxReplicas > 0 then
      if demand.Some? && index < |demand.value.snapshots|
      then demand.value.snapshots[index].desired > maxReplicas
      else s.desired >= maxReplicas
    else
      maxReplicas == 0 && (s.health == "LIMITED" || Condition("ScalingLimited", "True") in s.conditions)
  }

  lemma CountedTime(trace: Trace, maxReplicas: int, demand: Option<Trace>, n: nat)
    requires n < |trace.snapshots|
    ensures CappedSeconds(trace, maxReplicas, demand, n + 1)
         == CappedSeconds(trace, maxReplicas, demand, n)
            + (if Counted(trace.snapshots[n], n, maxReplicas, demand) then DurationSeconds(trace, n) else 0)
  {
  }

  /** The same for the time spent at the limit. */
  lemma CappedSecondsExtended(trace: Trace, s: TimelineSnapshot, maxReplicas: int, demand: Option<Trace>)
    requires trace.snapshots != []
    ensures var n := |trace.snapshots|;
      var last := trace.snapshots[n - 1];
      var sampled := if trace.interval > 0 then trace.interval / 1_000_000_000 else 0;
      var passed := s.timestamp - last.timestamp;
      var lasted := if passed > 0 then passed / 1_000_000_000 else sampled;
      SummaryOf(With(trace, s), maxReplicas, demand).cappedSeconds
        == SummaryOf(trace, maxReplicas, demand).cappedSeconds
           + (if Counted(last, n - 1, maxReplicas, demand) then lasted - sampled else 0)
           + (if Counted(s, n, maxReplicas, demand) then sampled else 0)
  {
    var n, longer := |trace.snapshots|, With(trace, s);
    SameBeforeLast(trace, s, maxReplicas, demand, n - 1);
    assert longer.snapshots[n - 1] == trace.snapshots[n - 1] && longer.snapshots[n] == s;
    CountedTime(longer, maxReplicas, demand, n);
    CountedTime(longer, maxReplicas, demand, n - 1);
    CountedTime(trace, maxReplicas, demand, n - 1);
  }

  ghost predicate WholeSeconds(snaps: seq<TimelineSnapshot>) {
    && (forall i | 0 <= i < |snaps| :: snaps[i].timestamp % 1_000_000_000 == 0)
    && (forall i, j | 0 <= i < j < |snaps| :: snaps[i].timestamp < snaps[j].timestamp)
  }

  /** On a trace of whole seconds constant demand is its length times the demand,
      and a trace at its limit throughout is capped for all of its length. */
  lemma {:induction false} ConstantDemand(interval: int, snaps: seq<TimelineSnapshot>, d: int,
                                          maxReplicas: int, demand: Option<Trace>)
    requires snaps != [] && WholeSeconds(snaps)
    ensures var length := (snaps[|snaps| - 1].timestamp - snaps[0].timestamp) / 1_000_000_000
                          + (if interval > 0 then interval / 1_000_000_000 else 0);
      var s := SummaryOf(Trace(interval, snaps), maxReplicas, demand);
      && ((forall i | 0 <= i < |snaps| :: snaps[i].desired == d) ==> s.replicaSeconds == d * length)
      && ((forall i | 0 <= i < |snaps| :: Counted(snaps[i], i, maxReplicas, demand)) ==> s.cappedSeconds == length)
  {
    hide SummaryOf, Counted;
    var n := |snaps| - 1;
    var s, sampled := snaps[n], if interval > 0 then interval / 1_000_000_000 else 0;
    if n == 0 {
      assert snaps == [s];
      ConstantAlone(interval, s, maxReplicas, demand);
    } else {
      var init := snaps[..n];
      assert snaps == init + [s];
      ConstantDemand(interval, init, d, maxReplicas, demand);
      ReplicaSecondsExtended(Trace(interval, init), s, maxReplicas, demand);
      CappedSecondsExtended(Trace(interval, init), s, maxReplicas, demand);
      Split(snaps[0].timestamp, init[n - 1].timestamp, s.timestamp);
      Distribute(d, (init[n - 1].timestamp - snaps[0].timestamp) / 1_000_000_000,
                 (s.timestamp - init[n - 1].timestamp) / 1_000_000_000, sampled);
    }
  }

  lemma ConstantAlone(interval: int, s: TimelineSnapshot, maxReplicas: int, demand: Option<Trace>)
    ensures var sampled := if interval > 0 then interval / 1_000_000_000 else 0;
      && SummaryOf(Trace(interval, [s]), maxReplicas, demand).replicaSeconds == s.desired * sampled
      && (Counted(s, 0, maxReplicas, demand) ==>
            SummaryOf(Trace(interval, [s]), maxReplicas, demand).cappedSeconds == sampled)
  {
    FirstSnapshotTime(interval, s, maxReplicas, demand);
    CountedTime(Trace(interval, [s]), maxReplicas, demand, 0);
  }

  lemma Split(a: int, b: int, c: int)
    requires a % 1_000_000_000 == b % 1_000_000_000 == c % 1_000_000_000 == 0
    ensures (c - a) / 1_000_000_000 == (b - a) / 1_000_000_000 + (c - b) / 1_000_000_000
  {
  }

  lemma Distribute(d: int, before: int, lasted: int, sampled: int)
    ensures d * (before + sampled) + d * lasted - d * sampled + d * sampled == d * (before + lasted + sampled)
  {
  }

  // ---------------------------------------------------------------- counts

  /** The peak is the largest desired count, at least 0. */
  lemma {:induction false} PeakIsLargest(trace: Trace, maxReplicas: int, demand: Option<Trace>)
    ensures var peak, snaps := SummaryOf(trace, maxReplicas, demand).peakReplicas, trace.snapshots;
      && (forall i | 0 <= i < |snaps| :: snaps[i].desired <= peak) && peak >= 0
      && (peak == 0 || exists i | 0 <= i < |snaps| :: snaps[i].desired == peak)
    decreases |trace.snapshots|
  {
    var snaps := trace.snapshots;
    if snaps != [] {
      var n := |snaps| - 1;
      PeakIsLargest(trace.(snapshots := snaps[..n]), maxReplicas, demand);
      assert Peak(snaps) == snaps[n].desired || Peak(snaps) == Peak(snaps[..n]);
      forall i | 0 <= i < |snaps| ensures snaps[i].desired <= Peak(snaps) {
        assert i < n ==> snaps[..n][i] == snaps[i];
      }
      if Peak(snaps) == Peak(snaps[..n]) != 0 {
        var i :| 0 <= i < n && snaps[..n][i].desired == Peak(snaps[..n]);
        assert snaps[i].desired == Peak(snaps);
      } else if Peak(snaps) != 0 {
        assert snaps[n].desired == Peak(snaps);
      }
    }
  }

  lemma {:induction false} LimitedIsCount(snaps: seq<TimelineSnapshot>)
    ensures CountLimited(snaps)
         == HowMany(snaps, (s: TimelineSnapshot) =>
              s.health == "LIMITED" || Condition("ScalingLimited", "True") in s.conditions)
  {
    var p := (s: TimelineSnapshot) => s.health == "LIMITED" || Condition("ScalingLimited", "True") in s.conditions;
    if snaps == [] {
      HowManyNone(p);
    } else {
      var init, last := snaps[..|snaps| - 1], snaps[|snaps| - 1];
      LimitedIsCount(init);
      HowManySnoc(init, last, p);
      assert snaps == init + [last];
    }
  }

  lemma {:induction false} CappedIsCount(trace: Trace, maxReplicas: int, demand: Option<Trace>, n: nat)
    requires n <= |trace.snapshots| && maxReplicas > 0
    ensures CountCapped(trace, maxReplicas, demand, n)
         == Positions(n, (i: nat) => i < |trace.snapshots| && Counted(trace.snapshots[i], i, maxReplicas, demand))
  {
    var p := (i: nat) => i < |trace.snapshots| && Counted(trace.snapshots[i], i, maxReplicas, demand);
    if n == 0 {
      PositionsNone(p);
    } else {
      CappedIsCount(trace, maxReplicas, demand, n - 1);
      PositionsStep(n - 1, p);
    }
  }

  lemma NothingCapped(trace: Trace, maxReplicas: int, demand: Option<Trace>, n: nat)
    requires n <= |trace.snapshots| && maxReplicas <= 0
    ensures CountCapped(trace, maxReplicas, demand, n) == 0
  {
  }

  /** Caps and under-provision count snapshots by their own fields. */
  lemma CountsMean(trace: Trace, maxReplicas: int, demand: Option<Trace>)
    ensures var s, snaps := SummaryOf(trace, maxReplicas, demand), trace.snapshots;
      && s.snapshots == |snaps| && s.maxReplicas == maxReplicas
      && s.maxReplicasReached == (if maxReplicas > 0
           then Positions(|snaps|, (i: nat) => i < |snaps| && Counted(snaps[i], i, maxReplicas, demand)) else 0)
      && s.underProvision == HowMany(snaps, (x: TimelineSnapshot) =>
           x.health == "LIMITED" || Condition("ScalingLimited", "True") in x.conditions)
  {
    LimitedIsCount(trace.snapshots);
    if maxReplicas > 0 {
      CappedIsCount(trace, maxReplicas, demand, |trace.snapshots|);
    } else {
      NothingCapped(trace, maxReplicas, demand, |trace.snapshots|);
    }
  }

  // ------------------------------------------------------------ oscillation

  /** No change of the desired count after position `j`. */
  ghost predicate SteadySince(snaps: seq<TimelineSnapshot>, j: nat) {
    forall k | j < k < |snaps| :: snaps[k].desired == snaps[k - 1].desired
  }

  /** While the count is steady the moves stay as they were. */
  lemma {:induction false} MovesWhileSteady(snaps: seq<TimelineSnapshot>, j: nat)
    requires j < |snaps| && SteadySince(snaps, j)
    ensures Moves(Desired(snaps)) == Moves(Desired(snaps[..j + 1]))
  {
    var n := |snaps| - 1;
    if j == n {
      assert snaps[..j + 1] == snaps;
    } else {
      assert SteadySince(snaps[..n], j) by {
        forall k | j < k < n ensures snaps[..n][k].desired == snaps[..n][k - 1].desired {
          assert snaps[k].desired == snaps[k - 1].desired;
        }
      }
      MovesWhileSteady(snaps[..n], j);
      assert snaps[..n][..j + 1] == snaps[..j + 1];
      assert Desired(snaps) == Desired(snaps[..n]) + [snaps[n].desired];
      SnocMoves(Desired(snaps[..n]), snaps[n].desired);
    }
  }

  /** One more snapshot is a scale event when its count differs from the one before,
      and a flip when it goes the other way than the change before that. */
  lemma OscillationExtended(trace: Trace, s: TimelineSnapshot, j: nat, maxReplicas: int, demand: Option<Trace>)
    requires j < |trace.snapshots| && SteadySince(trace.snapshots, j)
    requires j > 0 ==> trace.snapshots[j].desired != trace.snapshots[j - 1].desired
    ensures var before, after := SummaryOf(trace, maxReplicas, demand), SummaryOf(With(trace, s), maxReplicas, demand);
      var snaps := trace.snapshots;
      var last := snaps[|snaps| - 1].desired;
      && after.scaleEvents == before.scaleEvents + (if s.desired != last then 1 else 0)
      && after.directionFlips == before.directionFlips
           + (if s.desired != last && j > 0 && (s.desired > last) != (snaps[j].desired > snaps[j - 1].desired)
              then 1 else 0)
  {
    var snaps := trace.snapshots;
    var xs, last := Desired(snaps), snaps[|snaps| - 1].desired;
    assert Desired(snaps + [s]) == xs + [s.desired];
    LastMove(snaps, j);
    var events, flips, direction := |Moves(xs)|, Flips(Moves(xs)), LastDirection(snaps, j);
    assert MovesSeen(xs, events, flips, last, direction);
    SeeMove(xs, events, flips, last, direction, s.desired);
    hide Moves, Flips, Desired;
  }

  /** 1 or -1 for the change at `j`, 0 when there is none. */
  function LastDirection(snaps: seq<TimelineSnapshot>, j: nat): int
    requires j < |snaps|
  {
    if j == 0 then 0 else Sign(snaps[j - 1].desired, snaps[j].desired)
  }

  lemma LastMove(snaps: seq<TimelineSnapshot>, j: nat)
    requires j < |snaps| && SteadySince(snaps, j)
    requires j > 0 ==> snaps[j].desired != snaps[j - 1].desired
    ensures var moves := Moves(Desired(snaps));
      LastDirection(snaps, j) == if moves == [] then 0 else moves[|moves| - 1]
  {
    MovesWhileSteady(snaps, j);
    if j > 0 {
      assert Desired(snaps[..j + 1]) == Desired(snaps[..j]) + [snaps[j].desired];
      SnocMoves(Desired(snaps[..j]), snaps[j].desired);
    }
  }

  lemma NoOscillationAlone(trace: Trace, maxReplicas: int, demand: Option<Trace>)
    requires |trace.snapshots| <= 1
    ensures var s := SummaryOf(trace, maxReplicas, demand); s.scaleEvents == 0 && s.directionFlips == 0
  {
  }

  /** The thresholds of the flapping label. */
  lemma FlappingThresholds(trace: Trace, maxReplicas: int, demand: Option<Trace>)
    ensures var s := SummaryOf(trace, maxReplicas, demand);
      && (s.flapping == High <==> s.directionFlips >= 6 || s.scaleEvents >= 15)
      && (s.flapping.Rank() >= Medium.Rank() <==> s.directionFlips >= 3 || s.scaleEvents >= 8)
      && (s.flapping == Calm <==> s.directionFlips == 0 && s.scaleEvents < 4)
  {
  }

  // ----------------------------------------------------------------- impact

  /** The percentages take the current figure to the proposed one. */
  lemma ImpactTakesCurrentToProposed(current: Summary, proposed: Summary)
    requires current.scaleEvents > 0 && current.replicaSeconds > 0
    ensures var impact := ComputeImpact(current, proposed);
      && (proposed.scaleEvents <= current.scaleEvents ==>
            current.scaleEvents as real * (1.0 - impact.eventReductionPct / 100.0) == proposed.scaleEvents as real)
      && (proposed.scaleEvents > current.scaleEvents ==> impact.eventReductionPct == 0.0)
      && current.replicaSeconds as real * (1.0 + impact.replicaSecondsChangePct / 100.0)
           == proposed.replicaSeconds as real
  {
    var impact := ComputeImpact(current, proposed);
    Percentage(current.scaleEvents as real, (current.scaleEvents - proposed.scaleEvents) as real);
    Percentage(current.replicaSeconds as real, (proposed.replicaSeconds - current.replicaSeconds) as real);
  }

  lemma Percentage(base: real, change: real)
    requires base > 0.0
    ensures base * (1.0 + change / base * 100.0 / 100.0) == base + change
    ensures base * (1.0 - change / base * 100.0 / 100.0) == base - change
  {
    assert change / base * 100.0 / 100.0 == change / base;
    assert base * (change / base) == change;
  }

  /** The verdicts of the impact, figure by figure. */
  lemma ImpactVerdicts(current: Summary, proposed: Summary)
    ensures var impact := ComputeImpact(current, proposed);
      && (impact.underProvisionFixed <==> proposed.underProvision == 0 && current.underProvision > 0)
      && (impact.noMissedScaleUp <==> proposed.underProvision == 0)
      && impact.additionalWorstCase >= 0
      && (impact.additionalWorstCase == proposed.maxReplicas - current.peakReplicas
          || (impact.additionalWorstCase == 0 && proposed.maxReplicas <= current.peakReplicas))
      && (current.replicaSeconds <= 0 ==> impact.replicaSecondsChangePct == 0.0)
  {
  }

  // --------------------------------------------------------------- clamping

  /** The clamped value is the nearest one the candidate allows; a candidate
      without a minimum allows 1 and up. */
  lemma ClampIsNearest(c: Candidate, desired: int, other: int)
    requires (if c.minReplicas.Some? then c.minReplicas.value else 1) <= other <= c.maxReplicas
    ensures var y, least := Clamp(c, desired), if c.minReplicas.Some? then c.minReplicas.value else 1;
      && least <= y <= c.maxReplicas
      && (if y <= desired then desired - y else y - desired)
           <= (if other <= desired then desired - other else other - desired)
  {
  }

  /** A candidate whose minimum is above its maximum always yields the maximum. */
  lemma ClampWithoutRange(c: Candidate, desired: int)
    requires (if c.minReplicas.Some? then c.minReplicas.value else 1) > c.maxReplicas
    ensures Clamp(c, desired) == c.maxReplicas
  {
  }
}
