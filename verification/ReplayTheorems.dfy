/** What a replay can and cannot show: it never oscillates more than the record,
    stabilization really spaces scale-downs, and the capacity counters are tied
    to the recorded demand. */
module ReplayTheorems {
  import opened Common
  import opened Directions
  import opened ReplayLab

  function Output(c: Candidate, snaps: seq<TimelineSnapshot>): seq<int> {
    Desired(Replay(c, snaps).1)
  }

  /** The output grows by one value per snapshot. */
  lemma OutputStep(c: Candidate, snaps: seq<TimelineSnapshot>)
    requires snaps != []
    ensures var init, s := snaps[..|snaps| - 1], snaps[|snaps| - 1];
      var h := Replay(c, init).0;
      && |Output(c, snaps)| == |snaps|
      && Output(c, snaps)[..|init|] == Output(c, init)
      && Output(c, snaps)[|init|] == Stabilize(c, h, s.timestamp, Clamp(c, s.desired)).1
      && Replay(c, snaps).0 == Stabilize(c, h, s.timestamp, Clamp(c, s.desired)).0
  {
    ReplayLength(c, snaps);
    ReplayLength(c, snaps[..|snaps| - 1]);
  }

  // --------------------------------------------------------- oscillation

  /** While something is held, the last output is the held level. */
  lemma {:induction false} HeldIsLastOutput(c: Candidate, snaps: seq<TimelineSnapshot>)
    ensures |Output(c, snaps)| == |snaps|
    ensures c.scaleDownWindow <= 0 ==> Replay(c, snaps).0.since == 0
    ensures Replay(c, snaps).0.since != 0 ==>
      snaps != [] && Output(c, snaps)[|snaps| - 1] == Replay(c, snaps).0.level
  {
    if snaps != [] {
      OutputStep(c, snaps);
      HeldIsLastOutput(c, snaps[..|snaps| - 1]);
    } else {
      ReplayLength(c, snaps);
    }
  }

  lemma ClampMonotone(c: Candidate)
    ensures Monotone(d => Clamp(c, d))
  {
  }

  lemma {:induction false} OutputLags(c: Candidate, snaps: seq<TimelineSnapshot>)
    ensures Lags(Output(c, snaps), Desired(snaps), d => Clamp(c, d))
  {
    if snaps == [] {
      ReplayLength(c, snaps);
    } else {
      var n := |snaps| - 1;
      var init := snaps[..n];
      OutputLags(c, init);
      HeldIsLastOutput(c, init);
      OutputStep(c, snaps);
      var ys, yi := Output(c, snaps), Output(c, init);
      forall i | 0 <= i < |ys|
        ensures ys[i] == Clamp(c, snaps[i].desired) || (i > 0 && ys[i] == ys[i - 1])
      {
        if i < n {
          assert ys[i] == ys[..n][i] == yi[i];
          assert i > 0 ==> ys[i - 1] == ys[..n][i - 1] == yi[i - 1];
          assert yi[i] == (d => Clamp(c, d))(Desired(init)[i]) || (i > 0 && yi[i] == yi[i - 1]);
        } else {
          assert n > 0 ==> ys[n - 1] == ys[..n][n - 1] == yi[n - 1];
        }
      }
    }
  }

  lemma FlappingMonotone(e: nat, f: nat, e': nat, f': nat)
    requires e' <= e && f' <= f
    ensures FlappingScore(e', f').Rank() <= FlappingScore(e, f).Rank()
  {
  }

  /** For every trace and every candidate, replaying never adds oscillation. */
  lemma ReplayNeverAddsOscillation(trace: Trace, c: Candidate)
    ensures Subsequence(Moves(Output(c, trace.snapshots)), Moves(Desired(trace.snapshots)))
    ensures var current, proposed := Current(trace), Proposed(trace, c);
      && proposed.scaleEvents <= current.scaleEvents
      && proposed.directionFlips <= current.directionFlips
      && proposed.flapping.Rank() <= current.flapping.Rank()
  {
    OutputLags(c, trace.snapshots);
    ClampMonotone(c);
    var ys, xs := Output(c, trace.snapshots), Desired(trace.snapshots);
    LaggingNeverOscillatesMore(ys, xs, d => Clamp(c, d));
    FlappingMonotone(|Moves(xs)|, Flips(Moves(xs)), |Moves(ys)|, Flips(Moves(ys)));
  }

  // -------------------------------------------------------- stabilization

  /** Timestamps that never go back and are never the zero time. */
  ghost predicate Timed(snaps: seq<TimelineSnapshot>) {
    && (forall i | 0 <= i < |snaps| :: snaps[i].timestamp != 0)
    && (forall i, j | 0 <= i < j < |snaps| :: snaps[i].timestamp <= snaps[j].timestamp)
  }

  ghost predicate ScaleDownAt(ys: seq<int>, i: int) {
    0 < i < |ys| && ys[i] < ys[i - 1]
  }

  /** The run so far, as seen from the hold: its date covers every scale-down,
      and one window lies behind each of them. */
  ghost predicate Spaced(snaps: seq<TimelineSnapshot>, ys: seq<int>, h: Hold, w: int) {
    && |ys| == |snaps|
    && (snaps != [] ==> Dated(snaps, ys, h, w))
    && Covers(snaps, ys, h)
    && PairsSpaced(snaps, ys, w)
  }

  ghost predicate Dated(snaps: seq<TimelineSnapshot>, ys: seq<int>, h: Hold, w: int)
    requires |ys| == |snaps| > 0
  {
    && h.since != 0 && snaps[0].timestamp <= h.since <= snaps[|snaps| - 1].timestamp
    && ys[|ys| - 1] == h.level
    && Span(Falls(Moves(ys)), w) <= h.since - snaps[0].timestamp
  }

  /** The time k windows take. */
  function Span(k: int, w: int): int {
    k * w
  }

  lemma NextSpan(k: int, w: int)
    ensures Span(0, w) == 0 && Span(k + 1, w) == Span(k, w) + w
  {
  }

  ghost predicate Covers(snaps: seq<TimelineSnapshot>, ys: seq<int>, h: Hold)
    requires |ys| == |snaps|
  {
    forall i | ScaleDownAt(ys, i) :: snaps[i].timestamp <= h.since
  }

  ghost predicate PairsSpaced(snaps: seq<TimelineSnapshot>, ys: seq<int>, w: int)
    requires |ys| == |snaps|
  {
    forall i, k | ScaleDownAt(ys, i) && ScaleDownAt(ys, k) && i < k ::
      snaps[k].timestamp - snaps[i].timestamp >= w
  }

  lemma {:induction false} RunIsSpaced(c: Candidate, snaps: seq<TimelineSnapshot>)
    requires c.scaleDownWindow > 0 && Timed(snaps)
    requires snaps != [] ==> Clamp(c, snaps[0].desired) >= 0
    ensures Spaced(snaps, Output(c, snaps), Replay(c, snaps).0, c.scaleDownWindow * NANOS)
  {
    if snaps == [] {
      ReplayLength(c, snaps);
    } else {
      var n := |snaps| - 1;
      RunIsSpaced(c, snaps[..n]);
      OutputStep(c, snaps);
      SpacedStep(c, snaps, Output(c, snaps), Replay(c, snaps[..n]).0);
    }
  }

  lemma SpacedStep(c: Candidate, snaps: seq<TimelineSnapshot>, ys: seq<int>, h: Hold)
    requires c.scaleDownWindow > 0 && Timed(snaps) && |snaps| == |ys| > 0
    requires Clamp(c, snaps[0].desired) >= 0
    requires |snaps| == 1 ==> h == Hold(0, 0)
    requires Spaced(snaps[..|snaps| - 1], ys[..|snaps| - 1], h, c.scaleDownWindow * NANOS)
    requires ys[|snaps| - 1]
          == Stabilize(c, h, snaps[|snaps| - 1].timestamp, Clamp(c, snaps[|snaps| - 1].desired)).1
    ensures Spaced(snaps, ys, Stabilize(c, h, snaps[|snaps| - 1].timestamp, Clamp(c, snaps[|snaps| - 1].desired)).0,
                   c.scaleDownWindow * NANOS)
  {
    var n, w := |snaps| - 1, c.scaleDownWindow * NANOS;
    var t, d := snaps[n].timestamp, Clamp(c, snaps[n].desired);
    var h' := Stabilize(c, h, t, d).0;
    FallsStep(ys[..n], ys);
    StabilizeMoves(c, h, t, d);
    NextSpan(Falls(Moves(ys[..n])), w);
    hide Moves, Falls, Clamp, Stabilize, Span;
    EarlierScaleDowns(snaps, ys, n, h, w);
    if n > 0 {
      assert ys[n - 1] == ys[..n][n - 1] == h.level;
      assert snaps[..n][0] == snaps[0] && snaps[..n][n - 1] == snaps[n - 1];
      assert ScaleDownAt(ys, n) ==> t - h.since >= w;
    }
    assert Dated(snaps, ys, h', w);
    hide Dated;
    assert Covers(snaps, ys, h');
    assert PairsSpaced(snaps, ys, w);
    hide Covers, PairsSpaced;
  }

  lemma StabilizeMoves(c: Candidate, h: Hold, t: int, d: int)
    requires c.scaleDownWindow > 0 && (h.since != 0 || (h == Hold(0, 0) && d >= 0))
    ensures var (h', y) := Stabilize(c, h, t, d);
      && h'.level == y
      && (h'.since == t || (h'.since == h.since && h.since != 0))
      && (h.since != 0 && y < h.level ==> h'.since == t && t - h.since >= c.scaleDownWindow * NANOS)
  {
  }

  lemma EarlierScaleDowns(snaps: seq<TimelineSnapshot>, ys: seq<int>, n: nat, h: Hold, w: int)
    requires n < |snaps| == |ys|
    requires Spaced(snaps[..n], ys[..n], h, w)
    ensures forall i | ScaleDownAt(ys, i) && i < n :: snaps[i].timestamp <= h.since
    ensures forall i, k | ScaleDownAt(ys, i) && ScaleDownAt(ys, k) && i < k < n ::
      snaps[k].timestamp - snaps[i].timestamp >= w
  {
    forall i | ScaleDownAt(ys, i) && i < n
      ensures ScaleDownAt(ys[..n], i) && snaps[..n][i] == snaps[i]
    {
    }
  }

  lemma FallsStep(yi: seq<int>, ys: seq<int>)
    requires ys != [] && ys[..|ys| - 1] == yi
    ensures Falls(Moves(ys)) == Falls(Moves(yi)) + (if ScaleDownAt(ys, |ys| - 1) then 1 else 0)
    ensures yi == [] ==> Falls(Moves(ys)) == 0
  {
    if yi != [] {
      assert ys == yi + [ys[|ys| - 1]];
      SnocMoves(yi, ys[|ys| - 1]);
      var more := if ys[|ys| - 1] == yi[|yi| - 1] then [] else [Sign(yi[|yi| - 1], ys[|ys| - 1])];
      if more == [] {
        assert Moves(yi) + [] == Moves(yi);
      } else {
        assert (Moves(yi) + more)[..|Moves(yi)|] == Moves(yi);
      }
    }
  }

  /** Output scale-downs are at least one window apart, so the time covered
      bounds how many there are and how often the direction can flip. */
  lemma StabilizationBound(trace: Trace, c: Candidate)
    requires c.scaleDownWindow > 0 && trace.snapshots != [] && Timed(trace.snapshots)
    requires Clamp(c, trace.snapshots[0].desired) >= 0
    ensures var snaps, ys, w := trace.snapshots, Output(c, trace.snapshots), c.scaleDownWindow * NANOS;
      var most := (snaps[|snaps| - 1].timestamp - snaps[0].timestamp) / w;
      && |ys| == |snaps|
      && (forall i, k | ScaleDownAt(ys, i) && ScaleDownAt(ys, k) && i < k ::
            snaps[k].timestamp - snaps[i].timestamp >= w)
      && Falls(Moves(ys)) <= most
      && Proposed(trace, c).directionFlips <= 2 * most
  {
    var snaps, ys, w := trace.snapshots, Output(c, trace.snapshots), c.scaleDownWindow * NANOS;
    assert Proposed(trace, c).directionFlips == Flips(Moves(ys));
    hide Replay, Output, Moves, Falls, Flips, SummaryOf, Clamp;
    RunIsSpaced(c, snaps);
    MovesAreSigns(ys);
    FlipsBoundedByFalls(Moves(ys));
    Quotient(Falls(Moves(ys)), w, snaps[|snaps| - 1].timestamp - snaps[0].timestamp);
  }

  lemma Quotient(k: nat, w: int, t: int)
    requires w > 0 && k * w <= t
    ensures k <= t / w
  {
    var q := t / w;
    assert t == w * q + t % w;
    assert (k - q) * w < w;
    TimesAtLeast(k - q, w);
  }

  lemma TimesAtLeast(a: int, w: int)
    requires w > 0
    ensures a >= 1 ==> a * w >= w
  {
  }

  /** Every output value is the clamped value of this snapshot or, when larger,
      of an earlier snapshot less than one window old. */
  ghost predicate FromWindow(c: Candidate, snaps: seq<TimelineSnapshot>, i: nat, y: int)
    requires i < |snaps|
  {
    y == Clamp(c, snaps[i].desired)
    || (y > Clamp(c, snaps[i].desired)
        && exists j | 0 <= j < i ::
             y == Clamp(c, snaps[j].desired)
             && snaps[i].timestamp - snaps[j].timestamp < c.scaleDownWindow * NANOS)
  }

  /** The held level is the clamped value of the snapshot it is dated by. */
  lemma {:induction false} HeldComesFrom(c: Candidate, snaps: seq<TimelineSnapshot>)
    ensures var h := Replay(c, snaps).0;
      h.since != 0 ==> exists j | 0 <= j < |snaps| ::
        snaps[j].timestamp == h.since && Clamp(c, snaps[j].desired) == h.level
  {
    if snaps != [] {
      var n := |snaps| - 1;
      var init := snaps[..n];
      HeldComesFrom(c, init);
      OutputStep(c, snaps);
      var h, h' := Replay(c, init).0, Replay(c, snaps).0;
      if h'.since != 0 {
        if h' == h {
          var j :| 0 <= j < n && init[j].timestamp == h.since && Clamp(c, init[j].desired) == h.level;
          assert snaps[j] == init[j];
        } else {
          assert snaps[n].timestamp == h'.since;
        }
      }
    }
  }

  lemma {:induction false} OutputFromWindow(c: Candidate, snaps: seq<TimelineSnapshot>, i: nat)
    requires i < |snaps|
    ensures |Output(c, snaps)| == |snaps| && FromWindow(c, snaps, i, Output(c, snaps)[i])
    decreases |snaps|
  {
    var n := |snaps| - 1;
    var init := snaps[..n];
    OutputStep(c, snaps);
    if i < n {
      OutputFromWindow(c, init, i);
      assert Output(c, snaps)[i] == Output(c, snaps)[..n][i];
      var y := Output(c, snaps)[i];
      if y != Clamp(c, init[i].desired) {
        var j :| 0 <= j < i && y == Clamp(c, init[j].desired)
                 && init[i].timestamp - init[j].timestamp < c.scaleDownWindow * NANOS;
        assert snaps[j] == init[j] && snaps[i] == init[i];
      }
    } else {
      HeldComesFrom(c, init);
      var h, y := Replay(c, init).0, Output(c, snaps)[n];
      if y != Clamp(c, snaps[n].desired) {
        var j :| 0 <= j < n && init[j].timestamp == h.since && Clamp(c, init[j].desired) == h.level;
        assert snaps[j] == init[j];
      }
    }
  }

  /** Replayed values are sandwiched between the clamped record and its recent
      maximum, and stay within the candidate's bounds. */
  lemma StabilizedReplayIsSandwiched(c: Candidate, snaps: seq<TimelineSnapshot>, i: nat)
    requires i < |snaps|
    ensures |Output(c, snaps)| == |snaps|
    ensures FromWindow(c, snaps, i, Output(c, snaps)[i])
    ensures Clamp(c, snaps[i].desired) <= Output(c, snaps)[i] <= c.maxReplicas
    ensures Min(c) <= c.maxReplicas ==> Min(c) <= Output(c, snaps)[i]
    ensures c.scaleDownWindow <= 0 ==> Output(c, snaps)[i] == Clamp(c, snaps[i].desired)
  {
    OutputFromWindow(c, snaps, i);
    if c.scaleDownWindow <= 0 {
      WithoutWindow(c, snaps, i);
    }
  }

  lemma {:induction false} WithoutWindow(c: Candidate, snaps: seq<TimelineSnapshot>, i: nat)
    requires i < |snaps| && c.scaleDownWindow <= 0
    ensures |Output(c, snaps)| == |snaps| && Output(c, snaps)[i] == Clamp(c, snaps[i].desired)
    decreases |snaps|
  {
    OutputStep(c, snaps);
    if i < |snaps| - 1 {
      WithoutWindow(c, snaps[..|snaps| - 1], i);
      assert Output(c, snaps)[i] == Output(c, snaps)[..|snaps| - 1][i];
    }
  }

  // --------------------------------------------------------------- counts

  function CountAbove(snaps: seq<TimelineSnapshot>, bound: int): nat {
    if snaps == [] then 0
    else CountAbove(snaps[..|snaps| - 1], bound) + (if snaps[|snaps| - 1].desired > bound then 1 else 0)
  }

  lemma {:induction false} CappedCountsDemand(replayed: Trace, trace: Trace, maxReplicas: int, n: nat)
    requires maxReplicas > 0 && n <= |trace.snapshots| == |replayed.snapshots|
    ensures CountCapped(replayed, maxReplicas, Some(trace), n) == CountAbove(trace.snapshots[..n], maxReplicas)
  {
    if n > 0 {
      CappedCountsDemand(replayed, trace, maxReplicas, n - 1);
      assert trace.snapshots[..n][..n - 1] == trace.snapshots[..n - 1];
    }
  }

  /** Health is only ever set to limited, and only above the maximum. */
  lemma {:induction false} LimitedCounts(c: Candidate, snaps: seq<TimelineSnapshot>)
    ensures CountLimited(snaps) <= CountLimited(Replay(c, snaps).1)
    ensures Min(c) <= c.maxReplicas ==>
      CountLimited(Replay(c, snaps).1) <= CountLimited(snaps) + CountAbove(snaps, c.maxReplicas)
  {
    if snaps != [] {
      var init, s := snaps[..|snaps| - 1], snaps[|snaps| - 1];
      LimitedCounts(c, init);
      ReplayLength(c, snaps);
      var out, out' := Replay(c, init).1, Replay(c, snaps).1;
      var last := out'[|out'| - 1];
      assert out'[..|out'| - 1] == out;
      assert last.conditions == s.conditions;
      assert IsLimited(s) ==> IsLimited(last);
      assert IsLimited(last) ==> IsLimited(s) || AboveMax(c, s.desired);
    }
  }

  /** Cap and under-provision counters against the recorded demand. */
  lemma CapAndUnderProvision(trace: Trace, c: Candidate)
    requires c.maxReplicas > 0
    ensures var current, proposed := Current(trace), Proposed(trace, c);
      && proposed.maxReplicasReached == CountAbove(trace.snapshots, c.maxReplicas)
      && current.underProvision <= proposed.underProvision
      && (Min(c) <= c.maxReplicas ==>
            proposed.underProvision <= current.underProvision + proposed.maxReplicasReached)
  {
    ReplayLength(c, trace.snapshots);
    CappedCountsDemand(trace.(snapshots := Replay(c, trace.snapshots).1), trace, c.maxReplicas, |trace.snapshots|);
    assert trace.snapshots[..|trace.snapshots|] == trace.snapshots;
    LimitedCounts(c, trace.snapshots);
  }

  /** No candidate is ever reported to have fixed under-provisioning. */
  lemma UnderProvisionNeverFixed(trace: Trace, c: Candidate)
    ensures !ComputeImpact(Current(trace), Proposed(trace, c)).underProvisionFixed
  {
    LimitedCounts(c, trace.snapshots);
  }

  /** A missed scale-up is ruled out exactly when the record was never limited
      and never asked for more than the candidate allows. */
  lemma NoMissedScaleUpExactly(trace: Trace, c: Candidate)
    requires Min(c) <= c.maxReplicas
    ensures ComputeImpact(Current(trace), Proposed(trace, c)).noMissedScaleUp
      <==> CountLimited(trace.snapshots) == 0 && CountAbove(trace.snapshots, c.maxReplicas) == 0
  {
    LimitedCounts(c, trace.snapshots);
    AboveIsLimited(c, trace.snapshots);
  }

  lemma {:induction false} AboveIsLimited(c: Candidate, snaps: seq<TimelineSnapshot>)
    requires Min(c) <= c.maxReplicas
    ensures CountAbove(snaps, c.maxReplicas) <= CountLimited(Replay(c, snaps).1)
  {
    if snaps != [] {
      AboveIsLimited(c, snaps[..|snaps| - 1]);
      ReplayLength(c, snaps);
      var out := Replay(c, snaps).1;
      assert out[..|out| - 1] == Replay(c, snaps[..|snaps| - 1]).1;
    }
  }

  /** A longer window may let go earlier: the hold is dated by the last accepted
      value, not by a sliding maximum, so outputs are not monotone in the window. */
  lemma LongerWindowCanHoldLess()
    ensures var at := (t: int, d: int) => TimelineSnapshot(t * NANOS, d, "", []);
      var snaps := [at(1, 10), at(6, 8), at(9, 2)];
      && Output(Candidate(None, 20, 5), snaps) == [10, 8, 8]
      && Output(Candidate(None, 20, 8), snaps) == [10, 10, 2]
  {
    var at := (t: int, d: int) => TimelineSnapshot(t * NANOS, d, "", []);
    var s0, s1, s2 := at(1, 10), at(6, 8), at(9, 2);
    forall c | c == Candidate(None, 20, 5) || c == Candidate(None, 20, 8)
      ensures Output(c, [s0, s1, s2]) == if c.scaleDownWindow == 5 then [10, 8, 8] else [10, 10, 2]
    {
      assert [] + [s0] == [s0] && [s0] + [s1] == [s0, s1] && [s0, s1] + [s2] == [s0, s1, s2];
      SnocReplay(c, [], s0);
      SnocReplay(c, [s0], s1);
      SnocReplay(c, [s0, s1], s2);
    }
  }
}
