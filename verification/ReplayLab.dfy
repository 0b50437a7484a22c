/** Replaying a recorded HPA trace against a candidate configuration, and the
    summaries compared afterwards. */
module ReplayLab {
  import opened Common
  import opened Directions

  const LIMITED := "LIMITED"
  const SCALING_LIMITED := "ScalingLimited"
  const NANOS := 1_000_000_000

  datatype Condition = Condition(kind: string, status: string)

  /** Timestamps in nanoseconds; 0 is the zero time. */
  datatype TimelineSnapshot = TimelineSnapshot(timestamp: int, desired: int, health: string,
                                               conditions: seq<Condition>)
  datatype Trace = Trace(interval: int, snapshots: seq<TimelineSnapshot>)
  datatype Candidate = Candidate(minReplicas: Option<int>, maxReplicas: int, scaleDownWindow: int)

  datatype Label = Calm | Low | Medium | High {
    function Rank(): nat {
      match this case Calm => 0 case Low => 1 case Medium => 2 case High => 3
    }
  }

  /** Pod-hours are kept as replica-seconds. */
  datatype Summary = Summary(snapshots: nat, maxReplicas: int, peakReplicas: int,
                             maxReplicasReached: nat, cappedSeconds: int, underProvision: nat,
                             replicaSeconds: int, scaleEvents: nat, directionFlips: nat, flapping: Label)

  // -------------------------------------------------- applying a candidate

  /** The level held by scale-down stabilization and when it was last reached. */
  datatype Hold = Hold(level: int, since: int)

  function Min(c: Candidate): int {
    if c.minReplicas.Some? then c.minReplicas.value else 1
  }

  function Clamp(c: Candidate, desired: int): int {
    var raised := if desired < Min(c) then Min(c) else desired;
    if raised > c.maxReplicas then c.maxReplicas else raised
  }

  predicate AboveMax(c: Candidate, desired: int) {
    (if desired < Min(c) then Min(c) else desired) > c.maxReplicas
  }

  /** One snapshot through the stabilization: the next hold and the output. */
  function Stabilize(c: Candidate, h: Hold, timestamp: int, desired: int): (Hold, int) {
    if c.scaleDownWindow <= 0 then (h, desired)
    else if desired >= h.level then (Hold(desired, timestamp), desired)
    else if h.since == 0 then (h, desired)
    else if timestamp - h.since < c.scaleDownWindow * NANOS then (h, h.level)
    else (Hold(desired, timestamp), desired)
  }

  function Replay(c: Candidate, snaps: seq<TimelineSnapshot>): (Hold, seq<TimelineSnapshot>) {
    if snaps == [] then (Hold(0, 0), []) else
      var (h, out) := Replay(c, snaps[..|snaps| - 1]);
      var s := snaps[|snaps| - 1];
      var (h', desired) := Stabilize(c, h, s.timestamp, Clamp(c, s.desired));
      (h', out + [s.(desired := desired, health := if AboveMax(c, s.desired) then LIMITED else s.health)])
  }

  lemma SnocReplay(c: Candidate, snaps: seq<TimelineSnapshot>, s: TimelineSnapshot)
    ensures var (h, out) := Replay(c, snaps);
      var (h', desired) := Stabilize(c, h, s.timestamp, Clamp(c, s.desired));
      Replay(c, snaps + [s])
      == (h', out + [s.(desired := desired, health := if AboveMax(c, s.desired) then LIMITED else s.health)])
  {
    assert (snaps + [s])[..|snaps|] == snaps;
  }

  lemma {:induction false} ReplayLength(c: Candidate, snaps: seq<TimelineSnapshot>)
    ensures |Replay(c, snaps).1| == |snaps|
  {
    if snaps != [] { ReplayLength(c, snaps[..|snaps| - 1]); }
  }

  method ApplyReplayCandidate(trace: Trace, c: Candidate) returns (out: Trace)
    ensures out == trace.(snapshots := Replay(c, trace.snapshots).1)
  {
    var snaps := trace.snapshots;
    var lastHeldDesired, lastHighTime := 0, 0;
    for i := 0 to |trace.snapshots|
      invariant |snaps| == |trace.snapshots|
      invariant snaps[i..] == trace.snapshots[i..]
      invariant Replay(c, trace.snapshots[..i]) == (Hold(lastHeldDesired, lastHighTime), snaps[..i])
    {
      var snap := snaps[i];
      assert snap == trace.snapshots[i] by { assert snaps[i..][0] == trace.snapshots[i..][0]; }
      SnocReplay(c, trace.snapshots[..i], snap);
      assert trace.snapshots[..i + 1] == trace.snapshots[..i] + [snap];
      ghost var before := snaps;
      var desired := snap.desired;
      if desired < Min(c) {
        desired := Min(c);
      }
      if desired > c.maxReplicas {
        desired := c.maxReplicas;
        snaps := snaps[i := snaps[i].(health := LIMITED)];
      }
      if c.scaleDownWindow > 0 {
        if desired >= lastHeldDesired {
          lastHeldDesired, lastHighTime := desired, snap.timestamp;
        } else if lastHighTime != 0 {
          if snap.timestamp - lastHighTime < c.scaleDownWindow * NANOS {
            desired := lastHeldDesired;
          } else {
            lastHeldDesired, lastHighTime := desired, snap.timestamp;
          }
        }
      }
      snaps := snaps[i := snaps[i].(desired := desired)];
      assert snaps[..i + 1] == before[..i] + [snaps[i]];
      assert snaps[i + 1..] == before[i..][1..];
      assert trace.snapshots[i + 1..] == trace.snapshots[i..][1..];
    }
    assert trace.snapshots[..|trace.snapshots|] == trace.snapshots;
    assert snaps[..|snaps|] == snaps;
    out := trace.(snapshots := snaps);
  }

  // ---------------------------------------------------------- summarizing

  function Desired(snaps: seq<TimelineSnapshot>): seq<int> {
    seq(|snaps|, i requires 0 <= i < |snaps| => snaps[i].desired)
  }

  predicate IsLimited(s: TimelineSnapshot) {
    s.health == LIMITED
    || exists i | 0 <= i < |s.conditions| :: s.conditions[i] == Condition(SCALING_LIMITED, "True")
  }

  predicate SnapshotCapped(s: TimelineSnapshot, index: nat, maxReplicas: int, demand: Option<Trace>) {
    maxReplicas > 0
    && (if demand.Some? && index < |demand.value.snapshots|
        then demand.value.snapshots[index].desired > maxReplicas
        else s.desired >= maxReplicas)
  }

  /** Whole seconds until the next snapshot, or the sampling interval. */
  function DurationSeconds(trace: Trace, index: nat): int {
    if index + 1 < |trace.snapshots|
       && trace.snapshots[index + 1].timestamp > trace.snapshots[index].timestamp
    then (trace.snapshots[index + 1].timestamp - trace.snapshots[index].timestamp) / NANOS
    else if trace.interval > 0 then trace.interval / NANOS
    else 0
  }

  function Peak(snaps: seq<TimelineSnapshot>): int {
    if snaps == [] then 0
    else
      var p, d := Peak(snaps[..|snaps| - 1]), snaps[|snaps| - 1].desired;
      if d > p then d else p
  }

  function CountLimited(snaps: seq<TimelineSnapshot>): nat {
    if snaps == [] then 0
    else CountLimited(snaps[..|snaps| - 1]) + (if IsLimited(snaps[|snaps| - 1]) then 1 else 0)
  }

  function CountCapped(trace: Trace, maxReplicas: int, demand: Option<Trace>, n: nat): nat
    requires n <= |trace.snapshots|
  {
    if n == 0 then 0
    else CountCapped(trace, maxReplicas, demand, n - 1)
         + (if SnapshotCapped(trace.snapshots[n - 1], n - 1, maxReplicas, demand) then 1 else 0)
  }

  function CappedSeconds(trace: Trace, maxReplicas: int, demand: Option<Trace>, n: nat): int
    requires n <= |trace.snapshots|
  {
    if n == 0 then 0
    else CappedSeconds(trace, maxReplicas, demand, n - 1)
         + (if SnapshotCapped(trace.snapshots[n - 1], n - 1, maxReplicas, demand)
            then DurationSeconds(trace, n - 1) else 0)
         + (if IsLimited(trace.snapshots[n - 1]) && maxReplicas == 0
            then DurationSeconds(trace, n - 1) else 0)
  }

  function ReplicaSeconds(trace: Trace, n: nat): int
    requires n <= |trace.snapshots|
  {
    if n == 0 then 0
    else ReplicaSeconds(trace, n - 1) + Usage(trace.snapshots[n - 1].desired, DurationSeconds(trace, n - 1))
  }

  function Usage(replicas: int, seconds: int): int {
    replicas * seconds
  }

  function FlappingScore(scaleEvents: int, directionFlips: int): Label {
    if directionFlips >= 6 || scaleEvents >= 15 then High
    else if directionFlips >= 3 || scaleEvents >= 8 then Medium
    else if directionFlips > 0 || scaleEvents >= 4 then Low
    else Calm
  }

  function SummaryOf(trace: Trace, maxReplicas: int, demand: Option<Trace>): Summary {
    var n, moves := |trace.snapshots|, Moves(Desired(trace.snapshots));
    Summary(n, maxReplicas, Peak(trace.snapshots), CountCapped(trace, maxReplicas, demand, n),
            CappedSeconds(trace, maxReplicas, demand, n), CountLimited(trace.snapshots),
            ReplicaSeconds(trace, n), |moves|, Flips(moves), FlappingScore(|moves|, Flips(moves)))
  }

  method Summarize(trace: Trace, maxReplicas: int, demand: Option<Trace>) returns (s: Summary)
    ensures s == SummaryOf(trace, maxReplicas, demand)
  {
    SummaryStart(trace, maxReplicas, demand);
    hide Peak, CountLimited, CountCapped, CappedSeconds, ReplicaSeconds, Usage, MovesSeen, Desired,
         IsLimited, SnapshotCapped, DurationSeconds;
    var peak, reached, cappedSeconds, under, replicaSeconds := 0, 0, 0, 0, 0;
    var events, flips := 0, 0;
    var lastDesired, lastDirection := 0, 0;
    for i := 0 to |trace.snapshots|
      invariant peak == Peak(trace.snapshots[..i])
      invariant under == CountLimited(trace.snapshots[..i])
      invariant reached == CountCapped(trace, maxReplicas, demand, i)
      invariant cappedSeconds == CappedSeconds(trace, maxReplicas, demand, i)
      invariant replicaSeconds == ReplicaSeconds(trace, i)
      invariant MovesSeen(Desired(trace.snapshots[..i]), events, flips, lastDesired, lastDirection)
    {
      var snap := trace.snapshots[i];
      SummaryStep(trace, maxReplicas, demand, i);
      var seconds := DurationSeconds(trace, i);
      if snap.desired > peak {
        peak := snap.desired;
      }
      if SnapshotCapped(snap, i, maxReplicas, demand) {
        reached := reached + 1;
        cappedSeconds := cappedSeconds + seconds;
      }
      if IsLimited(snap) {
        under := under + 1;
        if maxReplicas == 0 {
          cappedSeconds := cappedSeconds + seconds;
        }
      }
      replicaSeconds := replicaSeconds + Usage(snap.desired, seconds);
      SeeMove(Desired(trace.snapshots[..i]), events, flips, lastDesired, lastDirection, snap.desired);
      if i == 0 {
        lastDesired := snap.desired;
      } else if snap.desired != lastDesired {
        events := events + 1;
        var direction := if snap.desired < lastDesired then -1 else 1;
        if lastDirection != 0 && direction != lastDirection {
          flips := flips + 1;
        }
        lastDirection := direction;
        lastDesired := snap.desired;
      }
    }
    assert trace.snapshots[..|trace.snapshots|] == trace.snapshots;
    MovesSeenMeans(Desired(trace.snapshots), events, flips, lastDesired, lastDirection);
    s := Summary(|trace.snapshots|, maxReplicas, peak, reached, cappedSeconds, under,
                 replicaSeconds, events, flips, FlappingScore(events, flips));
  }

  lemma SummaryStart(trace: Trace, maxReplicas: int, demand: Option<Trace>)
    ensures var none := trace.snapshots[..0];
      && Peak(none) == 0 && CountLimited(none) == 0
      && CountCapped(trace, maxReplicas, demand, 0) == 0
      && CappedSeconds(trace, maxReplicas, demand, 0) == 0
      && ReplicaSeconds(trace, 0) == 0
      && MovesSeen(Desired(none), 0, 0, 0, 0)
      && |Desired(none)| == 0
  {
  }

  /** How every total grows at one snapshot. */
  lemma SummaryStep(trace: Trace, maxReplicas: int, demand: Option<Trace>, i: nat)
    requires i < |trace.snapshots|
    ensures var snaps, snap, seconds := trace.snapshots, trace.snapshots[i], DurationSeconds(trace, i);
      var capped := SnapshotCapped(snap, i, maxReplicas, demand);
      && Peak(snaps[..i + 1]) == (if snap.desired > Peak(snaps[..i]) then snap.desired else Peak(snaps[..i]))
      && CountLimited(snaps[..i + 1]) == CountLimited(snaps[..i]) + (if IsLimited(snap) then 1 else 0)
      && CountCapped(trace, maxReplicas, demand, i + 1)
         == CountCapped(trace, maxReplicas, demand, i) + (if capped then 1 else 0)
      && CappedSeconds(trace, maxReplicas, demand, i + 1)
         == CappedSeconds(trace, maxReplicas, demand, i) + (if capped then seconds else 0)
            + (if IsLimited(snap) && maxReplicas == 0 then seconds else 0)
      && ReplicaSeconds(trace, i + 1) == ReplicaSeconds(trace, i) + Usage(snap.desired, seconds)
      && Desired(snaps[..i + 1]) == Desired(snaps[..i]) + [snap.desired]
      && |Desired(snaps[..i])| == i
  {
    assert trace.snapshots[..i + 1][..i] == trace.snapshots[..i];
  }

  /** What the counters of the summary loop mean. */
  ghost predicate MovesSeen(xs: seq<int>, events: int, flips: int, lastDesired: int, lastDirection: int) {
    var moves := Moves(xs);
    && events == |moves| && flips == Flips(moves)
    && (xs != [] ==> lastDesired == xs[|xs| - 1])
    && lastDirection == (if moves == [] then 0 else moves[|moves| - 1])
  }

  lemma MovesSeenMeans(xs: seq<int>, events: int, flips: int, lastDesired: int, lastDirection: int)
    requires MovesSeen(xs, events, flips, lastDesired, lastDirection)
    ensures events == |Moves(xs)| && flips == Flips(Moves(xs))
    ensures xs != [] ==> lastDesired == xs[|xs| - 1]
  {
  }

  lemma SeeMove(xs: seq<int>, events: int, flips: int, lastDesired: int, lastDirection: int, x: int)
    requires MovesSeen(xs, events, flips, lastDesired, lastDirection)
    ensures xs == [] || x == lastDesired ==> MovesSeen(xs + [x], events, flips, x, lastDirection)
    ensures xs != [] && x != lastDesired ==>
      var direction := Sign(lastDesired, x);
      MovesSeen(xs + [x], events + 1,
                flips + (if lastDirection != 0 && direction != lastDirection then 1 else 0), x, direction)
  {
    MovesAreSigns(xs);
    if xs != [] {
      SnocMoves(xs, x);
      var moves := Moves(xs);
      if x == lastDesired {
        assert moves + [] == moves;
      } else {
        assert (moves + [Sign(lastDesired, x)])[..|moves|] == moves;
      }
    }
  }

  // ------------------------------------------------------- comparing both

  datatype Impact = Impact(eventReductionPct: real, replicaSecondsChangePct: real,
                           underProvisionFixed: bool, additionalWorstCase: int, noMissedScaleUp: bool)

  function ComputeImpact(current: Summary, proposed: Summary): Impact {
    Impact(
      if current.scaleEvents > 0 && proposed.scaleEvents < current.scaleEvents
      then (current.scaleEvents - proposed.scaleEvents) as real / current.scaleEvents as real * 100.0 else 0.0,
      if current.replicaSeconds > 0
      then (proposed.replicaSeconds - current.replicaSeconds) as real / current.replicaSeconds as real * 100.0
      else 0.0,
      proposed.underProvision == 0 && current.underProvision > 0,
      if proposed.maxReplicas > current.peakReplicas then proposed.maxReplicas - current.peakReplicas else 0,
      proposed.underProvision == 0)
  }

  /** The baseline and the candidate summary of one report. */
  function Current(trace: Trace): Summary {
    SummaryOf(trace, 0, None)
  }

  function Proposed(trace: Trace, c: Candidate): Summary {
    SummaryOf(trace.(snapshots := Replay(c, trace.snapshots).1), c.maxReplicas, Some(trace))
  }

  method SummarizeCandidate(trace: Trace, c: Candidate, current: Summary)
    returns (s: Summary, additionalWorstCase: int, extraReplicaSeconds: int)
    ensures s == Proposed(trace, c)
    ensures additionalWorstCase == c.maxReplicas - current.peakReplicas
    ensures extraReplicaSeconds == s.replicaSeconds - current.replicaSeconds
  {
    var replayed := ApplyReplayCandidate(trace, c);
    s := Summarize(replayed, c.maxReplicas, Some(trace));
    additionalWorstCase := c.maxReplicas - current.peakReplicas;
    extraReplicaSeconds := s.replicaSeconds - current.replicaSeconds;
  }
}
