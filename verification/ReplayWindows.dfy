/** Two stabilization windows compared on one trace: exactly when the longer one
    holds less than the shorter one. */
module ReplayWindows {
  import opened Common
  import opened ReplayLab
  import opened ReplayTheorems

  function Level(c: Candidate, snaps: seq<TimelineSnapshot>, i: nat): int
    requires i < |snaps|
  {
    Clamp(c, snaps[i].desired)
  }

  /** What is held before snapshot `n` is looked at. */
  function HeldBefore(c: Candidate, snaps: seq<TimelineSnapshot>, n: nat): Hold
    requires n <= |snaps|
  {
    Replay(c, snaps[..n]).0
  }

  /** The branch that keeps the held level against a lower value. */
  predicate KeepsAt(c: Candidate, snaps: seq<TimelineSnapshot>, k: nat)
    requires k < |snaps|
  {
    var h := HeldBefore(c, snaps, k);
    Level(c, snaps, k) < h.level && h.since != 0 && snaps[k].timestamp - h.since < c.scaleDownWindow * NANOS
  }

  /** The branch that lets a lower value through once the window is over. */
  predicate ReleasesAt(c: Candidate, snaps: seq<TimelineSnapshot>, k: nat)
    requires k < |snaps|
  {
    var h := HeldBefore(c, snaps, k);
    Level(c, snaps, k) < h.level && h.since != 0 && snaps[k].timestamp - h.since >= c.scaleDownWindow * NANOS
  }

  /** The replay takes snapshot `j` as its level and keeps it through `i`. */
  ghost predicate HoldsFrom(c: Candidate, snaps: seq<TimelineSnapshot>, j: nat, i: nat)
    requires j < i < |snaps|
  {
    && HeldBefore(c, snaps, j + 1) == Hold(Level(c, snaps, j), snaps[j].timestamp)
    && (forall k: nat | j < k <= i :: KeepsAt(c, snaps, k))
  }

  /** One snapshot later, branch by branch. */
  lemma OneMore(c: Candidate, snaps: seq<TimelineSnapshot>, k: nat)
    requires k < |snaps| && c.scaleDownWindow > 0
    ensures |Output(c, snaps)| == |snaps|
    ensures var h, d, y := HeldBefore(c, snaps, k), Level(c, snaps, k), Output(c, snaps)[k];
      && (HeldBefore(c, snaps, k + 1), y)
         == (if d < h.level && h.since == 0 then (h, d)
             else if KeepsAt(c, snaps, k) then (h, h.level)
             else (Hold(d, snaps[k].timestamp), d))
  {
    var upTo := snaps[..k + 1];
    assert upTo[..k] == snaps[..k] && upTo[k] == snaps[k];
    OutputStep(c, upTo);
    OutputPrefix(c, snaps, k + 1);
  }

  lemma {:induction false} OutputPrefix(c: Candidate, snaps: seq<TimelineSnapshot>, n: nat)
    requires n <= |snaps|
    ensures |Output(c, snaps)| == |snaps| && |Output(c, snaps[..n])| == n
    ensures Output(c, snaps)[..n] == Output(c, snaps[..n])
  {
    if n == |snaps| {
      assert snaps[..n] == snaps;
      HeldIsLastOutput(c, snaps);
    } else {
      var init := snaps[..|snaps| - 1];
      OutputPrefix(c, init, n);
      OutputStep(c, snaps);
      assert init[..n] == snaps[..n];
      assert Output(c, snaps)[..n] == Output(c, snaps)[..|init|][..n];
    }
  }

  /** A replay starts to hold at the first value that is not negative, whatever
      its window. */
  lemma {:induction false} StartsTogether(a: Candidate, b: Candidate, snaps: seq<TimelineSnapshot>, n: nat)
    requires n <= |snaps| && Timed(snaps) && SameBounds(a, b)
    ensures HeldBefore(a, snaps, n).since == 0 <==> HeldBefore(b, snaps, n).since == 0
    ensures HeldBefore(a, snaps, n).since == 0 ==> HeldBefore(a, snaps, n) == HeldBefore(b, snaps, n) == Hold(0, 0)
  {
    if n > 0 {
      StartsTogether(a, b, snaps, n - 1);
      OneMore(a, snaps, n - 1);
      OneMore(b, snaps, n - 1);
      hide Replay, Output;
    } else {
      assert snaps[..0] == [];
    }
  }

  /** The candidates differ in their windows only. */
  predicate SameBounds(a: Candidate, b: Candidate) {
    a.scaleDownWindow > 0 && b.scaleDownWindow > 0 && b == a.(scaleDownWindow := b.scaleDownWindow)
  }

  lemma SameLevel(a: Candidate, b: Candidate, snaps: seq<TimelineSnapshot>, i: nat)
    requires i < |snaps| && SameBounds(a, b)
    ensures Level(a, snaps, i) == Level(b, snaps, i)
  {
  }

  /** Output is never below the clamped value; above it means keeping. */
  lemma OutputAtLeast(c: Candidate, snaps: seq<TimelineSnapshot>, i: nat)
    requires i < |snaps| && c.scaleDownWindow > 0
    ensures |Output(c, snaps)| == |snaps|
    ensures Level(c, snaps, i) <= Output(c, snaps)[i]
    ensures Level(c, snaps, i) < Output(c, snaps)[i] <==> KeepsAt(c, snaps, i)
  {
    OneMore(c, snaps, i);
  }

  lemma NothingHeld(c: Candidate, snaps: seq<TimelineSnapshot>)
    ensures HeldBefore(c, snaps, 0) == Hold(0, 0)
  {
    assert snaps[..0] == [];
  }

  /** While a level is kept it goes back to the snapshot it was taken from. */
  lemma {:induction false} KeptFrom(c: Candidate, snaps: seq<TimelineSnapshot>, i: nat) returns (j: nat)
    requires i < |snaps| && Timed(snaps) && c.scaleDownWindow > 0 && KeepsAt(c, snaps, i)
    ensures j < i && HoldsFrom(c, snaps, j, i)
    ensures |Output(c, snaps)| == |snaps| && Output(c, snaps)[i] == Level(c, snaps, j)
  {
    hide Replay, Output, Clamp;
    OneMore(c, snaps, i);
    NothingHeld(c, snaps);
    if i > 0 {
      OneMore(c, snaps, i - 1);
      if KeepsAt(c, snaps, i - 1) {
        j := KeptFrom(c, snaps, i - 1);
      } else {
        j := i - 1;
      }
    }
  }

  /** The longer replay, from a snapshot `j` the shorter one holds from: it stays
      at or above that level until it releases below it, and then below. */
  lemma {:induction false} SinceTaken(longer: Candidate, shorter: Candidate, snaps: seq<TimelineSnapshot>,
                                      j: nat, i: nat)
    requires j < |snaps| && j <= i < |snaps| && Timed(snaps) && SameBounds(shorter, longer)
    requires HeldBefore(shorter, snaps, j + 1) == Hold(Level(shorter, snaps, j), snaps[j].timestamp)
    requires forall k: nat | j < k <= i :: Level(shorter, snaps, k) < Level(shorter, snaps, j)
    ensures var h := HeldBefore(longer, snaps, i + 1);
      && |Output(longer, snaps)| == |snaps|
      && h.since != 0 && Output(longer, snaps)[i] == h.level
      && (h.level < Level(shorter, snaps, j) <==>
            exists k: nat | j < k <= i :: ReleasesBelow(longer, snaps, k, Level(shorter, snaps, j)))
  {
    OneMore(longer, snaps, i);
    if i == j {
      StartsTogether(longer, shorter, snaps, j + 1);
    } else {
      SinceTaken(longer, shorter, snaps, j, i - 1);
      var taken := Level(shorter, snaps, j);
      SameLevel(shorter, longer, snaps, i);
      hide Level, Replay, Output, Clamp;
      if ReleasesBelow(longer, snaps, i, taken) {
      } else if HeldBefore(longer, snaps, i).level < taken {
        var k: nat :| j < k <= i - 1 && ReleasesBelow(longer, snaps, k, taken);
      }
    }
  }

  ghost predicate ReleasesBelow(c: Candidate, snaps: seq<TimelineSnapshot>, k: nat, level: int)
    requires k < |snaps|
  {
    ReleasesAt(c, snaps, k) && Level(c, snaps, k) < level
  }

  /** The shorter replay holds at `i` the level of snapshot `j`, and meanwhile the
      longer one has let go below that level. */
  ghost predicate LetGoMeanwhile(longer: Candidate, shorter: Candidate, snaps: seq<TimelineSnapshot>,
                                 j: nat, k: nat, i: nat)
    requires i < |snaps|
  {
    && j < k <= i
    && HoldsFrom(shorter, snaps, j, i)
    && ReleasesBelow(longer, snaps, k, Level(shorter, snaps, j))
  }

  /** The longer window is lower exactly where it has let go of an older, higher
      level while the shorter one holds a newer level. */
  lemma LongerIsLowerExactly(longer: Candidate, shorter: Candidate, snaps: seq<TimelineSnapshot>, i: nat)
    requires i < |snaps| && Timed(snaps) && SameBounds(shorter, longer)
    ensures |Output(longer, snaps)| == |snaps| && |Output(shorter, snaps)| == |snaps|
    ensures Output(longer, snaps)[i] < Output(shorter, snaps)[i]
      <==> exists j: nat, k: nat :: LetGoMeanwhile(longer, shorter, snaps, j, k, i)
  {
    OutputAtLeast(longer, snaps, i);
    OutputAtLeast(shorter, snaps, i);
    hide Replay, Output, Clamp;
    if Output(longer, snaps)[i] < Output(shorter, snaps)[i] {
      var j := KeptFrom(shorter, snaps, i);
      KeptLower(shorter, snaps, j, i);
      SinceTaken(longer, shorter, snaps, j, i);
      var k: nat :| j < k <= i && ReleasesBelow(longer, snaps, k, Level(shorter, snaps, j));
      assert LetGoMeanwhile(longer, shorter, snaps, j, k, i);
    }
    if j: nat, k: nat :| LetGoMeanwhile(longer, shorter, snaps, j, k, i) {
      KeptLower(shorter, snaps, j, i);
      SinceTaken(longer, shorter, snaps, j, i);
    }
  }

  /** Kept levels are above what they are kept against, and are the output. */
  lemma {:induction false} KeptLower(c: Candidate, snaps: seq<TimelineSnapshot>, j: nat, i: nat)
    requires j < i < |snaps| && c.scaleDownWindow > 0 && HoldsFrom(c, snaps, j, i)
    ensures HeldBefore(c, snaps, i + 1) == Hold(Level(c, snaps, j), snaps[j].timestamp)
    ensures |Output(c, snaps)| == |snaps| && Output(c, snaps)[i] == Level(c, snaps, j)
    ensures forall k: nat | j < k <= i :: Level(c, snaps, k) < Level(c, snaps, j)
    ensures snaps[i].timestamp - snaps[j].timestamp < c.scaleDownWindow * NANOS
  {
    OneMore(c, snaps, i);
    assert KeepsAt(c, snaps, i);
    if j < i - 1 {
      KeptLower(c, snaps, j, i - 1);
    }
  }

  // ------------------------------------------------ seen from the trace alone

  /** A peak, a lower peak after it, and a value below both: old enough for the
      longer window to have let go of the first, not old enough for the shorter
      one to let go of the second. */
  ghost predicate TwoStepFall(longer: Candidate, shorter: Candidate, snaps: seq<TimelineSnapshot>,
                              m: nat, j: nat, i: nat)
    requires i < |snaps|
  {
    && m < j < i
    && Level(shorter, snaps, m) > Level(shorter, snaps, j) > Level(shorter, snaps, i)
    && snaps[i].timestamp - snaps[m].timestamp >= longer.scaleDownWindow * NANOS
    && snaps[i].timestamp - snaps[j].timestamp < shorter.scaleDownWindow * NANOS
  }

  /** A hold dated before snapshot `j` is above it. */
  lemma {:induction false} OlderIsHigher(c: Candidate, snaps: seq<TimelineSnapshot>, j: nat, k: nat)
    requires j < k <= |snaps| && Timed(snaps) && c.scaleDownWindow > 0
    requires 0 != HeldBefore(c, snaps, k).since < snaps[j].timestamp
    ensures HeldBefore(c, snaps, k).level > Level(c, snaps, j)
  {
    OneMore(c, snaps, k - 1);
    if j < k - 1 {
      OlderIsHigher(c, snaps, j, k - 1);
    }
  }

  lemma Earlier(snaps: seq<TimelineSnapshot>, m: nat, k: nat, j: nat, i: nat, long: int, short: int)
    requires m < k <= i < |snaps| && j < i && Timed(snaps) && short <= long
    requires snaps[k].timestamp - snaps[m].timestamp >= long && snaps[i].timestamp - snaps[j].timestamp < short
    ensures m < j && snaps[m].timestamp < snaps[j].timestamp && snaps[i].timestamp - snaps[m].timestamp >= long
  {
    assert k < i ==> snaps[k].timestamp <= snaps[i].timestamp;
  }

  /** The older level the longer replay has let go of. */
  lemma PeakLetGo(longer: Candidate, shorter: Candidate, snaps: seq<TimelineSnapshot>, j: nat, k: nat, i: nat)
    returns (m: nat)
    requires i < |snaps| && Timed(snaps) && SameBounds(shorter, longer)
    requires shorter.scaleDownWindow <= longer.scaleDownWindow && LetGoMeanwhile(longer, shorter, snaps, j, k, i)
    ensures TwoStepFall(longer, shorter, snaps, m, j, i)
  {
    KeptLower(shorter, snaps, j, i);
    m := DatedBy(longer, snaps, k);
    SameLevel(shorter, longer, snaps, m);
    SameLevel(shorter, longer, snaps, j);
    hide Level, HeldBefore;
    Earlier(snaps, m, k, j, i, longer.scaleDownWindow * NANOS, shorter.scaleDownWindow * NANOS);
    OlderIsHigher(longer, snaps, j, k);
  }

  lemma DatedBy(c: Candidate, snaps: seq<TimelineSnapshot>, k: nat) returns (m: nat)
    requires k < |snaps| && HeldBefore(c, snaps, k).since != 0
    ensures m < k && HeldBefore(c, snaps, k) == Hold(Level(c, snaps, m), snaps[m].timestamp)
  {
    HeldComesFrom(c, snaps[..k]);
    hide Replay, Clamp;
    var h := HeldBefore(c, snaps, k);
    m :| m < k && snaps[..k][m].timestamp == h.since && Clamp(c, snaps[..k][m].desired) == h.level;
  }

  /** Without such a fall in the trace the longer window is never lower there. */
  lemma LongerIsLowerOnlyAfterTwoSteps(longer: Candidate, shorter: Candidate, snaps: seq<TimelineSnapshot>, i: nat)
    requires i < |snaps| && Timed(snaps) && SameBounds(shorter, longer)
    requires shorter.scaleDownWindow <= longer.scaleDownWindow
    ensures |Output(longer, snaps)| == |snaps| && |Output(shorter, snaps)| == |snaps|
    ensures Output(longer, snaps)[i] < Output(shorter, snaps)[i] ==>
      exists m: nat, j: nat :: TwoStepFall(longer, shorter, snaps, m, j, i)
  {
    LongerIsLowerExactly(longer, shorter, snaps, i);
    if Output(longer, snaps)[i] < Output(shorter, snaps)[i] {
      var j: nat, k: nat :| LetGoMeanwhile(longer, shorter, snaps, j, k, i);
      var m := PeakLetGo(longer, shorter, snaps, j, k, i);
    }
  }

  /** So a trace shorter than the longer window is never replayed lower by it. */
  lemma ShortTraceNeverLower(longer: Candidate, shorter: Candidate, snaps: seq<TimelineSnapshot>, i: nat)
    requires i < |snaps| && Timed(snaps) && SameBounds(shorter, longer)
    requires shorter.scaleDownWindow <= longer.scaleDownWindow
    requires snaps[|snaps| - 1].timestamp - snaps[0].timestamp < longer.scaleDownWindow * NANOS
    ensures |Output(longer, snaps)| == |snaps| && |Output(shorter, snaps)| == |snaps|
    ensures Output(longer, snaps)[i] >= Output(shorter, snaps)[i]
  {
    LongerIsLowerOnlyAfterTwoSteps(longer, shorter, snaps, i);
    hide Output;
    if m: nat, j: nat :| TwoStepFall(longer, shorter, snaps, m, j, i) {
      assert snaps[0].timestamp <= snaps[m].timestamp && snaps[i].timestamp <= snaps[|snaps| - 1].timestamp;
    }
  }
}
