/** Building one result per HPA with a bounded number of workers, as a state
    machine over every interleaving, and what the batch commands read from the
    results. */
module ParallelRuns {
  import opened Common

  datatype Outcome<+T> = Value(value: T) | Failed(error: string)

  /** Not started; waiting for its first look at the context; inside build; done. */
  datatype Phase = Pending | Launched | Building | Ended

  datatype Work<!T> = Work(names: seq<string>, limit: nat, build: string -> Outcome<T>)

  datatype State<+T> = State(phases: seq<Phase>, launched: nat, slots: seq<Option<Outcome<T>>>, cancelled: bool)

  /** The loop starts the next worker; worker `i` looks at the context; worker
      `i` returns from build; the parent context is cancelled. */
  datatype Action<+T> = Launch | Check(i: nat) | Finish(i: nat, outcome: Outcome<T>) | Cancel

  const CANCELLED := "context canceled"

  // ---------------------------------------------------------------- counting

  function Total(phases: seq<Phase>, weight: Phase -> int): int {
    if phases == [] then 0 else Total(phases[..|phases| - 1], weight) + weight(phases[|phases| - 1])
  }

  lemma {:induction false} TotalUpdate(phases: seq<Phase>, i: nat, p: Phase, weight: Phase -> int)
    requires i < |phases|
    ensures Total(phases[i := p], weight) == Total(phases, weight) - weight(phases[i]) + weight(p)
  {
    var n := |phases| - 1;
    if i < n {
      TotalUpdate(phases[..n], i, p, weight);
      assert phases[i := p][..n] == phases[..n][i := p];
    } else {
      assert phases[i := p][..n] == phases[..n];
    }
  }

  lemma {:induction false} TotalBounds(phases: seq<Phase>, weight: Phase -> int, i: nat)
    requires i < |phases| && forall p :: weight(p) >= 0
    ensures Total(phases, weight) >= weight(phases[i]) && Total(phases, weight) >= 0
  {
    var n := |phases| - 1;
    if i < n {
      TotalBounds(phases[..n], weight, i);
    } else if n > 0 {
      TotalBounds(phases[..n], weight, 0);
    }
  }

  function Busy(): Phase -> int { (p: Phase) => if p.Launched? || p.Building? then 1 else 0 }

  function StepsLeft(): Phase -> int {
    (p: Phase) => match p case Pending => 3 case Launched => 2 case Building => 1 case Ended => 0
  }

  /** Workers holding one of the `limit` places. */
  function Running<T>(s: State<T>): int { Total(s.phases, Busy()) }

  function Remaining<T>(s: State<T>): int {
    Total(s.phases, StepsLeft()) + (if s.cancelled then 0 else 1)
  }

  // ------------------------------------------------------------ the machine

  function Initial<T>(w: Work<T>): State<T> {
    State(seq(|w.names|, _ => Pending), 0, seq(|w.names|, _ => None), false)
  }

  predicate WellFormed<T>(w: Work<T>, s: State<T>) {
    |s.phases| == |s.slots| == |w.names| && s.launched <= |w.names|
  }

  /** A worker that was not cancelled builds exactly what build returns; once the
      context is cancelled build may return anything. */
  ghost predicate Enabled<T(!new)>(w: Work<T>, s: State<T>, a: Action<T>)
    requires WellFormed(w, s)
  {
    match a
    case Launch => s.launched < |w.names| && Running(s) < w.limit
    case Check(i) => i < |w.names| && s.phases[i].Launched?
    case Finish(i, outcome) =>
      i < |w.names| && s.phases[i].Building? && (!s.cancelled ==> outcome == w.build(w.names[i]))
    case Cancel => !s.cancelled
  }

  lemma {:induction false} BusyMeans(phases: seq<Phase>)
    ensures Total(phases, Busy()) == HowMany(phases, (p: Phase) => p.Launched? || p.Building?)
  {
    var busy := (p: Phase) => p.Launched? || p.Building?;
    if phases == [] {
      HowManyNone(busy);
    } else {
      var init, last := phases[..|phases| - 1], phases[|phases| - 1];
      BusyMeans(init);
      assert phases == init + [last];
      HowManySnoc(init, last, busy);
    }
  }

  /** The loop goes on to the next name as soon as fewer than `limit` workers are
      waiting or building. */
  lemma LaunchExactly<T(!new)>(w: Work<T>, s: State<T>)
    requires WellFormed(w, s)
    ensures Enabled(w, s, Launch) <==>
      s.launched < |w.names| && HowMany(s.phases, (p: Phase) => p.Launched? || p.Building?) < w.limit
  {
    BusyMeans(s.phases);
  }

  function Apply<T>(w: Work<T>, s: State<T>, a: Action<T>): (next: State<T>)
    requires WellFormed(w, s)
    requires a.Launch? ==> s.launched < |w.names|
    requires a.Check? || a.Finish? ==> a.i < |w.names|
    ensures WellFormed(w, next)
  {
    match a
    case Launch => s.(phases := s.phases[s.launched := Launched], launched := s.launched + 1)
    case Check(i) =>
      if s.cancelled then s.(phases := s.phases[i := Ended], slots := s.slots[i := Some(Failed(CANCELLED))])
      else s.(phases := s.phases[i := Building])
    case Finish(i, outcome) => s.(phases := s.phases[i := Ended], slots := s.slots[i := Some(outcome)])
    case Cancel => s.(cancelled := true)
  }

  /** Every action is enabled when it happens. */
  ghost predicate Legal<T(!new)>(w: Work<T>, run: seq<Action<T>>)
    decreases |run|, 0
  {
    run == [] || (
      var init := run[..|run| - 1];
      Legal(w, init) && Enabled(w, After(w, init), run[|run| - 1]))
  }

  ghost function After<T(!new)>(w: Work<T>, run: seq<Action<T>>): (s: State<T>)
    requires Legal(w, run)
    ensures WellFormed(w, s)
    decreases |run|, 1
  {
    if run == [] then Initial(w)
    else
      Apply(w, After(w, run[..|run| - 1]), run[|run| - 1])
  }

  predicate Finished<T>(s: State<T>) {
    forall i | 0 <= i < |s.phases| :: s.phases[i].Ended?
  }

  // ---------------------------------------------------------------- invariant

  /** Workers are launched in order, and each slot is filled exactly by its own
      worker's end. */
  predicate SlotFits<T>(s: State<T>, i: nat)
    requires i < |s.phases| == |s.slots|
  {
    && (s.phases[i].Pending? <==> i >= s.launched)
    && (s.slots[i].Some? <==> s.phases[i].Ended?)
  }

  ghost predicate Uncancelled<T(!new)>(w: Work<T>, s: State<T>, i: nat)
    requires WellFormed(w, s) && i < |w.names|
  {
    s.slots[i].Some? ==> s.slots[i].value == w.build(w.names[i])
  }

  ghost predicate Consistent<T(!new)>(w: Work<T>, s: State<T>) {
    && WellFormed(w, s)
    && Running(s) <= w.limit
    && (forall i | 0 <= i < |w.names| :: SlotFits(s, i))
    && (!s.cancelled ==> forall i | 0 <= i < |w.names| :: Uncancelled(w, s, i))
  }

  lemma {:induction false} InitialTotals(n: nat, weight: Phase -> int)
    ensures Total(seq(n, _ => Pending), weight) == n * weight(Pending)
  {
    if n > 0 {
      InitialTotals(n - 1, weight);
      assert seq(n, _ => Pending)[..n - 1] == seq(n - 1, _ => Pending);
    }
  }

  lemma StepCounts<T(!new)>(w: Work<T>, s: State<T>, a: Action<T>)
    requires Consistent(w, s) && Enabled(w, s, a)
    ensures Running(Apply(w, s, a)) <= w.limit
    ensures Remaining(Apply(w, s, a)) < Remaining(s)
  {
    match a
    case Launch =>
      assert SlotFits(s, s.launched);
      TotalUpdate(s.phases, s.launched, Launched, Busy());
      TotalUpdate(s.phases, s.launched, Launched, StepsLeft());
    case Check(i) =>
      var p := if s.cancelled then Ended else Building;
      TotalUpdate(s.phases, i, p, Busy());
      TotalUpdate(s.phases, i, p, StepsLeft());
    case Finish(i, _) =>
      TotalUpdate(s.phases, i, Ended, Busy());
      TotalUpdate(s.phases, i, Ended, StepsLeft());
    case Cancel =>
  }

  lemma StepKeeps<T(!new)>(w: Work<T>, s: State<T>, a: Action<T>)
    requires Consistent(w, s) && Enabled(w, s, a)
    ensures Consistent(w, Apply(w, s, a))
  {
    StepCounts(w, s, a);
    hide Running;
    var next := Apply(w, s, a);
    forall i | 0 <= i < |w.names| ensures SlotFits(next, i) && (!next.cancelled ==> Uncancelled(w, next, i)) {
      assert SlotFits(s, i) && (!s.cancelled ==> Uncancelled(w, s, i));
    }
  }

  /** Every schedule, whenever stopped: at most `limit` workers are busy, and as
      long as nothing cancelled the context every filled slot holds what build
      returns for the name at its index. */
  lemma {:induction false} EveryScheduleIsConsistent<T(!new)>(w: Work<T>, run: seq<Action<T>>)
    requires Legal(w, run)
    ensures Consistent(w, After(w, run))
    ensures |run| + Remaining(After(w, run)) <= 3 * |w.names| + 1
  {
    if run == [] {
      InitialTotals(|w.names|, Busy());
      InitialTotals(|w.names|, StepsLeft());
    } else {
      var init, a := run[..|run| - 1], run[|run| - 1];
      EveryScheduleIsConsistent(w, init);
      StepKeeps(w, After(w, init), a);
      StepCounts(w, After(w, init), a);
    }
  }

  lemma {:induction false} TotalsNonNegative(phases: seq<Phase>)
    ensures 0 <= Total(phases, Busy()) && 0 <= Total(phases, StepsLeft())
    ensures Total(phases, Busy()) > 0 ==> exists i | 0 <= i < |phases| :: phases[i].Launched? || phases[i].Building?
  {
    var n := |phases| - 1;
    if phases != [] {
      TotalsNonNegative(phases[..n]);
      if Total(phases[..n], Busy()) > 0 {
        var i :| 0 <= i < n && (phases[..n][i].Launched? || phases[..n][i].Building?);
        assert phases[i].Launched? || phases[i].Building?;
      } else if Total(phases, Busy()) > 0 {
        assert phases[n].Launched? || phases[n].Building?;
      }
    }
  }

  /** Every schedule ends, within three actions a name and one cancellation. */
  lemma SchedulesAreFinite<T(!new)>(w: Work<T>, run: seq<Action<T>>)
    requires Legal(w, run)
    ensures |run| <= 3 * |w.names| + 1
  {
    EveryScheduleIsConsistent(w, run);
    TotalsNonNegative(After(w, run).phases);
  }

  /** No schedule gets stuck before every name has its result. */
  lemma SchedulesNeverStick<T(!new)>(w: Work<T>, run: seq<Action<T>>) returns (a: Action<T>)
    requires Legal(w, run) && w.limit > 0 && !Finished(After(w, run))
    ensures a != Cancel && Legal(w, run + [a])
  {
    EveryScheduleIsConsistent(w, run);
    var s := After(w, run);
    TotalsNonNegative(s.phases);
    if i :| 0 <= i < |s.phases| && s.phases[i].Launched? {
      a := Check(i);
    } else if i :| 0 <= i < |s.phases| && s.phases[i].Building? {
      a := Finish(i, w.build(w.names[i]));
    } else {
      var i :| 0 <= i < |s.phases| && !s.phases[i].Ended?;
      assert SlotFits(s, i);
      a := Launch;
    }
    assert (run + [a])[..|run|] == run;
  }

  // --------------------------------------------------- schedule independence

  lemma {:induction false} CancelsOnlyByCancel<T(!new)>(w: Work<T>, run: seq<Action<T>>)
    requires Legal(w, run)
    ensures After(w, run).cancelled <==> Cancel in run
  {
    if run != [] {
      CancelsOnlyByCancel(w, run[..|run| - 1]);
      assert run == run[..|run| - 1] + [run[|run| - 1]];
    }
  }

  /** One result per name, in input order, whatever the schedule was. */
  lemma ScheduleIndependence<T(!new)>(w: Work<T>, run: seq<Action<T>>)
    requires Legal(w, run) && Finished(After(w, run)) && Cancel !in run
    ensures After(w, run).slots == seq(|w.names|, i requires 0 <= i < |w.names| => Some(w.build(w.names[i])))
  {
    EveryScheduleIsConsistent(w, run);
    CancelsOnlyByCancel(w, run);
    var s := After(w, run);
    forall i | 0 <= i < |w.names| ensures s.slots[i] == Some(w.build(w.names[i])) {
      assert SlotFits(s, i) && Uncancelled(w, s, i);
    }
  }

  /** Once written, a slot stays as it is. */
  lemma {:induction false} SlotsAreWrittenOnce<T(!new)>(w: Work<T>, run: seq<Action<T>>, more: seq<Action<T>>, i: nat)
    requires Legal(w, run + more) && i < |w.names|
    ensures Legal(w, run)
    ensures After(w, run).phases[i].Ended? ==>
              After(w, run + more).phases[i].Ended? && After(w, run + more).slots[i] == After(w, run).slots[i]
  {
    if more == [] {
      assert run + more == run;
    } else {
      var init := more[..|more| - 1];
      assert (run + more)[..|run + more| - 1] == run + init;
      SlotsAreWrittenOnce(w, run, init, i);
      EveryScheduleIsConsistent(w, run + init);
      var s := After(w, run + init);
      assert SlotFits(s, i);
      if s.launched < |w.names| {
        assert SlotFits(s, s.launched);
      }
    }
  }

  /** No build starts after a cancellation: a name that had not entered build by
      then ends with the context's error. */
  lemma {:induction false} CancellationUnwinds<T(!new)>(w: Work<T>, run: seq<Action<T>>, more: seq<Action<T>>, i: nat)
    requires Legal(w, run + more) && Legal(w, run) && i < |w.names|
    requires After(w, run).cancelled && (After(w, run).phases[i].Pending? || After(w, run).phases[i].Launched?)
    ensures var s := After(w, run + more);
            s.cancelled && !s.phases[i].Building?
            && (s.phases[i].Ended? ==> s.slots[i] == Some(Failed(CANCELLED)))
  {
    if more == [] {
      assert run + more == run;
    } else {
      var init := more[..|more| - 1];
      assert (run + more)[..|run + more| - 1] == run + init;
      CancellationUnwinds(w, run, init, i);
      EveryScheduleIsConsistent(w, run + init);
      var s := After(w, run + init);
      assert SlotFits(s, i);
      if s.launched < |w.names| {
        assert SlotFits(s, s.launched);
      }
    }
  }
}
