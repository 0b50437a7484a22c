/** What the batch commands make of the parallel results: the values or the first
    error in input order, and one exit code for the whole run. */
module BatchResults {
  import opened Common
  import opened ParallelRuns

  // ---------------------------------------------------------------- collecting

  /** The loop the parallel helper replaced: build one name after another and
      stop at the first error. */
  function Sequentially<T>(names: seq<string>, build: string -> Outcome<T>): Outcome<seq<T>> {
    if names == [] then Value([])
    else
      match build(names[0])
      case Failed(e) => Failed(e)
      case Value(v) =>
        match Sequentially(names[1..], build)
        case Failed(e) => Failed(e)
        case Value(vs) => Value([v] + vs)
  }

  /** What mapPerHPA returns once every worker ended. */
  ghost function Results<T(!new)>(w: Work<T>, run: seq<Action<T>>): seq<Outcome<T>>
    requires Legal(w, run) && Finished(After(w, run))
  {
    EveryScheduleIsConsistent(w, run);
    var s := After(w, run);
    assert forall i | 0 <= i < |s.slots| :: SlotFits(s, i) && s.slots[i].Some?;
    seq(|s.slots|, i requires 0 <= i < |s.slots| && s.slots[i].Some? => s.slots[i].value)
  }

  /** The values, or the error of the lowest index that failed. */
  method CollectPerHPA<T>(results: seq<Outcome<T>>) returns (values: Outcome<seq<T>>)
    ensures values.Value? <==> forall i | 0 <= i < |results| :: results[i].Value?
    ensures values.Value? ==>
      |values.value| == |results| && forall i | 0 <= i < |results| :: results[i] == Value(values.value[i])
    ensures values.Failed? ==> exists i | 0 <= i < |results| ::
      results[i] == Failed(values.error) && forall j | 0 <= j < i :: results[j].Value?
  {
    var collected: seq<T> := [];
    for i := 0 to |results|
      invariant |collected| == i && forall j | 0 <= j < i :: results[j] == Value(collected[j])
    {
      match results[i]
      case Failed(e) =>
        return Failed(e);
      case Value(v) =>
        collected := collected + [v];
    }
    values := Value(collected);
  }

  lemma {:induction false} SequentialValues<T>(names: seq<string>, build: string -> Outcome<T>, values: seq<T>)
    requires |values| == |names| && forall i | 0 <= i < |names| :: build(names[i]) == Value(values[i])
    ensures Sequentially(names, build) == Value(values)
  {
    if names != [] {
      assert build(names[0]) == Value(values[0]);
      forall i | 0 <= i < |names[1..]| ensures build(names[1..][i]) == Value(values[1..][i]) {
        assert build(names[i + 1]) == Value(values[i + 1]);
      }
      SequentialValues(names[1..], build, values[1..]);
      assert values == [values[0]] + values[1..];
    }
  }

  lemma {:induction false} SequentialError<T>(names: seq<string>, build: string -> Outcome<T>, i: nat)
    requires i < |names| && build(names[i]).Failed? && forall j | 0 <= j < i :: build(names[j]).Value?
    ensures Sequentially(names, build) == Failed(build(names[i]).error)
  {
    if i > 0 {
      assert build(names[0]).Value?;
      forall j | 0 <= j < i - 1 ensures build(names[1..][j]).Value? {
        assert build(names[j + 1]).Value?;
      }
      SequentialError(names[1..], build, i - 1);
    }
  }

  /** Under every uncancelled schedule the parallel helper returns what the
      sequential loop returned, error for error. */
  method RunPerHPA<T(!new)>(ghost w: Work<T>, ghost run: seq<Action<T>>, results: seq<Outcome<T>>)
    returns (values: Outcome<seq<T>>)
    requires Legal(w, run) && Finished(After(w, run)) && Cancel !in run && results == Results(w, run)
    ensures values == Sequentially(w.names, w.build)
  {
    ScheduleIndependence(w, run);
    assert forall i | 0 <= i < |w.names| :: results[i] == w.build(w.names[i]);
    values := CollectPerHPA(results);
    if values.Value? {
      SequentialValues(w.names, w.build, values.value);
    } else {
      ghost var i :| 0 <= i < |results| && results[i] == Failed(values.error)
                     && forall j | 0 <= j < i :: results[j].Value?;
      SequentialError(w.names, w.build, i);
    }
  }

  // ---------------------------------------------------------------- exit code

  /** A report carries its health; a failed item has none. */
  type Item = Outcome<string>

  datatype Exit = Success | Warning | Error(failed: nat, total: nat)

  predicate HealthIsWarning(health: string) {
    health == "ERROR" || health == "LIMITED" || health == "WARNING"
  }

  predicate Warns(item: Item) { item.Value? && HealthIsWarning(item.value) }

  function CountFailed(items: seq<Item>): nat {
    if items == [] then 0 else CountFailed(items[..|items| - 1]) + (if items[|items| - 1].Failed? then 1 else 0)
  }

  /** How severe one item is, and the exit code of a severity. */
  function Severity(item: Item, watch: bool): nat {
    if item.Failed? then 2 else if Warns(item) && !watch then 1 else 0
  }

  function ExitSeverity(exit: Exit): nat {
    match exit case Success => 0 case Warning => 1 case Error(_, _) => 2
  }

  /** The exit code is that of the most severe item; an error counts the failures. */
  ghost predicate MostSevere(items: seq<Item>, watch: bool, exit: Exit) {
    && (forall i | 0 <= i < |items| :: Severity(items[i], watch) <= ExitSeverity(exit))
    && (ExitSeverity(exit) > 0 ==> exists i | 0 <= i < |items| :: Severity(items[i], watch) == ExitSeverity(exit))
    && (exit.Error? ==> exit == Error(CountFailed(items), |items|))
  }

  /** An error is any failed item, and says how many failed; a warning is one of
      three healths outside watch mode. */
  ghost predicate ExitInFields(items: seq<Item>, watch: bool, exit: Exit) {
    var failed := exists i | 0 <= i < |items| :: items[i].Failed?;
    var unhealthy := exists i | 0 <= i < |items| ::
      items[i].Value? && items[i].value in {"ERROR", "LIMITED", "WARNING"};
    if failed then exit == Error(HowMany(items, (item: Item) => item.Failed?), |items|)
    else if unhealthy && !watch then exit == Warning
    else exit == Success
  }

  lemma {:induction false} FailedCounted(items: seq<Item>)
    ensures CountFailed(items) == HowMany(items, (item: Item) => item.Failed?)
  {
    var failed := (item: Item) => item.Failed?;
    if items == [] {
      HowManyNone(failed);
    } else {
      var init, last := items[..|items| - 1], items[|items| - 1];
      FailedCounted(init);
      assert items == init + [last];
      HowManySnoc(init, last, failed);
    }
  }

  lemma MostSevereInFields(items: seq<Item>, watch: bool, exit: Exit)
    ensures MostSevere(items, watch, exit) <==> ExitInFields(items, watch, exit)
  {
    FailedCounted(items);
    hide HowMany, CountFailed;
    assert forall i | 0 <= i < |items| :: items[i].Failed? <==> Severity(items[i], watch) == 2;
    assert forall i | 0 <= i < |items| && items[i].Value? ::
      items[i].value in {"ERROR", "LIMITED", "WARNING"} && !watch <==> Severity(items[i], watch) == 1;
  }

  method AggregateBatchExitCode(items: seq<Item>, watch: bool) returns (exit: Exit)
    ensures MostSevere(items, watch, exit)
    ensures ExitInFields(items, watch, exit)
  {
    MostSevereInFields(items, watch, Success);
    MostSevereInFields(items, watch, Warning);
    MostSevereInFields(items, watch, Error(CountFailed(items), |items|));
    hide ExitInFields;
    var hasError, hasWarning := false, false;
    var i := 0;
    while i < |items|
      invariant 0 <= i <= |items| && !hasError
      invariant forall j | 0 <= j < i :: items[j].Value?
      invariant hasWarning <==> exists j | 0 <= j < i :: Warns(items[j])
    {
      if items[i].Failed? {
        hasError := true;
        break;
      }
      if HealthIsWarning(items[i].value) {
        hasWarning := true;
      }
      i := i + 1;
    }
    if hasError {
      assert Severity(items[i], watch) == 2;
      var failed := 0;
      for k := 0 to |items|
        invariant failed == CountFailed(items[..k])
      {
        assert items[..k + 1][..k] == items[..k];
        if items[k].Failed? {
          failed := failed + 1;
        }
      }
      assert items[..|items|] == items;
      return Error(failed, |items|);
    }
    if hasWarning && !watch {
      ghost var worst :| 0 <= worst < |items| && Warns(items[worst]);
      assert Severity(items[worst], watch) == 1;
      return Warning;
    }
    return Success;
  }

  /** The order of the items does not matter. */
  lemma ExitIgnoresOrder(items: seq<Item>, others: seq<Item>, watch: bool, exit: Exit, other: Exit)
    requires multiset(items) == multiset(others)
    requires MostSevere(items, watch, exit) && MostSevere(others, watch, other)
    ensures exit == other
  {
    SameSeverity(items, others, watch, exit, other);
    SameSeverity(others, items, watch, other, exit);
    FailedByMultiset(items, others);
    assert |items| == |multiset(items)| == |others|;
  }

  lemma SameSeverity(items: seq<Item>, others: seq<Item>, watch: bool, exit: Exit, other: Exit)
    requires multiset(items) == multiset(others)
    requires MostSevere(items, watch, exit) && MostSevere(others, watch, other)
    ensures ExitSeverity(exit) <= ExitSeverity(other)
  {
    if ExitSeverity(exit) > 0 {
      var i :| 0 <= i < |items| && Severity(items[i], watch) == ExitSeverity(exit);
      assert items[i] in multiset(items);
      assert items[i] in others;
      var j :| 0 <= j < |others| && others[j] == items[i];
      assert Severity(others[j], watch) <= ExitSeverity(other);
    }
  }

  lemma {:induction false} FailedByMultiset(items: seq<Item>, others: seq<Item>)
    requires multiset(items) == multiset(others)
    ensures CountFailed(items) == CountFailed(others)
  {
    FailedIsPart(items);
    FailedIsPart(others);
    assert FailedPart(items) == FailedPart(others) by {
      forall item ensures FailedPart(items)[item] == FailedPart(others)[item] {
      }
    }
  }

  /** The failures of a batch, as a multiset. */
  ghost function FailedPart(items: seq<Item>): multiset<Item> {
    if items == [] then multiset{}
    else
      var last := items[|items| - 1];
      FailedPart(items[..|items| - 1]) + (if last.Failed? then multiset{last} else multiset{})
  }

  lemma {:induction false} FailedIsPart(items: seq<Item>)
    ensures |FailedPart(items)| == CountFailed(items)
    ensures forall item :: FailedPart(items)[item] == if item.Failed? then multiset(items)[item] else 0
  {
    if items != [] {
      FailedIsPart(items[..|items| - 1]);
      assert items == items[..|items| - 1] + [items[|items| - 1]];
    }
  }
}
