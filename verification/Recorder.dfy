/** RecordAndAnalyze: one transactional call, or Append, Prune and Load as three
    locked calls, and exactly when a caller can tell which of the two it got. */
module Recording {
  import opened Common
  import opened StableSort
  import opened HistoryScan
  import opened HistoryReference
  import opened HistoryRuns
  import opened HealthStoring

  datatype Warning = StoreUnavailable | TransactionWarning | AppendWarning | PruneWarning | LoadWarning

  /** The snapshots handed to trend analysis, none when there is nothing to
      analyse, and the persistence warnings in the order they occurred. */
  datatype RecordOutcome = RecordOutcome(analysed: Option<seq<Snapshot>>, warnings: seq<Warning>)

  /** How the environment treats the calls of one observation, in order. */
  datatype Faults = Faults(first: Fault, second: Fault, third: Fault)

  function Analysed(snaps: seq<Snapshot>): Option<seq<Snapshot>> {
    if snaps == [] then None else Some(snaps)
  }

  function WarnIf(c: bool, w: Warning): seq<Warning> {
    if c then [w] else []
  }

  function TransactionOutcome(r: RecordResult): RecordOutcome {
    RecordOutcome(if r.Recorded? then Analysed(r.window) else None,
                  WarnIf(!r.Recorded? || r.corrupt != [], TransactionWarning))
  }

  /** What a load hands over even when it warns. */
  function Handed(r: LoadResult): seq<Snapshot> {
    match r
    case LoadRefused => []
    case LoadUnreadable(partial) => partial
    case Loaded(snaps, _) => snaps
  }

  function ThreeStepFiles(fs: Files, path: string, s: Snapshot, cutoff: int, f: Faults): Files {
    Prune(AppendLine(fs, path, s, f.first), path, cutoff, f.second).0
  }

  function ThreeStepOutcome(fs: Files, path: string, s: Snapshot, cutoff: int, from: int, f: Faults): RecordOutcome {
    Combined(f.first.Sound?, Prune(AppendLine(fs, path, s, f.first), path, cutoff, f.second).1,
             Load(ThreeStepFiles(fs, path, s, cutoff, f), path, from, f.third))
  }

  function Combined(appended: bool, prune: PruneResult, load: LoadResult): RecordOutcome {
    RecordOutcome(Analysed(Handed(load)),
                  WarnIf(!appended, AppendWarning)
                  + WarnIf(!prune.Pruned? || prune.corrupt != [], PruneWarning)
                  + WarnIf(!load.Loaded? || load.corrupt != [], LoadWarning))
  }

  /** What is analysed is what was handed over, unless that is nothing. */
  ghost predicate Analyses(r: RecordOutcome, snaps: seq<Snapshot>) {
    if snaps == [] then r.analysed.None? else r.analysed == Some(snaps)
  }

  /** A failed load hands over what it could still read. */
  ghost predicate AnalysesLoaded(r: RecordOutcome, load: LoadResult) {
    match load
    case LoadRefused => r.analysed.None?
    case LoadUnreadable(partial) => Analyses(r, partial)
    case Loaded(snaps, _) => Analyses(r, snaps)
  }

  /** The transaction is analysed when it succeeds, and warns once when it fails
      or meets corrupt lines. */
  ghost predicate ReportsTransaction(r: RecordOutcome, recorded: RecordResult) {
    match recorded
    case Recorded(window, corrupt) => Analyses(r, window) && (r.warnings == [] <==> corrupt == [])
                                      && (r.warnings != [] ==> r.warnings == [TransactionWarning])
    case _ => r.analysed.None? && r.warnings == [TransactionWarning]
  }

  method RecordAndAnalyze(store: HealthStore?, transactional: bool, path: string, s: Snapshot,
                          retention: int, since: int, now: int, f: Faults)
    returns (r: RecordOutcome)
    requires store != null ==> store.Valid() && path != ""
    modifies if store == null then {} else {store.cache, store.disk}
    ensures store == null ==> r == RecordOutcome(None, [StoreUnavailable])
    ensures store != null ==> store.Valid()
    ensures store != null && transactional ==>
      var (fs, recorded) := Record(old(store.disk.Contents()), path, s, now - retention, now - since, f.first);
      && store.disk.Contents() == fs && r == TransactionOutcome(recorded)
      && ReportsTransaction(r, recorded)
    ensures store != null && !transactional ==>
      && store.disk.Contents() == ThreeStepFiles(old(store.disk.Contents()), path, s, now - retention, f)
      && r == ThreeStepOutcome(old(store.disk.Contents()), path, s, now - retention, now - since, f)
      && ReportsThreeSteps(r, old(store.disk.Contents()), path, s, now - retention, now - since, f)
  {
    if store == null {
      return RecordOutcome(None, [StoreUnavailable]);
    }
    if transactional {
      var recorded := store.RecordAndLoad(path, s, retention, since, now, f.first);
      return TransactionOutcome(recorded);
    }
    r := AppendPruneLoad(store, path, s, retention, since, now, f);
  }

  /** The fallback for a store without the transaction. */
  method AppendPruneLoad(store: HealthStore, path: string, s: Snapshot,
                         retention: int, since: int, now: int, f: Faults)
    returns (r: RecordOutcome)
    requires store.Valid() && path != ""
    modifies store.cache, store.disk
    ensures store.Valid()
    ensures store.disk.Contents() == ThreeStepFiles(old(store.disk.Contents()), path, s, now - retention, f)
    ensures r == ThreeStepOutcome(old(store.disk.Contents()), path, s, now - retention, now - since, f)
    ensures ReportsThreeSteps(r, old(store.disk.Contents()), path, s, now - retention, now - since, f)
  {
    var ok := store.Append(path, s, f.first);
    var pruned := store.PruneAt(path, retention, now, f.second);
    var loaded := store.LoadAt(path, since, now, f.third);
    r := CollectWarnings(ok, pruned, loaded);
    WarningsDetermined(r.warnings, ok, pruned, loaded);
  }

  /** The place of a call among the three. */
  function Place(w: Warning): nat {
    match w
    case AppendWarning => 1
    case PruneWarning => 2
    case LoadWarning => 3
    case _ => 0
  }

  /** Warnings of calls after the first `done`, in call order, each once. */
  predicate InCallOrder(ws: seq<Warning>, done: nat) {
    ws == [] || (Place(ws[0]) > done && InCallOrder(ws[1..], Place(ws[0])))
  }

  /** A call is warned of exactly when it failed or met corrupt lines. */
  ghost predicate WarnsOfEach(ws: seq<Warning>, appended: bool, pruned: PruneResult, loaded: LoadResult) {
    && (AppendWarning in ws <==> !appended)
    && (PruneWarning in ws <==> !(pruned.Pruned? && pruned.corrupt == []))
    && (LoadWarning in ws <==> !(loaded.Loaded? && loaded.corrupt == []))
    && InCallOrder(ws, 0)
  }

  /** The three calls are reported one by one, and the third is analysed. */
  ghost predicate ReportsThreeSteps(r: RecordOutcome, fs: Files, path: string, s: Snapshot, cutoff: int, from: int,
                                    f: Faults)
  {
    var appended := AppendLine(fs, path, s, f.first);
    var (kept, pruned) := Prune(appended, path, cutoff, f.second);
    var loaded := Load(kept, path, from, f.third);
    WarnsOfEach(r.warnings, f.first.Sound?, pruned, loaded) && AnalysesLoaded(r, loaded)
  }

  lemma InOrder(a: bool, p: bool, l: bool)
    ensures InCallOrder(WarnIf(a, AppendWarning) + WarnIf(p, PruneWarning) + WarnIf(l, LoadWarning), 0)
  {
    var loading := WarnIf(l, LoadWarning);
    assert l ==> loading[1..] == [];
    var pruning := WarnIf(p, PruneWarning) + loading;
    assert InCallOrder(pruning, 1) by {
      assert if p then pruning[1..] == loading else pruning == loading;
    }
    var all := WarnIf(a, AppendWarning) + WarnIf(p, PruneWarning) + loading;
    assert if a then all[1..] == pruning else all == pruning;
  }

  method CollectWarnings(appended: bool, pruned: PruneResult, loaded: LoadResult) returns (r: RecordOutcome)
    ensures WarnsOfEach(r.warnings, appended, pruned, loaded)
    ensures r.analysed == Analysed(Handed(loaded)) && AnalysesLoaded(r, loaded)
  {
    var warnings: seq<Warning> := [];
    if !appended {
      warnings := warnings + [AppendWarning];
    }
    if !pruned.Pruned? || pruned.corrupt != [] {
      warnings := warnings + [PruneWarning];
    }
    if !loaded.Loaded? || loaded.corrupt != [] {
      warnings := warnings + [LoadWarning];
    }
    r := RecordOutcome(Analysed(Handed(loaded)), warnings);
    InOrder(!appended, !pruned.Pruned? || pruned.corrupt != [], !loaded.Loaded? || loaded.corrupt != []);
  }

  lemma {:induction false} OnlyLater(ws: seq<Warning>, done: nat, w: Warning)
    requires InCallOrder(ws, done) && w in ws
    ensures Place(w) > done
  {
    if w != ws[0] {
      OnlyLater(ws[1..], Place(ws[0]), w);
    }
  }

  /** The warning of the next call comes first, or not at all. */
  lemma NextFirst(ws: seq<Warning>, w: Warning)
    requires Place(w) > 0 && InCallOrder(ws, Place(w) - 1)
    ensures w in ws <==> ws != [] && ws[0] == w
    ensures w in ws ==> ws == [w] + ws[1..] && InCallOrder(ws[1..], Place(w)) && w !in ws[1..]
    ensures w !in ws ==> InCallOrder(ws, Place(w))
  {
    if w in ws && ws[0] != w {
      OnlyLater(ws[1..], Place(ws[0]), w);
    }
    if w in ws && w in ws[1..] {
      OnlyLater(ws[1..], Place(ws[0]), w);
    }
    if w !in ws && ws != [] && Place(ws[0]) == Place(w) {
      assert ws[0] in ws;
    }
  }

  /** A list in call order is determined by which calls it warns of. */
  lemma DeterminedByMembers(ws: seq<Warning>)
    requires InCallOrder(ws, 0)
    ensures ws == WarnIf(AppendWarning in ws, AppendWarning) + WarnIf(PruneWarning in ws, PruneWarning)
                  + WarnIf(LoadWarning in ws, LoadWarning)
  {
    assert Place(AppendWarning) == 1 && Place(PruneWarning) == 2 && Place(LoadWarning) == 3;
    NextFirst(ws, AppendWarning);
    var pruned := if AppendWarning in ws then ws[1..] else ws;
    NextFirst(pruned, PruneWarning);
    var loaded := if PruneWarning in pruned then pruned[1..] else pruned;
    NextFirst(loaded, LoadWarning);
    var none := if LoadWarning in loaded then loaded[1..] else loaded;
    assert none == [];
  }

  /** That leaves a single list of warnings: the reference's. */
  lemma WarningsDetermined(ws: seq<Warning>, appended: bool, pruned: PruneResult, loaded: LoadResult)
    ensures WarnsOfEach(ws, appended, pruned, loaded) <==> ws == Combined(appended, pruned, loaded).warnings
  {
    if WarnsOfEach(ws, appended, pruned, loaded) {
      DeterminedByMembers(ws);
    }
    InOrder(!appended, !pruned.Pruned? || pruned.corrupt != [], !loaded.Loaded? || loaded.corrupt != []);
  }

  // ---------------------------------------------- the two paths compared

  /** No record sits where the two paths draw their line differently: the window
      of the transaction includes `from` itself and never drops the new snapshot
      for being expired. */
  ghost predicate PathsAgree(records: seq<Snapshot>, s: Snapshot, cutoff: int, from: int) {
    && (forall i | 0 <= i < |records| && records[i].time > cutoff :: records[i].time != from)
    && !(from <= s.time && (s.time <= from || s.time <= cutoff))
  }

  function ThreeStepWindow(records: seq<Snapshot>, s: Snapshot, cutoff: int, from: int): seq<Snapshot> {
    View(View(records + [s], cutoff), from)
  }

  lemma NotBeforeIsAbove(xs: seq<Snapshot>, from: int)
    requires Sorted(xs, Time)
    ensures NotBefore(xs, from) == Above(xs, from - 1, Time)
  {
    AboveIsSuffix(xs, from - 1, Time);
  }

  lemma InsertedViewSorted(records: seq<Snapshot>, s: Snapshot, cutoff: int)
    ensures Sorted(View(records, cutoff), Time)
    ensures Sorted(Insert(View(records, cutoff), s, Time), Time)
  {
    SortIsSorted(Above(records, cutoff, Time), Time);
    InsertSorted(View(records, cutoff), s, Time);
  }

  /** The three-step window has exactly the records after both cutoffs. */
  lemma ThreeStepWindowIsView(records: seq<Snapshot>, s: Snapshot, cutoff: int, from: int)
    ensures ThreeStepWindow(records, s, cutoff, from)
         == View(records + [s], if cutoff < from then from else cutoff)
  {
    var all := records + [s];
    AboveOfSort(Above(all, cutoff, Time), from, Time);
    AboveAbove(all, cutoff, from, Time);
    var m := if cutoff < from then from else cutoff;
    assert Above(View(all, cutoff), from, Time) == View(all, m);
    SortIsSorted(Above(all, m, Time), Time);
    SortOfSorted(View(all, m), Time);
  }

  /** Lowering a bound past no key changes nothing. */
  lemma {:induction false} AboveGap(xs: seq<Snapshot>, b: int, c: int)
    requires b <= c && forall i | 0 <= i < |xs| :: !(b < xs[i].time <= c)
    ensures Above(xs, b, Time) == Above(xs, c, Time)
  {
    if xs != [] {
      AboveGap(xs[..|xs| - 1], b, c);
    }
  }

  lemma WindowPieces(records: seq<Snapshot>, s: Snapshot, cutoff: int, from: int)
    ensures FullWindow(records, s, cutoff, from)
         == var later := View(records, if cutoff < from - 1 then from - 1 else cutoff);
            if s.time >= from then Insert(later, s, Time) else later
  {
    InsertedViewSorted(records, s, cutoff);
    NotBeforeIsAbove(Insert(View(records, cutoff), s, Time), from);
    AboveOfInsert(View(records, cutoff), s, from - 1, Time);
    AboveOfSort(Above(records, cutoff, Time), from - 1, Time);
    AboveAbove(records, cutoff, from - 1, Time);
  }

  lemma ViewHolds(records: seq<Snapshot>, cutoff: int, x: Snapshot)
    ensures x in View(records, cutoff) <==> x in records && x.time > cutoff
  {
    SortPermutes(Above(records, cutoff, Time), Time);
    AboveMembers(records, cutoff, Time);
  }

  lemma InsertHolds(xs: seq<Snapshot>, s: Snapshot, x: Snapshot)
    ensures x in Insert(xs, s, Time) <==> x in xs || x == s
  {
    var p := UpperBound(xs, s.time, Time);
    assert xs == xs[..p] + xs[p..];
  }

  lemma AgreeingWindows(records: seq<Snapshot>, s: Snapshot, cutoff: int, from: int)
    requires PathsAgree(records, s, cutoff, from)
    ensures FullWindow(records, s, cutoff, from) == ThreeStepWindow(records, s, cutoff, from)
  {
    WindowPieces(records, s, cutoff, from);
    ThreeStepWindowIsView(records, s, cutoff, from);
    var low := if cutoff < from - 1 then from - 1 else cutoff;
    var m := if cutoff < from then from else cutoff;
    AboveGap(records, low, m);
    ViewAppend(records, s, m);
  }

  /** A record on the line is in one window and not in the other. */
  lemma DifferingWindows(records: seq<Snapshot>, s: Snapshot, cutoff: int, from: int)
    requires !PathsAgree(records, s, cutoff, from)
    ensures FullWindow(records, s, cutoff, from) != ThreeStepWindow(records, s, cutoff, from)
  {
    var low := if cutoff < from - 1 then from - 1 else cutoff;
    var m := if cutoff < from then from else cutoff;
    var x := s;
    if from <= s.time && (s.time <= from || s.time <= cutoff) {
    } else {
      var i :| 0 <= i < |records| && records[i].time > cutoff && records[i].time == from;
      x := records[i];
    }
    WindowPieces(records, s, cutoff, from);
    ThreeStepWindowIsView(records, s, cutoff, from);
    ViewHolds(records, low, x);
    InsertHolds(View(records, low), s, x);
    assert x in FullWindow(records, s, cutoff, from);
    ViewHolds(records + [s], m, x);
    assert x !in ThreeStepWindow(records, s, cutoff, from);
  }

  /** The transaction and the three calls hand over the same snapshots exactly
      when no record sits on the line; either way the files they leave agree for
      every reader at the retention cutoff or later. */
  lemma TransactionVersusThreeSteps(fs: Files, path: string, s: Snapshot, cutoff: int, from: int)
    requires Readable(LinesAt(fs, path))
    ensures var allSound := Faults(Sound, Sound, Sound);
      var (fs1, recorded) := Record(fs, path, s, cutoff, from, Sound);
      var fs3 := ThreeStepFiles(fs, path, s, cutoff, allSound);
      var records := Snapshots(LinesAt(fs, path));
      && (TransactionOutcome(recorded).analysed
            == ThreeStepOutcome(fs, path, s, cutoff, from, allSound).analysed
          <==> PathsAgree(records, s, cutoff, from))
      && SameFrom(Snapshots(LinesAt(fs1, path)), Snapshots(LinesAt(fs3, path)), cutoff)
  {
    var records := Snapshots(LinesAt(fs, path));
    TransactionSide(fs, path, s, cutoff, from);
    ThreeStepSide(fs, path, s, cutoff, from);
    if PathsAgree(records, s, cutoff, from) {
      AgreeingWindows(records, s, cutoff, from);
    } else {
      DifferingWindows(records, s, cutoff, from);
    }
    SameFromTrans2(Snapshots(LinesAt(Record(fs, path, s, cutoff, from, Sound).0, path)), records + [s],
                   Snapshots(LinesAt(ThreeStepFiles(fs, path, s, cutoff, Faults(Sound, Sound, Sound)), path)), cutoff);
  }

  lemma SameFromTrans2(a: seq<Snapshot>, b: seq<Snapshot>, c: seq<Snapshot>, cutoff: int)
    requires SameFrom(a, b, cutoff) && SameFrom(c, b, cutoff)
    ensures SameFrom(a, c, cutoff)
  {
    forall d | d >= cutoff ensures SameAt(a, c, d) {
      assert SameAt(a, b, d) && SameAt(c, b, d);
    }
  }

  lemma TransactionSide(fs: Files, path: string, s: Snapshot, cutoff: int, from: int)
    requires Readable(LinesAt(fs, path))
    ensures var records := Snapshots(LinesAt(fs, path));
      && TransactionOutcome(Record(fs, path, s, cutoff, from, Sound).1).analysed
         == Analysed(FullWindow(records, s, cutoff, from))
      && SameFrom(Snapshots(LinesAt(Record(fs, path, s, cutoff, from, Sound).0, path)), records + [s], cutoff)
  {
    RecordOnReadable(fs, path, s, cutoff, from, Sound);
    RecordedLines(fs, path, s, cutoff, from, Sound, cutoff);
  }

  lemma ThreeStepSide(fs: Files, path: string, s: Snapshot, cutoff: int, from: int)
    requires Readable(LinesAt(fs, path))
    ensures var records, allSound := Snapshots(LinesAt(fs, path)), Faults(Sound, Sound, Sound);
      && ThreeStepOutcome(fs, path, s, cutoff, from, allSound).analysed
         == Analysed(ThreeStepWindow(records, s, cutoff, from))
      && SameFrom(Snapshots(LinesAt(ThreeStepFiles(fs, path, s, cutoff, allSound), path)), records + [s], cutoff)
  {
    hide Record, View, Insert, SameFrom, Prune, Load;
    var appended := AppendLine(fs, path, s, Sound);
    var records := Snapshots(LinesAt(fs, path));
    SnocLine(LinesAt(fs, path), Good(s));
    PruneOnReadable(appended, path, cutoff, Sound);
    PrunedLines(appended, path, cutoff, Sound, cutoff);
    RewrittenLines(View(records + [s], cutoff));
    LoadOnReadable(Prune(appended, path, cutoff, Sound).0, path, from);
  }

  /** Recorder's own case: the snapshot is taken now, 0 < since <= retention, and
      no stored timestamp is exactly now - since. Both ways analyse the same
      snapshots, and their files agree for every later reader. */
  lemma RecorderPathsAgree(fs: Files, path: string, s: Snapshot, retention: int, since: int, now: int)
    requires Readable(LinesAt(fs, path))
    requires 0 < since <= retention && s.time == now
    requires forall i | 0 <= i < |Snapshots(LinesAt(fs, path))| ::
      Snapshots(LinesAt(fs, path))[i].time != now - since
    ensures var allSound, cutoff, from := Faults(Sound, Sound, Sound), now - retention, now - since;
      var (fs1, recorded) := Record(fs, path, s, cutoff, from, Sound);
      var fs3 := ThreeStepFiles(fs, path, s, cutoff, allSound);
      && TransactionOutcome(recorded).analysed == ThreeStepOutcome(fs, path, s, cutoff, from, allSound).analysed
      && SameFrom(Snapshots(LinesAt(fs1, path)), Snapshots(LinesAt(fs3, path)), cutoff)
  {
    hide Record, ThreeStepFiles, ThreeStepOutcome, SameFrom, TransactionOutcome, Snapshots, LinesAt, Readable;
    assert PathsAgree(Snapshots(LinesAt(fs, path)), s, now - retention, now - since);
    TransactionVersusThreeSteps(fs, path, s, now - retention, now - since);
  }
}
