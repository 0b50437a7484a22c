/** What whole runs of the history store guarantee: lazy compaction forgets
    nothing a window can still show, the file stays small, and rewriting is paid
    for by the records it drops. */
module HistoryRuns {
  import opened Common
  import opened StableSort
  import opened HistoryScan
  import opened HistoryReference

  /** The records after `cutoff`, as a reader sees them. */
  function View(records: seq<Snapshot>, cutoff: int): seq<Snapshot> {
    Sort(Above(records, cutoff, Time), Time)
  }

  // ------------------------------------------ a store that never forgets

  /** The snapshot of this call is in the file afterwards. */
  predicate Reaches(fs: Files, op: Op) {
    match op
    case AppendOp(_, _, f) => f.Sound? || f.AfterWrite?
    case RecordOp(p, _, retention, _, now, f) => RecordReaches(LinesAt(fs, p), now - retention, f)
    case _ => false
  }

  predicate RecordReaches(lines: seq<Line>, cutoff: int, fault: Fault) {
    Readable(lines) && (fault.Sound? || (fault.AfterWrite? && !CompactsAt(lines, cutoff)))
  }

  predicate CompactsAt(lines: seq<Line>, cutoff: int) {
    var scan := ScanOf(lines, cutoff);
    ShouldCompact(scan.total, scan.expired)
  }

  /** A file is rewritten when at least 64 of its records, or half of them and at
      least one, are not later than the cutoff. */
  lemma CompactsExactly(lines: seq<Line>, cutoff: int)
    ensures CompactsAt(lines, cutoff) <==>
      var total := HowMany(lines, (l: Line) => l.Good?);
      var expired := HowMany(lines, (l: Line) => l.Good? && l.snap.time <= cutoff);
      expired >= 64 || (expired >= 1 && expired + expired >= total)
  {
    ScanMeans(lines, cutoff);
    hide ScanOf, HowMany;
  }

  /** Every snapshot ever recorded on `path`, oldest call first, since the start
      or the last time somebody else rewrote the stream. */
  function Ever(fs: Files, ops: seq<Op>, path: string): seq<Snapshot> {
    if ops == [] then Snapshots(LinesAt(fs, path)) else
      var before, op := ops[..|ops| - 1], ops[|ops| - 1];
      if op.path != path then Ever(fs, before, path)
      else if op.ForeignWrite? then Snapshots(op.lines)
      else if op.ForeignRemove? then []
      else if Reaches(Run(fs, before).0, op) then Ever(fs, before, path) + [op.snap]
      else Ever(fs, before, path)
  }

  /** No call on `path` has dropped anything later than `cutoff`. */
  ghost predicate CutoffsUpTo(ops: seq<Op>, path: string, cutoff: int) {
    forall i | 0 <= i < |ops| && ops[i].path == path ::
      (ops[i].PruneOp? || ops[i].RecordOp?) ==> ops[i].now - ops[i].retention <= cutoff
  }

  /** Two record lists no reader at `cutoff` or later can tell apart. */
  ghost predicate SameFrom(a: seq<Snapshot>, b: seq<Snapshot>, cutoff: int) {
    forall d | d >= cutoff :: SameAt(a, b, d)
  }

  ghost predicate SameAt(a: seq<Snapshot>, b: seq<Snapshot>, cutoff: int) {
    View(a, cutoff) == View(b, cutoff)
  }

  lemma ViewLater(a: seq<Snapshot>, c: int, d: int)
    requires c <= d
    ensures View(a, d) == Above(View(a, c), d, Time)
  {
    AboveOfSort(Above(a, c, Time), d, Time);
    AboveAbove(a, c, d, Time);
  }

  lemma ViewAppend(a: seq<Snapshot>, s: Snapshot, c: int)
    ensures View(a + [s], c) == if s.time > c then Insert(View(a, c), s, Time) else View(a, c)
  {
    SnocAbove(a, s, c, Time);
    if s.time > c {
      SortSnoc(Above(a, c, Time), s, Time);
    } else {
      assert Above(a, c, Time) + [] == Above(a, c, Time);
    }
  }

  /** Reading back a rewritten file. */
  lemma ViewOfView(a: seq<Snapshot>, c: int, d: int)
    requires c <= d
    ensures View(View(a, c), d) == View(a, d)
  {
    ViewLater(a, c, d);
    SortIsSorted(Above(a, d, Time), Time);
    SortOfSorted(View(a, d), Time);
  }

  lemma ViewOfCompacted(a: seq<Snapshot>, s: Snapshot, c: int, d: int)
    requires c <= d
    ensures View(Insert(View(a, c), s, Time), d) == View(a + [s], d)
  {
    AppendedRetained(a, c, s, d);
    SortIsSorted(Above(a + [s], d, Time), Time);
    SortOfSorted(View(a + [s], d), Time);
  }

  /** One record call on a readable stream, in terms of what a reader sees. */
  lemma RecordOnReadable(fs: Files, path: string, s: Snapshot, cutoff: int, from: int, fault: Fault)
    requires Readable(LinesAt(fs, path)) && !fault.Refused?
    ensures var lines := LinesAt(fs, path);
      var retained := Insert(View(Snapshots(lines), cutoff), s, Time);
      Record(fs, path, s, cutoff, from, fault)
      == (if !CompactsAt(lines, cutoff) then AppendLine(fs, path, s, fault)
          else if fault.Sound? then fs[path := AsLines(retained)] else fs,
          if fault.Sound? then Recorded(NotBefore(retained, from), CorruptAt(lines)) else RecordFailed)
  {
  }

  lemma RecordElsewhere(fs: Files, path: string, s: Snapshot, cutoff: int, from: int, fault: Fault)
    requires !Readable(LinesAt(fs, path)) || fault.Refused?
    ensures Record(fs, path, s, cutoff, from, fault).0 == fs
  {
  }

  /** How a record call changes the records of its stream. */
  lemma RecordedLines(fs: Files, path: string, s: Snapshot, c: int, from: int, fault: Fault, cutoff: int)
    requires c <= cutoff
    ensures var before := Snapshots(LinesAt(fs, path));
      SameFrom(Snapshots(LinesAt(Record(fs, path, s, c, from, fault).0, path)),
               if RecordReaches(LinesAt(fs, path), c, fault) then before + [s] else before, cutoff)
  {
    hide Record, Readable, CompactsAt, View, Insert, Snapshots, CorruptAt, AsLines, NotBefore;
    var lines := LinesAt(fs, path);
    if !Readable(lines) || fault.Refused? {
      RecordElsewhere(fs, path, s, c, from, fault);
    } else {
      RecordOnReadable(fs, path, s, c, from, fault);
      if !CompactsAt(lines, c) {
        SnocLine(lines, Good(s));
      } else if fault.Sound? {
        CompactedLines(lines, s, c, cutoff);
      }
    }
  }

  lemma CompactedLines(lines: seq<Line>, s: Snapshot, c: int, cutoff: int)
    requires c <= cutoff
    ensures SameFrom(Snapshots(AsLines(Insert(View(Snapshots(lines), c), s, Time))),
                     Snapshots(lines) + [s], cutoff)
  {
    RewrittenLines(Insert(View(Snapshots(lines), c), s, Time));
    forall d | d >= cutoff
      ensures SameAt(Snapshots(AsLines(Insert(View(Snapshots(lines), c), s, Time))), Snapshots(lines) + [s], d)
    {
      ViewOfCompacted(Snapshots(lines), s, c, d);
    }
  }

  lemma PruneOnReadable(fs: Files, path: string, cutoff: int, fault: Fault)
    requires Readable(LinesAt(fs, path)) && !fault.Refused?
    ensures var lines := LinesAt(fs, path);
      Prune(fs, path, cutoff, fault)
      == if fault.Sound? then (fs[path := AsLines(View(Snapshots(lines), cutoff))], Pruned(CorruptAt(lines)))
         else (fs, PruneFailed)
  {
  }

  lemma PruneElsewhere(fs: Files, path: string, cutoff: int, fault: Fault)
    requires !Readable(LinesAt(fs, path)) || fault.Refused?
    ensures Prune(fs, path, cutoff, fault).0 == fs
  {
  }

  lemma PrunedLines(fs: Files, path: string, c: int, fault: Fault, cutoff: int)
    requires c <= cutoff
    ensures SameFrom(Snapshots(LinesAt(Prune(fs, path, c, fault).0, path)), Snapshots(LinesAt(fs, path)), cutoff)
  {
    var lines := LinesAt(fs, path);
    if !Readable(lines) || fault.Refused? {
      PruneElsewhere(fs, path, c, fault);
    } else {
      PruneOnReadable(fs, path, c, fault);
      if fault.Sound? {
        PrunedFile(lines, c, cutoff);
      }
    }
  }

  lemma PrunedFile(lines: seq<Line>, c: int, cutoff: int)
    requires c <= cutoff
    ensures SameFrom(Snapshots(AsLines(View(Snapshots(lines), c))), Snapshots(lines), cutoff)
  {
    RewrittenLines(View(Snapshots(lines), c));
    forall d | d >= cutoff ensures SameAt(Snapshots(AsLines(View(Snapshots(lines), c))), Snapshots(lines), d) {
      ViewOfView(Snapshots(lines), c, d);
    }
  }

  lemma LoadOnReadable(fs: Files, path: string, cutoff: int)
    requires Readable(LinesAt(fs, path))
    ensures Load(fs, path, cutoff, Sound)
         == Loaded(View(Snapshots(LinesAt(fs, path)), cutoff), CorruptAt(LinesAt(fs, path)))
  {
  }

  lemma AppendedLines(fs: Files, path: string, s: Snapshot, fault: Fault)
    ensures Snapshots(LinesAt(AppendLine(fs, path, s, fault), path))
         == Snapshots(LinesAt(fs, path)) + (if fault.Sound? || fault.AfterWrite? then [s] else [])
  {
    SnocLine(LinesAt(fs, path), Good(s));
  }

  lemma StepOfOthers(fs: Files, op: Op)
    requires !op.RecordOp? && !op.PruneOp?
    ensures Step(fs, op).0 ==
      if op.AppendOp? then AppendLine(fs, op.path, op.snap, op.fault)
      else if op.LoadOp? then fs
      else if op.ForeignWrite? then fs[op.path := op.lines]
      else fs - {op.path}
  {
  }

  lemma OtherPathUntouched(fs: Files, op: Op, path: string)
    requires op.path != path
    ensures LinesAt(Step(fs, op).0, path) == LinesAt(fs, path)
  {
  }

  /** Lazy compaction refines never forgetting: after any run, no reader at or
      after every cutoff used so far can tell the file from the full record. */
  lemma {:induction false} NothingVisibleIsForgotten(fs: Files, ops: seq<Op>, path: string, cutoff: int)
    requires CutoffsUpTo(ops, path, cutoff)
    ensures SameFrom(Snapshots(LinesAt(Run(fs, ops).0, path)), Ever(fs, ops, path), cutoff)
    decreases |ops|
  {
    if ops != [] {
      var before, op := ops[..|ops| - 1], ops[|ops| - 1];
      assert CutoffsUpTo(before, path, cutoff);
      NothingVisibleIsForgotten(fs, before, path, cutoff);
      var mid := Run(fs, before).0;
      assert Run(fs, ops).0 == Step(mid, op).0;
      StepRemembers(mid, op, path, Ever(fs, before, path), cutoff);
    }
  }

  function EverAfter(mid: Files, op: Op, path: string, ever: seq<Snapshot>): seq<Snapshot> {
    if op.path != path then ever
    else if op.ForeignWrite? then Snapshots(op.lines)
    else if op.ForeignRemove? then []
    else if Reaches(mid, op) then ever + [op.snap]
    else ever
  }

  lemma StepRemembers(mid: Files, op: Op, path: string, ever: seq<Snapshot>, cutoff: int)
    requires SameFrom(Snapshots(LinesAt(mid, path)), ever, cutoff)
    requires op.path == path && (op.PruneOp? || op.RecordOp?) ==> op.now - op.retention <= cutoff
    ensures SameFrom(Snapshots(LinesAt(Step(mid, op).0, path)), EverAfter(mid, op, path, ever), cutoff)
  {
    if op.path != path {
      OtherPathUntouched(mid, op, path);
    } else if op.RecordOp? {
      RecordStepRemembers(mid, op, ever, cutoff);
    } else if op.PruneOp? {
      PruneStepRemembers(mid, op, ever, cutoff);
    } else {
      StepOfOthers(mid, op);
      if op.AppendOp? {
        AppendRemembers(mid, path, op.snap, op.fault, ever, cutoff);
      }
    }
  }

  lemma RecordStepRemembers(mid: Files, op: Op, ever: seq<Snapshot>, cutoff: int)
    requires SameFrom(Snapshots(LinesAt(mid, op.path)), ever, cutoff)
    requires op.RecordOp? && op.now - op.retention <= cutoff
    ensures SameFrom(Snapshots(LinesAt(Step(mid, op).0, op.path)), EverAfter(mid, op, op.path, ever), cutoff)
  {
    hide Record, SameFrom, RecordReaches;
    var c, from := op.now - op.retention, op.now - op.since;
    RecordRemembers(mid, op.path, op.snap, c, from, op.fault, ever, cutoff);
    var lines := LinesAt(Record(mid, op.path, op.snap, c, from, op.fault).0, op.path);
    var now := if RecordReaches(LinesAt(mid, op.path), c, op.fault) then ever + [op.snap] else ever;
    assert SameFrom(Snapshots(lines), now, cutoff);
    assert LinesAt(Step(mid, op).0, op.path) == lines by { StepOfRecord(mid, op); }
    assert EverAfter(mid, op, op.path, ever) == now by { EverAfterRecord(mid, op, ever); }
  }

  lemma EverAfterRecord(mid: Files, op: Op, ever: seq<Snapshot>)
    requires op.RecordOp?
    ensures EverAfter(mid, op, op.path, ever)
         == if RecordReaches(LinesAt(mid, op.path), op.now - op.retention, op.fault) then ever + [op.snap] else ever
  {
    hide RecordReaches, LinesAt, Snapshots;
  }

  lemma PruneStepRemembers(mid: Files, op: Op, ever: seq<Snapshot>, cutoff: int)
    requires SameFrom(Snapshots(LinesAt(mid, op.path)), ever, cutoff)
    requires op.PruneOp? && op.now - op.retention <= cutoff
    ensures SameFrom(Snapshots(LinesAt(Step(mid, op).0, op.path)), ever, cutoff)
  {
    hide Prune, SameFrom;
    StepOfPrune(mid, op);
    var c := op.now - op.retention;
    PrunedLines(mid, op.path, c, op.fault, cutoff);
    SameFromTrans(Snapshots(LinesAt(Prune(mid, op.path, c, op.fault).0, op.path)),
                  Snapshots(LinesAt(mid, op.path)), ever, cutoff);
  }

  lemma SameFromTrans(a: seq<Snapshot>, b: seq<Snapshot>, c: seq<Snapshot>, cutoff: int)
    requires SameFrom(a, b, cutoff) && SameFrom(b, c, cutoff)
    ensures SameFrom(a, c, cutoff)
  {
    forall d | d >= cutoff ensures SameAt(a, c, d) {
      assert SameAt(a, b, d) && SameAt(b, c, d);
    }
  }

  lemma AppendRemembers(fs: Files, path: string, s: Snapshot, fault: Fault, ever: seq<Snapshot>, cutoff: int)
    requires SameFrom(Snapshots(LinesAt(fs, path)), ever, cutoff)
    ensures SameFrom(Snapshots(LinesAt(AppendLine(fs, path, s, fault), path)),
                     if fault.Sound? || fault.AfterWrite? then ever + [s] else ever, cutoff)
  {
    AppendedLines(fs, path, s, fault);
    SameFromAppend(Snapshots(LinesAt(fs, path)), ever, s, cutoff);
    assert Snapshots(LinesAt(fs, path)) + [] == Snapshots(LinesAt(fs, path));
  }

  lemma RecordRemembers(fs: Files, path: string, s: Snapshot, c: int, from: int, fault: Fault,
                        ever: seq<Snapshot>, cutoff: int)
    requires SameFrom(Snapshots(LinesAt(fs, path)), ever, cutoff) && c <= cutoff
    ensures SameFrom(Snapshots(LinesAt(Record(fs, path, s, c, from, fault).0, path)),
                     if RecordReaches(LinesAt(fs, path), c, fault) then ever + [s] else ever, cutoff)
  {
    RecordedLines(fs, path, s, c, from, fault, cutoff);
    var before := Snapshots(LinesAt(fs, path));
    SameFromAppend(before, ever, s, cutoff);
    var reaches := RecordReaches(LinesAt(fs, path), c, fault);
    SameFromTrans(Snapshots(LinesAt(Record(fs, path, s, c, from, fault).0, path)),
                  if reaches then before + [s] else before, if reaches then ever + [s] else ever, cutoff);
  }

  lemma SameFromAppend(a: seq<Snapshot>, b: seq<Snapshot>, s: Snapshot, cutoff: int)
    requires SameFrom(a, b, cutoff)
    ensures SameFrom(a + [s], b + [s], cutoff)
  {
    forall d | d >= cutoff ensures SameAt(a + [s], b + [s], d) {
      assert SameAt(a, b, d);
      ViewAppend(a, s, d);
      ViewAppend(b, s, d);
    }
  }

  /** The window of a record call, computed from everything ever recorded. */
  function FullWindow(ever: seq<Snapshot>, s: Snapshot, cutoff: int, from: int): seq<Snapshot> {
    NotBefore(Insert(View(ever, cutoff), s, Time), from)
  }

  /** Whichever earlier calls happened to compact, the window a record call
      returns is the one computed from every snapshot ever recorded. */
  lemma RecordWindowFromEverything(fs: Files, ops: seq<Op>, path: string, s: Snapshot, cutoff: int, from: int)
    requires CutoffsUpTo(ops, path, cutoff)
    requires Readable(LinesAt(Run(fs, ops).0, path))
    ensures Record(Run(fs, ops).0, path, s, cutoff, from, Sound).1
         == Recorded(FullWindow(Ever(fs, ops, path), s, cutoff, from), CorruptAt(LinesAt(Run(fs, ops).0, path)))
  {
    NothingVisibleIsForgotten(fs, ops, path, cutoff);
    WindowOfSame(Run(fs, ops).0, Ever(fs, ops, path), path, s, cutoff, from);
  }

  lemma WindowOfSame(fs: Files, ever: seq<Snapshot>, path: string, s: Snapshot, cutoff: int, from: int)
    requires SameFrom(Snapshots(LinesAt(fs, path)), ever, cutoff)
    requires Readable(LinesAt(fs, path))
    ensures Record(fs, path, s, cutoff, from, Sound).1
         == Recorded(FullWindow(ever, s, cutoff, from), CorruptAt(LinesAt(fs, path)))
  {
    assert SameAt(Snapshots(LinesAt(fs, path)), ever, cutoff);
    RecordOnReadable(fs, path, s, cutoff, from, Sound);
  }

  /** The same for a plain load. */
  lemma LoadFromEverything(fs: Files, ops: seq<Op>, path: string, cutoff: int)
    requires CutoffsUpTo(ops, path, cutoff)
    requires Readable(LinesAt(Run(fs, ops).0, path))
    ensures Load(Run(fs, ops).0, path, cutoff, Sound)
         == Loaded(View(Ever(fs, ops, path), cutoff), CorruptAt(LinesAt(Run(fs, ops).0, path)))
  {
    NothingVisibleIsForgotten(fs, ops, path, cutoff);
    LoadOfSame(Run(fs, ops).0, Ever(fs, ops, path), path, cutoff);
  }

  lemma LoadOfSame(fs: Files, ever: seq<Snapshot>, path: string, cutoff: int)
    requires SameFrom(Snapshots(LinesAt(fs, path)), ever, cutoff)
    requires Readable(LinesAt(fs, path))
    ensures Load(fs, path, cutoff, Sound) == Loaded(View(ever, cutoff), CorruptAt(LinesAt(fs, path)))
  {
    assert SameAt(Snapshots(LinesAt(fs, path)), ever, cutoff);
    LoadOnReadable(fs, path, cutoff);
  }

  // ------------------------------------------------------ space and rewrites

  datatype Visit = Visit(snap: Snapshot, cutoff: int, from: int)

  function Visited(fs: Files, path: string, v: Visit): Files {
    Record(fs, path, v.snap, v.cutoff, v.from, Sound).0
  }

  function AfterVisits(fs: Files, path: string, vs: seq<Visit>): Files {
    if vs == [] then fs else Visited(AfterVisits(fs, path, vs[..|vs| - 1]), path, vs[|vs| - 1])
  }

  /** Work done so far: records dropped, rewrites caused by the absolute count,
      and lines written by rewrites caused by the ratio alone. */
  datatype Work = Work(dropped: int, countRewrites: nat, ratioLines: nat)

  function WorkOf(fs: Files, path: string, vs: seq<Visit>): Work {
    if vs == [] then Work(0, 0, 0) else
      var w := WorkOf(fs, path, vs[..|vs| - 1]);
      var v := vs[|vs| - 1];
      var scan := ScanOf(LinesAt(AfterVisits(fs, path, vs[..|vs| - 1]), path), v.cutoff);
      if !ShouldCompact(scan.total, scan.expired) then w
      else if scan.expired >= COMPACTION_MIN_EXPIRED then
        w.(dropped := w.dropped + scan.expired, countRewrites := w.countRewrites + 1)
      else
        w.(dropped := w.dropped + scan.expired, ratioLines := w.ratioLines + |scan.retained| + 1)
  }

  /** What one record leaves behind. */
  lemma VisitLeaves(fs: Files, path: string, v: Visit)
    requires Readable(LinesAt(fs, path))
    ensures var scan, after := ScanOf(LinesAt(fs, path), v.cutoff), LinesAt(Visited(fs, path, v), path);
      && Readable(after)
      && scan.total == scan.expired + |scan.retained| && scan.expired >= 0
      && |Snapshots(after)|
         == (if ShouldCompact(scan.total, scan.expired) then |scan.retained| else scan.total) + 1
      && View(Snapshots(after), v.cutoff) == View(Snapshots(LinesAt(fs, path)) + [v.snap], v.cutoff)
  {
    var lines := LinesAt(fs, path);
    var scan := ScanOf(lines, v.cutoff);
    SortLength(Above(Snapshots(lines), v.cutoff, Time));
    AboveShorter(Snapshots(lines), v.cutoff);
    if ShouldCompact(scan.total, scan.expired) {
      RewrittenLines(Insert(scan.retained, v.snap, Time));
      ViewOfCompacted(Snapshots(lines), v.snap, v.cutoff, v.cutoff);
    } else {
      SnocLine(lines, Good(v.snap));
    }
  }

  lemma {:induction false} AboveShorter(xs: seq<Snapshot>, c: int)
    ensures |Above(xs, c, Time)| <= |xs|
  {
    if xs != [] { AboveShorter(xs[..|xs| - 1], c); }
  }

  /** After recording a snapshot that is still fresh, fewer records are expired
      than retained, and never 64 of them. */
  lemma FileStaysSmall(fs: Files, path: string, v: Visit)
    requires Readable(LinesAt(fs, path)) && v.snap.time > v.cutoff
    ensures var after := Snapshots(LinesAt(Visited(fs, path, v), path));
      var expired := |after| - |View(after, v.cutoff)|;
      0 <= expired < COMPACTION_MIN_EXPIRED && expired < |View(after, v.cutoff)|
  {
    VisitLeaves(fs, path, v);
    var all := Snapshots(LinesAt(fs, path));
    ViewAppend(all, v.snap, v.cutoff);
    SortLength(Above(all, v.cutoff, Time));
  }

  /** Every rewrite is paid for by what it drops. */
  lemma {:induction false} RewritesArePaidFor(fs: Files, path: string, vs: seq<Visit>)
    requires Readable(LinesAt(fs, path))
    ensures var w, after := WorkOf(fs, path, vs), LinesAt(AfterVisits(fs, path, vs), path);
      && Readable(after)
      && |Snapshots(after)| + w.dropped == |Snapshots(LinesAt(fs, path))| + |vs|
      && w.dropped >= 0
      && COMPACTION_MIN_EXPIRED * w.countRewrites <= w.dropped
      && w.ratioLines <= 2 * w.dropped
  {
    if vs != [] {
      var before, v := vs[..|vs| - 1], vs[|vs| - 1];
      RewritesArePaidFor(fs, path, before);
      VisitLeaves(AfterVisits(fs, path, before), path, v);
    }
  }

  /** From an empty stream, n records drop at most n, rewrite by count at most
      n/64 times, and write at most 2n lines in ratio rewrites. */
  lemma CompactionCost(fs: Files, path: string, vs: seq<Visit>)
    requires path !in fs
    ensures var w := WorkOf(fs, path, vs);
      && 0 <= w.dropped <= |vs|
      && w.countRewrites <= |vs| / 64
      && w.ratioLines <= 2 * |vs|
  {
    RewritesArePaidFor(fs, path, vs);
  }
}
