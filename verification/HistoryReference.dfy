/** The simple store that RecordAndLoad, PruneAt, LoadAt and Append must be
    indistinguishable from: no cache, every call rescans the whole file. */
module HistoryReference {
  import opened Common
  import opened StableSort
  import opened HistoryScan

  const COMPACTION_MIN_EXPIRED := 64

  type Files = map<string, seq<Line>>

  /** What the environment does to one call: refuse it (invalid key, lock not
      obtained, cancelled context), fail it before the file is opened, after it
      was opened or created, or after the record reached the file. */
  datatype Fault = Sound | Refused | BeforeOpen | BeforeWrite | AfterWrite

  datatype LoadResult = LoadRefused | LoadUnreadable(partial: seq<Snapshot>)
                      | Loaded(snaps: seq<Snapshot>, corrupt: seq<nat>)
  datatype PruneResult = PruneRefused | PruneUnreadable | PruneFailed | Pruned(corrupt: seq<nat>)
  datatype RecordResult = RecordRefused | RecordUnreadable | RecordFailed
                        | Recorded(window: seq<Snapshot>, corrupt: seq<nat>)

  function Lookup(fs: Files, path: string): Option<seq<Line>> {
    if path in fs then Some(fs[path]) else None
  }

  function LinesAt(fs: Files, path: string): seq<Line> {
    if path in fs then fs[path] else []
  }

  predicate ShouldCompact(total: int, expired: int) {
    expired > 0 && (expired >= COMPACTION_MIN_EXPIRED || expired * 2 >= total)
  }

  /** The records a sorted run holds at or after `from`. */
  function NotBefore(xs: seq<Snapshot>, from: int): seq<Snapshot> {
    xs[UpperBound(xs, from - 1, Time)..]
  }

  function AppendLine(fs: Files, path: string, s: Snapshot, fault: Fault): Files {
    match fault
    case Refused | BeforeOpen => fs
    case BeforeWrite => fs[path := LinesAt(fs, path)]
    case Sound | AfterWrite => fs[path := LinesAt(fs, path) + [Good(s)]]
  }

  /** What an append leaves: the record when it got as far as the file, which
      exists once it was opened, and every other file as it was. */
  lemma AppendLeaves(fs: Files, path: string, s: Snapshot, fault: Fault)
    ensures var after := AppendLine(fs, path, s, fault);
      && LinesAt(after, path) == LinesAt(fs, path) + (if fault.Sound? || fault.AfterWrite? then [Good(s)] else [])
      && (path in after <==> path in fs || fault.Sound? || fault.BeforeWrite? || fault.AfterWrite?)
      && after - {path} == fs - {path}
  {
    assert LinesAt(fs, path) + [] == LinesAt(fs, path);
  }

  function Load(fs: Files, path: string, cutoff: int, fault: Fault): LoadResult {
    if fault.Refused? then LoadRefused else
      match ScanFile(Lookup(fs, path), cutoff)
      case Unreadable(partial, _) => LoadUnreadable(partial)
      case Scanned(scan) => Loaded(scan.retained, scan.corrupt)
  }

  function Prune(fs: Files, path: string, cutoff: int, fault: Fault): (Files, PruneResult) {
    if fault.Refused? then (fs, PruneRefused) else
      match ScanFile(Lookup(fs, path), cutoff)
      case Unreadable(_, _) => (fs, PruneUnreadable)
      case Scanned(scan) =>
        if fault.Sound? then (fs[path := AsLines(scan.retained)], Pruned(scan.corrupt))
        else (fs, PruneFailed)
  }

  function Record(fs: Files, path: string, s: Snapshot, cutoff: int, from: int, fault: Fault):
    (Files, RecordResult)
  {
    if fault.Refused? then (fs, RecordRefused) else
      match ScanFile(Lookup(fs, path), cutoff)
      case Unreadable(_, _) => (fs, RecordUnreadable)
      case Scanned(scan) =>
        var retained := Insert(scan.retained, s, Time);
        var fs' :=
          if !ShouldCompact(scan.total, scan.expired) then AppendLine(fs, path, s, fault)
          else if fault.Sound? then fs[path := AsLines(retained)]
          else fs;
        (fs', if fault.Sound? then Recorded(NotBefore(retained, from), scan.corrupt) else RecordFailed)
  }

  // ------------------------------------------------------------------- runs

  /** One event at the store directory: a call of this process, or a write by
      somebody else. */
  datatype Op =
    | AppendOp(path: string, snap: Snapshot, fault: Fault)
    | LoadOp(path: string, since: int, now: int, fault: Fault)
    | PruneOp(path: string, retention: int, now: int, fault: Fault)
    | RecordOp(path: string, snap: Snapshot, retention: int, since: int, now: int, fault: Fault)
    | ForeignWrite(path: string, lines: seq<Line>)
    | ForeignRemove(path: string)

  datatype Seen = Appended(ok: bool) | Loads(load: LoadResult) | Prunes(prune: PruneResult)
                | Records(record: RecordResult) | Unseen

  function Step(fs: Files, op: Op): (Files, Seen) {
    match op
    case AppendOp(p, s, f) => (AppendLine(fs, p, s, f), Appended(f.Sound?))
    case LoadOp(p, since, now, f) => (fs, Loads(Load(fs, p, now - since, f)))
    case PruneOp(p, retention, now, f) =>
      var (fs', r) := Prune(fs, p, now - retention, f); (fs', Prunes(r))
    case RecordOp(p, s, retention, since, now, f) =>
      var (fs', r) := Record(fs, p, s, now - retention, now - since, f); (fs', Records(r))
    case ForeignWrite(p, lines) => (fs[p := lines], Unseen)
    case ForeignRemove(p) => (fs - {p}, Unseen)
  }

  lemma StepOfRecord(fs: Files, op: Op)
    requires op.RecordOp?
    ensures var (fs', r) := Record(fs, op.path, op.snap, op.now - op.retention, op.now - op.since, op.fault);
      Step(fs, op) == (fs', Records(r))
  {
  }

  lemma StepOfPrune(fs: Files, op: Op)
    requires op.PruneOp?
    ensures var (fs', r) := Prune(fs, op.path, op.now - op.retention, op.fault);
      Step(fs, op) == (fs', Prunes(r))
  {
  }

  /** What the callers see over a whole run, and the files it leaves. */
  function Run(fs: Files, ops: seq<Op>): (Files, seq<Seen>) {
    if ops == [] then (fs, []) else
      var (before, seen) := Run(fs, ops[..|ops| - 1]);
      var (after, last) := Step(before, ops[|ops| - 1]);
      (after, seen + [last])
  }
}
