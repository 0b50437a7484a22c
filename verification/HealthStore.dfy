/** The store the program runs: every operation goes through the decoded cache
    and still behaves as the store that rescans the file each time. */
module HealthStoring {
  import opened Common
  import opened StableSort
  import opened HistoryScan
  import opened HistoryDisk
  import opened ScanCaching
  import opened HistoryReference

  class HealthStore {
    const disk: Disk
    const cache: ScanCache

    ghost predicate Valid()
      reads this, disk, cache
    {
      disk.Valid() && cache.Valid() && cache.Coherent(disk)
    }

    constructor (disk: Disk)
      requires disk.Valid()
      ensures Valid() && this.disk == disk && fresh(cache)
    {
      this.disk := disk;
      this.cache := new ScanCache();
    }

    /** Cache coherence: a hit or a miss, the answer is a fresh scan's. */
    method CachedHistoryScan(path: string, cutoff: int) returns (r: ScanResult)
      requires Valid() && path != ""
      modifies cache
      ensures Valid()
      ensures r == ScanFile(disk.Read(path), cutoff)
    {
      var hit := LoadCached(path, cutoff);
      if hit.Some? {
        return Scanned(hit.value);
      }
      r := ScanHistoryFile(disk.Read(path), cutoff);
      if r.Scanned? {
        if path in disk.files {
          ScannedFileDescribes(disk.Read(path), cutoff);
        }
        SaveScan(path, cutoff, r.scan);
      }
    }

    method LoadCached(path: string, cutoff: int) returns (hit: Option<Scan>)
      requires Valid()
      modifies cache
      ensures Valid()
      ensures hit.Some? ==> Scanned(hit.value) == ScanFile(disk.Read(path), cutoff)
    {
      ghost var before := cache.entries;
      hit := cache.Load(disk, path, cutoff);
      if hit.Some? {
        assert Trustworthy(before[path], path, disk.files, disk.nextToken);
        assert NarrowsTo(before[path].scan, disk.files[path].lines, cutoff);
      }
    }

    method SaveScan(path: string, cutoff: int, scan: Scan)
      requires Valid() && path != ""
      requires path in disk.files ==>
        Readable(disk.files[path].lines) && Describes(scan, disk.files[path].lines, cutoff)
      modifies cache
      ensures Valid()
    {
      if path in disk.files {
        SavingKeepsTrust(cache.entries, disk.files, disk.nextToken, path,
                         CachedScan(disk.files[path].token, cutoff, scan, cache.sequence + 1));
      }
      cache.Save(disk, path, cutoff, scan);
    }

    method AppendSnapshotLine(path: string, s: Snapshot, fault: Fault) returns (ok: bool)
      requires Valid() && path != "" && !fault.Refused?
      modifies cache, disk
      ensures Valid() && ok == fault.Sound?
      ensures disk.Contents() == AppendLine(old(disk.Contents()), path, s, fault)
      ensures cache.entries == old(cache.entries) - {path} && cache.sequence == old(cache.sequence)
    {
      cache.RemoveEntry(path);
      if fault.BeforeOpen? {
        return false;
      }
      var lines := if path in disk.files then disk.files[path].lines else [];
      if fault.BeforeWrite? {
        if path !in disk.files {
          disk.Write(path, lines);
        }
        return false;
      }
      disk.Write(path, lines + [Good(s)]);
      return fault.Sound?;
    }

    method ReplaceSnapshots(path: string, snaps: seq<Snapshot>, fault: Fault) returns (ok: bool)
      requires Valid() && path != ""
      modifies cache, disk
      ensures Valid() && ok == fault.Sound?
      ensures disk.Contents() == if ok then old(disk.Contents())[path := AsLines(snaps)] else old(disk.Contents())
      ensures cache.entries == old(cache.entries) - {path} && cache.sequence == old(cache.sequence)
    {
      cache.RemoveEntry(path);
      if !fault.Sound? {
        return false;
      }
      disk.Write(path, AsLines(snaps));
      return true;
    }

    method Append(path: string, s: Snapshot, fault: Fault) returns (ok: bool)
      requires Valid() && path != ""
      modifies cache, disk
      ensures Valid() && ok == fault.Sound?
      ensures disk.Contents() == AppendLine(old(disk.Contents()), path, s, fault)
    {
      if fault.Refused? {
        return false;
      }
      ok := AppendSnapshotLine(path, s, fault);
    }

    method LoadAt(path: string, since: int, now: int, fault: Fault) returns (r: LoadResult)
      requires Valid() && path != ""
      modifies cache
      ensures Valid()
      ensures r == Load(disk.Contents(), path, now - since, fault)
    {
      if fault.Refused? {
        return LoadRefused;
      }
      var scan := CachedHistoryScan(path, now - since);
      match scan {
        case Unreadable(partial, _) => r := LoadUnreadable(partial);
        case Scanned(scan) => r := Loaded(scan.retained, scan.corrupt);
      }
    }

    method PruneAt(path: string, retention: int, now: int, fault: Fault) returns (r: PruneResult)
      requires Valid() && path != ""
      modifies cache, disk
      ensures Valid()
      ensures (disk.Contents(), r) == Prune(old(disk.Contents()), path, now - retention, fault)
    {
      if fault.Refused? {
        return PruneRefused;
      }
      var scan := CachedHistoryScan(path, now - retention);
      if scan.Unreadable? {
        return PruneUnreadable;
      }
      var ok := ReplaceSnapshots(path, scan.scan.retained, fault);
      if !ok {
        return PruneFailed;
      }
      return Pruned(scan.scan.corrupt);
    }

    /** Appends or compacts, caches the state it wrote without reading it back,
        and returns the window. */
    method RecordAndLoad(path: string, s: Snapshot, retention: int, since: int, now: int, fault: Fault)
      returns (r: RecordResult)
      requires Valid() && path != ""
      modifies cache, disk
      ensures Valid()
      ensures (disk.Contents(), r)
           == Record(old(disk.Contents()), path, s, now - retention, now - since, fault)
    {
      hide ScanFile, AppendLine, ShouldCompact, NotBefore, Insert, AsLines;
      if fault.Refused? {
        return RecordRefused;
      }
      var cutoff := now - retention;
      var result := CachedHistoryScan(path, cutoff);
      if result.Unreadable? {
        return RecordUnreadable;
      }
      var retained, ok := WriteAndCache(path, s, cutoff, result.scan, fault);
      if !ok {
        return RecordFailed;
      }
      return Recorded(NotBefore(retained, now - since), result.scan.corrupt);
    }

    /** Inserts after equal timestamps, writes, and caches the written state. */
    method WriteAndCache(path: string, s: Snapshot, cutoff: int, scan: Scan, fault: Fault)
      returns (retained: seq<Snapshot>, ok: bool)
      requires Valid() && path != "" && !fault.Refused?
      requires ScanFile(disk.Read(path), cutoff) == Scanned(scan)
      modifies cache, disk
      ensures Valid() && ok == fault.Sound?
      ensures retained == Insert(scan.retained, s, Time)
      ensures disk.Contents() ==
        if !ShouldCompact(scan.total, scan.expired) then AppendLine(old(disk.Contents()), path, s, fault)
        else if ok then old(disk.Contents())[path := AsLines(retained)]
        else old(disk.Contents())
    {
      var index := UpperBound(scan.retained, s.time, Time);
      retained := scan.retained[..index] + [s] + scan.retained[index..];
      hide ScanFile, Sort, Above, UpperBound, Snapshots, CorruptAt;
      ghost var fs := disk.Contents();
      if ShouldCompact(scan.total, scan.expired) {
        ok := ReplaceSnapshots(path, retained, fault);
      } else {
        ok := AppendSnapshotLine(path, s, fault);
      }
      if ok {
        var written := Scan(scan.total + 1, scan.expired, retained, scan.corrupt);
        if ShouldCompact(scan.total, scan.expired) {
          written := Scan(|retained|, 0, retained, []);
        }
        WrittenDescribes(Lookup(fs, path), scan, s, cutoff, disk.Contents()[path]);
        SaveScan(path, cutoff, written);
      }
    }

    /** Another process writes a stream under its lock. */
    method ForeignWriting(path: string, lines: seq<Line>)
      requires Valid()
      modifies disk
      ensures Valid() && disk.Contents() == old(disk.Contents())[path := lines]
    {
      disk.Write(path, lines);
    }

    method ForeignRemoving(path: string)
      requires Valid()
      modifies disk
      ensures Valid() && disk.Contents() == old(disk.Contents()) - {path}
    {
      disk.Remove(path);
    }

    /** Cache coherence over every run: whatever the interleaving of calls, faults
        and foreign writes, callers see what the cacheless store shows them. */
    method Perform(ops: seq<Op>) returns (seen: seq<Seen>)
      requires Valid()
      requires forall i | 0 <= i < |ops| :: ops[i].path != ""
      modifies cache, disk
      ensures Valid()
      ensures (disk.Contents(), seen) == Run(old(disk.Contents()), ops)
    {
      seen := [];
      for i := 0 to |ops|
        invariant Valid()
        invariant (disk.Contents(), seen) == Run(old(disk.Contents()), ops[..i])
      {
        var last := PerformOne(ops[i]);
        assert ops[..i + 1][..i] == ops[..i];
        seen := seen + [last];
      }
      assert ops[..|ops|] == ops;
    }

    method PerformPrune(op: Op) returns (last: Seen)
      requires Valid() && op.PruneOp? && op.path != ""
      modifies cache, disk
      ensures Valid()
      ensures (disk.Contents(), last) == Step(old(disk.Contents()), op)
    {
      hide HistoryReference.Prune;
      StepOfPrune(disk.Contents(), op);
      var r := PruneAt(op.path, op.retention, op.now, op.fault);
      last := Prunes(r);
    }

    method PerformRecord(op: Op) returns (last: Seen)
      requires Valid() && op.RecordOp? && op.path != ""
      modifies cache, disk
      ensures Valid()
      ensures (disk.Contents(), last) == Step(old(disk.Contents()), op)
    {
      hide HistoryReference.Record;
      StepOfRecord(disk.Contents(), op);
      var r := RecordAndLoad(op.path, op.snap, op.retention, op.since, op.now, op.fault);
      last := Records(r);
    }

    method PerformOne(op: Op) returns (last: Seen)
      requires Valid() && op.path != ""
      modifies cache, disk
      ensures Valid()
      ensures (disk.Contents(), last) == Step(old(disk.Contents()), op)
    {
      match op {
        case AppendOp(p, s, f) =>
          var ok := Append(p, s, f);
          last := Seen.Appended(ok);
        case LoadOp(p, since, now, f) =>
          var r := LoadAt(p, since, now, f);
          last := Loads(r);
        case PruneOp(_, _, _, _) =>
          last := PerformPrune(op);
        case RecordOp(_, _, _, _, _, _) =>
          last := PerformRecord(op);
        case ForeignWrite(p, lines) =>
          ForeignWriting(p, lines);
          last := Unseen;
        case ForeignRemove(p) =>
          ForeignRemoving(p);
          last := Unseen;
      }
    }
  }

  /** The scan RecordAndLoad saves stands for the file it has just written. */
  lemma WrittenDescribes(before: Option<seq<Line>>, scan: Scan, s: Snapshot, cutoff: int, after: seq<Line>)
    requires ScanFile(before, cutoff) == Scanned(scan)
    requires after ==
      if ShouldCompact(scan.total, scan.expired) then AsLines(Insert(scan.retained, s, Time))
      else (if before.Some? then before.value else []) + [Good(s)]
    ensures Readable(after)
    ensures var retained := Insert(scan.retained, s, Time);
      Describes(
        if ShouldCompact(scan.total, scan.expired) then Scan(|retained|, 0, retained, [])
        else HistoryScan.Appended(scan, s), after, cutoff)
  {
    var lines := if before.Some? then before.value else [];
    if before.Some? {
      ScannedFileDescribes(before, cutoff);
    }
    assert scan == ScanOf(lines, cutoff);
    RetainedFacts(lines, cutoff, s);
    if ShouldCompact(scan.total, scan.expired) {
      RewrittenScanDescribes(Insert(scan.retained, s, Time), cutoff);
      RewrittenLines(Insert(scan.retained, s, Time));
    } else {
      AppendedScanDescribes(lines, cutoff, s);
    }
  }
}
