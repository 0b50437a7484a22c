/** One history file: its lines, the scan that classifies them against a
    retention cutoff, and why a decoded scan can be narrowed to a later cutoff,
    extended by one appended line, or rebuilt after a rewrite without reading
    the file again. */
module HistoryScan {
  import opened Common
  import opened StableSort

  /** One recorded health observation. */
  datatype Snapshot = Snapshot(time: int, score: int, state: string,
                               desired: int, current: int, stabilizing: bool)

  /** The key every sort of this package uses. */
  function Time(s: Snapshot): int { s.time }

  /** A newline-terminated line: a decodable record, an undecodable one, white
      space only, or one beyond the scanner's 1 MB limit. */
  datatype Line = Good(snap: Snapshot) | Corrupt | Blank | Oversized

  /** total counts decodable lines, expired those at or before the cutoff;
      retained holds the others in time order; corrupt holds 1-based numbers of
      undecodable lines. */
  datatype Scan = Scan(total: nat, expired: int, retained: seq<Snapshot>, corrupt: seq<nat>)

  /** A read error still carries the fresh records seen so far, unsorted. */
  datatype ScanResult = Scanned(scan: Scan) | Unreadable(partial: seq<Snapshot>, afterLine: nat)

  function Snapshots(lines: seq<Line>): seq<Snapshot> {
    if lines == [] then []
    else
      var last := lines[|lines| - 1];
      Snapshots(lines[..|lines| - 1]) + (if last.Good? then [last.snap] else [])
  }

  function CorruptAt(lines: seq<Line>): seq<nat> {
    if lines == [] then []
    else CorruptAt(lines[..|lines| - 1]) + (if lines[|lines| - 1].Corrupt? then [|lines|] else [])
  }

  function AsLines(snaps: seq<Snapshot>): seq<Line> {
    seq(|snaps|, i requires 0 <= i < |snaps| => Good(snaps[i]))
  }

  predicate Readable(lines: seq<Line>) {
    forall i | 0 <= i < |lines| :: !lines[i].Oversized?
  }

  function FirstOversized(lines: seq<Line>): (n: nat)
    ensures n <= |lines|
  {
    if lines == [] || lines[0].Oversized? then 0 else 1 + FirstOversized(lines[1..])
  }

  lemma {:induction false} FirstOversizedSplits(lines: seq<Line>)
    ensures var n := FirstOversized(lines);
      && (forall i | 0 <= i < n :: !lines[i].Oversized?)
      && (n < |lines| ==> lines[n].Oversized?)
  {
    if lines != [] && !lines[0].Oversized? {
      FirstOversizedSplits(lines[1..]);
      forall i | 0 <= i < FirstOversized(lines) ensures !lines[i].Oversized? {
        if i > 0 { assert lines[i] == lines[1..][i - 1]; }
      }
    }
  }

  /** Reading a readable file from scratch. */
  function ScanOf(lines: seq<Line>, cutoff: int): Scan {
    var all := Snapshots(lines);
    var kept := Above(all, cutoff, Time);
    Scan(|all|, |all| - |kept|, Sort(kept, Time), CorruptAt(lines))
  }

  /** Reading any file, or none, from scratch. */
  function ScanFile(file: Option<seq<Line>>, cutoff: int): ScanResult {
    match file
    case None => Scanned(Scan(0, 0, [], []))
    case Some(lines) =>
      if Readable(lines) then Scanned(ScanOf(lines, cutoff))
      else Unreadable(FreshBefore(lines, FirstOversized(lines), cutoff), FirstOversized(lines))
  }

  function FreshBefore(lines: seq<Line>, n: nat, cutoff: int): seq<Snapshot>
    requires n <= |lines|
  {
    Above(Snapshots(lines[..n]), cutoff, Time)
  }

  /** The decodable lines, in order. */
  lemma {:induction false} SnapshotsMean(lines: seq<Line>, n: nat)
    ensures |Snapshots(lines)| == HowMany(lines, (l: Line) => l.Good?)
    ensures n < |lines| && lines[n].Good? ==>
      var before := HowMany(lines[..n], (l: Line) => l.Good?);
      before < |Snapshots(lines)| && Snapshots(lines)[before] == lines[n].snap
  {
    var good := (l: Line) => l.Good?;
    if lines == [] {
      HowManyNone(good);
    } else {
      var init, last := lines[..|lines| - 1], lines[|lines| - 1];
      SnapshotsMean(init, n);
      assert lines == init + [last];
      HowManySnoc(init, last, good);
      assert n < |init| ==> lines[..n] == init[..n];
      hide HowMany;
    }
  }

  /** The 1-based numbers of the undecodable lines, ascending. */
  lemma {:induction false} CorruptMeans(lines: seq<Line>)
    ensures forall n: nat :: n in CorruptAt(lines) <==> 1 <= n <= |lines| && lines[n - 1].Corrupt?
    ensures forall i, j | 0 <= i < j < |CorruptAt(lines)| :: CorruptAt(lines)[i] < CorruptAt(lines)[j]
  {
    if lines != [] {
      var init, last := lines[..|lines| - 1], lines[|lines| - 1];
      CorruptMeans(init);
      var before, after := CorruptAt(init), CorruptAt(lines);
      assert after == if last.Corrupt? then before + [|lines|] else before;
      hide CorruptAt;
      assert forall i | 0 <= i < |before| :: before[i] in before && before[i] <= |init|;
      assert forall n: nat :: n in after <==> n in before || (last.Corrupt? && n == |lines|);
    }
  }

  /** A scan in terms of the lines: how many are decodable, how many of those are
      not later than the cutoff, and the others in time order. */
  lemma ScanMeans(lines: seq<Line>, cutoff: int)
    ensures var scan := ScanOf(lines, cutoff);
      && scan.total == HowMany(lines, (l: Line) => l.Good?)
      && scan.expired == HowMany(lines, (l: Line) => l.Good? && l.snap.time <= cutoff)
      && |scan.retained| == HowMany(lines, (l: Line) => l.Good? && l.snap.time > cutoff)
      && (forall x :: x in scan.retained <==> Good(x) in lines && x.time > cutoff)
      && (forall i, j | 0 <= i < j < |scan.retained| :: scan.retained[i].time <= scan.retained[j].time)
  {
    SnapshotsMean(lines, 0);
    KeptMeans(lines, cutoff);
    AboveMembers(Snapshots(lines), cutoff, Time);
    forall x ensures x in Snapshots(lines) <==> Good(x) in lines {
      SnapshotsHold(lines, x);
    }
    var kept := Above(Snapshots(lines), cutoff, Time);
    SortIsSorted(kept, Time);
    SortPermutes(kept, Time);
    hide HowMany, Sort;
  }

  /** An unreadable file is read up to its first oversize line, and what was fresh
      before it is handed over. */
  lemma UnreadableMeans(lines: seq<Line>, cutoff: int)
    requires exists i | 0 <= i < |lines| :: lines[i].Oversized?
    ensures ScanFile(Some(lines), cutoff).Unreadable?
    ensures var r := ScanFile(Some(lines), cutoff);
      && r.afterLine < |lines| && lines[r.afterLine].Oversized?
      && (forall i | 0 <= i < r.afterLine :: !lines[i].Oversized?)
      && |r.partial| == HowMany(lines[..r.afterLine], (l: Line) => l.Good? && l.snap.time > cutoff)
      && forall x :: x in r.partial <==> Good(x) in lines[..r.afterLine] && x.time > cutoff
  {
    FirstOversizedSplits(lines);
    var read := lines[..FirstOversized(lines)];
    KeptMeans(read, cutoff);
    AboveMembers(Snapshots(read), cutoff, Time);
    forall x ensures x in Snapshots(read) <==> Good(x) in read {
      SnapshotsHold(read, x);
    }
    hide HowMany, FirstOversized, Snapshots;
  }

  lemma {:induction false} KeptMeans(lines: seq<Line>, cutoff: int)
    ensures |Above(Snapshots(lines), cutoff, Time)| == HowMany(lines, (l: Line) => l.Good? && l.snap.time > cutoff)
    ensures |Snapshots(lines)| - |Above(Snapshots(lines), cutoff, Time)|
         == HowMany(lines, (l: Line) => l.Good? && l.snap.time <= cutoff)
  {
    var late, early := (l: Line) => l.Good? && l.snap.time > cutoff, (l: Line) => l.Good? && l.snap.time <= cutoff;
    if lines == [] {
      HowManyNone(late);
      HowManyNone(early);
    } else {
      hide HowMany, Snapshots, Above;
      var init, last := lines[..|lines| - 1], lines[|lines| - 1];
      KeptMeans(init, cutoff);
      assert lines == init + [last];
      HowManySnoc(init, last, late);
      HowManySnoc(init, last, early);
      SnocScan(lines, |init|, cutoff);
      assert lines[..|init| + 1] == lines;
    }
  }

  lemma {:induction false} SnapshotsHold(lines: seq<Line>, x: Snapshot)
    ensures x in Snapshots(lines) <==> Good(x) in lines
  {
    if lines != [] {
      var init, last := lines[..|lines| - 1], lines[|lines| - 1];
      SnapshotsHold(init, x);
      assert lines == init + [last];
    }
  }

  /** The line loop of scanHistoryFile. */
  method ScanHistoryFile(file: Option<seq<Line>>, cutoff: int) returns (r: ScanResult)
    ensures r == ScanFile(file, cutoff)
  {
    if file.None? {
      return Scanned(Scan(0, 0, [], []));
    }
    var lines := file.value;
    var total, expired := 0, 0;
    var retained: seq<Snapshot>, corrupt: seq<nat> := [], [];
    var lineNum := 0;
    FirstOversizedSplits(lines);
    while lineNum < |lines| && !lines[lineNum].Oversized?
      invariant 0 <= lineNum <= FirstOversized(lines)
      invariant total == |Snapshots(lines[..lineNum])|
      invariant retained == Above(Snapshots(lines[..lineNum]), cutoff, Time)
      invariant expired == total - |retained|
      invariant corrupt == CorruptAt(lines[..lineNum])
    {
      var line := lines[lineNum];
      SnocScan(lines, lineNum, cutoff);
      lineNum := lineNum + 1;
      match line {
        case Oversized =>
        case Blank =>
        case Corrupt =>
          corrupt := corrupt + [lineNum];
        case Good(snap) =>
          total := total + 1;
          if snap.time > cutoff {
            retained := retained + [snap];
          } else {
            expired := expired + 1;
          }
      }
    }
    if lineNum < |lines| {
      return Unreadable(retained, lineNum);
    }
    assert lines[..lineNum] == lines;
    r := Scanned(Scan(total, expired, Sort(retained, Time), corrupt));
  }

  /** One turn of the line loop. */
  lemma SnocScan(lines: seq<Line>, n: nat, cutoff: int)
    requires n < |lines|
    ensures var line, before, now := lines[n], Snapshots(lines[..n]), Snapshots(lines[..n + 1]);
      && |now| == |before| + (if line.Good? then 1 else 0)
      && Above(now, cutoff, Time)
         == Above(before, cutoff, Time) + (if line.Good? && line.snap.time > cutoff then [line.snap] else [])
      && CorruptAt(lines[..n + 1])
         == CorruptAt(lines[..n]) + (if line.Corrupt? then [n + 1] else [])
  {
    var line, before := lines[n], Snapshots(lines[..n]);
    SnocLine(lines[..n], line);
    assert lines[..n + 1] == lines[..n] + [line];
    if line.Good? {
      SnocAbove(before, line.snap, cutoff, Time);
    } else {
      assert before + [] == before;
    }
  }

  lemma SnocLine(lines: seq<Line>, line: Line)
    ensures Snapshots(lines + [line]) == Snapshots(lines) + (if line.Good? then [line.snap] else [])
    ensures CorruptAt(lines + [line]) == CorruptAt(lines) + (if line.Corrupt? then [|lines| + 1] else [])
  {
    assert (lines + [line])[..|lines|] == lines;
  }

  /** JSON encoding followed by decoding gives back the same records. */
  lemma {:induction false} RewrittenLines(snaps: seq<Snapshot>)
    ensures Snapshots(AsLines(snaps)) == snaps
    ensures CorruptAt(AsLines(snaps)) == []
    ensures Readable(AsLines(snaps))
  {
    if snaps != [] {
      var init, last := snaps[..|snaps| - 1], snaps[|snaps| - 1];
      RewrittenLines(init);
      assert AsLines(snaps) == AsLines(init) + [Good(last)];
      SnocLine(AsLines(init), Good(last));
    }
  }

  // -------------------------------------------------- reusing a decoded scan

  /** The answer scanCache.load gives from a cached scan. */
  function Narrow(scan: Scan, cutoff: int): Scan {
    var start := UpperBound(scan.retained, cutoff, Time);
    scan.(expired := scan.expired + start, retained := scan.retained[start..])
  }

  /** A decoded scan that stands for `lines` at `from` and at every later cutoff. */
  ghost predicate Describes(scan: Scan, lines: seq<Line>, from: int) {
    && Sorted(scan.retained, Time)
    && forall c | c >= from :: NarrowsTo(scan, lines, c)
  }

  ghost predicate NarrowsTo(scan: Scan, lines: seq<Line>, cutoff: int) {
    Narrow(scan, cutoff) == ScanOf(lines, cutoff)
  }

  lemma NarrowCounts(scan: Scan, cutoff: int)
    requires Sorted(scan.retained, Time)
    ensures var n := Narrow(scan, cutoff);
      && n.retained == Above(scan.retained, cutoff, Time)
      && n.expired == scan.expired + |scan.retained| - |n.retained|
  {
    AboveIsSuffix(scan.retained, cutoff, Time);
  }

  lemma SortLength(xs: seq<Snapshot>)
    ensures |Sort(xs, Time)| == |xs|
  {
    SortPermutes(xs, Time);
  }

  /** A fresh scan stays usable for every later cutoff. */
  lemma FreshScanDescribes(lines: seq<Line>, cutoff: int)
    ensures Describes(ScanOf(lines, cutoff), lines, cutoff)
  {
    SortIsSorted(Above(Snapshots(lines), cutoff, Time), Time);
    forall c | c >= cutoff ensures NarrowsTo(ScanOf(lines, cutoff), lines, c) {
      NarrowedScan(lines, cutoff, c);
    }
  }

  lemma NarrowedScan(lines: seq<Line>, cutoff: int, c: int)
    requires c >= cutoff
    ensures Narrow(ScanOf(lines, cutoff), c) == ScanOf(lines, c)
  {
    var all := Snapshots(lines);
    var kept := Above(all, cutoff, Time);
    var scan := ScanOf(lines, cutoff);
    SortIsSorted(kept, Time);
    NarrowCounts(scan, c);
    AboveOfSort(kept, c, Time);
    AboveAbove(all, cutoff, c, Time);
    assert Above(scan.retained, c, Time) == Sort(Above(all, c, Time), Time);
    SortLength(kept);
    SortLength(Above(all, c, Time));
  }

  lemma ScannedFileDescribes(file: Option<seq<Line>>, cutoff: int)
    requires ScanFile(file, cutoff).Scanned? && file.Some?
    ensures Readable(file.value)
    ensures ScanFile(file, cutoff) == Scanned(ScanOf(file.value, cutoff))
    ensures Describes(ScanOf(file.value, cutoff), file.value, cutoff)
  {
    FreshScanDescribes(file.value, cutoff);
  }

  /** What RecordAndLoad caches after an append. */
  function Appended(scan: Scan, s: Snapshot): Scan {
    scan.(total := scan.total + 1, retained := Insert(scan.retained, s, Time))
  }

  /** After appending one record, the updated scan stands for the new file, even
      when the record itself is already at or before the cutoff. */
  lemma AppendedScanDescribes(lines: seq<Line>, cutoff: int, s: Snapshot)
    ensures Describes(Appended(ScanOf(lines, cutoff), s), lines + [Good(s)], cutoff)
  {
    RetainedFacts(lines, cutoff, s);
    forall c | c >= cutoff
      ensures NarrowsTo(Appended(ScanOf(lines, cutoff), s), lines + [Good(s)], c)
    {
      AppendedNarrow(lines, cutoff, s, c);
    }
  }

  lemma AppendedNarrow(lines: seq<Line>, cutoff: int, s: Snapshot, c: int)
    requires c >= cutoff
    ensures Narrow(Appended(ScanOf(lines, cutoff), s), c) == ScanOf(lines + [Good(s)], c)
  {
    var all := Snapshots(lines);
    var scan := ScanOf(lines, cutoff);
    RetainedFacts(lines, cutoff, s);
    var written := Appended(scan, s);
    var later := Above(all + [s], c, Time);
    assert Narrow(written, c).retained == Sort(later, Time) by {
      AppendedRetained(all, cutoff, s, c);
      NarrowCounts(written, c);
    }
    AppendedCounts(all, scan, s, c, later);
    ScanOfAppended(lines, s, c);
  }

  lemma ScanOfAppended(lines: seq<Line>, s: Snapshot, c: int)
    ensures var all, later := Snapshots(lines), Above(Snapshots(lines) + [s], c, Time);
      ScanOf(lines + [Good(s)], c)
      == Scan(|all| + 1, |all| + 1 - |later|, Sort(later, Time), CorruptAt(lines))
  {
    SnocLine(lines, Good(s));
    assert CorruptAt(lines) + [] == CorruptAt(lines);
  }

  lemma RetainedFacts(lines: seq<Line>, cutoff: int, s: Snapshot)
    ensures var scan := ScanOf(lines, cutoff);
      && Sorted(scan.retained, Time) && Sorted(Appended(scan, s).retained, Time)
      && scan.expired == |Snapshots(lines)| - |scan.retained|
  {
    var kept := Above(Snapshots(lines), cutoff, Time);
    SortIsSorted(kept, Time);
    SortLength(kept);
    InsertSorted(Sort(kept, Time), s, Time);
  }

  lemma AppendedCounts(all: seq<Snapshot>, scan: Scan, s: Snapshot, c: int, later: seq<Snapshot>)
    requires Sorted(scan.retained, Time) && Sorted(Appended(scan, s).retained, Time)
    requires scan.expired == |all| - |scan.retained|
    requires Narrow(Appended(scan, s), c).retained == Sort(later, Time)
    ensures Narrow(Appended(scan, s), c).expired == |all| + 1 - |later|
  {
    NarrowCounts(Appended(scan, s), c);
    SortLength(later);
  }

  lemma AppendedRetained(all: seq<Snapshot>, cutoff: int, s: Snapshot, c: int)
    requires c >= cutoff
    ensures Above(Insert(Sort(Above(all, cutoff, Time), Time), s, Time), c, Time)
         == Sort(Above(all + [s], c, Time), Time)
  {
    var ret := Sort(Above(all, cutoff, Time), Time);
    SortIsSorted(Above(all, cutoff, Time), Time);
    AboveOfInsert(ret, s, c, Time);
    AboveOfSort(Above(all, cutoff, Time), c, Time);
    AboveAbove(all, cutoff, c, Time);
    assert Above(ret, c, Time) == Sort(Above(all, c, Time), Time);
    SnocAbove(all, s, c, Time);
    if s.time > c {
      SortSnoc(Above(all, c, Time), s, Time);
    } else {
      assert Above(all, c, Time) + [] == Above(all, c, Time);
    }
  }

  /** After a rewrite, the rewritten records stand for the new file. */
  lemma RewrittenScanDescribes(snaps: seq<Snapshot>, cutoff: int)
    requires Sorted(snaps, Time)
    ensures Describes(Scan(|snaps|, 0, snaps, []), AsLines(snaps), cutoff)
  {
    RewrittenLines(snaps);
    var written := Scan(|snaps|, 0, snaps, []);
    forall c | c >= cutoff ensures NarrowsTo(written, AsLines(snaps), c) {
      NarrowCounts(written, c);
      AboveOfSort(snaps, c, Time);
      SortOfSorted(snaps, Time);
    }
  }
}
