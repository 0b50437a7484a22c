/** The process-wide cache of decoded scans: least-recently-used eviction under
    a bound on streams and on records, invalidation by stat token, and narrowing
    of a cached scan to a later cutoff. */
module ScanCaching {
  import opened Common
  import opened StableSort
  import opened HistoryScan
  import opened HistoryDisk

  const MAX_STREAMS := 128
  const MAX_RECORDS := 100000

  datatype CachedScan = CachedScan(token: nat, cutoff: int, scan: Scan, used: nat)

  function Size(e: CachedScan): nat {
    |e.scan.retained| + |e.scan.corrupt|
  }

  // ----------------------------------------------------------- specification

  ghost function Weight(m: map<string, CachedScan>): nat {
    if m == map[] then 0 else
      var k :| k in m;
      Size(m[k]) + Weight(m - {k})
  }

  lemma {:induction false} WeightWithout(m: map<string, CachedScan>, k: string)
    requires k in m
    ensures Weight(m) == Size(m[k]) + Weight(m - {k})
    decreases m
  {
    var j :| j in m && Weight(m) == Size(m[j]) + Weight(m - {j});
    if j != k {
      WeightWithout(m - {j}, k);
      WeightWithout(m - {k}, j);
      assert m - {j} - {k} == m - {k} - {j};
    }
  }

  /** What each entry holds: its records and its corrupt line numbers. */
  ghost function Held(m: map<string, CachedScan>): string -> Option<int> {
    (k: string) => if k in m then Some(|m[k].scan.retained| + |m[k].scan.corrupt|) else None
  }

  /** The keys of the map, each once. */
  ghost predicate Lists(order: seq<string>, m: map<string, CachedScan>) {
    && (forall k :: k in m <==> k in order)
    && forall i, j | 0 <= i < j < |order| :: order[i] != order[j]
  }

  lemma ListsOneLess(order: seq<string>, m: map<string, CachedScan>)
    requires Lists(order, m) && order != []
    ensures var n := |order| - 1;
      order[n] in m && order[n] !in order[..n] && Lists(order[..n], m - {order[n]})
  {
    var init, k := order[..|order| - 1], order[|order| - 1];
    assert order == init + [k];
    forall i | 0 <= i < |init| ensures init[i] != k {
      assert init[i] == order[i];
    }
  }

  lemma NoneListed(m: map<string, CachedScan>)
    requires Lists([], m)
    ensures Weight(m) == SumOf([], (k: string) => k in m, Held(m)) && |m| == 0
  {
    assert m == map[];
  }

  /** The weight over the fields, in whatever order the entries are listed. */
  lemma {:induction false} WeightIsSum(m: map<string, CachedScan>, order: seq<string>)
    requires Lists(order, m)
    ensures Weight(m) == SumOf(order, (k: string) => k in m, Held(m))
  {
    hide Weight, SumOf, Lists, Held;
    if order == [] {
      NoneListed(m);
    } else {
      var init, k := order[..|order| - 1], order[|order| - 1];
      ListsOneLess(order, m);
      WeightIsSum(m - {k}, init);
      OneMoreHeld(m, k, init);
      assert order == init + [k];
    }
  }

  lemma OneMoreHeld(m: map<string, CachedScan>, k: string, others: seq<string>)
    requires k in m && k !in others
    requires Weight(m - {k}) == SumOf(others, (j: string) => j in m - {k}, Held(m - {k}))
    ensures Weight(m) == SumOf(others + [k], (j: string) => j in m, Held(m))
  {
    WeightWithout(m, k);
    SumsAgree(m, k, others);
    hide Weight, SumOf;
    SumOfSnoc(others, k, (j: string) => j in m, Held(m));
  }

  lemma {:induction false} AllListed(m: map<string, CachedScan>, order: seq<string>)
    requires Lists(order, m)
    ensures |m| == |order|
  {
    hide Lists;
    if order == [] {
      NoneListed(m);
    } else {
      ListsOneLess(order, m);
      AllListed(m - {order[|order| - 1]}, order[..|order| - 1]);
    }
  }

  lemma SumsAgree(m: map<string, CachedScan>, k: string, others: seq<string>)
    requires k !in others
    ensures SumOf(others, (j: string) => j in m, Held(m))
         == SumOf(others, (j: string) => j in m - {k}, Held(m - {k}))
  {
    var less := m - {k};
    forall j | j in others ensures (j in m) == (j in less) && Held(m)(j) == Held(less)(j) {
    }
    hide SumOf;
    SumOfSame(others, (j: string) => j in m, (j: string) => j in less, Held(m), Held(less));
  }

  lemma {:induction false} WeightOfSubmap(m: map<string, CachedScan>, n: map<string, CachedScan>)
    requires n.Keys <= m.Keys
    requires forall k | k in n :: n[k] == m[k]
    ensures Weight(n) <= Weight(m) && |n| <= |m|
    decreases m
  {
    if forall k | k in m :: k in n {
      assert n == m;
    } else {
      var k :| k in m && k !in n;
      WeightWithout(m, k);
      WeightOfSubmap(m - {k}, n);
    }
  }

  lemma WeightUpdate(m: map<string, CachedScan>, k: string, e: CachedScan)
    requires k in m && Size(e) == Size(m[k])
    ensures Weight(m[k := e]) == Weight(m)
    ensures |m[k := e]| == |m|
  {
    WeightWithout(m, k);
    WeightWithout(m[k := e], k);
    assert m[k := e] - {k} == m - {k};
    assert m[k := e].Keys == m.Keys;
  }

  lemma WeightWith(m: map<string, CachedScan>, k: string, e: CachedScan)
    requires k !in m
    ensures Weight(m[k := e]) == Weight(m) + Size(e)
    ensures |m[k := e]| == |m| + 1
  {
    WeightWithout(m[k := e], k);
    assert m[k := e] - {k} == m;
  }

  ghost predicate HasRoom(m: map<string, CachedScan>, count: nat) {
    |m| < MAX_STREAMS && Weight(m) + count <= MAX_RECORDS
  }

  /** Room is at most 127 streams so far and 100000 records with the new ones. */
  lemma RoomMeans(m: map<string, CachedScan>, order: seq<string>, count: nat)
    requires Lists(order, m)
    ensures HasRoom(m, count) <==>
      |order| < 128 && SumOf(order, (k: string) => k in m, Held(m)) + count <= 100000
  {
    WeightIsSum(m, order);
    AllListed(m, order);
  }

  /** `k` together with everything used after it. */
  ghost function UsedSince(m: map<string, CachedScan>, k: string): map<string, CachedScan>
    requires k in m
  {
    map j | j in m && m[j].used >= m[k].used :: m[j]
  }

  /** What least-recently-used eviction keeps when `count` records must fit: the
      entries that leave room even with everything used after them. */
  ghost function Survivors(m: map<string, CachedScan>, count: nat): map<string, CachedScan> {
    map k | k in m && HasRoom(UsedSince(m, k), count) :: m[k]
  }

  /** Survivors form the longest most-recently-used run that leaves room. */
  lemma SurvivorsAreLongestSuffix(m: map<string, CachedScan>, count: nat, t: map<string, CachedScan>)
    requires t.Keys <= m.Keys && forall k | k in t :: t[k] == m[k]
    requires forall k, j | k in t && j in m && m[j].used >= m[k].used :: j in t
    requires HasRoom(t, count)
    ensures t.Keys <= Survivors(m, count).Keys
  {
    forall k | k in t ensures HasRoom(UsedSince(m, k), count) {
      WeightOfSubmap(t, UsedSince(m, k));
    }
  }

  /** Nobody survives something that was used later and did not. */
  lemma SurvivorsAreRecent(m: map<string, CachedScan>, count: nat, k: string, j: string)
    requires k in Survivors(m, count) && j in m && m[j].used >= m[k].used
    ensures j in Survivors(m, count)
  {
    WeightOfSubmap(UsedSince(m, k), UsedSince(m, j));
  }

  /** `now` holds a most-recently-used run of `all`, and nothing evicted from it
      could have stayed. */
  ghost predicate EvictedSoFar(all: map<string, CachedScan>, now: map<string, CachedScan>, count: nat) {
    && now.Keys <= all.Keys
    && (forall j | j in now :: now[j] == all[j])
    && (forall i, j | i in now && j in all && all[j].used >= all[i].used :: j in now)
    && (forall k {:trigger k in Survivors(all, count)} | k in Survivors(all, count) :: k in now)
  }

  lemma NothingEvicted(all: map<string, CachedScan>, count: nat)
    ensures EvictedSoFar(all, all, count)
  {
  }

  lemma EvictOldest(all: map<string, CachedScan>, now: map<string, CachedScan>, k: string, count: nat)
    requires EvictedSoFar(all, now, count) && !HasRoom(now, count)
    requires k in now && forall j | j in now && j != k :: now[k].used < now[j].used
    ensures EvictedSoFar(all, now - {k}, count)
  {
    assert UsedSince(all, k) == now;
  }

  lemma EvictionDone(all: map<string, CachedScan>, now: map<string, CachedScan>, count: nat)
    requires EvictedSoFar(all, now, count) && HasRoom(now, count)
    ensures now == Survivors(all, count) && now.Keys <= all.Keys
  {
    hide HasRoom;
    forall k | k in now ensures k in Survivors(all, count) {
      LessNeedsLessRoom(now, UsedSince(all, k), count);
    }
    hide UsedSince;
    var kept := Survivors(all, count);
    assert now.Keys == kept.Keys;
    assert forall k | k in now :: now[k] == kept[k];
  }

  lemma LessNeedsLessRoom(m: map<string, CachedScan>, n: map<string, CachedScan>, count: nat)
    requires HasRoom(m, count)
    requires n.Keys <= m.Keys && forall k | k in n :: n[k] == m[k]
    ensures HasRoom(n, count)
  {
    WeightOfSubmap(m, n);
    hide Weight;
  }

  /** Real paths with distinct use stamps, none beyond the last one given out. */
  ghost predicate Stamped(m: map<string, CachedScan>, sequence: nat) {
    && "" !in m
    && (forall p | p in m :: m[p].used <= sequence)
    && (forall p, q | p in m && q in m && p != q :: m[p].used != m[q].used)
  }

  lemma StampNewest(m: map<string, CachedScan>, sequence: nat, path: string, e: CachedScan)
    requires Stamped(m, sequence) && path != "" && e.used == sequence + 1
    ensures Stamped(m[path := e], sequence + 1)
  {
  }

  /** An entry whose token is still current stands for the file's lines. */
  ghost predicate Trustworthy(e: CachedScan, path: string, files: map<string, File>, nextToken: nat) {
    && e.token < nextToken
    && (path in files && files[path].token == e.token ==>
          && Readable(files[path].lines)
          && Describes(e.scan, files[path].lines, e.cutoff))
  }

  ghost predicate AllTrustworthy(m: map<string, CachedScan>, files: map<string, File>, nextToken: nat) {
    forall p | p in m :: Trustworthy(m[p], p, files, nextToken)
  }

  lemma SavingKeepsTrust(m: map<string, CachedScan>, files: map<string, File>, nextToken: nat,
                         path: string, e: CachedScan)
    requires AllTrustworthy(m, files, nextToken) && Trustworthy(e, path, files, nextToken)
    ensures AllTrustworthy(Survivors(m - {path}, Size(e))[path := e], files, nextToken)
  {
  }

  // ------------------------------------------------------------------- class

  class ScanCache {
    var entries: map<string, CachedScan>
    var records: int
    var sequence: nat

    ghost predicate Valid()
      reads this
    {
      && records == Weight(entries)
      && |entries| <= MAX_STREAMS
      && records <= MAX_RECORDS
      && Stamped(entries, sequence)
    }

    ghost predicate Coherent(disk: Disk)
      reads this, disk
    {
      AllTrustworthy(entries, disk.files, disk.nextToken)
    }

    constructor ()
      ensures Valid() && entries == map[] && records == 0 && sequence == 0
    {
      entries, records, sequence := map[], 0, 0;
    }

    method RemoveEntry(path: string)
      requires Valid()
      modifies this
      ensures Valid()
      ensures entries == old(entries) - {path} && sequence == old(sequence)
    {
      if path in entries {
        WeightWithout(entries, path);
        records := records - Size(entries[path]);
        entries := entries - {path};
      }
    }

    /** A hit needs the same token and a cutoff no earlier than the cached one;
        anything else forgets the entry. */
    method Load(disk: Disk, path: string, cutoff: int) returns (hit: Option<Scan>)
      requires Valid()
      modifies this
      ensures Valid()
      ensures hit.Some? <==>
        && path in disk.files && path in old(entries)
        && old(entries)[path].token == disk.files[path].token
        && old(entries)[path].cutoff <= cutoff
      ensures hit.Some? ==>
        && hit.value == Narrow(old(entries)[path].scan, cutoff)
        && entries == old(entries)[path := old(entries)[path].(used := old(sequence) + 1)]
        && sequence == old(sequence) + 1
      ensures hit.None? ==> entries == old(entries) - {path} && sequence == old(sequence)
    {
      if path !in disk.files {
        RemoveEntry(path);
        return None;
      }
      if path !in entries {
        return None;
      }
      var cached := entries[path];
      if cutoff < cached.cutoff || disk.files[path].token != cached.token {
        RemoveEntry(path);
        return None;
      }
      Touch(path);
      return Some(Narrow(cached.scan, cutoff));
    }

    /** The key with the smallest use stamp, whatever order the map is visited in. */
    method Oldest() returns (oldest: string)
      requires Valid() && entries != map[]
      ensures oldest in entries
      ensures forall k | k in entries :: entries[oldest].used <= entries[k].used
    {
      oldest := "";
      var used := 0;
      var unseen := entries.Keys;
      while unseen != {}
        invariant unseen <= entries.Keys
        invariant oldest == "" <==> unseen == entries.Keys
        invariant oldest != "" ==>
          && oldest in entries && used == entries[oldest].used
          && forall k | k in entries.Keys - unseen :: used <= entries[k].used
      {
        var key :| key in unseen;
        if oldest == "" || entries[key].used < used {
          oldest, used := key, entries[key].used;
        }
        unseen := unseen - {key};
      }
    }

    method Save(disk: Disk, path: string, cutoff: int, scan: Scan)
      requires Valid() && path != ""
      modifies this
      ensures Valid()
      ensures path !in disk.files || |scan.retained| + |scan.corrupt| > MAX_RECORDS ==>
        entries == old(entries) - {path} && sequence == old(sequence)
      ensures path in disk.files && |scan.retained| + |scan.corrupt| <= MAX_RECORDS ==>
        var e := CachedScan(disk.files[path].token, cutoff, scan, old(sequence) + 1);
        entries == Survivors(old(entries) - {path}, Size(e))[path := e] && sequence == old(sequence) + 1
    {
      if path !in disk.files {
        RemoveEntry(path);
        return;
      }
      var count := |scan.retained| + |scan.corrupt|;
      RemoveEntry(path);
      if count > MAX_RECORDS {
        return;
      }
      Store(path, CachedScan(disk.files[path].token, cutoff, scan, sequence + 1));
    }

    method Store(path: string, e: CachedScan)
      requires Valid() && path != "" && path !in entries
      requires Size(e) <= MAX_RECORDS && e.used == sequence + 1
      modifies this
      ensures Valid()
      ensures entries == Survivors(old(entries), Size(e))[path := e] && sequence == old(sequence) + 1
    {
      MakeRoom(Size(e));
      Put(path, e);
    }

    method Put(path: string, e: CachedScan)
      requires Valid() && path != "" && path !in entries
      requires HasRoom(entries, Size(e)) && e.used == sequence + 1
      modifies this
      ensures Valid()
      ensures entries == old(entries)[path := e] && sequence == old(sequence) + 1
    {
      WeightWith(entries, path, e);
      StampNewest(entries, sequence, path, e);
      sequence := sequence + 1;
      entries := entries[path := e];
      records := records + Size(e);
    }

    /** A hit makes the entry the most recently used one. */
    method Touch(path: string)
      requires Valid() && path in entries
      modifies this
      ensures Valid()
      ensures entries == old(entries)[path := old(entries)[path].(used := old(sequence) + 1)]
      ensures sequence == old(sequence) + 1
    {
      var e := entries[path].(used := sequence + 1);
      WeightUpdate(entries, path, e);
      StampNewest(entries, sequence, path, e);
      sequence := sequence + 1;
      entries := entries[path := e];
    }

    /** The eviction loop of save. It stops because an empty map leaves room for
        any `count` within the bound. */
    method MakeRoom(count: nat)
      requires Valid() && count <= MAX_RECORDS
      modifies this
      ensures Valid() && HasRoom(entries, count)
      ensures entries == Survivors(old(entries), count) && entries.Keys <= old(entries.Keys)
      ensures sequence == old(sequence)
    {
      ghost var others := entries;
      NothingEvicted(others, count);
      hide EvictedSoFar, Survivors;
      while |entries| >= MAX_STREAMS || records + count > MAX_RECORDS
        invariant Valid() && sequence == old(sequence)
        invariant EvictedSoFar(others, entries, count)
        decreases |entries|
      {
        var oldest := Oldest();
        EvictOldest(others, entries, oldest, count);
        RemoveEntry(oldest);
      }
      EvictionDone(others, entries, count);
    }
  }
}
