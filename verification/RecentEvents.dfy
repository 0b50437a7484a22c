/** Collecting the newest events while paging: a bounded list kept sorted by
    insertion holds, at every moment, what sorting everything seen and cutting at
    the limit would give. */
module RecentEvents {
  import opened Common
  import opened StableSort

  // --------------------------------------------------------------- top-k

  function Take<T>(xs: seq<T>, limit: nat): seq<T> {
    if |xs| <= limit then xs else xs[..limit]
  }

  /** Sort everything, then cut: the first `limit` by key, equals in order of
      arrival. */
  function First<T(!new)>(xs: seq<T>, limit: nat, key: T -> int): seq<T> {
    Take(Sort(xs, key), limit)
  }

  /** The binary search of sort.Search. */
  method Search<T(!new)>(xs: seq<T>, bound: int, key: T -> int) returns (p: nat)
    requires Sorted(xs, key)
    ensures p == UpperBound(xs, bound, key)
  {
    UpperBoundSplits(xs, bound, key);
    var lo, hi := 0, |xs|;
    while lo < hi
      invariant 0 <= lo <= UpperBound(xs, bound, key) <= hi <= |xs|
    {
      var mid := (lo + hi) / 2;
      if key(xs[mid]) > bound {
        hi := mid;
      } else {
        lo := mid + 1;
      }
    }
    p := lo;
  }

  lemma {:induction false} UpperBoundOfTake<T(!new)>(xs: seq<T>, limit: nat, bound: int, key: T -> int)
    requires Sorted(xs, key)
    ensures var p := UpperBound(xs, bound, key);
            UpperBound(Take(xs, limit), bound, key) == if p < limit then p else |Take(xs, limit)|
  {
    UpperBoundSplits(xs, bound, key);
    UpperBoundSplits(Take(xs, limit), bound, key);
    var p, q := UpperBound(xs, bound, key), UpperBound(Take(xs, limit), bound, key);
    if q > p {
      assert key(Take(xs, limit)[p]) <= bound;
    }
  }

  /** Cutting before an insertion changes nothing above the cut. */
  lemma TakeBeforeInsert<T(!new)>(xs: seq<T>, x: T, limit: nat, key: T -> int)
    requires Sorted(xs, key)
    ensures Take(Insert(xs, x, key), limit) == Take(Insert(Take(xs, limit), x, key), limit)
    ensures UpperBound(Take(xs, limit), key(x), key) >= limit ==>
              Take(Insert(xs, x, key), limit) == Take(xs, limit)
  {
    UpperBoundOfTake(xs, limit, key(x), key);
    CutAroundInsert(xs, UpperBound(xs, key(x), key), x, limit);
  }

  function Place<T>(xs: seq<T>, p: nat, x: T): seq<T>
    requires p <= |xs|
  {
    xs[..p] + [x] + xs[p..]
  }

  lemma CutAroundInsert<T>(xs: seq<T>, p: nat, x: T, limit: nat)
    requires p <= |xs|
    ensures var cut := Take(xs, limit);
      && (p >= limit ==> Take(Place(xs, p, x), limit) == cut)
      && Take(Place(xs, p, x), limit) == Take(Place(cut, if p < limit then p else |cut|, x), limit)
  {
    var cut := Take(xs, limit);
    if |xs| <= limit {
      assert p >= limit ==> p == |xs| == limit;
    } else if p >= limit {
      assert Place(xs, p, x)[..limit] == cut;
      assert Place(cut, limit, x)[..limit] == cut;
    } else {
      assert Place(cut, p, x) == xs[..p] + [x] + cut[p..];
      assert Place(xs, p, x) == Place(cut, p, x) + xs[limit..];
    }
  }

  lemma SortedTake<T(!new)>(xs: seq<T>, limit: nat, key: T -> int)
    ensures Sorted(First(xs, limit, key), key) && |First(xs, limit, key)| <= limit
  {
    SortIsSorted(xs, key);
  }

  /** One matching event arrives: search, shift, place, truncate. */
  method InsertBounded<T(!new)>(kept: seq<T>, item: T, limit: nat, key: T -> int, ghost seen: seq<T>)
    returns (next: seq<T>)
    requires kept == First(seen, limit, key)
    ensures next == First(seen + [item], limit, key)
  {
    SortedTake(seen, limit, key);
    SortIsSorted(seen, key);
    SortSnoc(seen, item, key);
    TakeBeforeInsert(Sort(seen, key), item, limit, key);
    var pos := Search(kept, key(item), key);
    if pos >= limit {
      return kept;
    }
    next := kept[..pos] + [item] + kept[pos..];
    if |next| > limit {
      next := next[..limit];
    }
  }

  /** What the cut keeps: nothing invented, nothing lost below the limit, and
      nothing left out that belongs before something kept. */
  lemma FirstMeans<T(!new)>(xs: seq<T>, limit: nat, key: T -> int)
    ensures var kept, left := First(xs, limit, key), Sort(xs, key)[|First(xs, limit, key)|..];
      && Sorted(kept, key)
      && |kept| == (if |xs| <= limit then |xs| else limit)
      && multiset(xs) == multiset(kept) + multiset(left)
      && (forall i, j | 0 <= i < |kept| && 0 <= j < |left| :: key(kept[i]) <= key(left[j]))
  {
    var sorted := Sort(xs, key);
    SortIsSorted(xs, key);
    SortPermutes(xs, key);
    hide Sort;
    var kept := Take(sorted, limit);
    assert sorted == kept + sorted[|kept|..];
  }

  // ------------------------------------------------------- newest and oldest

  /** Kept are the newest: in falling order of time, as many as the limit allows,
      none of those left out later than any of them, equals in their old order. */
  ghost predicate NewestFirst<T(!new)>(kept: seq<T>, all: seq<T>, limit: nat, time: T -> int) {
    && (forall i, j | 0 <= i < j < |kept| :: time(kept[i]) >= time(kept[j]))
    && |kept| == (if |all| <= limit then |all| else limit)
    && (exists left :: LeftOut(left, kept, all, time))
    && (forall t :: At(kept, t, time) <= At(all, t, time))
  }

  ghost predicate LeftOut<T(!new)>(left: seq<T>, kept: seq<T>, all: seq<T>, time: T -> int) {
    && multiset(all) == multiset(kept) + multiset(left)
    && (forall i, j | 0 <= i < |kept| && 0 <= j < |left| :: time(kept[i]) >= time(left[j]))
  }

  /** All of them, in rising order of time, equals in their old order. */
  ghost predicate OldestFirst<T(!new)>(sorted: seq<T>, all: seq<T>, time: T -> int) {
    && (forall i, j | 0 <= i < j < |sorted| :: time(sorted[i]) <= time(sorted[j]))
    && multiset(sorted) == multiset(all)
    && (forall t :: At(sorted, t, time) == At(all, t, time))
  }

  /** The key falls as the time rises. */
  ghost predicate Falls<T(!new)>(key: T -> int, time: T -> int) {
    forall x :: key(x) == -time(x)
  }

  lemma {:induction false} AtByTime<T(!new)>(xs: seq<T>, t: int, key: T -> int, time: T -> int)
    requires Falls(key, time)
    ensures At(xs, t, time) == At(xs, -t, key)
  {
    if xs != [] {
      AtByTime(xs[..|xs| - 1], t, key, time);
    }
  }

  lemma EqualsStay<T(!new)>(all: seq<T>, kept: seq<T>, left: seq<T>, key: T -> int, time: T -> int, t: int)
    requires Falls(key, time) && Sort(all, key) == kept + left
    ensures At(kept, t, time) <= At(all, t, time)
  {
    hide At, Sort, Falls;
    AtByTime(kept, t, key, time);
    AtByTime(all, t, key, time);
    AtConcat(kept, left, -t, key);
    SortIsStable(all, -t, key);
  }

  lemma OrderIsNewest<T(!new)>(all: seq<T>, limit: nat, key: T -> int, time: T -> int) returns (left: seq<T>)
    requires Falls(key, time)
    ensures var kept := First(all, limit, key);
      && Sort(all, key) == kept + left && LeftOut(left, kept, all, time)
      && (forall i, j | 0 <= i < j < |kept| :: time(kept[i]) >= time(kept[j]))
      && |kept| == (if |all| <= limit then |all| else limit)
  {
    FirstMeans(all, limit, key);
    var kept, sorted := First(all, limit, key), Sort(all, key);
    left := sorted[|kept|..];
    assert kept + left == sorted;
    hide Sort, First, Take;
  }

  lemma FirstIsNewest<T(!new)>(all: seq<T>, limit: nat, key: T -> int, time: T -> int)
    requires Falls(key, time)
    ensures NewestFirst(First(all, limit, key), all, limit, time)
  {
    hide Sort, First, LeftOut, Falls, At;
    var left := OrderIsNewest(all, limit, key, time);
    forall t ensures At(First(all, limit, key), t, time) <= At(all, t, time) {
      EqualsStay(all, First(all, limit, key), left, key, time, t);
    }
  }

  lemma SortIsOldest<T(!new)>(all: seq<T>, time: T -> int)
    ensures OldestFirst(Sort(all, time), all, time)
  {
    SortIsSorted(all, time);
    SortPermutes(all, time);
    forall t ensures At(Sort(all, time), t, time) == At(all, t, time) {
      SortIsStable(all, t, time);
    }
  }

  // -------------------------------------------------------------- paging

  /** The items picked from a list of events, in order. */
  function Picked<E, T>(events: seq<E>, pick: E -> Option<T>): seq<T> {
    if events == [] then []
    else
      Picked(events[..|events| - 1], pick)
      + (match pick(events[|events| - 1]) case Some(x) => [x] case None => [])
  }

  lemma {:induction false} PickedConcat<E, T>(a: seq<E>, b: seq<E>, pick: E -> Option<T>)
    ensures Picked(a + b, pick) == Picked(a, pick) + Picked(b, pick)
  {
    if b == [] {
      assert a + b == a && Picked(a, pick) + [] == Picked(a, pick);
    } else {
      var init, last := b[..|b| - 1], b[|b| - 1];
      PickedConcat(a, init, pick);
      assert (a + b)[..|a + b| - 1] == a + init;
      Assoc(Picked(a, pick), Picked(init, pick), match pick(last) case Some(x) => [x] case None => []);
    }
  }

  lemma {:induction false} FlattenPicked<E, T>(pages: seq<seq<E>>, i: nat, pick: E -> Option<T>)
    requires i < |pages|
    ensures Picked(Flatten(pages[..i + 1]), pick) == Picked(Flatten(pages[..i]), pick) + Picked(pages[i], pick)
  {
    assert pages[..i + 1][..i] == pages[..i];
    PickedConcat(Flatten(pages[..i]), pages[i], pick);
  }

  method VisitPage<E, T(!new)>(kept: seq<T>, events: seq<E>, pick: E -> Option<T>, limit: nat, key: T -> int,
                               ghost seen: seq<T>)
    returns (next: seq<T>)
    requires kept == First(seen, limit, key)
    ensures next == First(seen + Picked(events, pick), limit, key)
  {
    hide First;
    next := kept;
    assert seen + [] == seen;
    for i := 0 to |events|
      invariant next == First(seen + Picked(events[..i], pick), limit, key)
    {
      assert events[..i + 1][..i] == events[..i];
      var item := pick(events[i]);
      if item.Some? {
        next := InsertBounded(next, item.value, limit, key, seen + Picked(events[..i], pick));
        assert seen + Picked(events[..i], pick) + [item.value] == seen + Picked(events[..i + 1], pick);
      } else {
        assert Picked(events[..i + 1], pick) == Picked(events[..i], pick);
      }
    }
    assert events[..|events|] == events;
  }

  /** All pages of one listing; how they are split does not matter. */
  method VisitPages<E, T(!new)>(kept: seq<T>, pages: seq<seq<E>>, pick: E -> Option<T>, limit: nat, key: T -> int,
                                ghost seen: seq<T>)
    returns (next: seq<T>)
    requires kept == First(seen, limit, key)
    ensures next == First(seen + Picked(Flatten(pages), pick), limit, key)
  {
    hide First;
    next := kept;
    assert seen + [] == seen;
    for i := 0 to |pages|
      invariant next == First(seen + Picked(Flatten(pages[..i]), pick), limit, key)
    {
      FlattenPicked(pages, i, pick);
      ghost var upTo := seen + Picked(Flatten(pages[..i]), pick);
      next := VisitPage(next, pages[i], pick, limit, key, upTo);
      assert upTo + Picked(pages[i], pick) == seen + Picked(Flatten(pages[..i + 1]), pick);
    }
    assert pages[..|pages|] == pages;
  }

  // -------------------------------------------------------------- events

  datatype Object = Object(name: string, kind: string, uid: string)

  /** Times are seconds; 0 is the zero time. */
  datatype CoreEvent = CoreEvent(involved: Object, reason: string, message: string, last: int,
                                 series: Option<int>, occurred: int, first: int, created: int)

  datatype EventInfo = EventInfo(reason: string, message: string, time: int)

  /** The pages delivered before a listing ended, and whether it ended in an error. */
  datatype Listing = Listing(pages: seq<seq<CoreEvent>>, failed: bool)

  function Timestamp(e: CoreEvent): int {
    if e.last != 0 then e.last
    else if e.series.Some? && e.series.value != 0 then e.series.value
    else if e.occurred != 0 then e.occurred
    else if e.first != 0 then e.first
    else e.created
  }

  /** The first stamp that is set, in the order last seen, last of a series,
      occurred, first seen, created; the zero time when none is. */
  lemma TimestampMeans(e: CoreEvent)
    ensures var stamps := [e.last, if e.series.Some? then e.series.value else 0, e.occurred, e.first, e.created];
      && (Timestamp(e) == 0 <==> forall i | 0 <= i < 5 :: stamps[i] == 0)
      && (forall i | 0 <= i < 5 && stamps[i] != 0 && (forall j | 0 <= j < i :: stamps[j] == 0) ::
            Timestamp(e) == stamps[i])
  {
    var stamps := [e.last, if e.series.Some? then e.series.value else 0, e.occurred, e.first, e.created];
    assert stamps[0] == e.last && stamps[2] == e.occurred && stamps[3] == e.first && stamps[4] == e.created;
    assert stamps[1] == if e.series.Some? then e.series.value else 0;
  }

  function OneLine(message: string): string {
    if message == "" then ""
    else [if message[0] == '\n' then ' ' else message[0]] + OneLine(message[1..])
  }

  /** Line breaks become spaces, nothing else changes. */
  lemma {:induction false} OneLineMeans(message: string)
    ensures |OneLine(message)| == |message|
    ensures forall i | 0 <= i < |message| ::
      OneLine(message)[i] == if message[i] == '\n' then ' ' else message[i]
  {
    if message != "" {
      OneLineMeans(message[1..]);
    }
  }

  /** An empty kind or UID in a reference matches any. */
  predicate Names(ref: Object, o: Object) {
    o.name == ref.name && (ref.kind == "" || o.kind == ref.kind) && (ref.uid == "" || o.uid == ref.uid)
  }

  function InfoFor(ref: Object): CoreEvent -> Option<EventInfo> {
    (e: CoreEvent) =>
      if Names(ref, e.involved) then Some(EventInfo(e.reason, OneLine(e.message), Timestamp(e))) else None
  }

  function NewestInfo(): EventInfo -> int { (e: EventInfo) => -e.time }

  function NewestEvent(): CoreEvent -> int { (e: CoreEvent) => -Timestamp(e) }

  function OldestEvent(): CoreEvent -> int { Timestamp }

  /** The references worth listing: named, each once, in order. */
  function Wanted(refs: seq<Object>): seq<Object> {
    if refs == [] then []
    else
      var before, ref := Wanted(refs[..|refs| - 1]), refs[|refs| - 1];
      if ref.name == "" || ref in before then before else before + [ref]
  }

  lemma {:induction false} WantedOnce(refs: seq<Object>)
    ensures forall ref :: ref in Wanted(refs) <==> ref in refs && ref.name != ""
    ensures forall i, j | 0 <= i < j < |Wanted(refs)| :: Wanted(refs)[i] != Wanted(refs)[j]
  {
    if refs != [] {
      WantedOnce(refs[..|refs| - 1]);
      assert refs == refs[..|refs| - 1] + [refs[|refs| - 1]];
    }
  }

  /** Every matching event of every listing, in the order visited. */
  function Visited(refs: seq<Object>, list: Object -> Listing): seq<EventInfo> {
    if refs == [] then []
    else
      var ref := refs[|refs| - 1];
      Visited(refs[..|refs| - 1], list) + Picked(Flatten(list(ref).pages), InfoFor(ref))
  }

  lemma {:induction false} PickedMeans<E(!new), T(!new)>(events: seq<E>, pick: E -> Option<T>)
    ensures forall x :: x in Picked(events, pick) <==> exists e | e in events :: pick(e) == Some(x)
    ensures |Picked(events, pick)| == HowMany(events, (e: E) => pick(e).Some?)
  {
    var picks := (e: E) => pick(e).Some?;
    if events == [] {
      HowManyNone(picks);
    } else {
      var init, last := events[..|events| - 1], events[|events| - 1];
      PickedMeans(init, pick);
      HowManySnoc(init, last, picks);
      assert events == init + [last];
    }
  }

  /** What a listing contributes: one item for every event of its pages about the
      object named, with nothing but the name asked for where kind or UID is empty. */
  lemma ContributionMeans(ref: Object, listing: Listing, info: EventInfo)
    ensures info in Picked(Flatten(listing.pages), InfoFor(ref)) <==>
      exists e | e in Flatten(listing.pages) ::
        && e.involved.name == ref.name
        && (ref.kind == "" || e.involved.kind == ref.kind) && (ref.uid == "" || e.involved.uid == ref.uid)
        && info == EventInfo(e.reason, OneLine(e.message), Timestamp(e))
  {
    PickedMeans(Flatten(listing.pages), InfoFor(ref));
    hide Picked, OneLine, Timestamp;
  }

  /** The visited events are the contributions of the references, one after another. */
  lemma {:induction false} VisitedMeans(refs: seq<Object>, list: Object -> Listing, info: EventInfo)
    ensures info in Visited(refs, list) <==>
      exists ref | ref in refs :: info in Picked(Flatten(list(ref).pages), InfoFor(ref))
  {
    if refs != [] {
      VisitedMeans(refs[..|refs| - 1], list, info);
      assert refs == refs[..|refs| - 1] + [refs[|refs| - 1]];
      hide Picked, Flatten;
    }
  }

  lemma {:induction false} FailedMeans(refs: seq<Object>, list: Object -> Listing)
    ensures forall ref :: ref in FailedListings(refs, list) <==> ref in refs && list(ref).failed
    ensures |FailedListings(refs, list)| == HowMany(refs, (ref: Object) => list(ref).failed)
  {
    var failed := (ref: Object) => list(ref).failed;
    if refs == [] {
      HowManyNone(failed);
    } else {
      var init, last := refs[..|refs| - 1], refs[|refs| - 1];
      FailedMeans(init, list);
      HowManySnoc(init, last, failed);
      assert refs == init + [last];
    }
  }

  /** References are listed in the order in which they are first asked for. */
  lemma {:induction false} WantedInOrder(refs: seq<Object>, i: nat, j: nat)
    requires i < j < |Wanted(refs)|
    ensures exists a | 0 <= a < |refs| :: refs[a] == Wanted(refs)[i] && Wanted(refs)[j] !in refs[..a + 1]
  {
    var n := |refs| - 1;
    var before := Wanted(refs[..n]);
    if j < |before| {
      WantedInOrder(refs[..n], i, j);
      var a :| 0 <= a < n && refs[..n][a] == before[i] && before[j] !in refs[..n][..a + 1];
      assert refs[..n][..a + 1] == refs[..a + 1] && refs[a] == before[i];
    } else {
      WantedOnce(refs[..n]);
      assert before[i] in refs[..n] && refs[n] !in before;
      var a :| 0 <= a < n && refs[..n][a] == before[i];
      assert refs[a] == before[i] && refs[n] !in refs[..n];
    }
  }

  function FailedListings(refs: seq<Object>, list: Object -> Listing): seq<Object> {
    if refs == [] then []
    else
      var ref := refs[|refs| - 1];
      FailedListings(refs[..|refs| - 1], list) + (if list(ref).failed then [ref] else [])
  }

  /** One reference is listed: its pages are visited, its error noted. */
  method VisitReference(events: seq<EventInfo>, failures: seq<Object>, ref: Object, list: Object -> Listing,
                        limit: nat, ghost before: seq<Object>)
    returns (newer: seq<EventInfo>, failed: seq<Object>)
    requires events == First(Visited(before, list), limit, NewestInfo())
    requires failures == FailedListings(before, list)
    ensures newer == First(Visited(before + [ref], list), limit, NewestInfo())
    ensures failed == FailedListings(before + [ref], list)
  {
    hide First, Picked, Flatten;
    assert (before + [ref])[..|before|] == before;
    var listing := list(ref);
    newer := VisitPages(events, listing.pages, InfoFor(ref), limit, NewestInfo(), Visited(before, list));
    failed := if listing.failed then failures + [ref] else failures;
  }

  /** The newest events over all references. A listing that fails contributes the
      pages it delivered, and is reported. */
  method FetchRecentEventsForIdentities(refs: seq<Object>, list: Object -> Listing, limit: int)
    returns (events: seq<EventInfo>, failures: seq<Object>)
    ensures limit <= 0 ==> events == [] && failures == []
    ensures limit > 0 ==>
      && events == First(Visited(Wanted(refs), list), limit, NewestInfo())
      && failures == FailedListings(Wanted(refs), list)
      && NewestFirst(events, Visited(Wanted(refs), list), limit, (e: EventInfo) => e.time)
  {
    events, failures := [], [];
    if limit <= 0 {
      return;
    }
    hide First, Visited, FailedListings;
    NothingVisited(list, limit);
    var seen: set<Object> := {};
    for i := 0 to |refs|
      invariant forall ref :: ref in seen <==> ref in Wanted(refs[..i])
      invariant events == First(Visited(Wanted(refs[..i]), list), limit, NewestInfo())
      invariant failures == FailedListings(Wanted(refs[..i]), list)
    {
      assert refs[..i + 1][..i] == refs[..i];
      var ref := refs[i];
      if ref.name == "" || ref in seen {
        continue;
      }
      seen := seen + {ref};
      events, failures := VisitReference(events, failures, ref, list, limit, Wanted(refs[..i]));
    }
    assert refs[..|refs|] == refs;
    FirstIsNewest(Visited(Wanted(refs), list), limit, NewestInfo(), (e: EventInfo) => e.time);
  }

  lemma NothingVisited(list: Object -> Listing, limit: nat)
    ensures First(Visited([], list), limit, NewestInfo()) == [] && FailedListings([], list) == []
  {
  }

  // ---------------------------------------------------------- one HPA's events

  /** Kinds compare without regard to case; `isHPA` decides. */
  function ForHPA(name: string, uid: string, isHPA: string -> bool): CoreEvent -> Option<CoreEvent> {
    (e: CoreEvent) =>
      if e.involved.name == name && isHPA(e.involved.kind) && (uid == "" || e.involved.uid == uid)
      then Some(e) else None
  }

  /** The newest events of one HPA; none at all when its listing fails. */
  method FetchRecentHPAEvents(name: string, uid: string, isHPA: string -> bool, listing: Listing, limit: int)
    returns (events: Option<seq<CoreEvent>>)
    ensures limit <= 0 ==> events == Some([])
    ensures limit > 0 && listing.failed ==> events == None
    ensures limit > 0 && !listing.failed ==>
      var all := Picked(Flatten(listing.pages), ForHPA(name, uid, isHPA));
      events == Some(First(all, limit, NewestEvent())) && NewestFirst(events.value, all, limit, Timestamp)
  {
    if limit <= 0 {
      return Some([]);
    }
    var kept := VisitPages([], listing.pages, ForHPA(name, uid, isHPA), limit, NewestEvent(), []);
    assert [] + Picked(Flatten(listing.pages), ForHPA(name, uid, isHPA))
        == Picked(Flatten(listing.pages), ForHPA(name, uid, isHPA));
    FirstIsNewest(Picked(Flatten(listing.pages), ForHPA(name, uid, isHPA)), limit, NewestEvent(), Timestamp);
    return if listing.failed then None else Some(kept);
  }

  function Since(name: string, uid: string, isHPA: string -> bool, since: int): CoreEvent -> Option<CoreEvent> {
    (e: CoreEvent) =>
      if ForHPA(name, uid, isHPA)(e).Some? && Timestamp(e) != 0 && Timestamp(e) >= since then Some(e) else None
  }

  /** The events of one HPA, and those of its window. */
  lemma HPAEventsMean(name: string, uid: string, isHPA: string -> bool, since: int, events: seq<CoreEvent>,
                      e: CoreEvent)
    ensures e in Picked(events, ForHPA(name, uid, isHPA)) <==>
      && e in events && e.involved.name == name && isHPA(e.involved.kind)
      && (uid == "" || e.involved.uid == uid)
    ensures e in Picked(events, Since(name, uid, isHPA, since)) <==>
      && e in Picked(events, ForHPA(name, uid, isHPA)) && Timestamp(e) != 0 && Timestamp(e) >= since
  {
    PickedMeans(events, ForHPA(name, uid, isHPA));
    PickedMeans(events, Since(name, uid, isHPA, since));
    hide Picked, Timestamp;
  }

  method AppendPage<E, T>(kept: seq<T>, events: seq<E>, pick: E -> Option<T>) returns (more: seq<T>)
    ensures more == kept + Picked(events, pick)
  {
    more := kept;
    for j := 0 to |events|
      invariant more == kept + Picked(events[..j], pick)
    {
      assert events[..j + 1][..j] == events[..j];
      var item := pick(events[j]);
      if item.Some? {
        more := more + [item.value];
      }
    }
    assert events[..|events|] == events;
  }

  /** Every event of the window, oldest first. */
  method FetchRecentHPAEventsSince(name: string, uid: string, isHPA: string -> bool, listing: Listing, since: int)
    returns (events: Option<seq<CoreEvent>>)
    ensures listing.failed ==> events == None
    ensures !listing.failed ==>
      var all := Picked(Flatten(listing.pages), Since(name, uid, isHPA, since));
      events == Some(Sort(all, OldestEvent())) && OldestFirst(events.value, all, Timestamp)
  {
    var filtered: seq<CoreEvent> := [];
    for i := 0 to |listing.pages|
      invariant filtered == Picked(Flatten(listing.pages[..i]), Since(name, uid, isHPA, since))
    {
      FlattenPicked(listing.pages, i, Since(name, uid, isHPA, since));
      filtered := AppendPage(filtered, listing.pages[i], Since(name, uid, isHPA, since));
    }
    assert listing.pages[..|listing.pages|] == listing.pages;
    SortIsOldest(filtered, Timestamp);
    assert OldestEvent() == Timestamp;
    return if listing.failed then None else Some(Sort(filtered, OldestEvent()));
  }

  /** A later window is the end of an earlier one: the filter runs before
      anything is cut, so no event of the window is ever missing. */
  lemma LaterWindowIsSuffix(events: seq<CoreEvent>, name: string, uid: string, isHPA: string -> bool,
                            since: int, later: int)
    requires since <= later
    ensures var wide := Sort(Picked(events, Since(name, uid, isHPA, since)), OldestEvent());
            Sort(Picked(events, Since(name, uid, isHPA, later)), OldestEvent())
              == wide[UpperBound(wide, later - 1, OldestEvent())..]
  {
    var picked := Picked(events, Since(name, uid, isHPA, since));
    PickedLater(events, name, uid, isHPA, since, later);
    AboveOfSort(picked, later - 1, OldestEvent());
    SortIsSorted(picked, OldestEvent());
    AboveIsSuffix(Sort(picked, OldestEvent()), later - 1, OldestEvent());
  }

  lemma {:induction false} PickedLater(events: seq<CoreEvent>, name: string, uid: string, isHPA: string -> bool,
                                       since: int, later: int)
    requires since <= later
    ensures Picked(events, Since(name, uid, isHPA, later))
         == Above(Picked(events, Since(name, uid, isHPA, since)), later - 1, OldestEvent())
  {
    if events != [] {
      var init, last := events[..|events| - 1], events[|events| - 1];
      PickedLater(init, name, uid, isHPA, since, later);
      var wide := Since(name, uid, isHPA, since);
      assert wide(last).Some? ==> wide(last).value == last;
      assert Since(name, uid, isHPA, later)(last)
          == if wide(last).Some? && Timestamp(last) > later - 1 then Some(last) else None;
      SnocAbove(Picked(init, wide), last, later - 1, OldestEvent());
      assert OldestEvent()(last) == Timestamp(last);
      if wide(last).None? {
        assert Picked(events, wide) == Picked(init, wide);
      } else {
        assert Picked(events, wide) == Picked(init, wide) + [last];
      }
    }
  }
}
