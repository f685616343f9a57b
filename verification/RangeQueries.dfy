/** The corridor range query: `events_overlapping` and `_query_all` in
    `core/eventstore.py`, over the index in one store and over every event in the
    other. Index reads are taken as up to date with the table. */
module RangeQueries {
  import opened Wrappers
  import opened Floats
  import opened SortKeys
  import opened Stores
  import opened StoreRuns
  import opened Sorting

  const RANGE_QUERY_LOOKBACK_MILES := 250.0

  // ----- paging -----

  function Flatten<T>(pages: seq<seq<T>>): seq<T> {
    if pages == [] then [] else Flatten(pages[..|pages| - 1]) + pages[|pages| - 1]
  }

  function Limited<T>(items: seq<T>, limit: Option<nat>): seq<T> {
    if limit.Some? && limit.value < |items| then items[..limit.value] else items
  }

  lemma {:induction false} FlattenSplit<T>(pages: seq<seq<T>>, k: nat)
    requires k <= |pages|
    ensures Flatten(pages[..k]) <= Flatten(pages)
    decreases |pages|
  {
    if k < |pages| {
      var rest := pages[..|pages| - 1];
      FlattenSplit(rest, k);
      assert rest[..k] == pages[..k];
    } else {
      assert pages[..k] == pages;
    }
  }

  /** Follows `LastEvaluatedKey` from page to page; a query always has a first page. */
  method QueryAll<T>(pages: seq<seq<T>>, limit: Option<nat>) returns (items: seq<T>)
    requires pages != []
    ensures items == Limited(Flatten(pages), limit)
  {
    items := [];
    var next := 0;
    while true
      invariant 0 <= next < |pages|
      invariant items == Flatten(pages[..next])
      decreases |pages| - next
    {
      assert pages[..next + 1][..next] == pages[..next];
      items := items + pages[next];
      next := next + 1;
      if next == |pages| || (limit.Some? && |items| >= limit.value) {
        break;
      }
    }
    FlattenSplit(pages, next);
    assert next == |pages| ==> pages[..next] == pages;
    return Limited(items, limit);
  }

  // ----- the index -----

  /** What the index serves for one partition and one range of begin measures. */
  predicate Indexed(t: Table, partition: string, lo: real, hi: real, e: Event) {
    exists key <- t :: IndexEntry(t[key], partition, lo, hi, e)
  }

  predicate IndexEntry(item: Item, partition: string, lo: real, hi: real, e: Event) {
    && item.EventItem? && item.event == e
    && item.gsi.Some? && item.gsi.value.0 == partition && lo <= item.gsi.value.1 <= hi
  }

  /** The service: the pages of events behind an index query. */
  type IndexClient = (string, real, real) -> seq<seq<Event>>

  ghost predicate Serves(client: IndexClient, t: Table) {
    forall partition, lo, hi ::
      && client(partition, lo, hi) != []
      && forall e :: e in Flatten(client(partition, lo, hi)) <==> Indexed(t, partition, lo, hi, e)
  }

  /** An event the indexed query returns for one state. */
  predicate InWindow(t: Table, s: LifecycleState, route: string, lo: real, hi: real, e: Event) {
    && Indexed(t, GsiPartition(s, route), lo - RANGE_QUERY_LOOKBACK_MILES, hi, e)
    && Reaches(e, lo)
  }

  // ----- a dictionary of events by id -----

  predicate DistinctIds(events: seq<Event>) {
    forall a, b | 0 <= a < b < |events| :: events[a].id != events[b].id
  }

  /** The values of `found`, in order, after `found[e.id] = e`. */
  function Put(found: seq<Event>, e: Event): seq<Event> {
    if found == [] then [e]
    else if found[0].id == e.id then [e] + found[1..]
    else [found[0]] + Put(found[1..], e)
  }

  lemma {:induction false} PutFacts(found: seq<Event>, e: Event)
    requires DistinctIds(found)
    ensures DistinctIds(Put(found, e))
    ensures forall x :: x in Put(found, e) <==> x == e || (x in found && x.id != e.id)
    decreases |found|
  {
    if found != [] {
      var first, rest := found[0], found[1..];
      assert forall k | 0 < k < |found| :: found[k] == rest[k - 1] && found[0].id != found[k].id;
      assert forall x :: x in found <==> x == first || x in rest;
      PutFacts(rest, e);
    }
  }

  ghost predicate OneEventPerId(t: Table) {
    forall k <- t, l <- t ::
      && t[k].EventItem? && t[k].gsi.Some? && t[l].EventItem? && t[l].gsi.Some? && t[k].event.id == t[l].event.id
      ==> t[k] == t[l]
  }

  lemma {:induction false} IndexedOnce(
      t: Table, p: string, lo: real, hi: real, e: Event, p': string, lo': real, hi': real, e': Event)
    requires OneEventPerId(t) && Indexed(t, p, lo, hi, e) && Indexed(t, p', lo', hi', e') && e.id == e'.id
    ensures e == e'
  {
    var k :| k in t && IndexEntry(t[k], p, lo, hi, e);
    var l :| l in t && IndexEntry(t[l], p', lo', hi', e');
  }

  /** True overlap, judged by the event's far end. */
  predicate Reaches(e: Event, lo: real) {
    Le(Num(lo), Max(e.extent.begin, e.extent.end))
  }

  /** No id stands for two events in the two lists. */
  ghost predicate Consistent(a: seq<Event>, b: seq<Event>) {
    forall x, y | (x in a || x in b) && (y in a || y in b) && x.id == y.id :: x == y
  }

  /** The true overlaps among `items` put into `found`. */
  method KeepOverlaps(items: seq<Event>, lo: real, found: seq<Event>) returns (r: seq<Event>)
    requires DistinctIds(found) && Consistent(items, found)
    ensures DistinctIds(r)
    ensures forall e :: e in r <==> e in found || (e in items && Reaches(e, lo))
  {
    r := found;
    for k := 0 to |items|
      invariant DistinctIds(r)
      invariant forall e :: e in r <==> e in found || (e in items[..k] && Reaches(e, lo))
    {
      var e := items[k];
      if Reaches(e, lo) {
        PutFacts(r, e);
        PutSame(r, e, items, found);
        r := Put(r, e);
      }
    }
  }

  lemma {:induction false} PutSame(r: seq<Event>, e: Event, items: seq<Event>, found: seq<Event>)
    requires Consistent(items, found) && e in items && forall x <- r :: x in found || x in items
    ensures forall x <- r :: x.id == e.id ==> x == e
  {}

  /** An event indexed under one of the first `k` states. */
  ghost predicate InSomeWindow(
      t: Table, states: seq<LifecycleState>, k: nat, route: string, lo: real, hi: real, e: Event)
    requires k <= |states|
  {
    exists i | 0 <= i < k :: InWindow(t, states[i], route, lo, hi, e)
  }

  /** The distinct events indexed under the first `k` states. */
  ghost predicate Collected(
      found: seq<Event>, t: Table, states: seq<LifecycleState>, k: nat, route: string, lo: real, hi: real)
    requires k <= |states|
  {
    DistinctIds(found) && forall e :: e in found <==> InSomeWindow(t, states, k, route, lo, hi, e)
  }

  lemma {:induction false} CollectedNext(
      found: seq<Event>, r: seq<Event>, t: Table, states: seq<LifecycleState>, k: nat,
      route: string, lo: real, hi: real)
    requires k < |states| && Collected(found, t, states, k, route, lo, hi) && DistinctIds(r)
    requires forall e :: e in r <==> e in found || InWindow(t, states[k], route, lo, hi, e)
    ensures Collected(r, t, states, k + 1, route, lo, hi)
  {
    forall e
      ensures e in r <==> InSomeWindow(t, states, k + 1, route, lo, hi, e)
    {
      assert e in found <==> InSomeWindow(t, states, k, route, lo, hi, e);
      assert InWindow(t, states[k], route, lo, hi, e) ==> InSomeWindow(t, states, k + 1, route, lo, hi, e);
    }
  }

  /** The query for one state. */
  method QueryState(
      client: IndexClient, ghost t: Table, ghost states: seq<LifecycleState>, ghost k: nat, state: LifecycleState,
      route: string, lo: real, hi: real, found: seq<Event>)
      returns (r: seq<Event>)
    requires Serves(client, t) && OneEventPerId(t)
    requires k < |states| && state == states[k] && Collected(found, t, states, k, route, lo, hi)
    ensures Collected(r, t, states, k + 1, route, lo, hi)
  {
    var partition := GsiPartition(state, route);
    var items := QueryAll(client(partition, lo - RANGE_QUERY_LOOKBACK_MILES, hi), None);
    IndexConsistent(t, states, k, route, lo, hi, partition, items, found);
    r := KeepOverlaps(items, lo, found);
    CollectedNext(found, r, t, states, k, route, lo, hi);
  }

  lemma {:induction false} IndexConsistent(
      t: Table, states: seq<LifecycleState>, k: nat, route: string, lo: real, hi: real,
      partition: string, items: seq<Event>, found: seq<Event>)
    requires k <= |states| && OneEventPerId(t) && Collected(found, t, states, k, route, lo, hi)
    requires forall e :: e in items <==> Indexed(t, partition, lo - RANGE_QUERY_LOOKBACK_MILES, hi, e)
    ensures Consistent(items, found)
  {
    var from := lo - RANGE_QUERY_LOOKBACK_MILES;
    forall x | x in items || x in found
      ensures exists p :: Indexed(t, p, from, hi, x)
    {
      if x in items {
        assert Indexed(t, partition, from, hi, x);
      } else {
        var i :| 0 <= i < k && InWindow(t, states[i], route, lo, hi, x);
        assert Indexed(t, GsiPartition(states[i], route), from, hi, x);
      }
    }
    forall x, y | (x in items || x in found) && (y in items || y in found) && x.id == y.id
      ensures x == y
    {
      var p :| Indexed(t, p, from, hi, x);
      var q :| Indexed(t, q, from, hi, y);
      IndexedOnce(t, p, from, hi, x, q, from, hi, y);
    }
  }

  function BeginKey(): Event -> Float {
    (e: Event) => e.extent.begin
  }

  /** A list of distinct events, west to east. */
  predicate Listing(r: seq<Event>) {
    DistinctIds(r) && Ascends(BeginKey(), r)
  }

  lemma {:induction false} SortedListing(found: seq<Event>)
    requires DistinctIds(found) && forall e <- found :: e.extent.begin.Num?
    ensures Listing(Sort(BeginKey(), found))
    ensures forall e :: e in Sort(BeginKey(), found) <==> e in found
  {
    var r := Sort(BeginKey(), found);
    SortOrders(BeginKey(), found, NaN);
    assert forall e :: e in r <==> e in multiset(r);
    assert forall e :: e in found <==> e in multiset(found);
    PermutedIds(found, r);
  }

  lemma {:induction false} PermutedIds(a: seq<Event>, b: seq<Event>)
    requires DistinctIds(a) && multiset(a) == multiset(b)
    ensures DistinctIds(b)
  {
    forall i, j | 0 <= i < j < |b|
      ensures b[i].id != b[j].id
    {
      assert b[i] in multiset(a) && b[j] in multiset(a);
      var k :| 0 <= k < |a| && a[k] == b[i];
      var l :| 0 <= l < |a| && a[l] == b[j];
      if b[i] == b[j] {
        TwiceIn(b, i, j);
        OnceIn(a, k);
      }
    }
  }

  lemma {:induction false} TwiceIn(b: seq<Event>, i: nat, j: nat)
    requires i < j < |b| && b[i] == b[j]
    ensures multiset(b)[b[i]] >= 2
  {
    assert b == b[..i] + [b[i]] + b[i + 1..];
    assert b[j] == b[i + 1..][j - i - 1];
    assert b[i] in b[i + 1..];
  }

  lemma {:induction false} OnceIn(a: seq<Event>, k: nat)
    requires DistinctIds(a) && k < |a|
    ensures multiset(a)[a[k]] == 1
  {
    assert a == a[..k] + [a[k]] + a[k + 1..];
    assert a[k] !in a[..k] && a[k] !in a[k + 1..];
  }

  /** What the query answers: every event indexed in the window once, and in order when
      all of them have a begin measure. */
  ghost predicate IsIndexed(
      r: seq<Event>, t: Table, states: seq<LifecycleState>, route: string, lo: real, hi: real)
  {
    && DistinctIds(r) && ((forall e <- r :: e.extent.begin.Num?) ==> Listing(r))
    && forall e :: e in r <==> InSomeWindow(t, states, |states|, route, lo, hi, e)
  }

  /** `DynamoEventStore.events_overlapping`. */
  method EventsOverlapping(
      client: IndexClient, ghost t: Table, route: string, begin: real, end: real, states: seq<LifecycleState>)
      returns (r: seq<Event>)
    requires Serves(client, t) && OneEventPerId(t)
    ensures IsIndexed(r, t, states, route, MinReal(begin, end), MaxReal(begin, end))
  {
    var lo, hi := MinReal(begin, end), MaxReal(begin, end);
    var found: seq<Event> := [];
    for k := 0 to |states|
      invariant Collected(found, t, states, k, route, lo, hi)
    {
      found := QueryState(client, t, states, k, states[k], route, lo, hi, found);
    }
    r := Sort(BeginKey(), found);
    PermutedIds(found, r);
    assert forall e :: e in r <==> e in multiset(r);
    assert forall e :: e in found <==> e in multiset(found);
    if forall e <- found :: e.extent.begin.Num? {
      SortedListing(found);
    }
  }

  // ----- the full scan -----

  /** `InMemoryEventStore.events_overlapping`, for one event. */
  predicate Scanned(e: Event, route: string, lo: real, hi: real, states: seq<LifecycleState>) {
    && e.extent.route == route && e.state in states && !e.extent.begin.NaN?
    && Le(Min(e.extent.begin, e.extent.end), Num(hi)) && Reaches(e, lo)
  }

  /** What the scan answers: every matching event once, in order. */
  ghost predicate IsScanned(
      r: seq<Event>, events: map<string, Event>, states: seq<LifecycleState>, route: string, lo: real, hi: real)
  {
    && Listing(r)
    && forall e :: e in r <==> e.id in events && events[e.id] == e && Scanned(e, route, lo, hi, states)
  }

  /** `InMemoryEventStore.events_overlapping`; its dict is read in no particular order. */
  method ScanOverlapping(
      events: map<string, Event>, route: string, begin: real, end: real, states: seq<LifecycleState>)
      returns (r: seq<Event>)
    requires forall id <- events :: events[id].id == id
    ensures IsScanned(r, events, states, route, MinReal(begin, end), MaxReal(begin, end))
  {
    var lo, hi := MinReal(begin, end), MaxReal(begin, end);
    var out: seq<Event>, rest := [], events.Keys;
    while rest != {}
      invariant rest <= events.Keys && DistinctIds(out)
      invariant forall e :: e in out <==>
        e.id in events && e.id !in rest && events[e.id] == e && Scanned(e, route, lo, hi, states)
    {
      var id :| id in rest;
      rest := rest - {id};
      if Scanned(events[id], route, lo, hi, states) {
        assert forall x <- out :: x.id != id;
        out := out + [events[id]];
      }
    }
    SortedListing(out);
    r := Sort(BeginKey(), out);
  }

  // ----- what the index holds -----

  /** In a mirrored state the index holds exactly the current events that have a begin
      measure, each under its current lifecycle state. */
  lemma {:induction false} IndexHoldsCurrent(
      t: Table, m: Memory, s: LifecycleState, route: string, lo: real, hi: real, e: Event)
    requires Good(m) && Mirrors(t, m)
    ensures Indexed(t, GsiPartition(s, route), lo, hi, e)
      <==> && e.id in m.events && m.events[e.id] == e
           && e.state == s && e.extent.route == route
           && e.extent.begin.Num? && lo <= e.extent.begin.r <= hi
  {
    PartitionsDistinct(e.state, e.extent.route, s, route);
    if Indexed(t, GsiPartition(s, route), lo, hi, e) {
      var key :| key in t && IndexEntry(t[key], GsiPartition(s, route), lo, hi, e);
      IndexedIsCurrent(t, m, key);
    }
    if e.id in m.events && m.events[e.id] == e {
      assert MirrorsCurrent(t, m, e.id);
      assert e.extent.begin.Num? ==> t[(e.id, CURRENT_SK)].gsi.Some?;
      assert e.state == s && e.extent.route == route && e.extent.begin.Num? && lo <= e.extent.begin.r <= hi
        ==> IndexEntry(t[(e.id, CURRENT_SK)], GsiPartition(s, route), lo, hi, e);
    }
  }

  lemma {:induction false} HistoryNotIndexed(t: Table, m: Memory, id: string, v: nat)
    requires Mirrors(t, m)
    ensures var snapshot := (id, VersionSk(v));
            snapshot in t ==> t[snapshot].EventItem? && t[snapshot].gsi.None?
    ensures var audit := (id, AuditSk(v));
            audit in t ==> t[audit].AuditItem?
  {
    assert MirrorsVersion(t, m, id, v);
  }

  lemma {:induction false} IndexedIsCurrent(t: Table, m: Memory, key: (string, string))
    requires Good(m) && Mirrors(t, m) && key in t && t[key].EventItem? && t[key].gsi.Some?
    ensures key.0 in m.events && t[key] == CurrentItem(m.events[key.0]) && t[key].event.id == key.0
  {
    assert KnownKey(key.1);
    assert MirrorsCurrent(t, m, key.0);
    if key.1 != CURRENT_SK {
      var v: nat :| key.1 == VersionSk(v) || key.1 == AuditSk(v);
      HistoryNotIndexed(t, m, key.0, v);
    } else {
      assert GoodEvent(m, key.0);
    }
  }

  lemma {:induction false} MirroredHasOnePerId(t: Table, m: Memory)
    requires Good(m) && Mirrors(t, m)
    ensures OneEventPerId(t)
  {
    forall k <- t, l <- t
      | t[k].EventItem? && t[k].gsi.Some? && t[l].EventItem? && t[l].gsi.Some? && t[k].event.id == t[l].event.id
      ensures t[k] == t[l]
    {
      IndexedIsCurrent(t, m, k);
      IndexedIsCurrent(t, m, l);
    }
  }

  /** What the indexed query returns, in terms of the current events. */
  lemma {:induction false} QueryReturns(
      t: Table, m: Memory, states: seq<LifecycleState>, route: string, lo: real, hi: real, e: Event)
    requires Good(m) && Mirrors(t, m)
    ensures InSomeWindow(t, states, |states|, route, lo, hi, e)
      <==> && e.id in m.events && m.events[e.id] == e && e.state in states && e.extent.route == route
           && e.extent.begin.Num? && lo - RANGE_QUERY_LOOKBACK_MILES <= e.extent.begin.r <= hi
           && Reaches(e, lo)
  {
    forall i | 0 <= i < |states|
      ensures InWindow(t, states[i], route, lo, hi, e)
        <==> && e.id in m.events && m.events[e.id] == e && e.state == states[i] && e.extent.route == route
             && e.extent.begin.Num? && lo - RANGE_QUERY_LOOKBACK_MILES <= e.extent.begin.r <= hi
             && Reaches(e, lo)
    {
      IndexHoldsCurrent(t, m, states[i], route, lo - RANGE_QUERY_LOOKBACK_MILES, hi, e);
    }
  }

  /** The query returns true overlaps only. */
  lemma {:induction false} QueryIsSound(
      t: Table, m: Memory, states: seq<LifecycleState>, route: string, lo: real, hi: real, e: Event)
    requires Good(m) && Mirrors(t, m) && lo <= hi
    requires InSomeWindow(t, states, |states|, route, lo, hi, e)
    ensures e.id in m.events && m.events[e.id] == e && Scanned(e, route, lo, hi, states)
  {
    QueryReturns(t, m, states, route, lo, hi, e);
  }

  /** An extent the index can find wherever it overlaps: it runs west to east and is no
      longer than the lookback. An extent without an end counts as a point. */
  predicate Findable(x: Extent)
    requires x.begin.Num?
  {
    x.end.Num? ==> x.begin.r <= x.end.r <= x.begin.r + RANGE_QUERY_LOOKBACK_MILES
  }

  /** For a current, placed event: index and scan agree on every window exactly when its
      extent runs forward and is at most 250 miles long. */
  lemma {:induction false} QueryCompleteIff(t: Table, m: Memory, states: seq<LifecycleState>, e: Event)
    requires Good(m) && Mirrors(t, m)
    requires e.id in m.events && m.events[e.id] == e && e.state in states && e.extent.begin.Num?
    ensures (forall lo, hi | lo <= hi ::
               InSomeWindow(t, states, |states|, e.extent.route, lo, hi, e)
               <==> Scanned(e, e.extent.route, lo, hi, states))
      <==> Findable(e.extent)
  {
    var route := e.extent.route;
    forall lo, hi | lo <= hi
      ensures Findable(e.extent) ==>
        (InSomeWindow(t, states, |states|, route, lo, hi, e) <==> Scanned(e, route, lo, hi, states))
    {
      QueryReturns(t, m, states, route, lo, hi, e);
    }
    if !Findable(e.extent) {
      var at := e.extent.end.r;
      QueryReturns(t, m, states, route, at, at, e);
      assert Scanned(e, route, at, at, states);
      assert !InSomeWindow(t, states, |states|, route, at, at, e);
    }
  }

  // ----- both, after every run -----

  ghost predicate Alike(t: Table, m: Memory, states: seq<LifecycleState>) {
    forall route, lo, hi, e | lo <= hi ::
      InSomeWindow(t, states, |states|, route, lo, hi, e)
      <==> e.id in m.events && m.events[e.id] == e && Scanned(e, route, lo, hi, states)
  }

  predicate AllFindable(m: Memory, states: seq<LifecycleState>) {
    forall id <- m.events | m.events[id].state in states && m.events[id].extent.begin.Num? ::
      Findable(m.events[id].extent)
  }

  lemma {:induction false} AlikeIffFindable(t: Table, m: Memory, states: seq<LifecycleState>)
    requires Good(m) && Mirrors(t, m)
    ensures Alike(t, m, states) <==> AllFindable(m, states)
  {
    if AllFindable(m, states) {
      forall route, lo, hi, e | lo <= hi
        ensures InSomeWindow(t, states, |states|, route, lo, hi, e)
          <==> e.id in m.events && m.events[e.id] == e && Scanned(e, route, lo, hi, states)
      {
        QueryReturns(t, m, states, route, lo, hi, e);
      }
    }
    if Alike(t, m, states) {
      forall id <- m.events | m.events[id].state in states && m.events[id].extent.begin.Num?
        ensures Findable(m.events[id].extent)
      {
        assert GoodEvent(m, id);
        QueryCompleteIff(t, m, states, m.events[id]);
      }
    }
  }

  /** After every run the table meets what the query method asks of it, every event it
      returns has a begin measure to be sorted by, and it returns the same events as the
      full scan for every window exactly when all placed current events of the asked
      states are findable. */
  lemma {:induction false} EveryRunQueriesAlike(
      writers: seq<Writer>, turns: seq<nat>, states: seq<LifecycleState>)
    requires AllNumbered(writers) && Schedule(|writers|, turns)
    ensures var t := TableRun(System(map[], writers), turns).store;
            var m := MemoryRun(System(EMPTY_MEMORY, writers), turns).store;
            && OneEventPerId(t) && (forall id <- m.events :: m.events[id].id == id)
            && (forall route, lo, hi, e ::
                  InSomeWindow(t, states, |states|, route, lo, hi, e) ==> e.extent.begin.Num?)
            && (Alike(t, m, states) <==> AllFindable(m, states))
  {
    RunsRefine(writers, turns);
    var t := TableRun(System(map[], writers), turns).store;
    var m := MemoryRun(System(EMPTY_MEMORY, writers), turns).store;
    MirroredHasOnePerId(t, m);
    AlikeIffFindable(t, m, states);
    forall id <- m.events
      ensures m.events[id].id == id
    {
      assert GoodEvent(m, id);
    }
    forall route, lo, hi, e
      ensures InSomeWindow(t, states, |states|, route, lo, hi, e) ==> e.extent.begin.Num?
    {
      QueryReturns(t, m, states, route, lo, hi, e);
    }
  }

  /** Two listings with the same members are permutations of each other. */
  lemma {:induction false} ListingsAgree(a: seq<Event>, b: seq<Event>)
    requires DistinctIds(a) && DistinctIds(b) && forall e :: e in a <==> e in b
    ensures multiset(a) == multiset(b)
  {
    forall e
      ensures multiset(a)[e] == multiset(b)[e]
    {
      if e in a {
        var k :| 0 <= k < |a| && a[k] == e;
        var l :| 0 <= l < |b| && b[l] == e;
        OnceIn(a, k);
        OnceIn(b, l);
      } else {
        assert e !in multiset(a) && e !in multiset(b);
      }
    }
  }

  /** What the two queries answer after any run of writers is the same events from west to
      east, for every window, as long as all placed current events are findable. */
  lemma {:induction false} EveryRunListsAlike(
      writers: seq<Writer>, turns: seq<nat>, states: seq<LifecycleState>, route: string, lo: real, hi: real,
      indexed: seq<Event>, scanned: seq<Event>)
    requires AllNumbered(writers) && Schedule(|writers|, turns) && lo <= hi
    requires var m := MemoryRun(System(EMPTY_MEMORY, writers), turns).store;
             AllFindable(m, states) && IsScanned(scanned, m.events, states, route, lo, hi)
    requires IsIndexed(indexed, TableRun(System(map[], writers), turns).store, states, route, lo, hi)
    ensures Listing(indexed) && Listing(scanned) && multiset(indexed) == multiset(scanned)
  {
    EveryRunQueriesAlike(writers, turns, states);
    ListingsAgree(indexed, scanned);
  }

  // ----- what the window means -----

  /** A place on an extent, whichever way it runs; without an end it is a point. */
  predicate On(x: Extent, at: real)
    requires x.begin.Num?
  {
    var far := if x.end.Num? then x.end.r else x.begin.r;
    x.begin.r <= at <= far || far <= at <= x.begin.r
  }

  /** The scan returns the placed events of the route and states that share a place with
      the window, its ends included. */
  lemma {:induction false} ScannedIff(e: Event, route: string, lo: real, hi: real, states: seq<LifecycleState>)
    requires lo <= hi
    ensures Scanned(e, route, lo, hi, states) <==>
      && e.extent.route == route && e.state in states && e.extent.begin.Num?
      && exists at :: On(e.extent, at) && lo <= at <= hi
  {
    if e.extent.begin.Num? {
      var near := e.extent.begin.r;
      var far := if e.extent.end.Num? then e.extent.end.r else near;
      var at := MaxReal(lo, MinReal(near, far));
      assert Scanned(e, route, lo, hi, states) ==> On(e.extent, at) && lo <= at <= hi;
    }
  }

  /** The indexed query returns those of them that begin inside the window or at most 250
      miles before it. */
  lemma {:induction false} QueryReturnsIff(
      t: Table, m: Memory, states: seq<LifecycleState>, route: string, lo: real, hi: real, e: Event)
    requires Good(m) && Mirrors(t, m) && lo <= hi
    ensures InSomeWindow(t, states, |states|, route, lo, hi, e) <==>
      && e.id in m.events && m.events[e.id] == e && e.state in states && e.extent.route == route
      && e.extent.begin.Num? && lo - 250.0 <= e.extent.begin.r <= hi
      && exists at :: On(e.extent, at) && lo <= at <= hi
  {
    QueryReturns(t, m, states, route, lo, hi, e);
    ScannedIff(e, route, lo, hi, states);
  }

  /** A listing of placed events runs from west to east. */
  lemma {:induction false} ListingAscends(r: seq<Event>, a: nat, b: nat)
    requires Listing(r) && a < b < |r| && r[a].extent.begin.Num? && r[b].extent.begin.Num?
    ensures r[a].extent.begin.r <= r[b].extent.begin.r && r[a].id != r[b].id
  {
  }

  /** Limiting keeps the first items. */
  lemma {:induction false} LimitedIs<T>(items: seq<T>, n: nat)
    ensures Limited(items, None) == items
    ensures Limited(items, Some(n)) <= items && (|Limited(items, Some(n))| == n || Limited(items, Some(n)) == items)
    ensures |Limited(items, Some(n))| <= n
  {
  }
}
