/** The in-memory cache: bounded, evicting in order of insertion, with expiry checked outside the lock. */
module TtlCache {
  import opened Options

  datatype Entry = Entry(value: string, expiresAt: int)

  datatype Stats = Stats(hits: int, misses: int, sets: int, deletes: int, evictions: int, size: int)

  datatype Cache = Cache(entries: map<string, Entry>, order: seq<string>, stats: Stats)

  // ---------------------------------------------------------------- Eviction

  function Without(entries: map<string, Entry>, gone: seq<string>): map<string, Entry> {
    map k | k in entries && k !in gone :: entries[k]
  }

  /** The first `m` queue entries are used up, each of them while the cache was full. */
  ghost predicate Evicting(before: Cache, after: Cache, max: nat, m: nat) {
    && m <= |before.order|
    && after.order == before.order[m..]
    && after.entries == Without(before.entries, before.order[..m])
    && after.stats == before.stats.(evictions := before.stats.evictions + m)
    && forall j :: 0 <= j < m ==> |Without(before.entries, before.order[..j])| >= max
  }

  /** As many as it takes to make room for one more, and no more than that. */
  ghost predicate Evicted(before: Cache, after: Cache, max: nat, m: nat) {
    Evicting(before, after, max, m) && |after.entries| < max
  }

  function EvictOne(c: Cache): Cache
    requires c.order != []
  {
    Cache(c.entries - {c.order[0]}, c.order[1..], c.stats.(evictions := c.stats.evictions + 1))
  }

  /** The eviction loop of Set: as long as the cache is full, the front of the queue goes. */
  function MadeRoom(max: nat, c: Cache): Cache
    decreases |c.order|
  {
    if |c.entries| < max || c.order == [] then c else MadeRoom(max, EvictOne(c))
  }

  lemma EvictingOneMore(before: Cache, c: Cache, max: nat, m: nat)
    requires Evicting(before, c, max, m) && |c.entries| >= max && c.order != []
    ensures Evicting(before, EvictOne(c), max, m + 1)
  {
    WithoutOneMore(before.entries, before.order, m);
    assert forall j :: 0 <= j < m + 1 ==> |Without(before.entries, before.order[..j])| >= max;
  }

  /** A live key is queued, so a cache that is not empty has a queue that is not empty. */
  lemma QueueNotEmpty(entries: map<string, Entry>, order: seq<string>)
    requires Queued(entries, order) && |entries| > 0
    ensures order != []
  {
    var k :| k in entries;
    assert k in order;
  }

  /** Every live key is somewhere in the queue. */
  ghost predicate Queued(entries: map<string, Entry>, order: seq<string>) {
    forall k :: k in entries ==> k in order
  }

  lemma WithoutOneMore(entries: map<string, Entry>, order: seq<string>, m: nat)
    requires m < |order|
    ensures Without(entries, order[..m]) - {order[m]} == Without(entries, order[..m + 1])
  {
    assert order[..m + 1] == order[..m] + [order[m]];
  }

  lemma WithoutQueued(entries: map<string, Entry>, order: seq<string>, m: nat)
    requires m <= |order| && Queued(entries, order)
    ensures Queued(Without(entries, order[..m]), order[m..])
  {
    forall k | k in Without(entries, order[..m])
      ensures k in order[m..]
    {
      assert order == order[..m] + order[m..];
    }
  }

  function DeletedByPrefix(c: Cache, prefix: string): Cache {
    var left := map k | k in c.entries && !(prefix <= k) :: c.entries[k];
    Cache(left, c.order, c.stats.(deletes := c.stats.deletes + |c.entries| - |left|, size := |left|))
  }

  function Deleted(c: Cache, key: string): Cache {
    if key in c.entries then
      Cache(c.entries - {key}, c.order, c.stats.(deletes := c.stats.deletes + 1, size := |c.entries - {key}|))
    else c
  }

  function Stored(c: Cache, key: string, e: Entry): Cache {
    Cache(c.entries[key := e], c.order + [key], c.stats.(sets := c.stats.sets + 1, size := |c.entries[key := e]|))
  }

  /** What a Get leaves behind: an expired entry is deleted, and the miss or hit counted. */
  function AfterGet(c: Cache, key: string, now: int): Cache {
    if key !in c.entries then Missed(c)
    else if now > c.entries[key].expiresAt then Missed(Deleted(c, key))
    else c.(stats := c.stats.(hits := c.stats.hits + 1))
  }

  function Missed(c: Cache): Cache {
    c.(stats := c.stats.(misses := c.stats.misses + 1))
  }

  function Cleared(c: Cache): Cache {
    Cache(map[], [], c.stats.(size := 0))
  }

  lemma RemoveCounts(entries: map<string, Entry>, key: string)
    requires key in entries
    ensures |entries - {key}| == |entries| - 1
  {
    assert (entries - {key}).Keys == entries.Keys - {key};
    assert |(entries - {key}).Keys| == |entries.Keys| - 1;
  }

  class InMemoryCache {
    const maxEntries: nat
    var entries: map<string, Entry>
    var order: seq<string>
    var stats: Stats

    constructor (maxEntries: int)
      ensures this.maxEntries == if maxEntries <= 0 then 10000 else maxEntries
      ensures Value() == Cache(map[], [], Stats(0, 0, 0, 0, 0, 0))
    {
      this.maxEntries := if maxEntries <= 0 then 10000 else maxEntries;
      entries, order, stats := map[], [], Stats(0, 0, 0, 0, 0, 0);
    }

    function Value(): Cache
      reads this
    {
      Cache(entries, order, stats)
    }

    method EvictOldest()
      modifies this
      ensures old(order) == [] ==> Value() == old(Value())
      ensures old(order) != [] ==> Value() == EvictOne(old(Value()))
    {
      if |order| == 0 {
        return;
      }
      var oldest := order[0];
      order := order[1..];
      entries := entries - {oldest};
      stats := stats.(evictions := stats.evictions + 1);
    }

    /** The eviction loop; it ends because a full cache has something queued. */
    method MakeRoom() returns (ghost m: nat)
      requires maxEntries > 0 && Queued(entries, order)
      modifies this
      ensures Value() == MadeRoom(maxEntries, old(Value())) && Evicted(old(Value()), Value(), maxEntries, m)
    {
      m := 0;
      ghost var before := Value();
      assert order[..0] == [] && Without(entries, []) == entries;
      while |entries| >= maxEntries
        invariant Evicting(before, Value(), maxEntries, m)
        invariant MadeRoom(maxEntries, Value()) == MadeRoom(maxEntries, before)
        decreases |order|
      {
        WithoutQueued(before.entries, before.order, m);
        QueueNotEmpty(entries, order);
        EvictingOneMore(before, Value(), maxEntries, m);
        EvictOldest();
        m := m + 1;
      }
    }

    method Set(key: string, value: string, ttl: int, now: int) returns (ghost mid: Cache, ghost m: nat)
      requires maxEntries > 0 && Queued(entries, order)
      modifies this
      ensures mid == MadeRoom(maxEntries, old(Value())) && Evicted(old(Value()), mid, maxEntries, m)
      ensures Value() == Stored(mid, key, Entry(value, now + ttl))
    {
      m := MakeRoom();
      mid := Value();
      entries := entries[key := Entry(value, now + ttl)];
      order := order + [key];
      stats := stats.(sets := stats.sets + 1, size := |entries|);
    }

    method Delete(key: string)
      modifies this
      ensures Value() == Deleted(old(Value()), key)
    {
      if key in entries {
        entries := entries - {key};
        stats := stats.(deletes := stats.deletes + 1, size := |entries|);
      }
    }

    /** The keys are collected in whatever order the map yields them. */
    method DeleteByPrefix(prefix: string)
      modifies this
      ensures Value() == DeletedByPrefix(old(Value()), prefix)
    {
      var todo := set k | k in entries && prefix <= k;
      ghost var all := todo;
      assert entries == map k | k in entries && k !in all - todo :: entries[k];
      while todo != {}
        invariant todo <= all && order == old(order)
        invariant entries == map k | k in old(entries) && k !in all - todo :: old(entries)[k]
        invariant stats == old(stats).(deletes := old(stats).deletes + |old(entries)| - |entries|)
        decreases todo
      {
        var key :| key in todo;
        assert key in entries;
        RemoveCounts(entries, key);
        entries := entries - {key};
        stats := stats.(deletes := stats.deletes + 1);
        todo := todo - {key};
      }
      stats := stats.(size := |entries|);
      assert entries == DeletedByPrefix(old(Value()), prefix).entries;
    }

    method Clear()
      modifies this
      ensures Value() == Cleared(old(Value()))
    {
      entries, order := map[], [];
      stats := stats.(size := 0);
    }

    /** The first lock step of Get. */
    method Lookup(key: string) returns (e: Option<Entry>)
      ensures e == if key in entries then Some(entries[key]) else None
    {
      e := if key in entries then Some(entries[key]) else None;
    }

    /** Get without other callers in between. */
    method Get(key: string, now: int) returns (r: Option<string>)
      modifies this
      ensures var live := key in old(entries) && now <= old(entries)[key].expiresAt;
              r == if live then Some(old(entries)[key].value) else None
      ensures Value() == AfterGet(old(Value()), key, now)
    {
      var e := Lookup(key);
      if e.None? {
        stats := stats.(misses := stats.misses + 1);
        return None;
      }
      if now > e.value.expiresAt {
        Delete(key);
        stats := stats.(misses := stats.misses + 1);
        return None;
      }
      stats := stats.(hits := stats.hits + 1);
      return Some(e.value.value);
    }
  }

  // ---------------------------------------------------------------- Concurrent callers

  /** A Get under way: what it looked up, and what an unbounded cache without expiry held for the key then. */
  datatype Reader = Reader(key: string, seen: Option<Entry>, truth: Option<Entry>)

  datatype Use = SetOf(key: string) | HitOf(key: string)

  /** `ideal` is that unbounded cache; `dropped` counts queue entries thrown away by Clear, and `log`
      lists all Sets and all hits there have been. */
  datatype World = World(cache: Cache, readers: map<nat, Reader>, ideal: map<string, Entry>, dropped: int,
                         log: seq<Use>)

  /** Lock steps of the callers. */
  datatype Step =
    | SetKey(key: string, e: Entry)
    | DeleteKey(key: string)
    | DeletePrefix(prefix: string)
    | ClearAll
    | Look(id: nat, key: string)
    | Expire(id: nat)   // the Delete inside Get, on behalf of an expired entry
    | CountHit(id: nat)
    | CountMiss

  ghost predicate Next(max: nat, w: World, v: World, step: Step) {
    match step
    case SetKey(key, e) =>
      exists mid, m :: Evicted(w.cache, mid, max, m)
        && v == w.(cache := Stored(mid, key, e), ideal := w.ideal[key := e], log := w.log + [SetOf(key)])
    case DeleteKey(key) => v == w.(cache := Deleted(w.cache, key), ideal := w.ideal - {key})
    case DeletePrefix(prefix) =>
      v == w.(cache := DeletedByPrefix(w.cache, prefix), ideal := map k | k in w.ideal && !(prefix <= k) :: w.ideal[k])
    case ClearAll => v == w.(cache := Cleared(w.cache), ideal := map[], dropped := w.dropped + |w.cache.order|)
    case Look(id, key) =>
      v == w.(readers := w.readers[id := Reader(key, Find(w.cache.entries, key), Find(w.ideal, key))])
    case Expire(id) => id in w.readers && v == w.(cache := Deleted(w.cache, w.readers[id].key))
    case CountHit(id) =>
      && id in w.readers && w.readers[id].seen.Some?
      && v == w.(cache := w.cache.(stats := w.cache.stats.(hits := w.cache.stats.hits + 1)),
                 log := w.log + [HitOf(w.readers[id].key)])
    case CountMiss => v == w.(cache := w.cache.(stats := w.cache.stats.(misses := w.cache.stats.misses + 1)))
  }

  function Find(entries: map<string, Entry>, key: string): Option<Entry> {
    if key in entries then Some(entries[key]) else None
  }

  ghost predicate Submap(a: map<string, Entry>, b: map<string, Entry>) {
    forall k :: k in a ==> k in b && a[k] == b[k]
  }

  /** The keys of the Sets in a record. */
  function SetKeys(log: seq<Use>): seq<string> {
    if log == [] then []
    else SetKeys(log[..|log| - 1]) + if log[|log| - 1].SetOf? then [log[|log| - 1].key] else []
  }

  lemma SetKeysAfter(log: seq<Use>, use: Use)
    ensures SetKeys(log + [use]) == SetKeys(log) + if use.SetOf? then [use.key] else []
  {
    assert (log + [use])[..|log|] == log;
  }

  /** The queue is the latest part of the keys set. */
  ghost predicate Recorded(order: seq<string>, keys: seq<string>) {
    |order| <= |keys| && order == keys[|keys| - |order|..]
  }

  lemma RecordedAgain(order: seq<string>, keys: seq<string>, m: nat, key: string)
    requires Recorded(order, keys) && m <= |order|
    ensures Recorded(order[m..] + [key], keys + [key])
  {
  }

  ghost predicate Inv(max: nat, w: World) {
    && Queued(w.cache.entries, w.cache.order)
    && |w.cache.entries| <= max
    && w.cache.stats.size == |w.cache.entries|
    && w.cache.stats.sets == w.cache.stats.evictions + |w.cache.order| + w.dropped
    && Submap(w.cache.entries, w.ideal)
    && Recorded(w.cache.order, SetKeys(w.log))
    && w.cache.stats.sets == |SetKeys(w.log)|
    && w.cache.stats.hits == |w.log| - |SetKeys(w.log)|
    && (forall id :: id in w.readers && w.readers[id].seen.Some? ==> w.readers[id].truth == w.readers[id].seen)
  }

  lemma StoreCounts(entries: map<string, Entry>, key: string, e: Entry)
    ensures |entries[key := e]| <= |entries| + 1
  {
    assert entries[key := e].Keys == entries.Keys + {key};
  }

  /** The cache itself after a Set. */
  lemma SetFits(max: nat, c: Cache, mid: Cache, m: nat, key: string, e: Entry)
    requires Queued(c.entries, c.order) && Evicted(c, mid, max, m)
    ensures var d := Stored(mid, key, e);
            && Queued(d.entries, d.order) && |d.entries| <= max && d.order == c.order[m..] + [key]
            && d.entries == Without(c.entries, c.order[..m])[key := e]
            && d.stats.size == |d.entries| && d.stats.sets == c.stats.sets + 1
            && d.stats.evictions == c.stats.evictions + m && d.stats.hits == c.stats.hits
  {
    WithoutQueued(c.entries, c.order, m);
    StoreCounts(mid.entries, key, e);
  }

  lemma StoredSubmap(entries: map<string, Entry>, gone: seq<string>, ideal: map<string, Entry>, key: string, e: Entry)
    requires Submap(entries, ideal)
    ensures Submap(Without(entries, gone)[key := e], ideal[key := e])
  {
  }

  lemma SetKeeps(max: nat, w: World, mid: Cache, m: nat, key: string, e: Entry)
    requires Inv(max, w) && Evicted(w.cache, mid, max, m)
    ensures Inv(max, w.(cache := Stored(mid, key, e), ideal := w.ideal[key := e], log := w.log + [SetOf(key)]))
  {
    SetFits(max, w.cache, mid, m, key, e);
    SetKeysAfter(w.log, SetOf(key));
    RecordedAgain(w.cache.order, SetKeys(w.log), m, key);
    StoredSubmap(w.cache.entries, w.cache.order[..m], w.ideal, key, e);
  }

  lemma DeleteKeeps(max: nat, w: World, key: string, ideal: map<string, Entry>)
    requires Inv(max, w) && (ideal == w.ideal || ideal == w.ideal - {key})
    ensures Inv(max, w.(cache := Deleted(w.cache, key), ideal := ideal))
  {
    if key in w.cache.entries {
      RemoveCounts(w.cache.entries, key);
    }
  }

  lemma FilterCounts(entries: map<string, Entry>, prefix: string)
    ensures |map k | k in entries && !(prefix <= k) :: entries[k]| <= |entries|
  {
    var left := map k | k in entries && !(prefix <= k) :: entries[k];
    assert entries.Keys == left.Keys + (entries.Keys - left.Keys);
  }

  lemma PrefixKeeps(max: nat, w: World, prefix: string)
    requires Inv(max, w)
    ensures Inv(max, w.(cache := DeletedByPrefix(w.cache, prefix),
                        ideal := map k | k in w.ideal && !(prefix <= k) :: w.ideal[k]))
  {
    FilterCounts(w.cache.entries, prefix);
  }

  lemma StepKeeps(max: nat, w: World, v: World, step: Step)
    requires Inv(max, w) && Next(max, w, v, step)
    ensures Inv(max, v)
  {
    match step
    case SetKey(key, e) =>
      var mid, m :| Evicted(w.cache, mid, max, m)
        && v == w.(cache := Stored(mid, key, e), ideal := w.ideal[key := e], log := w.log + [SetOf(key)]);
      SetKeeps(max, w, mid, m, key, e);
    case DeleteKey(key) => DeleteKeeps(max, w, key, w.ideal - {key});
    case DeletePrefix(prefix) => PrefixKeeps(max, w, prefix);
    case Expire(id) => DeleteKeeps(max, w, w.readers[id].key, w.ideal);
    case CountHit(id) => SetKeysAfter(w.log, HitOf(w.readers[id].key));
    case _ =>
  }

  ghost predicate Start(w: World) {
    w == World(Cache(map[], [], Stats(0, 0, 0, 0, 0, 0)), map[], map[], 0, [])
  }

  ghost predicate Run(max: nat, worlds: seq<World>, steps: seq<Step>) {
    |worlds| == |steps| + 1 && Start(worlds[0])
    && forall i :: 0 <= i < |steps| ==> Next(max, worlds[i], worlds[i + 1], steps[i])
  }

  /** In every schedule: the live entries stay within the limit and within the unbounded cache, every one of them is
      queued, each Set is accounted for once as an eviction, a queue entry or one dropped by Clear, and what a Get
      has looked up is what the unbounded cache held at that moment. */
  lemma {:induction false} CacheTheorem(max: nat, worlds: seq<World>, steps: seq<Step>, i: nat)
    requires Run(max, worlds, steps) && i <= |steps|
    ensures Inv(max, worlds[i])
    decreases i
  {
    if i > 0 {
      CacheTheorem(max, worlds, steps, i - 1);
      StepKeeps(max, worlds[i - 1], worlds[i], steps[i - 1]);
    }
  }

  /** With room for at least one entry, the eviction in Set always finds an end. */
  lemma SetIsPossible(max: nat, c: Cache)
    requires max > 0 && Queued(c.entries, c.order)
    ensures exists mid, m :: Evicted(c, mid, max, m)
  {
    var m := FirstRoom(max, c, 0);
    var mid := Cache(Without(c.entries, c.order[..m]), c.order[m..], c.stats.(evictions := c.stats.evictions + m));
    assert Evicted(c, mid, max, m);
  }

  lemma FirstRoom(max: nat, c: Cache, from: nat) returns (m: nat)
    requires max > 0 && Queued(c.entries, c.order) && from <= |c.order|
    requires forall j :: 0 <= j < from ==> |Without(c.entries, c.order[..j])| >= max
    ensures m <= |c.order| && |Without(c.entries, c.order[..m])| < max
    ensures forall j :: 0 <= j < m ==> |Without(c.entries, c.order[..j])| >= max
    decreases |c.order| - from
  {
    if |Without(c.entries, c.order[..from])| < max {
      m := from;
    } else {
      WithoutQueued(c.entries, c.order, from);
      QueueNotEmpty(Without(c.entries, c.order[..from]), c.order[from..]);
      m := FirstRoom(max, c, from + 1);
    }
  }

  // ---------------------------------------------------------------- Which entry goes

  lemma FewerWithout(a: map<string, Entry>, order: seq<string>, k: string)
    requires k in a && k in order
    ensures |Without(a, order)| < |a|
  {
    var left := Without(a, order);
    assert left.Keys <= a.Keys - {k};
    SubsetCount(left.Keys, a.Keys - {k});
    assert |left| == |left.Keys| && |a| == |a.Keys|;
  }

  lemma {:induction false} SubsetCount(a: set<string>, b: set<string>)
    requires a <= b
    ensures |a| <= |b|
    decreases |a|
  {
    if a != {} {
      var x :| x in a;
      SubsetCount(a - {x}, b - {x});
    }
  }

  /** The first key of the queue that is live. */
  function FirstLive(entries: map<string, Entry>, order: seq<string>): Option<string> {
    if order == [] then None else if order[0] in entries then Some(order[0]) else FirstLive(entries, order[1..])
  }

  lemma {:induction false} FirstLiveAt(entries: map<string, Entry>, order: seq<string>, i: nat)
    requires i < |order| && order[i] in entries && forall j :: 0 <= j < i ==> order[j] !in entries
    ensures FirstLive(entries, order) == Some(order[i])
    decreases i
  {
    if i > 0 {
      assert order[0] !in entries;
      assert forall j :: 0 <= j < i - 1 ==> order[1..][j] == order[j + 1];
      FirstLiveAt(entries, order[1..], i - 1);
    }
  }

  /** What Set gives up: nothing below the limit; at the limit exactly one entry, that of the first live key in the
      queue, whatever has been read and however recently that key was set. */
  lemma FirstLiveGoes(c: Cache, mid: Cache, max: nat, m: nat)
    requires Queued(c.entries, c.order) && 0 < max && |c.entries| <= max && Evicted(c, mid, max, m)
    ensures |c.entries| < max ==> mid == c
    ensures |c.entries| == max ==>
      && FirstLive(c.entries, c.order).Some? && FirstLive(c.entries, c.order).value in c.entries
      && mid.entries == c.entries - {FirstLive(c.entries, c.order).value}
      && m > 0 && c.order[m - 1] == FirstLive(c.entries, c.order).value
      && forall j :: 0 <= j < m - 1 ==> c.order[j] !in c.entries
  {
    assert c.order[..0] == [] && Without(c.entries, []) == c.entries;
    if |c.entries| == max {
      assert m > 0;
      assert |Without(c.entries, c.order[..m - 1])| >= max;
      forall k | k in c.entries
        ensures k !in c.order[..m - 1]
      {
        if k in c.order[..m - 1] {
          FewerWithout(c.entries, c.order[..m - 1], k);
        }
      }
      assert forall j :: 0 <= j < m - 1 ==> c.order[..m - 1][j] == c.order[j];
      assert Without(c.entries, c.order[..m - 1]) == c.entries;
      WithoutOneMore(c.entries, c.order, m - 1);
      FirstLiveAt(c.entries, c.order, m - 1);
    }
  }

  // ---------------------------------------------------------------- What stays

  /** The steps that take key `k` out of the cache, if it is live. */
  ghost predicate Removes(max: nat, w: World, step: Step, k: string) {
    match step
    case SetKey(key, _) => k != key && |w.cache.entries| == max && FirstLive(w.cache.entries, w.cache.order) == Some(k)
    case DeleteKey(key) => k == key
    case DeletePrefix(prefix) => prefix <= k
    case ClearAll => true
    case Expire(id) => id in w.readers && w.readers[id].key == k
    case _ => false
  }

  lemma SetLeaves(max: nat, c: Cache, mid: Cache, m: nat, key: string, e: Entry, k: string)
    requires Queued(c.entries, c.order) && 0 < max && |c.entries| <= max && Evicted(c, mid, max, m)
    ensures var d := Stored(mid, key, e);
            && (k != key ==> Find(d.entries, k) == if |c.entries| == max && FirstLive(c.entries, c.order) == Some(k)
                                                   then None else Find(c.entries, k))
            && d.entries[key] == e
  {
    FirstLiveGoes(c, mid, max, m);
  }

  /** Nothing else goes and nothing else comes: after a step a key has the entry it had, unless the step sets the key
      or takes it out. */
  lemma StepLeaves(max: nat, w: World, v: World, step: Step, k: string)
    requires Inv(max, w) && Next(max, w, v, step)
    ensures Find(v.cache.entries, k)
         == if step.SetKey? && step.key == k then Some(step.e)
            else if Removes(max, w, step, k) then None else Find(w.cache.entries, k)
  {
    if step.SetKey? {
      var mid, m :| Evicted(w.cache, mid, max, m) && v.cache == Stored(mid, step.key, step.e);
      SetLeaves(max, w.cache, mid, m, step.key, step.e, k);
    }
  }

  lemma RemovedCount(before: map<string, Entry>, after: map<string, Entry>)
    requires after.Keys <= before.Keys
    ensures |before.Keys - after.Keys| == |before| - |after|
  {
    assert before.Keys == after.Keys + (before.Keys - after.Keys);
    assert |before| == |before.Keys| && |after| == |after.Keys|;
  }

  /** What the counters count: Deletes the live entries taken out by Delete, DeleteByPrefix and the expiry in Get, and
      only those; Hits and Misses the Gets that ended that way; Evictions the queue entries that a Set used up. */
  lemma StepCounts(max: nat, w: World, v: World, step: Step)
    requires Inv(max, w) && Next(max, w, v, step)
    ensures var a, b := w.cache.stats, v.cache.stats;
            var gone := |w.cache.entries.Keys - v.cache.entries.Keys|;
            && b.deletes == a.deletes + (if step.DeleteKey? || step.DeletePrefix? || step.Expire? then gone else 0)
            && b.hits == a.hits + (if step.CountHit? then 1 else 0)
            && b.misses == a.misses + (if step.CountMiss? then 1 else 0)
            && b.sets == a.sets + (if step.SetKey? then 1 else 0)
            && b.evictions == a.evictions
                              + (if step.SetKey? then |w.cache.order| + 1 - |v.cache.order| else 0)
  {
    if step.SetKey? {
      var mid, m :| Evicted(w.cache, mid, max, m) && v.cache == Stored(mid, step.key, step.e);
    } else if step.DeleteKey? || step.DeletePrefix? || step.Expire? {
      RemovedCount(w.cache.entries, v.cache.entries);
      if step.DeleteKey? && step.key in w.cache.entries {
        RemoveCounts(w.cache.entries, step.key);
      } else if step.Expire? && w.readers[step.id].key in w.cache.entries {
        RemoveCounts(w.cache.entries, w.readers[step.id].key);
      }
    }
  }

  /** Between the `i`-th step, which sets the key, and the `j`-th, no step sets it again or takes it out. */
  ghost predicate Untouched(max: nat, worlds: seq<World>, steps: seq<Step>, i: nat, j: nat, k: string)
    requires j <= |steps| && |worlds| == |steps| + 1
  {
    forall n :: i < n < j ==> !(steps[n].SetKey? && steps[n].key == k) && !Removes(max, worlds[n], steps[n], k)
  }

  lemma StepOfRun(max: nat, worlds: seq<World>, steps: seq<Step>, n: nat, k: string)
    requires Run(max, worlds, steps) && n < |steps|
    ensures Find(worlds[n + 1].cache.entries, k)
         == if steps[n].SetKey? && steps[n].key == k then Some(steps[n].e)
            else if Removes(max, worlds[n], steps[n], k) then None else Find(worlds[n].cache.entries, k)
  {
    CacheTheorem(max, worlds, steps, n);
    StepLeaves(max, worlds[n], worlds[n + 1], steps[n], k);
  }

  lemma {:induction false} Constant(found: seq<Option<Entry>>, from: nat, end: nat)
    requires from <= end < |found| && forall n :: from <= n < end ==> found[n + 1] == found[n]
    ensures found[end] == found[from]
    decreases end
  {
    if from < end {
      Constant(found, from, end - 1);
    }
  }

  /** In every schedule an entry stays, with its value, until its key is set again or taken out. */
  lemma RetentionTheorem(max: nat, worlds: seq<World>, steps: seq<Step>, i: nat, j: nat)
    requires Run(max, worlds, steps) && i < j <= |steps| && steps[i].SetKey?
    requires Untouched(max, worlds, steps, i, j, steps[i].key)
    ensures Find(worlds[j].cache.entries, steps[i].key) == Some(steps[i].e)
  {
    var k := steps[i].key;
    var found := seq(|worlds|, n requires 0 <= n < |worlds| => Find(worlds[n].cache.entries, k));
    StepOfRun(max, worlds, steps, i, k);
    forall n | i < n < j
      ensures found[n + 1] == found[n]
    {
      StepOfRun(max, worlds, steps, n, k);
    }
    Constant(found, i + 1, j);
  }

  /** The lock steps of a Get that nobody comes between. */
  function GetSteps(c: Cache, id: nat, key: string, now: int): seq<Step> {
    if key !in c.entries then [Look(id, key), CountMiss]
    else if now > c.entries[key].expiresAt then [Look(id, key), Expire(id), CountMiss]
    else [Look(id, key), CountHit(id)]
  }

  /** So what the sequential Get does is a run of those steps. */
  lemma GetIsARun(max: nat, w: World, id: nat, key: string, now: int) returns (worlds: seq<World>)
    ensures var steps := GetSteps(w.cache, id, key, now);
            && |worlds| == |steps| + 1 && worlds[0] == w && worlds[|steps|].cache == AfterGet(w.cache, key, now)
            && forall i :: 0 <= i < |steps| ==> Next(max, worlds[i], worlds[i + 1], steps[i])
  {
    var w1 := w.(readers := w.readers[id := Reader(key, Find(w.cache.entries, key), Find(w.ideal, key))]);
    if key in w.cache.entries && now <= w.cache.entries[key].expiresAt {
      worlds := [w, w1, w1.(cache := AfterGet(w.cache, key, now), log := w.log + [HitOf(key)])];
    } else if key in w.cache.entries {
      worlds := [w, w1, w1.(cache := Deleted(w.cache, key)), w1.(cache := AfterGet(w.cache, key, now))];
    } else {
      worlds := [w, w1, w1.(cache := AfterGet(w.cache, key, now))];
    }
  }

  lemma {:induction false} MadeRoomEvicts(max: nat, before: Cache, c: Cache, m: nat) returns (n: nat)
    requires max > 0 && Queued(before.entries, before.order) && Evicting(before, c, max, m)
    ensures Evicted(before, MadeRoom(max, c), max, n)
    decreases |c.order|
  {
    n := m;
    if |c.entries| >= max {
      WithoutQueued(before.entries, before.order, m);
      QueueNotEmpty(c.entries, c.order);
      EvictingOneMore(before, c, max, m);
      n := MadeRoomEvicts(max, before, EvictOne(c), m + 1);
    }
  }

  /** One Set, from state to state. */
  function SetIn(max: nat, c: Cache, key: string, e: Entry): Cache {
    Stored(MadeRoom(max, c), key, e)
  }

  /** What matters of a cache here: its live keys and its queue. */
  ghost predicate Shows(c: Cache, keys: set<string>, order: seq<string>) {
    c.entries.Keys == keys && c.order == order
  }

  lemma SetShows(max: nat, c: Cache, keys: set<string>, order: seq<string>, key: string, e: Entry)
    requires Shows(c, keys, order) && |keys| < max
    ensures Shows(SetIn(max, c, key, e), keys + {key}, order + [key])
  {
    assert |c.entries| == |c.entries.Keys|;
  }

  lemma FullSetShows(max: nat, c: Cache, keys: set<string>, order: seq<string>, key: string, e: Entry)
    requires Shows(c, keys, order) && 0 < |keys| == max
    requires (forall k :: k in keys ==> k in order) && order != [] && order[0] in keys
    ensures SetIn(max, c, key, e).entries.Keys == keys - {order[0]} + {key}
  {
    assert |c.entries| == |c.entries.Keys|;
    assert c.order[..0] == [] && Without(c.entries, []) == c.entries;
    var m := MadeRoomEvicts(max, c, c, 0);
    FirstLiveGoes(c, MadeRoom(max, c), max, m);
    assert m == 1;
    assert MadeRoom(max, c).entries == c.entries - {order[0]};
  }

  lemma SetAgainShows(max: nat, a: string, b: string, e: Entry, start: Cache)
    requires max >= 3 && a != b && Shows(start, {}, [])
    ensures Shows(SetIn(max, SetIn(max, SetIn(max, start, a, e), b, e), a, e), {a, b}, [a, b, a])
  {
    SetShows(max, start, {}, [], a, e);
    var c1 := SetIn(max, start, a, e);
    SetShows(max, c1, {a}, [a], b, e);
    SetShows(max, SetIn(max, c1, b, e), {a, b}, [a, b], a, e);
    assert {a, b} + {a} == {a, b};
  }

  /** Setting a key again does not give up its old place: after a, b, a, c with room for three, setting d evicts a,
      although b was set before it. */
  lemma OldPlaceEvictsNewValue(a: string, b: string, c: string, d: string, e: Entry, start: Cache)
    requires a != b && c !in {a, b} && d !in {a, b, c} && Shows(start, {}, [])
    ensures SetIn(3, SetIn(3, SetIn(3, SetIn(3, SetIn(3, start, a, e), b, e), a, e), c, e), d, e).entries.Keys
         == {b, c, d}
  {
    SetAgainShows(3, a, b, e, start);
    ThenTwoMore(a, b, c, d, e, SetIn(3, SetIn(3, SetIn(3, start, a, e), b, e), a, e));
  }

  lemma ThenTwoMore(a: string, b: string, c: string, d: string, e: Entry, start: Cache)
    requires a != b && c !in {a, b} && d !in {a, b, c} && Shows(start, {a, b}, [a, b, a])
    ensures SetIn(3, SetIn(3, start, c, e), d, e).entries.Keys == {b, c, d}
  {
    SetShows(3, start, {a, b}, [a, b, a], c, e);
    FullSetShows(3, SetIn(3, start, c, e), {a, b, c}, [a, b, a, c], d, e);
    assert {a, b, c} - {a} + {d} == {b, c, d};
  }

  /** Setting a key that is there already also makes room: a, b, b with room for two drops a. */
  lemma OverwritingEvicts(a: string, b: string, e: Entry, start: Cache)
    requires a != b && Shows(start, {}, [])
    ensures SetIn(2, SetIn(2, SetIn(2, start, a, e), b, e), b, e).entries.Keys == {b}
  {
    SetShows(2, start, {}, [], a, e);
    SetShows(2, SetIn(2, start, a, e), {a}, [a], b, e);
    FullSetShows(2, SetIn(2, SetIn(2, start, a, e), b, e), {a, b}, [a, b], b, e);
  }

  /** Reading a key does not keep it: with room for two, set a, set b, read a, set c, and a is gone. */
  lemma ReadDoesNotKeep(a: string, b: string, c: string, e: Entry, now: int, start: Cache)
    requires a != b && c !in {a, b} && now <= e.expiresAt && Shows(start, {}, [])
    ensures var two := SetIn(2, SetIn(2, start, a, e), b, e);
            var read := AfterGet(two, a, now);
            read.stats.hits == two.stats.hits + 1 && SetIn(2, read, c, e).entries.Keys == {b, c}
  {
    SetShows(2, start, {}, [], a, e);
    var one := SetIn(2, start, a, e);
    assert |one.entries| == |one.entries.Keys|;
    SetShows(2, one, {a}, [a], b, e);
    var two := SetIn(2, one, b, e);
    assert two.entries[a] == e;
    FullSetShows(2, AfterGet(two, a, now), {a, b}, [a, b], c, e);
    assert {a, b} - {a} + {c} == {b, c};
  }

  // ---------------------------------------------------------------- Against least recently set and used

  /** Where the key stands last; -1 if nowhere. */
  function LastPlace(s: seq<string>, k: string): (p: int)
    ensures -1 <= p < |s|
  {
    if s == [] then -1 else if s[|s| - 1] == k then |s| - 1 else LastPlace(s[..|s| - 1], k)
  }

  lemma {:induction false} LastPlaceFacts(s: seq<string>, k: string)
    ensures LastPlace(s, k) >= 0 <==> k in s
    ensures LastPlace(s, k) >= 0 ==> s[LastPlace(s, k)] == k
    ensures forall j :: LastPlace(s, k) < j < |s| ==> s[j] != k
    decreases |s|
  {
    if s != [] && s[|s| - 1] != k {
      LastPlaceFacts(s[..|s| - 1], k);
      assert s == s[..|s| - 1] + [s[|s| - 1]];
    }
  }

  /** The latest of a key's Sets in the record, or of its Sets and hits; -1 if there is none. */
  function LastUse(log: seq<Use>, k: string, hitsToo: bool): (p: int)
    ensures -1 <= p < |log|
    ensures p >= 0 ==> log[p].key == k && (log[p].SetOf? || hitsToo)
    ensures forall j :: p < j < |log| && log[j].key == k ==> log[j].HitOf? && !hitsToo
  {
    if log == [] then -1
    else if log[|log| - 1].key == k && (log[|log| - 1].SetOf? || hitsToo) then |log| - 1
    else LastUse(log[..|log| - 1], k, hitsToo)
  }

  /** Of all live keys, `v` is the one whose latest Set lies furthest back. */
  ghost predicate LeastRecentlySet(entries: map<string, Entry>, log: seq<Use>, v: string) {
    forall k :: k in entries && k != v ==> LastUse(log, v, false) < LastUse(log, k, false)
  }

  /** Of all live keys, `v` is the one whose latest Set or hit lies furthest back, as LRU asks of a victim. */
  ghost predicate LeastRecentlyUsed(entries: map<string, Entry>, log: seq<Use>, v: string) {
    forall k :: k in entries && k != v ==> LastUse(log, v, true) < LastUse(log, k, true)
  }

  /** A hit of the key in the record from a place on. */
  ghost predicate HitFrom(log: seq<Use>, from: nat, k: string) {
    exists i :: from <= i < |log| && log[i] == HitOf(k)
  }

  predicate QueuedLater(order: seq<string>, v: string, k: string) {
    k in order[LastPlace(order, v) + 1..]
  }

  /** Every other live key has a place in the queue after the last one of `v`. */
  ghost predicate OthersQueuedLater(entries: map<string, Entry>, order: seq<string>, v: string) {
    forall k :: k in entries && k != v ==> QueuedLater(order, v, k)
  }

  /** A key was read after `v` was used last, or is queued after `v` with `v` not read since. */
  ghost predicate ReadOrQueuedLater(order: seq<string>, log: seq<Use>, v: string, k: string) {
    || HitFrom(log, LastUse(log, v, true) + 1, k)
    || (QueuedLater(order, v, k) && !HitFrom(log, LastUse(log, k, false) + 1, v))
  }

  ghost predicate OthersUsedLater(entries: map<string, Entry>, order: seq<string>, log: seq<Use>, v: string) {
    forall k :: k in entries && k != v ==> ReadOrQueuedLater(order, log, v, k)
  }

  lemma {:induction false} LastPlaceAfter(front: seq<string>, order: seq<string>, k: string)
    requires k in order
    ensures LastPlace(front + order, k) == |front| + LastPlace(order, k)
    decreases |order|
  {
    var last := |order| - 1;
    assert (front + order)[|front| + last] == order[last];
    if order[last] != k {
      assert (front + order)[..|front| + last] == front + order[..last];
      assert order == order[..last] + [order[last]];
      LastPlaceAfter(front, order[..last], k);
    }
  }

  /** A key in the queue was set last where its last place in the queue says. */
  lemma LastPlaceInSets(order: seq<string>, keys: seq<string>, k: string)
    requires Recorded(order, keys) && k in order
    ensures LastPlace(keys, k) == |keys| - |order| + LastPlace(order, k)
  {
    var front := keys[..|keys| - |order|];
    assert keys == front + order;
    LastPlaceAfter(front, order, k);
  }

  /** The Sets stand in the record as they do among themselves. */
  lemma {:induction false} SetOrder(log: seq<Use>, v: string, k: string)
    requires k != v
    ensures LastUse(log, v, false) < LastUse(log, k, false) <==> LastPlace(SetKeys(log), v) < LastPlace(SetKeys(log), k)
    decreases |log|
  {
    if log != [] {
      SetOrder(log[..|log| - 1], v, k);
      var keys := SetKeys(log[..|log| - 1]);
      if log[|log| - 1].SetOf? {
        assert SetKeys(log) == keys + [log[|log| - 1].key];
        assert SetKeys(log)[..|SetKeys(log)| - 1] == keys;
      } else {
        assert SetKeys(log) == keys;
      }
    }
  }

  lemma LaterMember(s: seq<string>, from: nat, k: string)
    requires from <= |s|
    ensures k in s[from..] <==> LastPlace(s, k) >= from
  {
    LastPlaceFacts(s, k);
    if k in s[from..] {
      var j :| 0 <= j < |s| - from && s[from..][j] == k;
      assert s[from + j] == k;
    }
    if LastPlace(s, k) >= from {
      assert s[from..][LastPlace(s, k) - from] == k;
    }
  }

  /** Of two keys in the queue, the one with the later last place was set later. */
  lemma QueueShowsSets(order: seq<string>, log: seq<Use>, v: string, k: string)
    requires Recorded(order, SetKeys(log)) && v in order && k in order && k != v
    ensures QueuedLater(order, v, k) <==> LastUse(log, v, false) < LastUse(log, k, false)
  {
    SetOrder(log, v, k);
    LastPlaceInSets(order, SetKeys(log), v);
    LastPlaceInSets(order, SetKeys(log), k);
    LastPlaceFacts(order, k);
    LaterMember(order, LastPlace(order, v) + 1, k);
  }

  /** A full cache evicts the least recently set key exactly when every other live key has a place in the queue after
      the victim's last one; a key with an older place in front makes the difference. */
  lemma EvictsLeastRecentlySetExactly(max: nat, w: World, mid: Cache, m: nat)
    requires 0 < max && Inv(max, w) && |w.cache.entries| == max && Evicted(w.cache, mid, max, m)
    ensures var victim := FirstLive(w.cache.entries, w.cache.order);
            && victim.Some? && mid.entries == w.cache.entries - {victim.value}
            && (LeastRecentlySet(w.cache.entries, w.log, victim.value)
                <==> OthersQueuedLater(w.cache.entries, w.cache.order, victim.value))
  {
    FirstLiveGoes(w.cache, mid, max, m);
    var v := FirstLive(w.cache.entries, w.cache.order).value;
    forall k | k in w.cache.entries && k != v
      ensures QueuedLater(w.cache.order, v, k) <==> LastUse(w.log, v, false) < LastUse(w.log, k, false)
    {
      QueueShowsSets(w.cache.order, w.log, v, k);
    }
  }

  lemma UsedLater(order: seq<string>, log: seq<Use>, v: string, k: string)
    requires Recorded(order, SetKeys(log)) && v in order && k in order && k != v
    ensures ReadOrQueuedLater(order, log, v, k) <==> LastUse(log, v, true) < LastUse(log, k, true)
  {
    QueueShowsSets(order, log, v, k);
    var p := LastUse(log, k, true);
    if LastUse(log, v, true) < p && log[p].HitOf? {
      assert log[p] == HitOf(k);
    }
  }

  /** And it evicts the least recently used key exactly when every other live key was read after the victim's last
      use, or is queued after the victim with the victim not read since. */
  lemma EvictsLeastRecentlyUsedExactly(max: nat, w: World, mid: Cache, m: nat)
    requires 0 < max && Inv(max, w) && |w.cache.entries| == max && Evicted(w.cache, mid, max, m)
    ensures var victim := FirstLive(w.cache.entries, w.cache.order);
            && victim.Some? && mid.entries == w.cache.entries - {victim.value}
            && (LeastRecentlyUsed(w.cache.entries, w.log, victim.value)
                <==> OthersUsedLater(w.cache.entries, w.cache.order, w.log, victim.value))
  {
    FirstLiveGoes(w.cache, mid, max, m);
    var v := FirstLive(w.cache.entries, w.cache.order).value;
    forall k | k in w.cache.entries && k != v
      ensures ReadOrQueuedLater(w.cache.order, w.log, v, k) <==> LastUse(w.log, v, true) < LastUse(w.log, k, true)
    {
      UsedLater(w.cache.order, w.log, v, k);
    }
  }
}
