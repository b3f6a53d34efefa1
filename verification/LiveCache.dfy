/**
 The snapshot cache of the live-records service (src/firelens/live.py:73-123 and 194-211): an
 ordered dictionary bounded by its number of entries and by the total number of stored features.
 */
module LiveCache {
  import opened Wrappers
  import opened LiveRecords
  import opened LivePagination

  /** A WGS84 envelope in exact decimals. */
  datatype Box = Box(west: real, south: real, east: real, north: real)

  datatype Key = Key(kind: Kind, box: Option<Box>)

  datatype Entry = Entry(fetched: real, retrievedAt: int, sourceUpdatedAt: int, features: seq<Feature>)

  datatype Slot = Slot(key: Key, entry: Entry)

  datatype Bounds = Bounds(maxEntries: nat, maxFeatures: nat)

  // ---------- the cache as a list of slots, least recently used first ----------

  function Weight(slots: seq<Slot>): nat {
    if slots == [] then 0 else |slots[0].entry.features| + Weight(slots[1..])
  }

  function Find(slots: seq<Slot>, key: Key): Option<Entry> {
    if slots == [] then None
    else if slots[0].key == key then Some(slots[0].entry)
    else Find(slots[1..], key)
  }

  function Without(slots: seq<Slot>, key: Key): seq<Slot> {
    if slots == [] then []
    else if slots[0].key == key then slots[1..]
    else [slots[0]] + Without(slots[1..], key)
  }

  predicate Fits(slots: seq<Slot>, bounds: Bounds) {
    |slots| <= bounds.maxEntries && Weight(slots) <= bounds.maxFeatures
  }

  /** Drop slots from the front until both bounds hold. */
  function Evict(slots: seq<Slot>, bounds: Bounds): seq<Slot> {
    if Fits(slots, bounds) then slots else Evict(slots[1..], bounds)
  }

  /** A lookup makes the slot it finds the most recently used one. */
  function Touch(slots: seq<Slot>, key: Key): seq<Slot> {
    match Find(slots, key)
    case None => slots
    case Some(entry) => Without(slots, key) + [Slot(key, entry)]
  }

  function Store(slots: seq<Slot>, key: Key, entry: Entry, bounds: Bounds): seq<Slot> {
    Evict(Without(slots, key) + [Slot(key, entry)], bounds)
  }

  ghost predicate DistinctKeys(slots: seq<Slot>) {
    forall i, j :: 0 <= i < j < |slots| ==> slots[i].key != slots[j].key
  }

  lemma {:induction false} WeightAppend(a: seq<Slot>, b: seq<Slot>)
    ensures Weight(a + b) == Weight(a) + Weight(b)
  {
    if a == [] {
      assert a + b == b;
    } else {
      assert (a + b)[1..] == a[1..] + b;
      WeightAppend(a[1..], b);
    }
  }

  /** Removing a key removes one slot: its weight goes and the order of the others stays. */
  lemma {:induction false} WithoutRemoves(slots: seq<Slot>, key: Key)
    requires DistinctKeys(slots)
    ensures
      var rest := Without(slots, key);
      match Find(slots, key)
      case None => rest == slots && forall s :: s in slots ==> s.key != key
      case Some(entry) =>
        && Slot(key, entry) in slots
        && |rest| == |slots| - 1 && Weight(rest) + |entry.features| == Weight(slots)
    ensures forall s :: s in Without(slots, key) <==> s in slots && s.key != key
  {
    if slots != [] {
      assert forall s :: s in slots[1..] ==> s.key != slots[0].key;
      if slots[0].key != key {
        WithoutRemoves(slots[1..], key);
      }
    }
  }

  /** Whatever relates the slots in order still relates them when one slot is removed. */
  lemma {:induction false} WithoutOrdered(slots: seq<Slot>, key: Key, r: (Slot, Slot) -> bool)
    requires forall i, j :: 0 <= i < j < |slots| ==> r(slots[i], slots[j])
    requires DistinctKeys(slots)
    ensures
      var rest := Without(slots, key);
      forall i, j :: 0 <= i < j < |rest| ==> r(rest[i], rest[j])
  {
    if slots != [] && slots[0].key != key {
      WithoutOrdered(slots[1..], key, r);
      WithoutRemoves(slots[1..], key);
      var rest := Without(slots[1..], key);
      forall j | 0 <= j < |rest| ensures r(slots[0], rest[j]) {
        assert rest[j] in slots[1..];
      }
    }
  }

  // ---------- the service's own cache ----------

  /** The keyword arguments of `LiveDataService(...)`; a Python integer may be negative. */
  datatype Options = Options(
    freshSeconds: real,
    staleIfErrorSeconds: real,
    maxPages: int,
    maxRecords: int,
    maxFeatureBytes: int,
    maxResponseBytes: int,
    maxUpstreamBytes: int,
    maxCacheEntries: int,
    maxCachedFeatures: int,
    bboxGrid: real,
    maxConcurrency: int
  ) {
    /** Every limit is positive, each larger one covers the smaller, and the grid and the concurrency are in range. */
    predicate Consistent() {
      && maxPages >= 1 && maxRecords >= 1
      && 1 <= maxFeatureBytes <= maxResponseBytes <= maxUpstreamBytes
      && maxCacheEntries >= 1 && maxCachedFeatures >= maxRecords
      && 0.01 <= bboxGrid <= 1.0 && 1 <= maxConcurrency <= 16
    }

    function CacheBounds(): Bounds
      requires Consistent()
    {
      Bounds(maxCacheEntries, maxCachedFeatures)
    }

    function PagingLimits(): Limits
      requires Consistent()
    {
      Limits(maxPages, maxRecords, maxFeatureBytes, maxResponseBytes)
    }
  }

  class LiveDataService {
    const options: Options
    const bounds: Bounds
    var cache: seq<Slot>
    var cachedFeatureCount: int

    ghost predicate Valid()
      reads this
    {
      && options.Consistent() && bounds == options.CacheBounds()
      && DistinctKeys(cache)
      && Fits(cache, bounds)
      && cachedFeatureCount == Weight(cache)
    }

    constructor (options: Options)
      requires options.Consistent()
      ensures Valid() && cache == [] && this.options == options
    {
      this.options := options;
      bounds := options.CacheBounds();
      cache, cachedFeatureCount := [], 0;
    }

    method CacheGet(key: Key) returns (entry: Option<Entry>)
      requires Valid()
      modifies this
      ensures Valid()
      ensures entry == Find(old(cache), key) && cache == Touch(old(cache), key)
    {
      entry := Find(cache, key);
      if entry.Some? {
        TouchKeepsValid(cache, key, bounds);
        cache := Without(cache, key) + [Slot(key, entry.value)];
      }
    }

    method CachePut(key: Key, entry: Entry)
      requires Valid()
      modifies this
      ensures Valid()
      ensures cache == Store(old(cache), key, entry, bounds)
    {
      var previous := Find(cache, key);
      WithoutRemoves(cache, key);
      ghost var rest := Without(cache, key);
      if previous.Some? {
        cache := Without(cache, key);
        cachedFeatureCount := cachedFeatureCount - |previous.value.features|;
      }
      cache := cache + [Slot(key, entry)];
      cachedFeatureCount := cachedFeatureCount + |entry.features|;
      StoreKeepsDistinct(old(cache), key, entry);
      WeightAppend(rest, [Slot(key, entry)]);
      assert Weight([Slot(key, entry)]) == |entry.features| + Weight([Slot(key, entry)][1..]);
      while |cache| > bounds.maxEntries || cachedFeatureCount > bounds.maxFeatures
        invariant DistinctKeys(cache) && cachedFeatureCount == Weight(cache)
        invariant Evict(cache, bounds) == Store(old(cache), key, entry, bounds)
        decreases |cache|
      {
        cachedFeatureCount := cachedFeatureCount - |cache[0].entry.features|;
        cache := cache[1..];
      }
    }
  }

  /** `LiveDataService(...)`: inconsistent options raise instead of building a service. */
  method CreateService(options: Options) returns (service: Option<LiveDataService>)
    ensures service.Some? <==> options.Consistent()
    ensures service.Some? <==>
            && options.maxPages > 0 && options.maxRecords > 0 && options.maxFeatureBytes > 0
            && options.maxResponseBytes >= options.maxFeatureBytes
            && options.maxUpstreamBytes >= options.maxResponseBytes
            && options.maxCacheEntries > 0 && options.maxCachedFeatures >= options.maxRecords
            && 0.01 <= options.bboxGrid && options.bboxGrid <= 1.0
            && 0 < options.maxConcurrency && options.maxConcurrency < 17
    ensures service.Some? ==>
              && fresh(service.value) && service.value.Valid()
              && service.value.cache == [] && service.value.options == options
  {
    if options.maxPages < 1 || options.maxRecords < 1 || options.maxFeatureBytes < 1 {
      return None;
    }
    if options.maxResponseBytes < options.maxFeatureBytes || options.maxUpstreamBytes < options.maxResponseBytes {
      return None;
    }
    if options.maxCacheEntries < 1 || options.maxCachedFeatures < options.maxRecords {
      return None;
    }
    if options.bboxGrid < 0.01 || options.bboxGrid > 1.0 || options.maxConcurrency < 1 || options.maxConcurrency > 16 {
      return None;
    }
    var built := new LiveDataService(options);
    return Some(built);
  }

  lemma {:induction false} TouchKeepsValid(slots: seq<Slot>, key: Key, bounds: Bounds)
    requires DistinctKeys(slots)
    ensures DistinctKeys(Touch(slots, key))
    ensures |Touch(slots, key)| == |slots| && Weight(Touch(slots, key)) == Weight(slots)
  {
    WithoutRemoves(slots, key);
    if Find(slots, key).Some? {
      var entry := Find(slots, key).value;
      StoreKeepsDistinct(slots, key, entry);
      WeightAppend(Without(slots, key), [Slot(key, entry)]);
      assert Weight([Slot(key, entry)]) == |entry.features| + Weight([Slot(key, entry)][1..]);
    }
  }

  lemma {:induction false} StoreKeepsDistinct(slots: seq<Slot>, key: Key, entry: Entry)
    requires DistinctKeys(slots)
    ensures DistinctKeys(Without(slots, key) + [Slot(key, entry)])
  {
    var rest := Without(slots, key);
    WithoutRemoves(slots, key);
    WithoutOrdered(slots, key, (a: Slot, b: Slot) => a.key != b.key);
    forall i | 0 <= i < |rest| ensures rest[i].key != key {
      assert rest[i] in rest;
    }
  }
}
