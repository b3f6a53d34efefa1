/**
 Whole runs of the snapshot cache (src/firelens/live.py:194-211): what is resident after any
 series of lookups and stores, and what a store evicts.
 */
module CacheRuns {
  import opened Wrappers
  import opened Sequences
  import opened LiveRecords
  import opened LivePagination
  import opened LiveCache
  import opened SnapshotRules

  datatype Op = Get(key: Key) | Put(key: Key, entry: Entry)

  function Apply(slots: seq<Slot>, op: Op, bounds: Bounds): seq<Slot> {
    match op
    case Get(key) => Touch(slots, key)
    case Put(key, entry) => Store(slots, key, entry, bounds)
  }

  function Run(ops: seq<Op>, bounds: Bounds): seq<Slot> {
    if ops == [] then [] else Apply(Run(ops[..|ops| - 1], bounds), ops[|ops| - 1], bounds)
  }

  /** One more than the position of the last operation on a key, 0 if there is none. */
  function LastUse(ops: seq<Op>, key: Key): (n: nat)
    ensures n <= |ops|
  {
    if ops == [] then 0
    else if ops[|ops| - 1].key == key then |ops|
    else LastUse(ops[..|ops| - 1], key)
  }

  function LastStored(ops: seq<Op>, key: Key): Option<Entry> {
    if ops == [] then None
    else if ops[|ops| - 1].Put? && ops[|ops| - 1].key == key then Some(ops[|ops| - 1].entry)
    else LastStored(ops[..|ops| - 1], key)
  }

  // ---------- one store ----------

  /** Eviction removes a shortest prefix: the rest fits, and no longer rest would. */
  lemma {:induction false} EvictionIsMinimal(slots: seq<Slot>, bounds: Bounds) returns (d: nat)
    ensures d <= |slots| && Evict(slots, bounds) == slots[d..] && Fits(slots[d..], bounds)
    ensures forall e: nat :: e < d ==> !Fits(slots[e..], bounds)
  {
    if Fits(slots, bounds) {
      d := 0;
      assert slots[0..] == slots;
    } else {
      var k := EvictionIsMinimal(slots[1..], bounds);
      d := k + 1;
      assert slots[1..][k..] == slots[d..];
      forall e: nat | e < d ensures !Fits(slots[e..], bounds) {
        if e == 0 {
          assert slots[0..] == slots;
        } else {
          assert slots[1..][e - 1..] == slots[e..];
        }
      }
    }
  }

  /** The entry just stored survives its own eviction loop exactly when it fits the feature bound by itself. */
  lemma {:induction false} StoredEntrySurvivesIff(slots: seq<Slot>, key: Key, entry: Entry, bounds: Bounds)
    requires DistinctKeys(slots) && bounds.maxEntries >= 1
    ensures Find(Store(slots, key, entry, bounds), key) ==
            if |entry.features| <= bounds.maxFeatures then Some(entry) else None
  {
    var rest, slot := Without(slots, key), Slot(key, entry);
    var full := rest + [slot];
    var d := EvictionIsMinimal(full, bounds);
    assert full[|rest|..] == [slot];
    assert Weight([slot]) == |entry.features| + Weight([slot][1..]);
    WithoutRemoves(slots, key);
    if |entry.features| <= bounds.maxFeatures {
      assert Fits(full[|rest|..], bounds);
      assert full[d..] == rest[d..] + [slot];
      FindLast(rest[d..], slot);
    } else if d <= |rest| {
      assert full[d..] == rest[d..] + [slot];
      WeightAppend(rest[d..], [slot]);
    }
  }

  lemma {:induction false} FindLast(rest: seq<Slot>, slot: Slot)
    requires forall s :: s in rest ==> s.key != slot.key
    ensures Find(rest + [slot], slot.key) == Some(slot.entry)
  {
    if rest != [] {
      assert (rest + [slot])[1..] == rest[1..] + [slot];
      FindLast(rest[1..], slot);
    }
  }

  /**
   Every snapshot that `_refresh` accepts survives being stored, because consistent options have
   `max_cached_features >= max_records` and paging enforces the record limit.
   */
  lemma {:induction false} RefreshedSnapshotSurvives(
    u: Upstream, options: Options, slots: seq<Slot>, key: Key, entry: Entry
  )
    requires DistinctKeys(slots) && options.Consistent()
    requires Collect(u, START, options.maxPages, options.PagingLimits(), true) == Ok(entry.features)
    ensures Find(Store(slots, key, entry, options.CacheBounds()), key) == Some(entry)
  {
    SnapshotAcceptedIff(u, options.PagingLimits());
    StoredEntrySurvivesIff(slots, key, entry, options.CacheBounds());
  }

  /** And it keeps the limits the service was built with. */
  lemma {:induction false} RefreshedSnapshotIsBounded(u: Upstream, options: Options, rows: seq<Feature>)
    requires options.Consistent()
    requires Collect(u, START, options.maxPages, options.PagingLimits(), true) == Ok(rows)
    ensures |rows| <= options.maxRecords <= options.maxCachedFeatures
    ensures forall f :: f in rows ==> f.geometry.bytes <= options.maxFeatureBytes
    ensures SumOf(Sizes(rows)) <= options.maxResponseBytes
    ensures options.CacheBounds() == Bounds(options.maxCacheEntries, options.maxCachedFeatures)
  {
    AcceptedSnapshotIsBounded(u, options.PagingLimits());
  }

  // ---------- whole runs ----------

  /** Least recently used first, and every slot holds what was last stored under its key. */
  ghost predicate Explains(ops: seq<Op>, slots: seq<Slot>) {
    && DistinctKeys(slots)
    && (forall i, j :: 0 <= i < j < |slots| ==> LastUse(ops, slots[i].key) < LastUse(ops, slots[j].key))
    && (forall s :: s in slots ==> LastStored(ops, s.key) == Some(s.entry))
  }

  lemma {:induction false} OneMoreOp(ops: seq<Op>, op: Op, key: Key)
    ensures LastUse(ops + [op], key) == if op.key == key then |ops| + 1 else LastUse(ops, key)
    ensures LastStored(ops + [op], key) ==
            if op.Put? && op.key == key then Some(op.entry) else LastStored(ops, key)
  {
    assert (ops + [op])[..|ops|] == ops;
  }

  /** A slot used last goes behind slots that were in order before. */
  lemma {:induction false} PromotedInOrder(ops: seq<Op>, op: Op, rest: seq<Slot>, slot: Slot, i: nat, j: nat)
    requires i < j <= |rest| && slot.key == op.key && rest[i].key != op.key
    requires j < |rest| ==> rest[j].key != op.key && LastUse(ops, rest[i].key) < LastUse(ops, rest[j].key)
    ensures
      var full := rest + [slot];
      LastUse(ops + [op], full[i].key) < LastUse(ops + [op], full[j].key)
  {
    OneMoreOp(ops, op, rest[i].key);
    OneMoreOp(ops, op, if j < |rest| then rest[j].key else slot.key);
  }

  lemma {:induction false} PromotionKeepsOrder(ops: seq<Op>, slots: seq<Slot>, op: Op, slot: Slot)
    requires Explains(ops, slots) && slot.key == op.key
    ensures
      var full := Without(slots, op.key) + [slot];
      forall i, j :: 0 <= i < j < |full| ==> LastUse(ops + [op], full[i].key) < LastUse(ops + [op], full[j].key)
  {
    var rest := Without(slots, op.key);
    var full := rest + [slot];
    WithoutRemoves(slots, op.key);
    WithoutOrdered(slots, op.key, (a: Slot, b: Slot) => LastUse(ops, a.key) < LastUse(ops, b.key));
    assert forall i :: 0 <= i < |rest| ==> rest[i] in rest;
    forall i, j | 0 <= i < j < |full| ensures LastUse(ops + [op], full[i].key) < LastUse(ops + [op], full[j].key) {
      PromotedInOrder(ops, op, rest, slot, i, j);
    }
  }

  lemma {:induction false} PromotionKeepsContents(ops: seq<Op>, slots: seq<Slot>, op: Op, s: Slot)
    requires Explains(ops, slots) && s in Without(slots, op.key)
    ensures LastStored(ops + [op], s.key) == Some(s.entry)
  {
    WithoutRemoves(slots, op.key);
    OneMoreOp(ops, op, s.key);
  }

  /** Moving or adding one slot to the back. */
  lemma {:induction false} PromoteExplained(ops: seq<Op>, slots: seq<Slot>, op: Op, entry: Entry)
    requires Explains(ops, slots)
    requires op.Put? ==> entry == op.entry
    requires op.Get? ==> Find(slots, op.key) == Some(entry)
    ensures Explains(ops + [op], Without(slots, op.key) + [Slot(op.key, entry)])
  {
    var slot := Slot(op.key, entry);
    PromotionKeepsOrder(ops, slots, op, slot);
    StoreKeepsDistinct(slots, op.key, entry);
    forall s | s in Without(slots, op.key) + [slot] ensures LastStored(ops + [op], s.key) == Some(s.entry) {
      if s == slot {
        PromotedContents(ops, slots, op, entry);
      } else {
        PromotionKeepsContents(ops, slots, op, s);
      }
    }
  }

  lemma {:induction false} PromotedContents(ops: seq<Op>, slots: seq<Slot>, op: Op, entry: Entry)
    requires Explains(ops, slots)
    requires op.Put? ==> entry == op.entry
    requires op.Get? ==> Find(slots, op.key) == Some(entry)
    ensures LastStored(ops + [op], op.key) == Some(entry)
  {
    WithoutRemoves(slots, op.key);
    OneMoreOp(ops, op, op.key);
  }

  lemma {:induction false} SuffixExplained(ops: seq<Op>, slots: seq<Slot>, d: nat)
    requires Explains(ops, slots) && d <= |slots|
    ensures Explains(ops, slots[d..])
  {
    assert forall i :: 0 <= i < |slots[d..]| ==> slots[d..][i] == slots[d + i];
  }

  /**
   After any run the cache fits both bounds, lists its keys from least to most recently used, and
   holds for every resident key the entry stored last.
   */
  lemma {:induction false} RunExplained(ops: seq<Op>, bounds: Bounds)
    ensures Explains(ops, Run(ops, bounds)) && Fits(Run(ops, bounds), bounds)
  {
    if ops != [] {
      var before, op := ops[..|ops| - 1], ops[|ops| - 1];
      var slots := Run(before, bounds);
      RunExplained(before, bounds);
      assert ops == before + [op];
      match op {
        case Get(key) =>
          TouchKeepsValid(slots, key, bounds);
          if Find(slots, key).Some? {
            PromoteExplained(before, slots, op, Find(slots, key).value);
          } else {
            MissExplained(before, slots, op);
          }
        case Put(key, entry) =>
          PromoteExplained(before, slots, op, entry);
          var full := Without(slots, key) + [Slot(key, entry)];
          var d := EvictionIsMinimal(full, bounds);
          SuffixExplained(ops, full, d);
      }
    }
  }

  /** The weight of a cache is the number of features in all its entries. */
  lemma {:induction false} WeightIsSum(slots: seq<Slot>, sizes: seq<nat>)
    requires |sizes| == |slots| && forall i :: 0 <= i < |slots| ==> sizes[i] == |slots[i].entry.features|
    ensures Weight(slots) == SumOf(sizes)
  {
    if slots != [] {
      var n := |slots| - 1;
      WeightIsSum(slots[..n], sizes[..n]);
      assert slots == slots[..n] + [slots[n]];
      WeightAppend(slots[..n], [slots[n]]);
      assert Weight([slots[n]]) == |slots[n].entry.features| + Weight([slots[n]][1..]);
    }
  }

  /** After any run at most so many entries, with at most so many features in all, are stored. */
  lemma {:induction false} RunStaysBounded(ops: seq<Op>, bounds: Bounds, sizes: seq<nat>)
    requires |sizes| == |Run(ops, bounds)|
    requires forall i :: 0 <= i < |sizes| ==> sizes[i] == |Run(ops, bounds)[i].entry.features|
    ensures |Run(ops, bounds)| <= bounds.maxEntries && SumOf(sizes) <= bounds.maxFeatures
  {
    RunExplained(ops, bounds);
    WeightIsSum(Run(ops, bounds), sizes);
  }

  /** A lookup keeps all entries, and the one it finds becomes the most recent. */
  lemma {:induction false} LookupKeepsEntries(ops: seq<Op>, key: Key, bounds: Bounds)
    ensures
      var before, after := Run(ops, bounds), Run(ops + [Get(key)], bounds);
      && |after| == |before| && (forall s :: s in after <==> s in before)
      && forall s :: s in before && s.key == key ==> after[|after| - 1] == s
  {
    var slots := Run(ops, bounds);
    assert (ops + [Get(key)])[..|ops|] == ops;
    RunExplained(ops, bounds);
    WithoutRemoves(slots, key);
    forall s | s in slots && s.key == key ensures Find(slots, key) == Some(s.entry) {
      FoundIs(slots, s);
    }
  }

  lemma {:induction false} FoundIs(slots: seq<Slot>, s: Slot)
    requires DistinctKeys(slots) && s in slots
    ensures Find(slots, s.key) == Some(s.entry)
  {
    if slots[0] != s {
      var i :| 0 <= i < |slots| && slots[i] == s;
      FoundIs(slots[1..], s);
    }
  }

  /** A store adds its entry if that can be held at all, and nothing else that was not there. */
  lemma {:induction false} StoredIff(slots: seq<Slot>, key: Key, entry: Entry, bounds: Bounds)
    requires DistinctKeys(slots) && DistinctKeys(Store(slots, key, entry, bounds)) && bounds.maxEntries > 0
    ensures Slot(key, entry) in Store(slots, key, entry, bounds) <==> |entry.features| <= bounds.maxFeatures
  {
    var after := Store(slots, key, entry, bounds);
    StoredEntrySurvivesIff(slots, key, entry, bounds);
    WithoutRemoves(after, key);
    if Slot(key, entry) in after {
      FoundIs(after, Slot(key, entry));
    }
  }

  lemma {:induction false} StoredFrom(slots: seq<Slot>, key: Key, entry: Entry, bounds: Bounds, s: Slot)
    requires DistinctKeys(slots) && s in Store(slots, key, entry, bounds)
    ensures s == Slot(key, entry) || (s in slots && s.key != key)
  {
    WithoutRemoves(slots, key);
    var d := EvictionIsMinimal(Without(slots, key) + [Slot(key, entry)], bounds);
  }

  /** With room left nothing is evicted. */
  lemma {:induction false} RoomKeepsAll(slots: seq<Slot>, key: Key, entry: Entry, bounds: Bounds)
    requires DistinctKeys(slots)
    requires |slots| < bounds.maxEntries && Weight(slots) + |entry.features| <= bounds.maxFeatures
    ensures Store(slots, key, entry, bounds) == Without(slots, key) + [Slot(key, entry)]
  {
    var slot := Slot(key, entry);
    WithoutRemoves(slots, key);
    WeightAppend(Without(slots, key), [slot]);
    assert Weight([slot]) == |entry.features| + Weight([slot][1..]);
  }

  /** A store that leaves room evicts nothing, and whatever it evicts, the new entry is there if it can be. */
  lemma {:induction false} StoreKeepsEntries(ops: seq<Op>, key: Key, entry: Entry, bounds: Bounds)
    requires bounds.maxEntries > 0
    ensures
      var before, after := Run(ops, bounds), Run(ops + [Put(key, entry)], bounds);
      && (Slot(key, entry) in after <==> |entry.features| <= bounds.maxFeatures)
      && (forall s :: s in after ==> s == Slot(key, entry) || (s in before && s.key != key))
      && (|before| < bounds.maxEntries && Weight(before) + |entry.features| <= bounds.maxFeatures ==>
            forall s :: s in before && s.key != key ==> s in after)
  {
    var slots := Run(ops, bounds);
    assert (ops + [Put(key, entry)])[..|ops|] == ops;
    RunExplained(ops, bounds);
    RunExplained(ops + [Put(key, entry)], bounds);
    StoredIff(slots, key, entry, bounds);
    forall s | s in Store(slots, key, entry, bounds) ensures s == Slot(key, entry) || (s in slots && s.key != key) {
      StoredFrom(slots, key, entry, bounds, s);
    }
    if |slots| < bounds.maxEntries && Weight(slots) + |entry.features| <= bounds.maxFeatures {
      RoomKeepsAll(slots, key, entry, bounds);
      WithoutRemoves(slots, key);
    }
  }

  lemma {:induction false} MissExplained(ops: seq<Op>, slots: seq<Slot>, op: Op)
    requires Explains(ops, slots) && op.Get? && Find(slots, op.key).None?
    ensures Explains(ops + [op], slots)
  {
    WithoutRemoves(slots, op.key);
    forall s | s in slots
      ensures LastUse(ops + [op], s.key) == LastUse(ops, s.key)
      ensures LastStored(ops + [op], s.key) == Some(s.entry)
    {
      OneMoreOp(ops, op, s.key);
    }
    assert forall i :: 0 <= i < |slots| ==> slots[i] in slots;
  }

  lemma {:induction false} PrefixUsedEarlier(ops: seq<Op>, slots: seq<Slot>, d: nat, gone: Slot, kept: Slot)
    requires Explains(ops, slots) && d <= |slots|
    requires gone in slots && gone !in slots[d..] && kept in slots[d..]
    ensures LastUse(ops, gone.key) < LastUse(ops, kept.key)
  {
    assert forall k :: d <= k < |slots| ==> slots[k] in slots[d..];
    var i :| 0 <= i < |slots| && slots[i] == gone;
    var j :| d <= j < |slots| && slots[j] == kept;
  }

  /** A store evicts only entries that were used less recently than every entry it leaves resident. */
  lemma {:induction false} EvictionIsLeastRecentlyUsed(
    ops: seq<Op>, key: Key, entry: Entry, bounds: Bounds, gone: Slot, kept: Slot
  )
    requires gone in Run(ops, bounds) && gone.key != key
    requires gone !in Run(ops + [Put(key, entry)], bounds) && kept in Run(ops + [Put(key, entry)], bounds)
    ensures LastUse(ops + [Put(key, entry)], gone.key) < LastUse(ops + [Put(key, entry)], kept.key)
  {
    var op := Put(key, entry);
    var ops', slots := ops + [op], Run(ops, bounds);
    assert ops'[..|ops|] == ops;
    RunExplained(ops, bounds);
    PromoteExplained(ops, slots, op, entry);
    WithoutRemoves(slots, key);
    var full := Without(slots, key) + [Slot(key, entry)];
    var d := EvictionIsMinimal(full, bounds);
    assert gone in full;
    PrefixUsedEarlier(ops', full, d, gone, kept);
  }
}
