/**
 Safety of every interleaving of `_features` calls (src/firelens/live.py:365-412): one refresh per
 kind at a time, honest FRESH and STALE labels, and no second refresh inside the fresh window.
 */
module LiveAccessRuns {
  import opened Wrappers
  import opened Sequences
  import opened LiveRecords
  import opened LiveCache
  import opened LiveAccess

  // ---------- every action keeps the invariant ----------

  lemma {:induction false} AppendFrame(log: seq<Event>, e: Event)
    ensures forall key :: Resident(log + [e], key) ==
                          if e.Finished? && e.key == key then Some(e.entry)
                          else if e.Evicted? && e.key == key then None
                          else Resident(log, key)
    ensures forall kind :: InFlight(log + [e], kind) ==
                           if e.Started? && e.key.kind == kind then Some(e.id)
                           else if (e.Finished? || e.Failed? || e.Cancelled?) && e.key.kind == kind then None
                           else InFlight(log, kind)
  {
    assert (log + [e])[..|log|] == log;
  }

  lemma {:induction false} TouchKeepsCache(s: State, key: Key)
    requires DistinctKeys(s.cache)
    ensures DistinctKeys(Touch(s.cache, key))
    ensures forall other :: Find(Touch(s.cache, key), other) == Find(s.cache, other)
  {
    TouchKeepsValid(s.cache, key, Bounds(0, 0));
    forall other ensures Find(Touch(s.cache, key), other) == Find(s.cache, other) {
      TouchFinds(s.cache, key, other);
    }
  }

  lemma {:induction false} CallKeeps(s: State, id: TaskId, key: Key, cfg: Settings)
    requires Invariant(s, cfg) && id !in s.tasks
    ensures Invariant(OnCall(s, id, key, cfg), cfg)
  {
    TouchKeepsCache(s, key);
    var cached := Find(s.cache, key);
    if Within(cached, s.now, cfg.freshSeconds) {
      var e := Returned(id, key, cached.value, Fresh, s.now);
      AppendFrame(s.log, e);
      Appended(s.log, e, cfg);
    }
  }

  lemma {:induction false} AcquireReturns(s: State, id: TaskId, cfg: Settings)
    requires Invariant(s, cfg) && Enabled(s, Acquire(id))
    requires Within(Find(s.cache, s.tasks[id].key), s.now, cfg.freshSeconds)
    ensures Invariant(OnAcquire(s, id, s.tasks[id].key, cfg), cfg)
  {
    var key := s.tasks[id].key;
    TouchKeepsCache(s, key);
    var e := Returned(id, key, Find(s.cache, key).value, Fresh, s.now);
    AppendFrame(s.log, e);
    Appended(s.log, e, cfg);
  }

  ghost predicate Starts(s: State, id: TaskId, cfg: Settings) {
    && Invariant(s, cfg) && Enabled(s, Acquire(id))
    && !Within(Find(s.cache, s.tasks[id].key), s.now, cfg.freshSeconds)
  }

  lemma {:induction false} StartLocks(s: State, id: TaskId, cfg: Settings)
    requires Starts(s, id, cfg)
    ensures LocksMatchTasks(OnAcquire(s, id, s.tasks[id].key, cfg))
  {
  }

  lemma {:induction false} StartMatches(s: State, id: TaskId, cfg: Settings)
    requires Starts(s, id, cfg)
    ensures LogMatchesState(OnAcquire(s, id, s.tasks[id].key, cfg))
  {
    var key := s.tasks[id].key;
    TouchKeepsCache(s, key);
    AppendFrame(s.log, Started(id, key, s.now));
  }

  lemma {:induction false} StartJustified(s: State, id: TaskId, cfg: Settings)
    requires Starts(s, id, cfg)
    ensures AllJustified(OnAcquire(s, id, s.tasks[id].key, cfg).log, cfg)
  {
    var key := s.tasks[id].key;
    assert InFlight(s.log, key.kind).None?;
    assert Find(s.cache, key) == Resident(s.log, key);
    Appended(s.log, Started(id, key, s.now), cfg);
  }

  lemma {:induction false} StartNeeded(s: State, id: TaskId, cfg: Settings)
    requires Starts(s, id, cfg)
    ensures
      var s' := OnAcquire(s, id, s.tasks[id].key, cfg);
      DistinctKeys(s'.cache) && RefreshNeeded(s', cfg)
  {
    TouchKeepsCache(s, s.tasks[id].key);
  }

  lemma {:induction false} AcquireStarts(s: State, id: TaskId, cfg: Settings)
    requires Starts(s, id, cfg)
    ensures Invariant(OnAcquire(s, id, s.tasks[id].key, cfg), cfg)
  {
    StartLocks(s, id, cfg);
    StartMatches(s, id, cfg);
    StartJustified(s, id, cfg);
    StartNeeded(s, id, cfg);
  }

  /** The log says what the cache holds, every event is justified, and time has not run past `at`. */
  ghost predicate Faithful(log: seq<Event>, slots: seq<Slot>, at: real, cfg: Settings) {
    && DistinctKeys(slots) && AllJustified(log, cfg)
    && (forall key :: Find(slots, key) == Resident(log, key))
    && (log != [] ==> log[|log| - 1].at <= at)
  }

  /** One eviction event removes one resident key and ends no refresh. */
  lemma {:induction false} EvictOne(log: seq<Event>, slots: seq<Slot>, at: real, cfg: Settings)
    requires Faithful(log, slots, at, cfg) && slots != []
    ensures Faithful(log + [Evicted(slots[0].key, at)], slots[1..], at, cfg)
    ensures forall kind :: InFlight(log + [Evicted(slots[0].key, at)], kind) == InFlight(log, kind)
  {
    var e := Evicted(slots[0].key, at);
    AppendFrame(log, e);
    Appended(log, e, cfg);
    NotFound(slots[1..], slots[0].key);
    assert Find(slots, e.key) == Resident(log, e.key);
  }

  /** Each eviction event removes one resident key, as the eviction loop removes its slot. */
  lemma {:induction false} EvictionKeeps(log: seq<Event>, slots: seq<Slot>, at: real, cfg: Settings)
    requires Faithful(log, slots, at, cfg)
    ensures
      var log' := log + EvictionEvents(slots, cfg.bounds, at);
      && Faithful(log', Evict(slots, cfg.bounds), at, cfg)
      && (forall kind :: InFlight(log', kind) == InFlight(log, kind))
    decreases |slots|
  {
    if Fits(slots, cfg.bounds) {
      assert log + [] == log;
    } else {
      var e := Evicted(slots[0].key, at);
      EvictOne(log, slots, at, cfg);
      EvictionKeeps(log + [e], slots[1..], at, cfg);
      ConcatAssociative(log, [e], EvictionEvents(slots[1..], cfg.bounds, at));
    }
  }

  /** Eviction leaves a key's entry alone or removes it. */
  lemma {:induction false} EvictFinds(slots: seq<Slot>, bounds: Bounds, key: Key)
    requires DistinctKeys(slots)
    ensures Find(Evict(slots, bounds), key) == Find(slots, key) || Find(Evict(slots, bounds), key).None?
  {
    if !Fits(slots, bounds) {
      EvictFinds(slots[1..], bounds, key);
      if slots[0].key == key {
        NotFound(slots[1..], key);
      }
    }
  }

  lemma {:induction false} StoreFinds(s: State, key: Key, entry: Entry, cfg: Settings)
    requires DistinctKeys(s.cache)
    ensures
      var full := Without(s.cache, key) + [Slot(key, entry)];
      && DistinctKeys(full)
      && (forall other :: Find(full, other) == if other == key then Some(entry) else Find(s.cache, other))
      && (forall other :: other != key ==>
            Find(Evict(full, cfg.bounds), other) in {Find(s.cache, other), None})
  {
    var full := Without(s.cache, key) + [Slot(key, entry)];
    StoreKeepsDistinct(s.cache, key, entry);
    forall other ensures Find(full, other) == if other == key then Some(entry) else Find(s.cache, other) {
      FindStored(s.cache, key, entry, other);
    }
    forall other | other != key ensures Find(Evict(full, cfg.bounds), other) in {Find(s.cache, other), None} {
      EvictFinds(full, cfg.bounds, other);
    }
  }

  /** The log of a successful refresh up to its evictions. */
  lemma {:induction false} SucceedLog(s: State, id: TaskId, entry: Entry, cfg: Settings)
    requires Invariant(s, cfg) && id in s.tasks && s.tasks[id].Refreshing? && entry.fetched == s.now
    ensures
      var key := s.tasks[id].key;
      var log := s.log + [Finished(id, key, entry, s.now)] + [Returned(id, key, entry, Fresh, s.now)];
      && AllJustified(log, cfg)
      && log[|log| - 1].at == s.now
      && (forall other :: Resident(log, other) == if other == key then Some(entry) else Find(s.cache, other))
      && (forall kind :: InFlight(log, kind) == if kind == key.kind then None else InFlight(s.log, kind))
  {
    var key := s.tasks[id].key;
    var e, r := Finished(id, key, entry, s.now), Returned(id, key, entry, Fresh, s.now);
    AppendFrame(s.log, e);
    Appended(s.log, e, cfg);
    AppendFrame(s.log + [e], r);
    Appended(s.log + [e], r, cfg);
  }

  lemma {:induction false} SucceedKeeps(s: State, id: TaskId, entry: Entry, cfg: Settings)
    requires Invariant(s, cfg) && id in s.tasks && s.tasks[id].Refreshing? && entry.fetched == s.now
    ensures Invariant(OnSucceed(s, id, s.tasks[id].key, entry, cfg), cfg)
  {
    var key := s.tasks[id].key;
    var log := s.log + [Finished(id, key, entry, s.now)] + [Returned(id, key, entry, Fresh, s.now)];
    SucceedLog(s, id, entry, cfg);
    StoreFinds(s, key, entry, cfg);
    EvictionKeeps(log, Without(s.cache, key) + [Slot(key, entry)], s.now, cfg);
  }

  lemma {:induction false} FailKeeps(s: State, id: TaskId, cfg: Settings)
    requires Invariant(s, cfg) && id in s.tasks && s.tasks[id].Refreshing?
    ensures Invariant(OnFail(s, id, s.tasks[id].key, cfg), cfg)
  {
    var key := s.tasks[id].key;
    TouchKeepsCache(s, key);
    var cached := Find(s.cache, key);
    var e := Failed(id, key, s.now);
    var r := if Within(cached, s.now, cfg.staleIfErrorSeconds)
             then Returned(id, key, cached.value, Stale, s.now) else Raised(id, key, s.now);
    AppendFrame(s.log, e);
    Appended(s.log, e, cfg);
    AppendFrame(s.log + [e], r);
    Appended(s.log + [e], r, cfg);
  }

  lemma {:induction false} CancelKeeps(s: State, id: TaskId, cfg: Settings)
    requires Invariant(s, cfg) && id in s.tasks
    ensures Invariant(OnCancel(s, id), cfg)
  {
    if s.tasks[id].Refreshing? {
      var e := Cancelled(id, s.tasks[id].key, s.now);
      AppendFrame(s.log, e);
      Appended(s.log, e, cfg);
    }
  }

  lemma {:induction false} StepKeeps(s: State, a: Action, cfg: Settings)
    requires Invariant(s, cfg)
    ensures Invariant(Step(s, a, cfg), cfg)
  {
    if Enabled(s, a) {
      match a {
        case Tick(now) =>
        case Call(id, key) => CallKeeps(s, id, key, cfg);
        case Acquire(id) =>
          if Within(Find(s.cache, s.tasks[id].key), s.now, cfg.freshSeconds) {
            AcquireReturns(s, id, cfg);
          } else {
            AcquireStarts(s, id, cfg);
          }
        case Succeed(id, retrievedAt, updatedAt, features) =>
          SucceedKeeps(s, id, Entry(s.now, retrievedAt, updatedAt, features), cfg);
        case Fail(id) => FailKeeps(s, id, cfg);
        case Cancel(id) => CancelKeeps(s, id, cfg);
      }
    }
  }

  lemma {:induction false} EveryRunIsJustified(actions: seq<Action>, start: real, cfg: Settings)
    ensures Invariant(Exec(actions, start, cfg), cfg)
  {
    if actions != [] {
      EveryRunIsJustified(actions[..|actions| - 1], start, cfg);
      StepKeeps(Exec(actions[..|actions| - 1], start, cfg), actions[|actions| - 1], cfg);
    }
  }

  // ---------- consequences over the log of any run ----------

  /** At most one refresh of a kind is in flight. */
  lemma {:induction false} OneRefreshPerKind(actions: seq<Action>, start: real, cfg: Settings, a: TaskId, b: TaskId)
    requires
      var tasks := Exec(actions, start, cfg).tasks;
      a in tasks && b in tasks && tasks[a].Refreshing? && tasks[b].Refreshing? && tasks[a].key.kind == tasks[b].key.kind
    ensures a == b
  {
    EveryRunIsJustified(actions, start, cfg);
  }

  lemma {:induction false} JustifiedAt(log: seq<Event>, j: nat, cfg: Settings)
    requires AllJustified(log, cfg) && j < |log|
    ensures AllJustified(log[..j], cfg) && Justified(log[..j], log[j], cfg)
  {
    if j < |log| - 1 {
      JustifiedAt(log[..|log| - 1], j, cfg);
      assert log[..|log| - 1][..j] == log[..j];
    }
  }

  /** Two starts of one kind are separated by the end of the first refresh. */
  lemma {:induction false} RefreshesDoNotOverlap(actions: seq<Action>, start: real, cfg: Settings, i: nat, j: nat)
    requires
      var log := Exec(actions, start, cfg).log;
      i < j < |log| && log[i].Started? && log[j].Started? && log[i].key.kind == log[j].key.kind
    ensures
      var log := Exec(actions, start, cfg).log;
      exists m ::
        i < m < j && (log[m].Finished? || log[m].Failed? || log[m].Cancelled?) && log[m].key.kind == log[i].key.kind
  {
    var log := Exec(actions, start, cfg).log;
    EveryRunIsJustified(actions, start, cfg);
    JustifiedAt(log, j, cfg);
    StartEnds(log, i, j);
  }

  lemma {:induction false} StartEnds(log: seq<Event>, i: nat, j: nat)
    requires i < j <= |log| && log[i].Started? && InFlight(log[..j], log[i].key.kind).None?
    ensures exists m ::
        i < m < j && (log[m].Finished? || log[m].Failed? || log[m].Cancelled?) && log[m].key.kind == log[i].key.kind
    decreases j
  {
    assert log[..j][..j - 1] == log[..j - 1] && log[..j][j - 1] == log[j - 1];
    var last := log[j - 1];
    if !((last.Finished? || last.Failed? || last.Cancelled?) && last.key.kind == log[i].key.kind) {
      StartEnds(log, i, j - 1);
    }
  }

  /** Inside the fresh window of a stored snapshot no refresh of its key starts, unless the snapshot was evicted. */
  lemma {:induction false} NoRefreshInsideFreshWindow(actions: seq<Action>, start: real, cfg: Settings, i: nat, j: nat)
    requires
      var log := Exec(actions, start, cfg).log;
      && i < j < |log| && log[i].Finished? && log[j].Started? && log[i].key == log[j].key
      && log[j].at - log[i].at <= cfg.freshSeconds
    ensures
      var log := Exec(actions, start, cfg).log;
      exists m :: i < m < j && log[m].Evicted? && log[m].key == log[i].key
  {
    var log := Exec(actions, start, cfg).log;
    EveryRunIsJustified(actions, start, cfg);
    JustifiedAt(log, j, cfg);
    if forall m :: i < m < j && log[m].Evicted? ==> log[m].key != log[i].key {
      StoredStaysResident(log, i, j, cfg);
    }
  }

  /** Without an eviction a stored snapshot stays, or a later one replaces it. */
  lemma {:induction false} StoredStaysResident(log: seq<Event>, i: nat, j: nat, cfg: Settings)
    requires AllJustified(log, cfg) && i < j <= |log| && log[i].Finished?
    requires forall m :: i < m < j && log[m].Evicted? ==> log[m].key != log[i].key
    ensures Resident(log[..j], log[i].key).Some? && Resident(log[..j], log[i].key).value.fetched >= log[i].at
    ensures log[i].at <= log[j - 1].at
    decreases j
  {
    assert log[..j][..j - 1] == log[..j - 1] && log[..j][j - 1] == log[j - 1];
    JustifiedAt(log, j - 1, cfg);
    if i < j - 1 {
      StoredStaysResident(log, i, j - 1, cfg);
    }
  }

  /** A FRESH answer was just fetched by its own call, or was stored under the same key inside the fresh window. */
  lemma {:induction false} FreshIsHonest(actions: seq<Action>, start: real, cfg: Settings, j: nat)
    requires
      var log := Exec(actions, start, cfg).log;
      j < |log| && log[j].Returned? && log[j].freshness == Fresh
    ensures
      var log := Exec(actions, start, cfg).log;
      exists i :: && 0 <= i < j && log[i].Finished? && log[i].key == log[j].key && log[i].entry == log[j].entry
                  && (log[j].at - log[i].at <= cfg.freshSeconds || (log[i].id == log[j].id && log[i].at == log[j].at))
  {
    var log := Exec(actions, start, cfg).log;
    EveryRunIsJustified(actions, start, cfg);
    JustifiedAt(log, j, cfg);
    if Resident(log[..j], log[j].key) == Some(log[j].entry) && log[j].at - log[j].entry.fetched <= cfg.freshSeconds {
      var i := ResidentWasStored(log, j, log[j].key, cfg);
    } else {
      assert log[..j][j - 1] == log[j - 1];
    }
  }

  lemma {:induction false} ResidentWasStored(log: seq<Event>, j: nat, key: Key, cfg: Settings) returns (i: nat)
    requires AllJustified(log, cfg) && j <= |log| && Resident(log[..j], key).Some?
    ensures i < j && log[i].Finished? && log[i].key == key && log[i].entry == Resident(log[..j], key).value
    ensures log[i].entry.fetched == log[i].at
    decreases j
  {
    assert log[..j][..j - 1] == log[..j - 1] && log[..j][j - 1] == log[j - 1];
    JustifiedAt(log, j - 1, cfg);
    if log[j - 1].Finished? && log[j - 1].key == key {
      i := j - 1;
    } else {
      i := ResidentWasStored(log, j - 1, key, cfg);
    }
  }

  /**
   A STALE answer means that the same call's refresh failed at that moment, and that the snapshot,
   stored under the same key, is older than the fresh window but inside the error window.
   */
  lemma {:induction false} StaleIsHonest(actions: seq<Action>, start: real, cfg: Settings, j: nat)
    requires
      var log := Exec(actions, start, cfg).log;
      j < |log| && log[j].Returned? && log[j].freshness == Stale
    ensures
      var log := Exec(actions, start, cfg).log;
      && j > 0 && log[j - 1] == Failed(log[j].id, log[j].key, log[j].at)
      && cfg.freshSeconds < log[j].at - log[j].entry.fetched <= cfg.staleIfErrorSeconds
      && exists i :: 0 <= i < j && log[i].Finished? && log[i].key == log[j].key && log[i].entry == log[j].entry
  {
    var log := Exec(actions, start, cfg).log;
    EveryRunIsJustified(actions, start, cfg);
    JustifiedAt(log, j, cfg);
    assert log[..j][j - 1] == log[j - 1];
    var i := ResidentWasStored(log, j, log[j].key, cfg);
  }
}
