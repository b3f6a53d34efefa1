/**
 Concurrent access to the snapshot cache (`LiveDataService._features`, src/firelens/live.py:365-412).

 Between two `await` points a task runs alone, so a run is a series of actions: a call up to the
 lock, the acquisition of the lock up to the upstream requests, and their outcome. Any number of
 tasks interleave; the clock moves between actions; a task can be cancelled at either `await`.
 */
module LiveAccess {
  import opened Wrappers
  import opened LiveRecords
  import opened LiveCache

  type TaskId = nat

  datatype Settings = Settings(freshSeconds: real, staleIfErrorSeconds: real, bounds: Bounds)

  datatype Task =
    | Waiting(key: Key)     // queued on the lock of the key's kind
    | Refreshing(key: Key)  // holds that lock and awaits the upstream

  datatype Event =
    | Started(id: TaskId, key: Key, at: real)
    | Finished(id: TaskId, key: Key, entry: Entry, at: real)
    | Failed(id: TaskId, key: Key, at: real)
    | Cancelled(id: TaskId, key: Key, at: real)
    | Evicted(key: Key, at: real)
    | Returned(id: TaskId, key: Key, entry: Entry, freshness: Freshness, at: real)
    | Raised(id: TaskId, key: Key, at: real)

  datatype State = State(
    now: real,
    cache: seq<Slot>,
    tasks: map<TaskId, Task>,
    locks: map<Kind, TaskId>,
    log: seq<Event>
  )

  datatype Action =
    | Tick(now: real)
    | Call(id: TaskId, key: Key)
    | Acquire(id: TaskId)
    | Succeed(id: TaskId, retrievedAt: int, sourceUpdatedAt: int, features: seq<Feature>)
    | Fail(id: TaskId)
    | Cancel(id: TaskId)

  predicate Enabled(s: State, a: Action) {
    match a
    case Tick(now) => now >= s.now
    case Call(id, _) => id !in s.tasks
    case Acquire(id) => id in s.tasks && s.tasks[id].Waiting? && s.tasks[id].key.kind !in s.locks
    case Succeed(id, _, _, _) => id in s.tasks && s.tasks[id].Refreshing?
    case Fail(id) => id in s.tasks && s.tasks[id].Refreshing?
    case Cancel(id) => id in s.tasks
  }

  /** `cached is not None and monotonic() - cached.fetched_monotonic <= limit` */
  predicate Within(cached: Option<Entry>, now: real, limit: real) {
    cached.Some? && now - cached.value.fetched <= limit
  }

  function Release(s: State, id: TaskId, kind: Kind): State {
    s.(tasks := s.tasks - {id}, locks := s.locks - {kind})
  }

  /** The fast path before the lock. */
  function OnCall(s: State, id: TaskId, key: Key, cfg: Settings): State {
    var cached := Find(s.cache, key);
    var s' := s.(cache := Touch(s.cache, key));
    if Within(cached, s.now, cfg.freshSeconds)
    then s'.(log := s.log + [Returned(id, key, cached.value, Fresh, s.now)])
    else s'.(tasks := s.tasks[id := Waiting(key)])
  }

  /** The second check, under the lock. */
  function OnAcquire(s: State, id: TaskId, key: Key, cfg: Settings): State {
    var cached := Find(s.cache, key);
    var s' := s.(cache := Touch(s.cache, key));
    if Within(cached, s.now, cfg.freshSeconds)
    then s'.(tasks := s.tasks - {id}, log := s.log + [Returned(id, key, cached.value, Fresh, s.now)])
    else s'.(tasks := s.tasks[id := Refreshing(key)],
             locks := s.locks[key.kind := id],
             log := s.log + [Started(id, key, s.now)])
  }

  function EvictionEvents(slots: seq<Slot>, bounds: Bounds, at: real): seq<Event> {
    if Fits(slots, bounds) then [] else [Evicted(slots[0].key, at)] + EvictionEvents(slots[1..], bounds, at)
  }

  function OnSucceed(s: State, id: TaskId, key: Key, entry: Entry, cfg: Settings): State {
    var evicted := EvictionEvents(Without(s.cache, key) + [Slot(key, entry)], cfg.bounds, s.now);
    Release(s, id, key.kind).(
      cache := Store(s.cache, key, entry, cfg.bounds),
      log := s.log + [Finished(id, key, entry, s.now)] + [Returned(id, key, entry, Fresh, s.now)] + evicted)
  }

  function OnFail(s: State, id: TaskId, key: Key, cfg: Settings): State {
    var cached := Find(s.cache, key);
    var outcome := if Within(cached, s.now, cfg.staleIfErrorSeconds)
                   then Returned(id, key, cached.value, Stale, s.now)
                   else Raised(id, key, s.now);
    Release(s, id, key.kind).(
      cache := Touch(s.cache, key),
      log := s.log + [Failed(id, key, s.now)] + [outcome])
  }

  function OnCancel(s: State, id: TaskId): State
    requires id in s.tasks
  {
    match s.tasks[id]
    case Waiting(_) => s.(tasks := s.tasks - {id})
    case Refreshing(key) => Release(s, id, key.kind).(log := s.log + [Cancelled(id, key, s.now)])
  }

  /** A disabled action leaves the state as it is. */
  function Step(s: State, a: Action, cfg: Settings): State {
    if !Enabled(s, a) then s
    else match a
      case Tick(now) => s.(now := now)
      case Call(id, key) => OnCall(s, id, key, cfg)
      case Acquire(id) => OnAcquire(s, id, s.tasks[id].key, cfg)
      case Succeed(id, retrievedAt, updatedAt, features) =>
        OnSucceed(s, id, s.tasks[id].key, Entry(s.now, retrievedAt, updatedAt, features), cfg)
      case Fail(id) => OnFail(s, id, s.tasks[id].key, cfg)
      case Cancel(id) => OnCancel(s, id)
  }

  function Exec(actions: seq<Action>, start: real, cfg: Settings): State {
    if actions == [] then State(start, [], map[], map[], [])
    else Step(Exec(actions[..|actions| - 1], start, cfg), actions[|actions| - 1], cfg)
  }

  // ---------- what the log says ----------

  /** The entry last stored under a key and not evicted since. */
  function Resident(log: seq<Event>, key: Key): Option<Entry> {
    if log == [] then None
    else
      var last, before := log[|log| - 1], log[..|log| - 1];
      if last.Finished? && last.key == key then Some(last.entry)
      else if last.Evicted? && last.key == key then None
      else Resident(before, key)
  }

  /** The task whose refresh of a kind has started and not ended. */
  function InFlight(log: seq<Event>, kind: Kind): Option<TaskId> {
    if log == [] then None
    else
      var last, before := log[|log| - 1], log[..|log| - 1];
      if last.Started? && last.key.kind == kind then Some(last.id)
      else if (last.Finished? || last.Failed? || last.Cancelled?) && last.key.kind == kind then None
      else InFlight(before, kind)
  }

  /** The contract of one event, given everything that happened before it. */
  ghost predicate Justified(before: seq<Event>, e: Event, cfg: Settings) {
    && (before != [] ==> before[|before| - 1].at <= e.at)
    && match e
       case Started(id, key, at) =>
         // no refresh of the kind is in flight and no resident snapshot is fresh
         InFlight(before, key.kind).None? && !Within(Resident(before, key), at, cfg.freshSeconds)
       case Finished(id, key, entry, at) => InFlight(before, key.kind) == Some(id) && entry.fetched == at
       case Failed(id, key, at) => InFlight(before, key.kind) == Some(id)
       case Cancelled(id, key, at) => InFlight(before, key.kind) == Some(id)
       case Evicted(key, at) => Resident(before, key).Some?
       case Returned(id, key, entry, Fresh, at) =>
         // just fetched by this call, or the resident snapshot of the same key inside the fresh window
         || (before != [] && before[|before| - 1] == Finished(id, key, entry, at) && entry.fetched == at)
         || (Resident(before, key) == Some(entry) && at - entry.fetched <= cfg.freshSeconds)
       case Returned(id, key, entry, Stale, at) =>
         // this call's refresh just failed and the resident snapshot is past fresh but within the error window
         && before != [] && before[|before| - 1] == Failed(id, key, at)
         && Resident(before, key) == Some(entry)
         && cfg.freshSeconds < at - entry.fetched <= cfg.staleIfErrorSeconds
       case Raised(id, key, at) =>
         && before != [] && before[|before| - 1] == Failed(id, key, at)
         && !Within(Resident(before, key), at, cfg.staleIfErrorSeconds)
  }

  ghost predicate AllJustified(log: seq<Event>, cfg: Settings) {
    log != [] ==>
      AllJustified(log[..|log| - 1], cfg) && Justified(log[..|log| - 1], log[|log| - 1], cfg)
  }

  // ---------- the invariant ----------

  ghost predicate LocksMatchTasks(s: State) {
    && (forall kind :: kind in s.locks ==>
          s.locks[kind] in s.tasks && s.tasks[s.locks[kind]].Refreshing? && s.tasks[s.locks[kind]].key.kind == kind)
    && (forall id :: id in s.tasks && s.tasks[id].Refreshing? ==>
          s.tasks[id].key.kind in s.locks && s.locks[s.tasks[id].key.kind] == id)
  }

  ghost predicate LogMatchesState(s: State) {
    && (forall key :: Find(s.cache, key) == Resident(s.log, key))
    && (forall kind :: InFlight(s.log, kind) == if kind in s.locks then Some(s.locks[kind]) else None)
    && (s.log != [] ==> s.log[|s.log| - 1].at <= s.now)
  }

  /** While a refresh runs, its key has no snapshot inside the fresh window. */
  ghost predicate RefreshNeeded(s: State, cfg: Settings) {
    forall id :: id in s.tasks && s.tasks[id].Refreshing? ==>
      !Within(Find(s.cache, s.tasks[id].key), s.now, cfg.freshSeconds)
  }

  ghost predicate Invariant(s: State, cfg: Settings) {
    && DistinctKeys(s.cache)
    && LocksMatchTasks(s)
    && LogMatchesState(s)
    && RefreshNeeded(s, cfg)
    && AllJustified(s.log, cfg)
  }

  // ---------- helper facts ----------

  lemma {:induction false} FindStored(slots: seq<Slot>, key: Key, entry: Entry, other: Key)
    requires DistinctKeys(slots)
    ensures Find(Without(slots, key) + [Slot(key, entry)], other) ==
            (if other == key then Some(entry) else Find(slots, other))
  {
    var slot := Slot(key, entry);
    if slots == [] {
      assert [] + [slot] == [slot];
    } else if slots[0].key == key {
      NotFound(slots[1..], key);
      FindAppend(slots[1..], slot, other);
    } else {
      assert ([slots[0]] + Without(slots[1..], key)) + [slot] == [slots[0]] + (Without(slots[1..], key) + [slot]);
      FindStored(slots[1..], key, entry, other);
    }
  }

  lemma {:induction false} NotFound(slots: seq<Slot>, key: Key)
    requires forall i :: 0 <= i < |slots| ==> slots[i].key != key
    ensures Find(slots, key) == None
  {
    if slots != [] {
      NotFound(slots[1..], key);
    }
  }

  lemma {:induction false} FindAppend(slots: seq<Slot>, slot: Slot, other: Key)
    ensures Find(slots + [slot], other) ==
            (if Find(slots, other).Some? then Find(slots, other)
             else if other == slot.key then Some(slot.entry) else None)
  {
    if slots == [] {
      assert [] + [slot] == [slot];
      assert Find([slot][1..], other) == None;
    } else {
      assert (slots + [slot])[1..] == slots[1..] + [slot];
      FindAppend(slots[1..], slot, other);
    }
  }

  lemma {:induction false} TouchFinds(slots: seq<Slot>, key: Key, other: Key)
    requires DistinctKeys(slots)
    ensures Find(Touch(slots, key), other) == Find(slots, other)
  {
    if Find(slots, key).Some? {
      FindStored(slots, key, Find(slots, key).value, other);
    }
  }

  lemma {:induction false} Appended(log: seq<Event>, e: Event, cfg: Settings)
    ensures (log + [e])[..|log|] == log
    ensures AllJustified(log, cfg) && Justified(log, e, cfg) ==> AllJustified(log + [e], cfg)
  {
    assert (log + [e])[..|log|] == log;
  }
}
