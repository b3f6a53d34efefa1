/**
 What every action of a `_features` run must bring about (src/firelens/live.py:372-412): calls are answered
 from the cache, wait for the lock, refresh, or fail over, and none is lost.
 */
module LiveAccessProgress {
  import opened Wrappers
  import opened LiveRecords
  import opened LiveCache
  import opened CacheRuns
  import opened LiveAccess
  import opened LiveAccessRuns

  /** The cache holds an entry under the key, not older than a limit. */
  ghost predicate Holds(s: State, key: Key, entry: Entry, limit: real) {
    Slot(key, entry) in s.cache && s.now - entry.fetched <= limit
  }

  ghost predicate HoldsNone(s: State, key: Key, limit: real) {
    forall entry :: Slot(key, entry) in s.cache ==> s.now - entry.fetched > limit
  }

  lemma {:induction false} FindIff(slots: seq<Slot>, key: Key, entry: Entry)
    requires DistinctKeys(slots)
    ensures Find(slots, key) == Some(entry) <==> Slot(key, entry) in slots
  {
    if slots != [] {
      assert slots == [slots[0]] + slots[1..];
      if slots[0].key == key {
        assert forall s :: s in slots[1..] ==> s.key != key;
      } else {
        FindIff(slots[1..], key, entry);
      }
    }
  }

  lemma {:induction false} NextState(actions: seq<Action>, a: Action, start: real, cfg: Settings)
    ensures Exec(actions + [a], start, cfg) == Step(Exec(actions, start, cfg), a, cfg)
    ensures DistinctKeys(Exec(actions, start, cfg).cache)
  {
    EveryRunIsJustified(actions, start, cfg);
    assert (actions + [a])[..|actions|] == actions;
  }

  // ---------- one action ----------

  /** A call finds a fresh entry and returns it at once. */
  lemma {:induction false} CallReturns(
    actions: seq<Action>, start: real, cfg: Settings, id: TaskId, key: Key, entry: Entry
  )
    requires
      var s := Exec(actions, start, cfg);
      id !in s.tasks && Holds(s, key, entry, cfg.freshSeconds)
    ensures
      var s, after := Exec(actions, start, cfg), Exec(actions + [Call(id, key)], start, cfg);
      && after.log == s.log + [Returned(id, key, entry, Fresh, s.now)]
      && after.tasks == s.tasks && after.locks == s.locks && after.now == s.now
  {
    NextState(actions, Call(id, key), start, cfg);
    FindIff(Exec(actions, start, cfg).cache, key, entry);
  }

  /** Without one it waits for the lock of its kind. */
  lemma {:induction false} CallWaits(actions: seq<Action>, start: real, cfg: Settings, id: TaskId, key: Key)
    requires
      var s := Exec(actions, start, cfg);
      id !in s.tasks && HoldsNone(s, key, cfg.freshSeconds)
    ensures
      var s, after := Exec(actions, start, cfg), Exec(actions + [Call(id, key)], start, cfg);
      after.tasks == s.tasks[id := Waiting(key)] && after.log == s.log && after.locks == s.locks && after.now == s.now
  {
    var s := Exec(actions, start, cfg);
    NextState(actions, Call(id, key), start, cfg);
    if Find(s.cache, key).Some? {
      FindIff(s.cache, key, Find(s.cache, key).value);
    }
  }

  /** A task that may take the lock of its kind. */
  ghost predicate CanAcquire(s: State, id: TaskId, key: Key) {
    id in s.tasks && s.tasks[id] == Waiting(key) && key.kind !in s.locks
  }

  /** Under the lock a fresh entry is returned, and the lock is free again. */
  lemma {:induction false} AcquireReturnsFresh(
    actions: seq<Action>, start: real, cfg: Settings, id: TaskId, key: Key, entry: Entry
  )
    requires
      var s := Exec(actions, start, cfg);
      CanAcquire(s, id, key) && Holds(s, key, entry, cfg.freshSeconds)
    ensures
      var s, after := Exec(actions, start, cfg), Exec(actions + [Acquire(id)], start, cfg);
      && after.log == s.log + [Returned(id, key, entry, Fresh, s.now)]
      && after.tasks == s.tasks - {id} && after.locks == s.locks && after.now == s.now
  {
    NextState(actions, Acquire(id), start, cfg);
    FindIff(Exec(actions, start, cfg).cache, key, entry);
  }

  /** Otherwise the task refreshes and keeps the lock. */
  lemma {:induction false} AcquireRefreshes(actions: seq<Action>, start: real, cfg: Settings, id: TaskId, key: Key)
    requires
      var s := Exec(actions, start, cfg);
      CanAcquire(s, id, key) && HoldsNone(s, key, cfg.freshSeconds)
    ensures
      var s, after := Exec(actions, start, cfg), Exec(actions + [Acquire(id)], start, cfg);
      && after.log == s.log + [Started(id, key, s.now)]
      && after.tasks == s.tasks[id := Refreshing(key)] && after.locks == s.locks[key.kind := id] && after.now == s.now
  {
    var s := Exec(actions, start, cfg);
    NextState(actions, Acquire(id), start, cfg);
    if Find(s.cache, key).Some? {
      FindIff(s.cache, key, Find(s.cache, key).value);
    }
  }

  ghost predicate IsRefreshing(s: State, id: TaskId, key: Key) {
    id in s.tasks && s.tasks[id] == Refreshing(key)
  }

  lemma {:induction false} EvictionsOnly(slots: seq<Slot>, bounds: Bounds, at: real)
    ensures forall e :: e in EvictionEvents(slots, bounds, at) ==> e.Evicted? && e.at == at
    ensures forall e :: e in EvictionEvents(slots, bounds, at) ==> exists s :: s in slots && s.key == e.key
  {
    if !Fits(slots, bounds) {
      EvictionsOnly(slots[1..], bounds, at);
      assert slots[0] in slots;
    }
  }

  /** A finished refresh is returned FRESH and stored as of now; evictions are all that follows. */
  lemma {:induction false} SucceedReturns(
    actions: seq<Action>, start: real, cfg: Settings, id: TaskId, key: Key,
    retrievedAt: int, updatedAt: int, features: seq<Feature>
  )
    requires IsRefreshing(Exec(actions, start, cfg), id, key)
    ensures
      var s, a := Exec(actions, start, cfg), Succeed(id, retrievedAt, updatedAt, features);
      var after, entry := Exec(actions + [a], start, cfg), Entry(s.now, retrievedAt, updatedAt, features);
      && |after.log| >= |s.log| + 2
      && after.log[..|s.log| + 2] == s.log + [Finished(id, key, entry, s.now), Returned(id, key, entry, Fresh, s.now)]
      && (forall e :: e in after.log[|s.log| + 2..] ==> e.Evicted? && e.at == s.now)
      && after.tasks == s.tasks - {id} && after.locks == s.locks - {key.kind} && after.now == s.now
  {
    var s, a := Exec(actions, start, cfg), Succeed(id, retrievedAt, updatedAt, features);
    var entry := Entry(s.now, retrievedAt, updatedAt, features);
    NextState(actions, a, start, cfg);
    var evicted := EvictionEvents(Without(s.cache, key) + [Slot(key, entry)], cfg.bounds, s.now);
    EvictionsOnly(Without(s.cache, key) + [Slot(key, entry)], cfg.bounds, s.now);
    var two := s.log + [Finished(id, key, entry, s.now)] + [Returned(id, key, entry, Fresh, s.now)];
    assert Exec(actions + [a], start, cfg).log == two + evicted;
    assert two == s.log + [Finished(id, key, entry, s.now), Returned(id, key, entry, Fresh, s.now)];
    assert (two + evicted)[..|s.log| + 2] == two && (two + evicted)[|s.log| + 2..] == evicted;
  }

  /** After a failed refresh an entry within the error window is returned STALE. */
  lemma {:induction false} FailReturnsStale(
    actions: seq<Action>, start: real, cfg: Settings, id: TaskId, key: Key, entry: Entry
  )
    requires
      var s := Exec(actions, start, cfg);
      IsRefreshing(s, id, key) && Holds(s, key, entry, cfg.staleIfErrorSeconds)
    ensures
      var s, after := Exec(actions, start, cfg), Exec(actions + [Fail(id)], start, cfg);
      && after.log == s.log + [Failed(id, key, s.now), Returned(id, key, entry, Stale, s.now)]
      && after.tasks == s.tasks - {id} && after.locks == s.locks - {key.kind} && after.now == s.now
  {
    var s := Exec(actions, start, cfg);
    NextState(actions, Fail(id), start, cfg);
    FindIff(s.cache, key, entry);
    assert s.log + [Failed(id, key, s.now)] + [Returned(id, key, entry, Stale, s.now)] ==
           s.log + [Failed(id, key, s.now), Returned(id, key, entry, Stale, s.now)];
  }

  /** Without one the call raises. */
  lemma {:induction false} FailRaises(actions: seq<Action>, start: real, cfg: Settings, id: TaskId, key: Key)
    requires
      var s := Exec(actions, start, cfg);
      IsRefreshing(s, id, key) && HoldsNone(s, key, cfg.staleIfErrorSeconds)
    ensures
      var s, after := Exec(actions, start, cfg), Exec(actions + [Fail(id)], start, cfg);
      && after.log == s.log + [Failed(id, key, s.now), Raised(id, key, s.now)]
      && after.tasks == s.tasks - {id} && after.locks == s.locks - {key.kind} && after.now == s.now
  {
    var s := Exec(actions, start, cfg);
    NextState(actions, Fail(id), start, cfg);
    if Find(s.cache, key).Some? {
      FindIff(s.cache, key, Find(s.cache, key).value);
    }
    assert s.log + [Failed(id, key, s.now)] + [Raised(id, key, s.now)] ==
           s.log + [Failed(id, key, s.now), Raised(id, key, s.now)];
  }

  /** A cancelled task leaves, and gives back the lock if it held one. */
  lemma {:induction false} CancelLeaves(actions: seq<Action>, start: real, cfg: Settings, id: TaskId)
    requires id in Exec(actions, start, cfg).tasks
    ensures
      var s, after := Exec(actions, start, cfg), Exec(actions + [Cancel(id)], start, cfg);
      && after.tasks == s.tasks - {id} && after.cache == s.cache && after.now == s.now
      && (s.tasks[id].Waiting? ==> after.locks == s.locks && after.log == s.log)
      && (s.tasks[id].Refreshing? ==>
            && after.locks == s.locks - {s.tasks[id].key.kind}
            && after.log == s.log + [Cancelled(id, s.tasks[id].key, s.now)])
  {
    NextState(actions, Cancel(id), start, cfg);
  }

  lemma {:induction false} TickMovesClock(actions: seq<Action>, start: real, cfg: Settings, now: real)
    requires now >= Exec(actions, start, cfg).now
    ensures Exec(actions + [Tick(now)], start, cfg) == Exec(actions, start, cfg).(now := now)
  {
    NextState(actions, Tick(now), start, cfg);
  }

  /** A looked-up or failing key stays in the cache, and so does everything else. */
  lemma {:induction false} LookupsKeepEntries(actions: seq<Action>, start: real, cfg: Settings, a: Action, slot: Slot)
    requires a.Call? || a.Acquire? || a.Fail? || a.Cancel? || a.Tick?
    ensures slot in Exec(actions + [a], start, cfg).cache <==> slot in Exec(actions, start, cfg).cache
  {
    var s := Exec(actions, start, cfg);
    NextState(actions, a, start, cfg);
    if Enabled(s, a) && (a.Call? || a.Acquire? || a.Fail?) {
      var key := if a.Call? then a.key else s.tasks[a.id].key;
      TouchKeepsValid(s.cache, key, cfg.bounds);
      TouchFinds(s.cache, key, slot.key);
      FindIff(s.cache, slot.key, slot.entry);
      FindIff(Touch(s.cache, key), slot.key, slot.entry);
    }
  }

  // ---------- the cache of an interleaving ----------

  /** What an action asks of the cache: every look at it counts as a use, also the one after a failure. */
  function Uses(s: State, a: Action): seq<Op> {
    if !Enabled(s, a) then []
    else match a
      case Call(_, key) => [Get(key)]
      case Acquire(id) => [Get(s.tasks[id].key)]
      case Fail(id) => [Get(s.tasks[id].key)]
      case Succeed(id, retrievedAt, updatedAt, features) =>
        [Put(s.tasks[id].key, Entry(s.now, retrievedAt, updatedAt, features))]
      case Tick(_) => []
      case Cancel(_) => []
  }

  function UsesOf(actions: seq<Action>, start: real, cfg: Settings): seq<Op> {
    if actions == [] then []
    else
      var before := actions[..|actions| - 1];
      UsesOf(before, start, cfg) + Uses(Exec(before, start, cfg), actions[|actions| - 1])
  }

  lemma {:induction false} CacheIsRun(actions: seq<Action>, start: real, cfg: Settings)
    ensures Exec(actions, start, cfg).cache == Run(UsesOf(actions, start, cfg), cfg.bounds)
  {
    if actions != [] {
      var before, last := actions[..|actions| - 1], actions[|actions| - 1];
      CacheIsRun(before, start, cfg);
      StepUses(Exec(before, start, cfg), last, cfg);
      RunGoesOn(UsesOf(before, start, cfg), Uses(Exec(before, start, cfg), last), cfg.bounds);
    }
  }

  lemma {:induction false} StepUses(s: State, a: Action, cfg: Settings)
    ensures |Uses(s, a)| <= 1
    ensures Step(s, a, cfg).cache == if Uses(s, a) == [] then s.cache else Apply(s.cache, Uses(s, a)[0], cfg.bounds)
  {
  }

  lemma {:induction false} RunGoesOn(ops: seq<Op>, more: seq<Op>, bounds: Bounds)
    requires |more| <= 1
    ensures Run(ops + more, bounds) == if more == [] then Run(ops, bounds) else Apply(Run(ops, bounds), more[0], bounds)
  {
    if more == [] {
      assert ops + more == ops;
    } else {
      assert (ops + more)[..|ops|] == ops;
    }
  }

  /** However the calls interleave, the cache is in order of last use and holds what was stored last. */
  lemma {:induction false} CacheIsInOrderOfUse(actions: seq<Action>, start: real, cfg: Settings)
    ensures Explains(UsesOf(actions, start, cfg), Exec(actions, start, cfg).cache)
    ensures Fits(Exec(actions, start, cfg).cache, cfg.bounds)
  {
    CacheIsRun(actions, start, cfg);
    RunExplained(UsesOf(actions, start, cfg), cfg.bounds);
  }

  /** A finished refresh is stored if it can be, and evicts nothing while there is room. */
  lemma {:induction false} SucceedStores(
    actions: seq<Action>, start: real, cfg: Settings, id: TaskId, key: Key,
    retrievedAt: int, updatedAt: int, features: seq<Feature>
  )
    requires IsRefreshing(Exec(actions, start, cfg), id, key) && cfg.bounds.maxEntries > 0
    ensures
      var s, a := Exec(actions, start, cfg), Succeed(id, retrievedAt, updatedAt, features);
      var after, slot := Exec(actions + [a], start, cfg), Slot(key, Entry(s.now, retrievedAt, updatedAt, features));
      && (slot in after.cache <==> |features| <= cfg.bounds.maxFeatures)
      && (forall other :: other in after.cache ==> other == slot || (other in s.cache && other.key != key))
      && (|s.cache| < cfg.bounds.maxEntries && Weight(s.cache) + |features| <= cfg.bounds.maxFeatures ==>
            forall other :: other in s.cache && other.key != key ==> other in after.cache)
  {
    var s, a := Exec(actions, start, cfg), Succeed(id, retrievedAt, updatedAt, features);
    var entry, ops := Entry(s.now, retrievedAt, updatedAt, features), UsesOf(actions, start, cfg);
    CacheIsRun(actions, start, cfg);
    CacheIsRun(actions + [a], start, cfg);
    assert (actions + [a])[..|actions|] == actions;
    StoreKeepsEntries(ops, key, entry, cfg.bounds);
  }

  // ---------- no call is lost ----------

  ghost predicate IsAnswer(e: Event, id: TaskId) {
    (e.Returned? || e.Raised?) && e.id == id
  }

  function Answers(log: seq<Event>, id: TaskId): nat {
    if log == [] then 0
    else
      var last := log[|log| - 1];
      Answers(log[..|log| - 1], id) + if (last.Returned? || last.Raised?) && last.id == id then 1 else 0
  }

  /** How often a call was made under an ID that was not in use. */
  function Opened(actions: seq<Action>, id: TaskId, start: real, cfg: Settings): nat {
    if actions == [] then 0
    else
      var before, last := actions[..|actions| - 1], actions[|actions| - 1];
      Opened(before, id, start, cfg) +
      if last.Call? && last.id == id && id !in Exec(before, start, cfg).tasks then 1 else 0
  }

  /** How often a call in progress was cancelled. */
  function Withdrawn(actions: seq<Action>, id: TaskId, start: real, cfg: Settings): nat {
    if actions == [] then 0
    else
      var before, last := actions[..|actions| - 1], actions[|actions| - 1];
      Withdrawn(before, id, start, cfg) +
      if last.Cancel? && last.id == id && id in Exec(before, start, cfg).tasks then 1 else 0
  }

  lemma {:induction false} AnswersAppend(log: seq<Event>, more: seq<Event>, id: TaskId)
    ensures Answers(log + more, id) == Answers(log, id) + Answers(more, id)
  {
    if more == [] {
      assert log + more == log;
    } else {
      assert (log + more)[..|log| + |more| - 1] == log + more[..|more| - 1];
      AnswersAppend(log, more[..|more| - 1], id);
    }
  }

  lemma {:induction false} AnswersOne(e: Event, id: TaskId)
    ensures Answers([e], id) == if (e.Returned? || e.Raised?) && e.id == id then 1 else 0
  {
    assert [e][..0] == [];
  }

  lemma {:induction false} EvictionsAnswerNobody(slots: seq<Slot>, bounds: Bounds, at: real, id: TaskId)
    ensures Answers(EvictionEvents(slots, bounds, at), id) == 0
  {
    if !Fits(slots, bounds) {
      EvictionsAnswerNobody(slots[1..], bounds, at, id);
      AnswersAppend([Evicted(slots[0].key, at)], EvictionEvents(slots[1..], bounds, at), id);
      AnswersOne(Evicted(slots[0].key, at), id);
    }
  }

  function Open(s: State, id: TaskId): nat {
    if id in s.tasks then 1 else 0
  }

  /** What one action does to the answers and the open calls of an ID. */
  lemma {:induction false} StepAccounted(s: State, a: Action, cfg: Settings, id: TaskId)
    ensures
      var after := Step(s, a, cfg);
      Answers(after.log, id) + Open(after, id) +
      (if a.Cancel? && a.id == id && id in s.tasks then 1 else 0) ==
      Answers(s.log, id) + Open(s, id) + if a.Call? && a.id == id && id !in s.tasks then 1 else 0
  {
    if Enabled(s, a) {
      match a {
        case Tick(now) =>
        case Call(c, key) => CallAccounted(s, c, key, cfg, id);
        case Acquire(c) => AcquireAccounted(s, c, cfg, id);
        case Succeed(c, retrievedAt, updatedAt, features) =>
          SucceedAccounted(s, c, Entry(s.now, retrievedAt, updatedAt, features), cfg, id);
        case Fail(c) => FailAccounted(s, c, cfg, id);
        case Cancel(c) => CancelAccounted(s, c, cfg, id);
      }
    }
  }

  lemma {:induction false} CallAccounted(s: State, c: TaskId, key: Key, cfg: Settings, id: TaskId)
    requires c !in s.tasks
    ensures
      var after := OnCall(s, c, key, cfg);
      Answers(after.log, id) + Open(after, id) == Answers(s.log, id) + Open(s, id) + if c == id then 1 else 0
  {
    var cached := Find(s.cache, key);
    if Within(cached, s.now, cfg.freshSeconds) {
      AnswersAppend(s.log, [Returned(c, key, cached.value, Fresh, s.now)], id);
      AnswersOne(Returned(c, key, cached.value, Fresh, s.now), id);
    }
  }

  lemma {:induction false} AcquireAccounted(s: State, c: TaskId, cfg: Settings, id: TaskId)
    requires Enabled(s, Acquire(c))
    ensures
      var after := OnAcquire(s, c, s.tasks[c].key, cfg);
      Answers(after.log, id) + Open(after, id) == Answers(s.log, id) + Open(s, id)
  {
    var key := s.tasks[c].key;
    var cached := Find(s.cache, key);
    if Within(cached, s.now, cfg.freshSeconds) {
      AnswersAppend(s.log, [Returned(c, key, cached.value, Fresh, s.now)], id);
      AnswersOne(Returned(c, key, cached.value, Fresh, s.now), id);
    } else {
      AnswersAppend(s.log, [Started(c, key, s.now)], id);
      AnswersOne(Started(c, key, s.now), id);
    }
  }

  lemma {:induction false} SucceedAccounted(s: State, c: TaskId, entry: Entry, cfg: Settings, id: TaskId)
    requires c in s.tasks
    ensures
      var after := OnSucceed(s, c, s.tasks[c].key, entry, cfg);
      Answers(after.log, id) + Open(after, id) == Answers(s.log, id) + Open(s, id)
  {
    var key := s.tasks[c].key;
    var slots := Without(s.cache, key) + [Slot(key, entry)];
    var one := s.log + [Finished(c, key, entry, s.now)];
    var two := one + [Returned(c, key, entry, Fresh, s.now)];
    AnswersAppend(s.log, [Finished(c, key, entry, s.now)], id);
    AnswersOne(Finished(c, key, entry, s.now), id);
    AnswersAppend(one, [Returned(c, key, entry, Fresh, s.now)], id);
    AnswersOne(Returned(c, key, entry, Fresh, s.now), id);
    AnswersAppend(two, EvictionEvents(slots, cfg.bounds, s.now), id);
    EvictionsAnswerNobody(slots, cfg.bounds, s.now, id);
  }

  lemma {:induction false} FailAccounted(s: State, c: TaskId, cfg: Settings, id: TaskId)
    requires c in s.tasks
    ensures
      var after := OnFail(s, c, s.tasks[c].key, cfg);
      Answers(after.log, id) + Open(after, id) == Answers(s.log, id) + Open(s, id)
  {
    var key := s.tasks[c].key;
    var cached := Find(s.cache, key);
    var outcome := if Within(cached, s.now, cfg.staleIfErrorSeconds)
                   then Returned(c, key, cached.value, Stale, s.now)
                   else Raised(c, key, s.now);
    AnswersAppend(s.log, [Failed(c, key, s.now)], id);
    AnswersOne(Failed(c, key, s.now), id);
    AnswersAppend(s.log + [Failed(c, key, s.now)], [outcome], id);
    AnswersOne(outcome, id);
  }

  lemma {:induction false} CancelAccounted(s: State, c: TaskId, cfg: Settings, id: TaskId)
    requires c in s.tasks
    ensures
      var after := OnCancel(s, c);
      Answers(after.log, id) + Open(after, id) + (if c == id then 1 else 0) == Answers(s.log, id) + Open(s, id)
  {
    var e := Cancelled(c, s.tasks[c].key, s.now);
    AnswersAppend(s.log, [e], id);
    AnswersOne(e, id);
  }

  /** In every run each call is answered once, cancelled once, or still in progress. */
  lemma {:induction false} CallsAreAccountedFor(actions: seq<Action>, start: real, cfg: Settings, id: TaskId)
    ensures
      var s := Exec(actions, start, cfg);
      Opened(actions, id, start, cfg) ==
      Answers(s.log, id) + Withdrawn(actions, id, start, cfg) + if id in s.tasks then 1 else 0
  {
    if actions != [] {
      var before, last := actions[..|actions| - 1], actions[|actions| - 1];
      CallsAreAccountedFor(before, start, cfg, id);
      StepAccounted(Exec(before, start, cfg), last, cfg, id);
    }
  }

  // ---------- no call waits for ever ----------

  /** Once a refreshing call fails it is answered. */
  lemma {:induction false} FailAnswers(actions: seq<Action>, start: real, cfg: Settings, id: TaskId, key: Key)
    requires IsRefreshing(Exec(actions, start, cfg), id, key)
    ensures
      var s, after := Exec(actions, start, cfg), Exec(actions + [Fail(id)], start, cfg);
      && after.tasks == s.tasks - {id} && after.locks == s.locks - {key.kind}
      && after.log != [] && IsAnswer(after.log[|after.log| - 1], id)
  {
    var s := Exec(actions, start, cfg);
    EveryRunIsJustified(actions, start, cfg);
    if entry :| Slot(key, entry) in s.cache && s.now - entry.fetched <= cfg.staleIfErrorSeconds {
      FailReturnsStale(actions, start, cfg, id, key, entry);
    } else {
      FailRaises(actions, start, cfg, id, key);
    }
  }

  /** A waiting call whose lock is free is answered after at most two more actions. */
  lemma {:induction false} FreeLockAnswers(actions: seq<Action>, start: real, cfg: Settings, id: TaskId, key: Key)
    returns (more: seq<Action>)
    requires CanAcquire(Exec(actions, start, cfg), id, key)
    ensures more == [Acquire(id)] || more == [Acquire(id), Fail(id)]
    ensures
      var after := Exec(actions + more, start, cfg);
      id !in after.tasks && after.log != [] && IsAnswer(after.log[|after.log| - 1], id)
  {
    var s := Exec(actions, start, cfg);
    if entry :| Slot(key, entry) in s.cache && s.now - entry.fetched <= cfg.freshSeconds {
      AcquireReturnsFresh(actions, start, cfg, id, key, entry);
      more := [Acquire(id)];
    } else {
      AcquireRefreshes(actions, start, cfg, id, key);
      FailAnswers(actions + [Acquire(id)], start, cfg, id, key);
      more := [Acquire(id), Fail(id)];
      assert actions + more == actions + [Acquire(id)] + [Fail(id)];
    }
  }

  /**
   No state of any run is a dead end: every call in progress can still be answered, by the end of the
   refresh it waits for, its own acquisition and its own outcome, without waiting or cancelling anything.
   */
  lemma {:induction false} EveryCallCanBeAnswered(actions: seq<Action>, start: real, cfg: Settings, id: TaskId)
    returns (more: seq<Action>)
    requires id in Exec(actions, start, cfg).tasks
    ensures |more| <= 3 && forall a :: a in more ==> a.Acquire? || a.Fail?
    ensures
      var after := Exec(actions + more, start, cfg);
      id !in after.tasks && after.log != [] && IsAnswer(after.log[|after.log| - 1], id)
  {
    var s := Exec(actions, start, cfg);
    EveryRunIsJustified(actions, start, cfg);
    var key := s.tasks[id].key;
    if s.tasks[id].Refreshing? {
      FailAnswers(actions, start, cfg, id, key);
      more := [Fail(id)];
    } else if key.kind !in s.locks {
      more := FreeLockAnswers(actions, start, cfg, id, key);
    } else {
      var holder := s.locks[key.kind];
      FailAnswers(actions, start, cfg, holder, s.tasks[holder].key);
      var rest := FreeLockAnswers(actions + [Fail(holder)], start, cfg, id, key);
      more := [Fail(holder)] + rest;
      assert actions + more == actions + [Fail(holder)] + rest;
    }
  }
}
