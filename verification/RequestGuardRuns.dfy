/**
 Whole runs of the request limiter (src/firelens/request_guard.py:69-102): what the bounded table
 may forget, how many requests any interval admits, and when a denied client may return.
 */
module RequestGuardRuns {
  import opened RequestGuard

  // ---------- one call ----------

  /** For a positive window the reset after the sweep is dead code: the window a call counts in has not run out. */
  lemma {:induction false} ResetIsUnreachable(t: Table, key: string, now: real, cfg: Config)
    requires t.Valid() && cfg.windowSeconds > 0
    ensures key in Admit(t, key, now, cfg).windows && !Expired(Admit(t, key, now, cfg).windows[key], now, cfg)
  {
    AdmitValid(t, key, now, cfg);
    var swept := Pop(t, ExpiredKeys(t, now, cfg));
    if key in swept.windows {
      assert key !in ExpiredKeys(t, now, cfg);
    }
  }

  /** The table never outgrows its bound. */
  lemma {:induction false} TableStaysBounded(t: Table, key: string, now: real, cfg: Config)
    requires t.Valid() && cfg.maxClients >= 1 && |t.order| <= cfg.maxClients
    ensures Check(t, key, now, cfg).0.Valid() && |Check(t, key, now, cfg).0.order| <= cfg.maxClients
  {
    var swept := Pop(t, ExpiredKeys(t, now, cfg));
    PopValid(t, ExpiredKeys(t, now, cfg));
    KeepShortens(t.order, ExpiredKeys(t, now, cfg));
    AdmitValid(t, key, now, cfg);
    MakeRoomValid(swept, cfg);
  }

  /**
   A denied client that waits `retry_after` seconds comes back less than a millisecond before its
   window ends, at the earliest.
   */
  lemma {:induction false} RetryReachesWindowEnd(t: Table, key: string, now: real, cfg: Config)
    requires t.Valid() && cfg.windowSeconds > 0 && !Check(t, key, now, cfg).1.allowed
    ensures
      var d, w := Check(t, key, now, cfg).1, Admit(t, key, now, cfg).windows[key];
      now + d.retryAfter as real > w.startedAt + cfg.windowSeconds as real - 0.001
  {
    ResetIsUnreachable(t, key, now, cfg);
  }

  /**
   `+ 0.999` is not a ceiling: waiting `retry_after` seconds outlasts the remaining time exactly
   when that time is at most one second, whole, or has a fractional part of at least 0.001.
   */
  lemma {:induction false} RetryCoversIff(elapsed: real, cfg: Config)
    requires 0.0 <= elapsed < cfg.windowSeconds as real
    ensures
      var left := cfg.windowSeconds as real - elapsed;
      RetryAfter(elapsed, cfg) as real >= left <==>
      left <= 1.0 || left == left.Floor as real || left - left.Floor as real >= 0.001
  {
    var left := cfg.windowSeconds as real - elapsed;
    FloorShift(left);
  }

  lemma {:induction false} FloorShift(x: real)
    requires x > 0.0
    ensures (x + 0.999).Floor == if x - x.Floor as real >= 0.001 then x.Floor + 1 else x.Floor
  {
    var n := if x - x.Floor as real >= 0.001 then x.Floor + 1 else x.Floor;
    assert n as real <= x + 0.999 < n as real + 1.0;
  }

  /** With 10.0005 seconds left the client is told 10. */
  lemma {:induction false} RetryCanFallShort()
    ensures RetryAfter(49.9995, Config(1, 60, 1)) == 10
  {
    assert 60 as real - 49.9995 + 0.999 == 10.9995;
    assert (10.9995).Floor == 10;
  }

  // ---------- runs ----------

  datatype Request = Request(key: string, at: real)

  ghost predicate InOrder(run: seq<Request>) {
    forall i, j :: 0 <= i < j < |run| ==> run[i].at <= run[j].at
  }

  /** The table after a run on an empty guard. */
  function TableAfter(run: seq<Request>, cfg: Config): (t: Table)
    ensures t.Valid()
  {
    if run == [] then Table([], map[])
    else
      var n := |run| - 1;
      var t := TableAfter(run[..n], cfg);
      AdmitValid(t, run[n].key, run[n].at, cfg);
      Check(t, run[n].key, run[n].at, cfg).0
  }

  /** The decision on request `i` of a run. */
  function DecisionAt(run: seq<Request>, i: nat, cfg: Config): Decision
    requires i < |run|
  {
    Check(TableAfter(run[..i], cfg), run[i].key, run[i].at, cfg).1
  }

  // ---------- the unbounded limiter ----------

  /** One fixed-window counter per key, never forgotten; the window a request of the key counts in. */
  function WindowFor(memory: map<string, Window>, key: string, now: real, cfg: Config): Window {
    if key in memory && !Expired(memory[key], now, cfg) then memory[key] else Window(now, 0)
  }

  function MemoryAfter(run: seq<Request>, cfg: Config): map<string, Window> {
    if run == [] then map[]
    else
      var n := |run| - 1;
      var memory, r := MemoryAfter(run[..n], cfg), run[n];
      memory[r.key := Count(WindowFor(memory, r.key, r.at, cfg), r.at, cfg).0]
  }

  function UnboundedDecisionAt(run: seq<Request>, i: nat, cfg: Config): Decision
    requires i < |run|
  {
    Count(WindowFor(MemoryAfter(run[..i], cfg), run[i].key, run[i].at, cfg), run[i].at, cfg).1
  }

  // ---------- one key in the bounded table ----------

  function Swept(t: Table, now: real, cfg: Config): (swept: Table)
    requires t.Valid()
    ensures swept.Valid()
  {
    PopValid(t, ExpiredKeys(t, now, cfg));
    Pop(t, ExpiredKeys(t, now, cfg))
  }

  /** A request of `other` finds the table full after the sweep and pushes out the live window of `key`. */
  predicate Evicts(t: Table, other: string, now: real, key: string, cfg: Config)
    requires t.Valid()
  {
    var swept := Swept(t, now, cfg);
    && other !in swept.windows && swept.order != [] && |swept.order| >= cfg.maxClients
    && Oldest(swept.order, swept.windows) == key
  }

  /** The table holds the key's window if the unbounded limiter remembers a live one, and no other. */
  ghost predicate Agrees(t: Table, memory: map<string, Window>, key: string, now: real, cfg: Config) {
    if key in t.windows then key in memory && memory[key] == t.windows[key]
    else key in memory ==> Expired(memory[key], now, cfg)
  }

  /** The window of a key after the sweep. */
  lemma {:induction false} SweptKey(t: Table, key: string, now: real, cfg: Config)
    requires t.Valid()
    ensures key in Swept(t, now, cfg).windows <==> key in t.windows && !Expired(t.windows[key], now, cfg)
    ensures key in Swept(t, now, cfg).windows ==> Swept(t, now, cfg).windows[key] == t.windows[key]
  {
  }

  /** A request of another key keeps a live window, unless it evicts it. */
  lemma {:induction false} OtherKey(t: Table, other: string, now: real, key: string, cfg: Config)
    requires t.Valid() && other != key
    ensures
      var after, swept := Check(t, other, now, cfg).0, Swept(t, now, cfg);
      && (key in after.windows <==> key in swept.windows && !Evicts(t, other, now, key, cfg))
      && (key in after.windows ==> after.windows[key] == swept.windows[key])
      && (Evicts(t, other, now, key, cfg) ==> key in swept.windows)
  {
    AdmitValid(t, other, now, cfg);
    MakeRoomValid(Swept(t, now, cfg), cfg);
  }

  /** A request of the key itself counts in its live window or in a new one. */
  lemma {:induction false} OwnKey(t: Table, now: real, key: string, cfg: Config)
    requires t.Valid()
    ensures
      var (after, d) := Check(t, key, now, cfg);
      && key in after.windows && (after.windows[key], d) == Count(WindowFor(t.windows, key, now, cfg), now, cfg)
  {
    AdmitValid(t, key, now, cfg);
    SweptKey(t, key, now, cfg);
  }

  lemma {:induction false} OwnStep(
    t: Table, memory: map<string, Window>, before: real, now: real, key: string, cfg: Config
  )
    requires t.Valid() && Agrees(t, memory, key, before, cfg) && before <= now
    ensures
      var w := WindowFor(memory, key, now, cfg);
      && Agrees(Check(t, key, now, cfg).0, memory[key := Count(w, now, cfg).0], key, now, cfg)
      && Check(t, key, now, cfg).1 == Count(w, now, cfg).1
  {
    OwnKey(t, now, key, cfg);
    assert WindowFor(t.windows, key, now, cfg) == WindowFor(memory, key, now, cfg);
  }

  /** Agreement on a key survives a request of another key exactly if that does not evict the key's live window. */
  lemma {:induction false} OtherStep(
    t: Table, memory: map<string, Window>, before: real, other: string, w: Window, now: real, key: string, cfg: Config
  )
    requires t.Valid() && Agrees(t, memory, key, before, cfg) && before <= now && other != key
    ensures Agrees(Check(t, other, now, cfg).0, memory[other := w], key, now, cfg) <==> !Evicts(t, other, now, key, cfg)
  {
    OtherKey(t, other, now, key, cfg);
    SweptKey(t, key, now, cfg);
  }

  // ---------- what a decision promises ----------

  /** The table after `n` more requests of one key at one time. */
  function Again(t: Table, key: string, now: real, n: nat, cfg: Config): (after: Table)
    requires t.Valid()
    ensures after.Valid()
  {
    if n == 0 then t
    else
      CheckValid(Again(t, key, now, n - 1, cfg), key, now, cfg);
      Check(Again(t, key, now, n - 1, cfg), key, now, cfg).0
  }

  lemma {:induction false} CheckValid(t: Table, key: string, now: real, cfg: Config)
    requires t.Valid()
    ensures Check(t, key, now, cfg).0.Valid()
  {
    AdmitValid(t, key, now, cfg);
  }

  /** A table whose window of the key started now or earlier, is live, and has counted so many requests. */
  ghost predicate CountedSo(t: Table, key: string, now: real, started: real, count: int, cfg: Config) {
    && key in t.windows && t.windows[key] == Window(started, count)
    && now - started < cfg.windowSeconds as real
  }

  lemma {:induction false} OneMoreCounted(t: Table, key: string, now: real, started: real, count: int, cfg: Config)
    requires t.Valid() && CountedSo(t, key, now, started, count, cfg)
    ensures Check(t, key, now, cfg).0.Valid()
    ensures
      var (after, d) := Check(t, key, now, cfg);
      if count < cfg.limit then
        CountedSo(after, key, now, started, count + 1, cfg) && d == Decision(true, cfg.limit - count - 1, 0)
      else CountedSo(after, key, now, started, count, cfg) && !d.allowed && d.remaining == 0 && d.retryAfter >= 1
  {
    CheckValid(t, key, now, cfg);
    OwnKey(t, now, key, cfg);
  }

  lemma {:induction false} AgainCounted(
    t: Table, key: string, now: real, started: real, count: int, n: nat, cfg: Config
  )
    requires t.Valid() && CountedSo(t, key, now, started, count, cfg) && count + n <= cfg.limit
    ensures CountedSo(Again(t, key, now, n, cfg), key, now, started, count + n, cfg)
  {
    if n > 0 {
      AgainCounted(t, key, now, started, count, n - 1, cfg);
      OneMoreCounted(Again(t, key, now, n - 1, cfg), key, now, started, count + n - 1, cfg);
    }
  }

  lemma {:induction false} AdmissionCounts(t: Table, key: string, now: real, cfg: Config)
    requires t.Valid() && cfg.windowSeconds > 0 && Check(t, key, now, cfg).1.allowed
    ensures
      var (after, d) := Check(t, key, now, cfg);
      && after.Valid() && key in after.windows && d.remaining >= 0 && d.retryAfter == 0
      && CountedSo(after, key, now, after.windows[key].startedAt, cfg.limit - d.remaining, cfg)
  {
    CheckValid(t, key, now, cfg);
    OwnKey(t, now, key, cfg);
  }

  /**
   An admission's `remaining` is what it says: exactly that many further requests at the same time are
   admitted, and the next one is refused, told to come back, and told that nothing remains.
   */
  lemma {:induction false} RemainingIsExact(t: Table, key: string, now: real, n: nat, cfg: Config)
    requires t.Valid() && cfg.windowSeconds > 0 && Check(t, key, now, cfg).1.allowed
    ensures Check(t, key, now, cfg).0.Valid()
    ensures
      var (after, d) := Check(t, key, now, cfg);
      var next := Check(Again(after, key, now, n, cfg), key, now, cfg).1;
      && (n < d.remaining ==> next == Decision(true, d.remaining - n - 1, 0))
      && (n == d.remaining ==> !next.allowed && next.remaining == 0 && next.retryAfter >= 1)
  {
    AdmissionCounts(t, key, now, cfg);
    var (after, d) := Check(t, key, now, cfg);
    var started := after.windows[key].startedAt;
    if n <= d.remaining {
      AgainCounted(after, key, now, started, cfg.limit - d.remaining, n, cfg);
      OneMoreCounted(Again(after, key, now, n, cfg), key, now, started, cfg.limit - d.remaining + n, cfg);
    }
  }

  // ---------- refinement of the unbounded limiter ----------

  /** Request `i` of a run evicts the live window of a key. */
  predicate EvictsAt(run: seq<Request>, i: nat, key: string, cfg: Config)
    requires i < |run|
  {
    Evicts(TableAfter(run[..i], cfg), run[i].key, run[i].at, key, cfg)
  }

  /** No request of the run evicts a live window of the key. */
  ghost predicate KeepsWindow(run: seq<Request>, key: string, cfg: Config) {
    forall i :: 0 <= i < |run| ==> !EvictsAt(run, i, key, cfg)
  }

  /** After the run, the table agrees with the unbounded limiter on the key. */
  ghost predicate InStep(run: seq<Request>, key: string, cfg: Config) {
    run != [] ==> Agrees(TableAfter(run, cfg), MemoryAfter(run, cfg), key, run[|run| - 1].at, cfg)
  }

  lemma {:induction false} KeepsWindowPrefix(run: seq<Request>, n: nat, key: string, cfg: Config)
    requires KeepsWindow(run, key, cfg) && n <= |run|
    ensures KeepsWindow(run[..n], key, cfg)
  {
    forall i | 0 <= i < n ensures !EvictsAt(run[..n], i, key, cfg) {
      assert run[..n][..i] == run[..i] && !EvictsAt(run, i, key, cfg);
    }
  }

  lemma {:induction false} InOrderPrefix(run: seq<Request>, n: nat)
    requires InOrder(run) && n <= |run|
    ensures InOrder(run[..n])
  {
  }

  /** From agreement on the earlier run, one more request keeps the agreement exactly if it does not evict the key. */
  lemma {:induction false} StepAgrees(run: seq<Request>, key: string, cfg: Config)
    requires InOrder(run) && run != [] && InStep(run[..|run| - 1], key, cfg)
    ensures InStep(run, key, cfg) <==> !EvictsAt(run, |run| - 1, key, cfg)
  {
    var n := |run| - 1;
    var before, r := run[..n], run[n];
    var t, memory := TableAfter(before, cfg), MemoryAfter(before, cfg);
    var last := if n == 0 then r.at else before[n - 1].at;
    assert Agrees(t, memory, key, last, cfg);
    if r.key == key {
      OwnStep(t, memory, last, r.at, key, cfg);
      OwnNeverEvicted(t, r.at, key, cfg);
    } else {
      var w := Count(WindowFor(memory, r.key, r.at, cfg), r.at, cfg).0;
      OtherStep(t, memory, last, r.key, w, r.at, key, cfg);
    }
  }

  lemma {:induction false} OwnNeverEvicted(t: Table, now: real, key: string, cfg: Config)
    requires t.Valid()
    ensures !Evicts(t, key, now, key, cfg)
  {
  }

  lemma {:induction false} RunAgrees(run: seq<Request>, key: string, cfg: Config)
    requires InOrder(run) && KeepsWindow(run, key, cfg)
    ensures InStep(run, key, cfg)
  {
    if run != [] {
      var n := |run| - 1;
      InOrderPrefix(run, n);
      KeepsWindowPrefix(run, n, key, cfg);
      RunAgrees(run[..n], key, cfg);
      StepAgrees(run, key, cfg);
      assert !EvictsAt(run, n, key, cfg);
    }
  }

  /**
   The bounded table stays in step with the unbounded per-key counter on a key, throughout a run, if
   and only if no request of the run evicts a live window of that key.
   */
  lemma {:induction false} InStepIff(run: seq<Request>, key: string, cfg: Config)
    requires InOrder(run)
    ensures (forall n :: 0 <= n <= |run| ==> InStep(run[..n], key, cfg)) <==> KeepsWindow(run, key, cfg)
  {
    if KeepsWindow(run, key, cfg) {
      forall n | 0 <= n <= |run| ensures InStep(run[..n], key, cfg) {
        InOrderPrefix(run, n);
        KeepsWindowPrefix(run, n, key, cfg);
        RunAgrees(run[..n], key, cfg);
      }
    }
    if forall n :: 0 <= n <= |run| ==> InStep(run[..n], key, cfg) {
      forall i | 0 <= i < |run| ensures !EvictsAt(run, i, key, cfg) {
        var prefix := run[..i + 1];
        InOrderPrefix(run, i + 1);
        assert prefix[..i] == run[..i] && InStep(run[..i], key, cfg) && InStep(run[..i + 1], key, cfg);
        StepAgrees(prefix, key, cfg);
      }
    }
  }

  /** As long as no live window of its key is evicted, the decision on a request is the unbounded limiter's decision. */
  lemma {:induction false} RefinesUnboundedLimiter(run: seq<Request>, i: nat, cfg: Config)
    requires i < |run| && InOrder(run) && KeepsWindow(run[..i], run[i].key, cfg)
    ensures DecisionAt(run, i, cfg) == UnboundedDecisionAt(run, i, cfg)
  {
    var before, r := run[..i], run[i];
    InOrderPrefix(run, i);
    RunAgrees(before, r.key, cfg);
    OwnStep(TableAfter(before, cfg), MemoryAfter(before, cfg),
            if i == 0 then r.at else before[i - 1].at, r.at, r.key, cfg);
  }

  /** Request `i` found its window or room for a new one. */
  ghost predicate HasRoom(run: seq<Request>, i: nat, cfg: Config)
    requires i < |run|
  {
    var swept := Swept(TableAfter(run[..i], cfg), run[i].at, cfg);
    run[i].key in swept.windows || |swept.order| < cfg.maxClients
  }

  ghost predicate NeverFull(run: seq<Request>, cfg: Config) {
    forall i :: 0 <= i < |run| ==> HasRoom(run, i, cfg)
  }

  /** A table that never fills keeps every window. */
  lemma {:induction false} RoomKeepsWindows(run: seq<Request>, key: string, cfg: Config)
    requires NeverFull(run, cfg)
    ensures KeepsWindow(run, key, cfg)
  {
    forall i | 0 <= i < |run| ensures !EvictsAt(run, i, key, cfg) {
      assert HasRoom(run, i, cfg);
    }
  }

  // ---------- the sliding-interval bound ----------

  /** The times at which requests of a key were admitted, by the guard itself. */
  function AdmittedTimes(run: seq<Request>, key: string, cfg: Config): seq<real> {
    if run == [] then []
    else
      var n := |run| - 1;
      AdmittedTimes(run[..n], key, cfg) +
      if run[n].key == key && DecisionAt(run, n, cfg).allowed then [run[n].at] else []
  }

  function UnboundedTimes(run: seq<Request>, key: string, cfg: Config): seq<real> {
    if run == [] then []
    else
      var n := |run| - 1;
      UnboundedTimes(run[..n], key, cfg) +
      if run[n].key == key && UnboundedDecisionAt(run, n, cfg).allowed then [run[n].at] else []
  }

  /** How many of the times lie in the half-open interval from `a` to `b`. */
  function Within(times: seq<real>, a: real, b: real): nat {
    if times == [] then 0
    else
      var n := |times| - 1;
      Within(times[..n], a, b) + if a <= times[n] < b then 1 else 0
  }

  function From(times: seq<real>, a: real): nat {
    if times == [] then 0
    else
      var n := |times| - 1;
      From(times[..n], a) + if a <= times[n] then 1 else 0
  }

  lemma {:induction false} WithinAtMostFrom(times: seq<real>, a: real, b: real)
    ensures Within(times, a, b) <= From(times, a)
  {
    if times != [] {
      WithinAtMostFrom(times[..|times| - 1], a, b);
    }
  }

  /**
   What the current window of a key says about the admitted times, for one interval start `a`:
   the window's own admissions, at most a full window more just before it, and the bound so far.
   */
  ghost predicate Accounted(w: Window, times: seq<real>, last: real, a: real, cfg: Config) {
    var length := cfg.windowSeconds as real;
    && 1 <= w.count <= cfg.limit && w.startedAt <= last
    && (a > last ==> From(times, a) == 0)
    && (a > w.startedAt ==> From(times, a) <= w.count - 1)
    && (w.startedAt - length < a ==> From(times, a) <= cfg.limit - 1 + w.count)
    && Within(times, a, a + length) <= 2 * cfg.limit - 1
  }

  lemma {:induction false} Snoc(times: seq<real>, t: real, a: real, b: real)
    ensures From(times + [t], a) == From(times, a) + if a <= t then 1 else 0
    ensures Within(times + [t], a, b) == Within(times, a, b) + if a <= t < b then 1 else 0
  {
    assert (times + [t])[..|times|] == times;
  }

  /** Counting one more request in the current window. */
  lemma {:induction false} SameWindowAccounted(w: Window, times: seq<real>, last: real, now: real, a: real, cfg: Config)
    requires cfg.windowSeconds > 0 && Accounted(w, times, last, a, cfg)
    requires last <= now < w.startedAt + cfg.windowSeconds as real && w.count < cfg.limit
    ensures Accounted(w.(count := w.count + 1), times + [now], now, a, cfg)
  {
    var length := cfg.windowSeconds as real;
    Snoc(times, now, a, a + length);
    WithinAtMostFrom(times + [now], a, a + length);
  }

  /** Opening the next window, at least one window length after the current one. */
  lemma {:induction false} NextWindowAccounted(w: Window, times: seq<real>, last: real, now: real, a: real, cfg: Config)
    requires cfg.windowSeconds > 0 && cfg.limit >= 1 && Accounted(w, times, last, a, cfg)
    requires last <= now && now >= w.startedAt + cfg.windowSeconds as real
    ensures Accounted(Window(now, 1), times + [now], now, a, cfg)
  {
    var length := cfg.windowSeconds as real;
    Snoc(times, now, a, a + length);
    WithinAtMostFrom(times + [now], a, a + length);
  }

  lemma {:induction false} FirstWindowAccounted(now: real, a: real, cfg: Config)
    requires cfg.windowSeconds > 0 && cfg.limit >= 1
    ensures Accounted(Window(now, 1), [now], now, a, cfg)
  {
    Snoc([], now, a, a + cfg.windowSeconds as real);
    assert [] + [now] == [now];
  }

  /** Whatever a request of the key meets, its window afterwards accounts for the admitted times. */
  lemma {:induction false} CountAccounted(
    memory: map<string, Window>, key: string, times: seq<real>, now: real, a: real, cfg: Config
  )
    requires cfg.limit >= 1 && cfg.windowSeconds > 0
    requires if key in memory then Accounted(memory[key], times, now, a, cfg) else times == []
    ensures
      var (w, d) := Count(WindowFor(memory, key, now, cfg), now, cfg);
      Accounted(w, times + (if d.allowed then [now] else []), now, a, cfg)
  {
    assert times + [] == times && [] + [now] == [now];
    if key !in memory {
      FirstWindowAccounted(now, a, cfg);
    } else if Expired(memory[key], now, cfg) {
      NextWindowAccounted(memory[key], times, now, now, a, cfg);
    } else if memory[key].count < cfg.limit {
      SameWindowAccounted(memory[key], times, now, now, a, cfg);
    }
  }

  lemma {:induction false} UnboundedAccounted(run: seq<Request>, key: string, a: real, last: real, cfg: Config)
    requires InOrder(run) && cfg.limit >= 1 && cfg.windowSeconds > 0
    requires forall i :: 0 <= i < |run| ==> run[i].at <= last
    ensures
      var memory, times := MemoryAfter(run, cfg), UnboundedTimes(run, key, cfg);
      if key in memory then Accounted(memory[key], times, last, a, cfg) else times == []
    decreases |run|
  {
    if run != [] {
      var n := |run| - 1;
      var before, r := run[..n], run[n];
      var memory, times := MemoryAfter(before, cfg), UnboundedTimes(before, key, cfg);
      if r.key == key {
        UnboundedAccounted(before, key, a, r.at, cfg);
        CountAccounted(memory, key, times, r.at, a, cfg);
      } else {
        UnboundedAccounted(before, key, a, last, cfg);
        assert times + [] == times;
      }
    }
  }

  lemma {:induction false} SameTimes(run: seq<Request>, key: string, cfg: Config)
    requires InOrder(run) && KeepsWindow(run, key, cfg)
    ensures AdmittedTimes(run, key, cfg) == UnboundedTimes(run, key, cfg)
  {
    if run != [] {
      var n := |run| - 1;
      InOrderPrefix(run, n);
      KeepsWindowPrefix(run, n, key, cfg);
      SameTimes(run[..n], key, cfg);
      if run[n].key == key {
        RefinesUnboundedLimiter(run, n, cfg);
      }
    }
  }

  /**
   As long as no live window of a key is evicted, full table or not, no half-open interval of one
   window length admits more than 2 * limit - 1 requests of that key: a window opens with an admitted
   request of its own.
   */
  lemma {:induction false} SlidingBound(run: seq<Request>, key: string, a: real, cfg: Config)
    requires InOrder(run) && KeepsWindow(run, key, cfg) && cfg.limit >= 1 && cfg.windowSeconds > 0
    ensures Within(AdmittedTimes(run, key, cfg), a, a + cfg.windowSeconds as real) <= 2 * cfg.limit - 1
  {
    SameTimes(run, key, cfg);
    if run != [] {
      UnboundedAccounted(run, key, a, run[|run| - 1].at, cfg);
    }
  }

  // ---------- the bound is attained ----------

  /** A run continued by `n` requests of one key at one time. */
  function Burst(run: seq<Request>, key: string, at: real, n: nat): seq<Request> {
    if n == 0 then run else Burst(run, key, at, n - 1) + [Request(key, at)]
  }

  /** The window that a request of the key at `at` would count in after a run. */
  function Current(run: seq<Request>, key: string, at: real, cfg: Config): Window {
    WindowFor(MemoryAfter(run, cfg), key, at, cfg)
  }

  /** The remembered window of a key. */
  predicate Remembers(run: seq<Request>, key: string, w: Window, cfg: Config) {
    key in MemoryAfter(run, cfg) && MemoryAfter(run, cfg)[key] == w
  }

  function AdmittedWithin(run: seq<Request>, key: string, a: real, b: real, cfg: Config): nat {
    Within(UnboundedTimes(run, key, cfg), a, b)
  }

  /** One admitted request. */
  lemma {:induction false} OneAdmitted(run: seq<Request>, key: string, at: real, a: real, b: real, cfg: Config)
    requires Current(run, key, at, cfg).count < cfg.limit && !Expired(Current(run, key, at, cfg), at, cfg)
    ensures
      var after, w := run + [Request(key, at)], Current(run, key, at, cfg);
      && Remembers(after, key, w.(count := w.count + 1), cfg)
      && Current(after, key, at, cfg) == w.(count := w.count + 1)
      && AdmittedWithin(after, key, a, b, cfg) == AdmittedWithin(run, key, a, b, cfg) + if a <= at < b then 1 else 0
  {
    var after := run + [Request(key, at)];
    assert after[..|run|] == run;
    Snoc(UnboundedTimes(run, key, cfg), at, a, b);
  }

  /** A burst inside an open window with capacity for it is admitted in full. */
  lemma {:induction false} BurstAdmitted(
    run: seq<Request>, key: string, at: real, n: nat, a: real, b: real, cfg: Config
  )
    requires Current(run, key, at, cfg).count + n <= cfg.limit && !Expired(Current(run, key, at, cfg), at, cfg)
    ensures
      var after, w := Burst(run, key, at, n), Current(run, key, at, cfg);
      && (n > 0 ==> Remembers(after, key, w.(count := w.count + n), cfg))
      && Current(after, key, at, cfg) == w.(count := w.count + n)
      && AdmittedWithin(after, key, a, b, cfg) == AdmittedWithin(run, key, a, b, cfg) + if a <= at < b then n else 0
  {
    if n > 0 {
      BurstAdmitted(run, key, at, n - 1, a, b, cfg);
      OneAdmitted(Burst(run, key, at, n - 1), key, at, a, b, cfg);
    }
  }

  function OpeningRun(key: string): seq<Request> {
    Burst([], key, 0.0, 1)
  }

  function FilledRun(key: string, cfg: Config): seq<Request>
    requires cfg.limit >= 1
  {
    Burst(OpeningRun(key), key, 0.5, cfg.limit - 1)
  }

  /** One request, the rest of the limit half a second later, and the next limit when the window ends. */
  function TightRun(key: string, cfg: Config): seq<Request>
    requires cfg.limit >= 1
  {
    Burst(FilledRun(key, cfg), key, cfg.windowSeconds as real, cfg.limit)
  }

  /** A burst inside a remembered window that has room for it. */
  lemma {:induction false} BurstFills(
    run: seq<Request>, key: string, w: Window, at: real, n: nat, a: real, b: real, cfg: Config
  )
    requires Remembers(run, key, w, cfg) && !Expired(w, at, cfg) && w.count + n <= cfg.limit
    ensures Remembers(Burst(run, key, at, n), key, w.(count := w.count + n), cfg)
    ensures AdmittedWithin(Burst(run, key, at, n), key, a, b, cfg) ==
            AdmittedWithin(run, key, a, b, cfg) + if a <= at < b then n else 0
  {
    assert Current(run, key, at, cfg) == w;
    if n == 0 {
      assert Burst(run, key, at, n) == run;
    }
    BurstAdmitted(run, key, at, n, a, b, cfg);
  }

  lemma {:induction false} OpeningState(key: string, b: real, cfg: Config)
    requires cfg.limit >= 1 && cfg.windowSeconds > 0
    ensures Remembers(OpeningRun(key), key, Window(0.0, 1), cfg)
    ensures AdmittedWithin(OpeningRun(key), key, 0.5, b, cfg) == 0
  {
    BurstAdmitted([], key, 0.0, 1, 0.5, b, cfg);
  }

  lemma {:induction false} FilledState(key: string, b: real, cfg: Config)
    requires cfg.limit >= 1 && cfg.windowSeconds > 0 && b > 0.5
    ensures Remembers(FilledRun(key, cfg), key, Window(0.0, cfg.limit), cfg)
    ensures AdmittedWithin(FilledRun(key, cfg), key, 0.5, b, cfg) == cfg.limit - 1
  {
    OpeningState(key, b, cfg);
    WindowFilled(OpeningRun(key), key, b, cfg);
  }

  lemma {:induction false} WindowFilled(run: seq<Request>, key: string, b: real, cfg: Config)
    requires cfg.limit >= 1 && cfg.windowSeconds > 0 && b > 0.5
    requires Remembers(run, key, Window(0.0, 1), cfg)
    ensures Remembers(Burst(run, key, 0.5, cfg.limit - 1), key, Window(0.0, cfg.limit), cfg)
    ensures AdmittedWithin(Burst(run, key, 0.5, cfg.limit - 1), key, 0.5, b, cfg) ==
            AdmittedWithin(run, key, 0.5, b, cfg) + cfg.limit - 1
  {
    assert cfg.windowSeconds as real >= 1.0;
    assert !Expired(Window(0.0, 1), 0.5, cfg);
    BurstFills(run, key, Window(0.0, 1), 0.5, cfg.limit - 1, 0.5, b, cfg);
  }

  /** All requests are of one key, and none comes after `at`. */
  ghost predicate OneClient(run: seq<Request>, key: string, at: real) {
    InOrder(run) && forall i :: 0 <= i < |run| ==> run[i].key == key && run[i].at <= at
  }

  lemma {:induction false} BurstOfOneClient(run: seq<Request>, key: string, at: real, n: nat)
    requires OneClient(run, key, at)
    ensures OneClient(Burst(run, key, at, n), key, at)
  {
    if n > 0 {
      BurstOfOneClient(run, key, at, n - 1);
    }
  }

  lemma {:induction false} TightRunOfOneClient(key: string, cfg: Config)
    requires cfg.limit >= 1 && cfg.windowSeconds > 0
    ensures OneClient(TightRun(key, cfg), key, cfg.windowSeconds as real)
  {
    BurstOfOneClient([], key, 0.0, 1);
    BurstOfOneClient(OpeningRun(key), key, 0.5, cfg.limit - 1);
    BurstOfOneClient(FilledRun(key, cfg), key, cfg.windowSeconds as real, cfg.limit);
  }

  lemma {:induction false} OnlyOwnWindow(run: seq<Request>, key: string, cfg: Config)
    requires forall i :: 0 <= i < |run| ==> run[i].key == key
    ensures TableAfter(run, cfg).windows.Keys <= {key}
  {
    if run != [] {
      var n := |run| - 1;
      var t := TableAfter(run[..n], cfg);
      OnlyOwnWindow(run[..n], key, cfg);
      var swept := Pop(t, ExpiredKeys(t, run[n].at, cfg));
      PopValid(t, ExpiredKeys(t, run[n].at, cfg));
      MakeRoomValid(swept, cfg);
      AdmitValid(t, run[n].key, run[n].at, cfg);
    }
  }

  /** A single client never fills the table. */
  lemma {:induction false} OneClientHasRoom(run: seq<Request>, key: string, at: real, cfg: Config)
    requires OneClient(run, key, at) && cfg.maxClients >= 1
    ensures NeverFull(run, cfg)
  {
    forall i | 0 <= i < |run| ensures HasRoom(run, i, cfg) {
      var t := TableAfter(run[..i], cfg);
      OnlyOwnWindow(run[..i], key, cfg);
      var swept := Swept(t, run[i].at, cfg);
      if key !in swept.windows && swept.order != [] {
        assert swept.order[0] in swept.order;
      }
    }
  }

  /**
   The bound of `SlidingBound` cannot be improved: this run of one client is admitted 2 * limit - 1 times within
   one window length.
   */
  lemma {:induction false} BoundIsAttained(key: string, cfg: Config)
    requires cfg.limit >= 1 && cfg.windowSeconds > 0 && cfg.maxClients >= 1
    ensures
      var run := TightRun(key, cfg);
      && InOrder(run) && NeverFull(run, cfg)
      && Within(AdmittedTimes(run, key, cfg), 0.5, 0.5 + cfg.windowSeconds as real) == 2 * cfg.limit - 1
  {
    var length := cfg.windowSeconds as real;
    FilledState(key, 0.5 + length, cfg);
    assert Current(FilledRun(key, cfg), key, length, cfg) == Window(length, 0);
    BurstAdmitted(FilledRun(key, cfg), key, length, cfg.limit, 0.5, 0.5 + length, cfg);
    TightRunOfOneClient(key, cfg);
    OneClientHasRoom(TightRun(key, cfg), key, length, cfg);
    RoomKeepsWindows(TightRun(key, cfg), key, cfg);
    SameTimes(TightRun(key, cfg), key, cfg);
  }

  /** In a table of one slot a request of another key evicts the resident window and starts afresh. */
  lemma {:induction false} OneSlotForgets(other: string, w: Window, key: string, now: real, cfg: Config)
    requires cfg.maxClients == 1 && cfg.limit >= 1 && cfg.windowSeconds > 0 && key != other && !Expired(w, now, cfg)
    ensures
      var t := Table([other], map[other := w]);
      && Check(t, key, now, cfg) == (Table([key], map[key := Window(now, 1)]), Decision(true, cfg.limit - 1, 0))
      && key !in Pop(t, ExpiredKeys(t, now, cfg)).windows && |Pop(t, ExpiredKeys(t, now, cfg)).order| == 1
  {
    var t := Table([other], map[other := w]);
    assert ExpiredKeys(t, now, cfg) == {};
    KeepAll(t.order, {});
    assert t.windows - {} == t.windows;
    assert Pop(t, {}) == t;
    assert [other][1..] == [];
    assert t.windows - {other} == map[];
    assert Oldest(t.order, t.windows) == other;
    assert Keep([other], {other}) == Keep([], {other});
    assert MakeRoom(t, cfg) == Table([], map[]);
    FreshEntry(key, now, cfg);
  }

  lemma {:induction false} FreshEntry(key: string, now: real, cfg: Config)
    requires cfg.limit >= 1 && cfg.windowSeconds > 0
    ensures
      var empty: map<string, Window> := map[];
      && [] + [key] == [key]
      && empty[key := Window(now, 0)][key := Window(now, 1)] == map[key := Window(now, 1)]
      && Count(Window(now, 0), now, cfg) == (Window(now, 1), Decision(true, cfg.limit - 1, 0))
  {
  }

  lemma {:induction false} EmptyTableAdmits(key: string, now: real, cfg: Config)
    requires cfg.maxClients >= 1 && cfg.limit >= 1 && cfg.windowSeconds > 0
    ensures Check(Table([], map[]), key, now, cfg) ==
            (Table([key], map[key := Window(now, 1)]), Decision(true, cfg.limit - 1, 0))
  {
    var t := Table([], map[]);
    assert ExpiredKeys(t, now, cfg) == {};
    assert t.windows - {} == t.windows;
    assert Pop(t, {}) == t;
    FreshEntry(key, now, cfg);
  }

  lemma {:induction false} RunSnoc(run: seq<Request>, r: Request, key: string, cfg: Config)
    ensures
      var (t, d) := Check(TableAfter(run, cfg), r.key, r.at, cfg);
      && TableAfter(run + [r], cfg) == t
      && AdmittedTimes(run + [r], key, cfg) ==
         AdmittedTimes(run, key, cfg) + if r.key == key && d.allowed then [r.at] else []
  {
    assert (run + [r])[..|run|] == run;
  }

  /** Without the premise the bound fails: with one slot, a second client's request lets the first one in again. */
  lemma {:induction false} EvictionVoidsTheBound(a: string, b: string)
    requires a != b
    ensures
      var cfg := Config(1, 60, 1);
      var run := [Request(a, 0.0)] + [Request(b, 1.0)] + [Request(a, 2.0)];
      AdmittedTimes(run, a, cfg) == [0.0, 2.0] && !HasRoom(run, 1, cfg)
  {
    var cfg := Config(1, 60, 1);
    var one := [Request(a, 0.0)];
    var two := one + [Request(b, 1.0)];
    var run := two + [Request(a, 2.0)];
    assert [] + one == one && run[..1] == one;
    EmptyTableAdmits(a, 0.0, cfg);
    RunSnoc([], Request(a, 0.0), a, cfg);
    OneSlotForgets(a, Window(0.0, 1), b, 1.0, cfg);
    RunSnoc(one, Request(b, 1.0), a, cfg);
    OneSlotForgets(b, Window(1.0, 1), a, 2.0, cfg);
    RunSnoc(two, Request(a, 2.0), a, cfg);
  }
}
