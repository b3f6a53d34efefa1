/**
 The anonymous request limiter (`AnonymousRequestGuard.check`, src/firelens/request_guard.py:69-102):
 a fixed-window counter per key in a bounded table.
 */
module RequestGuard {

  datatype Config = Config(limit: int, windowSeconds: int, maxClients: int)

  datatype Window = Window(startedAt: real, count: int)

  datatype Decision = Decision(allowed: bool, remaining: int, retryAfter: int)

  /** The `_windows` dictionary: its keys in insertion order, and the window of each. */
  datatype Table = Table(order: seq<string>, windows: map<string, Window>) {
    ghost predicate Valid() {
      && (forall k :: k in order <==> k in windows)
      && (forall i, j :: 0 <= i < j < |order| ==> order[i] != order[j])
    }
  }

  predicate Expired(w: Window, now: real, cfg: Config) {
    now - w.startedAt >= cfg.windowSeconds as real
  }

  // ---------- the table as a value ----------

  /** The keys that stay when some are popped. */
  function Keep(order: seq<string>, gone: set<string>): seq<string> {
    if order == [] then []
    else if order[0] in gone then Keep(order[1..], gone)
    else [order[0]] + Keep(order[1..], gone)
  }

  function Pop(t: Table, gone: set<string>): Table {
    Table(Keep(t.order, gone), t.windows - gone)
  }

  function ExpiredKeys(t: Table, now: real, cfg: Config): set<string> {
    set k | k in t.windows && Expired(t.windows[k], now, cfg)
  }

  /** The first of the keys, in insertion order, whose window started earliest. */
  function Oldest(order: seq<string>, windows: map<string, Window>): (oldest: string)
    requires order != [] && forall k :: k in order ==> k in windows
    ensures oldest in order
  {
    var n := |order| - 1;
    if n == 0 then order[0]
    else
      var best := Oldest(order[..n], windows);
      if windows[order[n]].startedAt < windows[best].startedAt then order[n] else best
  }

  lemma {:induction false} OldestStep(order: seq<string>, windows: map<string, Window>, i: nat)
    requires 1 <= i < |order| && forall k :: k in order ==> k in windows
    ensures
      var best := Oldest(order[..i], windows);
      best in windows && Oldest(order[..i + 1], windows) ==
                         if windows[order[i]].startedAt < windows[best].startedAt then order[i] else best
  {
    assert order[..i + 1][..i] == order[..i];
  }

  /** `min(windows, key=started_at)` over the keys in insertion order */
  method FindOldest(order: seq<string>, windows: map<string, Window>) returns (oldest: string)
    requires order != [] && forall k :: k in order ==> k in windows
    ensures oldest == Oldest(order, windows)
  {
    oldest := order[0];
    for i := 1 to |order|
      invariant oldest == Oldest(order[..i], windows)
    {
      OldestStep(order, windows, i);
      if windows[order[i]].startedAt < windows[oldest].startedAt {
        oldest := order[i];
      }
    }
    assert order[..|order|] == order;
  }

  /** At capacity the oldest window makes room for a new key. */
  function MakeRoom(t: Table, cfg: Config): Table
    requires t.Valid()
  {
    if |t.order| >= cfg.maxClients && t.order != [] then Pop(t, {Oldest(t.order, t.windows)}) else t
  }

  /** The table once the request's own window is in it. */
  function Admit(t: Table, key: string, now: real, cfg: Config): Table
    requires t.Valid()
  {
    var swept := Pop(t, ExpiredKeys(t, now, cfg));
    PopValid(t, ExpiredKeys(t, now, cfg));
    if key in swept.windows then swept
    else
      var roomy := MakeRoom(swept, cfg);
      Table(roomy.order + [key], roomy.windows[key := Window(now, 0)])
  }

  /** Python's `int` on a float. */
  function Truncate(x: real): int {
    if x >= 0.0 then x.Floor else -((-x).Floor)
  }

  /** The fraction is dropped, towards zero. */
  lemma {:induction false} TruncateIs(x: real)
    ensures x >= 0.0 ==> Truncate(x) as real <= x < (Truncate(x) + 1) as real
    ensures x <= 0.0 ==> (Truncate(x) - 1) as real < x <= Truncate(x) as real
  {
  }

  /** `max(1, int(window_seconds - elapsed + 0.999))` */
  function RetryAfter(elapsed: real, cfg: Config): int {
    var seconds := Truncate(cfg.windowSeconds as real - elapsed + 0.999);
    if seconds > 1 then seconds else 1
  }

  /** Counting a request in its window, with the reset of a window that has run out. */
  function Count(w: Window, now: real, cfg: Config): (Window, Decision) {
    var current := if Expired(w, now, cfg) then Window(now, 0) else w;
    if current.count >= cfg.limit
    then (current, Decision(false, 0, RetryAfter(now - current.startedAt, cfg)))
    else (current.(count := current.count + 1), Decision(true, cfg.limit - (current.count + 1), 0))
  }

  /** What a request uses, leaves and is told; a window that has run out starts again with it. */
  lemma {:induction false} CountIs(w: Window, now: real, cfg: Config)
    ensures
      var over := now >= w.startedAt + cfg.windowSeconds as real;
      var used, start := if over then 0 else w.count, if over then now else w.startedAt;
      var counted := Count(w, now, cfg);
      && (counted.1.allowed <==> used < cfg.limit)
      && (used < cfg.limit ==>
            counted.0 == Window(start, used + 1) && counted.1.remaining + used + 1 == cfg.limit
            && counted.1.retryAfter == 0)
      && (used >= cfg.limit ==>
            counted.0 == Window(start, used) && counted.1.remaining == 0
            && counted.1.retryAfter == RetryAfter(now - start, cfg))
  {
  }

  function Check(t: Table, key: string, now: real, cfg: Config): (Table, Decision)
    requires t.Valid()
  {
    var ready := Admit(t, key, now, cfg);
    AdmitValid(t, key, now, cfg);
    var (w, d) := Count(ready.windows[key], now, cfg);
    (ready.(windows := ready.windows[key := w]), d)
  }

  lemma {:induction false} KeepMembers(order: seq<string>, gone: set<string>)
    requires forall i, j :: 0 <= i < j < |order| ==> order[i] != order[j]
    ensures forall k :: k in Keep(order, gone) <==> k in order && k !in gone
    ensures forall i, j :: 0 <= i < j < |Keep(order, gone)| ==> Keep(order, gone)[i] != Keep(order, gone)[j]
  {
    if order != [] {
      assert forall k :: k in order <==> k == order[0] || k in order[1..];
      KeepMembers(order[1..], gone);
      var rest := Keep(order[1..], gone);
      assert order[0] !in rest;
    }
  }

  lemma {:induction false} KeepTwice(order: seq<string>, a: set<string>, b: set<string>)
    ensures Keep(Keep(order, a), b) == Keep(order, a + b)
  {
    if order != [] {
      KeepTwice(order[1..], a, b);
      var rest := Keep(order[1..], a);
      assert ([order[0]] + rest)[1..] == rest;
    }
  }

  lemma {:induction false} KeepShortens(order: seq<string>, gone: set<string>)
    ensures |Keep(order, gone)| <= |order|
  {
    if order != [] {
      KeepShortens(order[1..], gone);
    }
  }

  lemma {:induction false} PopTwice(t: Table, a: set<string>, key: string)
    ensures Pop(Pop(t, a), {key}) == Pop(t, a + {key})
  {
    KeepTwice(t.order, a, {key});
    assert t.windows - a - {key} == t.windows - (a + {key});
  }

  lemma {:induction false} KeepAll(order: seq<string>, gone: set<string>)
    requires forall k :: k in order ==> k !in gone
    ensures Keep(order, gone) == order
  {
    if order != [] {
      KeepAll(order[1..], gone);
    }
  }

  /** Popping one present key shortens the table by one. */
  lemma {:induction false} KeepOne(order: seq<string>, key: string)
    requires forall i, j :: 0 <= i < j < |order| ==> order[i] != order[j]
    ensures |Keep(order, {key})| == |order| - if key in order then 1 else 0
  {
    if order != [] {
      if order[0] == key {
        KeepAll(order[1..], {key});
      } else {
        KeepOne(order[1..], key);
      }
    }
  }

  lemma {:induction false} PopValid(t: Table, gone: set<string>)
    requires t.Valid()
    ensures Pop(t, gone).Valid()
  {
    KeepMembers(t.order, gone);
  }

  lemma {:induction false} OldestIsOldest(order: seq<string>, windows: map<string, Window>)
    requires order != [] && forall k :: k in order ==> k in windows
    ensures forall k :: k in order ==> windows[Oldest(order, windows)].startedAt <= windows[k].startedAt
  {
    var n := |order| - 1;
    assert order == order[..n] + [order[n]];
    if n > 0 {
      OldestIsOldest(order[..n], windows);
    }
  }

  lemma {:induction false} InsertValid(t: Table, key: string, w: Window)
    requires t.Valid() && key !in t.windows
    ensures Table(t.order + [key], t.windows[key := w]).Valid()
  {
    var order := t.order + [key];
    assert forall k :: k in order <==> k in t.order || k == key;
    assert forall i :: 0 <= i < |t.order| ==> t.order[i] in t.order;
  }

  lemma {:induction false} MakeRoomValid(t: Table, cfg: Config)
    requires t.Valid()
    ensures MakeRoom(t, cfg).Valid() && MakeRoom(t, cfg).windows.Keys <= t.windows.Keys
    ensures cfg.maxClients >= 1 && |t.order| <= cfg.maxClients ==> |MakeRoom(t, cfg).order| < cfg.maxClients
  {
    if t.order != [] {
      PopValid(t, {Oldest(t.order, t.windows)});
      KeepOne(t.order, Oldest(t.order, t.windows));
    }
  }

  lemma {:induction false} AdmitValid(t: Table, key: string, now: real, cfg: Config)
    requires t.Valid()
    ensures Admit(t, key, now, cfg).Valid() && key in Admit(t, key, now, cfg).windows
  {
    var swept := Pop(t, ExpiredKeys(t, now, cfg));
    PopValid(t, ExpiredKeys(t, now, cfg));
    if key !in swept.windows {
      MakeRoomValid(swept, cfg);
      InsertValid(MakeRoom(swept, cfg), key, Window(now, 0));
    }
  }

  // ---------- the guard itself ----------

  class AnonymousRequestGuard {
    const cfg: Config
    var order: seq<string>
    var windows: map<string, Window>

    ghost predicate Valid()
      reads this
    {
      cfg.maxClients >= 1 && Contents().Valid() && |order| <= cfg.maxClients
    }

    function Contents(): Table
      reads this
    {
      Table(order, windows)
    }

    constructor (limit: int, windowSeconds: int, maxClients: int)
      requires maxClients >= 1
      ensures Valid() && Contents() == Table([], map[]) && cfg == Config(limit, windowSeconds, maxClients)
    {
      cfg := Config(limit, windowSeconds, maxClients);
      order, windows := [], map[];
    }

    /** Sweep, find or open the window, count the request; `now` is the clock reading of the call. */
    method CheckRequest(key: string, now: real) returns (decision: Decision)
      requires Valid()
      modifies this
      ensures Valid()
      ensures Contents() == Check(old(Contents()), key, now, cfg).0
      ensures decision == Check(old(Contents()), key, now, cfg).1
    {
      Expire(now);
      if key !in windows {
        OpenWindow(key, now);
      }
      decision := CountRequest(key, now);
    }

    /** Count one request in the key's window, or refuse it; the reset is kept although no call reaches it. */
    method CountRequest(key: string, now: real) returns (decision: Decision)
      requires Valid() && key in windows
      modifies `windows
      ensures Valid()
      ensures (windows, decision) ==
              var counted := Count(old(windows)[key], now, cfg);
              (old(windows)[key := counted.0], counted.1)
    {
      var window := windows[key];
      var elapsed := now - window.startedAt;
      if elapsed >= cfg.windowSeconds as real {
        window := Window(now, 0);
        windows := windows[key := window];
        elapsed := 0.0;
      }
      if window.count >= cfg.limit {
        assert windows == old(windows)[key := window];
        return Decision(false, 0, RetryAfter(elapsed, cfg));
      }
      window := window.(count := window.count + 1);
      windows := windows[key := window];
      assert windows == old(windows)[key := window];
      return Decision(true, cfg.limit - window.count, 0);
    }

    method OpenWindow(key: string, now: real)
      requires Valid() && key !in windows
      modifies this
      ensures Valid()
      ensures Contents() == var roomy := MakeRoom(old(Contents()), cfg);
                            Table(roomy.order + [key], roomy.windows[key := Window(now, 0)])
    {
      ghost var start := Contents();
      MakeRoomValid(start, cfg);
      InsertValid(MakeRoom(start, cfg), key, Window(now, 0));
      if |order| >= cfg.maxClients {
        var oldest := FindOldest(order, windows);
        order, windows := Keep(order, {oldest}), windows - {oldest};
      }
      order, windows := order + [key], windows[key := Window(now, 0)];
    }

    /** Collect the expired keys, then pop them one by one. */
    method Expire(now: real)
      requires Valid()
      modifies this
      ensures Valid()
      ensures Contents() == Pop(old(Contents()), ExpiredKeys(old(Contents()), now, cfg))
    {
      ghost var start := Contents();
      var expired := CollectExpired(now);
      ghost var gone: set<string> := {};
      KeepAll(order, {});
      for i := 0 to |expired|
        invariant gone == set k | k in expired[..i]
        invariant Contents() == Pop(start, gone)
      {
        PopTwice(start, gone, expired[i]);
        order, windows := Keep(order, {expired[i]}), windows - {expired[i]};
        gone := gone + {expired[i]};
      }
      assert expired[..|expired|] == expired;
      PopValid(start, gone);
      KeepShortens(start.order, gone);
    }

    method CollectExpired(now: real) returns (expired: seq<string>)
      requires Valid()
      ensures (set k | k in expired) == ExpiredKeys(Contents(), now, cfg)
    {
      expired := [];
      for i := 0 to |order|
        invariant forall k :: k in expired <==> k in order[..i] && Expired(windows[k], now, cfg)
      {
        if Expired(windows[order[i]], now, cfg) {
          expired := expired + [order[i]];
        }
      }
      assert order[..|order|] == order;
    }
  }
}
