/**
 What eviction costs the request limiter (src/firelens/request_guard.py:80-89): once other clients fill
 the table, one client can be admitted any number of times within a single window.
 */
module RequestEviction {
  import opened Sequences
  import opened RequestGuard
  import opened RequestGuardRuns

  // ---------- full tables of equal windows ----------

  function Ones(order: seq<string>): map<string, Window> {
    map k | k in order :: Window(0.0, 1)
  }

  /** Windows that all opened at time 0 with one request each. */
  function OneEach(order: seq<string>): Table {
    Table(order, Ones(order))
  }

  ghost predicate Usable(cfg: Config) {
    cfg.limit >= 1 && cfg.windowSeconds > 0 && cfg.maxClients >= 1
  }

  lemma {:induction false} OneEachValid(order: seq<string>)
    requires Distinct(order)
    ensures OneEach(order).Valid()
  {
  }

  lemma {:induction false} OldestOfEquals(order: seq<string>, windows: map<string, Window>)
    requires order != [] && forall k :: k in order ==> k in windows && windows[k] == Window(0.0, 1)
    ensures Oldest(order, windows) == order[0]
  {
    var n := |order| - 1;
    if n > 0 {
      OldestOfEquals(order[..n], windows);
      assert order[n] in order && order[0] in order;
    }
  }

  lemma {:induction false} NothingExpires(order: seq<string>, cfg: Config)
    requires Distinct(order) && Usable(cfg)
    ensures OneEach(order).Valid() && Swept(OneEach(order), 0.0, cfg) == OneEach(order)
  {
    OneEachValid(order);
    var t := OneEach(order);
    assert ExpiredKeys(t, 0.0, cfg) == {};
    KeepAll(order, {});
    assert t.windows - {} == t.windows;
  }

  /** Popping the first of distinct keys. */
  lemma {:induction false} PopFirst(order: seq<string>)
    requires order != [] && Distinct(order)
    ensures Pop(OneEach(order), {order[0]}) == OneEach(order[1..])
  {
    forall k | k in order[1..] ensures k !in {order[0]} {
      var i :| 0 <= i < |order[1..]| && order[1..][i] == k;
      assert order[i + 1] == k;
    }
    KeepAll(order[1..], {order[0]});
    assert forall k :: k in order <==> k == order[0] || k in order[1..];
    assert Ones(order) - {order[0]} == Ones(order[1..]);
  }

  /** Who is left after a new client came in. */
  function Next(order: seq<string>, key: string, cfg: Config): seq<string> {
    (if |order| >= cfg.maxClients && order != [] then order[1..] else order) + [key]
  }

  lemma {:induction false} RoomForNewcomer(order: seq<string>, cfg: Config)
    requires Distinct(order) && Usable(cfg)
    ensures OneEach(order).Valid()
    ensures MakeRoom(OneEach(order), cfg) ==
            OneEach(if |order| >= cfg.maxClients && order != [] then order[1..] else order)
  {
    OneEachValid(order);
    if |order| >= cfg.maxClients && order != [] {
      OldestOfEquals(order, Ones(order));
      PopFirst(order);
    }
  }

  lemma {:induction false} CountedOnce(kept: seq<string>, key: string)
    requires key !in kept
    ensures Ones(kept)[key := Window(0.0, 0)][key := Window(0.0, 1)] == Ones(kept + [key])
  {
    assert forall k :: k in kept + [key] <==> k in kept || k == key;
  }

  /** A client without a window is admitted, in place of the first one if the table is full. */
  lemma {:induction false} Newcomer(order: seq<string>, key: string, cfg: Config)
    requires Distinct(order) && key !in order && Usable(cfg)
    ensures OneEach(order).Valid()
    ensures Check(OneEach(order), key, 0.0, cfg) == (OneEach(Next(order, key, cfg)), Decision(true, cfg.limit - 1, 0))
  {
    NothingExpires(order, cfg);
    RoomForNewcomer(order, cfg);
    var kept := if |order| >= cfg.maxClients && order != [] then order[1..] else order;
    assert key !in kept by {
      assert forall k :: k in kept ==> k in order;
    }
    CountedOnce(kept, key);
    assert RequestGuard.Count(Window(0.0, 0), 0.0, cfg) == (Window(0.0, 1), Decision(true, cfg.limit - 1, 0));
  }

  // ---------- runs at one moment ----------

  /** A run continued by one request of every key at time 0. */
  function Extended(run: seq<Request>, keys: seq<string>): seq<Request> {
    if keys == [] then run else Extended(run, keys[..|keys| - 1]) + [Request(keys[|keys| - 1], 0.0)]
  }

  ghost predicate AtOnce(run: seq<Request>) {
    forall i :: 0 <= i < |run| ==> run[i].at == 0.0
  }

  lemma {:induction false} ExtendedAtOnce(run: seq<Request>, keys: seq<string>)
    requires AtOnce(run)
    ensures AtOnce(Extended(run, keys))
  {
    if keys != [] {
      ExtendedAtOnce(run, keys[..|keys| - 1]);
    }
  }

  /** One more request of a client that has no window. */
  lemma {:induction false} NewcomerRun(run: seq<Request>, order: seq<string>, other: string, key: string, cfg: Config)
    requires TableAfter(run, cfg) == OneEach(order) && Distinct(order) && other !in order && Usable(cfg)
    ensures
      var after := run + [Request(other, 0.0)];
      && TableAfter(after, cfg) == OneEach(Next(order, other, cfg))
      && (other == key ==> AdmittedTimes(after, key, cfg) == AdmittedTimes(run, key, cfg) + [0.0])
      && (other != key ==> AdmittedTimes(after, key, cfg) == AdmittedTimes(run, key, cfg))
  {
    Newcomer(order, other, cfg);
    RunSnoc(run, Request(other, 0.0), key, cfg);
    var times := AdmittedTimes(run, key, cfg);
    assert times + [] == times;
  }

  ghost predicate Crowd(order: seq<string>, key: string, cfg: Config) {
    Usable(cfg) && Distinct(order) && |order| == cfg.maxClients && key !in order
  }

  lemma {:induction false} OneMoreOfCrowd(order: seq<string>, key: string, j: nat, cfg: Config)
    requires Crowd(order, key, cfg) && 0 < j <= |order|
    ensures order[..j][..j - 1] == order[..j - 1] && order[..j][j - 1] == order[j - 1] != key
    ensures Distinct(order[..j - 1]) && order[j - 1] !in order[..j - 1]
    ensures Next(order[..j - 1], order[j - 1], cfg) == order[..j]
  {
    assert order[..j - 1] + [order[j - 1]] == order[..j];
    assert order[j - 1] in order;
  }

  /** The crowd fills the table. */
  lemma {:induction false} Filled(order: seq<string>, key: string, j: nat, cfg: Config)
    requires Crowd(order, key, cfg) && j <= |order|
    ensures TableAfter(Extended([], order[..j]), cfg) == OneEach(order[..j])
    ensures AdmittedTimes(Extended([], order[..j]), key, cfg) == []
  {
    if j == 0 {
      assert Ones([]) == map[];
    } else {
      Filled(order, key, j - 1, cfg);
      OneMoreOfCrowd(order, key, j, cfg);
      NewcomerRun(Extended([], order[..j - 1]), order[..j - 1], order[j - 1], key, cfg);
    }
  }

  /** The table after the client and the first `j` of the crowd came back, one after the other. */
  function Rotated(order: seq<string>, key: string, j: nat): seq<string>
    requires j <= |order|
  {
    if j == |order| then order else order[j + 1..] + [key] + order[..j]
  }

  lemma {:induction false} RotatedDistinct(order: seq<string>, key: string, j: nat)
    requires Distinct(order) && key !in order && j < |order|
    ensures Distinct(Rotated(order, key, j)) && order[j] !in Rotated(order, key, j)
    ensures |Rotated(order, key, j)| == |order|
  {
    var r, back := Rotated(order, key, j), |order| - j - 1;
    forall i | 0 <= i < |r|
      ensures r[i] == if i < back then order[j + 1 + i] else if i == back then key else order[i - back - 1]
    {
    }
    assert order[j] in order;
  }

  lemma {:induction false} RotatedNext(order: seq<string>, key: string, j: nat, cfg: Config)
    requires Crowd(order, key, cfg) && j < |order|
    ensures Next(Rotated(order, key, j), order[j], cfg) == Rotated(order, key, j + 1)
  {
    RotatedDistinct(order, key, j);
    if j + 1 < |order| {
      assert order[j + 1..][1..] == order[j + 2..] && order[..j] + [order[j]] == order[..j + 1];
      assert Rotated(order, key, j)[1..] == order[j + 2..] + [key] + order[..j];
    } else {
      assert order[j + 1..] == [] && order[..j] + [order[j]] == order;
      assert Rotated(order, key, j)[1..] == order[..j];
    }
  }

  /** The round has reached the `j`-th of the crowd, and the client was admitted `n` times. */
  ghost predicate Cycled(run: seq<Request>, order: seq<string>, key: string, j: nat, n: nat, b: real, cfg: Config)
    requires j <= |order|
  {
    TableAfter(run, cfg) == OneEach(Rotated(order, key, j)) && Within(AdmittedTimes(run, key, cfg), 0.0, b) == n
  }

  lemma {:induction false} RoundStep(run: seq<Request>, order: seq<string>, key: string, j: nat, n: nat, b: real,
                                     cfg: Config)
    requires Crowd(order, key, cfg) && j < |order| && Cycled(run, order, key, j, n, b, cfg)
    ensures Cycled(run + [Request(order[j], 0.0)], order, key, j + 1, n, b, cfg)
  {
    RotatedDistinct(order, key, j);
    RotatedNext(order, key, j, cfg);
    assert order[j] in order;
    NewcomerRun(run, Rotated(order, key, j), order[j], key, cfg);
  }

  lemma {:induction false} RoundStart(run: seq<Request>, order: seq<string>, key: string, n: nat, b: real, cfg: Config)
    requires Crowd(order, key, cfg) && b > 0.0 && Cycled(run, order, key, |order|, n, b, cfg)
    ensures Cycled(run + [Request(key, 0.0)], order, key, 0, n + 1, b, cfg)
  {
    NewcomerRun(run, order, key, key, cfg);
    assert order[1..] + [key] + order[..0] == order[1..] + [key];
    Snoc(AdmittedTimes(run, key, cfg), 0.0, 0.0, b);
  }

  lemma {:induction false} ExtendedByOne(run: seq<Request>, keys: seq<string>, j: nat)
    requires 0 < j <= |keys|
    ensures Extended(run, keys[..j]) == Extended(run, keys[..j - 1]) + [Request(keys[j - 1], 0.0)]
  {
    assert keys[..j][..j - 1] == keys[..j - 1];
  }

  /** One round: the client, then the crowd; the client is admitted and its window is gone again. */
  lemma {:induction false} Round(run: seq<Request>, order: seq<string>, key: string, j: nat, n: nat, b: real,
                                 cfg: Config)
    requires Crowd(order, key, cfg) && b > 0.0 && Cycled(run, order, key, |order|, n, b, cfg) && j <= |order|
    ensures Cycled(Extended(run + [Request(key, 0.0)], order[..j]), order, key, j, n + 1, b, cfg)
  {
    if j == 0 {
      RoundStart(run, order, key, n, b, cfg);
    } else {
      Round(run, order, key, j - 1, n, b, cfg);
      var start := run + [Request(key, 0.0)];
      ExtendedByOne(start, order, j);
      RoundStep(Extended(start, order[..j - 1]), order, key, j - 1, n + 1, b, cfg);
    }
  }

  function OneRound(run: seq<Request>, order: seq<string>, key: string): seq<Request> {
    Extended(run + [Request(key, 0.0)], order)
  }

  lemma {:induction false} CrowdFills(order: seq<string>, key: string, b: real, cfg: Config)
    requires Crowd(order, key, cfg)
    ensures Cycled(Extended([], order), order, key, |order|, 0, b, cfg)
  {
    Filled(order, key, |order|, cfg);
    assert order[..|order|] == order;
  }

  lemma {:induction false} WholeRound(run: seq<Request>, order: seq<string>, key: string, n: nat, b: real, cfg: Config)
    requires Crowd(order, key, cfg) && b > 0.0 && Cycled(run, order, key, |order|, n, b, cfg)
    ensures Cycled(OneRound(run, order, key), order, key, |order|, n + 1, b, cfg)
  {
    Round(run, order, key, |order|, n, b, cfg);
    assert order[..|order|] == order;
  }

  /** The crowd, and then `n` rounds, all at one moment. */
  lemma {:induction false} Rounds(order: seq<string>, key: string, n: nat, b: real, cfg: Config)
    returns (run: seq<Request>)
    requires Crowd(order, key, cfg) && b > 0.0
    ensures AtOnce(run) && Cycled(run, order, key, |order|, n, b, cfg)
  {
    if n == 0 {
      run := Extended([], order);
      ExtendedAtOnce([], order);
      CrowdFills(order, key, b, cfg);
    } else {
      var before := Rounds(order, key, n - 1, b, cfg);
      run := OneRound(before, order, key);
      ExtendedAtOnce(before + [Request(key, 0.0)], order);
      WholeRound(before, order, key, n - 1, b, cfg);
    }
  }

  /**
   With evictions no bound holds: for every configuration, client and crowd that fills the table, and for
   every number `n`, there is a run that admits the client `n` times within one window length.
   */
  lemma {:induction false} EvictionAdmitsAnyNumber(order: seq<string>, key: string, n: nat, cfg: Config)
    returns (run: seq<Request>)
    requires Crowd(order, key, cfg)
    ensures InOrder(run) && Within(AdmittedTimes(run, key, cfg), 0.0, cfg.windowSeconds as real) == n
  {
    run := Rounds(order, key, n, cfg.windowSeconds as real, cfg);
  }
}
