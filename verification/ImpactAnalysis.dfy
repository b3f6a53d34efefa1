/**
 Downstream impact of changed modules (`analyze_impact`, scripts/firelens_agent/impact.py:207-219):
 a multi-source breadth-first search over the reversed import graph, cut off at distance 4.
 */
module ImpactAnalysis {

  datatype Edge = Edge(source: string, target: string)

  const CUTOFF: nat := 4

  /** The modules that import `target`. */
  function Callers(edges: seq<Edge>, target: string): set<string> {
    set e | e in edges && e.target == target :: e.source
  }

  /** The modules that reach a changed module over at most `n` imports. */
  function Within(edges: seq<Edge>, changed: set<string>, n: nat): set<string> {
    if n == 0 then changed
    else
      var nearer := Within(edges, changed, n - 1);
      nearer + set e | e in edges && e.target in nearer :: e.source
  }

  /** `d` is the shortest reverse-edge distance of `m` from the changed set. */
  ghost predicate IsDistance(edges: seq<Edge>, changed: set<string>, m: string, d: nat) {
    m in Within(edges, changed, d) && (d > 0 ==> m !in Within(edges, changed, d - 1))
  }

  lemma {:induction false} WithinGrows(edges: seq<Edge>, changed: set<string>, m: nat, n: nat)
    requires m <= n
    ensures Within(edges, changed, m) <= Within(edges, changed, n)
  {
    if m < n {
      WithinGrows(edges, changed, m, n - 1);
    }
  }

  lemma {:induction false} DistanceAtMost(edges: seq<Edge>, changed: set<string>, m: string, d: nat, n: nat)
    requires IsDistance(edges, changed, m, d) && m in Within(edges, changed, n)
    ensures d <= n
  {
    if n < d {
      WithinGrows(edges, changed, n, d - 1);
    }
  }

  lemma {:induction false} CallerIsWithin(
    edges: seq<Edge>, changed: set<string>, target: string, caller: string, n: nat
  )
    requires target in Within(edges, changed, n) && caller in Callers(edges, target)
    ensures caller in Within(edges, changed, n + 1)
  {
  }

  // ---------- paths ----------

  /** A walk against the imports: it starts at a changed module and ends at `m`. */
  ghost predicate IsPath(edges: seq<Edge>, changed: set<string>, path: seq<string>, m: string) {
    && path != [] && path[0] in changed && path[|path| - 1] == m
    && forall i :: 0 <= i < |path| - 1 ==> Edge(path[i + 1], path[i]) in edges
  }

  lemma {:induction false} PathIsWithin(edges: seq<Edge>, changed: set<string>, path: seq<string>, m: string)
    requires IsPath(edges, changed, path, m)
    ensures m in Within(edges, changed, |path| - 1)
  {
    var n := |path| - 1;
    if n > 0 {
      assert IsPath(edges, changed, path[..n], path[n - 1]);
      PathIsWithin(edges, changed, path[..n], path[n - 1]);
      assert Edge(path[n], path[n - 1]) in edges;
    }
  }

  lemma {:induction false} WithinHasPath(
    edges: seq<Edge>, changed: set<string>, m: string, n: nat) returns (path: seq<string>
  )
    requires m in Within(edges, changed, n)
    ensures IsPath(edges, changed, path, m) && |path| - 1 <= n
    decreases n
  {
    if n == 0 {
      path := [m];
    } else if m in Within(edges, changed, n - 1) {
      path := WithinHasPath(edges, changed, m, n - 1);
    } else {
      var e :| e in edges && e.target in Within(edges, changed, n - 1) && e.source == m;
      var before := WithinHasPath(edges, changed, e.target, n - 1);
      path := before + [m];
      assert e == Edge(path[|before|], path[|before| - 1]);
    }
  }

  /** The distance is the number of imports on a shortest walk. */
  lemma {:induction false} DistanceIsShortestPath(edges: seq<Edge>, changed: set<string>, m: string, d: nat)
    requires IsDistance(edges, changed, m, d)
    ensures exists path :: IsPath(edges, changed, path, m) && |path| - 1 == d
    ensures forall path :: IsPath(edges, changed, path, m) ==> |path| - 1 >= d
  {
    forall path | IsPath(edges, changed, path, m) ensures |path| - 1 >= d {
      PathIsWithin(edges, changed, path, m);
      DistanceAtMost(edges, changed, m, d, |path| - 1);
    }
    var path := WithinHasPath(edges, changed, m, d);
    assert IsPath(edges, changed, path, m);
  }

  // ---------- the search ----------

  type Distances = map<string, nat>

  ghost predicate Exact(edges: seq<Edge>, changed: set<string>, distance: Distances) {
    && changed <= distance.Keys
    && forall m :: m in distance ==> distance[m] <= CUTOFF && IsDistance(edges, changed, m, distance[m])
  }

  /** The queue holds assigned modules, nearest first, over at most two levels from `level` on. */
  ghost predicate QueueOrdered(queue: seq<string>, distance: Distances, level: nat) {
    && (forall i :: 0 <= i < |queue| ==> queue[i] in distance && level <= distance[queue[i]] <= level + 1)
    && (forall i, j :: 0 <= i < j < |queue| ==> queue[i] != queue[j] && distance[queue[i]] <= distance[queue[j]])
  }

  /**
   Every assigned module outside the queue is no farther than `level` and, below the cutoff, has its callers
   assigned.
   */
  ghost predicate Closed(edges: seq<Edge>, queue: seq<string>, distance: Distances, level: nat) {
    forall m :: m in distance && m !in queue ==>
      distance[m] <= level && (distance[m] < CUTOFF ==> Callers(edges, m) <= distance.Keys)
  }

  ghost predicate ClosedExcept(edges: seq<Edge>, queue: seq<string>, distance: Distances, level: nat, target: string) {
    forall m :: m in distance && m !in queue && m != target ==>
      distance[m] <= level && (distance[m] < CUTOFF ==> Callers(edges, m) <= distance.Keys)
  }

  /** Once everything nearer than `level` is closed, all modules up to `level` are assigned. */
  lemma {:induction false} NearerAssigned(
    edges: seq<Edge>, changed: set<string>, distance: Distances, level: nat, n: nat
  )
    requires Exact(edges, changed, distance) && n <= level <= CUTOFF
    requires forall m :: m in distance && distance[m] < level ==> Callers(edges, m) <= distance.Keys
    ensures Within(edges, changed, n) <= distance.Keys
  {
    if n > 0 {
      NearerAssigned(edges, changed, distance, level, n - 1);
      forall m | m in Within(edges, changed, n) ensures m in distance {
        if m !in Within(edges, changed, n - 1) {
          var e :| e in edges && e.target in Within(edges, changed, n - 1) && e.source == m;
          DistanceAtMost(edges, changed, e.target, distance[e.target], n - 1);
          assert m in Callers(edges, e.target);
        }
      }
    }
  }

  /** The reversed graph, built edge by edge. */
  method Reverse(edges: seq<Edge>) returns (reverse: map<string, set<string>>)
    ensures forall m :: (if m in reverse then reverse[m] else {}) == Callers(edges, m)
  {
    reverse := map[];
    for i := 0 to |edges|
      invariant forall m :: (if m in reverse then reverse[m] else {}) == Callers(edges[..i], m)
    {
      var e := edges[i];
      var known := if e.target in reverse then reverse[e.target] else {};
      assert forall m :: Callers(edges[..i + 1], m) ==
                         Callers(edges[..i], m) + if m == e.target then {e.source} else {} by {
        assert edges[..i + 1] == edges[..i] + [e];
      }
      reverse := reverse[e.target := known + {e.source}];
    }
    assert edges[..|edges|] == edges;
  }

  /** The changed modules in some order; the source sorts them, and the result does not depend on it. */
  method Enqueue(changed: set<string>) returns (queue: seq<string>)
    ensures forall m :: m in queue <==> m in changed
    ensures forall i, j :: 0 <= i < j < |queue| ==> queue[i] != queue[j]
  {
    queue := [];
    var pending := changed;
    while pending != {}
      invariant pending <= changed
      invariant forall m :: m in queue <==> m in changed && m !in pending
      invariant forall i, j :: 0 <= i < j < |queue| ==> queue[i] != queue[j]
      decreases pending
    {
      var m :| m in pending;
      queue := queue + [m];
      pending := pending - {m};
    }
  }

  /**
   Every module gets exactly its shortest distance, and it gets one if and only if that distance is
   at most 4, whatever the graph.
   */
  method AssignDistances(edges: seq<Edge>, changed: set<string>) returns (distance: Distances)
    ensures forall m :: m in distance <==> exists d: nat :: d <= 4 && IsDistance(edges, changed, m, d)
    ensures forall m :: m in distance ==> IsDistance(edges, changed, m, distance[m])
  {
    var reverse := Reverse(edges);
    distance := map m | m in changed :: 0;
    var queue := Enqueue(changed);
    ghost var everything := Modules(edges, changed);
    ghost var unassigned := everything - distance.Keys;
    ghost var level: nat := 0;
    while queue != []
      invariant distance.Keys <= everything && unassigned == everything - distance.Keys
      invariant Exact(edges, changed, distance)
      invariant QueueOrdered(queue, distance, level)
      invariant Closed(edges, queue, distance, level)
      decreases unassigned, |queue|
    {
      var target := queue[0];
      var rest := queue[1..];
      PopKeeps(edges, queue, distance, level);
      level := distance[target];
      var callers := if target in reverse then reverse[target] else {};
      if distance[target] >= CUTOFF {
        queue := rest;
        continue;
      }
      assert callers == Callers(edges, target) <= everything;
      ghost var before := distance;
      distance, queue := Relax(edges, changed, target, callers, distance, rest);
      ShrinkUnassigned(everything, before, distance);
      unassigned := everything - distance.Keys;
    }
    FinishSearch(edges, changed, distance, level);
  }

  /** The modules the search can ever reach. */
  ghost function Modules(edges: seq<Edge>, changed: set<string>): set<string> {
    changed + set e | e in edges :: e.source
  }

  lemma {:induction false} ShrinkUnassigned(everything: set<string>, before: Distances, after: Distances)
    requires before.Keys <= after.Keys <= everything
    ensures everything - after.Keys < everything - before.Keys || after.Keys == before.Keys
  {
    if after.Keys != before.Keys {
      var m :| m in after.Keys && m !in before.Keys;
    }
  }

  /** Taking the nearest module off the queue. */
  lemma {:induction false} PopKeeps(edges: seq<Edge>, queue: seq<string>, distance: Distances, level: nat)
    requires queue != [] && QueueOrdered(queue, distance, level) && Closed(edges, queue, distance, level)
    ensures QueueOrdered(queue[1..], distance, distance[queue[0]]) && queue[0] !in queue[1..]
    ensures ClosedExcept(edges, queue[1..], distance, distance[queue[0]], queue[0])
  {
    assert forall i :: 0 <= i < |queue[1..]| ==> queue[1..][i] == queue[i + 1];
    assert forall m :: m in queue <==> m == queue[0] || m in queue[1..];
  }

  lemma {:induction false} FinishSearch(edges: seq<Edge>, changed: set<string>, distance: Distances, level: nat)
    requires Exact(edges, changed, distance) && Closed(edges, [], distance, level)
    ensures forall m :: m in distance <==> exists d: nat :: d <= CUTOFF && IsDistance(edges, changed, m, d)
  {
    NearerAssigned(edges, changed, distance, CUTOFF, CUTOFF);
    forall m, d: nat | d <= CUTOFF && IsDistance(edges, changed, m, d) ensures m in distance {
      WithinGrows(edges, changed, d, CUTOFF);
    }
  }

  /** Assigning one more caller keeps the distances exact and the queue ordered. */
  lemma {:induction false} ExactInsert(
    edges: seq<Edge>, changed: set<string>, distance: Distances, target: string, caller: string
  )
    requires Exact(edges, changed, distance) && target in distance && distance[target] < CUTOFF
    requires Within(edges, changed, distance[target]) <= distance.Keys
    requires caller in Callers(edges, target) && caller !in distance
    ensures Exact(edges, changed, distance[caller := distance[target] + 1])
  {
    var after := distance[caller := distance[target] + 1];
    CallerIsWithin(edges, changed, target, caller, distance[target]);
    forall m | m in after ensures after[m] <= CUTOFF && IsDistance(edges, changed, m, after[m]) {
      if m != caller {
        assert m in distance && after[m] == distance[m];
      }
    }
  }

  lemma {:induction false} QueueInsert(queue: seq<string>, distance: Distances, level: nat, caller: string)
    requires QueueOrdered(queue, distance, level) && caller !in distance
    ensures QueueOrdered(queue + [caller], distance[caller := level + 1], level)
  {
  }

  lemma {:induction false} ClosedInsert(
    edges: seq<Edge>, queue: seq<string>, distance: Distances, target: string, caller: string
  )
    requires target in distance && caller !in distance
    requires ClosedExcept(edges, queue, distance, distance[target], target)
    ensures ClosedExcept(edges, queue + [caller], distance[caller := distance[target] + 1], distance[target], target)
  {
    assert forall m :: m in queue + [caller] <==> m in queue || m == caller;
  }

  /** The search state while the callers of a target are handled. */
  ghost predicate Relaxing(edges: seq<Edge>, changed: set<string>, target: string, distance: Distances,
                           queue: seq<string>) {
    && target in distance && distance[target] < CUTOFF
    && Exact(edges, changed, distance)
    && Within(edges, changed, distance[target]) <= distance.Keys
    && QueueOrdered(queue, distance, distance[target]) && target !in queue
    && ClosedExcept(edges, queue, distance, distance[target], target)
  }

  lemma {:induction false} RelaxOne(edges: seq<Edge>, changed: set<string>, target: string, distance: Distances,
                                    queue: seq<string>, caller: string)
    requires Relaxing(edges, changed, target, distance, queue)
    requires caller in Callers(edges, target) && caller !in distance
    ensures Relaxing(edges, changed, target, distance[caller := distance[target] + 1], queue + [caller])
  {
    ExactInsert(edges, changed, distance, target, caller);
    QueueInsert(queue, distance, distance[target], caller);
    ClosedInsert(edges, queue, distance, target, caller);
  }

  /** Once all callers are handled, the target is closed as well. */
  lemma {:induction false} RelaxedAll(
    edges: seq<Edge>, changed: set<string>, target: string, distance: Distances, queue: seq<string>
  )
    requires Relaxing(edges, changed, target, distance, queue) && Callers(edges, target) <= distance.Keys
    ensures Closed(edges, queue, distance, distance[target])
  {
  }

  /** The inner loop: every caller without a distance gets the next one and joins the queue. */
  method Relax(edges: seq<Edge>, changed: set<string>, target: string, callers: set<string>,
               distance: Distances, queue: seq<string>)
    returns (distance': Distances, queue': seq<string>)
    requires Exact(edges, changed, distance) && target in distance && distance[target] < CUTOFF
    requires callers == Callers(edges, target)
    requires QueueOrdered(queue, distance, distance[target]) && target !in queue
    requires ClosedExcept(edges, queue, distance, distance[target], target)
    ensures Exact(edges, changed, distance')
    ensures distance'.Keys == distance.Keys + callers && target in distance' && distance'[target] == distance[target]
    ensures QueueOrdered(queue', distance', distance[target])
    ensures Closed(edges, queue', distance', distance[target])
    ensures distance'.Keys == distance.Keys ==> queue' == queue
  {
    distance', queue' := distance, queue;
    var pending := callers;
    NearerAssigned(edges, changed, distance, distance[target], distance[target]);
    while pending != {}
      invariant pending <= callers
      invariant distance'.Keys == distance.Keys + (callers - pending)
      invariant Relaxing(edges, changed, target, distance', queue') && distance'[target] == distance[target]
      invariant distance'.Keys == distance.Keys ==> queue' == queue
      decreases pending
    {
      var caller :| caller in pending;
      pending := pending - {caller};
      if caller !in distance' {
        RelaxOne(edges, changed, target, distance', queue', caller);
        distance' := distance'[caller := distance'[target] + 1];
        queue' := queue' + [caller];
      }
    }
    RelaxedAll(edges, changed, target, distance', queue');
  }
}
