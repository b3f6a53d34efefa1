/**
 The order that a stable sort gives to a list (the sorted rosters of src/firelens/live.py:519-734), as the
 places of the list in the order in which the roster shows them.
 */
module RosterOrder {
  import opened Sequences
  import opened LiveRecords
  import opened LiveContracts
  import opened LiveAdmission
  import opened LiveAdmissionLaws
  import opened LiveMap

  type Comparison = (nat, nat) -> bool

  // ---------- stable order of places ----------

  ghost predicate InRange(order: seq<nat>, n: nat) {
    forall a :: 0 <= a < |order| ==> order[a] < n
  }

  /** Where `i` goes: behind the last place that is not larger. */
  function Place(order: seq<nat>, i: nat, leq: Comparison): (p: nat)
    ensures p <= |order|
  {
    if order == [] || leq(order[|order| - 1], i) then |order| else Place(order[..|order| - 1], i, leq)
  }

  function InsertPlace(order: seq<nat>, i: nat, leq: Comparison): seq<nat> {
    var p := Place(order, i, leq);
    order[..p] + [i] + order[p..]
  }

  /** The places 0 to `n` - 1 in stable order. */
  function Order(n: nat, leq: Comparison): seq<nat> {
    if n == 0 then [] else InsertPlace(Order(n - 1, leq), n - 1, leq)
  }

  ghost predicate Total(leq: Comparison, i: nat, j: nat) {
    leq(i, j) || leq(j, i)
  }

  ghost predicate Transitive(leq: Comparison, i: nat, j: nat, k: nat) {
    leq(i, j) && leq(j, k) ==> leq(i, k)
  }

  ghost predicate Preorder(leq: Comparison, n: nat) {
    && (forall i, j :: 0 <= i < n && 0 <= j < n ==> Total(leq, i, j))
    && (forall i, j, k :: 0 <= i < n && 0 <= j < n && 0 <= k < n ==> Transitive(leq, i, j, k))
  }

  ghost predicate Ordered(order: seq<nat>, leq: Comparison) {
    forall a, b :: 0 <= a < b < |order| ==> leq(order[a], order[b])
  }

  /** Exactly the places up to `n`, each of them once. */
  ghost predicate ListsAll(order: seq<nat>, n: nat) {
    |order| == n && InRange(order, n) && forall k :: 0 <= k < n ==> k in order
  }

  lemma {:induction false} PlaceSplits(order: seq<nat>, i: nat, leq: Comparison, n: nat)
    requires Preorder(leq, n) && InRange(order, n) && i < n && Ordered(order, leq)
    ensures forall a :: 0 <= a < |order| ==> (a < Place(order, i, leq) <==> leq(order[a], i))
  {
    if order != [] {
      var m := |order| - 1;
      if leq(order[m], i) {
        forall a | 0 <= a < |order| ensures leq(order[a], i) {
          assert a < m ==> leq(order[a], order[m]);
          assert Transitive(leq, order[a], order[m], i);
        }
      } else {
        PlaceSplits(order[..m], i, leq, n);
        forall a | 0 <= a < |order| ensures a < Place(order, i, leq) <==> leq(order[a], i) {
          assert a < m ==> order[..m][a] == order[a];
        }
      }
    }
  }

  lemma {:induction false} InsertKeepsOrder(order: seq<nat>, i: nat, leq: Comparison, n: nat)
    requires Preorder(leq, n) && InRange(order, n) && i < n && Ordered(order, leq)
    ensures Ordered(InsertPlace(order, i, leq), leq)
  {
    var p, whole := Place(order, i, leq), InsertPlace(order, i, leq);
    PlaceSplits(order, i, leq, n);
    forall a, b | 0 <= a < b < |whole| ensures leq(whole[a], whole[b]) {
      var x, y := if a < p then a else a - 1, if b < p then b else b - 1;
      assert a != p ==> whole[a] == order[x];
      assert b != p ==> whole[b] == order[y];
      if a == p {
        assert Total(leq, i, order[y]);
      }
    }
  }

  lemma {:induction false} InsertListsAll(order: seq<nat>, i: nat, leq: Comparison)
    requires ListsAll(order, i)
    ensures ListsAll(InsertPlace(order, i, leq), i + 1)
  {
    var p := Place(order, i, leq);
    assert order == order[..p] + order[p..];
    assert forall k :: k in order || k == i ==> k in InsertPlace(order, i, leq);
  }

  lemma {:induction false} OrderIsOrdered(n: nat, m: nat, leq: Comparison)
    requires Preorder(leq, m) && n <= m
    ensures ListsAll(Order(n, leq), n) && Ordered(Order(n, leq), leq)
  {
    if n > 0 {
      OrderIsOrdered(n - 1, m, leq);
      InsertListsAll(Order(n - 1, leq), n - 1, leq);
      InsertKeepsOrder(Order(n - 1, leq), n - 1, leq, m);
    }
  }

  // ---------- when two orders agree ----------

  /** Two comparisons agree on a pair of places. */
  ghost predicate PairAlike(i: nat, j: nat, a: Comparison, b: Comparison) {
    a(i, j) <==> b(i, j)
  }

  /** They agree on every pair that ends in `i`. */
  ghost predicate AlikeWith(i: nat, a: Comparison, b: Comparison) {
    forall k :: 0 <= k < i ==> PairAlike(k, i, a, b)
  }

  ghost predicate AllPairsAlike(n: nat, a: Comparison, b: Comparison) {
    forall i, j :: 0 <= i < j < n ==> PairAlike(i, j, a, b)
  }

  lemma {:induction false} SamePlace(order: seq<nat>, i: nat, a: Comparison, b: Comparison)
    requires forall k :: 0 <= k < |order| ==> PairAlike(order[k], i, a, b)
    ensures Place(order, i, a) == Place(order, i, b)
  {
    if order != [] {
      var m := |order| - 1;
      assert PairAlike(order[m], i, a, b);
      SamePlace(order[..m], i, a, b);
    }
  }

  /** A new place tells where it was inserted, and into what. */
  lemma {:induction false} InsertionKnown(x: seq<nat>, p: nat, y: seq<nat>, q: nat, i: nat)
    requires p <= |x| && q <= |y| && i !in x && i !in y
    requires x[..p] + [i] + x[p..] == y[..q] + [i] + y[q..]
    ensures x == y && p == q
  {
    var u, w := x[..p] + [i] + x[p..], y[..q] + [i] + y[q..];
    assert u[p] == i && w[q] == i;
    assert x == u[..p] + u[p + 1..] && y == w[..p] + w[p + 1..];
  }

  /** Equal orders with one more place: the orders before were equal, and the new place compares alike with all. */
  lemma {:induction false} OrdersAgree(i: nat, m: nat, a: Comparison, b: Comparison)
    requires Preorder(a, m) && Preorder(b, m) && i < m && Order(i + 1, a) == Order(i + 1, b)
    ensures Order(i, a) == Order(i, b)
    ensures AlikeWith(i, a, b)
  {
    var x, y := Order(i, a), Order(i, b);
    OrderIsOrdered(i, m, a);
    OrderIsOrdered(i, m, b);
    InsertionKnown(x, Place(x, i, a), y, Place(y, i, b), i);
    PlaceSplits(x, i, a, m);
    PlaceSplits(y, i, b, m);
    forall k | 0 <= k < i ensures PairAlike(k, i, a, b) {
      assert k in x;
      var at :| 0 <= at < |x| && x[at] == k;
    }
  }

  lemma {:induction false} PairsAgree(i: nat, m: nat, a: Comparison, b: Comparison)
    requires Preorder(a, m) && i < m && Order(i, a) == Order(i, b)
    requires AlikeWith(i, a, b)
    ensures Order(i + 1, a) == Order(i + 1, b)
  {
    OrderIsOrdered(i, m, a);
    var x := Order(i, a);
    forall k | 0 <= k < |x| ensures PairAlike(x[k], i, a, b) {
      assert x[k] in x;
    }
    SamePlace(x, i, a, b);
  }

  lemma {:induction false} OneMorePlace(i: nat, a: Comparison, b: Comparison)
    ensures AllPairsAlike(i + 1, a, b) <==> AllPairsAlike(i, a, b) && AlikeWith(i, a, b)
  {
    if AllPairsAlike(i + 1, a, b) {
      forall k | 0 <= k < i ensures PairAlike(k, i, a, b) {
      }
    }
  }

  lemma {:induction false} OrderStepIff(i: nat, m: nat, a: Comparison, b: Comparison)
    requires Preorder(a, m) && Preorder(b, m) && i < m
    ensures Order(i + 1, a) == Order(i + 1, b) <==> Order(i, a) == Order(i, b) && AlikeWith(i, a, b)
  {
    if Order(i + 1, a) == Order(i + 1, b) {
      OrdersAgree(i, m, a, b);
    } else if Order(i, a) == Order(i, b) && AlikeWith(i, a, b) {
      PairsAgree(i, m, a, b);
    }
  }

  /** Stable orders agree exactly when the comparisons agree on every pair of places. */
  lemma {:induction false} SameOrderIff(n: nat, m: nat, a: Comparison, b: Comparison)
    requires Preorder(a, m) && Preorder(b, m) && n <= m
    ensures Order(n, a) == Order(n, b) <==> AllPairsAlike(n, a, b)
  {
    if n > 0 {
      SameOrderIff(n - 1, m, a, b);
      OrderStepIff(n - 1, m, a, b);
      OneMorePlace(n - 1, a, b);
    }
  }

  // ---------- the order of a roster ----------

  /** The list read in a given order. */
  function Pick<T>(s: seq<T>, order: seq<nat>): (picked: seq<T>)
    requires InRange(order, |s|)
    ensures |picked| == |order|
    ensures forall a :: 0 <= a < |order| ==> picked[a] == s[order[a]]
  {
    if order == [] then [] else Pick(s, order[..|order| - 1]) + [s[order[|order| - 1]]]
  }

  function ByResult(results: seq<LiveResult>): Comparison {
    (i: nat, j: nat) => i < |results| && j < |results| && ResultLeq(results[i], results[j])
  }

  /** The places of the records in the order in which the sorted roster shows them. */
  function Listing(results: seq<LiveResult>): seq<nat> {
    Order(|results|, ByResult(results))
  }

  lemma {:induction false} ResultTotal(a: LiveResult, b: LiveResult)
    ensures ResultLeq(a, b) || ResultLeq(b, a)
  {
    LexTotal(a.resultId, b.resultId);
  }

  lemma {:induction false} ResultsPreordered(results: seq<LiveResult>)
    ensures Preorder(ByResult(results), |results|)
  {
    var leq, n := ByResult(results), |results|;
    forall i, j | 0 <= i < n && 0 <= j < n ensures Total(leq, i, j) {
      ResultTotal(results[i], results[j]);
    }
    forall i, j, k | 0 <= i < n && 0 <= j < n && 0 <= k < n ensures Transitive(leq, i, j, k) {
      if leq(i, j) && leq(j, k) {
        ResultTransitive(results[i], results[j], results[k]);
      }
    }
  }

  lemma {:induction false} InsertPicks(results: seq<LiveResult>, order: seq<nat>, i: nat)
    requires InRange(order, |results|) && i < |results|
    ensures InRange(InsertPlace(order, i, ByResult(results)), |results|)
    ensures Insert(Pick(results, order), results[i]) == Pick(results, InsertPlace(order, i, ByResult(results)))
  {
    var leq, n := ByResult(results), |order| - 1;
    if order != [] {
      assert Pick(results, order)[..n] == Pick(results, order[..n]);
    }
    if order != [] && !leq(order[n], i) {
      InsertPicks(results, order[..n], i);
      InsertBeforeLast(order, i, leq);
      PickSnoc(results, InsertPlace(order[..n], i, leq), order[n]);
    } else {
      assert order[..|order|] + [i] + order[|order|..] == order + [i];
      PickSnoc(results, order, i);
    }
  }

  lemma {:induction false} PickSnoc(results: seq<LiveResult>, order: seq<nat>, i: nat)
    requires InRange(order, |results|) && i < |results|
    ensures InRange(order + [i], |results|)
    ensures Pick(results, order + [i]) == Pick(results, order) + [results[i]]
  {
  }

  lemma {:induction false} InsertBeforeLast(order: seq<nat>, i: nat, leq: Comparison)
    requires order != [] && !leq(order[|order| - 1], i)
    ensures InsertPlace(order, i, leq) == InsertPlace(order[..|order| - 1], i, leq) + [order[|order| - 1]]
  {
    var n, p := |order| - 1, Place(order, i, leq);
    assert order[..n][..p] == order[..p] && order[..n][p..] + [order[n]] == order[p..];
  }

  /** Sorting lists the records in that order. */
  lemma {:induction false} SortListsInOrder(results: seq<LiveResult>, n: nat)
    requires n <= |results|
    ensures InRange(Order(n, ByResult(results)), |results|)
    ensures SortResults(results[..n]) == Pick(results, Order(n, ByResult(results)))
  {
    if n > 0 {
      SortListsInOrder(results, n - 1);
      assert results[..n][..n - 1] == results[..n - 1];
      InsertPicks(results, Order(n - 1, ByResult(results)), n - 1);
    }
  }

  /** `order` names the places of `results` in the order of `roster`. */
  ghost predicate Lists(roster: seq<LiveResult>, results: seq<LiveResult>, order: seq<nat>) {
    && |order| == |results| && InRange(order, |results|)
    && roster == Pick(results, order)
  }

  ghost predicate IdsDiffer(results: seq<LiveResult>, i: nat, j: nat)
    requires i < |results| && j < |results|
  {
    results[i].resultId != results[j].resultId
  }

  ghost predicate DistinctIds(results: seq<LiveResult>) {
    forall i, j :: 0 <= i < j < |results| ==> IdsDiffer(results, i, j)
  }

  /** Where IDs are distinct, a roster has one order only. */
  lemma {:induction false} OneListing(roster: seq<LiveResult>, results: seq<LiveResult>, x: seq<nat>, y: seq<nat>)
    requires DistinctIds(results) && Lists(roster, results, x) && Lists(roster, results, y)
    ensures x == y
  {
    forall a | 0 <= a < |x| ensures x[a] == y[a] {
      assert results[x[a]] == roster[a] == results[y[a]];
      assert x[a] < y[a] ==> IdsDiffer(results, x[a], y[a]);
      assert y[a] < x[a] ==> IdsDiffer(results, y[a], x[a]);
    }
  }

  lemma {:induction false} SortHasListing(results: seq<LiveResult>)
    ensures Lists(SortResults(results), results, Listing(results))
  {
    SortListsInOrder(results, |results|);
    assert results[..|results|] == results;
    ResultsPreordered(results);
    OrderIsOrdered(|results|, |results|, ByResult(results));
  }

  /** One order of the places serves both rosters. */
  ghost predicate SameRosterOrder(a: seq<LiveResult>, b: seq<LiveResult>) {
    exists order :: Lists(SortResults(a), a, order) && Lists(SortResults(b), b, order)
  }

  /** Two lists place a pair of records alike. */
  ghost predicate PairSortsAlike(a: seq<LiveResult>, b: seq<LiveResult>, i: nat, j: nat)
    requires i < |a| == |b| && j < |a|
  {
    ResultLeq(a[i], a[j]) <==> ResultLeq(b[i], b[j])
  }

  ghost predicate AllPairsSortAlike(a: seq<LiveResult>, b: seq<LiveResult>)
    requires |a| == |b|
  {
    forall i, j :: 0 <= i < j < |a| ==> PairSortsAlike(a, b, i, j)
  }

  /** For distinct IDs two rosters have the same order exactly when every pair of records compares alike. */
  lemma {:induction false} SameRosterOrderIff(a: seq<LiveResult>, b: seq<LiveResult>)
    requires |a| == |b| && DistinctIds(a) && DistinctIds(b)
    ensures SameRosterOrder(a, b) <==> AllPairsSortAlike(a, b)
  {
    SortHasListing(a);
    SortHasListing(b);
    ListingsAgreeIff(a, b);
    if order :| Lists(SortResults(a), a, order) && Lists(SortResults(b), b, order) {
      OneListing(SortResults(a), a, order, Listing(a));
      OneListing(SortResults(b), b, order, Listing(b));
    }
  }

  /** The same of the stable orders themselves, whatever the IDs. */
  lemma {:induction false} ListingsAgreeIff(a: seq<LiveResult>, b: seq<LiveResult>)
    requires |a| == |b|
    ensures Listing(a) == Listing(b) <==> AllPairsSortAlike(a, b)
  {
    ResultsPreordered(a);
    ResultsPreordered(b);
    SameOrderIff(|a|, |a|, ByResult(a), ByResult(b));
    forall i, j | 0 <= i < j < |a|
      ensures PairAlike(i, j, ByResult(a), ByResult(b)) <==> PairSortsAlike(a, b, i, j)
    {
    }
  }

  // ---------- the part of one layer in the roster ----------

  function OfKind(results: seq<LiveResult>, kind: Kind): seq<LiveResult> {
    if results == [] then []
    else
      var n := |results| - 1;
      OfKind(results[..n], kind) + if results[n].kind == kind then [results[n]] else []
  }

  lemma {:induction false} OfKindSnoc(results: seq<LiveResult>, r: LiveResult, kind: Kind)
    ensures OfKind(results + [r], kind) ==
            if r.kind == kind then OfKind(results, kind) + [r] else OfKind(results, kind)
  {
    assert (results + [r])[..|results|] == results;
    assert OfKind(results, kind) + [] == OfKind(results, kind);
  }

  lemma {:induction false} OfKindAppend(a: seq<LiveResult>, b: seq<LiveResult>, kind: Kind)
    ensures OfKind(a + b, kind) == OfKind(a, kind) + OfKind(b, kind)
  {
    if b == [] {
      assert a + b == a;
    } else {
      var n := |b| - 1;
      assert (a + b)[..|a| + n] == a + b[..n];
      OfKindAppend(a, b[..n], kind);
    }
  }

  lemma {:induction false} NoneOfKind(results: seq<LiveResult>, kind: Kind)
    requires forall r :: r in results ==> r.kind != kind
    ensures OfKind(results, kind) == []
  {
    if results != [] {
      NoneOfKind(results[..|results| - 1], kind);
    }
  }

  lemma {:induction false} AllOfKind(results: seq<LiveResult>, kind: Kind)
    requires forall r :: r in results ==> r.kind == kind
    ensures OfKind(results, kind) == results
  {
    if results != [] {
      AllOfKind(results[..|results| - 1], kind);
    }
  }

  lemma {:induction false} SmallerKindsOnly(sorted: seq<LiveResult>, kind: Kind)
    requires Sorted(sorted) && sorted != [] && KindRank(sorted[|sorted| - 1].kind) < KindRank(kind)
    ensures OfKind(sorted, kind) == []
  {
    forall x | x in sorted ensures x.kind != kind {
      var i :| 0 <= i < |sorted| && sorted[i] == x;
      assert i < |sorted| - 1 ==> ResultLeq(sorted[i], sorted[|sorted| - 1]);
    }
    NoneOfKind(sorted, kind);
  }

  /** A record that goes to the end of the roster goes to the end of its part. */
  lemma {:induction false} AppendToPart(sorted: seq<LiveResult>, r: LiveResult)
    requires Sorted(sorted) && sorted != [] && ResultLeq(sorted[|sorted| - 1], r)
    ensures Insert(OfKind(sorted, r.kind), r) == OfKind(sorted, r.kind) + [r]
  {
    var n := |sorted| - 1;
    if sorted[n].kind == r.kind {
      assert OfKind(sorted, r.kind) == OfKind(sorted[..n], r.kind) + [sorted[n]];
    } else {
      SmallerKindsOnly(sorted, r.kind);
    }
  }

  /** A record that goes before the last one does so in the part of that one as well. */
  lemma {:induction false} InsertBeforeLastOfPart(before: seq<LiveResult>, last: LiveResult, r: LiveResult)
    requires !ResultLeq(last, r)
    ensures Insert(before + [last], r) == Insert(before, r) + [last]
  {
    assert (before + [last])[..|before|] == before;
  }

  /** Inserting into a sorted roster inserts into the part of that kind only. */
  lemma {:induction false} InsertIntoPart(sorted: seq<LiveResult>, r: LiveResult, kind: Kind)
    requires Sorted(sorted)
    ensures OfKind(Insert(sorted, r), kind) ==
            if r.kind == kind then Insert(OfKind(sorted, kind), r) else OfKind(sorted, kind)
  {
    var n := |sorted| - 1;
    if sorted == [] || ResultLeq(sorted[n], r) {
      OfKindSnoc(sorted, r, kind);
      if sorted != [] {
        AppendToPart(sorted, r);
      }
    } else {
      var before := sorted[..n];
      assert sorted == before + [sorted[n]];
      InsertIntoPart(before, r, kind);
      InsertBeforeLastOfPart(before, sorted[n], r);
      OfKindSnoc(Insert(before, r), sorted[n], kind);
      OfKindSnoc(before, sorted[n], kind);
      if r.kind == kind && sorted[n].kind == kind {
        InsertBeforeLastOfPart(OfKind(before, kind), sorted[n], r);
      }
    }
  }

  lemma {:induction false} SortOfPart(results: seq<LiveResult>, kind: Kind)
    ensures OfKind(SortResults(results), kind) == SortResults(OfKind(results, kind))
  {
    if results != [] {
      var before, last := results[..|results| - 1], results[|results| - 1];
      assert results == before + [last];
      SortOfPart(before, kind);
      SortSorts(before);
      SortSnoc(before, last);
      OfKindSnoc(before, last, kind);
      InsertIntoPart(SortResults(before), last, kind);
      SortSnoc(OfKind(before, kind), last);
    }
  }

  lemma {:induction false} SortSnoc(results: seq<LiveResult>, r: LiveResult)
    ensures SortResults(results + [r]) == Insert(SortResults(results), r)
  {
    assert (results + [r])[..|results|] == results;
  }

  /** In a map of distinct layers, the part of a layer is its own sorted roster. */
  lemma {:induction false} LayerPartOfRoster(layers: seq<Kind>, outcomes: seq<LayerOutcome>, i: nat)
    requires Sound(layers, outcomes) && Distinct(layers) && i < |layers|
    ensures OfKind(ComposedMap(layers, outcomes).results, layers[i]) == SortResults(outcomes[i].results)
  {
    SortOfPart(CombinedResults(outcomes), layers[i]);
    CombinedPart(layers, outcomes, i);
  }

  lemma {:induction false} OtherLayersLack(layers: seq<Kind>, outcomes: seq<LayerOutcome>, kind: Kind)
    requires Sound(layers, outcomes) && kind !in layers
    ensures OfKind(CombinedResults(outcomes), kind) == []
  {
    LayerLists(layers, outcomes);
    NoneOfKind(CombinedResults(outcomes), kind);
  }

  lemma {:induction false} CombinedPart(layers: seq<Kind>, outcomes: seq<LayerOutcome>, i: nat)
    requires Sound(layers, outcomes) && Distinct(layers) && i < |layers|
    ensures OfKind(CombinedResults(outcomes), layers[i]) == outcomes[i].results
  {
    var n := |layers| - 1;
    var added := outcomes[n].results;
    assert LayerIsSound(outcomes[n], layers[n]);
    assert CombinedResults(outcomes) == CombinedResults(outcomes[..n]) + added;
    OfKindAppend(CombinedResults(outcomes[..n]), added, layers[i]);
    if i < n {
      CombinedPart(layers[..n], outcomes[..n], i);
      NoneOfKind(added, layers[i]);
    } else {
      OtherLayersLack(layers[..n], outcomes[..n], layers[n]);
      AllOfKind(added, layers[n]);
    }
  }
}
