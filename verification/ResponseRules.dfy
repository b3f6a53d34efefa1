/**
 What the validators of live records, layer statuses, pages and responses accept
 (src/firelens/live_contracts.py:248-616), said of the fields and of the places in the lists.
 */
module ResponseRules {
  import opened Wrappers
  import opened Sequences
  import opened LiveRecords
  import opened LiveContracts

  // ---------- single records and statuses ----------

  /** The source clock runs more than five minutes ahead of the retrieval. */
  ghost predicate IsAhead(updated: int, retrieved: int) {
    updated - retrieved > 5 * 60 * 1_000_000
  }

  /** A status of a layer that was observed, or of one that was not. */
  ghost predicate GoodStatus(s: LayerStatus) {
    if s.available then
      && s.matchingResultCount >= 0 && s.omittedGeometryCount >= 0 && s.omittedStatusCount >= 0
      && !s.invalidGeometry
      && match (s.sourceUpdatedAt, s.retrievedAt, s.freshness)
         case (Some(updated), Some(retrieved), Some(freshness)) => IsAhead(updated, retrieved) ==> freshness == Stale
         case _ => false
    else
      && s.matchingResultCount == 0 && s.omittedGeometryCount == 0 && s.omittedStatusCount == 0
      && s.sourceUpdatedAt == None && s.retrievedAt == None && s.freshness == None
  }

  lemma {:induction false} ResultAcceptedIff(r: LiveResult)
    ensures ValidResult(r) <==>
            r.resultId != "" && |r.resultId| < 201 &&
            (IsAhead(r.sourceUpdatedAt, r.retrievedAt) ==> r.freshness == Stale)
  {
  }

  lemma {:induction false} StatusAcceptedIff(s: LayerStatus)
    ensures ValidStatus(s) <==> GoodStatus(s)
  {
  }

  /** A clock that runs ahead is never shown as fresh, and nothing else changes. */
  lemma {:induction false} ObservationIs(freshness: Freshness, updated: int, retrieved: int)
    ensures FreshnessForObservation(freshness, updated, retrieved) == Fresh <==>
            freshness == Fresh && !IsAhead(updated, retrieved)
  {
  }

  // ---------- the lists of a response ----------

  function Partial(): LayerStatus -> bool {
    (s: LayerStatus) => s.omittedGeometryCount > 0 || s.omittedStatusCount > 0 ||
                        s.omittedGeometryCount < 0 || s.omittedStatusCount < 0
  }

  function Missing(): LayerStatus -> bool {
    (s: LayerStatus) => !s.available
  }

  function OfKind(kind: Kind): LiveResult -> bool {
    (r: LiveResult) => r.kind == kind
  }

  /** The list names the layers whose status meets `p`, in order. */
  ghost predicate Lists(kinds: seq<Kind>, statuses: seq<LayerStatus>, p: LayerStatus -> bool) {
    |kinds| == |Places(statuses, p)| && forall k :: 0 <= k < |kinds| ==> NamesLayer(kinds, statuses, p, k)
  }

  ghost predicate NamesLayer(kinds: seq<Kind>, statuses: seq<LayerStatus>, p: LayerStatus -> bool, k: nat)
    requires k < |kinds| == |Places(statuses, p)|
  {
    var i := Places(statuses, p)[k];
    i < |statuses| && kinds[k] == statuses[i].kind
  }

  lemma {:induction false} ListGrows(kinds: seq<Kind>, statuses: seq<LayerStatus>, s: LayerStatus,
                                     p: LayerStatus -> bool)
    requires Lists(kinds, statuses, p)
    ensures Lists(kinds + if p(s) then [s.kind] else [], statuses + [s], p)
  {
    OneMorePlace(statuses, s, p);
    var longer := kinds + if p(s) then [s.kind] else [];
    forall k | 0 <= k < |longer| ensures NamesLayer(longer, statuses + [s], p, k) {
      assert k < |kinds| ==> NamesLayer(kinds, statuses, p, k);
    }
  }

  lemma {:induction false} KindListsAre(statuses: seq<LayerStatus>)
    ensures Lists(PartialKinds(statuses), statuses, Partial())
    ensures Lists(UnavailableKinds(statuses), statuses, Missing())
  {
    if statuses != [] {
      var before, last := statuses[..|statuses| - 1], statuses[|statuses| - 1];
      KindListsAre(before);
      assert statuses == before + [last];
      ListGrows(PartialKinds(before), before, last, Partial());
      ListGrows(UnavailableKinds(before), before, last, Missing());
    }
  }

  lemma {:induction false} ListIsUnique(a: seq<Kind>, b: seq<Kind>, statuses: seq<LayerStatus>, p: LayerStatus -> bool)
    requires Lists(a, statuses, p) && Lists(b, statuses, p)
    ensures a == b
  {
    forall k | 0 <= k < |a| ensures a[k] == b[k] {
      assert NamesLayer(a, statuses, p, k) && NamesLayer(b, statuses, p, k);
    }
  }

  lemma {:induction false} KindsAre(statuses: seq<LayerStatus>)
    ensures |KindsOf(statuses)| == |statuses|
    ensures forall i :: 0 <= i < |statuses| ==> KindsOf(statuses)[i] == statuses[i].kind
  {
    if statuses != [] {
      KindsAre(statuses[..|statuses| - 1]);
    }
  }

  lemma {:induction false} KindCountIs(results: seq<LiveResult>, kind: Kind)
    ensures CountKind(results, kind) == |Places(results, OfKind(kind))|
  {
    if results != [] {
      KindCountIs(results[..|results| - 1], kind);
    }
  }

  /** The counts of all statuses, added up. */
  lemma {:induction false} TotalIsSum(statuses: seq<LayerStatus>, counts: seq<nat>)
    requires |counts| == |statuses|
    requires forall i :: 0 <= i < |statuses| ==> counts[i] == statuses[i].matchingResultCount
    ensures TotalMatching(statuses) == SumOf(counts)
  {
    if statuses != [] {
      TotalIsSum(statuses[..|statuses| - 1], counts[..|counts| - 1]);
    }
  }

  /** Nothing for no records, their common freshness, or mixed. */
  ghost predicate Labels(freshness: Option<AggregateFreshness>, results: seq<LiveResult>) {
    match freshness
    case None => |results| == 0
    case Some(AllFresh) => |results| > 0 && forall r :: r in results ==> r.freshness == Fresh
    case Some(AllStale) => |results| > 0 && forall r :: r in results ==> r.freshness == Stale
    case Some(Mixed) => Shows(results, Fresh) && Shows(results, Stale)
  }

  ghost predicate Shows(results: seq<LiveResult>, f: Freshness) {
    exists r :: r in results && r.freshness == f
  }

  lemma {:induction false} LabelIsUnique(freshness: Option<AggregateFreshness>, results: seq<LiveResult>)
    ensures Labels(freshness, results) <==> freshness == AggregateLiveFreshness(results)
  {
    var seen := set r | r in results :: r.freshness;
    assert Shows(results, Fresh) <==> Fresh in seen;
    assert Shows(results, Stale) <==> Stale in seen;
    if results != [] {
      assert results[0].freshness in seen;
      assert Shows(results, results[0].freshness);
    }
    SetOfFreshness(seen);
  }

  lemma {:induction false} SetOfFreshness(seen: set<Freshness>)
    ensures seen == {} <==> Fresh !in seen && Stale !in seen
    ensures seen == {Fresh} <==> Fresh in seen && Stale !in seen
    ensures seen == {Stale} <==> Fresh !in seen && Stale in seen
  {
    forall f | f in seen ensures f == Fresh || f == Stale {
    }
  }

  // ---------- map responses ----------

  ghost predicate AllGood(results: seq<LiveResult>, statuses: seq<LayerStatus>) {
    (forall r :: r in results ==> ValidResult(r)) && forall s :: s in statuses ==> ValidStatus(s)
  }

  /** A map response is accepted exactly when its records and statuses are, and its other fields restate them. */
  lemma {:induction false} MapAcceptedIff(m: MapResponse)
    ensures ValidMapResponse(m) <==>
            && AllGood(m.results, m.layerStatuses)
            && |m.layerStatuses| < 4
            && Labels(m.aggregateFreshness, m.results)
            && Lists(m.partialLayers, m.layerStatuses, Partial())
            && (|m.layerStatuses| > 0 ==>
                  && (forall i, j :: 0 <= i < j < |m.layerStatuses| ==>
                        m.layerStatuses[i].kind != m.layerStatuses[j].kind)
                  && Lists(m.unavailableLayers, m.layerStatuses, Missing())
                  && forall s :: s in m.layerStatuses ==>
                       s.matchingResultCount == |Places(m.results, OfKind(s.kind))|)
  {
    var statuses := m.layerStatuses;
    LabelIsUnique(m.aggregateFreshness, m.results);
    KindListsAre(statuses);
    KindsAre(statuses);
    if Lists(m.partialLayers, statuses, Partial()) {
      ListIsUnique(m.partialLayers, PartialKinds(statuses), statuses, Partial());
    }
    if Lists(m.unavailableLayers, statuses, Missing()) {
      ListIsUnique(m.unavailableLayers, UnavailableKinds(statuses), statuses, Missing());
    }
    forall kind ensures CountKind(m.results, kind) == |Places(m.results, OfKind(kind))| {
      KindCountIs(m.results, kind);
    }
  }

  // ---------- pages ----------

  /** The number of pages is the least that holds all results. */
  ghost predicate PagesFor(total: int, size: int, pages: int) {
    pages >= 0 && total <= pages * size && (pages > 0 ==> (pages - 1) * size < total)
  }

  lemma {:induction false} PagesAre(total: nat, size: nat, pages: int)
    requires size > 0
    ensures pages == CeilingDivide(total, size) <==> PagesFor(total, size, pages)
  {
    var q: int := CeilingDivide(total, size);
    Quotient(total + size - 1, size);
    if pages < q {
      Scale(pages, q - 1, size);
    } else if pages > q {
      Scale(q, pages - 1, size);
    }
  }

  lemma {:induction false} Quotient(n: nat, size: nat)
    requires size > 0
    ensures n / size >= 0 && (n / size) * size <= n
    ensures n < (n / size) * size + size && (n / size - 1) * size == (n / size) * size - size
  {
  }

  lemma {:induction false} Scale(a: int, b: int, size: nat)
    requires a <= b
    ensures a * size <= b * size
  {
  }

  ghost predicate GoodPage(p: Pagination) {
    && p.page > 0 && 0 < p.pageSize < 201 && p.totalResults >= 0
    && PagesFor(p.totalResults, p.pageSize, p.totalPages)
    && 0 <= p.returnedResults <= p.pageSize
    && (p.hasPrevious <==> p.page != 1)
    && (p.hasNext <==> p.totalPages - p.page > 0)
  }

  lemma {:induction false} PageAcceptedIff(p: Pagination)
    ensures ValidPagination(p) <==> GoodPage(p)
  {
    if p.totalResults >= 0 && p.pageSize > 0 {
      PagesAre(p.totalResults, p.pageSize, p.totalPages);
    }
  }

  /** A page of records near a place, against its own statuses and its page numbers. */
  lemma {:induction false} NearMeAcceptedIff(n: NearMeResponse)
    ensures ValidNearMeResponse(n) <==>
            && AllGood(n.results, n.layerStatuses) && GoodPage(n.pagination)
            && |n.requestedLayers| in {1, 2, 3} && |n.layerStatuses| < 4
            && n.pagination.returnedResults == |n.results|
            && (forall i, j :: 0 <= i < j < |n.requestedLayers| ==> n.requestedLayers[i] != n.requestedLayers[j])
            && (forall i, j :: 0 <= i < j < |n.unavailableLayers| ==> n.unavailableLayers[i] != n.unavailableLayers[j])
            && (forall k :: k in n.unavailableLayers ==> k in n.requestedLayers)
            && Labels(n.aggregateFreshness, n.results)
            && Lists(n.partialLayers, n.layerStatuses, Partial())
            && (|n.layerStatuses| > 0 ==>
                  && SameKinds(n.layerStatuses, n.requestedLayers)
                  && Lists(n.unavailableLayers, n.layerStatuses, Missing())
                  && n.pagination.totalResults == TotalMatching(n.layerStatuses))
  {
    var statuses := n.layerStatuses;
    PageAcceptedIff(n.pagination);
    LabelIsUnique(n.aggregateFreshness, n.results);
    KindListsAre(statuses);
    SameKindsIff(statuses, n.requestedLayers);
    if Lists(n.partialLayers, statuses, Partial()) {
      ListIsUnique(n.partialLayers, PartialKinds(statuses), statuses, Partial());
    }
    if Lists(n.unavailableLayers, statuses, Missing()) {
      ListIsUnique(n.unavailableLayers, UnavailableKinds(statuses), statuses, Missing());
    }
  }

  ghost predicate SameKinds(statuses: seq<LayerStatus>, kinds: seq<Kind>) {
    |statuses| == |kinds| && forall i :: 0 <= i < |kinds| ==> statuses[i].kind == kinds[i]
  }

  lemma {:induction false} SameKindsIff(statuses: seq<LayerStatus>, kinds: seq<Kind>)
    ensures SameKinds(statuses, kinds) <==> KindsOf(statuses) == kinds
  {
    KindsAre(statuses);
  }
}
