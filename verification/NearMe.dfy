/** Records near a place, and one explicit page of them (src/firelens/live.py:589-734). */
module NearMe {
  import opened Wrappers
  import opened Sequences
  import opened LiveRecords
  import opened LiveContracts
  import opened LiveAdmission
  import opened LiveAdmissionLaws
  import opened LiveMap

  /** The records whose geometry is inside or near the place, each carrying its relation. */
  function Related(results: seq<LiveResult>, relate: Geometry -> Relation): seq<LiveResult> {
    if results == [] then []
    else
      var last := results[|results| - 1];
      var relation := relate(last.geometry);
      Related(results[..|results| - 1], relate) +
      if relation.Inside? || relation.Nearby? then [last.(relation := relation)] else []
  }

  /** Every status recounted for the related records; nothing else about it changes. */
  function Recount(statuses: seq<LayerStatus>, related: seq<LiveResult>): seq<LayerStatus> {
    if statuses == [] then []
    else
      var last := statuses[|statuses| - 1];
      Recount(statuses[..|statuses| - 1], related) +
      [last.(matchingResultCount := CountKind(related, last.kind))]
  }

  /** `_nearby_full` after the map request: a `model_copy` that no validator looks at. */
  method NearbyFull(response: MapResponse, relate: Geometry -> Relation) returns (nearby: MapResponse)
    requires ValidMapResponse(response)
    requires forall r :: r in response.results ==> r.kind in KindsOf(response.layerStatuses)
    requires Sorted(response.results)
    ensures nearby.results == Related(response.results, relate)
    ensures HoldsNear(nearby.results, response.results, relate)
    ensures ValidMapResponse(nearby) && Sorted(nearby.results)
    ensures nearby.unavailableLayers == response.unavailableLayers && nearby.partialLayers == response.partialLayers
    ensures KindsOf(nearby.layerStatuses) == KindsOf(response.layerStatuses)
    ensures TotalMatching(nearby.layerStatuses) == |nearby.results|
  {
    var related: seq<LiveResult> := [];
    for i := 0 to |response.results|
      invariant related == Related(response.results[..i], relate)
    {
      assert response.results[..i + 1][..i] == response.results[..i];
      var result := response.results[i];
      var relation := relate(result.geometry);
      if relation.Unknown? {
        continue;
      }
      if relation.Inside? || relation.Nearby? {
        related := related + [result.(relation := relation)];
      }
    }
    assert response.results[..|response.results|] == response.results;
    nearby := response.(results := related,
                        aggregateFreshness := AggregateLiveFreshness(related),
                        layerStatuses := Recount(response.layerStatuses, related));
    CopyIsValid(response, relate);
    RelatedShowsNear(response.results, relate);
  }

  // ---------- which records are near ----------

  function IsNear(relate: Geometry -> Relation): LiveResult -> bool {
    (r: LiveResult) => relate(r.geometry).Inside? || relate(r.geometry).Nearby?
  }

  /** Exactly the records inside or near the place, each once, in order, and with its relation. */
  ghost predicate ShowsNear(near: seq<LiveResult>, all: seq<LiveResult>, relate: Geometry -> Relation,
                            places: seq<nat>) {
    && (forall a, b :: 0 <= a < b < |places| ==> places[a] < places[b])
    && (forall i :: i in places <==>
          0 <= i < |all| && (relate(all[i].geometry) == Inside || relate(all[i].geometry) == Nearby))
    && |near| == |places|
    && forall k :: 0 <= k < |near| ==>
         places[k] < |all| && near[k] == all[places[k]].(relation := relate(all[places[k]].geometry))
  }

  ghost predicate HoldsNear(near: seq<LiveResult>, all: seq<LiveResult>, relate: Geometry -> Relation) {
    exists places :: ShowsNear(near, all, relate, places)
  }

  lemma {:induction false} RelatedAt(results: seq<LiveResult>, relate: Geometry -> Relation, k: nat)
    requires k < |Places(results, IsNear(relate))|
    ensures |Related(results, relate)| == |Places(results, IsNear(relate))|
    ensures Places(results, IsNear(relate))[k] < |results|
    ensures
      var o := results[Places(results, IsNear(relate))[k]];
      Related(results, relate)[k] == o.(relation := relate(o.geometry))
  {
    var n := |results| - 1;
    PlacesInRange(results, IsNear(relate), k);
    RelatedLength(results[..n], relate);
    if k < |Places(results[..n], IsNear(relate))| {
      RelatedAt(results[..n], relate, k);
    }
  }

  lemma {:induction false} RelatedLength(results: seq<LiveResult>, relate: Geometry -> Relation)
    ensures |Related(results, relate)| == |Places(results, IsNear(relate))|
  {
    if results != [] {
      RelatedLength(results[..|results| - 1], relate);
    }
  }

  lemma {:induction false} RelatedShowsNear(results: seq<LiveResult>, relate: Geometry -> Relation)
    ensures ShowsNear(Related(results, relate), results, relate, Places(results, IsNear(relate)))
  {
    PlacesAreExact(results, IsNear(relate));
    RelatedLength(results, relate);
    var near, places := Related(results, relate), Places(results, IsNear(relate));
    forall k | 0 <= k < |near|
      ensures places[k] < |results| && near[k] == results[places[k]].(relation := relate(results[places[k]].geometry))
    {
      RelatedAt(results, relate, k);
    }
  }

  lemma {:induction false} RelatedMembers(results: seq<LiveResult>, relate: Geometry -> Relation)
    ensures forall r :: r in Related(results, relate) ==>
              exists o :: o in results && r == o.(relation := r.relation) && r.relation == relate(o.geometry)
  {
    if results != [] {
      var n := |results| - 1;
      RelatedMembers(results[..n], relate);
      assert results[n] in results;
    }
  }

  lemma {:induction false} RelatedSorted(results: seq<LiveResult>, relate: Geometry -> Relation)
    requires Sorted(results)
    ensures Sorted(Related(results, relate))
  {
    if results != [] {
      var n := |results| - 1;
      RelatedSorted(results[..n], relate);
      RelatedMembers(results[..n], relate);
      var before, last := Related(results[..n], relate), results[n];
      forall i | 0 <= i < |before| ensures ResultLeq(before[i], last) {
        assert before[i] in before;
        var o :| o in results[..n] && before[i] == o.(relation := before[i].relation);
        assert ResultLeq(o, last);
      }
    }
  }

  lemma {:induction false} RelatedCounts(results: seq<LiveResult>, relate: Geometry -> Relation, kind: Kind)
    ensures CountKind(Related(results, relate), kind) <= CountKind(results, kind)
  {
    if results != [] {
      var n := |results| - 1;
      RelatedCounts(results[..n], relate, kind);
      var before, last := Related(results[..n], relate), results[n].(relation := relate(results[n].geometry));
      assert (before + [last])[..|before|] == before;
      assert before + [] == before;
    }
  }

  lemma {:induction false} RecountKeeps(statuses: seq<LayerStatus>, related: seq<LiveResult>)
    ensures KindsOf(Recount(statuses, related)) == KindsOf(statuses) && |Recount(statuses, related)| == |statuses|
    ensures PartialKinds(Recount(statuses, related)) == PartialKinds(statuses)
    ensures UnavailableKinds(Recount(statuses, related)) == UnavailableKinds(statuses)
    ensures forall s :: s in Recount(statuses, related) ==>
              exists o :: o in statuses && s == o.(matchingResultCount := CountKind(related, o.kind))
  {
    if statuses != [] {
      var n := |statuses| - 1;
      RecountKeeps(statuses[..n], related);
      var before := Recount(statuses[..n], related);
      var last := statuses[n].(matchingResultCount := CountKind(related, statuses[n].kind));
      assert (before + [last])[..n] == before;
      assert statuses[n] in statuses;
    }
  }

  /** Records of several distinct kinds are counted exactly once by the counts of those kinds. */
  lemma {:induction false} RecountTotals(statuses: seq<LayerStatus>, related: seq<LiveResult>)
    requires Distinct(KindsOf(statuses))
    ensures TotalMatching(Recount(statuses, related)) == CountKinds(related, KindsOf(statuses))
  {
    if statuses == [] {
      CountKindsSplit(related, [], Incident);
    } else {
      var n := |statuses| - 1;
      var kinds := KindsOf(statuses);
      KindsLength(statuses);
      assert kinds[..n] == KindsOf(statuses[..n]);
      RecountTotals(statuses[..n], related);
      var before := Recount(statuses[..n], related);
      var last := statuses[n].(matchingResultCount := CountKind(related, statuses[n].kind));
      assert (before + [last])[..|before|] == before;
      RecountKeeps(statuses[..n], related);
      assert forall i :: 0 <= i < n ==> kinds[i] != kinds[n];
      CountKindsSplit(related, kinds[..n], kinds[n]);
      assert kinds == kinds[..n] + [kinds[n]];
    }
  }

  lemma {:induction false} KindsLength(statuses: seq<LayerStatus>)
    ensures |KindsOf(statuses)| == |statuses|
  {
    if statuses != [] {
      KindsLength(statuses[..|statuses| - 1]);
    }
  }

  /** The number of records whose kind is listed. */
  function CountKinds(results: seq<LiveResult>, kinds: seq<Kind>): nat {
    if results == [] then 0
    else CountKinds(results[..|results| - 1], kinds) + if results[|results| - 1].kind in kinds then 1 else 0
  }

  lemma {:induction false} CountKindsSplit(results: seq<LiveResult>, kinds: seq<Kind>, kind: Kind)
    requires kind !in kinds
    ensures CountKinds(results, kinds + [kind]) == CountKinds(results, kinds) + CountKind(results, kind)
    ensures kinds == [] ==> CountKinds(results, kinds) == 0
  {
    if results != [] {
      CountKindsSplit(results[..|results| - 1], kinds, kind);
    }
  }

  lemma {:induction false} CountKindsAll(results: seq<LiveResult>, kinds: seq<Kind>)
    requires forall r :: r in results ==> r.kind in kinds
    ensures CountKinds(results, kinds) == |results|
  {
    if results != [] {
      CountKindsAll(results[..|results| - 1], kinds);
    }
  }

  /** The unvalidated copy satisfies every check that its model would have made. */
  lemma {:induction false} CopyIsValid(response: MapResponse, relate: Geometry -> Relation)
    requires ValidMapResponse(response)
    requires forall r :: r in response.results ==> r.kind in KindsOf(response.layerStatuses)
    requires Sorted(response.results)
    ensures
      var related := Related(response.results, relate);
      var statuses := Recount(response.layerStatuses, related);
      var copy := response.(results := related, aggregateFreshness := AggregateLiveFreshness(related),
                            layerStatuses := statuses);
      && ValidMapResponse(copy) && Sorted(related)
      && KindsOf(statuses) == KindsOf(response.layerStatuses)
      && TotalMatching(statuses) == |related|
  {
    var related := Related(response.results, relate);
    var statuses := Recount(response.layerStatuses, related);
    RelatedMembers(response.results, relate);
    RelatedSorted(response.results, relate);
    RecountKeeps(response.layerStatuses, related);
    RecountTotals(response.layerStatuses, related);
    CountKindsAll(related, KindsOf(response.layerStatuses));
    RecountIsValid(response, relate);
  }

  lemma {:induction false} RecountIsValid(response: MapResponse, relate: Geometry -> Relation)
    requires ValidMapResponse(response)
    ensures
      var related := Related(response.results, relate);
      forall s :: s in Recount(response.layerStatuses, related) ==>
        ValidStatus(s) && s.matchingResultCount == CountKind(related, s.kind)
  {
    var related := Related(response.results, relate);
    RecountKeeps(response.layerStatuses, related);
    forall s | s in Recount(response.layerStatuses, related)
      ensures ValidStatus(s) && s.matchingResultCount == CountKind(related, s.kind)
    {
      var o :| o in response.layerStatuses && s == o.(matchingResultCount := CountKind(related, o.kind));
      RelatedCounts(response.results, relate, o.kind);
    }
  }

  // ---------- one page of the roster ----------

  /** `roster[(page - 1) * size : page * size]`, with Python's tolerance for bounds past the end. */
  function PageOf(roster: seq<LiveResult>, page: nat, size: nat): seq<LiveResult>
    requires page >= 1
  {
    var start := (page - 1) * size;
    roster[Min(start, |roster|)..Min(start + size, |roster|)]
  }

  function OutcomesOf(layers: seq<Kind>, outcome: Kind -> LayerOutcome): seq<LayerOutcome> {
    if layers == [] then []
    else OutcomesOf(layers[..|layers| - 1], outcome) + [outcome(layers[|layers| - 1])]
  }

  lemma {:induction false} OutcomesSound(layers: seq<Kind>, outcome: Kind -> LayerOutcome)
    requires forall k :: LayerIsSound(outcome(k), k)
    ensures Sound(layers, OutcomesOf(layers, outcome))
  {
    if layers != [] {
      OutcomesSound(layers[..|layers| - 1], outcome);
    }
  }

  /** The whole roster near a place, for distinct layers. */
  function Roster(layers: seq<Kind>, outcome: Kind -> LayerOutcome, relate: Geometry -> Relation): seq<LiveResult> {
    Related(SortResults(CombinedResults(OutcomesOf(layers, outcome))), relate)
  }

  lemma {:induction false} RosterIsNear(layers: seq<Kind>, outcome: Kind -> LayerOutcome, relate: Geometry -> Relation)
    ensures HoldsNear(
      Roster(layers, outcome, relate), SortResults(CombinedResults(OutcomesOf(layers, outcome))), relate)
  {
    var all := SortResults(CombinedResults(OutcomesOf(layers, outcome)));
    RelatedShowsNear(all, relate);
  }

  lemma {:induction false} OutcomesAt(layers: seq<Kind>, outcome: Kind -> LayerOutcome, i: nat)
    requires i < |layers|
    ensures |OutcomesOf(layers, outcome)| == |layers| && OutcomesOf(layers, outcome)[i] == outcome(layers[i])
  {
    var n := |layers| - 1;
    if n > 0 {
      OutcomesAt(layers[..n], outcome, if i < n then i else 0);
    }
  }

  /** The records of one page by their places in the roster, and what the page says about itself. */
  ghost predicate DescribesPage(response: NearMeResponse, roster: seq<LiveResult>, page: int, size: int) {
    var start := (page - 1) * size;
    && (forall k :: 0 <= k < |response.results| ==>
          0 <= start + k < |roster| && response.results[k] == roster[start + k])
    && |response.results| ==
        (if start >= |roster| then 0 else if start + size <= |roster| then size else |roster| - start)
    && response.pagination.page == page && response.pagination.pageSize == size
    && response.pagination.totalResults == |roster| && response.pagination.returnedResults == |response.results|
    && (response.pagination.hasPrevious <==> page > 1)
    && (response.pagination.hasNext <==> start + size < |roster|)
  }

  lemma {:induction false} PageIsDescribed(nearby: MapResponse, requested: seq<Kind>, page: nat, size: nat)
    requires page >= 1 && size >= 1
    ensures DescribesPage(PageResponse(nearby, requested, page, size), nearby.results, page, size)
  {
    var start, total := (page - 1) * size, |nearby.results|;
    assert start + size == page * size;
    StartsBeyond(total, size, page + 1);
    assert (page + 1 - 1) * size == page * size;
    assert start >= 0;
    var results := PageOf(nearby.results, page, size);
    assert |results| == Min(start + size, total) - Min(start, total);
  }

  /**
   `nearby_page`: out-of-range pages and an empty layer list are refused; every other request gets a
   response that passes all checks of its model, whatever the layers returned.
   */
  method NearbyPage(layers: seq<Kind>, outcome: Kind -> LayerOutcome, relate: Geometry -> Relation, page: int,
                    pageSize: int)
    returns (r: Result<NearMeResponse, ResponseError>)
    requires forall k :: LayerIsSound(outcome(k), k)
    ensures r.Ok? <==> page >= 1 && 1 <= pageSize <= 200 && layers != []
    ensures r.Ok? ==>
      && ValidNearMeResponse(r.value)
      && r.value.requestedLayers == Deduplicated(layers)
      && r.value.results == PageOf(Roster(Deduplicated(layers), outcome, relate), page, pageSize)
      && r.value.pagination.totalResults == |Roster(Deduplicated(layers), outcome, relate)|
      && Sorted(r.value.results)
    ensures r.Ok? ==> DescribesPage(r.value, Roster(Deduplicated(layers), outcome, relate), page, pageSize)
    ensures HoldsNear(
      Roster(Deduplicated(layers), outcome, relate),
      SortResults(CombinedResults(OutcomesOf(Deduplicated(layers), outcome))), relate)
  {
    RosterIsNear(Deduplicated(layers), outcome, relate);
    if page < 1 || !(1 <= pageSize <= 200) {
      return Err(InvalidPage);
    }
    var requested := Deduplicated(layers);
    DeduplicatedIsDistinct(layers);
    if requested == [] {
      return Err(NoLayers);
    }
    var outcomes := OutcomesOf(requested, outcome);
    OutcomesSound(requested, outcome);
    var mapped := MapResults(requested, outcomes);
    var response := mapped.value;
    MapIsRoster(requested, outcomes);
    var nearby := NearbyFull(response, relate);
    var built := PageResponse(nearby, requested, page, pageSize);
    PageResponseIsValid(nearby, requested, page, pageSize);
    PageIsDescribed(nearby, requested, page, pageSize);
    return if ValidNearMeResponse(built) then Ok(built) else Err(InvalidResponse);
  }

  /** The response for one page; the counts describe the whole roster, the freshness only the page. */
  function PageResponse(nearby: MapResponse, requested: seq<Kind>, page: nat, size: nat): NearMeResponse
    requires page >= 1 && size >= 1
  {
    var total := |nearby.results|;
    var pages := CeilingDivide(total, size);
    var results := PageOf(nearby.results, page, size);
    NearMeResponse(requested, results,
                   Pagination(page, size, total, pages, |results|, page > 1, page < pages),
                   AggregateLiveFreshness(results),
                   nearby.partialLayers, nearby.unavailableLayers, nearby.layerStatuses)
  }

  lemma {:induction false} PageResponseIsValid(nearby: MapResponse, requested: seq<Kind>, page: nat, size: nat)
    requires page >= 1 && 1 <= size <= 200
    requires ValidMapResponse(nearby) && nearby.layerStatuses != [] && Sorted(nearby.results)
    requires KindsOf(nearby.layerStatuses) == requested
    requires TotalMatching(nearby.layerStatuses) == |nearby.results|
    ensures ValidNearMeResponse(PageResponse(nearby, requested, page, size))
    ensures Sorted(PageResponse(nearby, requested, page, size).results)
  {
    PageBounds(nearby.results, page, size);
    UnavailableAmongRequested(nearby.layerStatuses);
    KindsLength(nearby.layerStatuses);
  }

  lemma {:induction false} MapIsRoster(layers: seq<Kind>, outcomes: seq<LayerOutcome>)
    requires Sound(layers, outcomes) && Distinct(layers) && layers != []
    ensures
      var m := ComposedMap(layers, outcomes);
      && Sorted(m.results) && m.layerStatuses != [] && KindsOf(m.layerStatuses) == layers
      && (forall r :: r in m.results ==> r.kind in layers)
  {
    LayerLists(layers, outcomes);
    SortSorts(CombinedResults(outcomes));
    SortedSameMembers(CombinedResults(outcomes));
  }

  lemma {:induction false} SortedSlice(roster: seq<LiveResult>, lo: nat, hi: nat)
    requires lo <= hi <= |roster| && Sorted(roster)
    ensures Sorted(roster[lo..hi]) && forall r :: r in roster[lo..hi] ==> r in roster
  {
  }

  lemma {:induction false} PageBounds(roster: seq<LiveResult>, page: nat, size: nat)
    requires page >= 1 && size >= 1 && Sorted(roster)
    ensures |PageOf(roster, page, size)| <= size && Sorted(PageOf(roster, page, size))
    ensures forall r :: r in PageOf(roster, page, size) ==> r in roster
  {
    var start := (page - 1) * size;
    SortedSlice(roster, Min(start, |roster|), Min(start + size, |roster|));
  }

  lemma {:induction false} UnavailableAmongRequested(statuses: seq<LayerStatus>)
    ensures forall k :: k in UnavailableKinds(statuses) ==> k in KindsOf(statuses)
    ensures Distinct(KindsOf(statuses)) ==> Distinct(UnavailableKinds(statuses))
  {
    if statuses != [] {
      var n := |statuses| - 1;
      UnavailableAmongRequested(statuses[..n]);
      var before, kinds := KindsOf(statuses[..n]), KindsOf(statuses);
      assert forall i :: 0 <= i < |before| ==> kinds[i] == before[i];
      assert kinds[|before|] == statuses[n].kind;
      assert Distinct(kinds) ==> Distinct(before) && statuses[n].kind !in before;
    }
  }

  // ---------- the pages make up the roster ----------

  /** Pages 1 to `count`, one after the other. */
  function Pages(roster: seq<LiveResult>, size: nat, count: nat): seq<LiveResult> {
    if count == 0 then [] else Pages(roster, size, count - 1) + PageOf(roster, count, size)
  }

  lemma {:induction false} PagesArePrefix(roster: seq<LiveResult>, size: nat, count: nat)
    ensures Pages(roster, size, count) == roster[..Min(count * size, |roster|)]
  {
    if count > 0 {
      PagesArePrefix(roster, size, count - 1);
      var a, b := (count - 1) * size, count * size;
      assert b == a + size;
      SliceConcat(roster, Min(a, |roster|), Min(b, |roster|));
    }
  }

  lemma {:induction false} SliceConcat(roster: seq<LiveResult>, a: nat, b: nat)
    requires a <= b <= |roster|
    ensures roster[..a] + roster[a..b] == roster[..b]
  {
  }

  lemma {:induction false} ScaleOrder(a: int, b: int, size: nat)
    requires a <= b
    ensures a * size <= b * size
  {
  }

  lemma {:induction false} CeilingCovers(total: nat, size: nat)
    requires size >= 1
    ensures CeilingDivide(total, size) * size >= total
    ensures (CeilingDivide(total, size) - 1) * size < total || CeilingDivide(total, size) == 0
  {
    var x := total + size - 1;
    assert x == (x / size) * size + x % size;
  }

  lemma {:induction false} StartsBeyond(total: nat, size: nat, page: nat)
    requires size >= 1 && page >= 1
    ensures (page - 1) * size >= total <==> page > CeilingDivide(total, size)
  {
    var count := CeilingDivide(total, size);
    CeilingCovers(total, size);
    if page > count {
      ScaleOrder(count, page - 1, size);
    } else {
      ScaleOrder(page - 1, count - 1, size);
    }
  }

  lemma {:induction false} EmptySlice(roster: seq<LiveResult>, start: nat, size: nat)
    requires size >= 1
    ensures roster[Min(start, |roster|)..Min(start + size, |roster|)] == [] <==> start >= |roster|
  {
    var page := roster[Min(start, |roster|)..Min(start + size, |roster|)];
    assert |page| == Min(start + size, |roster|) - Min(start, |roster|);
  }

  /** Pages 1 to `total_pages` concatenate to exactly the roster, and only the pages beyond are empty. */
  lemma {:induction false} PagesMakeUpRoster(roster: seq<LiveResult>, size: nat, page: nat)
    requires size >= 1 && page >= 1
    ensures Pages(roster, size, CeilingDivide(|roster|, size)) == roster
    ensures PageOf(roster, page, size) == [] <==> page > CeilingDivide(|roster|, size)
  {
    CeilingCovers(|roster|, size);
    PagesArePrefix(roster, size, CeilingDivide(|roster|, size));
    assert roster[..|roster|] == roster;
    EmptySlice(roster, (page - 1) * size, size);
    StartsBeyond(|roster|, size, page);
  }
}
