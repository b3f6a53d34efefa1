/** Public live-data contracts and the checks their validators make (src/firelens/live_contracts.py). */
module LiveContracts {
  import opened Wrappers
  import opened Sequences
  import opened LiveRecords

  datatype Relation = Inside | Nearby | Outside | Unknown

  datatype AggregateFreshness = AllFresh | AllStale | Mixed

  datatype LiveResult = LiveResult(
    resultId: string,
    kind: Kind,
    sourceUpdatedAt: int,
    retrievedAt: int,
    freshness: Freshness,
    geometry: Geometry,
    relation: Relation
  )

  datatype LayerStatus = LayerStatus(
    kind: Kind,
    available: bool,
    sourceUpdatedAt: Option<int>,
    retrievedAt: Option<int>,
    freshness: Option<Freshness>,
    matchingResultCount: int,
    omittedGeometryCount: int,
    omittedStatusCount: int,
    invalidGeometry: bool
  ) {
    predicate IsPartial() {
      omittedGeometryCount != 0 || omittedStatusCount != 0
    }
  }

  /** Five minutes, in microseconds. */
  const SOURCE_CLOCK_SKEW_ALLOWANCE := 300_000_000

  predicate ObservationIsFuture(sourceUpdatedAt: int, retrievedAt: int) {
    sourceUpdatedAt > retrievedAt + SOURCE_CLOCK_SKEW_ALLOWANCE
  }

  function FreshnessForObservation(freshness: Freshness, sourceUpdatedAt: int, retrievedAt: int): Freshness {
    if ObservationIsFuture(sourceUpdatedAt, retrievedAt) then Stale else freshness
  }

  function AggregateLiveFreshness(results: seq<LiveResult>): Option<AggregateFreshness> {
    var seen := set r | r in results :: r.freshness;
    if seen == {} then None
    else if seen == {Fresh} then Some(AllFresh)
    else if seen == {Stale} then Some(AllStale)
    else Some(Mixed)
  }

  // ---------- validators ----------

  predicate ValidResult(r: LiveResult) {
    && 1 <= |r.resultId| <= 200
    && !(ObservationIsFuture(r.sourceUpdatedAt, r.retrievedAt) && r.freshness == Fresh)
  }

  predicate ValidStatus(s: LayerStatus) {
    && s.matchingResultCount >= 0 && s.omittedGeometryCount >= 0 && s.omittedStatusCount >= 0
    && !(s.available && s.invalidGeometry)
    && (s.IsPartial() ==> s.available)
    && (s.available ==> s.sourceUpdatedAt.Some? && s.retrievedAt.Some? && s.freshness.Some?)
    && (!s.available ==>
          s.sourceUpdatedAt.None? && s.retrievedAt.None? && s.freshness.None? && s.matchingResultCount == 0)
    && (s.available ==>
          !(ObservationIsFuture(s.sourceUpdatedAt.value, s.retrievedAt.value) && s.freshness.value == Fresh))
  }

  function KindsOf(statuses: seq<LayerStatus>): seq<Kind> {
    if statuses == [] then [] else KindsOf(statuses[..|statuses| - 1]) + [statuses[|statuses| - 1].kind]
  }

  /** `[s.kind for s in statuses if s.omitted_geometry_count or s.omitted_status_count]` */
  function PartialKinds(statuses: seq<LayerStatus>): seq<Kind> {
    if statuses == [] then []
    else
      var last := statuses[|statuses| - 1];
      PartialKinds(statuses[..|statuses| - 1]) + if last.IsPartial() then [last.kind] else []
  }

  /** `[s.kind for s in statuses if not s.available]` */
  function UnavailableKinds(statuses: seq<LayerStatus>): seq<Kind> {
    if statuses == [] then []
    else
      var last := statuses[|statuses| - 1];
      UnavailableKinds(statuses[..|statuses| - 1]) + if last.available then [] else [last.kind]
  }

  function CountKind(results: seq<LiveResult>, kind: Kind): nat {
    if results == [] then 0
    else CountKind(results[..|results| - 1], kind) + if results[|results| - 1].kind == kind then 1 else 0
  }

  function TotalMatching(statuses: seq<LayerStatus>): int {
    if statuses == [] then 0
    else TotalMatching(statuses[..|statuses| - 1]) + statuses[|statuses| - 1].matchingResultCount
  }

  datatype MapResponse = MapResponse(
    results: seq<LiveResult>,
    aggregateFreshness: Option<AggregateFreshness>,
    partialLayers: seq<Kind>,
    unavailableLayers: seq<Kind>,
    layerStatuses: seq<LayerStatus>
  )

  predicate ValidMapResponse(m: MapResponse) {
    && (forall r :: r in m.results ==> ValidResult(r))
    && (forall s :: s in m.layerStatuses ==> ValidStatus(s))
    && |m.layerStatuses| <= 3
    && m.aggregateFreshness == AggregateLiveFreshness(m.results)
    && m.partialLayers == PartialKinds(m.layerStatuses)
    && (m.layerStatuses != [] ==>
          && Distinct(KindsOf(m.layerStatuses))
          && m.unavailableLayers == UnavailableKinds(m.layerStatuses)
          && (forall s :: s in m.layerStatuses ==> s.matchingResultCount == CountKind(m.results, s.kind)))
  }

  datatype Pagination = Pagination(
    page: int,
    pageSize: int,
    totalResults: int,
    totalPages: int,
    returnedResults: int,
    hasPrevious: bool,
    hasNext: bool
  )

  /** `math.ceil(total / size)` */
  function CeilingDivide(total: nat, size: nat): nat
    requires size > 0
  {
    (total + size - 1) / size
  }

  predicate ValidPagination(p: Pagination) {
    && p.page >= 1 && 1 <= p.pageSize <= 200
    && p.totalResults >= 0 && p.totalPages >= 0 && 0 <= p.returnedResults <= 200
    && p.totalPages == CeilingDivide(p.totalResults, p.pageSize)
    && p.returnedResults <= p.pageSize
    && p.hasPrevious == (p.page > 1)
    && p.hasNext == (p.page < p.totalPages)
  }

  datatype NearMeResponse = NearMeResponse(
    requestedLayers: seq<Kind>,
    results: seq<LiveResult>,
    pagination: Pagination,
    aggregateFreshness: Option<AggregateFreshness>,
    partialLayers: seq<Kind>,
    unavailableLayers: seq<Kind>,
    layerStatuses: seq<LayerStatus>
  )

  predicate ValidNearMeResponse(n: NearMeResponse) {
    && (forall r :: r in n.results ==> ValidResult(r))
    && (forall s :: s in n.layerStatuses ==> ValidStatus(s))
    && ValidPagination(n.pagination)
    && 1 <= |n.requestedLayers| <= 3 && |n.results| <= 200 && |n.layerStatuses| <= 3
    && |n.results| == n.pagination.returnedResults
    && Distinct(n.requestedLayers) && Distinct(n.unavailableLayers)
    && (forall k :: k in n.unavailableLayers ==> k in n.requestedLayers)
    && n.aggregateFreshness == AggregateLiveFreshness(n.results)
    && n.partialLayers == PartialKinds(n.layerStatuses)
    && (n.layerStatuses != [] ==>
          && KindsOf(n.layerStatuses) == n.requestedLayers
          && UnavailableKinds(n.layerStatuses) == n.unavailableLayers
          && TotalMatching(n.layerStatuses) == n.pagination.totalResults)
  }
}
