/**
 Admitting the rows of one fetched layer (`map_layer_results`, src/firelens/live_admission.py:26-121):
 every row is admitted, left out on purpose, or counted as an omission.
 */
module LiveAdmission {
  import opened Wrappers
  import opened LiveRecords
  import opened LiveIdentity
  import opened LiveCache
  import opened LiveContracts

  /** The two questions put to the geometry library. */
  datatype Topology = Topology(valid: Geometry -> bool, intersects: (Geometry, Box) -> bool)

  /** One request: the exact bounds, partial or strict geometry, and the evacuation statuses asked for (none: all). */
  datatype Query = Query(kind: Kind, bounds: Option<Box>, allowPartial: bool, statuses: seq<string>)

  datatype Disposition =
    | Inactive
    | NotFire
    | Unrequested
    | OmittedStatus
    | OutOfBounds
    | OmittedGeometry
    | Admissible

  function KindName(kind: Kind): string {
    match kind
    case Incident => "incident"
    case Perimeter => "perimeter"
    case Evacuation => "evacuation"
  }

  predicate IsInactive(status: string) {
    status in ["out", "inactive", "expired", "cancelled", "canceled", "rescinded"]
  }

  predicate IsRecognised(status: string) {
    status in ["order", "alert", "tactical evacuation", "all clear"]
  }

  predicate MentionsFire(text: string) {
    |text| >= 4 && (text[..4] == "fire" || MentionsFire(text[1..]))
  }

  /** Everything that is decided before the geometry is looked at. */
  function BeforeGeometry(f: Feature, q: Query): Option<Disposition> {
    if IsInactive(f.status) then Some(Inactive)
    else if !q.kind.Evacuation? then None
    else if f.eventType != "" && !MentionsFire(f.eventType) then Some(NotFire)
    else if !IsRecognised(f.status) then Some(OmittedStatus)
    else if q.statuses != [] && f.status !in q.statuses then Some(Unrequested)
    else None
  }

  /** `map_geometry_state` */
  function GeometryDisposition(g: Geometry, bounds: Option<Box>, t: Topology): Disposition {
    if !t.valid(g) then OmittedGeometry
    else if bounds.Some? && !t.intersects(g, bounds.value) then OutOfBounds
    else Admissible
  }

  function Classify(f: Feature, q: Query, t: Topology): Disposition {
    match BeforeGeometry(f, q)
    case Some(d) => d
    case None => GeometryDisposition(f.geometry, q.bounds, t)
  }

  /** A snapshot together with the freshness it was served with. */
  datatype Served = Served(rows: seq<Feature>, sourceUpdatedAt: int, retrievedAt: int, freshness: Freshness)

  /** `_to_result`: the public record, or a contract violation. */
  function ToResult(kind: Kind, f: Feature, id: string, s: Served): Option<LiveResult> {
    if !f.wellFormed || !(1 <= |id| <= 200) then None
    else
      var updated := if f.modified.Some? then f.modified.value else s.sourceUpdatedAt;
      Some(LiveResult(id, kind, updated, s.retrievedAt,
                      FreshnessForObservation(s.freshness, updated, s.retrievedAt), f.geometry, Unknown))
  }

  datatype Reason = SourceUnavailable | InvalidGeometry | ContractViolation

  datatype LayerOutcome = LayerOutcome(results: seq<LiveResult>, status: LayerStatus, reason: Option<Reason>)

  function UnavailableStatus(kind: Kind, invalidGeometry: bool): LayerStatus {
    LayerStatus(kind, false, None, None, None, 0, 0, 0, invalidGeometry)
  }

  function Unavailable(kind: Kind, reason: Reason): LayerOutcome {
    LayerOutcome([], UnavailableStatus(kind, reason.InvalidGeometry?), Some(reason))
  }

  // ---------- the declarative form ----------

  function CountOf(rows: seq<Feature>, d: Disposition, q: Query, t: Topology): nat {
    if rows == [] then 0
    else CountOf(rows[..|rows| - 1], d, q, t) + if Classify(rows[|rows| - 1], q, t) == d then 1 else 0
  }

  /** Why one row makes the whole layer unavailable. */
  function RowBlock(f: Feature, id: string, q: Query, t: Topology, s: Served): Option<Reason> {
    match Classify(f, q, t)
    case OmittedGeometry => if q.allowPartial then None else Some(InvalidGeometry)
    case Admissible => if ToResult(q.kind, f, id, s).None? then Some(ContractViolation) else None
    case _ => None
  }

  /** The first row in fetch order that blocks the layer. */
  function FirstBlock(rows: seq<Feature>, ids: seq<string>, q: Query, t: Topology, s: Served): Option<Reason>
    requires |rows| == |ids|
  {
    if rows == [] then None
    else
      var n := |rows| - 1;
      var earlier := FirstBlock(rows[..n], ids[..n], q, t, s);
      if earlier.Some? then earlier else RowBlock(rows[n], ids[n], q, t, s)
  }

  function AdmittedResults(rows: seq<Feature>, ids: seq<string>, q: Query, t: Topology, s: Served): seq<LiveResult>
    requires |rows| == |ids|
  {
    if rows == [] then []
    else
      var n := |rows| - 1;
      var result := ToResult(q.kind, rows[n], ids[n], s);
      AdmittedResults(rows[..n], ids[..n], q, t, s) +
      if Classify(rows[n], q, t).Admissible? && result.Some? then [result.value] else []
  }

  function AvailableStatus(results: nat, geometry: nat, status: nat, kind: Kind, s: Served): LayerStatus {
    LayerStatus(kind, true, Some(s.sourceUpdatedAt), Some(s.retrievedAt),
                Some(FreshnessForObservation(s.freshness, s.sourceUpdatedAt, s.retrievedAt)),
                results, geometry, status, false)
  }

  function Outcome(served: Option<Served>, ids: seq<string>, q: Query, t: Topology): LayerOutcome
    requires served.Some? ==> |ids| == |served.value.rows|
  {
    match served
    case None => Unavailable(q.kind, SourceUnavailable)
    case Some(s) =>
      var block := FirstBlock(s.rows, ids, q, t, s);
      if block.Some? then Unavailable(q.kind, block.value)
      else
        var results := AdmittedResults(s.rows, ids, q, t, s);
        LayerOutcome(results,
                     AvailableStatus(|results|, CountOf(s.rows, OmittedGeometry, q, t),
                                     CountOf(s.rows, OmittedStatus, q, t), q.kind, s),
                     None)
  }

  function Keys(rows: seq<Feature>): seq<string> {
    if rows == [] then [] else Keys(rows[..|rows| - 1]) + [rows[|rows| - 1].key]
  }

  // ---------- the loop ----------

  /** What the loop knows after `i` rows: nothing blocked so far, and everything is counted. */
  ghost predicate Scanned(s: Served, ids: seq<string>, q: Query, t: Topology, i: nat,
                          results: seq<LiveResult>, omittedGeometry: nat, omittedStatus: nat)
  {
    && i <= |s.rows| == |ids|
    && results == AdmittedResults(s.rows[..i], ids[..i], q, t, s)
    && omittedGeometry == CountOf(s.rows[..i], OmittedGeometry, q, t)
    && omittedStatus == CountOf(s.rows[..i], OmittedStatus, q, t)
    && FirstBlock(s.rows[..i], ids[..i], q, t, s).None?
  }

  lemma {:induction false} ScanAdvances(s: Served, ids: seq<string>, q: Query, t: Topology, i: nat,
                                        results: seq<LiveResult>, omittedGeometry: nat, omittedStatus: nat)
    requires i < |s.rows| && Scanned(s, ids, q, t, i, results, omittedGeometry, omittedStatus)
    ensures
      match Classify(s.rows[i], q, t)
      case OmittedStatus => Scanned(s, ids, q, t, i + 1, results, omittedGeometry, omittedStatus + 1)
      case OmittedGeometry =>
        if q.allowPartial then Scanned(s, ids, q, t, i + 1, results, omittedGeometry + 1, omittedStatus)
        else Outcome(Some(s), ids, q, t) == Unavailable(q.kind, InvalidGeometry)
      case Admissible =>
        var result := ToResult(q.kind, s.rows[i], ids[i], s);
        if result.Some? then Scanned(s, ids, q, t, i + 1, results + [result.value], omittedGeometry, omittedStatus)
        else Outcome(Some(s), ids, q, t) == Unavailable(q.kind, ContractViolation)
      case _ => Scanned(s, ids, q, t, i + 1, results, omittedGeometry, omittedStatus)
  {
    ScanStep(s.rows, ids, i, q, t, s);
    if RowBlock(s.rows[i], ids[i], q, t, s).Some? {
      BlockPersists(s.rows, ids, i, q, t, s);
    }
  }

  lemma {:induction false} ScanFinished(s: Served, ids: seq<string>, q: Query, t: Topology,
                                        results: seq<LiveResult>, omittedGeometry: nat, omittedStatus: nat)
    requires Scanned(s, ids, q, t, |s.rows|, results, omittedGeometry, omittedStatus)
    ensures Outcome(Some(s), ids, q, t) ==
            LayerOutcome(results, AvailableStatus(|results|, omittedGeometry, omittedStatus, q.kind, s), None)
  {
    assert s.rows[..|s.rows|] == s.rows && ids[..|s.rows|] == ids;
  }

  /** The IDs of the fetched rows. */
  function RowIdsOf(kind: Kind, rows: seq<Feature>): (ids: seq<string>)
    ensures |ids| == |rows|
  {
    KeysLength(rows);
    RecordIds(KindName(kind), Keys(rows))
  }

  /** `record_ids` of one fetch */
  method AssignRowIds(kind: Kind, rows: seq<Feature>) returns (ids: seq<string>)
    ensures ids == RowIdsOf(kind, rows)
  {
    ids := AssignRecordIds(KindName(kind), Keys(rows));
  }

  /** The admission of one layer: the source fails, a row blocks the layer, or all admitted rows are published. */
  method MapLayerResults(served: Option<Served>, q: Query, t: Topology) returns (outcome: LayerOutcome)
    ensures outcome == Outcome(served, if served.Some? then RowIdsOf(q.kind, served.value.rows) else [], q, t)
  {
    if served.None? {
      return Unavailable(q.kind, SourceUnavailable);
    }
    var recordIds := AssignRowIds(q.kind, served.value.rows);
    outcome := AdmitRows(served.value, recordIds, q, t);
  }

  /** The loop over the fetched rows and their IDs. */
  method AdmitRows(s: Served, recordIds: seq<string>, q: Query, t: Topology) returns (outcome: LayerOutcome)
    requires |recordIds| == |s.rows|
    ensures outcome == Outcome(Some(s), recordIds, q, t)
  {
    var rows := s.rows;
    var results: seq<LiveResult> := [];
    var omittedGeometry, omittedStatus := 0, 0;
    for i := 0 to |rows|
      invariant Scanned(s, recordIds, q, t, i, results, omittedGeometry, omittedStatus)
    {
      ScanAdvances(s, recordIds, q, t, i, results, omittedGeometry, omittedStatus);
      var f := rows[i];
      if IsInactive(f.status) {
        continue;
      }
      if q.kind.Evacuation? && f.eventType != "" && !MentionsFire(f.eventType) {
        continue;
      }
      if q.kind.Evacuation? {
        if IsRecognised(f.status) {
          if q.statuses != [] && f.status !in q.statuses {
            continue;
          }
        } else {
          omittedStatus := omittedStatus + 1;
          continue;
        }
      }
      var state := GeometryDisposition(f.geometry, q.bounds, t);
      if state.OutOfBounds? {
        continue;
      }
      if state.OmittedGeometry? {
        if q.allowPartial {
          omittedGeometry := omittedGeometry + 1;
          continue;
        }
        return Unavailable(q.kind, InvalidGeometry);
      }
      var result := ToResult(q.kind, f, recordIds[i], s);
      if result.None? {
        return Unavailable(q.kind, ContractViolation);
      }
      results := results + [result.value];
    }
    ScanFinished(s, recordIds, q, t, results, omittedGeometry, omittedStatus);
    outcome := LayerOutcome(results, AvailableStatus(|results|, omittedGeometry, omittedStatus, q.kind, s), None);
  }

  lemma {:induction false} KeysLength(rows: seq<Feature>)
    ensures |Keys(rows)| == |rows|
  {
    if rows != [] {
      KeysLength(rows[..|rows| - 1]);
    }
  }

  /** What one more row adds to every part of the declarative form. */
  lemma {:induction false} ScanStep(rows: seq<Feature>, ids: seq<string>, i: nat, q: Query, t: Topology, s: Served)
    requires |rows| == |ids| && i < |rows|
    ensures
      var c, result := Classify(rows[i], q, t), ToResult(q.kind, rows[i], ids[i], s);
      && AdmittedResults(rows[..i + 1], ids[..i + 1], q, t, s) ==
         AdmittedResults(rows[..i], ids[..i], q, t, s) + (if c.Admissible? && result.Some? then [result.value] else [])
      && (forall d :: CountOf(rows[..i + 1], d, q, t) == CountOf(rows[..i], d, q, t) + if c == d then 1 else 0)
      && FirstBlock(rows[..i + 1], ids[..i + 1], q, t, s) ==
         var earlier := FirstBlock(rows[..i], ids[..i], q, t, s);
         if earlier.Some? then earlier else RowBlock(rows[i], ids[i], q, t, s)
  {
    assert rows[..i + 1][..i] == rows[..i] && ids[..i + 1][..i] == ids[..i];
  }

  /** Once a row blocks the layer, later rows do not change the reason. */
  lemma {:induction false} BlockPersists(rows: seq<Feature>, ids: seq<string>, i: nat, q: Query, t: Topology, s: Served)
    requires |rows| == |ids| && i < |rows|
    requires FirstBlock(rows[..i + 1], ids[..i + 1], q, t, s).Some?
    ensures FirstBlock(rows, ids, q, t, s) == FirstBlock(rows[..i + 1], ids[..i + 1], q, t, s)
    decreases |rows| - i
  {
    if i + 1 == |rows| {
      assert rows[..i + 1] == rows && ids[..i + 1] == ids;
    } else {
      ScanStep(rows, ids, i + 1, q, t, s);
      BlockPersists(rows, ids, i + 1, q, t, s);
    }
  }
}
