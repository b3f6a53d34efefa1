/** Rows of one official layer, as `decode_features` hands them to the live-records service. */
module LiveRecords {
  import opened Wrappers

  datatype Kind = Incident | Perimeter | Evacuation

  datatype Freshness = Fresh | Stale

  /** A decoded geometry: its compact JSON text and the length of that text in UTF-8. */
  datatype Geometry = Geometry(json: string, bytes: nat)

  /**
   One decoded feature. The fields are the values the service derives from the raw properties:
   `rowId` is `feature_identity`, `key` is `record_key` or its fallback, `status` and `eventType`
   are the stripped, case-folded texts, `modified` is a parsed DATE_MODIFIED, and `wellFormed`
   says whether the remaining properties meet the public record contract.
   */
  datatype Feature = Feature(
    rowId: string,
    key: string,
    status: string,
    eventType: string,
    geometry: Geometry,
    modified: Option<int>,
    wellFormed: bool
  )
}
