/**
 Which rows of a layer are published, and as what (src/firelens/live_admission.py:39-120 and
 src/firelens/live.py:414-460), in terms of the rows themselves.
 */
module PublishedRows {
  import opened Wrappers
  import opened Sequences
  import opened LiveRecords
  import opened LiveCache
  import opened LiveContracts
  import opened LiveAdmission
  import opened LiveAdmissionLaws

  // ---------- conditions on a row ----------

  ghost predicate Ended(f: Feature) {
    || f.status == "out" || f.status == "inactive" || f.status == "expired"
    || f.status == "cancelled" || f.status == "canceled" || f.status == "rescinded"
  }

  ghost predicate FireAt(text: string, i: nat) {
    i + 4 <= |text| && text[i..i + 4] == "fire"
  }

  ghost predicate NamesFire(text: string) {
    exists i :: FireAt(text, i)
  }

  /** Not every evacuation is about fire. */
  ghost predicate OtherHazard(f: Feature, q: Query) {
    q.kind == Evacuation && f.eventType != "" && !NamesFire(f.eventType)
  }

  ghost predicate KnownStatus(f: Feature) {
    || f.status == "order" || f.status == "alert" || f.status == "tactical evacuation" || f.status == "all clear"
  }

  /** Only evacuations can be asked for by status; without one all are. */
  ghost predicate AskedFor(f: Feature, q: Query) {
    q.kind == Evacuation ==> q.statuses == [] || f.status in q.statuses
  }

  ghost predicate Meets(f: Feature, q: Query, t: Topology) {
    q.bounds.None? || t.intersects(f.geometry, q.bounds.value)
  }

  /** A row whose geometry decides about it. */
  ghost predicate Relevant(f: Feature, q: Query) {
    && !Ended(f) && !OtherHazard(f, q) && AskedFor(f, q)
    && (q.kind == Evacuation ==> KnownStatus(f))
  }

  lemma {:induction false} MentionsFireIff(text: string)
    ensures MentionsFire(text) <==> NamesFire(text)
  {
    if |text| >= 4 {
      MentionsFireIff(text[1..]);
      assert text[0..4] == text[..4];
      if text[..4] == "fire" {
        assert FireAt(text, 0);
      } else if i: nat :| FireAt(text, i) {
        assert text[1..][i - 1..i + 3] == text[i..i + 4];
        assert FireAt(text[1..], i - 1);
      } else if i: nat :| FireAt(text[1..], i) {
        assert text[1..][i..i + 4] == text[i + 1..i + 5];
        assert FireAt(text, i + 1);
      }
    }
  }

  /** Every row falls under the first that applies of seven conditions. */
  lemma {:induction false} ClassifiedExactly(f: Feature, q: Query, t: Topology)
    ensures Classify(f, q, t) == Inactive <==> Ended(f)
    ensures Classify(f, q, t) == NotFire <==> !Ended(f) && OtherHazard(f, q)
    ensures Classify(f, q, t) == OmittedStatus <==>
            !Ended(f) && !OtherHazard(f, q) && q.kind == Evacuation && !KnownStatus(f)
    ensures Classify(f, q, t) == Unrequested <==>
            !Ended(f) && !OtherHazard(f, q) && (q.kind == Evacuation ==> KnownStatus(f)) && !AskedFor(f, q)
    ensures Classify(f, q, t) == OmittedGeometry <==> Relevant(f, q) && !t.valid(f.geometry)
    ensures Classify(f, q, t) == OutOfBounds <==> Relevant(f, q) && t.valid(f.geometry) && !Meets(f, q, t)
    ensures Classify(f, q, t) == Admissible <==> Relevant(f, q) && t.valid(f.geometry) && Meets(f, q, t)
  {
    MentionsFireIff(f.eventType);
  }

  // ---------- rows by their places ----------

  function ShouldPublish(q: Query, t: Topology): Feature -> bool {
    (f: Feature) => Classify(f, q, t).Admissible?
  }

  lemma {:induction false} AdmittedArePlaces(rows: seq<Feature>, q: Query, t: Topology)
    ensures Selects(AdmittedRows(rows, q, t), rows, Places(rows, ShouldPublish(q, t)))
  {
    if rows != [] {
      var before, last := rows[..|rows| - 1], rows[|rows| - 1];
      AdmittedArePlaces(before, q, t);
      OneMorePlace(before, last, ShouldPublish(q, t));
      SelectsOneMore(AdmittedRows(before, q, t), before, Places(before, ShouldPublish(q, t)), last);
      assert rows == before + [last];
      assert AdmittedRows(before, q, t) + [] == AdmittedRows(before, q, t);
    }
  }

  /** The places rise strictly and are exactly those of the rows that meet the condition. */
  ghost predicate ExactlyThose(rows: seq<Feature>, places: seq<nat>, q: Query, t: Topology) {
    && (forall a, b :: 0 <= a < b < |places| ==> places[a] < places[b])
    && (forall i :: i in places <==>
          0 <= i < |rows| && Relevant(rows[i], q) && t.valid(rows[i].geometry) && Meets(rows[i], q, t))
  }

  lemma {:induction false} PlacesAreThose(rows: seq<Feature>, q: Query, t: Topology)
    ensures ExactlyThose(rows, Places(rows, ShouldPublish(q, t)), q, t)
  {
    PlacesAreExact(rows, ShouldPublish(q, t));
    forall i | 0 <= i < |rows|
      ensures ShouldPublish(q, t)(rows[i]) <==>
              Relevant(rows[i], q) && t.valid(rows[i].geometry) && Meets(rows[i], q, t)
    {
      ClassifiedExactly(rows[i], q, t);
    }
  }

  /** What a row is published as. */
  ghost predicate ShownAs(r: LiveResult, f: Feature, kind: Kind, s: Served) {
    var updated := if f.modified.Some? then f.modified.value else s.sourceUpdatedAt;
    && r.kind == kind && r.geometry == f.geometry && r.relation == Relation.Unknown
    && r.sourceUpdatedAt == updated && r.retrievedAt == s.retrievedAt
    && r.freshness == if updated > s.retrievedAt + 300_000_000 then Stale else s.freshness
  }

  /** An available layer publishes the rows that meet the condition, each exactly once, in the order of the fetch. */
  lemma {:induction false} PublishesExactlyThose(s: Served, ids: seq<string>, q: Query, t: Topology)
    returns (places: seq<nat>)
    requires |ids| == |s.rows| && Outcome(Some(s), ids, q, t).reason.None?
    ensures ExactlyThose(s.rows, places, q, t)
    ensures
      var results := Outcome(Some(s), ids, q, t).results;
      && |results| == |places|
      && forall k :: 0 <= k < |places| ==>
           && places[k] < |s.rows|
           && ShownAs(results[k], s.rows[places[k]], q.kind, s) && results[k].resultId == ids[places[k]]
  {
    places := Places(s.rows, ShouldPublish(q, t));
    PlacesAreThose(s.rows, q, t);
    AdmittedArePlaces(s.rows, q, t);
    ResultsAreAdmittedRows(s.rows, ids, q, t, s);
    var results := Outcome(Some(s), ids, q, t).results;
    forall k | 0 <= k < |places|
      ensures places[k] < |s.rows|
      ensures ShownAs(results[k], s.rows[places[k]], q.kind, s) && results[k].resultId == ids[places[k]]
    {
      PlacesInRange(s.rows, ShouldPublish(q, t), k);
      assert Publishes(results[k], AdmittedRows(s.rows, q, t)[k], q.kind, s);
      ResultIdAtPlace(s.rows, ids, q, t, s, k);
    }
  }

  lemma {:induction false} ResultIdAtPlace(
    rows: seq<Feature>, ids: seq<string>, q: Query, t: Topology, s: Served, k: nat
  )
    requires |rows| == |ids| && FirstBlock(rows, ids, q, t, s).None? && k < |Places(rows, ShouldPublish(q, t))|
    ensures |AdmittedResults(rows, ids, q, t, s)| == |Places(rows, ShouldPublish(q, t))|
    ensures Places(rows, ShouldPublish(q, t))[k] < |rows|
    ensures AdmittedResults(rows, ids, q, t, s)[k].resultId == ids[Places(rows, ShouldPublish(q, t))[k]]
  {
    var n := |rows| - 1;
    ResultsAreAdmittedRows(rows, ids, q, t, s);
    ResultsAreAdmittedRows(rows[..n], ids[..n], q, t, s);
    AdmittedArePlaces(rows, q, t);
    AdmittedArePlaces(rows[..n], q, t);
    PlacesInRange(rows, ShouldPublish(q, t), k);
    if k < |Places(rows[..n], ShouldPublish(q, t))| {
      ResultIdAtPlace(rows[..n], ids[..n], q, t, s, k);
    }
  }

  // ---------- why a layer is unavailable ----------

  /** The row makes the layer unavailable: strict geometry, or a record outside the contract. */
  ghost predicate BlocksFor(f: Feature, id: string, q: Query, t: Topology, reason: Reason) {
    if t.valid(f.geometry) then
      && reason == ContractViolation && Relevant(f, q) && Meets(f, q, t)
      && (!f.wellFormed || |id| < 1 || |id| > 200)
    else reason == InvalidGeometry && Relevant(f, q) && !q.allowPartial
  }

  lemma {:induction false} RowBlockIs(f: Feature, id: string, q: Query, t: Topology, s: Served, reason: Reason)
    ensures RowBlock(f, id, q, t, s) == Some(reason) <==> BlocksFor(f, id, q, t, reason)
  {
    ClassifiedExactly(f, q, t);
  }

  /** Row `i` is the first that blocks the layer. */
  ghost predicate FirstBlocks(rows: seq<Feature>, ids: seq<string>, q: Query, t: Topology, i: nat, reason: Reason)
    requires |rows| == |ids|
  {
    && i < |rows| && BlocksFor(rows[i], ids[i], q, t, reason)
    && forall j, other :: 0 <= j < i ==> !BlocksFor(rows[j], ids[j], q, t, other)
  }

  ghost predicate NoneBlocks(rows: seq<Feature>, ids: seq<string>, q: Query, t: Topology)
    requires |rows| == |ids|
  {
    forall j, other :: 0 <= j < |rows| ==> !BlocksFor(rows[j], ids[j], q, t, other)
  }

  lemma {:induction false} FirstBlockIs(rows: seq<Feature>, ids: seq<string>, q: Query, t: Topology, s: Served)
    requires |rows| == |ids|
    ensures FirstBlock(rows, ids, q, t, s).None? <==> NoneBlocks(rows, ids, q, t)
    ensures FirstBlock(rows, ids, q, t, s).Some? ==>
              exists i :: FirstBlocks(rows, ids, q, t, i, FirstBlock(rows, ids, q, t, s).value)
  {
    if rows != [] {
      var n := |rows| - 1;
      var before, whole := FirstBlock(rows[..n], ids[..n], q, t, s), FirstBlock(rows, ids, q, t, s);
      FirstBlockIs(rows[..n], ids[..n], q, t, s);
      forall other
        ensures RowBlock(rows[n], ids[n], q, t, s) == Some(other) <==> BlocksFor(rows[n], ids[n], q, t, other)
      {
        RowBlockIs(rows[n], ids[n], q, t, s, other);
      }
      assert forall j, other :: 0 <= j < n ==>
               (BlocksFor(rows[j], ids[j], q, t, other) <==> BlocksFor(rows[..n][j], ids[..n][j], q, t, other));
      if before.Some? {
        var i :| FirstBlocks(rows[..n], ids[..n], q, t, i, before.value);
        assert FirstBlocks(rows, ids, q, t, i, whole.value);
      } else if whole.Some? {
        assert FirstBlocks(rows, ids, q, t, n, whole.value);
      }
    }
  }

  /** What the answer of a layer says besides its records. */
  ghost predicate StatusOf(o: LayerOutcome, s: Served, kind: Kind, geometry: nat, status: nat) {
    && o.reason.None? && o.status.kind == kind && o.status.available && !o.status.invalidGeometry
    && o.status.sourceUpdatedAt == Some(s.sourceUpdatedAt) && o.status.retrievedAt == Some(s.retrievedAt)
    && o.status.freshness ==
       Some(if s.sourceUpdatedAt > s.retrievedAt + 300_000_000 then Stale else s.freshness)
    && o.status.matchingResultCount == |o.results|
    && o.status.omittedGeometryCount == geometry && o.status.omittedStatusCount == status
  }

  function IsOmitted(d: Disposition, q: Query, t: Topology): Feature -> bool {
    (f: Feature) => Classify(f, q, t) == d
  }

  lemma {:induction false} CountIsPlaces(rows: seq<Feature>, d: Disposition, q: Query, t: Topology)
    ensures CountOf(rows, d, q, t) == |Places(rows, IsOmitted(d, q, t))|
  {
    if rows != [] {
      CountIsPlaces(rows[..|rows| - 1], d, q, t);
      assert rows == rows[..|rows| - 1] + [rows[|rows| - 1]];
      OneMorePlace(rows[..|rows| - 1], rows[|rows| - 1], IsOmitted(d, q, t));
    }
  }

  /** The places of the rows whose geometry is left out, and of those whose status is. */
  ghost predicate OmittedAt(rows: seq<Feature>, geometry: seq<nat>, status: seq<nat>, q: Query, t: Topology) {
    && (forall a, b :: 0 <= a < b < |geometry| ==> geometry[a] < geometry[b])
    && (forall a, b :: 0 <= a < b < |status| ==> status[a] < status[b])
    && (forall i :: i in geometry <==> 0 <= i < |rows| && Relevant(rows[i], q) && !t.valid(rows[i].geometry))
    && (forall i :: i in status <==>
          && 0 <= i < |rows| && !Ended(rows[i]) && !OtherHazard(rows[i], q)
          && q.kind == Evacuation && !KnownStatus(rows[i]))
  }

  /**
   A layer is unavailable for its source, or for its first blocking row. Otherwise it says when and how
   fresh it was observed, and how many rows it leaves out for their geometry and for their status.
   */
  lemma {:induction false} OutcomeIs(served: Option<Served>, ids: seq<string>, q: Query, t: Topology)
    returns (geometry: seq<nat>, status: seq<nat>)
    requires served.Some? ==> |ids| == |served.value.rows|
    ensures
      var o := Outcome(served, ids, q, t);
      && (served.None? ==> o.reason == Some(SourceUnavailable))
      && (served.Some? && NoneBlocks(served.value.rows, ids, q, t) ==>
            && OmittedAt(served.value.rows, geometry, status, q, t)
            && StatusOf(o, served.value, q.kind, |geometry|, |status|))
      && (served.Some? && !NoneBlocks(served.value.rows, ids, q, t) ==>
            o.reason.Some? && exists i :: FirstBlocks(served.value.rows, ids, q, t, i, o.reason.value))
      && (o.reason.Some? ==>
            && o.results == [] && o.status.kind == q.kind && !o.status.available
            && (o.status.invalidGeometry <==> o.reason == Some(InvalidGeometry))
            && o.status.omittedGeometryCount == 0 && o.status.omittedStatusCount == 0)
  {
    geometry, status := [], [];
    if served.Some? {
      var rows := served.value.rows;
      FirstBlockIs(rows, ids, q, t, served.value);
      geometry := Places(rows, IsOmitted(OmittedGeometry, q, t));
      status := Places(rows, IsOmitted(OmittedStatus, q, t));
      CountIsPlaces(rows, OmittedGeometry, q, t);
      CountIsPlaces(rows, OmittedStatus, q, t);
      OmittedPlaces(rows, q, t);
    }
  }

  lemma {:induction false} OmittedPlaces(rows: seq<Feature>, q: Query, t: Topology)
    ensures OmittedAt(
      rows, Places(rows, IsOmitted(OmittedGeometry, q, t)), Places(rows, IsOmitted(OmittedStatus, q, t)), q, t)
  {
    PlacesAreExact(rows, IsOmitted(OmittedGeometry, q, t));
    PlacesAreExact(rows, IsOmitted(OmittedStatus, q, t));
    forall i | 0 <= i < |rows|
      ensures IsOmitted(OmittedGeometry, q, t)(rows[i]) <==> Relevant(rows[i], q) && !t.valid(rows[i].geometry)
      ensures IsOmitted(OmittedStatus, q, t)(rows[i]) <==>
              !Ended(rows[i]) && !OtherHazard(rows[i], q) && q.kind == Evacuation && !KnownStatus(rows[i])
    {
      ClassifiedExactly(rows[i], q, t);
    }
  }
}
