/** What holds of every admitted layer (src/firelens/live_admission.py:26-121). */
module LiveAdmissionLaws {
  import opened Wrappers
  import opened LiveRecords
  import opened LiveContracts
  import opened LiveAdmission

  // ---------- conservation ----------

  function AdmittedRows(rows: seq<Feature>, q: Query, t: Topology): seq<Feature> {
    if rows == [] then []
    else
      var n := |rows| - 1;
      AdmittedRows(rows[..n], q, t) + if Classify(rows[n], q, t).Admissible? then [rows[n]] else []
  }

  /** Every row falls under exactly one disposition. */
  lemma {:induction false} DispositionsAddUp(rows: seq<Feature>, q: Query, t: Topology)
    ensures
      CountOf(rows, Inactive, q, t) + CountOf(rows, NotFire, q, t) + CountOf(rows, Unrequested, q, t) +
      CountOf(rows, OmittedStatus, q, t) + CountOf(rows, OutOfBounds, q, t) + CountOf(rows, OmittedGeometry, q, t) +
      |AdmittedRows(rows, q, t)| == |rows|
  {
    if rows != [] {
      DispositionsAddUp(rows[..|rows| - 1], q, t);
    }
  }

  /** `result` is the public record of `f` under the ID it carries. */
  ghost predicate Publishes(result: LiveResult, f: Feature, kind: Kind, s: Served) {
    ToResult(kind, f, result.resultId, s) == Some(result)
  }

  /** An unblocked layer publishes exactly its admitted rows, in fetch order. */
  lemma {:induction false} ResultsAreAdmittedRows(
    rows: seq<Feature>, ids: seq<string>, q: Query, t: Topology, s: Served
  )
    requires |rows| == |ids| && FirstBlock(rows, ids, q, t, s).None?
    ensures |AdmittedResults(rows, ids, q, t, s)| == |AdmittedRows(rows, q, t)|
    ensures forall k :: 0 <= k < |AdmittedRows(rows, q, t)| ==>
              Publishes(AdmittedResults(rows, ids, q, t, s)[k], AdmittedRows(rows, q, t)[k], q.kind, s)
  {
    if rows != [] {
      var n := |rows| - 1;
      ResultsAreAdmittedRows(rows[..n], ids[..n], q, t, s);
    }
  }

  /**
   An available layer accounts for every fetched row: the published records and the two published
   omission counts leave exactly the rows that are inactive, not about fire, not asked for or outside.
   */
  lemma {:induction false} EveryRowIsAccountedFor(served: Served, ids: seq<string>, q: Query, t: Topology)
    requires |ids| == |served.rows| && Outcome(Some(served), ids, q, t).reason.None?
    ensures
      var outcome := Outcome(Some(served), ids, q, t);
      var silent := CountOf(served.rows, Inactive, q, t) + CountOf(served.rows, NotFire, q, t) +
                    CountOf(served.rows, Unrequested, q, t) + CountOf(served.rows, OutOfBounds, q, t);
      && outcome.status.matchingResultCount == |outcome.results|
      && |outcome.results| + outcome.status.omittedGeometryCount + outcome.status.omittedStatusCount + silent ==
         |served.rows|
  {
    DispositionsAddUp(served.rows, q, t);
    ResultsAreAdmittedRows(served.rows, ids, q, t, served);
  }

  // ---------- strict and partial geometry ----------

  /**
   Strict mode is available exactly when partial mode is and omits no geometry; then both publish
   the same layer.
   */
  lemma {:induction false} StrictIsPartialWithoutOmissions(served: Served, ids: seq<string>, q: Query, t: Topology)
    requires |ids| == |served.rows|
    ensures
      var strict := Outcome(Some(served), ids, q.(allowPartial := false), t);
      var partial := Outcome(Some(served), ids, q.(allowPartial := true), t);
      && (strict.reason.None? <==> partial.reason.None? && partial.status.omittedGeometryCount == 0)
      && (strict.reason.None? ==> strict == partial)
  {
    StrictBlocks(served.rows, ids, q, t, served);
    ModeIrrelevant(served.rows, ids, q, t, served);
  }

  lemma {:induction false} StrictBlocks(rows: seq<Feature>, ids: seq<string>, q: Query, t: Topology, s: Served)
    requires |rows| == |ids|
    ensures FirstBlock(rows, ids, q.(allowPartial := false), t, s).None? <==>
            && FirstBlock(rows, ids, q.(allowPartial := true), t, s).None?
            && CountOf(rows, OmittedGeometry, q, t) == 0
  {
    if rows != [] {
      var n := |rows| - 1;
      StrictBlocks(rows[..n], ids[..n], q, t, s);
    }
  }

  lemma {:induction false} ModeIrrelevant(rows: seq<Feature>, ids: seq<string>, q: Query, t: Topology, s: Served)
    requires |rows| == |ids|
    ensures forall p: bool, d ::
              CountOf(rows, d, q.(allowPartial := p), t) == CountOf(rows, d, q, t)
    ensures forall p: bool ::
              AdmittedResults(rows, ids, q.(allowPartial := p), t, s) == AdmittedResults(rows, ids, q, t, s)
  {
    if rows != [] {
      var n := |rows| - 1;
      ModeIrrelevant(rows[..n], ids[..n], q, t, s);
    }
  }

  // ---------- rows decided before their geometry ----------

  /**
   The geometry of a row that is inactive, not fire-related, unrequested or of unknown status is
   never looked at: replacing it leaves the whole outcome unchanged.
   */
  lemma {:induction false} DecidedGeometryIsIrrelevant(
    served: Served, ids: seq<string>, i: nat, g: Geometry, q: Query, t: Topology
  )
    requires |ids| == |served.rows| && i < |served.rows| && BeforeGeometry(served.rows[i], q).Some?
    ensures
      var altered := served.(rows := served.rows[i := served.rows[i].(geometry := g)]);
      && Outcome(Some(altered), ids, q, t) == Outcome(Some(served), ids, q, t)
      && Keys(altered.rows) == Keys(served.rows)
  {
    var altered := served.(rows := served.rows[i := served.rows[i].(geometry := g)]);
    AlterOneRow(served.rows, altered.rows, ids, i, q, t, served, altered);
  }

  lemma {:induction false} AlterOneRow(rows: seq<Feature>, rows': seq<Feature>, ids: seq<string>, i: nat,
                                      q: Query, t: Topology, s: Served, s': Served)
    requires |rows| == |rows'| == |ids| && s' == s.(rows := s'.rows)
    requires forall k :: 0 <= k < |rows| && k != i ==> rows[k] == rows'[k]
    requires i < |rows| ==> BeforeGeometry(rows[i], q).Some? && rows'[i] == rows[i].(geometry := rows'[i].geometry)
    ensures FirstBlock(rows, ids, q, t, s) == FirstBlock(rows', ids, q, t, s')
    ensures AdmittedResults(rows, ids, q, t, s) == AdmittedResults(rows', ids, q, t, s')
    ensures forall d :: CountOf(rows, d, q, t) == CountOf(rows', d, q, t)
    ensures Keys(rows) == Keys(rows')
  {
    if rows != [] {
      var n := |rows| - 1;
      AlterOneRow(rows[..n], rows'[..n], ids[..n], i, q, t, s, s');
      assert BeforeGeometry(rows'[n], q) == BeforeGeometry(rows[n], q);
      assert ToResult(q.kind, rows[n], ids[n], s) == ToResult(q.kind, rows[n], ids[n], s');
    }
  }

  // ---------- what a layer hands to the map response ----------

  /** The layer status and its records pass the validators, and the records belong to the layer and are counted. */
  ghost predicate LayerIsSound(o: LayerOutcome, kind: Kind) {
    && o.status.kind == kind && ValidStatus(o.status)
    && (o.reason.None? <==> o.status.available)
    && (o.reason.Some? ==> o.results == [])
    && (forall r :: r in o.results ==> r.kind == kind && ValidResult(r))
    && o.status.matchingResultCount == |o.results|
  }

  lemma {:induction false} OutcomeIsSound(served: Option<Served>, ids: seq<string>, q: Query, t: Topology)
    requires served.Some? ==> |ids| == |served.value.rows|
    ensures LayerIsSound(Outcome(served, ids, q, t), q.kind)
  {
    if served.Some? && FirstBlock(served.value.rows, ids, q, t, served.value).None? {
      AdmittedResultsValid(served.value.rows, ids, q, t, served.value);
    }
  }

  lemma {:induction false} AdmittedResultsValid(rows: seq<Feature>, ids: seq<string>, q: Query, t: Topology, s: Served)
    requires |rows| == |ids|
    ensures forall r :: r in AdmittedResults(rows, ids, q, t, s) ==> r.kind == q.kind && ValidResult(r)
  {
    if rows != [] {
      AdmittedResultsValid(rows[..|rows| - 1], ids[..|rows| - 1], q, t, s);
    }
  }
}
