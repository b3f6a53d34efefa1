/**
 Answering an exact viewport from the snapped one: `map_layer_results` over the rows fetched for the
 box of `_normalized_bbox` (src/firelens/live.py:168-192, src/firelens/live_admission.py:26-121).
 The rows agree; their IDs are numbered over different fetches (src/firelens/live_identity.py:62-85).
 */
module GridFetch {
  import opened Wrappers
  import opened Sequences
  import opened LiveRecords
  import opened LiveIdentity
  import opened LiveCache
  import opened LiveBbox
  import opened LiveContracts
  import opened LiveAdmission
  import opened LiveAdmissionLaws

  // ---------- the upstream's envelope filter ----------

  type Filter = (Geometry, Box) -> bool

  /**
   What is assumed of the upstream's envelope filter: a wider envelope loses no row, and no row whose valid
   geometry meets the envelope is missing. It may return any other rows as well.
   */
  ghost predicate Faithful(hits: Filter, t: Topology) {
    && (forall g, inner, outer :: Covers(outer, inner) && hits(g, inner) ==> hits(g, outer))
    && (forall g, b :: t.valid(g) && t.intersects(g, b) ==> hits(g, b))
  }

  /** The rows of the published layer that the upstream returns for an envelope, in publication order. */
  function Fetched(layer: seq<Feature>, b: Box, hits: Filter): seq<Feature> {
    if layer == [] then []
    else
      var n := |layer| - 1;
      Fetched(layer[..n], b, hits) + if hits(layer[n].geometry, b) then [layer[n]] else []
  }

  /** What one row of the layer does to the two fetches. */
  ghost predicate RowAgrees(f: Feature, exact: Box, wider: Box, hits: Filter, q: Query, t: Topology) {
    && (hits(f.geometry, exact) ==> hits(f.geometry, wider))
    && (Classify(f, q, t).Admissible? ==> hits(f.geometry, exact))
  }

  lemma {:induction false} FaithfulRow(f: Feature, exact: Box, wider: Box, hits: Filter, q: Query, t: Topology)
    requires Faithful(hits, t) && Covers(wider, exact) && q.bounds == Some(exact)
    ensures RowAgrees(f, exact, wider, hits, q, t)
  {
    if Classify(f, q, t).Admissible? {
      assert t.valid(f.geometry) && t.intersects(f.geometry, exact);
    }
  }

  lemma {:induction false} FetchedMembers(layer: seq<Feature>, b: Box, hits: Filter, f: Feature)
    ensures f in Fetched(layer, b, hits) <==> f in layer && hits(f.geometry, b)
  {
    if layer != [] {
      var n := |layer| - 1;
      FetchedMembers(layer[..n], b, hits, f);
      assert f in layer <==> f in layer[..n] || f == layer[n];
    }
  }

  // ---------- IDs as numbers of their keys ----------

  /** The ID of the `n`-th row of a key. */
  function NumberedId(kind: Kind, key: string, n: nat): string {
    Label(KindName(kind), key + Suffix(n))
  }

  /** How many rows up to and including row `i` carry its key. */
  function RowNumber(rows: seq<Feature>, i: nat): nat
    requires i < |rows|
  {
    Count(Keys(rows[..i + 1]), rows[i].key)
  }

  lemma {:induction false} KeysAt(rows: seq<Feature>, i: nat)
    requires i < |rows|
    ensures |Keys(rows)| == |rows| && Keys(rows)[i] == rows[i].key && Keys(rows)[..i + 1] == Keys(rows[..i + 1])
  {
    KeysLength(rows);
    var n := |rows| - 1;
    KeysLength(rows[..n]);
    if i < n {
      KeysAt(rows[..n], i);
      assert rows[..n][..i + 1] == rows[..i + 1];
      assert Keys(rows)[..i + 1] == Keys(rows[..n])[..i + 1];
    } else {
      assert rows[..i + 1] == rows;
    }
  }

  /** What `record_ids` gives the rows of one fetch. */
  lemma {:induction false} RowIdsAt(kind: Kind, rows: seq<Feature>, i: nat)
    requires i < |rows|
    ensures RowIdsOf(kind, rows)[i] == NumberedId(kind, rows[i].key, RowNumber(rows, i))
  {
    KeysAt(rows, i);
    RecordIdsAt(KindName(kind), Keys(rows), i);
  }

  /** A later row of a key never has a shorter ID. */
  lemma {:induction false} LaterIdIsNotShorter(kind: Kind, key: string, n: nat, m: nat)
    requires n <= m
    ensures |NumberedId(kind, key, n)| <= |NumberedId(kind, key, m)|
  {
    if n > 1 {
      DecimalLength(n, m);
    }
  }

  // ---------- what one more row adds ----------

  /** The number of its key that each admitted row carries. */
  function AdmittedNumbers(rows: seq<Feature>, q: Query, t: Topology): (numbers: seq<nat>)
    ensures |numbers| == |AdmittedRows(rows, q, t)|
  {
    if rows == [] then []
    else
      var n := |rows| - 1;
      AdmittedNumbers(rows[..n], q, t) +
      if Classify(rows[n], q, t).Admissible? then [Count(Keys(rows), rows[n].key)] else []
  }

  lemma {:induction false} OneMoreRow(rows: seq<Feature>, f: Feature, q: Query, t: Topology)
    ensures
      var admissible := Classify(f, q, t).Admissible?;
      && AdmittedRows(rows + [f], q, t) == AdmittedRows(rows, q, t) + (if admissible then [f] else [])
      && AdmittedNumbers(rows + [f], q, t) ==
         AdmittedNumbers(rows, q, t) + (if admissible then [Count(Keys(rows), f.key) + 1] else [])
  {
    OneMoreAdmitted(rows, f, q, t);
    OneMoreNumber(rows, f, q, t);
  }

  lemma {:induction false} OneMoreAdmitted(rows: seq<Feature>, f: Feature, q: Query, t: Topology)
    ensures AdmittedRows(rows + [f], q, t) ==
            AdmittedRows(rows, q, t) + (if Classify(f, q, t).Admissible? then [f] else [])
  {
    assert (rows + [f])[..|rows|] == rows;
  }

  lemma {:induction false} OneMoreNumber(rows: seq<Feature>, f: Feature, q: Query, t: Topology)
    ensures AdmittedNumbers(rows + [f], q, t) ==
            AdmittedNumbers(rows, q, t) +
            (if Classify(f, q, t).Admissible? then [Count(Keys(rows), f.key) + 1] else [])
  {
    assert (rows + [f])[..|rows|] == rows;
    OneMoreKey(rows, f, f.key);
  }

  lemma {:induction false} OneMoreKey(rows: seq<Feature>, f: Feature, key: string)
    ensures Count(Keys(rows + [f]), key) == Count(Keys(rows), key) + (if f.key == key then 1 else 0)
  {
    assert (rows + [f])[..|rows|] == rows;
    var keys := Keys(rows);
    assert (keys + [f.key])[..|keys|] == keys;
  }

  lemma {:induction false} OneMoreCount(rows: seq<Feature>, f: Feature, d: Disposition, q: Query, t: Topology)
    ensures CountOf(rows + [f], d, q, t) == CountOf(rows, d, q, t) + (if Classify(f, q, t) == d then 1 else 0)
  {
    assert (rows + [f])[..|rows|] == rows;
  }

  lemma {:induction false} FetchedStep(layer: seq<Feature>, b: Box, hits: Filter)
    requires layer != []
    ensures
      var n := |layer| - 1;
      Fetched(layer, b, hits) ==
      if hits(layer[n].geometry, b) then Fetched(layer[..n], b, hits) + [layer[n]] else Fetched(layer[..n], b, hits)
  {
    var before := Fetched(layer[..|layer| - 1], b, hits);
    assert before + [] == before;
  }

  // ---------- the two fetches side by side ----------

  lemma {:induction false} KeysGrow(
    layer: seq<Feature>, exact: Box, wider: Box, hits: Filter, q: Query, t: Topology, key: string
  )
    requires forall f :: f in layer ==> RowAgrees(f, exact, wider, hits, q, t)
    ensures Count(Keys(Fetched(layer, exact, hits)), key) <= Count(Keys(Fetched(layer, wider, hits)), key)
  {
    if layer != [] {
      var n := |layer| - 1;
      assert RowAgrees(layer[n], exact, wider, hits, q, t);
      KeysGrow(layer[..n], exact, wider, hits, q, t, key);
      OneMoreFetchedKey(layer, exact, hits, key);
      OneMoreFetchedKey(layer, wider, hits, key);
    }
  }

  lemma {:induction false} CountsGrow(
    layer: seq<Feature>, exact: Box, wider: Box, hits: Filter, q: Query, t: Topology, d: Disposition
  )
    requires forall f :: f in layer ==> RowAgrees(f, exact, wider, hits, q, t)
    ensures CountOf(Fetched(layer, exact, hits), d, q, t) <= CountOf(Fetched(layer, wider, hits), d, q, t)
  {
    if layer != [] {
      var n := |layer| - 1;
      assert RowAgrees(layer[n], exact, wider, hits, q, t);
      CountsGrow(layer[..n], exact, wider, hits, q, t, d);
      FetchedStep(layer, exact, hits);
      FetchedStep(layer, wider, hits);
      OneMoreCount(Fetched(layer[..n], exact, hits), layer[n], d, q, t);
      OneMoreCount(Fetched(layer[..n], wider, hits), layer[n], d, q, t);
    }
  }

  ghost predicate NotAbove(a: seq<nat>, b: seq<nat>) {
    |a| == |b| && forall k :: 0 <= k < |a| ==> a[k] <= b[k]
  }

  /** Both fetches admit the same rows in the same order, and no number of a key shrinks. */
  lemma {:induction false} SameRowsAdmitted(
    layer: seq<Feature>, exact: Box, wider: Box, hits: Filter, q: Query, t: Topology
  )
    requires forall f :: f in layer ==> RowAgrees(f, exact, wider, hits, q, t)
    ensures
      var narrow, wide := Fetched(layer, exact, hits), Fetched(layer, wider, hits);
      && AdmittedRows(wide, q, t) == AdmittedRows(narrow, q, t)
      && NotAbove(AdmittedNumbers(narrow, q, t), AdmittedNumbers(wide, q, t))
  {
    if layer != [] {
      var n := |layer| - 1;
      assert RowAgrees(layer[n], exact, wider, hits, q, t);
      SameRowsAdmitted(layer[..n], exact, wider, hits, q, t);
      KeysGrow(layer[..n], exact, wider, hits, q, t, layer[n].key);
      FetchedStep(layer, exact, hits);
      FetchedStep(layer, wider, hits);
      OneMoreRow(Fetched(layer[..n], exact, hits), layer[n], q, t);
      OneMoreRow(Fetched(layer[..n], wider, hits), layer[n], q, t);
    }
  }

  /** The same rows are admitted from the wider fetch; no number of theirs and no omission count shrinks. */
  lemma {:induction false} WiderFetchAdmitsTheSame(
    layer: seq<Feature>, exact: Box, wider: Box, hits: Filter, q: Query, t: Topology, d: Disposition
  )
    requires Faithful(hits, t) && Covers(wider, exact) && q.bounds == Some(exact)
    ensures AdmittedRows(Fetched(layer, wider, hits), q, t) == AdmittedRows(Fetched(layer, exact, hits), q, t)
    ensures NotAbove(
      AdmittedNumbers(Fetched(layer, exact, hits), q, t), AdmittedNumbers(Fetched(layer, wider, hits), q, t))
    ensures CountOf(Fetched(layer, wider, hits), d, q, t) >= CountOf(Fetched(layer, exact, hits), d, q, t)
  {
    forall f | f in layer ensures RowAgrees(f, exact, wider, hits, q, t) {
      FaithfulRow(f, exact, wider, hits, q, t);
    }
    SameRowsAdmitted(layer, exact, wider, hits, q, t);
    CountsGrow(layer, exact, wider, hits, q, t, d);
  }

  // ---------- blocks and IDs of the admitted rows ----------

  /** The IDs of the admitted rows. */
  function AdmittedIds(rows: seq<Feature>, ids: seq<string>, q: Query, t: Topology): (admitted: seq<string>)
    requires |rows| == |ids|
    ensures |admitted| == |AdmittedRows(rows, q, t)|
  {
    if rows == [] then []
    else
      var n := |rows| - 1;
      AdmittedIds(rows[..n], ids[..n], q, t) + if Classify(rows[n], q, t).Admissible? then [ids[n]] else []
  }

  /** A row in the record contract, under an ID within the bounds of public IDs. */
  predicate CanPublish(f: Feature, id: string) {
    f.wellFormed && 1 <= |id| <= 200
  }

  ghost predicate AllCanPublish(rows: seq<Feature>, ids: seq<string>) {
    |rows| == |ids| && forall k :: 0 <= k < |rows| ==> CanPublish(rows[k], ids[k])
  }

  lemma {:induction false} OneMoreCanPublish(rows: seq<Feature>, ids: seq<string>, f: Feature, id: string)
    requires |rows| == |ids|
    ensures AllCanPublish(rows + [f], ids + [id]) <==> AllCanPublish(rows, ids) && CanPublish(f, id)
  {
    var rows', ids' := rows + [f], ids + [id];
    assert rows'[|rows|] == f && ids'[|rows|] == id;
    assert forall k :: 0 <= k < |rows| ==> rows'[k] == rows[k] && ids'[k] == ids[k];
  }

  /**
   In partial mode a layer is blocked exactly by an admitted row outside the contract, or with an ID out of
   bounds.
   */
  lemma {:induction false} PartialBlocks(rows: seq<Feature>, ids: seq<string>, q: Query, t: Topology, s: Served)
    requires |rows| == |ids| && q.allowPartial
    ensures FirstBlock(rows, ids, q, t, s).None? <==>
        AllCanPublish(AdmittedRows(rows, q, t), AdmittedIds(rows, ids, q, t))
    ensures FirstBlock(rows, ids, q, t, s) in {None, Some(ContractViolation)}
  {
    if rows != [] {
      var n := |rows| - 1;
      var before, beforeIds := AdmittedRows(rows[..n], q, t), AdmittedIds(rows[..n], ids[..n], q, t);
      PartialBlocks(rows[..n], ids[..n], q, t, s);
      OneMoreCanPublish(before, beforeIds, rows[n], ids[n]);
      assert before + [] == before && beforeIds + [] == beforeIds;
    }
  }

  lemma {:induction false} ResultIdsAreAdmitted(rows: seq<Feature>, ids: seq<string>, q: Query, t: Topology, s: Served,
                                               k: nat)
    requires |rows| == |ids| && FirstBlock(rows, ids, q, t, s).None? && k < |AdmittedRows(rows, q, t)|
    ensures |AdmittedResults(rows, ids, q, t, s)| == |AdmittedRows(rows, q, t)|
    ensures AdmittedResults(rows, ids, q, t, s)[k].resultId == AdmittedIds(rows, ids, q, t)[k]
  {
    var n := |rows| - 1;
    ResultsAreAdmittedRows(rows, ids, q, t, s);
    ResultsAreAdmittedRows(rows[..n], ids[..n], q, t, s);
    if k < |AdmittedRows(rows[..n], q, t)| {
      ResultIdsAreAdmitted(rows[..n], ids[..n], q, t, s, k);
    }
  }

  /** IDs that are a function of key and number are one on the admitted rows. */
  lemma {:induction false} AdmittedIdsNumbered(
    rows: seq<Feature>, ids: seq<string>, idOf: (string, nat) -> string, q: Query, t: Topology, k: nat
  )
    requires |rows| == |ids| && forall i :: 0 <= i < |rows| ==> ids[i] == idOf(rows[i].key, RowNumber(rows, i))
    requires k < |AdmittedRows(rows, q, t)|
    ensures AdmittedIds(rows, ids, q, t)[k] == idOf(AdmittedRows(rows, q, t)[k].key, AdmittedNumbers(rows, q, t)[k])
  {
    var n := |rows| - 1;
    if k < |AdmittedRows(rows[..n], q, t)| {
      forall i | 0 <= i < n ensures ids[..n][i] == idOf(rows[..n][i].key, RowNumber(rows[..n], i)) {
        assert rows[..n][..i + 1] == rows[..i + 1];
      }
      AdmittedIdsNumbered(rows[..n], ids[..n], idOf, q, t, k);
    } else {
      assert rows[..n + 1] == rows;
    }
  }

  /** The IDs of the admitted rows of one fetch. */
  function FetchIds(kind: Kind, rows: seq<Feature>, q: Query, t: Topology): (ids: seq<string>)
    ensures |ids| == |AdmittedRows(rows, q, t)|
  {
    AdmittedIds(rows, RowIdsOf(kind, rows), q, t)
  }

  lemma {:induction false} FetchIdsAt(kind: Kind, rows: seq<Feature>, q: Query, t: Topology, k: nat)
    requires k < |AdmittedRows(rows, q, t)|
    ensures FetchIds(kind, rows, q, t)[k] ==
            NumberedId(kind, AdmittedRows(rows, q, t)[k].key, AdmittedNumbers(rows, q, t)[k])
  {
    var ids, idOf := RowIdsOf(kind, rows), (key: string, n: nat) => NumberedId(kind, key, n);
    forall i | 0 <= i < |rows| ensures ids[i] == idOf(rows[i].key, RowNumber(rows, i)) {
      RowIdsAt(kind, rows, i);
    }
    AdmittedIdsNumbered(rows, ids, idOf, q, t, k);
  }

  lemma {:induction false} FetchIdsNotEmpty(kind: Kind, rows: seq<Feature>, q: Query, t: Topology, k: nat)
    requires k < |AdmittedRows(rows, q, t)|
    ensures |FetchIds(kind, rows, q, t)[k]| >= 1
  {
    FetchIdsAt(kind, rows, q, t, k);
  }

  /** The outcome of one layer over the rows of one fetch. */
  function FetchOutcome(s: Served, rows: seq<Feature>, q: Query, t: Topology): LayerOutcome {
    Outcome(Some(s.(rows := rows)), RowIdsOf(q.kind, rows), q, t)
  }

  lemma {:induction false} PartialAvailableIff(s: Served, rows: seq<Feature>, q: Query, t: Topology)
    requires q.allowPartial
    ensures FetchOutcome(s, rows, q, t).reason.None? <==>
        AllCanPublish(AdmittedRows(rows, q, t), FetchIds(q.kind, rows, q, t))
    ensures FetchOutcome(s, rows, q, t).reason in {None, Some(ContractViolation)}
  {
    PartialBlocks(rows, RowIdsOf(q.kind, rows), q, t, s.(rows := rows));
  }

  lemma {:induction false} PublishedRecord(s: Served, rows: seq<Feature>, q: Query, t: Topology, k: nat)
    requires FetchOutcome(s, rows, q, t).reason.None? && k < |AdmittedRows(rows, q, t)|
    ensures
      var results := FetchOutcome(s, rows, q, t).results;
      && |results| == |AdmittedRows(rows, q, t)|
      && results[k].resultId == FetchIds(q.kind, rows, q, t)[k]
      && Publishes(results[k], AdmittedRows(rows, q, t)[k], q.kind, s)
  {
    var served, ids := s.(rows := rows), RowIdsOf(q.kind, rows);
    ResultIdsAreAdmitted(rows, ids, q, t, served, k);
    ResultsAreAdmittedRows(rows, ids, q, t, served);
    assert Publishes(AdmittedResults(rows, ids, q, t, served)[k], AdmittedRows(rows, q, t)[k], q.kind, served);
  }

  // ---------- the snapped fetch against the exact one ----------

  /** One published layer, one exact viewport, and what turns its snapped fetch into an answer. */
  datatype Viewport = Viewport(layer: seq<Feature>, exact: Box, grid: real, hits: Filter, q: Query, t: Topology,
                               s: Served) {
    ghost predicate Valid() {
      Faithful(hits, t) && ValidGrid(grid) && q.bounds == Some(exact)
    }

    function ExactRows(): seq<Feature> {
      Fetched(layer, exact, hits)
    }

    function SnappedRows(): seq<Feature>
      requires ValidGrid(grid)
    {
      Fetched(layer, Expand(exact, grid), hits)
    }

    /** The answer over a fetch of the exact box. */
    function Narrow(): LayerOutcome {
      FetchOutcome(s, ExactRows(), q, t)
    }

    /** The answer over the fetch of the snapped box, filtered to the exact one. */
    function Wide(): LayerOutcome
      requires ValidGrid(grid)
    {
      FetchOutcome(s, SnappedRows(), q, t)
    }

    /** The rows both answers publish. */
    function Admitted(): seq<Feature> {
      AdmittedRows(ExactRows(), q, t)
    }

    /** The IDs they have in the snapped fetch. */
    function SnappedIds(): seq<string>
      requires ValidGrid(grid)
    {
      FetchIds(q.kind, SnappedRows(), q, t)
    }
  }

  lemma {:induction false} SideBySide(v: Viewport)
    requires v.Valid()
    ensures AdmittedRows(v.SnappedRows(), v.q, v.t) == v.Admitted()
    ensures NotAbove(AdmittedNumbers(v.ExactRows(), v.q, v.t), AdmittedNumbers(v.SnappedRows(), v.q, v.t))
  {
    ExpandContains(v.exact, v.grid);
    forall f | f in v.layer ensures RowAgrees(f, v.exact, Expand(v.exact, v.grid), v.hits, v.q, v.t) {
      FaithfulRow(f, v.exact, Expand(v.exact, v.grid), v.hits, v.q, v.t);
    }
    SameRowsAdmitted(v.layer, v.exact, Expand(v.exact, v.grid), v.hits, v.q, v.t);
  }

  lemma {:induction false} ExactIdNotLonger(v: Viewport, k: nat)
    requires v.Valid() && k < |v.Admitted()|
    ensures |v.SnappedIds()| == |v.Admitted()|
    ensures 1 <= |FetchIds(v.q.kind, v.ExactRows(), v.q, v.t)[k]| <= |v.SnappedIds()[k]|
  {
    SideBySide(v);
    FetchIdsAt(v.q.kind, v.ExactRows(), v.q, v.t, k);
    FetchIdsAt(v.q.kind, v.SnappedRows(), v.q, v.t, k);
    FetchIdsNotEmpty(v.q.kind, v.ExactRows(), v.q, v.t, k);
    LaterIdIsNotShorter(
      v.q.kind, v.Admitted()[k].key,
      AdmittedNumbers(v.ExactRows(), v.q, v.t)[k], AdmittedNumbers(v.SnappedRows(), v.q, v.t)[k]);
  }

  /** Some published row has a longer ID in the snapped fetch than a public ID may be. */
  ghost predicate NumberingOverflows(v: Viewport)
    requires ValidGrid(v.grid)
  {
    exists k :: 0 <= k < |v.SnappedIds()| && |v.SnappedIds()[k]| > 200
  }

  /**
   In partial mode the snapped fetch is available if and only if the exact one is and no published
   row's number takes its ID over the bound.
   */
  lemma {:induction false} SnappedAvailableIff(v: Viewport)
    requires v.Valid() && v.q.allowPartial
    ensures v.Wide().reason.None? <==> v.Narrow().reason.None? && !NumberingOverflows(v)
    ensures v.Wide().reason in {None, Some(ContractViolation)} && v.Narrow().reason in {None, Some(ContractViolation)}
  {
    SideBySide(v);
    PartialAvailableIff(v.s, v.ExactRows(), v.q, v.t);
    PartialAvailableIff(v.s, v.SnappedRows(), v.q, v.t);
    var exactIds, snappedIds := FetchIds(v.q.kind, v.ExactRows(), v.q, v.t), v.SnappedIds();
    forall k | 0 <= k < |v.Admitted()|
      ensures |snappedIds| == |v.Admitted()| && 1 <= |exactIds[k]| <= |snappedIds[k]|
    {
      ExactIdNotLonger(v, k);
    }
    if AllCanPublish(v.Admitted(), exactIds) && !NumberingOverflows(v) {
      assert forall k :: 0 <= k < |v.Admitted()| ==> CanPublish(v.Admitted()[k], snappedIds[k]);
    }
    if AllCanPublish(v.Admitted(), snappedIds) {
      assert forall k :: 0 <= k < |v.Admitted()| ==> CanPublish(v.Admitted()[k], snappedIds[k]);
    }
  }

  /** The same record, but for its number: the snapped fetch never gives it a smaller one. */
  ghost predicate SameButForNumber(narrow: LiveResult, wide: LiveResult, kind: Kind, key: string) {
    && wide.(resultId := narrow.resultId) == narrow
    && exists n: nat, m: nat ::
         n <= m && narrow.resultId == NumberedId(kind, key, n) && wide.resultId == NumberedId(kind, key, m)
  }

  lemma {:induction false} RecordPair(v: Viewport, k: nat)
    requires v.Valid() && v.Wide().reason.None? && v.Narrow().reason.None? && k < |v.Admitted()|
    ensures |v.Wide().results| == |v.Narrow().results| == |v.Admitted()|
    ensures SameButForNumber(v.Narrow().results[k], v.Wide().results[k], v.q.kind, v.Admitted()[k].key)
  {
    SideBySide(v);
    PublishedRecord(v.s, v.ExactRows(), v.q, v.t, k);
    PublishedRecord(v.s, v.SnappedRows(), v.q, v.t, k);
    FetchIdsAt(v.q.kind, v.ExactRows(), v.q, v.t, k);
    FetchIdsAt(v.q.kind, v.SnappedRows(), v.q, v.t, k);
    var n, m := AdmittedNumbers(v.ExactRows(), v.q, v.t)[k], AdmittedNumbers(v.SnappedRows(), v.q, v.t)[k];
    assert n <= m;
  }

  lemma {:induction false} SameNumberOfRecords(v: Viewport)
    requires v.Valid() && v.Wide().reason.None? && v.Narrow().reason.None?
    ensures |v.Wide().results| == |v.Narrow().results| == |v.Admitted()|
  {
    SideBySide(v);
    ResultsAreAdmittedRows(v.ExactRows(), RowIdsOf(v.q.kind, v.ExactRows()), v.q, v.t, v.s.(rows := v.ExactRows()));
    ResultsAreAdmittedRows(
      v.SnappedRows(), RowIdsOf(v.q.kind, v.SnappedRows()), v.q, v.t, v.s.(rows := v.SnappedRows()));
  }

  /**
   Snapping the viewport outward publishes the same records of a layer in the same order, up to the
   numbers in their IDs, whenever the snapped fetch is available; omission counts can only grow.
   */
  lemma {:induction false} GridFetchAnswersExactQuery(v: Viewport)
    requires v.Valid() && v.q.allowPartial && v.Wide().reason.None?
    ensures v.Narrow().reason.None? && |v.Wide().results| == |v.Narrow().results| == |v.Admitted()|
    ensures forall k :: 0 <= k < |v.Admitted()| ==>
              SameButForNumber(v.Narrow().results[k], v.Wide().results[k], v.q.kind, v.Admitted()[k].key)
    ensures v.Wide().status.omittedGeometryCount >= v.Narrow().status.omittedGeometryCount
    ensures v.Wide().status.omittedStatusCount >= v.Narrow().status.omittedStatusCount
  {
    SnappedAvailableIff(v);
    SameNumberOfRecords(v);
    forall k | 0 <= k < |v.Admitted()|
      ensures SameButForNumber(v.Narrow().results[k], v.Wide().results[k], v.q.kind, v.Admitted()[k].key)
    {
      RecordPair(v, k);
    }
    ExpandContains(v.exact, v.grid);
    WiderFetchAdmitsTheSame(v.layer, v.exact, Expand(v.exact, v.grid), v.hits, v.q, v.t, OmittedGeometry);
    WiderFetchAdmitsTheSame(v.layer, v.exact, Expand(v.exact, v.grid), v.hits, v.q, v.t, OmittedStatus);
  }

  // ---------- where the numbers come from ----------

  /** The places in the layer of the rows that are admitted. */
  function AdmittedPlaces(layer: seq<Feature>, exact: Box, hits: Filter, q: Query, t: Topology): seq<nat> {
    if layer == [] then []
    else
      var n := |layer| - 1;
      AdmittedPlaces(layer[..n], exact, hits, q, t) +
      if hits(layer[n].geometry, exact) && Classify(layer[n], q, t).Admissible? then [n] else []
  }

  /** A row that only the wider box reaches. */
  predicate InMargin(f: Feature, exact: Box, wider: Box, hits: Filter) {
    hits(f.geometry, wider) && !hits(f.geometry, exact)
  }

  /** How many rows of a key lie in the margin. */
  function MarginCount(layer: seq<Feature>, exact: Box, wider: Box, hits: Filter, key: string): (n: nat)
    ensures n == 0 <==> forall i :: 0 <= i < |layer| && layer[i].key == key ==> !InMargin(layer[i], exact, wider, hits)
  {
    if layer == [] then 0
    else
      var last := layer[|layer| - 1];
      MarginCount(layer[..|layer| - 1], exact, wider, hits, key) +
      if last.key == key && InMargin(last, exact, wider, hits) then 1 else 0
  }

  /** What one more row of the layer adds to the count of a key in a fetch. */
  lemma {:induction false} OneMoreFetchedKey(layer: seq<Feature>, b: Box, hits: Filter, key: string)
    requires layer != []
    ensures
      var f := layer[|layer| - 1];
      Count(Keys(Fetched(layer, b, hits)), key) ==
      Count(Keys(Fetched(layer[..|layer| - 1], b, hits)), key) +
      if hits(f.geometry, b) && f.key == key then 1 else 0
  {
    FetchedStep(layer, b, hits);
    OneMoreKey(Fetched(layer[..|layer| - 1], b, hits), layer[|layer| - 1], key);
  }

  lemma {:induction false} CountsDifferByMargin(
    layer: seq<Feature>, exact: Box, wider: Box, hits: Filter, q: Query, t: Topology, key: string
  )
    requires forall f :: f in layer ==> RowAgrees(f, exact, wider, hits, q, t)
    ensures Count(Keys(Fetched(layer, wider, hits)), key) ==
            Count(Keys(Fetched(layer, exact, hits)), key) + MarginCount(layer, exact, wider, hits, key)
  {
    if layer != [] {
      assert RowAgrees(layer[|layer| - 1], exact, wider, hits, q, t);
      CountsDifferByMargin(layer[..|layer| - 1], exact, wider, hits, q, t, key);
      OneMoreFetchedKey(layer, exact, hits, key);
      OneMoreFetchedKey(layer, wider, hits, key);
    }
  }

  lemma {:induction false} PlacesStep(layer: seq<Feature>, exact: Box, hits: Filter, q: Query, t: Topology)
    ensures |AdmittedPlaces(layer, exact, hits, q, t)| == |AdmittedRows(Fetched(layer, exact, hits), q, t)|
  {
    if layer != [] {
      var n := |layer| - 1;
      PlacesStep(layer[..n], exact, hits, q, t);
      FetchedStep(layer, exact, hits);
      OneMoreRow(Fetched(layer[..n], exact, hits), layer[n], q, t);
    }
  }

  /** A row that is not fetched is not admitted, and adds nothing; any other is one more row. */
  lemma {:induction false} MaybeOneMoreRow(rows: seq<Feature>, f: Feature, fetched: bool, q: Query, t: Topology)
    requires Classify(f, q, t).Admissible? ==> fetched
    ensures
      var after := if fetched then rows + [f] else rows;
      if Classify(f, q, t).Admissible? then
        && AdmittedRows(after, q, t) == AdmittedRows(rows, q, t) + [f]
        && AdmittedNumbers(after, q, t) == AdmittedNumbers(rows, q, t) + [Count(Keys(rows), f.key) + 1]
      else
        && AdmittedRows(after, q, t) == AdmittedRows(rows, q, t)
        && AdmittedNumbers(after, q, t) == AdmittedNumbers(rows, q, t)
  {
    OneMoreRow(rows, f, q, t);
    assert AdmittedRows(rows, q, t) + [] == AdmittedRows(rows, q, t);
    assert AdmittedNumbers(rows, q, t) + [] == AdmittedNumbers(rows, q, t);
  }

  /** What one more row of the layer adds to the numbers of a fetch that has every admissible row. */
  lemma {:induction false} OneMoreFetched(layer: seq<Feature>, b: Box, hits: Filter, q: Query, t: Topology)
    requires layer != []
    requires Classify(layer[|layer| - 1], q, t).Admissible? ==> hits(layer[|layer| - 1].geometry, b)
    ensures
      var f, before := layer[|layer| - 1], Fetched(layer[..|layer| - 1], b, hits);
      var rows, numbers := AdmittedRows(before, q, t), AdmittedNumbers(before, q, t);
      if Classify(f, q, t).Admissible? then
        && AdmittedRows(Fetched(layer, b, hits), q, t) == rows + [f]
        && AdmittedNumbers(Fetched(layer, b, hits), q, t) == numbers + [Count(Keys(before), f.key) + 1]
      else
        && AdmittedRows(Fetched(layer, b, hits), q, t) == rows
        && AdmittedNumbers(Fetched(layer, b, hits), q, t) == numbers
  {
    var f := layer[|layer| - 1];
    FetchedStep(layer, b, hits);
    MaybeOneMoreRow(Fetched(layer[..|layer| - 1], b, hits), f, hits(f.geometry, b), q, t);
  }

  /** The `k`-th admitted row has a place, and its number grows by the rows of its key in the margin before it. */
  ghost predicate GrowsByMargin(
    layer: seq<Feature>, exact: Box, wider: Box, hits: Filter, q: Query, t: Topology, k: nat
  ) {
    var narrow, wide := Fetched(layer, exact, hits), Fetched(layer, wider, hits);
    var rows, places := AdmittedRows(narrow, q, t), AdmittedPlaces(layer, exact, hits, q, t);
    && k < |places| == |rows| == |AdmittedNumbers(wide, q, t)|
    && places[k] < |layer| && layer[places[k]] == rows[k]
    && AdmittedNumbers(wide, q, t)[k] ==
       AdmittedNumbers(narrow, q, t)[k] + MarginCount(layer[..places[k]], exact, wider, hits, rows[k].key)
  }

  /** A later row of the layer changes nothing for the rows before it. */
  lemma {:induction false} EarlierRowGrows(
    layer: seq<Feature>, exact: Box, wider: Box, hits: Filter, q: Query, t: Topology, k: nat
  )
    requires layer != [] && RowAgrees(layer[|layer| - 1], exact, wider, hits, q, t)
    requires GrowsByMargin(layer[..|layer| - 1], exact, wider, hits, q, t, k)
    ensures GrowsByMargin(layer, exact, wider, hits, q, t, k)
  {
    var before := layer[..|layer| - 1];
    OneMoreFetched(layer, exact, hits, q, t);
    OneMoreFetched(layer, wider, hits, q, t);
    var place := AdmittedPlaces(before, exact, hits, q, t)[k];
    assert AdmittedPlaces(layer, exact, hits, q, t)[k] == place && before[..place] == layer[..place];
  }

  lemma {:induction false} LastRowGrows(
    layer: seq<Feature>, exact: Box, wider: Box, hits: Filter, q: Query, t: Topology
  )
    requires layer != [] && forall f :: f in layer ==> RowAgrees(f, exact, wider, hits, q, t)
    requires Classify(layer[|layer| - 1], q, t).Admissible?
    ensures GrowsByMargin(
      layer, exact, wider, hits, q, t, |AdmittedRows(Fetched(layer[..|layer| - 1], exact, hits), q, t)|)
  {
    var before, f := layer[..|layer| - 1], layer[|layer| - 1];
    assert RowAgrees(f, exact, wider, hits, q, t);
    PlacesStep(before, exact, hits, q, t);
    SameRowsAdmitted(before, exact, wider, hits, q, t);
    OneMoreFetched(layer, exact, hits, q, t);
    OneMoreFetched(layer, wider, hits, q, t);
    CountsDifferByMargin(before, exact, wider, hits, q, t, f.key);
  }

  lemma {:induction false} AtMostOneMore(layer: seq<Feature>, b: Box, hits: Filter, q: Query, t: Topology)
    requires layer != []
    requires Classify(layer[|layer| - 1], q, t).Admissible? ==> hits(layer[|layer| - 1].geometry, b)
    ensures |AdmittedRows(Fetched(layer, b, hits), q, t)| ==
            |AdmittedRows(Fetched(layer[..|layer| - 1], b, hits), q, t)| +
            if Classify(layer[|layer| - 1], q, t).Admissible? then 1 else 0
  {
    OneMoreFetched(layer, b, hits, q, t);
  }

  /** An admitted row's number grows by the rows of its key that lie before it in the margin. */
  lemma {:induction false} NumbersDifferByMargin(
    layer: seq<Feature>, exact: Box, wider: Box, hits: Filter, q: Query, t: Topology, k: nat
  )
    requires forall f :: f in layer ==> RowAgrees(f, exact, wider, hits, q, t)
    requires k < |AdmittedRows(Fetched(layer, exact, hits), q, t)|
    ensures GrowsByMargin(layer, exact, wider, hits, q, t, k)
  {
    var before := layer[..|layer| - 1];
    assert RowAgrees(layer[|layer| - 1], exact, wider, hits, q, t);
    AtMostOneMore(layer, exact, hits, q, t);
    if k < |AdmittedRows(Fetched(before, exact, hits), q, t)| {
      NumbersDifferByMargin(before, exact, wider, hits, q, t, k);
      EarlierRowGrows(layer, exact, wider, hits, q, t, k);
    } else {
      LastRowGrows(layer, exact, wider, hits, q, t);
    }
  }

  /** A row of the same key comes before the `k`-th admitted row, and only the snapped box reaches it. */
  ghost predicate MarginRowBefore(v: Viewport, k: nat)
    requires ValidGrid(v.grid) && k < |v.Admitted()|
  {
    var places := AdmittedPlaces(v.layer, v.exact, v.hits, v.q, v.t);
    exists i :: 0 <= i < |v.layer| && k < |places| && i < places[k] && v.layer[i].key == v.Admitted()[k].key
                && InMargin(v.layer[i], v.exact, Expand(v.exact, v.grid), v.hits)
  }

  lemma {:induction false} SameNumberIff(v: Viewport, k: nat)
    requires v.Valid() && k < |v.Admitted()|
    ensures AdmittedRows(v.SnappedRows(), v.q, v.t) == v.Admitted()
    ensures AdmittedNumbers(v.SnappedRows(), v.q, v.t)[k] == AdmittedNumbers(v.ExactRows(), v.q, v.t)[k] <==>
            !MarginRowBefore(v, k)
  {
    var wider := Expand(v.exact, v.grid);
    SideBySide(v);
    ExpandContains(v.exact, v.grid);
    forall f | f in v.layer ensures RowAgrees(f, v.exact, wider, v.hits, v.q, v.t) {
      FaithfulRow(f, v.exact, wider, v.hits, v.q, v.t);
    }
    NumbersDifferByMargin(v.layer, v.exact, wider, v.hits, v.q, v.t, k);
    var place := AdmittedPlaces(v.layer, v.exact, v.hits, v.q, v.t)[k];
    var before, key := v.layer[..place], v.Admitted()[k].key;
    assert MarginCount(before, v.exact, wider, v.hits, key) == 0 <==>
           forall i :: 0 <= i < place && before[i].key == key ==> !InMargin(before[i], v.exact, wider, v.hits);
    assert forall i :: 0 <= i < place ==> before[i] == v.layer[i];
  }

  /** A record has the same ID in both answers exactly when no earlier row of its key lies in the margin. */
  lemma {:induction false} SameIdIff(v: Viewport, k: nat)
    requires v.Valid() && v.Wide().reason.None? && v.Narrow().reason.None? && k < |v.Admitted()|
    ensures |v.Wide().results| == |v.Narrow().results| == |v.Admitted()|
    ensures v.Wide().results[k].resultId == v.Narrow().results[k].resultId <==> !MarginRowBefore(v, k)
  {
    SameNumberIff(v, k);
    PublishedRecord(v.s, v.ExactRows(), v.q, v.t, k);
    PublishedRecord(v.s, v.SnappedRows(), v.q, v.t, k);
    FetchIdsAt(v.q.kind, v.ExactRows(), v.q, v.t, k);
    FetchIdsAt(v.q.kind, v.SnappedRows(), v.q, v.t, k);
    NumbersArePositive(v.ExactRows(), v.q, v.t, k);
    NumbersArePositive(v.SnappedRows(), v.q, v.t, k);
    NumbersDecideIds(
      KindName(v.q.kind), v.Admitted()[k].key,
      AdmittedNumbers(v.SnappedRows(), v.q, v.t)[k], AdmittedNumbers(v.ExactRows(), v.q, v.t)[k]);
  }

  lemma {:induction false} NumbersArePositive(rows: seq<Feature>, q: Query, t: Topology, k: nat)
    requires k < |AdmittedNumbers(rows, q, t)|
    ensures AdmittedNumbers(rows, q, t)[k] >= 1
  {
    var n := |rows| - 1;
    if k < |AdmittedNumbers(rows[..n], q, t)| {
      NumbersArePositive(rows[..n], q, t, k);
    }
  }

  /** Both answers publish the very same records exactly when that holds of every admitted row. */
  lemma {:induction false} SameAnswerIff(v: Viewport)
    requires v.Valid() && v.Wide().reason.None? && v.Narrow().reason.None?
    ensures v.Wide().results == v.Narrow().results <==>
            forall k :: 0 <= k < |v.Admitted()| ==> !MarginRowBefore(v, k)
  {
    SameNumberOfRecords(v);
    forall k | 0 <= k < |v.Admitted()|
      ensures v.Wide().results[k] == v.Narrow().results[k] <==> !MarginRowBefore(v, k)
    {
      SameIdIff(v, k);
      RecordPair(v, k);
    }
  }

  // ---------- where the two answers part ----------

  function PointRow(key: string, place: nat): Feature {
    Feature("row", key, "active", "", Geometry("", place), None, true)
  }

  /** Points on a line, which the filter and the geometry library locate by the envelope's west and east. */
  function OnLine(): Filter {
    (g: Geometry, b: Box) => b.west <= g.bytes as real <= b.east
  }

  /** Two rows of one key; the first lies in the snapped margin only. */
  function MarginView(key: string, s: Served): Viewport {
    var exact := Box(0.5, 0.5, 1.5, 1.5);
    Viewport(
      [PointRow(key, 0), PointRow(key, 1)], exact, 1.0, OnLine(), Query(Incident, Some(exact), true, []),
      Topology((g: Geometry) => true, OnLine()), s)
  }

  lemma {:induction false} MarginExpanded(key: string, s: Served)
    ensures MarginView(key, s).Valid()
    ensures Expand(MarginView(key, s).exact, 1.0) == Box(0.0, 0.0, 2.0, 2.0)
  {
    assert Line(0.0, 1.0) == 0.0 && Line(2.0, 1.0) == 2.0;
    assert (0.5).Floor == 0 && (1.5).Floor == 1 && (-0.5).Floor == -1 && (-1.5).Floor == -2;
  }

  /** Two rows, the first of which only the wider box reaches. */
  lemma {:induction false} TwoFetched(f: Feature, g: Feature, exact: Box, wider: Box, hits: Filter)
    requires InMargin(f, exact, wider, hits) && hits(g.geometry, exact) && hits(g.geometry, wider)
    ensures Fetched([f, g], exact, hits) == [g] && Fetched([f, g], wider, hits) == [f, g]
  {
    var first, both := [f], [f, g];
    assert first[..0] == [] && both[..1] == first;
    FetchedStep(first, exact, hits);
    FetchedStep(first, wider, hits);
    FetchedStep(both, exact, hits);
    FetchedStep(both, wider, hits);
    assert [] + first == first && [] + [g] == [g] && first + [g] == both;
  }

  lemma {:induction false} MarginRows(key: string, s: Served)
    ensures
      var v := MarginView(key, s);
      && v.Valid()
      && v.ExactRows() == [PointRow(key, 1)] && v.SnappedRows() == [PointRow(key, 0), PointRow(key, 1)]
  {
    MarginExpanded(key, s);
    TwoFetched(
      PointRow(key, 0), PointRow(key, 1), MarginView(key, s).exact, Box(0.0, 0.0, 2.0, 2.0), OnLine());
  }

  lemma {:induction false} MarginDispositions(key: string, s: Served)
    ensures
      var v := MarginView(key, s);
      Classify(PointRow(key, 0), v.q, v.t) == OutOfBounds && Classify(PointRow(key, 1), v.q, v.t) == Admissible
  {
  }

  lemma {:induction false} LoneKey(f: Feature)
    ensures Count(Keys([f]), f.key) == 1
  {
    OneMoreKey([], f, f.key);
    assert [] + [f] == [f];
  }

  lemma {:induction false} LoneRow(f: Feature, q: Query, t: Topology)
    ensures Classify(f, q, t).Admissible? ==> AdmittedRows([f], q, t) == [f] && AdmittedNumbers([f], q, t) == [1]
    ensures !Classify(f, q, t).Admissible? ==> AdmittedRows([f], q, t) == [] && AdmittedNumbers([f], q, t) == []
  {
    LoneKey(f);
    assert [f][..0] == [];
  }

  /** Of two rows of one key the second alone is admitted, as number 2. */
  lemma {:induction false} SecondOfTwo(f: Feature, g: Feature, q: Query, t: Topology)
    requires f.key == g.key && !Classify(f, q, t).Admissible? && Classify(g, q, t).Admissible?
    ensures AdmittedRows([f, g], q, t) == [g] && AdmittedNumbers([f, g], q, t) == [2]
  {
    var first, both := [f], [f, g];
    assert both == first + [g];
    LoneRow(f, q, t);
    LoneKey(f);
    OneMoreRow(first, g, q, t);
    assert AdmittedRows(first, q, t) == [] && AdmittedNumbers(first, q, t) == [];
  }

  lemma {:induction false} NumberedLength(key: string)
    ensures |NumberedId(Incident, key, 1)| == |key| + 9 && |NumberedId(Incident, key, 2)| == |key| + 11
  {
  }

  /** A single admitted row in the record contract is published exactly under an ID of at most 200 characters. */
  lemma {:induction false} LonePublication(s: Served, rows: seq<Feature>, g: Feature, n: nat, q: Query, t: Topology)
    requires q.allowPartial && g.wellFormed && AdmittedRows(rows, q, t) == [g] && AdmittedNumbers(rows, q, t) == [n]
    ensures FetchOutcome(s, rows, q, t).reason ==
            if |NumberedId(q.kind, g.key, n)| <= 200 then None else Some(ContractViolation)
  {
    FetchIdsAt(q.kind, rows, q, t, 0);
    FetchIdsNotEmpty(q.kind, rows, q, t, 0);
    PartialAvailableIff(s, rows, q, t);
    assert AllCanPublish([g], FetchIds(q.kind, rows, q, t)) <==> CanPublish(g, FetchIds(q.kind, rows, q, t)[0]);
  }

  /**
   With a key of 191 characters the exact fetch answers, and the number `#2` of the snapped fetch blocks the
   layer.
   */
  lemma {:induction false} NumberingCanOverflow(key: string, s: Served)
    requires |key| == 191
    ensures
      var v := MarginView(key, s);
      v.Valid() && v.q.allowPartial && v.Narrow().reason.None? && v.Wide().reason == Some(ContractViolation)
  {
    var v := MarginView(key, s);
    var f, g := PointRow(key, 0), PointRow(key, 1);
    MarginRows(key, s);
    MarginDispositions(key, s);
    LoneRow(g, v.q, v.t);
    SecondOfTwo(f, g, v.q, v.t);
    NumberedLength(key);
    LonePublication(s, [g], g, 1, v.q, v.t);
    LonePublication(s, [f, g], g, 2, v.q, v.t);
  }

  // ---------- strict geometry ----------

  /** Rows whose geometry decides and is invalid. */
  predicate Undecidable(f: Feature, q: Query, t: Topology) {
    BeforeGeometry(f, q).None? && !t.valid(f.geometry)
  }

  lemma {:induction false} NoOmissionIff(rows: seq<Feature>, q: Query, t: Topology)
    ensures CountOf(rows, OmittedGeometry, q, t) == 0 <==> forall f :: f in rows ==> !Undecidable(f, q, t)
  {
    if rows != [] {
      var n := |rows| - 1;
      NoOmissionIff(rows[..n], q, t);
      assert forall f :: f in rows <==> f in rows[..n] || f == rows[n];
      UndecidableIsOmitted(rows[n], q, t);
    }
  }

  lemma {:induction false} UndecidableIsOmitted(f: Feature, q: Query, t: Topology)
    ensures Classify(f, q, t) == OmittedGeometry <==> Undecidable(f, q, t)
  {
  }

  /** A row that only the snapped box reaches and that strict mode cannot decide. */
  ghost predicate MarginBlocks(v: Viewport)
    requires ValidGrid(v.grid)
  {
    exists f :: f in v.layer && v.hits(f.geometry, Expand(v.exact, v.grid)) && !v.hits(f.geometry, v.exact) &&
                Undecidable(f, v.q, v.t)
  }

  lemma {:induction false} StrictAvailableIff(s: Served, rows: seq<Feature>, q: Query, t: Topology)
    requires !q.allowPartial
    ensures FetchOutcome(s, rows, q, t).reason.None? <==>
            && FetchOutcome(s, rows, q.(allowPartial := true), t).reason.None?
            && forall f :: f in rows ==> !Undecidable(f, q, t)
  {
    StrictIsPartialWithoutOmissions(s.(rows := rows), RowIdsOf(q.kind, rows), q, t);
    assert q.(allowPartial := false) == q;
    ModeIrrelevant(rows, RowIdsOf(q.kind, rows), q, t, s);
    NoOmissionIff(rows, q, t);
  }

  lemma {:induction false} MarginUndecided(v: Viewport)
    requires v.Valid()
    ensures (forall f :: f in v.SnappedRows() ==> !Undecidable(f, v.q, v.t)) <==>
            (forall f :: f in v.ExactRows() ==> !Undecidable(f, v.q, v.t)) && !MarginBlocks(v)
  {
    ExpandContains(v.exact, v.grid);
    forall f
      ensures f in v.ExactRows() <==> f in v.layer && v.hits(f.geometry, v.exact)
      ensures f in v.SnappedRows() <==> f in v.layer && v.hits(f.geometry, Expand(v.exact, v.grid))
      ensures v.hits(f.geometry, v.exact) ==> v.hits(f.geometry, Expand(v.exact, v.grid))
    {
      FetchedMembers(v.layer, v.exact, v.hits, f);
      FetchedMembers(v.layer, Expand(v.exact, v.grid), v.hits, f);
      FaithfulRow(f, v.exact, Expand(v.exact, v.grid), v.hits, v.q, v.t);
    }
  }

  /**
   In strict mode the snapped fetch is available if and only if the exact one is, no number overflows,
   and no row of the margin has an undecided, invalid geometry.
   */
  lemma {:induction false} StrictSnappedAvailableIff(v: Viewport)
    requires v.Valid() && !v.q.allowPartial
    ensures v.Wide().reason.None? <==> v.Narrow().reason.None? && !NumberingOverflows(v) && !MarginBlocks(v)
  {
    var partial := v.(q := v.q.(allowPartial := true));
    SnappedAvailableIff(partial);
    StrictAvailableIff(v.s, v.ExactRows(), v.q, v.t);
    StrictAvailableIff(v.s, v.SnappedRows(), v.q, v.t);
    MarginUndecided(v);
    SameIdsInBothModes(v);
  }

  lemma {:induction false} SameIdsInBothModes(v: Viewport)
    requires v.Valid()
    ensures v.(q := v.q.(allowPartial := true)).SnappedIds() == v.SnappedIds()
  {
    IdsIgnoreMode(v.SnappedRows(), RowIdsOf(v.q.kind, v.SnappedRows()), v.q, v.t);
  }

  lemma {:induction false} IdsIgnoreMode(rows: seq<Feature>, ids: seq<string>, q: Query, t: Topology)
    requires |rows| == |ids|
    ensures AdmittedIds(rows, ids, q.(allowPartial := true), t) == AdmittedIds(rows, ids, q, t)
  {
    if rows != [] {
      var n := |rows| - 1;
      IdsIgnoreMode(rows[..n], ids[..n], q, t);
    }
  }

  /** One undecided, invalid geometry in the margin makes the strict answer unavailable, whatever else is fetched. */
  lemma {:induction false} StrictMarginCanBlock(v: Viewport, f: Feature)
    requires v.Valid() && !v.q.allowPartial && f in v.layer && Undecidable(f, v.q, v.t)
    requires v.hits(f.geometry, Expand(v.exact, v.grid)) && !v.hits(f.geometry, v.exact)
    ensures v.Wide().reason.Some?
  {
    StrictSnappedAvailableIff(v);
  }
}
