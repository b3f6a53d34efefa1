/**
 Composing map and near-me responses (`map_results`, `_nearby_full` and `nearby_page`,
 src/firelens/live.py:519-734).
 */
module LiveMap {
  import opened Wrappers
  import opened Sequences
  import opened LiveRecords
  import opened LiveContracts
  import opened LiveAdmission
  import opened LiveAdmissionLaws

  // ---------- the published order ----------

  /** Code-point order on strings. */
  predicate LexLeq(a: string, b: string) {
    a == [] || (b != [] && (a[0] < b[0] || (a[0] == b[0] && LexLeq(a[1..], b[1..]))))
  }

  /** The rank of a kind in the order of its value: evacuation, incident, perimeter. */
  function KindRank(kind: Kind): nat {
    match kind
    case Evacuation => 0
    case Incident => 1
    case Perimeter => 2
  }

  /** `(kind.value, result_id)` in order. */
  predicate ResultLeq(a: LiveResult, b: LiveResult) {
    KindRank(a.kind) < KindRank(b.kind) || (a.kind == b.kind && LexLeq(a.resultId, b.resultId))
  }

  /** Stable: a later record goes behind the records that are not larger. */
  function Insert(sorted: seq<LiveResult>, r: LiveResult): seq<LiveResult> {
    if sorted == [] then [r]
    else
      var n := |sorted| - 1;
      if ResultLeq(sorted[n], r) then sorted + [r] else Insert(sorted[..n], r) + [sorted[n]]
  }

  function SortResults(results: seq<LiveResult>): seq<LiveResult> {
    if results == [] then [] else Insert(SortResults(results[..|results| - 1]), results[|results| - 1])
  }

  /** `a` comes first or is a beginning of `b`: the first difference decides. */
  lemma {:induction false} LexIs(a: string, b: string)
    ensures LexLeq(a, b) <==> a <= b || exists i :: IsSmallerAt(a, b, i)
  {
    if a != [] && b != [] && a[0] == b[0] {
      LexIs(a[1..], b[1..]);
      SameFirst(a, b);
    } else if a != [] && b != [] && a[0] < b[0] {
      assert IsSmallerAt(a, b, 0);
    }
  }

  lemma {:induction false} SameFirst(a: string, b: string)
    requires a != [] && b != [] && a[0] == b[0]
    ensures a <= b <==> a[1..] <= b[1..]
    ensures (exists i :: IsSmallerAt(a, b, i)) <==> exists i :: IsSmallerAt(a[1..], b[1..], i)
  {
    if i :| IsSmallerAt(a[1..], b[1..], i) {
      assert a[..i + 1] == [a[0]] + a[1..][..i] && b[..i + 1] == [b[0]] + b[1..][..i];
      assert IsSmallerAt(a, b, i + 1);
    }
    if i :| IsSmallerAt(a, b, i) {
      assert a[1..][..i - 1] == a[..i][1..] && b[1..][..i - 1] == b[..i][1..];
      assert IsSmallerAt(a[1..], b[1..], i - 1);
    }
    assert a == [a[0]] + a[1..] && b == [b[0]] + b[1..];
  }

  /** The strings agree before `i`, and there `a` has the smaller character. */
  ghost predicate IsSmallerAt(a: string, b: string, i: int) {
    0 <= i < |a| && i < |b| && a[..i] == b[..i] && a[i] < b[i]
  }

  /** Kinds are ordered by their values. */
  lemma {:induction false} KindsAreAlphabetical(a: Kind, b: Kind)
    ensures KindRank(a) <= KindRank(b) <==> LexLeq(KindName(a), KindName(b))
    ensures KindName(a) ==
            if a == Incident then "incident" else if a == Perimeter then "perimeter" else "evacuation"
  {
    assert KindName(a)[0] == KindName(b)[0] <==> a == b;
    LexTotal(KindName(a), KindName(b));
  }

  // ---------- map_results ----------

  /** The label of a list of records: none for an empty list, else what all of them share, else mixed. */
  lemma {:induction false} AggregateFreshnessIs(results: seq<LiveResult>)
    ensures AggregateLiveFreshness(results) == None <==> results == []
    ensures AggregateLiveFreshness(results) == Some(AllFresh) <==>
            results != [] && forall r :: r in results ==> r.freshness == Fresh
    ensures AggregateLiveFreshness(results) == Some(AllStale) <==>
            results != [] && forall r :: r in results ==> r.freshness == Stale
    ensures AggregateLiveFreshness(results) == Some(AggregateFreshness.Mixed) <==>
            (exists r :: r in results && r.freshness == Fresh) && exists r :: r in results && r.freshness == Stale
  {
    var seen := set r | r in results :: r.freshness;
    if results != [] {
      assert results[0] in results && results[0].freshness in seen;
    }
    if seen == {Fresh} {
      assert forall r :: r in results ==> r.freshness in seen;
    } else if seen == {Stale} {
      assert forall r :: r in results ==> r.freshness in seen;
    }
    BothOrOne(seen);
  }

  lemma {:induction false} BothOrOne(seen: set<Freshness>)
    ensures seen == {} || seen == {Fresh} || seen == {Stale} || (Fresh in seen && Stale in seen)
  {
    forall f | f in seen ensures f == Fresh || f == Stale {
    }
    if Stale !in seen {
      assert seen <= {Fresh};
    } else if Fresh !in seen {
      assert seen <= {Stale};
    }
  }

  datatype ResponseError = InvalidResponse | InvalidPage | NoLayers

  function Statuses(outcomes: seq<LayerOutcome>): seq<LayerStatus> {
    if outcomes == [] then [] else Statuses(outcomes[..|outcomes| - 1]) + [outcomes[|outcomes| - 1].status]
  }

  function CombinedResults(outcomes: seq<LayerOutcome>): seq<LiveResult> {
    if outcomes == [] then []
    else
      var last := outcomes[|outcomes| - 1];
      CombinedResults(outcomes[..|outcomes| - 1]) + if last.reason.Some? then [] else last.results
  }

  function UnavailableLayers(layers: seq<Kind>, outcomes: seq<LayerOutcome>): seq<Kind>
    requires |layers| == |outcomes|
  {
    if outcomes == [] then []
    else
      var n := |outcomes| - 1;
      UnavailableLayers(layers[..n], outcomes[..n]) + if outcomes[n].reason.Some? then [layers[n]] else []
  }

  function ComposedMap(layers: seq<Kind>, outcomes: seq<LayerOutcome>): MapResponse
    requires |layers| == |outcomes|
  {
    var results := CombinedResults(outcomes);
    var statuses := Statuses(outcomes);
    MapResponse(SortResults(results), AggregateLiveFreshness(results), PartialKinds(statuses),
                UnavailableLayers(layers, outcomes), statuses)
  }

  method MapResults(layers: seq<Kind>, outcomes: seq<LayerOutcome>) returns (r: Result<MapResponse, ResponseError>)
    requires |layers| == |outcomes|
    requires forall i :: 0 <= i < |layers| ==> LayerIsSound(outcomes[i], layers[i])
    ensures r.Ok? <==> Distinct(layers)
    ensures r.Ok? ==> r.value == ComposedMap(layers, outcomes) && ValidMapResponse(r.value)
  {
    var results, unavailable, statuses := [], [], [];
    for i := 0 to |layers|
      invariant results == CombinedResults(outcomes[..i])
      invariant unavailable == UnavailableLayers(layers[..i], outcomes[..i])
      invariant statuses == Statuses(outcomes[..i])
    {
      assert outcomes[..i + 1][..i] == outcomes[..i] && layers[..i + 1][..i] == layers[..i];
      var outcome := outcomes[i];
      statuses := statuses + [outcome.status];
      if outcome.reason.Some? {
        unavailable := unavailable + [layers[i]];
        continue;
      }
      results := results + outcome.results;
    }
    assert outcomes[..|layers|] == outcomes && layers[..|layers|] == layers;
    var response := MapResponse(SortResults(results), AggregateLiveFreshness(results), PartialKinds(statuses),
                                unavailable, statuses);
    ComposedMapValidIff(layers, outcomes);
    return if ValidMapResponse(response) then Ok(response) else Err(InvalidResponse);
  }

  // ---------- sorting ----------

  lemma {:induction false} InsertPermutes(sorted: seq<LiveResult>, r: LiveResult)
    ensures multiset(Insert(sorted, r)) == multiset(sorted) + multiset{r}
  {
    if sorted != [] {
      var n := |sorted| - 1;
      assert sorted == sorted[..n] + [sorted[n]];
      InsertPermutes(sorted[..n], r);
    }
  }

  lemma {:induction false} SortPermutes(results: seq<LiveResult>)
    ensures multiset(SortResults(results)) == multiset(results)
  {
    if results != [] {
      var n := |results| - 1;
      assert results == results[..n] + [results[n]];
      SortPermutes(results[..n]);
      InsertPermutes(SortResults(results[..n]), results[n]);
    }
  }

  lemma {:induction false} LexTotal(a: string, b: string)
    ensures LexLeq(a, b) || LexLeq(b, a)
  {
    if a != [] && b != [] && a[0] == b[0] {
      LexTotal(a[1..], b[1..]);
    }
  }

  lemma {:induction false} LexTransitive(a: string, b: string, c: string)
    requires LexLeq(a, b) && LexLeq(b, c)
    ensures LexLeq(a, c)
  {
    if a != [] && a[0] == b[0] && b[0] == c[0] {
      LexTransitive(a[1..], b[1..], c[1..]);
    }
  }

  lemma {:induction false} ResultTransitive(a: LiveResult, b: LiveResult, c: LiveResult)
    requires ResultLeq(a, b) && ResultLeq(b, c)
    ensures ResultLeq(a, c)
  {
    if a.kind == b.kind && b.kind == c.kind {
      LexTransitive(a.resultId, b.resultId, c.resultId);
    }
  }

  ghost predicate Sorted(results: seq<LiveResult>) {
    forall i, j :: 0 <= i < j < |results| ==> ResultLeq(results[i], results[j])
  }

  lemma {:induction false} InsertSorted(sorted: seq<LiveResult>, r: LiveResult)
    requires Sorted(sorted)
    ensures Sorted(Insert(sorted, r))
    ensures forall x :: x in Insert(sorted, r) <==> x in sorted || x == r
  {
    if sorted != [] {
      var n := |sorted| - 1;
      assert sorted == sorted[..n] + [sorted[n]];
      if ResultLeq(sorted[n], r) {
        forall i | 0 <= i < n ensures ResultLeq(sorted[i], r) {
          ResultTransitive(sorted[i], sorted[n], r);
        }
      } else {
        LexTotal(sorted[n].resultId, r.resultId);
        InsertSorted(sorted[..n], r);
        var before := Insert(sorted[..n], r);
        forall i | 0 <= i < |before| ensures ResultLeq(before[i], sorted[n]) {
          assert before[i] in before;
        }
      }
    }
  }

  /** The published roster is in `(kind, result_id)` order. */
  lemma {:induction false} SortSorts(results: seq<LiveResult>)
    ensures Sorted(SortResults(results))
  {
    if results != [] {
      SortSorts(results[..|results| - 1]);
      InsertSorted(SortResults(results[..|results| - 1]), results[|results| - 1]);
    }
  }

  // ---------- the validators hold of every composed map ----------

  lemma {:induction false} CountKindAppend(a: seq<LiveResult>, b: seq<LiveResult>, kind: Kind)
    ensures CountKind(a + b, kind) == CountKind(a, kind) + CountKind(b, kind)
  {
    if b == [] {
      assert a + b == a;
    } else {
      var n := |b| - 1;
      assert (a + b)[..|a + b| - 1] == a + b[..n];
      CountKindAppend(a, b[..n], kind);
    }
  }

  lemma {:induction false} CountKindAll(results: seq<LiveResult>, kind: Kind, other: Kind)
    requires forall r :: r in results ==> r.kind == kind
    ensures CountKind(results, other) == if other == kind then |results| else 0
  {
    if results != [] {
      CountKindAll(results[..|results| - 1], kind, other);
    }
  }

  lemma {:induction false} CountKindSnoc(results: seq<LiveResult>, r: LiveResult, kind: Kind)
    ensures CountKind(results + [r], kind) == CountKind(results, kind) + if r.kind == kind then 1 else 0
  {
    assert (results + [r])[..|results|] == results;
  }

  lemma {:induction false} CountKindInsert(sorted: seq<LiveResult>, r: LiveResult, kind: Kind)
    ensures CountKind(Insert(sorted, r), kind) == CountKind(sorted, kind) + if r.kind == kind then 1 else 0
  {
    CountKindSnoc(sorted, r, kind);
    if sorted == [] {
      assert sorted + [r] == [r];
    } else {
      var n := |sorted| - 1;
      CountKindInsert(sorted[..n], r, kind);
      CountKindSnoc(Insert(sorted[..n], r), sorted[n], kind);
    }
  }

  lemma {:induction false} CountKindSort(results: seq<LiveResult>, kind: Kind)
    ensures CountKind(SortResults(results), kind) == CountKind(results, kind)
  {
    if results != [] {
      CountKindSort(results[..|results| - 1], kind);
      CountKindInsert(SortResults(results[..|results| - 1]), results[|results| - 1], kind);
    }
  }

  lemma {:induction false} SortedSameMembers(results: seq<LiveResult>)
    ensures forall r :: r in SortResults(results) <==> r in results
    ensures AggregateLiveFreshness(SortResults(results)) == AggregateLiveFreshness(results)
  {
    SortPermutes(results);
    forall r ensures r in SortResults(results) <==> r in results {
      assert r in multiset(SortResults(results)) <==> r in multiset(results);
    }
    SameFreshness(SortResults(results), results);
  }

  lemma {:induction false} SameFreshness(a: seq<LiveResult>, b: seq<LiveResult>)
    requires forall r :: r in a <==> r in b
    ensures AggregateLiveFreshness(a) == AggregateLiveFreshness(b)
  {
    assert (set r | r in a :: r.freshness) == (set r | r in b :: r.freshness);
  }

  ghost predicate Sound(layers: seq<Kind>, outcomes: seq<LayerOutcome>) {
    |layers| == |outcomes| && forall i :: 0 <= i < |layers| ==> LayerIsSound(outcomes[i], layers[i])
  }

  lemma {:induction false} LayerLists(layers: seq<Kind>, outcomes: seq<LayerOutcome>)
    requires Sound(layers, outcomes)
    ensures KindsOf(Statuses(outcomes)) == layers && |Statuses(outcomes)| == |layers|
    ensures UnavailableLayers(layers, outcomes) == UnavailableKinds(Statuses(outcomes))
    ensures forall s :: s in Statuses(outcomes) ==> ValidStatus(s)
    ensures forall r :: r in CombinedResults(outcomes) ==> ValidResult(r) && r.kind in layers
  {
    if outcomes != [] {
      var n := |outcomes| - 1;
      LayerLists(layers[..n], outcomes[..n]);
      assert layers == layers[..n] + [layers[n]];
      var before := Statuses(outcomes[..n]);
      assert (before + [outcomes[n].status])[..n] == before;
    }
  }

  /** One more layer adds its own count to its own kind only. */
  lemma {:induction false} CombinedStep(layers: seq<Kind>, outcomes: seq<LayerOutcome>, kind: Kind)
    requires Sound(layers, outcomes) && outcomes != []
    ensures
      var n := |outcomes| - 1;
      CountKind(CombinedResults(outcomes), kind) ==
      CountKind(CombinedResults(outcomes[..n]), kind) +
      if layers[n] == kind then outcomes[n].status.matchingResultCount else 0
  {
    var n := |outcomes| - 1;
    assert LayerIsSound(outcomes[n], layers[n]);
    var added := if outcomes[n].reason.Some? then [] else outcomes[n].results;
    CountKindAppend(CombinedResults(outcomes[..n]), added, kind);
    CountKindAll(added, layers[n], kind);
  }

  /** With distinct layers every status counts exactly the published records of its layer. */
  lemma {:induction false} LayerCounts(layers: seq<Kind>, outcomes: seq<LayerOutcome>, kind: Kind)
    requires Sound(layers, outcomes) && Distinct(layers)
    ensures kind !in layers ==> CountKind(CombinedResults(outcomes), kind) == 0
    ensures forall s :: s in Statuses(outcomes) && s.kind == kind ==>
                          s.matchingResultCount == CountKind(CombinedResults(outcomes), kind)
  {
    if outcomes != [] {
      var n := |outcomes| - 1;
      LayerCounts(layers[..n], outcomes[..n], kind);
      LayerLists(layers[..n], outcomes[..n]);
      CombinedStep(layers, outcomes, kind);
      StatusKinds(Statuses(outcomes[..n]));
      assert LayerIsSound(outcomes[n], layers[n]);
      assert forall i :: 0 <= i < n ==> layers[i] != layers[n];
    }
  }

  /** The statuses of all layers, in order, and the records of the available ones. */
  lemma {:induction false} CombinedIs(outcomes: seq<LayerOutcome>)
    ensures |Statuses(outcomes)| == |outcomes|
    ensures forall i :: 0 <= i < |outcomes| ==> Statuses(outcomes)[i] == outcomes[i].status
    ensures forall r :: r in CombinedResults(outcomes) <==> Published(outcomes, r)
  {
    if outcomes != [] {
      var n := |outcomes| - 1;
      CombinedIs(outcomes[..n]);
      forall r ensures Published(outcomes, r) <==>
                       Published(outcomes[..n], r) || (outcomes[n].reason == None && r in outcomes[n].results)
      {
        OneMoreOutcome(outcomes, r);
      }
    }
  }

  ghost predicate Published(outcomes: seq<LayerOutcome>, r: LiveResult) {
    exists i :: 0 <= i < |outcomes| && outcomes[i].reason == None && r in outcomes[i].results
  }

  lemma {:induction false} OneMoreOutcome(outcomes: seq<LayerOutcome>, r: LiveResult)
    requires outcomes != []
    ensures
      var n := |outcomes| - 1;
      Published(outcomes, r) <==>
      Published(outcomes[..n], r) || (outcomes[n].reason == None && r in outcomes[n].results)
  {
    var before := outcomes[..|outcomes| - 1];
    assert forall i :: 0 <= i < |before| ==> before[i] == outcomes[i];
  }

  lemma {:induction false} StatusKinds(statuses: seq<LayerStatus>)
    ensures forall s :: s in statuses ==> s.kind in KindsOf(statuses)
  {
    if statuses != [] {
      StatusKinds(statuses[..|statuses| - 1]);
    }
  }

  lemma {:induction false} AtMostThreeKinds(layers: seq<Kind>)
    ensures Distinct(layers) ==> |layers| <= 3
  {
    if |layers| > 3 {
      var a, b, c, d := layers[0], layers[1], layers[2], layers[3];
      assert a == b || a == c || a == d || b == c || b == d || c == d;
    }
  }

  /** The composed response passes every check of its model exactly when the layers are distinct. */
  lemma {:induction false} ComposedMapValidIff(layers: seq<Kind>, outcomes: seq<LayerOutcome>)
    requires Sound(layers, outcomes)
    ensures ValidMapResponse(ComposedMap(layers, outcomes)) <==> Distinct(layers)
  {
    var m, results := ComposedMap(layers, outcomes), CombinedResults(outcomes);
    LayerLists(layers, outcomes);
    AtMostThreeKinds(layers);
    SortedSameMembers(results);
    if Distinct(layers) {
      forall s | s in m.layerStatuses ensures s.matchingResultCount == CountKind(m.results, s.kind) {
        LayerCounts(layers, outcomes, s.kind);
        CountKindSort(results, s.kind);
      }
    }
  }
}
