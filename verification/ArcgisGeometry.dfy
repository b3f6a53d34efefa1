/**
 Turning native Esri polygon rings into parts with holes (`polygon_geojson` and `decode_features`,
 src/firelens/arcgis_geometry.py:21-118). No coordinate is changed: every ring is placed as it came.
 */
module ArcgisGeometry {
  import opened Wrappers
  import opened Sequences

  type Point = seq<real>
  type Ring = seq<Point>

  /** One exterior ring followed by its interior rings. */
  type Part = seq<Ring>

  /** The questions put to the geometry library. */
  datatype Topology = Topology(
    ringIsSound: Ring -> bool,
    isCounterClockwise: Ring -> bool,
    covers: (Ring, Ring) -> bool,
    area: Ring -> real,
    partsAreSound: seq<Part> -> bool
  )

  const MAX_RINGS := 512

  predicate WellFormedRing(ring: Ring, t: Topology) {
    && |ring| >= 4 && ring[0] == ring[|ring| - 1]
    && (forall i :: 0 <= i < |ring| ==> |ring[i]| == 2)
    && t.ringIsSound(ring)
  }

  predicate IsHole(ring: Ring, t: Topology) {
    t.isCounterClockwise(ring)
  }

  // ---------- shells and holes ----------

  function ShellsOf(rings: seq<Ring>, t: Topology): seq<Ring> {
    if rings == [] then []
    else
      var before, last := ShellsOf(rings[..|rings| - 1], t), rings[|rings| - 1];
      if IsHole(last, t) then before else before + [last]
  }

  function HolesOf(rings: seq<Ring>, t: Topology): seq<Ring> {
    if rings == [] then []
    else
      var before, last := HolesOf(rings[..|rings| - 1], t), rings[|rings| - 1];
      if IsHole(last, t) then before + [last] else before
  }

  /** The first covering shell of least area among the first `n`. */
  function Owner(shells: seq<Ring>, hole: Ring, n: nat, t: Topology): (owner: Option<nat>)
    requires n <= |shells|
    ensures owner.Some? ==> owner.value < n
  {
    if n == 0 then None
    else
      var best := Owner(shells, hole, n - 1, t);
      if !t.covers(shells[n - 1], hole) then best
      else if best.Some? && t.area(shells[best.value]) <= t.area(shells[n - 1]) then best
      else Some(n - 1)
  }

  /** The owner covers the hole, no covering shell is smaller, and earlier covering shells are larger. */
  lemma {:induction false} OwnerIsLeast(shells: seq<Ring>, hole: Ring, n: nat, t: Topology)
    requires n <= |shells|
    ensures
      var owner := Owner(shells, hole, n, t);
      && (owner.None? <==> forall i :: 0 <= i < n ==> !t.covers(shells[i], hole))
      && (owner.Some? ==>
            && t.covers(shells[owner.value], hole)
            && (forall i :: 0 <= i < n && t.covers(shells[i], hole) ==>
                t.area(shells[owner.value]) <= t.area(shells[i]))
            && (forall i :: 0 <= i < owner.value && t.covers(shells[i], hole) ==>
                              t.area(shells[owner.value]) < t.area(shells[i])))
  {
    if n > 0 {
      OwnerIsLeast(shells, hole, n - 1, t);
    }
  }

  /** Each shell opens a part. */
  function OpenParts(shells: seq<Ring>): seq<Part> {
    if shells == [] then [] else OpenParts(shells[..|shells| - 1]) + [[shells[|shells| - 1]]]
  }

  /** The parts once the holes are placed; none if some hole has no covering shell. */
  function PlaceHoles(shells: seq<Ring>, holes: seq<Ring>, t: Topology): (parts: Option<seq<Part>>)
    ensures parts.Some? ==> |parts.value| == |shells|
  {
    if holes == [] then
      OpenPartsLength(shells);
      Some(OpenParts(shells))
    else
      var n := |holes| - 1;
      match PlaceHoles(shells, holes[..n], t)
      case None => None
      case Some(parts) =>
        match Owner(shells, holes[n], |shells|, t)
        case None => None
        case Some(i) => Some(parts[i := parts[i] + [holes[n]]])
  }

  lemma {:induction false} OpenPartsLength(shells: seq<Ring>)
    ensures |OpenParts(shells)| == |shells|
    ensures forall i :: 0 <= i < |shells| ==> OpenParts(shells)[i] == [shells[i]]
  {
    if shells != [] {
      OpenPartsLength(shells[..|shells| - 1]);
    }
  }

  /** The whole conversion; `supported` says that CRS, curves, Z and M values are as required. */
  function Converted(supported: bool, rings: Option<seq<Ring>>, t: Topology): Option<seq<Part>> {
    if !supported || rings.None? || !(1 <= |rings.value| <= MAX_RINGS) then None
    else if exists i :: 0 <= i < |rings.value| && !WellFormedRing(rings.value[i], t) then None
    else if ShellsOf(rings.value, t) == [] then None
    else match PlaceHoles(ShellsOf(rings.value, t), HolesOf(rings.value, t), t)
      case None => None
      case Some(parts) => if t.partsAreSound(parts) then Some(parts) else None
  }

  method PolygonGeojson(supported: bool, rings: Option<seq<Ring>>, t: Topology) returns (parts: Option<seq<Part>>)
    ensures parts == Converted(supported, rings, t)
  {
    if !supported || rings.None? || !(1 <= |rings.value| <= MAX_RINGS) {
      return None;
    }
    var input := rings.value;
    var shells, holes := [], [];
    for i := 0 to |input|
      invariant shells == ShellsOf(input[..i], t) && holes == HolesOf(input[..i], t)
      invariant forall k :: 0 <= k < i ==> WellFormedRing(input[k], t)
    {
      assert input[..i + 1][..i] == input[..i];
      if !WellFormedRing(input[i], t) {
        return None;
      }
      if IsHole(input[i], t) {
        holes := holes + [input[i]];
      } else {
        shells := shells + [input[i]];
      }
    }
    assert input[..|input|] == input;
    if shells == [] {
      return None;
    }
    parts := AttachHoles(shells, holes, t);
    if parts.Some? && !t.partsAreSound(parts.value) {
      parts := None;
    }
  }

  method AttachHoles(shells: seq<Ring>, holes: seq<Ring>, t: Topology) returns (parts: Option<seq<Part>>)
    ensures parts == PlaceHoles(shells, holes, t)
  {
    var coordinates := OpenParts(shells);
    OpenPartsLength(shells);
    for i := 0 to |holes|
      invariant PlaceHoles(shells, holes[..i], t) == Some(coordinates)
    {
      assert holes[..i + 1][..i] == holes[..i];
      var owner := FindOwner(shells, holes[i], t);
      if owner.None? {
        NoOwnerPersists(shells, holes, i, t);
        return None;
      }
      coordinates := coordinates[owner.value := coordinates[owner.value] + [holes[i]]];
    }
    assert holes[..|holes|] == holes;
    return Some(coordinates);
  }

  method FindOwner(shells: seq<Ring>, hole: Ring, t: Topology) returns (owner: Option<nat>)
    ensures owner == Owner(shells, hole, |shells|, t)
  {
    owner := None;
    for i := 0 to |shells|
      invariant owner == Owner(shells, hole, i, t)
    {
      if t.covers(shells[i], hole) && (owner.None? || t.area(shells[i]) < t.area(shells[owner.value])) {
        owner := Some(i);
      }
    }
  }

  lemma {:induction false} NoOwnerPersists(shells: seq<Ring>, holes: seq<Ring>, i: nat, t: Topology)
    requires i < |holes| && Owner(shells, holes[i], |shells|, t).None?
    ensures PlaceHoles(shells, holes, t).None?
  {
    var n := |holes| - 1;
    if i < n {
      NoOwnerPersists(shells, holes[..n], i, t);
    }
  }

  // ---------- what an accepted polygon is ----------

  function AllRings(parts: seq<Part>): multiset<Ring> {
    if parts == [] then multiset{} else AllRings(parts[..|parts| - 1]) + multiset(parts[|parts| - 1])
  }

  lemma {:induction false} AddToPart(parts: seq<Part>, i: nat, ring: Ring)
    requires i < |parts|
    ensures AllRings(parts[i := parts[i] + [ring]]) == AllRings(parts) + multiset{ring}
  {
    var n := |parts| - 1;
    var added := parts[i := parts[i] + [ring]];
    if i == n {
      assert added[..n] == parts[..n];
    } else {
      assert added[..n] == parts[..n][i := parts[i] + [ring]];
      AddToPart(parts[..n], i, ring);
    }
  }

  lemma {:induction false} OpenPartsRings(shells: seq<Ring>)
    ensures AllRings(OpenParts(shells)) == multiset(shells)
  {
    if shells != [] {
      var n := |shells| - 1;
      var before := OpenParts(shells[..n]);
      assert (before + [[shells[n]]])[..|before|] == before;
      assert shells == shells[..n] + [shells[n]];
      OpenPartsRings(shells[..n]);
    }
  }

  lemma {:induction false} SplitConserves(rings: seq<Ring>, t: Topology)
    ensures multiset(ShellsOf(rings, t)) + multiset(HolesOf(rings, t)) == multiset(rings)
    ensures forall r :: r in ShellsOf(rings, t) ==> !IsHole(r, t)
    ensures forall r :: r in HolesOf(rings, t) ==> IsHole(r, t)
  {
    if rings != [] {
      var n := |rings| - 1;
      assert rings == rings[..n] + [rings[n]];
      SplitConserves(rings[..n], t);
    }
  }

  /** `shell` covers `hole`, and no covering shell is smaller. */
  ghost predicate Owns(shell: Ring, hole: Ring, shells: seq<Ring>, t: Topology) {
    && IsHole(hole, t) && t.covers(shell, hole)
    && forall s :: s in shells && t.covers(s, hole) ==> t.area(shell) <= t.area(s)
  }

  /** A part: the given exterior ring, followed only by interior rings that it owns. */
  ghost predicate IsPartOf(part: Part, shell: Ring, shells: seq<Ring>, t: Topology) {
    part != [] && part[0] == shell && forall k :: 1 <= k < |part| ==> Owns(shell, part[k], shells, t)
  }

  predicate IsCovered(hole: Ring, shells: seq<Ring>, t: Topology) {
    exists s :: s in shells && t.covers(s, hole)
  }

  lemma {:induction false} OwnerOwns(shells: seq<Ring>, hole: Ring, t: Topology)
    requires IsHole(hole, t)
    ensures
      var owner := Owner(shells, hole, |shells|, t);
      && (owner.Some? <==> IsCovered(hole, shells, t))
      && (owner.Some? ==> Owns(shells[owner.value], hole, shells, t))
  {
    OwnerIsLeast(shells, hole, |shells|, t);
  }

  lemma {:induction false} PlacedRings(shells: seq<Ring>, holes: seq<Ring>, t: Topology)
    requires PlaceHoles(shells, holes, t).Some?
    ensures AllRings(PlaceHoles(shells, holes, t).value) == multiset(shells) + multiset(holes)
  {
    if holes == [] {
      OpenPartsRings(shells);
    } else {
      var n := |holes| - 1;
      assert holes == holes[..n] + [holes[n]];
      PlacedRings(shells, holes[..n], t);
      AddToPart(PlaceHoles(shells, holes[..n], t).value, Owner(shells, holes[n], |shells|, t).value, holes[n]);
    }
  }

  lemma {:induction false} PlacedParts(shells: seq<Ring>, holes: seq<Ring>, i: nat, t: Topology)
    requires forall h :: h in holes ==> IsHole(h, t)
    requires PlaceHoles(shells, holes, t).Some? && i < |shells|
    ensures IsPartOf(PlaceHoles(shells, holes, t).value[i], shells[i], shells, t)
  {
    if holes == [] {
      OpenPartsLength(shells);
    } else {
      var n := |holes| - 1;
      PlacedParts(shells, holes[..n], i, t);
      OwnerOwns(shells, holes[n], t);
    }
  }

  /**
   An accepted polygon consists of exactly the input rings, unmodified: one part for every exterior
   ring, in input order and starting with it, and every interior ring in a part whose exterior
   covers it with the least area.
   */
  lemma {:induction false} AcceptedPolygonConservesRings(rings: seq<Ring>, t: Topology)
    requires Converted(true, Some(rings), t).Some?
    ensures
      var parts, shells := Converted(true, Some(rings), t).value, ShellsOf(rings, t);
      && AllRings(parts) == multiset(rings)
      && |parts| == |shells| > 0
      && (forall s :: s in shells ==> !IsHole(s, t))
      && (forall i :: 0 <= i < |parts| ==> IsPartOf(parts[i], shells[i], shells, t))
  {
    var shells, holes := ShellsOf(rings, t), HolesOf(rings, t);
    SplitConserves(rings, t);
    PlacedRings(shells, holes, t);
    forall i | 0 <= i < |shells| ensures IsPartOf(PlaceHoles(shells, holes, t).value[i], shells[i], shells, t) {
      PlacedParts(shells, holes, i, t);
    }
  }

  // ---------- the same, said of the places of the rings ----------

  function Clockwise(t: Topology): Ring -> bool {
    (r: Ring) => !t.isCounterClockwise(r)
  }

  function OwnedBy(shells: seq<Ring>, i: nat, t: Topology): Ring -> bool {
    (hole: Ring) => Owner(shells, hole, |shells|, t) == Some(i)
  }

  /** Exteriors are the clockwise rings and interiors the others, each in the order of the reply. */
  lemma {:induction false} SplitByOrientation(rings: seq<Ring>, t: Topology)
    ensures Selects(ShellsOf(rings, t), rings, Places(rings, Clockwise(t)))
    ensures Selects(HolesOf(rings, t), rings, Places(rings, t.isCounterClockwise))
  {
    if rings != [] {
      var before, last := rings[..|rings| - 1], rings[|rings| - 1];
      assert rings == before + [last];
      SplitByOrientation(before, t);
      OneMorePlace(before, last, Clockwise(t));
      OneMorePlace(before, last, t.isCounterClockwise);
      SelectsOneMore(ShellsOf(before, t), before, Places(before, Clockwise(t)), last);
      SelectsOneMore(HolesOf(before, t), before, Places(before, t.isCounterClockwise), last);
    }
  }

  /** A part is its exterior ring and then the interior rings it owns, in order. */
  lemma {:induction false} PartIs(shells: seq<Ring>, holes: seq<Ring>, i: nat, t: Topology)
    requires PlaceHoles(shells, holes, t).Some? && i < |shells|
    ensures PlaceHoles(shells, holes, t).value[i] == [shells[i]] + Filter(holes, OwnedBy(shells, i, t))
  {
    var p := OwnedBy(shells, i, t);
    if holes == [] {
      OpenPartsLength(shells);
      assert [shells[i]] + Filter(holes, p) == [shells[i]];
    } else {
      var n := |holes| - 1;
      var before, last := holes[..n], holes[n];
      assert holes == before + [last];
      PartIs(shells, before, i, t);
      FilterAppend(before, [last], p);
      FilterOne(last, p);
      ConcatAssociative([shells[i]], Filter(before, p), Filter([last], p));
      assert [shells[i]] + Filter(before, p) + [] == [shells[i]] + Filter(before, p);
    }
  }

  lemma {:induction false} FilterOne(ring: Ring, p: Ring -> bool)
    ensures Filter([ring], p) == if p(ring) then [ring] else []
  {
    assert [ring][1..] == [];
    assert Filter([ring], p) == (if p(ring) then [ring] else []) + Filter([ring][1..], p);
  }

  /** A closed ring of at least four plane points that the geometry library accepts. */
  ghost predicate GoodRing(ring: Ring, t: Topology) {
    && |ring| > 3
    && (exists p :: |p| == 2 && ring[0] == p && ring[|ring| - 1] == p)
    && (forall p :: p in ring ==> |p| == 2)
    && t.ringIsSound(ring)
  }

  lemma {:induction false} GoodRingIff(ring: Ring, t: Topology)
    ensures WellFormedRing(ring, t) <==> GoodRing(ring, t)
  {
    if WellFormedRing(ring, t) {
      assert |ring[0]| == 2;
    }
    if GoodRing(ring, t) {
      forall i | 0 <= i < |ring| ensures |ring[i]| == 2 {
        assert ring[i] in ring;
      }
    }
  }

  lemma {:induction false} GoodRingsIff(rings: seq<Ring>, t: Topology)
    ensures (exists i :: 0 <= i < |rings| && !WellFormedRing(rings[i], t)) <==> !AllGood(rings, t)
  {
    forall i | 0 <= i < |rings| ensures WellFormedRing(rings[i], t) <==> GoodRing(rings[i], t) {
      GoodRingIff(rings[i], t);
    }
  }

  ghost predicate AllGood(rings: seq<Ring>, t: Topology) {
    forall i :: 0 <= i < |rings| ==> GoodRing(rings[i], t)
  }

  /** The rings that can be arranged: 1 to 512 good ones, an exterior among them, and every interior inside one. */
  ghost predicate Arrangeable(rings: seq<Ring>, t: Topology) {
    && 0 < |rings| < 513
    && AllGood(rings, t)
    && (exists i :: 0 <= i < |rings| && !t.isCounterClockwise(rings[i]))
    && (forall i :: 0 <= i < |rings| && t.isCounterClockwise(rings[i]) ==> HasCover(rings, rings[i], t))
  }

  ghost predicate HasCover(rings: seq<Ring>, hole: Ring, t: Topology) {
    exists j :: 0 <= j < |rings| && !t.isCounterClockwise(rings[j]) && t.covers(rings[j], hole)
  }

  lemma {:induction false} ShellMembers(rings: seq<Ring>, t: Topology)
    ensures forall r :: r in ShellsOf(rings, t) <==> r in rings && !t.isCounterClockwise(r)
    ensures forall r :: r in HolesOf(rings, t) <==> r in rings && t.isCounterClockwise(r)
  {
    if rings != [] {
      ShellMembers(rings[..|rings| - 1], t);
      assert rings == rings[..|rings| - 1] + [rings[|rings| - 1]];
    }
  }

  lemma {:induction false} HasCoverIff(rings: seq<Ring>, hole: Ring, t: Topology)
    ensures HasCover(rings, hole, t) <==> IsCovered(hole, ShellsOf(rings, t), t)
  {
    ShellMembers(rings, t);
    if j :| 0 <= j < |rings| && !t.isCounterClockwise(rings[j]) && t.covers(rings[j], hole) {
      assert rings[j] in rings;
    }
  }

  lemma {:induction false} HasShellIff(rings: seq<Ring>, t: Topology)
    ensures ShellsOf(rings, t) != [] <==> exists i :: 0 <= i < |rings| && !t.isCounterClockwise(rings[i])
  {
    ShellMembers(rings, t);
    if ShellsOf(rings, t) != [] {
      assert ShellsOf(rings, t)[0] in ShellsOf(rings, t);
    }
  }

  lemma {:induction false} AllHaveCoverIff(rings: seq<Ring>, t: Topology)
    ensures PlaceHoles(ShellsOf(rings, t), HolesOf(rings, t), t).Some? <==>
            forall i :: 0 <= i < |rings| && t.isCounterClockwise(rings[i]) ==> HasCover(rings, rings[i], t)
  {
    ShellMembers(rings, t);
    forall h ensures HasCover(rings, h, t) <==> IsCovered(h, ShellsOf(rings, t), t) {
      HasCoverIff(rings, h, t);
    }
    PlacedIff(ShellsOf(rings, t), HolesOf(rings, t), t);
  }

  /** Rings become a polygon exactly when they can be arranged and the library accepts the arrangement. */
  lemma {:induction false} ConvertedIff(supported: bool, rings: Option<seq<Ring>>, t: Topology)
    ensures Converted(supported, rings, t).Some? <==>
            supported && rings.Some? && Arrangeable(rings.value, t) &&
            var parts := PlaceHoles(ShellsOf(rings.value, t), HolesOf(rings.value, t), t);
            parts.Some? && t.partsAreSound(parts.value)
  {
    if rings.Some? {
      GoodRingsIff(rings.value, t);
      HasShellIff(rings.value, t);
      AllHaveCoverIff(rings.value, t);
    }
  }

  /** A polygon is refused for its holes exactly when some hole has no covering shell. */
  lemma {:induction false} PlacedIff(shells: seq<Ring>, holes: seq<Ring>, t: Topology)
    requires forall h :: h in holes ==> IsHole(h, t)
    ensures PlaceHoles(shells, holes, t).Some? <==>
            forall h :: h in holes ==> IsCovered(h, shells, t)
  {
    if holes != [] {
      var n := |holes| - 1;
      assert forall h :: h in holes <==> h in holes[..n] || h == holes[n];
      PlacedIff(shells, holes[..n], t);
      OwnerOwns(shells, holes[n], t);
    }
  }

  // ---------- features ----------

  /** A geometry that is a JSON object; `bytes` is the size of its encoded text. */
  datatype Native = Native(text: string, bytes: nat, supported: bool, rings: Option<seq<Ring>>)

  /** The parts of a converted polygon, or the object as it came. */
  datatype Geometry = Parts(parts: seq<Part>) | AsGiven(native: Native)

  type Fields = map<string, string>

  /** An element of the feature list: a JSON object with those of its members that are objects, or something else. */
  datatype RawFeature =
    | NotAnObject
    | RawFeature(attributes: Option<Fields>, properties: Option<Fields>, geometry: Option<Native>)

  /** The reply; `hasZ` and `hasM` are the truth values of these members, `features` is none unless it is a list. */
  datatype Payload =
    | NotAPayload
    | Payload(features: Option<seq<RawFeature>>, isWgs84: bool, isNativePolygon: bool, hasSpatialReference: bool,
              hasZ: bool, hasM: bool, exceededTransferLimit: bool)

  datatype Feature = Feature(properties: Fields, geometry: Geometry)

  datatype Decoded = Decoded(features: seq<Feature>, exceededTransferLimit: bool)

  datatype DecodeError = InvalidSchema | UnsupportedCrs | UnsupportedCoordinates | MalformedFeatures | GeometryLimit

  /** A convertible geometry becomes parts; an inconvertible one is kept as it came, never replaced. */
  function DecodedGeometry(native: Native, t: Topology): Geometry {
    match Converted(native.supported, native.rings, t)
    case Some(parts) => Parts(parts)
    case None => AsGiven(native)
  }

  /** Properties and geometry as far as they are objects. */
  datatype Candidate = Candidate(properties: Option<Fields>, geometry: Option<Geometry>)

  /** A native feature is refused at once for its attributes or the size of its geometry. */
  function NativeError(feature: RawFeature, maxBytes: nat): Option<DecodeError> {
    if feature.NotAnObject? || feature.attributes.None? then Some(MalformedFeatures)
    else if feature.geometry.Some? && feature.geometry.value.bytes > maxBytes then Some(GeometryLimit)
    else None
  }

  function CandidateOf(feature: RawFeature, isNative: bool, t: Topology): Candidate {
    if feature.NotAnObject? then Candidate(None, None)
    else if isNative then
      Candidate(
        feature.attributes,
        if feature.geometry.None? then None else Some(DecodedGeometry(feature.geometry.value, t)))
    else
      Candidate(feature.properties, if feature.geometry.None? then None else Some(AsGiven(feature.geometry.value)))
  }

  predicate IsWhole(c: Candidate) {
    c.properties.Some? && c.geometry.Some?
  }

  /** The first refusal among native features, in their order. */
  function FirstNativeError(features: seq<RawFeature>, maxBytes: nat): Option<DecodeError> {
    if features == [] then None
    else
      var before := FirstNativeError(features[..|features| - 1], maxBytes);
      if before.Some? then before else NativeError(features[|features| - 1], maxBytes)
  }

  function PayloadError(payload: Payload): Option<DecodeError> {
    if payload.NotAPayload? || payload.features.None? then Some(InvalidSchema)
    else if !payload.isWgs84 then Some(UnsupportedCrs)
    else if payload.isNativePolygon && (!payload.hasSpatialReference || payload.hasZ || payload.hasM) then
      Some(UnsupportedCoordinates)
    else None
  }

  /** Why a reply is refused: the reply as a whole, one native feature, or a feature that is not whole. */
  function DecodeErrorOf(payload: Payload, maxBytes: nat, t: Topology): (error: Option<DecodeError>)
    ensures error.None? ==> payload.Payload? && payload.features.Some?
  {
    if PayloadError(payload).Some? then PayloadError(payload)
    else
      var features := payload.features.value;
      var native := if payload.isNativePolygon then FirstNativeError(features, maxBytes) else None;
      if native.Some? then native
      else if exists i :: 0 <= i < |features| && !IsWhole(CandidateOf(features[i], payload.isNativePolygon, t)) then
        Some(MalformedFeatures)
      else None
  }

  /** `decode_features`: one decoded feature for every feature, in order, or no result at all. */
  method DecodeFeatures(payload: Payload, maxBytes: nat, t: Topology) returns (r: Result<Decoded, DecodeError>)
    ensures match DecodeErrorOf(payload, maxBytes, t)
            case Some(error) => r == Err(error)
            case None =>
              && r.Ok? && r.value.exceededTransferLimit == payload.exceededTransferLimit
              && |r.value.features| == |payload.features.value|
              && forall i :: 0 <= i < |r.value.features| ==>
                   var c := CandidateOf(payload.features.value[i], payload.isNativePolygon, t);
                   IsWhole(c) && r.value.features[i] == Feature(c.properties.value, c.geometry.value)
  {
    if PayloadError(payload).Some? {
      return Err(PayloadError(payload).value);
    }
    var features := payload.features.value;
    var candidates: seq<Candidate>;
    if payload.isNativePolygon {
      var converted := ConvertNative(features, maxBytes, t);
      if converted.Err? {
        return Err(converted.error);
      }
      candidates := converted.value;
    } else {
      candidates := [];
      for i := 0 to |features|
        invariant |candidates| == i
        invariant forall k :: 0 <= k < i ==> candidates[k] == CandidateOf(features[k], false, t)
      {
        candidates := candidates + [CandidateOf(features[i], false, t)];
      }
    }
    var decoded: seq<Feature> := [];
    for i := 0 to |candidates|
      invariant |decoded| == i
      invariant forall k :: 0 <= k < i ==>
                  && IsWhole(candidates[k])
                  && decoded[k] == Feature(candidates[k].properties.value, candidates[k].geometry.value)
    {
      if !IsWhole(candidates[i]) {
        return Err(MalformedFeatures);
      }
      decoded := decoded + [Feature(candidates[i].properties.value, candidates[i].geometry.value)];
    }
    return Ok(Decoded(decoded, payload.exceededTransferLimit));
  }

  /** The native branch: a feature without a geometry object is not refused here. */
  method ConvertNative(features: seq<RawFeature>, maxBytes: nat, t: Topology)
    returns (r: Result<seq<Candidate>, DecodeError>)
    ensures match FirstNativeError(features, maxBytes)
            case Some(error) => r == Err(error)
            case None =>
              && r.Ok? && |r.value| == |features|
              && forall i :: 0 <= i < |features| ==> r.value[i] == CandidateOf(features[i], true, t)
  {
    var converted: seq<Candidate> := [];
    for i := 0 to |features|
      invariant |converted| == i && FirstNativeError(features[..i], maxBytes).None?
      invariant forall k :: 0 <= k < i ==> converted[k] == CandidateOf(features[k], true, t)
    {
      assert features[..i + 1][..i] == features[..i];
      var feature := features[i];
      if NativeError(feature, maxBytes).Some? {
        FirstErrorPersists(features, i + 1, maxBytes);
        return Err(NativeError(feature, maxBytes).value);
      }
      var geometry: Option<Geometry> := None;
      if feature.geometry.Some? {
        var native := feature.geometry.value;
        var parts := PolygonGeojson(native.supported, native.rings, t);
        geometry := Some(if parts.Some? then Parts(parts.value) else AsGiven(native));
      }
      converted := converted + [Candidate(feature.attributes, geometry)];
    }
    assert features[..|features|] == features;
    return Ok(converted);
  }

  lemma {:induction false} FirstErrorPersists(features: seq<RawFeature>, i: nat, maxBytes: nat)
    requires i <= |features| && FirstNativeError(features[..i], maxBytes).Some?
    ensures FirstNativeError(features, maxBytes) == FirstNativeError(features[..i], maxBytes)
  {
    var n := |features| - 1;
    if i == |features| {
      assert features[..i] == features;
    } else {
      assert features[..n][..i] == features[..i];
      FirstErrorPersists(features[..n], i, maxBytes);
    }
  }

  /** A feature that can be decoded; the size of a geometry is limited in the native form only. */
  predicate Decodable(feature: RawFeature, isNative: bool, maxBytes: nat) {
    && feature.RawFeature? && feature.geometry.Some?
    && if isNative then feature.attributes.Some? && feature.geometry.value.bytes <= maxBytes
       else feature.properties.Some?
  }

  lemma {:induction false} NoNativeErrorIff(features: seq<RawFeature>, maxBytes: nat)
    ensures FirstNativeError(features, maxBytes).None? <==>
            forall i :: 0 <= i < |features| ==> NativeError(features[i], maxBytes).None?
  {
    if features != [] {
      NoNativeErrorIff(features[..|features| - 1], maxBytes);
    }
  }

  /** A reply is decoded exactly when its envelope is supported and every single feature is decodable. */
  lemma {:induction false} DecodedIff(payload: Payload, maxBytes: nat, t: Topology)
    ensures DecodeErrorOf(payload, maxBytes, t).None? <==>
            PayloadError(payload).None? &&
            forall i :: 0 <= i < |payload.features.value| ==>
              Decodable(payload.features.value[i], payload.isNativePolygon, maxBytes)
  {
    if PayloadError(payload).None? {
      var features, isNative := payload.features.value, payload.isNativePolygon;
      NoNativeErrorIff(features, maxBytes);
      forall i | 0 <= i < |features|
        ensures Decodable(features[i], isNative, maxBytes) <==>
                IsWhole(CandidateOf(features[i], isNative, t)) &&
                (isNative ==> NativeError(features[i], maxBytes).None?)
      {
      }
    }
  }

  // ---------- which refusal ----------

  /** The reply is a feature list in WGS84, and a native polygon reply has plane coordinates. */
  ghost predicate GoodEnvelope(p: Payload) {
    && p.Payload? && p.features.Some? && p.isWgs84
    && (p.isNativePolygon ==> p.hasSpatialReference && !p.hasZ && !p.hasM)
  }

  ghost predicate HasAttributes(f: RawFeature) {
    f.RawFeature? && f.attributes.Some?
  }

  /** The first element that is too large comes before every element without attributes. */
  ghost predicate HitsLimitFirst(features: seq<RawFeature>, maxBytes: nat) {
    exists i :: 0 <= i < |features| && TooLarge(features[i], maxBytes) &&
      forall k :: 0 <= k <= i ==> HasAttributes(features[k])
  }

  ghost predicate TooLarge(f: RawFeature, maxBytes: nat) {
    f.RawFeature? && f.geometry.Some? && maxBytes < f.geometry.value.bytes
  }

  lemma {:induction false} FirstNativeErrorIs(features: seq<RawFeature>, maxBytes: nat)
    ensures
      match FirstNativeError(features, maxBytes)
      case None => forall k :: 0 <= k < |features| ==> HasAttributes(features[k]) && !TooLarge(features[k], maxBytes)
      case Some(e) =>
        && (e == GeometryLimit || e == MalformedFeatures)
        && (e == GeometryLimit <==> HitsLimitFirst(features, maxBytes))
        && (e == MalformedFeatures ==> exists k :: 0 <= k < |features| && !HasAttributes(features[k]))
  {
    if features != [] {
      var n := |features| - 1;
      var before := features[..n];
      FirstNativeErrorIs(before, maxBytes);
      if HitsLimitFirst(before, maxBytes) {
        var i :| 0 <= i < n && TooLarge(before[i], maxBytes) && forall k :: 0 <= k <= i ==> HasAttributes(before[k]);
        assert features[i] == before[i];
        assert forall k :: 0 <= k <= i ==> features[k] == before[k];
      }
      if HitsLimitFirst(features, maxBytes) {
        var i :| 0 <= i < |features| && TooLarge(features[i], maxBytes) &&
            forall k :: 0 <= k <= i ==> HasAttributes(features[k]);
        if i < n {
          assert before[i] == features[i];
          assert forall k :: 0 <= k <= i ==> features[k] == before[k];
          assert HitsLimitFirst(before, maxBytes);
        } else {
          assert forall k :: 0 <= k < n ==> before[k] == features[k] && HasAttributes(before[k]);
        }
      }
    }
  }

  /** Each refusal has its own condition, in the order of the checks. */
  lemma {:induction false} DecodeErrorIs(payload: Payload, maxBytes: nat, t: Topology)
    ensures
      var r := DecodeErrorOf(payload, maxBytes, t);
      && (r == Some(InvalidSchema) <==> payload.NotAPayload? || payload.features.None?)
      && (r == Some(UnsupportedCrs) <==> payload.Payload? && payload.features.Some? && !payload.isWgs84)
      && (r == Some(UnsupportedCoordinates) <==>
            payload.Payload? && payload.features.Some? && payload.isWgs84 && !GoodEnvelope(payload))
      && (r == Some(GeometryLimit) <==>
            GoodEnvelope(payload) && payload.isNativePolygon && HitsLimitFirst(payload.features.value, maxBytes))
      && (r.None? ==> GoodEnvelope(payload))
  {
    if GoodEnvelope(payload) {
      FirstNativeErrorIs(payload.features.value, maxBytes);
    }
  }

  /** A decoded element keeps its fields; its geometry becomes parts when it can, and otherwise stays as it came. */
  lemma {:induction false} DecodedElementIs(feature: RawFeature, isNative: bool, maxBytes: nat, t: Topology)
    requires Decodable(feature, isNative, maxBytes)
    ensures
      var c, native := CandidateOf(feature, isNative, t), feature.geometry.value;
      && IsWhole(c)
      && c.properties == (if isNative then feature.attributes else feature.properties)
      && match c.geometry.value
         case Parts(parts) => isNative && Converted(native.supported, native.rings, t) == Some(parts)
         case AsGiven(given) =>
           given == native && (isNative ==> Converted(native.supported, native.rings, t).None?)
  {
  }
}
