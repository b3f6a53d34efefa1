/**
 The order of the published roster when the snapped viewport answers for the exact one: records are sorted
 by ID (src/firelens/live.py:519-587), and IDs carry the numbers of their fetch
 (src/firelens/live_identity.py:62-85).
 */
module GridRoster {
  import opened Wrappers
  import opened Sequences
  import opened LiveRecords
  import opened LiveIdentity
  import opened LiveCache
  import opened LiveBbox
  import opened LiveContracts
  import opened LiveAdmission
  import opened LiveAdmissionLaws
  import opened LiveMap
  import opened GridFetch
  import opened RosterOrder

  // ---------- comparing numbered IDs ----------

  lemma {:induction false} LexAfterPrefix(prefix: string, x: string, y: string)
    ensures LexLeq(prefix + x, prefix + y) <==> LexLeq(x, y)
  {
    if prefix == "" {
      assert prefix + x == x && prefix + y == y;
    } else {
      assert (prefix + x)[1..] == prefix[1..] + x && (prefix + y)[1..] == prefix[1..] + y;
      LexAfterPrefix(prefix[1..], x, y);
    }
  }

  /** Two numbered keys in order. */
  predicate NumberedLeq(a: string, n: nat, b: string, m: nat) {
    LexLeq(a + Suffix(n), b + Suffix(m))
  }

  lemma {:induction false} IdOrder(kind: Kind, a: string, n: nat, b: string, m: nat)
    ensures LexLeq(NumberedId(kind, a, n), NumberedId(kind, b, m)) <==> NumberedLeq(a, n, b, m)
  {
    LexAfterPrefix(KindName(kind) + ":", a + Suffix(n), b + Suffix(m));
  }

  /** Of one key, the numbers alone decide. */
  lemma {:induction false} SameKeyOrder(key: string, n: nat, m: nat)
    ensures NumberedLeq(key, n, key, m) <==> LexLeq(Suffix(n), Suffix(m))
  {
    LexAfterPrefix(key, Suffix(n), Suffix(m));
  }

  // ---------- when the roster keeps its order ----------

  /** The numbers of two admitted rows place their records alike in both rosters. */
  ghost predicate PairKeepsOrder(v: Viewport, i: nat, j: nat)
    requires v.Valid() && i < |v.Admitted()| && j < |v.Admitted()|
  {
    SideBySide(v);
    var exact, snapped := AdmittedNumbers(v.ExactRows(), v.q, v.t), AdmittedNumbers(v.SnappedRows(), v.q, v.t);
    var a, b := v.Admitted()[i].key, v.Admitted()[j].key;
    NumberedLeq(a, exact[i], b, exact[j]) <==> NumberedLeq(a, snapped[i], b, snapped[j])
  }

  lemma {:induction false} RecordsNumbered(v: Viewport, k: nat)
    requires v.Valid() && v.Wide().reason.None? && v.Narrow().reason.None? && k < |v.Admitted()|
    ensures |v.Narrow().results| == |v.Wide().results| == |v.Admitted()|
    ensures AdmittedRows(v.SnappedRows(), v.q, v.t) == v.Admitted()
    ensures
      var key, exact := v.Admitted()[k].key, AdmittedNumbers(v.ExactRows(), v.q, v.t);
      v.Narrow().results[k].kind == v.q.kind && v.Narrow().results[k].resultId == NumberedId(v.q.kind, key, exact[k])
    ensures
      var key, snapped := v.Admitted()[k].key, AdmittedNumbers(v.SnappedRows(), v.q, v.t);
      v.Wide().results[k].kind == v.q.kind && v.Wide().results[k].resultId == NumberedId(v.q.kind, key, snapped[k])
  {
    SideBySide(v);
    PublishedRecord(v.s, v.ExactRows(), v.q, v.t, k);
    PublishedRecord(v.s, v.SnappedRows(), v.q, v.t, k);
    FetchIdsAt(v.q.kind, v.ExactRows(), v.q, v.t, k);
    FetchIdsAt(v.q.kind, v.SnappedRows(), v.q, v.t, k);
  }

  lemma {:induction false} PairComparison(v: Viewport, i: nat, j: nat)
    requires v.Valid() && v.Wide().reason.None? && v.Narrow().reason.None?
    requires i < |v.Admitted()| && j < |v.Admitted()|
    ensures |v.Narrow().results| == |v.Wide().results| == |v.Admitted()|
    ensures PairSortsAlike(v.Narrow().results, v.Wide().results, i, j) <==> PairKeepsOrder(v, i, j)
  {
    RecordsNumbered(v, i);
    RecordsNumbered(v, j);
    var exact, snapped := AdmittedNumbers(v.ExactRows(), v.q, v.t), AdmittedNumbers(v.SnappedRows(), v.q, v.t);
    var a, b := v.Admitted()[i].key, v.Admitted()[j].key;
    IdOrder(v.q.kind, a, exact[i], b, exact[j]);
    IdOrder(v.q.kind, a, snapped[i], b, snapped[j]);
  }

  lemma {:induction false} NarrowIsAvailable(v: Viewport)
    requires v.Valid() && v.Wide().reason.None?
    ensures v.Narrow().reason.None? && |v.Narrow().results| == |v.Wide().results| == |v.Admitted()|
  {
    if v.q.allowPartial {
      SnappedAvailableIff(v);
    } else {
      StrictSnappedAvailableIff(v);
    }
    SameNumberOfRecords(v);
  }

  ghost predicate AllPairsKeepOrder(v: Viewport)
    requires v.Valid()
  {
    forall i, j :: 0 <= i < j < |v.Admitted()| ==> PairKeepsOrder(v, i, j)
  }

  lemma {:induction false} AllPairsIff(v: Viewport)
    requires v.Valid() && v.Wide().reason.None?
    ensures v.Narrow().reason.None? && |v.Narrow().results| == |v.Wide().results| == |v.Admitted()|
    ensures AllPairsSortAlike(v.Narrow().results, v.Wide().results) <==> AllPairsKeepOrder(v)
  {
    NarrowIsAvailable(v);
    forall i, j | 0 <= i < j < |v.Admitted()|
      ensures PairSortsAlike(v.Narrow().results, v.Wide().results, i, j) <==> PairKeepsOrder(v, i, j)
    {
      PairComparison(v, i, j);
    }
  }

  /**
   The snapped fetch lists the admitted rows in the order of the exact one exactly when the numbers of both
   fetches compare alike on every pair. Where the IDs of each answer are distinct, no other order could
   list both rosters.
   */
  lemma {:induction false} RosterOrderKeptIff(v: Viewport)
    requires v.Valid() && v.Wide().reason.None?
    ensures v.Narrow().reason.None? && |v.Narrow().results| == |v.Wide().results| == |v.Admitted()|
    ensures Listing(v.Narrow().results) == Listing(v.Wide().results) <==> AllPairsKeepOrder(v)
    ensures DistinctIds(v.Narrow().results) && DistinctIds(v.Wide().results) ==>
              (SameRosterOrder(v.Narrow().results, v.Wide().results) <==> AllPairsKeepOrder(v))
  {
    AllPairsIff(v);
    ListingsAgreeIff(v.Narrow().results, v.Wide().results);
    if DistinctIds(v.Narrow().results) && DistinctIds(v.Wide().results) {
      SameRosterOrderIff(v.Narrow().results, v.Wide().results);
    }
  }

  // ---------- a simple condition ----------

  predicate IsPrefix(a: string, b: string) {
    |a| <= |b| && b[..|a|] == a
  }

  /** Keys of which neither begins with the other are in an order that no suffix changes. */
  lemma {:induction false} SuffixesDoNotMatter(a: string, b: string, x: string, y: string)
    requires !IsPrefix(a, b) && !IsPrefix(b, a)
    ensures LexLeq(a + x, b + y) <==> LexLeq(a, b)
  {
    assert a != [] && b != [];
    assert (a + x)[0] == a[0] && (b + y)[0] == b[0];
    if a[0] == b[0] {
      assert (a + x)[1..] == a[1..] + x && (b + y)[1..] == b[1..] + y;
      SuffixesDoNotMatter(a[1..], b[1..], x, y);
    }
  }

  /** Numbers of one digit are in their usual order. */
  lemma {:induction false} SingleDigits(n: nat, m: nat)
    requires 1 <= n < m <= 9
    ensures LexLeq(Suffix(n), Suffix(m))
  {
    if n > 1 {
      assert Suffix(n) == "#" + Decimal(n) && Suffix(m) == "#" + Decimal(m);
      LexAfterPrefix("#", Decimal(n), Decimal(m));
    }
  }

  /** Later rows of a key have larger numbers. */
  lemma {:induction false} NumbersRise(rows: seq<Feature>, q: Query, t: Topology, i: nat, j: nat)
    requires i < j < |AdmittedRows(rows, q, t)| && AdmittedRows(rows, q, t)[i].key == AdmittedRows(rows, q, t)[j].key
    ensures AdmittedNumbers(rows, q, t)[i] < AdmittedNumbers(rows, q, t)[j]
  {
    var n := |rows| - 1;
    assert rows == rows[..n] + [rows[n]];
    OneMoreRow(rows[..n], rows[n], q, t);
    if j < |AdmittedRows(rows[..n], q, t)| {
      NumbersRise(rows[..n], q, t, i, j);
    } else {
      NumberAtMostCount(rows[..n], q, t, i);
    }
  }

  lemma {:induction false} NumberAtMostCount(rows: seq<Feature>, q: Query, t: Topology, i: nat)
    requires i < |AdmittedRows(rows, q, t)|
    ensures AdmittedNumbers(rows, q, t)[i] <= Count(Keys(rows), AdmittedRows(rows, q, t)[i].key)
  {
    var n := |rows| - 1;
    assert rows == rows[..n] + [rows[n]];
    OneMoreRow(rows[..n], rows[n], q, t);
    if i < |AdmittedRows(rows[..n], q, t)| {
      NumberAtMostCount(rows[..n], q, t, i);
      OneMoreKey(rows[..n], rows[n], AdmittedRows(rows, q, t)[i].key);
    }
  }

  /** Numbers of one digit, and keys of which none begins with another. */
  ghost predicate PlainNumbers(v: Viewport)
    requires v.Valid()
  {
    SideBySide(v);
    && (forall k :: 0 <= k < |v.Admitted()| ==> AdmittedNumbers(v.SnappedRows(), v.q, v.t)[k] <= 9)
    && (forall a, b :: a in v.Admitted() && b in v.Admitted() && IsPrefix(a.key, b.key) ==> a.key == b.key)
  }

  /** Then the roster keeps its order. */
  lemma {:induction false} PlainNumbersKeepOrder(v: Viewport)
    requires v.Valid() && PlainNumbers(v)
    ensures AllPairsKeepOrder(v)
  {
    SideBySide(v);
    var exact, snapped := AdmittedNumbers(v.ExactRows(), v.q, v.t), AdmittedNumbers(v.SnappedRows(), v.q, v.t);
    forall i, j | 0 <= i < j < |v.Admitted()| ensures PairKeepsOrder(v, i, j) {
      var a, b := v.Admitted()[i].key, v.Admitted()[j].key;
      if a == b {
        NumbersRise(v.ExactRows(), v.q, v.t, i, j);
        NumbersRise(v.SnappedRows(), v.q, v.t, i, j);
        NumbersArePositive(v.ExactRows(), v.q, v.t, i);
        NumbersArePositive(v.SnappedRows(), v.q, v.t, i);
        RisingDigits(a, exact[i], exact[j]);
        RisingDigits(a, snapped[i], snapped[j]);
      } else {
        SuffixesDoNotMatter(a, b, Suffix(exact[i]), Suffix(exact[j]));
        SuffixesDoNotMatter(a, b, Suffix(snapped[i]), Suffix(snapped[j]));
      }
    }
  }

  lemma {:induction false} RisingDigits(key: string, n: nat, m: nat)
    requires 1 <= n < m <= 9
    ensures NumberedLeq(key, n, key, m)
  {
    SingleDigits(n, m);
    SameKeyOrder(key, n, m);
  }

  // ---------- many rows of one key ----------

  /** `first`, followed by the rows 1 to `n` of a series. */
  function Rows(first: seq<Feature>, part: nat -> Feature, n: nat): (rows: seq<Feature>)
    ensures |rows| == |first| + n
  {
    if n == 0 then first else Rows(first, part, n - 1) + [part(n)]
  }

  /** The rows 1 to `n` of a series. */
  function Parts(part: nat -> Feature, n: nat): (rows: seq<Feature>)
    ensures |rows| == n
  {
    if n == 0 then [] else Parts(part, n - 1) + [part(n)]
  }

  lemma {:induction false} RowAt(part: nat -> Feature, n: nat, k: nat)
    requires k < n
    ensures Parts(part, n)[k] == part(k + 1)
  {
    if k < n - 1 {
      RowAt(part, n - 1, k);
    }
  }

  /** `n` numbers in a row. */
  function NumbersFrom(first: nat, n: nat): (numbers: seq<nat>)
    ensures |numbers| == n
  {
    if n == 0 then [] else NumbersFrom(first, n - 1) + [first + n - 1]
  }

  lemma {:induction false} NumbersFromAt(first: nat, n: nat, k: nat)
    requires k < n
    ensures NumbersFrom(first, n)[k] == first + k
  {
    if k < n - 1 {
      NumbersFromAt(first, n - 1, k);
    }
  }

  lemma {:induction false} RowsFetched(
    margin: Feature, part: nat -> Feature, n: nat, exact: Box, snapped: Box, hits: Filter
  )
    requires !hits(margin.geometry, exact) && hits(margin.geometry, snapped)
    requires forall i :: hits(part(i).geometry, exact) && hits(part(i).geometry, snapped)
    ensures Fetched(Rows([margin], part, n), exact, hits) == Parts(part, n)
    ensures Fetched(Rows([margin], part, n), snapped, hits) == Rows([margin], part, n)
  {
    var layer := Rows([margin], part, n);
    FetchedStep(layer, exact, hits);
    FetchedStep(layer, snapped, hits);
    if n == 0 {
      assert layer[..0] == [];
      assert [] + layer == layer;
    } else {
      RowsFetched(margin, part, n - 1, exact, snapped, hits);
      assert layer[..n] == Rows([margin], part, n - 1) && layer[n] == part(n);
    }
  }

  ghost predicate HasKey(part: nat -> Feature, i: nat, key: string) {
    part(i).key == key
  }

  ghost predicate AdmitsPart(part: nat -> Feature, i: nat, q: Query, t: Topology) {
    Classify(part(i), q, t).Admissible?
  }

  lemma {:induction false} RowsAdmitted(first: seq<Feature>, part: nat -> Feature, n: nat, q: Query, t: Topology)
    requires AdmittedRows(first, q, t) == [] && forall i :: AdmitsPart(part, i, q, t)
    ensures AdmittedRows(Rows(first, part, n), q, t) == Parts(part, n)
  {
    if n > 0 {
      RowsAdmitted(first, part, n - 1, q, t);
      assert AdmitsPart(part, n, q, t);
      OneMoreRow(Rows(first, part, n - 1), part(n), q, t);
    }
  }

  lemma {:induction false} NextCount(rows: seq<Feature>, f: Feature, key: string, c: nat)
    requires f.key == key && Count(Keys(rows), key) == c
    ensures Count(Keys(rows + [f]), key) == c + 1
  {
    OneMoreKey(rows, f, key);
  }

  lemma {:induction false} RowsCounted(first: seq<Feature>, part: nat -> Feature, n: nat, key: string)
    requires forall i :: HasKey(part, i, key)
    ensures Count(Keys(Rows(first, part, n)), key) == Count(Keys(first), key) + n
  {
    if n > 0 {
      RowsCounted(first, part, n - 1, key);
      assert HasKey(part, n, key);
      NextCount(Rows(first, part, n - 1), part(n), key, Count(Keys(first), key) + n - 1);
    }
  }

  /** Behind `first`, none of which is admitted, the rows of the key are numbered on. */
  lemma {:induction false} RowsNumbered(
    first: seq<Feature>, part: nat -> Feature, n: nat, key: string, q: Query, t: Topology
  )
    requires AdmittedRows(first, q, t) == [] && forall i :: AdmitsPart(part, i, q, t)
    requires Count(Keys(first), key) == |first| && forall i :: HasKey(part, i, key)
    ensures AdmittedNumbers(Rows(first, part, n), q, t) == NumbersFrom(|first| + 1, n)
  {
    if n > 0 {
      RowsNumbered(first, part, n - 1, key, q, t);
      RowsCounted(first, part, n - 1, key);
      assert HasKey(part, n, key) && AdmitsPart(part, n, q, t);
      NextNumber(Rows(first, part, n - 1), part(n), |first| + 1, n, q, t);
    } else {
      assert AdmittedNumbers(first, q, t) == [];
    }
  }

  /** One more admitted row continues the numbers. */
  lemma {:induction false} NextNumber(rows: seq<Feature>, f: Feature, first: nat, n: nat, q: Query, t: Topology)
    requires n > 0 && AdmittedNumbers(rows, q, t) == NumbersFrom(first, n - 1)
    requires Classify(f, q, t).Admissible? && Count(Keys(rows), f.key) + 1 == first + n - 1
    ensures AdmittedNumbers(rows + [f], q, t) == NumbersFrom(first, n)
  {
    MaybeOneMoreRow(rows, f, true, q, t);
  }

  lemma {:induction false} PartsAdmitted(part: nat -> Feature, n: nat, q: Query, t: Topology)
    requires forall i :: AdmitsPart(part, i, q, t)
    ensures AdmittedRows(Parts(part, n), q, t) == Parts(part, n)
  {
    if n > 0 {
      PartsAdmitted(part, n - 1, q, t);
      assert AdmitsPart(part, n, q, t);
      MaybeOneMoreRow(Parts(part, n - 1), part(n), true, q, t);
    }
  }

  lemma {:induction false} PartsCounted(part: nat -> Feature, n: nat, key: string)
    requires forall i :: HasKey(part, i, key)
    ensures Count(Keys(Parts(part, n)), key) == n
  {
    if n > 0 {
      PartsCounted(part, n - 1, key);
      assert HasKey(part, n, key);
      NextCount(Parts(part, n - 1), part(n), key, n - 1);
    }
  }

  lemma {:induction false} PartsNumbered(part: nat -> Feature, n: nat, key: string, q: Query, t: Topology)
    requires forall i :: AdmitsPart(part, i, q, t)
    requires forall i :: HasKey(part, i, key)
    ensures AdmittedNumbers(Parts(part, n), q, t) == NumbersFrom(1, n)
  {
    if n > 0 {
      PartsNumbered(part, n - 1, key, q, t);
      PartsCounted(part, n - 1, key);
      assert HasKey(part, n, key) && AdmitsPart(part, n, q, t);
      NextNumber(Parts(part, n - 1), part(n), 1, n, q, t);
    }
  }

  lemma {:induction false} RowsAdmittedAndNumbered(
    first: seq<Feature>, part: nat -> Feature, n: nat, key: string, q: Query, t: Topology
  )
    requires AdmittedRows(first, q, t) == [] && forall i :: AdmitsPart(part, i, q, t)
    requires Count(Keys(first), key) == |first| && forall i :: HasKey(part, i, key)
    ensures AdmittedRows(Rows(first, part, n), q, t) == Parts(part, n)
    ensures AdmittedNumbers(Rows(first, part, n), q, t) == NumbersFrom(|first| + 1, n)
  {
    RowsAdmitted(first, part, n, q, t);
    RowsNumbered(first, part, n, key, q, t);
  }

  /** A row of the key that both fetches admit. */
  ghost predicate IsPart(f: Feature, key: string, v: Viewport)
    requires ValidGrid(v.grid)
  {
    && f.key == key && f.wellFormed && Classify(f, v.q, v.t).Admissible?
    && v.hits(f.geometry, v.exact) && v.hits(f.geometry, Expand(v.exact, v.grid))
  }

  /** A row of the key that lies in the margin. */
  ghost predicate IsMarginRow(f: Feature, key: string, v: Viewport)
    requires ValidGrid(v.grid)
  {
    && f.key == key && !Classify(f, v.q, v.t).Admissible?
    && InMargin(f, v.exact, Expand(v.exact, v.grid), v.hits)
  }

  /** The layer is one row in the margin and `n` rows inside, all of one key. */
  ghost predicate HoldsParts(v: Viewport, key: string, margin: Feature, part: nat -> Feature, n: nat) {
    && v.Valid() && v.q.allowPartial && v.layer == Rows([margin], part, n)
    && IsMarginRow(margin, key, v) && forall i :: IsPart(part(i), key, v)
  }

  /** What `HoldsParts` says of single rows. */
  lemma {:induction false} PartFacts(v: Viewport, key: string, margin: Feature, part: nat -> Feature, n: nat)
    requires HoldsParts(v, key, margin, part, n)
    ensures forall i :: HasKey(part, i, key)
    ensures forall i :: AdmitsPart(part, i, v.q, v.t)
    ensures v.ExactRows() == Parts(part, n) && v.SnappedRows() == Rows([margin], part, n)
    ensures AdmittedRows([margin], v.q, v.t) == [] && Count(Keys([margin]), key) == 1
  {
    forall i ensures HasKey(part, i, key) && AdmitsPart(part, i, v.q, v.t) {
      assert IsPart(part(i), key, v);
    }
    RowsFetched(margin, part, n, v.exact, Expand(v.exact, v.grid), v.hits);
    LoneRow(margin, v.q, v.t);
    LoneKey(margin);
  }

  lemma {:induction false} ExactParts(v: Viewport, key: string, margin: Feature, part: nat -> Feature, n: nat)
    requires HoldsParts(v, key, margin, part, n)
    ensures v.Admitted() == Parts(part, n) && AdmittedNumbers(v.ExactRows(), v.q, v.t) == NumbersFrom(1, n)
  {
    PartFacts(v, key, margin, part, n);
    PartsAdmitted(part, n, v.q, v.t);
    PartsNumbered(part, n, key, v.q, v.t);
  }

  lemma {:induction false} SnappedParts(v: Viewport, key: string, margin: Feature, part: nat -> Feature, n: nat)
    requires HoldsParts(v, key, margin, part, n)
    ensures AdmittedRows(v.SnappedRows(), v.q, v.t) == Parts(part, n)
    ensures AdmittedNumbers(v.SnappedRows(), v.q, v.t) == NumbersFrom(2, n)
  {
    PartFacts(v, key, margin, part, n);
    RowsAdmittedAndNumbered([margin], part, n, key, v.q, v.t);
  }

  lemma {:induction false} PartsRows(v: Viewport, key: string, margin: Feature, part: nat -> Feature, n: nat)
    requires HoldsParts(v, key, margin, part, n)
    ensures v.Admitted() == Parts(part, n) && AdmittedRows(v.SnappedRows(), v.q, v.t) == Parts(part, n)
    ensures AdmittedNumbers(v.ExactRows(), v.q, v.t) == NumbersFrom(1, n)
    ensures AdmittedNumbers(v.SnappedRows(), v.q, v.t) == NumbersFrom(2, n)
  {
    ExactParts(v, key, margin, part, n);
    SnappedParts(v, key, margin, part, n);
  }

  lemma {:induction false} SnappedPartId(
    v: Viewport, key: string, margin: Feature, part: nat -> Feature, n: nat, k: nat
  )
    requires HoldsParts(v, key, margin, part, n) && k < n
    ensures |v.SnappedIds()| == n && v.SnappedIds()[k] == NumberedId(v.q.kind, key, k + 2)
  {
    SnappedParts(v, key, margin, part, n);
    RowAt(part, n, k);
    assert IsPart(part(k + 1), key, v);
    NumbersFromAt(2, n, k);
    FetchIdsAt(v.q.kind, v.SnappedRows(), v.q, v.t, k);
  }

  lemma {:induction false} NumberWithinBound(kind: Kind, key: string, m: nat, n: nat)
    requires m <= n && |NumberedId(kind, key, n)| <= 200
    ensures 1 <= |NumberedId(kind, key, m)| <= 200
  {
    LaterIdIsNotShorter(kind, key, m, n);
  }

  lemma {:induction false} PartIsWellFormed(
    v: Viewport, key: string, margin: Feature, part: nat -> Feature, n: nat, k: nat
  )
    requires HoldsParts(v, key, margin, part, n) && k < n
    ensures Parts(part, n)[k].wellFormed
  {
    RowAt(part, n, k);
    assert IsPart(part(k + 1), key, v);
  }

  lemma {:induction false} PartCanBePublished(
    v: Viewport, key: string, margin: Feature, part: nat -> Feature, n: nat, k: nat
  )
    requires HoldsParts(v, key, margin, part, n) && k < n && |NumberedId(v.q.kind, key, n + 1)| <= 200
    ensures |v.SnappedIds()| == n && CanPublish(Parts(part, n)[k], v.SnappedIds()[k])
  {
    SnappedPartId(v, key, margin, part, n, k);
    PartIsWellFormed(v, key, margin, part, n, k);
    NumberWithinBound(v.q.kind, key, k + 2, n + 1);
  }

  lemma {:induction false} PartsAnswered(v: Viewport, key: string, margin: Feature, part: nat -> Feature, n: nat)
    requires HoldsParts(v, key, margin, part, n) && |NumberedId(v.q.kind, key, n + 1)| <= 200
    ensures v.Wide().reason.None? && v.Narrow().reason.None?
    ensures |v.Narrow().results| == |v.Wide().results| == |v.Admitted()| == n
  {
    PartsRows(v, key, margin, part, n);
    forall k | 0 <= k < n ensures CanPublish(Parts(part, n)[k], v.SnappedIds()[k]) {
      PartCanBePublished(v, key, margin, part, n, k);
    }
    PartialAvailableIff(v.s, v.SnappedRows(), v.q, v.t);
    NarrowIsAvailable(v);
  }

  lemma {:induction false} PartNumbers(
    v: Viewport, key: string, margin: Feature, part: nat -> Feature, n: nat, k: nat
  )
    requires HoldsParts(v, key, margin, part, n) && k < n
    ensures |v.Admitted()| == n && v.Admitted()[k].key == key
    ensures |AdmittedNumbers(v.ExactRows(), v.q, v.t)| == |AdmittedNumbers(v.SnappedRows(), v.q, v.t)| == n
    ensures AdmittedNumbers(v.ExactRows(), v.q, v.t)[k] == k + 1
    ensures AdmittedNumbers(v.SnappedRows(), v.q, v.t)[k] == k + 2
  {
    PartsRows(v, key, margin, part, n);
    RowAt(part, n, k);
    assert IsPart(part(k + 1), key, v);
    NumbersFromAt(1, n, k);
    NumbersFromAt(2, n, k);
  }

  lemma {:induction false} PartIds(
    v: Viewport, key: string, margin: Feature, part: nat -> Feature, n: nat, k: nat
  )
    requires HoldsParts(v, key, margin, part, n) && k < n && |NumberedId(v.q.kind, key, n + 1)| <= 200
    ensures |v.Narrow().results| == |v.Wide().results| == n
    ensures v.Narrow().results[k].resultId == NumberedId(v.q.kind, key, k + 1)
    ensures v.Wide().results[k].resultId == NumberedId(v.q.kind, key, k + 2)
  {
    PartsAnswered(v, key, margin, part, n);
    PartNumbers(v, key, margin, part, n, k);
    RecordsNumbered(v, k);
  }

  ghost predicate NumberedAt(results: seq<LiveResult>, kind: Kind, key: string, first: nat, k: nat)
    requires k < |results|
  {
    results[k].resultId == NumberedId(kind, key, first + k)
  }

  /** Records are numbered in a row from `first` on. */
  ghost predicate Numbered(results: seq<LiveResult>, kind: Kind, key: string, first: nat) {
    forall k :: 0 <= k < |results| ==> NumberedAt(results, kind, key, first, k)
  }

  lemma {:induction false} NumberedAreDistinct(results: seq<LiveResult>, kind: Kind, key: string, first: nat)
    requires first >= 1 && Numbered(results, kind, key, first)
    ensures DistinctIds(results)
  {
    forall i, j | 0 <= i < j < |results| ensures IdsDiffer(results, i, j) {
      assert NumberedAt(results, kind, key, first, i) && NumberedAt(results, kind, key, first, j);
      NumberedPairDiffers(results, kind, key, first, i, j);
    }
  }

  lemma {:induction false} NumberedPairDiffers(
    results: seq<LiveResult>, kind: Kind, key: string, first: nat, i: nat, j: nat
  )
    requires first >= 1 && i < j < |results|
    requires NumberedAt(results, kind, key, first, i) && NumberedAt(results, kind, key, first, j)
    ensures IdsDiffer(results, i, j)
  {
    NumbersDecideIds(KindName(kind), key, first + i, first + j);
  }

  lemma {:induction false} PartsHaveDistinctIds(
    v: Viewport, key: string, margin: Feature, part: nat -> Feature, n: nat
  )
    requires HoldsParts(v, key, margin, part, n) && |NumberedId(v.q.kind, key, n + 1)| <= 200
    ensures DistinctIds(v.Narrow().results) && DistinctIds(v.Wide().results)
  {
    PartsAnswered(v, key, margin, part, n);
    var narrow, wide, kind := v.Narrow().results, v.Wide().results, v.q.kind;
    forall k | 0 <= k < n
      ensures NumberedAt(narrow, kind, key, 1, k) && NumberedAt(wide, kind, key, 2, k)
    {
      PartIds(v, key, margin, part, n, k);
    }
    NumberedAreDistinct(narrow, kind, key, 1);
    NumberedAreDistinct(wide, kind, key, 2);
  }

  lemma {:induction false} EightNineTen(key: string)
    ensures NumberedLeq(key, 8, key, 9) && !NumberedLeq(key, 9, key, 10)
  {
    SameKeyOrder(key, 8, 9);
    SameKeyOrder(key, 9, 10);
    assert Suffix(8) == "#8" && Suffix(9) == "#9" && Suffix(10) == "#10";
  }

  lemma {:induction false} EighthPartMoves(v: Viewport, key: string, margin: Feature, part: nat -> Feature, n: nat)
    requires HoldsParts(v, key, margin, part, n) && n >= 9
    ensures |v.Admitted()| == n && !PairKeepsOrder(v, 7, 8)
  {
    PartNumbers(v, key, margin, part, n, 7);
    PartNumbers(v, key, margin, part, n, 8);
    EightNineTen(key);
  }

  /** Nine or more rows of a key inside and one in the margin before them change their order. */
  lemma {:induction false} PartsChangeOrder(v: Viewport, key: string, margin: Feature, part: nat -> Feature, n: nat)
    requires HoldsParts(v, key, margin, part, n) && n >= 9 && |NumberedId(v.q.kind, key, n + 1)| <= 200
    ensures v.Wide().reason.None? && v.Narrow().reason.None?
    ensures DistinctIds(v.Narrow().results) && DistinctIds(v.Wide().results)
    ensures !SameRosterOrder(v.Narrow().results, v.Wide().results)
  {
    PartsAnswered(v, key, margin, part, n);
    PartsHaveDistinctIds(v, key, margin, part, n);
    EighthPartMoves(v, key, margin, part, n);
    RosterOrderKeptIff(v);
  }

  // ---------- an evacuation order of many polygons ----------

  function PolygonRow(key: string, place: nat, number: nat): Feature {
    Feature(Decimal(number), key, "order", "", Geometry("", place), None, true)
  }

  function OrderView(key: string, n: nat, s: Served): Viewport {
    var exact := Box(0.5, 0.5, 1.5, 1.5);
    Viewport(
      Rows([PolygonRow(key, 0, 0)], (i: nat) => PolygonRow(key, 1, i), n), exact, 1.0, OnLine(),
      Query(Evacuation, Some(exact), true, []), Topology((g: Geometry) => true, OnLine()), s)
  }

  lemma {:induction false} OrderViewExpanded(key: string, n: nat, s: Served)
    ensures OrderView(key, n, s).Valid()
    ensures Expand(OrderView(key, n, s).exact, 1.0) == Box(0.0, 0.0, 2.0, 2.0)
  {
    assert Line(0.0, 1.0) == 0.0 && Line(2.0, 1.0) == 2.0;
    assert (0.5).Floor == 0 && (1.5).Floor == 1 && (-0.5).Floor == -1 && (-1.5).Floor == -2;
  }

  /**
   An evacuation order of nine or more polygons inside the viewport and one more in the margin: both
   fetches answer with distinct IDs, and no order of the polygons lists both rosters.
   */
  lemma {:induction false} SortedOrderCanDiffer(key: string, n: nat, s: Served)
    requires n >= 9 && |NumberedId(Evacuation, key, n + 1)| <= 200
    ensures
      var v := OrderView(key, n, s);
      && v.Valid() && v.Wide().reason.None? && v.Narrow().reason.None?
      && DistinctIds(v.Narrow().results) && DistinctIds(v.Wide().results)
      && !SameRosterOrder(v.Narrow().results, v.Wide().results)
  {
    var v, margin, part := OrderView(key, n, s), PolygonRow(key, 0, 0), (i: nat) => PolygonRow(key, 1, i);
    OrderViewExpanded(key, n, s);
    assert forall i: nat :: IsPart(part(i), key, v);
    assert v.layer == Rows([margin], part, n);
    PartsChangeOrder(v, key, margin, part, n);
  }
}
