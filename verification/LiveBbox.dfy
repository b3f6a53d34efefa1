/**
 Snapping a viewport outward onto the cache grid (`LiveDataService._normalized_bbox`,
 src/firelens/live.py:168-192), in exact decimals.
 */
module LiveBbox {
  import opened Wrappers
  import opened LiveCache

  predicate ValidGrid(grid: real) {
    0.01 <= grid <= 1.0
  }

  predicate ValidBox(b: Box) {
    -180.0 <= b.west < b.east <= 180.0 && -90.0 <= b.south < b.north <= 90.0
  }

  function Ceiling(x: real): int {
    -((-x).Floor)
  }

  /** The grid line with a given number. */
  function Line(units: real, grid: real): real {
    units * grid
  }

  function Lower(value: real, grid: real): real
    requires grid > 0.0
  {
    Line((value / grid).Floor as real, grid)
  }

  function Upper(value: real, grid: real): real
    requires grid > 0.0
  {
    Line(Ceiling(value / grid) as real, grid)
  }

  function Expand(b: Box, grid: real): Box
    requires grid > 0.0
  {
    Box(Lower(b.west, grid), Lower(b.south, grid), Upper(b.east, grid), Upper(b.north, grid))
  }

  datatype BboxError = InvalidBbox

  function NormalizedBbox(bbox: Option<Box>, grid: real): Result<Option<Box>, BboxError>
    requires ValidGrid(grid)
  {
    match bbox
    case None => Ok(None)
    case Some(b) => if ValidBox(b) then Ok(Some(Expand(b, grid))) else Err(InvalidBbox)
  }

  ghost predicate Covers(outer: Box, inner: Box) {
    outer.west <= inner.west && outer.south <= inner.south && inner.east <= outer.east && inner.north <= outer.north
  }

  lemma {:induction false} LineOrder(a: real, b: real, grid: real)
    requires grid > 0.0
    ensures a < b <==> Line(a, grid) < Line(b, grid)
  {
  }

  lemma {:induction false} NextLine(a: real, grid: real)
    ensures Line(a + 1.0, grid) == Line(a, grid) + grid
  {
  }

  lemma {:induction false} Quotient(value: real, grid: real)
    requires grid > 0.0
    ensures Line(value / grid, grid) == value
  {
  }

  lemma {:induction false} LineQuotient(units: real, grid: real)
    requires grid > 0.0
    ensures Line(units, grid) / grid == units
  {
  }

  /** The grid line below a value is less than one cell away. */
  lemma {:induction false} LowerBounds(value: real, grid: real)
    requires grid > 0.0
    ensures Lower(value, grid) <= value < Lower(value, grid) + grid
  {
    var quotient := value / grid;
    var units := quotient.Floor as real;
    Quotient(value, grid);
    NextLine(units, grid);
    LineOrder(quotient, units, grid);
    LineOrder(quotient, units + 1.0, grid);
  }

  lemma {:induction false} UpperBounds(value: real, grid: real)
    requires grid > 0.0
    ensures Upper(value, grid) - grid < value <= Upper(value, grid)
  {
    var quotient := value / grid;
    var units := Ceiling(quotient) as real;
    Quotient(value, grid);
    NextLine(units - 1.0, grid);
    LineOrder(units, quotient, grid);
    LineOrder(units - 1.0, quotient, grid);
  }

  lemma {:induction false} OnGrid(n: int, grid: real)
    requires grid > 0.0
    ensures Lower(Line(n as real, grid), grid) == Line(n as real, grid)
    ensures Upper(Line(n as real, grid), grid) == Line(n as real, grid)
  {
    LineQuotient(n as real, grid);
    IntegerRounding(Line(n as real, grid) / grid, n);
  }

  lemma {:induction false} IntegerRounding(x: real, n: int)
    ensures x == n as real ==> x.Floor == n && Ceiling(x) == n
    ensures x <= n as real <==> Ceiling(x) <= n
  {
  }

  /**
   The expanded box contains the viewport, widens every side by less than one cell, and stays put when expanded
   again.
   */
  lemma {:induction false} ExpandContains(b: Box, grid: real)
    requires grid > 0.0
    ensures Covers(Expand(b, grid), b)
    ensures b.west - Expand(b, grid).west < grid && b.south - Expand(b, grid).south < grid
    ensures Expand(b, grid).east - b.east < grid && Expand(b, grid).north - b.north < grid
    ensures Expand(Expand(b, grid), grid) == Expand(b, grid)
  {
    LowerBounds(b.west, grid);
    LowerBounds(b.south, grid);
    UpperBounds(b.east, grid);
    UpperBounds(b.north, grid);
    OnGrid((b.west / grid).Floor, grid);
    OnGrid((b.south / grid).Floor, grid);
    OnGrid(Ceiling(b.east / grid), grid);
    OnGrid(Ceiling(b.north / grid), grid);
  }

  /** The expansion is the least grid-aligned box that covers the viewport. */
  lemma {:induction false} ExpandIsLeast(b: Box, grid: real, w: int, s: int, e: int, n: int)
    requires grid > 0.0
    requires Covers(Box(Line(w as real, grid), Line(s as real, grid), Line(e as real, grid), Line(n as real, grid)), b)
    ensures Covers(Box(Line(w as real, grid), Line(s as real, grid), Line(e as real, grid), Line(n as real, grid)),
                   Expand(b, grid))
  {
    GridBelow(b.west, grid, w);
    GridBelow(b.south, grid, s);
    GridAbove(b.east, grid, e);
    GridAbove(b.north, grid, n);
  }

  lemma {:induction false} GridBelow(value: real, grid: real, k: int)
    requires grid > 0.0 && Line(k as real, grid) <= value
    ensures Line(k as real, grid) <= Lower(value, grid)
  {
    var quotient := value / grid;
    Quotient(value, grid);
    LineOrder(quotient, k as real, grid);
    LineOrder(quotient.Floor as real, k as real, grid);
  }

  lemma {:induction false} GridAbove(value: real, grid: real, k: int)
    requires grid > 0.0 && value <= Line(k as real, grid)
    ensures Upper(value, grid) <= Line(k as real, grid)
  {
    var quotient := value / grid;
    Quotient(value, grid);
    LineOrder(k as real, quotient, grid);
    IntegerRounding(quotient, k);
    LineOrder(k as real, Ceiling(quotient) as real, grid);
  }

  /** The grids a service may be built with. */
  lemma {:induction false} GridsAre(grid: real)
    ensures ValidGrid(grid) <==> grid * 100.0 >= 1.0 && grid - 1.0 <= 0.0
  {
  }

  /** An ordered WGS84 viewport is accepted, and every other one is refused. */
  lemma {:induction false} AcceptedViewports(b: Box, grid: real)
    requires ValidGrid(grid)
    ensures
      var r := NormalizedBbox(Some(b), grid);
      && NormalizedBbox(None, grid) == Ok(None)
      && (r == Err(InvalidBbox) <==>
            || b.west + 180.0 < 0.0 || b.east - 180.0 > 0.0 || b.south + 90.0 < 0.0 || b.north - 90.0 > 0.0
            || b.east - b.west <= 0.0 || b.north - b.south <= 0.0)
      && (r != Err(InvalidBbox) ==> r == Ok(Some(Expand(b, grid))))
  {
  }

  /**
   Normalising a normalised box gives it back exactly when the expansion stays inside the WGS84
   range; otherwise the second call refuses it.
   */
  lemma {:induction false} NormalisingTwice(b: Box, grid: real)
    requires ValidGrid(grid) && ValidBox(b)
    ensures
      var once := NormalizedBbox(Some(b), grid).value;
      && (NormalizedBbox(once, grid) == Ok(once) <==>
          Lower(b.west, grid) >= -180.0 && Lower(b.south, grid) >= -90.0 &&
          Upper(b.east, grid) <= 180.0 && Upper(b.north, grid) <= 90.0)
      && (NormalizedBbox(once, grid) == Ok(once) || NormalizedBbox(once, grid) == Err(InvalidBbox))
  {
    ExpandContains(b, grid);
  }

  /** The lines of the grid fall on 90 degrees. */
  ghost predicate Divides(grid: real, cells: int) {
    Line(cells as real, grid) == 90.0
  }

  /** A grid that divides 90 degrees never leaves the range, so with it normalisation is idempotent. */
  lemma {:induction false} DividingGridIsIdempotent(b: Box, grid: real, cells: int)
    requires ValidGrid(grid) && ValidBox(b) && Divides(grid, cells)
    ensures NormalizedBbox(NormalizedBbox(Some(b), grid).value, grid) == NormalizedBbox(Some(b), grid)
  {
    Multiples(cells, grid);
    GridBelow(b.west, grid, -2 * cells);
    GridBelow(b.south, grid, -cells);
    GridAbove(b.east, grid, 2 * cells);
    GridAbove(b.north, grid, cells);
    NormalisingTwice(b, grid);
  }

  lemma {:induction false} Multiples(cells: int, grid: real)
    ensures Line((-cells) as real, grid) == -Line(cells as real, grid)
    ensures Line((2 * cells) as real, grid) == 2.0 * Line(cells as real, grid)
    ensures Line((-2 * cells) as real, grid) == -2.0 * Line(cells as real, grid)
  {
    var c := cells as real;
    assert (-cells) as real == -c && (2 * cells) as real == 2.0 * c && (-2 * cells) as real == -2.0 * c;
  }

  /** Normalising a valid viewport twice is normalising it once. */
  ghost predicate Idempotent(grid: real)
    requires ValidGrid(grid)
  {
    forall b :: ValidBox(b) ==>
      NormalizedBbox(NormalizedBbox(Some(b), grid).value, grid) == NormalizedBbox(Some(b), grid)
  }

  const WORLD := Box(-180.0, -90.0, 180.0, 90.0)

  /** The whole world survives a second call only if a grid line falls on 90 degrees. */
  lemma {:induction false} WholeWorldNeedsDividingGrid(grid: real) returns (cells: int)
    requires ValidGrid(grid)
    requires NormalizedBbox(NormalizedBbox(Some(WORLD), grid).value, grid) == NormalizedBbox(Some(WORLD), grid)
    ensures Divides(grid, cells)
  {
    NormalisingTwice(WORLD, grid);
    UpperBounds(90.0, grid);
    cells := Ceiling(90.0 / grid);
  }

  /** Normalisation is idempotent on all viewports exactly when the grid divides 90 degrees. */
  lemma {:induction false} IdempotentIffGridDivides(grid: real)
    requires ValidGrid(grid)
    ensures Idempotent(grid) <==> exists cells :: Divides(grid, cells)
  {
    if Idempotent(grid) {
      assert ValidBox(WORLD);
      var cells := WholeWorldNeedsDividingGrid(grid);
    }
    if cells :| Divides(grid, cells) {
      forall b | ValidBox(b)
        ensures NormalizedBbox(NormalizedBbox(Some(b), grid).value, grid) == NormalizedBbox(Some(b), grid)
      {
        DividingGridIsIdempotent(b, grid, cells);
      }
    }
  }

  /** With a grid of 0.7 degrees the whole-world box is accepted once and refused the second time. */
  lemma {:induction false} NonDividingGridRefusesItsOwnBox()
    ensures
      var once := NormalizedBbox(Some(WORLD), 0.7);
      once.Ok? && NormalizedBbox(once.value, 0.7) == Err(InvalidBbox)
  {
    var x := -180.0 / 0.7;
    assert -258.0 <= x < -257.0;
    assert x.Floor == -258;
    assert Lower(-180.0, 0.7) < -180.0;
  }
}
