/**
 Completeness of paging (src/firelens/live.py:301-363): an upstream that serves a fixed list of
 distinct rows in slices is returned exactly, as soon as the page limit covers the slices.
 */
module StableUpstream {
  import opened Wrappers
  import opened Sequences
  import opened LiveRecords
  import opened LivePagination

  /** The reply to one offset; the transfer limit is reported as exceeded while rows remain. */
  function Slice(rows: seq<Feature>, size: nat, offset: nat): Page {
    var lo := Min(offset, |rows|);
    var hi := Min(offset + size, |rows|);
    Page(rows[lo..hi], hi < |rows|)
  }

  /** Every request at or before the end is answered with its slice. */
  ghost predicate Serves(u: Upstream, rows: seq<Feature>, size: nat) {
    forall offset: nat :: offset <= |rows| ==> u(offset) == Ok(Slice(rows, size, offset))
  }

  /** The requests needed for `n` remaining rows: a full page of `PAGE_SIZE` rows always causes another request. */
  function PagesNeeded(n: nat, size: nat): (k: nat)
    requires 1 <= size <= PAGE_SIZE
    ensures k >= 1
  {
    if n <= size && n < PAGE_SIZE then 1 else 1 + PagesNeeded(n - Min(size, n), size)
  }

  /** Full pages of 1000 rows need floor(n / 1000) + 1 requests. */
  lemma {:induction false} PagesNeededFullPages(n: nat)
    ensures PagesNeeded(n, PAGE_SIZE) == n / PAGE_SIZE + 1
  {
    if n >= PAGE_SIZE {
      PagesNeededFullPages(n - PAGE_SIZE);
    }
  }

  /** Smaller pages need the least number of slices, at least one, that covers all rows. */
  lemma {:induction false} PagesNeededSmallPages(n: nat, size: nat)
    requires 1 <= size < PAGE_SIZE
    ensures (PagesNeeded(n, size) - 1) * size < n || PagesNeeded(n, size) == 1
    ensures n <= PagesNeeded(n, size) * size
  {
    if n > size {
      PagesNeededSmallPages(n - size, size);
    }
  }

  lemma {:induction false} SliceAt(rows: seq<Feature>, size: nat, offset: nat)
    requires 1 <= size <= PAGE_SIZE && offset <= |rows|
    ensures
      var page := Slice(rows, size, offset);
      && |page.features| == Min(size, |rows| - offset)
      && page.features + rows[offset + |page.features|..] == rows[offset..]
      && (IsLast(page) <==> |rows| - offset <= size && |rows| - offset < PAGE_SIZE)
  {
  }

  /** A last page comes within the budget. */
  ghost predicate Ends(u: Upstream, offset: nat, budget: nat)
    decreases budget
  {
    && budget > 0 && u(offset).Ok?
    && (IsLast(u(offset).value) || Ends(u, offset + |u(offset).value.features|, budget - 1))
  }

  lemma {:induction false} ServedIfEnds(u: Upstream, offset: nat, budget: nat)
    ensures Served(u, offset, budget).Some? <==> Ends(u, offset, budget)
    decreases budget
  {
    if budget > 0 && u(offset).Ok? && !IsLast(u(offset).value) {
      ServedIfEnds(u, offset + |u(offset).value.features|, budget - 1);
    }
  }

  predicate LastSlice(left: nat, size: nat) {
    left <= size && left < PAGE_SIZE
  }

  lemma {:induction false} EndsUnfolds(u: Upstream, rows: seq<Feature>, size: nat, offset: nat, budget: nat)
    requires 1 <= size <= PAGE_SIZE && offset <= |rows| && Serves(u, rows, size) && budget > 0
    ensures
      var left := |rows| - offset;
      Ends(u, offset, budget) <==> LastSlice(left, size) || Ends(u, offset + Min(size, left), budget - 1)
  {
    SliceAt(rows, size, offset);
    assert u(offset) == Ok(Slice(rows, size, offset));
  }

  /** The same for a number of remaining rows. */
  predicate EndsAfter(left: nat, size: nat, budget: nat) {
    budget > 0 && (LastSlice(left, size) || EndsAfter(left - Min(size, left), size, budget - 1))
  }

  lemma {:induction false} EndsByNumber(u: Upstream, rows: seq<Feature>, size: nat, offset: nat, budget: nat)
    requires 1 <= size <= PAGE_SIZE && offset <= |rows| && Serves(u, rows, size)
    ensures Ends(u, offset, budget) <==> EndsAfter(|rows| - offset, size, budget)
    decreases budget
  {
    if budget > 0 {
      var next := offset + Min(size, |rows| - offset);
      EndsUnfolds(u, rows, size, offset, budget);
      EndsByNumber(u, rows, size, next, budget - 1);
    }
  }

  /** The slices end within the budget exactly when the budget covers the needed requests. */
  lemma {:induction false} EndsIff(left: nat, size: nat, budget: nat)
    requires 1 <= size <= PAGE_SIZE
    ensures EndsAfter(left, size, budget) <==> budget >= PagesNeeded(left, size)
    decreases budget
  {
    if budget > 0 && !LastSlice(left, size) {
      EndsIff(left - Min(size, left), size, budget - 1);
    }
  }

  /** No row has an identity seen before. */
  ghost predicate Unseen(rows: seq<Feature>, seen: set<string>) {
    forall f :: f in rows ==> f.rowId !in seen
  }

  lemma {:induction false} AllRowsNew(page: seq<Feature>, seen: set<string>)
    requires Unseen(page, seen)
    ensures NewRows(page, seen) == page
  {
    if page != [] {
      assert page[0] in page;
      AllRowsNew(page[1..], seen);
    }
  }

  /** Once a slice of distinct rows has been seen, the rows behind it are still unseen. */
  lemma {:induction false} RestStaysUnseen(page: seq<Feature>, rest: seq<Feature>, seen: set<string>)
    requires DistinctRows(page + rest) && Unseen(page + rest, seen)
    ensures Unseen(page, seen) && Unseen(rest, seen + IdSet(page)) && DistinctRows(rest)
  {
    var all := page + rest;
    forall i | 0 <= i < |page| ensures page[i].rowId !in seen {
      assert all[i] in all;
    }
    forall j | 0 <= j < |rest| ensures rest[j].rowId !in seen + IdSet(page) {
      assert all[|page| + j] == rest[j] && rest[j] in all;
      forall i | 0 <= i < |page| ensures page[i].rowId != rest[j].rowId {
        assert all[i].rowId != all[|page| + j].rowId;
      }
    }
    forall i, j | 0 <= i < j < |rest| ensures rest[i].rowId != rest[j].rowId {
      assert all[|page| + i].rowId != all[|page| + j].rowId;
    }
  }

  /** The pages bring exactly the given rows, and each of them makes progress. */
  ghost predicate BringsAll(pages: seq<Page>, seen: set<string>, rows: seq<Feature>) {
    Kept(pages, seen) == rows && Advancing(pages, seen)
  }

  lemma {:induction false} PageBringsAll(pages: seq<Page>, seen: set<string>, rest: seq<Feature>)
    requires pages != [] && Unseen(pages[0].features, seen)
    requires BringsAll(pages[1..], seen + IdSet(pages[0].features), rest)
    ensures BringsAll(pages, seen, pages[0].features + rest)
  {
    AllRowsNew(pages[0].features, seen);
  }

  /** The pages served from an offset on: the slice there, and the pages behind it unless it is the last. */
  lemma {:induction false} SlicesStep(u: Upstream, rows: seq<Feature>, size: nat, offset: nat, budget: nat)
    requires 1 <= size <= PAGE_SIZE && offset <= |rows| && Serves(u, rows, size) && Served(u, offset, budget).Some?
    ensures
      var pages := Served(u, offset, budget).value;
      var page := pages[0].features;
      var next := offset + |page|;
      && next <= |rows| && page + rows[next..] == rows[offset..]
      && (IsLast(pages[0]) ==> pages[1..] == [] && rows[next..] == [])
      && (!IsLast(pages[0]) ==> budget > 0 && Served(u, next, budget - 1) == Some(pages[1..]))
  {
    ServedStep(u, offset, budget);
    SliceAt(rows, size, offset);
    assert u(offset) == Ok(Slice(rows, size, offset));
  }

  /** Behind the first slice the rows are distinct and unseen again. */
  lemma {:induction false} SliceUnseen(
    u: Upstream, rows: seq<Feature>, size: nat, offset: nat, budget: nat, seen: set<string>
  )
    requires 1 <= size <= PAGE_SIZE && offset <= |rows| && Serves(u, rows, size)
    requires DistinctRows(rows[offset..]) && Unseen(rows[offset..], seen) && Served(u, offset, budget).Some?
    ensures
      var page := Served(u, offset, budget).value[0].features;
      var next := offset + |page|;
      && next <= |rows| && page + rows[next..] == rows[offset..] && Unseen(page, seen)
      && DistinctRows(rows[next..]) && Unseen(rows[next..], seen + IdSet(page))
  {
    SlicesStep(u, rows, size, offset, budget);
    var page := Served(u, offset, budget).value[0].features;
    RestStaysUnseen(page, rows[offset + |page|..], seen);
  }

  lemma {:induction false} SlicesBringAll(
    u: Upstream, rows: seq<Feature>, size: nat, offset: nat, budget: nat, seen: set<string>
  )
    requires 1 <= size <= PAGE_SIZE && offset <= |rows| && Serves(u, rows, size)
    requires DistinctRows(rows[offset..]) && Unseen(rows[offset..], seen) && Served(u, offset, budget).Some?
    ensures BringsAll(Served(u, offset, budget).value, seen, rows[offset..])
    decreases budget
  {
    var pages := Served(u, offset, budget).value;
    var page := pages[0].features;
    var next := offset + |page|;
    SliceUnseen(u, rows, size, offset, budget, seen);
    assert BringsAll(pages[1..], seen + IdSet(page), rows[next..]) by {
      SlicesStep(u, rows, size, offset, budget);
      if IsLast(pages[0]) {
        assert BringsAll([], seen + IdSet(page), []);
      } else {
        SlicesBringAll(u, rows, size, next, budget - 1, seen + IdSet(page));
      }
    }
    PageBringsAll(pages, seen, rows[next..]);
  }

  lemma {:induction false} AllSlicesKept(u: Upstream, rows: seq<Feature>, size: nat, budget: nat)
    requires 1 <= size <= PAGE_SIZE && DistinctRows(rows) && Serves(u, rows, size) && Served(u, 0, budget).Some?
    ensures
      var pages := Served(u, 0, budget).value;
      FirstSeen(pages) == rows && Advancing(pages, {})
  {
    assert rows[0..] == rows;
    SlicesBringAll(u, rows, size, 0, budget, {});
    KeptIsFirstSeen(Served(u, 0, budget).value);
  }

  /**
   Distinct rows served in slices are returned exactly, and only then: the run succeeds if and only
   if the page limit covers the needed requests and the rows as a whole meet the limits.
   */
  lemma {:induction false} StableUpstreamIsReturned(u: Upstream, rows: seq<Feature>, size: nat, limits: Limits)
    requires 1 <= size <= PAGE_SIZE && DistinctRows(rows) && Serves(u, rows, size)
    ensures
      var r := Collect(u, START, limits.maxPages, limits, true);
      && (r.Ok? <==> limits.maxPages >= PagesNeeded(|rows|, size) && WithinLimits(rows, limits))
      && (r.Ok? ==> r.value == rows)
  {
    SnapshotAcceptedIff(u, limits);
    ServedIfEnds(u, 0, limits.maxPages);
    EndsByNumber(u, rows, size, 0, limits.maxPages);
    EndsIff(|rows|, size, limits.maxPages);
    if Served(u, 0, limits.maxPages).Some? {
      AllSlicesKept(u, rows, size, limits.maxPages);
    }
  }
}
