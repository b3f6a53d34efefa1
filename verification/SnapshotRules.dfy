/**
 What the limits and checks of a page walk count (src/firelens/live.py:306-363): sizes, repeats and progress
 in terms of the pages themselves, and which refusal ends a run.
 */
module SnapshotRules {
  import opened Wrappers
  import opened Sequences
  import opened LiveRecords
  import opened LivePagination

  // ---------- sizes ----------

  function Sizes(rows: seq<Feature>): seq<nat> {
    if rows == [] then [] else Sizes(rows[..|rows| - 1]) + [rows[|rows| - 1].geometry.bytes]
  }

  lemma {:induction false} SizesAt(rows: seq<Feature>, i: nat)
    requires i < |rows|
    ensures |Sizes(rows)| == |rows| && Sizes(rows)[i] == rows[i].geometry.bytes
  {
    var n := |rows| - 1;
    if n > 0 {
      SizesAt(rows[..n], if i < n then i else 0);
    }
  }

  /** The bytes of rows are the sum of their sizes. */
  lemma {:induction false} TotalBytesIsSum(rows: seq<Feature>)
    ensures TotalBytes(rows) == SumOf(Sizes(rows))
  {
    if rows != [] {
      var before, last := rows[..|rows| - 1], rows[|rows| - 1];
      TotalBytesIsSum(before);
      assert rows == before + [last];
      LimitsAppend(before, [last], 0);
      LimitsAppend([last], [], 0);
      assert Sizes(rows)[..|Sizes(before)|] == Sizes(before);
    }
  }

  lemma {:induction false} FeatureLimitIff(rows: seq<Feature>, limit: nat)
    ensures WithinFeatureLimit(rows, limit) <==> forall f :: f in rows ==> f.geometry.bytes <= limit
  {
    if rows != [] {
      FeatureLimitIff(rows[1..], limit);
      assert forall f :: f in rows <==> f == rows[0] || f in rows[1..];
    }
  }

  /** An accepted snapshot has at most so many rows, none of them too large, and all together within the limit. */
  lemma {:induction false} AcceptedSnapshotIsBounded(u: Upstream, limits: Limits)
    requires Collect(u, START, limits.maxPages, limits, true).Ok?
    ensures
      var rows := Collect(u, START, limits.maxPages, limits, true).value;
      && |rows| <= limits.maxRecords
      && (forall f :: f in rows ==> f.geometry.bytes <= limits.maxFeatureBytes)
      && SumOf(Sizes(rows)) <= limits.maxResponseBytes
  {
    var rows := Collect(u, START, limits.maxPages, limits, true).value;
    SnapshotAcceptedIff(u, limits);
    TotalBytesIsSum(rows);
    FeatureLimitIff(rows, limits.maxFeatureBytes);
  }

  // ---------- new rows ----------

  function NewTo(seen: set<string>): Feature -> bool {
    (f: Feature) => f.rowId !in seen
  }

  lemma {:induction false} NewRowsSnoc(page: seq<Feature>, f: Feature, seen: set<string>)
    ensures NewRows(page + [f], seen) == if f.rowId in seen then NewRows(page, seen) else NewRows(page, seen) + [f]
  {
    if page == [] {
      assert page + [f] == [f] && [f][1..] == [] && [f] + [] == [f];
    } else {
      assert (page + [f])[1..] == page[1..] + [f];
      NewRowsSnoc(page[1..], f, seen);
    }
  }

  /** The new rows are those of the page, in order, whose identity has not been seen. */
  lemma {:induction false} NewRowsArePlaces(page: seq<Feature>, seen: set<string>)
    ensures Selects(NewRows(page, seen), page, Places(page, NewTo(seen)))
  {
    if page != [] {
      var before, last := page[..|page| - 1], page[|page| - 1];
      assert page == before + [last];
      NewRowsArePlaces(before, seen);
      NewRowsSnoc(before, last, seen);
      OneMorePlace(before, last, NewTo(seen));
      SelectsOneMore(NewRows(before, seen), before, Places(before, NewTo(seen)), last);
    }
  }

  // ---------- why a page is refused ----------

  /** The page is that of an earlier request. */
  ghost predicate IsRepeat(p: Progress, page: seq<Feature>) {
    && page != []
    && exists ids :: ids in p.seenPages && |ids| == |page| && forall i :: 0 <= i < |ids| ==> ids[i] == page[i].rowId
  }

  ghost predicate BringsNothing(p: Progress, page: seq<Feature>) {
    page != [] && forall f :: f in page ==> f.rowId in p.seenIds
  }

  ghost predicate TooMany(p: Progress, page: seq<Feature>, limits: Limits) {
    |p.features| + |Places(page, NewTo(p.seenIds))| > limits.maxRecords
  }

  ghost predicate HasLargeRow(p: Progress, page: seq<Feature>, limits: Limits) {
    exists f :: f in page && f.rowId !in p.seenIds && f.geometry.bytes > limits.maxFeatureBytes
  }

  ghost predicate TooLarge(p: Progress, page: seq<Feature>, limits: Limits) {
    p.bytes + SumOf(Sizes(NewRows(page, p.seenIds))) > limits.maxResponseBytes
  }

  lemma {:induction false} RepeatIff(p: Progress, page: seq<Feature>)
    ensures IsRepeat(p, page) <==> page != [] && RowIds(page) in p.seenPages
  {
    RowIdsAt(page);
    if IsRepeat(p, page) {
      var ids :| ids in p.seenPages && |ids| == |page| && forall i :: 0 <= i < |ids| ==> ids[i] == page[i].rowId;
      assert ids == RowIds(page);
    }
  }

  lemma {:induction false} LimitsIff(p: Progress, page: seq<Feature>, limits: Limits)
    ensures
      var added := NewRows(page, p.seenIds);
      && (BringsNothing(p, page) <==> page != [] && added == [])
      && (TooMany(p, page, limits) <==> |p.features| + |added| > limits.maxRecords)
      && (HasLargeRow(p, page, limits) <==> !WithinFeatureLimit(added, limits.maxFeatureBytes))
      && (TooLarge(p, page, limits) <==> p.bytes + TotalBytes(added) > limits.maxResponseBytes)
  {
    var added := NewRows(page, p.seenIds);
    NewRowsMembers(page, p.seenIds);
    NewRowsArePlaces(page, p.seenIds);
    FeatureLimitIff(added, limits.maxFeatureBytes);
    TotalBytesIsSum(added);
    assert added != [] ==> added[0] in added;
  }

  /** The first of five reasons that applies, in this order, refuses a page; no other reason does. */
  lemma {:induction false} RefusedExactly(p: Progress, page: seq<Feature>, limits: Limits)
    ensures
      var r := Rejection(p, page, limits, true);
      && (IsRepeat(p, page) ==> r == Some(RepeatedPage))
      && (!IsRepeat(p, page) && BringsNothing(p, page) ==> r == Some(NoProgress))
      && (!IsRepeat(p, page) && !BringsNothing(p, page) ==>
            && (TooMany(p, page, limits) ==> r == Some(RecordLimit))
            && (!TooMany(p, page, limits) ==>
                  && (HasLargeRow(p, page, limits) ==> r == Some(FeatureGeometryLimit))
                  && (!HasLargeRow(p, page, limits) ==>
                        r == if TooLarge(p, page, limits) then Some(ResponseGeometryLimit) else None)))
  {
    RepeatIff(p, page);
    LimitsIff(p, page, limits);
  }

  // ---------- what a walk knows ----------

  /** The progress after a series of pages that were all taken in. */
  function After(pages: seq<Page>): Progress {
    if pages == [] then START else Absorb(After(pages[..|pages| - 1]), pages[|pages| - 1].features)
  }

  function RowsOf(pages: seq<Page>): seq<Feature> {
    if pages == [] then [] else RowsOf(pages[..|pages| - 1]) + pages[|pages| - 1].features
  }

  lemma {:induction false} AfterFeatures(pages: seq<Page>)
    ensures After(pages).features == FirstSeen(pages) && After(pages).offset == |RowsOf(pages)|
  {
    if pages != [] {
      AfterFeatures(pages[..|pages| - 1]);
      AfterIds(pages[..|pages| - 1]);
    }
  }

  lemma {:induction false} AfterBytes(pages: seq<Page>)
    ensures After(pages).bytes == SumOf(Sizes(After(pages).features))
  {
    if pages != [] {
      var before, page := After(pages[..|pages| - 1]), pages[|pages| - 1].features;
      AfterBytes(pages[..|pages| - 1]);
      TotalBytesIsSum(before.features);
      TotalBytesIsSum(before.features + NewRows(page, before.seenIds));
      LimitsAppend(before.features, NewRows(page, before.seenIds), 0);
    }
  }

  lemma {:induction false} AfterPages(pages: seq<Page>, ids: seq<string>)
    ensures ids in After(pages).seenPages <==> exists i :: 0 <= i < |pages| && ids == RowIds(pages[i].features)
  {
    if pages != [] {
      var n := |pages| - 1;
      AfterPages(pages[..n], ids);
      if ids in After(pages[..n]).seenPages {
        var i :| 0 <= i < n && ids == RowIds(pages[..n][i].features);
        assert pages[i] == pages[..n][i];
      }
      if i :| 0 <= i < |pages| && ids == RowIds(pages[i].features) {
        assert i < n ==> pages[..n][i] == pages[i];
      }
    }
  }

  /** The rows first seen on their page, all identities and pages seen, the bytes kept, and the next offset. */
  lemma {:induction false} AfterIs(pages: seq<Page>)
    ensures
      var p := After(pages);
      && p.features == FirstSeen(pages) && p.bytes == SumOf(Sizes(p.features)) && p.offset == |RowsOf(pages)|
      && (forall id :: id in p.seenIds <==> exists f :: f in RowsOf(pages) && f.rowId == id)
      && (forall ids :: ids in p.seenPages <==> exists i :: 0 <= i < |pages| && ids == RowIds(pages[i].features))
  {
    AfterFeatures(pages);
    AfterBytes(pages);
    AfterIds(pages);
    AllIdsAre(pages);
    forall ids
      ensures ids in After(pages).seenPages <==> exists i :: 0 <= i < |pages| && ids == RowIds(pages[i].features)
    {
      AfterPages(pages, ids);
    }
  }

  lemma {:induction false} AfterIds(pages: seq<Page>)
    ensures After(pages).seenIds == AllIds(pages)
  {
    if pages != [] {
      AfterIds(pages[..|pages| - 1]);
      NewRowsCoverPage(pages[|pages| - 1].features, AllIds(pages[..|pages| - 1]));
    }
  }

  lemma {:induction false} AllIdsAre(pages: seq<Page>)
    ensures forall id :: id in AllIds(pages) <==> exists f :: f in RowsOf(pages) && f.rowId == id
  {
    if pages != [] {
      AllIdsAre(pages[..|pages| - 1]);
    }
  }

  // ---------- which refusal ends a run ----------

  /** A page that is served at the offset reached, taken in, and not the last. */
  ghost predicate GoesOn(u: Upstream, p: Progress, page: Page, limits: Limits) {
    && u(p.offset) == Ok(page) && Rejection(p, page.features, limits, true).None?
    && (page.exceeded || |page.features| >= 1000) && page.features != []
  }

  /** The pages were served one after the other, each taken in and none the last. */
  ghost predicate Walked(u: Upstream, pages: seq<Page>, limits: Limits) {
    pages != [] ==>
      && Walked(u, pages[..|pages| - 1], limits)
      && GoesOn(u, After(pages[..|pages| - 1]), pages[|pages| - 1], limits)
  }

  /** The run has the outcome of its continuation from some progress on. */
  ghost predicate Reaches(u: Upstream, p: Progress, used: nat, limits: Limits) {
    && used <= limits.maxPages
    && Collect(u, START, limits.maxPages, limits, true) == Collect(u, p, limits.maxPages - used, limits, true)
  }

  lemma {:induction false} OnePageOn(u: Upstream, p: Progress, used: nat, limits: Limits, page: Page)
    requires Reaches(u, p, used, limits) && used < limits.maxPages && GoesOn(u, p, page, limits)
    ensures Reaches(u, Absorb(p, page.features), used + 1, limits)
  {
    assert VisitPage(u, p, limits, true) == Continue(Absorb(p, page.features));
  }

  lemma {:induction false} WalkGoesOn(u: Upstream, pages: seq<Page>, limits: Limits)
    requires Walked(u, pages, limits) && |pages| <= limits.maxPages
    ensures Reaches(u, After(pages), |pages|, limits)
  {
    if pages != [] {
      var before := pages[..|pages| - 1];
      WalkGoesOn(u, before, limits);
      OnePageOn(u, After(before), |before|, limits, pages[|pages| - 1]);
    }
  }

  /** The reply after the walked pages decides: its failure, its refusal, or the kept rows if it is the last. */
  lemma {:induction false} NextReplyDecides(u: Upstream, pages: seq<Page>, limits: Limits)
    requires Walked(u, pages, limits) && |pages| <= limits.maxPages
    ensures
      var r, p := Collect(u, START, limits.maxPages, limits, true), After(pages);
      if |pages| == limits.maxPages then r == Err(PaginationLimit)
      else
        match u(p.offset)
        case Err(e) => r == Err(e)
        case Ok(page) =>
          var refused := Rejection(p, page.features, limits, true);
          && (refused.Some? ==> r == Err(refused.value))
          && (refused.None? && ((!page.exceeded && |page.features| < 1000) || page.features == []) ==>
                r == Ok(After(pages + [page]).features))
  {
    WalkGoesOn(u, pages, limits);
    if |pages| < limits.maxPages && u(After(pages).offset).Ok? {
      var page := u(After(pages).offset).value;
      assert (pages + [page])[..|pages|] == pages;
    }
  }
}
