/**
 Fetching one complete layer from an untrusted, paged upstream (`LiveDataService._refresh`,
 src/firelens/live.py:290-363).

 Every request of one run uses a different offset (`OffsetsIncrease`), and the outcome depends on the
 replies to those requests alone (`OnlyRequestedOffsetsMatter`), so a function from offsets to replies
 describes every upstream, including one that changes between requests.
 */
module LivePagination {
  import opened Wrappers
  import opened Sequences
  import opened LiveRecords

  const PAGE_SIZE: nat := 1000

  datatype Page = Page(features: seq<Feature>, exceeded: bool)

  datatype LiveError =
    | UpstreamFailure
    | RepeatedPage
    | NoProgress
    | RecordLimit
    | FeatureGeometryLimit
    | ResponseGeometryLimit
    | PaginationLimit
    | CountMismatch

  type Upstream = nat -> Result<Page, LiveError>

  datatype Limits = Limits(maxPages: nat, maxRecords: nat, maxFeatureBytes: nat, maxResponseBytes: nat)

  // ---------- vocabulary ----------

  function RowIds(features: seq<Feature>): seq<string> {
    if features == [] then [] else [features[0].rowId] + RowIds(features[1..])
  }

  function IdSet(features: seq<Feature>): set<string> {
    set f | f in features :: f.rowId
  }

  /** The rows of a page whose identity has not been seen on an earlier page. */
  function NewRows(page: seq<Feature>, seen: set<string>): seq<Feature> {
    if page == [] then []
    else if page[0].rowId in seen then NewRows(page[1..], seen)
    else [page[0]] + NewRows(page[1..], seen)
  }

  function TotalBytes(features: seq<Feature>): nat {
    if features == [] then 0 else features[0].geometry.bytes + TotalBytes(features[1..])
  }

  predicate WithinFeatureLimit(features: seq<Feature>, limit: nat) {
    features == [] || (features[0].geometry.bytes <= limit && WithinFeatureLimit(features[1..], limit))
  }

  /** After such a page the loop stops. */
  predicate IsLast(page: Page) {
    (!page.exceeded && |page.features| < PAGE_SIZE) || page.features == []
  }

  // ---------- the loop, one page at a time ----------

  datatype Progress = Progress(
    features: seq<Feature>,
    seenIds: set<string>,
    seenPages: set<seq<string>>,
    bytes: nat,
    offset: nat
  )

  const START := Progress([], {}, {}, 0, 0)

  /** Why a page is refused, in the order of the checks; `checkRepeats` switches the repeated-page check. */
  function Rejection(p: Progress, page: seq<Feature>, limits: Limits, checkRepeats: bool): Option<LiveError> {
    var added := NewRows(page, p.seenIds);
    if checkRepeats && page != [] && RowIds(page) in p.seenPages then Some(RepeatedPage)
    else if page != [] && added == [] then Some(NoProgress)
    else if |p.features| + |added| > limits.maxRecords then Some(RecordLimit)
    else if !WithinFeatureLimit(added, limits.maxFeatureBytes) then Some(FeatureGeometryLimit)
    else if p.bytes + TotalBytes(added) > limits.maxResponseBytes then Some(ResponseGeometryLimit)
    else None
  }

  function Absorb(p: Progress, page: seq<Feature>): Progress {
    var added := NewRows(page, p.seenIds);
    Progress(p.features + added, p.seenIds + IdSet(added), p.seenPages + {RowIds(page)},
             p.bytes + TotalBytes(added), p.offset + |page|)
  }

  datatype Visit = Stop(outcome: Result<seq<Feature>, LiveError>) | Continue(progress: Progress)

  /** One turn of the loop. */
  function VisitPage(u: Upstream, p: Progress, limits: Limits, checkRepeats: bool): Visit {
    match u(p.offset)
    case Err(e) => Stop(Err(e))
    case Ok(page) =>
      var refused := Rejection(p, page.features, limits, checkRepeats);
      if refused.Some? then Stop(Err(refused.value))
      else if IsLast(page) then Stop(Ok(Absorb(p, page.features).features))
      else Continue(Absorb(p, page.features))
  }

  function Collect(u: Upstream, p: Progress, budget: nat, limits: Limits, checkRepeats: bool):
    Result<seq<Feature>, LiveError>
    decreases budget
  {
    if budget == 0 then Err(PaginationLimit)
    else match VisitPage(u, p, limits, checkRepeats)
      case Stop(outcome) => outcome
      case Continue(p') => Collect(u, p', budget - 1, limits, checkRepeats)
  }

  /** The outcome of the whole walk is that of the rest of it. */
  ghost predicate Continues(whole: Result<seq<Feature>, LiveError>, u: Upstream, p: Progress, budget: nat,
                            limits: Limits) {
    whole == Collect(u, p, budget, limits, true)
  }

  lemma {:induction false} CollectStep(
    whole: Result<seq<Feature>, LiveError>, u: Upstream, p: Progress, budget: nat, limits: Limits, page: Page
  )
    requires budget > 0 && u(p.offset) == Ok(page) && Continues(whole, u, p, budget, limits)
    ensures
      var refused := Rejection(p, page.features, limits, true);
      && (refused.Some? ==> whole == Err(refused.value))
      && (refused.None? && IsLast(page) ==> whole == Ok(Absorb(p, page.features).features))
      && (refused.None? && !IsLast(page) ==> Continues(whole, u, Absorb(p, page.features), budget - 1, limits))
  {
  }

  /** The checks of one page in their order, and what the walk knows once it passes them all. */
  method TakePage(p: Progress, page: seq<Feature>, limits: Limits) returns (r: Result<Progress, LiveError>)
    ensures
      var refused := Rejection(p, page, limits, true);
      r == if refused.Some? then Err(refused.value) else Ok(Absorb(p, page))
  {
    if page != [] && RowIds(page) in p.seenPages {
      return Err(RepeatedPage);
    }
    var seenPages := p.seenPages + {RowIds(page)};
    var added := NewRows(page, p.seenIds);
    if page != [] && added == [] {
      return Err(NoProgress);
    }
    if |p.features| + |added| > limits.maxRecords {
      return Err(RecordLimit);
    }
    if !WithinFeatureLimit(added, limits.maxFeatureBytes) {
      return Err(FeatureGeometryLimit);
    }
    if p.bytes + TotalBytes(added) > limits.maxResponseBytes {
      return Err(ResponseGeometryLimit);
    }
    return Ok(Progress(
                p.features + added, p.seenIds + IdSet(added), seenPages, p.bytes + TotalBytes(added),
                p.offset + |page|));
  }

  /** The loop over the pages, the first of which is already at hand. */
  method WalkPages(u: Upstream, first: Page, limits: Limits) returns (r: Result<seq<Feature>, LiveError>)
    requires limits.maxPages >= 1 && u(0) == Ok(first)
    ensures r == Collect(u, START, limits.maxPages, limits, true)
  {
    var page, progress := first, START;
    var complete := false;
    var pageNumber := 0;
    ghost var whole := Collect(u, START, limits.maxPages, limits, true);
    while pageNumber < limits.maxPages && !complete
      invariant 0 <= pageNumber <= limits.maxPages
      invariant pageNumber == 0 && !complete ==> progress.offset == 0 && page == first
      invariant complete ==> whole == Ok(progress.features)
      invariant !complete ==> Continues(whole, u, progress, limits.maxPages - pageNumber, limits)
      decreases limits.maxPages - pageNumber, !complete
    {
      if pageNumber > 0 {
        var reply := u(progress.offset);
        if reply.Err? {
          return Err(reply.error);
        }
        page := reply.value;
      }
      var taken := TakePage(progress, page.features, limits);
      CollectStep(whole, u, progress, limits.maxPages - pageNumber, limits, page);
      if taken.Err? {
        return Err(taken.error);
      }
      progress := taken.value;
      if IsLast(page) {
        complete := true;
      } else {
        pageNumber := pageNumber + 1;
      }
    }
    return if complete then Ok(progress.features) else Err(PaginationLimit);
  }

  /** `_refresh`: metadata, first page and published count are requested together, then the pages are walked. */
  method Refresh(u: Upstream, metadataOk: bool, published: Option<nat>, limits: Limits)
    returns (r: Result<seq<Feature>, LiveError>)
    requires limits.maxPages >= 1
    ensures r == if !metadataOk || published.None? then Err(UpstreamFailure)
                 else match Collect(u, START, limits.maxPages, limits, true)
                   case Err(e) => Err(e)
                   case Ok(rows) => if |rows| == published.value then Ok(rows) else Err(CountMismatch)
  {
    if !metadataOk || published.None? {
      return Err(UpstreamFailure);
    }
    var first := u(0);
    if first.Err? {
      return Err(first.error);
    }
    var features := WalkPages(u, first.value, limits);
    if features.Err? {
      return features;
    }
    return if |features.value| == published.value then features else Err(CountMismatch);
  }

  // ---------- what an accepted run means ----------

  /** The replies from an offset on, up to and including the first last page, if there is one within the budget. */
  function Served(u: Upstream, offset: nat, budget: nat): (pages: Option<seq<Page>>)
    ensures pages.Some? ==> 1 <= |pages.value| <= budget
    decreases budget
  {
    if budget == 0 || u(offset).Err? then None
    else
      var page := u(offset).value;
      if IsLast(page) then Some([page])
      else match Served(u, offset + |page.features|, budget - 1)
        case None => None
        case Some(rest) => Some([page] + rest)
  }

  /** The rows kept from a series of pages when the identities in `seen` are already taken. */
  function Kept(pages: seq<Page>, seen: set<string>): seq<Feature> {
    if pages == [] then []
    else
      var added := NewRows(pages[0].features, seen);
      added + Kept(pages[1..], seen + IdSet(added))
  }

  /** No page consists of known rows only. */
  ghost predicate Advancing(pages: seq<Page>, seen: set<string>) {
    pages != [] ==>
      var added := NewRows(pages[0].features, seen);
      && (pages[0].features != [] ==> added != [])
      && Advancing(pages[1..], seen + IdSet(added))
  }

  ghost predicate WithinLimits(rows: seq<Feature>, limits: Limits) {
    && |rows| <= limits.maxRecords
    && WithinFeatureLimit(rows, limits.maxFeatureBytes)
    && TotalBytes(rows) <= limits.maxResponseBytes
  }

  ghost predicate Consistent(p: Progress, limits: Limits) {
    && p.bytes == TotalBytes(p.features)
    && WithinLimits(p.features, limits)
    && forall ids, i :: ids in p.seenPages && 0 <= i < |ids| ==> ids[i] in p.seenIds
  }

  lemma {:induction false} LimitsAppend(a: seq<Feature>, b: seq<Feature>, limit: nat)
    ensures TotalBytes(a + b) == TotalBytes(a) + TotalBytes(b)
    ensures |a| == 1 ==> TotalBytes(a) == a[0].geometry.bytes
    ensures WithinFeatureLimit(a + b, limit) <==> WithinFeatureLimit(a, limit) && WithinFeatureLimit(b, limit)
  {
    if a == [] {
      assert a + b == b;
    } else {
      assert (a + b)[1..] == a[1..] + b;
      LimitsAppend(a[1..], b, limit);
    }
  }

  lemma {:induction false} RowIdsAt(features: seq<Feature>)
    ensures |RowIds(features)| == |features|
    ensures forall i :: 0 <= i < |features| ==> RowIds(features)[i] == features[i].rowId
  {
    if features != [] {
      RowIdsAt(features[1..]);
    }
  }

  lemma {:induction false} NewRowsMembers(page: seq<Feature>, seen: set<string>)
    ensures forall f :: f in NewRows(page, seen) <==> f in page && f.rowId !in seen
  {
    if page != [] {
      NewRowsMembers(page[1..], seen);
    }
  }

  /** Rows that are not new were seen before, so taking in the new rows takes in the page. */
  lemma {:induction false} NewRowsCoverPage(page: seq<Feature>, seen: set<string>)
    ensures seen + IdSet(NewRows(page, seen)) == seen + IdSet(page)
    ensures IdSet(NewRows(page, seen)) !! seen
  {
    NewRowsMembers(page, seen);
    forall f | f in page && f.rowId !in seen ensures f.rowId in IdSet(NewRows(page, seen)) {
      assert f in NewRows(page, seen);
    }
  }

  lemma {:induction false} AbsorbConsistent(p: Progress, page: seq<Feature>, limits: Limits, checkRepeats: bool)
    requires Consistent(p, limits) && Rejection(p, page, limits, checkRepeats).None?
    ensures Consistent(Absorb(p, page), limits)
  {
    var added := NewRows(page, p.seenIds);
    LimitsAppend(p.features, added, limits.maxFeatureBytes);
    NewRowsCoverPage(page, p.seenIds);
    RowIdsAt(page);
    var p' := Absorb(p, page);
    forall ids, i | ids in p'.seenPages && 0 <= i < |ids| ensures ids[i] in p'.seenIds {
      if ids == RowIds(page) {
        assert page[i] in page;
      }
    }
  }

  ghost predicate Acceptable(p: Progress, pages: seq<Page>, limits: Limits) {
    Advancing(pages, p.seenIds) && WithinLimits(p.features + Kept(pages, p.seenIds), limits)
  }

  /** The run succeeds exactly on an acceptable series of pages and then returns exactly the kept rows. */
  ghost predicate AcceptedExactly(u: Upstream, p: Progress, budget: nat, limits: Limits) {
    var r, pages := Collect(u, p, budget, limits, true), Served(u, p.offset, budget);
    && (r.Ok? <==> pages.Some? && Acceptable(p, pages.value, limits))
    && (r.Ok? ==> r.value == p.features + Kept(pages.value, p.seenIds))
  }

  /**
   Soundness and completeness of acceptance: a run succeeds exactly when a last page comes within
   the page budget, every page makes progress, and the kept rows meet all three limits; it then
   returns exactly the kept rows.
   */
  lemma {:induction false} AcceptedIff(u: Upstream, p: Progress, budget: nat, limits: Limits)
    requires Consistent(p, limits)
    ensures AcceptedExactly(u, p, budget, limits)
    decreases budget
  {
    if budget > 0 {
      VisitWithoutRepeatCheck(u, p, limits);
      var visit := VisitPage(u, p, limits, true);
      if visit.Continue? {
        AcceptedIff(u, visit.progress, budget - 1, limits);
        AcceptedContinue(u, p, budget, limits);
      } else {
        AcceptedStop(u, p, budget, limits);
      }
    }
  }

  lemma {:induction false} AcceptedStop(u: Upstream, p: Progress, budget: nat, limits: Limits)
    requires Consistent(p, limits) && budget > 0 && VisitPage(u, p, limits, true).Stop?
    ensures AcceptedExactly(u, p, budget, limits)
  {
    var pages := Served(u, p.offset, budget);
    if pages.Some? {
      ServedStep(u, p.offset, budget);
      VisitedIff(u, p, pages.value, limits);
      KeptStep(p, pages.value);
    }
  }

  lemma {:induction false} AcceptedContinue(u: Upstream, p: Progress, budget: nat, limits: Limits)
    requires Consistent(p, limits) && budget > 0 && VisitPage(u, p, limits, true).Continue?
    requires AcceptedExactly(u, VisitPage(u, p, limits, true).progress, budget - 1, limits)
    ensures AcceptedExactly(u, p, budget, limits)
  {
    var pages := Served(u, p.offset, budget);
    if pages.Some? {
      ServedStep(u, p.offset, budget);
      VisitedIff(u, p, pages.value, limits);
      KeptStep(p, pages.value);
    }
  }

  lemma {:induction false} ServedStep(u: Upstream, offset: nat, budget: nat)
    requires Served(u, offset, budget).Some?
    ensures
      var pages := Served(u, offset, budget).value;
      && u(offset) == Ok(pages[0])
      && (IsLast(pages[0]) ==> |pages| == 1)
      && (!IsLast(pages[0]) ==> Served(u, offset + |pages[0].features|, budget - 1) == Some(pages[1..]))
  {
    var page := u(offset).value;
    if !IsLast(page) {
      var rest := Served(u, offset + |page.features|, budget - 1);
      assert ([page] + rest.value)[1..] == rest.value;
    }
  }

  /** Keeping rows page by page: the first page's rows, then those of the rest. */
  lemma {:induction false} KeptStep(p: Progress, pages: seq<Page>)
    requires pages != []
    ensures
      var p' := Absorb(p, pages[0].features);
      && p.features + Kept(pages, p.seenIds) == p'.features + Kept(pages[1..], p'.seenIds)
      && (|pages| == 1 ==> p.features + Kept(pages, p.seenIds) == p'.features)
  {
    var page, p' := pages[0].features, Absorb(p, pages[0].features);
    ConcatAssociative(p.features, NewRows(page, p.seenIds), Kept(pages[1..], p'.seenIds));
    assert p'.features + [] == p'.features;
  }

  /** The first page of a series is refused only if the series is unacceptable; otherwise the rest decides. */
  lemma {:induction false} VisitedIff(u: Upstream, p: Progress, pages: seq<Page>, limits: Limits)
    requires Consistent(p, limits)
    requires pages != [] && u(p.offset) == Ok(pages[0])
    ensures
      var visit, p' := VisitPage(u, p, limits, true), Absorb(p, pages[0].features);
      && (Acceptable(p, pages, limits) ==> visit == if IsLast(pages[0]) then Stop(Ok(p'.features)) else Continue(p'))
      && (visit.Stop? && visit.outcome.Ok? && |pages| == 1 ==> Acceptable(p, pages, limits))
      && (visit.Continue? ==> (Acceptable(p, pages, limits) <==> Acceptable(p', pages[1..], limits)))
  {
    var page, p' := pages[0].features, Absorb(p, pages[0].features);
    KeptStep(p, pages);
    RejectedIff(p, page, Kept(pages[1..], p'.seenIds), limits);
  }

  lemma {:induction false} NoNewRows(page: seq<Feature>, seen: set<string>)
    requires forall f :: f in page ==> f.rowId in seen
    ensures NewRows(page, seen) == []
  {
    if page != [] {
      NoNewRows(page[1..], seen);
    }
  }

  /** A repeated page carries only known identities. */
  lemma {:induction false} RepeatMakesNoProgress(p: Progress, page: seq<Feature>, limits: Limits)
    requires Consistent(p, limits)
    ensures RowIds(page) in p.seenPages ==> NewRows(page, p.seenIds) == []
  {
    RowIdsAt(page);
    if RowIds(page) in p.seenPages {
      forall f | f in page ensures f.rowId in p.seenIds {
        var i :| 0 <= i < |page| && page[i] == f;
        assert RowIds(page)[i] in p.seenIds;
      }
      NoNewRows(page, p.seenIds);
    }
  }

  /** A page refused for a limit already breaks that limit for every continuation. */
  lemma {:induction false} RejectedIff(p: Progress, page: seq<Feature>, later: seq<Feature>, limits: Limits)
    requires Consistent(p, limits)
    ensures (page != [] ==> NewRows(page, p.seenIds) != []) &&
            WithinLimits(p.features + (NewRows(page, p.seenIds) + later), limits) ==>
              Rejection(p, page, limits, true).None?
    ensures Rejection(p, page, limits, true).None? ==>
              (page != [] ==> NewRows(page, p.seenIds) != []) &&
              WithinLimits(p.features + NewRows(page, p.seenIds), limits)
  {
    var added := NewRows(page, p.seenIds);
    RepeatMakesNoProgress(p, page, limits);
    LimitsAppend(p.features, added, limits.maxFeatureBytes);
    LimitsAppend(p.features, added + later, limits.maxFeatureBytes);
    LimitsAppend(added, later, limits.maxFeatureBytes);
  }

  lemma {:induction false} VisitWithoutRepeatCheck(u: Upstream, p: Progress, limits: Limits)
    requires Consistent(p, limits)
    ensures
      var with, without := VisitPage(u, p, limits, true), VisitPage(u, p, limits, false);
      with == without || (with == Stop(Err(RepeatedPage)) && without == Stop(Err(NoProgress)))
    ensures
      var with := VisitPage(u, p, limits, true);
      with.Continue? ==> Consistent(with.progress, limits)
  {
    if u(p.offset).Ok? {
      var page := u(p.offset).value.features;
      RepeatMakesNoProgress(p, page, limits);
      if Rejection(p, page, limits, true).None? {
        AbsorbConsistent(p, page, limits, true);
      }
    }
  }

  /** Dropping the repeated-page check changes no accepted run and only the wording of one refusal. */
  lemma {:induction false} RepeatedPageCheckSubsumed(u: Upstream, p: Progress, budget: nat, limits: Limits)
    requires Consistent(p, limits)
    ensures
      var with, without := Collect(u, p, budget, limits, true), Collect(u, p, budget, limits, false);
      with == without || (with == Err(RepeatedPage) && without == Err(NoProgress))
    decreases budget
  {
    if budget > 0 {
      VisitWithoutRepeatCheck(u, p, limits);
      var visit := VisitPage(u, p, limits, true);
      if visit.Continue? {
        RepeatedPageCheckSubsumed(u, visit.progress, budget - 1, limits);
      }
    }
  }

  // ---------- identities ----------

  function AllIds(pages: seq<Page>): set<string> {
    if pages == [] then {} else AllIds(pages[..|pages| - 1]) + IdSet(pages[|pages| - 1].features)
  }

  /** The simple form: of every page, the rows whose identity is on no earlier page. */
  function FirstSeen(pages: seq<Page>): seq<Feature> {
    if pages == [] then []
    else
      var earlier := pages[..|pages| - 1];
      FirstSeen(earlier) + NewRows(pages[|pages| - 1].features, AllIds(earlier))
  }

  lemma {:induction false} AllIdsCons(pages: seq<Page>)
    requires pages != []
    ensures AllIds(pages) == IdSet(pages[0].features) + AllIds(pages[1..])
  {
    var n := |pages| - 1;
    if n == 0 {
      assert pages[..0] == [] && pages[1..] == [];
    } else {
      assert pages[..n][1..] == pages[1..][..n - 1];
      AllIdsCons(pages[..n]);
    }
  }

  lemma {:induction false} KeptSnoc(pages: seq<Page>, last: Page, seen: set<string>)
    ensures Kept(pages + [last], seen) == Kept(pages, seen) + NewRows(last.features, seen + AllIds(pages))
  {
    if pages == [] {
      assert pages + [last] == [last] && seen + {} == seen;
      assert Kept([last], seen) == NewRows(last.features, seen) + Kept([], seen + IdSet(NewRows(last.features, seen)));
    } else {
      var added := NewRows(pages[0].features, seen);
      var seen' := seen + IdSet(added);
      assert (pages + [last])[1..] == pages[1..] + [last];
      KeptSnoc(pages[1..], last, seen');
      NewRowsCoverPage(pages[0].features, seen);
      AllIdsCons(pages);
      assert seen' + AllIds(pages[1..]) == seen + AllIds(pages);
    }
  }

  /** Tracking only the identities of kept rows amounts to tracking the identities of all earlier pages. */
  lemma {:induction false} KeptIsFirstSeen(pages: seq<Page>)
    ensures Kept(pages, {}) == FirstSeen(pages)
    ensures IdSet(FirstSeen(pages)) == AllIds(pages)
  {
    if pages != [] {
      var earlier, last := pages[..|pages| - 1], pages[|pages| - 1];
      assert pages == earlier + [last] && {} + AllIds(earlier) == AllIds(earlier);
      KeptIsFirstSeen(earlier);
      KeptSnoc(earlier, last, {});
      NewRowsCoverPage(last.features, AllIds(earlier));
    }
  }

  /**
   The snapshot of a whole run: it is accepted exactly when the pages end within the page limit,
   each makes progress and the rows first seen on their page meet the limits; it consists of those rows.
   */
  lemma {:induction false} SnapshotAcceptedIff(u: Upstream, limits: Limits)
    ensures
      var r, pages := Collect(u, START, limits.maxPages, limits, true), Served(u, 0, limits.maxPages);
      && (r.Ok? <==> pages.Some? && Advancing(pages.value, {}) && WithinLimits(FirstSeen(pages.value), limits))
      && (r.Ok? ==> r.value == FirstSeen(pages.value))
  {
    AcceptedIff(u, START, limits.maxPages, limits);
    var pages := Served(u, 0, limits.maxPages);
    if pages.Some? {
      KeptIsFirstSeen(pages.value);
      assert START.features + FirstSeen(pages.value) == FirstSeen(pages.value);
    }
  }

  ghost predicate DistinctRows(rows: seq<Feature>) {
    forall i, j :: 0 <= i < j < |rows| ==> rows[i].rowId != rows[j].rowId
  }

  /** The rows kept from page `k`. */
  function KeptFrom(pages: seq<Page>, k: nat): seq<Feature>
    requires k < |pages|
  {
    NewRows(pages[k].features, AllIds(pages[..k]))
  }

  ghost predicate KeptDistinct(pages: seq<Page>, k: nat)
    requires k < |pages|
  {
    DistinctRows(KeptFrom(pages, k))
  }

  /** Identities can repeat in a snapshot, but only inside one page. */
  lemma {:induction false} RepeatsOnlyInsideOnePage(pages: seq<Page>)
    ensures DistinctRows(FirstSeen(pages)) <==> forall k :: 0 <= k < |pages| ==> KeptDistinct(pages, k)
  {
    if pages != [] {
      var n := |pages| - 1;
      RepeatsOnlyInsideOnePage(pages[..n]);
      LastPageRepeats(pages);
      assert KeptDistinct(pages, n) == DistinctRows(KeptFrom(pages, n));
      forall k | 0 <= k < n ensures KeptDistinct(pages[..n], k) == KeptDistinct(pages, k) {
        assert pages[..n][..k] == pages[..k];
      }
    }
  }

  lemma {:induction false} LastPageRepeats(pages: seq<Page>)
    requires pages != []
    ensures DistinctRows(FirstSeen(pages)) <==>
            DistinctRows(FirstSeen(pages[..|pages| - 1])) && DistinctRows(KeptFrom(pages, |pages| - 1))
  {
    var earlier := pages[..|pages| - 1];
    KeptIsFirstSeen(earlier);
    NewRowsCoverPage(pages[|pages| - 1].features, AllIds(earlier));
    DistinctConcat(FirstSeen(earlier), KeptFrom(pages, |pages| - 1));
  }

  lemma {:induction false} DistinctConcat(a: seq<Feature>, b: seq<Feature>)
    requires IdSet(a) !! IdSet(b)
    ensures DistinctRows(a + b) <==> DistinctRows(a) && DistinctRows(b)
  {
    var ab := a + b;
    assert forall i :: 0 <= i < |b| ==> ab[|a| + i] == b[i];
    assert forall i, j :: 0 <= i < |a| && 0 <= j < |b| ==> a[i].rowId in IdSet(a) && b[j].rowId in IdSet(b);
    if DistinctRows(ab) {
      forall i, j | 0 <= i < j < |b| ensures b[i].rowId != b[j].rowId {
        assert ab[|a| + i].rowId != ab[|a| + j].rowId;
      }
      forall i, j | 0 <= i < j < |a| ensures a[i].rowId != a[j].rowId {
        assert ab[i].rowId != ab[j].rowId;
      }
    }
  }

  /** Two rows of one page that share an identity are both kept: only earlier pages are consulted. */
  lemma {:induction false} RepeatInsideOnePageIsKept(f: Feature, g: Feature)
    requires f.rowId == g.rowId
    ensures FirstSeen([Page([f, g], false)]) == [f, g]
  {
    var page := Page([f, g], false);
    assert [page][..0] == [];
    assert FirstSeen([page]) == FirstSeen([]) + NewRows([f, g], {});
    assert [f, g][1..] == [g] && [g][1..] == [];
    assert NewRows([g], {}) == [g] + NewRows([], {});
  }

  // ---------- one run never asks for the same offset twice ----------

  /** The offsets a run asks for, whatever ends it. */
  function Requested(u: Upstream, p: Progress, budget: nat, limits: Limits): (offsets: seq<nat>)
    ensures |offsets| <= budget
    decreases budget
  {
    if budget == 0 then []
    else match VisitPage(u, p, limits, true)
      case Stop(_) => [p.offset]
      case Continue(p') => [p.offset] + Requested(u, p', budget - 1, limits)
  }

  /** Every request but the first asks for a strictly larger offset, in every run, accepted or not. */
  lemma {:induction false} OffsetsIncrease(u: Upstream, p: Progress, budget: nat, limits: Limits)
    ensures budget > 0 ==> Requested(u, p, budget, limits) != [] && Requested(u, p, budget, limits)[0] == p.offset
    ensures forall i, j :: 0 <= i < j < |Requested(u, p, budget, limits)| ==>
              Requested(u, p, budget, limits)[i] < Requested(u, p, budget, limits)[j]
    decreases budget
  {
    if budget > 0 && VisitPage(u, p, limits, true).Continue? {
      var next := VisitPage(u, p, limits, true).progress;
      var rest := Requested(u, next, budget - 1, limits);
      OffsetsIncrease(u, next, budget - 1, limits);
      assert next.offset > p.offset;
      assert forall j :: 0 <= j < |rest| ==> rest[0] <= rest[j];
    }
  }

  /** The outcome depends on the replies to those requests alone. */
  lemma {:induction false} OnlyRequestedOffsetsMatter(
    u: Upstream, u': Upstream, p: Progress, budget: nat, limits: Limits
  )
    requires forall offset :: offset in Requested(u, p, budget, limits) ==> u'(offset) == u(offset)
    ensures Collect(u', p, budget, limits, true) == Collect(u, p, budget, limits, true)
    ensures Requested(u', p, budget, limits) == Requested(u, p, budget, limits)
    decreases budget
  {
    if budget > 0 {
      assert p.offset in Requested(u, p, budget, limits);
      assert VisitPage(u', p, limits, true) == VisitPage(u, p, limits, true);
      if VisitPage(u, p, limits, true).Continue? {
        OnlyRequestedOffsetsMatter(u, u', VisitPage(u, p, limits, true).progress, budget - 1, limits);
      }
    }
  }
}
