# FireLens verification model

A Dafny model of the parts of FireLens whose behaviour is decided by loops, shared state and
cross-checked contracts, with proofs of what they promise.

**Live records** (`src/firelens/live.py` and its helpers)
: `LivePagination`, `SnapshotRules`, `StableUpstream` - walking an untrusted, paged upstream and accepting a
  snapshot, and the rules of acceptance counted row by row.
  `LiveCache`, `CacheRuns` - the cache bounded by entries and by features.
  `LiveAccess`, `LiveAccessRuns`, `LiveAccessProgress` - concurrent `_features` calls as a state machine: calls,
  lock acquisition, refresh outcomes, cancellation and the passing of time, interleaved in any order; what every
  run keeps, and what every action must bring about.
  `LiveBbox` - snapping a viewport outward onto the cache grid.
  `LiveIdentity` - record IDs. `LiveAdmission`, `LiveAdmissionLaws`, `PublishedRows` - admitting or omitting rows, and
  exactly which rows are published.
  `GridFetch`, `RosterOrder`, `GridRoster` - what the snapped viewport answers in place of the exact one, and
  in which order its roster lists the records.
  `LiveContracts`, `ResponseRules`, `LiveMap`, `NearMe` - response models and what their validators accept, the
  composed map, and pages of nearby records.

**Requests and answers**
: `RequestGuard`, `RequestGuardRuns`, `RequestEviction` - the anonymous rate limiter, with and without eviction.
  `ProofCards`, `ProofPresentation`, `ProofAttaching`, `ProofFacts` - proof cards, the authority they may carry,
  when attaching them succeeds, and what they and the lists beside them show.
  `AssistantHistory`, `AuthorityPrefix`, `HistoryFacts` - the bounded transcript of an answer, what opens it, and
  how both read.
  `AnswerComposition`, `LiveAnswering`, `AnswerFacts` - how sections make up an answer, what the validators accept,
  and the accepted texts written out.

**Self-contained algorithms**
: `ImpactAnalysis` (import-graph search), `CorpusAdmission`, `CorpusAudit` (quarantine),
  `RankingMetrics`, `BakeOff`, `BakeOffBudget`, `BakeOffTotal`, `ArcgisGeometry`.

`LiveRecords`, `AnswerKinds`, `Sequences` and `Wrappers` hold shared vocabulary. The upstream is an
arbitrary function from an offset to a reply, the geometry library and the text of single cards are
parameters, and times and coordinates are exact numbers. Code that works by updating state is a method
or a class; its contract equates the result with a specification function, and the lemmas speak about
that function. Every lemma carries `{:induction false}`: its body is its whole proof.

`dafny verify dfyconfig.toml` checks the project.

## Results that differ from what one might expect

- The rate limiter admits at most 2 * limit - 1 requests of one key in any half-open window length, one
  fewer than the usual figure, and that number is attained. The bound holds for every key whose live window
  is never evicted, full table or not. Eviction breaks it without limit: a crowd that fills the table lets
  one client in any number of times within one window.
- Snapping a viewport is idempotent on all viewports exactly when the grid divides 90 degrees. Any other grid
  refuses the snapped whole-world box on a second call.
- Record IDs are distinct exactly when no key reads like the numbered form of a repeated key.
- The snapped fetch publishes the records of the exact one up to the numbers in their IDs. These numbers never
  shrink, so an ID can grow beyond 200 characters: in partial mode that is the only way in which the snapped
  fetch fails where the exact one answers. In strict mode an invalid geometry in the margin is the other.
  Records keep their IDs exactly where no earlier row of their key lies in the margin. Numbers also decide the
  order of the roster, because `#10` sorts before `#9`: both rosters list the rows in the same order exactly
  when every pair of numbered keys compares alike. One evacuation order of nine polygons and one more in the
  margin is listed in two different orders.
- Two rows of one page may share an identity, and both are kept; repeats never cross pages.
- `retry_after` can fall short of the window end by less than a millisecond; the exact condition is proved.
- Attaching proof fields twice differs from attaching once in exactly two cases: all cards in place were
  orphans; or cards were built from records of which a later one has the same ID and shows something else.
- A card built for a claim has no derivation, so it cannot state a distance: attaching raises. A rejected
  response with such a claim raises instead of becoming neutral; the exact condition is proved.
- The grammars of live answers and of conflict answers agree except for one added handoff section or an
  unapproved conflict text. A missing answer passes as the conflict answer of a list without rendering.
- The bake-off never counts what unanswerable searches cost. What its retrieval really costs keeps the budget
  exactly when not even one search can be reserved, or the case limit times the reservation fits the budget.
  Retrieval and generation together keep it exactly when moreover the calls of all models behind all cases but
  one fit beside them, or searches are free.
- Guidance and background texts are never shortened, so only conflict texts and redirects can be made to fit
  the public limit; the exact length condition is proved for every branch.

## Model

| member | source | states |
|---|---|---|
| LivePagination.Refresh | src/firelens/live.py:290-370 | refuses without metadata or published count; otherwise returns the outcome of the page walk, and only with exactly the published number of rows |
| LivePagination.WalkPages | src/firelens/live.py:306-353 | the loop over pages has the outcome of the page-by-page specification for every upstream |
| LivePagination.TakePage | src/firelens/live.py:309-352 | the checks of one page in their order, and the knowledge carried to the next page |
| LivePagination.AcceptedIff | src/firelens/live.py:306-363 | from any reachable state the walk succeeds exactly when a last page comes within the budget, every page makes progress and the kept rows meet all three limits; it then returns exactly the kept rows |
| LivePagination.SnapshotAcceptedIff | src/firelens/live.py:301-363 | the same for a whole run, in terms of the rows first seen on their page |
| LivePagination.RepeatedPageCheckSubsumed | src/firelens/live.py:310-319 | removing the repeated-page check changes no accepted run and only the wording of one refusal |
| LivePagination.KeptIsFirstSeen | src/firelens/live.py:313-317 | tracking the identities of kept rows is the same as tracking those of all earlier pages |
| LivePagination.RepeatsOnlyInsideOnePage | src/firelens/live.py:313-317 | the identities of a snapshot are distinct exactly when those kept from each single page are |
| LivePagination.RepeatInsideOnePageIsKept | src/firelens/live.py:313-317 | two rows of one page with the same identity are both kept |
| LivePagination.OffsetsIncrease | src/firelens/live.py:306-352 | in every run, whatever ends it, each request asks for a strictly larger offset than all before it |
| LivePagination.OnlyRequestedOffsetsMatter | src/firelens/live.py:306-352 | the requests and the outcome of a run depend on the replies at the requested offsets alone |
| SnapshotRules.AcceptedSnapshotIsBounded | src/firelens/live.py:320-343 | every accepted snapshot has at most `max_records` rows, no row above the feature limit, and a sum of all row sizes within the response limit |
| SnapshotRules.TotalBytesIsSum | src/firelens/live.py:326-343 | the bytes of rows are the sum of the separate sequence of their sizes |
| SnapshotRules.FeatureLimitIff | src/firelens/live.py:335-339 | rows meet the feature limit exactly when every single one does |
| SnapshotRules.NewRowsArePlaces | src/firelens/live.py:313-317 | the kept rows of a page are exactly those at the places of unseen identities, in order |
| SnapshotRules.RefusedExactly | src/firelens/live.py:310-343 | each refusal of a page has its own condition on its rows, in the order of the checks |
| SnapshotRules.NextReplyDecides | src/firelens/live.py:306-363 | after any walked pages the next reply decides: its failure, its refusal, or the kept rows if it is the last |
| StableUpstream.StableUpstreamIsReturned | src/firelens/live.py:301-363 | an upstream that serves distinct rows in slices is returned exactly, if and only if the page limit covers the needed requests and the rows meet the limits |
| StableUpstream.PagesNeededFullPages | src/firelens/live.py:348-352 | n rows in pages of 1000 need floor(n / 1000) + 1 requests |
| StableUpstream.PagesNeededSmallPages | src/firelens/live.py:348-352 | smaller pages need the least number of slices that covers the rows, at least one |
| LiveCache.CreateService | src/firelens/live.py:73-123 | a service is built exactly when every limit check passes, and is then valid and empty with the given options |
| LiveCache.LiveDataService.constructor | src/firelens/live.py:73-123 | the new service is valid, empty and carries its options |
| LiveCache.LiveDataService.CacheGet | src/firelens/live.py:194-198 | returns the entry of the key and makes it the most recently used; nothing else changes |
| LiveCache.LiveDataService.CachePut | src/firelens/live.py:200-211 | stores the entry as most recently used and evicts from the least recently used end; the feature counter stays the sum of the stored lengths and both bounds hold again |
| LiveCache.WithoutRemoves | src/firelens/live.py:201-203 | removing a key removes exactly its slot and its weight |
| CacheRuns.EvictionIsMinimal | src/firelens/live.py:206-211 | eviction removes the shortest prefix that makes the rest fit |
| CacheRuns.StoredEntrySurvivesIff | src/firelens/live.py:200-211 | an entry survives its own store exactly when it fits the feature bound alone |
| CacheRuns.RefreshedSnapshotSurvives | src/firelens/live.py:394-395 | every snapshot that paging accepts survives being stored, by the constructor's `max_cached_features >= max_records` |
| CacheRuns.RefreshedSnapshotIsBounded | src/firelens/live.py:320-343 | it also keeps the record limit, the feature limit and the response limit the service was built with |
| CacheRuns.RunExplained | src/firelens/live.py:194-211 | after any run of gets and puts both bounds hold, keys are ordered from least to most recently used, and every resident entry is the one stored last |
| CacheRuns.RunStaysBounded | src/firelens/live.py:206-211 | after any run at most `max_cache_entries` entries are stored, and the sum of their feature counts is within `max_cached_features` |
| CacheRuns.StoreKeepsEntries | src/firelens/live.py:200-211 | after any run a stored entry is resident exactly when it fits the feature bound alone, nothing else appears, and nothing is evicted while there is room |
| CacheRuns.LookupKeepsEntries | src/firelens/live.py:194-198 | after any run a lookup keeps all entries, and the one found becomes the most recently used |
| CacheRuns.EvictionIsLeastRecentlyUsed | src/firelens/live.py:206-211 | an evicted entry was used less recently than every entry left resident |
| LiveAccessRuns.EveryRunIsJustified | src/firelens/live.py:372-412 | in every interleaving each event of the log is justified by the events before it, and the state matches the log |
| LiveAccessRuns.OneRefreshPerKind | src/firelens/live.py:386-396 | two refreshing calls of one kind are the same call |
| LiveAccessRuns.RefreshesDoNotOverlap | src/firelens/live.py:386-396 | between two starts of one kind the first refresh has ended |
| LiveAccessRuns.NoRefreshInsideFreshWindow | src/firelens/live.py:379-392 | inside the fresh window of a stored snapshot no refresh of its key starts, unless the snapshot was evicted |
| LiveAccessRuns.FreshIsHonest | src/firelens/live.py:380-396 | a FRESH answer was fetched by its own call at that moment, or stored under the same key at most `fresh_seconds` ago |
| LiveAccessRuns.StaleIsHonest | src/firelens/live.py:397-409 | a STALE answer follows the failure of this call's refresh, and its age lies above `fresh_seconds` and within `stale_if_error_seconds` |
| LiveAccessProgress.CallReturns | src/firelens/live.py:378-385 | in every reachable state a new call whose key has an entry within `fresh_seconds` is answered FRESH with it at once |
| LiveAccessProgress.CallWaits | src/firelens/live.py:378-386 | any other new call waits for the lock of its kind |
| LiveAccessProgress.AcquireReturnsFresh | src/firelens/live.py:386-392 | a waiting call that gets the free lock and finds a fresh entry by then returns it and leaves |
| LiveAccessProgress.AcquireRefreshes | src/firelens/live.py:386-394 | otherwise it starts a refresh and holds the lock |
| LiveAccessProgress.SucceedReturns | src/firelens/live.py:393-396 | a finished refresh is logged, returned FRESH to its own call, and the call leaves with its lock; only evictions follow |
| LiveAccessProgress.SucceedStores | src/firelens/live.py:393-396 | its snapshot is stored if it fits the feature bound, and evicts nothing while there is room |
| LiveAccessProgress.FailReturnsStale | src/firelens/live.py:397-409 | a failed refresh with an entry within `stale_if_error_seconds` is logged and answered STALE with that entry |
| LiveAccessProgress.FailRaises | src/firelens/live.py:397-412 | a failed refresh without one is logged and raises |
| LiveAccessProgress.CacheIsInOrderOfUse | src/firelens/live.py:372-412 | however calls interleave, the cache is ordered by last use, holds what was stored last, and keeps both bounds |
| LiveAccessProgress.CallsAreAccountedFor | src/firelens/live.py:372-412 | in every run the accepted calls of an ID are its answers, its cancellations and the one in progress: no call is lost or answered twice |
| LiveAccessProgress.EveryCallCanBeAnswered | src/firelens/live.py:372-412 | from every reachable state at most three actions answer a given call in progress |
| LiveBbox.ExpandContains | src/firelens/live.py:182-192 | the snapped box contains the input, widens each side by less than one cell, and snapping it again changes nothing |
| LiveBbox.ExpandIsLeast | src/firelens/live.py:182-192 | it lies inside every grid-aligned box that contains the input |
| LiveBbox.AcceptedViewports | src/firelens/live.py:168-181 | exactly the ordered boxes inside the WGS84 range are accepted, and then expanded |
| LiveBbox.NormalisingTwice | src/firelens/live.py:168-192 | a second call returns the same box exactly when the snapped box is inside the WGS84 range, and refuses it otherwise |
| LiveBbox.DividingGridIsIdempotent | src/firelens/live.py:168-192 | with a grid that divides 90 degrees normalisation is idempotent |
| LiveBbox.IdempotentIffGridDivides | src/firelens/live.py:168-192 | for every valid grid, normalising any viewport twice equals normalising it once if and only if a whole number of cells makes 90 degrees |
| LiveBbox.NonDividingGridRefusesItsOwnBox | src/firelens/live.py:168-192 | with a grid of 0.7 degrees the whole-world box is accepted once and refused the second time |
| LiveIdentity.AssignRecordIds | src/firelens/live_identity.py:62-85 | the two passes yield, for each row in order, its kind, its key and the number of its occurrence |
| LiveIdentity.CountKeys | src/firelens/live_identity.py:73-75 | the first pass counts the rows of every key |
| LiveIdentity.IdsRead | src/firelens/live_identity.py:76-85 | the first row of a key reads `kind:key`, a row behind n others of its key `kind:key#(n + 1)` |
| LiveIdentity.DecimalIs | src/firelens/live_identity.py:82-83 | the number is written in decimal digits without a leading zero |
| LiveIdentity.IdsDistinctIffNoForgedSuffix | src/firelens/live_identity.py:62-85 | IDs are pairwise distinct if and only if no key equals a repeated key plus one of its used suffixes |
| LiveIdentity.UniqueKeyIdStable | src/firelens/live_identity.py:79-81 | a key that occurs once has the same ID in every fetch, whatever the other rows and their order |
| LiveIdentity.RepeatedKeyIdDependsOnOtherRows | src/firelens/live_identity.py:79-84 | in any two fetches, rows of one key have the same ID exactly when equally many rows of that key come before them |
| LiveAdmission.MapLayerResults | src/firelens/live_admission.py:26-121 | a failing source makes the layer unavailable; otherwise the outcome is the declarative one for the rows and the IDs of that fetch |
| LiveAdmission.AdmitRows | src/firelens/live_admission.py:39-120 | the loop with its early returns yields the first blocking row in fetch order, or all admitted records with their omission counts |
| PublishedRows.PublishesExactlyThose | src/firelens/live_admission.py:39-120 | an unblocked layer publishes exactly the rows that have not ended, that for evacuations are not about another hazard and have a known status, whose status was asked for, and whose valid geometry meets the bounds: each once, in fetch order, with the ID of its place |
| PublishedRows.ClassifiedExactly | src/firelens/live_admission.py:39-100 | each way to treat a row has its own condition on status texts, event type, question and geometry |
| PublishedRows.OutcomeIs | src/firelens/live_admission.py:26-121 | a layer is unavailable for its source or its first blocking row; otherwise its status says when and how fresh it was fetched, how many records it has, and how many rows of each kind it leaves out |
| LiveAdmissionLaws.EveryRowIsAccountedFor | src/firelens/live_admission.py:39-120 | the published records and both published omission counts of an available layer leave exactly the fetched rows that are inactive, not about fire, not asked for or outside |
| LiveAdmissionLaws.ResultsAreAdmittedRows | src/firelens/live_admission.py:39-120 | an unblocked layer publishes exactly its admitted rows, in fetch order |
| LiveAdmissionLaws.StrictIsPartialWithoutOmissions | src/firelens/live_admission.py:80-100 | strict mode is available exactly when partial mode is and omits no geometry, and then publishes the same layer |
| LiveAdmissionLaws.DecidedGeometryIsIrrelevant | src/firelens/live_admission.py:39-80 | replacing the geometry of an inactive, non-fire, unrequested or unknown-status row changes nothing |
| GridFetch.WiderFetchAdmitsTheSame | src/firelens/live_admission.py:39-120 | a wider envelope admits the same rows in the same order, no number of an admitted row and no omission count shrinks |
| GridFetch.SnappedAvailableIff | src/firelens/live_admission.py:26-121 | in partial mode the snapped fetch is available if and only if the exact one is and no admitted row's numbered ID exceeds 200 characters |
| GridFetch.GridFetchAnswersExactQuery | src/firelens/live.py:168-192 | then both publish the same records in the same order, each pair of IDs being the kind and key with numbers n <= m, and omission counts do not shrink |
| GridFetch.NumberingCanOverflow | src/firelens/live_identity.py:62-85 | for every key of 191 characters a viewport whose exact fetch answers while the number 2 of the snapped fetch blocks the layer |
| GridFetch.SameAnswerIff | src/firelens/live_identity.py:62-85 | both answers are the very same records if and only if no admitted row has an earlier row of its key that only the snapped box reaches |
| GridFetch.StrictSnappedAvailableIff | src/firelens/live_admission.py:80-100 | in strict mode the snapped fetch is available if and only if the exact one is, no ID exceeds its bound, and no undecided row that only the snapped box reaches has an invalid geometry |
| GridFetch.StrictMarginCanBlock | src/firelens/live_admission.py:80-100 | one undecided row with an invalid geometry that only the snapped box reaches makes the snapped layer unavailable in strict mode, whatever else is fetched |
| RosterOrder.SortListsInOrder | src/firelens/live.py:519-587 | the sorted roster reads the records at the places of the stable order of their comparison |
| RosterOrder.SameOrderIff | src/firelens/live.py:519-587 | the stable orders of two comparisons are equal if and only if the comparisons agree on every pair of places |
| RosterOrder.LayerPartOfRoster | src/firelens/live.py:519-587 | in a map of distinct layers the part of one layer is its own sorted roster |
| GridRoster.RosterOrderKeptIff | src/firelens/live.py:519-587 | for an available snapped fetch the rosters list the admitted rows in the same order if and only if, for every pair, key and number compare alike in both fetches; with distinct IDs no other order could list both |
| GridRoster.PlainNumbersKeepOrder | src/firelens/live_identity.py:79-84 | the order is kept if no number has two digits and no admitted key begins with another |
| GridRoster.SortedOrderCanDiffer | src/firelens/live.py:519-587 | for every order of nine or more polygons inside the viewport and one in the margin, both fetches answer with distinct IDs and no order lists both rosters |
| LiveAdmissionLaws.OutcomeIsSound | src/firelens/live_contracts.py:361-405 | every layer outcome passes the status and record validators and counts exactly its records |
| LiveMap.MapResults | src/firelens/live.py:519-587 | a response exists exactly for distinct layers; it equals the composed map and passes every check of its model |
| LiveMap.ComposedMapValidIff | src/firelens/live_contracts.py:455-497 | for all layer outcomes the composed map is valid if and only if the layers are distinct |
| LiveMap.CombinedIs | src/firelens/live.py:519-587 | the statuses are those of all layers in order, and the records exactly those of the layers without a reason |
| LiveMap.AggregateFreshnessIs | src/firelens/live_contracts.py:444-452 | no label without records, the common freshness of all records, or mixed when both occur |
| ResponseRules.MapAcceptedIff | src/firelens/live_contracts.py:455-497 | a map response is accepted exactly when records and statuses are, the label fits the records, the lists name the layers at the places of partial and of missing statuses, kinds differ, and every status counts the places of its records |
| ResponseRules.StatusAcceptedIff | src/firelens/live_contracts.py:361-405 | an observed layer has all three observations and is not fresh with a clock more than five minutes ahead; an unobserved one has none, no records and no omissions |
| ResponseRules.ResultAcceptedIff | src/firelens/live_contracts.py:279-358 | a record has an ID of 1 to 200 characters and is not fresh with a clock more than five minutes ahead |
| LiveMap.SortSorts | src/firelens/live.py:519-587 | the published roster is in (kind, result ID) order |
| LiveMap.SortPermutes | src/firelens/live.py:519-587 | sorting loses and invents no record |
| LiveMap.LexIs | src/firelens/live.py:519-587 | IDs are compared at their first difference, and a beginning comes first |
| LiveMap.KindsAreAlphabetical | src/firelens/live.py:519-587 | kinds are ordered as their values are |
| NearMe.NearbyFull | src/firelens/live.py:589-647 | the unvalidated copy holds exactly the records of the response whose geometry is inside or nearby, each at its place in order and with that relation, and passes every check of the map model |
| NearMe.CopyIsValid | src/firelens/live.py:630-647 | the copy made without validation satisfies each check that validation would have made |
| NearMe.RecountTotals | src/firelens/live_contracts.py:587-618 | the counts of distinct layers add up to the roster |
| NearMe.NearbyPage | src/firelens/live.py:663-734 | out-of-range pages and an empty layer list are refused; any other request gets a valid page whose records are those at the page's places in the roster of inside and nearby records, with the page numbers that follow from it, whatever the layers returned |
| NearMe.PagesMakeUpRoster | src/firelens/live_contracts.py:525-546 | pages 1 to `total_pages` concatenate to exactly the roster, and exactly the pages beyond are empty |
| NearMe.RelatedShowsNear | src/firelens/live.py:613-626 | related records are exactly those at the rising places where the relation is inside or nearby, changed in nothing but their relation |
| ResponseRules.NearMeAcceptedIff | src/firelens/live_contracts.py:566-616 | a page near a place is accepted exactly when its records, statuses and page numbers are, its lists restate the statuses in the order asked for, and the counts add up |
| ResponseRules.PageAcceptedIff | src/firelens/live_contracts.py:525-546 | page numbers are accepted exactly when the number of pages is the least that holds all results and the flags say whether pages come before and after |
| RequestGuard.AnonymousRequestGuard.CheckRequest | src/firelens/request_guard.py:69-102 | the table and the decision after a call are those of the specification: sweep, make room, count |
| RequestGuard.AnonymousRequestGuard.CountRequest | src/firelens/request_guard.py:91-102 | counts the request in the key's window or refuses it, and touches no other window |
| RequestGuard.CountIs | src/firelens/request_guard.py:91-102 | a request is allowed exactly below the limit and then uses one; a denial uses none; a window that has run out starts again with the request |
| RequestGuardRuns.RemainingIsExact | src/firelens/request_guard.py:91-102 | n requests of a key within its window leave `limit - n`, and beyond the limit every one is denied with 0 remaining |
| RequestGuard.AnonymousRequestGuard.Expire | src/firelens/request_guard.py:72-78 | removes exactly the expired windows |
| RequestGuard.AnonymousRequestGuard.OpenWindow | src/firelens/request_guard.py:81-89 | opens a window for a new key, at capacity in place of the oldest |
| RequestGuard.FindOldest | src/firelens/request_guard.py:83-86 | finds the first key, in insertion order, of least start time |
| RequestGuard.OldestIsOldest | src/firelens/request_guard.py:83-86 | no window in the table started before the evicted one |
| RequestGuardRuns.ResetIsUnreachable | src/firelens/request_guard.py:91-95 | for a positive window the window a call counts in has never run out |
| RequestGuardRuns.TableStaysBounded | src/firelens/request_guard.py:80-89 | the table keeps within `max_clients` |
| RequestGuardRuns.RetryReachesWindowEnd | src/firelens/request_guard.py:97-99 | a denial's `retry_after` reaches beyond the window end less one millisecond |
| RequestGuardRuns.RetryCoversIff | src/firelens/request_guard.py:98 | `retry_after` covers the remaining time exactly when that is at most a second, whole, or has a fraction of at least 0.001 |
| RequestGuardRuns.RetryCanFallShort | src/firelens/request_guard.py:98 | with 10.0005 seconds left the client is told 10 |
| RequestGuardRuns.InStepIff | src/firelens/request_guard.py:69-102 | for every key of every run in time order, each prefix leaves the table in agreement with an unbounded memory exactly when no request evicts a live window of that key |
| RequestGuardRuns.RefinesUnboundedLimiter | src/firelens/request_guard.py:69-102 | as long as the window of a request's own key has not been evicted, full table or not, its decision is that of an unbounded per-key fixed-window counter |
| RequestGuardRuns.SlidingBound | src/firelens/request_guard.py:69-102 | for such a key no half-open interval of one window length admits more than 2 * limit - 1 of its requests |
| RequestGuardRuns.BoundIsAttained | src/firelens/request_guard.py:91-102 | a run of one client that never fills the table is admitted 2 * limit - 1 times within one window length, for every limit and window |
| RequestGuardRuns.EvictionVoidsTheBound | src/firelens/request_guard.py:82-87 | with one slot a second client's request lets the first one in again beyond its limit |
| RequestEviction.EvictionAdmitsAnyNumber | src/firelens/request_guard.py:80-89 | for every configuration, every crowd that fills the table and every n there is a run that admits one client n times within one window |
| ProofCards.PreservedCardSettles | src/firelens/proof_presentation.py:238-287 | an owned card, once kept, is valid, still owned, and kept unchanged the next time |
| ProofCards.ClaimCardSettles | src/firelens/proof_presentation.py:198-235 | a card built from a claim is one that keeping leaves as it is |
| ProofCards.LiveCardStaysIff | src/firelens/proof_presentation.py:238-349 | a card built from a record is left as it is exactly when the last record of the same ID shows the same |
| ProofCards.ReboundSettles | src/firelens/proof_presentation.py:299-327 | a rebound card finds the same record again and is rebound to itself |
| ProofAttaching.AttachedIff | src/firelens/proof_presentation.py:65-287 | attaching succeeds if and only if every claim or record to be built, shown or not, and every owned card in place can be shown: no text that is neutralised or built for a claim states a distance, a text built or bound for a record does so only with that record's derivation, live IDs are present and bound, and the other card checks pass |
| ProofAttaching.RejectedAttachesIff | src/firelens/proof_presentation.py:190-235 | a rejected response whose neutral cards pass all other checks is neutralised exactly when none of its claims, or without claims none of its titles, states a distance |
| ProofAttaching.RejectionRaisesOnDistance | src/firelens/proof_contracts.py:79-112 | a valid card with the derivation of its claim's distance is kept while the response is accepted; after a rejection attaching raises |
| ProofPresentation.ProofFields.Attach | src/firelens/proof_presentation.py:65-88 | the fields after attaching, in place, are those of the specification; when a card raises, the cards stay |
| ProofPresentation.AttachingTwiceIff | src/firelens/proof_presentation.py:65-103 | attaching twice equals attaching once if and only if not all cards in place were orphans of a response with something to show and, where cards are built from records, each of the first twelve shows the same as the last record of its ID |
| ProofPresentation.SharedIdIsRebound | src/firelens/proof_presentation.py:75-88 | with two records of one ID and different names the second attachment turns the first card into the second |
| ProofPresentation.NoAttachmentStrengthensAuthority | src/firelens/proof_presentation.py:65-287 | after any attachment a claim's card is neutral or carries exactly the claim's text, state and publication; it is neutral when validation was rejected or a critical field failed, and a rejected response shows only neutral cards |
| ProofFacts.ClaimCardsShowTheirKind | src/firelens/_publication_authority.py:26-33 | after any attachment a claim's card is reviewed, live, quoted, explained or background only if its claim is published as exactly that kind, without rejection or failed field |
| ProofFacts.EstablishedClaimShowsItsKind | src/firelens/_publication_authority.py:26-33 | a card built for such a claim shows the state of its own kind, its text and its publication |
| ProofFacts.ClaimCardStaysIff | src/firelens/proof_presentation.py:238-297 | a claim's card in place stays exactly when it restates the claim in all of text, state, publication and authority |
| ProofFacts.OwnedIff | src/firelens/proof_presentation.py:91-103 | a card belongs to a response exactly when a claim or record of it has one of the card's IDs |
| ProofFacts.CardRecordIs | src/firelens/proof_presentation.py:238-287 | the record behind a card is the one of its own ID, else of its live fact, else, unless the card is live, of the first input of its derivation that has one |
| ProofFacts.UnknownCardReads | src/firelens/proof_presentation.py:352-365 | a neutralised card keeps its ID, text and notes, and says of everything else that it is not established |
| ProofFacts.LiveCardReads | src/firelens/proof_presentation.py:330-349 | a card built for a record says that it is a live record and not a reviewed claim |
| ProofFacts.ReboundCardReads | src/firelens/proof_presentation.py:299-327 | a rebound card keeps its caption, review texts and notes and takes everything else from the record |
| ProofFacts.PublicationFitsIff | src/firelens/_publication_authority.py:49-67 | a card's publication is accepted exactly when its state belongs to its kind, or is a live record, and its live fact is named and among the inputs of its derivation |
| ProofFacts.LiveIdMatchesIff | src/firelens/_publication_authority.py:117-136 | a live card matches exactly the identities that contain its live fact, or its own ID without one |
| ProofFacts.SupportedLineAt | src/firelens/proof_presentation.py:157-166 | each line of the supported list restates its own claim |
| ProofFacts.BannerIs | src/firelens/proof_presentation.py:106-154 | a banner in place stays unless the response is rejected; a new one links to the escalation, or else keeps its old link |
| ProofPresentation.LiveCardsRestateRecords | src/firelens/proof_presentation.py:255-287 | live authority outside claims restates one record of the same response, also where records share an ID |
| ProofPresentation.UnknownIsNeverUpgraded | src/firelens/proof_presentation.py:238-287 | cards in place are kept one for one in order without orphans, an unknown one stays unknown, and only a claim's card may take another state than unknown |
| ProofPresentation.BuiltCardsFollowTheResponse | src/firelens/proof_presentation.py:190-195 | built cards are those of the first twelve claims in order or, without claims, of the first twelve records |
| ProofPresentation.RejectedCardsAreNeutral | src/firelens/proof_contracts.py:115-161 | every card of a rejected response is unknown and unsupported |
| AuthorityPrefix.EveryAnswerHasAGoodHistory | src/firelens/assistant_history.py:21-56 | for every mode, reason, section list, freshness, answer and limitation list the history exists exactly for a visible answer, opens with the authority prefix as it is, fits 6000 characters and is stored unchanged by the next turn |
| AssistantHistory.HistorySurvivesTheNextTurn | src/firelens/contracts.py:231-241 | the same for any prefix within the safe bound |
| AssistantHistory.HistoryFitsIff | src/firelens/assistant_history.py:38-56 | a prefix keeps every history within 6000 characters if and only if its normal form has at most 5971 |
| AuthorityPrefix.PrefixIsShort | src/firelens/api_contracts.py:17-84 | the label tables keep every prefix within 436 characters, for section lists of any length |
| AuthorityPrefix.PrefixIsShownUnchanged | src/firelens/api_contracts.py:17-84 | every prefix is in normal form already, so histories open with it unchanged |
| HistoryFacts.PrefixOfSections | src/firelens/api_contracts.py:66-77 | with sections the prefix names the label of every section once, in the order of first mention |
| HistoryFacts.PrefixWithoutSections | src/firelens/api_contracts.py:78-84 | without sections it names the records or the mode |
| HistoryFacts.SafetyPrefixReads | src/firelens/api_contracts.py:42-64 | three reasons replace every authority by their own sentence |
| HistoryFacts.SectionLabelsRead | src/firelens/api_contracts.py:17-26 | the labels of the sections, word by word |
| HistoryFacts.ModeLabelsRead | src/firelens/api_contracts.py:27-38 | the labels of the modes, word by word |
| AssistantHistory.UncutIff | src/firelens/assistant_history.py:43-56 | nothing is cut exactly when the full text fits and the limitations alone leave three characters for the answer |
| AssistantHistory.LimitationsStayVisible | src/firelens/assistant_history.py:41-56 | limitations close the history whole, or cut with an ellipsis only when they exceed their own budget |
| HistoryFacts.HistoryOfAnswer | src/firelens/assistant_history.py:21-38 | up to 6000 characters an answer without visible limitations stands whole behind its authority |
| HistoryFacts.HistoryOfLimitations | src/firelens/assistant_history.py:28-56 | if everything fits, the distinct visible limitations follow the answer in the order of first mention |
| HistoryFacts.BlankHasNoHistory | src/firelens/assistant_history.py:24-27 | a history is refused exactly when prefix or answer is all white space |
| HistoryFacts.BoundedHistoryIs | src/firelens/assistant_history.py:10-18 | any text but white space has a bounded history, its normal form shortened to 6000 characters |
| HistoryFacts.ShortenIs | src/firelens/assistant_history.py:47-55 | a text over its limit loses all but `limit - 3` characters, then its trailing white space, and gets an ellipsis |
| AssistantHistory.NormalIsFixed | src/firelens/contracts.py:235-241 | text with single blanks inside is exactly what normalisation leaves alone |
| AssistantHistory.NormalizeIsNormal | src/firelens/contracts.py:235-241 | normalisation always ends in that form |
| HistoryFacts.NormalizeSplits | src/firelens/contracts.py:235-241 | white space anywhere splits a text: both halves are normalised by themselves and joined by one blank |
| HistoryFacts.TurnContentIs | src/firelens/contracts.py:231-241 | a turn is refused exactly for more than 6000 characters or for nothing but white space |
| AuthorityPrefix.PublicAnswer.ValidateHistory | src/firelens/contracts.py:670-691 | fills in a missing history, demands the rendered one otherwise, and leaves one that the next turn stores unchanged |
| AnswerComposition.GrammarsAgreeIff | src/firelens/contract_composition.py:46-125 | for every list with conflicting guidance both grammars accept the same texts if and only if no handoff is added to a complete form and a rendered conflict text is approved |
| AnswerComposition.RecordsThenConflictAgree | src/firelens/contract_composition.py:69-125 | on lists that open with records and then an approved conflict text, without repeated kinds, both accept the same text |
| AnswerComposition.MissingAnswerPassesUnrenderable | src/firelens/contract_composition.py:84-98 | a missing answer passes the conflict check exactly when the list has no rendering |
| AnswerComposition.AcceptedAnswersShowEverySection | src/firelens/contract_composition.py:46-81 | every accepted answer shows the text of every section, in section order and without overlap |
| AnswerFacts.PlainFormIff | src/firelens/contract_composition.py:46-66 | without conflicting guidance a list has an answer exactly when an opening kind comes first, all kinds differ and the later ones have a label |
| AnswerFacts.PlainAnswersAre | src/firelens/contract_composition.py:60-66 | that answer is the opening text and every later one under its label; guidance right after records may also stand without its own |
| AnswerFacts.ConflictListsWithAnswer | src/firelens/contract_composition.py:69-125 | with conflicting guidance exactly eight lists of kinds have an answer |
| AnswerFacts.RecordsConflictAnswers | src/firelens/contract_composition.py:69-125 | the answers of the lists that open with records, written out |
| AnswerFacts.OtherConflictAnswers | src/firelens/contract_composition.py:69-125 | the answers of the other lists, written out |
| AnswerFacts.ConflictAnswerIs | src/firelens/contract_composition.py:84-125 | with one approved conflict text the conflict answer is the wording of its form |
| LiveAnswering.ComposedAnswerIsCanonical | src/firelens/live_answering.py:361-646 | whatever records text, handoff and static result, the composed answer is one its own sections approve |
| LiveAnswering.ComposedAnswerShowsEverySection | src/firelens/live_answering.py:361-646 | it opens with the records section and shows every section in order |
| AnswerFacts.ComposedTextIs | src/firelens/live_answering.py:462-646 | which validated static result is shown with the records, under which words, and with which sections; anything else leaves the records alone |
| AnswerFacts.ComposedConflictIs | src/firelens/live_answering.py:396-461 | a validated conflict is shown in its own words unless that makes more than 6000 characters |
| AnswerFacts.ComposedRedirectIs | src/firelens/live_answering.py:557-618 | a redirect becomes the handoff, in short words beyond 6000 characters, and continues with that of unsupported topics |
| LiveAnswering.ComposedConflictAcceptedIff | src/firelens/live_answering.py:396-461 | a composed conflict answer passes the conflict validator exactly when the static text is approved or was replaced |
| LiveAnswering.ConflictAnswerFitsIff | src/firelens/live_answering.py:408-432 | for an approved text the answer fits exactly when the shortest wording fits, and it is replaced only when needed |
| LiveAnswering.AnswerFitsIff | src/firelens/live_answering.py:361-646 | in every branch the composed answer keeps 6000 characters exactly when the sum of its parts does, with the shorter of the two wordings for conflict texts and redirects and the full text elsewhere |
| LiveAnswering.WithoutRecordsFitsIff | src/firelens/answering/live_composition.py:38-108 | the same for the conflict answer without records |
| LiveAnswering.ComposedWithoutRecordsAcceptedIff | src/firelens/answering/live_composition.py:38-108 | the conflict answer without records is canonical, and passes the conflict validator under the same condition |
| ImpactAnalysis.AssignDistances | scripts/firelens_agent/impact.py:207-219 | a module gets a distance exactly when its shortest reverse distance from the changed set is at most 4, and then that distance, for any graph |
| ImpactAnalysis.Reverse | scripts/firelens_agent/impact.py:207-209 | the reversed graph maps every module to exactly its callers |
| ImpactAnalysis.Relax | scripts/firelens_agent/impact.py:216-219 | one round of callers keeps distances exact, the queue ordered, and closes its target |
| ImpactAnalysis.DistanceIsShortestPath | scripts/firelens_agent/impact.py:207-219 | the distance is the length of a shortest path of imports |
| CorpusAudit.AuditCorpusAdmission | src/firelens/corpus_admission.py:88-109 | the findings are exactly those of chunks under the codes they are reported under, blocking ones of the sources of shared documents, and warnings of nearly repeated sources; they block exactly the unacceptable sources |
| CorpusAudit.QuarantineRejectedSources | src/firelens/corpus_admission.py:214-224 | the retained chunks are those of unblocked sources, in order |
| CorpusAudit.AuditChunks | src/firelens/corpus_admission.py:88-104 | the findings are those of every chunk against the IDs before it, they block exactly the sources with repeats or flaws, and all sources of every hash are registered |
| CorpusAudit.DuplicateDocumentFindings | src/firelens/corpus_admission.py:161-174 | blocks exactly the sources that share a document hash |
| CorpusAudit.NearDuplicateFindings | src/firelens/corpus_admission.py:177-207 | warns of exactly the sources with a near duplicate and blocks none |
| CorpusAdmission.RetainedIsClean | src/firelens/corpus_admission.py:214-224 | auditing the retained chunks again blocks nothing |
| CorpusAdmission.QuarantineIsIdempotent | src/firelens/corpus_admission.py:214-224 | quarantining twice is quarantining once |
| CorpusAdmission.SourcesStayWhole | src/firelens/corpus_admission.py:214-224 | every source is kept whole or dropped whole, and kept exactly when nothing blocks it |
| CorpusAdmission.ChunkFindingIff | src/firelens/corpus_admission.py:118-158 | a chunk is reported under exactly the codes whose condition its own fields meet |
| CorpusAdmission.RejectedIff | src/firelens/corpus_admission.py:214-224 | a source is unacceptable exactly when one of its chunks is reported or registers a document of another source |
| CorpusAdmission.RetainedArePlaces | src/firelens/corpus_admission.py:214-224 | the retained chunks are those at the places of acceptable sources, in order |
| RankingMetrics.NdcgBounds | src/firelens/benchmark_support.py:110-140 | NDCG lies between 0 and 1, is 0 exactly without a hit and 1 exactly when hits exist and come first |
| RankingMetrics.PromotionRaisesNdcg | src/firelens/benchmark_support.py:110-140 | moving a hit above the miss before it strictly raises NDCG |
| RankingMetrics.RanksAreHits | src/firelens/benchmark_support.py:116-124 | the relevant ranks rise, fit the ranking and name exactly the hits |
| RankingMetrics.HitIff | src/firelens/benchmark_support.py:102-121 | the hits are the known results with evidence of their source and, where it lists any, their chunk and page |
| RankingMetrics.NdcgIsShare | src/firelens/benchmark_support.py:115-136 | NDCG is the gain of the hits at their ranks over the gain of as many hits at the top |
| RankingMetrics.ReciprocalRankIsFirstHit | src/firelens/benchmark_support.py:110-140 | the reciprocal rank belongs to the first hit and is 0 exactly without one |
| RankingMetrics.HitsAreExpected | src/firelens/benchmark_support.py:102-140 | a hit's source is an expected source |
| RankingMetrics.CoverageBounds | src/firelens/benchmark_support.py:110-140 | coverage lies between 0 and 1 and is 1 exactly when every expected source is hit |
| RankingMetrics.CoverageIsShare | src/firelens/benchmark_support.py:125-139 | coverage is the number of hit sources over that of expected ones, 0 without any |
| BakeOff.BalancedCases | src/firelens/model_bakeoff.py:37-49 | min(limit, eligible) cases, each category a prefix in dataset order, and one more than one behind another only when it is exhausted |
| BakeOff.OneRound | src/firelens/model_bakeoff.py:43-48 | one pass draws one case of every category that has one, until the limit |
| BakeOff.BuildPools | src/firelens/model_bakeoff.py:38-42 | the pools hold exactly the eligible cases of each category in dataset order |
| BakeOff.PickedInOrder | src/firelens/model_bakeoff.py:38-42 | eligible cases and those of a category are those at their places in the dataset |
| BakeOffBudget.RunBakeOff | src/firelens/model_bakeoff.py:64-203 | the searches up to the first without a reserve are run; their true cost is the counted cost plus that of the unanswerable ones; a complete report covers all cases and models within the budget; rows record their own calls, ordered by model and then by packet; if no call exceeds its reservation the counted cost stays within the budget at every row |
| BakeOffBudget.Retrieve | src/firelens/model_bakeoff.py:75-105 | the loop runs exactly the dispatched searches, counts answerable ones only, and stops on a missing reserve or an exceeded budget |
| BakeOffBudget.RetrievalInBudgetIff | src/firelens/model_bakeoff.py:75-105 | for at most n searches, each within its reservation, what the dispatched ones really cost keeps the budget if and only if the two reserves exceed it or n retrieval reserves fit it |
| BakeOffBudget.RetrievalCostsAtMost | src/firelens/model_bakeoff.py:75-105 | n searches within their reservation never cost more than n reserves |
| BakeOffBudget.WorstSearches | src/firelens/model_bakeoff.py:88-90 | n unanswerable searches at full price are all dispatched and cost n reserves while nothing is counted |
| BakeOffBudget.SpendingIsUnbounded | src/firelens/model_bakeoff.py:75-90 | where one search can be reserved, for any amount there are enough cases whose searches are all dispatched, cost more, and count nothing |
| BakeOffBudget.ModelAccounted | src/firelens/model_bakeoff.py:112-160 | the calls of one model keep the account of rows, cost and budget |
| BakeOffTotal.TotalInBudgetIff | src/firelens/model_bakeoff.py:75-203 | for at most n cases with every search and call within its reservation, what is really spent keeps the budget if and only if the two reserves exceed it, n is 0, searches are free, or n searches and the calls of all models behind n - 1 of them fit it |
| BakeOffTotal.CasesFitNeeded | src/firelens/model_bakeoff.py:75-203 | otherwise a concrete list of searches and prices of calls goes beyond it |
| ArcgisGeometry.PolygonGeojson | src/firelens/arcgis_geometry.py:21-66 | the loops over rings and holes compute the specified parts or refuse |
| ArcgisGeometry.FindOwner | src/firelens/arcgis_geometry.py:52-57 | finds the first covering exterior of least area |
| ArcgisGeometry.OwnerIsLeast | src/firelens/arcgis_geometry.py:52-57 | the owner covers the hole, no covering exterior is smaller, and earlier ones are larger |
| ArcgisGeometry.AcceptedPolygonConservesRings | src/firelens/arcgis_geometry.py:35-66 | an accepted polygon holds exactly the input rings, one part per exterior in order, each interior ring under a covering exterior of least area |
| ArcgisGeometry.PlacedIff | src/firelens/arcgis_geometry.py:51-58 | the holes can be placed exactly when each has a covering exterior |
| ArcgisGeometry.ConvertedIff | src/firelens/arcgis_geometry.py:21-66 | rings become a polygon exactly when there are 1 to 512 closed plane ones, one at least is clockwise, every other is covered by a clockwise one, and the library accepts ring by ring and the whole |
| ArcgisGeometry.PartIs | src/firelens/arcgis_geometry.py:50-58 | each part is its exterior and then exactly the interior rings it owns, in order |
| ArcgisGeometry.SplitByOrientation | src/firelens/arcgis_geometry.py:35-47 | exteriors are the clockwise rings and interiors the others, in order |
| ArcgisGeometry.DecodeFeatures | src/firelens/arcgis_geometry.py:69-118 | the first refusal in source order, or one feature for every element in order with the transfer flag; a convertible native polygon becomes parts, any other geometry is kept as it came |
| ArcgisGeometry.ConvertNative | src/firelens/arcgis_geometry.py:86-110 | the native pass stops at the first element without attributes or with an oversized geometry, and converts all elements otherwise |
| ArcgisGeometry.DecodedIff | src/firelens/arcgis_geometry.py:69-118 | a reply is decoded exactly when its envelope is supported and every single element is decodable in the form of the reply |
| ArcgisGeometry.DecodeErrorIs | src/firelens/arcgis_geometry.py:69-118 | each refusal of a reply has its own condition, in the order of the checks |
| ArcgisGeometry.DecodedElementIs | src/firelens/arcgis_geometry.py:86-118 | a decoded element keeps its fields, and its geometry becomes parts exactly when it can |

## Left out

- HTTP, streaming limits, retries, semaphores, file and YAML input, and logging: plumbing without a property of its own.
- The texts of limitations, headings, banners and escalation messages: copied, never computed with.
- Geodesy and topology: `pyproj` and `shapely` answers are parameters; for the snapped fetch the upstream's envelope filter is assumed to lose no row when the envelope grows and no valid row that meets it; it may return any others.
- `record_key`, `_fallback_key` and `feature_identity`: their results are fields of a row; that SHA-256 separates distinct rows is not assumed anywhere.
- Extraction of statuses, event types and timestamps from raw properties: the extracted values are fields of a row.
- Binary floating point and decimal context rounding: coordinates, times, areas, costs and weights are exact numbers; 1 / log2(rank + 1) is any positive, strictly decreasing weight, and shingle overlap is compared as exact fractions.
- `percentile`, `precision_recall` and the usage counters of the benchmark: easy members.
- The order in which Python iterates a set: sorted traversals are modelled as some order, because no result depends on it.
- Clock readings of concurrent limiter calls: runs take their readings in order, as the first-in, first-out lock around code without suspension gives them.
- A limiter with `max_clients` of zero or less: the source then raises on an empty table.
- Exceptions outside the caught list in `_features`: a cancelled call stands for them, since both only release the lock.
- `nearby_results` without pages, viewports and place search: they add no check of their own.
- Proof-card field lengths, safety-profile metadata and the derivation policy: one parameter stands for these checks, and a card that fails them raises as in the source.
- The wording of banners and of card descriptions from trust and evidence: parameters of the card model.
- The answer branches for guidance and background without records: their mode is not checked against the section grammar.
- Repeated model names in the bake-off: models are numbered, and a repeated name would merge its rows.
- What surrounds the import-graph search: matching the query, the refusal of an empty match, owners and tests.
- Bake-off reports beyond counts and costs: latencies, validations and summaries.
- AnswerComposition.GrammarsAgreeIff: assumes that no section text is empty, as the section model demands.
- CorpusAudit.AuditCorpusAdmission: says which findings there are, not in which order or how often one occurs, because only membership decides what is rejected.
