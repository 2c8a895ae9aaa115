# BusyCafe, modelled in Dafny

BusyCafe shows how busy cafes in Seoul are. This project models the parts of it that carry state or
make promises across several functions, and proves those promises.

**The map client.** `TileGeometry` covers a viewport with Web-Mercator tiles. Longitude is the linear map
of the code; the latitude map is any strictly decreasing one with an inverse. `CafeSummaries` is the
contract of the summary endpoint: a complete list of at most 5000 cafes, or a truncated answer without any.
`TileCache` is the least-recently-used cache with expiry, `RequestSlots` the semaphore of six slots with
its abortable queue. `TileProvider` puts them together as a machine whose steps are the synchronous
sections of the asynchronous code, so that calls, replies, failures and version changes interleave freely.
Its main result is that the client agrees with filtering the catalogue by the viewport. `TileAnswers` says
when a call answers at all, `TileReuse` what is not asked for again, `TileVersions` for which data versions
the cache is truthful, and `TileFetches` runs the tile machine and the semaphore together.

**Statistics of the evaluation.** `AverageRanks`, `RankCorrelation` and `WeightedKappa` are the rank loop,
Spearman's coefficient and quadratic weighted kappa, over real numbers. `SpearmanValue` says what the
coefficient is, with and without ties. `RealAlgebra` holds the algebra.

**Catalogue writers.** `ProviderSeed` and `ProviderSeedSession` are the provider catalogue upsert: what it
does to the two tables, and the passes that do it. `ProviderSeedEffects` states the outcome row by row and
column by column. `NaverLinks` is the Naver link enrichment, `NaverEffects` which links it adds,
`KakaoExpansion` the Kakao expansion with its quarantine. `CatalogWriters` lets the three follow one
another in any order on the same tables.

**Files that survive interruption.** `Backfill` with `BackfillMonths` is the resumable monthly download, as
a machine in which every disk access can fail or be the last one; `BackfillSuccess` says where a run that
nothing disturbs ends, and one that meets a fault. `CachePublication` is the cafe cache and its manifest,
replaced one after the other while readers read.

**Counters and indexes.** `ContributionLimit` is the global rate-limit row and its three handlers.
`StationClusters` is the union-find of the station assets. `IngestSlo` estimates missed cycles and credits
snapshots to cycles. `CapacityGrid` is the three-dimensional neighbour index. `Worksheet` renders the field
worksheet, and is held against the structure check of the evaluator; `WorksheetPicks` says which rows it
holds. `PermitProfile` folds permit rows with duplicate numbers.

`Outcomes`, `IntDivision`, `TextOrder` and `Whitespace` are shared vocabulary. Where the code mutates an
object, the model is a class whose methods are proved against functions of the old state; the theorems are
about those functions. Row objects that the code shares by reference are positions in a table.

Some promises hold only under a condition, which is then part of the result:

- A viewport without width or height on a tile boundary, and one that ends at -180 or starts at 180, loses
  the cafes on that edge, and some wrapped viewports that start or end outside the world lose the
  antimeridian or whole columns. All others, of any shape, are covered
  (`TileGeometry.RootTilesCoverViewport`).
- The cache label of a missing data version is the text `unknown`, which is also the label of a version
  called `unknown`. The cache is truthful if and only if that version is never sent
  (`TileVersions.EveryVersionIsTruthfulExactly`). No caller in the repository sends it, or null: the only
  one sends a time and a count joined by a colon (`TileVersions.MapHitsTruthfully`).
- A call that nothing rejects has answered once nothing of it is under way, unless the catalogue has more than
  5000 active cafes in one tile six zooms below its root tiles (`TileAnswers.FinishedCallAnswers`). Then it
  fails, as long as all calls have one root zoom (`TileAnswers.FinishedCallAnswersExactly`): splits remembered
  from a deeper root zoom can still carry it further down.
- A rate limit of zero still grants the first claim of every bucket
  (`ContributionLimit.LimitIsKeptWhenPositive`).
- The cache writer leaves U+0085, U+2028 and U+2029 unescaped and the reader splits lines at them, so a
  snapshot with such a character in a record is published and then refused
  (`CachePublication.WholePublicationReadsUnlessBroken`).
- Reading the manifest before and after the cache proves that it did not change, unless a manifest is put
  back after a readable version with another release time
  (`CachePublication.SnapshotsAreVersionsExactly`).
- The download checks the first bytes of a ZIP archive, the resume the whole of it, so a file cut short is
  published and recorded, and stops every later resume (`Backfill.ResumePassesExactly`).
- The provider upsert would take the ownership of a Kakao-origin cafe away if a catalogue named its place
  with another match rule; what prevents it is that the catalogue reader admits no Kakao origin
  (`CatalogWriters.ProviderRunKeepsOwnerExactly`).

`dafny verify dfyconfig.toml` checks the whole project.

## Model

| member | source | states |
|---|---|---|
| TileGeometry.CanonicalX | frontend/src/cafe-provider.ts:191 | the double remainder always lands inside the world, whole turns away from the column asked for, also for negative columns |
| TileGeometry.RootZoomIsDeepestThatFits | frontend/src/cafe-provider.ts:176-186 | the shrinking loop ends at the deepest zoom between 10 and the clamped map zoom whose range has at most 16 tiles, or at 10; every deeper allowed zoom has more |
| TileGeometry.TilesForViewport | frontend/src/cafe-provider.ts:176-198 | the loops list exactly the tiles of the root range, each once, also when wrapped columns coincide |
| TileGeometry.AddColumn | frontend/src/cafe-provider.ts:192-195 | one column adds exactly its tiles that are not listed yet |
| TileGeometry.InTileCoordinates | frontend/src/cafe-provider.ts:135-145 | a point of the world lies in the requested bounds of a tile exactly when its tile coordinates lie in the closed unit square of the tile |
| TileGeometry.ChildrenCoverParent | frontend/src/cafe-provider.ts:216-226 | a point of the world lies in a tile exactly when it lies in one of its four children |
| TileGeometry.PointCovered | frontend/src/cafe-provider.ts:147-169 | every point inside a viewport of any shape that loses no column and no row lies in a root tile, also across the antimeridian and beyond it |
| TileGeometry.RootTilesCoverViewport | frontend/src/cafe-provider.ts:147-198 | the root tiles cover every world point of a viewport of any shape if and only if it loses no column and no row, a condition on its bounds and zoom alone |
| TileGeometry.LostPointIsShown | frontend/src/cafe-provider.ts:228-234 | the point named for a losing viewport is a point of the world inside the viewport |
| TileGeometry.LostPointIsLost | frontend/src/cafe-provider.ts:147-169 | no root tile of a losing viewport holds that point |
| TileGeometry.ClearViewportCovered | frontend/src/cafe-provider.ts:147-169 | an ordinary viewport with positive width and height that does not start at 180 or end at -180 loses nothing |
| TileGeometry.EastOfAntimeridianLoses | frontend/src/cafe-provider.ts:147-169 | the losing viewports include a plain one: ten degrees wide, starting on the antimeridian |
| TileGeometry.LinearProjectionIsMercator | frontend/src/cafe-provider.ts:139-145 | the assumptions on the latitude map can be met |
| TileCache.Cache.ReadCachedTile | frontend/src/cafe-provider.ts:442-452 | a lookup serves what the specification serves, moves a live item to the young end, and drops an expired one |
| TileCache.Cache.CacheTile | frontend/src/cafe-provider.ts:454-465 | a store puts the item at the young end, keeps keys distinct and drops the oldest items down to 160 |
| TileCache.Cache.EvictOldest | frontend/src/cafe-provider.ts:460-464 | the eviction loop drops from the old end exactly what exceeds the capacity |
| TileCache.Cache.Find | frontend/src/cafe-provider.ts:443 | finding a key splits the items around it |
| TileCache.Cache.Clear | frontend/src/cafe-provider.ts:249 | a version change empties the cache |
| TileCache.ReadServesAnItem | frontend/src/cafe-provider.ts:442-452 | what a lookup serves is a stored, unexpired item of that key, and a lookup adds nothing |
| TileCache.StoreAddsAnItem | frontend/src/cafe-provider.ts:454-465 | a store adds at most its own item, and the size stays within the capacity |
| TileCache.EveryHistoryKeepsInvariant | frontend/src/cafe-provider.ts:442-465 | after any history of lookups, stores and clearings the items are in order of last use, each is what was last stored under its key, and at most 160 remain |
| TileCache.ServedValueIsLastStored | frontend/src/cafe-provider.ts:442-452 | over any history, a served value is what was last stored under exactly that key, and has not expired |
| TileCache.EvictionIsLeastRecentlyUsed | frontend/src/cafe-provider.ts:454-465 | over any history, every key a store evicts was last used before every key it keeps, and the cache is then full |
| TileCache.HeldUnlessDroppedOrCrowdedOut | frontend/src/cafe-provider.ts:442-465 | a stored item is still in the cache unless it expired at a lookup, the cache was cleared, its key was stored again, or 160 other keys were used since its own last use: a lookup that serves it does not use it up |
| TileCache.StoredTileIsServedForAMinute | frontend/src/cafe-provider.ts:442-465 | a stored answer is served for exactly sixty seconds, however often it is looked up, while the cache is not cleared, the key is not stored again and fewer than 160 other keys are used |
| RequestSlots.Semaphore.AcquireRequestSlot | frontend/src/cafe-provider.ts:481-506 | a free slot is taken or the caller becomes last in the queue; in a sound state at most six slots stay in use, and a caller queues only when all six are |
| RequestSlots.Semaphore.StartWaiter | frontend/src/cafe-provider.ts:490-496 | a waiter starts at most once: a settled one changes nothing, and starting below six slots stays within six |
| RequestSlots.Semaphore.ReleaseRequestSlot | frontend/src/cafe-provider.ts:475-478 | in a sound state a release wakes the first waiter, who leaves the queue for good, or there was none and a slot is free afterwards |
| RequestSlots.Semaphore.AbortWaiter | frontend/src/cafe-provider.ts:497-503 | in a sound state an abort takes exactly its waiter out of the queue and no slot away |
| RequestSlots.EveryRunKeepsInv | frontend/src/cafe-provider.ts:467-507 | over every interleaving of requests, grants, aborts, finishes and failures: the counter is the number of slot holders and at most six, the queue holds only unsettled waiters, waiters mean six busy slots, grants follow the order of arrival |
| RequestSlots.EveryRunIsSafe | frontend/src/cafe-provider.ts:467-507 | the same for every run from the start |
| RequestSlots.FinishWakesFront | frontend/src/cafe-provider.ts:475-478 | a finish with waiters always grants, and grants the one at the front: no wakeup is lost |
| RequestSlots.PositionAdvances | frontend/src/cafe-provider.ts:467-507 | a waiter never moves back, and every finish moves it forward |
| RequestSlots.SettledStays | frontend/src/cafe-provider.ts:488-503 | a request that left the queue was granted or gave up, and never returns to it |
| RequestSlots.WaitIsBounded | frontend/src/cafe-provider.ts:467-507 | a waiter with k others in front is granted or gone once k + 1 operations have finished, whatever else happens |
| TileProvider.EveryRunKeepsInv | frontend/src/cafe-provider.ts:246-269 | every interleaving of calls, replies, failures, cache expiry and version changes keeps the cache truthful, the remembered splits valid, and every call a covering of its root tiles |
| TileProvider.ReplaceKeepsRegion | frontend/src/cafe-provider.ts:384-394 | replacing a truncated tile by its children keeps the region a call has to answer for, so the truncated answer itself contributes nothing |
| TileProvider.DoneTileIsExact | backend/app/api/routes.py:660-700 | a finished tile holds exactly the active cafes of the catalogue inside it |
| TileProvider.ReturnedCallIsExact | frontend/src/cafe-provider.ts:254-269 | from any reachable state, a returned call over one catalogue holds each active cafe that is inside the viewport and on a root tile once, and no other |
| TileProvider.GetCafesIsViewportFilter | frontend/src/cafe-provider.ts:254-269 | for a viewport of any shape that loses no point the answer is exactly the catalogue filtered by the viewport, each cafe once |
| TileProvider.LosingViewportLosesACafe | frontend/src/cafe-provider.ts:147-169 | for every viewport that loses a point there is a one-cafe catalogue whose cafe is inside the viewport and missing from the answer |
| TileProvider.EveryRunAnswersFromCatalogue | frontend/src/cafe-provider.ts:254-269 | the exactness over whole runs from the first call, over a fixed catalogue |
| TileAnswers.AncestorIsDense | frontend/src/cafe-provider.ts:216-226 | a tile with more than 5000 active cafes inside makes every tile it descends from one |
| TileAnswers.FinishedCallAnswers | frontend/src/cafe-provider.ts:384-394 | on every run over one catalogue in which nothing is rejected, a call without a tile under way has answered, unless the catalogue has more than 5000 active cafes in a tile six zooms below its root tiles |
| TileAnswers.FinishedCallAnswersExactly | frontend/src/cafe-provider.ts:384-394 | with calls of one root zoom, whatever the interleaving, such a call has answered if and only if no tile six zooms below its root tiles has more than 5000 active cafes |
| TileAnswers.ReplyExists | backend/app/api/routes.py:660-700 | the endpoint has a reply to every request over a table keyed by id |
| TileAnswers.UnfinishedTileGoesOn | frontend/src/cafe-provider.ts:341-394 | in every state an unfinished tile can be visited or answered, without any rejection |
| TileReuse.RunUsesCache | frontend/src/cafe-provider.ts:341-394 | the cache at the end of a run is that of the history of lookups, stores and clearings the run made |
| TileReuse.RecentAnswerIsReused | frontend/src/cafe-provider.ts:346-350 | for a minute after a complete answer a call that comes to the tile at the same version has that answer at once, without a request, while fewer than 160 other tiles are used |
| TileReuse.ReachableHasHistory | frontend/src/cafe-provider.ts:246-269 | every state a client can reach has such a history |
| TileReuse.SplitTileIsNotAskedForAgain | frontend/src/cafe-provider.ts:352-357 | a tile that a truncated answer has split is not asked for again before the data version changes |
| TileReuse.VersionChangeForgets | frontend/src/cafe-provider.ts:246-252 | a change of the version forgets every answer and every split; naming the version that is current changes nothing |
| TileProvider.DeduplicateInViewport | frontend/src/cafe-provider.ts:262-268 | the loop keeps the features inside the viewport, one per id |
| TileProvider.DeduplicateKeepsEachOnce | frontend/src/cafe-provider.ts:262-267 | deduplication by id keeps only given cafes, no id twice, and loses no cafe when an id names one cafe |
| TileProvider.SplitZoomBound | frontend/src/cafe-provider.ts:384-394 | every tile that is split has zoom at most 20 |
| TileProvider.TileStepUsesWork | frontend/src/cafe-provider.ts:341-394 | every step on a tile uses up work, also along splits remembered from other root zooms |
| TileProvider.EveryRunTerminates | frontend/src/cafe-provider.ts:341-394 | between new calls the number of tile steps never exceeds the work at hand, for every cache and split state |
| TileProvider.LabelsNameVersions | frontend/src/cafe-provider.ts:348 | two versions share a cache label exactly when they are equal or one is missing and the other is the text "unknown" |
| TileVersions.KnownVersionsHitTruthfully | frontend/src/cafe-provider.ts:246-252 | on every run in which the client is not told the version "unknown", each cache hit lists what the server has for the version current now, also while there is none |
| TileVersions.MapHitsTruthfully | frontend/src/map.ts:440-442 | the map sends a time and a count joined by a colon, so on every run of it each cache hit is the answer for the current version |
| TileVersions.LateAnswerIsServed | frontend/src/cafe-provider.ts:348 | for any two versions with one label there is a run in which an answer fetched for the first is served as the second |
| TileVersions.HitsAreTruthfulExactly | frontend/src/cafe-provider.ts:246-252 | for every catalogue and run the cache is truthful at a version if and only if the text "unknown" cannot be sent, or the version is neither that text nor none-sent-again; no caller in the repository sends that text or null |
| TileVersions.EveryVersionIsTruthfulExactly | frontend/src/cafe-provider.ts:246-252 | a client is served the current version at all versions if and only if it is never told the version "unknown", which frontend/src/map.ts:440-442 never does |
| TileFetches.EveryRunKeepsInv | frontend/src/cafe-provider.ts:368-382 | over every interleaving of calls, replies, aborts and version changes each tile in flight holds at most one ticket, and the tickets are the slot holders and the queue, each once |
| TileFetches.EveryRunProjects | frontend/src/cafe-provider.ts:368-382 | a run with slots is a run of the tile machine that ends in the same client state, so its theorems hold with slots |
| TileFetches.EveryRunActsOnSlots | frontend/src/cafe-provider.ts:467-479 | the same run is a run of the semaphore with one finish for each fetch that ended |
| TileFetches.AtMostSixFetches | frontend/src/cafe-provider.ts:467-507 | on every run from the start the tiles with a slot are as many as the counter says, at most six, and exactly six while a tile waits |
| TileFetches.NoSlotLeaks | frontend/src/cafe-provider.ts:475-478 | when no tile is in flight no slot is in use and nobody waits |
| TileFetches.TileWaitIsBounded | frontend/src/cafe-provider.ts:467-507 | a waiting tile has been granted a slot or given up once one more fetch has ended than there were requests in front of it |
| TileFetches.NoTileIsStuck | frontend/src/cafe-provider.ts:341-394 | in every state an unfinished tile can be visited or answered, or it waits and a fetch that holds a slot can end, all without a rejection |
| TileFetches.EveryRunTerminates | frontend/src/cafe-provider.ts:341-394 | between new calls the visits, replies, ended fetches and aborts together never exceed the work at hand |
| TileFetches.SlottedRunsAnswerFromCatalogue | frontend/src/cafe-provider.ts:254-269 | with slots and a queue, every returned call still holds exactly the active cafes of the catalogue in its viewport and tiles |
| TileFetches.SlottedCallAnswers | frontend/src/cafe-provider.ts:254-269 | with slots too, a call that nothing rejects or aborts and that has no tile under way has answered, unless a tile six zooms below its root tiles has more than 5000 active cafes |
| AverageRanks.ComputeAverageRanks | backend/scripts/run_eval.py:439-451 | the tie loop fills in the rank of every value |
| AverageRanks.AssignRank | backend/scripts/run_eval.py:448-449 | the inner loop writes the members of a tie block and nothing else |
| AverageRanks.RankCountsLessAndEqual | backend/scripts/run_eval.py:439-451 | a rank is the number of smaller values plus half of one more than the number of equal ones |
| AverageRanks.TieBlockRank | backend/scripts/run_eval.py:444-447 | the average position of a maximal tie block is the rank of each member |
| AverageRanks.RanksSum | backend/scripts/run_eval.py:439-451 | the ranks of n values sum to n(n+1)/2 |
| AverageRanks.RanksAreOrder | backend/scripts/run_eval.py:439-451 | two lists have the same ranks exactly when they order their positions alike |
| AverageRanks.RanksOrderValues | backend/scripts/run_eval.py:439-451 | ranks order positions as the values do |
| AverageRanks.RanksKeptByIncreasingTransform | backend/scripts/run_eval.py:439-451 | a strictly increasing transform leaves the ranks as they are |
| AverageRanks.OppositeRanks | backend/scripts/run_eval.py:439-451 | reversing the order turns a rank r into n + 1 - r |
| RankCorrelation.CauchySchwarz | backend/scripts/run_eval.py:465-471 | the squared numerator never exceeds the product of the two sums, and equality means proportional sides |
| RankCorrelation.SpearmanIsMissing | backend/scripts/run_eval.py:454-472 | for lists of equal length there is no coefficient exactly when there are fewer than two values or one side is all tied |
| RankCorrelation.SpearmanRange | backend/scripts/run_eval.py:454-472 | a coefficient lies in [-1, 1], is 1 exactly for the same order and -1 exactly for the reverse order, ties included |
| RankCorrelation.SpearmanSymmetric | backend/scripts/run_eval.py:454-472 | swapping the sides changes nothing |
| SpearmanValue.SpearmanIsCovariance | backend/scripts/run_eval.py:465-472 | the coefficient times the root of the product of the two rank variances is the covariance of the ranks, ties included |
| SpearmanValue.SpearmanWithoutTies | backend/scripts/run_eval.py:454-472 | without ties the coefficient is 1 - 6 D / (n (n^2 - 1)), D the sum of squared rank differences |
| SpearmanValue.SpearmanIsRefused | backend/scripts/run_eval.py:457-458 | the coefficient is refused exactly for lists of different length |
| WeightedKappa.ExpectedCountsAllPairs | backend/scripts/run_eval.py:488-500 | the table of level counts adds up to the squared differences over all pairs of answers |
| WeightedKappa.ExpectedIsPositive | backend/scripts/run_eval.py:494-505 | expected disagreement is positive when a rater uses two levels: the last None cannot happen |
| WeightedKappa.KappaValue | backend/scripts/run_eval.py:475-505 | the value as a quotient of whole-number sums |
| WeightedKappa.KappaRange | backend/scripts/run_eval.py:475-505 | kappa lies in [-1, 1] and is 1 exactly when all pairs agree |
| WeightedKappa.KappaIsMissing | backend/scripts/run_eval.py:484-485 | kappa is missing exactly for fewer than two pairs or a rater with one level |
| WeightedKappa.KappaIsRefused | backend/scripts/run_eval.py:480-483 | kappa is refused exactly for lists of different length or a level outside one to four |
| WeightedKappa.KappaSymmetric | backend/scripts/run_eval.py:475-505 | kappa does not depend on who is primary |
| WeightedKappa.KappaIsConcordance | backend/scripts/run_eval.py:475-505 | kappa is 2 Cov / (VarX + VarY + (meanX - meanY)^2) |
| StationClusters.HalvingKeepsRoot | backend/scripts/build_subway_assets.py:211-213 | path halving keeps the forest and every root |
| StationClusters.LinkRedirectsRoot | backend/scripts/build_subway_assets.py:218-219 | linking one root below a smaller one redirects exactly its own nodes |
| StationClusters.Find | backend/scripts/build_subway_assets.py:210-214 | find returns the root and keeps all roots |
| StationClusters.Union | backend/scripts/build_subway_assets.py:216-219 | union merges exactly the two classes, under the smaller root |
| StationClusters.JoinNearRows | backend/scripts/build_subway_assets.py:221-226 | after the double loop every near pair has been joined and no other |
| StationClusters.RootsAreComponents | backend/scripts/build_subway_assets.py:208-226 | two rows share a root exactly when a chain of near pairs joins them |
| StationClusters.BuildComponents | backend/scripts/build_subway_assets.py:208-230 | the groups are the connected components, each listed upwards from its least row, together all rows |
| StationClusters.ComponentsAreApart | backend/scripts/build_subway_assets.py:221-231 | rows of different groups are farther apart than the limit |
| StationClusters.ComponentsAreUnique | backend/scripts/build_subway_assets.py:221-231 | the near graph determines the groups |
| ContributionLimit.Session.ClaimUserContributionSlot | backend/app/api/routes.py:215-280 | a claim is granted exactly when the row of its kind leaves room; a grant is in the bucket of its clock reading, no bucket goes back, and rows within their limits stay so |
| ContributionLimit.Session.Submit | backend/app/api/routes.py:835-943 | exactly accepted requests are stored, a refusal changes nothing, a request is rate-limited exactly when it reaches a full row, and no minute of requests so far has more accepted than twice the limit |
| ContributionLimit.RowCountsGrants | backend/app/api/routes.py:247-271 | after any claims at any clock readings, also backward ones, the row counts the grants of its bucket, later buckets have none, and no bucket exceeds its capacity |
| ContributionLimit.StoredBucketNeverDecreases | backend/app/api/routes.py:261-269 | the stored bucket never goes back |
| ContributionLimit.MinuteSpansTwoBuckets | backend/app/api/routes.py:227-229 | readings less than a minute apart fall into at most two neighbouring buckets |
| ContributionLimit.MinuteBudget | backend/app/api/routes.py:227-271 | any sixty seconds of clock readings are granted at most twice the capacity |
| ContributionLimit.LimitIsKeptWhenPositive | backend/app/api/routes.py:261-269 | no bucket ever exceeds the limit if and only if the limit is at least one: a limit of zero still lets one claim in |
| ContributionLimit.RequestsActThroughClaims | backend/app/api/routes.py:842-943 | the rows see exactly the claims, whatever becomes of the submissions |
| ContributionLimit.StoredAreAccepted | backend/app/api/routes.py:842-943 | the stored submissions are the accepted requests |
| ContributionLimit.AcceptedWithinGrants | backend/app/api/routes.py:842-943 | accepted requests never outnumber granted claims |
| ContributionLimit.SubmissionsPerMinute | backend/app/api/routes.py:215-280 | any sixty seconds of clock readings store at most twice the configured limit |
| ContributionLimit.BucketIsMinute | backend/app/api/routes.py:227-229 | from the epoch on, a bucket starts at a whole minute and holds the readings of its sixty seconds |
| ContributionLimit.ClaimIsGrantedExactly | backend/app/api/routes.py:247-271 | after any claims, the next one is granted exactly when no later bucket has a grant and its own has none or less than the limit |
| ContributionLimit.RequestIsLimitedExactly | backend/app/api/routes.py:835-943 | after any requests, one that reaches its claim is limited exactly when a later minute was charged for its group, or its own was charged 120 times for feedback or 30 times for place reports of both forms |
| ContributionLimit.FormsPerMinute | backend/app/api/routes.py:835-943 | any sixty seconds store at most 240 feedbacks and at most 60 place reports of both forms together |
| IngestSlo.RecordCadenceGaps | backend/scripts/analyze_ingest_slo.py:226-248 | the recording loop lists the gaps of the head, between and tail intervals |
| IngestSlo.AllGapsWithinWindow | backend/scripts/analyze_ingest_slo.py:242-248 | the recorded gaps together fit into the window, with half a cycle to spare for each that claims one |
| IngestSlo.MissedCyclesFitWindow | backend/scripts/analyze_ingest_slo.py:80-83 | the estimated missed cycles never add up to more than the expected cycle slots |
| IngestSlo.LongIntervalsAreRecorded | backend/scripts/analyze_ingest_slo.py:226-248 | an interval of the window, head, between or tail, has its record if and only if it is as long as the threshold |
| IngestSlo.RecordsFollowInTime | backend/scripts/analyze_ingest_slo.py:242-248 | the records follow one another in time |
| IngestSlo.EstimateIsNearestSlot | backend/scripts/analyze_ingest_slo.py:80-83 | a gap nearest to k cadences has missed k - 1 cycles, a shorter one none |
| IngestSlo.EstimateIsExactUnderJitter | backend/scripts/analyze_ingest_slo.py:80-83 | for runs within a quarter cadence of their slots the estimate is exactly the number of skipped slots |
| IngestSlo.BisectSplits | backend/scripts/analyze_ingest_slo.py:268 | the bisection point separates the cycles that have started from the others |
| IngestSlo.CreditSnapshot | backend/scripts/analyze_ingest_slo.py:268-275 | the backward scan finds the last cycle whose closed interval holds the snapshot, or none |
| IngestSlo.CreditedStartsLatest | backend/scripts/analyze_ingest_slo.py:267-275 | the credited cycle started latest among all that hold the snapshot |
| IngestSlo.CreditedWasRunning | backend/scripts/analyze_ingest_slo.py:267-275 | among the cycles from the credited one on, exactly the credited one holds the snapshot, a running cycle ending with the check |
| IngestSlo.AttributeSnapshots | backend/scripts/analyze_ingest_slo.py:265-275 | the counter of every cycle ends with its credits |
| IngestSlo.CreditsAreCoveredSnapshots | backend/scripts/analyze_ingest_slo.py:265-275 | total credits are the snapshots that lie in some cycle |
| CapacityGrid.NeighborsAreAdjoining | backend/scripts/report_capacity_match_coverage.py:204-209 | the 27 cells are exactly the adjoining ones, none twice |
| CapacityGrid.CloseSitesAdjoin | backend/scripts/report_capacity_match_coverage.py:185-201 | sites within the distance limit lie in the same or adjoining cells |
| CapacityGrid.BuildGrid | backend/scripts/report_capacity_match_coverage.py:257-268 | every cell lists its cafes in input order |
| CapacityGrid.Nearby | backend/scripts/report_capacity_match_coverage.py:293-305 | a lookup lists every cafe of an adjoining cell exactly as often as it was put in, and no other |
| CapacityGrid.LookupLosesNothing | backend/scripts/report_capacity_match_coverage.py:298-371 | at every stage, counting over the lookup is counting over all cafes |
| CapacityGrid.CountHits | backend/scripts/report_capacity_match_coverage.py:317-369 | the loop over one lookup counts the passing cafes |
| CapacityGrid.CountGate | backend/scripts/report_capacity_match_coverage.py:292-371 | the pair and permit counters equal those of the all-pairs comparison |
| CapacityGrid.CountersCountMatches | backend/scripts/report_capacity_match_coverage.py:286-371 | the counters are the number of pairs of a permit and a cafe within fifty metres that pass the stage, and of the permits that have one |
| Worksheet.SessionCandidatesUnique | backend/scripts/prepare_eval_observations.py:185-190 | filtering keeps the valid candidates of the hotspot, and their uniqueness |
| Worksheet.SortKeeps | backend/scripts/prepare_eval_observations.py:204-212 | sorting keeps the candidates and orders them by band and id |
| Worksheet.FourDistinctCandidates | backend/scripts/prepare_eval_observations.py:215-245 | selection fails exactly for an empty band or a single candidate in the rotated band; otherwise it picks four distinct candidates, so the last error cannot happen |
| WorksheetPicks.PicksAreByRank | backend/scripts/prepare_eval_observations.py:215-245 | a candidate is picked exactly when its rank in its band is the session index modulo the size of the band, or, in the band whose turn it is, that of the next session |
| WorksheetPicks.SessionHoldsExactly | backend/scripts/prepare_eval_observations.py:248-297 | a session holds exactly the primary row of each valid candidate of its hotspot, the observers taking turns, and the row of the other observer for each picked one |
| Worksheet.SessionRenders | backend/scripts/prepare_eval_observations.py:182-246 | exactly when a session can be rendered |
| Worksheet.WriteSession | backend/scripts/prepare_eval_observations.py:263-296 | the inner loop writes the rows of one session |
| Worksheet.RenderWorksheet | backend/scripts/prepare_eval_observations.py:248-297 | the outer loop renders all sessions or stops at the first error |
| Worksheet.ValidateObservationStructure | backend/scripts/run_eval.py:293-322 | the check of the evaluator passes exactly when no assignment repeats and every cafe and slot has one primary and at most one reliability row |
| Worksheet.CheckGroups | backend/scripts/run_eval.py:310-322 | the loop over the groups decides the role counts |
| Worksheet.CandidateKeepsStructure | backend/scripts/prepare_eval_observations.py:263-296 | the rows of one new candidate keep the structure and add a pair exactly when it is selected |
| Worksheet.WorksheetPassesCheck | backend/scripts/prepare_eval_observations.py:248-297 | every worksheet from unique cafes, unique slots and two observers passes the check of the evaluator and has four reliability pairs per session |
| Worksheet.CountReliabilityPairs | backend/scripts/run_eval.py:508-528 | the pairing loop of the evaluator counts exactly the keys with a row of either role |
| Worksheet.PrimariesSplitEvenly | backend/scripts/prepare_eval_observations.py:264-265 | the primary rows of a session split between the observers to within one |
| ProviderSeed.SeedKeepsConstraints | backend/scripts/seed_provider_cafes.py:204-321 | applying a validated catalogue keeps (provider, place id), (cafe, provider) and cafe origins unique, and every place on a cafe row |
| ProviderSeed.EveryReferenceEndsAttached | backend/scripts/seed_provider_cafes.py:278-321 | every reference ends on an active row with its values, owned by the cafe with its origin |
| ProviderSeed.ReferenceHasCafe | backend/scripts/seed_provider_cafes.py:278-282 | no reference of a validated catalogue is left without a cafe: the disappearance error cannot happen |
| ProviderSeed.ReportIsExact | backend/scripts/seed_provider_cafes.py:236-369 | inserted, updated and unchanged add up to the inputs; inserted and deactivated are the rows added and retired |
| ProviderSeed.OnlyManagedLinksRetire | backend/scripts/seed_provider_cafes.py:323-338 | a link loses its activity exactly when it is an active managed Kakao link the catalogue no longer names; a row not named changes in nothing else |
| ProviderSeed.ReapplyingOnlyTouchesLastSeen | backend/scripts/seed_provider_cafes.py:134-369 | the same catalogue is accepted again, reports no insertion, update or retirement, and changes nothing but when links were last seen |
| ProviderSeedEffects.StoredCafeTakesColumns | backend/scripts/seed_provider_cafes.py:249-268 | a stored cafe takes each column of its candidate that is missing or compares as different; columns that agree or are not carried keep the stored value |
| ProviderSeedEffects.OtherCafeStays | backend/scripts/seed_provider_cafes.py:241-268 | a stored cafe without a candidate stays as it was |
| ProviderSeedEffects.NewCafesAreCandidates | backend/scripts/seed_provider_cafes.py:242-274 | the rows added are those of the candidates without a stored row, with all their columns and fresh ids |
| ProviderSeedEffects.NamedLinkAgrees | backend/scripts/seed_provider_cafes.py:278-321 | a named link ends in agreement with its reference and seen now, on the cafe it was on; it is verified now exactly if it did not agree before |
| ProviderSeedEffects.UnnamedLinkRetires | backend/scripts/seed_provider_cafes.py:323-338 | a link not named loses its activity if it is a Kakao link with one of the managed match rules, and nothing else |
| ProviderSeedEffects.NewLinksAreReferences | backend/scripts/seed_provider_cafes.py:283-301 | the links added are those of the references whose place had none, verified and seen now, with fresh ids |
| ProviderSeedEffects.ReportCountsChangedRows | backend/scripts/seed_provider_cafes.py:236-369 | the report counts exactly the stored cafes that end with other columns, the named links that end with other values, and the links that end inactive |
| ProviderSeedEffects.RefusedExactlyWhenImpossible | backend/scripts/seed_provider_cafes.py:148-234 | a catalogue that is consistent in itself is refused if and only if no tables could carry it out |
| ProviderSeedSession.IndexBy | backend/scripts/seed_provider_cafes.py:149-173 | a dictionary over rows has as many keys as rows exactly when the keys are distinct |
| ProviderSeedSession.CheckIncoming | backend/scripts/seed_provider_cafes.py:177-203 | the three dictionaries refuse exactly the references that name a place or a cafe and provider twice |
| ProviderSeedSession.CheckTarget | backend/scripts/seed_provider_cafes.py:205-234 | the checks of one reference |
| ProviderSeedSession.Validate | backend/scripts/seed_provider_cafes.py:148-234 | the whole validation decides exactly whether the catalogue is valid for the tables |
| ProviderSeedSession.TargetsAreKnown | backend/scripts/seed_provider_cafes.py:280-282 | a reference finds the id of its cafe among the stored or created rows |
| ProviderSeedSession.Session.UpsertCafes | backend/scripts/seed_provider_cafes.py:236-268 | the cafe pass writes changed columns, counts, and hands on the cafes to create |
| ProviderSeedSession.Session.FlushCafes | backend/scripts/seed_provider_cafes.py:270-274 | the flush appends the created cafes with fresh ids |
| ProviderSeedSession.Session.UpsertReferences | backend/scripts/seed_provider_cafes.py:276-321 | the reference pass inserts, updates, counts, and collects the unchanged rows |
| ProviderSeedSession.Session.RetireManaged | backend/scripts/seed_provider_cafes.py:323-338 | the retirement pass over rows the earlier pass may have changed |
| ProviderSeedSession.Session.TouchUnchanged | backend/scripts/seed_provider_cafes.py:340-354 | the batches of 500 touch every collected row, no other |
| ProviderSeedSession.PassesCompose | backend/scripts/seed_provider_cafes.py:276-355 | reference pass, retirement and batched update together leave every row as specified |
| ProviderSeedSession.Session.SeedProviderCafes | backend/scripts/seed_provider_cafes.py:134-369 | a run fails exactly on an invalid catalogue and then writes nothing; dry and applied runs report the same counts; only an applied run writes |
| ProviderSeedSession.Session.StageProviderSeed | backend/scripts/seed_provider_cafes.py:372-382 | what is applied is what the dry run announced, and the constraints hold afterwards |
| NaverLinks.EligibleMembers | backend/scripts/seed_naver_place_links.py:95-106 | the eligible cafes are exactly the searchable ones behind the start, in id order |
| NaverLinks.OwnerIsAnotherCafe | backend/scripts/seed_naver_place_links.py:140-143 | a stored owner of a discovered place is always another cafe |
| NaverLinks.AcceptedMembers | backend/scripts/seed_naver_place_links.py:133-146 | a link is accepted exactly when its place was discovered once in the batch and has no stored row |
| NaverLinks.AcceptedLinksKeepConstraints | backend/scripts/seed_naver_place_links.py:148-165 | adding the accepted links keeps both uniqueness constraints |
| NaverLinks.MatchedAreAccountedFor | backend/scripts/seed_naver_place_links.py:133-144 | every matched cafe is inserted or counted in one of the two collisions |
| NaverLinks.NextRunStarts | backend/scripts/seed_naver_place_links.py:102-107 | a run leaves to the next one exactly the eligible cafes behind its batch, whatever it wrote |
| NaverLinks.ResumedRunsSearchEveryCafeOnce | backend/scripts/seed_naver_place_links.py:95-174 | runs resumed after the last searched cafe search every eligible cafe once, in order |
| NaverEffects.BatchIsSearched | backend/scripts/seed_naver_place_links.py:95-107 | a cafe is searched exactly when it is active, has a road address and no Naver link, lies behind the start, and fewer such cafes than the batch size come before it |
| NaverEffects.AddedLinksAreMatches | backend/scripts/seed_naver_place_links.py:148-165 | every link a run adds is that of a searched cafe whose match no other searched cafe has and no stored row holds, with a fresh id |
| NaverEffects.MatchesAreAdded | backend/scripts/seed_naver_place_links.py:148-165 | every such cafe has its link after the run |
| NaverLinks.GroupByPlace | backend/scripts/seed_naver_place_links.py:129-131 | the dictionary lists the discovered links of each place in order |
| NaverLinks.Accept | backend/scripts/seed_naver_place_links.py:133-146 | the acceptance loop, in any order of places, and its sort give the accepted links and both collision counts |
| NaverLinks.Session.SeedNaverPlaceLinks | backend/scripts/seed_naver_place_links.py:64-185 | bad arguments and duplicate rows are refused without a write; a dry run reports what a write adds |
| KakaoExpansion.OwnedByRow | backend/scripts/seed_kakao_catalog_expansion.py:219-238 | the two dictionary lookups of the ownership test find an owner exactly when one row makes the cafe its owner |
| KakaoExpansion.ExpansionKeepsOwnership | backend/scripts/seed_kakao_catalog_expansion.py:421-480 | an applied plan keeps every constraint, and the ownership test passes again for old and new Kakao cafes |
| KakaoExpansion.LargeMovesAreAllOrNothing | backend/scripts/seed_kakao_catalog_expansion.py:354-437 | moves beyond 250 metres are applied all together or not at all; column by column, an applied refresh writes its source columns on Kakao-origin rows and its display columns on every row and leaves the others; a large move that is not allowed leaves cafe row and links exactly as they were |
| KakaoExpansion.SeenLinksAreRenewed | backend/scripts/seed_kakao_catalog_expansion.py:438-449 | every Kakao link of a seen cafe that is not quarantined ends with the address of its place, seen and verified now; nothing else of it changes, and no other link |
| KakaoExpansion.CandidatesBecomeOwners | backend/scripts/seed_kakao_catalog_expansion.py:450-478 | every candidate becomes one cafe of Kakao origin with its columns and one active source link that this cafe owns |
| KakaoExpansion.ReportCountsMoves | backend/scripts/seed_kakao_catalog_expansion.py:354-391 | the report counts the moves beyond 250 metres; if the bound allows that number all refreshes are planned, otherwise exactly the others |
| KakaoExpansion.ValidateOwnership | backend/scripts/seed_kakao_catalog_expansion.py:194-238 | the ownership validation decides exactly the constraints and the ownership of every Kakao cafe |
| KakaoExpansion.CheckPlan | backend/scripts/seed_kakao_catalog_expansion.py:400-419 | collisions with stored origins or places and oversized values are found before the first write |
| KakaoExpansion.Session.ApplyRefreshes | backend/scripts/seed_kakao_catalog_expansion.py:423-437 | the refresh loop writes exactly the applicable rows |
| KakaoExpansion.Session.RenewSeen | backend/scripts/seed_kakao_catalog_expansion.py:438-449 | the renewal loop touches exactly the Kakao links of seen cafes outside the quarantine |
| KakaoExpansion.Session.InsertCandidates | backend/scripts/seed_kakao_catalog_expansion.py:450-478 | the new cafes and their links, with fresh ids |
| KakaoExpansion.Session.SeedKakaoCatalogExpansion | backend/scripts/seed_kakao_catalog_expansion.py:256-482 | a run is refused exactly when a check fails and then writes nothing; a dry run plans what a write applies |
| CatalogWriters.EveryWriterKeepsConstraints | backend/app/models.py:282-293 | no sequence of runs of the three writers breaks a constraint of the tables |
| CatalogWriters.ProviderRunKeepsOwnerExactly | backend/scripts/seed_provider_cafes.py:303-319 | a catalogue keeps a Kakao cafe the owner of its place exactly when each reference to the place has the source match rule and the address of the place |
| CatalogWriters.EveryWriterKeepsOwnership | backend/scripts/seed_kakao_catalog_expansion.py:194-238 | with catalogues of other origins, no earlier run of any writer makes the ownership test fail |
| BackfillMonths.InclusiveMonths | backend/scripts/download_living_population_history.py:53-74 | the loop over years and months gives the closed-form range, with the same errors |
| BackfillMonths.RangeIsExact | backend/scripts/download_living_population_history.py:53-74 | the range holds exactly the valid month names between its ends in string order, ascending |
| BackfillMonths.ParseRender | backend/scripts/download_living_population_history.py:44-50 | a rendered month parses to itself |
| BackfillMonths.RenderParse | backend/scripts/download_living_population_history.py:44-50 | a parsed month name renders to itself |
| BackfillMonths.NamesSortLikeMonths | backend/scripts/download_living_population_history.py:58-63 | the string order of month names is the calendar order |
| Backfill.PublishedFilesAreNeverLost | backend/scripts/download_living_population.py:40-55 | no sequence of runs, raced, failed or killed at any step, overwrites or removes a published month |
| Backfill.ManifestNeverLies | backend/scripts/download_living_population_history.py:311-337 | from a truthful manifest, every sequence of steps leaves one in which each successful entry names a published file of that size and digest |
| Backfill.SuccessMeansEveryMonthIsPublished | backend/scripts/download_living_population_history.py:336-340 | a successful run leaves every month of its range published and recorded with size and digest |
| BackfillSuccess.UndisturbedRunSucceeds | backend/scripts/download_living_population_history.py:229-340 | whenever the preflight of an applied run passes, the run that nothing disturbs succeeds: each missing month holds exactly the bytes received for it, the other files are as they were, and the manifest records every month |
| BackfillSuccess.FaultIsRecorded | backend/scripts/download_living_population_history.py:321-350 | when any action of an applied run raises, it stops with a failed manifest in which the month in progress is failed and every other entry as it was, and no published file is touched |
| Backfill.RefusedOrDryRunChangesNothing | backend/scripts/download_living_population_history.py:229-309 | a run that is refused or dry leaves the directory as it was |
| Backfill.ResumePassesExactly | backend/scripts/download_living_population_history.py:126-182 | with a truthful manifest a resumed preflight passes exactly when the manifest authorizes the range, no partial file is there, and each published month is recorded as successful and is a whole ZIP archive |
| Backfill.ResumeVerifiesExactly | backend/scripts/download_living_population_history.py:246-299 | whatever the manifest says, a resume passes exactly when it authorizes the range, no partial file is there, and for each month the recorded outcome, size and digest are those of the file |
| Backfill.FreshPassesExactly | backend/scripts/download_living_population_history.py:230-264 | a fresh preflight passes exactly when nothing of the range is there and, to write, no manifest |
| Backfill.ResumeSurvivesKillsBetweenDownloads | backend/scripts/download_living_population_history.py:311-337 | after an applied run that loses at most downloads, a resume passes if the kill came between downloads or after the end, and is refused if it came between creating a partial file and recording it |
| CachePublication.SplitAfterNewline | backend/scripts/build_provider_cafe_catalog.py:115 | whole lines can be split on their own |
| CachePublication.CacheReadsBackUnlessBroken | backend/scripts/build_provider_cafe_catalog.py:114-126 | a cache text reads back as its records exactly when no record text holds U+0085, U+2028 or U+2029; otherwise it is refused |
| CachePublication.AcceptedReadIsOnePublishedVersion | backend/scripts/build_provider_cafe_catalog.py:102-132 | under any interleaving of publishers, finished or killed, a reader refuses or returns the records of one version published whole |
| CachePublication.AcceptedSnapshotIsOneVersion | backend/scripts/seed_kakao_catalog_expansion.py:101-144 | if what lies between two placements of one manifest has its release time, an accepted snapshot carries records and release time of one published version |
| CachePublication.AcceptedSnapshotOrRestoredManifest | backend/scripts/seed_kakao_catalog_expansion.py:101-144 | on every log an accepted snapshot is one version, or a readable version with another release time lies between two placements of one manifest |
| CachePublication.DistinctManifestsAreSteady | backend/scripts/seed_kakao_catalog_expansion.py:101-144 | with distinct manifests that condition is met |
| CachePublication.RestoredManifestMixesVersions | backend/scripts/seed_kakao_catalog_expansion.py:108-120 | whenever whole publications put a manifest back around such a version, four reads exist that pair its records with the other release time |
| CachePublication.SnapshotsAreVersionsExactly | backend/scripts/seed_kakao_catalog_expansion.py:101-144 | on a log of whole publications every accepted snapshot is one version if and only if no readable version lies between two placements of one manifest with another release time |
| CachePublication.HalfPublicationIsRefused | backend/scripts/cache_kakao_cafes.py:172-173 | between the two replacements of a changed cache every reader refuses |
| CachePublication.WholePublicationReadsUnlessBroken | backend/scripts/build_provider_cafe_catalog.py:64-132 | a version published whole and left alone reads back exactly when no record text holds an unescaped line boundary |
| CachePublication.WriteRecords | backend/scripts/cache_kakao_cafes.py:89-93 | the record loop writes the cache text |
| CachePublication.ReadLines | backend/scripts/build_provider_cafe_catalog.py:114-126 | the reading loop accepts exactly the texts whose nonblank lines are records |
| CachePublication.Directory.PublishCache | backend/scripts/cache_kakao_cafes.py:142-177 | an incomplete sweep or foreign digest is refused before a write; the manifest is never replaced before its cache |
| CachePublication.Directory.ReadKakaoCache | backend/scripts/build_provider_cafe_catalog.py:102-132 | reading the files as they are |
| PermitProfile.SelectionIsOrderFree | backend/scripts/profile_refreshment_permits.py:333-343 | the selected row of every management number does not depend on the order or multiplicity of the rows |
| PermitProfile.SelectOneMore | backend/scripts/profile_refreshment_permits.py:333-343 | a row takes over exactly when it outranks the selected one by update time and fingerprint |
| PermitProfile.TrackedIsLatest | backend/scripts/profile_refreshment_permits.py:351-378 | the row that repetitions are compared with has the latest update time of its number, or none if the first row has none |
| PermitProfile.RolesByTime | backend/scripts/profile_refreshment_permits.py:364-381 | a conflicting repetition is a later version exactly when it is after every update time of its number so far, and an earlier one exactly when one of them is after it |
| PermitProfile.Profile.ProcessRow | backend/scripts/profile_refreshment_permits.py:322-387 | one row keeps every counter true of the rows so far, by what each row is to the rows before it: the first of its number, identical, a later or an earlier version, or a tie |
| PermitProfile.Profile.ProcessPage | backend/scripts/profile_refreshment_permits.py:303-321 | a page is folded in exactly when it has the announced total and length |
| PermitProfile.PagesTileTotal | backend/scripts/profile_refreshment_permits.py:430-440 | the pages add up to the announced total: the completeness error cannot happen |
| PermitProfile.DistinctIds | backend/scripts/profile_refreshment_permits.py:521 | there are as many management numbers as rows exactly when none repeats |
| PermitProfile.BuildPermitProfile | backend/scripts/profile_refreshment_permits.py:249-440 | a profile is refused exactly for a bad page size, a missing, blank or repeated category, or a page that does not fit, in this order; its duplicate counts are rows minus numbers, its gate says that no number repeats |
| PermitProfile.UniqueMembers | backend/scripts/profile_refreshment_permits.py:261-262 | the set of categories is as large as their list exactly when none repeats |

## Left out

- The text of tile and cache keys: a key is the pair of label and tile, a tile its zoom, column and row.
- The moment between the abort of a waiting tile and its rejection: both are one step of `TileFetches`.
- The detail cache, the other properties of a map feature, and the shape checks of single items in a reply.
- The bounding-box span limit of the endpoint: its refusal is a failed reply.
- Floating-point rounding, in the geometry, the statistics and the distance of stations; the square root of the correlation is a parameter with its defining property.
- Trigonometry of the latitude map and of distances; the grid takes as a hypothesis that a chord is not longer than its arc.
- Names, colours, centroids and line order of the station features, and the clipping of line segments.
- Distributions, percentiles and cycle signals of the ingest report, which read one list each.
- The aggregates of the capacity report besides the gate counters; the order of one lookup, since the counters do not depend on it.
- CSV quoting, the other columns of the worksheet, and the stripping of blanks around hotspot names.
- Changed-field counts of the provider upsert, and the values a candidate turns into: columns are a map, and the comparison of a stored with an incoming value is any reflexive one.
- The sorting of references and candidates before the provider upsert: it decides the order and the fresh ids of inserted rows only.
- SQL, transactions and the identity map of the session: a table is a sequence of rows, a run is alone on it, and a database that refuses a statement is not modelled.
- The matching of Naver search answers, its other status counts and request counter: one search is a function of the cafe row.
- The builders of Kakao refreshes and candidates: their plan is a parameter with what they guarantee about ids.
- The loops of the backfill's `main` and the asynchronous methods of the map client: each action is a function of the whole state, so that it can fail, interleave or be the last one, and updates of shared objects in place are not captured there.
- Two processes that write the same partial file of the backfill: nothing in the code excludes them, and the machine has one downloading process besides other publishers.
- Removal of published files by hand, and a second write of the same failed manifest.
- The parsing of the release time, and UTF-8: a cache is a text, its digest is injective, and a record is what its JSON text decodes to.
- The catalogue build, which links two new files and unlinks the first if the second fails.
- Status, category and conflict-field counts of the permit profile, which depend on the order of the rows, and its coordinate and area statistics.
- HTTP, retries, logging, argument parsing, file modes and licence manifests.
