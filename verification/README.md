# Verified models of the analytics and chart engines

The repository is mostly dashboards, but a handful of its TypeScript engines carry state or arithmetic: a
progressive chunk loader and an LRU cache, streaming chart buffers, a rate limiter, correlation and regression, a
CSV printer, colour conversion, and windowed scrolling. This project models those engines in Dafny and proves what
they keep, conserve, bound or undo.

`dafny verify dfyconfig.toml` checks everything. There is one module per component:

| module | models |
|---|---|
| `ChunkLoader`, `LoaderWaits`, `LoaderFailures`, `SharedChunks` | progressive loading by any number of interleaved loaders: its steps, who waits for whom and whether loads end, what fails and how it recovers, what loads of different sources share |
| `ChunkKeys`, `JsArrays` | chunk ids and cache keys; `slice` |
| `RangeCache`, `CacheRuns`, `CacheEntries`, `StableSort` | the cache with expiry and LRU eviction, and the range reads through it; runs of it; the life of one entry; the stable sort |
| `Streaming`, `Compression`, `Aggregation` | the real-time chart engine and what it does to a buffer |
| `Regression`, `Ranks`, `MatrixRegression`, `Series`, `Histogram` (on `Sums`, `RealFacts`) | the statistics of both engines |
| `RateLimiter`, `Throttle` | the API rate limiter with its sweep; the throttle helper |
| `Csv` | the CSV printer, against a parser for section 2 of RFC 4180 |
| `Colour`, `Palette` | RGB and HSL, hexadecimal colours, generated palettes |
| `Scrolling` | the row windows of the chart engine, its worker and the web library |

State that the source updates in place is a class whose methods are proved against functions on values; the results
about whole runs are lemmas on those functions, over every sequence of operations. Methods of those classes that only
repeat their one-line function (subscribing, unsubscribing, adding a point, clearing a chart or the cache) have no row
of their own below. The loader is a state machine, because its interest is how loaders interleave at their `await`
points.

Conventions of the model:

- Numbers are exact: `int` or `real`, with no rounding or infinity. Where the code divides by zero, the input is
  excluded by a `requires` that says so, or answered as the code answers (a comparison with NaN is false; the shade of
  a palette of one colour is NaN).
- `Math.sqrt` is a parameter with its defining property (`Regression.IsSqrt`).
- `Date.now()` is a parameter, one reading per operation. Results that need a clock that does not go back say so.
- `hide` statements in proofs only keep definitions away from the solver.
- A JavaScript `Map` is a `map`, or a sequence in insertion order where that order matters (cache, windows).

## What turned out not to hold

Several things that the code or its comments suggest are false of the code. Each is stated with the exact condition
under which it holds.

- Chunk ids and cache keys name a range but not a data source, so two sources share them: loads are their own exactly
  for equal sources (`SharedChunks.SourcesMustAgree`), range reads exactly when one source is a prefix of the other
  (`CacheRuns.ProvidersMustAgree`).
- Clearing chunks while one loader waits for another can leave the waiting one polling for ever
  (`LoaderWaits.ClearingStrandsAWaitingLoader`, `LoaderWaits.StrandedLoaderNeverEnds`). Every wait is served exactly
  when no clear removes an awaited chunk (`LoaderWaits.WaitsAreServedExactlyWhen`).
- `maxCacheSize` does not bound the total size, since with at most four entries nothing is ever evicted. A store keeps
  the limit exactly when the entry fits or the evicted fifth makes up for it (`RangeCache.SizeLimitHoldsWhen`); over
  runs the excess is bounded (`CacheRuns.TotalSizeIsBounded`), and so is the number of entries
  (`CacheRuns.CacheStaysWithinCapacity`).
- "100 requests per minute" holds per window, and for a span of time exactly when it is a single instant: the most that
  a span of each length can admit is `RateLimiter.SpanBound`.
- Headers and values that are not strings are written without quoting, and the CSV can be read back exactly when
  none of them needs it (`Csv.RoundTrip`).
- Negative slice bounds count from the back (`JsArrays.SliceIsRange`). A negative end makes range reads and
  virtualisation return rows that were not asked for (`CacheRuns.CacheIsInvisible`, `Scrolling.ItemsAreWindow`,
  `Scrolling.ViewportAboveTheList`); a negative start makes the worker lose rows that show
  (`Scrolling.WorkerShowsExactly`, `Scrolling.WorkerAboveTheList`).
- A generated palette does not keep to its hue: a hue moved below 0 matches no sector, so palettes around red begin with
  greys (`Palette.HueBelowZeroExactlyWhen`, `Palette.GreyExactlyWhen`, `Palette.PaletteBeginsGrey`).
- A palette of one colour is not a colour unless both of its offsets are given (`Palette.GenerateColorPalette`).

## Model

| member | source | states |
|---|---|---|
| ChunkLoader.LoadersHoldPrefixes | src/lib/charts/PerformanceEngine.ts:297-409 | over every interleaving of loads of one source, with failures and clears anywhere, each loader holds a prefix of the source; one that ends without error holds all of it exactly when its chunk size is positive or there is nothing to load |
| LoaderFailures.LoadersAreStarts | src/lib/charts/PerformanceEngine.ts:297-304 | over every interleaving the l-th loader loads the source, in chunks of the size and with the delay, that the l-th start gave |
| LoaderFailures.OnlyFailedFetchesFailLoads | src/lib/charts/PerformanceEngine.ts:356-409 | after every run, whatever failed in it, no load begun later fails as long as no fetch fails, with clears anywhere: a load that finds a failed chunk fetches it again |
| LoaderFailures.RetryLoadsEverything | src/lib/charts/PerformanceEngine.ts:297-409 | so after every run over one source in which waits are served, however many fetches failed, a new load with a positive chunk size can be brought to hold the whole source |
| LoaderFailures.PauseAfterEveryChunk | src/lib/charts/PerformanceEngine.ts:333-336 | over every interleaving a loader with a delay pauses once after each chunk it takes up, and one without never does |
| ChunkLoader.OneFetchPerChunk | src/lib/charts/PerformanceEngine.ts:351-409 | over every interleaving, whatever the sources, a chunk id has at most one fetch in flight, plus one for each clear that dropped it while loading |
| ChunkLoader.WithoutClearsOneFetch | src/lib/charts/PerformanceEngine.ts:358-394 | while nothing is cleared, no chunk is fetched twice at once |
| ChunkLoader.EachDropAllowsAnotherFetch | src/lib/charts/PerformanceEngine.ts:846-849 | that bound is met for every number of drops |
| SharedChunks.LaterLoadsGetTheFirstsData | src/lib/charts/PerformanceEngine.ts:297-409 | over every interleaving of loads of any sources without clears: once a load has completed, every later load with the same chunk size, whatever its source, holds a prefix of the first one's data, does not fail, and completes with exactly that data |
| SharedChunks.SecondLoadGetsTheFirstsData | src/lib/charts/PerformanceEngine.ts:356-363 | for every chunk size there is a run in which a load of one source completes, and then a load of another completes with the first source's data |
| SharedChunks.SourcesMustAgree | src/lib/charts/PerformanceEngine.ts:356-363 | completed loads hold their own source in every run over two sources exactly when the two are equal |
| SharedChunks.LoadsAskAtMultiples | src/lib/charts/PerformanceEngine.ts:306-341 | over every interleaving without clears a load asks for chunks at multiples of its chunk size only, so a short chunk is its last |
| LoaderWaits.ServedExactlyWhenHarmless | src/lib/charts/PerformanceEngine.ts:462-471 | when every waiting loader's chunk is registered, a step leaves it so exactly when it is no clear, a full clear while nobody waits, or an age clear for which every awaited chunk is young enough |
| LoaderWaits.WaitsAreServedExactlyWhen | src/lib/charts/PerformanceEngine.ts:351-409 | over every interleaving: at each point a waiting loader finds its chunk registered and a chunk registered as loading is being fetched, exactly when each clear was harmless in that sense at its point |
| LoaderFailures.AgeClearDropsExactlyOld | src/lib/charts/PerformanceEngine.ts:382-394 | a chunk whose fetch began at time t is dropped by an age clear at a later time exactly when more than 300,000 ms have passed (clear: 462-471) |
| LoaderWaits.ClearingStrandsAWaitingLoader | src/lib/charts/PerformanceEngine.ts:364-379 | a clear between fetch and poll reaches a state in which the waiting loader's chunk is gone and every other load is over |
| LoaderWaits.StrandedLoaderNeverEnds | src/lib/charts/PerformanceEngine.ts:367-376 | from such a state no steps short of a new load ever move that loader |
| LoaderWaits.MovesAreBounded | src/lib/charts/PerformanceEngine.ts:297-409 | over every interleaving, with failures and clears anywhere, the steps that move a load on, that is all but idle polls, number at most 4 n + 3 for each load started, n being the longest source |
| LoaderWaits.SomeLoaderMoves | src/lib/charts/PerformanceEngine.ts:351-409 | while waits are served, some load can be moved on unless all have ended |
| LoaderWaits.LoadsCanEnd | src/lib/charts/PerformanceEngine.ts:297-409 | from every such state all loads can be brought to an end without a new load, a failure or a clear |
| ChunkKeys.KeyIsInjective | src/lib/charts/PerformanceEngine.ts:226 | different ranges never share a key, negative bounds included |
| ChunkKeys.KeyReads | src/lib/charts/PerformanceEngine.ts:226 | a key is `chunk_a_b` with both numbers in decimal notation, a minus sign before negative ones |
| JsArrays.SliceIsRange | src/lib/charts/PerformanceEngine.ts:235 | `slice` gives the elements with index in the range exactly when no negative bound, start or end, changes the result by counting from the back |
| JsArrays.NegativeBoundsCountFromBack | src/lib/charts/PerformanceEngine.ts:235 | a negative bound of `slice` stands for the one that is the length of the array further on, or for 0 |
| CacheRuns.CacheIsInvisible | src/lib/charts/PerformanceEngine.ts:208-251 | over every run on one source a range read returns what an uncached read returns, and that is the requested range exactly when a negative end does not reach back past the start |
| RangeCache.EvictionIsLRU | src/lib/charts/PerformanceEngine.ts:451-460 | eviction removes exactly the stated share, and whatever it removes was accessed before whatever stays, or at the same time and inserted earlier |
| CacheRuns.AccessTimeIsLastUse | src/lib/charts/PerformanceEngine.ts:576-591 | over every run an entry's access time is the time of the last operation that read or stored its key |
| CacheRuns.EvictionFollowsUse | src/lib/charts/PerformanceEngine.ts:451-460 | over every run eviction never removes a key used later than one that stays |
| RangeCache.GetServesLiveEntries | src/lib/charts/PerformanceEngine.ts:576-591 | a lookup hits exactly when the key is stored without an expiry time, or with one that is 0 or has not passed, and a missed key is not stored afterwards |
| RangeCache.SweepKeepsLive | src/lib/charts/PerformanceEngine.ts:602-610 | a sweep leaves exactly the entries without an expiry time, or with one that is 0 or has not passed |
| CacheEntries.ExpiryInNumbers | src/lib/charts/PerformanceEngine.ts:558-610 | over every run: an entry stored at t for ttl, and not stored again, evicted or cleared since, is served at `now` with its data, and survives a sweep at `now`, exactly when ttl is 0, t + ttl is 0, or now is at most t + ttl |
| CacheEntries.EntryHoldsWhatWasStored | src/lib/charts/PerformanceEngine.ts:558-591 | over every run an entry holds the data, size, creation and expiry time that the operation that stored it gave, a range read storing the clamped range for ever under its clamped bounds, and its access count is one more than the uses since |
| CacheEntries.EntriesStandInInsertionOrder | src/lib/charts/PerformanceEngine.ts:451-460 | over every run the entries stand in the order in which their keys came into the map, which decides between equal access times |
| CacheRuns.CacheStaysWithinCapacity | src/lib/charts/PerformanceEngine.ts:558-600 | over every run with entry sizes of at least 1 there are at most max(4, maxCacheSize) entries |
| RangeCache.SizeLimitHoldsWhen | src/lib/charts/PerformanceEngine.ts:593-600 | for every cache, storing an entry leaves the total size within the limit exactly when it fits, or the evicted fifth makes up for the excess |
| CacheRuns.TotalSizeIsBounded | src/lib/charts/PerformanceEngine.ts:558-600 | over every run with entry sizes between 1 and m the total size is at most 8 m, or over the limit by at most m for each pass that evicting stores need to bring a full cache down to eight entries |
| CacheRuns.PassesAreLogarithmic | src/lib/charts/PerformanceEngine.ts:593-600 | the number of those passes is logarithmic in the capacity |
| RangeCache.FewEntriesStay | src/lib/charts/PerformanceEngine.ts:593-600 | with at most four entries enforcing the limit evicts nothing |
| RangeCache.SizeLimitOnFewEntries | src/lib/charts/PerformanceEngine.ts:593-600 | so storing next to at most three entries respects the size limit exactly when all of them fit |
| CacheRuns.ProvidersMustAgree | src/lib/charts/PerformanceEngine.ts:221-241 | over every run of reads by two providers up to non-negative ends, with evictions, sweeps and clears anywhere, every read returns the reader's own range exactly when one source is a prefix of the other |
| RangeCache.Cache.SetCacheEntry | src/lib/charts/PerformanceEngine.ts:558-574 | the new entries are the specified ones, evicted if over the limit; keys stay unique |
| RangeCache.Cache.GetCacheEntry | src/lib/charts/PerformanceEngine.ts:576-591 | the answer and the new entries are the specified ones; it hits exactly for an entry that has no expiry time, or one that is 0 or has not passed, and removes an expired one; keys stay unique |
| RangeCache.Cache.EnforceCacheLimit | src/lib/charts/PerformanceEngine.ts:593-600 | evicts a fifth exactly when the total size is over the limit |
| RangeCache.Cache.EvictLRUCacheEntries | src/lib/charts/PerformanceEngine.ts:451-460 | deleting the first keys of the sorted entries one by one removes the specified set |
| RangeCache.Cache.CleanupCache | src/lib/charts/PerformanceEngine.ts:602-610 | leaves exactly the entries without an expiry time, or with one that is 0 or has not passed, in their order |
| RangeCache.Cache.ReadItems | src/lib/charts/PerformanceEngine.ts:221-241 | a provider's range read through the cache refines the specified read |
| StableSort.OrderIsOrdered | src/lib/analytics/AdvancedAnalyticsEngine.ts:670 | the sort orders by key and, for equal keys, by position |
| StableSort.OrderIsPermutation | src/lib/analytics/AdvancedAnalyticsEngine.ts:670 | every index occurs exactly once in the sorted order |
| Streaming.BuffersAreWindows | src/lib/charts/RealTimeChartEngine.ts:122-400 | in every reachable state a chart is in the chart, buffer and timer maps or in none; its buffer is the last max points accepted since it was registered or cleared, each stamped with its time of arrival if it had none, and overflow is set exactly when a point was dropped |
| Streaming.TimersNeverLeak | src/lib/charts/RealTimeChartEngine.ts:122-294 | in every reachable state the maps share one key set and exactly one timer runs for each registered chart, no other |
| Streaming.SubscriptionsAreLive | src/lib/charts/RealTimeChartEngine.ts:147-294 | in every reachable state a subscription is stored, under its own id, exactly when the run made it and since then neither replaced nor removed it, nor destroyed its chart, nor shut the engine down |
| Streaming.Engine.RegisterChart | src/lib/charts/RealTimeChartEngine.ts:122-142 | the new state: fresh buffer and timer, the old timer of that chart cleared |
| Streaming.Engine.AddToBuffer | src/lib/charts/RealTimeChartEngine.ts:380-400 | push and splice give the specified buffer |
| Streaming.Engine.DestroyChart | src/lib/charts/RealTimeChartEngine.ts:238-258 | the loop over subscriptions reaches the specified state |
| Streaming.Engine.ShutDown | src/lib/charts/RealTimeChartEngine.ts:263-294 | clears every chart timer and all maps |
| Compression.CompressData | src/lib/charts/RealTimeChartEngine.ts:433-453 | the loop computes the specified compression |
| Compression.KeptExactly | src/lib/charts/RealTimeChartEngine.ts:433-453 | the result holds, in order, exactly the first point, the points whose value differs from the one before, and those more than two update intervals after it |
| Compression.LastKeptHasTheValue | src/lib/charts/RealTimeChartEngine.ts:433-453 | at every position of any buffer the last point kept so far has the original value there |
| Compression.CompressionIsLossless | src/lib/charts/RealTimeChartEngine.ts:433-453 | for points in time order the value shown at any time is unchanged |
| Compression.CompressionIsIdempotent | src/lib/charts/RealTimeChartEngine.ts:433-453 | for points in time order compressing twice is compressing once, for any interval |
| Aggregation.AggregateData | src/lib/charts/RealTimeChartEngine.ts:455-499 | the two loops compute the specified windows and summaries |
| Aggregation.GroupsAreWindows | src/lib/charts/RealTimeChartEngine.ts:462-473 | windows have different keys, each holds exactly the recent points of its key in order, and no recent point is left out |
| Aggregation.OutputDescribesWindow | src/lib/charts/RealTimeChartEngine.ts:475-496 | each output counts all points of its window, lists the numeric ones in order and averages them |
| Aggregation.NumbersAreInOrder | src/lib/charts/RealTimeChartEngine.ts:478-480 | the listed values are those of exactly the numeric points, in their order |
| Aggregation.WindowPoints | src/lib/charts/RealTimeChartEngine.ts:462-473 | a window holds exactly the recent points from its key up to one window length on, or back if the window is negative |
| Aggregation.OutputsInFirstOrder | src/lib/charts/RealTimeChartEngine.ts:475-496 | the outputs stand in the order in which their windows first had a recent point |
| Aggregation.AggregationConserves | src/lib/charts/RealTimeChartEngine.ts:455-499 | counts and weighted averages add up to the number and the sum of the recent numeric values |
| Aggregation.OutputKeys | src/lib/charts/RealTimeChartEngine.ts:467-487 | output timestamps are different multiples of the window, whatever its sign |
| Aggregation.AtMostTwoWindows | src/lib/charts/RealTimeChartEngine.ts:455-499 | at most two outputs when no point lies in the future, and none if the window is negative |
| Regression.PearsonCorrelation | src/lib/analytics/AdvancedAnalyticsEngine.ts:260-279 | the loop computes the correlation from sums of deviations, 0 for constant data |
| Regression.CalculateCorrelation | src/lib/charts/StatisticalChartEngine.ts:369-392 | this engine's loop computes the same correlation, and 0 for empty or unequal inputs |
| Regression.PearsonIsBounded | src/lib/analytics/AdvancedAnalyticsEngine.ts:260-279 | a correlation lies in [-1, 1] |
| Regression.SimpleLinearRegression | src/lib/analytics/AdvancedAnalyticsEngine.ts:680-708 | line, predictions, residuals and R squared are those of the fitted line; prediction plus residual is the value |
| Regression.CalculateLinearRegression | src/lib/charts/StatisticalChartEngine.ts:394-434 | this engine's loops compute the same line and R squared, and zeros for empty or unequal inputs |
| Regression.FittedIsLeastSquares | src/lib/analytics/AdvancedAnalyticsEngine.ts:688-694 | no line has a smaller residual sum of squares, and exactly the lines through the point of means with that slope (any slope for constant x) have the same |
| Regression.TotalSplits | src/lib/analytics/AdvancedAnalyticsEngine.ts:696-706 | total sum of squares = residual + explained |
| Regression.RSquaredIsBounded | src/lib/analytics/AdvancedAnalyticsEngine.ts:700-708 | R squared lies in [0, 1] |
| Regression.RSquaredIsPearsonSquared | src/lib/charts/StatisticalChartEngine.ts:369-434 | R squared is the square of the correlation, also for constant x or y |
| Regression.ConstantData | src/lib/charts/StatisticalChartEngine.ts:369-434 | for constant x the line is horizontal at the mean of y; for constant x or y the correlation is 0 |
| Regression.CorrelationHasSignOfSlope | src/lib/charts/StatisticalChartEngine.ts:369-434 | where y is not constant the correlation has the sign of the slope |
| Ranks.RankArray | src/lib/analytics/AdvancedAnalyticsEngine.ts:669-678 | each rank is one more than the number of elements before that one |
| Ranks.RanksRespectOrder | src/lib/analytics/AdvancedAnalyticsEngine.ts:669-678 | ranks lie in 1..n, are all different, respect the order and break ties by position |
| Ranks.SpearmanCorrelation | src/lib/analytics/AdvancedAnalyticsEngine.ts:281-292 | the loop computes the shortcut formula on the ranks |
| Ranks.SpearmanIsPearsonOfRanks | src/lib/analytics/AdvancedAnalyticsEngine.ts:281-292 | the shortcut formula is the correlation of the ranks, with ties, and lies in [-1, 1] |
| MatrixRegression.MatrixMultiply | src/lib/analytics/AdvancedAnalyticsEngine.ts:856-869 | the triple loop computes rows times columns |
| MatrixRegression.InverseOfNormal | src/lib/analytics/AdvancedAnalyticsEngine.ts:875-887 | the normal matrix of one predictor is inverted exactly when n times the spread of x is at least 1e-10, and to what |
| MatrixRegression.InverseInverts | src/lib/analytics/AdvancedAnalyticsEngine.ts:875-887 | any two-by-two matrix is inverted, from both sides, exactly when its determinant is not within 1e-10 of 0 |
| MatrixRegression.MultipleRegression | src/lib/analytics/AdvancedAnalyticsEngine.ts:313-322 | the matrix path gives the intercept and slope of the closed form; it fails exactly for no rows, another number of predictors, or n times the spread below 1e-10 |
| MatrixRegression.PredictionsAgree | src/lib/analytics/AdvancedAnalyticsEngine.ts:324-327 | its predictions are those of the fitted line |
| Series.DetectAnomalies | src/lib/analytics/AdvancedAnalyticsEngine.ts:802-820 | reports, in order, exactly the indices i with 4 n (x_i - mean)^2 more than 25 times the spread, with their values and scores |
| Series.ReportedExactlyWhen | src/lib/analytics/AdvancedAnalyticsEngine.ts:802-826 | a value is reported exactly when 4 n times its squared deviation is more than 25 times the spread |
| Series.AnomaliesAreFew | src/lib/analytics/AdvancedAnalyticsEngine.ts:802-826 | at most 4 in 25 values are reported |
| Series.AnomalyNeedsEightValues | src/lib/analytics/AdvancedAnalyticsEngine.ts:802-826 | some series of length n has an anomaly exactly when n is at least 8 |
| Series.ComputeAutocorrelation | src/lib/analytics/AdvancedAnalyticsEngine.ts:762-779 | the loops compute the lagged sum over the spread |
| Series.AutocorrelationIsBounded | src/lib/analytics/AdvancedAnalyticsEngine.ts:762-779 | autocorrelation lies in [-1, 1] at every lag |
| Series.AutocorrelationInNumbers | src/lib/analytics/AdvancedAnalyticsEngine.ts:762-779 | it is the sum of the products of deviations `lag` apart over the sum of their squares: 1 at lag 0, and 0 beyond the data or for constant data |
| Histogram.CeilSqrt | src/lib/charts/StatisticalChartEngine.ts:190 | the number of bins is the square root rounded up |
| Histogram.ProcessHistogramData | src/lib/charts/StatisticalChartEngine.ts:188-209 | bins have the stated centres and counts; none for empty data |
| Histogram.BinsPartitionData | src/lib/charts/StatisticalChartEngine.ts:190-199 | each value falls into exactly one bin and the counts add up, also when all values are equal |
| Histogram.BinsInNumbers | src/lib/charts/StatisticalChartEngine.ts:188-209 | the least number of bins whose square reaches the number of values; they divide the range evenly, and each counts the values from its lower edge to below its upper, the last one including it |
| RateLimiter.Limiter.RateLimitCheck | src/lib/middleware/api-auth.ts:53-86 | answer and new store are the specified ones |
| RateLimiter.Limiter.CleanupRateLimitStore | src/lib/middleware/api-auth.ts:88-95 | the loop removes exactly the expired entries |
| RateLimiter.SweepIsInvisible | src/lib/middleware/api-auth.ts:53-98 | with sweeps at any moments every answer for every key is the one a store that is never swept gives |
| RateLimiter.SweepLeavesOpenWindows | src/lib/middleware/api-auth.ts:88-95 | over every run, after a sweep a key is stored exactly when one of its requests was answered with a reset time that has not passed |
| RateLimiter.WindowAdmitsAtMostLimit | src/lib/middleware/api-auth.ts:53-86 | over every run no window admits more than 100 requests of a key |
| RateLimiter.SpanAdmitsAtMost | src/lib/middleware/api-auth.ts:53-95 | over every run, with sweeps anywhere, a closed span of d ms admits at most 100 (d div 60,001 + 1) requests of a key, and 99 more unless 60,001 divides d |
| RateLimiter.SpanReachesBound | src/lib/middleware/api-auth.ts:53-86 | for every d some run reaches that number |
| RateLimiter.SpanBoundIsExact | src/lib/middleware/api-auth.ts:53-95 | so a number bounds the admissions of every span of d ms in every run exactly when it is at least that |
| RateLimiter.LimitHoldsForInstantsOnly | src/lib/middleware/api-auth.ts:53-95 | 100 bounds the admissions of every span of d ms exactly when d is at most 0; two consecutive ms, like a whole minute, can admit 199 |
| RateLimiter.AnswersReportRoomLeft | src/lib/middleware/api-auth.ts:60-85 | over every run each answer admits exactly while its window has room and reports the room left |
| Throttle.Throttler.Call | apps/web/lib/performance.ts:209-215 | a call extends the history, and the executions by itself exactly when it ran |
| Throttle.ExecutionsAreSpaced | apps/web/lib/performance.ts:203-216 | consecutive executions are at least the delay apart |
| Throttle.ExecutionsAreFarApart | apps/web/lib/performance.ts:203-216 | on a clock that does not go back, any two executions are |
| Throttle.DroppedExactlyWhenTooSoon | apps/web/lib/performance.ts:211-214 | a call is dropped exactly when it comes less than the delay after the last execution before it |
| Throttle.ThrottleIsOptimal | apps/web/lib/performance.ts:203-216 | no selection of the calls whose neighbours are at least the delay apart, none before time `delay` (the last call starts at 0), is larger than the executed set; clock not going back |
| Csv.CreateCSVData | src/lib/charts/ExportEngine.ts:611-634 | the loop prints the table, nothing for no data; where no raw text needs quotes, the output parses back to the keys and the values of the rows |
| Csv.RoundTrip | src/lib/charts/ExportEngine.ts:611-634 | parsing the output gives the keys and, field by field, the text of each row's value for each key, empty where it has none, exactly when there is a column and no key and no value that is not a string holds a comma, quote or line break |
| Csv.OutputIsShortest | src/lib/charts/ExportEngine.ts:611-634 | no text that parses as these records is shorter than the output |
| Csv.FinalBreakLosesEmptyCell | src/lib/charts/ExportEngine.ts:633 | a reader that takes a final line break as the end of the last record loses the last row exactly when it is a single empty cell |
| Colour.ConversionRoundTrip | src/lib/charts/ThemeEngine.ts:715-776 | RGB to HSL and back is the identity for all channels in [0, 1] |
| Colour.HslIsInRange | src/lib/charts/ThemeEngine.ts:715-747 | hue lies in [0, 360), saturation and lightness in [0, 100] |
| Colour.GreysHaveNoHue | src/lib/charts/ThemeEngine.ts:715-747 | greys get hue 0, saturation 0 and their own lightness |
| Colour.FullColours | src/lib/charts/ThemeEngine.ts:715-747 | the hues of all full colours: red at 0, yellow at 60, green at 120, cyan at 180, blue at 240, magenta at 300, and linear in between |
| Colour.ChannelsAreInRange | src/lib/charts/ThemeEngine.ts:749-776 | any hue with saturation and lightness in percent gives channels in [0, 1] |
| Palette.PrintedHslIsColour | src/lib/charts/ThemeEngine.ts:749-779 | and prints as # and six hexadecimal digits |
| Palette.RoundIsNearest | src/lib/charts/ThemeEngine.ts:774-776 | each channel is printed as the nearest byte, the larger one half way |
| Palette.HexRoundTrip | src/lib/charts/ThemeEngine.ts:715-779 | every hexadecimal colour survives conversion to HSL and back, up to the case of its digits |
| Palette.HexDigits | src/lib/charts/ThemeEngine.ts:715-718 | the sixteen digits stand for their values, in either case |
| Palette.ChannelsOfHex | src/lib/charts/ThemeEngine.ts:715-718 | red, green and blue are the three pairs of digits, in that order, out of 255 |
| Palette.LowerIsLower | src/lib/charts/ThemeEngine.ts:778 | the round trip changes capital digits to small ones and nothing else |
| Palette.GenerateColorPalette | src/lib/charts/ThemeEngine.ts:329-353 | the palette has the asked length (5 for none), each entry is the base moved for its position, and it is a valid colour exactly when there is more than one or its saturation and lightness offsets are given and not 0 |
| Palette.PaletteEnds | src/lib/charts/ThemeEngine.ts:341-350 | without offsets the first colour is 20 percent darker, 10 percent less saturated and 15 degrees back from the base, the last as much the other way, within the limits |
| Palette.PaletteSteps | src/lib/charts/ThemeEngine.ts:341-350 | neighbours differ by an equal share of 40 percent in lightness and 20 percent in saturation wherever neither is at its limit |
| Palette.PaletteHueSteps | src/lib/charts/ThemeEngine.ts:341-350 | and by an equal share of 30 degrees in hue as long as it does not pass a whole turn |
| Palette.OffsetsAreExact | src/lib/charts/ThemeEngine.ts:345-347 | an offset that is given and not 0 moves its channel by exactly that much, clamped or reduced, in palettes of every length |
| Palette.RemainderOf | src/lib/charts/ThemeEngine.ts:349 | the remainder drops whole turns and keeps the sign |
| Palette.GreyExactlyWhen | src/lib/charts/ThemeEngine.ts:749-776 | a converted colour is grey exactly when its hue lies outside [0, 360), its saturation is 0, or it is black or white |
| Palette.GreyIsOutsideSectors | src/lib/charts/ThemeEngine.ts:749-776 | a hue that is not a number gives the same grey as one outside all sectors |
| Palette.HueBelowZeroExactlyWhen | src/lib/charts/ThemeEngine.ts:345-349 | without offsets the hue of a position falls below 0 exactly when the base's hue and the position's share of 30 degrees are less than 15 |
| Palette.PaletteBeginsGrey | src/lib/charts/ThemeEngine.ts:341-353 | such a position is printed as a grey |
| Palette.MiddleIsBase | src/lib/charts/ThemeEngine.ts:341-350 | without offsets the middle of an odd palette is the base colour exactly when the palette has more than one |
| Scrolling.ScrollWindowCovers | apps/web/hooks/useVirtualScroll.ts:39-57 | every row that shows is in the window; `useVirtualTable` (97-111) and `calculateVirtualScrollItems` compute the same window |
| Scrolling.ScrollWindowOverscans | apps/web/hooks/useVirtualScroll.ts:39-57 | the window begins `overscan` rows before the row at the top of the viewport, or with the first row, and holds every row within `overscan` of one that shows |
| Scrolling.ScrollWindowIsSmall | apps/web/lib/performance.ts:168-187 | the window's size does not depend on the number of items, and it is non-empty exactly when its first row exists |
| Scrolling.BufferedWindowCovers | src/lib/charts/PerformanceEngine.ts:272-281 | every row that shows is in the engine's window |
| Scrolling.BufferedWindowOverscans | src/lib/charts/PerformanceEngine.ts:272-281 | it begins `overscan` and `bufferSize` rows before the row at the top, or with the first row, and holds every row within that many of one that shows |
| Scrolling.ItemsAreWindow | src/lib/charts/PerformanceEngine.ts:279-284 | the returned items are the window's rows exactly when the viewport does not end far enough above the list for the end of the slice to count from the back |
| Scrolling.VirtualizedShowsEverything | src/lib/charts/PerformanceEngine.ts:253-292 | for every viewport each row that shows is returned at its place |
| Scrolling.WholeListWithout | src/lib/charts/PerformanceEngine.ts:253-265 | the total height is that of all rows, and without virtualisation all of them are returned |
| Scrolling.VirtualizedIsSmall | src/lib/charts/PerformanceEngine.ts:253-292 | and at most ceil(height/itemHeight) + 2 overscan + 2 bufferSize + 2 rows are, unless the end of the slice counts from the back |
| Scrolling.RowsFromTheBack | src/lib/charts/PerformanceEngine.ts:284 | in that case no row shows, and the number of rows returned grows with the list |
| Scrolling.ViewportAboveTheList | src/lib/charts/PerformanceEngine.ts:284 | a viewport of one row above a list of three gets two rows, though none shows |
| Scrolling.WorkerShowsExactly | src/lib/charts/PerformanceEngine.ts:730-744 | for every viewport the rows between the worker's indices are exactly the rows that show, and its slice holds them exactly when no negative index counts from the back |
| Scrolling.WorkerBelowTheTop | src/lib/charts/PerformanceEngine.ts:730-744 | which holds for every viewport that does not start above the list |
| Scrolling.WorkerAboveTheList | src/lib/charts/PerformanceEngine.ts:736 | a viewport that starts a row above a list of three and ends inside it shows the first row and gets nothing |

## Left out

- Floating-point rounding and infinity, and NaN but for palettes of one colour; two readings of the clock inside one operation.
- `loadDataProgressively` as one sequential method: the loader is modelled as steps on values, so its metrics, progress events and how long its delays last are not captured.
- Aliasing of cached arrays: a caller that changes a returned array in place changes the cached one.
- `manageMemory` and `initialize` of the performance engine, which call methods the class does not define; sampling and level of detail; metrics.
- WebSocket connection, reconnection, heartbeat, message parsing and subscription transforms; what a chart update emits; an aggregation window of 0, which the caller skips.
- R squared of the matrix path, which is that of its predictions where y is not constant and NaN or infinite where it is; adjusted R squared, F statistics, standard errors, p-values, critical values and confidence intervals (placeholders, or `normalInverse`, which does not parse); t, chi-square and Kendall; seasonality, change points and forecasts.
- Multiple regression with more than one predictor, which the code does not support; ragged rows.
- Box-plot and summary statistics, heatmap, funnel and cohort processing; histogram labels, and the sort before binning, which does not affect the counts.
- Colour strings other than # and six hexadecimal digits, which parse as NaN; contrast and luminance; theme registration.
- API-key validation; the premium rate limit, which the code does not use; requests that race inside one check.
- Debounce, performance monitors, React state and styles.
- Excel, PDF and image export; `Object.keys` order when no headers are given (the keys are a parameter).
