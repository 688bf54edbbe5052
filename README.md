# Index Performance Monitor — a verified model of the index engine

The Index Performance Monitor builds an equal-weighted stock index. Each
calendar day of a requested range, it keeps up to 100 tickers with the
largest market capitalisation (fewer when fewer have a price that day) and gives each of them the same weight. It
then chains daily returns into a cumulative return, one day after another.
Composition and performance reads go through a cache. A cached read is
keyed only by the reader's name and the date. A rebuild flushes every key
that mentions the index.

This project models that engine in Dafny and proves what it does:

- `common.dfy` (module `Common`) holds the shared row types. Dates are day
  numbers, so the next calendar day is `d + 1`. It also defines grouping of
  date-keyed row lists (`On`).
- `ranking.dfy` (module `Ranking`) models the per-day market-cap ranking
  query and the grouping of its rows by date. The query has no tie-break,
  so a correct ranking is specified as *any* order with non-increasing
  caps.
- `return_chain.dfy` (module `ReturnChain`) gives the performance step of
  one day as a function of the tables. The step can end in one of five
  ways: skip, first trading day, abort, missing predecessor, or
  compute-and-upsert. The module also gives the walk over a range of days
  as a function, and proves what the walk promises.
- `database.dfy` (module `Database`) is the store: class `IndexDatabase`,
  whose fields are the price, composition and performance tables.
  - The table deletes and inserts are specified by their effect on those
    fields.
  - The performance step and the day loop are imperative methods, proved
    equal to the functions of `ReturnChain`.
- `cache.dfy` (module `Cache`) models the key space (`Redis`) and the
  lazily created client (`ClientSlot.GetRedis`). It also covers cache-aside
  memoization (`Memoize`) and the pattern flush (`FlushRedis`).
- `cached_reads.dfy` (module `CachedReads`) holds the memoized reads of the
  store.
  - Each read is specified by a *view*: the cached value where there is
    one, the table where there is not.
  - Under a cache that agrees with the tables (`Coherent`), which is what a
    rebuild leaves behind, the view is the table.
- `index_service.dfy` (module `IndexService`) holds the rebuild of the
  index (`BuildIndex`) and the day-over-day composition changes
  (`GetCompositionChanges`).

Prices, weights and returns are `real`. The store's tables are maps held
by an object, and the cache's key space is a map from strings to cached
values.

## Model

| member | source | states |
|---|---|---|
| Ranking.MaxCapTicker | app/database/db_manipulation.py:113-118 | returns a ticker of the candidate set whose cap is at least every other candidate's cap |
| Ranking.RankDay | app/database/db_manipulation.py:104-125 | the day's ranking lists `min(100, n)` distinct priced tickers with their own caps, in non-increasing cap order, and no unlisted ticker has a larger cap than a listed one (ties in any order) |
| Ranking.RankedRows | app/database/db_manipulation.py:104-128 | the query's rows come in ascending date order; each day of the range with price rows has a correct ranking as its rows; every other day has none |
| Ranking.TopHundredByMarketCap | app/database/db_manipulation.py:91-133 | the result has a key exactly for each day of `[start, end]` with price rows (`end` defaults to `start`), and each value is a correct ranking of that day, rows kept in query order |
| ReturnChain.PrevTradingDate | app/database/db_manipulation.py:370-385 | the previous trading date is none exactly when no composition date lies before `d`; otherwise it is the greatest composition date before `d`, whatever its row count |
| ReturnChain.Outcome | app/database/db_manipulation.py:188-278 | the day is skipped exactly when its composition does not have 100 rows; it is a first trading day exactly when it has 100 rows and no earlier composition date; an abort names a previous trading date with an unpriced member, or one without a record; a computed record satisfies `1 + cum = (1 + prev_cum)(1 + daily)` against a fully priced predecessor that has a record |
| ReturnChain.DayStep | app/database/db_manipulation.py:188-278 | one day's step changes no record but that day's, and never removes that day's record |
| ReturnChain.DailyReturn | app/database/db_manipulation.py:228-250 | the weighted sum of the members' simple returns is zero when no member's close moved |
| ReturnChain.Compound | app/database/db_manipulation.py:267 | geometric compounding: a flat day keeps the cumulative return, and compounding onto a flat history gives the day's return |
| ReturnChain.Chain | app/database/db_manipulation.py:281-293 | the walk over `[start, end]` never removes a record that was there before it |
| ReturnChain.StepSkipsIncompleteComposition | app/database/db_manipulation.py:201-203 | a day whose composition does not have exactly 100 rows leaves the performance table unchanged |
| ReturnChain.StepFirstTradingDay | app/database/db_manipulation.py:216-226 | with no earlier composition date, `(0, 0)` is inserted only when the day has no record; an existing record stays untouched |
| ReturnChain.StepAbortsOnMissingPrice | app/database/db_manipulation.py:231-246 | a member without a close on the day or on the previous trading date leaves the table unchanged: no partial record |
| ReturnChain.StepNeedsPredecessor | app/database/db_manipulation.py:255-265 | when the previous trading date has no record, nothing is written |
| ReturnChain.StepCompounds | app/database/db_manipulation.py:228-278 | otherwise the day's record becomes `(r, (1 + c)(1 + r) - 1)`, with `r = Σ wᵢ(todayᵢ/prevᵢ − 1)` and `c` the predecessor's cumulative return, overwriting any old record; nothing else changes |
| ReturnChain.ChainFrame | app/database/db_manipulation.py:281-293 | days outside `[start, end]` keep their records through the walk |
| ReturnChain.ChainSplit | app/database/db_manipulation.py:291-293 | walking `[from, to]` is walking `[from, e)` and then `[e, to]`: each day is stepped exactly once, in ascending order |
| ReturnChain.ChainAt | app/database/db_manipulation.py:291-293 | a day's final record is the one its own step wrote against the table of the day before, and later steps leave earlier days alone |
| ReturnChain.ChainChangesOnlyTradingDays | app/database/db_manipulation.py:201-203 | only days of the range whose composition has exactly 100 rows can have their record changed by the walk |
| ReturnChain.ChainFirstTradingDay | app/database/db_manipulation.py:216-226 | a first trading day of the walk ends with `(0, 0)` unless it already had a record, which it then keeps |
| ReturnChain.ChainAbortsOnMissingPrice | app/database/db_manipulation.py:244-246 | a day of the walk with an unpriced member ends with the record it had before the walk |
| ReturnChain.ChainCompounds | app/database/db_manipulation.py:255-278 | a fully priced trading day ends with its daily return compounded onto its predecessor's final cumulative return, when the predecessor has a record; otherwise it keeps its old record |
| ReturnChain.ChainBreakPropagates | app/database/db_manipulation.py:206-265 | starting from an empty table, when a composition date ends without a record, every later composition date ends without one too, whatever its row count and whether the walk reaches it |
| ReturnChain.UniformContribution | app/database/db_manipulation.py:249 | a member whose close grows by `1 + g` contributes `g` times its weight |
| ReturnChain.UniformGrowth | app/database/db_manipulation.py:228-250 | when every member grows by the same factor `1 + g`, the daily return is `g` times the total weight |
| Database.IndexDatabase.DeleteComposition | app/database/db_manipulation.py:155-163 | the composition table is empty afterwards, for every date |
| Database.IndexDatabase.InsertComposition | app/database/db_manipulation.py:136-152 | each date's composition gains exactly the inserted rows of that date, in the order given; other dates are unchanged |
| Database.IndexDatabase.DeletePerformance | app/database/db_manipulation.py:312-324 | the performance table is empty afterwards |
| Database.IndexDatabase.GetPrevTradingDate | app/database/db_manipulation.py:370-385 | the MAX-over-dates loop returns exactly `PrevTradingDate` |
| Database.IndexDatabase.SetIndexPerformance | app/database/db_manipulation.py:188-278 | the imperative step, with its early returns and summing loop, leaves the performance table equal to `DayStep`; the `valid_count != 100` return can never be taken |
| Database.IndexDatabase.BuildIndexPerformance | app/database/db_manipulation.py:281-293 | the day loop leaves the performance table equal to the walk `Chain` over `[start, end]` |
| Cache.DateArgument | app/database/decorators.py:39-43 | the cache date is the `date` keyword argument when present, otherwise the first positional argument; none when neither exists |
| Cache.CacheKeyShape | app/database/decorators.py:45 | a key is the reader's name, a colon, and the text of the date, and nothing else |
| Cache.CacheKeyInjective | app/database/decorators.py:45 | for one reader, the key `name:date` determines the date |
| Cache.KeyIgnoresOtherArguments | app/database/decorators.py:39-45 | two calls of a reader on the same date share one entry, so the second returns the first's value whatever its other arguments |
| Cache.MemoizedHit | app/database/decorators.py:49-52 | on a hit the stored value is returned and the key space is unchanged |
| Cache.MemoizedMiss | app/database/decorators.py:57-61 | on a miss the computed value is returned and stored under the key, which is the only key added; every other key keeps its value |
| Cache.MemoizedRepeat | app/database/decorators.py:45-61 | a second call with the same key and no flush in between returns the first call's value, whatever it would compute, and changes nothing |
| Cache.Memoize | app/database/decorators.py:28-63 | the decorator returns the cached value on a hit and the computed one on a miss, and leaves the key space as `AfterMemoized` says; an existing client is kept and a missing one is created fresh; a call without a date fails before the client is created and leaves client and cache as they were |
| Cache.ClientSlot.GetRedis | app/database/redis_client.py:6-15 | the client is created on the first call only; later calls return that same client, which reaches the one key space |
| Cache.WithoutIndexKeys | app/database/redis_client.py:22-23 | the flushed key space holds exactly the keys that do not contain `index`, each with its old value |
| Cache.FlushIdempotent | app/database/redis_client.py:22-23 | flushing twice leaves the same key space as flushing once |
| Cache.FlushRedis | app/database/redis_client.py:17-24 | the scan-and-delete loop leaves exactly `WithoutIndexKeys` of the old key space, through the existing client or a freshly created one |
| CachedReads.PerformanceQuery | app/database/db_manipulation.py:327-347 | the per-day performance query returns a record exactly when the date has one, carrying that date and its stored returns |
| CachedReads.ReaderKeysMentionIndex | app/database/decorators.py:45 | every key of `get_index_composition` and `get_index_performance_per_day` contains `index`, so the flush pattern matches it |
| CachedReads.ReaderKeysDistinct | app/database/decorators.py:45 | the two readers never share a key |
| CachedReads.CoherentViews | app/database/db_manipulation.py:166-185 | when every cached entry agrees with the tables, each read answers what the tables hold |
| CachedReads.FlushedIsCoherent | app/database/redis_client.py:17-24 | after a flush no entry of either reader is left, so the cache agrees with any tables |
| CachedReads.CompositionReadKeepsViews | app/database/decorators.py:57-61 | storing a composition read's result under its key changes no read's answer and keeps an agreeing cache agreeing |
| CachedReads.PerformanceReadKeepsViews | app/database/decorators.py:57-61 | the same for the per-day performance read |
| CachedReads.GetIndexComposition | app/database/db_manipulation.py:166-185 | returns the composition view of the date and stores it under the reader's key |
| CachedReads.GetIndexPerformancePerDay | app/database/db_manipulation.py:327-347 | returns the performance view of the date and stores it under the reader's key |
| CachedReads.Series | app/database/db_manipulation.py:360-367 | the range read collects at most one record per calendar day of `[start, end]` |
| CachedReads.SeriesWritesKeys | app/database/db_manipulation.py:360-367 | after the range read every day of `[start, end]` has its per-day key, holding the answer its read gave; every other key is present exactly when it was, with its old value |
| CachedReads.GetIndexPerformanceTableData | app/database/db_manipulation.py:350-367 | returns the records the per-day reads find for each day of `[start, end]`, ascending; the key space becomes exactly `SeriesWrites` (each day's answer stored under its key, nothing else touched); no read's answer changes |
| CachedReads.SeriesListsRecords | app/database/db_manipulation.py:350-367 | against an agreeing cache, the range read lists exactly the stored records of `[start, end]`, each once, in ascending date order |
| IndexService.EqualWeight | app/services/index.py:44-48 | a day's composition has one member per ranked ticker, the same ticker at the same position |
| IndexService.EqualWeightComposition | app/services/index.py:43-48 | the built composition has a date exactly for each ranked day, holding that day's ranked tickers in rank order |
| IndexService.SumOfEqualWeights | app/services/index.py:47 | `n` weights that all equal `w` sum to `n * w` |
| IndexService.EqualWeightsSumToOne | app/services/index.py:43-48 | every weight of a day is `1/n`, for `n` the tickers ranked that day, and the weights sum to 1 |
| IndexService.EqualWeightUniformGrowth | app/services/index.py:43-48 | an equal-weighted day whose members all grow by `1 + g` has daily return `g` |
| IndexService.EqualWeightRows | app/services/index.py:42-48 | the rows built for each ranked day are its tickers in rank order, each weighted one over that day's count; no other day gets rows |
| IndexService.UniformDayOnWalk | app/database/db_manipulation.py:228-278 | on the walk, an equal-weighted 100-row day whose closes all grow by `1 + g` since its previous trading date ends with `(g, (1 + c)(1 + g) − 1)`, for `c` that date's final cumulative return |
| IndexService.ThreeDaysOfUniformGrowth | app/database/db_manipulation.py:216-278 | from an empty table, a first trading day followed by two equal-weighted days whose closes all grow by `1 + g` ends with `(0, 0)`, `(g, g)` and `(g, (1 + g)² − 1)`; with 1% growth the third cumulative return is 0.0201 |
| IndexService.BuiltCompositionDates | app/services/index.py:38-51 | after the rebuild the composition has a date exactly for each day of `[start, end]` with price rows; nothing outside the range survives |
| IndexService.BuiltCompositionRows | app/services/index.py:43-51 | a rebuilt day lists its ranking ticker for ticker: `min(100, n)` distinct tickers, the largest caps of the day, each weighted `1/count`, weights summing to 1 |
| IndexService.BuiltDayIsComplete | app/services/index.py:43-51 | a rebuilt day with at least 100 priced tickers has exactly 100 rows, so the performance step treats it as a trading day |
| IndexService.BuildIndex | app/services/index.py:27-57 | the rebuild ranks the range, replaces the whole composition table with the equal-weight rows, and recomputes performance from an empty table over `[start, end]`; it then flushes the index keys, leaving a cache that agrees with the new tables |
| IndexService.Diff | app/services/index.py:112-119 | the added and removed tickers are disjoint; `(previous − removed) ∪ added = current` and `(current − added) ∪ removed = previous`; the change is empty exactly when the two sets are equal |
| IndexService.DiffExample | app/services/index.py:118-119 | `{AAPL, MSFT, GOOG}` to `{AAPL, MSFT, AMZN}` adds `{AMZN}` and removes `{GOOG}` |
| IndexService.Tickers | app/services/index.py:112-113 | the ticker set of a composition holds exactly the tickers of its rows |
| IndexService.ChangeOn | app/services/index.py:96-125 | a day reports a change only when its composition read is non-empty, and then with disjoint added and removed sets that are not both empty |
| IndexService.ChangesFromTables | app/services/index.py:94-125 | against an agreeing cache, a day has a change exactly when it lies in range, has a composition and a previous composition date, and the two ticker sets differ; the change is their difference, and the empty-previous skip never fires |
| IndexService.DayWritesKeys | app/services/index.py:97-107 | one day's reads store the day's composition key, holding its read's answer; the only other composition key that may change is the previous trading date's, and then it holds its read's answer; every other key is present and valued as before |
| IndexService.ChangeWritesKeys | app/services/index.py:94-127 | after the loop every day of `[start, end]` has its composition key, every composition key holds what its read answers, and every other key is as it was |
| IndexService.DayChange | app/services/index.py:96-125 | one day of the loop returns `ChangeOn`: none on each of the three skips or an empty difference, otherwise the difference; the key space becomes exactly `DayWrites` (the day's read stored, and the previous date's read when it ran) |
| IndexService.GetCompositionChanges | app/services/index.py:89-129 | the result has exactly the days of `[start, end]` with a non-empty change, each mapped to that change; the key space becomes exactly `ChangeWrites` of the old one, and no read's answer changes |

## Left out

- ReturnChain.Outcome: requires that the closes the summing loop of `set_index_performance` divides by are non-zero (`DayDivisorsNonZero`): the previous-date closes of the members of a 100-row day with a previous trading date, up to the first unpriced member. On a zero divisor the source raises a division error, which is not modelled. A zero close anywhere else is allowed.
- ReturnChain.DayStep: requires `DayDivisorsNonZero` for the same reason.
- ReturnChain.Chain: requires `RangeDivisorsNonZero`, the same condition for every day of `[start, end]`.
- ReturnChain.StepSkipsIncompleteComposition, StepFirstTradingDay, StepAbortsOnMissingPrice, StepNeedsPredecessor, StepCompounds and the Chain lemmas (ChainFrame, ChainSplit, ChainAt, ChainChangesOnlyTradingDays, ChainFirstTradingDay, ChainAbortsOnMissingPrice, ChainCompounds, ChainBreakPropagates): carry the same non-zero-divisor precondition.
- Database.IndexDatabase.SetIndexPerformance: requires `DayDivisorsNonZero` for the same reason.
- Database.IndexDatabase.BuildIndexPerformance: requires `RangeDivisorsNonZero` for the same reason.
- IndexService.BuildIndex: requires `RebuildDivisorsNonZero`: for every ranking the query may return, the walk over the rebuilt composition never divides by zero.
- CachedReads.GetIndexComposition: returns the rows in stored order. The `ORDER BY weight DESC` of the query is not modelled. After a rebuild all weights of a day are equal, so that clause leaves the order to the store anyway.
- Ranking.RankDay: market caps are always present. SQL NULL caps, and where the window function sorts them, are not modelled.
- Floating point: prices, weights and returns are exact reals. IEEE rounding is out of scope.
- SQL and DuckDB: the connection decorator, the SQL text, and the table creation (`create_index_performance_table`) are replaced by maps and specified by their results.
- JSON: the serialization of cached values is treated as the identity. A cache hit is the presence of the key. Every serialized value, `[]` and `null` included, is a non-empty string, so a stored key always counts as a hit.
- Dates: dates are day numbers, not ISO date strings. The result of `get_composition_changes` is keyed by day number, not by ISO text.
- Composition changes: added and removed tickers are sets. The order of the lists the service builds from them follows set iteration order, which is not modelled.
- Redis: connection parameters, timeouts, and the cursor semantics of `scan_iter` are not modelled. The flush is modelled as deleting the matching keys present when the scan starts.
- Concurrency and crashes: reads running during a rebuild, and crashes between the non-atomic rebuild steps, are out. Only the sequential path is modelled.
- Ingestion (`app/market_data/`, `app/database/builder.py`), the Excel export (`export_data`, `app/services/utils.py`), the HTTP routing and response shapes, and logging are not part of this model.
