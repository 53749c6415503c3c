# GridPulse, verified

GridPulse ingests half-hourly UK grid data into Postgres ("hot", 90 days), archives it nightly
into Iceberg tables ("cold", for ever), joins and ranks it in dbt marts, and serves it through a
cached API. This project models that pipeline and proves what it promises.

- **Hot and cold store** (`HotStore`, `Contracts`, `ColdStore`, `TieredStore`, `TieredSafety`).
  Natural-key upserts with `COALESCE` on `actual`; API responses to rows; the per-day overwrite of
  the archive; and a step system in which clock, ingests, retention, archive runs (overlapping,
  stalling, crashing anywhere) and backfills interleave freely. A run is any sequence of steps, so
  every theorem about it quantifies over all of them. The step system follows one table: a run
  reads "today" once, at its start, and fetches and writes in separate steps, as the code does.
- **Marts and reads** (`HalfHourly`, `BestSlots`, `GenerationMix`, `Queries`, over `Sorting` and
  `Grid`). SQL's left join, window ranking and pivot, each as an executable form and as an
  independent statement of what it must return.
- **TTL cache** (`TtlCache`, `CacheThreads`, over `Names`). Cache keys, the cache, and threads whose
  check, read, query and store interleave with the clock and with a changing database. The
  membership test and the subscript are separate steps that read the clock separately.
- **Resumable loops** (`Migrate`, `Backfill`). The migration applier and the chunked backfill, with
  failures anywhere and any number of re-runs.

Time is integer UTC seconds, a day is 86400 of them; MW, prices and shares are exact reals. Code that
works in place is a class or a method with a loop (`HotTable`, `IcebergTable`, `Platform`,
`Database`, `Cache`, `Caches`, `RegionalToRows`, `FetchPartition`, `ArchiveTable`, `RunBackfill`), proved
against a specification function; the lemmas are about those functions. A `budget` parameter is the
number of commits a process lives to make, so a crash is any budget too small. Callers pass the
clock readings, the API, the SQL executor and faults as parameters. `hide` statements keep
definitions out of proofs that do not need them.

## What holds, and what does not

Four promises do not hold of the code without a condition; each has its exact condition here.

- *Archived keys stay in cold, and realised values stay realised.* Over every run, cold holds of a
  day exactly what the last overwrite of it had read in hot (`ColdHoldsExactlyWhatWasRead`), so
  nothing goes missing exactly when that overwrite had read all that the earlier one had
  (`ArchivedDayGrowsExactlyWhen`). What an operator can see to is enough: runs that do not overlap
  and take at most 87 days lose nothing (`SerialQuickRunsLoseNothing`). Either condition alone is
  not: `OverlapKeepsExactlyWhatWasThere` and `StallKeepsExactlyWithinRetention` say exactly what
  overlapping and stalling schedules keep, and `OverlapLosesKey` and `OverlapUnrealises` lose data
  from the empty platform. (They use only the delete-then-append contract of an Iceberg overwrite; a
  catalog that refuses the older of two overlapping commits turns that write into a crash, which
  every theorem already allows.)
- *A cached wrapper returns a value.* It raises `KeyError` between `in` and `[]` exactly when, since
  the last store to its key, the key was evicted or cleared or its TTL ran out
  (`KeyErrorExactlyWhen`); `KeyErrorHappens` is such a run.
- *The national and regional streams do not interfere.* A regional response commutes with every
  national fetch exactly when it names no region 0 or Postgres refuses it (`CommutesExactlyWhen`).
- *A backfill can be restarted.* At any point with no rows between it and the cursor, and at no other
  (`ResumedBackfill`).

Where the documents differ the code is followed: `docs/database-design.md:145-150` shows the carbon
upsert without `COALESCE`, and `docs/lakehouse-design.md:154` calls the backfill overwrite-safe while
the script appends (`RepeatedBackfillDuplicates`).

## Model

| member | source | states |
|---|---|---|
| HotStore.HotTable.UpsertRows | gridpulse/storage/postgres.py:183-205 | one transaction per batch: all rows merged in order, or, if any row breaks a constraint, no change at all |
| HotStore.HistoryReflectsLog | gridpulse/storage/postgres.py:64-82 | for every history of batches, each key holds the last committed row logged for it, with `actual` the last non-null one |
| HotStore.BatchCutsDoNotMatter | gridpulse/storage/postgres.py:183-205 | histories committing the same log leave the same table up to `ingested_at_utc`, however cut into batches |
| HotStore.ReplayOnlyRestamps | gridpulse/storage/postgres.py:183-184 | replaying the latest batch, repeated keys included, changes nothing but the `ingested_at_utc` of its keys |
| HotStore.CarbonBatchReadBack | gridpulse/storage/migrations/004_raw_carbon_intensity.sql:12-25 | after any history a carbon batch is written whole and read back by key exactly when every row has region 0 to 14, end after start, a known index and SMALLINT values; otherwise nothing changes |
| HotStore.PriceBatchReadBack | gridpulse/storage/migrations/006_raw_agile_price.sql:10-21 | the same for prices: region 1 to 14, end after start |
| HotStore.MixBatchReadBack | gridpulse/storage/migrations/005_raw_generation_mix.sql:11-27 | every batch of the mix is written and read back |
| Contracts.RegionalToRows | gridpulse/contracts/carbon_intensity.py:139-158 | the nested loop yields the specified row sequence, period by period in order |
| Contracts.RegionalRowsMean | gridpulse/contracts/carbon_intensity.py:139-158 | a row is produced exactly when a non-rollup entry carries those columns; `actual` is always null |
| Contracts.RegionalRowsInOrder | gridpulse/contracts/carbon_intensity.py:139-158 | the row of each non-rollup entry stands, column by column, right after the rows of the entries before it |
| Contracts.PeriodRowsCount | gridpulse/contracts/carbon_intensity.py:142-147 | per region id, as many rows as entries, none for ids 15 to 18 |
| Contracts.EighteenRegionsGiveFourteen | gridpulse/contracts/carbon_intensity.py:113-114 | a period listing ids 1..18 once each, in any order, gives regions 1..14 once each |
| Contracts.NationalRowsMean | gridpulse/contracts/carbon_intensity.py:76-87 | one row per period in order, for region 0, with the period's start, end, forecast, actual and index |
| Contracts.NationalFetchLands | gridpulse/storage/postgres.py:64-82 | after any run an accepted national fetch leaves at (0, t) the columns of its last period at t, and its last non-null actual for t, else the actual that was there |
| Contracts.NationalFetchLeaves | gridpulse/storage/postgres.py:64-82 | it touches no other key, and a refused one touches none |
| Contracts.RegionalFetchLands | gridpulse/storage/postgres.py:64-82 | after any run an accepted regional fetch leaves at (region, t) the columns of its last entry there, and the actual that was there |
| Contracts.InterleavingDoesNotMatter | gridpulse/contracts/carbon_intensity.py:139-158 | any two interleavings of the national and regional streams leave the same table up to `ingested_at_utc`, if every regional response names no region 0 or is refused |
| Contracts.CommutesExactlyWhen | gridpulse/contracts/carbon_intensity.py:37-38 | a regional response commutes with every national fetch exactly when it names no region 0 or Postgres refuses it |
| ColdStore.FetchPartition | gridpulse/dagster_defs/iceberg_assets.py:41-59 | the rows read and stripped are, as a bag, exactly hot's rows of the UTC day |
| ColdStore.IcebergTable.OverwriteDay | gridpulse/dagster_defs/iceberg_assets.py:62-88 | the day's rows are replaced, every other row stays; an empty fetch clears the day |
| ColdStore.ArchiveTable | gridpulse/dagster_defs/iceberg_assets.py:91-117 | overwrites yesterday and the day before, as far as the process lives, and reports each day's row count |
| ColdStore.Platform.ArchiveToIceberg | gridpulse/dagster_defs/iceberg_assets.py:149-160 | the three tables in turn, each with its own reading of today, cut off after any number of overwrites, hot untouched |
| ColdStore.ArchivedRow | gridpulse/dagster_defs/iceberg_assets.py:149-153 | row by row, for each cold table: the days its overwrites reached, one and two before its own today, hold exactly the rows of the raw table of the same name; every other day is unchanged |
| ColdStore.ArchiveDaysAt | gridpulse/dagster_defs/iceberg_assets.py:106-109 | row by row: the days reached equal hot, all other days are unchanged |
| ColdStore.CrashedAttemptsThenCompleteRun | gridpulse/dagster_defs/iceberg_assets.py:106-117 | after any attempts crashed anywhere, one complete run leaves what a single uninterrupted run would |
| ColdStore.FurtherRunsChangeNothing | gridpulse/dagster_defs/iceberg_assets.py:106-117 | after a complete run, further attempts on the same day, crashed or whole, change nothing |
| TieredStore.HotReflectsRun | gridpulse/storage/postgres.py:64-82 | at every point of every run, hot holds at a key the last row logged since retention last dropped it at 90 days or more, with the last non-null actual logged since |
| TieredStore.RunFollowsItsLoop | gridpulse/dagster_defs/iceberg_assets.py:103-117 | whatever else happens, an archive run in flight has fetched and written the day before it started, then the day before that, up to some point, and can do the next of these |
| TieredStore.UndisturbedRun | gridpulse/dagster_defs/iceberg_assets.py:103-117 | in the step system, a run with nothing in between does what the archive method does |
| TieredStore.ColdDayProvenance | gridpulse/dagster_defs/iceberg_assets.py:103-109 | at every point of every run, cold's day d is hot's day d at the fetch of its last overwrite, by a run started on UTC day d+1 or d+2; with none it is empty |
| TieredStore.ClosedDayIsFrozen | gridpulse/dagster_defs/iceberg_assets.py:30 | once day d+2 is over and no run still has d ahead, d never changes in cold again |
| TieredStore.FinalFate | gridpulse/dagster_defs/iceberg_assets.py:91-117 | once day d+2 is over and no run has d ahead, a row of day d is in cold, for ever, exactly when hot held it at the fetch of the last overwrite; a day no run overwrote is lost |
| TieredStore.ColdHoldsWhatWasLogged | gridpulse/dagster_defs/iceberg_assets.py:91-117 | from ingest to archive: at every point of every run cold holds a row, once, exactly when it was the last row logged for its key, with the last non-null actual, at the fetch behind the last overwrite of its day |
| TieredSafety.ColdHoldsExactlyWhatWasRead | gridpulse/dagster_defs/iceberg_assets.py:62-88 | over every run, a key of a day is in cold, or realised in cold, exactly when the last overwrite of the day had read it so in hot |
| TieredSafety.ArchivedDayGrowsExactlyWhen | gridpulse/dagster_defs/iceberg_assets.py:62-88 | between any two points of any run, no key and no realised value of a day is lost exactly when the later overwrite had read all that the earlier one had |
| TieredSafety.ArchivedDayOnlyGrows | gridpulse/dagster_defs/iceberg_assets.py:62-88 | under in-order overwrites and fetches within retention, no archived key leaves cold and no realised value in cold turns null again |
| TieredSafety.SerialQuickRunsLoseNothing | gridpulse/dagster_defs/iceberg_assets.py:91-117 | if archive runs do not overlap and fetch within 87 days of their start, nothing archived is ever lost |
| TieredSafety.SerialRunsWriteInOrder | gridpulse/dagster_defs/iceberg_assets.py:106-109 | runs that never overlap overwrite every day in fetch order |
| TieredSafety.QuickRunsArePrompt | gridpulse/storage/migrations/004_raw_carbon_intensity.sql:36-40 | over any run whose archive runs fetch within 87 days of their start, no fetch comes after retention can have reached its day |
| TieredSafety.OverlapKeepsExactlyWhatWasThere | gridpulse/dagster_defs/iceberg_assets.py:108-109 | from any state, two overlapping runs with a row arriving in between: it is archived, and then kept, or kept realised, exactly as hot held it beforehand |
| TieredSafety.OverlapLosesKey | gridpulse/dagster_defs/iceberg_assets.py:108-109 | from the empty platform, for any row, that schedule loses an archived key |
| TieredSafety.OverlapUnrealises | gridpulse/dagster_defs/iceberg_assets.py:9-11 | from the empty platform, for any realised row, a forecast ingested first makes that schedule turn its realised value null again |
| TieredSafety.StallKeepsExactlyWithinRetention | gridpulse/dagster_defs/iceberg_assets.py:85-87 | from any state, a key archived by one run survives a next run that stalls before its fetch exactly when the stall ends within the 90 days |
| TieredSafety.ColdHasOneRowPerKey | gridpulse/dagster_defs/iceberg_assets.py:62-88 | in every reachable state cold holds at most one row per natural key, given backfills into untouched ranges |
| TieredSafety.AppendKeepsOnePerKey | scripts/backfill_carbon_intensity.py:84-86 | an append keeps one row per key exactly when its rows do and share no key with the table |
| Sorting.SortIgnoresArrival | dbt/models/marts/mart_best_slots_24h.sql:29-36 | an order without ties sorts a bag the same way whatever order it arrives in |
| HalfHourly.FanOut | dbt/models/marts/mart_half_hourly.sql:32-35 | the left join keeps the row count exactly when no carbon row matches two price rows |
| HalfHourly.OneMartRowPerCarbonRow | dbt/models/marts/mart_half_hourly.sql:23-35 | over any carbon rows and a keyed price table: one mart row per carbon row, its columns, priced exactly when its key is |
| HalfHourly.MartOverHistories | dbt/models/marts/mart_half_hourly.sql:23-35 | over any ingest histories the mart's keys are unique and region 0 is never priced |
| BestSlots.RowNumberCounts | dbt/models/marts/mart_best_slots_24h.sql:29-36 | sort-then-number equals one plus the number of rows strictly before, nulls last, in the region's window |
| BestSlots.SlotsMeetSpec | dbt/models/marts/mart_best_slots_24h.sql:40-49 | the mart holds one slot for each row starting in the 24 hours from now and no other, with both counted ranks |
| BestSlots.SlotExactlyWhen | dbt/models/marts/mart_best_slots_24h.sql:21-25 | a mart row is a slot exactly when it starts in the 24 hours from now |
| BestSlots.SlotsDistinct | dbt/models/marts/mart_best_slots_24h.sql:1-3 | no row gives two slots |
| BestSlots.RanksAreABijection | dbt/models/marts/mart_best_slots_24h.sql:29-36 | per region each of the ranks 1..n is held by exactly one row |
| BestSlots.RankFollowsColumns | dbt/models/marts/mart_best_slots_24h.sql:29-36 | of two slots of a region: lower price first, unpriced last, lower forecast first, equals by earlier start |
| BestSlots.RankDependsOnOwnRegionOnly | dbt/models/marts/mart_best_slots_24h.sql:30 | ranks do not depend on input order or on other regions' rows |
| BestSlots.TopRanksAreOptimal | dbt/models/marts/mart_best_slots_24h.sql:10-15 | the first k of the ranking have the least total of any k distinct valued slots; slots without a value come after all others |
| BestSlots.RanksUpToK | dbt/models/marts/mart_best_slots_24h.sql:13-14 | reading `cheapest_rank <= k` returns the first k of the ranking |
| BestSlots.AtMost48Slots | dbt/models/marts/mart_best_slots_24h.sql:17-24 | a region has at most 48 slots beyond those starting off the half-hour grid, and ranks no higher than its slots |
| BestSlots.AtMost48FromRawTables | dbt/models/marts/mart_best_slots_24h.sql:21-25 | the same bound from the raw primary keys through join, filter and ranking, for every ingest history |
| BestSlots.SlotsFromRawTables | dbt/models/marts/mart_best_slots_24h.sql:17-49 | for every ingest history a key of the raw carbon table has a slot exactly when it starts in the 24 hours from now, with the table's columns and the price stored under the same key |
| BestSlots.BestSlotsAreOptimal | dbt/models/marts/mart_best_slots_24h.sql:10-15 | for every ingest history, the mart's slots ranked up to k are k distinct rows with the least total of any k valued slots of the region |
| Grid.HalfHoursIn | dbt/models/marts/mart_best_slots_24h.sql:17 | from any instant, the next n half-hours' worth of time holds exactly n grid points |
| GenerationMix.ElevenRowsPerPeriod | dbt/models/staging/stg_generation_mix.sql:14-34 | each period has exactly its eleven rows, each with its fuel, megawatts and renewable flag; other periods have none |
| GenerationMix.RegroupRecovers | dbt/models/staging/stg_generation_mix.sql:14-34 | regrouping the long rows gives back every wide row |
| GenerationMix.SharesAddUp | dbt/models/marts/mart_generation_mix_long.sql:17-38 | a period's shares total exactly 100 when its eleven fuels, storage included, total more than zero, and are all null otherwise |
| GenerationMix.ShareOfEachFuel | dbt/models/marts/mart_generation_mix_long.sql:17-38 | the mart holds exactly the eleven rows of each period, each with 100 times its megawatts over the period's total, null unless that is positive |
| Queries.RangeReturns | gridpulse/api/queries.py:107-129 | more than 14 days is refused; otherwise a range holds the region's rows of [from, to), each once, strictly increasing in start |
| Queries.RangesCompose | gridpulse/api/queries.py:113-127 | adjacent ranges concatenate to the whole range |
| Queries.AtMost672Points | gridpulse/api/queries.py:30-32 | a range has at most 672 points beyond those starting off the half-hour grid |
| Queries.CarbonRangeReadsTheTable | gridpulse/api/queries.py:107-129 | for every ingest history, a carbon range read through the mart returns exactly the raw table's rows of the region and window, in order |
| Queries.PriceRangeReadsTheTable | gridpulse/api/queries.py:160-180 | a price range read returns exactly the raw price table's rows of the region and window, in order |
| Queries.CurrentIsLatest | gridpulse/api/queries.py:88-104 | the current row is the region's latest; none only if the region has no rows |
| Queries.CurrentEndsItsRange | gridpulse/api/queries.py:88-129 | the current row, when in a range, is the range's last point |
| Queries.CurrentPriceExactlyWhen | gridpulse/api/queries.py:137-157 | the current price is, of the region's periods containing now, the one starting last; region 0 has none |
| TtlCache.KeyMeans | gridpulse/api/cache.py:27-30 | a key is the function, the positional arguments as they are, then one tuple per keyword, in the order of the names, character by character |
| TtlCache.KeywordOrderIgnored | gridpulse/api/cache.py:27-30 | the order of keyword arguments does not reach the key |
| TtlCache.KeysEqualExactlyWhen | gridpulse/api/cache.py:27-30 | two calls share a key exactly when one's surplus keywords are the other's last positional arguments |
| TtlCache.KeyUnsharedExactlyWhen | gridpulse/api/cache.py:27-38 | a call shares its key with no other call exactly when it has no keywords and its last positional argument is no tuple |
| TtlCache.StoredFits | gridpulse/api/cache.py:21-24 | a store keeps the cache within maxsize, whichever entry it evicts |
| TtlCache.StoredMeans | gridpulse/api/cache.py:42 | a store lives exactly ttl seconds, drops every expired entry, and takes at most the victim, only from a full cache |
| TtlCache.Cache.Set | gridpulse/api/cache.py:42 | assignment leaves the specified store, for some permitted victim |
| TtlCache.Cache.Wrapper | gridpulse/api/cache.py:36-43 | one undisturbed call: hit, hit expired between the two clock readings, failed query, or miss and store |
| TtlCache.Caches.constructor | gridpulse/api/cache.py:22-24 | two separate empty caches: 256 entries for 30 seconds, 128 for 120 |
| CacheThreads.ServedValuesAreRecent | gridpulse/api/cache.py:36-60 | under every interleaving, a served value is the query's result for the same key (the same call, if positional), read less than TTL plus that computation's duration ago |
| CacheThreads.ComputedValuesAreOwn | gridpulse/api/cache.py:41-43 | on a miss the caller gets its own query's result |
| CacheThreads.CacheStaysBounded | gridpulse/api/cache.py:21-24 | no run takes the cache over maxsize |
| CacheThreads.CheckHitsExactlyWhen | gridpulse/api/cache.py:39 | after any run a check hits exactly when the log has a store to its key less than ttl ago, with no eviction of the key and no clear since |
| CacheThreads.MissIsServed | gridpulse/api/cache.py:41-43 | after any run a call that missed can be answered, with its own query's result |
| CacheThreads.ComputedIsStored | gridpulse/api/cache.py:42 | after any run a computed result gets stored for ttl seconds, with every victim the cache may pick, and there is one; no live entry but the victim goes |
| CacheThreads.EveryCallAnsweredOnce | gridpulse/api/cache.py:36-43 | over every run a thread has as many answers as calls, one fewer while a call is in flight |
| CacheThreads.ServedForTtl | gridpulse/api/cache.py:36-43 | a stored result is served to every thread for ttl seconds, whatever the database has become; from then on the new database is queried |
| CacheThreads.KeyErrorExactlyWhen | gridpulse/api/cache.py:39-40 | after any run, a read that follows a successful check raises exactly when, since the last store to its key, the key was evicted or cleared or its TTL ran out; otherwise it returns that stored result |
| CacheThreads.KeyErrorHappens | gridpulse/api/cache.py:39-40 | check, query, store, check, clear: the next read raises |
| Migrate.Database.ApplyMigrations | gridpulse/storage/migrate.py:44-79 | skip, commit or roll back per file in name order; what it leaves and returns, for every fault |
| Names.NameLessMeans | gridpulse/storage/migrate.py:44 | names are ordered by the first character in which they differ, a proper prefix first |
| Migrate.NameOrderMeans | gridpulse/storage/migrate.py:44 | of two files of the directory, the one whose name comes first in that order is applied first |
| Migrate.AppliedInNameOrder | gridpulse/storage/migrate.py:57-72 | the versions any run appends are file names less `.sql`, none recorded before, in the order of the names |
| Migrate.RunRecordsWhatItApplied | gridpulse/storage/migrate.py:57-76 | a run records the pending versions up to the first that faults or whose script raises, raises exactly if there is one, and leaves the schema they lead to |
| Migrate.SchemaIsReplayOfLog | gridpulse/storage/migrate.py:57-76 | after any runs over a changing directory the schema is the replay of exactly the recorded versions, each recorded once |
| Migrate.ResumeEqualsCleanRun | gridpulse/storage/migrate.py:13 | after any failures a successful run ends where one clean run would, and the next run applies nothing |
| Migrate.AddedFilesKeepOrder | gridpulse/storage/migrate.py:44 | a successful run over a directory with added files leaves the versions in directory order exactly when those recorded before it come first in it |
| Backfill.RunBackfill | scripts/backfill_carbon_intensity.py:71-96 | the loop appends window by window, as far as the process lives, and reports total and cursor |
| Backfill.WindowsTile | scripts/backfill_carbon_intensity.py:81-95 | windows are non-empty, 14 days long but for a last one that may be shorter, contiguous, and cover [start, end) |
| Backfill.OneWindowPerInstant | scripts/backfill_carbon_intensity.py:81-95 | each instant of [start, end) lies in exactly one window, others in none |
| Backfill.AppendedUpToCursor | scripts/backfill_carbon_intensity.py:83-95 | after n windows exactly the rows between start and cursor have been appended |
| Backfill.SplitBackfill | scripts/backfill_carbon_intensity.py:19-21 | two runs split at any point append what one run would |
| Backfill.ResumedBackfill | scripts/backfill_carbon_intensity.py:19-21 | a crashed run completed from a resume point is right exactly when no row lies between it and the cursor |

## Left out

- ColdHasOneRowPerKey: asks that each backfilled chunk has one row per key inside its range, which the script does not check.
- AppendedUpToCursor, SplitBackfill, ResumedBackfill: assume an API that answers each window with exactly the rows starting in it and does not change between requests.
- ApplyMigrations: assumes no file is named just `.sql`, which Python gives the version `.sql`.
- SchemaIsReplayOfLog: a version's text does not change once used, no script commits by itself, and migrators do not overlap.
- ServedValuesAreRecent: functions are identified by their qualified name, and each cache operation is one indivisible step.
- Merge: the tables differ only in `COALESCE`; the unused `total` and NESO intensity columns of the mix are carried but not related to its fuels.
- Best slots are not claimed to be non-empty: carbon ingest fetches the current half-hour, and the mart keeps only later ones.
- `get_best_slots`, `get_current_generation_mix`, the region lookups and `get_last_ingests`: plain selections over tables already described.
- Pydantic parsing, HTTP retries and the Octopus and NESO response shapes: rows arrive validated.
- `lower(intensity_index)` and the `is not null` filter on it: the CHECK admits only the five lower-case values.
- Iceberg snapshots, files, catalog and snapshot expiry: a table is its bag of rows.
- Dagster schedules, heartbeats, metadata, backups, routes, templates, rate limits and deployment.
- Rounding of REAL and DOUBLE columns, sub-second timestamps, and time zones other than UTC.
