# Aircraft telemetry anomaly pipeline — a Dafny model

This project models the hand-written logic of a pipeline that ingests
OpenSky aircraft state vectors, batches them to object storage, counts them
in tumbling windows and flags anomalies in DuckDB. Five pieces are modelled:

- **Sequential-delta engine** (`analysis.dfy`, module `Analysis`). It covers
  `create_anomaly_features_table` and `flag_anomalies` of
  `src/Db_work/analysis.py`.
  - The `LAG … OVER (PARTITION BY icao24 ORDER BY time_position)` window is
    stated for every scan order SQL allows (`IsWindowOrder`). Ties between equal
    times are not fixed.
  - The deltas and the guarded climb rate are computed per pair.
  - The three `CASE` flags are stated with SQL's rule that a NULL condition
    takes the `ELSE FALSE` branch (module `Sql`).
- **Population-baseline engine** (`transform.dfy`, module `Transform`). It
  covers `src/Db_work/transform.py`.
  - The two LEFT JOINs and the derived columns `climb_rate_ratio` and
    `altitude_km`.
  - The per-type statistics: `GROUP BY` the triple, `HAVING COUNT(*) >= 10`,
    `ORDER BY observation_count DESC`, with `AVG` and linear-interpolation
    `PERCENTILE_CONT(0.95)`.
  - The seven flags, computed against every baseline an observation joins.
  - `STDDEV` is a function parameter `sd`. Where a lemma needs it, `IsStddev`
    says it is non-negative and zero exactly when a group's values are all equal.
- **Window reducer** (`tumbling_window.dfy`, module `TumblingWindow`). The
  accumulator is a class. `initializer` is its constructor, and `reducer` is a
  method that updates `count` and the key set in place.
- **S3 sink** (`s3_writer.dfy`, module `S3Writer`, with `calendar.dfy`).
  - The zero-padded object key of `make_s3_key`, with its layout,
    injectivity and order lemmas.
  - The empty-batch guard of `write_batch_to_s3`.
  - The consumer loop of `main`, as a class whose `OnMessage` method appends
    a message and flushes the batch.
- **Record normaliser** (`opensky_client.dfy`, module `OpenSkyClient`).
  - `_sanitize`.
  - The fixed rename table of `_row_to_dict`.
  - The record loop of `get_states_dict`, with the REST outcome as a
    parameter.

Shared helpers: `wrappers.dfy` (`Option`, which stands for SQL NULL and
Python `None`), `sql.dfy` (three-valued logic), `schema.dfy` (the table rows),
`sorting.dfy` (an insertion sort used for `ORDER BY` and the percentile).

Facts about the code that the model follows:

- Baselines are grouped by `(typecode, icaoaircrafttype, ModelFullName)`, and
  only rows with a non-NULL `typecode` enter them.
- Observations are matched to baselines by
  `e.typecode = af.typecode OR e.icaoaircrafttype = af.icaoaircrafttype`. An
  observation can therefore join several baselines and appear once per
  baseline.
- The object key is `processed/date=YYYY/MM/DD/aircraft_states_<stamp>.parquet`,
  stamped with the wall clock at upload time.
- The window is `tumbling_window(duration_ms=3 min).reduce(...).final()` with
  no `grace_ms`; closing windows and emitting their results are done by the
  streaming library.
- The two engines are separate scripts. Both run
  `CREATE OR REPLACE TABLE` on `anomaly_features` and `flagged_anomalies`, so
  whichever runs last replaces the other's output.
- `STDDEV` in DuckDB is the sample standard deviation. The model keeps it
  abstract, so this makes no difference to it.

## Model

| member | source | states |
|---|---|---|
| `Analysis.WithTime` | src/Db_work/analysis.py:39-40 | Exactly the rows with a non-NULL `time_position` are kept, and no others. As a bag, each timed row keeps its multiplicity and every other row has none. |
| `Analysis.OrderedStates` | src/Db_work/analysis.py:31-41 | One `ordered_states` row per row of the window order, at the same position and carrying that row. |
| `Analysis.OrderedStateColumns` | src/Db_work/analysis.py:35-38 | The four LAG columns of a position are the velocity, altitude, time and vertical rate of its LAG source. They are all NULL for the first row of a partition. |
| `Analysis.Seconds` | src/Db_work/analysis.py:49 | `epoch(...)` of an integer time is that number of seconds. A NULL time gives NULL. |
| `Analysis.Features` | src/Db_work/analysis.py:44-57 | Each delta is non-NULL iff both of its operands are, and it is then the current value minus the previous one. The climb rate is non-NULL iff the altitude delta is non-NULL and the time delta is positive, and it is then their quotient. |
| `Analysis.WindowOrderExists` | src/Db_work/analysis.py:35-38 | Every input has an admissible window order: the timed rows sorted by time. |
| `Analysis.Lag` | src/Db_work/analysis.py:35-38 | The LAG source of position i is the nearest earlier position in the same `icao24` partition. There is none exactly when no earlier row shares the partition. |
| `Analysis.ClimbRate` | src/Db_work/analysis.py:52-56 | A climb rate exists only when both deltas are non-NULL and `time_delta > 0`. It then equals `altitude_delta / time_delta`, so the divisor is never zero. |
| `Analysis.SelectFeatures` | src/Db_work/analysis.py:58-59 | The output holds exactly the feature rows of the `ordered_states` rows whose `prev_time` is non-NULL. |
| `Analysis.FeatureRowsArePredecessorPairs` | src/Db_work/analysis.py:31-59 | Each output row belongs to a position that has a same-aircraft predecessor, and every such position yields one. The first row of each aircraft yields nothing. |
| `Analysis.DeltaRowFromPredecessor` | src/Db_work/analysis.py:35-49 | The `prev_*` columns come from the immediately preceding row of the same aircraft. `time_delta` is the (non-negative) difference of their times, and the velocity and altitude deltas subtract the predecessor's values. |
| `Analysis.NullTimeRowsNeverParticipate` | src/Db_work/analysis.py:35-40 | Every output row is an input row with a time, and its predecessor had a time. `time_delta` is non-NULL and non-negative. |
| `Analysis.CreateAnomalyFeatures` | src/Db_work/analysis.py:29-60 | No more output rows than timed input rows. Every output row is a row of the window order that has a `prev_time`. |
| `Analysis.OrderedPredecessorCount` | src/Db_work/analysis.py:35-40 | Over timed rows, the rows with a `prev_time` plus the distinct partitions add up to all rows: exactly one row per partition lacks a predecessor. |
| `Analysis.FeatureCount` | src/Db_work/analysis.py:59 | Output size = timed rows − distinct aircraft among them. |
| `Analysis.SuddenVelocity` | src/Db_work/analysis.py:81-84 | True iff both operands are non-NULL, abs(velocity_delta) > 50 and time_delta < 20. A NULL operand gives false. |
| `Analysis.UnrealisticClimb` | src/Db_work/analysis.py:88-91 | True iff the climb rate is non-NULL and abs(rate) > 50. |
| `Analysis.AltitudeJump` | src/Db_work/analysis.py:95-98 | True iff both operands are non-NULL, abs(altitude_delta) > 1000 and time_delta < 10. |
| `Analysis.FlagAnomalies` | src/Db_work/analysis.py:74-100 | Every feature row is kept, unchanged, in the same number and order. Each row's three flags are the `CASE` results for that row. |
| `Analysis.FlaggedRowsCarryTheirFlags` | src/Db_work/analysis.py:74-100 | Every flagged row is a feature row with its own three `CASE` results. |
| `Analysis.RunAnalysis` | src/Db_work/analysis.py:122-134 | The two steps together: the row count formula holds, and every flagged row is a timed input row with a non-negative time step. Each flagged row comes from the features table and carries that row's three flags. |
| `Analysis.ZeroTimeStepIsNoClimbAnomaly` | src/Db_work/analysis.py:88-91 | A zero time step gives a NULL climb rate and therefore no unrealistic-climb flag. |
| `Analysis.SuddenVelocityExample` | src/Db_work/analysis.py:81-84 | Take two samples of one aircraft whose velocity rose by 60. They give one row, which is flagged at Δt 15 and not at Δt 25. |
| `Analysis.AltitudeJumpExample` | src/Db_work/analysis.py:95-98 | Two samples 8 s apart with a 1200 m gain give one row, flagged as an altitude jump. |
| `Analysis.PairFeatures` | src/Db_work/analysis.py:35-59 | Two time-ordered samples of one aircraft give exactly one row: the second sample with the first sample's LAG values. |
| `Transform.AirframeMatchesBag` | src/Db_work/transform.py:99 | As a bag, each matching airframe is kept as often as it occurs and every other airframe is dropped. |
| `Transform.AirframeMatches` | src/Db_work/transform.py:99 | Exactly the airframes for which `s.icao24 = af.icao24` is TRUE. A NULL key matches none. |
| `Transform.ModelMatches` | src/Db_work/transform.py:100-103 | Exactly the model rows whose `Designator` equals the airframe's typecode or ICAO type. |
| `Transform.ModelMatchesBag` | src/Db_work/transform.py:100-103 | As a bag, each joining model row is kept as often as it occurs and every other row is dropped. |
| `Transform.ClimbRateRatio` | src/Db_work/transform.py:86-90 | Non-NULL iff velocity > 0, altitude > 0 and the vertical rate is present. It then equals abs(vertical_rate) / velocity. |
| `Transform.AltitudeKm` | src/Db_work/transform.py:92-96 | Non-NULL iff the altitude is present and positive. It is then the altitude in km. |
| `Transform.JoinModels` | src/Db_work/transform.py:100-103 | Every row carries a matched airframe and the state's derived columns. An attached model joins its airframe, and a NULL model means no model joins. Every joining (airframe, model) pair appears, and so does every airframe without a model. |
| `Transform.JoinModelsBag` | src/Db_work/transform.py:100-103 | As a bag: an (airframe, model) row occurs as often as the airframe occurs times the joining model's occurrences. An airframe with no model yields one NULL-model row per occurrence. |
| `Transform.EnrichState` | src/Db_work/transform.py:98-103 | A state yields at least one row. With no airframe match it yields one row with NULL metadata. With a match every row carries an airframe. Every matching (airframe, model) pair appears, and a matching airframe without a model appears with NULL model columns. |
| `Transform.EnrichStateBag` | src/Db_work/transform.py:98-103 | As a bag: a joined (airframe, model) row occurs airframe-count times model-count times, and an airframe without a model once per occurrence. The all-NULL row occurs exactly once when nothing matches, and otherwise not at all. |
| `Transform.CreateEnriched` | src/Db_work/transform.py:32-103 | The table is the concatenation, in input order, of the per-state rows: every row is one of some state's rows and every such row is in the table (multiplicities are `CreateEnrichedBag`); it is at least as long as the state table. |
| `Transform.CreateEnrichedBag` | src/Db_work/transform.py:32-103 | As a bag, each row occurs as often as its state occurs times the row's count among that state's rows. |
| `Transform.EnrichmentKeepsEveryState` | src/Db_work/transform.py:98-103 | Every state appears at least once and no state is invented. The derived columns are the row's own state's. |
| `Transform.EnrichedRowsHonourJoins` | src/Db_work/transform.py:98-103 | Attached airframes and models satisfy their join conditions. Unmatched rows carry NULL metadata. A state with a matching airframe gets it on every row. An airframe-only row means no model joins that airframe. |
| `Transform.EnrichmentKeepsAirframeWithoutModel` | src/Db_work/transform.py:98-103 | A state joined to an airframe that no model joins appears with that airframe and NULL model columns. |
| `Transform.EnrichmentIsComplete` | src/Db_work/transform.py:98-103 | Every matching (state, airframe, model) triple appears in the enriched table. |
| `Transform.OrJoinDuplicatesState` | src/Db_work/transform.py:100-103 | The OR condition duplicates a state whose typecode and ICAO type name two different model rows. |
| `Transform.BaselineInput` | src/Db_work/transform.py:155-157 | Exactly the rows with non-NULL typecode, velocity and altitude. As a bag, each such row keeps its multiplicity. |
| `Transform.Members` | src/Db_work/transform.py:158 | A group holds exactly the input rows with that (typecode, icaoaircrafttype, ModelFullName) key. |
| `Transform.MembersBag` | src/Db_work/transform.py:158 | As a bag, a group holds each row of its key as often as it occurs in the input, and no other row. |
| `Transform.DistinctKeys` | src/Db_work/transform.py:158 | Each key present in the input appears once. |
| `Transform.GroupStats` | src/Db_work/transform.py:142-153 | The baseline row carries its group's key, the group's size as its count, and `sd` of the group's values. |
| `Transform.StatsRows` | src/Db_work/transform.py:158-159 | Every row is a group of the key list with at least 10 members, holding that group's statistics. |
| `Transform.CreateTypeStats` | src/Db_work/transform.py:139-162 | The rows are the counted groups, as a bag, in non-increasing `observation_count`. |
| `Transform.TypeStatsAreCountedGroups` | src/Db_work/transform.py:139-162 | A baseline exists exactly once for each group of ≥ 10, so 9 rows give none and 10 give one. Its count is the group size, its typecode is non-NULL, and the rows are in non-increasing count. |
| `Transform.Mean` | src/Db_work/transform.py:147 | `AVG` lies between the smallest and the largest of its values. |
| `Transform.AverageBetween` | src/Db_work/transform.py:147 | The sum over the count lies within any bounds of the values. |
| `Transform.MeanBetween` | src/Db_work/transform.py:147 | `AVG` lies within any bounds of its values. |
| `Transform.Quantile95Between` | src/Db_work/transform.py:152-153 | On ascending values the interpolated 95th percentile lies between the first and the last. |
| `Transform.Percentile95` | src/Db_work/transform.py:152-153 | `PERCENTILE_CONT(0.95)` lies between the smallest and the largest of its values. |
| `Transform.Percentile95Between` | src/Db_work/transform.py:152-153 | `PERCENTILE_CONT(0.95)` lies within any bounds of its values. |
| `Transform.StatsWithinGroupRange` | src/Db_work/transform.py:147-153 | Each baseline's averages and 95th percentiles lie between its group's minimum and maximum. |
| `Transform.FlagAgainst` | src/Db_work/transform.py:188-236 | Each of the seven flags holds iff its condition holds with non-NULL operands. Sigma flags need stddev > 0. Low altitude needs `on_ground = FALSE`. High and low are never both true. |
| `Transform.MatchingBaselines` | src/Db_work/transform.py:239-243 | Exactly the baselines the observation joins whose typecode is non-NULL. |
| `Transform.FlagEach` | src/Db_work/transform.py:177-236 | Setting an observation against a list of baselines gives one row per baseline, in order, each with the flags `FlagAgainst` computes for that pair. |
| `Transform.FlagRowsFor` | src/Db_work/transform.py:238-243 | An observation gets one flag row per matching baseline. |
| `Transform.FlagTypeAnomalies` | src/Db_work/transform.py:177-244 | The output is the concatenation, in input order, of each observation's per-baseline rows: every output row is one of some observation's rows, and every such row is in the output (how often each occurs is `FlagTypeAnomaliesBag`). |
| `Transform.FlaggedRowsAreJoinedPairs` | src/Db_work/transform.py:238-243 | Each output row is a joined (observation, baseline) pair with that pair's flags, and every such pair appears. Observations with no baseline are absent. |
| `Transform.MatchingBaselinesBag` | src/Db_work/transform.py:238-243 | As a bag, the baselines an observation matches are the joining, typed baselines of the table, each as often as it occurs there. |
| `Transform.FlagEachBag` | src/Db_work/transform.py:177-236 | As a bag, those rows are the observation's row with each baseline, as often as the baseline occurs in the list, and nothing else. |
| `Transform.FlagRowsForBag` | src/Db_work/transform.py:238-243 | As a bag, one observation's rows are one row per occurrence of each baseline it joins, with that pair's flags, and nothing else. |
| `Transform.FlagTypeAnomaliesBag` | src/Db_work/transform.py:177-244 | As a bag, the row of a joined pair occurs (occurrences of the observation) × (occurrences of the baseline) times, and no other row occurs, so no row is doubled or dropped. |
| `Transform.UnusualVerticalRateIgnoresBaseline` | src/Db_work/transform.py:231-236 | `unusual_vertical_rate` does not depend on the baseline. |
| `Transform.UniformVelocityGroupNeverFlagsSpeed` | src/Db_work/transform.py:189-201 | In a group whose velocities are all equal, stddev is 0, so nobody is flagged too fast or too slow against it. |
| `Transform.RunTransform` | src/Db_work/transform.py:277-288 | Every row of the whole pass is an input state against a typed baseline of at least 10 observations, carrying that pair's flags. |
| `TumblingWindow.Aggregate.Initializer` | src/streaming/consumer_tumbling_window.py:30-34 | Count 0 and an empty key set, whatever the event. |
| `TumblingWindow.Aggregate.Reduce` | src/streaming/consumer_tumbling_window.py:36-42 | Count grows by exactly 1. The identifier is inserted only when it is truthy, and no key is removed. A key already present leaves the set unchanged. |
| `TumblingWindow.SeenAircraftSnoc` | src/streaming/consumer_tumbling_window.py:39-41 | One more event adds at most its own truthy identifier to the seen set. |
| `TumblingWindow.SeenAircraftBound` | src/streaming/consumer_tumbling_window.py:68 | There are never more distinct aircraft than events. |
| `TumblingWindow.Summarize` | src/streaming/consumer_tumbling_window.py:30-68 | After the initializer and k reductions, count = k, the returned keys of `unique_aircraft` are exactly the truthy identifiers seen, and the unique count is the number of those keys, ≤ k. |
| `Calendar.PadOrder` | src/streaming/consumer_s3_writer.py:19-20 | Zero padding to one width preserves numeric order and distinguishes numbers. |
| `S3Writer.DatePathLayout` | src/streaming/consumer_s3_writer.py:19 | `%Y/%m/%d` is 10 characters, with slashes at 4 and 7. The year, month and day read back. |
| `S3Writer.StampLayout` | src/streaming/consumer_s3_writer.py:19-20 | The stamp is 15 characters. Its first 8 are the date path without slashes, `T` follows, and the hour, minute and second read back. |
| `S3Writer.KeyLayout` | src/streaming/consumer_s3_writer.py:18-21 | The key is exactly `processed/date=` + date path + `/aircraft_states_` + stamp + `.parquet`, 65 characters. |
| `S3Writer.DatePathOrder` | src/streaming/consumer_s3_writer.py:19 | Date paths order by date and are equal exactly for one date. |
| `S3Writer.StampOrder` | src/streaming/consumer_s3_writer.py:20 | On one date the stamps order by time of day and are equal only for one instant. |
| `S3Writer.KeyOrderIsChronological` | src/streaming/consumer_s3_writer.py:18-21 | Key order is chronological order, and keys are injective on second-resolution instants. |
| `S3Writer.WriteBatch` | src/streaming/consumer_s3_writer.py:23-29 | Nothing is written for an empty batch. Otherwise one upload of the whole batch is made under the key of `now`. |
| `S3Writer.BatchWriter.constructor` | src/streaming/consumer_s3_writer.py:48-49 | Starts with an empty batch, no uploads and `last_flush_time` = start time. |
| `S3Writer.BatchWriter.OnMessage` | src/streaming/consumer_s3_writer.py:51-59 | On a flush, the batch including the new message is uploaded, the batch is cleared and `last_flush_time` becomes `current_time`. Otherwise the message is appended and nothing else changes. Uploads followed by the batch always equal all messages, and the batch stays below `BATCH_SIZE`. |
| `S3Writer.Consume` | src/streaming/consumer_s3_writer.py:48-59 | Uploads followed by the pending batch equal all records in arrival order. Every upload is non-empty and ≤ `BATCH_SIZE`, and the pending batch is < `BATCH_SIZE`. Pending records arrived within the timeout of the last flush. |
| `OpenSkyClient.Sanitize` | src/ingest/opensky_client.py:10-21 | Missing markers become None and a Timestamp becomes its ISO string. Anything else, including a value the probe rejects, is unchanged. |
| `OpenSkyClient.SanitizeIdempotent` | src/ingest/opensky_client.py:10-21 | Sanitising twice is sanitising once. |
| `OpenSkyClient.IsoFormatLayout` | src/ingest/opensky_client.py:17 | The ISO string has its separators at fixed offsets, and each date and clock field is that field of the timestamp in zero-padded digits, which read back to the number. A UTC timestamp ends in `+00:00`. |
| `OpenSkyClient.Get` | src/ingest/opensky_client.py:49 | `row.get` yields the cell, or None for an absent column. |
| `OpenSkyClient.SourceColumnsAreRenames` | src/ingest/opensky_client.py:52-62 | The column each key reads is the fixed rename table applied to that key. |
| `OpenSkyClient.OutputFieldsDistinct` | src/ingest/opensky_client.py:48-66 | The record has 17 distinct keys. |
| `OpenSkyClient.RowToDict` | src/ingest/opensky_client.py:47-66 | Exactly the 17 keys in order, each holding the sanitised cell of its source column. |
| `OpenSkyClient.RowToDictFollowsRenames` | src/ingest/opensky_client.py:49-65 | Each key holds the sanitised cell of its renamed column, and None when the row lacks that column. |
| `OpenSkyClient.FetchStates` | src/ingest/opensky_client.py:29-34 | A raised exception gives None. Otherwise the result is what the call returned. |
| `OpenSkyClient.GetStatesDict` | src/ingest/opensky_client.py:36-45 | No records when the fetch failed or returned None. Otherwise one normalised record per row, in row order. |

## Left out

- DuckDB connections, the CSV/parquet loaders and the S3/httpfs setup are I/O. `src/Db_work/load.py`, `src/analytics/load.py`, `src/analytics/duckdb_utils.py`, `src/Db_work/duckdb_utils.py` and `Data/load.py` are not part of this model.
- The Kafka consumer and producer, the `pd.DataFrame`/parquet write, the boto3 upload and the `REST().states()` call are network or I/O. A flush is recorded as the upload it requests. The REST call is an outcome parameter.
- `time.time()` and `datetime.now()` are clock readings passed in as parameters.
- The quixstreams windowing (`group_by`, `tumbling_window`, `reduce`, `final`, `app.run`) is library code. The repository has no grace period or late-drop logic of its own. The library may call `initializer` instead of `reducer` on a window's first event. If so, the reported count is one less than the window's events, and that first event's `icao24` is missing from `unique_aircraft`.
- The logging and statistics blocks, and the local-time formatting in `print_window_result`, only report results.
- `Analysis.Seconds`: `time_position` is integer epoch seconds. The `epoch(CAST … AS TIMESTAMP)` parsing is not modelled.
- `Transform.GroupStats`: `STDDEV` is an abstract parameter (no square root). All values are exact `real`s, so IEEE rounding and NaN are not modelled.
- `Transform.StatsRows`: the table keeps only the columns the queries compute with. The other columns are copied through by the projection or `*`.
- `OpenSkyClient.IsoFormatLayout`: a Timestamp is modelled at second resolution, naive or UTC. Fractional seconds and other offsets are not modelled.
- `OpenSkyClient.Sanitize`: array-valued cells, on which `pd.isna` returns an array, are not modelled.
- `S3Writer.KeyOrderIsChronological`: years are 1 to 9999 and `%Y` is taken as four zero-padded digits. Some C libraries do not pad years below 1000.
- `src/orchestration/flows.py` (Prefect scheduling) and `viz/vizualization.py` (plotting) are not part of this model.
- `S3Writer.Consume`: `consumer_s3_writer.py` guards `main()` with `if __name__ == "main__"`, so running the file as a script never enters the loop. The model describes the loop as written.
