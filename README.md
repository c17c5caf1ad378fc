# Sensor data quality analysis: a Dafny model

This project models the analytic core of a small sensor-quality dashboard.
The dashboard takes CSV exports from two sensor points (P1 and P2) and
groups the uploaded files by the `DD-MM-YYYY` date in their names. For every
date that has both points, it analyses each point's file and then builds a
per-minute completeness table for the two.

The per-point analysis (`get_analysis_data`) does the following:

- It drops rows whose timestamp does not parse and sorts the rest by timestamp.
- It reports the largest gap between consecutive timestamps.
- It finds the monitored PM2.5 column and flags spikes on the non-null readings of that column. The baseline is a centred rolling median over up to eleven readings. A reading is an error when it is above 6600, or when it is more than `limit` above its baseline.
- It counts the errors and samples the first three distinct clock times of flagged readings.
- It joins the flags back onto the rows by timestamp and builds one 0/1 status record per row (`has_dt`, `has_dht`, `has_piera`, `both_up`, `pm_error`).
- It collapses the status rows by exact timestamp, taking the field-wise maximum.

The two points' status tables are then combined in three steps:

- They are outer-joined, with a point that has no row at an instant counting as zeros.
- They are resampled into contiguous one-minute buckets with field-wise sums.
- Each bucket gets `missing = max(0, 60 - has_dt)` per point.

The modules follow that structure:

| module | file | what it holds |
|---|---|---|
| `Wrappers` | wrappers.dfy | `Option` |
| `Filters` | filters.dfy | the positions a row filter keeps, and picking elements at positions |
| `Texts` | texts.dfy | substring and prefix tests, string order, the date token of a file name |
| `Sorting` | sorting.dfy | ascending sort of a window of readings |
| `Tables` | tables.dfy | a raw table, column classification, parsing and sorting by timestamp |
| `Gaps` | gaps.dfy | the largest-gap report |
| `Spikes` | spikes.dfy | window, median, flag rule, error count and error report |
| `Status` | status.dfy | the status record and the collapse by exact timestamp |
| `Point` | point.dfy | `get_analysis_data` put together, with its guarantees |
| `Aggregation` | aggregation.dfy | outer join, one-minute resample, missing seconds |
| `Grouping` | grouping.dfy | the upload loop (a method over a map), the date order, the per-date plan |
| `Daily` | daily.dfy | one analysed date: both points and their per-minute table |

Most of the core computes values, so it is modelled as datatypes, functions and lemmas. The upload loop updates a dictionary step by step, so it is a method with a `while` loop over a `map`. Sorting the date keys and building the per-date plans are methods with loops too. The upload loop and the plan builder are proved against ghost predicates that define their results from the list of file names. The date sort is proved against the map it is given: its result is strictly ascending and holds exactly that map's keys.

In these places the model follows what the code does:

- **Grouping by timestamp.** The status rows are grouped by exact timestamp (`app.py:74`), not by minute. The one-minute buckets come only from the later resample with sums. So `has_dt` of a bucket counts distinct timestamps in that minute, which is at most 60. It does not count rows.
- **No monitored column.** Without a PM2.5 column the report is the plain "no anomalies found" result (`app.py:38`). There is no separate "not found" status.
- **Several files for one place.** When several files carry the same date and point, the last one uploaded is kept (`app.py:88`). The model does not require exactly one such file.
- **Values below the baseline.** Such a value can still be flagged when the configured limit is negative. A reading that is no higher than any reading of its window, and at most 6600, is never flagged; this is proved for limits of 0 or more.

## Model

| member | source | states |
|---|---|---|
| Texts.DateKeyIsLeftmost | app.py:83-85 | a name has a date key iff a `DD-MM-YYYY` token (ASCII digits) occurs in it; the key is such a token, the text of the leftmost occurrence |
| Texts.LexLessIrreflexive | app.py:90 | no date key sorts before itself |
| Texts.LexLessTransitive | app.py:90 | string order is transitive |
| Texts.LexLessTotal | app.py:90 | any two different keys are ordered one way or the other |
| Texts.LexLessAsymmetric | app.py:90 | two keys are never ordered both ways |
| Filters.Positions | app.py:43 | the positions where a mask holds: each once, in ascending order, and all of them |
| Tables.PmColumn | app.py:37 | no monitored column iff no column name contains both "PM2" and "5"; otherwise a column of the table whose name does |
| Tables.PmColumnIsFirst | app.py:37 | the monitored column is the leftmost such column |
| Tables.ParticulateColumns | app.py:96 | exactly the columns whose names start with "PC" or "PM" |
| Tables.ParsedIsFilter | app.py:22 | the parsed records are exactly the rows whose timestamp parsed, in their original order, record k being the row at the k-th such position |
| Tables.ParsedRows | app.py:22 | every parsed record comes from a row that parsed, with its cells, and every row that parsed is there |
| Tables.ParsedCounts | app.py:22 | each parsed row appears among the records exactly as often as among the rows |
| Tables.InsertSorted | app.py:23 | inserting into timestamp-sorted records keeps them sorted |
| Tables.InsertKeeps | app.py:23 | inserting adds exactly the new record (multiset) |
| Tables.SortByStamp | app.py:23 | ascending by timestamp, a permutation of the records |
| Tables.Prepared | app.py:22-23 | the prepared records are sorted by timestamp |
| Tables.PreparedIsPermutation | app.py:22-23 | sorting is a permutation of the parsed records |
| Tables.PreparedCounts | app.py:22-23 | each parsed row appears among the prepared records exactly as often as among the rows |
| Tables.PreparedRows | app.py:22-23 | every prepared record comes from a row that parsed, and every row that parsed is there |
| Tables.PreparedCells | app.py:22-23 | the prepared records of a rectangular table have a cell for every column |
| Sorting.Sort | app.py:46 | the window's readings in ascending order, a permutation of them |
| Sorting.SortedUnique | app.py:46 | two ascending sequences with the same readings are equal, so the sorted window is unique |
| Gaps.FirstLargestStep | app.py:27-30 | the position of the largest step between consecutive timestamps, the first one that reaches it |
| Gaps.LargestGap | app.py:26-34 | no gap iff fewer than two timestamps or no step above 1 s; otherwise duration = largest step − 1 ≥ 1, between the two timestamps of the first largest step, with no step before it as large |
| Gaps.ThreeRowScenario | app.py:26-34 | rows at 01:00:00, 01:00:05 and 01:05:00 give a 294-second gap from 01:00:05 to 01:05:00 |
| Spikes.SeqMin | app.py:46 | the smallest reading of a window |
| Spikes.SeqMax | app.py:46 | the largest reading of a window |
| Spikes.Median | app.py:46 | the median lies between the smallest and the largest reading of the window |
| Spikes.MedianIsMiddle | app.py:46 | the median is the middle reading, or the mean of the two middle readings, of any ascending arrangement of the window |
| Spikes.Window | app.py:46 | 1 to 11 readings: the readings at positions max(0, i−5) up to min(n−1, i+5), in order, element k being the reading at max(0, i−5) + k; the reading itself is among them |
| Spikes.ThreeReadingBaseline | app.py:46 | the baseline of the middle of 0, 0, 10 is 0 |
| Spikes.BaselineWithinWindow | app.py:46 | when every reading of the window lies in [lo, hi], so does the baseline |
| Spikes.AboveCeilingIsFlagged | app.py:50 | a reading above 6600 is an error for every limit |
| Spikes.WithinLimitIsNotFlagged | app.py:50 | a reading of at most 6600 that is at most `limit` above its baseline is not an error |
| Spikes.LocalMinimumIsNotFlagged | app.py:50 | with limit ≥ 0, a reading of at most 6600 that is no higher than any reading of its window is not an error |
| Spikes.CountTrue | app.py:53 | the error count is at most the number of readings, and 0 iff nothing is flagged |
| Spikes.CountTrueAppend | app.py:53 | the count over two runs of flags is the sum of the counts |
| Spikes.CountSingle | app.py:53 | a single flagged reading counts once |
| Spikes.ElevenRowQuiet | app.py:46-50 | next to a single 9999 among readings of 10, a 10 is not an error under limit 100 |
| Spikes.ElevenRowScenario | app.py:43-53 | ten readings of 10 around one 9999 under limit 100: exactly that reading is flagged, and the count is 1 |
| Spikes.ClockOf | app.py:55 | hour, minute and second in range, encoding the time of day of the timestamp |
| Spikes.FlaggedClocks | app.py:55 | one clock time per flagged reading; a time is listed iff some flagged reading has it |
| Spikes.FlaggedClocksInOrder | app.py:55 | the k-th time listed is the clock time of the k-th flagged reading |
| Spikes.FirstFlaggedClock | app.py:55 | the first time listed is that of the first flagged reading |
| Spikes.FirstIndex | app.py:55 | the position of the first occurrence of a time |
| Spikes.Dedup | app.py:55 | `unique()`: the same times, each once, in order of first occurrence, starting with the first |
| Spikes.FirstFew | app.py:56 | `[:3]`: the first three times, or all of them when there are fewer |
| Spikes.Report | app.py:38-56 | "no anomaly" iff nothing is flagged; otherwise the error count and 1 to 3 distinct sample times |
| Spikes.ReportSample | app.py:55-56 | the sample times belong to flagged readings; there are three unless every flagged time is among them; the first is the first flagged reading's; they keep their order of first occurrence |
| Spikes.SampleSkipsNothing | app.py:55-56 | every flagged time left out of the sample first occurs after every sampled time |
| Status.RowStatus | app.py:66-72 | a 0/1 record with `has_dt` 1, `has_dht` iff a climate reading, `has_piera` iff a particulate reading, `both_up` iff both, `pm_error` iff the joined flag |
| Status.MaxStatus | app.py:74 | every field is the larger of the two |
| Status.GroupByStamp | app.py:74 | one row per distinct timestamp, strictly ascending, with exactly the timestamps of the input |
| Status.GroupByStampIsMax | app.py:74 | every collapsed row holds the field-wise maximum of all rows with its timestamp |
| Status.MaxAtIsAny | app.py:74 | over 0/1 rows a field of the maximum is 0 or 1, and 1 iff some row with that timestamp has it |
| Status.GroupedExists | app.py:74 | a field of a collapsed 0/1 row is set iff it is set in some row with its timestamp |
| Status.GroupedFlagRecord | app.py:74 | collapsing 0/1 rows gives 0/1 rows; a field set in all rows stays set |
| Point.PmSeriesIsFilter | app.py:43 | the de-nulled view is exactly the non-null values of the column, in row order, reading k coming from the k-th non-null row with its timestamp |
| Point.StatusRows | app.py:59-72 | one status row per record, with its timestamp; its fields are the row's readings and the flag joined by timestamp |
| Point.PreparedReportedAt | app.py:22-23 | parsing and sorting neither add nor lose a row with a given timestamp and reading |
| Point.RowsOfFacts | app.py:59-72 | before the collapse, each status row is a 0/1 record of its record, with `has_dt` 1 and `pm_error` iff a reading with its timestamp was flagged |
| Point.StatusTableStamps | app.py:22-74 | the status table is strictly ascending and has a row for exactly the timestamps that parsed |
| Point.StatusTableRecord | app.py:66-74 | every collapsed row is a 0/1 record with `has_dt` 1 |
| Point.StatusTableSensors | app.py:69-74 | `has_dht`, `has_piera` and `both_up` of a collapsed row are 1 iff some row with its timestamp has that reading (for `both_up`, a single row with both) |
| Point.StatusTableError | app.py:59-74 | `pm_error` of a collapsed row is 1 iff some non-null reading with its timestamp was flagged |
| Point.ReadingOrigin | app.py:43 | a reading of the view exists only when there is a monitored column, and it comes from a sorted record with that value |
| Point.FlaggedNeedsReading | app.py:43-60 | an error at a timestamp needs a monitored column and a row at that timestamp with a non-null value in it |
| Point.FlaggedReadingInTable | app.py:59-74 | each flagged reading's timestamp has a status row, whose `pm_error` is 1 |
| Point.ErrorReportAgrees | app.py:53-56 | the count is at most the number of readings, is 0 iff the report says "no anomaly", and otherwise the report carries it |
| Point.NoErrorNoFlag | app.py:59-74 | with no flagged reading, no status row has `pm_error` set |
| Point.ErrorColumnAgrees | app.py:53-74 | the count is 0 iff no status row has `pm_error` set |
| Point.NoPmColumnNoErrors | app.py:37-63 | without a monitored column the count is 0, the report says "no anomaly" and no row has `pm_error` |
| Point.NothingParsed | app.py:22-74 | a table no timestamp of which parses gives an empty status table, no gap, no errors |
| Point.NoneBetweenNeighbours | app.py:23-33 | in sorted records no timestamp lies strictly between two neighbours |
| Point.GapBetweenNeighbours | app.py:26-34 | the reported gap runs between two parsed timestamps with none strictly between them |
| Aggregation.LookupOr0 | app.py:101-102 | a table's status at an instant, all zeros when it has no row there |
| Aggregation.DropFront | app.py:101 | dropping the front row of a table removes exactly that timestamp |
| Aggregation.JoinFacts | app.py:101 | the join is strictly ascending, holds exactly the timestamps of either table, and each side is that table's status there or zeros |
| Aggregation.JoinKeepsTotals | app.py:101-102 | each point's column of the join sums to that point's whole table |
| Aggregation.MinuteOf | app.py:102 | the floor minute of a timestamp |
| Aggregation.ResampleSpan | app.py:102 | no buckets iff the join is empty; otherwise contiguous minutes from the minute of the first timestamp to that of the last, so every joined timestamp's minute lies in the span |
| Aggregation.ResampleCovers | app.py:102 | every joined row's minute has a bucket |
| Aggregation.StampedInIsFilter | app.py:102 | a table's rows in a minute are exactly those whose timestamp falls in it, each once, in table order |
| Aggregation.BucketIsOwnRows | app.py:101-102 | each point's half of a bucket is the sum of that point's own rows in that minute |
| Aggregation.AtMostSixty | app.py:102 | a table with distinct timestamps has at most 60 rows in a minute |
| Aggregation.OwnSeconds | app.py:102 | a point's `has_dt` in a minute is its number of rows there, at most 60, and 0 iff none falls there |
| Aggregation.BucketSeconds | app.py:102-104 | `has_dt` of a bucket is the point's timestamps in that minute (≤ 60); missing is 60 minus that; missing is 60 iff the point has no row in the minute |
| Aggregation.MissingBounds | app.py:103-104 | missing seconds lie in [0, 60]: 60 − `has_dt` up to 60, 0 beyond |
| Aggregation.ResampleKeepsTotals | app.py:102 | over all buckets a field sums to the join's total |
| Aggregation.MissingIsRest | app.py:103-104 | where no bucket counts more than 60, the total missing is 60 per bucket less the total `has_dt` |
| Aggregation.AggregateBuckets | app.py:101-104 | bucket k is minute first + k; each point's `has_dt` there is its timestamps in that minute (≤ 60), and missing is the rest |
| Aggregation.AggregateSpan | app.py:101-102 | the buckets are contiguous minutes from the earliest timestamp of either table to the latest, and there are none iff both tables are empty |
| Aggregation.SecondsAccountedFor | app.py:101-104 | over all buckets each point's `has_dt` sums to its number of rows, and its missing seconds to 60 per bucket less that |
| Grouping.LastFiledIsLast | app.py:81-88 | the file kept for a date and point is one filed there with none after it, or there is none |
| Grouping.GroupUploads | app.py:80-88 | a date is a key iff some file name carries it; a point is under it iff some file of that date is that point; the file kept is the last one |
| Grouping.SkipUnDated | app.py:83-84 | a file name without a date token changes nothing |
| Grouping.FileDated | app.py:84-88 | a dated file becomes the file of its point under its date, and everything else is kept |
| Grouping.InsertDate | app.py:90 | inserting a new date keeps the dates strictly sorted and adds exactly that date |
| Grouping.SortedDates | app.py:90 | the date keys in strictly ascending string order, each once |
| Grouping.StringOrderIsDayFirst | app.py:90 | 1 Feb 2024 is taken before 2 Jan 2024, and 1 Jan 2025 before 31 Dec 2024 |
| Grouping.PlanForFits | app.py:92-94 | a date is analysed iff both of its points have a file, and then with the two files kept |
| Grouping.PlanUploads | app.py:80-94 | the dates seen, in string order, each once, each with its plan (analysed with the two kept files, or skipped) |
| Daily.OwnColumns | app.py:96 | the P1 file has its own particulate columns |
| Daily.DateIsAggregate | app.py:98-102 | both status tables are strictly ascending, and the minutes of a date are their aggregation |
| Daily.OneSecondEach | app.py:68-74 | every status row of a point has `has_dt` 1 |
| Daily.StampsParsed | app.py:22-74 | a point's status table has a row for a timestamp iff it parsed, and is empty iff none did |
| Daily.DateSecondsAccountedFor | app.py:98-104 | over a date each point's `has_dt` sums to its number of distinct parsed timestamps, and its missing seconds to 60 per minute less that |
| Daily.DateMinutesSpan | app.py:98-102 | the minutes run without a hole from the earliest parsed timestamp of either file to the latest, and there are none iff neither file has one |
| Daily.DateMinute | app.py:98-104 | in each minute a point's `has_dt` is its distinct parsed timestamps there (≤ 60), and missing is the rest |

## Left out

- The user interface is not modelled: the sidebar, the headings, the metrics, the expander and the CSV download. The means shown in the metrics are floating-point averages; the model has only the sums they divide.
- Timestamps are whole seconds counted from a midnight, as pandas counts from 00:00 on 1 January 1970. `Spikes.ClockOf` takes the time of day as the timestamp modulo 86400, and `Aggregation.MinuteOf` takes the floor minute. Both rely on that origin. Time zones and leap seconds are not modelled.
- Reading CSV files is not modelled. A file's content is a `Table` of column names and rows. Each row carries an already-parsed timestamp in seconds, or `None` when the `DD-MM-YYYY-HH-MM-SS` text does not parse. The text-to-time conversion of `to_datetime` is not modelled.
- An uploaded file is represented by its position in the upload list. Reading the kept file is left to the caller (`Daily.AnalyseDate` takes both tables).
- Display texts are not modelled: the Thai messages, `strftime`, and `int()` in the gap and error texts. The model returns their contents as data: the gap's duration and its two timestamps, the error count, and the sample of clock times.
- PM readings and the limit are exact reals. Floating-point rounding, and a median of two middle readings that is not exactly representable, are not modelled.
- Tables.SortByStamp: the model uses a stable sort, while pandas' default sort is not stable. Rows with equal timestamps may come out in another order. That can change which readings fall into a rolling-median window when timestamps repeat.
- Texts.DateKeyIsLeftmost: `\d` is read as the ASCII digits 0-9. Python's `\d` also matches other Unicode decimal digits.
- A file that lacks the climate columns, or lacks the P1 file's particulate columns, raises a KeyError in the source. In the model that is a precondition (`HasColumns`, `Daily.Analysable`).
- The left merge repeats a row once per reading with the same timestamp. The model keeps one status row per record instead, whose `pm_error` is set when any reading with its timestamp is flagged. After the maximum by timestamp, which is what the analysis returns, the two agree. The intermediate row count is not modelled.
- A row whose monitored value is null but which shares its timestamp with a flagged reading gets `pm_error` 1. This follows the code.
- When both status tables are empty, the model's resample gives no buckets.
- The raw row counts shown for each file (`len(df1)`, `len(df2)`) are not modelled.

