# Store monitoring: uptime/downtime estimation engine, modelled in Dafny

This project models the estimation engine of the store-monitoring service. The
service polls many restaurants and records whether each was `active` or
`inactive` at irregular UTC instants. For every store, over three trailing
windows (last hour, last day, last week), it reports how much of the time was
uptime and how much was downtime. Only observations made during the store's
local business hours count. All of the logic lives in `app/main.py`, and
`app/utils.py` carries an identical copy of `convert_timedelta_to_time`.

The model works in whole seconds. Instants are integers (seconds since the
epoch). A time of day is a `Time(hour, minute, second)`, compared field by field
as Python's `datetime.time` is. The timezone library is a parameter of the
model, `ZoneDb`: a set of known zone names plus a total function from a zone
and an instant to a local weekday and time of day.

Modules, leaf first:

- `Wrappers` (wrappers.dfy): `Option` and `Result`.
- `TimeOfDay` (time_of_day.dfy): `Time`, `LocalTime`, and the
  duration-to-time conversion shared by `app/main.py` and `app/utils.py`.
- `Selection` (selection.dfy): order-preserving filtering (`Select`) and
  mapping (`MapSeq`) of sequences, with their lemmas. These are what pandas
  boolean masks and the source's appending loops compute.
- `Samples` (samples.dfy): poll samples, and the `Ascending` order of timestamps.
- `BusinessHours` (business_hours.dfy): rules, the 24/7 default calendar, the
  first-rule lookup and the business-hours filter.
- `Timezones` (timezones.dfy): the per-store zone lookup with its default, and
  the fallback for zones the library does not know.
- `Integrator` (integrator.dfy): `calculate_time`, as a loop (`CalculateTime`)
  proved equal to a specification function (`Integrate`).
- `Aggregator` (aggregator.dfy): `calculate_uptime_downtime` and its three windows.
- `Report` (report.dfy): `generate_report_df`. This covers the batch-wide
  reference instant, one row per distinct store, per-store fault isolation, and
  the batch-level errors.

Where the code's behaviour is surprising, the model follows the code:

- **Gap attribution.** The interval between the previous counted instant and an
  in-window sample goes to the status of the sample that *arrives*, including
  the interval from the window start to the first sample. Only the tail after
  the last in-window sample uses the carried status, and that status starts as
  inactive. This is not last-observation-carried-forward; see
  `Integrator.GapGoesToArrivingStatus`.
- **Empty input.** An empty business-hours-filtered list yields (0, 0), not a
  window of downtime. A non-empty list whose samples all precede the window
  yields a full window of downtime (`Integrator.AllBeforeStartIsDowntime`).
- **Order.** Nothing sorts the samples. `calculate_time` is modelled for every
  order, including the early stop at the first sample after the window. The sum
  law (uptime + downtime equals the window length) holds in every order. Only
  non-negativity of each total needs a hypothesis: that the store's own
  timestamps ascend. Other stores' samples may interleave freely.
- **Empty configuration tables.** A store with no timezone row or no
  business-hour rows gets the defaults. But when the whole `timezones` or
  `business_hours` table is empty, pandas builds a frame with no columns. The
  column lookups at app/main.py:236-237 (outside the per-store `try`) then raise,
  and the whole report fails. The model returns `MissingStoreIdColumn` for this.
- **Unknown zones.** An unknown zone falls back to `America/Chicago`. If that
  zone were unknown too, the fallback raises inside the `except` block. The
  batch loop catches this and emits an all-zero row (`StoreError.UnknownTimezone`).
- **Business-hour times.** A business-hours duration outside 00:00:00..23:59:59
  (MySQL `TIME` allows negative values and values of 24 h or more) makes
  `time(...)` raise while the tables are read. The whole report fails
  (`InvalidBusinessHourTime`).

## Model

| member | source | states |
|---|---|---|
| `TimeOfDay.ConvertTimedeltaToTime` | app/main.py:18-24 | yields a time exactly when 0 <= s < 86400; the time is valid (minutes and seconds < 60) and h*3600 + m*60 + sec == s |
| `TimeOfDay.DivModSplit` | app/utils.py:20-23 | the floor split s/3600, (s%3600)/60, s%60 recombines to s, minutes and seconds lie in 0..59, and the hour is in 0..23 iff 0 <= s < 86400 |
| `TimeOfDay.ConvertRoundTrip` | app/utils.py:17-24 | converting a valid time's seconds count back gives the same time (lossless round trip) |
| `TimeOfDay.UniqueSplit` | app/utils.py:19-23 | two valid times with the same seconds count are equal |
| `TimeOfDay.AtOrBeforeIffSeconds` | app/main.py:135 | Python's field-by-field `time` comparison agrees with comparing seconds since midnight |
| `Selection.SelectMembers` | app/main.py:122-138 | an element is kept iff it is in the input and passes the test |
| `Selection.SelectIsOrderedSubsequence` | app/main.py:122-138 | the kept elements are the input's elements at exactly the passing positions, in increasing order |
| `Samples.SelectKeepsAscending` | app/main.py:242 | filtering an ascending sample list (per store, or by business hours) keeps it ascending |
| `BusinessHours.GetDefaultBusinessHours` | app/main.py:59-68 | exactly 7 rules; rule d is day d, open 00:00:00 to 23:59:59 |
| `BusinessHours.FirstRuleFor` | app/main.py:128-132 | None iff no rule names the weekday; otherwise the first rule listed for it |
| `BusinessHours.FilterBusinessHours` | app/main.py:120-138 | the output is the order-preserving selection of samples whose local weekday has a rule and whose local time lies within the first such rule's [start, end], both inclusive; ascending input gives ascending output |
| `BusinessHours.DefaultHoursAlwaysOpen` | app/main.py:99-101 | under the default calendar a valid local time is open iff its weekday is 0..6 |
| `BusinessHours.InBusinessHoursSeconds` | app/main.py:130-135 | for valid times, open iff the first rule for the weekday exists and start <= local seconds <= end |
| `Timezones.GetStoreTimezone` | app/main.py:51-57 | the zone of the first row for the store, or `America/Chicago` when there is none |
| `Timezones.ResolveZone` | app/main.py:86-92 | a known zone is used as is; an unknown one falls back to the default; failure iff both are unknown |
| `Integrator.CalculateTime` | app/main.py:140-176 | the loop with its early exit computes `Integrate`; an empty list gives (0, 0) |
| `Integrator.WalkStopsAtFirstLate` | app/main.py:155-157 | the scan ignores everything from the first sample after the window end onwards |
| `Integrator.WalkSkipsEarly` | app/main.py:159 | samples before the window start change neither totals nor the carried status |
| `Integrator.WalkSum` | app/main.py:154-166 | in any order, the counted intervals tile [previous, previous'] exactly, and attribution stays inside the window |
| `Integrator.WalkBalance` | app/main.py:159-166 | on ascending input every counted interval is non-negative, so neither total decreases |
| `Integrator.IntegrateSumsToWindow` | app/main.py:150-174 | non-empty input in any order and start <= end: uptime + downtime == end - start |
| `Integrator.IntegrateCoversWindow` | app/main.py:150-174 | non-empty ascending input and start <= end: additionally uptime >= 0 and downtime >= 0 |
| `Integrator.AllBeforeStartIsDowntime` | app/main.py:150-174 | if every sample precedes the window, the whole window is downtime |
| `Integrator.WalkCreditsArrivingStatus` | app/main.py:154-166 | scanning in-window samples credits each gap to the sample ending it (`Credited`) and leaves the last sample's instant and status |
| `Integrator.GapGoesToArrivingStatus` | app/main.py:150-174 | for any non-empty list of in-window samples, in any order: uptime (downtime) is the sum of the gaps (window start to the first sample, then between consecutive samples) whose ending sample is active (inactive), plus the tail end − last instant when the last sample is active (inactive) |
| `Aggregator.WindowTotalsAt` | app/main.py:106-116 | the three windows are [now-1h, now], [now-1d, now], [now-7d, now], each integrated independently from the same samples |
| `Aggregator.IntegrateWindows` | app/main.py:112-116 | the loop over the timeframes fills in exactly those three window totals |
| `Aggregator.CalculateUptimeDowntime` | app/main.py:70-118 | computes `StoreMetrics`; a store without samples gets all six metrics 0 |
| `Aggregator.StoreMetricsComplete` | app/main.py:74-81 | a successful computation reports all three windows |
| `Aggregator.UnknownZoneUsesDefault` | app/main.py:89-92 | an unknown zone is reported exactly as the default zone |
| `Aggregator.WindowsSumToLength` | app/main.py:104-116 | for a store with samples in any order and a resolving zone: each window's totals add up to 0 if no sample survives the business-hours filter, and otherwise to exactly the window length |
| `Aggregator.WindowsCoverTheirLength` | app/main.py:104-116 | on ascending samples every window's totals are non-negative and add up to 0 or to the window length |
| `Aggregator.MissingRulesCountAllDay` | app/main.py:98-101 | a store with samples (in any order) and no rules keeps every sample; each window's totals add up to its full length |
| `Report.ConvertHourRows` | app/main.py:45-47 | conversion succeeds iff every start and end lies in 0..86399; each converted rule keeps store, weekday and both times |
| `Report.MaxInstant` | app/main.py:231 | the reference instant is the largest timestamp of the whole batch |
| `Report.FirstIndex` | app/main.py:239 | the position of the first occurrence of a store id |
| `Report.DistinctSpec` | app/main.py:239 | the store list holds each store id of the batch exactly once, ordered by first appearance |
| `Report.StoreRules` | app/main.py:241 | a rule belongs to the store's rules iff the table has that row for the store |
| `Report.StoreRulesInTableOrder` | app/main.py:241 | the store's rules are the rules of exactly the rows the store mask selects, one per row, in table order |
| `Report.StoreRuleForDay` | app/main.py:128-132 | with the store's rules, the rule consulted for a weekday is that of the first table row naming both the store and the weekday; none iff no row names both |
| `Report.RowFor` | app/main.py:240-258 | a store's row carries its id and all three windows |
| `Report.GenerateReport` | app/main.py:224-260 | the report succeeds iff the status table has rows, both configuration tables are non-empty and every business-hours duration is a time of day; on success it has one row per distinct store |
| `Report.GenerateReportDf` | app/main.py:224-260 | computes `GenerateReport`; an empty batch is an error; success needs samples and both configuration tables non-empty |
| `Report.ReportIsRowPerStore` | app/main.py:239-258 | one row per distinct store, each the row computation for that store |
| `Report.ReportStores` | app/main.py:239-246 | row ids are exactly the batch's store ids, pairwise distinct, in first-appearance order |
| `Report.ReportRowMetrics` | app/main.py:244-258 | each row holds its own store's metrics, or all zeros when that store's computation fails; other rows are unaffected |
| `Report.ProcessStores` | app/main.py:239-258 | the loop over the distinct stores yields, in order, the row computation of each store |
| `Report.RowCoversWindows` | app/main.py:240-258 | when the store's own samples ascend, its row's windows have non-negative totals adding up to 0 or the window length |
| `Report.ReportWindowsCoverTheirLength` | app/main.py:239-258 | when each store's own samples ascend (e.g. a batch grouped by store), every row's windows have non-negative totals adding up to 0 or the window length |

## Left out

- Database connections, SQL queries and table creation: app/main.py:11-16, the queries in `fetch_data`, app/utils.py (all but `convert_timedelta_to_time`), app/database.py, src/ingest_data.py. Only the conversion of the business-hours time columns is modelled (`Report.ConvertHourRows`).
- Timestamp parsing (`str.replace(' UTC', '')`, `pd.to_datetime`, `tz_localize`): samples carry integer instants that are already parsed.
- pytz and `tz_convert`: replaced by the `ZoneDb` parameter (known zone names and a local-time function).
- Rounding to minutes with two decimals (app/main.py:176): the model reports whole seconds, before that float step.
- Sub-second precision: the durations from `total_seconds()` and the local times are whole seconds. A local time such as 23:59:59.5, which the source would find after a 23:59:59 closing time, is not represented.
- Status strings: the model has two statuses. The source treats every status string other than `active` as inactive.
- Per-store exceptions other than an unknown default zone: inside the `try`, the model's only failure is the timezone fallback raising.
- `generate_report` (app/main.py:178-222): its per-store loop is the same as `generate_report_df`'s and is modelled once. The CSV file, uuid and returned file name are left out.
- Logging through `print`, the HTTP API (app/api.py) with its background task and status dictionary, and the frontend (frontend/script.js).
- The status query's `limit 4000` (app/main.py:31): the model takes the status rows the read returns as its input. Which rows the database returns under that limit, and hence the batch's latest timestamp and which stores get rows, is decided outside the model.
- Sorting: the source never sorts samples, and neither does the model. Only the non-negativity lemmas take as a hypothesis that each store's own timestamps ascend; the sum law holds in any order.
