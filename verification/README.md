# Error-log analytics core, modelled in Dafny

This project models the computational core of a small read-only analytics
service over application error logs (`main.py`, a Flask app over PostgreSQL).
The service reports which error labels are trending, how repetitive each one
is, a per-group detail with "seen N hours ago" labels, and a 30-minute
histogram per error group. The model covers the parts of `main.py` that are
computation rather than plumbing:

- **`decl`**, the Russian plural-form selector (one / few / many), and the
  `str(hours) + decl(...)` label that `group_info` builds from a `timedelta`.
- **Recency and counting over the `logs` table**: the time window
  `create_date > now - W`, the rank-1 record by `create_date DESC` (and
  `ASC` for a group's first record), and the per-label and per-group counts.
- **The significance score** `1 - COUNT(DISTINCT id) / COUNT(*)` per label
  and the trending report, ordered by last occurrence.
- **The group chart**: `generate_series` in 30-minute steps, PostgreSQL
  `date_bin('30 minutes', t, TIMESTAMP '2001-01-01')`, the `GROUP BY` bucket
  counts, and the Python loop that writes them over a zero series with
  `x.index`.

Conventions. Time is an integer number of minutes since 2001-01-01 00:00, the
`date_bin` origin, so the origin is 0. The fixed reference instant
`'2023-10-16 13:00'` that every query counts back from is 11985900. It is a
bucket boundary. A window of `hours` hours is `W = 60 * hours` minutes. Python
exceptions become `Failure`/`None` values: `IndexError` in `decl`,
`ValueError` from `x.index`, and `TypeError` when `fetchone()` returns
`None`. Python's `%` and `//` round towards minus infinity and Dafny's are
Euclidean. The two agree for the positive divisors involved (10 and 100 in
`decl`, 3600 at main.py:177, and 86400 inside `timedelta`'s own
normalisation), so no conversion is needed.

Modules (one per concern): `Wrappers` (Option/Result), `Plural`, `Elapsed`,
`Logs`, `Ordering` (descending sort by key), `Significance`, `Buckets`,
`GapFill`, `GroupInfo`.

Behaviour the model follows from the code:
- `group_info` fails the same way for an unknown group id and for a group
  with no record in the window. In both cases `fetchone()` returns `None`.
- When the window is not a whole number of half hours, `group_chart` fails
  as soon as one group record lies in the window (or after it). The series
  then starts off a bucket boundary, so none of its elements is a bucket
  start, and `x.index` finds no record's bucket. The chart succeeds only for
  a group with no record in the window (`UnalignedWindowBreaksChart`;
  `PartialBucketBreaksChart` is one instance).
- With a window of whole half hours, a group record less than 30 minutes
  after the fixed reference instant falls in the bucket that starts at that
  instant and is counted in the last slot (`NearFutureEventCounted`). A
  later record makes the request fail (`FutureEventBreaksChart`).
- The score's two aggregates use the same window predicate, so
  `COUNT(DISTINCT id) <= COUNT(*)` always holds and the score lies in [0, 1].

## Model

| member | source | states |
|---|---|---|
| Plural.Decl | main.py:16-24 | `decl` returns the title picked by the plain rule: 11–19 many; otherwise last digit 1 one, 2–4 few, else many. It fails exactly when the list is too short for that index, and with three titles it always returns one of them |
| Plural.DeclIndexMatchesRule | main.py:17-23 | the index from the `cases` table and the `4 < n % 100 < 20` test equals the plain rule's index for every integer |
| Plural.DeclIndex | main.py:17-23 | the index `decl` computes is always one of the `cases` table entries |
| Plural.DeclForms | main.py:18-23 | `n % 100` in 5..19 gives the many-form; otherwise last digit 1 gives the one-form and 2–4 the few-form; last digit 0 or 5–9 gives the many-form |
| Plural.DeclExamples | main.py:16-24 | 1 and 21 give the one-form, 2 the few-form, and 5, 11, 12, 13, 14, 25 the many-form |
| Elapsed.FromSeconds | main.py:158-159 | a duration becomes a normalised `timedelta` (seconds within 0..86399) that keeps the total number of seconds |
| Elapsed.FromTotalSecondsRoundTrip | main.py:177-178 | a normalised `timedelta` is the only one with its total: rebuilding it from its total gives it back |
| Elapsed.HourOfDay | main.py:177-178 | `seconds // 3600` is in 0..23 and is the hour within the duration's last day |
| Elapsed.HourOfDayDropsDays | main.py:177-178 | adding any number of whole days to a duration leaves the displayed hours unchanged |
| Elapsed.DaysLostFromHours | main.py:177-178 | for a duration of one day or more, the displayed hours are fewer than the elapsed whole hours |
| Elapsed.DecimalString | main.py:179-180 | `str(n)` is a non-empty run of decimal digits with no leading zero |
| Elapsed.DecimalRoundTrip | main.py:179-180 | reading the digits of `str(n)` back gives `n` |
| Elapsed.HoursLabel | main.py:179-180 | the label is the hour count followed by " час" for 1 and 21, " часа" for 2–4, 22 and 23, and " часов" for 0 and 5–20 |
| Logs.Filter | main.py:44-46 | the `WHERE` filter keeps a record exactly when it is in the table and satisfies the predicate, and keeps each such record as many times as the table holds it |
| Logs.FilterCount | main.py:151-156 | the filter keeps one record per table position whose record satisfies the predicate |
| Logs.LabelWindow | main.py:41-46 | a record is in a label's partition exactly when it is in the table, carries the label and satisfies `create_date > now - W` |
| Logs.LabelWindowCount | main.py:44-46 | the partition has one record per table row of the label in the window, so `COUNT(*) OVER (PARTITION BY label)` counts table rows |
| Logs.GroupWindow | main.py:222-226 | a record is selected exactly when its uuid is in the group's `ids` and it lies in the window |
| Logs.GroupWindowCount | main.py:151-156 | the selection has one record per table row whose uuid the group lists and whose time is in the window, however often the uuid is listed |
| Logs.Latest | main.py:162-164 | the rank-1 row by `create_date DESC` is a record of the input, and no record of the input is later; there is none only for an empty input |
| Logs.Earliest | main.py:165-168 | the rank-1 row by `create_date ASC` is a record of the input, and no record of the input is earlier; there is none only for an empty input |
| Logs.LatestIsUniqueMaximum | main.py:43 | with a unique latest timestamp, the pick is that record |
| Logs.EarliestIsUniqueMinimum | main.py:166-168 | with a unique earliest timestamp, the pick is that record |
| Logs.EarliestNotAfterLatest | main.py:158-168 | in a non-empty window the first-seen record is never later than the last-seen one |
| Significance.IdsBounds | main.py:44-53 | `COUNT(DISTINCT id)` is at most `COUNT(*)` and at least 1 for a non-empty partition |
| Significance.AllIdsDistinctIff | main.py:44-53 | `COUNT(DISTINCT id) = COUNT(*)` exactly when no id repeats in the partition |
| Significance.IdsDistinctSnoc | main.py:49 | one more record keeps the ids unrepeated exactly when they were before and its id is new |
| Significance.Score | main.py:53 | `1 - distinct/count` lies in [0, 1] when `distinct <= count`, and is 0 exactly when `distinct = count` |
| Significance.LabelSummary | main.py:40-55 | a label gets a row exactly when its in-window partition is non-empty, and the row names that label |
| Significance.LabelSummaryPresent | main.py:53-55 | a label has a row exactly when some record with that label lies in the window |
| Significance.LabelSummaryMeaning | main.py:42-55 | a label with a record in the window has a row. The row's count is the number of table rows with the label in the window, and is positive. Its score is in [0, 1] and is 0 exactly when no id repeats. Its last occurrence, category, subcategory and log come from one in-window record of the label that no other in-window record of the label postdates |
| Significance.DistinctLabels | main.py:43 | each label of the window appears once, and only labels of the window appear |
| Significance.Trending | main.py:40-59 | the report has one row per label present in the window, no label twice, each row equal to that label's summary, newest first |
| Ordering.SortDescending | main.py:55 | the output is a permutation of the rows whose keys never increase |
| Ordering.PermutationKeepsKeysDistinct | main.py:55 | reordering rows that have distinct labels keeps the labels distinct |
| Buckets.Bin | main.py:222 | `date_bin` returns a boundary a whole number of 30-minute steps from the origin, with `bin(t) <= t < bin(t) + 30` |
| Buckets.BinUnique | main.py:222 | the bucket of `t` is the only boundary in `(t - 30, t]` |
| Buckets.BinIdempotent | main.py:222 | binning a bucket start gives it back |
| Buckets.BinIsGreatestBoundary | main.py:222 | every boundary at or below `t` is at or below `t`'s bucket |
| Buckets.BinMonotone | main.py:222 | binning preserves the order of instants |
| Buckets.AlignedStepBack | main.py:216 | stepping back a whole number of buckets from a boundary gives a boundary |
| Buckets.Series | main.py:214-218 | `generate_series` has `floor((stop - start) / 30) + 1` elements (none when `start > stop`), the i-th being `start + 30 i` |
| Buckets.SeriesShape | main.py:214-218 | the series starts at `now - W`, never passes `now`, and strictly ascends in 30-minute steps |
| Buckets.SeriesWholeHours | main.py:214-218 | a window of `h` whole hours gives `2h + 1` buckets |
| Buckets.SeriesLastBucket | main.py:214-218 | a window of `w >= 0` minutes gives `floor(w / 30) + 1` buckets, and the last is `now` when `w` is whole buckets |
| Buckets.SeriesHoldsAlignedInstants | main.py:214-218 | from an aligned start, every boundary up to `now` is in the series |
| Buckets.UnalignedSeriesMissesBoundaries | main.py:214-218 | a series whose start is not a bucket boundary contains no bucket boundary |
| Buckets.SeriesAligned | main.py:214-218 | from an aligned start, every element of the series is a boundary |
| GapFill.IndexOf | main.py:234 | `x.index(v)` is the first position holding `v`; it fails exactly when `v` is not in `x` |
| GapFill.Overlay | main.py:233-234 | the loop succeeds exactly when every row's bucket is in `x`. It keeps the length of `y` and leaves slots of buckets no row names unchanged. A failure names a row's bucket that `x` lacks |
| GapFill.LastCount | main.py:234 | a bucket that no row names keeps the count 0 |
| GapFill.OverlaySnoc | main.py:233-234 | running the loop over one more row is running it over the others, then writing that row's count at its bucket's index |
| GapFill.OverlayComputesFilled | main.py:229-234 | over a series without repeats, `y[i]` is the count of the row for `x[i]`, and 0 if no row names it |
| GapFill.LastCountOfRow | main.py:227-234 | with distinct buckets among the rows, a row's count is what ends up in its bucket's slot |
| GapFill.OverlayIgnoresRowOrder | main.py:233-234 | with distinct buckets, every order of the same rows gives the same chart or fails in every order, so `sorted` does not matter |
| GapFill.FilledSum | main.py:229-234 | when every row's bucket is in the series, the chart's counts add up to the rows' total |
| GapFill.SumOfUpdate | main.py:234 | overwriting one slot changes the total by the new value minus the old |
| GapFill.ZerosSum | main.py:214 | the all-zero series sums to 0 |
| GapFill.AddEventBinsAndSum | main.py:227 | counting one more event adds its bucket to the rows and one to the total |
| GapFill.AddEventCount | main.py:222-227 | counting one more event raises its bucket's count by one and no other |
| GapFill.AddEventDistinct | main.py:227 | counting one more event never creates a second row for a bucket |
| GapFill.GroupByBin | main.py:221-227 | `GROUP BY 1` gives one row per occupied bucket. Each bucket's count is its number of events, and the counts add up to the number of events |
| GapFill.GroupByBinRows | main.py:221-227 | every `GROUP BY` row's count is its bucket's event count and is positive |
| GapFill.BinsOfEvents | main.py:221-234 | every `GROUP BY` row is in the series exactly when every event's bucket is |
| GapFill.ChartFor | main.py:213-237 | the chart succeeds exactly when every selected event's bucket is in the series. On success `x` is the series, `y` has its length, and `y[i]` is the number of selected events in bucket `x[i]` |
| GapFill.WindowBinsInSeries | main.py:214-222 | with an aligned `now` and whole buckets, every instant in `(now - W, now]` has its bucket in the series |
| GapFill.ChartForCounts | main.py:213-234 | with an aligned `now`, whole buckets and events in `(now - W, now]`, the chart succeeds. Each slot counts its bucket's events and the slots add up to the number of events |
| GapFill.GroupChart | main.py:206-237 | `group_chart` succeeds exactly when every in-window group record's bucket is in the series. On success `x` is the series, `y` has its length, and `y[i]` is the number of in-window group records in bucket `x[i]` |
| GapFill.GroupChartCounts | main.py:213-234 | when no group record is after `now` and `W` is whole buckets, the chart succeeds. Each slot counts its bucket and the slots add up to the group's in-window records |
| GapFill.PartialBucketBreaksChart | main.py:214-234 | for `hours = 0.75`, a record 44 minutes before `now` falls in the bucket starting 60 minutes before `now`, and the request fails |
| GapFill.UnalignedChartFails | main.py:213-234 | when the series starts off a bucket boundary, the chart succeeds exactly when there are no events |
| GapFill.UnalignedWindowBreaksChart | main.py:206-234 | when `now - W` is not a bucket boundary (with the fixed `now`, `hours` not a multiple of 0.5), `group_chart` succeeds exactly when the group has no record in the window |
| GapFill.FutureEventBreaksChart | main.py:221-234 | a group record 30 minutes after the fixed `now` makes the request fail |
| GapFill.NearFutureEventCounted | main.py:221-234 | a group record 10 minutes after the fixed `now` with `hours = 1` gives the chart `y = [0, 0, 1]`: it is counted in the bucket that starts at `now` |
| GapFill.BoundedGroupChart | main.py:221-234 | with the window also bounded above by `now`, a successful chart has the series as `x`, `y` of its length, and `y[i]` is the number of group records in `(now - W, now]` that fall in bucket `x[i]` |
| GapFill.BoundedGroupChartCounts | main.py:221-234 | with the upper bound and whole buckets, the chart succeeds on every input. Each slot counts its bucket and the slots add up to the group's records in `(now - W, now]` |
| GapFill.FilterTwice | main.py:223-226 | filtering the group window again by `create_date <= now` selects the same records as one filter with both bounds |
| GroupInfo.Age | main.py:158-159 | `NOW() - create_date` becomes a `timedelta` of `(clock - t) * 60` seconds |
| GroupInfo.AgeHours | main.py:177-178 | the displayed hours are `((clock - t) mod 1440) div 60`, the hour within the last day of the age in minutes |
| GroupInfo.GroupCount | main.py:151-156 | the count is the number of `logs` rows whose uuid the group lists and whose time is in the window, and 0 for an unknown id |
| GroupInfo.GroupDetail | main.py:144-181 | the detail fails exactly when the id is unknown or the group has no in-window record. Otherwise `count` is the positive number of `logs` rows of the group in the window. `last` labels the age of an in-window record that none postdates, and its category and log are that record's. `first` labels the age of an in-window record that none predates |

## Left out

- Flask routing, CORS, `as_json` and the datetime string format (main.py:10-13 and the route decorators): framework plumbing.
- `get_db`, cursors and connections (main.py:27-31 and every `cur`/`conn` line): database I/O and environment configuration.
- `groups` (main.py:66-95): the page query and the total count run in SQL (`ANY(ids)`, `OFFSET/FETCH`, no `ORDER BY`). The page query also ignores `hours` and hardcodes `'10 hour'`. The rank-1 pick inside it is the same `Logs.Latest`.
- `group_errors` (main.py:184-203): a filtered, unordered `OFFSET/FETCH` page, which is SQL paging and no computation.
- `groups_chart` (main.py:98-141): the `crosstab` pivot is executed by the database, and the column-splitting loop only copies one cell per row into each column.
- GroupInfo.GroupDetail: assumes each `logs` row has its own uuid. `group_info` joins the rank-1 uuid back to `logs` (main.py:161-168). With a repeated uuid, that join could also match a record outside the window or several records, and `fetchone()` would return one of them. The model instead takes the rank-1 record itself.
- `NOW()` (main.py:158-159): the wall clock is the parameter `clock` of `GroupInfo.GroupDetail`.
- Timezones: the model subtracts timestamps directly. PostgreSQL's `timestamptz - timestamp` session-timezone conversion is left out.
- Elapsed.FromSeconds: `timedelta.microseconds` is not modelled. Timestamps are whole minutes, so an age is a whole number of minutes and sub-minute windows such as `hours = 0.001` are not represented.
- Significance.Score: the exact rational value is modelled. PostgreSQL `numeric` division rounds to a finite number of decimal places, which is not modelled.
- Logs.Latest: among records with equal timestamps, PostgreSQL may return any one of them. The model takes the first in table order, and the contract states only the maximum property, which every choice satisfies. The same holds for Logs.Earliest.
- Ordering.SortDescending: the order of report rows with equal last occurrence is unspecified in the query. The contract states only that the output is a permutation and that its keys descend.
- Buckets.Bin: floor alignment to the origin is modelled for all instants, including those before 2001-01-01, which the data does not contain.

## Findings

| source | as written | input that shows it | evidently intended | confidence | as-written member | corrected member |
|---|---|---|---|---|---|---|
| main.py:221-234 | The event query bounds `create_date` only from below (`> now - W`). Each observed bucket is then looked up in the series with `x.index`, which ends at the fixed `now`. With a window of whole half hours, records in `(now, now + 30)` fall in the bucket starting at `now` and are counted there (`GapFill.NearFutureEventCounted`). Records from `now + 30` on have a bucket past the series. | A group record dated 2023-10-16 13:30 with `hours = 1`: its bucket 13:30 is not in the series 12:00, 12:30, 13:00, so `x.index` raises `ValueError` | events after `now` are outside the chart and are not counted, so the request succeeds | medium; not executed | GapFill.FutureEventBreaksChart | GapFill.BoundedGroupChartCounts |
