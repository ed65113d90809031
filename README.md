# Store monitor uptime estimation, modelled in Dafny

The store monitor estimates, for each store, how many minutes in the last hour and how many
hours in the last day and week the store was up or down during its business hours. It works
from three kinds of stored data: polls of the store's status, the store's weekly business hours
and the store's time zone. This project models the estimation core in two versions:

- the one the report task imports, `store_monitor/utils.py`. The report task
  (store_monitor/tasks.py:37-39) calls its three estimators with two arguments, while they take
  a third, `local_tz` (utils.py:103, 172, 240), so as written that call fails with a `TypeError`
  on the first store. The model takes the zone as a parameter and is not affected;
- the older standalone variant, `test2.py`.

Modules:

- `Clock` (clock.dfy): instants, times of day and weekdays.
  - An instant is a whole number of seconds since midnight of Monday 3 January 2000, the
    reference Monday of the source, counted in the zone it is expressed in.
  - The weekday is `(s / 86400) % 7` with Monday = 0, and the time of day is `s % 86400`.
  - A time zone is a fixed offset.
  - Python's `round`, which rounds halves to even, is written out on whole seconds.
- `BusinessHours` (business_hours.dfy): the seven-entry business-hours table and the two ways
  `utils.py` intersects a span of local time with it.
  - `is_within_business_hours` tries every rule in list order, whatever the span's weekday, and
    clips the span to the first rule that overlaps it.
  - `get_max_possible_uptime` uses only the rule of the start's weekday, with the overnight
    shifts of the source.
- `Estimator` (estimator.dfy): the estimators of `utils.py`.
  - The last hour splits its business minutes by the counts of the polls in it. When it has no
    poll, it splits them by a historical probability that defaults to 0.5.
  - The last day and last week add up two-hour buckets of poll counts. The bucket query's gap
    fill is modelled as a per-column "last non-zero value carried forward".
- `Standalone` (standalone.dfy): the estimators of `test2.py`.
  - It resolves the time zone by name, with `America/Chicago` as the default.
  - It tests business hours at a single instant against the rule of that instant's weekday.
  - It counts only the polls in business hours.
  - It builds the last day and week from one last-hour estimate per local hour whose start is
    in business hours.
  - Its `get_max_possible_uptime` (test2.py:73-101), `historical_avg_status` (test2.py:44-71),
    fallback window (test2.py:129-140) and proportional split (test2.py:161-162) are the same
    code as in `utils.py`, so it reuses `BusinessHours.MaxPossibleUptime`,
    `Estimator.HistoricalAvgStatus`, `Estimator.FallbackProbability`,
    `Estimator.SplitByProbability` and `Estimator.Apportion`.
- `Optional` (optional.dfy): the usual option type.

The database is not modelled. Every query result is a parameter:

- the polls of a UTC range, as a function from the range to the rows;
- the raw two-hour bucket counts, before the gap fill;
- the historical average, as a function from the query's parameters (zone, Sunday-first
  weekday, time-of-day window, cut-off instant) to an optional probability.

The table of known time zones is a map from names to zones. Minutes and ratios are `real`.

Two behaviours of the bucket estimators are worth stating:

- A bucket before the first poll of the period stays empty after the gap fill, and an empty
  bucket adds half of its business minutes as uptime (store_monitor/utils.py:224-227;
  `Estimator.BucketShare`, `Estimator.LeadingEmptyBucketsStayEmpty`).
- The active and inactive columns are gap-filled independently, each from its own latest
  non-zero count (store_monitor/utils.py:203-204; `Estimator.GapFill`).

## Model

| member | source | states |
|---|---|---|
| Clock.RoundHalfEven | store_monitor/utils.py:38-39 | the rounded minutes are within 30 seconds of the exact length, and a tie goes to the even minute |
| Clock.RoundHalfEvenUnique | store_monitor/utils.py:38-39 | those two properties determine the rounded minute uniquely |
| Clock.ZeroSeconds | store_monitor/utils.py:86-87 | zeroing the seconds gives the whole minute at or before the time |
| BusinessHours.GetBusinessHours | store_monitor/utils.py:15-21 | the loop builds exactly `TableOf(rules)`: seven entries, each rule written over the all-day default in turn |
| BusinessHours.DefaultWithoutRule | store_monitor/utils.py:16-19 | a weekday that no rule names keeps 00:00 to 23:59 |
| BusinessHours.LastRuleWins | store_monitor/utils.py:18-19 | a weekday's entry is the last rule for that weekday |
| BusinessHours.TableOf | store_monitor/utils.py:15-21 | the table has seven entries, one per weekday; `DefaultWithoutRule` and `LastRuleWins` give its contents |
| BusinessHours.ClipWindow | store_monitor/utils.py:27-32 | the window opens at the rule's open on the span's date and closes at the rule's close, on the same date or, exactly when the rule is overnight, on the next day; it is non-empty and at most one day long |
| BusinessHours.ClipBy | store_monitor/utils.py:34-39 | the clip is the intersection of the span and the rule's window: it starts at the later of the two starts and ends at the earlier of the two ends; its minutes are the clip's length in seconds rounded to whole minutes, halves to even, as Python's `round` does |
| BusinessHours.FirstOverlapDay | store_monitor/utils.py:26-39 | the position found is the first rule, in list order, whose window overlaps the span; 7 when no rule does |
| BusinessHours.ClipSpan | store_monitor/utils.py:23-41 | an empty or reversed span never overlaps; the minutes of a clip are never negative |
| BusinessHours.ClipSpanFirstMatch | store_monitor/utils.py:23-41 | there is no clip exactly when no rule overlaps the span; otherwise the clip is that of the first overlapping rule, and every earlier rule misses |
| BusinessHours.ClipRule | store_monitor/utils.py:27-39 | one pass of the search finds an overlap exactly when the rule overlaps the span, and then gives that rule's clip |
| BusinessHours.IsWithinBusinessHours | store_monitor/utils.py:23-41 | the search loop with early return computes `ClipSpan` |
| BusinessHours.ClipWindowShift | store_monitor/utils.py:27-32 | moving the span by whole days moves each rule's window by as much |
| BusinessHours.FirstOverlapDayShift | store_monitor/utils.py:24-39 | moving the span by whole days does not change which rule matches first |
| BusinessHours.ClipByShift | store_monitor/utils.py:34-39 | moving the span by whole days moves the clip by as much and keeps its minutes |
| BusinessHours.ClipIgnoresWeekday | store_monitor/utils.py:23-41 | the span's weekday plays no part: shifting the span by any number of days shifts the result and keeps its minutes |
| BusinessHours.BusinessWindow | store_monitor/utils.py:84-92 | the window's ends carry the rule's open and close with the seconds zeroed; a same-day rule sits on the start's date; an overnight rule closes on the next day and opens on the start's date, or on the previous day when the start is before the close |
| BusinessHours.MaxPossibleUptime | store_monitor/utils.py:72-100 | the result is never negative; it is positive exactly when the span and the start weekday's business window overlap; it is 0 for a reversed span and at most the span's length in minutes |
| BusinessHours.MaxPossibleUptimeWeekly | store_monitor/utils.py:78-84 | moving the span by whole weeks leaves the result unchanged |
| BusinessHours.AllDayCoversSpan | store_monitor/utils.py:82-100 | under the default hours, a span that ends by 23:59 of its start date counts in full |
| BusinessHours.OvernightLateStart | store_monitor/utils.py:89-100 | under an overnight rule, a span that starts after the open counts in full up to the next day's close |
| BusinessHours.OvernightEarlyStart | store_monitor/utils.py:89-100 | under an overnight rule, a span that starts before the close counts in full up to the next day's close, even across the closed hours of that day |
| BusinessHours.MaxPossibleUptimeIsOverlap | store_monitor/utils.py:93-99 | the result is the unrounded length, in minutes, of the span clipped to the business window of its start, and 0 when that clip is empty |
| BusinessHours.OvernightGapIsClosed | store_monitor/utils.py:82-101 | under an overnight rule, a span that starts at or after the close and ends by the open of the same day gives 0 |
| BusinessHours.AfterCloseIsClosed | store_monitor/utils.py:82-101 | under a same-day rule, a span that starts at or after the close gives 0, even when it runs into the next day |
| Estimator.SundayFirst | store_monitor/utils.py:48 | Monday-first weekdays map to the database's Sunday-first ones: Sunday becomes 0 and every other day moves up by one |
| Estimator.HistoricalAvgStatus | store_monitor/utils.py:43-70 | the history's average for that weekday, window and cut-off, or 0.5 when the history has nothing |
| Estimator.FallbackProbability | store_monitor/utils.py:123-132 | a window that does not cross midnight is asked once, in UTC; one that does is asked as two parts, split at midnight, with equal weight |
| Estimator.FallbackWindowCrossesMidnight | store_monitor/utils.py:123-126 | the window from an hour before to an hour after the start wraps exactly when the start is within an hour of midnight |
| Estimator.FallbackWithoutHistory | store_monitor/utils.py:123-132 | with no history at all the fallback probability is 0.5 |
| Estimator.CountStatus | store_monitor/utils.py:145-152 | a status count is at most the number of polls |
| Estimator.CountsPartition | store_monitor/utils.py:145-152 | active plus inactive counts are at most all polls, and equal them exactly when every poll has one of the two statuses |
| Estimator.CountStatuses | store_monitor/utils.py:143-152 | the counting loop counts every fetched poll by its status, because the guard tests a tuple, which is always true |
| Estimator.SplitByProbability | store_monitor/utils.py:133-134 | uptime is the probability times the total and downtime the rest; they make up the total, neither is negative, and an even chance splits it in halves |
| Estimator.Apportion | store_monitor/utils.py:154-155 | with counts, uptime and downtime are proportional to the active and inactive counts and sum to the total; without counts both are 0 |
| Estimator.UptimeLastHour | store_monitor/utils.py:103-162 | the window is the hour before now; with no polls the business minutes are split by the fallback probability, and otherwise in proportion to the counts |
| Estimator.LastHourWithinHour | store_monitor/utils.py:103-162 | both splits of the last hour are non-negative and together at most 60 minutes |
| Estimator.Locf | store_monitor/utils.py:203-204 | the filled column has the length of the original |
| Estimator.LocfTakesLatestNonZero | store_monitor/utils.py:203-204 | a filled entry is the latest non-zero count at or before it |
| Estimator.LocfKeepsCarry | store_monitor/utils.py:203-204 | entries before the first non-zero count keep the value from before the column, 0 in the query |
| Estimator.GapFill | store_monitor/utils.py:201-206 | the filled rows keep their buckets, and each count column is filled on its own |
| Estimator.LatestNonZero | store_monitor/utils.py:203-204 | when position `j` has a non-zero count, there is a latest position in `[j, k]` with one, and only zeros follow it up to `k` |
| Estimator.NoGapAfterEvidence | store_monitor/utils.py:201-206 | after a bucket with any count, no filled bucket has both counts zero |
| Estimator.LeadingEmptyBucketsStayEmpty | store_monitor/utils.py:201-206 | buckets before the first count stay empty after the fill |
| Estimator.BucketSpan | store_monitor/utils.py:214-218 | a bucket's span starts at the bucket's local start and runs to one second before the next bucket |
| Estimator.BucketShare | store_monitor/utils.py:220-227 | a clipped bucket adds its rounded minutes, and as uptime the active fraction of them, `active / (active + inactive)`, between 0 and all of them; an empty bucket adds half; an unclipped one adds nothing |
| Estimator.BucketClips | store_monitor/utils.py:212-220 | one clip per bucket, that of its span, never with negative minutes |
| Estimator.SumShares | store_monitor/utils.py:212-227 | the totals are non-negative and the uptime is at most the possible minutes |
| Estimator.SumSharesStep | store_monitor/utils.py:212-227 | adding a bucket's share to the totals before it gives the totals up to it |
| Estimator.BucketTotals | store_monitor/utils.py:212-227 | under the business hours, `0 <= uptime <= possible` |
| Estimator.AddBucket | store_monitor/utils.py:213-227 | one pass of the bucket loop adds that bucket's share |
| Estimator.AccumulateBuckets | store_monitor/utils.py:212-227 | the bucket loop computes `BucketTotals` |
| Estimator.BucketReport | store_monitor/utils.py:230-235 | hours are floor divisions by 60, downtime hours floor the difference, and the percentage is 0 without possible minutes and between 0 and 100 otherwise |
| Estimator.UptimeLastDay | store_monitor/utils.py:172-235 | the report of the gap-filled buckets of the last day, with a percentage in 0..100 and uptime hours at most the possible hours |
| Estimator.UptimeLastWeek | store_monitor/utils.py:240-304 | the same over the last seven days |
| Standalone.TimezoneName | test2.py:108-109 | the stored zone name, or America/Chicago when the store has none |
| Standalone.GetBusinessHours | test2.py:16-23 | an unknown zone name fails; otherwise the result is the table of the rules and the named zone |
| Standalone.InHours | test2.py:25-41 | the point test of an instant's time of day against its weekday's rule (`InBusinessHoursAt` applies it to `TimeOf(s)` and `table[WeekdayOf(s)]`): the open and the close themselves are in business hours, and under a same-day rule exactly the times from the open to the close are |
| Standalone.OvernightExcludesGap | test2.py:34-38 | under a rule whose close is not after its open, an instant is in business hours exactly when it is not strictly between close and open; open equal to close accepts every time |
| Standalone.DefaultDayClosesAt2359 | test2.py:18-35 | on a day without a rule an instant is in business hours exactly up to 23:59:00 |
| Standalone.InBusinessHoursWeekly | test2.py:25-38 | the point test repeats every week |
| Standalone.CountWithin | test2.py:152-159 | the count of polls in business hours with a status is at most the number of polls |
| Standalone.CountWithinAtMost | test2.py:152-159 | it is at most the count of all polls with that status, and equal to it when every poll is in business hours |
| Standalone.CountStatusesWithin | test2.py:150-159 | the counting loop counts exactly the polls in business hours with each status |
| Standalone.SplitHour | test2.py:129-140 | with no polls the minutes are split by the probability, and otherwise by the counts; with a non-negative total both parts are non-negative and sum to at most the total |
| Standalone.HourSplit | test2.py:104-170 | the last hour's uptime and downtime are non-negative and together at most 60 minutes |
| Standalone.HourSplitCoversBusinessMinutes | test2.py:128-162 | all business minutes are split when the hour has no poll or a counted one; none when it has polls but none is counted |
| Standalone.EstimateHour | test2.py:112-170 | the estimate of the hour before `nowUtc` is `HourSplit`, over that hour's window |
| Standalone.UptimeLastHour | test2.py:104-170 | an unknown zone fails; otherwise it gives the hour's split and the zone name it used |
| Standalone.HourlySums | test2.py:199-215 | the uptime is at most the possible minutes, and an empty range gives nothing |
| Standalone.HourlySumsAtMostAnHourEach | test2.py:199-215 | every hour started in the range adds at most 60 possible minutes |
| Standalone.HourlySumsClosed | test2.py:204 | hours that start outside business hours add nothing |
| Standalone.HourlyTotals | test2.py:199-215 | the hour-by-hour loop computes `HourlySums` from the start of the period up to now |
| Standalone.DayReport | test2.py:217-224 | hours are floor divisions by 60, downtime hours are possible hours minus uptime hours, and the percentage is 0 without possible minutes and between 0 and 100 otherwise; when uptime is within the possible minutes, uptime hours are at most the possible hours |
| Standalone.WeekReport | test2.py:254-261 | the same, except that downtime hours floor the difference of the minutes |
| Standalone.DowntimeRoundings | test2.py:221 | the two reports agree except in the downtime hours, where the day's is the week's or one more |
| Standalone.DowntimeRoundingsDiffer | test2.py:258 | 30 uptime minutes out of 60 give one downtime hour in the day report and none in the week report |
| Standalone.UptimeLastDay | test2.py:180-224 | an unknown zone fails; otherwise the day report of the 24 local hours before now, with a percentage in 0..100 and at most 24 possible hours |
| Standalone.UptimeLastWeek | test2.py:226-261 | the same over the 168 hours of the last week, with at most 168 possible hours |

## Left out

- The SQL and the Django ORM are not modelled: the status query, the TimescaleDB
  `time_bucket_gapfill` query and `StoreBusinessHour.objects.filter` are parameters. Only the
  meaning of the gap fill (`COALESCE(locf(NULLIF(x, 0)), 0)`) is modelled.
- pytz is not modelled. A time zone is a fixed offset, so daylight-saving changes, ambiguous local
  times and `datetime.replace` on localised values are not modelled.
- Floating point is not modelled: minutes, ratios and percentages are exact reals.
- Sub-second precision is not kept: instants are whole seconds.
- Nothing in the model produces the text fields of the results (`query_period_utc`, `query_period_local`).
  `timezone_used` is kept only in `Standalone.UptimeLastHour`.
- `get_store_timezone_info`, `generate_report_util`, the `__main__` block and `django.setup()`
  are lookups, CSV output, printing and set-up.
- Estimator.Observation, Estimator.RowFetch: a fetched status row is taken to hold the poll's
  UTC instant first and its status second. Both last-hour estimators read the rows of
  `SELECT * FROM store_monitor_storestatus` by position, as `row[0]` and `row[1]`
  (store_monitor/utils.py:146-147, test2.py:153-154). The repository's own migration creates that
  table as id, timestamp_utc, status, store (store_monitor/migrations/0001_initial.py:44-49). In
  that layout `row[0]` is the integer id, and `.astimezone` (store_monitor/utils.py:148,
  test2.py:155) raises `AttributeError` on the first row. The model does not capture that failure.
  The Django `StoreStatus` model is unmanaged (store_monitor/models.py:54), so the real column order is
  set outside the repository, and the model assumes the order the code reads.
- store_monitor/tasks.py, the views, urls.py, serializer.py, models.py and the migrations are
  job plumbing, HTTP handling and schema declarations. They are not part of this model.
- The unused `start_time_local` of `calculate_uptime_last_day` (store_monitor/utils.py:180) and
  `reference_monday` are dead values. The reference Monday is only the origin of the instants.
- `day_of_week` outside 0..6 is excluded by the `Weekday` type. In the source a value of 7 or
  more raises an `IndexError`, and a value from -7 to -1 silently overwrites entry
  `7 + day_of_week` through Python's negative indexing (store_monitor/utils.py:19, test2.py:21).
- Standalone.UptimeLastDay: the hour loop calls the last-hour estimate with the table and zone
  already resolved. The source re-reads and re-resolves the same store's zone on every call, with
  the same result.
- Standalone.HourlyTotals: the 24 and 168 iterations are not stated as counts. Termination
  is proved, and the bound on the possible minutes (60 per hour) is `Standalone.HourlySumsAtMostAnHourEach`.
