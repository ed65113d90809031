/** The standalone variant of the estimators (test2.py). It resolves the store's time zone
    itself, tests business hours at a single instant against the rule of that instant's
    weekday, counts only the polls inside business hours, and builds the last day and week
    from one last-hour estimate per business hour instead of from buckets. The queries it
    shares with store_monitor/utils.py (the overlap of a span with business hours and the
    history average) are the same code and reuse that model. */
module Standalone {
  import opened Optional
  import opened Clock
  import opened BusinessHours
  import opened Estimator

  /** The zone a store without a time-zone record is taken to be in. */
  const DefaultTimezone: string := "America/Chicago"

  /** What the database holds about a store: its time-zone name, if any, and its hour rules. */
  datatype StoreConfig = StoreConfig(tzName: Option<string>, rules: seq<HourRule>)

  /** The time-zone name the estimators use for a store. */
  function TimezoneName(config: StoreConfig): (name: string)
    ensures config.tzName.Some? ==> name == config.tzName.value
    ensures config.tzName.None? ==> name == DefaultTimezone
  {
    config.tzName.GetOr(DefaultTimezone)
  }

  // ---------------------------------------------------------------------------
  // get_business_hours

  /** Resolves the zone named `tzName` among the known `zones` (an unknown name is an error)
      and builds the table of the store's rules. */
  method GetBusinessHours(rules: seq<HourRule>, tzName: string, zones: map<string, Zone>)
    returns (r: Option<(Table, Zone)>)
    ensures r.None? <==> tzName !in zones
    ensures r.Some? ==> r.value.0 == TableOf(rules) && r.value.1 == zones[tzName]
  {
    if tzName !in zones {
      return None;
    }
    var table := BusinessHours.GetBusinessHours(rules);
    r := Some((table, zones[tzName]));
  }

  // ---------------------------------------------------------------------------
  // is_within_business_hours: a single local instant against its weekday's rule

  /** Whether time of day `t` is within the hours `h`, both ends included; hours whose close
      is not after their open hold every time from the open on and every time up to the close. */
  predicate InHours(t: TimeOfDay, h: Hours)
    ensures t == h.open ==> InHours(t, h)
    ensures t == h.close ==> InHours(t, h)
    ensures !h.Overnight() ==> (InHours(t, h) <==> h.open <= t <= h.close)
  {
    if h.open < h.close then h.open <= t <= h.close
    else t >= h.open || t <= h.close
  }

  /** Whether local instant `s` is in business hours: its time of day is within the rule of
      its weekday. */
  predicate InBusinessHoursAt(s: int, table: Table) {
    InHours(TimeOf(s), table[WeekdayOf(s)])
  }

  /** A rule whose close is at or before its open excludes exactly the times strictly between
      its close and its open; a rule with open equal to close excludes nothing. */
  lemma OvernightExcludesGap(s: int, table: Table)
    requires table[WeekdayOf(s)].Overnight()
    ensures InBusinessHoursAt(s, table)
        <==> !(table[WeekdayOf(s)].close < TimeOf(s) < table[WeekdayOf(s)].open)
    ensures table[WeekdayOf(s)].open == table[WeekdayOf(s)].close ==> InBusinessHoursAt(s, table)
  {
  }

  /** A weekday without a rule is open from 00:00:00 to 23:59:00: the last 59 seconds of
      the day are outside business hours. */
  lemma DefaultDayClosesAt2359(s: int, table: Table)
    requires table[WeekdayOf(s)] == AllDay
    ensures InBusinessHoursAt(s, table) <==> TimeOf(s) <= At(23, 59, 0)
  {
  }

  /** Only the weekday and the time of day matter: the answer repeats every week. */
  lemma InBusinessHoursWeekly(s: int, table: Table, k: int)
    ensures InBusinessHoursAt(s + k * DaysPerWeek * SecondsPerDay, table) == InBusinessHoursAt(s, table)
  {
    ShiftByWeeks(s, k);
  }

  // ---------------------------------------------------------------------------
  // calculate_uptime_last_hour

  /** The number of polls in `rows` with status `status` whose local instant is in business hours. */
  function CountWithin(rows: seq<Observation>, status: string, table: Table, zone: Zone): (n: nat)
    ensures n <= |rows|
    decreases |rows|
  {
    if rows == [] then 0
    else
      var last := rows[|rows| - 1];
      CountWithin(rows[..|rows| - 1], status, table, zone)
        + (if InBusinessHoursAt(zone.ToLocal(last.timestampUtc), table) && last.status == status then 1 else 0)
  }

  /** Counting only the polls in business hours counts at most the polls the store-wide
      count sees, and exactly as many when every poll is in business hours. */
  lemma {:induction false} CountWithinAtMost(rows: seq<Observation>, status: string, table: Table, zone: Zone)
    ensures CountWithin(rows, status, table, zone) <= CountStatus(rows, status)
    ensures (forall k :: 0 <= k < |rows| ==> InBusinessHoursAt(zone.ToLocal(rows[k].timestampUtc), table))
      ==> CountWithin(rows, status, table, zone) == CountStatus(rows, status)
    decreases |rows|
  {
    if rows != [] {
      var init := rows[..|rows| - 1];
      CountWithinAtMost(init, status, table, zone);
      assert forall k :: 0 <= k < |init| ==> init[k] == rows[k];
    }
  }

  /** The counting loop: a poll counts when its local instant is in business hours and its
      status is one of the two texts. */
  method CountStatusesWithin(rows: seq<Observation>, table: Table, zone: Zone) returns (active: nat, inactive: nat)
    ensures active == CountWithin(rows, "active", table, zone)
    ensures inactive == CountWithin(rows, "inactive", table, zone)
  {
    active, inactive := 0, 0;
    for i := 0 to |rows|
      invariant active == CountWithin(rows[..i], "active", table, zone)
      invariant inactive == CountWithin(rows[..i], "inactive", table, zone)
    {
      assert rows[..i + 1][..i] == rows[..i];
      if InBusinessHoursAt(zone.ToLocal(rows[i].timestampUtc), table) {
        if rows[i].status == "active" {
          active := active + 1;
        } else if rows[i].status == "inactive" {
          inactive := inactive + 1;
        }
      }
    }
    assert rows[..|rows|] == rows;
  }

  /** Splits `total` business minutes: by the probability `p` when the hour has no poll,
      otherwise by the counts of the polls in business hours. */
  function SplitHour(noPolls: bool, p: Prob, total: real, active: nat, inactive: nat): (r: (real, real))
    ensures noPolls ==> r == SplitByProbability(p, total)
    ensures !noPolls ==> r == Apportion(active, inactive, total)
    ensures 0.0 <= total ==> 0.0 <= r.0 && 0.0 <= r.1 && r.0 + r.1 <= total
  {
    if noPolls then SplitByProbability(p, total)
    else Apportion(active, inactive, total)
  }

  /** The uptime and downtime minutes of the hour that ends at `nowUtc`: the business minutes
      of the hour split by the counted polls, or by the historical probability when the hour
      has no poll at all. */
  function HourSplit(nowUtc: int, zone: Zone, table: Table, fetch: RowFetch, avg: AvgQuery): (r: (real, real))
    ensures 0.0 <= r.0 && 0.0 <= r.1 && r.0 + r.1 <= 60.0
  {
    var startLocal := zone.ToLocal(nowUtc) - SecondsPerHour;
    var startUtc := zone.ToUtc(startLocal);
    var rows := fetch(startUtc, nowUtc);
    var total := MaxPossibleUptime(startUtc, nowUtc, table, zone);
    SplitHour(|rows| == 0, FallbackProbability(startLocal, nowUtc, avg), total,
              CountWithin(rows, "active", table, zone), CountWithin(rows, "inactive", table, zone))
  }

  /** When the hour has polls, all of its business minutes are split as soon as one of them is
      counted, and none when none is; when it has no poll, all of them are split by the
      probability. */
  lemma HourSplitCoversBusinessMinutes(nowUtc: int, zone: Zone, table: Table, fetch: RowFetch, avg: AvgQuery)
    ensures var rows := fetch(nowUtc - SecondsPerHour, nowUtc);
      var r := HourSplit(nowUtc, zone, table, fetch, avg);
      var counted := CountWithin(rows, "active", table, zone) + CountWithin(rows, "inactive", table, zone);
      && (|rows| == 0 || counted > 0 ==> r.0 + r.1 == MaxPossibleUptime(nowUtc - SecondsPerHour, nowUtc, table, zone))
      && (|rows| > 0 && counted == 0 ==> r == (0.0, 0.0))
  {
  }

  /** The estimate of the hour that ends at `nowUtc`, in a zone and table already resolved. */
  method EstimateHour(nowUtc: int, zone: Zone, table: Table, fetch: RowFetch, avg: AvgQuery) returns (e: HourEstimate)
    ensures (e.uptime, e.downtime) == HourSplit(nowUtc, zone, table, fetch, avg)
    ensures e.endUtc == nowUtc && e.startUtc == nowUtc - SecondsPerHour
    ensures e.endLocal == zone.ToLocal(nowUtc) && e.startLocal == e.endLocal - SecondsPerHour
  {
    var endLocal := zone.ToLocal(nowUtc);
    var startLocal := endLocal - SecondsPerHour;
    var startUtc := zone.ToUtc(startLocal);
    var rows := fetch(startUtc, nowUtc);
    var total := MaxPossibleUptime(startUtc, nowUtc, table, zone);
    var p := FallbackProbability(startLocal, nowUtc, avg);
    ghost var active' := CountWithin(rows, "active", table, zone);
    ghost var inactive' := CountWithin(rows, "inactive", table, zone);
    assert HourSplit(nowUtc, zone, table, fetch, avg) == SplitHour(|rows| == 0, p, total, active', inactive');
    if |rows| == 0 {
      var split := SplitByProbability(p, total);
      e := HourEstimate(split.0, split.1, startUtc, nowUtc, startLocal, endLocal);
      assert (e.uptime, e.downtime) == SplitHour(true, p, total, active', inactive');
    } else {
      var active, inactive := CountStatusesWithin(rows, table, zone);
      var split := Apportion(active, inactive, total);
      e := HourEstimate(split.0, split.1, startUtc, nowUtc, startLocal, endLocal);
      assert (e.uptime, e.downtime) == SplitHour(false, p, total, active', inactive');
    }
  }

  /** The last hour of a store: fails when its zone name is unknown, and otherwise reports
      the estimate with the zone name it used. */
  method UptimeLastHour(nowUtc: int, config: StoreConfig, zones: map<string, Zone>, fetch: RowFetch, avg: AvgQuery)
    returns (r: Option<(HourEstimate, string)>)
    ensures r.None? <==> TimezoneName(config) !in zones
    ensures r.Some? ==>
      var zone := zones[TimezoneName(config)];
      && (r.value.0.uptime, r.value.0.downtime) == HourSplit(nowUtc, zone, TableOf(config.rules), fetch, avg)
      && r.value.0.startUtc == nowUtc - SecondsPerHour && r.value.0.endUtc == nowUtc
      && r.value.1 == TimezoneName(config)
  {
    var tzName := TimezoneName(config);
    var resolved := GetBusinessHours(config.rules, tzName, zones);
    if resolved.None? {
      return None;
    }
    var e := EstimateHour(nowUtc, resolved.value.1, resolved.value.0, fetch, avg);
    r := Some((e, tzName));
  }

  // ---------------------------------------------------------------------------
  // The hour-by-hour loops of calculate_uptime_last_day / calculate_uptime_last_week

  /** The uptime and possible minutes of the local hours that start at `from`, `from + 1h`, ...
      before `to`: each hour whose start is in business hours adds the estimate of the hour
      ending at its end. */
  function HourlySums(from: int, to: int, zone: Zone, table: Table, fetch: RowFetch, avg: AvgQuery): (r: (real, real))
    ensures from >= to ==> r == (0.0, 0.0)
    ensures 0.0 <= r.0 <= r.1
    decreases Max(0, to - from)
  {
    if from >= to then (0.0, 0.0)
    else
      var rest := HourlySums(from + SecondsPerHour, to, zone, table, fetch, avg);
      if InBusinessHoursAt(from, table) then
        var split := HourSplit(zone.ToUtc(from + SecondsPerHour), zone, table, fetch, avg);
        (split.0 + rest.0, split.0 + split.1 + rest.1)
      else rest
  }

  /** Every hour started in the range adds at most 60 possible minutes. */
  lemma {:induction false} HourlySumsAtMostAnHourEach(from: int, to: int, zone: Zone, table: Table, fetch: RowFetch, avg: AvgQuery)
    requires from < to
    ensures HourlySums(from, to, zone, table, fetch, avg).1 * 60.0 <= (to - from + SecondsPerHour - 1) as real
    decreases Max(0, to - from)
  {
    if from + SecondsPerHour < to {
      HourlySumsAtMostAnHourEach(from + SecondsPerHour, to, zone, table, fetch, avg);
    }
  }

  /** Whole hours counted from at most 60 possible minutes per hour of the `n`-hour range
      `[from, to)` are at most `n`. */
  lemma WholeHoursWithin(hours: int, possible: real, from: int, to: int, n: nat)
    requires to - from == n * SecondsPerHour
    requires (hours * 60) as real <= possible
    requires possible * 60.0 <= (to - from + SecondsPerHour - 1) as real
    ensures hours <= n
  {
    assert ((hours * 60) * 60) as real <= possible * 60.0;
    assert hours * SecondsPerHour < (n + 1) * SecondsPerHour;
  }

  /** Hours that start outside business hours add nothing: with no business hour in range
      both sums are zero. */
  lemma {:induction false} HourlySumsClosed(from: int, to: int, zone: Zone, table: Table, fetch: RowFetch, avg: AvgQuery)
    requires forall j: nat :: from + j * SecondsPerHour < to ==> !InBusinessHoursAt(from + j * SecondsPerHour, table)
    ensures HourlySums(from, to, zone, table, fetch, avg) == (0.0, 0.0)
    decreases Max(0, to - from)
  {
    if from < to {
      assert !InBusinessHoursAt(from + 0 * SecondsPerHour, table);
      forall j: nat | from + SecondsPerHour + j * SecondsPerHour < to
        ensures !InBusinessHoursAt(from + SecondsPerHour + j * SecondsPerHour, table)
      {
        assert from + SecondsPerHour + j * SecondsPerHour == from + (j + 1) * SecondsPerHour;
      }
      HourlySumsClosed(from + SecondsPerHour, to, zone, table, fetch, avg);
    }
  }

  /** One hour of `HourlySums`: the hour starting at `from` adds its estimate when it starts
      in business hours, and nothing otherwise. */
  lemma HourlySumsStep(from: int, to: int, zone: Zone, table: Table, fetch: RowFetch, avg: AvgQuery)
    requires from < to
    ensures InBusinessHoursAt(from, table) ==>
      HourlySums(from, to, zone, table, fetch, avg).0
        == HourSplit(zone.ToUtc(from + SecondsPerHour), zone, table, fetch, avg).0 + HourlySums(from + SecondsPerHour, to, zone, table, fetch, avg).0
    ensures InBusinessHoursAt(from, table) ==>
      HourlySums(from, to, zone, table, fetch, avg).1
        == HourSplit(zone.ToUtc(from + SecondsPerHour), zone, table, fetch, avg).0
           + HourSplit(zone.ToUtc(from + SecondsPerHour), zone, table, fetch, avg).1
           + HourlySums(from + SecondsPerHour, to, zone, table, fetch, avg).1
    ensures !InBusinessHoursAt(from, table) ==>
      HourlySums(from, to, zone, table, fetch, avg) == HourlySums(from + SecondsPerHour, to, zone, table, fetch, avg)
  {
  }

  /** Walks the local hours from `startLocal` up to `nowLocal`, one hour at a time, and adds
      up the estimates of the hours that start in business hours. */
  method HourlyTotals(startLocal: int, nowLocal: int, zone: Zone, table: Table, fetch: RowFetch, avg: AvgQuery)
    returns (uptime: real, possible: real)
    ensures (uptime, possible) == HourlySums(startLocal, nowLocal, zone, table, fetch, avg)
  {
    ghost var all := HourlySums(startLocal, nowLocal, zone, table, fetch, avg);
    var current := startLocal;
    uptime, possible := 0.0, 0.0;
    ghost var rest := all;
    while current < nowLocal
      invariant rest == HourlySums(current, nowLocal, zone, table, fetch, avg)
      invariant uptime + rest.0 == all.0 && possible + rest.1 == all.1
      decreases nowLocal - current
    {
      var next := current + SecondsPerHour;
      HourlySumsStep(current, nowLocal, zone, table, fetch, avg);
      ghost var restNext := HourlySums(next, nowLocal, zone, table, fetch, avg);
      if InBusinessHoursAt(current, table) {
        var e := EstimateHour(zone.ToUtc(next), zone, table, fetch, avg);
        uptime := uptime + e.uptime;
        possible := possible + e.uptime + e.downtime;
      }
      current, rest := next, restNext;
    }
  }

  /** The report of the last day: floor divisions by 60, with the downtime hours taken as the
      difference of the floored possible and uptime hours. */
  function DayReport(uptime: real, possible: real): (r: PeriodReport)
    ensures (r.uptimeHours * 60) as real <= uptime < ((r.uptimeHours + 1) * 60) as real
    ensures (r.totalPossibleHours * 60) as real <= possible < ((r.totalPossibleHours + 1) * 60) as real
    ensures r.downtimeHours == r.totalPossibleHours - r.uptimeHours
    ensures possible == 0.0 ==> r.uptimePercent == 0.0
    ensures possible != 0.0 ==> r.uptimePercent * possible == uptime * 100.0
    ensures 0.0 <= uptime <= possible ==> 0.0 <= r.uptimePercent <= 100.0 && 0 <= r.downtimeHours
    ensures 0.0 <= uptime <= possible ==> 0 <= r.uptimeHours <= r.totalPossibleHours
  {
    var percent := if possible != 0.0 then uptime / possible * 100.0 else 0.0;
    FractionBounds(uptime, possible, 100.0);
    var up := (uptime / 60.0).Floor;
    var total := (possible / 60.0).Floor;
    PeriodReport(up, total - up, percent, total)
  }

  /** The report of the last week: floor divisions by 60, with the downtime hours taken as the
      floored difference of the possible and uptime minutes. */
  function WeekReport(uptime: real, possible: real): (r: PeriodReport)
    ensures (r.uptimeHours * 60) as real <= uptime < ((r.uptimeHours + 1) * 60) as real
    ensures (r.totalPossibleHours * 60) as real <= possible < ((r.totalPossibleHours + 1) * 60) as real
    ensures (r.downtimeHours * 60) as real <= possible - uptime < ((r.downtimeHours + 1) * 60) as real
    ensures possible == 0.0 ==> r.uptimePercent == 0.0
    ensures possible != 0.0 ==> r.uptimePercent * possible == uptime * 100.0
    ensures 0.0 <= uptime <= possible ==> 0.0 <= r.uptimePercent <= 100.0 && 0 <= r.downtimeHours
    ensures 0.0 <= uptime <= possible ==> 0 <= r.uptimeHours <= r.totalPossibleHours
  {
    var percent := if possible != 0.0 then uptime / possible * 100.0 else 0.0;
    FractionBounds(uptime, possible, 100.0);
    PeriodReport((uptime / 60.0).Floor, ((possible - uptime) / 60.0).Floor, percent, (possible / 60.0).Floor)
  }

  /** The two reports differ only in the downtime hours, and there the day's is the week's or
      one more. */
  lemma DowntimeRoundings(uptime: real, possible: real)
    ensures var day := DayReport(uptime, possible);
      var week := WeekReport(uptime, possible);
      && day.uptimeHours == week.uptimeHours && day.totalPossibleHours == week.totalPossibleHours
      && day.uptimePercent == week.uptimePercent
      && (day.downtimeHours == week.downtimeHours || day.downtimeHours == week.downtimeHours + 1)
  {
  }

  /** Half an hour up out of one possible hour: the day report counts one downtime hour,
      the week report none. */
  lemma DowntimeRoundingsDiffer()
    ensures DayReport(30.0, 60.0).downtimeHours == 1
    ensures WeekReport(30.0, 60.0).downtimeHours == 0
  {
    var day := DayReport(30.0, 60.0);
    var week := WeekReport(30.0, 60.0);
    assert day.totalPossibleHours == 1 && day.uptimeHours == 0;
    assert week.downtimeHours == 0;
  }

  /** The last day of a store: fails when its zone name is unknown, and otherwise reports the
      24 local hours before `nowUtc`. */
  method UptimeLastDay(nowUtc: int, config: StoreConfig, zones: map<string, Zone>, fetch: RowFetch, avg: AvgQuery)
    returns (r: Option<PeriodReport>)
    ensures r.None? <==> TimezoneName(config) !in zones
    ensures r.Some? ==>
      var zone := zones[TimezoneName(config)];
      var sums := HourlySums(zone.ToLocal(nowUtc) - SecondsPerDay, zone.ToLocal(nowUtc), zone, TableOf(config.rules), fetch, avg);
      && r.value == DayReport(sums.0, sums.1)
      && 0.0 <= r.value.uptimePercent <= 100.0
      && 0 <= r.value.uptimeHours <= r.value.totalPossibleHours <= 24
  {
    var resolved := GetBusinessHours(config.rules, TimezoneName(config), zones);
    if resolved.None? {
      return None;
    }
    var table, zone := resolved.value.0, resolved.value.1;
    var nowLocal := zone.ToLocal(nowUtc);
    var uptime, possible := HourlyTotals(nowLocal - SecondsPerDay, nowLocal, zone, table, fetch, avg);
    HourlySumsAtMostAnHourEach(nowLocal - SecondsPerDay, nowLocal, zone, table, fetch, avg);
    var report := DayReport(uptime, possible);
    WholeHoursWithin(report.totalPossibleHours, possible, nowLocal - SecondsPerDay, nowLocal, 24);
    r := Some(report);
  }

  /** The last week of a store: fails when its zone name is unknown, and otherwise reports the
      168 local hours before `nowUtc`. */
  method UptimeLastWeek(nowUtc: int, config: StoreConfig, zones: map<string, Zone>, fetch: RowFetch, avg: AvgQuery)
    returns (r: Option<PeriodReport>)
    ensures r.None? <==> TimezoneName(config) !in zones
    ensures r.Some? ==>
      var zone := zones[TimezoneName(config)];
      var sums := HourlySums(zone.ToLocal(nowUtc) - DaysPerWeek * SecondsPerDay, zone.ToLocal(nowUtc), zone, TableOf(config.rules), fetch, avg);
      && r.value == WeekReport(sums.0, sums.1)
      && 0.0 <= r.value.uptimePercent <= 100.0
      && 0 <= r.value.uptimeHours <= r.value.totalPossibleHours <= 24 * DaysPerWeek
  {
    var resolved := GetBusinessHours(config.rules, TimezoneName(config), zones);
    if resolved.None? {
      return None;
    }
    var table, zone := resolved.value.0, resolved.value.1;
    var nowLocal := zone.ToLocal(nowUtc);
    var uptime, possible := HourlyTotals(nowLocal - DaysPerWeek * SecondsPerDay, nowLocal, zone, table, fetch, avg);
    HourlySumsAtMostAnHourEach(nowLocal - DaysPerWeek * SecondsPerDay, nowLocal, zone, table, fetch, avg);
    var report := WeekReport(uptime, possible);
    WholeHoursWithin(report.totalPossibleHours, possible, nowLocal - DaysPerWeek * SecondsPerDay, nowLocal, 24 * DaysPerWeek);
    r := Some(report);
  }
}
