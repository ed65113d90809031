/** The uptime and downtime estimators of the monitor's report task
    (store_monitor/utils.py): the last hour from the polls in it, or from the history
    of polls when there are none, and the last day and week from two-hour buckets
    of poll counts. The database is not modelled: every query result is an input. */
module Estimator {
  import opened Optional
  import opened Clock
  import opened BusinessHours

  /** A status poll: its UTC instant and its status text (`'active'` or `'inactive'`),
      in the order the estimators read a fetched row's first two columns. */
  datatype Observation = Observation(timestampUtc: int, status: string)

  /** A probability, such as the average of 0/1 statuses. */
  type Prob = p: real | 0.0 <= p <= 1.0

  /** The history query of `historical_avg_status`: polls of weekday `dow` (Sunday = 0)
      whose time of day in `zone` lies in `[from, to]` and that precede `before`. */
  datatype HistQuery = HistQuery(zone: Zone, dow: int, from: TimeOfDay, to: TimeOfDay, before: int)

  /** The average active status the history query returns, none when no poll matches. */
  type AvgQuery = HistQuery -> Option<Prob>

  /** The polls the store has in `[start, end]` (UTC, both ends included), in timestamp order. */
  type RowFetch = (int, int) -> seq<Observation>

  // ---------------------------------------------------------------------------
  // historical_avg_status and the fallback of calculate_uptime_last_hour

  /** The weekday in the database's numbering, which starts the week on Sunday. */
  function SundayFirst(w: Weekday): (d: Weekday)
    ensures w == 6 ==> d == 0
    ensures w < 6 ==> d == w + 1
  {
    (w + 1) % DaysPerWeek
  }

  /** The probability of being active at instant `at` (in `zone`) in the time-of-day window
      `[from, to]`: the history's average, or 0.5 when the history has no matching poll. */
  function HistoricalAvgStatus(at: int, zone: Zone, from: TimeOfDay, to: TimeOfDay, avg: AvgQuery): (p: Prob)
    ensures avg(HistQuery(zone, SundayFirst(WeekdayOf(at)), from, to, zone.ToUtc(at))).None? ==> p == 0.5
    ensures avg(HistQuery(zone, SundayFirst(WeekdayOf(at)), from, to, zone.ToUtc(at))).Some? ==>
      p == avg(HistQuery(zone, SundayFirst(WeekdayOf(at)), from, to, zone.ToUtc(at))).value
  {
    match avg(HistQuery(zone, SundayFirst(WeekdayOf(at)), from, to, zone.ToUtc(at)))
    case Some(v) => v
    case None => 0.5
  }

  /** The probability used when the last hour has no poll. The window runs from an hour before
      to an hour after the local start of the hour; the history is asked at the UTC instant
      `nowUtc`, so in UTC. A window that crosses midnight is asked in two parts, to 23:59:59
      and from 00:00:00, whose answers are averaged with equal weight. */
  function FallbackProbability(startLocal: int, nowUtc: int, avg: AvgQuery): (p: Prob)
    ensures SecondsPerHour <= TimeOf(startLocal) < SecondsPerDay - SecondsPerHour ==>
      p == HistoricalAvgStatus(nowUtc, Utc, TimeOf(startLocal) - SecondsPerHour, TimeOf(startLocal) + SecondsPerHour, avg)
    ensures !(SecondsPerHour <= TimeOf(startLocal) < SecondsPerDay - SecondsPerHour) ==>
      p == (HistoricalAvgStatus(nowUtc, Utc, TimeOf(startLocal - SecondsPerHour), At(23, 59, 59), avg)
            + HistoricalAvgStatus(nowUtc, Utc, 0, TimeOf(startLocal + SecondsPerHour), avg)) / 2.0
  {
    FallbackWindowCrossesMidnight(startLocal);
    var from := TimeOf(startLocal - SecondsPerHour);
    var to := TimeOf(startLocal + SecondsPerHour);
    if from < to then HistoricalAvgStatus(nowUtc, Utc, from, to, avg)
    else (HistoricalAvgStatus(nowUtc, Utc, from, At(23, 59, 59), avg)
          + HistoricalAvgStatus(nowUtc, Utc, 0, to, avg)) / 2.0
  }

  /** The two-hour window around `startLocal` wraps past midnight exactly when `startLocal` is
      within an hour of a midnight; otherwise it is the plain `[t - 1h, t + 1h]`. */
  lemma FallbackWindowCrossesMidnight(startLocal: int)
    ensures TimeOf(startLocal - SecondsPerHour) < TimeOf(startLocal + SecondsPerHour)
        <==> SecondsPerHour <= TimeOf(startLocal) < SecondsPerDay - SecondsPerHour
    ensures SecondsPerHour <= TimeOf(startLocal) < SecondsPerDay - SecondsPerHour ==>
      TimeOf(startLocal - SecondsPerHour) == TimeOf(startLocal) - SecondsPerHour
      && TimeOf(startLocal + SecondsPerHour) == TimeOf(startLocal) + SecondsPerHour
  {
    var d := DayStart(startLocal);
    var t := TimeOf(startLocal);
    if t < SecondsPerHour {
      DayStartUnique(startLocal - SecondsPerHour, d - SecondsPerDay);
      DayStartUnique(startLocal + SecondsPerHour, d);
    } else if t < SecondsPerDay - SecondsPerHour {
      DayStartUnique(startLocal - SecondsPerHour, d);
      DayStartUnique(startLocal + SecondsPerHour, d);
    } else {
      DayStartUnique(startLocal - SecondsPerHour, d);
      DayStartUnique(startLocal + SecondsPerHour, d + SecondsPerDay);
    }
  }

  /** With no matching history at all the fallback probability is the neutral 0.5, whether
      or not the window crosses midnight. */
  lemma FallbackWithoutHistory(startLocal: int, nowUtc: int, avg: AvgQuery)
    requires forall q :: avg(q) == None
    ensures FallbackProbability(startLocal, nowUtc, avg) == 0.5
  {
    var p1 := HistoricalAvgStatus(nowUtc, Utc, TimeOf(startLocal - SecondsPerHour), At(23, 59, 59), avg);
    var p2 := HistoricalAvgStatus(nowUtc, Utc, 0, TimeOf(startLocal + SecondsPerHour), avg);
    assert p1 == 0.5 && p2 == 0.5;
  }

  // ---------------------------------------------------------------------------
  // calculate_uptime_last_hour

  /** The number of polls in `rows` whose status is `status`. */
  function CountStatus(rows: seq<Observation>, status: string): (n: nat)
    ensures n <= |rows|
    decreases |rows|
  {
    if rows == [] then 0
    else CountStatus(rows[..|rows| - 1], status) + (if rows[|rows| - 1].status == status then 1 else 0)
  }

  /** Active and inactive polls together are at most all polls, and all of them exactly when
      every poll has one of the two statuses. */
  lemma {:induction false} CountsPartition(rows: seq<Observation>)
    ensures CountStatus(rows, "active") + CountStatus(rows, "inactive") <= |rows|
    ensures CountStatus(rows, "active") + CountStatus(rows, "inactive") == |rows|
        <==> forall k :: 0 <= k < |rows| ==> rows[k].status == "active" || rows[k].status == "inactive"
    decreases |rows|
  {
    if rows != [] {
      var init := rows[..|rows| - 1];
      CountsPartition(init);
      assert forall k :: 0 <= k < |init| ==> init[k] == rows[k];
    }
  }

  /** A Python tuple is truthy whatever it holds, so a guard that tests the 4-tuple
      `is_within_business_hours` returns always passes. */
  predicate Truthy(c: Clip) {
    true
  }

  /** The counting loop of the last hour: every fetched poll passes the guard (it tests the
      returned tuple, not its flag), and only the two status texts are counted. */
  method CountStatuses(rows: seq<Observation>, table: Table, zone: Zone) returns (active: nat, inactive: nat)
    ensures active == CountStatus(rows, "active")
    ensures inactive == CountStatus(rows, "inactive")
  {
    active, inactive := 0, 0;
    for i := 0 to |rows|
      invariant active == CountStatus(rows[..i], "active")
      invariant inactive == CountStatus(rows[..i], "inactive")
    {
      assert rows[..i + 1][..i] == rows[..i];
      var local := zone.ToLocal(rows[i].timestampUtc);
      var clip := IsWithinBusinessHours(local, local, table, zone);
      if Truthy(clip) {
        if rows[i].status == "active" {
          active := active + 1;
        } else if rows[i].status == "inactive" {
          inactive := inactive + 1;
        }
      }
    }
    assert rows[..|rows|] == rows;
  }

  /** A fraction `a / n` of a non-negative `total` lies between 0 and `total`. */
  lemma FractionBounds(a: real, n: real, total: real)
    ensures 0.0 <= a <= n && 0.0 < n && 0.0 <= total ==> 0.0 <= a / n * total <= total
  {
    if 0.0 <= a <= n && 0.0 < n && 0.0 <= total {
      var f := a / n;
      assert f * n == a;
      assert f <= 1.0;
      assert total - f * total == (1.0 - f) * total;
    }
  }

  /** Splits `total` minutes into the uptime `p * total` and the downtime `(1 - p) * total`:
      the two make up the total, neither is negative, and an even chance splits it in halves. */
  function SplitByProbability(p: Prob, total: real): (r: (real, real))
    ensures r.0 + r.1 == total
    ensures 0.0 <= total ==> 0.0 <= r.0 <= total && 0.0 <= r.1 <= total
    ensures p == 0.5 ==> r.0 == r.1
    ensures r.0 == p * total && r.1 == (1.0 - p) * total
  {
    ScaleWithin(p, total);
    ScaleWithin(1.0 - p, total);
    (p * total, (1.0 - p) * total)
  }

  /** A non-negative `total` scaled by a factor between 0 and 1 stays between 0 and `total`. */
  lemma ScaleWithin(f: real, total: real)
    ensures 0.0 <= f <= 1.0 && 0.0 <= total ==> 0.0 <= f * total <= total
  {
    if 0.0 <= f <= 1.0 && 0.0 <= total {
      assert total - f * total == (1.0 - f) * total;
      assert 0.0 <= (1.0 - f) * total;
    }
  }

  /** Splits `total` minutes between uptime and downtime in proportion to the active and
      inactive counts; nothing when both counts are zero. */
  function Apportion(active: nat, inactive: nat, total: real): (r: (real, real))
    ensures active + inactive == 0 ==> r == (0.0, 0.0)
    ensures active + inactive > 0 ==> r.0 + r.1 == total
    ensures active + inactive > 0 ==> r.0 * (active + inactive) as real == active as real * total
    ensures active + inactive > 0 ==> r.1 * (active + inactive) as real == inactive as real * total
    ensures 0.0 <= total ==> 0.0 <= r.0 <= total && 0.0 <= r.1 <= total
  {
    if active + inactive > 0 then
      var n := (active + inactive) as real;
      var up := active as real / n * total;
      var down := inactive as real / n * total;
      assert up + down == (active as real + inactive as real) / n * total;
      FractionBounds(active as real, n, total);
      FractionBounds(inactive as real, n, total);
      (up, down)
    else (0.0, 0.0)
  }

  /** What the last hour reports: the estimated minutes and the spans it was computed over. */
  datatype HourEstimate = HourEstimate(uptime: real, downtime: real, startUtc: int, endUtc: int, startLocal: int, endLocal: int)

  /** The last hour before `nowUtc`: its business minutes are split by the polls in it or,
      when it has none, by the historical probability. */
  method UptimeLastHour(nowUtc: int, zone: Zone, table: Table, fetch: RowFetch, avg: AvgQuery) returns (e: HourEstimate)
    ensures e.endUtc == nowUtc && e.startUtc == nowUtc - SecondsPerHour
    ensures e.endLocal == zone.ToLocal(nowUtc) && e.startLocal == e.endLocal - SecondsPerHour
    ensures |fetch(e.startUtc, e.endUtc)| == 0 ==>
      (e.uptime, e.downtime)
        == SplitByProbability(FallbackProbability(e.startLocal, nowUtc, avg), MaxPossibleUptime(e.startUtc, e.endUtc, table, zone))
    ensures |fetch(e.startUtc, e.endUtc)| > 0 ==>
      var rows := fetch(e.startUtc, e.endUtc);
      (e.uptime, e.downtime)
        == Apportion(CountStatus(rows, "active"), CountStatus(rows, "inactive"), MaxPossibleUptime(e.startUtc, e.endUtc, table, zone))
  {
    var endLocal := zone.ToLocal(nowUtc);
    var startLocal := endLocal - SecondsPerHour;
    var startUtc := zone.ToUtc(startLocal);
    var endUtc := nowUtc;
    var rows := fetch(startUtc, endUtc);
    var total := MaxPossibleUptime(startUtc, endUtc, table, zone);
    if |rows| == 0 {
      var p := FallbackProbability(startLocal, endUtc, avg);
      var split := SplitByProbability(p, total);
      e := HourEstimate(split.0, split.1, startUtc, endUtc, startLocal, endLocal);
    } else {
      var active, inactive := CountStatuses(rows, table, zone);
      var split := Apportion(active, inactive, total);
      e := HourEstimate(split.0, split.1, startUtc, endUtc, startLocal, endLocal);
      assert |fetch(e.startUtc, e.endUtc)| > 0;
    }
  }

  /** Whichever way the last hour is split, uptime and downtime are non-negative and together
      make at most 60 minutes: all of the business minutes, or none when polls exist but none
      has a known status. */
  lemma LastHourWithinHour(nowUtc: int, table: Table, zone: Zone, p: Prob, active: nat, inactive: nat)
    ensures var total := MaxPossibleUptime(nowUtc - SecondsPerHour, nowUtc, table, zone);
      && 0.0 <= total <= 60.0
      && (var byChance := SplitByProbability(p, total);
          0.0 <= byChance.0 && 0.0 <= byChance.1 && byChance.0 + byChance.1 <= 60.0)
      && (var byCount := Apportion(active, inactive, total);
          0.0 <= byCount.0 && 0.0 <= byCount.1 && byCount.0 + byCount.1 <= 60.0)
  {
  }

  // ---------------------------------------------------------------------------
  // The bucket query's gap fill: COALESCE(locf(NULLIF(count, 0)), 0), per column

  /** One count column with every zero replaced by the latest earlier non-zero count,
      `carry` standing for the value before the first bucket. */
  function Locf(col: seq<nat>, carry: nat): (r: seq<nat>)
    ensures |r| == |col|
    decreases |col|
  {
    if col == [] then []
    else
      var v := if col[0] != 0 then col[0] else carry;
      [v] + Locf(col[1..], v)
  }

  /** A filled entry is the latest non-zero count at or before it. */
  lemma {:induction false} LocfTakesLatestNonZero(col: seq<nat>, carry: nat, j: nat, k: nat)
    requires j <= k < |col| && col[j] != 0
    requires forall l :: j < l <= k ==> col[l] == 0
    ensures Locf(col, carry)[k] == col[j]
    decreases |col|
  {
    if j > 0 {
      LocfTakesLatestNonZero(col[1..], if col[0] != 0 then col[0] else carry, j - 1, k - 1);
    } else if k > 0 {
      LocfKeepsCarry(col[1..], col[0], k - 1);
    }
  }

  /** Before the first non-zero count the filled entries are the carry. */
  lemma {:induction false} LocfKeepsCarry(col: seq<nat>, carry: nat, k: nat)
    requires k < |col|
    requires forall l :: 0 <= l <= k ==> col[l] == 0
    ensures Locf(col, carry)[k] == carry
    decreases |col|
  {
    if k > 0 {
      LocfKeepsCarry(col[1..], carry, k - 1);
    }
  }

  /** A bucket of the raw bucket query: its UTC start and its active and inactive poll counts. */
  datatype BucketRow = BucketRow(bucketUtc: int, active: nat, inactive: nat)

  /** The raw bucket rows for `[start, end]` (UTC): every two-hour bucket, in order, with zero
      counts for a bucket without polls. */
  type BucketFetch = (int, int) -> seq<BucketRow>

  function Actives(rows: seq<BucketRow>): (col: seq<nat>)
    ensures |col| == |rows| && forall k :: 0 <= k < |rows| ==> col[k] == rows[k].active
  {
    seq(|rows|, k requires 0 <= k < |rows| => rows[k].active)
  }

  function Inactives(rows: seq<BucketRow>): (col: seq<nat>)
    ensures |col| == |rows| && forall k :: 0 <= k < |rows| ==> col[k] == rows[k].inactive
  {
    seq(|rows|, k requires 0 <= k < |rows| => rows[k].inactive)
  }

  /** The bucket rows the query returns: each count column filled on its own. */
  function GapFill(raw: seq<BucketRow>): (filled: seq<BucketRow>)
    ensures |filled| == |raw|
    ensures forall k :: 0 <= k < |raw| ==> filled[k].bucketUtc == raw[k].bucketUtc
    ensures forall k :: 0 <= k < |raw| ==>
      filled[k].active == Locf(Actives(raw), 0)[k] && filled[k].inactive == Locf(Inactives(raw), 0)[k]
  {
    var a := Locf(Actives(raw), 0);
    var i := Locf(Inactives(raw), 0);
    seq(|raw|, k requires 0 <= k < |raw| => BucketRow(raw[k].bucketUtc, a[k], i[k]))
  }

  /** Once a bucket has a poll, no later filled bucket is without counts. */
  lemma NoGapAfterEvidence(raw: seq<BucketRow>, j: nat, k: nat)
    requires j <= k < |raw|
    requires raw[j].active + raw[j].inactive > 0
    ensures GapFill(raw)[k].active + GapFill(raw)[k].inactive > 0
  {
    var col := if raw[j].active > 0 then Actives(raw) else Inactives(raw);
    var j' := LatestNonZero(col, j, k);
    LocfTakesLatestNonZero(col, 0, j', k);
  }

  /** The latest position in `[j, k]` with a non-zero entry, given that `j` has one. */
  lemma {:induction false} LatestNonZero(col: seq<nat>, j: nat, k: nat) returns (j': nat)
    requires j <= k < |col| && col[j] != 0
    ensures j <= j' <= k && col[j'] != 0
    ensures forall l :: j' < l <= k ==> col[l] == 0
    decreases k - j
  {
    if col[k] != 0 {
      j' := k;
    } else if j == k {
      j' := j;
    } else {
      j' := LatestNonZero(col, j, k - 1);
    }
  }

  /** Buckets that have no poll and no earlier bucket with a poll stay at zero counts. */
  lemma LeadingEmptyBucketsStayEmpty(raw: seq<BucketRow>, k: nat)
    requires k < |raw|
    requires forall l :: 0 <= l <= k ==> raw[l].active == 0 && raw[l].inactive == 0
    ensures GapFill(raw)[k].active == 0 && GapFill(raw)[k].inactive == 0
  {
    LocfKeepsCarry(Actives(raw), 0, k);
    LocfKeepsCarry(Inactives(raw), 0, k);
  }

  // ---------------------------------------------------------------------------
  // The bucket loop of calculate_uptime_last_day / calculate_uptime_last_week

  /** The local span of a bucket: its start to one second before the next bucket. */
  function BucketSpan(row: BucketRow, zone: Zone): (s: (int, int))
    ensures s.0 == zone.ToLocal(row.bucketUtc)
    ensures s.1 - s.0 == 2 * SecondsPerHour - 1
  {
    (zone.ToLocal(row.bucketUtc), zone.ToLocal(row.bucketUtc + 2 * SecondsPerHour - 1))
  }

  /** The clip of a bucket's span. */
  function BucketClip(row: BucketRow, table: Table, zone: Zone): Clip {
    ClipSpan(BucketSpan(row, zone).0, BucketSpan(row, zone).1, table, zone)
  }

  /** What one bucket adds given its clip: its rounded business minutes to the possible total,
      and their active share to uptime, half of them when the bucket has no counts. */
  function BucketShare(row: BucketRow, c: Clip): (r: (int, real))
    ensures !c.Flag() ==> r == (0, 0.0)
    ensures c.Flag() ==> r.0 == c.minutes
    ensures c.Minutes() >= 0 ==> 0.0 <= r.1 <= r.0 as real
    ensures row.active + row.inactive == 0 ==> r.1 * 2.0 == r.0 as real
    ensures c.Flag() && row.active + row.inactive > 0
      ==> r.1 * (row.active + row.inactive) as real == row.active as real * c.minutes as real
  {
    if !c.Flag() then (0, 0.0)
    else if row.active + row.inactive > 0 then (c.minutes, Apportion(row.active, row.inactive, c.minutes as real).0)
    else (c.minutes, 0.5 * c.minutes as real)
  }

  /** The clips of the buckets, one per bucket. */
  function BucketClips(rows: seq<BucketRow>, table: Table, zone: Zone): (clips: seq<Clip>)
    ensures |clips| == |rows|
    ensures forall k :: 0 <= k < |rows| ==> clips[k] == BucketClip(rows[k], table, zone)
    ensures forall k :: 0 <= k < |clips| ==> clips[k].Minutes() >= 0
  {
    var clips := seq(|rows|, k requires 0 <= k < |rows| => BucketClip(rows[k], table, zone));
    assert forall k :: 0 <= k < |clips| ==> clips[k].Minutes() >= 0 by {
      forall k | 0 <= k < |clips| ensures clips[k].Minutes() >= 0 {
        var span := BucketSpan(rows[k], zone);
        assert clips[k] == ClipSpan(span.0, span.1, table, zone);
      }
    }
    clips
  }

  /** The possible minutes and uptime minutes the buckets add up to, given their clips. */
  function SumShares(rows: seq<BucketRow>, clips: seq<Clip>): (r: (int, real))
    requires |clips| == |rows|
    requires forall k :: 0 <= k < |clips| ==> clips[k].Minutes() >= 0
    ensures 0 <= r.0 && 0.0 <= r.1 <= r.0 as real
    decreases |rows|
  {
    if rows == [] then (0, 0.0)
    else
      var n := |rows| - 1;
      var prev := SumShares(rows[..n], clips[..n]);
      var share := BucketShare(rows[n], clips[n]);
      (prev.0 + share.0, prev.1 + share.1)
  }

  /** Adding the share of bucket `i` to the totals of the buckets before it gives the totals
      up to and including it. */
  lemma SumSharesStep(rows: seq<BucketRow>, clips: seq<Clip>, i: nat, before: (int, real), after: (int, real))
    requires |clips| == |rows| && i < |rows|
    requires forall k :: 0 <= k < |clips| ==> clips[k].Minutes() >= 0
    requires before == SumShares(rows[..i], clips[..i])
    requires after.0 == before.0 + BucketShare(rows[i], clips[i]).0
    requires after.1 == before.1 + BucketShare(rows[i], clips[i]).1
    ensures after == SumShares(rows[..i + 1], clips[..i + 1])
  {
    assert rows[..i + 1][..i] == rows[..i];
    assert clips[..i + 1][..i] == clips[..i];
  }

  /** The totals of the buckets under the business hours `table`. */
  function BucketTotals(rows: seq<BucketRow>, table: Table, zone: Zone): (r: (int, real))
    ensures 0 <= r.0 && 0.0 <= r.1 <= r.0 as real
  {
    SumShares(rows, BucketClips(rows, table, zone))
  }

  /** One pass of the bucket loop: a bucket that overlaps business hours adds its minutes to
      the possible total and its share of them to uptime. */
  method AddBucket(row: BucketRow, table: Table, zone: Zone, possible: int, uptime: real)
    returns (possible': int, uptime': real, clip: Clip)
    ensures clip == BucketClip(row, table, zone)
    ensures var share := BucketShare(row, clip);
      possible' == possible + share.0 && uptime' == uptime + share.1
  {
    var span := BucketSpan(row, zone);
    clip := IsWithinBusinessHours(span.0, span.1, table, zone);
    possible', uptime' := possible, uptime;
    if clip.Flag() {
      possible' := possible' + clip.minutes;
      if row.active + row.inactive > 0 {
        uptime' := uptime' + Apportion(row.active, row.inactive, clip.minutes as real).0;
      } else {
        uptime' := uptime' + 0.5 * clip.minutes as real;
      }
    }
  }

  /** Adds up the buckets that overlap business hours. */
  method AccumulateBuckets(rows: seq<BucketRow>, table: Table, zone: Zone) returns (possible: int, uptime: real)
    ensures (possible, uptime) == BucketTotals(rows, table, zone)
  {
    ghost var clips := BucketClips(rows, table, zone);
    assert BucketTotals(rows, table, zone) == SumShares(rows, clips);
    possible, uptime := 0, 0.0;
    for i := 0 to |rows|
      invariant (possible, uptime) == SumShares(rows[..i], clips[..i])
    {
      var clip, possible', uptime';
      possible', uptime', clip := AddBucket(rows[i], table, zone, possible, uptime);
      assert clip == clips[i];
      SumSharesStep(rows, clips, i, (possible, uptime), (possible', uptime'));
      possible, uptime := possible', uptime';
    }
    assert rows[..|rows|] == rows && clips[..|clips|] == clips;
  }

  /** What the last day and week report: whole hours, and the uptime percentage. */
  datatype PeriodReport = PeriodReport(uptimeHours: int, downtimeHours: int, uptimePercent: real, totalPossibleHours: int)

  /** The report of the bucketed estimators: floor divisions by 60 and the percentage, which is
      0 when there are no possible minutes. */
  function BucketReport(possible: int, uptime: real): (r: PeriodReport)
    ensures (r.uptimeHours * 60) as real <= uptime < ((r.uptimeHours + 1) * 60) as real
    ensures (r.downtimeHours * 60) as real <= possible as real - uptime < ((r.downtimeHours + 1) * 60) as real
    ensures r.totalPossibleHours * 60 <= possible < (r.totalPossibleHours + 1) * 60
    ensures possible == 0 ==> r.uptimePercent == 0.0
    ensures possible != 0 ==> r.uptimePercent * possible as real == uptime * 100.0
    ensures 0.0 <= uptime <= possible as real ==> 0.0 <= r.uptimePercent <= 100.0
    ensures 0.0 <= uptime <= possible as real ==> 0 <= r.uptimeHours <= r.totalPossibleHours
  {
    var percent := if possible != 0 then uptime / possible as real * 100.0 else 0.0;
    FractionBounds(uptime, possible as real, 100.0);
    PeriodReport((uptime / 60.0).Floor, ((possible as real - uptime) / 60.0).Floor, percent, possible / 60)
  }

  /** The last day before `nowUtc`, from the gap-filled buckets of `[nowUtc - 1 day, nowUtc]`. */
  method UptimeLastDay(nowUtc: int, zone: Zone, table: Table, fetch: BucketFetch) returns (r: PeriodReport)
    ensures var s := BucketTotals(GapFill(fetch(nowUtc - SecondsPerDay, nowUtc)), table, zone);
      r == BucketReport(s.0, s.1)
    ensures 0.0 <= r.uptimePercent <= 100.0
    ensures 0 <= r.uptimeHours <= r.totalPossibleHours && 0 <= r.downtimeHours
  {
    var rows := GapFill(fetch(nowUtc - SecondsPerDay, nowUtc));
    var possible, uptime := AccumulateBuckets(rows, table, zone);
    r := BucketReport(possible, uptime);
  }

  /** The last week before `nowUtc`, from the gap-filled buckets of `[nowUtc - 7 days, nowUtc]`. */
  method UptimeLastWeek(nowUtc: int, zone: Zone, table: Table, fetch: BucketFetch) returns (r: PeriodReport)
    ensures var s := BucketTotals(GapFill(fetch(nowUtc - DaysPerWeek * SecondsPerDay, nowUtc)), table, zone);
      r == BucketReport(s.0, s.1)
    ensures 0.0 <= r.uptimePercent <= 100.0
    ensures 0 <= r.uptimeHours <= r.totalPossibleHours && 0 <= r.downtimeHours
  {
    var rows := GapFill(fetch(nowUtc - DaysPerWeek * SecondsPerDay, nowUtc));
    var possible, uptime := AccumulateBuckets(rows, table, zone);
    r := BucketReport(possible, uptime);
  }
}
