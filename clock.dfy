/** Instants, times of day and weekdays.

    An instant is a whole number of seconds since midnight at the start of
    Monday 3 January 2000 (the reference Monday of the monitor), counted in the
    zone the instant is expressed in: a local instant counts local seconds, a
    UTC instant counts UTC seconds. The date of an instant is the day number
    `s / 86400` and its weekday is that number modulo 7, Monday being 0 as in
    Python's `weekday()`. Dafny's `/` and `%` round towards minus infinity for a
    positive divisor, as Python's date arithmetic does, so instants before the
    reference Monday need no special case. Sub-second precision is not kept. */
module Clock {
  const SecondsPerMinute: int := 60
  const SecondsPerHour: int := 3600
  const SecondsPerDay: int := 86400
  const DaysPerWeek: int := 7

  /** A local time of day (`datetime.time`), in seconds since midnight. */
  type TimeOfDay = t: int | 0 <= t < 86400

  /** A weekday, Monday = 0 .. Sunday = 6. */
  type Weekday = d: int | 0 <= d < 7

  /** The time of day `h:m:s`. */
  function At(h: int, m: int, s: int): (t: TimeOfDay)
    requires 0 <= h < 24 && 0 <= m < 60 && 0 <= s < 60
    ensures t / SecondsPerHour == h && t % SecondsPerHour == m * SecondsPerMinute + s
  {
    h * SecondsPerHour + m * SecondsPerMinute + s
  }

  /** Midnight at the start of the date of instant `s`. */
  function DayStart(s: int): (d: int)
    ensures d % SecondsPerDay == 0
    ensures d <= s < d + SecondsPerDay
  {
    (s / SecondsPerDay) * SecondsPerDay
  }

  /** The time of day of instant `s` (`s.time()`). */
  function TimeOf(s: int): (t: TimeOfDay)
    ensures DayStart(s) + t == s
  {
    s % SecondsPerDay
  }

  /** The weekday of instant `s` (`s.weekday()`). */
  function WeekdayOf(s: int): Weekday {
    (s / SecondsPerDay) % DaysPerWeek
  }

  /** `datetime.combine(s.date(), t)`: the instant at time of day `t` on the date of `s`. */
  function Combine(s: int, t: TimeOfDay): int {
    DayStart(s) + t
  }

  /** `t` with its seconds set to zero, as `replace(second=0)` leaves it. */
  function ZeroSeconds(t: TimeOfDay): (z: TimeOfDay)
    ensures z % SecondsPerMinute == 0
    ensures z <= t < z + SecondsPerMinute
  {
    t - t % SecondsPerMinute
  }

  /** A midnight-aligned `d` with `s` in the day that starts at `d` is the start of `s`'s day. */
  lemma DayStartUnique(s: int, d: int)
    requires d % SecondsPerDay == 0 && d <= s < d + SecondsPerDay
    ensures DayStart(s) == d
  {
    var j := d / SecondsPerDay;
    assert d == j * SecondsPerDay;
    var q := s / SecondsPerDay;
    assert q * SecondsPerDay <= s < q * SecondsPerDay + SecondsPerDay;
    assert j == q;
  }

  /** Moving an instant by whole days moves its date by as many days and keeps its time of day. */
  lemma ShiftByDays(s: int, k: int)
    ensures DayStart(s + k * SecondsPerDay) == DayStart(s) + k * SecondsPerDay
    ensures TimeOf(s + k * SecondsPerDay) == TimeOf(s)
  {
    DayStartUnique(s + k * SecondsPerDay, DayStart(s) + k * SecondsPerDay);
  }

  /** Moving an instant by whole weeks keeps its weekday and its time of day. */
  lemma ShiftByWeeks(s: int, k: int)
    ensures WeekdayOf(s + k * DaysPerWeek * SecondsPerDay) == WeekdayOf(s)
    ensures TimeOf(s + k * DaysPerWeek * SecondsPerDay) == TimeOf(s)
    ensures DayStart(s + k * DaysPerWeek * SecondsPerDay) == DayStart(s) + k * DaysPerWeek * SecondsPerDay
  {
    ShiftByDays(s, k * DaysPerWeek);
    var q := s / SecondsPerDay;
    var q' := (s + k * DaysPerWeek * SecondsPerDay) / SecondsPerDay;
    assert q' * SecondsPerDay == DayStart(s + k * DaysPerWeek * SecondsPerDay);
    assert q' == q + k * DaysPerWeek;
  }

  /** A fixed offset time zone: the local instant is the UTC instant plus `offset` seconds. */
  datatype Zone = Zone(offset: int) {
    function ToLocal(u: int): int { u + offset }
    function ToUtc(l: int): int { l - offset }
  }

  const Utc: Zone := Zone(0)

  /** Python's `round(secs / 60)`: the nearest whole minute, a tie going to the even one. */
  function RoundHalfEven(secs: int): (m: int)
    ensures -30 <= secs - m * SecondsPerMinute <= 30
    ensures secs - m * SecondsPerMinute == 30 || secs - m * SecondsPerMinute == -30 ==> m % 2 == 0
  {
    var q := secs / SecondsPerMinute;
    var rem := secs % SecondsPerMinute;
    if rem < 30 then q
    else if rem > 30 then q + 1
    else if q % 2 == 0 then q
    else q + 1
  }

  /** The two properties of `RoundHalfEven` single out its result: no other whole number has them. */
  lemma RoundHalfEvenUnique(secs: int, m: int)
    requires -30 <= secs - m * SecondsPerMinute <= 30
    requires secs - m * SecondsPerMinute == 30 || secs - m * SecondsPerMinute == -30 ==> m % 2 == 0
    ensures m == RoundHalfEven(secs)
  {
    var r := RoundHalfEven(secs);
    assert -60 <= (r - m) * SecondsPerMinute <= 60;
  }
}
