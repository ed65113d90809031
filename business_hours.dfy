/** The business-hours table of a store and the two ways the monitor intersects a
    span of local time with it (store_monitor/utils.py). */
module BusinessHours {
  import opened Clock

  /** One weekday's local opening hours. A close at or before the open marks an
      overnight shift that ends on the next day. */
  datatype Hours = Hours(open: TimeOfDay, close: TimeOfDay) {
    predicate Overnight() { close <= open }
  }

  /** A stored business-hour row: the weekday it is for and its local open and close. */
  datatype HourRule = HourRule(day: Weekday, start: TimeOfDay, end: TimeOfDay)

  /** The hours of a weekday that has no rule: 00:00 to 23:59. */
  const AllDay: Hours := Hours(0, 23 * 3600 + 59 * 60)

  /** The table of hours, indexed by weekday, Monday first. */
  type Table = t: seq<Hours> | |t| == 7
    witness [Hours(0, 86340), Hours(0, 86340), Hours(0, 86340), Hours(0, 86340),
             Hours(0, 86340), Hours(0, 86340), Hours(0, 86340)]

  function Max(a: int, b: int): int { if a < b then b else a }
  function Min(a: int, b: int): int { if a < b then a else b }

  // ---------------------------------------------------------------------------
  // get_business_hours

  /** The table that writing `rules` one after another over the all-day default gives. */
  function TableOf(rules: seq<HourRule>): (t: seq<Hours>)
    ensures |t| == 7
    decreases |rules|
  {
    if rules == [] then [AllDay, AllDay, AllDay, AllDay, AllDay, AllDay, AllDay]
    else
      var last := rules[|rules| - 1];
      TableOf(rules[..|rules| - 1])[last.day := Hours(last.start, last.end)]
  }

  /** Builds the table: every weekday starts at the all-day default and each rule
      overwrites the entry of its weekday. */
  method GetBusinessHours(rules: seq<HourRule>) returns (table: Table)
    ensures table == TableOf(rules)
  {
    table := [AllDay, AllDay, AllDay, AllDay, AllDay, AllDay, AllDay];
    var i := 0;
    while i < |rules|
      invariant 0 <= i <= |rules|
      invariant table == TableOf(rules[..i])
    {
      assert rules[..i + 1][..i] == rules[..i];
      table := table[rules[i].day := Hours(rules[i].start, rules[i].end)];
      i := i + 1;
    }
    assert rules[..i] == rules;
  }

  /** A weekday without a rule keeps the all-day default. */
  lemma {:induction false} DefaultWithoutRule(rules: seq<HourRule>, d: Weekday)
    requires forall k :: 0 <= k < |rules| ==> rules[k].day != d
    ensures TableOf(rules)[d] == AllDay
    decreases |rules|
  {
    if rules != [] {
      DefaultWithoutRule(rules[..|rules| - 1], d);
    }
  }

  /** The last rule for a weekday decides that weekday's entry; a rule touches no other entry. */
  lemma {:induction false} LastRuleWins(rules: seq<HourRule>, k: nat)
    requires k < |rules|
    requires forall j :: k < j < |rules| ==> rules[j].day != rules[k].day
    ensures TableOf(rules)[rules[k].day] == Hours(rules[k].start, rules[k].end)
    decreases |rules|
  {
    if k < |rules| - 1 {
      LastRuleWins(rules[..|rules| - 1], k);
    }
  }

  // ---------------------------------------------------------------------------
  // is_within_business_hours (utils.py): clip a span against the rules in list order

  /** The rule anchored on the local date of `startLocal`; an overnight rule's close
      is moved to the next day. */
  function ClipWindow(startLocal: int, h: Hours): (w: (int, int))
    ensures w.0 < w.1 <= w.0 + SecondsPerDay
    ensures DayStart(w.0) == DayStart(startLocal) && TimeOf(w.0) == h.open && TimeOf(w.1) == h.close
    ensures h.Overnight() <==> DayStart(w.1) == DayStart(startLocal) + SecondsPerDay
  {
    var open := Combine(startLocal, h.open);
    var close := Combine(startLocal, h.close);
    var w := (open, if h.Overnight() then close + SecondsPerDay else close);
    DayStartUnique(w.0, DayStart(startLocal));
    if h.Overnight() then
      DayStartUnique(w.1, DayStart(startLocal) + SecondsPerDay);
      w
    else
      DayStartUnique(w.1, DayStart(startLocal));
      w
  }

  /** The span clipped to a rule's window. */
  function ClipBounds(startLocal: int, endLocal: int, h: Hours): (int, int) {
    var w := ClipWindow(startLocal, h);
    (Max(startLocal, w.0), Min(endLocal, w.1))
  }

  /** The clipped span is not empty (a mere touch does not count). */
  predicate Overlaps(startLocal: int, endLocal: int, h: Hours) {
    ClipBounds(startLocal, endLocal, h).0 < ClipBounds(startLocal, endLocal, h).1
  }

  /** The 4-tuple of `is_within_business_hours`: `(False, None, None, 0)` or
      `(True, clipped start in UTC, clipped end in UTC, rounded minutes)`. */
  datatype Clip = NoOverlap | Overlap(startUtc: int, endUtc: int, minutes: int) {
    function Flag(): bool { Overlap? }
    function Minutes(): int { if Overlap? then minutes else 0 }
    function Shift(delta: int): Clip {
      if Overlap? then Overlap(startUtc + delta, endUtc + delta, minutes) else NoOverlap
    }
  }

  /** The clip a rule gives a span it overlaps. */
  function ClipBy(startLocal: int, endLocal: int, h: Hours, zone: Zone): (c: Clip)
    requires Overlaps(startLocal, endLocal, h)
    ensures c.Overlap?
    ensures startLocal <= zone.ToLocal(c.startUtc) < zone.ToLocal(c.endUtc) <= endLocal
    ensures ClipWindow(startLocal, h).0 <= zone.ToLocal(c.startUtc)
    ensures zone.ToLocal(c.endUtc) <= ClipWindow(startLocal, h).1
    ensures 0 <= c.minutes
    ensures -30 <= (c.endUtc - c.startUtc) - c.minutes * SecondsPerMinute <= 30
    ensures c.minutes == RoundHalfEven(c.endUtc - c.startUtc)
    ensures zone.ToLocal(c.startUtc) == Max(startLocal, ClipWindow(startLocal, h).0)
    ensures zone.ToLocal(c.endUtc) == Min(endLocal, ClipWindow(startLocal, h).1)
  {
    var b := ClipBounds(startLocal, endLocal, h);
    Overlap(zone.ToUtc(b.0), zone.ToUtc(b.1), RoundHalfEven(b.1 - b.0))
  }

  /** The list position of the first rule, from position `from` on, that overlaps the span;
      7 when there is none. */
  function FirstOverlapDay(startLocal: int, endLocal: int, table: Table, from: nat): (d: nat)
    requires from <= 7
    ensures from <= d <= 7
    ensures d < 7 ==> Overlaps(startLocal, endLocal, table[d])
    ensures forall j :: from <= j < d ==> !Overlaps(startLocal, endLocal, table[j])
    decreases 7 - from
  {
    if from == 7 then 7
    else if Overlaps(startLocal, endLocal, table[from]) then from
    else FirstOverlapDay(startLocal, endLocal, table, from + 1)
  }

  /** The result of clipping a span against the table: the clip by the first rule in list
      order that overlaps the span, or no overlap when no rule does. */
  function ClipSpan(startLocal: int, endLocal: int, table: Table, zone: Zone): (c: Clip)
    ensures startLocal >= endLocal ==> c == NoOverlap
    ensures c.Overlap? ==> 0 <= c.minutes
  {
    var d := FirstOverlapDay(startLocal, endLocal, table, 0);
    if d < 7 then ClipBy(startLocal, endLocal, table[d], zone) else NoOverlap
  }

  /** There is no clip exactly when no rule overlaps the span; otherwise the clip lies inside
      the span and inside the window of a rule that overlaps it, and every rule before that one
      in list order misses the span. */
  lemma ClipSpanFirstMatch(startLocal: int, endLocal: int, table: Table, zone: Zone)
    ensures ClipSpan(startLocal, endLocal, table, zone).NoOverlap?
        <==> forall d :: 0 <= d < 7 ==> !Overlaps(startLocal, endLocal, table[d])
    ensures ClipSpan(startLocal, endLocal, table, zone).Overlap? ==>
      var d := FirstOverlapDay(startLocal, endLocal, table, 0);
      && d < 7
      && (forall j :: 0 <= j < d ==> !Overlaps(startLocal, endLocal, table[j]))
      && ClipSpan(startLocal, endLocal, table, zone) == ClipBy(startLocal, endLocal, table[d], zone)
  {
  }

  /** One pass of the search: puts rule `h` on the span's date, moves an overnight close to
      the next day, and clips the span to it; `found` tells whether the clip is non-empty. */
  method ClipRule(startLocal: int, endLocal: int, h: Hours, zone: Zone) returns (found: bool, c: Clip)
    ensures found <==> Overlaps(startLocal, endLocal, h)
    ensures found ==> c == ClipBy(startLocal, endLocal, h, zone)
  {
    var open := Combine(startLocal, h.open);
    var close := Combine(startLocal, h.close);
    if h.close <= h.open {
      close := close + SecondsPerDay;
    }
    var lo := Max(startLocal, open);
    var hi := Min(endLocal, close);
    assert (lo, hi) == ClipBounds(startLocal, endLocal, h);
    found := lo < hi;
    c := if found then Overlap(zone.ToUtc(lo), zone.ToUtc(hi), RoundHalfEven(hi - lo)) else NoOverlap;
  }

  /** The first overlapping rule is `i` when rule `i` overlaps and no earlier rule does. */
  lemma FirstOverlapDayIs(startLocal: int, endLocal: int, table: Table, i: nat)
    requires i < 7
    requires forall j :: 0 <= j < i ==> !Overlaps(startLocal, endLocal, table[j])
    requires Overlaps(startLocal, endLocal, table[i])
    ensures FirstOverlapDay(startLocal, endLocal, table, 0) == i
  {
  }

  /** Tries the rules in list order, Monday's first, whatever the weekday of the
      span, and returns the clip of the first one that overlaps it. */
  method IsWithinBusinessHours(startLocal: int, endLocal: int, table: Table, zone: Zone) returns (c: Clip)
    ensures c == ClipSpan(startLocal, endLocal, table, zone)
  {
    var i := 0;
    while i < |table|
      invariant 0 <= i <= 7
      invariant forall j :: 0 <= j < i ==> !Overlaps(startLocal, endLocal, table[j])
    {
      var found, clip := ClipRule(startLocal, endLocal, table[i], zone);
      if found {
        FirstOverlapDayIs(startLocal, endLocal, table, i);
        return clip;
      }
      i := i + 1;
    }
    return NoOverlap;
  }

  /** Moving the span by whole days moves each rule's window with it. */
  lemma ClipWindowShift(startLocal: int, h: Hours, k: int)
    ensures ClipWindow(startLocal + k * SecondsPerDay, h).0 == ClipWindow(startLocal, h).0 + k * SecondsPerDay
    ensures ClipWindow(startLocal + k * SecondsPerDay, h).1 == ClipWindow(startLocal, h).1 + k * SecondsPerDay
  {
    ShiftByDays(startLocal, k);
  }

  lemma {:induction false} FirstOverlapDayShift(startLocal: int, endLocal: int, table: Table, k: int, from: nat)
    requires from <= 7
    ensures FirstOverlapDay(startLocal + k * SecondsPerDay, endLocal + k * SecondsPerDay, table, from)
         == FirstOverlapDay(startLocal, endLocal, table, from)
    decreases 7 - from
  {
    if from < 7 {
      ClipWindowShift(startLocal, table[from], k);
      FirstOverlapDayShift(startLocal, endLocal, table, k, from + 1);
    }
  }

  /** Moving the span by whole days moves a rule's clip with it and keeps its minutes. */
  lemma ClipByShift(startLocal: int, endLocal: int, h: Hours, zone: Zone, k: int)
    requires Overlaps(startLocal, endLocal, h)
    ensures Overlaps(startLocal + k * SecondsPerDay, endLocal + k * SecondsPerDay, h)
    ensures ClipBy(startLocal + k * SecondsPerDay, endLocal + k * SecondsPerDay, h, zone)
         == ClipBy(startLocal, endLocal, h, zone).Shift(k * SecondsPerDay)
  {
    var delta := k * SecondsPerDay;
    ClipWindowShift(startLocal, h, k);
    var b := ClipBounds(startLocal, endLocal, h);
    var b' := ClipBounds(startLocal + delta, endLocal + delta, h);
    assert b'.0 == b.0 + delta && b'.1 == b.1 + delta;
    assert b'.1 - b'.0 == b.1 - b.0;
  }

  /** The weekday of the span plays no part: moving the span by whole days moves the clip
      with it and keeps its minutes. */
  lemma ClipIgnoresWeekday(startLocal: int, endLocal: int, table: Table, zone: Zone, k: int)
    ensures ClipSpan(startLocal + k * SecondsPerDay, endLocal + k * SecondsPerDay, table, zone)
         == ClipSpan(startLocal, endLocal, table, zone).Shift(k * SecondsPerDay)
  {
    FirstOverlapDayShift(startLocal, endLocal, table, k, 0);
    var d := FirstOverlapDay(startLocal, endLocal, table, 0);
    if d < 7 {
      ClipByShift(startLocal, endLocal, table[d], zone, k);
    }
  }

  // ---------------------------------------------------------------------------
  // get_max_possible_uptime: the rule of the start's own weekday

  /** `[business_start_dt, business_end_dt]`: the rule of `startLocal`'s weekday put on its date
      with the seconds zeroed; for an overnight rule the close always moves to the next day, and
      the open moves back a day as well when the start is earlier in the day than the close. */
  function BusinessWindow(startLocal: int, h: Hours): (w: (int, int))
    ensures TimeOf(w.0) == ZeroSeconds(h.open) && TimeOf(w.1) == ZeroSeconds(h.close)
    ensures !h.Overnight() ==> DayStart(w.0) == DayStart(startLocal) && DayStart(w.1) == DayStart(startLocal)
    ensures h.Overnight() ==> DayStart(w.1) == DayStart(startLocal) + SecondsPerDay
    ensures h.Overnight() && h.close <= TimeOf(startLocal) ==> DayStart(w.0) == DayStart(startLocal)
    ensures h.Overnight() && TimeOf(startLocal) < h.close ==> DayStart(w.0) == DayStart(startLocal) - SecondsPerDay
  {
    var d := DayStart(startLocal);
    var open := Combine(startLocal, ZeroSeconds(h.open));
    var close := Combine(startLocal, ZeroSeconds(h.close));
    if h.close <= h.open then
      DayStartUnique(close + SecondsPerDay, d + SecondsPerDay);
      if TimeOf(startLocal) < h.close then
        DayStartUnique(open - SecondsPerDay, d - SecondsPerDay);
        (open - SecondsPerDay, close + SecondsPerDay)
      else
        DayStartUnique(open, d);
        (open, close + SecondsPerDay)
    else
      DayStartUnique(open, d);
      DayStartUnique(close, d);
      (open, close)
  }

  /** The span `[startLocal, endLocal]` clipped to the business window of its start. */
  function MaxBounds(startLocal: int, endLocal: int, table: Table): (int, int) {
    var w := BusinessWindow(startLocal, table[WeekdayOf(startLocal)]);
    (Max(startLocal, w.0), Min(endLocal, w.1))
  }

  /** The unrounded minutes of business time in `[startUtc, endUtc]`, by the rule of the
      local weekday of the start. */
  function MaxPossibleUptime(startUtc: int, endUtc: int, table: Table, zone: Zone): (r: real)
    ensures 0.0 <= r
    ensures r > 0.0 <==> MaxBounds(zone.ToLocal(startUtc), zone.ToLocal(endUtc), table).0
                         < MaxBounds(zone.ToLocal(startUtc), zone.ToLocal(endUtc), table).1
    ensures startUtc >= endUtc ==> r == 0.0
    ensures r * 60.0 <= Max(0, endUtc - startUtc) as real
  {
    var b := MaxBounds(zone.ToLocal(startUtc), zone.ToLocal(endUtc), table);
    if b.0 < b.1 then (b.1 - b.0) as real / 60.0 else 0.0
  }

  /** The estimate repeats every week: moving the span by whole weeks leaves it unchanged. */
  lemma MaxPossibleUptimeWeekly(startUtc: int, endUtc: int, table: Table, zone: Zone, k: int)
    ensures MaxPossibleUptime(startUtc + k * DaysPerWeek * SecondsPerDay, endUtc + k * DaysPerWeek * SecondsPerDay, table, zone)
         == MaxPossibleUptime(startUtc, endUtc, table, zone)
  {
    ShiftByWeeks(zone.ToLocal(startUtc), k);
    assert zone.ToLocal(startUtc + k * DaysPerWeek * SecondsPerDay) == zone.ToLocal(startUtc) + k * DaysPerWeek * SecondsPerDay;
  }

  /** Under the all-day default a span that ends by 23:59 of the local date it starts on is
      business time throughout. */
  lemma AllDayCoversSpan(startUtc: int, endUtc: int, table: Table, zone: Zone)
    requires table[WeekdayOf(zone.ToLocal(startUtc))] == AllDay
    requires startUtc < endUtc
    requires zone.ToLocal(endUtc) <= DayStart(zone.ToLocal(startUtc)) + At(23, 59, 0)
    ensures MaxPossibleUptime(startUtc, endUtc, table, zone) * 60.0 == (endUtc - startUtc) as real
  {
  }

  /** An overnight rule, for a span that starts after its open: business time runs until the
      close on the next day (a 23:00 to 01:00 span under 22:00 to 06:00 counts in full). */
  lemma OvernightLateStart(startUtc: int, endUtc: int, table: Table, zone: Zone)
    requires table[WeekdayOf(zone.ToLocal(startUtc))].Overnight()
    requires table[WeekdayOf(zone.ToLocal(startUtc))].open <= TimeOf(zone.ToLocal(startUtc))
    requires startUtc < endUtc
    requires zone.ToLocal(endUtc) <= DayStart(zone.ToLocal(startUtc)) + SecondsPerDay + ZeroSeconds(table[WeekdayOf(zone.ToLocal(startUtc))].close)
    ensures MaxPossibleUptime(startUtc, endUtc, table, zone) * 60.0 == (endUtc - startUtc) as real
  {
  }

  /** An overnight rule, for a span that starts before its close: the open moves back a day
      and the close still moves forward a day, so the window is the previous day's open to the
      next day's close, and the hours between this day's close and open count as business time
      too (05:30 to 06:30 under 22:00 to 06:00 counts a full hour). */
  lemma OvernightEarlyStart(startUtc: int, endUtc: int, table: Table, zone: Zone)
    requires table[WeekdayOf(zone.ToLocal(startUtc))].Overnight()
    requires TimeOf(zone.ToLocal(startUtc)) < table[WeekdayOf(zone.ToLocal(startUtc))].close
    requires startUtc < endUtc
    requires zone.ToLocal(endUtc) <= DayStart(zone.ToLocal(startUtc)) + SecondsPerDay + ZeroSeconds(table[WeekdayOf(zone.ToLocal(startUtc))].close)
    ensures MaxPossibleUptime(startUtc, endUtc, table, zone) * 60.0 == (endUtc - startUtc) as real
  {
  }

  /** The overlap minutes are the unrounded length, in minutes, of the span clipped to the
      business window of its start, and 0 when the clipped span is empty. */
  lemma MaxPossibleUptimeIsOverlap(startUtc: int, endUtc: int, table: Table, zone: Zone)
    ensures var b := MaxBounds(zone.ToLocal(startUtc), zone.ToLocal(endUtc), table);
      MaxPossibleUptime(startUtc, endUtc, table, zone) * 60.0 == Max(0, b.1 - b.0) as real
  {
  }

  /** Under an overnight rule, a span that starts at or after the close and ends by the open
      of the same day lies in the closed gap and gives 0. */
  lemma OvernightGapIsClosed(startUtc: int, endUtc: int, table: Table, zone: Zone)
    requires table[WeekdayOf(zone.ToLocal(startUtc))].Overnight()
    requires table[WeekdayOf(zone.ToLocal(startUtc))].close <= TimeOf(zone.ToLocal(startUtc))
    requires zone.ToLocal(endUtc) <= DayStart(zone.ToLocal(startUtc)) + ZeroSeconds(table[WeekdayOf(zone.ToLocal(startUtc))].open)
    ensures MaxPossibleUptime(startUtc, endUtc, table, zone) == 0.0
  {
  }

  /** A same-day rule gives nothing to a span that starts at or after its close, even when the
      span runs into the next day's hours: only the start's weekday is consulted. */
  lemma AfterCloseIsClosed(startUtc: int, endUtc: int, table: Table, zone: Zone)
    requires !table[WeekdayOf(zone.ToLocal(startUtc))].Overnight()
    requires ZeroSeconds(table[WeekdayOf(zone.ToLocal(startUtc))].close) <= TimeOf(zone.ToLocal(startUtc))
    ensures MaxPossibleUptime(startUtc, endUtc, table, zone) == 0.0
  {
  }
}
