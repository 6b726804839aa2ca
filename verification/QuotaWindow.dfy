/** Calendar quota windows: local midnight by fixed-point iteration, and the day, Monday-based week and
    month windows cut by it. */
module QuotaWindow {
  import opened Outcomes
  import opened Civil
  import LocalDateTime

  type Zone = LocalDateTime.Zone

  datatype PeriodType = CalendarDay | CalendarWeek | CalendarMonth | FixedWindow | Lifetime | Unknown

  datatype Window = Window(start: int, end: Option<int>)

  datatype WindowError = InvalidFixedWindow

  function LocalDate(off: Zone, t: int): (d: Date)
    ensures ValidDate(d) && DayNumber(d) == (t + off(t)) / DAY
  {
    PartsOf(t + off(t)).date
  }

  // ---- local midnight --------------------------------------------------------------------------

  /** `Date.UTC` of a date: the instant at which a clock in UTC shows its midnight. */
  function Target(d: Date): int { DayNumber(d) * DAY }

  function Represented(off: Zone, t: int): int { UtcValue(PartsOf(t + off(t))) }

  function Iterate(off: Zone, target: int, attempts: nat): int {
    if attempts == 0 then target
    else
      var c := Iterate(off, target, attempts - 1);
      c + (target - Represented(off, c))
  }

  function Midnight(off: Zone, d: Date): int { Iterate(off, Target(d), 4) }

  method LocalMidnight(d: Date, off: Zone) returns (candidate: int)
    ensures candidate == Midnight(off, d)
  {
    hide Represented, Target;
    var target := Target(d);
    candidate := target;
    for attempt := 0 to 4
      invariant candidate == Iterate(off, target, attempt)
    {
      candidate := candidate + (target - Represented(off, candidate));
    }
  }

  /** Near `target` the zone has offset `before` up to instant `change` and `after` from it on. The
      change may lie outside the four days, in which case there is only one offset. */
  ghost predicate OneChange(off: Zone, target: int, change: int, before: int, after: int) {
    && -DAY < before < DAY && -DAY < after < DAY
    && (forall t :: target - 2 * DAY <= t <= target + 2 * DAY ==> off(t) == if t < change then before else after)
  }

  /** Exactly the instants before `m` show a wall time before `target`. */
  ghost predicate Splits(off: Zone, target: int, m: int) {
    forall t :: t < m <==> t + off(t) < target
  }

  /** The wall time `target` is shown before the change, after it, or at neither. */
  predicate ShownBefore(target: int, change: int, before: int) { target - before < change }

  predicate ShownAfter(target: int, change: int, after: int) { target - after >= change }

  /** When the iteration finds the instant that separates two days: the midnight is shown exactly once,
      or the clock jumps forward from exactly midnight with a non-negative offset before the jump, or it
      falls back to exactly midnight with a negative offset after it. */
  predicate SplitCondition(target: int, change: int, before: int, after: int) {
    || ShownBefore(target, change, before) != ShownAfter(target, change, after)
    || (&& !ShownBefore(target, change, before) && !ShownAfter(target, change, after)
        && target == change + before && before >= 0)
    || (&& ShownBefore(target, change, before) && ShownAfter(target, change, after)
        && target == change + after && after < 0)
  }

  lemma RepresentedWhole(off: Zone, t: int)
    requires LocalDateTime.ValidZone(off) && t % SECOND == 0
    ensures Represented(off, t) == t + off(t)
  {
    hide UtcValue, PartsOf, ValidParts, DayNumber;
    assert off(t) % SECOND == 0;
    LocalDateTime.SecondsAdd(t, off(t));
  }

  /** One step of the iteration on whole seconds. */
  lemma IterateStep(off: Zone, target: int, attempts: nat)
    requires LocalDateTime.ValidZone(off) && target % SECOND == 0
    ensures Iterate(off, target, attempts) % SECOND == 0
    ensures Iterate(off, target, attempts + 1) == target - off(Iterate(off, target, attempts))
  {
    hide Represented;
    if attempts > 0 {
      IterateStep(off, target, attempts - 1);
      var b := Iterate(off, target, attempts - 1);
      assert off(b) % SECOND == 0;
      LocalDateTime.SecondsAdd(target, off(b));
    }
    RepresentedWhole(off, Iterate(off, target, attempts));
  }

  lemma TargetWholeSecond(d: Date)
    ensures Target(d) % SECOND == 0
  {
    hide DayNumber;
    assert Target(d) == (DayNumber(d) * 86_400) * 1_000;
  }

  /** Where four steps land, in every position of the change. */
  lemma FourSteps(off: Zone, target: int, change: int, before: int, after: int)
    requires LocalDateTime.ValidZone(off) && target % SECOND == 0
    requires OneChange(off, target, change, before, after)
    ensures var m := Iterate(off, target, 4);
      var early, late := ShownBefore(target, change, before), ShownAfter(target, change, after);
      && (early && !late ==> m == target - before)
      && (!early && late ==> m == target - after)
      && (early && late ==> m == if target < change then target - before else target - after)
      && (!early && !late ==> m == if target < change then target - after else target - before)
  {
    hide Iterate;
    IterateStep(off, target, 0);
    IterateStep(off, target, 1);
    IterateStep(off, target, 2);
    IterateStep(off, target, 3);
    IterateStart(off, target);
  }

  lemma IterateStart(off: Zone, target: int)
    ensures Iterate(off, target, 0) == target
  {
  }

  /** The result shows the requested midnight exactly when some instant does. */
  lemma LandsOnMidnight(off: Zone, d: Date, change: int, before: int, after: int)
    requires LocalDateTime.ValidZone(off) && OneChange(off, Target(d), change, before, after)
    ensures var m := Midnight(off, d);
      m + off(m) == Target(d) <==> exists t :: t + off(t) == Target(d)
  {
    hide Target, Iterate;
    TargetWholeSecond(d);
    FourSteps(off, Target(d), change, before, after);
    var m := Midnight(off, d);
    if t :| t + off(t) == Target(d) {
      assert -DAY < off(t) < DAY;
    }
  }

  /** The iteration separates the two days exactly under `SplitCondition`. */
  lemma SplitsExactly(off: Zone, d: Date, change: int, before: int, after: int)
    requires LocalDateTime.ValidZone(off) && OneChange(off, Target(d), change, before, after)
    ensures Splits(off, Target(d), Midnight(off, d)) <==> SplitCondition(Target(d), change, before, after)
  {
    hide Target, Iterate;
    TargetWholeSecond(d);
    FourSteps(off, Target(d), change, before, after);
    if SplitCondition(Target(d), change, before, after) {
      SplitsWhen(off, Target(d), Midnight(off, d), change, before, after);
    } else {
      SplitsFails(off, Target(d), Midnight(off, d), change, before, after);
    }
  }

  lemma SplitsWhen(off: Zone, target: int, m: int, change: int, before: int, after: int)
    requires LocalDateTime.ValidZone(off) && OneChange(off, target, change, before, after)
    requires SplitCondition(target, change, before, after)
    requires m == if ShownBefore(target, change, before) != ShownAfter(target, change, after)
                  then (if ShownBefore(target, change, before) then target - before else target - after)
                  else target - before
    ensures Splits(off, target, m)
  {
    forall t ensures t < m <==> t + off(t) < target {
      assert -DAY < off(t) < DAY;
    }
  }

  lemma SplitsFails(off: Zone, target: int, m: int, change: int, before: int, after: int)
    requires OneChange(off, target, change, before, after)
    requires !SplitCondition(target, change, before, after)
    requires ShownBefore(target, change, before) ==> m == if target < change then target - before else target - after
    requires !ShownBefore(target, change, before) ==> m == if target < change then target - after else target - before
    ensures !Splits(off, target, m)
  {
    var early := ShownBefore(target, change, before);
    // An instant on the wrong side: the first showing, the change itself, or the instant before it.
    var t := if early then (if target < change then change else target - before)
             else if target < change then target - after
             else change;
    assert off(t) == if t < change then before else after;
    assert !(t < m <==> t + off(t) < target);
  }

  // ---- periods ---------------------------------------------------------------------------------

  function AddDays(d: Date, days: int): (r: Date)
    ensures ValidDate(r) && DayNumber(r) == DayNumber(d) + days
  {
    MakeDayAdd(d.year, d.month, d.day, days);
    DateOf(MakeDay(d.year, d.month, d.day + days))
  }

  lemma MakeDayAdd(year: int, month: int, day: int, days: int)
    ensures MakeDay(year, month, day + days) == MakeDay(year, month, day) + days
  {
    hide DaysBeforeYear, DaysBeforeMonth;
  }

  /** `getUTCDay`: 1970-01-01 was a Thursday. */
  function Weekday(d: Date): int { (DayNumber(d) + 4) % 7 }

  function StartDate(period: PeriodType, d: Date): Date {
    match period
    case CalendarWeek => AddDays(d, -((Weekday(d) + 6) % 7))
    case CalendarMonth => d.(day := 1)
    case _ => d
  }

  function EndDate(period: PeriodType, start: Date): Date {
    match period
    case CalendarDay => AddDays(start, 1)
    case CalendarWeek => AddDays(start, 7)
    case _ => if start.month == 12 then Date(start.year + 1, 1, 1) else Date(start.year, start.month + 1, 1)
  }

  function PeriodWindow(period: PeriodType, off: Zone, now: int, fixed: Option<(int, int)>): Result<Window, WindowError> {
    match period
    case Lifetime => Ok(Window(now, None))
    case FixedWindow =>
      if fixed == None || fixed.value.0 >= fixed.value.1 then Err(InvalidFixedWindow)
      else Ok(Window(fixed.value.0, Some(fixed.value.1)))
    case _ =>
      var start := StartDate(period, LocalDate(off, now));
      Ok(Window(Midnight(off, start), Some(Midnight(off, EndDate(period, start)))))
  }

  /** The windows that are not cut from the calendar: a lifetime from `now` on, and a fixed window given with
      its ends in order. */
  lemma GivenWindows(off: Zone, now: int, fixed: Option<(int, int)>)
    ensures PeriodWindow(Lifetime, off, now, fixed) == Ok(Window(now, None))
    ensures PeriodWindow(FixedWindow, off, now, fixed).Ok? <==> fixed.Some? && fixed.value.0 < fixed.value.1
    ensures PeriodWindow(FixedWindow, off, now, fixed).Ok? ==>
      PeriodWindow(FixedWindow, off, now, fixed).value == Window(fixed.value.0, Some(fixed.value.1))
  {
  }

  predicate IsCalendar(period: PeriodType) {
    period == CalendarDay || period == CalendarWeek || period == CalendarMonth
  }

  /** The day number of the Monday on or before day `n`. */
  function Monday(n: int): int { n - (n + 3) % 7 }

  lemma MondayWeek(n: int)
    ensures Monday(n) <= n < Monday(n) + 7
    ensures Monday(Monday(n) + 7) == Monday(n) + 7
    ensures n - ((n + 4) % 7 + 6) % 7 == Monday(n)
  {
    var q, r := (n + 3) / 7, (n + 3) % 7;
    assert n + 3 == 7 * q + r;
    assert Monday(n) + 7 + 3 == 7 * (q + 1);
    if r == 6 { assert n + 4 == 7 * (q + 1); } else { assert n + 4 == 7 * q + (r + 1); }
  }

  lemma MondayUnique(n: int, k: int)
    requires Monday(n) <= k < Monday(n) + 7
    ensures Monday(k) == Monday(n)
  {
    var q := (n + 3) / 7;
    assert k + 3 == 7 * q + (k - Monday(n));
  }

  lemma WeekDates(d: Date)
    ensures DayNumber(StartDate(CalendarWeek, d)) == Monday(DayNumber(d))
    ensures DayNumber(EndDate(CalendarWeek, StartDate(CalendarWeek, d))) == Monday(DayNumber(d)) + 7
    ensures ValidDate(StartDate(CalendarWeek, d))
  {
    hide DayNumber, ValidDate;
    MondayWeek(DayNumber(d));
  }

  /** The dates of a period: it starts on or before the date, ends after it, and both ends are dates. */
  lemma PeriodContains(period: PeriodType, d: Date)
    requires IsCalendar(period) && ValidDate(d)
    ensures var s := StartDate(period, d); var e := EndDate(period, s);
      ValidDate(s) && ValidDate(e) && DayNumber(s) <= DayNumber(d) < DayNumber(e)
  {
    hide DayNumber, DaysInMonth, Monday;
    var s := StartDate(period, d);
    var e := EndDate(period, s);
    match period
    case CalendarDay =>
    case CalendarWeek => WeekDates(d); MondayWeek(DayNumber(d));
    case CalendarMonth =>
      if d != s { DayNumberMonotone(s, d); }
      DayNumberMonotone(d, e);
  }

  /** Every date inside a period has the same period. */
  lemma PeriodUnique(period: PeriodType, d: Date, k: Date)
    requires IsCalendar(period) && ValidDate(d) && ValidDate(k)
    requires var s := StartDate(period, d); DayNumber(s) <= DayNumber(k) < DayNumber(EndDate(period, s))
    ensures StartDate(period, k) == StartDate(period, d)
  {
    hide DayNumber, DaysInMonth, Monday, Weekday, AddDays;
    PeriodContains(period, d);
    var s := StartDate(period, d);
    var e := EndDate(period, s);
    match period
    case CalendarDay =>
      DayNumberInjective(d, k);
    case CalendarWeek =>
      WeekDates(d);
      WeekDates(k);
      MondayUnique(DayNumber(d), DayNumber(k));
      DayNumberInjective(StartDate(period, k), s);
    case CalendarMonth =>
      BetweenDates(s, k, e);
      SameMonth(s, k);
  }

  lemma BetweenDates(s: Date, k: Date, e: Date)
    requires ValidDate(s) && ValidDate(k) && ValidDate(e)
    requires DayNumber(s) <= DayNumber(k) < DayNumber(e)
    ensures !DateLess(k, s) && DateLess(k, e)
  {
    hide DayNumber, ValidDate;
    if DateLess(k, s) { DayNumberMonotone(k, s); }
    if DateLess(e, k) { DayNumberMonotone(e, k); }
  }

  lemma SameMonth(s: Date, k: Date)
    requires s.day == 1 && 1 <= k.month <= 12 && k.day >= 1
    requires !DateLess(k, s) && DateLess(k, EndDate(CalendarMonth, s))
    ensures k.(day := 1) == s
  {
  }

  /** A date on or after a period's start has its own start on or after it. */
  lemma StartsAfter(period: PeriodType, e: Date, k: Date)
    requires IsCalendar(period) && ValidDate(e) && ValidDate(k)
    requires StartDate(period, e) == e && DayNumber(e) <= DayNumber(k)
    ensures DayNumber(e) <= DayNumber(StartDate(period, k))
  {
    hide DayNumber, StartDate, EndDate, ValidDate;
    PeriodContains(period, k);
    if DayNumber(StartDate(period, k)) < DayNumber(e) { PeriodUnique(period, k, e); }
  }

  /** A period's end starts the next one. */
  lemma PeriodNext(period: PeriodType, d: Date)
    requires IsCalendar(period) && ValidDate(d)
    ensures var e := EndDate(period, StartDate(period, d)); StartDate(period, e) == e
  {
    hide DayNumber, DaysInMonth, Monday, Weekday, AddDays;
    PeriodContains(period, d);
    var e := EndDate(period, StartDate(period, d));
    if period == CalendarWeek {
      WeekDates(d);
      WeekDates(e);
      MondayWeek(DayNumber(d));
      DayNumberInjective(StartDate(period, e), e);
    }
  }

  ghost predicate SplitsAt(off: Zone, d: Date) { Splits(off, Target(d), Midnight(off, d)) }

  /** An instant on or after a boundary has a local date on or after it, and conversely. */
  lemma BoundaryDates(off: Zone, d: Date, t: int)
    requires SplitsAt(off, d)
    ensures t < Midnight(off, d) <==> DayNumber(LocalDate(off, t)) < DayNumber(d)
  {
    hide DayNumber, Iterate;
    DayFloor(t + off(t), DayNumber(d));
    assert t < Midnight(off, d) <==> t + off(t) < Target(d);
  }

  lemma DayFloor(v: int, n: int)
    ensures v / DAY < n <==> v < n * DAY
  {
  }

  /** The window of `now` contains it, is the window of every instant inside it, and ends where the
      window of its end begins. */
  ghost predicate Partitions(period: PeriodType, off: Zone, now: int)
    requires IsCalendar(period)
  {
    var w := PeriodWindow(period, off, now, None).value;
    && w.end.Some? && w.start <= now < w.end.value
    && (forall t :: w.start <= t < w.end.value ==> PeriodWindow(period, off, t, None) == Ok(w))
    && PeriodWindow(period, off, w.end.value, None).value.start == w.end.value
  }

  /** Calendar windows partition time wherever the iteration separates days at the boundaries in
      question. */
  lemma WindowPartition(period: PeriodType, off: Zone, now: int)
    requires IsCalendar(period)
    requires var s := StartDate(period, LocalDate(off, now));
      var e := EndDate(period, s);
      SplitsAt(off, s) && SplitsAt(off, e) && SplitsAt(off, StartDate(period, LocalDate(off, Midnight(off, e))))
    ensures Partitions(period, off, now)
  {
    hide DayNumber, Midnight, LocalDate, StartDate, EndDate;
    var d := LocalDate(off, now);
    var s := StartDate(period, d);
    var e := EndDate(period, s);
    PeriodContains(period, d);
    BoundaryDates(off, s, now);
    BoundaryDates(off, e, now);
    forall t | Midnight(off, s) <= t < Midnight(off, e)
      ensures StartDate(period, LocalDate(off, t)) == s
    {
      BoundaryDates(off, s, t);
      BoundaryDates(off, e, t);
      PeriodUnique(period, d, LocalDate(off, t));
    }
    PeriodNext(period, d);
    var k := LocalDate(off, Midnight(off, e));
    BoundaryDates(off, e, Midnight(off, e));
    StartsAfter(period, e, k);
    PeriodContains(period, k);
    SameBoundary(off, e, StartDate(period, k));
  }

  /** Two boundaries with no date between the first and its own instant's period coincide. */
  lemma SameBoundary(off: Zone, e: Date, s: Date)
    requires SplitsAt(off, e) && SplitsAt(off, s)
    requires DayNumber(e) <= DayNumber(s) <= DayNumber(LocalDate(off, Midnight(off, e)))
    ensures Midnight(off, s) == Midnight(off, e)
  {
    hide DayNumber, Midnight, LocalDate, SplitsAt;
    BoundaryDates(off, s, Midnight(off, e));
    BoundaryDates(off, s, Midnight(off, s));
    BoundaryDates(off, e, Midnight(off, s));
  }

  ghost predicate Shows(off: Zone, d: Date, t: int) { t + off(t) == Target(d) }

  /** Midnight of `d` is shown at exactly one instant, and the offset changes at most once within two
      days of it. */
  ghost predicate PlainMidnight(off: Zone, d: Date) {
    && (exists change, before, after :: OneChange(off, Target(d), change, before, after))
    && (exists t :: Shows(off, d, t) && forall u :: Shows(off, d, u) ==> u == t)
  }

  /** The iteration lands exactly on a plain midnight, which separates the days. */
  lemma PlainMidnightFound(off: Zone, d: Date)
    requires LocalDateTime.ValidZone(off) && PlainMidnight(off, d)
    ensures Shows(off, d, Midnight(off, d)) && SplitsAt(off, d)
  {
    hide Target, Iterate, Splits;
    var change, before, after :| OneChange(off, Target(d), change, before, after);
    var t :| Shows(off, d, t) && forall u :: Shows(off, d, u) ==> u == t;
    var x, y := Target(d) - before, Target(d) - after;
    assert ShownBefore(Target(d), change, before) ==> Shows(off, d, x);
    assert ShownAfter(Target(d), change, after) ==> Shows(off, d, y);
    assert -DAY < off(t) < DAY;
    LandsOnMidnight(off, d, change, before, after);
    SplitsExactly(off, d, change, before, after);
  }

  /** The partition in terms of the zone alone: the two boundary midnights are plain. */
  lemma PlainWindowPartition(period: PeriodType, off: Zone, now: int)
    requires LocalDateTime.ValidZone(off) && IsCalendar(period)
    requires var s := StartDate(period, LocalDate(off, now));
      PlainMidnight(off, s) && PlainMidnight(off, EndDate(period, s))
    ensures Partitions(period, off, now)
  {
    hide DayNumber, Midnight, StartDate, EndDate, PlainMidnight, Partitions, LocalDate, SplitsAt;
    var d := LocalDate(off, now);
    var s := StartDate(period, d);
    var e := EndDate(period, s);
    PlainMidnightFound(off, s);
    PlainMidnightFound(off, e);
    PeriodContains(period, d);
    PeriodNext(period, d);
    ShownDate(off, e, Midnight(off, e));
    WindowPartition(period, off, now);
  }

  lemma ShownDate(off: Zone, d: Date, t: int)
    requires ValidDate(d) && Shows(off, d, t)
    ensures LocalDate(off, t) == d
  {
    hide DayNumber;
    assert (t + off(t)) / DAY == DayNumber(d) by { DayFloor(t + off(t), DayNumber(d)); DayFloor(t + off(t), DayNumber(d) + 1); }
    DayNumberInjective(LocalDate(off, t), d);
  }

  /** In a zone that changes once, a midnight is plain exactly when it is shown on one side of the change
      only. */
  lemma ChangeZonePlain(d: Date, change: int, before: int, after: int)
    requires -DAY < before < DAY && -DAY < after < DAY
    ensures var off := LocalDateTime.ChangeZone(change, before, after);
      PlainMidnight(off, d) <==> ShownBefore(Target(d), change, before) != ShownAfter(Target(d), change, after)
  {
    hide Target;
    var off := LocalDateTime.ChangeZone(change, before, after);
    assert OneChange(off, Target(d), change, before, after);
    var x, y := Target(d) - before, Target(d) - after;
    assert forall t :: Shows(off, d, t) <==> (t == x && x < change) || (t == y && y >= change);
    assert x < change ==> Shows(off, d, x);
    assert y >= change ==> Shows(off, d, y);
  }

  /** A zone west of Greenwich, such as one at UTC-3, that skips the first hour of `d`. */
  function SkippedMidnightZone(d: Date): Zone {
    LocalDateTime.ChangeZone(Target(d) + 3 * HOUR, -3 * HOUR, -2 * HOUR)
  }

  /** In such a zone the window of the last half hour before the skipped midnight has already ended. */
  lemma SkippedMidnightLosesNow(d: Date)
    requires ValidDate(d)
    ensures var off := SkippedMidnightZone(d);
      var now := Target(d) + 2 * HOUR + 30 * MINUTE;
      && LocalDateTime.ValidZone(off)
      && PeriodWindow(CalendarDay, off, now, None).value.end == Some(Target(d) + 2 * HOUR)
  {
    hide DayNumber, Iterate, Target, LocalDate, SkippedMidnightZone;
    var off := SkippedMidnightZone(d);
    var now := Target(d) + 2 * HOUR + 30 * MINUTE;
    TargetWholeSecond(d);
    SkippedMidnightZoneValid(d);
    FourSteps(off, Target(d), Target(d) + 3 * HOUR, -3 * HOUR, -2 * HOUR);
    HalfHourBefore(d, now + off(now));
    DayNumberInjective(AddDays(LocalDate(off, now), 1), d);
  }

  lemma SkippedMidnightZoneValid(d: Date)
    ensures var off := SkippedMidnightZone(d);
      && LocalDateTime.ValidZone(off)
      && OneChange(off, Target(d), Target(d) + 3 * HOUR, -3 * HOUR, -2 * HOUR)
      && off(Target(d) + 2 * HOUR + 30 * MINUTE) == -3 * HOUR
  {
    hide Target, LocalDateTime.ValidZone, LocalDateTime.LongStretches, OneChange;
    var change := Target(d) + 3 * HOUR;
    TargetWholeSecond(d);
    LocalDateTime.SecondsAdd(Target(d), 3 * HOUR);
    LocalDateTime.ChangeZoneFits(change, -3 * HOUR, -2 * HOUR);
    ChangesOnce(Target(d), change, -3 * HOUR, -2 * HOUR);
  }

  lemma ChangesOnce(target: int, change: int, before: int, after: int)
    requires -DAY < before < DAY && -DAY < after < DAY
    ensures OneChange(LocalDateTime.ChangeZone(change, before, after), target, change, before, after)
  {
  }

  lemma HalfHourBefore(d: Date, v: int)
    requires v == Target(d) - 30 * MINUTE
    ensures v / DAY == DayNumber(d) - 1
  {
    hide DayNumber;
  }
}
