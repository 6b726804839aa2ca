/** The day count against the calendar: it is zero on 1970-01-01 and goes up by one from each date to the
    next, which fixes it; ECMAScript's own formulas give the same number. */
module Epoch {
  import opened Civil
  import opened QuotaWindow
  import LocalDateTime

  const EPOCH := Date(1970, 1, 1)

  /** The first Monday of the count. */
  const FIRST_MONDAY := Date(1970, 1, 5)

  /** The next date of the calendar. */
  function NextDate(d: Date): (r: Date)
    requires ValidDate(d)
    ensures ValidDate(r)
  {
    if d.day < DaysInMonth(d.year, d.month) then d.(day := d.day + 1)
    else if d.month < 12 then Date(d.year, d.month + 1, 1)
    else Date(d.year + 1, 1, 1)
  }

  lemma EpochIsZero()
    ensures DayNumber(EPOCH) == 0
    ensures UtcValue(Parts(EPOCH, 0, 0, 0)) == 0
  {
    assert DaysBeforeYear(1970) == EPOCH_OFFSET;
    InYearDay(1970, 1, 1);
  }

  lemma MonthStep(year: int, month: int)
    requires 0 <= month <= 12
    ensures DaysBeforeMonth(year, month + 1) == if month == 0 then 0 else DaysBeforeMonth(year, month) + DaysInMonth(year, month)
  {
  }

  lemma NextIsOneMore(d: Date)
    requires ValidDate(d)
    ensures DayNumber(NextDate(d)) == DayNumber(d) + 1
  {
    hide DaysBeforeYear, MakeDay, DaysBeforeMonth, DaysInYear;
    var next := NextDate(d);
    MonthStep(d.year, d.month);
    MonthStep(next.year, 0);
    InYearDay(d.year, d.month, d.day);
    InYearDay(next.year, next.month, next.day);
    if d.year != next.year {
      YearStep(d.year);
      MonthTotal(d.year);
    }
  }

  /** A count of days that is zero on 1970-01-01 and goes up by one from each date to the next. */
  ghost predicate CountsDays(f: Date -> int) {
    f(EPOCH) == 0 && forall d :: ValidDate(d) ==> f(NextDate(d)) == f(d) + 1
  }

  /** There is one such count, the day number. */
  lemma {:induction false} CountIsDayNumber(f: Date -> int, d: Date)
    requires CountsDays(f) && ValidDate(d)
    ensures f(d) == DayNumber(d)
    decreases if DayNumber(d) < 0 then -DayNumber(d) else DayNumber(d)
  {
    hide DayNumber, NextDate, ValidDate, DateOf;
    var n := DayNumber(d);
    EpochIsZero();
    if n == 0 {
      assert ValidDate(EPOCH) by { EpochValid(); }
      DayNumberInjective(d, EPOCH);
    } else if n < 0 {
      NextIsOneMore(d);
      CountIsDayNumber(f, NextDate(d));
    } else {
      var e := DateOf(n - 1);
      NextIsOneMore(e);
      DayNumberInjective(d, NextDate(e));
      CountIsDayNumber(f, e);
    }
  }

  lemma EpochValid()
    ensures ValidDate(EPOCH) && ValidDate(FIRST_MONDAY)
  {
  }

  lemma DayNumberCounts()
    ensures CountsDays(DayNumber)
  {
    hide DayNumber, NextDate, ValidDate;
    EpochIsZero();
    forall d | ValidDate(d) ensures DayNumber(NextDate(d)) == DayNumber(d) + 1 { NextIsOneMore(d); }
  }

  // ---- the formulas of ECMAScript --------------------------------------------------------------

  /** `DayFromYear` of the language specification. */
  function DayFromYear(year: int): int {
    365 * (year - 1970) + (year - 1969) / 4 - (year - 1901) / 100 + (year - 1601) / 400
  }

  /** Days before each month in a year that is not a leap year, from `MonthFromTime`. */
  const MONTH_STARTS := [0, 31, 59, 90, 120, 151, 181, 212, 243, 273, 304, 334]

  function DayByFormula(d: Date): int
    requires 1 <= d.month <= 12
  {
    DayFromYear(d.year) + MONTH_STARTS[d.month - 1] + (if IsLeapYear(d.year) && d.month > 2 then 1 else 0) + d.day - 1
  }

  lemma YearByFormula(year: int)
    ensures DaysBeforeYear(year) - EPOCH_OFFSET == DayFromYear(year)
  {
    Shifted(year - 1969, 4, 492);
    Shifted(year - 1901, 100, 19);
    Shifted(year - 1601, 400, 4);
  }

  lemma Shifted(n: int, m: int, k: int)
    requires m > 0
    ensures (n + m * k) / m == n / m + k
  {
    var q, r := n / m, n % m;
    assert n + m * k == m * (q + k) + r;
    QuotientUnique(n + m * k, m, q + k, r);
  }

  lemma QuotientUnique(n: int, m: int, q: int, r: int)
    requires m > 0 && 0 <= r < m && n == m * q + r
    ensures n / m == q
  {
    var e := n / m - q;
    assert n == m * (n / m) + n % m;
    assert m * e == m * (n / m) - m * q;
    assert e >= 1 ==> m * e >= m;
    assert e <= -1 ==> m * e <= -m;
  }

  lemma MonthByFormula(year: int, month: int)
    requires 1 <= month <= 12
    ensures DaysBeforeMonth(year, month) == MONTH_STARTS[month - 1] + if IsLeapYear(year) && month > 2 then 1 else 0
  {
    assert DaysBeforeMonth(year, 4) == 90 + if IsLeapYear(year) then 1 else 0;
    assert DaysBeforeMonth(year, 7) == 181 + if IsLeapYear(year) then 1 else 0;
    assert DaysBeforeMonth(year, 10) == 273 + if IsLeapYear(year) then 1 else 0;
  }

  /** The day number is the one ECMAScript computes. */
  lemma DayNumberByFormula(d: Date)
    requires ValidDate(d)
    ensures DayNumber(d) == DayByFormula(d)
  {
    hide DaysBeforeYear, DaysBeforeMonth, DayFromYear;
    InYearDay(d.year, d.month, d.day);
    YearByFormula(d.year);
    MonthByFormula(d.year, d.month);
  }

  // ---- weeks and conversions -------------------------------------------------------------------

  /** A week starts a whole number of weeks from 1970-01-05, which was a Monday. */
  lemma WeeksStartOnMonday(d: Date)
    ensures (DayNumber(StartDate(CalendarWeek, d)) - DayNumber(FIRST_MONDAY)) % 7 == 0
    ensures DayNumber(FIRST_MONDAY) == 4
  {
    hide StartDate, DaysBeforeYear;
    assert DayNumber(FIRST_MONDAY) == 4 by {
      EpochIsZero();
      InYearDay(1970, 1, 1);
      InYearDay(1970, 1, 5);
    }
    WeekDates(d);
    WeekDistance(DayNumber(d));
  }

  lemma WeekDistance(n: int)
    ensures (Monday(n) - 4) % 7 == 0
  {
    var q := (n + 3) / 7;
    assert Monday(n) - 4 == 7 * (q - 1);
  }

  /** A zone with one offset. */
  function FixedZone(offset: int): LocalDateTime.Zone { LocalDateTime.ChangeZone(0, offset, offset) }

  /** At a fixed offset every accepted text converts to the instant the formulas give, less the offset. */
  lemma FixedOffsetConverts(value: string, offset: int, mode: LocalDateTime.Disambiguation, p: Parts)
    requires -DAY < offset < DAY && offset % SECOND == 0 && LocalDateTime.ParseLocalDateTime(value).Some?
    requires p == LocalDateTime.ParseLocalDateTime(value).value
    ensures ValidParts(p)
    ensures LocalDateTime.Convert(value, FixedZone(offset), mode) ==
      LocalDateTime.Converted((((DayByFormula(p.date) * 24 + p.hour) * 60 + p.minute) * 60 + p.second) * 1_000 - offset)
  {
    hide LocalDateTime.ParseLocalDateTime, LocalDateTime.Convert, UtcValue, LocalDateTime.LongStretches, LocalDateTime.Sampled,
         LocalDateTime.ValidZone, LocalDateTime.LocalParts, DayByFormula, LocalDateTime.Occurs, ValidParts;
    var off := FixedZone(offset);
    LocalDateTime.ParseExact(value, p);
    LocalDateTime.ChangeZoneFits(0, offset, offset);
    LocalDateTime.LongStretchesSampled(off, p);
    LocalDateTime.ConvertExact(value, off, mode, p);
    var w := UtcValue(p) - offset;
    InstantByFormula(p);
    forall t ensures LocalDateTime.Occurs(off, p, t) <==> t == w { OnlyOccurrence(off, offset, p, t); }
    assert LocalDateTime.Occurs(off, p, w);
  }

  lemma InstantByFormula(p: Parts)
    requires ValidParts(p)
    ensures UtcValue(p) == (((DayByFormula(p.date) * 24 + p.hour) * 60 + p.minute) * 60 + p.second) * 1_000
  {
    hide DayNumber, DayByFormula;
    DayNumberByFormula(p.date);
  }

  lemma OnlyOccurrence(off: LocalDateTime.Zone, offset: int, p: Parts, t: int)
    requires LocalDateTime.ValidZone(off) && (forall u :: off(u) == offset) && ValidParts(p)
    ensures LocalDateTime.Occurs(off, p, t) <==> t == UtcValue(p) - offset
  {
    hide UtcValue, LocalDateTime.LocalParts, ValidParts;
    LocalDateTime.UtcValueWholeSecond(p);
    assert offset % SECOND == 0 by { assert off(0) == offset; }
    LocalDateTime.SecondsAdd(UtcValue(p), offset);
    if t % SECOND == 0 { LocalDateTime.WallClock(off, p, t); }
  }
}
