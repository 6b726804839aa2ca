/** The proleptic Gregorian calendar as ECMAScript dates use it. Instants are milliseconds since
    1970-01-01T00:00:00Z. */
module Civil {

  const DAY := 86_400_000
  const HOUR := 3_600_000
  const MINUTE := 60_000
  const SECOND := 1_000

  /** Day number of 0001-01-01 is -EPOCH_OFFSET. */
  const EPOCH_OFFSET := 719_162

  datatype Date = Date(year: int, month: int, day: int)

  datatype Parts = Parts(date: Date, hour: int, minute: int, second: int)

  predicate IsLeapYear(year: int) {
    year % 4 == 0 && (year % 100 != 0 || year % 400 == 0)
  }

  function DaysInMonth(year: int, month: int): (d: nat)
    requires 1 <= month <= 12
    ensures 28 <= d <= 31
  {
    if month == 2 then (if IsLeapYear(year) then 29 else 28)
    else if month == 4 || month == 6 || month == 9 || month == 11 then 30
    else 31
  }

  predicate ValidDate(d: Date) {
    1 <= d.month <= 12 && 1 <= d.day <= DaysInMonth(d.year, d.month)
  }

  predicate ValidParts(p: Parts) {
    ValidDate(p.date) && 0 <= p.hour <= 23 && 0 <= p.minute <= 59 && 0 <= p.second <= 59
  }

  function DaysBeforeYear(year: int): int {
    365 * (year - 1) + (year - 1) / 4 - (year - 1) / 100 + (year - 1) / 400
  }

  function DaysBeforeMonth(year: int, month: int): nat
    requires 1 <= month <= 13
    decreases month
  {
    if month == 1 then 0 else DaysBeforeMonth(year, month - 1) + DaysInMonth(year, month - 1)
  }

  function DaysInYear(year: int): nat {
    if IsLeapYear(year) then 366 else 365
  }

  /** `Date.UTC(year, month - 1, day)` in days: month and day overflow carry over. */
  function MakeDay(year: int, month: int, day: int): int {
    var y := year + (month - 1) / 12;
    var m := (month - 1) % 12 + 1;
    DaysBeforeYear(y) + DaysBeforeMonth(y, m) + day - 1 - EPOCH_OFFSET
  }

  function DayNumber(d: Date): int { MakeDay(d.year, d.month, d.day) }

  lemma YearStep(year: int)
    ensures DaysBeforeYear(year + 1) == DaysBeforeYear(year) + DaysInYear(year)
  {
    FourthYear(year);
    HundredthYear(year);
    FourHundredthYear(year);
  }

  lemma FourthYear(year: int)
    ensures year / 4 == (year - 1) / 4 + if year % 4 == 0 then 1 else 0
  {
  }

  lemma HundredthYear(year: int)
    ensures year / 100 == (year - 1) / 100 + if year % 100 == 0 then 1 else 0
    ensures year % 100 == 0 ==> year % 4 == 0
  {
    if year % 100 == 0 { assert year == 4 * (25 * (year / 100)); }
  }

  lemma FourHundredthYear(year: int)
    ensures year / 400 == (year - 1) / 400 + if year % 400 == 0 then 1 else 0
    ensures year % 400 == 0 ==> year % 100 == 0
  {
    if year % 400 == 0 { assert year == 100 * (4 * (year / 400)); }
  }

  lemma {:induction false} YearMonotone(a: int, b: int)
    requires a <= b
    ensures DaysBeforeYear(a) + 365 * (b - a) <= DaysBeforeYear(b)
    decreases b - a
  {
    if a < b {
      YearMonotone(a, b - 1);
      YearStep(b - 1);
    }
  }

  lemma MonthTotal(year: int)
    ensures DaysBeforeMonth(year, 13) == DaysInYear(year)
  {
    assert DaysBeforeMonth(year, 4) == DaysInYear(year) - 275;
    assert DaysBeforeMonth(year, 7) == DaysInYear(year) - 184;
    assert DaysBeforeMonth(year, 10) == DaysInYear(year) - 92;
  }

  lemma {:induction false} MonthMonotone(year: int, a: int, b: int)
    requires 1 <= a <= b <= 13
    ensures DaysBeforeMonth(year, a) + (if a < b then DaysInMonth(year, a) else 0) <= DaysBeforeMonth(year, b)
    decreases b
  {
    if a < b { MonthMonotone(year, a, b - 1); }
  }

  lemma InYearDay(year: int, month: int, day: int)
    requires 1 <= month <= 12
    ensures MakeDay(year, month, day) == DaysBeforeYear(year) + DaysBeforeMonth(year, month) + day - 1 - EPOCH_OFFSET
  {
    hide DaysBeforeYear, DaysBeforeMonth;
    assert (month - 1) / 12 == 0 && (month - 1) % 12 == month - 1;
  }

  lemma ValidDayNumber(d: Date)
    requires ValidDate(d)
    ensures DayNumber(d) == DaysBeforeYear(d.year) + DaysBeforeMonth(d.year, d.month) + d.day - 1 - EPOCH_OFFSET
    ensures DaysBeforeYear(d.year) <= DayNumber(d) + EPOCH_OFFSET < DaysBeforeYear(d.year + 1)
  {
    hide DaysBeforeYear, MakeDay;
    InYearDay(d.year, d.month, d.day);
    MonthMonotone(d.year, d.month, 13);
    MonthTotal(d.year);
    YearStep(d.year);
  }

  predicate DateLess(a: Date, b: Date) {
    a.year < b.year || (a.year == b.year && (a.month < b.month || (a.month == b.month && a.day < b.day)))
  }

  /** Calendar order is the order of day numbers. */
  lemma DayNumberMonotone(a: Date, b: Date)
    requires ValidDate(a) && ValidDate(b) && DateLess(a, b)
    ensures DayNumber(a) < DayNumber(b)
  {
    hide DaysBeforeYear, MakeDay, DaysBeforeMonth;
    ValidDayNumber(a);
    ValidDayNumber(b);
    if a.year < b.year {
      YearMonotone(a.year + 1, b.year);
    } else if a.month < b.month {
      MonthMonotone(a.year, a.month, b.month);
    }
  }

  lemma DayNumberInjective(a: Date, b: Date)
    requires ValidDate(a) && ValidDate(b) && DayNumber(a) == DayNumber(b)
    ensures a == b
  {
    if DateLess(a, b) { DayNumberMonotone(a, b); } else if DateLess(b, a) { DayNumberMonotone(b, a); }
  }

  ghost function YearDistance(k: int, year: int): nat
  {
    if DaysBeforeYear(year) > k then 1 + DaysBeforeYear(year) - k
    else if DaysBeforeYear(year + 1) <= k then 1 + k - DaysBeforeYear(year + 1)
    else 0
  }

  /** The largest year that starts on or before day `k`, searched from `year`. */
  function YearFrom(k: int, year: int): (y: int)
    ensures DaysBeforeYear(y) <= k < DaysBeforeYear(y + 1)
    decreases YearDistance(k, year)
  {
    YearStep(year - 1); YearStep(year); YearStep(year + 1);
    if DaysBeforeYear(year) > k then YearFrom(k, year - 1)
    else if DaysBeforeYear(year + 1) <= k then YearFrom(k, year + 1)
    else year
  }

  function MonthFrom(year: int, k: int, month: int): (m: int)
    requires 1 <= month <= 12 && DaysBeforeMonth(year, month) <= k < DaysBeforeMonth(year, 13)
    ensures 1 <= m <= 12 && DaysBeforeMonth(year, m) <= k < DaysBeforeMonth(year, m + 1)
    decreases 12 - month
  {
    if k < DaysBeforeMonth(year, month + 1) then month else MonthFrom(year, k, month + 1)
  }

  /** The date of a day number: `getUTCFullYear`, `getUTCMonth` and `getUTCDate`. */
  function DateOf(n: int): (d: Date)
    ensures ValidDate(d) && DayNumber(d) == n
  {
    var k := n + EPOCH_OFFSET;
    var y := YearFrom(k, 1970);
    YearStep(y); MonthTotal(y);
    var r := k - DaysBeforeYear(y);
    var m := MonthFrom(y, r, 1);
    var d := r - DaysBeforeMonth(y, m) + 1;
    InYearDay(y, m, d);
    Date(y, m, d)
  }

  /** `new Date(0)` followed by `setUTCFullYear` and `setUTCHours`. */
  function UtcValue(p: Parts): int {
    DayNumber(p.date) * DAY + p.hour * HOUR + p.minute * MINUTE + p.second * SECOND
  }

  lemma ClockFields(n: int, r: int, hour: int, minute: int, second: int)
    requires 0 <= r < DAY
    requires hour == r / HOUR
    requires minute == (r - hour * HOUR) / MINUTE
    requires second == (r - hour * HOUR - minute * MINUTE) / SECOND
    ensures 0 <= hour <= 23 && 0 <= minute <= 59 && 0 <= second <= 59
    ensures (n * DAY + r) % SECOND == r - hour * HOUR - minute * MINUTE - second * SECOND
  {
    ClockRanges(r, hour, minute, second);
    var ms := r - hour * HOUR - minute * MINUTE - second * SECOND;
    var s := n * 86_400 + hour * 3_600 + minute * 60 + second;
    assert n * DAY + r == s * SECOND + ms;
    SecondRest(s, ms);
  }

  lemma ClockRanges(r: int, hour: int, minute: int, second: int)
    requires 0 <= r < DAY
    requires hour == r / HOUR
    requires minute == (r - hour * HOUR) / MINUTE
    requires second == (r - hour * HOUR - minute * MINUTE) / SECOND
    ensures 0 <= hour <= 23 && 0 <= minute <= 59 && 0 <= second <= 59
    ensures 0 <= r - hour * HOUR - minute * MINUTE - second * SECOND < SECOND
  {
    assert 0 <= r - hour * HOUR < HOUR;
    assert 0 <= r - hour * HOUR - minute * MINUTE < MINUTE;
  }

  lemma SecondRest(s: int, ms: int)
    requires 0 <= ms < SECOND
    ensures (s * SECOND + ms) % SECOND == ms
  {
  }

  /** The UTC fields of an instant, milliseconds dropped. */
  function PartsOf(t: int): (p: Parts)
    ensures ValidParts(p)
    ensures UtcValue(p) == t - t % SECOND
    ensures DayNumber(p.date) == t / DAY
  {
    var n, r := t / DAY, t % DAY;
    var hour := r / HOUR;
    var minute := (r - hour * HOUR) / MINUTE;
    var second := (r - hour * HOUR - minute * MINUTE) / SECOND;
    ClockFields(n, r, hour, minute, second);
    Parts(DateOf(n), hour, minute, second)
  }

  lemma DayAndRest(n: int, r: int)
    requires 0 <= r < DAY
    ensures (n * DAY + r) / DAY == n && (n * DAY + r) % DAY == r
  {
  }

  /** Reading the fields back gives the same fields exactly for real date-times. This is the test
      that rejects February 30 and 25 o'clock. */
  lemma PartsRoundTrip(p: Parts)
    ensures ValidParts(p) <==> PartsOf(UtcValue(p)) == p
  {
    if ValidParts(p) {
      var v, n := UtcValue(p), DayNumber(p.date);
      var r := p.hour * HOUR + p.minute * MINUTE + p.second * SECOND;
      DayAndRest(n, r);
      assert v / DAY == n && v % DAY == r;
      assert r / HOUR == p.hour;
      assert (r - p.hour * HOUR) / MINUTE == p.minute;
      DayNumberInjective(DateOf(n), p.date);
    }
  }

  lemma UtcValueInjective(p: Parts, q: Parts)
    requires ValidParts(p) && ValidParts(q) && UtcValue(p) == UtcValue(q)
    ensures p == q
  {
    PartsRoundTrip(p);
    PartsRoundTrip(q);
  }
}
