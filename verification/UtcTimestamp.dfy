/** RFC 3339 timestamps in UTC form: which texts are real, and how two of them compare. */
module UtcTimestamp {
  import opened Outcomes
  import opened Civil
  import opened Numerals
  import LocalDateTime

  datatype CompareError = NotRealUtcTimestamp

  /** Year, month, day, hour, minute, second, nanosecond. */
  type SortKey = seq<int>

  predicate FractionShaped(tail: string) {
    || tail == "Z"
    || (3 <= |tail| <= 11 && tail[0] == '.' && IsDigits(tail[1..|tail| - 1]) && tail[|tail| - 1] == 'Z')
  }

  predicate Shaped(s: string) {
    |s| >= 20 && LocalDateTime.Shaped(s[..19]) && FractionShaped(s[19..])
  }

  function Fraction(s: string): (f: string)
    requires Shaped(s)
    ensures IsDigits(f) && |f| <= 9
  {
    var tail := s[19..];
    if tail == "Z" then "" else tail[1..|tail| - 1]
  }

  function UtcDateTimeSortKey(s: string): Option<SortKey> {
    if !Shaped(s) then None
    else
      var p := LocalDateTime.Fields(s[..19]);
      var d := p.date;
      if d.year == 0 || d.month < 1 || d.month > 12 || d.day < 1 || d.day > DaysInMonth(d.year, d.month)
         || p.hour > 23 || p.minute > 59 || p.second > 59 then None
      else Some([d.year, d.month, d.day, p.hour, p.minute, p.second, Nanoseconds(Fraction(s))])
  }

  function Nanoseconds(f: string): (n: nat)
    requires IsDigits(f) && |f| <= 9
    ensures n < 1_000_000_000
  {
    PadEndValue(f, 9);
    BillionBound(PadEnd(f, 9));
    Value(PadEnd(f, 9))
  }

  lemma BillionBound(s: string)
    requires IsDigits(s) && |s| == 9
    ensures Value(s) < 1_000_000_000
  {
    ValueBound(s);
    assert Pow10(3) == 1_000;
    Pow10Add(3, 3);
    Pow10Add(6, 3);
  }

  /** The text of a date-time: section 5.6 of RFC 3339 with the offset `Z`, at most nine fraction
      digits and none when the fraction is left out. */
  function Render(p: Parts, fraction: string): string
    requires ValidParts(p) && p.date.year >= 0
  {
    LocalDateTime.Render(p, true) + (if fraction == "" then "Z" else "." + fraction + "Z")
  }

  ghost predicate Real(p: Parts, fraction: string) {
    ValidParts(p) && 1 <= p.date.year <= 9999 && IsDigits(fraction) && |fraction| <= 9
  }

  function KeyOf(p: Parts, fraction: string): SortKey
    requires IsDigits(fraction) && |fraction| <= 9
  {
    [p.date.year, p.date.month, p.date.day, p.hour, p.minute, p.second, Nanoseconds(fraction)]
  }

  /** Accepted texts are renderings of real date-times. */
  lemma AcceptedIsReal(s: string)
    requires UtcDateTimeSortKey(s).Some?
    ensures var p := LocalDateTime.Fields(s[..19]);
      && Real(p, Fraction(s)) && s == Render(p, Fraction(s))
      && UtcDateTimeSortKey(s) == Some(KeyOf(p, Fraction(s)))
  {
    hide LocalDateTime.Render, Nanoseconds, Value;
    var p := LocalDateTime.Fields(s[..19]);
    LocalDateTime.ShapedIsRendered(s[..19]);
    assert s == s[..19] + s[19..];
    var tail := s[19..];
    if tail != "Z" {
      assert tail == "." + tail[1..|tail| - 1] + "Z";
    }
  }

  /** Renderings of real date-times of years 1 to 9999 are accepted, with their fields as the key. */
  lemma RealIsAccepted(p: Parts, fraction: string)
    requires Real(p, fraction)
    ensures UtcDateTimeSortKey(Render(p, fraction)) == Some(KeyOf(p, fraction))
  {
    hide LocalDateTime.Render, LocalDateTime.Fields, Nanoseconds;
    LocalDateTime.RenderShaped(p, true);
    var head := LocalDateTime.Render(p, true);
    var s := Render(p, fraction);
    RenderLength(p);
    assert s[..19] == head;
    if fraction == "" {
      assert s[19..] == "Z";
    } else {
      assert s[19..] == "." + fraction + "Z";
      assert s[19..][1..|fraction| + 1] == fraction;
      assert s[19..] != "Z" by { assert |s[19..]| > 1; }
    }
  }

  lemma RenderLength(p: Parts)
    requires ValidParts(p) && 0 <= p.date.year <= 9999
    ensures |LocalDateTime.Render(p, true)| == 19
  {
    hide PadStart, ToText, Pow10, Value;
    LocalDateTime.FourDigits(p.date.year);
    LocalDateTime.TwoDigits(p.date.month);
    LocalDateTime.TwoDigits(p.date.day);
    LocalDateTime.TwoDigits(p.hour);
    LocalDateTime.TwoDigits(p.minute);
    LocalDateTime.TwoDigits(p.second);
  }

  /** The accepted texts are exactly the renderings of real Gregorian date-times of years 1 to 9999. */
  lemma AcceptsExactly(s: string)
    ensures UtcDateTimeSortKey(s).Some? <==> exists p, f :: Real(p, f) && s == Render(p, f)
  {
    hide UtcDateTimeSortKey, Render;
    if UtcDateTimeSortKey(s).Some? {
      AcceptedIsReal(s);
    }
    if p, f :| Real(p, f) && s == Render(p, f) {
      RealIsAccepted(p, f);
    }
  }

  // ---- comparison ------------------------------------------------------------------------------

  ghost predicate ValidKey(k: SortKey) {
    |k| == 7 && ValidParts(KeyParts(k)) && 0 <= k[6] < 1_000_000_000
  }

  function KeyParts(k: SortKey): Parts
    requires |k| == 7
  {
    Parts(Date(k[0], k[1], k[2]), k[3], k[4], k[5])
  }

  /** Nanoseconds since 1970-01-01T00:00:00Z. */
  function KeyInstant(k: SortKey): int
    requires |k| == 7
  {
    UtcValue(KeyParts(k)) * 1_000_000 + k[6]
  }

  lemma KeyIsValid(s: string)
    requires UtcDateTimeSortKey(s).Some?
    ensures ValidKey(UtcDateTimeSortKey(s).value)
  {
    hide Nanoseconds, Value;
  }

  /** The first differing field decides the order of the instants. */
  lemma FirstDifference(a: SortKey, b: SortKey, i: nat)
    requires ValidKey(a) && ValidKey(b) && i < 7
    requires (forall j :: 0 <= j < i ==> a[j] == b[j]) && a[i] < b[i]
    ensures KeyInstant(a) < KeyInstant(b)
  {
    hide DayNumber;
    var p, q := KeyParts(a), KeyParts(b);
    if i < 3 {
      assert DateLess(p.date, q.date);
      DayNumberMonotone(p.date, q.date);
      LaterDay(DayNumber(p.date), DayNumber(q.date), Clock(p), Clock(q), a[6], b[6]);
    } else {
      assert p.date == q.date;
    }
  }

  function Clock(p: Parts): int { p.hour * HOUR + p.minute * MINUTE + p.second * SECOND }

  lemma LaterDay(m: int, n: int, c: int, d: int, x: int, y: int)
    requires m < n && 0 <= c <= DAY - SECOND && 0 <= d && 0 <= x < 1_000_000_000 && 0 <= y
    ensures (m * DAY + c) * 1_000_000 + x < (n * DAY + d) * 1_000_000 + y
  {
  }

  /** The comparison loop. The sign of the result is the order of the nanosecond instants. */
  method CompareUtcDateTimes(left: string, right: string) returns (r: Result<int, CompareError>)
    ensures r.Err? <==> UtcDateTimeSortKey(left) == None || UtcDateTimeSortKey(right) == None
    ensures r.Ok? ==>
              var a, b := UtcDateTimeSortKey(left).value, UtcDateTimeSortKey(right).value;
              && ValidKey(a) && ValidKey(b)
              && (r.value < 0 <==> KeyInstant(a) < KeyInstant(b))
              && (r.value == 0 <==> KeyInstant(a) == KeyInstant(b))
              && (r.value > 0 <==> KeyInstant(a) > KeyInstant(b))
  {
    hide UtcDateTimeSortKey, KeyInstant;
    var x, y := UtcDateTimeSortKey(left), UtcDateTimeSortKey(right);
    if x == None || y == None { return Err(NotRealUtcTimestamp); }
    var a, b := x.value, y.value;
    KeyIsValid(left);
    KeyIsValid(right);
    var index := 0;
    while index < |a|
      invariant 0 <= index <= 7
      invariant forall j :: 0 <= j < index ==> a[j] == b[j]
    {
      var difference := a[index] - b[index];
      if difference != 0 {
        if difference < 0 { FirstDifference(a, b, index); } else { FirstDifference(b, a, index); }
        return Ok(difference);
      }
      index := index + 1;
    }
    assert a == b;
    return Ok(0);
  }

  /** Equal instants are the same date-time with fractions that differ only in trailing zeros. */
  lemma SameInstant(p: Parts, f: string, q: Parts, g: string)
    requires Real(p, f) && Real(q, g)
    ensures KeyInstant(KeyOf(p, f)) == KeyInstant(KeyOf(q, g)) <==> p == q && PadEnd(f, 9) == PadEnd(g, 9)
  {
    hide UtcValue, Value;
    var a, b := KeyOf(p, f), KeyOf(q, g);
    assert KeyParts(a) == p && KeyParts(b) == q;
    if KeyInstant(a) == KeyInstant(b) {
      LocalDateTime.UtcValueWholeSecond(p);
      LocalDateTime.UtcValueWholeSecond(q);
      WholeAndRest(UtcValue(p), UtcValue(q), a[6], b[6]);
      UtcValueInjective(p, q);
      PadEndValue(f, 9);
      PadEndValue(g, 9);
      ValueInjective(PadEnd(f, 9), PadEnd(g, 9));
    }
  }

  lemma WholeAndRest(v: int, w: int, x: int, y: int)
    requires v % SECOND == 0 && w % SECOND == 0
    requires 0 <= x < 1_000_000_000 && 0 <= y < 1_000_000_000
    requires v * 1_000_000 + x == w * 1_000_000 + y
    ensures v == w && x == y
  {
    var m, n := v / 1_000, w / 1_000;
    assert v == m * 1_000 && w == n * 1_000;
    assert (m - n) * 1_000_000_000 == y - x;
  }
}
