/** Conversion between instance-local wall-clock text and UTC instants. A time zone is the function
    that gives its offset, in milliseconds, at every instant. */
module LocalDateTime {
  import opened Outcomes
  import opened Civil
  import opened Numerals
  import opened Ordering

  type Zone = int -> int

  datatype Disambiguation = Earlier | Later | Reject

  datatype Conversion =
    | Converted(instant: int)
    | Invalid
    | Nonexistent
    | Ambiguous

  /** Offsets are whole seconds under a day, and change only on whole seconds. */
  ghost predicate ValidZone(off: Zone) {
    forall t :: -DAY < off(t) < DAY && off(t) % SECOND == 0 && off(t) == off(t - t % SECOND)
  }

  ghost predicate ConstantOn(off: Zone, a: int, b: int) {
    forall t :: a <= t < b ==> off(t) == off(a)
  }

  ghost predicate InStretch(off: Zone, t: int, a: int, b: int) {
    a <= t < b && b - a >= 4 * HOUR && ConstantOn(off, a, b)
  }

  ghost predicate Steady(off: Zone, t: int) {
    exists a, b :: InStretch(off, t, a, b)
  }

  /** Every instant lies in a stretch of at least four hours with one offset. */
  ghost predicate LongStretches(off: Zone) {
    forall t :: Steady(off, t)
  }

  /** The wall-clock fields shown at an instant. */
  function LocalParts(off: Zone, t: int): (p: Parts)
    ensures ValidParts(p)
  {
    PartsOf(t + off(t))
  }

  /** The whole-second instants at which the clock shows `p`. */
  ghost predicate Occurs(off: Zone, p: Parts, t: int) {
    t % SECOND == 0 && LocalParts(off, t) == p
  }

  // ---- text ------------------------------------------------------------------------------------

  predicate IsSpace(c: char) {
    || c as int in {0x09, 0x0A, 0x0B, 0x0C, 0x0D, 0x20, 0xA0, 0x1680, 0x2028, 0x2029, 0x202F, 0x205F, 0x3000, 0xFEFF}
    || 0x2000 <= c as int <= 0x200A
  }

  function Trim(s: string): (r: string)
    ensures r == [] || (!IsSpace(r[0]) && !IsSpace(r[|r| - 1]))
    ensures (s == [] || (!IsSpace(s[0]) && !IsSpace(s[|s| - 1]))) ==> r == s
  {
    if s == [] then s
    else if IsSpace(s[0]) then Trim(s[1..])
    else if IsSpace(s[|s| - 1]) then Trim(s[..|s| - 1])
    else s
  }

  function Two(n: nat): string { PadStart(ToText(n), 2) }

  function Four(n: nat): string { PadStart(ToText(n), 4) }

  /** `YYYY-MM-DDTHH:MM` or `YYYY-MM-DDTHH:MM:SS`. */
  function Render(p: Parts, seconds: bool): string
    requires ValidParts(p) && p.date.year >= 0
  {
    Four(p.date.year) + "-" + Two(p.date.month) + "-" + Two(p.date.day)
    + "T" + Two(p.hour) + ":" + Two(p.minute)
    + (if seconds then ":" + Two(p.second) else "")
  }

  /** The input pattern: fixed positions, ASCII digits, optional seconds. */
  predicate Shaped(s: string) {
    && (|s| == 16 || |s| == 19)
    && IsDigits(s[0..4]) && s[4] == '-' && IsDigits(s[5..7]) && s[7] == '-' && IsDigits(s[8..10])
    && s[10] == 'T' && IsDigits(s[11..13]) && s[13] == ':' && IsDigits(s[14..16])
    && (|s| == 19 ==> s[16] == ':' && IsDigits(s[17..19]))
  }

  function Fields(s: string): Parts
    requires Shaped(s)
  {
    Parts(Date(Value(s[0..4]), Value(s[5..7]), Value(s[8..10])), Value(s[11..13]), Value(s[14..16]),
          if |s| == 19 then Value(s[17..19]) else 0)
  }

  /** A shaped text is accepted when normalising its fields through a date changes nothing. */
  function ParseLocalDateTime(value: string): Option<Parts> {
    var s := Trim(value);
    if !Shaped(s) then None
    else if PartsOf(UtcValue(Fields(s))) == Fields(s) then Some(Fields(s))
    else None
  }

  lemma TwoDigits(n: nat)
    requires n <= 99
    ensures |Two(n)| == 2 && IsDigits(Two(n)) && Value(Two(n)) == n
  {
    assert Pow10(2) == 100;
    FixedWidth(n, 2);
  }

  lemma FourDigits(n: nat)
    requires n <= 9999
    ensures |Four(n)| == 4 && IsDigits(Four(n)) && Value(Four(n)) == n
  {
    assert Pow10(4) == 10000;
    FixedWidth(n, 4);
  }

  lemma RenderShaped(p: Parts, seconds: bool)
    requires ValidParts(p) && 0 <= p.date.year <= 9999
    ensures Shaped(Render(p, seconds)) && Fields(Render(p, seconds)) == if seconds then p else p.(second := 0)
    ensures Trim(Render(p, seconds)) == Render(p, seconds)
  {
    hide PadStart, ToText, Pow10, Trim, Value;
    FourDigits(p.date.year);
    TwoDigits(p.date.month); TwoDigits(p.date.day);
    TwoDigits(p.hour); TwoDigits(p.minute); TwoDigits(p.second);
    JoinShaped(Four(p.date.year), Two(p.date.month), Two(p.date.day), Two(p.hour), Two(p.minute),
               if seconds then ":" + Two(p.second) else "");
  }

  lemma JoinShaped(y: string, m: string, d: string, h: string, n: string, tail: string)
    requires |y| == 4 && |m| == |d| == |h| == |n| == 2
    requires IsDigits(y) && IsDigits(m) && IsDigits(d) && IsDigits(h) && IsDigits(n)
    requires tail == "" || (|tail| == 3 && tail[0] == ':' && IsDigits(tail[1..]))
    ensures var s := y + "-" + m + "-" + d + "T" + h + ":" + n + tail;
      && Shaped(s) && |s| == 16 + |tail|
      && s[0..4] == y && s[5..7] == m && s[8..10] == d && s[11..13] == h && s[14..16] == n
      && (tail != "" ==> s[17..19] == tail[1..])
      && !IsSpace(s[0]) && !IsSpace(s[|s| - 1])
  {
    var s := y + "-" + m + "-" + d + "T" + h + ":" + n + tail;
    assert s[0..4] == y && s[5..7] == m && s[8..10] == d;
    assert s[11..13] == h && s[14..16] == n && s[16..] == tail;
    if tail != "" {
      assert s[17..19] == tail[1..];
      assert IsDigit(tail[1..][1]);
    }
    assert IsDigit(y[0]) && IsDigit(n[1]);
    assert forall c :: IsDigit(c) ==> !IsSpace(c);
  }

  lemma ShapedIsRendered(s: string)
    requires Shaped(s) && ValidParts(Fields(s))
    ensures 0 <= Fields(s).date.year <= 9999
    ensures s == Render(Fields(s), |s| == 19)
  {
    var p := Fields(s);
    YearDigits(s[0..4]);
    hide PadStart, ToText, Pow10, Value, ValidParts;
    FixedWidthText(s[0..4]); FixedWidthText(s[5..7]); FixedWidthText(s[8..10]);
    FixedWidthText(s[11..13]); FixedWidthText(s[14..16]);
    if |s| == 19 { FixedWidthText(s[17..19]); }
    ShapedPieces(s);
  }

  lemma ShapedPieces(s: string)
    requires Shaped(s)
    ensures s == s[0..4] + "-" + s[5..7] + "-" + s[8..10] + "T" + s[11..13] + ":" + s[14..16]
                 + (if |s| == 19 then ":" + s[17..19] else "")
  {
    hide IsDigits;
    var head := s[0..4] + "-" + s[5..7] + "-" + s[8..10] + "T" + s[11..13] + ":" + s[14..16];
    assert s[..16] == head;
    if |s| == 19 { assert s == head + (":" + s[17..19]); } else { assert s == s[..16] == head + ""; }
  }

  lemma YearDigits(s: string)
    requires |s| == 4 && IsDigits(s)
    ensures Value(s) <= 9999
  {
    assert Pow10(4) == 10000;
    ValueBound(s);
  }

  ghost predicate Spaces(s: string) { forall c :: c in s ==> IsSpace(c) }

  /** The text with nothing but white space around it. */
  ghost predicate Padded(value: string, text: string) {
    exists a, b :: Spaces(a) && Spaces(b) && value == a + text + b
  }

  lemma {:induction false} TrimOuter(a: string, text: string, b: string)
    requires Spaces(a) && Spaces(b) && text != [] && !IsSpace(text[0]) && !IsSpace(text[|text| - 1])
    ensures Trim(a + text + b) == text
    decreases |a| + |b|
  {
    hide IsSpace;
    var s := a + text + b;
    if a != [] {
      assert a[0] in a && s[0] == a[0] && s[1..] == a[1..] + text + b;
      TrimOuter(a[1..], text, b);
    } else if b != [] {
      var n := |b| - 1;
      assert b[n] in b && s[0] == text[0] && s[|s| - 1] == b[n] && s[..|s| - 1] == a + text + b[..n];
      TrimOuter(a, text, b[..n]);
    } else {
      assert s == text;
    }
  }

  lemma {:induction false} TrimSplit(s: string) returns (a: string, b: string)
    ensures Spaces(a) && Spaces(b) && s == a + Trim(s) + b
  {
    hide IsSpace;
    a, b := [], [];
    if s == [] {
    } else if IsSpace(s[0]) {
      var rest := s[1..];
      a, b := TrimSplit(rest);
      assert s == [s[0]] + rest == ([s[0]] + a) + Trim(rest) + b;
      a := [s[0]] + a;
    } else if IsSpace(s[|s| - 1]) {
      var n := |s| - 1;
      a, b := TrimSplit(s[..n]);
      assert s == s[..n] + [s[n]] == a + Trim(s[..n]) + (b + [s[n]]);
      b := b + [s[n]];
    }
  }

  lemma TrimExact(value: string, text: string)
    requires text != [] && !IsSpace(text[0]) && !IsSpace(text[|text| - 1])
    ensures Trim(value) == text <==> Padded(value, text)
  {
    hide Trim, IsSpace, Spaces;
    var a, b := TrimSplit(value);
    if a', b' :| Spaces(a') && Spaces(b') && value == a' + text + b' { TrimOuter(a', text, b'); }
  }

  /** The accepted texts are exactly the renderings, with or without seconds, of real date-times of
      years 0 to 9999, surrounded by white space or not. */
  lemma ParseExact(value: string, p: Parts)
    ensures ParseLocalDateTime(value) == Some(p) <==>
              && ValidParts(p) && 0 <= p.date.year <= 9999
              && (Padded(value, Render(p, true)) || (p.second == 0 && Padded(value, Render(p, false))))
  {
    hide ParseLocalDateTime, Render, Trim, Padded, ValidParts, Shaped;
    ParseByTrim(value, p);
    if ValidParts(p) && 0 <= p.date.year <= 9999 {
      RenderEnds(p, true);
      RenderEnds(p, false);
      TrimExact(value, Render(p, true));
      TrimExact(value, Render(p, false));
    }
  }

  lemma RenderEnds(p: Parts, seconds: bool)
    requires ValidParts(p) && 0 <= p.date.year <= 9999
    ensures var text := Render(p, seconds); text != [] && !IsSpace(text[0]) && !IsSpace(text[|text| - 1])
  {
    hide Render;
    RenderShaped(p, seconds);
    var text := Render(p, seconds);
    assert IsDigit(text[0..4][0]) && IsDigit(text[14..16][1]) && (|text| == 19 ==> IsDigit(text[17..19][1]));
  }

  lemma ParseByTrim(value: string, p: Parts)
    ensures ParseLocalDateTime(value) == Some(p) <==>
              && ValidParts(p) && 0 <= p.date.year <= 9999
              && (Trim(value) == Render(p, true) || (p.second == 0 && Trim(value) == Render(p, false)))
  {
    var s := Trim(value);
    if Shaped(s) {
      PartsRoundTrip(Fields(s));
      if ValidParts(Fields(s)) { ShapedIsRendered(s); }
    }
    if ValidParts(p) && 0 <= p.date.year <= 9999 {
      RenderShaped(p, true);
      RenderShaped(p, false);
    }
  }

  // ---- local to UTC ----------------------------------------------------------------------------

  /** The offset that formatting one sample instant reveals. */
  function SampledOffset(off: Zone, s: int): int {
    UtcValue(LocalParts(off, s)) - s
  }

  /** The 25 samples from 48 hours before to 48 hours after the requested wall time. */
  function SampledOffsets(off: Zone, w: int): set<int> {
    set k | -12 <= k <= 12 :: SampledOffset(off, w + 4 * k * HOUR)
  }

  function Candidates(off: Zone, p: Parts): set<int> {
    var w := UtcValue(p);
    set o | o in SampledOffsets(off, w) && LocalParts(off, w - o) == p :: w - o
  }

  function Least(s: set<int>): (m: int)
    requires s != {}
    ensures m in s && forall x :: x in s ==> m <= x
  {
    LeastExists(s);
    var m :| m in s && forall x :: x in s ==> m <= x;
    m
  }

  lemma {:induction false} LeastExists(s: set<int>)
    requires s != {}
    ensures exists m :: m in s && forall x :: x in s ==> m <= x
  {
    var y := Member(s);
    if s == {y} {
      assert y in s && forall x :: x in s ==> y <= x;
    } else {
      var rest := s - {y};
      assert s == rest + {y};
      LeastExists(rest);
      var m :| m in rest && forall x :: x in rest ==> m <= x;
      var n := if y < m then y else m;
      assert n in s && forall x :: x in s ==> n <= x;
    }
  }

  function Greatest(s: set<int>): (m: int)
    requires s != {}
    ensures m in s && forall x :: x in s ==> x <= m
  {
    var negated := set x | x in s :: -x;
    assert -Member(s) in negated;
    assert forall x :: x in s ==> -x in negated;
    -Least(negated)
  }

  function Choose(candidates: set<int>, mode: Disambiguation): Conversion {
    if candidates == {} then Nonexistent
    else if |candidates| > 1 && mode == Reject then Ambiguous
    else if mode == Later then Converted(Greatest(candidates))
    else Converted(Least(candidates))
  }

  function Convert(value: string, off: Zone, mode: Disambiguation): Conversion {
    match ParseLocalDateTime(value)
    case None => Invalid
    case Some(p) => Choose(Candidates(off, p), mode)
  }

  /** The sampling loop. */
  method InstanceLocalDateTimeToUtc(value: string, off: Zone, mode: Disambiguation) returns (r: Conversion)
    ensures r == Convert(value, off, mode)
  {
    hide SampledOffset, LocalParts, UtcValue, ParseLocalDateTime;
    var parsed := ParseLocalDateTime(value);
    if parsed == None { return Invalid; }
    var target := parsed.value;
    var w := UtcValue(target);
    var offsets: set<int> := {};
    var delta := -48;
    ghost var n := 0;
    while delta <= 48
      invariant 0 <= n <= 25 && delta == -48 + 4 * n
      invariant offsets == set k | -12 <= k < -12 + n :: SampledOffset(off, w + 4 * k * HOUR)
      decreases 48 - delta
    {
      var sample := w + delta * HOUR;
      offsets := offsets + {SampledOffset(off, sample)};
      assert sample == w + 4 * (-12 + n) * HOUR;
      delta := delta + 4;
      n := n + 1;
    }
    assert n == 25;
    assert offsets == SampledOffsets(off, w);
    var candidates := set o | o in offsets && LocalParts(off, w - o) == target :: w - o;
    assert candidates == Candidates(off, target);
    r := Choose(candidates, mode);
  }

  lemma WallClock(off: Zone, p: Parts, t: int)
    requires ValidZone(off) && ValidParts(p) && t % SECOND == 0
    ensures LocalParts(off, t) == p <==> t + off(t) == UtcValue(p)
  {
    hide UtcValue, PartsOf, ValidParts;
    assert off(t) % SECOND == 0;
    SecondsAdd(t, off(t));
    if t + off(t) == UtcValue(p) { PartsRoundTrip(p); }
  }

  lemma SecondsAdd(a: int, b: int)
    requires a % SECOND == 0 && b % SECOND == 0
    ensures (a + b) % SECOND == 0 && (a - b) % SECOND == 0
  {
    var q, r := a / 1000, b / 1000;
    assert a == q * 1000 && b == r * 1000;
    assert a + b == (q + r) * 1000 && a - b == (q - r) * 1000;
  }

  lemma UtcValueWholeSecond(p: Parts)
    ensures UtcValue(p) % SECOND == 0
  {
    assert UtcValue(p) == (DayNumber(p.date) * 86_400 + p.hour * 3_600 + p.minute * 60 + p.second) * SECOND;
  }

  lemma SampleIsOffset(off: Zone, s: int)
    requires ValidZone(off) && s % SECOND == 0
    ensures SampledOffset(off, s) == off(s)
  {
    assert off(s) % SECOND == 0;
    SecondsAdd(s, off(s));
  }

  /** A four-hour stretch cannot slip between two samples, so the offset in force at any occurrence is
      sampled. */
  lemma OffsetIsSampled(off: Zone, w: int, t: int)
    requires ValidZone(off) && LongStretches(off) && w % SECOND == 0 && t + off(t) == w
    ensures off(t) in SampledOffsets(off, w)
  {
    hide SampledOffset;
    assert Steady(off, t);
    var a, b :| InStretch(off, t, a, b);
    assert -DAY < off(t) < DAY;
    var k := SampleInside(w, t, a, b);
    SampleIsOffset(off, w + 4 * k * HOUR);
    assert off(w + 4 * k * HOUR) == off(a) == off(t);
  }

  lemma SampleInside(w: int, t: int, a: int, b: int) returns (k: int)
    requires w % SECOND == 0 && -DAY < t - w < DAY && a <= t < b && b - a >= 4 * HOUR
    ensures -12 <= k <= 12 && a <= w + 4 * k * HOUR < b && (w + 4 * k * HOUR) % SECOND == 0
  {
    var q := (t - w) / (4 * HOUR);
    assert w + 4 * q * HOUR <= t < w + 4 * (q + 1) * HOUR;
    k := if w + 4 * q * HOUR >= a then q else q + 1;
    SampleWhole(w, k);
  }

  lemma SampleWhole(w: int, k: int)
    requires w % SECOND == 0
    ensures (w + 4 * k * HOUR) % SECOND == 0
  {
    assert w + 4 * k * HOUR == (w / SECOND + k * 14_400) * SECOND;
  }

  /** One of the 25 sampled instants has this offset. */
  ghost predicate OffsetSampled(off: Zone, w: int, o: int) {
    exists k :: -12 <= k <= 12 && off(w + 4 * k * HOUR) == o
  }

  lemma SampledExactly(off: Zone, w: int, o: int)
    requires ValidZone(off) && w % SECOND == 0
    ensures o in SampledOffsets(off, w) <==> OffsetSampled(off, w, o)
  {
    hide SampledOffset;
    forall k ensures SampledOffset(off, w + 4 * k * HOUR) == off(w + 4 * k * HOUR) {
      SampleWhole(w, k);
      SampleIsOffset(off, w + 4 * k * HOUR);
    }
  }

  /** An instant is a candidate if and only if it shows the wall time with a sampled offset. */
  lemma CandidateExactly(off: Zone, p: Parts, t: int)
    requires ValidZone(off) && ValidParts(p)
    ensures t in Candidates(off, p) <==> Occurs(off, p, t) && OffsetSampled(off, UtcValue(p), off(t))
  {
    hide LocalParts, UtcValue, SampledOffsets, OffsetSampled;
    var w := UtcValue(p);
    UtcValueWholeSecond(p);
    SampledExactly(off, w, off(t));
    if t in Candidates(off, p) {
      CandidateOccurs(off, p, t);
      WallClock(off, p, t);
    }
    if Occurs(off, p, t) { WallClock(off, p, t); }
  }

  /** The offset of every occurrence is sampled. */
  ghost predicate Sampled(off: Zone, p: Parts) {
    forall t :: Occurs(off, p, t) ==> OffsetSampled(off, UtcValue(p), off(t))
  }

  /** The candidates are the occurrences if and only if the offset of every occurrence is sampled. */
  lemma CandidatesExactly(off: Zone, p: Parts)
    requires ValidZone(off) && ValidParts(p)
    ensures (forall t :: t in Candidates(off, p) <==> Occurs(off, p, t)) <==> Sampled(off, p)
  {
    hide Candidates, Occurs, OffsetSampled, UtcValue;
    forall t ensures t in Candidates(off, p) <==> Occurs(off, p, t) && OffsetSampled(off, UtcValue(p), off(t)) {
      CandidateExactly(off, p, t);
    }
  }

  lemma LongStretchesSampled(off: Zone, p: Parts)
    requires ValidZone(off) && LongStretches(off) && ValidParts(p)
    ensures Sampled(off, p)
  {
    hide LocalParts, UtcValue, SampledOffsets, OffsetSampled, LongStretches;
    var w := UtcValue(p);
    UtcValueWholeSecond(p);
    forall t | Occurs(off, p, t) ensures OffsetSampled(off, w, off(t)) {
      WallClock(off, p, t);
      OffsetIsSampled(off, w, t);
      SampledExactly(off, w, off(t));
    }
  }

  /** With stretches of four hours the candidates are exactly the occurrences. */
  lemma CandidatesExact(off: Zone, p: Parts)
    requires ValidZone(off) && LongStretches(off) && ValidParts(p)
    ensures forall t :: t in Candidates(off, p) <==> Occurs(off, p, t)
  {
    hide Candidates, Occurs, Sampled, LongStretches;
    LongStretchesSampled(off, p);
    CandidatesExactly(off, p);
  }

  lemma CandidateOccurs(off: Zone, p: Parts, t: int)
    requires ValidZone(off) && t in Candidates(off, p)
    ensures Occurs(off, p, t)
  {
    hide LocalParts, UtcValue, SampledOffset;
    var w := UtcValue(p);
    UtcValueWholeSecond(p);
    var o :| o in SampledOffsets(off, w) && LocalParts(off, w - o) == p && t == w - o;
    var k :| -12 <= k <= 12 && o == SampledOffset(off, w + 4 * k * HOUR);
    SampleWhole(w, k);
    SampleIsOffset(off, w + 4 * k * HOUR);
    assert off(w + 4 * k * HOUR) % SECOND == 0;
    SecondsAdd(w, o);
  }

  /** What the conversion promises when every offset in question is sampled: "nonexistent" when the clock never shows the time,
      otherwise the earliest or latest instant that shows it, and "ambiguous" on request when there is
      more than one. */
  lemma ConvertExact(value: string, off: Zone, mode: Disambiguation, p: Parts)
    requires ValidZone(off) && ParseLocalDateTime(value) == Some(p) && Sampled(off, p)
    ensures var r := Convert(value, off, mode);
      && (r == Nonexistent <==> forall t :: !Occurs(off, p, t))
      && (r == Ambiguous <==> mode == Reject && exists t, u :: t != u && Occurs(off, p, t) && Occurs(off, p, u))
      && (r.Converted? ==>
            && Occurs(off, p, r.instant)
            && (mode != Later ==> forall t :: Occurs(off, p, t) ==> r.instant <= t)
            && (mode != Earlier ==> forall t :: Occurs(off, p, t) ==> t <= r.instant))
      && r != Invalid
  {
    hide Candidates, ParseLocalDateTime, LocalParts, Sampled;
    ParseExact(value, p);
    CandidatesExactly(off, p);
    var c := Candidates(off, p);
    if c != {} {
      var t := Least(c);
      if |c| > 1 {
        var rest := c - {t};
        assert |rest| == |c| - 1;
        var u :| u in rest;
        assert t != u && Occurs(off, p, t) && Occurs(off, p, u);
      } else {
        assert |c - {t}| == 0;
        assert c == {t};
      }
    }
  }

  // ---- UTC to local ----------------------------------------------------------------------------

  function UtcToInstanceDateTimeLocal(off: Zone, t: int): string
    requires LocalParts(off, t).date.year >= 0
  {
    Render(LocalParts(off, t), false)
  }

  /** Formatting an instant that shows a whole minute and converting back brackets the instant, and
      returns it when the wall time is not repeated. */
  lemma FormatThenConvert(off: Zone, t: int)
    requires ValidZone(off) && Sampled(off, LocalParts(off, t))
    requires (t + off(t)) % MINUTE == 0 && 0 <= LocalParts(off, t).date.year <= 9999
    ensures var text := UtcToInstanceDateTimeLocal(off, t);
      var p := LocalParts(off, t);
      && Convert(text, off, Earlier).Converted? && Convert(text, off, Earlier).instant <= t
      && Convert(text, off, Later).Converted? && t <= Convert(text, off, Later).instant
      && ((forall u :: Occurs(off, p, u) ==> u == t) ==>
            forall mode :: Convert(text, off, mode) == Converted(t))
  {
    hide Convert, ParseLocalDateTime, Occurs, LocalParts, UtcToInstanceDateTimeLocal, Sampled;
    var p := LocalParts(off, t);
    var text := UtcToInstanceDateTimeLocal(off, t);
    MinuteText(off, t);
    ConvertExact(text, off, Earlier, p);
    ConvertExact(text, off, Later, p);
    if forall u :: Occurs(off, p, u) ==> u == t {
      forall mode ensures Convert(text, off, mode) == Converted(t) {
        ConvertExact(text, off, mode, p);
      }
    }
  }

  lemma MinuteText(off: Zone, t: int)
    requires ValidZone(off)
    requires (t + off(t)) % MINUTE == 0 && 0 <= LocalParts(off, t).date.year <= 9999
    ensures ParseLocalDateTime(UtcToInstanceDateTimeLocal(off, t)) == Some(LocalParts(off, t))
    ensures Occurs(off, LocalParts(off, t), t)
  {
    hide ParseLocalDateTime, Render, PartsOf, Trim, UtcValue;
    var p := LocalParts(off, t);
    assert off(t) % SECOND == 0;
    WholeMinute(t + off(t));
    SecondsAdd(t + off(t), off(t));
    assert t + off(t) - off(t) == t;
    RenderShaped(p, false);
    ParseByTrim(Render(p, false), p);
  }

  lemma WholeMinute(v: int)
    requires v % MINUTE == 0
    ensures PartsOf(v).second == 0 && v % SECOND == 0
  {
    hide PartsOf, DayNumber, DateOf;
    var p := PartsOf(v);
    var q := v / 60_000;
    assert v == q * 60_000 == (q * 60) * 1_000;
    assert UtcValue(p) == v;
    var n := DayNumber(p.date) * 1_440 + p.hour * 60 + p.minute;
    assert UtcValue(p) == n * 60_000 + p.second * 1_000;
    assert p.second == (q - n) * 60;
  }

  /** A zone whose offset changes once. */
  function ChangeZone(change: int, before: int, after: int): Zone {
    t => if t < change then before else after
  }

  /** Such zones, whatever the change, are among those the conversion is exact for. */
  lemma ChangeZoneFits(change: int, before: int, after: int)
    requires change % SECOND == 0 && before % SECOND == 0 && after % SECOND == 0 && -DAY < before < DAY && -DAY < after < DAY
    ensures ValidZone(ChangeZone(change, before, after)) && LongStretches(ChangeZone(change, before, after))
  {
    var off := ChangeZone(change, before, after);
    forall t ensures off(t) == off(t - t % SECOND) { WholeSecondOf(change, t); }
    forall t ensures Steady(off, t) {
      if t < change {
        var a := if t < change - 4 * HOUR then t else change - 4 * HOUR;
        assert InStretch(off, t, a, change);
      } else {
        assert InStretch(off, t, change, t + 4 * HOUR);
      }
    }
  }

  lemma WholeSecondOf(change: int, t: int)
    requires change % SECOND == 0
    ensures t < change <==> t - t % SECOND < change
  {
  }

  /** A zone with one stretch, just before `w`, that lasts one second less than four hours. */
  function ShortStretchZone(w: int): Zone {
    t => if w - 4 * HOUR + SECOND <= t < w then HOUR else 0
  }

  lemma ShortStretchZoneValid(w: int)
    requires w % SECOND == 0
    ensures ValidZone(ShortStretchZone(w))
    ensures ConstantOn(ShortStretchZone(w), w - 4 * HOUR + SECOND, w)
  {
    forall t ensures ShortStretchZone(w)(t) == ShortStretchZone(w)(t - t % SECOND) { SameSecond(w, t); }
  }

  lemma SameSecond(w: int, t: int)
    requires w % SECOND == 0
    ensures t < w <==> t - t % SECOND < w
    ensures w - 4 * HOUR + SECOND <= t <==> w - 4 * HOUR + SECOND <= t - t % SECOND
  {
  }

  /** Four hours is the exact sampling bound: for every wall time there is a zone with a stretch one
      second shorter in which an occurrence of that time is missed. */
  lemma ShortStretchIsMissed(p: Parts)
    requires ValidParts(p)
    ensures var w := UtcValue(p);
      var off := ShortStretchZone(w);
      && ValidZone(off) && ConstantOn(off, w - 4 * HOUR + SECOND, w)
      && Occurs(off, p, w - HOUR) && w - HOUR !in Candidates(off, p) && !Sampled(off, p)
  {
    hide UtcValue, LocalParts, Candidates;
    var w := UtcValue(p);
    UtcValueWholeSecond(p);
    ShortStretchZoneValid(w);
    var off := ShortStretchZone(w);
    SecondsAdd(w, HOUR);
    WallClock(off, p, w - HOUR);
    CandidateExactly(off, p, w - HOUR);
  }
}
