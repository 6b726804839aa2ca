/** AIU amounts: integer micros and their decimal text, printed by integer arithmetic or through decimal
    division, accepted by the rate grammar, and read back by decimal multiplication. */
module Aiu {
  import opened Outcomes
  import opened Numerals

  const MAX_INT64: nat := 9_223_372_036_854_775_807

  datatype AiuError = ScaleNotPositive

  // ---- decimal text ----------------------------------------------------------------------------

  function Whole(t: string): string { t[..PointAt(t)] }

  function Fraction(t: string): string { if PointAt(t) < |t| then t[PointAt(t) + 1..] else "" }

  function Join(whole: string, fraction: string): string {
    if fraction == "" then whole else whole + "." + fraction
  }

  predicate Decimals(t: string, k: nat) {
    IsDigits(Whole(t)) && IsDigits(Fraction(t)) && |Fraction(t)| <= k
  }

  /** The amount in units of the last of `k` decimal places. */
  function Units(t: string, k: nat): nat
    requires Decimals(t, k)
  {
    assert IsDigits(PadEnd(Fraction(t), k)) by { PadEndValue(Fraction(t), k); }
    Value(Whole(t)) * Pow10(k) + Value(PadEnd(Fraction(t), k))
  }

  /** The text has no superfluous zero or point. */
  predicate NormalForm(t: string, k: nat) {
    && Decimals(t, k) && Canonical(Whole(t)) && t == Join(Whole(t), Fraction(t))
    && (Fraction(t) != "" ==> Fraction(t)[|Fraction(t)| - 1] != '0')
  }

  lemma JoinParts(whole: string, fraction: string)
    requires IsDigits(whole)
    ensures Whole(Join(whole, fraction)) == whole && Fraction(Join(whole, fraction)) == fraction
  {
    var t := Join(whole, fraction);
    if fraction != "" { assert t[|whole|] == '.'; }
    assert PointAt(t) == |whole|;
  }

  /** A normal form is determined by its amount. */
  lemma NormalUnique(a: string, b: string, k: nat)
    requires NormalForm(a, k) && NormalForm(b, k) && Units(a, k) == Units(b, k)
    ensures a == b
  {
    hide Value, Pow10, Join, Whole, Fraction;
    PadEndValue(Fraction(a), k);
    PadEndValue(Fraction(b), k);
    var p, q := PadEnd(Fraction(a), k), PadEnd(Fraction(b), k);
    ValueBound(p);
    ValueBound(q);
    SplitUnique(Value(Whole(a)), Value(p), Value(Whole(b)), Value(q), Pow10(k));
    CanonicalInjective(Whole(a), Whole(b));
    ValueInjective(p, q);
    FractionUnique(Fraction(a), Fraction(b), k);
  }

  lemma SplitUnique(a: nat, x: nat, b: nat, y: nat, m: nat)
    requires x < m && y < m && a * m + x == b * m + y
    ensures a == b && x == y
  {
    if a < b { Gap(a, b, m); }
    if b < a { Gap(b, a, m); }
  }

  lemma {:induction false} Gap(a: nat, b: nat, m: nat)
    requires a < b
    ensures a * m + m <= b * m
    decreases b
  {
    assert (b - 1) * m + m == b * m;
    if a < b - 1 { Gap(a, b - 1, m); }
  }

  /** Division of non-negative integers, as the quotient and remainder it is defined by. */
  function Quotient(n: nat, m: nat): (q: nat)
    requires m > 0
    ensures q * m <= n < q * m + m
  {
    if n < m then 0
    else
      var q := Quotient(n - m, m);
      assert (q + 1) * m == q * m + m;
      q + 1
  }

  lemma FractionUnique(f: string, g: string, k: nat)
    requires |f| <= k && |g| <= k && PadEnd(f, k) == PadEnd(g, k)
    requires (f != "" ==> f[|f| - 1] != '0') && (g != "" ==> g[|g| - 1] != '0')
    ensures f == g
  {
    var p := PadEnd(f, k);
    assert p[..|f|] == f && p[..|g|] == g;
    assert forall i :: |f| <= i < k ==> p[i] == '0';
    assert forall i :: |g| <= i < k ==> p[i] == '0';
  }

  // ---- trailing zeros --------------------------------------------------------------------------

  /** `text.replace(/0+$/, "")` */
  function TrimZeros(s: string): (r: string)
    ensures r <= s && forall i :: |r| <= i < |s| ==> s[i] == '0'
    ensures r != "" ==> r[|r| - 1] != '0'
  {
    if s != "" && s[|s| - 1] == '0' then TrimZeros(s[..|s| - 1]) else s
  }

  lemma TrimPadded(s: string)
    requires IsDigits(s)
    ensures IsDigits(TrimZeros(s)) && PadEnd(TrimZeros(s), |s|) == s
    ensures Value(s) > 0 ==> TrimZeros(s) != ""
  {
    var r := TrimZeros(s);
    assert PadEnd(r, |s|) == s;
    PadEndValue(r, |s|);
  }

  lemma {:induction false} TrimShifted(s: string, j: nat)
    ensures TrimZeros(s + Zeros(j)) == TrimZeros(s)
    decreases j
  {
    hide TrimZeros;
    var t := s + Zeros(j);
    if j == 0 {
      assert t == s;
    } else {
      TrimShifted(s, j - 1);
      assert t[..|t| - 1] == s + Zeros(j - 1);
      TrimOne(t);
    }
  }

  /** The trimming of a decimal text: zeros at its end, then a point left there. */
  function TrimmedText(t: string): string {
    if PointAt(t) == |t| then t
    else
      var z := TrimZeros(t);
      if z != "" && z[|z| - 1] == '.' then z[..|z| - 1] else z
  }

  lemma {:induction false} TrimmedJoin(t: string)
    requires PointAt(t) < |t| && IsDigits(Whole(t)) && IsDigits(Fraction(t))
    ensures TrimmedText(t) == Join(Whole(t), TrimZeros(Fraction(t)))
  {
    hide TrimZeros, Whole, Fraction, Join, PointAt, IsDigits, PadEnd, Value;
    PointSplit(t);
    TrimFraction(Whole(t), Fraction(t));
    TrimPadded(Fraction(t));
    DropPoint(Whole(t), TrimZeros(Fraction(t)));
  }

  lemma {:induction false} PointSplit(t: string)
    requires PointAt(t) < |t|
    ensures t == Whole(t) + "." + Fraction(t)
  {
    hide PointAt;
    var p := PointAt(t);
    assert [t[p]] == ".";
    assert t == t[..p] + [t[p]] + t[p + 1..];
  }

  lemma DropPoint(whole: string, f: string)
    requires IsDigits(f)
    ensures var z := whole + "." + f;
      z != "" && Join(whole, f) == if z[|z| - 1] == '.' then z[..|z| - 1] else z
  {
    var z := whole + "." + f;
    assert f == "" ==> z[..|z| - 1] == whole;
    assert f != "" ==> z[|z| - 1] == f[|f| - 1];
  }

  lemma TrimmedIsNormal(t: string, k: nat)
    requires Decimals(t, k) && Canonical(Whole(t))
    ensures NormalForm(TrimmedText(t), k) && Units(TrimmedText(t), k) == Units(t, k)
  {
    hide Value, Pow10, TrimZeros, Whole, Fraction, TrimmedText;
    var whole, fraction := Whole(t), Fraction(t);
    if PointAt(t) == |t| {
      NoPoint(t);
    } else {
      TrimPadded(fraction);
      TrimmedJoin(t);
      JoinParts(whole, TrimZeros(fraction));
      PadLonger(TrimZeros(fraction), |fraction|, k);
    }
  }

  lemma NoPoint(t: string)
    requires PointAt(t) == |t|
    ensures TrimmedText(t) == t && Whole(t) == t && Fraction(t) == "" && Join(t, "") == t
  {
  }

  /** Trimming a text with a point trims its fraction. */
  lemma {:induction false} TrimFraction(head: string, fraction: string)
    ensures TrimZeros(head + "." + fraction) == head + "." + TrimZeros(fraction)
    decreases |fraction|
  {
    hide TrimZeros;
    var t := head + "." + fraction;
    if fraction == "" || fraction[|fraction| - 1] != '0' {
      NothingToTrim(t);
      if fraction != "" { NothingToTrim(fraction); }
    } else {
      var shorter := fraction[..|fraction| - 1];
      TrimFraction(head, shorter);
      assert t[..|t| - 1] == head + "." + shorter;
      TrimOne(t);
      TrimOne(fraction);
    }
  }

  lemma TrimOne(s: string)
    requires s != "" && s[|s| - 1] == '0'
    ensures TrimZeros(s) == TrimZeros(s[..|s| - 1])
  {
  }

  lemma NothingToTrim(s: string)
    requires s != "" && s[|s| - 1] != '0'
    ensures TrimZeros(s) == s
  {
  }

  lemma PadLonger(f: string, n: nat, k: nat)
    requires |f| <= n <= k
    ensures PadEnd(PadEnd(f, n), k) == PadEnd(f, k)
  {
  }

  // ---- printing --------------------------------------------------------------------------------

  /** Whole part, and the remainder padded to the width of the scale without its trailing zeros. */
  function DisplayUnsigned(absolute: nat, scale: nat): string
    requires scale > 0
  {
    var whole := Quotient(absolute, scale);
    var remainder := absolute - whole * scale;
    if remainder == 0 then ToText(whole)
    else ToText(whole) + "." + TrimZeros(PadStart(ToText(remainder), |ToText(scale)| - 1))
  }

  function DisplayAiu(value: int, scale: int): Result<string, AiuError> {
    if scale <= 0 then Err(ScaleNotPositive)
    else if value < 0 then Ok("-" + DisplayUnsigned(-value, scale))
    else Ok(DisplayUnsigned(value, scale))
  }

  lemma Pow10Text(k: nat)
    ensures |ToText(Pow10(k))| == k + 1
  {
    hide ToText, Value;
    ToTextCanonical(Pow10(k));
    ToTextLength(Pow10(k), k + 1);
    ValueBound(ToText(Pow10(k)));
    if |ToText(Pow10(k))| <= k { Pow10Monotone(|ToText(Pow10(k))|, k); }
  }

  /** Printed at a power of ten, an amount is in normal form and keeps its value. */
  lemma DisplayNormal(n: nat, k: nat)
    ensures DisplayAiu(n, Pow10(k)).Ok?
    ensures var t := DisplayAiu(n, Pow10(k)).value; NormalForm(t, k) && Units(t, k) == n
  {
    hide ToText, Value, Pow10, TrimZeros, Whole, Fraction, Quotient, PadStart, PadEnd;
    var m := Pow10(k);
    var whole := Quotient(n, m);
    var rest := n - whole * m;
    ToTextCanonical(whole);
    var t := DisplayAiu(n, m).value;
    if rest == 0 {
      assert t == Join(ToText(whole), "");
      JoinParts(ToText(whole), "");
      PadEndValue("", k);
      ValueEmpty();
    } else {
      Pow10Text(k);
      if k == 0 { ValueEmpty(); }
      FixedWidth(rest, k);
      var padded := PadStart(ToText(rest), k);
      TrimPadded(padded);
      assert t == Join(ToText(whole), TrimZeros(padded));
      JoinParts(ToText(whole), TrimZeros(padded));
    }
  }

  /** The displayed text of any signed amount identifies it. */
  lemma DisplayInjective(a: int, b: int, k: nat)
    requires DisplayAiu(a, Pow10(k)) == DisplayAiu(b, Pow10(k))
    ensures a == b
  {
    hide DisplayUnsigned, Pow10, NormalForm;
    var m := Pow10(k);
    var x, y := if a < 0 then -a else a, if b < 0 then -b else b;
    DisplayNormal(x, k);
    DisplayNormal(y, k);
    StartsWithDigit(x, m);
    StartsWithDigit(y, m);
    assert ("-" + DisplayUnsigned(x, m))[1..] == DisplayUnsigned(x, m);
    assert ("-" + DisplayUnsigned(y, m))[1..] == DisplayUnsigned(y, m);
  }

  lemma StartsWithDigit(n: nat, scale: nat)
    requires scale > 0
    ensures DisplayUnsigned(n, scale) != "" && IsDigit(DisplayUnsigned(n, scale)[0])
  {
    hide ToText, TrimZeros;
    var digits := ToText(Quotient(n, scale));
    assert DisplayUnsigned(n, scale)[0] == digits[0];
  }

  // ---- exact decimals --------------------------------------------------------------------------

  /** A non-negative decimal `coefficient / 10^places`. */
  datatype Decimal = Decimal(coefficient: nat, places: nat)

  /** Decimals are kept without trailing zeros after the point. */
  function Normalize(d: Decimal): (r: Decimal)
    ensures r.places <= d.places && d.coefficient == r.coefficient * Pow10(d.places - r.places)
    ensures r.places > 0 ==> r.coefficient % 10 != 0
    decreases d.places
  {
    if d.places > 0 && d.coefficient % 10 == 0 then
      var r := Normalize(Decimal(d.coefficient / 10, d.places - 1));
      assert d.coefficient == 10 * (d.coefficient / 10);
      assert Pow10(d.places - r.places) == 10 * Pow10(d.places - 1 - r.places);
      r
    else d
  }

  /** Plain notation: the digits, padded to one before the point, with the point inserted. */
  function PlainText(d: Decimal): string {
    var digits := PadStart(ToText(d.coefficient), d.places + 1);
    Join(digits[..|digits| - d.places], digits[|digits| - d.places..])
  }

  function MicrosToAiu(n: nat): string { TrimmedText(PlainText(Normalize(Decimal(n, 6)))) }

  lemma PlainTextParts(d: Decimal)
    ensures var t := PlainText(d);
      && Canonical(Whole(t)) && |Fraction(t)| == d.places && IsDigits(Fraction(t))
      && Value(Whole(t) + Fraction(t)) == d.coefficient
  {
    hide ToText, Value, Pow10;
    ToTextCanonical(d.coefficient);
    var digits := PadStart(ToText(d.coefficient), d.places + 1);
    PadStartValue(ToText(d.coefficient), d.places + 1);
    var n := |digits| - d.places;
    assert digits == digits[..n] + digits[n..] && digits[..n][0] == digits[0];
    assert digits[0] == '0' ==> n == 1;
    JoinParts(digits[..n], digits[n..]);
  }

  /** The amount of a decimal text from the value of all its digits. */
  lemma UnitsFromDigits(t: string, k: nat)
    requires Decimals(t, k)
    ensures IsDigits(Whole(t) + Fraction(t))
    ensures Units(t, k) == Value(Whole(t) + Fraction(t)) * Pow10(k - |Fraction(t)|)
  {
    hide Value, Pow10, Whole, Fraction;
    var whole, fraction := Whole(t), Fraction(t);
    ValueAppend(whole, fraction);
    PadEndValue(fraction, k);
    Pow10Add(|fraction|, k - |fraction|);
    Distribute(Value(whole), Pow10(|fraction|), Value(fraction), Pow10(k - |fraction|));
  }

  lemma PlainTextExact(d: Decimal, k: nat)
    requires d.places <= k
    ensures var t := PlainText(d);
      Decimals(t, k) && Canonical(Whole(t)) && Units(t, k) == d.coefficient * Pow10(k - d.places)
  {
    hide PlainText, Value, Pow10, Units, Whole, Fraction;
    PlainTextParts(d);
    UnitsFromDigits(PlainText(d), k);
  }

  lemma Distribute(a: nat, p: nat, b: nat, q: nat)
    ensures (a * p + b) * q == a * (p * q) + b * q
  {
  }

  lemma MicrosToAiuNormal(n: nat)
    ensures NormalForm(MicrosToAiu(n), 6) && Units(MicrosToAiu(n), 6) == n
  {
    hide PlainText, TrimmedText, Pow10, Units;
    var d := Normalize(Decimal(n, 6));
    PlainTextExact(d, 6);
    TrimmedIsNormal(PlainText(d), 6);
  }

  /** Division by a million and integer display print the same text. */
  lemma MicrosToAiuIsDisplay(n: nat)
    ensures DisplayAiu(n, Pow10(6)) == Ok(MicrosToAiu(n))
  {
    hide DisplayAiu, MicrosToAiu, NormalForm, Pow10;
    MicrosToAiuNormal(n);
    DisplayNormal(n, 6);
    NormalUnique(MicrosToAiu(n), DisplayAiu(n, Pow10(6)).value, 6);
  }

  // ---- the rate grammar ------------------------------------------------------------------------

  /** `(0|[1-9][0-9]{0,12})(\.[0-9]{1,6})?` */
  predicate RateGrammar(t: string) {
    && Canonical(Whole(t)) && |Whole(t)| <= 13 && IsDigits(Fraction(t)) && |Fraction(t)| <= 6
    && (PointAt(t) < |t| ==> Fraction(t) != "")
  }

  /** A whole part of at most thirteen digits and at most six decimal digits, joined by a point if there are
      any. */
  ghost predicate RateText(t: string, whole: string, fraction: string) {
    Canonical(whole) && |whole| <= 13 && IsDigits(fraction) && |fraction| <= 6 && t == Join(whole, fraction)
  }

  lemma RateGrammarExact(t: string)
    ensures RateGrammar(t) <==> exists whole, fraction :: RateText(t, whole, fraction)
  {
    hide IsDigits;
    if RateGrammar(t) {
      assert t == Join(Whole(t), Fraction(t));
      assert RateText(t, Whole(t), Fraction(t));
    }
    if whole, fraction :| RateText(t, whole, fraction) {
      JoinParts(whole, fraction);
      assert PointAt(t) < |t| ==> fraction != "" by {
        if fraction == "" { assert Whole(t) == t; }
      }
    }
  }

  predicate Accepts(t: string) { RateGrammar(t) && Units(t, 6) <= MAX_INT64 }

  function Parse(t: string): Decimal
    requires RateGrammar(t)
  {
    Decimal(Value(Whole(t) + Fraction(t)), |Fraction(t)|)
  }

  function TimesMillion(d: Decimal): Decimal { Decimal(d.coefficient * Pow10(6), d.places) }

  /** `toFixed(0)`: the nearest integer, halves up. */
  function ToInteger(d: Decimal): nat { Quotient(2 * d.coefficient + Pow10(d.places), 2 * Pow10(d.places)) }

  function AiuToMicros(t: string): nat
    requires RateGrammar(t)
  {
    ToInteger(TimesMillion(Parse(t)))
  }

  lemma NearestOfWhole(n: nat, p: nat)
    requires p > 0
    ensures Quotient(2 * (n * p) + p, 2 * p) == n
  {
    hide Quotient;
    var x := 2 * (n * p) + p;
    var q := Quotient(x, 2 * p);
    assert x == n * (2 * p) + p;
    SplitUnique(n, p, q, x - q * (2 * p), 2 * p);
  }

  /** Reading a rate gives its amount in micros, without rounding. */
  lemma AiuToMicrosExact(t: string)
    requires RateGrammar(t)
    ensures AiuToMicros(t) == Units(t, 6)
  {
    hide Value, Pow10, Whole, Fraction, Units, Quotient;
    var f := Fraction(t);
    UnitsFromDigits(t, 6);
    Pow10Add(|f|, 6 - |f|);
    Regroup(Value(Whole(t) + f), Pow10(6 - |f|), Pow10(|f|));
    NearestOfWhole(Units(t, 6), Pow10(|f|));
  }

  lemma Regroup(a: nat, b: nat, c: nat)
    ensures a * (c * b) == a * b * c
  {
  }

  lemma Million()
    ensures Pow10(6) == 1_000_000
  {
    assert Pow10(3) == 1_000;
    Pow10Add(3, 3);
  }

  lemma NormalIsRate(t: string, n: nat)
    requires NormalForm(t, 6) && Units(t, 6) == n && n <= MAX_INT64
    ensures Accepts(t)
  {
    hide Value, Pow10;
    Million();
    PadEndValue(Fraction(t), 6);
    if Value(Whole(t)) > 0 {
      assert Value(Whole(t)) < Pow10(13) by { ThirteenDigits(); WholeSmall(Value(Whole(t)), n); }
      CanonicalNonZero(Whole(t));
      LengthFromValue(Whole(t), 13);
    } else {
      ZeroText(Whole(t));
    }
  }

  lemma WholeSmall(w: nat, n: nat)
    requires w * 1_000_000 <= n <= MAX_INT64
    ensures w < 10_000_000_000_000
  {
  }

  lemma ThirteenDigits()
    ensures Pow10(13) == 10_000_000_000_000
  {
    Million();
    Pow10Add(6, 6);
    assert Pow10(13) == 10 * Pow10(12);
  }

  lemma CanonicalNonZero(s: string)
    requires Canonical(s) && Value(s) > 0
    ensures s[0] != '0'
  {
    assert s == ['0'] ==> s[..0] == "";
  }

  lemma ZeroText(s: string)
    requires Canonical(s) && Value(s) == 0
    ensures |s| == 1
  {
    if s[0] != '0' { ValuePositive(s); }
  }

  /** Every storable amount prints as a rate that the grammar accepts and that reads back the same. */
  lemma DisplayRoundTrip(n: nat)
    requires n <= MAX_INT64
    ensures DisplayAiu(n, 1_000_000).Ok?
    ensures var t := DisplayAiu(n, 1_000_000).value; Accepts(t) && AiuToMicros(t) == n
  {
    hide DisplayAiu, AiuToMicros, NormalForm, Pow10;
    Million();
    DisplayNormal(n, 6);
    var t := DisplayAiu(n, 1_000_000).value;
    NormalIsRate(t, n);
    AiuToMicrosExact(t);
  }

  /** Every accepted rate, converted to micros and back, is its text without trailing zeros. */
  lemma RateRoundTrip(t: string)
    requires Accepts(t)
    ensures AiuToMicros(t) <= MAX_INT64 && MicrosToAiu(AiuToMicros(t)) == TrimmedText(t)
  {
    hide AiuToMicros, MicrosToAiu, NormalForm, TrimmedText, Pow10;
    AiuToMicrosExact(t);
    MicrosToAiuNormal(AiuToMicros(t));
    TrimmedIsNormal(t, 6);
    NormalUnique(MicrosToAiu(AiuToMicros(t)), TrimmedText(t), 6);
  }

  // ---- significant digits ----------------------------------------------------------------------

  /** The digits of a coefficient that decimal arithmetic has to keep. */
  function SignificantDigits(n: nat): nat { |TrimZeros(ToText(n))| }

  lemma {:induction false} ShiftedText(n: nat, j: nat)
    requires n > 0
    ensures ToText(n * Pow10(j)) == ToText(n) + Zeros(j)
    decreases j
  {
    if j == 0 {
      assert ToText(n) + Zeros(0) == ToText(n);
    } else {
      ShiftedText(n, j - 1);
      var m := n * Pow10(j - 1);
      assert n * Pow10(j) == 10 * m by { TenTimes(n, Pow10(j - 1)); }
      assert m > 0 by { PositiveProduct(n, Pow10(j - 1)); }
      assert ToText(10 * m) == ToText(m) + [Digit(0)];
      assert Zeros(j) == Zeros(j - 1) + [Digit(0)];
    }
  }

  lemma TenTimes(n: nat, p: nat)
    ensures n * (10 * p) == 10 * (n * p)
  {
  }

  lemma PositiveProduct(n: nat, p: nat)
    requires n > 0 && p > 0
    ensures n * p > 0
  {
  }

  lemma FewDigits(n: nat, width: nat)
    requires n < Pow10(width) && width > 0
    ensures SignificantDigits(n) <= width
  {
    ToTextLength(n, width);
  }

  /** The operand and the product of reading a rate, and the dividend of printing micros, have at most
      nineteen significant digits, one less than the twenty that decimal arithmetic keeps. */
  lemma NoRounding(t: string, n: nat)
    requires RateGrammar(t) && n <= MAX_INT64
    ensures SignificantDigits(Parse(t).coefficient) <= 19
    ensures SignificantDigits(TimesMillion(Parse(t)).coefficient) <= 19
    ensures SignificantDigits(n) <= 19 && SignificantDigits(Normalize(Decimal(n, 6)).coefficient) <= 19
  {
    hide Value, Pow10, ToText, TrimZeros, Whole, Fraction, SignificantDigits, Normalize;
    var digits := Whole(t) + Fraction(t);
    ValueBound(digits);
    Pow10Monotone(|digits|, 19);
    FewDigits(Value(digits), 19);
    ShiftedDigits(Value(digits), 6);
    NineteenDigits();
    FewDigits(n, 19);
    var q := Normalize(Decimal(n, 6));
    ShiftedDigits(q.coefficient, 6 - q.places);
  }

  /** Trailing zeros are not significant. */
  lemma ShiftedDigits(n: nat, j: nat)
    ensures SignificantDigits(n * Pow10(j)) == SignificantDigits(n)
  {
    hide ToText, TrimZeros, Pow10;
    if n > 0 {
      ShiftedText(n, j);
      TrimShifted(ToText(n), j);
    }
  }

  lemma NineteenDigits()
    ensures Pow10(19) > MAX_INT64
  {
    ThirteenDigits();
    Million();
    Pow10Add(13, 6);
  }
}
