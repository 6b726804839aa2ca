/** Decimal numerals: the text of non-negative integers as `BigInt.prototype.toString` prints them and
    as the service's numeral grammars read them. */
module Numerals {

  function Pow10(k: nat): (r: nat)
    ensures r > 0
  {
    if k == 0 then 1 else 10 * Pow10(k - 1)
  }

  predicate IsDigit(c: char) { '0' <= c <= '9' }

  predicate IsDigits(s: string) { forall i :: 0 <= i < |s| ==> IsDigit(s[i]) }

  function Digit(d: nat): (c: char)
    requires d < 10
    ensures IsDigit(c) && DigitValue(c) == d
  {
    '0' + d as char
  }

  function DigitValue(c: char): (d: nat)
    requires IsDigit(c)
    ensures d < 10
  {
    c as int - '0' as int
  }

  function Value(s: string): nat
    requires IsDigits(s)
  {
    if s == [] then 0 else Value(s[..|s| - 1]) * 10 + DigitValue(s[|s| - 1])
  }

  function ToText(n: nat): (s: string)
    ensures |s| > 0 && IsDigits(s)
  {
    if n < 10 then [Digit(n)] else ToText(n / 10) + [Digit(n % 10)]
  }

  /** The grammar `0|[1-9][0-9]*`. */
  predicate Canonical(s: string) {
    |s| > 0 && IsDigits(s) && (s[0] == '0' ==> |s| == 1)
  }

  lemma ValueStep(s: string, c: char)
    requires IsDigits(s) && IsDigit(c)
    ensures IsDigits(s + [c]) && Value(s + [c]) == Value(s) * 10 + DigitValue(c)
  {
    assert (s + [c])[..|s|] == s;
  }

  lemma {:induction false} ToTextCanonical(n: nat)
    ensures Canonical(ToText(n)) && Value(ToText(n)) == n
    ensures n > 0 ==> ToText(n)[0] != '0'
  {
    if n < 10 {
      assert ToText(n) == [] + [Digit(n)];
      ValueStep([], Digit(n));
    } else {
      var q, d := n / 10, n % 10;
      ToTextCanonical(q);
      ValueStep(ToText(q), Digit(d));
      assert q > 0 && n == q * 10 + d;
      assert ToText(n) == ToText(q) + [Digit(d)];
      assert ToText(n)[0] == ToText(q)[0];
    }
  }

  lemma {:induction false} ValueBound(s: string)
    requires IsDigits(s)
    ensures Value(s) < Pow10(|s|)
  {
    if s != [] { ValueBound(s[..|s| - 1]); }
  }

  lemma {:induction false} ValueAppend(a: string, b: string)
    requires IsDigits(a) && IsDigits(b)
    ensures IsDigits(a + b) && Value(a + b) == Value(a) * Pow10(|b|) + Value(b)
  {
    hide Value, Pow10;
    ValueEmpty();
    if b == [] {
      assert a + b == a;
    } else {
      var b', c := b[..|b| - 1], b[|b| - 1];
      ValueAppend(a, b');
      ValueStep(a + b', c);
      assert a + b == (a + b') + [c];
      assert b == b' + [c];
      ValueStep(b', c);
      ShiftDigit(Value(a), Pow10(|b'|), Value(b'), DigitValue(c));
    }
  }

  lemma ValueEmpty()
    ensures Value([]) == 0 && Pow10(0) == 1 && forall k: nat :: Pow10(k + 1) == 10 * Pow10(k)
  {
  }

  lemma ShiftDigit(v: int, p: int, w: int, d: int)
    ensures (v * p + w) * 10 + d == v * (10 * p) + (w * 10 + d)
  {
  }

  /** Digit strings of one length are determined by their value. */
  lemma {:induction false} ValueInjective(a: string, b: string)
    requires IsDigits(a) && IsDigits(b) && |a| == |b| && Value(a) == Value(b)
    ensures a == b
  {
    if a != [] {
      ValueInjective(a[..|a| - 1], b[..|b| - 1]);
      assert a == a[..|a| - 1] + [a[|a| - 1]] && b == b[..|b| - 1] + [b[|b| - 1]];
    }
  }

  lemma {:induction false} ValuePositive(s: string)
    requires IsDigits(s) && |s| > 0 && s[0] != '0'
    ensures Value(s) >= Pow10(|s| - 1)
  {
    if |s| > 1 { ValuePositive(s[..|s| - 1]); }
  }

  lemma {:induction false} Pow10Monotone(a: nat, b: nat)
    requires a <= b
    ensures Pow10(a) <= Pow10(b)
  {
    if a < b { Pow10Monotone(a, b - 1); }
  }

  lemma {:induction false} Pow10Add(a: nat, b: nat)
    ensures Pow10(a + b) == Pow10(a) * Pow10(b)
  {
    if a > 0 { Pow10Add(a - 1, b); }
  }

  /** Canonical numerals are injective, so comparing the texts compares the integers. */
  lemma CanonicalInjective(a: string, b: string)
    requires Canonical(a) && Canonical(b) && Value(a) == Value(b)
    ensures a == b
  {
    CanonicalLength(a, b);
    CanonicalLength(b, a);
    ValueInjective(a, b);
  }

  lemma CanonicalLength(a: string, b: string)
    requires Canonical(a) && Canonical(b) && Value(a) == Value(b)
    ensures |a| <= |b|
  {
    ValueBound(b);
    if a[0] != '0' { LengthFromValue(a, |b|); }
  }

  /** A numeral without a leading zero is no longer than its value allows. */
  lemma LengthFromValue(a: string, width: nat)
    requires IsDigits(a) && |a| > 0 && a[0] != '0' && Value(a) < Pow10(width)
    ensures |a| <= width
  {
    ValuePositive(a);
    if width <= |a| - 1 { Pow10Monotone(width, |a| - 1); }
  }

  function Zeros(k: nat): (s: string)
    ensures |s| == k && IsDigits(s) && forall i :: 0 <= i < k ==> s[i] == '0'
  {
    seq(k, _ => '0')
  }

  lemma {:induction false} ZerosValue(k: nat)
    ensures Value(Zeros(k)) == 0
  {
    if k > 0 {
      ZerosValue(k - 1);
      assert Zeros(k)[..k - 1] == Zeros(k - 1);
    }
  }

  /** `text.padStart(width, "0")` */
  function PadStart(s: string, width: nat): (r: string)
    ensures |s| >= width ==> r == s
    ensures |s| < width ==> |r| == width
  {
    if |s| >= width then s else Zeros(width - |s|) + s
  }

  /** `text.padEnd(width, "0")` */
  function PadEnd(s: string, width: nat): (r: string)
    ensures |s| >= width ==> r == s
    ensures |s| < width ==> |r| == width
  {
    if |s| >= width then s else s + Zeros(width - |s|)
  }

  lemma PadStartValue(s: string, width: nat)
    requires IsDigits(s)
    ensures IsDigits(PadStart(s, width)) && Value(PadStart(s, width)) == Value(s)
  {
    if |s| < width {
      ZerosValue(width - |s|);
      ValueAppend(Zeros(width - |s|), s);
    }
  }

  lemma PadEndValue(s: string, width: nat)
    requires IsDigits(s) && |s| <= width
    ensures IsDigits(PadEnd(s, width)) && Value(PadEnd(s, width)) == Value(s) * Pow10(width - |s|)
  {
    if |s| < width {
      ZerosValue(width - |s|);
      ValueAppend(s, Zeros(width - |s|));
    }
  }

  lemma ToTextLength(n: nat, width: nat)
    requires n < Pow10(width) && width > 0
    ensures |ToText(n)| <= width
  {
    ToTextCanonical(n);
    if n > 0 { LengthFromValue(ToText(n), width); }
  }

  /** Printing at a fixed width and reading back, in both directions. */
  lemma FixedWidth(n: nat, width: nat)
    requires n < Pow10(width) && width > 0
    ensures |PadStart(ToText(n), width)| == width
    ensures IsDigits(PadStart(ToText(n), width)) && Value(PadStart(ToText(n), width)) == n
  {
    ToTextLength(n, width);
    ToTextCanonical(n);
    PadStartValue(ToText(n), width);
  }

  lemma FixedWidthText(s: string)
    requires IsDigits(s) && |s| > 0
    ensures PadStart(ToText(Value(s)), |s|) == s
  {
    ValueBound(s);
    FixedWidth(Value(s), |s|);
    ValueInjective(PadStart(ToText(Value(s)), |s|), s);
  }

  /** The position of the first point, or the length of the text. */
  function PointAt(t: string): (p: nat)
    ensures p <= |t| && (p < |t| ==> t[p] == '.') && forall i :: 0 <= i < p ==> t[i] != '.'
  {
    if t == "" || t[0] == '.' then 0 else 1 + PointAt(t[1..])
  }
}
