/** What number a cost text denotes, and what that means for the report. */
module ReconcilerCosts {
  import opened Numerals
  import opened Reconciler
  import opened ReconcilerProperties
  import opened ReconcilerReport
  import ReconcilerExport
  import Aiu

  /** A whole part and any number of decimal digits, joined by a point if there are any. */
  predicate Written(s: string, whole: string, fraction: string) {
    Canonical(whole) && IsDigits(fraction) && s == Aiu.Join(whole, fraction)
  }

  /** The accepted texts are exactly those. */
  lemma CostGrammar(s: string)
    ensures IsCost(s) <==> exists whole, fraction :: Written(s, whole, fraction)
  {
    hide Canonical, IsDigits;
    if IsCost(s) {
      assert IsDigits(Aiu.Fraction(s)) by { NoDigits(); }
      assert s == Aiu.Join(Aiu.Whole(s), Aiu.Fraction(s));
      assert Written(s, Aiu.Whole(s), Aiu.Fraction(s));
    }
    if whole, fraction :| Written(s, whole, fraction) { CostExact(s, whole, fraction); }
  }

  lemma NoDigits()
    ensures IsDigits("")
  {
  }

  /** A cost with `n` decimal digits is the number its digits make without the point, over ten to the
      power `n`. */
  lemma CostExact(s: string, whole: string, fraction: string)
    requires Written(s, whole, fraction)
    ensures IsCost(s) && IsDigits(whole + fraction)
    ensures Cost(s) * Pow10(|fraction|) as real == Value(whole + fraction) as real
  {
    hide Value, Pow10, IsDigits;
    CanonicalDigits(whole);
    Aiu.JoinParts(whole, fraction);
    assert Aiu.Whole(s) == whole && Aiu.Fraction(s) == fraction;
    ValueAppend(whole, fraction);
    var p := Pow10(|fraction|);
    if fraction == "" {
      assert PointAt(s) == |s| by { Pointless(whole); }
      assert s[..|s|] == s;
      ValueEmpty();
    } else {
      assert PointAt(s) == |whole|;
      assert s[..|whole|] == whole && s[|whole| + 1..] == fraction;
      Quotients(Value(whole), Value(fraction), p);
    }
  }

  lemma CanonicalDigits(s: string)
    requires Canonical(s)
    ensures IsDigits(s)
  {
  }

  lemma Pointless(s: string)
    requires IsDigits(s)
    ensures PointAt(s) == |s|
  {
  }

  lemma Quotients(a: nat, b: nat, p: nat)
    requires p > 0
    ensures (a as real + b as real / p as real) * p as real == (a * p + b) as real
  {
    assert (b as real / p as real) * p as real == b as real;
  }

  /** Reading what `toFixed(18)` prints gives the amount back, if it has at most eighteen places. */
  lemma CostOfFixed(x: real, n: nat)
    requires x >= 0.0 && x * ReconcilerExport.UNIT as real == n as real
    ensures IsCost(ReconcilerExport.Fixed(x)) && Cost(ReconcilerExport.Fixed(x)) == x
  {
    hide ReconcilerExport.Scaled, ToText, Value, Pow10, PadStart, Aiu.Join, Cost, IsCost, Canonical;
    var unit := ReconcilerExport.UNIT;
    ReconcilerExport.ScaledExact(x, n);
    ReconcilerExport.UnitIsPower();
    var q, r := n / unit, n % unit;
    assert n == q * unit + r;
    ToTextCanonical(q);
    FixedWidth(r, 18);
    var whole, fraction := ToText(q), PadStart(ToText(r), 18);
    var s := ReconcilerExport.Fixed(x);
    assert s == Aiu.Join(whole, fraction);
    CostExact(s, whole, fraction);
    ValueAppend(whole, fraction);
    assert Cost(s) * unit as real == n as real;
  }

  /** What `toFixed(18)` prints for any amount: a sign, then the nearest number of eighteen places, halves up. */
  lemma FixedNearest(x: real)
    ensures ReconcilerExport.Fixed(x) == (if x < 0.0 then "-" else "") + ReconcilerExport.Fixed(AbsReal(x))
    ensures IsCost(ReconcilerExport.Fixed(AbsReal(x)))
    ensures var unit := ReconcilerExport.UNIT as real;
      var printed := Cost(ReconcilerExport.Fixed(AbsReal(x)));
      && printed * unit == (printed * unit).Floor as real
      && printed * unit - 0.5 <= AbsReal(x) * unit < printed * unit + 0.5
  {
    hide ToText, Value, Pow10, PadStart, Aiu.Join, Cost, IsCost, Canonical;
    var unit, a := ReconcilerExport.UNIT as real, AbsReal(x);
    var n := ReconcilerExport.Scaled(x);
    var y := n as real / unit;
    assert y * unit == n as real;
    CostOfFixed(y, n);
    ReconcilerExport.ScaledExact(y, n);
    assert ReconcilerExport.Scaled(a) == n && ReconcilerExport.Fixed(a) == ReconcilerExport.Fixed(y);
    assert (n as real).Floor == n;
  }

  /** Amounts that print alike differ by at most one unit of the eighteenth place. */
  lemma FixedSeparates(x: real, y: real)
    requires x >= 0.0 && y >= 0.0 && ReconcilerExport.Fixed(x) == ReconcilerExport.Fixed(y)
    ensures AbsReal(x - y) * ReconcilerExport.UNIT as real <= 1.0
  {
    hide ReconcilerExport.Fixed, Cost, IsCost;
    FixedNearest(x);
    FixedNearest(y);
    var unit := ReconcilerExport.UNIT as real;
    assert (x - y) * unit == x * unit - y * unit && (y - x) * unit == y * unit - x * unit;
  }

  // ---- the report ------------------------------------------------------------------------------

  /** The costs of a pair, written with their digits, and the distance at which they are reported. */
  lemma CostsReported(input: Input, parse: DateParser, d: Dimensions, a: string, f: string, b: string, g: string)
    requires ValidInput(input, parse) && RowsWith(input.pgRows, d) != [] && RowsWith(input.chRows, d) != []
    requires Written(RowsWith(input.pgRows, d)[0].metrics.providerCost, a, f)
    requires Written(RowsWith(input.chRows, d)[0].metrics.providerCost, b, g)
    requires RowsWith(input.pgRows, d)[0].metrics.aiuMicros == RowsWith(input.chRows, d)[0].metrics.aiuMicros
    ensures IsDigits(a + f) && IsDigits(b + g) && Reconcile(input, parse).Ok? && input.tolerance.providerCost.Some?
    ensures var pg, ch := RowsWith(input.pgRows, d)[0], RowsWith(input.chRows, d)[0];
      var gap := AbsReal(Value(a + f) as real / Pow10(|f|) as real - Value(b + g) as real / Pow10(|g|) as real);
      forall kind :: kind == ProvisionalOfficialDeltaPending || kind == LedgerProjectionMissing ==>
        (HasFor(Reconcile(input, parse).value, kind, d) <==>
           && gap > input.tolerance.providerCost.value
           && (kind == ProvisionalOfficialDeltaPending <==> pg.officialDeltaPending || ch.officialDeltaPending))
  {
    hide Reconcile, RowsWith, ValidInput, Written, Cost, IsCost, Pow10, HasFor, AbsReal, Value, Canonical;
    var pg, ch := RowsWith(input.pgRows, d)[0], RowsWith(input.chRows, d)[0];
    CostExact(pg.metrics.providerCost, a, f);
    CostExact(ch.metrics.providerCost, b, g);
    Divided(Cost(pg.metrics.providerCost), Pow10(|f|), Value(a + f));
    Divided(Cost(ch.metrics.providerCost), Pow10(|g|), Value(b + g));
    ReportExact(input, parse, d, ProvisionalOfficialDeltaPending);
    ReportExact(input, parse, d, LedgerProjectionMissing);
  }

  lemma Divided(x: real, p: nat, v: nat)
    requires p > 0 && x * p as real == v as real
    ensures x == v as real / p as real
  {
    assert x * p as real / p as real == x;
  }

  /** One unit in the last of `n` places, everything else equal, is reported exactly when ten to the power
      `-n` exceeds the tolerance. */
  lemma LastPlaceReported(input: Input, parse: DateParser, d: Dimensions, a: string, f: string, b: string, g: string)
    requires ValidInput(input, parse) && RowsWith(input.pgRows, d) != [] && RowsWith(input.chRows, d) != []
    requires Written(RowsWith(input.pgRows, d)[0].metrics.providerCost, a, f)
    requires Written(RowsWith(input.chRows, d)[0].metrics.providerCost, b, g)
    requires RowsWith(input.pgRows, d)[0].metrics.aiuMicros == RowsWith(input.chRows, d)[0].metrics.aiuMicros
    requires IsDigits(a + f) && IsDigits(b + g) && |f| == |g| && Abs(Value(a + f) - Value(b + g)) == 1
    ensures Reconcile(input, parse).Ok? && input.tolerance.providerCost.Some?
    ensures HasFor(Reconcile(input, parse).value, LedgerProjectionMissing, d)
            || HasFor(Reconcile(input, parse).value, ProvisionalOfficialDeltaPending, d)
            <==> 1.0 / Pow10(|f|) as real > input.tolerance.providerCost.value
  {
    hide Reconcile, RowsWith, ValidInput, Written, Pow10, HasFor, Value;
    CostsReported(input, parse, d, a, f, b, g);
    OneUnit(Value(a + f), Value(b + g), Pow10(|f|));
  }

  lemma OneUnit(x: nat, y: nat, p: nat)
    requires p > 0 && Abs(x - y) == 1
    ensures AbsReal(x as real / p as real - y as real / p as real) == 1.0 / p as real
  {
    var q := p as real;
    assert x as real / q - y as real / q == (x as real - y as real) / q;
    assert 1.0 / q > 0.0 && -1.0 / q == -(1.0 / q);
  }
}
