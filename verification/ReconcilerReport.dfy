/** Which differences a reconciliation reports: for every dimension and every kind, exactly when. */
module ReconcilerReport {
  import opened Outcomes
  import opened Numerals
  import opened Reconciler
  import opened ReconcilerProperties

  /** The rows of one side with given dimensions, in order. */
  function RowsWith(rows: seq<Row>, d: Dimensions): (r: seq<Row>)
    ensures forall x :: x in r ==> x in rows && x.dimensions == d
  {
    if rows == [] then []
    else
      var n := |rows| - 1;
      assert rows == rows[..n] + [rows[n]];
      RowsWith(rows[..n], d) + if rows[n].dimensions == d then [rows[n]] else []
  }

  lemma {:induction false} RowsWithKey(rows: seq<Row>, d: Dimensions)
    ensures RowsWith(rows, d) == RowsFor(rows, DimensionsKey(d))
  {
    hide DimensionsKey;
    if rows != [] {
      var n := |rows| - 1;
      RowsWithKey(rows[..n], d);
      DimensionsKeyInjective(rows[n].dimensions, d);
    }
  }

  // ---- when a difference is warranted ----------------------------------------------------------

  ghost predicate CostDiffers(pg: Row, ch: Row, t: Tolerance)
    requires ValidMetrics(pg.metrics) && ValidMetrics(ch.metrics) && ValidTolerance(t)
  {
    AbsReal(Cost(pg.metrics.providerCost) - Cost(ch.metrics.providerCost)) > t.providerCost.value
  }

  ghost predicate AiuDiffers(pg: Row, ch: Row, t: Tolerance)
    requires ValidMetrics(pg.metrics) && ValidMetrics(ch.metrics) && ValidTolerance(t)
  {
    Abs(Value(pg.metrics.aiuMicros) - Value(ch.metrics.aiuMicros)) > Value(t.aiuMicros)
  }

  ghost predicate PairWarrants(kind: DiffType, pg: Row, ch: Row, t: Tolerance)
    requires ValidMetrics(pg.metrics) && ValidMetrics(ch.metrics) && ValidTolerance(t) && ValidCounts(pg)
  {
    var pending := pg.officialDeltaPending || ch.officialDeltaPending;
    match kind
    case PayloadHashConflict => pg.payloadHashConflict || ch.payloadHashConflict
    case ModelIdentityMismatch => pg.modelIdentityFingerprint != ch.modelIdentityFingerprint
    case PriceVersionMismatch => pg.costVersionId != ch.costVersionId
    case AiuRateVersionMismatch => pg.aiuVersionId != ch.aiuVersionId
    case UsageNormalizationMismatch => !SameUsage(pg.metrics, ch.metrics)
    case ProvisionalOfficialDeltaPending => CostDiffers(pg, ch, t) && pending
    case LedgerProjectionMissing => (CostDiffers(pg, ch, t) && !pending) || AiuDiffers(pg, ch, t)
    case LateEvent => Value(pg.lateEventCount) > 0
    case AdjustmentNotProjected => Value(pg.unprojectedAdjustmentCount) > 0
    case _ => false
  }

  ghost predicate Declares(rows: seq<Row>) { exists r :: r in rows && DeclaredCount(r) > 0 }

  ghost predicate Usable(pg: seq<Row>, ch: seq<Row>, t: Tolerance) {
    && AllValid(pg) && AllValid(ch) && ValidTolerance(t) && (pg != [] || ch != [])
    && (forall r :: r in pg ==> ValidCounts(r))
    && (pg != [] ==> pg[0] in pg && ValidMetrics(pg[0].metrics)) && (ch != [] ==> ch[0] in ch && ValidMetrics(ch[0].metrics))
  }

  /** When a kind of difference is due for the rows of one dimension. */
  ghost predicate Warranted(kind: DiffType, pg: seq<Row>, ch: seq<Row>, t: Tolerance)
    requires Usable(pg, ch, t)
  {
    match kind
    case DuplicateProjection => |pg| > 1 || |ch| > 1 || Declares(pg) || Declares(ch)
    case PgMissing => pg == []
    case ChMissing => ch == []
    case _ => pg != [] && ch != [] && PairWarrants(kind, pg[0], ch[0], t)
  }

  function MetricsOf(rows: seq<Row>): Option<Metrics> { if rows == [] then None else Some(rows[0].metrics) }

  /** A difference of these rows carries their first metrics on each side and its kind's severity. */
  predicate About(x: Diff, d: Dimensions, pg: seq<Row>, ch: seq<Row>) {
    x.dimensions == Some(d) && x.pgValues == MetricsOf(pg) && x.chValues == MetricsOf(ch) && x.severity == SeverityOf(x.kind)
  }

  ghost predicate Has(out: seq<Diff>, kind: DiffType) { exists x :: x in out && x.kind == kind }

  ghost predicate AllAbout(out: seq<Diff>, d: Dimensions, pg: seq<Row>, ch: seq<Row>) {
    forall x :: x in out ==> About(x, d, pg, ch)
  }

  lemma HasAppend(a: seq<Diff>, b: seq<Diff>, kind: DiffType)
    ensures Has(a + b, kind) <==> Has(a, kind) || Has(b, kind)
  {
    if Has(a, kind) { var x :| x in a && x.kind == kind; assert x in a + b; }
    if Has(b, kind) { var x :| x in b && x.kind == kind; assert x in a + b; }
  }

  lemma HasWhen(condition: bool, x: Diff, kind: DiffType)
    ensures Has(When(condition, x), kind) <==> condition && x.kind == kind
  {
    if condition { assert x in When(condition, x); }
  }

  lemma AboutAppend(a: seq<Diff>, b: seq<Diff>, d: Dimensions, pg: seq<Row>, ch: seq<Row>)
    requires AllAbout(a, d, pg, ch) && AllAbout(b, d, pg, ch)
    ensures AllAbout(a + b, d, pg, ch)
  {
    hide About;
  }

  // ---- one pair --------------------------------------------------------------------------------

  lemma IdentityKinds(pg: Row, ch: Row, kind: DiffType)
    ensures Has(IdentityDiffs(pg, ch), kind) <==>
      || (kind == PayloadHashConflict && (pg.payloadHashConflict || ch.payloadHashConflict))
      || (kind == ModelIdentityMismatch && pg.modelIdentityFingerprint != ch.modelIdentityFingerprint)
      || (kind == PriceVersionMismatch && pg.costVersionId != ch.costVersionId)
      || (kind == AiuRateVersionMismatch && pg.aiuVersionId != ch.aiuVersionId)
    ensures AllAbout(IdentityDiffs(pg, ch), pg.dimensions, [pg], [ch])
  {
    hide Has, When, Samples, SeverityOf;
    var plain := (k: DiffType) => MakeDiff(k, Some(pg.dimensions), Some(pg), Some(ch), Some(1), None, []);
    var a := When(pg.payloadHashConflict || ch.payloadHashConflict, plain(PayloadHashConflict));
    var b := When(pg.modelIdentityFingerprint != ch.modelIdentityFingerprint, plain(ModelIdentityMismatch));
    var c := When(pg.costVersionId != ch.costVersionId, plain(PriceVersionMismatch));
    var e := When(pg.aiuVersionId != ch.aiuVersionId, plain(AiuRateVersionMismatch));
    HasWhen(pg.payloadHashConflict || ch.payloadHashConflict, plain(PayloadHashConflict), kind);
    HasWhen(pg.modelIdentityFingerprint != ch.modelIdentityFingerprint, plain(ModelIdentityMismatch), kind);
    HasWhen(pg.costVersionId != ch.costVersionId, plain(PriceVersionMismatch), kind);
    HasWhen(pg.aiuVersionId != ch.aiuVersionId, plain(AiuRateVersionMismatch), kind);
    HasAppend(a, b, kind);
    HasAppend(a + b, c, kind);
    HasAppend(a + b + c, e, kind);
    IdentityAbout(pg, ch);
  }

  lemma IdentityAbout(pg: Row, ch: Row)
    ensures AllAbout(IdentityDiffs(pg, ch), pg.dimensions, [pg], [ch])
  {
    hide Samples, SeverityOf, When, AllAbout;
    var d := pg.dimensions;
    var plain := (k: DiffType) => MakeDiff(k, Some(d), Some(pg), Some(ch), Some(1), None, []);
    var a := When(pg.payloadHashConflict || ch.payloadHashConflict, plain(PayloadHashConflict));
    var b := When(pg.modelIdentityFingerprint != ch.modelIdentityFingerprint, plain(ModelIdentityMismatch));
    var c := When(pg.costVersionId != ch.costVersionId, plain(PriceVersionMismatch));
    var e := When(pg.aiuVersionId != ch.aiuVersionId, plain(AiuRateVersionMismatch));
    WhenAbout(pg.payloadHashConflict || ch.payloadHashConflict, plain(PayloadHashConflict), d, [pg], [ch]);
    WhenAbout(pg.modelIdentityFingerprint != ch.modelIdentityFingerprint, plain(ModelIdentityMismatch), d, [pg], [ch]);
    WhenAbout(pg.costVersionId != ch.costVersionId, plain(PriceVersionMismatch), d, [pg], [ch]);
    WhenAbout(pg.aiuVersionId != ch.aiuVersionId, plain(AiuRateVersionMismatch), d, [pg], [ch]);
    AboutAppend(a, b, d, [pg], [ch]);
    AboutAppend(a + b, c, d, [pg], [ch]);
    AboutAppend(a + b + c, e, d, [pg], [ch]);
  }

  /** The parts of a pair's report that compare metrics and counts. */
  lemma UsageKinds(pg: Row, ch: Row, kind: DiffType)
    requires ValidMetrics(pg.metrics) && ValidMetrics(ch.metrics)
    ensures Has(UsageDiffs(pg, ch, UsageDeltas(pg.metrics, ch.metrics, USAGE_KEYS)), kind) <==>
      kind == UsageNormalizationMismatch && !SameUsage(pg.metrics, ch.metrics)
  {
    hide Samples, SeverityOf, UsageDeltas, SameUsage, Usage, Has, When;
    UsageAgrees(pg.metrics, ch.metrics);
    var deltas := UsageDeltas(pg.metrics, ch.metrics, USAGE_KEYS);
    HasWhen(deltas != [], MakeDiff(UsageNormalizationMismatch, Some(pg.dimensions), Some(pg), Some(ch), None, None, deltas), kind);
  }

  lemma AmountKinds(pg: Row, ch: Row, t: Tolerance, kind: DiffType)
    requires ValidMetrics(pg.metrics) && ValidMetrics(ch.metrics) && ValidTolerance(t)
    ensures Has(CostDiffs(pg, ch, t.providerCost.value), kind) <==>
      CostDiffers(pg, ch, t) &&
      kind == if pg.officialDeltaPending || ch.officialDeltaPending then ProvisionalOfficialDeltaPending else LedgerProjectionMissing
    ensures Has(AiuDiffs(pg, ch, Value(t.aiuMicros)), kind) <==> kind == LedgerProjectionMissing && AiuDiffers(pg, ch, t)
  {
    hide Samples, SeverityOf, Value, AbsReal, Abs, Has, When;
    var cost := Cost(pg.metrics.providerCost) - Cost(ch.metrics.providerCost);
    var due := if pg.officialDeltaPending || ch.officialDeltaPending then ProvisionalOfficialDeltaPending else LedgerProjectionMissing;
    HasWhen(AbsReal(cost) > t.providerCost.value,
            MakeDiff(due, Some(pg.dimensions), Some(pg), Some(ch), None, Some(AbsReal(cost)), [CostDelta(cost)]), kind);
    var aiu := Value(pg.metrics.aiuMicros) - Value(ch.metrics.aiuMicros);
    HasWhen(Abs(aiu) > Value(t.aiuMicros),
            MakeDiff(LedgerProjectionMissing, Some(pg.dimensions), Some(pg), Some(ch), None, None, [AiuDelta(aiu)]), kind);
  }

  lemma CountKinds(due: DiffType, pg: Row, ch: Row, n: nat, kind: DiffType)
    ensures Has(CountDiffs(due, pg, ch, n), kind) <==> kind == due && n > 0
  {
    hide Samples, SeverityOf, Has, When;
    HasWhen(n > 0, MakeDiff(due, Some(pg.dimensions), Some(pg), Some(ch), Some(n), None, []), kind);
  }

  lemma MetricAbout(pg: Row, ch: Row, t: Tolerance)
    requires ValidMetrics(pg.metrics) && ValidMetrics(ch.metrics) && ValidTolerance(t) && ValidCounts(pg)
    ensures AllAbout(UsageDiffs(pg, ch, UsageDeltas(pg.metrics, ch.metrics, USAGE_KEYS)), pg.dimensions, [pg], [ch])
    ensures AllAbout(CostDiffs(pg, ch, t.providerCost.value), pg.dimensions, [pg], [ch])
    ensures AllAbout(AiuDiffs(pg, ch, Value(t.aiuMicros)), pg.dimensions, [pg], [ch])
    ensures AllAbout(CountDiffs(LateEvent, pg, ch, Value(pg.lateEventCount)), pg.dimensions, [pg], [ch])
    ensures AllAbout(CountDiffs(AdjustmentNotProjected, pg, ch, Value(pg.unprojectedAdjustmentCount)), pg.dimensions, [pg], [ch])
  {
    hide Samples, SeverityOf, UsageDeltas, Value, AbsReal, Abs;
  }

  lemma PairKinds(pg: Row, ch: Row, t: Tolerance, kind: DiffType)
    requires ValidMetrics(pg.metrics) && ValidMetrics(ch.metrics) && ValidTolerance(t) && ValidCounts(pg)
    ensures PairedDiffs(pg, ch, t).Ok?
    ensures Has(PairedDiffs(pg, ch, t).value, kind) <==> PairWarrants(kind, pg, ch, t)
    ensures AllAbout(PairedDiffs(pg, ch, t).value, pg.dimensions, [pg], [ch])
  {
    hide Has, AllAbout, IdentityDiffs, UsageDiffs, CostDiffs, AiuDiffs, CountDiffs, UsageDeltas, CostDiffers, AiuDiffers,
         SameUsage, ValidMetrics, Value;
    var a, b := IdentityDiffs(pg, ch), UsageDiffs(pg, ch, UsageDeltas(pg.metrics, ch.metrics, USAGE_KEYS));
    var c, e := CostDiffs(pg, ch, t.providerCost.value), AiuDiffs(pg, ch, Value(t.aiuMicros));
    var f := CountDiffs(LateEvent, pg, ch, Value(pg.lateEventCount));
    var g := CountDiffs(AdjustmentNotProjected, pg, ch, Value(pg.unprojectedAdjustmentCount));
    IdentityKinds(pg, ch, kind);
    UsageKinds(pg, ch, kind);
    AmountKinds(pg, ch, t, kind);
    CountKinds(LateEvent, pg, ch, Value(pg.lateEventCount), kind);
    CountKinds(AdjustmentNotProjected, pg, ch, Value(pg.unprojectedAdjustmentCount), kind);
    MetricAbout(pg, ch, t);
    HasAppend(a, b, kind);
    HasAppend(a + b, c, kind);
    HasAppend(a + b + c, e, kind);
    HasAppend(a + b + c + e, f, kind);
    HasAppend(a + b + c + e + f, g, kind);
    AboutAppend(a, b, pg.dimensions, [pg], [ch]);
    AboutAppend(a + b, c, pg.dimensions, [pg], [ch]);
    AboutAppend(a + b + c, e, pg.dimensions, [pg], [ch]);
    AboutAppend(a + b + c + e, f, pg.dimensions, [pg], [ch]);
    AboutAppend(a + b + c + e + f, g, pg.dimensions, [pg], [ch]);
  }

  lemma {:induction false} DeltaListed(pg: Metrics, ch: Metrics, keys: seq<UsageKey>, key: UsageKey, n: int)
    requires ValidMetrics(pg) && ValidMetrics(ch)
    ensures UsageDelta(key, n) in UsageDeltas(pg, ch, keys) <==> key in keys && UsageDelta(key, n) in UsageDeltaFor(pg, ch, key)
  {
    hide UsageDeltaFor, ValidMetrics;
    if keys != [] {
      var last := |keys| - 1;
      assert keys == keys[..last] + [keys[last]];
      DeltaListed(pg, ch, keys[..last], key, n);
      if keys[last] != key { OtherDelta(pg, ch, keys[last], key, n); }
    }
  }

  lemma OtherDelta(pg: Metrics, ch: Metrics, other: UsageKey, key: UsageKey, n: int)
    requires ValidMetrics(pg) && ValidMetrics(ch) && other != key
    ensures UsageDelta(key, n) !in UsageDeltaFor(pg, ch, other)
  {
    hide Usage;
  }

  /** A usage delta is recorded exactly for each metric whose values differ, and is the official value
      minus the projected one. */
  lemma UsageDeltasExact(pg: Metrics, ch: Metrics, key: UsageKey, n: int)
    requires ValidMetrics(pg) && ValidMetrics(ch)
    ensures Canonical(Usage(pg, key)) && Canonical(Usage(ch, key))
    ensures UsageDelta(key, n) in UsageDeltas(pg, ch, USAGE_KEYS) <==>
            n != 0 && n == Value(Usage(pg, key)) - Value(Usage(ch, key))
  {
    hide Usage, UsageDeltas;
    ValidUsage(pg, key);
    ValidUsage(ch, key);
    AllUsageKeys(key);
    DeltaListed(pg, ch, USAGE_KEYS, key, n);
    if Value(Usage(pg, key)) == Value(Usage(ch, key)) { CanonicalInjective(Usage(pg, key), Usage(ch, key)); }
  }

  // ---- one dimension ---------------------------------------------------------------------------

  lemma {:induction false} DeclaredPositive(rows: seq<Row>)
    ensures Declared(rows) > 0 <==> Declares(rows)
  {
    hide DeclaredCount;
    if rows != [] {
      var n := |rows| - 1;
      DeclaredPositive(rows[..n]);
      assert rows == rows[..n] + [rows[n]];
      if Declares(rows[..n]) {
        var r :| r in rows[..n] && DeclaredCount(r) > 0;
        assert r in rows;
      }
      if DeclaredCount(rows[n]) > 0 { assert rows[n] in rows; }
    }
  }

  /** The duplicate difference of the rows of one dimension, if any. */
  function DuplicateDiffs(pg: seq<Row>, ch: seq<Row>, d: Dimensions): seq<Diff> {
    var n := DuplicateCount(pg, ch);
    When(n > 0, MakeDiff(DuplicateProjection, Some(d), First(pg), First(ch), Some(n), None, []))
  }

  lemma DuplicateKinds(pg: seq<Row>, ch: seq<Row>, d: Dimensions, kind: DiffType)
    ensures Has(DuplicateDiffs(pg, ch, d), kind) <==>
      kind == DuplicateProjection && (|pg| > 1 || |ch| > 1 || Declares(pg) || Declares(ch))
    ensures AllAbout(DuplicateDiffs(pg, ch, d), d, pg, ch)
  {
    hide Has, When, Declared, Declares, Samples, SeverityOf, AllAbout;
    DeclaredPositive(pg);
    DeclaredPositive(ch);
    var n := DuplicateCount(pg, ch);
    var x := MakeDiff(DuplicateProjection, Some(d), First(pg), First(ch), Some(n), None, []);
    HasWhen(n > 0, x, kind);
    WhenAbout(n > 0, x, d, pg, ch);
  }

  lemma MissingKinds(pg: seq<Row>, ch: seq<Row>, d: Dimensions, kind: DiffType)
    requires (pg == []) != (ch == [])
    ensures var y := MakeDiff(if pg == [] then PgMissing else ChMissing, Some(d), First(pg), First(ch), None, None, []);
      && (Has([y], kind) <==> kind == if pg == [] then PgMissing else ChMissing)
      && AllAbout([y], d, pg, ch)
  {
    hide Samples, SeverityOf;
    var y := MakeDiff(if pg == [] then PgMissing else ChMissing, Some(d), First(pg), First(ch), None, None, []);
    assert y in [y];
  }

  lemma KeyKinds(pg: seq<Row>, ch: seq<Row>, t: Tolerance, d: Dimensions, kind: DiffType)
    requires Usable(pg, ch, t) && (forall r :: r in pg ==> r.dimensions == d) && (forall r :: r in ch ==> r.dimensions == d)
    ensures KeyDiffs(pg, ch, t).Ok?
    ensures Has(KeyDiffs(pg, ch, t).value, kind) <==> Warranted(kind, pg, ch, t)
    ensures AllAbout(KeyDiffs(pg, ch, t).value, d, pg, ch)
  {
    hide Has, When, PairedDiffs, PairWarrants, ValidMetrics, ValidTolerance, ValidCounts, Declares, AllAbout, DuplicateCount, MakeDiff;
    DuplicateKinds(pg, ch, d, kind);
    var first := DuplicateDiffs(pg, ch, d);
    if pg == [] || ch == [] {
      var y := MakeDiff(if pg == [] then PgMissing else ChMissing, Some(d), First(pg), First(ch), None, None, []);
      MissingKinds(pg, ch, d, kind);
      HasAppend(first, [y], kind);
      AboutAppend(first, [y], d, pg, ch);
    } else {
      PairKinds(pg[0], ch[0], t, kind);
      var paired := PairedDiffs(pg[0], ch[0], t).value;
      SameFirst(paired, d, pg, ch);
      HasAppend(first, paired, kind);
      AboutAppend(first, paired, d, pg, ch);
      NotPaired(kind, pg[0], ch[0], t);
    }
  }

  lemma SameFirst(out: seq<Diff>, d: Dimensions, pg: seq<Row>, ch: seq<Row>)
    requires pg != [] && ch != [] && AllAbout(out, d, [pg[0]], [ch[0]])
    ensures AllAbout(out, d, pg, ch)
  {
  }

  lemma NotPaired(kind: DiffType, pg: Row, ch: Row, t: Tolerance)
    requires ValidMetrics(pg.metrics) && ValidMetrics(ch.metrics) && ValidTolerance(t) && ValidCounts(pg)
    ensures kind == DuplicateProjection || kind == PgMissing || kind == ChMissing ==> !PairWarrants(kind, pg, ch, t)
  {
  }

  lemma WhenAbout(condition: bool, x: Diff, d: Dimensions, pg: seq<Row>, ch: seq<Row>)
    requires About(x, d, pg, ch)
    ensures AllAbout(When(condition, x), d, pg, ch)
  {
  }

  // ---- the whole report ------------------------------------------------------------------------

  ghost predicate HasFor(out: seq<Diff>, kind: DiffType, d: Dimensions) {
    exists x :: x in out && x.kind == kind && x.dimensions == Some(d)
  }

  /** The part of the report about one key; `k` is its position among the keys. */
  lemma {:induction false} PartOf(keys: seq<string>, pg: seq<Row>, ch: seq<Row>, t: Tolerance, k: nat)
    requires AllValid(pg) && AllValid(ch) && DiffsFor(keys, pg, ch, t).Ok? && k < |keys|
    ensures KeyDiffsIn(keys[k], pg, ch, t).Ok?
    ensures forall x :: x in KeyDiffsIn(keys[k], pg, ch, t).value ==> x in DiffsFor(keys, pg, ch, t).value
  {
    hide KeyDiffsIn, AllValid;
    if k < |keys| - 1 { PartOf(keys[..|keys| - 1], pg, ch, t, k); }
  }

  lemma {:induction false} FromPart(keys: seq<string>, pg: seq<Row>, ch: seq<Row>, t: Tolerance, x: Diff) returns (k: nat)
    requires AllValid(pg) && AllValid(ch) && DiffsFor(keys, pg, ch, t).Ok? && x in DiffsFor(keys, pg, ch, t).value
    ensures k < |keys| && KeyDiffsIn(keys[k], pg, ch, t).Ok? && x in KeyDiffsIn(keys[k], pg, ch, t).value
  {
    hide KeyDiffsIn, AllValid;
    var n := |keys| - 1;
    if x in DiffsFor(keys[..n], pg, ch, t).value { k := FromPart(keys[..n], pg, ch, t, x); } else { k := n; }
  }

  /** The rows of a key that occurs, seen as the rows with its dimensions. */
  lemma KeyRows(input: Input, parse: DateParser, key: string) returns (d: Dimensions)
    requires ValidInput(input, parse) && (key in RowKeys(input.pgRows) || key in RowKeys(input.chRows))
    ensures DimensionsKey(d) == key
    ensures RowsWith(input.pgRows, d) == RowsFor(input.pgRows, key) && RowsWith(input.chRows, d) == RowsFor(input.chRows, key)
  {
    hide DimensionsKey, RowsWith, RowsFor, ValidInput;
    if key in RowKeys(input.pgRows) {
      var i :| 0 <= i < |input.pgRows| && RowKeys(input.pgRows)[i] == key;
      d := input.pgRows[i].dimensions;
    } else {
      var i :| 0 <= i < |input.chRows| && RowKeys(input.chRows)[i] == key;
      d := input.chRows[i].dimensions;
    }
    RowsWithKey(input.pgRows, d);
    RowsWithKey(input.chRows, d);
  }

  lemma UsableRows(input: Input, parse: DateParser, d: Dimensions)
    requires ValidInput(input, parse) && (RowsWith(input.pgRows, d) != [] || RowsWith(input.chRows, d) != [])
    ensures Usable(RowsWith(input.pgRows, d), RowsWith(input.chRows, d), input.tolerance)
  {
    hide RowsWith, ValidMetrics, ValidTolerance, ValidCounts, Canonical, ValidInput;
    InputParts(input, parse);
  }

  /** The differences of one key, when its dimensions are `d`. */
  lemma PartKinds(input: Input, parse: DateParser, d: Dimensions, kind: DiffType)
    requires ValidInput(input, parse) && (RowsWith(input.pgRows, d) != [] || RowsWith(input.chRows, d) != [])
    ensures AllValid(input.pgRows) && AllValid(input.chRows)
    ensures Usable(RowsWith(input.pgRows, d), RowsWith(input.chRows, d), input.tolerance)
    ensures var r := KeyDiffsIn(DimensionsKey(d), input.pgRows, input.chRows, input.tolerance);
      && r.Ok? && AllAbout(r.value, d, RowsWith(input.pgRows, d), RowsWith(input.chRows, d))
      && (Has(r.value, kind) <==> Warranted(kind, RowsWith(input.pgRows, d), RowsWith(input.chRows, d), input.tolerance))
  {
    hide DimensionsKey, RowsWith, RowsFor, KeyDiffs, Warranted, Usable, ValidInput, AllValid, AllAbout, Has;
    InputParts(input, parse);
    UsableRows(input, parse, d);
    RowsWithKey(input.pgRows, d);
    RowsWithKey(input.chRows, d);
    RowsForSubset(input.pgRows, DimensionsKey(d));
    RowsForSubset(input.chRows, DimensionsKey(d));
    KeyKinds(RowsWith(input.pgRows, d), RowsWith(input.chRows, d), input.tolerance, d, kind);
  }

  /** For all dimensions that occur and every kind, the report holds such a difference exactly when it is
      warranted; each carries the metrics of the first row on each side and its kind's severity. */
  lemma ReportExact(input: Input, parse: DateParser, d: Dimensions, kind: DiffType)
    requires ValidInput(input, parse) && (RowsWith(input.pgRows, d) != [] || RowsWith(input.chRows, d) != [])
    ensures Reconcile(input, parse).Ok? && Usable(RowsWith(input.pgRows, d), RowsWith(input.chRows, d), input.tolerance)
    ensures HasFor(Reconcile(input, parse).value, kind, d) <==>
            Warranted(kind, RowsWith(input.pgRows, d), RowsWith(input.chRows, d), input.tolerance)
    ensures forall x :: x in Reconcile(input, parse).value && x.dimensions == Some(d) ==>
              About(x, d, RowsWith(input.pgRows, d), RowsWith(input.chRows, d))
  {
    hide Warranted, Usable, ValidInput, KeyDiffsIn, RowsWith, DimensionsKey, Clean, About, SortedKeys, RowKeys, Reconcile, DiffsFor;
    EmptyExactly(input, parse);
    PartKinds(input, parse, d, kind);
    var out := Reconcile(input, parse).value;
    var k := DimensionsKey(d);
    ReportParts(input, parse);
    var keys := SortedKeys(input.pgRows, input.chRows);
    var own := KeyDiffsIn(k, input.pgRows, input.chRows, input.tolerance).value;
    forall x | x in out && x.dimensions == Some(d) ensures x in own { OwnPart(input, parse, d, x); }
    forall x | x in own ensures x in out { InReport(input, parse, d, x); }
    if Has(own, kind) {
      var x :| x in own && x.kind == kind;
      AboutDimensions(x, d, RowsWith(input.pgRows, d), RowsWith(input.chRows, d));
    }
  }

  lemma AboutDimensions(x: Diff, d: Dimensions, pg: seq<Row>, ch: seq<Row>)
    requires About(x, d, pg, ch)
    ensures x.dimensions == Some(d)
  {
  }

  /** The report is the parts of the keys, then at most a stalled watermark, which has no dimensions. */
  lemma ReportParts(input: Input, parse: DateParser)
    requires ValidInput(input, parse) && Reconcile(input, parse).Ok?
    ensures AllValid(input.pgRows) && AllValid(input.chRows)
    ensures var keys := SortedKeys(input.pgRows, input.chRows);
      var parts := DiffsFor(keys, input.pgRows, input.chRows, input.tolerance);
      && parts.Ok?
      && (forall x :: x in parts.value ==> x in Reconcile(input, parse).value)
      && (forall x :: x in Reconcile(input, parse).value ==> x in parts.value || x.dimensions == None)
  {
    hide DiffsFor, SortedKeys, AllValid, FirstError, ValidInput, Samples, SeverityOf, Stalled;
    InputParts(input, parse);
  }

  /** A difference about `d` comes from the part of its key. */
  lemma OwnPart(input: Input, parse: DateParser, d: Dimensions, x: Diff)
    requires ValidInput(input, parse) && Reconcile(input, parse).Ok?
    requires x in Reconcile(input, parse).value && x.dimensions == Some(d)
    ensures AllValid(input.pgRows) && AllValid(input.chRows)
    ensures var own := KeyDiffsIn(DimensionsKey(d), input.pgRows, input.chRows, input.tolerance); own.Ok? && x in own.value
  {
    hide DiffsFor, SortedKeys, AllValid, ValidInput, KeyDiffsIn, Reconcile, DimensionsKey, RowsWith, RowsFor, RowKeys;
    ReportParts(input, parse);
    var keys := SortedKeys(input.pgRows, input.chRows);
    var i := FromPart(keys, input.pgRows, input.chRows, input.tolerance, x);
    SortedKeysExact(input.pgRows, input.chRows);
    assert keys[i] in keys;
    var e := KeyRows(input, parse, keys[i]);
    HasRows(input.pgRows, keys[i]);
    HasRows(input.chRows, keys[i]);
    PartKinds(input, parse, e, PgMissing);
  }

  lemma InReport(input: Input, parse: DateParser, d: Dimensions, x: Diff)
    requires ValidInput(input, parse) && Reconcile(input, parse).Ok?
    requires RowsWith(input.pgRows, d) != [] || RowsWith(input.chRows, d) != []
    requires AllValid(input.pgRows) && AllValid(input.chRows)
    requires var own := KeyDiffsIn(DimensionsKey(d), input.pgRows, input.chRows, input.tolerance); own.Ok? && x in own.value
    ensures x in Reconcile(input, parse).value
  {
    hide DiffsFor, SortedKeys, AllValid, ValidInput, KeyDiffsIn, Reconcile, DimensionsKey, RowsWith, RowsFor, RowKeys;
    ReportParts(input, parse);
    var keys := SortedKeys(input.pgRows, input.chRows);
    var key := DimensionsKey(d);
    RowsWithKey(input.pgRows, d);
    RowsWithKey(input.chRows, d);
    HasRows(input.pgRows, key);
    HasRows(input.chRows, key);
    SortedKeysExact(input.pgRows, input.chRows);
    var i :| 0 <= i < |keys| && keys[i] == key;
    PartOf(keys, input.pgRows, input.chRows, input.tolerance, i);
  }
}
