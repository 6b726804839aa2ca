/** What the reconciliation report means: when it is empty, what it counts, and what it does not depend
    on. */
module ReconcilerProperties {
  import opened Outcomes
  import opened Ordering
  import opened Numerals
  import opened Reconciler

  ghost predicate ValidTolerance(t: Tolerance) {
    t.providerCost.Some? && t.providerCost.value >= 0.0 && Canonical(t.aiuMicros)
  }

  ghost predicate ValidCounts(row: Row) {
    Canonical(row.lateEventCount) && Canonical(row.unprojectedAdjustmentCount)
  }

  ghost predicate ValidWatermark(w: Option<Watermark>, parse: DateParser) {
    w.Some? ==>
      && parse(w.value.pgEventTime).Some? && parse(w.value.chEventTime).Some?
      && parse(w.value.chLastSuccessAt).Some? && parse(w.value.now).Some?
  }

  ghost predicate ValidInput(input: Input, parse: DateParser) {
    && (forall r :: r in input.pgRows ==> ValidRow(r, parse) && ValidCounts(r))
    && (forall r :: r in input.chRows ==> ValidRow(r, parse))
    && ValidTolerance(input.tolerance) && ValidWatermark(input.watermark, parse)
  }

  // ---- an empty report -------------------------------------------------------------------------

  ghost predicate SameUsage(a: Metrics, b: Metrics)
    requires ValidMetrics(a) && ValidMetrics(b)
  {
    && Value(a.eventCount) == Value(b.eventCount) && Value(a.inputTokens) == Value(b.inputTokens)
    && Value(a.cachedInputTokens) == Value(b.cachedInputTokens) && Value(a.outputTokens) == Value(b.outputTokens)
    && Value(a.unpricedCount) == Value(b.unpricedCount) && Value(a.unratedCount) == Value(b.unratedCount)
  }

  /** A pair of rows with nothing to report. */
  ghost predicate PairAgrees(pg: Row, ch: Row, t: Tolerance)
    requires ValidMetrics(pg.metrics) && ValidMetrics(ch.metrics) && ValidTolerance(t) && ValidCounts(pg)
  {
    && !pg.payloadHashConflict && !ch.payloadHashConflict
    && pg.modelIdentityFingerprint == ch.modelIdentityFingerprint
    && pg.costVersionId == ch.costVersionId && pg.aiuVersionId == ch.aiuVersionId
    && SameUsage(pg.metrics, ch.metrics)
    && AbsReal(Cost(pg.metrics.providerCost) - Cost(ch.metrics.providerCost)) <= t.providerCost.value
    && Abs(Value(pg.metrics.aiuMicros) - Value(ch.metrics.aiuMicros)) <= Value(t.aiuMicros)
    && Value(pg.lateEventCount) == 0 && Value(pg.unprojectedAdjustmentCount) == 0
  }

  ghost predicate UniqueDimensions(rows: seq<Row>) {
    forall i, j :: 0 <= i < j < |rows| ==> rows[i].dimensions != rows[j].dimensions
  }

  ghost predicate HasDimensions(rows: seq<Row>, d: Dimensions) {
    exists r :: r in rows && r.dimensions == d
  }

  ghost predicate Matched(a: seq<Row>, b: seq<Row>) {
    forall r :: r in a ==> HasDimensions(b, r.dimensions)
  }

  ghost predicate NothingDeclared(rows: seq<Row>) {
    forall r :: r in rows ==> DeclaredCount(r) == 0
  }

  ghost predicate WatermarkMoves(input: Input, parse: DateParser)
    requires ValidWatermark(input.watermark, parse)
  {
    input.watermark.Some? ==>
      var w := input.watermark.value;
      parse(w.chEventTime).value < parse(w.pgEventTime).value ==>
        (parse(w.now).value - parse(w.chLastSuccessAt).value) as real / 1000.0 <= input.tolerance.watermarkStallSeconds
  }

  ghost predicate PairsAgree(input: Input, parse: DateParser)
    requires ValidInput(input, parse)
  {
    forall p, c :: p in input.pgRows && c in input.chRows && p.dimensions == c.dimensions ==> PairAgrees(p, c, input.tolerance)
  }

  /** Both sides hold the same dimensions once each, without declared duplicates, every pair agrees, and
      the watermark moves. */
  ghost predicate Clean(input: Input, parse: DateParser)
    requires ValidInput(input, parse)
  {
    && UniqueDimensions(input.pgRows) && UniqueDimensions(input.chRows)
    && Matched(input.pgRows, input.chRows) && Matched(input.chRows, input.pgRows)
    && NothingDeclared(input.pgRows) && NothingDeclared(input.chRows)
    && PairsAgree(input, parse) && WatermarkMoves(input, parse)
  }

  lemma {:induction false} UsageDeltasEmpty(a: Metrics, b: Metrics, keys: seq<UsageKey>)
    requires ValidMetrics(a) && ValidMetrics(b)
    ensures UsageDeltas(a, b, keys) == [] <==> forall key :: key in keys ==> Usage(a, key) == Usage(b, key)
  {
    hide ValidMetrics, Usage;
    if keys != [] {
      var n := |keys| - 1;
      UsageDeltasEmpty(a, b, keys[..n]);
      assert keys == keys[..n] + [keys[n]];
    }
  }

  lemma UsageAgrees(a: Metrics, b: Metrics)
    requires ValidMetrics(a) && ValidMetrics(b)
    ensures UsageDeltas(a, b, USAGE_KEYS) == [] <==> SameUsage(a, b)
  {
    hide UsageDeltas, Usage, Value, Canonical, IsCost;
    UsageDeltasEmpty(a, b, USAGE_KEYS);
    forall key ensures key in USAGE_KEYS { AllUsageKeys(key); }
    assert UsageDeltas(a, b, USAGE_KEYS) == [] <==> forall key :: Usage(a, key) == Usage(b, key);
    UsageByField(a, b);
    SameNumeral(a.eventCount, b.eventCount);
    SameNumeral(a.inputTokens, b.inputTokens);
    SameNumeral(a.cachedInputTokens, b.cachedInputTokens);
    SameNumeral(a.outputTokens, b.outputTokens);
    SameNumeral(a.unpricedCount, b.unpricedCount);
    SameNumeral(a.unratedCount, b.unratedCount);
  }

  lemma UsageByField(a: Metrics, b: Metrics)
    ensures (forall key :: Usage(a, key) == Usage(b, key)) <==>
      && a.eventCount == b.eventCount && a.inputTokens == b.inputTokens && a.cachedInputTokens == b.cachedInputTokens
      && a.outputTokens == b.outputTokens && a.unpricedCount == b.unpricedCount && a.unratedCount == b.unratedCount
  {
    assert Usage(a, EventCount) == a.eventCount && Usage(a, InputTokens) == a.inputTokens;
    assert Usage(a, CachedInputTokens) == a.cachedInputTokens && Usage(a, OutputTokens) == a.outputTokens;
    assert Usage(a, UnpricedCount) == a.unpricedCount && Usage(a, UnratedCount) == a.unratedCount;
  }

  lemma SameNumeral(a: string, b: string)
    requires Canonical(a) && Canonical(b)
    ensures Value(a) == Value(b) <==> a == b
  {
    if Value(a) == Value(b) { CanonicalInjective(a, b); }
  }

  lemma AllUsageKeys(key: UsageKey)
    ensures key in USAGE_KEYS
  {
    assert USAGE_KEYS[0] == EventCount && USAGE_KEYS[1] == InputTokens && USAGE_KEYS[2] == CachedInputTokens;
    assert USAGE_KEYS[3] == OutputTokens && USAGE_KEYS[4] == UnpricedCount && USAGE_KEYS[5] == UnratedCount;
  }

  lemma PairedEmpty(pg: Row, ch: Row, t: Tolerance)
    requires ValidMetrics(pg.metrics) && ValidMetrics(ch.metrics) && ValidTolerance(t) && ValidCounts(pg)
    ensures PairedDiffs(pg, ch, t).Ok?
    ensures PairedDiffs(pg, ch, t).value == [] <==> PairAgrees(pg, ch, t)
  {
    hide UsageDeltas, MakeDiff, Cost, Value, SameUsage, ValidMetrics, Canonical;
    UsageAgrees(pg.metrics, ch.metrics);
  }

  lemma KeyEmpty(pg: seq<Row>, ch: seq<Row>, t: Tolerance)
    requires AllValid(pg) && AllValid(ch) && (pg != [] || ch != []) && ValidTolerance(t)
    requires forall r :: r in pg ==> ValidCounts(r)
    ensures KeyDiffs(pg, ch, t).Ok?
    ensures KeyDiffs(pg, ch, t).value == [] <==>
              && |pg| == 1 && |ch| == 1 && Declared(pg) == 0 && Declared(ch) == 0
              && pg[0] in pg && ch[0] in ch && PairAgrees(pg[0], ch[0], t)
  {
    hide PairedDiffs, MakeDiff, Declared, PairAgrees, ValidTolerance;
    if pg != [] && ch != [] {
      assert pg[0] in pg && ch[0] in ch;
      PairedEmpty(pg[0], ch[0], t);
    }
  }

  lemma DeclaredOne(rows: seq<Row>)
    requires |rows| == 1
    ensures rows[0] in rows && Declared(rows) == DeclaredCount(rows[0])
  {
    assert rows[..0] == [];
  }

  lemma {:induction false} DiffsForEmpty(keys: seq<string>, pg: seq<Row>, ch: seq<Row>, t: Tolerance)
    requires AllValid(pg) && AllValid(ch)
    requires forall k :: k in keys ==> KeyDiffsIn(k, pg, ch, t).Ok?
    ensures DiffsFor(keys, pg, ch, t).Ok?
    ensures DiffsFor(keys, pg, ch, t).value == [] <==> forall k :: k in keys ==> KeyDiffsIn(k, pg, ch, t).value == []
  {
    hide KeyDiffsIn, AllValid;
    if keys != [] {
      var n := |keys| - 1;
      assert keys == keys[..n] + [keys[n]];
      DiffsForEmpty(keys[..n], pg, ch, t);
    }
  }

  lemma SortedKeysExact(pg: seq<Row>, ch: seq<Row>)
    ensures forall k :: k in SortedKeys(pg, ch) <==> k in RowKeys(pg) || k in RowKeys(ch)
    ensures Distinct(SortedKeys(pg, ch))
  {
    hide RowKey;
    var all := Dedupe(KeysOf(pg) + KeysOf(ch));
    SameMultisetSameElements(SortedKeys(pg, ch), all);
    TextLessStrictOrder();
    DistinctTextComparable(all);
    SortAscending(TextLess, all);
    forall i, j | 0 <= i < j < |SortedKeys(pg, ch)| ensures SortedKeys(pg, ch)[i] != SortedKeys(pg, ch)[j] {
      assert TextLess(SortedKeys(pg, ch)[i], SortedKeys(pg, ch)[j]);
      TextLessTotal(SortedKeys(pg, ch)[i], SortedKeys(pg, ch)[i]);
    }
  }

  /** The rows of a key, when dimensions are unique: one or none. */
  lemma {:induction false} UniqueRow(rows: seq<Row>, r: Row)
    requires UniqueDimensions(rows) && r in rows
    ensures RowsFor(rows, RowKey(r)) == [r]
  {
    hide RowKey;
    var n := |rows| - 1;
    assert rows == rows[..n] + [rows[n]];
    if rows[n] == r {
      forall i | 0 <= i < n ensures RowKey(rows[i]) != RowKey(r) {
        KeysDiffer(rows[i], r);
      }
      assert RowKey(r) !in RowKeys(rows[..n]);
      NoRows(rows[..n], RowKey(r));
    } else {
      var i :| 0 <= i < n && rows[i] == r;
      KeysDiffer(r, rows[n]);
      assert rows[..n][i] == r;
      UniqueRow(rows[..n], r);
    }
  }

  lemma KeysDiffer(a: Row, b: Row)
    ensures RowKey(a) == RowKey(b) <==> a.dimensions == b.dimensions
  {
    hide DimensionsKey;
    DimensionsKeyInjective(a.dimensions, b.dimensions);
  }

  lemma {:induction false} RowsForTwo(rows: seq<Row>, i: nat, j: nat)
    requires i < j < |rows| && RowKey(rows[i]) == RowKey(rows[j])
    ensures |RowsFor(rows, RowKey(rows[i]))| >= 2
  {
    hide RowKey;
    var n := |rows| - 1;
    if j < n {
      RowsForTwo(rows[..n], i, j);
    } else {
      RowsForSubset(rows[..n], RowKey(rows[i]));
      assert rows[..n][i] == rows[i];
      assert rows[i] in RowsFor(rows[..n], RowKey(rows[i]));
    }
  }

  lemma InputParts(input: Input, parse: DateParser)
    requires ValidInput(input, parse)
    ensures FirstError(input.pgRows, parse) == None && FirstError(input.chRows, parse) == None
    ensures AllValid(input.pgRows) && AllValid(input.chRows)
    ensures forall r :: r in input.pgRows ==> ValidMetrics(r.metrics) && ValidCounts(r)
    ensures forall r :: r in input.chRows ==> ValidMetrics(r.metrics)
    ensures ValidTolerance(input.tolerance)
  {
    hide ValidMetrics, Canonical;
  }

  /** One key reports nothing exactly when it has one row on each side, nothing declared, and the pair
      agrees. */
  ghost predicate KeyClean(k: string, input: Input, parse: DateParser)
    requires ValidInput(input, parse)
  {
    var pg, ch := RowsFor(input.pgRows, k), RowsFor(input.chRows, k);
    && |pg| == 1 && |ch| == 1 && pg[0] in input.pgRows && ch[0] in input.chRows
    && DeclaredCount(pg[0]) == 0 && DeclaredCount(ch[0]) == 0
    && PairAgrees(pg[0], ch[0], input.tolerance)
  }

  lemma KeyReport(k: string, input: Input, parse: DateParser)
    requires ValidInput(input, parse) && (k in RowKeys(input.pgRows) || k in RowKeys(input.chRows))
    ensures AllValid(input.pgRows) && AllValid(input.chRows)
    ensures KeyDiffsIn(k, input.pgRows, input.chRows, input.tolerance).Ok?
    ensures KeyDiffsIn(k, input.pgRows, input.chRows, input.tolerance).value == [] <==> KeyClean(k, input, parse)
  {
    hide KeyDiffs, RowKey, PairAgrees, ValidMetrics, Canonical, RowsFor, Declared, ValidTolerance, ValidCounts;
    InputParts(input, parse);
    RowsForSubset(input.pgRows, k);
    RowsForSubset(input.chRows, k);
    var pg, ch := RowsFor(input.pgRows, k), RowsFor(input.chRows, k);
    if k in RowKeys(input.pgRows) {
      var i :| 0 <= i < |input.pgRows| && RowKeys(input.pgRows)[i] == k;
      assert input.pgRows[i] in pg;
    } else {
      var i :| 0 <= i < |input.chRows| && RowKeys(input.chRows)[i] == k;
      assert input.chRows[i] in ch;
    }
    KeyEmpty(pg, ch, input.tolerance);
    if |pg| == 1 { DeclaredOne(pg); }
    if |ch| == 1 { DeclaredOne(ch); }
  }

  lemma {:induction false} CleanFromKeys(input: Input, parse: DateParser)
    requires ValidInput(input, parse)
    requires forall k :: k in RowKeys(input.pgRows) || k in RowKeys(input.chRows) ==> KeyClean(k, input, parse)
    ensures UniqueDimensions(input.pgRows) && UniqueDimensions(input.chRows)
    ensures Matched(input.pgRows, input.chRows) && Matched(input.chRows, input.pgRows)
    ensures NothingDeclared(input.pgRows) && NothingDeclared(input.chRows)
    ensures PairsAgree(input, parse)
  {
    hide PairAgrees, RowKey, RowsFor, ValidMetrics, Canonical, ValidTolerance, ValidCounts, ValidInput, HasDimensions,
         DeclaredCount, UniqueDimensions;
    InputParts(input, parse);
    UniqueFromKeys(input.pgRows, (k: string) => |RowsFor(input.pgRows, k)| == 1);
    UniqueFromKeys(input.chRows, (k: string) => |RowsFor(input.chRows, k)| == 1);
    forall p | p in input.pgRows ensures DeclaredCount(p) == 0 && HasDimensions(input.chRows, p.dimensions) {
      OwnKey(input.pgRows, p);
      RowFromKeys(input.pgRows, input.chRows, p);
    }
    forall c | c in input.chRows ensures DeclaredCount(c) == 0 && HasDimensions(input.pgRows, c.dimensions) {
      OwnKey(input.chRows, c);
      RowFromKeys(input.chRows, input.pgRows, c);
    }
    forall p, c | p in input.pgRows && c in input.chRows && p.dimensions == c.dimensions
      ensures PairAgrees(p, c, input.tolerance)
    {
      KeysDiffer(p, c);
      OwnKey(input.pgRows, p);
      UniqueRow(input.pgRows, p);
      UniqueRow(input.chRows, c);
      assert KeyClean(RowKey(p), input, parse);
    }
  }

  lemma RowFromKeys(a: seq<Row>, b: seq<Row>, r: Row)
    requires UniqueDimensions(a) && r in a && |RowsFor(b, RowKey(r))| == 1
    ensures RowsFor(a, RowKey(r)) == [r] && HasDimensions(b, r.dimensions)
  {
    hide RowKey, RowsFor, UniqueDimensions;
    UniqueRow(a, r);
    var s := RowsFor(b, RowKey(r))[0];
    RowsForSubset(b, RowKey(r));
    assert s in RowsFor(b, RowKey(r));
    KeysDiffer(r, s);
  }

  lemma OwnKey(rows: seq<Row>, r: Row)
    requires r in rows
    ensures RowKey(r) in RowKeys(rows)
  {
    hide RowKey;
    var i :| 0 <= i < |rows| && rows[i] == r;
    assert RowKeys(rows)[i] == RowKey(r);
  }

  lemma UniqueFromKeys(rows: seq<Row>, one: string -> bool)
    requires forall k :: k in RowKeys(rows) ==> one(k)
    requires forall k :: one(k) <==> |RowsFor(rows, k)| == 1
    ensures UniqueDimensions(rows)
  {
    hide RowKey, RowsFor;
    forall i, j | 0 <= i < j < |rows| ensures rows[i].dimensions != rows[j].dimensions {
      assert RowKeys(rows)[i] == RowKey(rows[i]);
      assert one(RowKey(rows[i]));
      KeysDiffer(rows[i], rows[j]);
      if RowKey(rows[i]) == RowKey(rows[j]) { RowsForTwo(rows, i, j); }
    }
  }

  lemma KeysFromClean(input: Input, parse: DateParser, k: string)
    requires ValidInput(input, parse) && Clean(input, parse)
    requires k in RowKeys(input.pgRows) || k in RowKeys(input.chRows)
    ensures KeyClean(k, input, parse)
  {
    hide PairAgrees, RowKey, RowsFor, ValidMetrics, Canonical, ValidTolerance, ValidCounts, ValidInput, WatermarkMoves,
         UniqueDimensions, HasDimensions, DeclaredCount;
    InputParts(input, parse);
    var p, c := PairFor(input.pgRows, input.chRows, k);
    KeysDiffer(p, c);
    UniqueRow(input.pgRows, p);
    UniqueRow(input.chRows, c);
  }

  lemma PairFor(pg: seq<Row>, ch: seq<Row>, k: string) returns (p: Row, c: Row)
    requires Matched(pg, ch) && Matched(ch, pg) && (k in RowKeys(pg) || k in RowKeys(ch))
    ensures p in pg && c in ch && p.dimensions == c.dimensions && RowKey(p) == RowKey(c) == k
  {
    hide RowKey, HasDimensions;
    if k in RowKeys(pg) {
      var i :| 0 <= i < |pg| && RowKeys(pg)[i] == k;
      p := pg[i];
      c := Having(ch, p.dimensions);
    } else {
      var i :| 0 <= i < |ch| && RowKeys(ch)[i] == k;
      c := ch[i];
      p := Having(pg, c.dimensions);
    }
    KeysDiffer(p, c);
  }

  ghost function Having(rows: seq<Row>, d: Dimensions): (r: Row)
    requires HasDimensions(rows, d)
    ensures r in rows && r.dimensions == d
  {
    var r :| r in rows && r.dimensions == d;
    r
  }

  lemma WatermarkQuiet(input: Input, parse: DateParser)
    requires ValidWatermark(input.watermark, parse)
    ensures WatermarkDiffs(input.watermark, input.tolerance, parse).Ok?
    ensures WatermarkDiffs(input.watermark, input.tolerance, parse).value == [] <==> WatermarkMoves(input, parse)
  {
    hide MakeDiff;
  }

  /** The report is empty exactly when the input is clean. */
  lemma EmptyExactly(input: Input, parse: DateParser)
    requires ValidInput(input, parse)
    ensures Reconcile(input, parse).Ok?
    ensures Reconcile(input, parse).value == [] <==> Clean(input, parse)
  {
    hide DiffsFor, KeyDiffsIn, SortedKeys, KeyClean, RowKeys, AllValid, FirstError, PairAgrees, WatermarkDiffs, WatermarkMoves;
    var pg, ch := input.pgRows, input.chRows;
    InputParts(input, parse);
    WatermarkQuiet(input, parse);
    SortedKeysExact(pg, ch);
    forall k | k in SortedKeys(pg, ch)
      ensures KeyDiffsIn(k, pg, ch, input.tolerance).Ok?
      ensures KeyDiffsIn(k, pg, ch, input.tolerance).value == [] <==> KeyClean(k, input, parse)
    {
      KeyReport(k, input, parse);
    }
    DiffsForEmpty(SortedKeys(pg, ch), pg, ch, input.tolerance);
    if forall k :: k in SortedKeys(pg, ch) ==> KeyClean(k, input, parse) {
      CleanFromKeys(input, parse);
    }
    if Clean(input, parse) {
      forall k | k in SortedKeys(pg, ch) ensures KeyClean(k, input, parse) { KeysFromClean(input, parse, k); }
    }
  }

  // ---- recorded deltas -------------------------------------------------------------------------

  ghost predicate RealDelta(d: Delta, t: Tolerance) {
    match d
    case UsageDelta(_, n) => n != 0
    case CostDelta(x) => t.providerCost.Some? && AbsReal(x) > t.providerCost.value
    case AiuDelta(n) => Canonical(t.aiuMicros) && Abs(n) > Value(t.aiuMicros)
  }

  ghost predicate RealDeltas(out: seq<Diff>, t: Tolerance) {
    forall d, x :: d in out && x in d.deltas ==> RealDelta(x, t)
  }

  lemma {:induction false} UsageDeltasNonzero(a: Metrics, b: Metrics, keys: seq<UsageKey>)
    requires ValidMetrics(a) && ValidMetrics(b)
    ensures forall x :: x in UsageDeltas(a, b, keys) ==> x.UsageDelta? && x.usage != 0
  {
    hide ValidMetrics, Usage;
    if keys != [] {
      var n := |keys| - 1;
      UsageDeltasNonzero(a, b, keys[..n]);
      ValidUsage(a, keys[n]);
      ValidUsage(b, keys[n]);
      if Value(Usage(a, keys[n])) == Value(Usage(b, keys[n])) { CanonicalInjective(Usage(a, keys[n]), Usage(b, keys[n])); }
    }
  }

  ghost predicate NoDuplicateKind(out: seq<Diff>) {
    forall d :: d in out ==> d.kind != DuplicateProjection
  }

  ghost predicate PairReport(out: seq<Diff>, t: Tolerance) { RealDeltas(out, t) && NoDuplicateKind(out) }

  lemma PairReportAppend(a: seq<Diff>, b: seq<Diff>, t: Tolerance)
    requires PairReport(a, t) && PairReport(b, t)
    ensures PairReport(a + b, t)
  {
    hide RealDelta;
  }

  lemma PairReportWhen(condition: bool, d: Diff, t: Tolerance)
    requires condition ==> d.kind != DuplicateProjection && forall x :: x in d.deltas ==> RealDelta(x, t)
    ensures PairReport(When(condition, d), t)
  {
    hide RealDelta;
  }

  lemma IdentityReport(pg: Row, ch: Row, t: Tolerance)
    ensures PairReport(IdentityDiffs(pg, ch), t)
  {
    hide PairReport, Samples, SeverityOf, When;
    var plain := (kind: DiffType) => MakeDiff(kind, Some(pg.dimensions), Some(pg), Some(ch), Some(1), None, []);
    var a := When(pg.payloadHashConflict || ch.payloadHashConflict, plain(PayloadHashConflict));
    var b := When(pg.modelIdentityFingerprint != ch.modelIdentityFingerprint, plain(ModelIdentityMismatch));
    var c := When(pg.costVersionId != ch.costVersionId, plain(PriceVersionMismatch));
    var d := When(pg.aiuVersionId != ch.aiuVersionId, plain(AiuRateVersionMismatch));
    PairReportWhen(pg.payloadHashConflict || ch.payloadHashConflict, plain(PayloadHashConflict), t);
    PairReportWhen(pg.modelIdentityFingerprint != ch.modelIdentityFingerprint, plain(ModelIdentityMismatch), t);
    PairReportWhen(pg.costVersionId != ch.costVersionId, plain(PriceVersionMismatch), t);
    PairReportWhen(pg.aiuVersionId != ch.aiuVersionId, plain(AiuRateVersionMismatch), t);
    PairReportAppend(a, b, t);
    PairReportAppend(a + b, c, t);
    PairReportAppend(a + b + c, d, t);
  }

  lemma MetricReports(pg: Row, ch: Row, t: Tolerance)
    requires ValidMetrics(pg.metrics) && ValidMetrics(ch.metrics) && ValidTolerance(t)
    ensures PairReport(UsageDiffs(pg, ch, UsageDeltas(pg.metrics, ch.metrics, USAGE_KEYS)), t)
    ensures PairReport(CostDiffs(pg, ch, t.providerCost.value), t)
    ensures PairReport(AiuDiffs(pg, ch, Value(t.aiuMicros)), t)
  {
    hide PairReport, Samples, SeverityOf, When, Value, UsageDeltas, Abs;
    UsageDeltasNonzero(pg.metrics, ch.metrics, USAGE_KEYS);
    var deltas := UsageDeltas(pg.metrics, ch.metrics, USAGE_KEYS);
    PairReportWhen(deltas != [], MakeDiff(UsageNormalizationMismatch, Some(pg.dimensions), Some(pg), Some(ch), None, None, deltas), t);
    var cost := Cost(pg.metrics.providerCost) - Cost(ch.metrics.providerCost);
    var kind := if pg.officialDeltaPending || ch.officialDeltaPending then ProvisionalOfficialDeltaPending else LedgerProjectionMissing;
    PairReportWhen(AbsReal(cost) > t.providerCost.value,
                   MakeDiff(kind, Some(pg.dimensions), Some(pg), Some(ch), None, Some(AbsReal(cost)), [CostDelta(cost)]), t);
    var aiu := Value(pg.metrics.aiuMicros) - Value(ch.metrics.aiuMicros);
    PairReportWhen(Abs(aiu) > Value(t.aiuMicros),
                   MakeDiff(LedgerProjectionMissing, Some(pg.dimensions), Some(pg), Some(ch), None, None, [AiuDelta(aiu)]), t);
  }

  lemma CountReport(kind: DiffType, pg: Row, ch: Row, n: nat, t: Tolerance)
    requires kind != DuplicateProjection
    ensures PairReport(CountDiffs(kind, pg, ch, n), t)
  {
    hide PairReport, Samples, SeverityOf, When;
    PairReportWhen(n > 0, MakeDiff(kind, Some(pg.dimensions), Some(pg), Some(ch), Some(n), None, []), t);
  }

  lemma PairedReport(pg: Row, ch: Row, t: Tolerance)
    requires ValidMetrics(pg.metrics) && ValidMetrics(ch.metrics) && PairedDiffs(pg, ch, t).Ok?
    ensures PairReport(PairedDiffs(pg, ch, t).value, t)
  {
    hide PairReport, IdentityDiffs, UsageDiffs, CostDiffs, AiuDiffs, CountDiffs, UsageDeltas, ValidMetrics, Value;
    var a, b := IdentityDiffs(pg, ch), UsageDiffs(pg, ch, UsageDeltas(pg.metrics, ch.metrics, USAGE_KEYS));
    var c, d := CostDiffs(pg, ch, t.providerCost.value), AiuDiffs(pg, ch, Value(t.aiuMicros));
    var e := CountDiffs(LateEvent, pg, ch, Value(pg.lateEventCount));
    var f := CountDiffs(AdjustmentNotProjected, pg, ch, Value(pg.unprojectedAdjustmentCount));
    IdentityReport(pg, ch, t);
    MetricReports(pg, ch, t);
    CountReport(LateEvent, pg, ch, Value(pg.lateEventCount), t);
    CountReport(AdjustmentNotProjected, pg, ch, Value(pg.unprojectedAdjustmentCount), t);
    PairReportAppend(a, b, t);
    PairReportAppend(a + b, c, t);
    PairReportAppend(a + b + c, d, t);
    PairReportAppend(a + b + c + d, e, t);
    PairReportAppend(a + b + c + d + e, f, t);
  }

  lemma KeyDeltasReal(k: string, pg: seq<Row>, ch: seq<Row>, t: Tolerance)
    requires AllValid(pg) && AllValid(ch) && KeyDiffsIn(k, pg, ch, t).Ok?
    ensures RealDeltas(KeyDiffsIn(k, pg, ch, t).value, t)
  {
    hide PairedDiffs, RowsFor, RowKey, ValidMetrics, Canonical, RealDelta, Samples, SeverityOf;
    RowsForSubset(pg, k);
    RowsForSubset(ch, k);
    var a, b := RowsFor(pg, k), RowsFor(ch, k);
    if a != [] && b != [] {
      assert a[0] in a && b[0] in b;
      PairedReport(a[0], b[0], t);
    }
  }

  lemma {:induction false} DiffsForReal(keys: seq<string>, pg: seq<Row>, ch: seq<Row>, t: Tolerance)
    requires AllValid(pg) && AllValid(ch) && DiffsFor(keys, pg, ch, t).Ok?
    ensures RealDeltas(DiffsFor(keys, pg, ch, t).value, t)
  {
    hide KeyDiffsIn, AllValid, RealDelta;
    if keys != [] {
      var n := |keys| - 1;
      DiffsForReal(keys[..n], pg, ch, t);
      KeyDeltasReal(keys[n], pg, ch, t);
    }
  }

  /** Every recorded delta is real: usage deltas are not zero, cost and AIU deltas exceed the tolerance. */
  lemma DeltasAreReal(input: Input, parse: DateParser)
    requires Reconcile(input, parse).Ok?
    ensures RealDeltas(Reconcile(input, parse).value, input.tolerance)
  {
    hide DiffsFor, FirstError, AllValid, RealDelta, Samples, SeverityOf, Stalled, SortedKeys;
    ValidRowsAllValid(input.pgRows, parse);
    ValidRowsAllValid(input.chRows, parse);
    DiffsForReal(SortedKeys(input.pgRows, input.chRows), input.pgRows, input.chRows, input.tolerance);
  }

  // ---- duplicates ------------------------------------------------------------------------------

  function ReportedDuplicates(out: seq<Diff>): nat {
    if out == [] then 0
    else ReportedDuplicates(out[..|out| - 1]) + (if out[|out| - 1].kind == DuplicateProjection then out[|out| - 1].count else 0)
  }

  lemma {:induction false} ReportedAppend(a: seq<Diff>, b: seq<Diff>)
    ensures ReportedDuplicates(a + b) == ReportedDuplicates(a) + ReportedDuplicates(b)
  {
    if b == [] {
      assert a + b == a;
    } else {
      var n := |b| - 1;
      ReportedAppend(a, b[..n]);
      assert (a + b)[..|a| + n] == a + b[..n];
    }
  }

  lemma {:induction false} NoneReported(out: seq<Diff>)
    requires forall d :: d in out ==> d.kind != DuplicateProjection
    ensures ReportedDuplicates(out) == 0
  {
    if out != [] { NoneReported(out[..|out| - 1]); }
  }

  lemma KeyDuplicates(k: string, pg: seq<Row>, ch: seq<Row>, t: Tolerance)
    requires AllValid(pg) && AllValid(ch) && KeyDiffsIn(k, pg, ch, t).Ok?
    ensures ReportedDuplicates(KeyDiffsIn(k, pg, ch, t).value) == DuplicateCount(RowsFor(pg, k), RowsFor(ch, k))
  {
    hide PairedDiffs, RowsFor, RowKey, ValidMetrics, Canonical, DuplicateCount, ReportedDuplicates;
    RowsForSubset(pg, k);
    RowsForSubset(ch, k);
    var a, b := RowsFor(pg, k), RowsFor(ch, k);
    var dimensions := if a != [] then Some(a[0].dimensions) else if b != [] then Some(b[0].dimensions) else None;
    var n := DuplicateCount(a, b);
    var first := When(n > 0, MakeDiff(DuplicateProjection, dimensions, First(a), First(b), Some(n), None, []));
    var rest := KeyDiffsIn(k, pg, ch, t).value[|first|..];
    assert KeyDiffsIn(k, pg, ch, t).value == first + rest;
    if a != [] && b != [] {
      assert a[0] in a && b[0] in b;
      PairedReport(a[0], b[0], t);
      assert rest == PairedDiffs(a[0], b[0], t).value;
    }
    ReportedAppend(first, rest);
    NoneReported(rest);
    ReportedOne(first);
  }

  lemma ReportedOne(first: seq<Diff>)
    requires |first| <= 1 && forall d :: d in first ==> d.kind == DuplicateProjection
    ensures ReportedDuplicates(first) == if first == [] then 0 else first[0].count
  {
    if first != [] { assert first[..0] == []; }
  }

  /** Sums over a list of keys, of a count taken of each key's rows. */
  function SumRepeats(keys: seq<string>, rows: seq<Row>): nat {
    if keys == [] then 0 else SumRepeats(keys[..|keys| - 1], rows) + Repeats(RowsFor(rows, keys[|keys| - 1]))
  }

  function SumDeclared(keys: seq<string>, rows: seq<Row>): nat {
    if keys == [] then 0 else SumDeclared(keys[..|keys| - 1], rows) + Declared(RowsFor(rows, keys[|keys| - 1]))
  }

  lemma {:induction false} SumsEmpty(keys: seq<string>)
    ensures SumRepeats(keys, []) == 0 && SumDeclared(keys, []) == 0
  {
    if keys != [] { SumsEmpty(keys[..|keys| - 1]); }
  }

  /** One more row changes the counts of its own key only. */
  lemma {:induction false} SumsStep(keys: seq<string>, rows: seq<Row>, row: Row)
    requires Distinct(keys)
    ensures SumRepeats(keys, rows + [row]) ==
              SumRepeats(keys, rows) + if RowKey(row) in keys && RowsFor(rows, RowKey(row)) != [] then 1 else 0
    ensures SumDeclared(keys, rows + [row]) == SumDeclared(keys, rows) + if RowKey(row) in keys then DeclaredCount(row) else 0
  {
    hide RowKey, RowsFor, DeclaredCount;
    if keys != [] {
      var n := |keys| - 1;
      SumsStep(keys[..n], rows, row);
      RowsForStep(rows, row, keys[n]);
      DeclaredStep(RowsFor(rows, keys[n]), row);
      assert keys == keys[..n] + [keys[n]];
      assert keys[n] !in keys[..n];
      assert RowsFor(rows, keys[n]) + [] == RowsFor(rows, keys[n]);
    }
  }

  lemma DeclaredStep(rows: seq<Row>, row: Row)
    ensures Declared(rows + [row]) == Declared(rows) + DeclaredCount(row)
  {
    assert (rows + [row])[..|rows|] == rows;
  }

  lemma {:induction false} SumsTotal(keys: seq<string>, rows: seq<Row>)
    requires Distinct(keys) && forall k :: k in RowKeys(rows) ==> k in keys
    ensures SumRepeats(keys, rows) + |KeysOf(rows)| == |rows|
    ensures SumDeclared(keys, rows) == Declared(rows)
  {
    hide RowKey, RowsFor, DeclaredCount, SumRepeats, SumDeclared, Dedupe;
    if rows == [] {
      SumsEmpty(keys);
      KeysOfEmpty(rows);
    } else {
      var n := |rows| - 1;
      var before, row := rows[..n], rows[n];
      assert rows == before + [row];
      assert RowKeys(rows) == RowKeys(before) + [RowKey(row)];
      SumsTotal(keys, before);
      SumsStep(keys, before, row);
      DedupeStep(RowKeys(before), RowKey(row));
      DeclaredStep(before, row);
      assert RowKeys(rows)[n] == RowKey(row);
      HasRows(before, RowKey(row));
    }
  }

  lemma KeysOfEmpty(rows: seq<Row>)
    requires rows == []
    ensures KeysOf(rows) == []
  {
    assert RowKeys(rows) == [];
  }

  lemma HasRows(rows: seq<Row>, key: string)
    ensures RowsFor(rows, key) != [] <==> key in RowKeys(rows)
  {
    hide RowKey, RowsFor;
    if key in RowKeys(rows) {
      var i :| 0 <= i < |rows| && RowKeys(rows)[i] == key;
      RowsForSubset(rows, key);
      assert rows[i] in RowsFor(rows, key);
    } else {
      NoRows(rows, key);
    }
  }

  lemma {:induction false} DiffsForDuplicates(keys: seq<string>, pg: seq<Row>, ch: seq<Row>, t: Tolerance)
    requires AllValid(pg) && AllValid(ch) && DiffsFor(keys, pg, ch, t).Ok?
    ensures ReportedDuplicates(DiffsFor(keys, pg, ch, t).value) ==
              SumRepeats(keys, pg) + SumRepeats(keys, ch) + SumDeclared(keys, pg) + SumDeclared(keys, ch)
  {
    hide KeyDiffsIn, AllValid, RowsFor, ReportedDuplicates;
    if keys == [] {
      NoneReported([]);
    } else {
      var n := |keys| - 1;
      DiffsForDuplicates(keys[..n], pg, ch, t);
      KeyDuplicates(keys[n], pg, ch, t);
      ReportedAppend(DiffsFor(keys[..n], pg, ch, t).value, KeyDiffsIn(keys[n], pg, ch, t).value);
    }
  }

  /** The duplicates a row declares; none if it says nothing. */
  ghost function DeclaredBy(row: Row): nat {
    match row.duplicateProjectionCount
    case Some(s) => if IsDigits(s) then Value(s) else 0
    case None => 0
  }

  ghost function DeclaredTotal(rows: seq<Row>): nat {
    if rows == [] then 0 else DeclaredBy(rows[0]) + DeclaredTotal(rows[1..])
  }

  lemma DeclaredExact(row: Row)
    requires Canonical(DuplicateText(row))
    ensures DeclaredCount(row) == DeclaredBy(row)
  {
    assert Value("0") == 0 by { ZerosValue(1); assert Zeros(1) == "0"; }
  }

  lemma {:induction false} TotalLast(rows: seq<Row>)
    requires rows != []
    ensures DeclaredTotal(rows) == DeclaredTotal(rows[..|rows| - 1]) + DeclaredBy(rows[|rows| - 1])
  {
    hide DeclaredBy;
    if |rows| > 1 {
      var n := |rows| - 1;
      TotalLast(rows[1..]);
      assert rows[1..][..n - 1] == rows[..n][1..];
    }
  }

  lemma {:induction false} DeclaredIsTotal(rows: seq<Row>)
    requires AllValid(rows)
    ensures Declared(rows) == DeclaredTotal(rows)
  {
    hide DeclaredCount, DeclaredBy, DuplicateText, ValidMetrics, Canonical;
    if rows != [] {
      var n := |rows| - 1;
      assert rows[n] in rows;
      DeclaredIsTotal(rows[..n]);
      DeclaredExact(rows[n]);
      TotalLast(rows);
    }
  }

  /** Reported duplicates are the rows beyond one per key on either side, plus the declared ones. */
  lemma DuplicatesCounted(input: Input, parse: DateParser)
    requires Reconcile(input, parse).Ok?
    ensures ReportedDuplicates(Reconcile(input, parse).value) ==
              |input.pgRows| - |KeysOf(input.pgRows)| + |input.chRows| - |KeysOf(input.chRows)|
              + DeclaredTotal(input.pgRows) + DeclaredTotal(input.chRows)
  {
    hide DiffsFor, FirstError, AllValid, DeclaredTotal, ReportedDuplicates, KeysOf, SortedKeys, Declared, Stalled, RowKeys, SeverityOf, Samples;
    var pg, ch := input.pgRows, input.chRows;
    ValidRowsAllValid(pg, parse);
    ValidRowsAllValid(ch, parse);
    DeclaredIsTotal(pg);
    DeclaredIsTotal(ch);
    var keys := SortedKeys(pg, ch);
    SortedKeysExact(pg, ch);
    DiffsForDuplicates(keys, pg, ch, input.tolerance);
    SumsTotal(keys, pg);
    SumsTotal(keys, ch);
    var more := WatermarkDiffs(input.watermark, input.tolerance, parse).value;
    ReportedAppend(DiffsFor(keys, pg, ch, input.tolerance).value, more);
    NoneReported(more);
  }

  // ---- row order -------------------------------------------------------------------------------

  lemma SameRows(a: seq<Row>, b: seq<Row>, k: string)
    requires UniqueDimensions(a) && UniqueDimensions(b) && SameElements(a, b)
    ensures RowsFor(a, k) == RowsFor(b, k)
  {
    hide RowKey, RowsFor, UniqueDimensions;
    HasRows(a, k);
    HasRows(b, k);
    SameKeys(a, b);
    RowsForSubset(a, k);
    if RowsFor(a, k) != [] {
      var r := RowsFor(a, k)[0];
      assert r in RowsFor(a, k);
      UniqueRow(a, r);
      UniqueRow(b, r);
    }
  }

  lemma {:induction false} DiffsForSame(keys: seq<string>, pg: seq<Row>, ch: seq<Row>, pg': seq<Row>, ch': seq<Row>, t: Tolerance)
    requires AllValid(pg) && AllValid(ch) && AllValid(pg') && AllValid(ch')
    requires forall k :: RowsFor(pg, k) == RowsFor(pg', k) && RowsFor(ch, k) == RowsFor(ch', k)
    ensures DiffsFor(keys, pg, ch, t) == DiffsFor(keys, pg', ch', t)
  {
    hide RowsFor, KeyDiffs, AllValid;
    if keys != [] { DiffsForSame(keys[..|keys| - 1], pg, ch, pg', ch', t); }
  }

  lemma SameKeys(a: seq<Row>, b: seq<Row>)
    requires SameElements(a, b)
    ensures forall k :: k in RowKeys(a) <==> k in RowKeys(b)
  {
    hide RowKey;
    forall k | k in RowKeys(a) ensures k in RowKeys(b) {
      var i :| 0 <= i < |a| && RowKeys(a)[i] == k;
      assert a[i] in b;
      OwnKey(b, a[i]);
    }
    forall k | k in RowKeys(b) ensures k in RowKeys(a) {
      var i :| 0 <= i < |b| && RowKeys(b)[i] == k;
      assert b[i] in a;
      OwnKey(a, b[i]);
    }
  }

  /** When neither side repeats a key, the report does not depend on the order of the rows. */
  lemma OrderIrrelevant(input: Input, other: Input, parse: DateParser)
    requires Reconcile(input, parse).Ok?
    requires UniqueDimensions(input.pgRows) && UniqueDimensions(input.chRows)
    requires UniqueDimensions(other.pgRows) && UniqueDimensions(other.chRows)
    requires SameElements(input.pgRows, other.pgRows) && SameElements(input.chRows, other.chRows)
    requires input.tolerance == other.tolerance && input.watermark == other.watermark
    ensures Reconcile(other, parse) == Reconcile(input, parse)
  {
    hide DiffsFor, RowsFor, RowKeys, UniqueDimensions, Dedupe, Sort, ValidRow, WatermarkDiffs, AllValid;
    forall k ensures RowsFor(input.pgRows, k) == RowsFor(other.pgRows, k) && RowsFor(input.chRows, k) == RowsFor(other.chRows, k) {
      SameRows(input.pgRows, other.pgRows, k);
      SameRows(input.chRows, other.chRows, k);
    }
    SameKeys(input.pgRows, other.pgRows);
    SameKeys(input.chRows, other.chRows);
    SameSortedKeys(input.pgRows, input.chRows, other.pgRows, other.chRows);
    ValidRowsAllValid(input.pgRows, parse);
    ValidRowsAllValid(input.chRows, parse);
    ValidRowsAllValid(other.pgRows, parse);
    ValidRowsAllValid(other.chRows, parse);
    DiffsForSame(SortedKeys(input.pgRows, input.chRows), input.pgRows, input.chRows, other.pgRows, other.chRows, input.tolerance);
  }

  lemma SameSortedKeys(pg: seq<Row>, ch: seq<Row>, pg': seq<Row>, ch': seq<Row>)
    requires forall k :: k in RowKeys(pg) <==> k in RowKeys(pg')
    requires forall k :: k in RowKeys(ch) <==> k in RowKeys(ch')
    ensures SortedKeys(pg, ch) == SortedKeys(pg', ch')
  {
    hide RowKeys, Sort;
    var a, b := Dedupe(KeysOf(pg) + KeysOf(ch)), Dedupe(KeysOf(pg') + KeysOf(ch'));
    TextLessStrictOrder();
    DistinctTextComparable(a);
    DistinctTextComparable(b);
    SortCanonical(TextLess, a, b);
  }

  // ---- samples ---------------------------------------------------------------------------------

  /** Samples are ascending, come from the two lists, and leave out only larger identifiers, and only
      when there are a hundred. */
  lemma SamplesExact(a: seq<string>, b: seq<string>)
    ensures var r := Samples(a, b);
      && Ascending(TextLess, r)
      && (forall x :: x in r ==> x in a || x in b)
      && (forall x :: (x in a || x in b) && x !in r ==> |r| == 100 && forall y :: y in r ==> TextLess(y, x))
  {
    hide Sort, TextLess;
    var d := Dedupe(a + b);
    var sorted := Sort(TextLess, d);
    var r := Samples(a, b);
    TextLessStrictOrder();
    DistinctTextComparable(d);
    SortAscending(TextLess, d);
    SameMultisetSameElements(sorted, d);
    assert forall x :: x in r ==> x in sorted;
    assert forall j :: 0 <= j < |r| ==> r[j] == sorted[j] && r[j] in r;
    forall x | (x in a || x in b) && x !in r ensures |r| == 100 && forall y :: y in r ==> TextLess(y, x) {
      assert x in sorted;
      var i :| 0 <= i < |sorted| && sorted[i] == x;
      assert |sorted| > 100 && i >= 100;
      forall y | y in r ensures TextLess(y, x) {
        var j :| 0 <= j < |r| && r[j] == y;
        assert sorted[j] == y;
      }
    }
  }
}
