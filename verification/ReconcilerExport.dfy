/** The CSV export of a reconciliation report, and what reading it back gives. */
module ReconcilerExport {
  import opened Outcomes
  import opened Ordering
  import opened Numerals
  import opened Json
  import JsonReader
  import opened Reconciler
  import Aiu
  import Csv

  const HEADER: seq<string> :=
    ["type", "severity", "bucket_start", "bucket_size", "count", "amount", "delta_values", "sample_event_ids", "explanation"]

  function KindText(kind: DiffType): string {
    match kind
    case ChMissing => "CH_MISSING"
    case PgMissing => "PG_MISSING"
    case DuplicateProjection => "DUPLICATE_PROJECTION"
    case PayloadHashConflict => "PAYLOAD_HASH_CONFLICT"
    case UsageNormalizationMismatch => "USAGE_NORMALIZATION_MISMATCH"
    case ModelIdentityMismatch => "MODEL_IDENTITY_MISMATCH"
    case PriceVersionMismatch => "PRICE_VERSION_MISMATCH"
    case AiuRateVersionMismatch => "AIU_RATE_VERSION_MISMATCH"
    case ProvisionalOfficialDeltaPending => "PROVISIONAL_OFFICIAL_DELTA_PENDING"
    case LedgerProjectionMissing => "LEDGER_PROJECTION_MISSING"
    case LateEvent => "LATE_EVENT"
    case AdjustmentNotProjected => "ADJUSTMENT_NOT_PROJECTED"
    case WatermarkStalled => "WATERMARK_STALLED"
  }

  function SeverityText(severity: Severity): string {
    match severity case Info => "info" case Warning => "warning" case Error => "error" case Critical => "critical"
  }

  // ---- numbers ---------------------------------------------------------------------------------

  function SignedText(n: int): string { if n < 0 then "-" + ToText(-n) else ToText(n) }

  lemma SignedTextInjective(a: int, b: int)
    requires SignedText(a) == SignedText(b)
    ensures a == b
  {
    hide ToText;
    ToTextCanonical(Abs(a));
    ToTextCanonical(Abs(b));
    assert a < 0 ==> SignedText(a)[0] == '-' && SignedText(a)[1..] == ToText(-a);
    assert b < 0 ==> SignedText(b)[0] == '-' && SignedText(b)[1..] == ToText(-b);
    assert IsDigit(ToText(Abs(a))[0]) && IsDigit(ToText(Abs(b))[0]);
  }

  const UNIT: int := 1_000_000_000_000_000_000

  /** The nearest number of units of the eighteenth decimal place, halves away from zero. */
  function Scaled(x: real): (n: nat) { (AbsReal(x) * UNIT as real + 0.5).Floor }

  /** `toFixed(18)` */
  function Fixed(x: real): string {
    var n := Scaled(x);
    (if x < 0.0 then "-" else "") + Aiu.Join(ToText(n / UNIT), PadStart(ToText(n % UNIT), 18))
  }

  lemma UnitIsPower()
    ensures Pow10(18) == UNIT
  {
    Aiu.Million();
    Pow10Add(6, 6);
    Pow10Add(12, 6);
  }

  lemma ScaledExact(x: real, n: nat)
    requires x >= 0.0 && x * UNIT as real == n as real
    ensures Scaled(x) == n
  {
    assert (n as real + 0.5).Floor == n;
  }

  /** An amount with at most eighteen decimal places is printed exactly. */
  lemma FixedExact(x: real, n: nat)
    requires x >= 0.0 && x * UNIT as real == n as real
    ensures Aiu.Decimals(Fixed(x), 18) && Aiu.Units(Fixed(x), 18) == n
  {
    hide Scaled, ToText, Value, Pow10, Aiu.Whole, Aiu.Fraction, PadStart, PadEnd;
    ScaledExact(x, n);
    UnitIsPower();
    var q, r := n / UNIT, n % UNIT;
    assert n == q * UNIT + r;
    ToTextCanonical(q);
    FixedWidth(r, 18);
    var f := PadStart(ToText(r), 18);
    assert Fixed(x) == Aiu.Join(ToText(q), f);
    Aiu.JoinParts(ToText(q), f);
    assert PadEnd(f, 18) == f;
  }

  // ---- deltas ----------------------------------------------------------------------------------

  function UsageName(key: UsageKey): string {
    match key
    case EventCount => "eventCount"
    case InputTokens => "inputTokens"
    case CachedInputTokens => "cachedInputTokens"
    case OutputTokens => "outputTokens"
    case UnpricedCount => "unpricedCount"
    case UnratedCount => "unratedCount"
  }

  function DeltaField(d: Delta): Field {
    match d
    case UsageDelta(key, n) => Field(UsageName(key), Str(SignedText(n)))
    case CostDelta(x) => Field("providerCost", Str(Fixed(x)))
    case AiuDelta(n) => Field("aiuMicros", Str(SignedText(n)))
  }

  function DeltasJson(deltas: seq<Delta>): Json {
    Obj(seq(|deltas|, i requires 0 <= i < |deltas| => DeltaField(deltas[i])))
  }

  /** The same metric, with the same difference unless it is a cost, which is printed rounded. */
  ghost predicate SameDelta(a: Delta, b: Delta) {
    match a
    case CostDelta(x) => b.CostDelta? && Fixed(x) == Fixed(b.cost)
    case _ => a == b
  }

  lemma FieldDecides(a: Delta, b: Delta)
    requires DeltaField(a) == DeltaField(b)
    ensures SameDelta(a, b)
  {
    hide SignedText, Fixed;
    NamesDiffer(a, b);
    match a {
      case UsageDelta(_, n) => SignedTextInjective(n, b.usage);
      case AiuDelta(n) => SignedTextInjective(n, b.micros);
      case CostDelta(_) =>
    }
  }

  lemma NamesDiffer(a: Delta, b: Delta)
    requires DeltaField(a).key == DeltaField(b).key
    ensures a.UsageDelta? <==> b.UsageDelta?
    ensures a.AiuDelta? <==> b.AiuDelta?
    ensures a.UsageDelta? ==> a.key == b.key
  {
    hide SignedText, Fixed;
    assert |"eventCount"| == 10 && |"inputTokens"| == 11 && |"cachedInputTokens"| == 17 && |"outputTokens"| == 12;
    assert |"unpricedCount"| == 13 && |"unratedCount"| == 12 && |"providerCost"| == 12 && |"aiuMicros"| == 9;
    assert "outputTokens"[0] == 'o' && "unratedCount"[0] == 'u' && "providerCost"[0] == 'p';
  }

  /** The delta column determines the deltas. */
  lemma DeltaTextDecides(a: seq<Delta>, b: seq<Delta>)
    requires Valid(DeltasJson(a)) && Valid(DeltasJson(b)) && Stringify(DeltasJson(a)) == Stringify(DeltasJson(b))
    ensures |a| == |b| && forall i :: 0 <= i < |a| ==> SameDelta(a[i], b[i])
  {
    hide Stringify, Valid, DeltaField, SameDelta;
    JsonReader.StringifyInjective(DeltasJson(a), DeltasJson(b));
    assert |a| == |DeltasJson(a).fields| && |b| == |DeltasJson(b).fields|;
    forall i | 0 <= i < |a| ensures SameDelta(a[i], b[i]) {
      assert DeltasJson(a).fields[i] == DeltaField(a[i]) && DeltasJson(b).fields[i] == DeltaField(b[i]);
      FieldDecides(a[i], b[i]);
    }
  }

  // ---- the deltas of a report ------------------------------------------------------------------

  /** No metric is listed twice. */
  ghost predicate OncePerMetric(deltas: seq<Delta>) {
    forall i, j :: 0 <= i < j < |deltas| ==> DeltaField(deltas[i]).key != DeltaField(deltas[j]).key
  }

  lemma OnceIsValid(deltas: seq<Delta>)
    requires OncePerMetric(deltas)
    ensures Valid(DeltasJson(deltas))
  {
    hide SignedText, Fixed, UsageName;
    var fields := DeltasJson(deltas).fields;
    forall f | f in fields ensures Valid(f.value) {
      var i :| 0 <= i < |fields| && fields[i] == f;
      assert f == DeltaField(deltas[i]);
    }
  }

  lemma {:induction false} UsageOnce(pg: Metrics, ch: Metrics, keys: seq<UsageKey>)
    requires ValidMetrics(pg) && ValidMetrics(ch) && Distinct(keys)
    ensures OncePerMetric(UsageDeltas(pg, ch, keys))
    ensures forall i :: 0 <= i < |UsageDeltas(pg, ch, keys)| ==>
      UsageDeltas(pg, ch, keys)[i].UsageDelta? && UsageDeltas(pg, ch, keys)[i].key in keys
  {
    hide ValidMetrics, SignedText, Usage, UsageName, DeltaField;
    if keys != [] {
      var n := |keys| - 1;
      assert keys == keys[..n] + [keys[n]];
      UsageOnce(pg, ch, keys[..n]);
      var front, last := UsageDeltas(pg, ch, keys[..n]), UsageDeltaFor(pg, ch, keys[n]);
      forall i | 0 <= i < |front| && last != [] ensures DeltaField(front[i]).key != DeltaField(last[0]).key {
        assert front[i].key in keys[..n];
        if DeltaField(front[i]).key == DeltaField(last[0]).key { NamesDiffer(front[i], last[0]); }
      }
    }
  }

  lemma UsageKeysDistinct()
    ensures Distinct(USAGE_KEYS)
  {
  }

  ghost predicate AllOnce(out: seq<Diff>) { forall d :: d in out ==> OncePerMetric(d.deltas) }

  lemma OnceAppend(a: seq<Diff>, b: seq<Diff>)
    requires AllOnce(a) && AllOnce(b)
    ensures AllOnce(a + b)
  {
    hide OncePerMetric;
  }

  lemma OnceWhen(condition: bool, d: Diff)
    requires OncePerMetric(d.deltas)
    ensures AllOnce(When(condition, d))
  {
    hide OncePerMetric;
  }

  lemma AtMostOne(deltas: seq<Delta>)
    requires |deltas| <= 1
    ensures OncePerMetric(deltas)
  {
  }

  lemma IdentityOnce(pg: Row, ch: Row)
    ensures AllOnce(IdentityDiffs(pg, ch))
  {
    hide OncePerMetric, AllOnce, When, Samples, SeverityOf;
    AtMostOne([]);
    var plain := (kind: DiffType) => MakeDiff(kind, Some(pg.dimensions), Some(pg), Some(ch), Some(1), None, []);
    var a := When(pg.payloadHashConflict || ch.payloadHashConflict, plain(PayloadHashConflict));
    var b := When(pg.modelIdentityFingerprint != ch.modelIdentityFingerprint, plain(ModelIdentityMismatch));
    var c := When(pg.costVersionId != ch.costVersionId, plain(PriceVersionMismatch));
    var e := When(pg.aiuVersionId != ch.aiuVersionId, plain(AiuRateVersionMismatch));
    OnceWhen(pg.payloadHashConflict || ch.payloadHashConflict, plain(PayloadHashConflict));
    OnceWhen(pg.modelIdentityFingerprint != ch.modelIdentityFingerprint, plain(ModelIdentityMismatch));
    OnceWhen(pg.costVersionId != ch.costVersionId, plain(PriceVersionMismatch));
    OnceWhen(pg.aiuVersionId != ch.aiuVersionId, plain(AiuRateVersionMismatch));
    OnceAppend(a, b);
    OnceAppend(a + b, c);
    OnceAppend(a + b + c, e);
  }

  lemma MetricOnce(pg: Row, ch: Row, cost: real, aiu: nat)
    requires ValidMetrics(pg.metrics) && ValidMetrics(ch.metrics)
    ensures AllOnce(UsageDiffs(pg, ch, UsageDeltas(pg.metrics, ch.metrics, USAGE_KEYS)))
    ensures AllOnce(CostDiffs(pg, ch, cost)) && AllOnce(AiuDiffs(pg, ch, aiu))
  {
    hide OncePerMetric, UsageDeltas, Samples, SeverityOf, Value, AbsReal, Abs, Cost;
    UsageKeysDistinct();
    UsageOnce(pg.metrics, ch.metrics, USAGE_KEYS);
    forall x: Delta ensures OncePerMetric([x]) { AtMostOne([x]); }
  }

  lemma CountOnce(kind: DiffType, pg: Row, ch: Row, n: nat)
    ensures AllOnce(CountDiffs(kind, pg, ch, n))
  {
    hide OncePerMetric, Samples, SeverityOf;
    AtMostOne([]);
  }

  lemma PairedOnce(pg: Row, ch: Row, t: Tolerance)
    requires ValidMetrics(pg.metrics) && ValidMetrics(ch.metrics) && PairedDiffs(pg, ch, t).Ok?
    ensures AllOnce(PairedDiffs(pg, ch, t).value)
  {
    hide AllOnce, IdentityDiffs, UsageDiffs, CostDiffs, AiuDiffs, CountDiffs, UsageDeltas, ValidMetrics, Value;
    var a, b := IdentityDiffs(pg, ch), UsageDiffs(pg, ch, UsageDeltas(pg.metrics, ch.metrics, USAGE_KEYS));
    var c, e := CostDiffs(pg, ch, t.providerCost.value), AiuDiffs(pg, ch, Value(t.aiuMicros));
    var f := CountDiffs(LateEvent, pg, ch, Value(pg.lateEventCount));
    var g := CountDiffs(AdjustmentNotProjected, pg, ch, Value(pg.unprojectedAdjustmentCount));
    IdentityOnce(pg, ch);
    MetricOnce(pg, ch, t.providerCost.value, Value(t.aiuMicros));
    CountOnce(LateEvent, pg, ch, Value(pg.lateEventCount));
    CountOnce(AdjustmentNotProjected, pg, ch, Value(pg.unprojectedAdjustmentCount));
    OnceAppend(a, b);
    OnceAppend(a + b, c);
    OnceAppend(a + b + c, e);
    OnceAppend(a + b + c + e, f);
    OnceAppend(a + b + c + e + f, g);
  }

  lemma KeyOnce(pg: seq<Row>, ch: seq<Row>, t: Tolerance)
    requires AllValid(pg) && AllValid(ch) && KeyDiffs(pg, ch, t).Ok?
    ensures AllOnce(KeyDiffs(pg, ch, t).value)
  {
    hide OncePerMetric, PairedDiffs, ValidMetrics, Canonical, Samples, SeverityOf, DuplicateCount;
    AtMostOne([]);
    if pg != [] && ch != [] {
      assert pg[0] in pg && ch[0] in ch;
      PairedOnce(pg[0], ch[0], t);
    }
  }

  lemma {:induction false} DiffsForOnce(keys: seq<string>, pg: seq<Row>, ch: seq<Row>, t: Tolerance)
    requires AllValid(pg) && AllValid(ch) && DiffsFor(keys, pg, ch, t).Ok?
    ensures AllOnce(DiffsFor(keys, pg, ch, t).value)
  {
    hide KeyDiffs, AllValid, RowsFor, OncePerMetric;
    if keys != [] {
      var n := |keys| - 1;
      DiffsForOnce(keys[..n], pg, ch, t);
      KeyInOnce(keys[n], pg, ch, t);
    }
  }

  lemma KeyInOnce(key: string, pg: seq<Row>, ch: seq<Row>, t: Tolerance)
    requires AllValid(pg) && AllValid(ch) && KeyDiffsIn(key, pg, ch, t).Ok?
    ensures AllOnce(KeyDiffsIn(key, pg, ch, t).value)
  {
    hide KeyDiffs, RowsFor, AllOnce, ValidMetrics, Canonical;
    RowsForSubset(pg, key);
    RowsForSubset(ch, key);
    KeyOnce(RowsFor(pg, key), RowsFor(ch, key), t);
  }

  /** No difference of a report lists a metric twice, so its deltas print as an object. */
  lemma ReportOnce(input: Input, parse: DateParser)
    requires Reconcile(input, parse).Ok?
    ensures forall d :: d in Reconcile(input, parse).value ==> Valid(DeltasJson(d.deltas))
  {
    hide DiffsFor, FirstError, AllValid, SortedKeys, OncePerMetric, Samples, SeverityOf, Stalled, DeltasJson, Valid;
    ValidRowsAllValid(input.pgRows, parse);
    ValidRowsAllValid(input.chRows, parse);
    DiffsForOnce(SortedKeys(input.pgRows, input.chRows), input.pgRows, input.chRows, input.tolerance);
    AtMostOne([]);
    forall d | d in Reconcile(input, parse).value ensures Valid(DeltasJson(d.deltas)) { OnceIsValid(d.deltas); }
  }

  /** The delta column of exported reports determines the deltas of their differences. */
  lemma ReportDeltasDecide(input: Input, other: Input, parse: DateParser, d: Diff, e: Diff)
    requires Reconcile(input, parse).Ok? && d in Reconcile(input, parse).value
    requires Reconcile(other, parse).Ok? && e in Reconcile(other, parse).value
    requires Stringify(DeltasJson(d.deltas)) == Stringify(DeltasJson(e.deltas))
    ensures |d.deltas| == |e.deltas| && forall i :: 0 <= i < |d.deltas| ==> SameDelta(d.deltas[i], e.deltas[i])
  {
    hide Reconcile, Stringify, Valid, DeltasJson, SameDelta;
    ReportOnce(input, parse);
    ReportOnce(other, parse);
    DeltaTextDecides(d.deltas, e.deltas);
  }

  /** The sentence that explains a difference. */
  function Explanation(d: Diff): string {
    match d.kind
    case ChMissing => "PostgreSQL official aggregate has not been projected to ClickHouse"
    case PgMissing => "ClickHouse projection has no corresponding PostgreSQL official aggregate"
    case DuplicateProjection =>
      "duplicate physical projection rows or aggregate rows exist for the canonical dimension key"
    case PayloadHashConflict => "the same event id was observed with different canonical payload hashes"
    case UsageNormalizationMismatch => "normalized counts or mutually-exclusive usage buckets differ"
    case ModelIdentityMismatch => "model identity differs between official and projected data"
    case PriceVersionMismatch => "provider price version differs between official and projected data"
    case AiuRateVersionMismatch => "AIU rate-card version differs between official and projected data"
    case ProvisionalOfficialDeltaPending =>
      "official provider-cost delta is queued but not yet reflected in ClickHouse"
    case LedgerProjectionMissing =>
      if d.amount.Some? then "official provider-cost ledger total is not reflected in ClickHouse"
      else "official AIU ledger total is not reflected in ClickHouse"
    case LateEvent => "events arrived after the aggregate watermark and require deterministic replay"
    case AdjustmentNotProjected => "append-only official corrections are missing from the projection"
    case WatermarkStalled =>
      "ClickHouse watermark is behind PostgreSQL and has not advanced within the configured interval"
  }

  // ---- rows ------------------------------------------------------------------------------------

  function SampleIds(d: Diff): Json {
    Arr(seq(|d.sampleEventIds|, i requires 0 <= i < |d.sampleEventIds| => Str(d.sampleEventIds[i])))
  }

  /** The nine cells of a difference. */
  function DiffCells(d: Diff): (r: seq<Csv.Cell>)
    ensures |r| == |HEADER|
  {
    [Csv.Text(KindText(d.kind)), Csv.Text(SeverityText(d.severity)),
     match d.dimensions case Some(x) => Csv.Text(x.bucketStart) case None => Csv.Blank,
     match d.dimensions case Some(x) => Csv.Text(SizeText(x.bucketSize)) case None => Csv.Blank,
     Csv.Text(ToText(d.count)),
     match d.amount case Some(x) => Csv.Text(Fixed(x)) case None => Csv.Blank,
     Csv.Structured(DeltasJson(d.deltas)), Csv.Structured(SampleIds(d)), Csv.Text(Explanation(d))]
  }

  function ExportTable(diffs: seq<Diff>): (r: seq<seq<string>>)
    ensures |r| == 1 + |diffs| && r[0] == HEADER && forall x :: x in r ==> |x| == |HEADER|
    ensures forall i :: 0 <= i < |diffs| ==> r[i + 1] == Csv.RowTexts(DiffCells(diffs[i]))
  {
    [HEADER] + seq(|diffs|, i requires 0 <= i < |diffs| => Csv.RowTexts(DiffCells(diffs[i])))
  }

  function ExportCsv(diffs: seq<Diff>): string { Csv.EncodeTable(ExportTable(diffs)) }

  /** Reading the export gives the header, then for every difference in order the nine field texts:
      kind, severity, bucket start and size, count, amount, deltas, samples and explanation. */
  lemma ExportRoundTrip(diffs: seq<Diff>)
    ensures var table := Csv.ReadTable(ExportCsv(diffs));
      && table.Some? && |table.value| == 1 + |diffs| && table.value[0] == HEADER
      && forall i :: 0 <= i < |diffs| ==> FieldsRead(table.value[i + 1], diffs[i])
  {
    hide Csv.ReadTable, Csv.EncodeTable, ExportTable, FieldsRead, DiffCells, Csv.RowTexts;
    var table := ExportTable(diffs);
    Csv.TableRoundTrip(table);
    forall i | 0 <= i < |diffs| ensures FieldsRead(table[i + 1], diffs[i]) {
      RowFields(diffs[i]);
    }
  }

  lemma RowFields(d: Diff)
    ensures FieldsRead(Csv.RowTexts(DiffCells(d)), d)
  {
    hide ToText, Stringify, SizeText, SampleIds, KindText, SeverityText, Fixed, DeltasJson, Explanation;
  }

  ghost predicate FieldsRead(row: seq<string>, d: Diff) {
    && |row| == 9 && row[0] == KindText(d.kind) && row[1] == SeverityText(d.severity)
    && row[2] == (if d.dimensions.Some? then d.dimensions.value.bucketStart else "")
    && row[3] == (if d.dimensions.Some? then SizeText(d.dimensions.value.bucketSize) else "")
    && row[4] == ToText(d.count) && row[5] == (if d.amount.Some? then Fixed(d.amount.value) else "")
    && row[6] == Stringify(DeltasJson(d.deltas)) && row[7] == Stringify(SampleIds(d)) && row[8] == Explanation(d)
  }

  lemma SamplesValid(d: Diff)
    ensures Valid(SampleIds(d))
  {
  }

  ghost predicate ColumnsRead(row: seq<string>, d: Diff) {
    && |row| == 9 && JsonReader.ReadJson(row[6]) == Some(DeltasJson(d.deltas))
    && JsonReader.ReadJson(row[7]) == Some(SampleIds(d))
  }

  lemma RowColumns(row: seq<string>, d: Diff)
    requires FieldsRead(row, d) && Valid(DeltasJson(d.deltas))
    ensures ColumnsRead(row, d)
  {
    hide Stringify, Valid, DeltasJson, SampleIds, JsonReader.ReadJson, KindText, SeverityText, Explanation, SizeText, Fixed, ToText;
    JsonReader.StringifyRoundTrip(DeltasJson(d.deltas));
    SamplesValid(d);
    JsonReader.StringifyRoundTrip(SampleIds(d));
  }

  /** The two structured columns of an exported report read back as JSON. */
  lemma ReportColumnsRead(input: Input, parse: DateParser)
    requires Reconcile(input, parse).Ok?
    ensures var diffs := Reconcile(input, parse).value;
      var table := Csv.ReadTable(ExportCsv(diffs));
      && table.Some? && |table.value| == 1 + |diffs|
      && forall i :: 0 <= i < |diffs| ==> ColumnsRead(table.value[i + 1], diffs[i])
  {
    hide Reconcile, Csv.ReadTable, ExportCsv, Valid, DeltasJson, FieldsRead, ColumnsRead;
    var diffs := Reconcile(input, parse).value;
    ReportOnce(input, parse);
    ExportRoundTrip(diffs);
    var table := Csv.ReadTable(ExportCsv(diffs)).value;
    forall i | 0 <= i < |diffs| ensures ColumnsRead(table[i + 1], diffs[i]) {
      assert diffs[i] in diffs;
      RowColumns(table[i + 1], diffs[i]);
    }
  }
}
