/** Reconciliation of official (PostgreSQL) and projected (ClickHouse) aggregates into typed
    differences. Costs are exact real numbers. */
module Reconciler {
  import opened Outcomes
  import opened Ordering
  import opened Numerals
  import opened Json
  import JsonReader

  /** `Date.parse`: milliseconds, or nothing for text it does not read. */
  type DateParser = string -> Option<int>

  datatype BucketSize = Hour | Day

  datatype Dimensions = Dimensions(
    applicationId: string, bucketStart: string, bucketSize: BucketSize, virtualModel: Option<string>,
    modelId: Option<string>, requestModel: Option<string>, provider: Option<string>, userId: Option<string>)

  datatype Metrics = Metrics(
    eventCount: string, inputTokens: string, cachedInputTokens: string, outputTokens: string,
    providerCost: string, aiuMicros: string, unpricedCount: string, unratedCount: string)

  datatype Row = Row(
    dimensions: Dimensions, metrics: Metrics, duplicateProjectionCount: Option<string>, sampleEventIds: seq<string>,
    modelIdentityFingerprint: Option<string>, costVersionId: Option<string>, aiuVersionId: Option<string>,
    payloadHashConflict: bool, officialDeltaPending: bool, lateEventCount: string, unprojectedAdjustmentCount: string)

  datatype UsageKey = EventCount | InputTokens | CachedInputTokens | OutputTokens | UnpricedCount | UnratedCount

  datatype Delta = UsageDelta(key: UsageKey, usage: int) | CostDelta(cost: real) | AiuDelta(micros: int)

  datatype DiffType =
    | ChMissing | PgMissing | DuplicateProjection | PayloadHashConflict | UsageNormalizationMismatch
    | ModelIdentityMismatch | PriceVersionMismatch | AiuRateVersionMismatch | ProvisionalOfficialDeltaPending
    | LedgerProjectionMissing | LateEvent | AdjustmentNotProjected | WatermarkStalled

  datatype Severity = Info | Warning | Error | Critical

  datatype Diff = Diff(
    kind: DiffType, severity: Severity, dimensions: Option<Dimensions>, count: nat, amount: Option<real>,
    pgValues: Option<Metrics>, chValues: Option<Metrics>, deltas: seq<Delta>, sampleEventIds: seq<string>)

  /** The provider cost tolerance is absent when its text is not a finite decimal. */
  datatype Tolerance = Tolerance(providerCost: Option<real>, aiuMicros: string, watermarkStallSeconds: real)

  datatype Watermark = Watermark(pgEventTime: string, chEventTime: string, chLastSuccessAt: string, now: string)

  datatype Input = Input(pgRows: seq<Row>, chRows: seq<Row>, tolerance: Tolerance, watermark: Option<Watermark>)

  datatype ReconcileError =
    | InvalidMetric | InvalidDuplicateCount | InvalidBucketStart | InvalidCostTolerance | InvalidAiuTolerance
    | InvalidLateCount | InvalidAdjustmentCount | InvalidWatermark

  // ---- numerals --------------------------------------------------------------------------------

  /** The grammar `(0|[1-9][0-9]*)(\.[0-9]+)?`. */
  predicate IsCost(s: string) {
    var k := PointAt(s);
    Canonical(s[..k]) && (k < |s| ==> k + 1 < |s| && IsDigits(s[k + 1..]))
  }

  function Cost(s: string): real
    requires IsCost(s)
  {
    var k := PointAt(s);
    Value(s[..k]) as real
    + if k < |s| then Value(s[k + 1..]) as real / Pow10(|s| - k - 1) as real else 0.0
  }

  function Usage(m: Metrics, key: UsageKey): string {
    match key
    case EventCount => m.eventCount
    case InputTokens => m.inputTokens
    case CachedInputTokens => m.cachedInputTokens
    case OutputTokens => m.outputTokens
    case UnpricedCount => m.unpricedCount
    case UnratedCount => m.unratedCount
  }

  predicate ValidMetrics(m: Metrics) {
    && Canonical(m.eventCount) && Canonical(m.inputTokens) && Canonical(m.cachedInputTokens)
    && Canonical(m.outputTokens) && Canonical(m.aiuMicros) && Canonical(m.unpricedCount)
    && Canonical(m.unratedCount) && IsCost(m.providerCost)
  }

  lemma ValidUsage(m: Metrics, key: UsageKey)
    requires ValidMetrics(m)
    ensures Canonical(Usage(m, key))
  {
  }

  function DuplicateText(row: Row): string {
    match row.duplicateProjectionCount case Some(s) => s case None => "0"
  }

  predicate ValidRow(row: Row, parse: DateParser) {
    && ValidMetrics(row.metrics) && Canonical(DuplicateText(row)) && parse(row.dimensions.bucketStart).Some?
  }

  function RowError(row: Row): ReconcileError {
    if !ValidMetrics(row.metrics) then InvalidMetric
    else if !Canonical(DuplicateText(row)) then InvalidDuplicateCount
    else InvalidBucketStart
  }

  // ---- grouping --------------------------------------------------------------------------------

  function Nullable(s: Option<string>): Json {
    match s case None => Null case Some(t) => Str(t)
  }

  function SizeText(size: BucketSize): string { if size == Hour then "hour" else "day" }

  function KeyJson(d: Dimensions): Json {
    Arr([Str(SizeText(d.bucketSize)), Str(d.bucketStart), Str(d.applicationId), Nullable(d.virtualModel),
         Nullable(d.modelId), Nullable(d.requestModel), Nullable(d.provider), Nullable(d.userId)])
  }

  function DimensionsKey(d: Dimensions): string { Stringify(KeyJson(d)) }

  /** Rows share a key exactly when all eight dimension fields are equal. */
  lemma DimensionsKeyInjective(a: Dimensions, b: Dimensions)
    ensures DimensionsKey(a) == DimensionsKey(b) <==> a == b
  {
    hide Stringify;
    if DimensionsKey(a) == DimensionsKey(b) {
      JsonReader.StringifyInjective(KeyJson(a), KeyJson(b));
      KeyJsonInjective(a, b);
    }
  }

  lemma KeyJsonInjective(a: Dimensions, b: Dimensions)
    requires KeyJson(a) == KeyJson(b)
    ensures a == b
  {
    hide SizeText, Nullable;
    var x, y := KeyJson(a).items, KeyJson(b).items;
    assert x[0] == y[0] && x[1] == y[1] && x[2] == y[2] && x[3] == y[3];
    assert x[4] == y[4] && x[5] == y[5] && x[6] == y[6] && x[7] == y[7];
    SizeTextInjective(a.bucketSize, b.bucketSize);
    NullableInjective(a.virtualModel, b.virtualModel);
    NullableInjective(a.modelId, b.modelId);
    NullableInjective(a.requestModel, b.requestModel);
    NullableInjective(a.provider, b.provider);
    NullableInjective(a.userId, b.userId);
  }

  lemma NullableInjective(a: Option<string>, b: Option<string>)
    ensures Nullable(a) == Nullable(b) ==> a == b
  {
  }

  lemma SizeTextInjective(a: BucketSize, b: BucketSize)
    ensures SizeText(a) == SizeText(b) ==> a == b
  {
    assert "hour"[0] != "day"[0];
  }

  function RowKey(row: Row): string { DimensionsKey(row.dimensions) }

  /** Elements in order of first appearance, as a JavaScript `Set` or `Map` keeps them. */
  function Dedupe(s: seq<string>): (r: seq<string>)
    ensures Distinct(r)
    ensures forall x :: x in r <==> x in s
  {
    if s == [] then []
    else
      var n := |s| - 1;
      var d := Dedupe(s[..n]);
      assert s == s[..n] + [s[n]];
      if s[n] in d then d else d + [s[n]]
  }

  function RowKeys(rows: seq<Row>): (r: seq<string>)
    ensures |r| == |rows| && forall i :: 0 <= i < |r| ==> r[i] == RowKey(rows[i])
  {
    seq(|rows|, i requires 0 <= i < |rows| => RowKey(rows[i]))
  }

  function KeysOf(rows: seq<Row>): seq<string> { Dedupe(RowKeys(rows)) }

  function RowsFor(rows: seq<Row>, key: string): seq<Row> {
    if rows == [] then []
    else
      var n := |rows| - 1;
      RowsFor(rows[..n], key) + (if RowKey(rows[n]) == key then [rows[n]] else [])
  }

  function FirstError(rows: seq<Row>, parse: DateParser): (r: Option<ReconcileError>)
    ensures r == None <==> forall row :: row in rows ==> ValidRow(row, parse)
  {
    if rows == [] then None
    else if !ValidRow(rows[0], parse) then Some(RowError(rows[0]))
    else FirstError(rows[1..], parse)
  }

  /** A JavaScript `Map` from key to rows: the rows of each key, and the keys in insertion order. */
  datatype Groups = Groups(order: seq<string>, rows: map<string, seq<Row>>)

  ghost predicate GroupsOf(g: Groups, rows: seq<Row>) {
    && g.order == KeysOf(rows)
    && (forall k :: k in g.rows <==> k in g.order)
    && (forall k :: k in g.rows ==> g.rows[k] == RowsFor(rows, k))
  }

  /** The grouping loop, with the validation that stops it. */
  method Group(rows: seq<Row>, parse: DateParser) returns (r: Result<Groups, ReconcileError>)
    ensures FirstError(rows, parse) == None ==> r.Ok? && GroupsOf(r.value, rows)
    ensures FirstError(rows, parse).Some? ==> r == Err(FirstError(rows, parse).value)
  {
    hide GroupsOf, RowKey, ValidRow, RowError;
    var order: seq<string>, groups: map<string, seq<Row>> := [], map[];
    GroupsEmpty();
    for i := 0 to |rows|
      invariant GroupsOf(Groups(order, groups), rows[..i])
      invariant FirstError(rows, parse) == FirstError(rows[i..], parse)
    {
      var row := rows[i];
      assert rows[i..][0] == row && rows[i..][1..] == rows[i + 1..];
      if !ValidRow(row, parse) {
        return Err(RowError(row));
      }
      var key := RowKey(row);
      GroupStep(Groups(order, groups), rows[..i], row);
      assert rows[..i + 1] == rows[..i] + [row];
      var before := if key in groups then groups[key] else [];
      order := if key in groups then order else order + [key];
      groups := groups[key := before + [row]];
    }
    assert rows[..|rows|] == rows;
    return Ok(Groups(order, groups));
  }

  lemma GroupsEmpty()
    ensures forall rows :: rows == [] ==> GroupsOf(Groups([], map[]), rows)
  {
  }

  lemma DedupeStep(s: seq<string>, x: string)
    ensures Dedupe(s + [x]) == if x in s then Dedupe(s) else Dedupe(s) + [x]
  {
    assert (s + [x])[..|s|] == s;
  }

  lemma RowsForStep(rows: seq<Row>, row: Row, key: string)
    ensures RowsFor(rows + [row], key) == RowsFor(rows, key) + (if RowKey(row) == key then [row] else [])
  {
    hide RowKey;
    assert (rows + [row])[..|rows|] == rows;
  }

  lemma GroupStep(g: Groups, rows: seq<Row>, row: Row)
    requires GroupsOf(g, rows)
    ensures var key := RowKey(row);
      var before := if key in g.rows then g.rows[key] else [];
      GroupsOf(Groups(if key in g.rows then g.order else g.order + [key], g.rows[key := before + [row]]), rows + [row])
  {
    hide RowKey, Dedupe, RowsFor;
    var key := RowKey(row);
    assert RowKeys(rows + [row]) == RowKeys(rows) + [key];
    DedupeStep(RowKeys(rows), key);
    forall k ensures RowsFor(rows + [row], k) == RowsFor(rows, k) + (if key == k then [row] else []) {
      RowsForStep(rows, row, k);
    }
    if key !in g.rows { NoRows(rows, key); }
  }

  lemma {:induction false} NoRows(rows: seq<Row>, key: string)
    requires key !in RowKeys(rows)
    ensures RowsFor(rows, key) == []
  {
    hide RowKey;
    if rows != [] {
      var n := |rows| - 1;
      assert RowKeys(rows)[n] == RowKey(rows[n]);
      assert RowKeys(rows) == RowKeys(rows[..n]) + [RowKey(rows[n])];
      NoRows(rows[..n], key);
    }
  }

  // ---- differences -----------------------------------------------------------------------------

  function SeverityOf(kind: DiffType): Severity {
    match kind
    case ChMissing | DuplicateProjection | UsageNormalizationMismatch | ModelIdentityMismatch
       | PriceVersionMismatch | AiuRateVersionMismatch => Error
    case PgMissing | ProvisionalOfficialDeltaPending => Warning
    case PayloadHashConflict | LedgerProjectionMissing | AdjustmentNotProjected | WatermarkStalled => Critical
    case LateEvent => Info
  }

  /** The first hundred distinct identifiers of both sides in ascending order. */
  function Samples(a: seq<string>, b: seq<string>): (r: seq<string>)
    ensures |r| <= 100
  {
    var sorted := Sort(TextLess, Dedupe(a + b));
    if |sorted| <= 100 then sorted else sorted[..100]
  }

  function EventCountOf(row: Option<Row>): int {
    match row
    case Some(r) => if Canonical(r.metrics.eventCount) then Value(r.metrics.eventCount) else 0
    case None => 0
  }

  function Abs(n: int): nat { if n < 0 then -n else n }

  function MakeDiff(kind: DiffType, dimensions: Option<Dimensions>, pg: Option<Row>, ch: Option<Row>,
                    count: Option<nat>, amount: Option<real>, deltas: seq<Delta>): Diff {
    Diff(kind, SeverityOf(kind), dimensions,
         match count case Some(n) => n case None => Abs(EventCountOf(pg) - EventCountOf(ch)),
         amount,
         match pg case Some(r) => Some(r.metrics) case None => None,
         match ch case Some(r) => Some(r.metrics) case None => None,
         deltas,
         Samples(match pg case Some(r) => r.sampleEventIds case None => [],
                 match ch case Some(r) => r.sampleEventIds case None => []))
  }

  const USAGE_KEYS: seq<UsageKey> := [EventCount, InputTokens, CachedInputTokens, OutputTokens, UnpricedCount, UnratedCount]

  function UsageDeltaFor(pg: Metrics, ch: Metrics, key: UsageKey): seq<Delta>
    requires ValidMetrics(pg) && ValidMetrics(ch)
  {
    ValidUsage(pg, key);
    ValidUsage(ch, key);
    if Usage(pg, key) == Usage(ch, key) then []
    else [UsageDelta(key, Value(Usage(pg, key)) - Value(Usage(ch, key)))]
  }

  function UsageDeltas(pg: Metrics, ch: Metrics, keys: seq<UsageKey>): seq<Delta>
    requires ValidMetrics(pg) && ValidMetrics(ch)
  {
    if keys == [] then []
    else UsageDeltas(pg, ch, keys[..|keys| - 1]) + UsageDeltaFor(pg, ch, keys[|keys| - 1])
  }

  function When(condition: bool, d: Diff): seq<Diff> { if condition then [d] else [] }

  function IdentityDiffs(pg: Row, ch: Row): seq<Diff> {
    var plain := (kind: DiffType) => MakeDiff(kind, Some(pg.dimensions), Some(pg), Some(ch), Some(1), None, []);
    When(pg.payloadHashConflict || ch.payloadHashConflict, plain(PayloadHashConflict))
    + When(pg.modelIdentityFingerprint != ch.modelIdentityFingerprint, plain(ModelIdentityMismatch))
    + When(pg.costVersionId != ch.costVersionId, plain(PriceVersionMismatch))
    + When(pg.aiuVersionId != ch.aiuVersionId, plain(AiuRateVersionMismatch))
  }

  function UsageDiffs(pg: Row, ch: Row, deltas: seq<Delta>): seq<Diff> {
    When(deltas != [], MakeDiff(UsageNormalizationMismatch, Some(pg.dimensions), Some(pg), Some(ch), None, None, deltas))
  }

  function AbsReal(x: real): real { if x < 0.0 then -x else x }

  function CostDiffs(pg: Row, ch: Row, tolerance: real): seq<Diff>
    requires ValidMetrics(pg.metrics) && ValidMetrics(ch.metrics)
  {
    var delta := Cost(pg.metrics.providerCost) - Cost(ch.metrics.providerCost);
    var pending := pg.officialDeltaPending || ch.officialDeltaPending;
    When(AbsReal(delta) > tolerance,
         MakeDiff(if pending then ProvisionalOfficialDeltaPending else LedgerProjectionMissing,
                  Some(pg.dimensions), Some(pg), Some(ch), None, Some(AbsReal(delta)), [CostDelta(delta)]))
  }

  function AiuDiffs(pg: Row, ch: Row, tolerance: nat): seq<Diff>
    requires ValidMetrics(pg.metrics) && ValidMetrics(ch.metrics)
  {
    var delta := Value(pg.metrics.aiuMicros) - Value(ch.metrics.aiuMicros);
    When(Abs(delta) > tolerance,
         MakeDiff(LedgerProjectionMissing, Some(pg.dimensions), Some(pg), Some(ch), None, None, [AiuDelta(delta)]))
  }

  function CountDiffs(kind: DiffType, pg: Row, ch: Row, count: nat): seq<Diff> {
    When(count > 0, MakeDiff(kind, Some(pg.dimensions), Some(pg), Some(ch), Some(count), None, []))
  }

  function PairedDiffs(pg: Row, ch: Row, tolerance: Tolerance): Result<seq<Diff>, ReconcileError>
    requires ValidMetrics(pg.metrics) && ValidMetrics(ch.metrics)
  {
    if tolerance.providerCost == None || tolerance.providerCost.value < 0.0 then Err(InvalidCostTolerance)
    else if !Canonical(tolerance.aiuMicros) then Err(InvalidAiuTolerance)
    else if !Canonical(pg.lateEventCount) then Err(InvalidLateCount)
    else if !Canonical(pg.unprojectedAdjustmentCount) then Err(InvalidAdjustmentCount)
    else
      Ok(IdentityDiffs(pg, ch)
         + UsageDiffs(pg, ch, UsageDeltas(pg.metrics, ch.metrics, USAGE_KEYS))
         + CostDiffs(pg, ch, tolerance.providerCost.value)
         + AiuDiffs(pg, ch, Value(tolerance.aiuMicros))
         + CountDiffs(LateEvent, pg, ch, Value(pg.lateEventCount))
         + CountDiffs(AdjustmentNotProjected, pg, ch, Value(pg.unprojectedAdjustmentCount)))
  }

  predicate AllValid(rows: seq<Row>) {
    forall row :: row in rows ==> ValidMetrics(row.metrics) && Canonical(DuplicateText(row))
  }

  function DeclaredCount(row: Row): nat {
    if Canonical(DuplicateText(row)) then Value(DuplicateText(row)) else 0
  }

  function Declared(rows: seq<Row>): nat {
    if rows == [] then 0 else Declared(rows[..|rows| - 1]) + DeclaredCount(rows[|rows| - 1])
  }

  function Repeats(rows: seq<Row>): nat { if |rows| == 0 then 0 else |rows| - 1 }

  function First(rows: seq<Row>): Option<Row> { if rows == [] then None else Some(rows[0]) }

  function DuplicateCount(pg: seq<Row>, ch: seq<Row>): nat {
    Repeats(pg) + Repeats(ch) + Declared(pg) + Declared(ch)
  }

  /** The differences of one dimension key, from all rows either side has for it. */
  function KeyDiffs(pg: seq<Row>, ch: seq<Row>, tolerance: Tolerance): Result<seq<Diff>, ReconcileError>
    requires AllValid(pg) && AllValid(ch)
  {
    var dimensions := if pg != [] then Some(pg[0].dimensions) else if ch != [] then Some(ch[0].dimensions) else None;
    var n := DuplicateCount(pg, ch);
    var duplicates := When(n > 0, MakeDiff(DuplicateProjection, dimensions, First(pg), First(ch), Some(n), None, []));
    if pg == [] then
      Ok(duplicates + [MakeDiff(PgMissing, dimensions, None, First(ch), None, None, [])])
    else if ch == [] then
      Ok(duplicates + [MakeDiff(ChMissing, dimensions, Some(pg[0]), None, None, None, [])])
    else
      match PairedDiffs(pg[0], ch[0], tolerance)
      case Err(e) => Err(e)
      case Ok(paired) => Ok(duplicates + paired)
  }

  lemma {:induction false} RowsForSubset(rows: seq<Row>, key: string)
    ensures forall row :: row in RowsFor(rows, key) <==> row in rows && RowKey(row) == key
  {
    hide RowKey;
    if rows != [] {
      var n := |rows| - 1;
      RowsForSubset(rows[..n], key);
      assert rows == rows[..n] + [rows[n]];
    }
  }

  function KeyDiffsIn(key: string, pg: seq<Row>, ch: seq<Row>, tolerance: Tolerance): Result<seq<Diff>, ReconcileError>
    requires AllValid(pg) && AllValid(ch)
  {
    RowsForSubset(pg, key);
    RowsForSubset(ch, key);
    KeyDiffs(RowsFor(pg, key), RowsFor(ch, key), tolerance)
  }

  function DiffsFor(keys: seq<string>, pg: seq<Row>, ch: seq<Row>, tolerance: Tolerance): Result<seq<Diff>, ReconcileError>
    requires AllValid(pg) && AllValid(ch)
  {
    if keys == [] then Ok([])
    else
      var n := |keys| - 1;
      match DiffsFor(keys[..n], pg, ch, tolerance)
      case Err(e) => Err(e)
      case Ok(before) =>
        match KeyDiffsIn(keys[n], pg, ch, tolerance)
        case Err(e) => Err(e)
        case Ok(more) => Ok(before + more)
  }

  function SortedKeys(pg: seq<Row>, ch: seq<Row>): seq<string> {
    Sort(TextLess, Dedupe(KeysOf(pg) + KeysOf(ch)))
  }

  /** The watermark is behind and has not moved for longer than allowed. */
  predicate Stalled(pgTime: int, chTime: int, lastSuccess: int, now: int, tolerance: Tolerance) {
    chTime < pgTime && (now - lastSuccess) as real > tolerance.watermarkStallSeconds * 1000.0
  }

  function WatermarkDiffs(w: Option<Watermark>, tolerance: Tolerance, parse: DateParser): Result<seq<Diff>, ReconcileError> {
    match w
    case None => Ok([])
    case Some(m) =>
      var a, b, c, d := parse(m.pgEventTime), parse(m.chEventTime), parse(m.chLastSuccessAt), parse(m.now);
      if a == None || b == None || c == None || d == None then Err(InvalidWatermark)
      else Ok(When(Stalled(a.value, b.value, c.value, d.value, tolerance),
                   MakeDiff(WatermarkStalled, None, None, None, Some(1), None, [])))
  }

  lemma ValidRowsAllValid(rows: seq<Row>, parse: DateParser)
    requires FirstError(rows, parse) == None
    ensures AllValid(rows)
  {
  }

  function Reconcile(input: Input, parse: DateParser): Result<seq<Diff>, ReconcileError> {
    match FirstError(input.pgRows, parse)
    case Some(e) => Err(e)
    case None =>
      match FirstError(input.chRows, parse)
      case Some(e) => Err(e)
      case None =>
        ValidRowsAllValid(input.pgRows, parse);
        ValidRowsAllValid(input.chRows, parse);
        match DiffsFor(SortedKeys(input.pgRows, input.chRows), input.pgRows, input.chRows, input.tolerance)
        case Err(e) => Err(e)
        case Ok(out) =>
          match WatermarkDiffs(input.watermark, input.tolerance, parse)
          case Err(e) => Err(e)
          case Ok(more) => Ok(out + more)
  }

  /** The comparison loop over usage metrics. */
  method CompareUsage(pg: Metrics, ch: Metrics) returns (deltas: seq<Delta>)
    requires ValidMetrics(pg) && ValidMetrics(ch)
    ensures deltas == UsageDeltas(pg, ch, USAGE_KEYS)
  {
    deltas := [];
    for i := 0 to |USAGE_KEYS|
      invariant deltas == UsageDeltas(pg, ch, USAGE_KEYS[..i])
    {
      hide ValidMetrics, Usage;
      var key := USAGE_KEYS[i];
      assert USAGE_KEYS[..i + 1][..i] == USAGE_KEYS[..i];
      deltas := deltas + UsageDeltaFor(pg, ch, key);
    }
    assert USAGE_KEYS[..|USAGE_KEYS|] == USAGE_KEYS;
  }

  /** The reconciliation loop over grouped rows. */
  method ReconcileSnapshots(input: Input, parse: DateParser) returns (r: Result<seq<Diff>, ReconcileError>)
    ensures r == Reconcile(input, parse)
  {
    hide KeyDiffs, WatermarkDiffs, Dedupe, Sort, FirstError, KeysOf, RowsFor;
    var pgGroups := Group(input.pgRows, parse);
    if pgGroups.Err? { return Err(pgGroups.error); }
    var chGroups := Group(input.chRows, parse);
    if chGroups.Err? { return Err(chGroups.error); }
    ValidRowsAllValid(input.pgRows, parse);
    ValidRowsAllValid(input.chRows, parse);
    var pg, ch := pgGroups.value, chGroups.value;
    var keys := Sort(TextLess, Dedupe(pg.order + ch.order));
    var output: seq<Diff> := [];
    for i := 0 to |keys|
      invariant DiffsFor(keys[..i], input.pgRows, input.chRows, input.tolerance) == Ok(output)
    {
      var key := keys[i];
      var pgRows := if key in pg.rows then pg.rows[key] else [];
      var chRows := if key in ch.rows then ch.rows[key] else [];
      RowsForKey(pg, input.pgRows, key);
      RowsForKey(ch, input.chRows, key);
      RowsForSubset(input.pgRows, key);
      RowsForSubset(input.chRows, key);
      var found := KeyDiffs(pgRows, chRows, input.tolerance);
      assert keys[..i + 1][..i] == keys[..i];
      if found.Err? {
        DiffsForError(keys, i, input.pgRows, input.chRows, input.tolerance, found.error);
        return Err(found.error);
      }
      output := output + found.value;
    }
    assert keys[..|keys|] == keys;
    var last := WatermarkDiffs(input.watermark, input.tolerance, parse);
    if last.Err? { return Err(last.error); }
    return Ok(output + last.value);
  }

  lemma RowsForKey(g: Groups, rows: seq<Row>, key: string)
    requires GroupsOf(g, rows)
    ensures RowsFor(rows, key) == if key in g.rows then g.rows[key] else []
  {
    hide RowsFor;
    if key !in g.rows { NoRows(rows, key); }
  }

  lemma {:induction false} DiffsForError(keys: seq<string>, i: nat, pg: seq<Row>, ch: seq<Row>, tolerance: Tolerance, e: ReconcileError)
    requires AllValid(pg) && AllValid(ch) && i < |keys|
    requires DiffsFor(keys[..i + 1], pg, ch, tolerance) == Err(e)
    ensures DiffsFor(keys, pg, ch, tolerance) == Err(e)
    decreases |keys|
  {
    hide KeyDiffsIn, AllValid;
    if i + 1 == |keys| {
      assert keys[..i + 1] == keys;
    } else {
      var n := |keys| - 1;
      assert keys[..n][..i + 1] == keys[..i + 1];
      DiffsForError(keys[..n], i, pg, ch, tolerance, e);
    }
  }
}
