/** What the differences of a reconciliation contain, and how many there are of each kind. */
module ReconcilerContents {
  import opened Outcomes
  import opened Ordering
  import opened Numerals
  import opened Reconciler
  import opened ReconcilerProperties
  import opened ReconcilerReport

  // ---- contents --------------------------------------------------------------------------------

  /** How serious each kind is; the others are errors. */
  predicate Graded(kind: DiffType, severity: Severity) {
    && (severity == Info <==> kind == LateEvent)
    && (severity == Warning <==> kind == PgMissing || kind == ProvisionalOfficialDeltaPending)
    && (severity == Critical <==> kind == PayloadHashConflict || kind == LedgerProjectionMissing
                                  || kind == AdjustmentNotProjected || kind == WatermarkStalled)
  }

  lemma SeverityGraded(kind: DiffType)
    ensures Graded(kind, SeverityOf(kind))
  {
  }

  /** The deltas list this metric exactly when its values differ, with their difference. */
  ghost predicate Lists(deltas: seq<Delta>, key: UsageKey, official: string, projected: string)
    requires Canonical(official) && Canonical(projected)
  {
    forall n :: UsageDelta(key, n) in deltas <==> n != 0 && n == Value(official) - Value(projected)
  }

  ghost predicate ListsUsage(deltas: seq<Delta>, pg: Metrics, ch: Metrics)
    requires ValidMetrics(pg) && ValidMetrics(ch)
  {
    && (forall x :: x in deltas ==> x.UsageDelta?)
    && Lists(deltas, EventCount, pg.eventCount, ch.eventCount) && Lists(deltas, InputTokens, pg.inputTokens, ch.inputTokens)
    && Lists(deltas, CachedInputTokens, pg.cachedInputTokens, ch.cachedInputTokens)
    && Lists(deltas, OutputTokens, pg.outputTokens, ch.outputTokens)
    && Lists(deltas, UnpricedCount, pg.unpricedCount, ch.unpricedCount)
    && Lists(deltas, UnratedCount, pg.unratedCount, ch.unratedCount)
  }

  ghost predicate Plain(x: Diff, count: int) { x.count == count && x.amount == None && x.deltas == [] }

  function Events(rows: seq<Row>): int
    requires AllValid(rows)
  {
    if rows == [] then 0 else assert rows[0] in rows; Value(rows[0].metrics.eventCount)
  }

  ghost predicate OfCost(x: Diff, pg: Row, ch: Row)
    requires ValidMetrics(pg.metrics) && ValidMetrics(ch.metrics)
  {
    var gap := Cost(pg.metrics.providerCost) - Cost(ch.metrics.providerCost);
    x.amount == Some(AbsReal(gap)) && x.deltas == [CostDelta(gap)]
  }

  ghost predicate OfAiu(x: Diff, pg: Row, ch: Row)
    requires ValidMetrics(pg.metrics) && ValidMetrics(ch.metrics)
  {
    x.amount == None && x.deltas == [AiuDelta(Value(pg.metrics.aiuMicros) - Value(ch.metrics.aiuMicros))]
  }

  ghost predicate PairContent(x: Diff, pg: Row, ch: Row)
    requires ValidMetrics(pg.metrics) && ValidMetrics(ch.metrics) && ValidCounts(pg)
  {
    var events := Abs(Value(pg.metrics.eventCount) - Value(ch.metrics.eventCount));
    && x.sampleEventIds == Samples(pg.sampleEventIds, ch.sampleEventIds)
    && match x.kind
    case PayloadHashConflict | ModelIdentityMismatch | PriceVersionMismatch | AiuRateVersionMismatch => Plain(x, 1)
    case UsageNormalizationMismatch => x.count == events && x.amount == None && ListsUsage(x.deltas, pg.metrics, ch.metrics)
    case ProvisionalOfficialDeltaPending => x.count == events && OfCost(x, pg, ch)
    case LedgerProjectionMissing => x.count == events && (OfCost(x, pg, ch) || OfAiu(x, pg, ch))
    case LateEvent => Plain(x, Value(pg.lateEventCount))
    case AdjustmentNotProjected => Plain(x, Value(pg.unprojectedAdjustmentCount))
    case _ => false
  }

  /** Samples, count, amount and deltas of a difference of these rows. */
  ghost predicate Content(x: Diff, pg: seq<Row>, ch: seq<Row>, t: Tolerance)
    requires Usable(pg, ch, t)
  {
    && x.sampleEventIds == Samples(if pg == [] then [] else pg[0].sampleEventIds, if ch == [] then [] else ch[0].sampleEventIds)
    && match x.kind
    case DuplicateProjection => Plain(x, Repeats(pg) + Repeats(ch) + DeclaredTotal(pg) + DeclaredTotal(ch))
    case PgMissing | ChMissing => Plain(x, Abs(Events(pg) - Events(ch)))
    case _ => pg != [] && ch != [] && PairContent(x, pg[0], ch[0])
  }

  lemma UsageListed(pg: Metrics, ch: Metrics)
    requires ValidMetrics(pg) && ValidMetrics(ch)
    ensures ListsUsage(UsageDeltas(pg, ch, USAGE_KEYS), pg, ch)
  {
    hide UsageDeltas, Value, IsDigits, IsCost;
    UsageDeltasNonzero(pg, ch, USAGE_KEYS);
    forall key, n
      ensures Canonical(Usage(pg, key)) && Canonical(Usage(ch, key))
      ensures UsageDelta(key, n) in UsageDeltas(pg, ch, USAGE_KEYS) <==> n != 0 && n == Value(Usage(pg, key)) - Value(Usage(ch, key))
    {
      UsageDeltasExact(pg, ch, key, n);
    }
  }

  lemma IdentityContent(pg: Row, ch: Row, x: Diff)
    requires ValidMetrics(pg.metrics) && ValidMetrics(ch.metrics) && ValidCounts(pg) && x in IdentityDiffs(pg, ch)
    ensures PairContent(x, pg, ch)
  {
    hide ValidMetrics, ValidCounts, Value, MakeDiff, PairContent;
    var kinds := [PayloadHashConflict, ModelIdentityMismatch, PriceVersionMismatch, AiuRateVersionMismatch];
    forall k | k in kinds ensures PairContent(MakeDiff(k, Some(pg.dimensions), Some(pg), Some(ch), Some(1), None, []), pg, ch) {
      OneContent(pg, ch, k);
    }
    assert kinds[0] in kinds && kinds[1] in kinds && kinds[2] in kinds && kinds[3] in kinds;
  }

  lemma OneContent(pg: Row, ch: Row, kind: DiffType)
    requires ValidMetrics(pg.metrics) && ValidMetrics(ch.metrics) && ValidCounts(pg)
    requires kind in [PayloadHashConflict, ModelIdentityMismatch, PriceVersionMismatch, AiuRateVersionMismatch]
    ensures PairContent(MakeDiff(kind, Some(pg.dimensions), Some(pg), Some(ch), Some(1), None, []), pg, ch)
  {
    hide ValidMetrics, ValidCounts, Value, Samples, SeverityOf;
  }

  lemma MetricContent(pg: Row, ch: Row, t: Tolerance, x: Diff)
    requires ValidMetrics(pg.metrics) && ValidMetrics(ch.metrics) && ValidCounts(pg) && ValidTolerance(t)
    requires || x in UsageDiffs(pg, ch, UsageDeltas(pg.metrics, ch.metrics, USAGE_KEYS))
             || x in CostDiffs(pg, ch, t.providerCost.value) || x in AiuDiffs(pg, ch, Value(t.aiuMicros))
    ensures PairContent(x, pg, ch)
  {
    hide Samples, SeverityOf, UsageDeltas, Value, ListsUsage, IsCost, Cost;
    UsageListed(pg.metrics, ch.metrics);
  }

  lemma CountContent(pg: Row, ch: Row, x: Diff)
    requires ValidMetrics(pg.metrics) && ValidMetrics(ch.metrics) && ValidCounts(pg)
    requires || x in CountDiffs(LateEvent, pg, ch, Value(pg.lateEventCount))
             || x in CountDiffs(AdjustmentNotProjected, pg, ch, Value(pg.unprojectedAdjustmentCount))
    ensures PairContent(x, pg, ch)
  {
    hide Samples, SeverityOf, ValidMetrics, Value;
  }

  lemma PairedContent(pg: Row, ch: Row, t: Tolerance, x: Diff)
    requires ValidMetrics(pg.metrics) && ValidMetrics(ch.metrics) && ValidTolerance(t) && ValidCounts(pg)
    requires PairedDiffs(pg, ch, t).Ok? && x in PairedDiffs(pg, ch, t).value
    ensures PairContent(x, pg, ch)
  {
    hide IdentityDiffs, UsageDiffs, CostDiffs, AiuDiffs, CountDiffs, UsageDeltas, ValidMetrics, Value, PairContent;
    if x in IdentityDiffs(pg, ch) {
      IdentityContent(pg, ch, x);
    } else if || x in CountDiffs(LateEvent, pg, ch, Value(pg.lateEventCount))
              || x in CountDiffs(AdjustmentNotProjected, pg, ch, Value(pg.unprojectedAdjustmentCount))
    {
      CountContent(pg, ch, x);
    } else {
      MetricContent(pg, ch, t, x);
    }
  }

  lemma KeyContent(pg: seq<Row>, ch: seq<Row>, t: Tolerance, x: Diff)
    requires Usable(pg, ch, t) && KeyDiffs(pg, ch, t).Ok? && x in KeyDiffs(pg, ch, t).value
    ensures Content(x, pg, ch, t)
  {
    hide PairedDiffs, ValidMetrics, ValidTolerance, ValidCounts, Samples, SeverityOf, PairContent, Declared, DeclaredTotal, Value, Canonical;
    DeclaredIsTotal(pg);
    DeclaredIsTotal(ch);
    if pg != [] && ch != [] && x in PairedDiffs(pg[0], ch[0], t).value {
      PairedContent(pg[0], ch[0], t, x);
      PairKind(x, pg[0], ch[0]);
    } else {
      EventsCounted(pg);
      EventsCounted(ch);
    }
  }

  lemma PairKind(x: Diff, pg: Row, ch: Row)
    requires ValidMetrics(pg.metrics) && ValidMetrics(ch.metrics) && ValidCounts(pg) && PairContent(x, pg, ch)
    ensures x.kind != DuplicateProjection && x.kind != PgMissing && x.kind != ChMissing
    ensures x.sampleEventIds == Samples(pg.sampleEventIds, ch.sampleEventIds)
  {
  }

  lemma EventsCounted(rows: seq<Row>)
    requires AllValid(rows)
    ensures Events(rows) == EventCountOf(First(rows))
  {
    if rows != [] { assert rows[0] in rows; }
  }

  // ---- how many --------------------------------------------------------------------------------

  /** The differences of one kind about these dimensions. */
  function Number(out: seq<Diff>, kind: DiffType, d: Option<Dimensions>): nat {
    if out == [] then 0
    else
      var n := |out| - 1;
      Number(out[..n], kind, d) + if out[n].kind == kind && out[n].dimensions == d then 1 else 0
  }

  lemma {:induction false} NumberAppend(a: seq<Diff>, b: seq<Diff>, kind: DiffType, d: Option<Dimensions>)
    ensures Number(a + b, kind, d) == Number(a, kind, d) + Number(b, kind, d)
  {
    if b == [] {
      assert a + b == a;
    } else {
      var n := |b| - 1;
      assert (a + b)[..|a| + n] == a + b[..n];
      NumberAppend(a, b[..n], kind, d);
    }
  }

  lemma NumberWhen(condition: bool, x: Diff, kind: DiffType, d: Option<Dimensions>)
    ensures Number(When(condition, x), kind, d) == if condition && x.kind == kind && x.dimensions == d then 1 else 0
  {
    assert [x][..0] == [];
  }

  lemma {:induction false} NumberElsewhere(out: seq<Diff>, kind: DiffType, d: Option<Dimensions>)
    requires forall x :: x in out ==> x.dimensions != d
    ensures Number(out, kind, d) == 0
  {
    if out != [] {
      assert out[|out| - 1] in out;
      NumberElsewhere(out[..|out| - 1], kind, d);
    }
  }

  function One(condition: bool): nat { if condition then 1 else 0 }

  /** How many differences of a kind the rows of one dimension warrant: one, but two where both the cost
      and the AIU total of the ledger are not projected. */
  ghost function Due(kind: DiffType, pg: seq<Row>, ch: seq<Row>, t: Tolerance): nat
    requires Usable(pg, ch, t)
  {
    if kind == LedgerProjectionMissing && pg != [] && ch != [] then PairDue(kind, pg[0], ch[0], t)
    else One(Warranted(kind, pg, ch, t))
  }

  ghost function PairDue(kind: DiffType, pg: Row, ch: Row, t: Tolerance): nat
    requires ValidMetrics(pg.metrics) && ValidMetrics(ch.metrics) && ValidTolerance(t) && ValidCounts(pg)
  {
    if kind == LedgerProjectionMissing then
      One(CostDiffers(pg, ch, t) && !(pg.officialDeltaPending || ch.officialDeltaPending)) + One(AiuDiffers(pg, ch, t))
    else One(PairWarrants(kind, pg, ch, t))
  }

  lemma IdentityNumber(pg: Row, ch: Row, kind: DiffType)
    ensures Number(IdentityDiffs(pg, ch), kind, Some(pg.dimensions)) ==
      One(|| (kind == PayloadHashConflict && (pg.payloadHashConflict || ch.payloadHashConflict))
          || (kind == ModelIdentityMismatch && pg.modelIdentityFingerprint != ch.modelIdentityFingerprint)
          || (kind == PriceVersionMismatch && pg.costVersionId != ch.costVersionId)
          || (kind == AiuRateVersionMismatch && pg.aiuVersionId != ch.aiuVersionId))
  {
    hide Number, When, Samples, SeverityOf;
    var d := Some(pg.dimensions);
    var plain := (k: DiffType) => MakeDiff(k, Some(pg.dimensions), Some(pg), Some(ch), Some(1), None, []);
    var a := When(pg.payloadHashConflict || ch.payloadHashConflict, plain(PayloadHashConflict));
    var b := When(pg.modelIdentityFingerprint != ch.modelIdentityFingerprint, plain(ModelIdentityMismatch));
    var c := When(pg.costVersionId != ch.costVersionId, plain(PriceVersionMismatch));
    var e := When(pg.aiuVersionId != ch.aiuVersionId, plain(AiuRateVersionMismatch));
    NumberWhen(pg.payloadHashConflict || ch.payloadHashConflict, plain(PayloadHashConflict), kind, d);
    NumberWhen(pg.modelIdentityFingerprint != ch.modelIdentityFingerprint, plain(ModelIdentityMismatch), kind, d);
    NumberWhen(pg.costVersionId != ch.costVersionId, plain(PriceVersionMismatch), kind, d);
    NumberWhen(pg.aiuVersionId != ch.aiuVersionId, plain(AiuRateVersionMismatch), kind, d);
    NumberAppend(a, b, kind, d);
    NumberAppend(a + b, c, kind, d);
    NumberAppend(a + b + c, e, kind, d);
  }

  lemma MetricNumber(pg: Row, ch: Row, t: Tolerance, kind: DiffType)
    requires ValidMetrics(pg.metrics) && ValidMetrics(ch.metrics) && ValidTolerance(t)
    ensures Number(UsageDiffs(pg, ch, UsageDeltas(pg.metrics, ch.metrics, USAGE_KEYS)), kind, Some(pg.dimensions)) ==
      One(kind == UsageNormalizationMismatch && !SameUsage(pg.metrics, ch.metrics))
    ensures Number(CostDiffs(pg, ch, t.providerCost.value), kind, Some(pg.dimensions)) ==
      One(CostDiffers(pg, ch, t) &&
          kind == if pg.officialDeltaPending || ch.officialDeltaPending then ProvisionalOfficialDeltaPending else LedgerProjectionMissing)
    ensures Number(AiuDiffs(pg, ch, Value(t.aiuMicros)), kind, Some(pg.dimensions)) ==
      One(kind == LedgerProjectionMissing && AiuDiffers(pg, ch, t))
  {
    hide Samples, SeverityOf, Value, AbsReal, Abs, Number, When, UsageDeltas, SameUsage, Usage;
    var d := Some(pg.dimensions);
    UsageAgrees(pg.metrics, ch.metrics);
    var deltas := UsageDeltas(pg.metrics, ch.metrics, USAGE_KEYS);
    NumberWhen(deltas != [], MakeDiff(UsageNormalizationMismatch, d, Some(pg), Some(ch), None, None, deltas), kind, d);
    var cost := Cost(pg.metrics.providerCost) - Cost(ch.metrics.providerCost);
    var due := if pg.officialDeltaPending || ch.officialDeltaPending then ProvisionalOfficialDeltaPending else LedgerProjectionMissing;
    NumberWhen(AbsReal(cost) > t.providerCost.value,
               MakeDiff(due, d, Some(pg), Some(ch), None, Some(AbsReal(cost)), [CostDelta(cost)]), kind, d);
    var aiu := Value(pg.metrics.aiuMicros) - Value(ch.metrics.aiuMicros);
    NumberWhen(Abs(aiu) > Value(t.aiuMicros),
               MakeDiff(LedgerProjectionMissing, d, Some(pg), Some(ch), None, None, [AiuDelta(aiu)]), kind, d);
  }

  lemma CountNumber(due: DiffType, pg: Row, ch: Row, n: nat, kind: DiffType)
    ensures Number(CountDiffs(due, pg, ch, n), kind, Some(pg.dimensions)) == One(kind == due && n > 0)
  {
    hide Samples, SeverityOf, Number, When;
    NumberWhen(n > 0, MakeDiff(due, Some(pg.dimensions), Some(pg), Some(ch), Some(n), None, []), kind, Some(pg.dimensions));
  }

  lemma PairNumber(pg: Row, ch: Row, t: Tolerance, kind: DiffType)
    requires ValidMetrics(pg.metrics) && ValidMetrics(ch.metrics) && ValidTolerance(t) && ValidCounts(pg)
    ensures PairedDiffs(pg, ch, t).Ok?
    ensures Number(PairedDiffs(pg, ch, t).value, kind, Some(pg.dimensions)) == PairDue(kind, pg, ch, t)
  {
    hide Number, IdentityDiffs, UsageDiffs, CostDiffs, AiuDiffs, CountDiffs, UsageDeltas, CostDiffers, AiuDiffers,
         SameUsage, ValidMetrics, Value;
    var a, b := IdentityDiffs(pg, ch), UsageDiffs(pg, ch, UsageDeltas(pg.metrics, ch.metrics, USAGE_KEYS));
    var c, e := CostDiffs(pg, ch, t.providerCost.value), AiuDiffs(pg, ch, Value(t.aiuMicros));
    var f := CountDiffs(LateEvent, pg, ch, Value(pg.lateEventCount));
    var g := CountDiffs(AdjustmentNotProjected, pg, ch, Value(pg.unprojectedAdjustmentCount));
    var d := Some(pg.dimensions);
    IdentityNumber(pg, ch, kind);
    MetricNumber(pg, ch, t, kind);
    CountNumber(LateEvent, pg, ch, Value(pg.lateEventCount), kind);
    CountNumber(AdjustmentNotProjected, pg, ch, Value(pg.unprojectedAdjustmentCount), kind);
    NumberAppend(a, b, kind, d);
    NumberAppend(a + b, c, kind, d);
    NumberAppend(a + b + c, e, kind, d);
    NumberAppend(a + b + c + e, f, kind, d);
    NumberAppend(a + b + c + e + f, g, kind, d);
  }

  lemma DuplicateNumber(pg: seq<Row>, ch: seq<Row>, d: Dimensions, kind: DiffType)
    ensures Number(DuplicateDiffs(pg, ch, d), kind, Some(d)) ==
      One(kind == DuplicateProjection && (|pg| > 1 || |ch| > 1 || Declares(pg) || Declares(ch)))
  {
    hide Number, When, Declared, Declares, Samples, SeverityOf;
    DeclaredPositive(pg);
    DeclaredPositive(ch);
    var n := DuplicateCount(pg, ch);
    NumberWhen(n > 0, MakeDiff(DuplicateProjection, Some(d), First(pg), First(ch), Some(n), None, []), kind, Some(d));
  }

  lemma MissingNumber(pg: seq<Row>, ch: seq<Row>, d: Dimensions, kind: DiffType)
    ensures var missing := if pg == [] then PgMissing else ChMissing;
      Number([MakeDiff(missing, Some(d), First(pg), First(ch), None, None, [])], kind, Some(d)) == One(kind == missing)
  {
    hide Samples, SeverityOf, Number;
    var x := MakeDiff(if pg == [] then PgMissing else ChMissing, Some(d), First(pg), First(ch), None, None, []);
    NumberWhen(true, x, kind, Some(d));
  }

  lemma {:induction false} KeyNumber(pg: seq<Row>, ch: seq<Row>, t: Tolerance, d: Dimensions, kind: DiffType)
    requires Usable(pg, ch, t) && (forall r :: r in pg ==> r.dimensions == d) && (forall r :: r in ch ==> r.dimensions == d)
    ensures KeyDiffs(pg, ch, t).Ok? && Number(KeyDiffs(pg, ch, t).value, kind, Some(d)) == Due(kind, pg, ch, t)
  {
    hide Due, KeyDiffs, Number, Usable;
    if pg == [] || ch == [] { OneSideNumber(pg, ch, t, d, kind); } else { BothSidesNumber(pg, ch, t, d, kind); }
  }

  lemma {:induction false} OneSideNumber(pg: seq<Row>, ch: seq<Row>, t: Tolerance, d: Dimensions, kind: DiffType)
    requires Usable(pg, ch, t) && (forall r :: r in pg ==> r.dimensions == d) && (forall r :: r in ch ==> r.dimensions == d)
    requires pg == [] || ch == []
    ensures KeyDiffs(pg, ch, t).Ok? && Number(KeyDiffs(pg, ch, t).value, kind, Some(d)) == Due(kind, pg, ch, t)
  {
    hide Number, When, PairedDiffs, PairWarrants, ValidMetrics, ValidTolerance, ValidCounts, Declares, DuplicateCount, MakeDiff, PairDue;
    DuplicateNumber(pg, ch, d, kind);
    var y := MakeDiff(if pg == [] then PgMissing else ChMissing, Some(d), First(pg), First(ch), None, None, []);
    MissingNumber(pg, ch, d, kind);
    NumberAppend(DuplicateDiffs(pg, ch, d), [y], kind, Some(d));
  }

  lemma {:induction false} BothSidesNumber(pg: seq<Row>, ch: seq<Row>, t: Tolerance, d: Dimensions, kind: DiffType)
    requires Usable(pg, ch, t) && (forall r :: r in pg ==> r.dimensions == d) && (forall r :: r in ch ==> r.dimensions == d)
    requires pg != [] && ch != []
    ensures KeyDiffs(pg, ch, t).Ok? && Number(KeyDiffs(pg, ch, t).value, kind, Some(d)) == Due(kind, pg, ch, t)
  {
    hide Number, When, PairedDiffs, PairWarrants, ValidMetrics, ValidTolerance, ValidCounts, Declares, DuplicateCount, MakeDiff,
         CostDiffers, AiuDiffers;
    DuplicateNumber(pg, ch, d, kind);
    PairNumber(pg[0], ch[0], t, kind);
    NumberAppend(DuplicateDiffs(pg, ch, d), PairedDiffs(pg[0], ch[0], t).value, kind, Some(d));
    NotPaired(kind, pg[0], ch[0], t);
  }

  // ---- the whole report ------------------------------------------------------------------------

  /** The differences of another key are about other dimensions. */
  lemma OtherKey(input: Input, parse: DateParser, key: string, x: Diff)
    requires ValidInput(input, parse) && (key in RowKeys(input.pgRows) || key in RowKeys(input.chRows))
    requires AllValid(input.pgRows) && AllValid(input.chRows)
    requires var own := KeyDiffsIn(key, input.pgRows, input.chRows, input.tolerance); own.Ok? && x in own.value
    ensures x.dimensions.Some? && DimensionsKey(x.dimensions.value) == key
  {
    hide KeyDiffsIn, RowsWith, RowsFor, DimensionsKey, ValidInput, RowKeys, AllValid, Usable, Warranted;
    var e := KeyRows(input, parse, key);
    HasRows(input.pgRows, key);
    HasRows(input.chRows, key);
    PartKinds(input, parse, e, PgMissing);
    AboutDimensions(x, e, RowsWith(input.pgRows, e), RowsWith(input.chRows, e));
  }

  lemma {:induction false} NumberInKeys(keys: seq<string>, input: Input, parse: DateParser, kind: DiffType, d: Dimensions)
    requires ValidInput(input, parse) && Distinct(keys) && AllValid(input.pgRows) && AllValid(input.chRows)
    requires forall k :: k in keys ==> k in RowKeys(input.pgRows) || k in RowKeys(input.chRows)
    requires DiffsFor(keys, input.pgRows, input.chRows, input.tolerance).Ok?
    ensures var own := KeyDiffsIn(DimensionsKey(d), input.pgRows, input.chRows, input.tolerance);
      var out := DiffsFor(keys, input.pgRows, input.chRows, input.tolerance).value;
      if DimensionsKey(d) in keys then own.Ok? && Number(out, kind, Some(d)) == Number(own.value, kind, Some(d))
      else Number(out, kind, Some(d)) == 0
  {
    hide KeyDiffsIn, DimensionsKey, ValidInput, RowKeys, AllValid, Number;
    if keys == [] {
      NumberElsewhere([], kind, Some(d));
    } else {
      var n := |keys| - 1;
      assert keys == keys[..n] + [keys[n]];
      var pg, ch, t := input.pgRows, input.chRows, input.tolerance;
      NumberInKeys(keys[..n], input, parse, kind, d);
      var front, last := DiffsFor(keys[..n], pg, ch, t).value, KeyDiffsIn(keys[n], pg, ch, t).value;
      NumberAppend(front, last, kind, Some(d));
      if keys[n] != DimensionsKey(d) {
        forall x | x in last ensures x.dimensions != Some(d) { OtherKey(input, parse, keys[n], x); }
        NumberElsewhere(last, kind, Some(d));
      }
    }
  }

  /** The report of valid input in two parts. */
  lemma ReportSplit(input: Input, parse: DateParser)
    requires ValidInput(input, parse)
    ensures Reconcile(input, parse).Ok? && AllValid(input.pgRows) && AllValid(input.chRows)
    ensures var parts := DiffsFor(SortedKeys(input.pgRows, input.chRows), input.pgRows, input.chRows, input.tolerance);
      var more := WatermarkDiffs(input.watermark, input.tolerance, parse);
      parts.Ok? && more.Ok? && Reconcile(input, parse).value == parts.value + more.value
  {
    hide DiffsFor, SortedKeys, AllValid, FirstError, ValidInput, WatermarkDiffs, Clean;
    EmptyExactly(input, parse);
    InputParts(input, parse);
  }

  /** A stalled watermark: critical, about no dimensions, with nothing but its count. */
  ghost predicate StallDiff(x: Diff) {
    && x.kind == WatermarkStalled && x.severity == Critical && x.dimensions == None && Plain(x, 1)
    && x.pgValues == None && x.chValues == None && x.sampleEventIds == []
  }

  lemma StallContent(input: Input, parse: DateParser)
    requires ValidWatermark(input.watermark, parse)
    ensures var more := WatermarkDiffs(input.watermark, input.tolerance, parse);
      && more.Ok? && |more.value| == One(!WatermarkMoves(input, parse))
      && forall x :: x in more.value ==> StallDiff(x)
  {
    hide Samples;
    NoSamples();
  }

  lemma NoSamples()
    ensures Samples([], []) == []
  {
    SamplesExact([], []);
  }

  /** For all dimensions that occur, the report holds exactly as many differences of every kind as the rows
      warrant; each has the count, amount, deltas, samples and severity that belong to its kind. */
  lemma ReportContents(input: Input, parse: DateParser, d: Dimensions, kind: DiffType)
    requires ValidInput(input, parse) && (RowsWith(input.pgRows, d) != [] || RowsWith(input.chRows, d) != [])
    ensures Reconcile(input, parse).Ok? && Usable(RowsWith(input.pgRows, d), RowsWith(input.chRows, d), input.tolerance)
    ensures Number(Reconcile(input, parse).value, kind, Some(d)) ==
            Due(kind, RowsWith(input.pgRows, d), RowsWith(input.chRows, d), input.tolerance)
    ensures forall x :: x in Reconcile(input, parse).value && x.dimensions == Some(d) ==>
              && Content(x, RowsWith(input.pgRows, d), RowsWith(input.chRows, d), input.tolerance)
              && Graded(x.kind, x.severity)
  {
    hide Reconcile, RowsWith, ValidInput, KeyDiffs, Content, Due, Number, DimensionsKey, SortedKeys, DiffsFor, AllValid,
         Usable, Warranted, WatermarkDiffs, RowKeys, Graded, RowsFor, WatermarkMoves, ValidWatermark;
    var pg, ch, t := input.pgRows, input.chRows, input.tolerance;
    ReportExact(input, parse, d, kind);
    OwnRows(input, parse, d);
    var key := DimensionsKey(d);
    KeyNumber(RowsWith(pg, d), RowsWith(ch, d), t, d, kind);
    ReportSplit(input, parse);
    SortedKeysExact(pg, ch);
    NumberInKeys(SortedKeys(pg, ch), input, parse, kind, d);
    var parts, more := DiffsFor(SortedKeys(pg, ch), pg, ch, t).value, WatermarkDiffs(input.watermark, t, parse).value;
    StallsElsewhere(input, parse, kind, d);
    NumberAppend(parts, more, kind, Some(d));
    forall x | x in Reconcile(input, parse).value && x.dimensions == Some(d)
      ensures Content(x, RowsWith(pg, d), RowsWith(ch, d), t) && Graded(x.kind, x.severity)
    {
      OwnPart(input, parse, d, x);
      KeyContent(RowsWith(pg, d), RowsWith(ch, d), t, x);
      SeverityGraded(x.kind);
    }
  }

  lemma StallsElsewhere(input: Input, parse: DateParser, kind: DiffType, d: Dimensions)
    requires ValidInput(input, parse)
    ensures WatermarkDiffs(input.watermark, input.tolerance, parse).Ok?
    ensures Number(WatermarkDiffs(input.watermark, input.tolerance, parse).value, kind, Some(d)) == 0
  {
    hide WatermarkDiffs, WatermarkMoves, Number, ValidRow, ValidCounts;
    StallContent(input, parse);
    NumberElsewhere(WatermarkDiffs(input.watermark, input.tolerance, parse).value, kind, Some(d));
  }

  /** The rows of a key by dimensions. */
  lemma OwnRows(input: Input, parse: DateParser, d: Dimensions)
    requires ValidInput(input, parse) && (RowsWith(input.pgRows, d) != [] || RowsWith(input.chRows, d) != [])
    ensures AllValid(input.pgRows) && AllValid(input.chRows)
    ensures Usable(RowsWith(input.pgRows, d), RowsWith(input.chRows, d), input.tolerance)
    ensures KeyDiffsIn(DimensionsKey(d), input.pgRows, input.chRows, input.tolerance) ==
            KeyDiffs(RowsWith(input.pgRows, d), RowsWith(input.chRows, d), input.tolerance)
    ensures DimensionsKey(d) in RowKeys(input.pgRows) || DimensionsKey(d) in RowKeys(input.chRows)
  {
    hide KeyDiffs, RowsWith, RowsFor, DimensionsKey, ValidInput, RowKeys, AllValid, Usable;
    InputParts(input, parse);
    UsableRows(input, parse, d);
    RowsWithKey(input.pgRows, d);
    RowsWithKey(input.chRows, d);
    HasRows(input.pgRows, DimensionsKey(d));
    HasRows(input.chRows, DimensionsKey(d));
  }

  /** The report holds one difference about no dimensions if the watermark is stalled, else none. */
  lemma StallReported(input: Input, parse: DateParser)
    requires ValidInput(input, parse)
    ensures Reconcile(input, parse).Ok?
    ensures Number(Reconcile(input, parse).value, WatermarkStalled, None) == One(!WatermarkMoves(input, parse))
    ensures forall x :: x in Reconcile(input, parse).value && x.dimensions == None ==> StallDiff(x)
  {
    hide Reconcile, DiffsFor, SortedKeys, AllValid, ValidInput, WatermarkDiffs, WatermarkMoves, StallDiff, Number, RowKeys, KeyDiffsIn;
    ReportSplit(input, parse);
    ValidParts(input, parse);
    StallContent(input, parse);
    var keys := SortedKeys(input.pgRows, input.chRows);
    var parts := DiffsFor(keys, input.pgRows, input.chRows, input.tolerance).value;
    var more := WatermarkDiffs(input.watermark, input.tolerance, parse).value;
    forall x | x in parts ensures x.dimensions.Some? {
      var i := FromPart(keys, input.pgRows, input.chRows, input.tolerance, x);
      SortedKeysExact(input.pgRows, input.chRows);
      assert keys[i] in keys;
      OtherKey(input, parse, keys[i], x);
    }
    NumberElsewhere(parts, WatermarkStalled, None);
    NumberAppend(parts, more, WatermarkStalled, None);
    if more == [] {
      NumberElsewhere(more, WatermarkStalled, None);
    } else {
      StallFields(more[0]);
      assert more == When(true, more[0]);
      NumberWhen(true, more[0], WatermarkStalled, None);
    }
  }

  lemma StallFields(x: Diff)
    requires StallDiff(x)
    ensures x.kind == WatermarkStalled && x.dimensions == None
  {
  }

  lemma ValidParts(input: Input, parse: DateParser)
    requires ValidInput(input, parse)
    ensures ValidWatermark(input.watermark, parse)
  {
  }

  // ---- when there is a report ------------------------------------------------------------------

  lemma PairOk(pg: Row, ch: Row, t: Tolerance)
    requires ValidMetrics(pg.metrics) && ValidMetrics(ch.metrics)
    ensures var r := PairedDiffs(pg, ch, t);
      var cost := t.providerCost.Some? && t.providerCost.value >= 0.0;
      && (r.Ok? <==> ValidTolerance(t) && ValidCounts(pg))
      && (r == Err(InvalidCostTolerance) <==> !cost)
      && (r == Err(InvalidAiuTolerance) <==> cost && !Canonical(t.aiuMicros))
      && (r == Err(InvalidLateCount) <==> ValidTolerance(t) && !Canonical(pg.lateEventCount))
      && (r == Err(InvalidAdjustmentCount) <==>
            ValidTolerance(t) && Canonical(pg.lateEventCount) && !Canonical(pg.unprojectedAdjustmentCount))
  {
    hide IdentityDiffs, UsageDiffs, CostDiffs, AiuDiffs, CountDiffs, UsageDeltas, ValidMetrics, Value, Canonical;
  }

  /** A key can be compared: it is on one side only, or tolerances and official counts can be read. */
  ghost predicate KeyReadable(key: string, input: Input) {
    var pg, ch := RowsFor(input.pgRows, key), RowsFor(input.chRows, key);
    pg != [] && ch != [] ==> ValidTolerance(input.tolerance) && ValidCounts(pg[0])
  }

  lemma KeyOk(key: string, input: Input)
    requires AllValid(input.pgRows) && AllValid(input.chRows)
    ensures KeyDiffsIn(key, input.pgRows, input.chRows, input.tolerance).Ok? <==> KeyReadable(key, input)
  {
    hide PairedDiffs, RowsFor, MakeDiff, ValidMetrics, ValidTolerance, ValidCounts, DuplicateCount, RowKey, Canonical;
    var pg, ch := RowsFor(input.pgRows, key), RowsFor(input.chRows, key);
    RowsForSubset(input.pgRows, key);
    RowsForSubset(input.chRows, key);
    if pg != [] && ch != [] {
      assert pg[0] in pg && ch[0] in ch;
      PairOk(pg[0], ch[0], input.tolerance);
    }
  }

  lemma {:induction false} KeysOk(keys: seq<string>, input: Input)
    requires AllValid(input.pgRows) && AllValid(input.chRows)
    ensures DiffsFor(keys, input.pgRows, input.chRows, input.tolerance).Ok? <==> forall k :: k in keys ==> KeyReadable(k, input)
  {
    hide KeyDiffsIn, AllValid, KeyReadable;
    if keys != [] {
      var n := |keys| - 1;
      assert keys == keys[..n] + [keys[n]];
      KeysOk(keys[..n], input);
      KeyOk(keys[n], input);
    }
  }

  /** Dimensions on both sides can be compared. */
  ghost predicate Readable(input: Input, d: Dimensions) {
    var pg, ch := RowsWith(input.pgRows, d), RowsWith(input.chRows, d);
    pg != [] && ch != [] ==> ValidTolerance(input.tolerance) && ValidCounts(pg[0])
  }

  lemma WatermarkOk(input: Input, parse: DateParser)
    ensures WatermarkDiffs(input.watermark, input.tolerance, parse).Ok? <==> ValidWatermark(input.watermark, parse)
  {
    hide MakeDiff, Stalled;
  }

  /** A report is made exactly when every row is valid, the watermark can be read, and so can the tolerances
      and official counts of whatever dimensions are on both sides. */
  lemma ReportMade(input: Input, parse: DateParser)
    ensures Reconcile(input, parse).Ok? <==>
      && (forall r :: r in input.pgRows ==> ValidRow(r, parse)) && (forall r :: r in input.chRows ==> ValidRow(r, parse))
      && ValidWatermark(input.watermark, parse) && forall d :: Readable(input, d)
  {
    hide DiffsFor, SortedKeys, WatermarkDiffs, ValidRow, Readable, KeyReadable, ValidWatermark, AllValid;
    WatermarkOk(input, parse);
    if FirstError(input.pgRows, parse) == None && FirstError(input.chRows, parse) == None {
      ValidRowsAllValid(input.pgRows, parse);
      ValidRowsAllValid(input.chRows, parse);
      KeysOk(SortedKeys(input.pgRows, input.chRows), input);
      ReadableKeys(input);
    }
  }

  lemma ReadableKeys(input: Input)
    ensures (forall d :: Readable(input, d)) <==> forall k :: k in SortedKeys(input.pgRows, input.chRows) ==> KeyReadable(k, input)
  {
    hide SortedKeys, RowsWith, RowsFor, RowKeys, DimensionsKey, ValidTolerance, ValidCounts;
    SortedKeysExact(input.pgRows, input.chRows);
    forall d ensures Readable(input, d) <==> KeyReadable(DimensionsKey(d), input) {
      RowsWithKey(input.pgRows, d);
      RowsWithKey(input.chRows, d);
    }
    forall d ensures Readable(input, d) || DimensionsKey(d) in SortedKeys(input.pgRows, input.chRows) {
      HasRows(input.pgRows, DimensionsKey(d));
      RowsWithKey(input.pgRows, d);
    }
    forall k | k in SortedKeys(input.pgRows, input.chRows) ensures exists d :: DimensionsKey(d) == k {
      if k in RowKeys(input.pgRows) { SomeDimensions(input.pgRows, k); } else { SomeDimensions(input.chRows, k); }
    }
  }

  lemma SomeDimensions(rows: seq<Row>, k: string)
    requires k in RowKeys(rows)
    ensures exists d :: DimensionsKey(d) == k
  {
    hide DimensionsKey;
    var i :| 0 <= i < |rows| && RowKeys(rows)[i] == k;
    assert DimensionsKey(rows[i].dimensions) == k;
  }

  ghost predicate CanonicalCount(count: Option<string>) { count.Some? ==> Canonical(count.value) }

  /** `rows[i]` is the first row that is not valid. */
  ghost predicate FirstInvalid(rows: seq<Row>, parse: DateParser, i: nat) {
    i < |rows| && !ValidRow(rows[i], parse) && forall j :: 0 <= j < i ==> ValidRow(rows[j], parse)
  }

  lemma {:induction false} FirstRefused(rows: seq<Row>, parse: DateParser, i: nat)
    requires FirstInvalid(rows, parse, i)
    ensures FirstError(rows, parse) == Some(RowError(rows[i]))
  {
    hide ValidRow, RowError;
    if i > 0 {
      assert forall j :: 0 <= j < i ==> rows[j] == if j == 0 then rows[0] else rows[1..][j - 1];
      assert FirstInvalid(rows[1..], parse, i - 1);
      FirstRefused(rows[1..], parse, i - 1);
    }
  }

  /** The first invalid row decides the error, official rows before projected ones: a metric that is no
      numeral, then a duplicate count that is none, then a bucket start that is no date. */
  lemma RowRefused(input: Input, parse: DateParser, official: bool, i: nat)
    requires FirstInvalid(if official then input.pgRows else input.chRows, parse, i)
    requires !official ==> forall r :: r in input.pgRows ==> ValidRow(r, parse)
    ensures Reconcile(input, parse).Err?
    ensures var row := (if official then input.pgRows else input.chRows)[i];
      var e := Reconcile(input, parse).error;
      && (e == InvalidMetric <==> !ValidMetrics(row.metrics))
      && (e == InvalidDuplicateCount <==> ValidMetrics(row.metrics) && !CanonicalCount(row.duplicateProjectionCount))
      && (e == InvalidBucketStart <==>
            ValidMetrics(row.metrics) && CanonicalCount(row.duplicateProjectionCount) && parse(row.dimensions.bucketStart) == None)
  {
    hide FirstError, ValidMetrics, DiffsFor, SortedKeys, WatermarkDiffs, AllValid;
    FirstRefused(if official then input.pgRows else input.chRows, parse, i);
    ZeroCanonical();
  }

  lemma ZeroCanonical()
    ensures Canonical("0")
  {
  }
}
