# TokenPilot core, modelled and proved in Dafny

TokenPilot is a control plane for model usage, quotas and reconciliation. This project models the parts
of it whose correctness is not visible from one function body, and proves what they promise for all
inputs, all time zones of a stated kind, all interleavings or all delivery orders.

Verify everything with `dafny verify dfyconfig.toml`.

| module | what it models |
|---|---|
| `Civil`, `Epoch`, `Numerals`, `Ordering`, `CodeUnits`, `Outcomes` | Gregorian dates and their day count, decimal numerals, strict orders and sorting, the order of texts, results |
| `LocalDateTime`, `QuotaWindow`, `QuotaPeriods`, `UtcTimestamp` | wall-clock text to UTC, quota periods cut at local midnight, RFC 3339 timestamps |
| `QuotaPolicy`, `QuotaStore`, `QuotaRestore` | the policy in force for a user, the quota rows that cache it, their ledger and reservations, removal and restoration of a policy |
| `Json`, `JsonReader`, `CanonicalJson`, `CanonicalOrder` | JSON values, their text and a reader for it, canonical key order |
| `Ingestion`, `Heartbeat`, `HeartbeatRace` | idempotent intake of usage events and connector heartbeats |
| `SchemaInliner`, `SchemaMeaning`, `SchemaRemnants`, `SchemaErrors` | inlining of local JSON Schema definitions |
| `Reconciler`, `ReconcilerProperties`, `ReconcilerReport`, `ReconcilerContents`, `ReconcilerCosts`, `ReconcilerExport`, `Csv` | comparison of official and projected usage, and its CSV export |
| `Aiu` | micros, displayed amounts and the rate grammar |
| `Recovery`, `UsageExport`, `UsageExportProperties`, `SerialPoller`, `Scheduler`, `JobNames`, `JobQueue`, `Acknowledgement` | the background loops |

A time zone is any function from instants to offsets. Databases are values or classes whose updates
are atomic transactions, and whose text comparison is any strict total order; queues drop jobs whose
identifier they already hold; SHA-256 is any injective function of the canonical text.

Where the code does less than its description says, the code is modelled as it is, a lemma gives an
input on which the description fails, and another states when it holds:

- The comment on `instanceLocalDateTimeToUtc` says that sampling discovers every nearby offset. The
  candidates are the occurrences exactly when the offset of each occurrence is sampled
  (`CandidatesExactly`); stretches of four hours are enough, and one second less is not
  (`ShortStretchIsMissed`).
- `localMidnight` finds the instant that separates two days exactly under `SplitCondition`
  (`SplitsExactly`); when the clock skips midnight in a zone behind UTC, the day window can end before
  `now` (`SkippedMidnightLosesNow`). Windows partition time exactly when the computed midnights separate
  the days at every boundary (`PartitionsExactly`), which `PartitionsByZone` states in terms of the zone's
  changes; every instant is inside its own window exactly when each midnight lies between the two periods
  that meet there (`InsideNear`).
- Removing a quota policy and restoring it in the same period keeps consumption exactly when there is
  none, or nothing, or only a policy with the same period, takes over in between (`DisableThenSave`);
  otherwise it is reset (`FallbackResetsConsumption`).
- `inlineLocalDefinitions` drops `$defs` except where a reference object brings it along
  (`InlinedExactly`), so a schema whose root is a reference keeps it (`RootReferenceKeepsDefs`).
- The usage table is a plain merge tree and can hold an event identifier twice. The paged export then does
  not ascend strictly, skips rows when equal identifiers straddle two pages, and refuses a full page of
  empty identifiers (`RepeatedIdentifier`, `RepeatedError`). For any history it ascends strictly exactly when
  no page read holds an identifier twice (`StrictByPages`), so unique identifiers are enough
  (`UniqueTablesAscend`); `UnchangedExactly` says exactly when it succeeds.
- `SerialPoller` is described as non-overlapping, with a close that waits for the active iteration. With
  the rule that start and resume take effect only while no iteration runs, at most one timer or iteration
  exists at any time, and that is exact (`SerialExactly`). A run that breaks the rule need not overlap, but
  it reaches a state in which the next timer to fire makes two iterations overlap, and a run that keeps it
  never does (`OverlapExactly`). An iteration begins after close exactly when a timer is pending that the
  poller does not remember (`NothingStartsExactly`); close resolves early exactly when an iteration calls
  it before its first wait (`CloseWaitsExactly`). `ResumeWhileRunning` gives the runs.

## Model

| member | source | states |
|---|---|---|
| `Epoch.DayNumberCounts` | apps/web/lib/time.ts:56-62 | the day count is zero on 1970-01-01 and goes up by one from each calendar date to the next, by month length and leap year |
| `Epoch.CountIsDayNumber` | apps/web/lib/time.ts:56-62 | and it is the only count of days that does |
| `Epoch.DayNumberByFormula` | apps/web/lib/time.ts:56-62 | it is the number that the formulas of ECMAScript give |
| `LocalDateTime.ParseExact` | apps/web/lib/time.ts:64-89 | the accepted texts are exactly the renderings, with or without seconds, of real date-times of years 0 to 9999, in surrounding white space or not, and the parsed fields are those rendered |
| `LocalDateTime.TrimExact` | apps/web/lib/time.ts:65-65 | trimming leaves a text if and only if there is nothing but white space around it |
| `LocalDateTime.InstanceLocalDateTimeToUtc` | apps/web/lib/time.ts:107-148 | the sampling loop computes the conversion that the next three rows are about |
| `LocalDateTime.CandidateExactly` | apps/web/lib/time.ts:117-129 | in every zone, an instant is a candidate if and only if it shows the wall time and one of the 25 samples has its offset |
| `LocalDateTime.CandidatesExactly` | apps/web/lib/time.ts:117-129 | in every zone, the candidates are the instants that show the wall time if and only if the offset of each of those instants is sampled |
| `LocalDateTime.CandidatesExact` | apps/web/lib/time.ts:117-129 | stretches of at least four hours are enough for that |
| `LocalDateTime.ConvertExact` | apps/web/lib/time.ts:131-147 | whenever the offsets in question are sampled: nonexistent if and only if no instant shows the time, ambiguous if and only if rejection is asked for and two do, otherwise the least or the greatest such instant |
| `Epoch.FixedOffsetConverts` | apps/web/lib/time.ts:107-148 | at a fixed offset every accepted text converts, in every mode, to the instant those formulas give, less the offset |
| `LocalDateTime.FormatThenConvert` | apps/web/lib/time.ts:107-158 | whenever the offsets in question are sampled, formatting an instant on a whole minute and converting back brackets it, and returns it when its wall time is not repeated |
| `LocalDateTime.ShortStretchIsMissed` | apps/web/lib/time.ts:119-124 | for every wall time there is a zone with a stretch one second under four hours in which an occurrence is not sampled and missed |
| `LocalDateTime.ChangeZoneFits` | apps/web/lib/time.ts:119-124 | every zone with one offset change is among those the conversion is exact for |
| `QuotaWindow.LocalMidnight` | packages/db/src/aiu-quota-policies.ts:107-137 | the loop returns the fourth iterate that the next rows are about |
| `QuotaWindow.FourSteps` | packages/db/src/aiu-quota-policies.ts:110-135 | with at most one offset change near the target, where four steps end, in every case |
| `QuotaWindow.LandsOnMidnight` | packages/db/src/aiu-quota-policies.ts:107-137 | with at most one offset change within two days, the result shows the midnight if and only if some instant does |
| `QuotaWindow.SplitsExactly` | packages/db/src/aiu-quota-policies.ts:107-137 | the result separates the days if and only if the midnight is shown once, or one of two boundary cases of a change at exactly midnight holds |
| `QuotaWindow.PeriodContains` | packages/db/src/aiu-quota-policies.ts:160-176 | a day, Monday-based week or month contains the date it was cut for |
| `Epoch.WeeksStartOnMonday` | packages/db/src/aiu-quota-policies.ts:161-165 | a week starts a whole number of weeks from Monday 1970-01-05 |
| `QuotaWindow.GivenWindows` | packages/db/src/aiu-quota-policies.ts:148-160 | a lifetime window is open from `now` on; a fixed one is as given, and refused if and only if missing or its ends are not in order |
| `QuotaWindow.PeriodUnique` | packages/db/src/aiu-quota-policies.ts:160-176 | every date inside a period is cut into that same period |
| `QuotaWindow.PeriodNext` | packages/db/src/aiu-quota-policies.ts:169-176 | the end date of a period starts the next one |
| `QuotaWindow.WindowPartition` | packages/db/src/aiu-quota-policies.ts:148-178 | the window contains `now`, is the window of every instant inside it, and ends where the next begins, wherever the computed boundaries separate the days; this covers some skipped or repeated midnights too |
| `QuotaWindow.PlainMidnightFound` | packages/db/src/aiu-quota-policies.ts:107-137 | when midnight is shown exactly once and the offset changes at most once within two days, the result is that midnight and separates the days |
| `QuotaWindow.PlainWindowPartition` | packages/db/src/aiu-quota-policies.ts:148-178 | when both boundary midnights are such, the window contains `now`, is the window of every instant inside it, and ends where the next begins |
| `QuotaWindow.ChangeZonePlain` | packages/db/src/aiu-quota-policies.ts:107-137 | in a zone that changes once, a midnight is shown once if and only if it falls on one side of the change only |
| `QuotaPeriods.InsideNear` | packages/db/src/aiu-quota-policies.ts:148-178 | in any zone, every instant is inside its own window if and only if every computed midnight lies between the two periods that meet there |
| `QuotaPeriods.InsideExactly` | packages/db/src/aiu-quota-policies.ts:148-178 | where the clock shows every period, if and only if the computed midnights separate the days at every boundary date; separation suffices in any zone |
| `QuotaPeriods.LongPeriodsShown` | packages/db/src/aiu-quota-policies.ts:92-105 | every zone shows every week and month, because it never skips two dates in a row |
| `QuotaPeriods.PartitionsExactly` | packages/db/src/aiu-quota-policies.ts:148-178 | for days, weeks and months in every zone, also one that skips whole dates: windows contain their instant, are the same for every instant inside, and end where the next begins, if and only if the computed midnights separate the days at every boundary |
| `QuotaPeriods.PartitionsByZone` | packages/db/src/aiu-quota-policies.ts:107-178 | for zones that change at most once near every boundary, the exact condition in terms of those changes and their offsets |
| `QuotaPeriods.ChangeZoneShows` | packages/db/src/aiu-quota-policies.ts:92-105 | a zone that changes once, by less than a day, shows every period |
| `QuotaWindow.SkippedMidnightLosesNow` | packages/db/src/aiu-quota-policies.ts:107-178 | for every date there is a zone whose clock skips its midnight and whose day window ends before `now` |
| `UtcTimestamp.AcceptsExactly` | packages/contracts/src/common.ts:12-52 | the accepted texts are exactly the UTC renderings, section 5.6 of RFC 3339 without leap seconds, of real Gregorian date-times of years 1 to 9999 |
| `UtcTimestamp.RealIsAccepted` | packages/contracts/src/common.ts:21-48 | a rendering of a real date-time yields its own fields and nanoseconds |
| `UtcTimestamp.CompareUtcDateTimes` | packages/contracts/src/common.ts:54-65 | fails if and only if a text is not accepted; the sign of the result is the order of the nanosecond instants |
| `UtcTimestamp.SameInstant` | packages/contracts/src/common.ts:31-65 | two real timestamps are the same instant if and only if they differ only in trailing zeros of the fraction |
| `QuotaPolicy.ResolveExact` | packages/db/src/aiu-quota-policies.ts:33-79 | the resolved policy is exactly the applying one that wins over all others: narrower subject, then priority, update time and identifier; none if and only if none applies |
| `QuotaPolicy.ResolveFrame` | packages/db/src/aiu-quota-policies.ts:38-78 | the resolved policy depends only on the policies that apply to the user |
| `QuotaStore.Store.Materialize` | packages/db/src/aiu-quota-policies.ts:181-309 | the row, ledger and reservation writes, in order, produce the account that the next rows are about and touch no other user |
| `QuotaStore.MaterializedReservations` | packages/db/src/aiu-quota-policies.ts:263-275 | position by position: a reservation is released, once, if and only if it is live, the row has a reserved balance and a policy starts a new period; any other stays as it is, and amounts never change |
| `QuotaStore.MaterializedRow` | packages/db/src/aiu-quota-policies.ts:201-309 | a new period starts at zero in its window, otherwise balances and window stay; without a policy the row keeps everything else; a write is one version and one entry with the reason and the differences of the balances |
| `QuotaStore.MaterializedAgrees` | packages/db/src/aiu-quota-policies.ts:201-292 | afterwards the row agrees with the policy in force, and nothing is written if and only if it agreed already |
| `QuotaStore.MaterializedBalanced` | packages/db/src/aiu-quota-policies.ts:203-307 | balances stay the sums of the ledger deltas and the last entry's values, every entry records its running balance, and the reserved balance stays the sum of live reservations |
| `QuotaRestore.RemoveThenRestore` | packages/db/src/aiu-quota-policies.ts:201-292 | removing a policy and restoring it within one period leaves both balances as they were if nothing, or a policy with the same period, took over, and zero otherwise |
| `QuotaRestore.FallbackExact` | apps/api/src/quota-policies/quota-policy.service.ts:182-222 | while a rule is disabled, the policy in force is the one in force among policies about other subjects |
| `QuotaRestore.DisableThenSave` | apps/api/src/quota-policies/quota-policy.service.ts:124-222 | for any store and scope, disabling the rule in force for a user and saving it again within the period puts it in force again and keeps the balances if and only if they were zero or that policy, known before the first call, is none or has the same period |
| `QuotaRestore.FallbackResetsConsumption` | apps/api/src/quota-policies/quota-policy.service.ts:124-222 | in every zone and on every day, a team member with balanced books under a daily rule in front of a monthly one loses the consumption when the rule is disabled and saved again that day |
| `QuotaRestore.RestoreWithinWindow` | packages/db/src/aiu-quota-policies.ts:148-309 | for calendar policies, removal and restoration at any two instants of the window keep consumption and reservations |
| `QuotaStore.Store.MaterializeAll` | apps/api/src/quota-policies/quota-policy.service.ts:267-285 | the loop over users is the fold that the next row is about |
| `QuotaStore.MaterializeUsersExact` | apps/api/src/quota-policies/quota-policy.service.ts:267-285 | every listed user is materialised once against the policies of the start, and no other account changes |
| `QuotaStore.Store.SavePolicy` | apps/api/src/quota-policies/quota-policy.service.ts:124-180 | the transaction computes the saved store that the next rows are about |
| `QuotaStore.SaveKeepsAgreement` | apps/api/src/quota-policies/quota-policy.service.ts:124-180 | exactly when it succeeds, with the schema's comparison of the two ends as texts and the table's as instants; a failed save changes nothing; a successful one stores the rule's terms, with both instants of a fixed window and none otherwise, under the old identifier, keeps every agreeing row agreeing, makes the rows of the scope's users agree and leaves every other account as it was |
| `QuotaStore.RefusedExactly` | apps/api/src/quota-policies/quota-policy.service.ts:124-265 | which refusal of a save or a disable is due to which request, group or policy table |
| `QuotaStore.SavedWindowReaches` | apps/api/src/quota-policies/quota-policy.service.ts:137-180 | where a saved rule is in force for a user of its scope, the row has the rule's two instants for a fixed window, and the calendar period of the call otherwise |
| `QuotaStore.Store.DisablePolicy` | apps/api/src/quota-policies/quota-policy.service.ts:182-222 | the transaction computes the store that the next row is about |
| `QuotaStore.DisableKeepsAgreement` | apps/api/src/quota-policies/quota-policy.service.ts:182-222 | succeeds exactly when the group is freshly evaluated and the subject has a rule; a failure changes nothing; a success disables the rule, which keeps all its terms, touches no other rule, and keeps or establishes agreement as a save does |
| `QuotaStore.GroupEditFrame` | apps/api/src/quota-policies/quota-policy.service.ts:137-163 | editing a group's policy never changes the policy in force for a user outside its current evaluation |
| `QuotaStore.ApplicationRuleReaches` | apps/api/src/quota-policies/quota-policy.service.ts:124-180 | a saved application rule is in force, and its terms are in the row, for every user no narrower policy reaches |
| `QuotaStore.RunKeepsInvariants` | apps/api/src/quota-policies/quota-policy.service.ts:124-285 | in every state of every run of saves, disables, materialisations and settlements at one instant, books balance and rows agree |
| `JsonReader.StringifyRoundTrip` | apps/api/src/ingestion/canonical-payload.ts:17-19 | a reader for RFC 8259 text gives back every value from its JSON text |
| `JsonReader.StringifyInjective` | apps/api/src/ingestion/canonical-payload.ts:17-19 | so JSON text determines the value |
| `CanonicalJson.CanonicalTextExact` | apps/api/src/ingestion/canonical-payload.ts:7-19 | two values have the same canonical text if and only if they differ only in object key order, at any depth |
| `CanonicalJson.CanonicalIdempotent` | apps/api/src/ingestion/canonical-payload.ts:7-15 | canonicalising twice is canonicalising once |
| `CanonicalOrder.CanonicalUnique` | apps/api/src/ingestion/canonical-payload.ts:7-15 | the canonical form is the one value that differs only in key order and has, at every depth, array indices first by value and then all other keys in text order |
| `CodeUnits.TextLessByUnits` | apps/api/src/ingestion/canonical-payload.ts:10-12 | the text order is the lexicographic order of UTF-16 code units |
| `CanonicalJson.CanonicalLookup` | apps/api/src/ingestion/canonical-payload.ts:7-15 | every lookup path keeps its value |
| `Ingestion.RunKeepsInvariant` | apps/api/src/usage-ingestion.service.ts:157-298 | over every interleaving: the database is the accepted writers replayed, their keys are new and distinct, and every answer compares with the stored hash |
| `Ingestion.AtMostOneAccepted` | apps/api/src/usage-ingestion.service.ts:162-297 | at most one writer per application and event identifier is told accepted, and none for an identifier already stored |
| `Ingestion.StoredHashNeverChanges` | apps/api/src/usage-ingestion.service.ts:242-296 | from any point of any run on, a stored hash and payload stay |
| `Ingestion.LosersLeaveNoTrace` | apps/api/src/usage-ingestion.service.ts:162-297 | the database is what the accepted writers alone produce |
| `Ingestion.AnswersCompareWithWinner` | apps/api/src/usage-ingestion.service.ts:58-60 | for a new identifier, every answered writer but the winner is told duplicate if its payload differs from the winner's only in key order, else conflict |
| `Ingestion.AnswersCompareWithStored` | apps/api/src/usage-ingestion.service.ts:163-167 | for an identifier stored before, every answer compares with that hash |
| `Ingestion.SeenIsMinAndMax` | apps/api/src/usage-ingestion.service.ts:169-200 | a user created by intake is first and last seen at the least and greatest time of its committed events, in any order |
| `Ingestion.ProfileIsLastGiven` | apps/api/src/usage-ingestion.service.ts:169-191 | over every interleaving, the name and properties of a user are those of the last committed event that gives them, or what they were, or none |
| `Ingestion.CountsPartition` | apps/api/src/usage-ingestion.service.ts:103-112 | the four counts add up to the results |
| `Ingestion.Intake.Ingest` | apps/api/src/usage-ingestion.service.ts:79-113 | exactly when a batch succeeds; a refused one changes nothing, one whose event throws leaves exactly the events before it stored; otherwise one result per event in order, and each count is the number of results with its status |
| `Ingestion.CountExact` | apps/api/src/usage-ingestion.service.ts:107-110 | a count is the multiplicity of its status among the results |
| `Ingestion.BatchAnswers` | apps/api/src/usage-ingestion.service.ts:79-113 | every answer of a batch: rejected if and only if malformed or above the event limit; accepted if and only if the identifier was not stored and the event is the first to bring it; otherwise duplicate or conflict by the hash stored or first brought |
| `Ingestion.BatchRegistry` | apps/api/src/usage-ingestion.service.ts:242-296 | after a batch an identifier is stored if and only if it was or an event brings it, with the hash of the first |
| `Ingestion.AloneIsPersist` | apps/api/src/usage-ingestion.service.ts:157-298 | a writer that runs alone does what the sequential transaction does |
| `Ingestion.RetryIsIdempotent` | apps/api/src/usage-ingestion.service.ts:79-113 | a batch sent again after any further intake: an event admitted both times writes nothing and is told duplicate where it was accepted, the same otherwise; every other event is answered and written as if those were left out of the batch |
| `Ingestion.RetryWritesNothing` | apps/api/src/usage-ingestion.service.ts:79-113 | when everything the retry admits was admitted before, the database is unchanged |
| `Ingestion.NothingNew` | apps/api/src/usage-ingestion.service.ts:94-101 | a batch of which validation admits nothing writes nothing |
| `Heartbeat.Store.PersistHeartbeat` | apps/api/src/heartbeat.service.ts:160-278 | the transaction computes the receipts, snapshot and connection changes that the next rows are about |
| `Heartbeat.RunMatches` | apps/api/src/heartbeat.service.ts:160-278 | after any deliveries, receipts are those of the accepted heartbeats and each row is that of its connector's newest |
| `Heartbeat.SnapshotIsMaximum` | apps/api/src/heartbeat.service.ts:214-243 | the row of a connector shows the accepted heartbeat with the greatest send time and identifier as it was first received, and the connections of the connector have its receive time and are available if it is healthy, degraded if not |
| `Heartbeat.AnswerExact` | apps/api/src/heartbeat.service.ts:168-176 | accepted if and only if the identifier is new, updated if and only if newer than all accepted before for the connector; otherwise nothing changes, duplicate if and only if payloads differ only in key order, and a conflict names the accepted hash |
| `Heartbeat.Converges` | apps/api/src/heartbeat.service.ts:160-308 | any two deliveries of the same heartbeats end with the same receipts, snapshots apart from receive time, and connection statuses |
| `HeartbeatRace.RaceIsSequential` | apps/api/src/heartbeat.service.ts:160-278 | over every interleaving of concurrent writers, with rollback and re-read, the database is that of the accepted ones delivered one after the other; at most one per identifier is accepted |
| `HeartbeatRace.LoserComparesWithWinner` | apps/api/src/heartbeat.service.ts:267-277 | every other answered writer is told duplicate if and only if its payload differs from the accepted one only in key order |
| `HeartbeatRace.RaceConverges` | apps/api/src/heartbeat.service.ts:160-278 | when all are answered, every interleaving ends as the sequential delivery of the same heartbeats |
| `SchemaInliner.ExpandSucceeds` | packages/contracts/scripts/generate-json-schema.ts:43-78 | expansion of a term under a stack succeeds if and only if every path of references from it resolves and avoids the stack and itself |
| `SchemaInliner.InlineSucceeds` | packages/contracts/scripts/generate-json-schema.ts:37-81 | inlining succeeds if and only if every reachable reference resolves and no path of references meets a definition twice |
| `SchemaErrors.InlineBlames` | packages/contracts/scripts/generate-json-schema.ts:52-61 | every error names the reference at the end of a path of references from the schema, and what is wrong with it: it cannot be decoded, has no definition, or is being expanded further up the path |
| `SchemaErrors.LocalReferenceExact` | packages/contracts/scripts/generate-json-schema.ts:52-54 | an object refers to a definition if and only if its `$ref` is the local prefix and the name |
| `SchemaInliner.StackIndependent` | packages/contracts/scripts/generate-json-schema.ts:43-78 | the stack only guards: two stacks under which a term expands give the same expansion |
| `SchemaRemnants.InlinedExactly` | packages/contracts/scripts/generate-json-schema.ts:43-80 | the result never has a local `$ref`, and has `$defs` if and only if a reference object brings it along: as a sibling, in a sibling, or from its definition at a key the siblings do not override |
| `SchemaRemnants.KeepsExactly` | packages/contracts/scripts/generate-json-schema.ts:43-78 | the same of any term under any stack, leaving out any set of top-level keys |
| `SchemaRemnants.InlineLeavesNothingLocal` | packages/contracts/scripts/generate-json-schema.ts:53-80 | when no reference object has a `$defs` sibling, the result has no local `$ref` and no `$defs` |
| `SchemaRemnants.RootReferenceKeepsDefs` | packages/contracts/scripts/generate-json-schema.ts:62-70 | every schema whose root is a local reference keeps its `$defs` |
| `SchemaMeaning.ExpandedField` | packages/contracts/scripts/generate-json-schema.ts:51-77 | reading a key of an expanded object gives the expanded child; for a reference the sibling's value wins over the definition's |
| `SchemaMeaning.SpreadLookup` | packages/contracts/scripts/generate-json-schema.ts:62-70 | what spreading an expanded definition has under a key, for objects, arrays, strings and other values |
| `SchemaMeaning.ExpandedItem` | packages/contracts/scripts/generate-json-schema.ts:44-46 | arrays expand element by element |
| `SchemaMeaning.ExpandValid` | packages/contracts/scripts/generate-json-schema.ts:43-78 | expansion keeps object keys unique at every depth |
| `Reconciler.DimensionsKeyInjective` | packages/reconciliation-engine/src/reconciler.ts:38-49 | two rows share a key if and only if all eight dimension fields are equal |
| `Reconciler.Group` | packages/reconciliation-engine/src/reconciler.ts:86-105 | the loop stops at the first invalid row with its error, else keeps for every key its rows in order |
| `Reconciler.CompareUsage` | packages/reconciliation-engine/src/reconciler.ts:163-167 | the loop collects the deltas that `UsageDeltasExact` is about |
| `Reconciler.ReconcileSnapshots` | packages/reconciliation-engine/src/reconciler.ts:257-342 | the loop over sorted keys computes the report that the next rows are about, including every error |
| `ReconcilerProperties.EmptyExactly` | packages/reconciliation-engine/src/reconciler.ts:107-342 | for valid input the report is empty if and only if both sides have the same dimensions once each, nothing declared, every pair agrees within tolerance, and the watermark is not stalled |
| `ReconcilerReport.ReportExact` | packages/reconciliation-engine/src/reconciler.ts:107-318 | for all dimensions and every kind, the report holds such a difference if and only if the rows warrant it, with the metrics of the first row on each side and the kind's severity |
| `ReconcilerContents.ReportContents` | packages/reconciliation-engine/src/reconciler.ts:55-318 | for all dimensions and every kind, how many such differences the report holds, and for each its severity, samples, count, amount and deltas, metric by metric |
| `ReconcilerContents.StallReported` | packages/reconciliation-engine/src/reconciler.ts:320-339 | one difference about no dimensions if and only if the watermark is behind and its age exceeds the allowed seconds |
| `ReconcilerContents.ReportMade` | packages/reconciliation-engine/src/reconciler.ts:86-342 | a report is made if and only if every row is valid, the watermark can be read, and so can tolerances and official counts of dimensions on both sides |
| `ReconcilerContents.RowRefused` | packages/reconciliation-engine/src/reconciler.ts:86-105 | which error the first invalid row gives, official rows first |
| `ReconcilerCosts.CostGrammar` | packages/reconciliation-engine/src/metrics.ts:31-38 | the accepted cost texts are exactly a whole part and decimal digits joined by a point |
| `ReconcilerCosts.CostExact` | packages/reconciliation-engine/src/metrics.ts:31-38 | a cost with n decimal digits is the number its digits make without the point, over ten to the power n |
| `ReconcilerCosts.CostsReported` | packages/reconciliation-engine/src/reconciler.ts:181-213 | two costs written with their digits are reported if and only if they are further apart than the tolerance, as pending or as missing |
| `ReconcilerCosts.LastPlaceReported` | packages/reconciliation-engine/src/reconciler.ts:181-213 | one unit in the last of n places is reported if and only if ten to the power -n exceeds the tolerance |
| `ReconcilerReport.UsageDeltasExact` | packages/reconciliation-engine/src/metrics.ts:24-47 | a usage delta is recorded if and only if the metric differs, and is the official value minus the projected one |
| `ReconcilerProperties.DeltasAreReal` | packages/reconciliation-engine/src/reconciler.ts:163-225 | every recorded usage delta is nonzero, every cost or AIU delta exceeds its tolerance |
| `ReconcilerProperties.DuplicatesCounted` | packages/reconciliation-engine/src/reconciler.ts:268-292 | reported duplicates are rows minus distinct keys on both sides plus declared duplicates |
| `ReconcilerProperties.DeclaredIsTotal` | packages/reconciliation-engine/src/reconciler.ts:268-292 | declared duplicates are the sum of the counts the rows state, zero for a row that states none |
| `ReconcilerProperties.OrderIrrelevant` | packages/reconciliation-engine/src/reconciler.ts:257-342 | when no side repeats a key the report does not depend on row order |
| `ReconcilerProperties.SamplesExact` | packages/reconciliation-engine/src/reconciler.ts:51-53 | samples ascend, come from both lists, and leave out only larger identifiers, only when there are a hundred |
| `Csv.TableRoundTrip` | packages/reconciliation-engine/src/run-plan.ts:60-68 | a reader for section 2 of RFC 4180 that accepts LF recovers every row and field text |
| `Csv.PlainExactly` | packages/reconciliation-engine/src/run-plan.ts:67-67 | a field is written as it is if and only if it holds no quote, comma or line break |
| `ReconcilerExport.ExportRoundTrip` | packages/reconciliation-engine/src/run-plan.ts:70-94 | reading an exported report gives the header and the nine field texts of every difference, in order |
| `ReconcilerExport.ReportDeltasDecide` | packages/reconciliation-engine/src/run-plan.ts:82-92 | the delta column of exported reports determines which metrics differ and by how much, costs to eighteen places |
| `ReconcilerExport.ReportOnce` | packages/reconciliation-engine/src/reconciler.ts:163-225 | no difference of a report lists a metric twice |
| `ReconcilerExport.DeltaTextDecides` | packages/reconciliation-engine/src/run-plan.ts:60-68 | the text of any deltas that list each metric once determines them |
| `ReconcilerExport.FixedExact` | packages/reconciliation-engine/src/metrics.ts:49-51 | an amount with at most eighteen decimal places is printed exactly |
| `ReconcilerCosts.CostOfFixed` | packages/reconciliation-engine/src/metrics.ts:49-51 | and read back as that amount |
| `ReconcilerCosts.FixedNearest` | packages/reconciliation-engine/src/metrics.ts:49-51 | any amount is printed as its sign and the nearest number of eighteen places, halves up |
| `ReconcilerCosts.FixedSeparates` | packages/reconciliation-engine/src/metrics.ts:49-51 | so amounts that print alike differ by at most one unit of the eighteenth place |
| `ReconcilerExport.ReportColumnsRead` | packages/reconciliation-engine/src/run-plan.ts:60-92 | the delta and sample columns of an exported report read back as JSON |
| `Aiu.DisplayRoundTrip` | apps/api/src/common/serialization.ts:19-30 | every value from 0 to 2^63-1 displays as a text the rate grammar accepts and that converts back to it |
| `Aiu.DisplayInjective` | apps/api/src/common/serialization.ts:19-30 | at a power of ten, the displayed text of a signed amount identifies it |
| `Aiu.MicrosToAiuIsDisplay` | apps/api/src/models/model-pricing.catalog.ts:39-50 | decimal division with trimming prints what integer display prints |
| `Aiu.AiuToMicrosExact` | apps/api/src/models/model-pricing.catalog.ts:44-46 | reading a rate is exact: `toFixed(0)` has nothing to round |
| `Aiu.RateGrammarExact` | apps/api/src/models/model-pricing.schemas.ts:3-10 | the rate grammar is a whole part of at most thirteen digits and at most six decimal digits |
| `Aiu.RateRoundTrip` | apps/api/src/models/model-pricing.schemas.ts:3-10 | every accepted rate, converted to micros and back, is its text without trailing zeros |
| `Aiu.NoRounding` | apps/api/src/models/model-pricing.catalog.ts:44-50 | no operand, product or quotient has more than nineteen significant digits |
| `Recovery.RunInvariant` | apps/api/src/background-job-recovery.service.ts:158-201 | over every interleaving, claims are in order and once each, counts track completed and busy rows, and delivered rows are queued |
| `Recovery.ClaimedAtMostOnce` | apps/api/src/background-job-recovery.service.ts:174-180 | each row is claimed at most once |
| `Recovery.ScannedAddsUp` | apps/api/src/background-job-recovery.service.ts:127-201 | at the end scanned is enqueued plus already present plus failed, every claimed row has one outcome, and every row not failed is in the queue |
| `Recovery.OutcomesDeserved` | apps/api/src/background-job-recovery.service.ts:127-201 | over every interleaving, a row is added only if queued, supported and with parameters, reported present unless queued and unsupported, failed only if queued; at most ten rows are worked on at a time |
| `Recovery.ClaimsEveryRow` | apps/api/src/background-job-recovery.service.ts:174-199 | a scan that ends without reaching its deadline has claimed every row |
| `Recovery.OneEntryPerJob` | apps/api/src/background-job-recovery.service.ts:127-156 | late adds and other processes included, the queue never holds two entries for one identifier, loses none, and holds only what was there, what another process added, and claimed rows |
| `Recovery.TimedOutAddSurvives` | apps/api/src/background-job-recovery.service.ts:49-70 | over every continuation, an add its caller gave up on has its job in the queue or is still on its way |
| `Recovery.LateAddOnlyShows` | apps/api/src/background-job-recovery.service.ts:49-53 | when it lands it changes only what later lookups of its own identifier say |
| `Recovery.Coalescer.RecoverPending` | apps/api/src/background-job-recovery.service.ts:118-125 | overlapping requests share the one running scan |
| `Recovery.Coalescer.Settle` | apps/api/src/background-job-recovery.service.ts:120-122 | the end of the running scan leaves none running, so the next request starts one |
| `UsageExport.GenerateExport` | apps/worker/src/usage-export.ts:212-318 | the page loop computes the export that the next rows are about, with the errors of counts, limits, cursor and changed rows, and ends whatever the table does |
| `UsageExport.WritePage` | apps/worker/src/usage-export.ts:250-299 | the loop over a page appends it if and only if its counts are exact and the total stays within the byte limit, else fails with the first refusal |
| `UsageExport.WriteExact` | apps/worker/src/usage-export.ts:26-43 | the same of the specification, for any rows before |
| `UsageExportProperties.ExportShape` | apps/worker/src/usage-export.ts:240-307 | whatever happens to the table, and whatever identifiers repeat, a successful export has the counted rows within the limits, never descends, and repeats an identifier only within one page |
| `UsageExportProperties.StrictByPages` | apps/worker/src/usage-export.ts:240-307 | whatever happens to the table, a successful export ascends strictly if and only if no page it read holds an identifier twice |
| `UsageExportProperties.UniqueTablesAscend` | apps/worker/src/usage-export.ts:181-307 | identifiers unique in every table that is read are enough for strict ascent, even if the table changes between pages |
| `UsageExportProperties.UnchangedExactly` | apps/worker/src/usage-export.ts:181-307 | on an unchanged table it succeeds if and only if counts are exact, it is within the limits, no run of equal identifiers crosses a page boundary and no full page ends with the empty identifier; it then holds every row once in order, and ascends strictly if and only if identifiers are unique |
| `UsageExportProperties.ListingContinues` | apps/worker/src/usage-export.ts:181-187 | on an unchanged table the query after `n` exported rows lists the identifiers from the `n`-th on, if the cursor separates them |
| `UsageExportProperties.RepeatedIdentifier` | apps/worker/src/usage-export.ts:240-307 | a table of rows that share an identifier is exported only if they fit on one page, and not as a full page of empty identifiers; with two or more rows the export does not ascend strictly |
| `UsageExportProperties.RepeatedError` | apps/worker/src/usage-export.ts:300-307 | more than a page of them fails with a changed count, and empty identifiers with an invalid cursor |
| `SerialPoller.SerialExactly` | apps/worker/src/serial-poller.ts:21-68 | at most one iteration or timer, never both, in every state of a run if and only if start and resume take effect only while nothing runs |
| `SerialPoller.OverlapExactly` | apps/worker/src/serial-poller.ts:36-57 | no timer firing next, at any point of a run, makes two iterations overlap if and only if that rule is kept |
| `SerialPoller.NeverQuiet` | apps/worker/src/serial-poller.ts:50-68 | under that rule a started poller that is not paused always has a timer or an iteration |
| `SerialPoller.CloseIsFinal` | apps/worker/src/serial-poller.ts:42-48 | under the rule nothing starts after close until start, and once it has resolved nothing runs, unless it was called by an iteration before its first wait |
| `SerialPoller.CloseWaitsExactly` | apps/worker/src/serial-poller.ts:42-57 | that exception is exact: a close called there resolves while the iteration runs |
| `SerialPoller.NothingStartsExactly` | apps/worker/src/serial-poller.ts:42-57 | in any state, no iteration begins after close if and only if no timer is pending but the remembered one |
| `SerialPoller.ResumeWhileRunning` | apps/worker/src/serial-poller.ts:36-40 | runs that break the rule: two iterations at once, and an iteration that starts after close |
| `SerialPoller.Poller.IterationEnds` | apps/worker/src/serial-poller.ts:59-68 | the end of an iteration as a step of the state machine |
| `SerialPoller.Poller.TimerFires` | apps/worker/src/serial-poller.ts:50-57 | the timer callback up to the first wait of the iteration, as a step of the state machine |
| `SerialPoller.Poller.IterationWaits` | apps/worker/src/serial-poller.ts:52-55 | the rest of the callback, which remembers the iteration, as a step |
| `SerialPoller.Poller.IterationFails` | apps/worker/src/serial-poller.ts:50-68 | the rest of the callback when the work throws before its first wait, as a step |
| `SerialPoller.Poller.StartPolling` | apps/worker/src/serial-poller.ts:21-26 | start as a step of the state machine |
| `SerialPoller.Poller.PausePolling` | apps/worker/src/serial-poller.ts:28-34 | pause as a step, and the iteration it waits for |
| `SerialPoller.Poller.ResumePolling` | apps/worker/src/serial-poller.ts:36-40 | resume as a step of the state machine |
| `SerialPoller.Poller.ClosePolling` | apps/worker/src/serial-poller.ts:42-48 | close as a step, and the iteration it waits for |
| `Scheduler.ControlPlane.Tick` | apps/scheduler/src/scheduler.ts:44-94 | the jobs a tick names and the queue after it |
| `Scheduler.QueueExact` | apps/scheduler/src/scheduler.ts:44-94 | the queue holds exactly the names some tick gave, each once |
| `Scheduler.QueueByTime` | apps/scheduler/src/scheduler.ts:44-76 | that is, exactly the jobs due at some tick: in their minute, or in the first two minutes of their hour or UTC day |
| `Scheduler.OncePerPeriod` | apps/scheduler/src/scheduler.ts:57-76 | with ticks at most two minutes apart, every hour and UTC day that starts between the first and last tick has exactly one job |
| `JobNames.JobTextInjective` | apps/scheduler/src/scheduler.ts:80-93 | the queue identifier, with colons replaced by dashes, identifies the kind of job and its period |
| `JobNames.TickPrintable` | apps/scheduler/src/scheduler.ts:44-76 | every name a tick gives in the years 0 to 9999 has such a text |
| `JobNames.AddByText` | apps/scheduler/src/scheduler.ts:88-92 | so adding by that text is adding by name |
| `JobNames.RunByText` | apps/scheduler/src/scheduler.ts:44-93 | after any ticks the queue of texts is the queue of names, printed |
| `JobNames.OncePerPeriodByText` | apps/scheduler/src/scheduler.ts:57-93 | so in the queue of texts, too, every hour and UTC day has its job exactly once |
| `Acknowledgement.CurrentByApplication` | apps/api/src/metrics/runtime-configuration-acknowledgement.ts:37-43 | the loop keeps for every application the first row with the greatest version |
| `Acknowledgement.ConnectorStates` | apps/api/src/metrics/runtime-configuration-acknowledgement.ts:45-74 | the loop keeps, for exactly the connectors of published applications, the newest state and the greatest applied version |
| `Acknowledgement.KeyTextInjective` | apps/api/src/metrics/runtime-configuration-acknowledgement.ts:57-57 | the NUL-joined text key identifies application and connector when application identifiers contain no NUL |
| `Acknowledgement.TextFoldExact` | apps/api/src/metrics/runtime-configuration-acknowledgement.ts:45-74 | so the map the loop keeps by that text holds the same progress as the map by connector |
| `Acknowledgement.NoLagExactly` | apps/api/src/metrics/runtime-configuration-acknowledgement.ts:86-100 | the lag is zero if and only if the newest acknowledgement says applied and an applied version is at least every published one |
| `Acknowledgement.LagExactly` | apps/api/src/metrics/runtime-configuration-acknowledgement.ts:86-100 | the lag is within n if and only if every published version is reached by an applied one, or by none, up to n versions, and for zero the newest acknowledgement says applied |

## Left out

- `Intl` and the IANA zone data: a zone is an offset function with whole-second changes; years 0 and before in `Intl` era form, and the mapping of years 0 to 99 by `Date.UTC`, are not modelled.
- Strings are sequences of Unicode scalar values; lone surrogates are not modelled.
- SHA-256, HMAC and scrypt; hashing is an injective function given by the caller.
- Rounding in decimal.js subtraction of costs: costs are exact reals.
- `Date.parse` in reconciliation: a parser given by the caller.
- Properties inherited from `Object.prototype`, which a reference such as `#/$defs/constructor` would find.
- PostgreSQL isolation: transactions are atomic; the conflict of a user upsert and any other error are steps that roll a writer back.
- The quota table's check that a period ends after it starts: a window given by the caller that violates it would abort the transaction.
- Parsing of `starts_at` and `ends_at`: a rule carries each as a text and an instant.
- Several applications in one quota store, audit records, and release times of reservations.
- Reservation and settlement services: environment steps that keep the books balanced and change balances only.
- `Ingestion.RetryIsIdempotent`: does not model property validation itself, only that it may admit other events at a retry.
- Model and connection lookup during ingestion, and the other registry columns.
- Header and clock checks of heartbeats, and the audit of configuration changes.
- `SerialPoller.Poller.constructor`: does not model the refusal of intervals under ten milliseconds.
- `JobNames.JobTextInjective`: does not model years outside 0 to 9999, which ISO text writes with a sign and six digits.
- `UsageExport.GenerateExport`: does not model file errors, column formatting and the spreadsheet prefix of `csvCell`; the line of a row, and whether its counts are exact, are given.
- `Aiu.DisplayRoundTrip`: does not model the text form of the argument; amounts are integers.
- NestJS wiring, web user interface, authentication, rate limiting, redaction, metrics and health probes: no property beyond reading one body.
