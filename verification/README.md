# What an agent may change, and what every run of it keeps

This project models the part of the repository that decides whether an agent may change
something, and proves what every run keeps. Each module follows one component:

- `Workflow`, `WorkflowSafety`, `WorkflowRuns`, `WorkflowProgress`: the durable run. The sequential body waits at named points; answers,
  failures, signals and the decision timer may arrive at any of them. The class `AgentRun` holds the
  workflow's variables, its methods are proved against the transition function `Next`, and the results
  (what led to a dispatch, what each result rests on, that runs end) quantify over every sequence of
  events.
- `AgentSpec`, `Validator`, `ValidatorRules`, `AgentInputs`, `RunEngine`, `LocalRuntime`, `RunEffects`,
  `RunAgreement`, `ValidatedRuns`: the specification, its static validation, and the local runtime. Adapters are
  functions over an abstract world that each call may change; a ghost log records every call that
  reached one. The diff hash is an arbitrary function.
- `TraceCompiler`, `CompiledTraces`, `CompiledMeaning`, `CompiledRuns`: observed traces compiled into specifications, and
  the durable runs of what was compiled.
- `BrowserPlan`, `BrowserLayout`, `BrowserExecute`, `BrowserAnswers`, `BrowserOutcome`, `BrowserRevert`,
  `BrowserRoundTrip`, `BrowserReverting`, `BrowserLimits`: browser plans, their execution against a page, and the revert. A
  page maps controls to text fields, picklists and checkboxes, as the in-page script sees them.
- `AuditJson`, `AuditChain`: the canonical JSON text and the hash chain over it.
- `Calendar`, `HostProtocol`: the native host's timestamps, freshness window and replay cache.
- `Reconciliation`, `ReconciledRecords`: match, propose, apply and verify on an account world.
- `TemplateMatch`, `TemplateCells`, `Scheduler`, `Timing`, `Dismissal`: the domain-pack matcher, close calendar,
  timing rules and dismissal ladder.
- `ContextTriggers`, `CronInterval`: trigger cooldowns and the cron estimate.
- `DeviceSessions`: device-session rows under concurrent enroll and rotate requests.
- `Text`: decimal numerals, string order, splitting and trimming, used by the others.

Imperative code is a method or a class proved against a specification function; the properties are
lemmas about those functions. Where a promised property does not hold of the code, the code is kept
and the exact condition under which it holds is proved. These are:

- A log written only by appends verifies exactly when every event was in normal form (canonical uuid
  text, millisecond timestamp) and was appended in increasing (occurred_at, id) order; an emptied log
  verifies as well.
- An edit of a row goes unseen exactly when the verifier reads the same event from it: metadata may
  gain a property named `__proto__`, an object of positions may become the list of them, and an instant
  may move where it prints alike. A row of a verified log holds its event's metadata exactly when it
  stores an object with the event's own `__proto__`, which is none where the event has none.
- A leap second is counted as the second after it: a later timestamp has the greater millisecond value
  exactly unless it is in the second right after a leap second with a fraction that is not greater.
- A required input that was not supplied reads as answered exactly when its name is one that every
  object inherits, such as `constructor`.
- A compiled plan has only backward references exactly when the trace lists every producer before its
  reader; readiness compares order fields, while the plan is numbered by position.
- A validated specification may let a read refer to a write's output, which the first pass does not
  have yet.
- A cancel does not stop the write whose decision was already taken: after it one more write may be
  dispatched exactly when it arrived during the policy recheck or while the status was recorded, and
  then only that write.
- The durable workflow hands a compiled write the proposal the local runtime pairs with it exactly
  when the paired step answered with a hash; after an answer without one it hands it an older one.
- A rotation in the very millisecond of an earlier session of the family produces the same token, so
  the insert is refused after the revoke and the family is lost.
- Reverting restores the page exactly when every reported change, last first, returns its control to
  what it held, up to the first whose undo obstructs the revert, those before that one altered
  nothing, and neither did a write whose answer was lost. A text field returns exactly up to 512
  characters, a picklist exactly when its shown text finds the selected option first; a checkbox
  ignores what is written and obstructs the revert.
- Verification of a reconciliation succeeds exactly when no two changes give one column different
  values.
- The quiet-period test compares strings: it is the calendar test exactly for years before 0, years
  of four digits, and longer years whose numeral begins with 9999. The release date is exact from the
  year 100 up to the last four-digit day, the close date except where February of the year 0 is read.
- Days between two days are the real ones exactly when neither lies in the years 0 to 99, which are
  read as 1900 to 1999, or both do, on the same side of the end of February of the year 0.
- A ready trace is never refused for having nothing executable: that branch of the compiler cannot be
  reached.
- A step schedule that does not divide the hour fires more often than the validator estimates.

## Model

| member | source | states |
|---|---|---|
| Calendar.NextIsOneMore | native/browser-host/src/protocol.rs:131-138 | the day after a valid date has the next day number, across month ends, leap years, centuries and 400-year cycles |
| Calendar.OrderAgrees | native/browser-host/src/protocol.rs:131-138 | day numbers order valid dates exactly as the calendar does, and determine them |
| Calendar.CountsRealDays | native/browser-host/src/protocol.rs:131-138 | the epoch is day 0 and a difference of day numbers is the number of calendar days between two dates |
| HostProtocol.RenderParses | native/browser-host/src/protocol.rs:109-140 | every timestamp of the RFC 3339 section 5.6 form, with a fraction of any number of digits or none, parses to its real milliseconds when written with a capital T and a capital Z; lower-case letters and numeric offsets are refused |
| HostProtocol.ParseI64Exactly | native/browser-host/src/protocol.rs:109-128 | a field is read as a number exactly if it is digits, perhaps behind a sign, that fit in 64 bits |
| HostProtocol.RefusedEarlyExactly | native/browser-host/src/protocol.rs:150-170 | a message reaches its nonce exactly if it is read, has an id, is signed with 64 hexadecimal digits and is stamped within a minute of the clock; else the first of these is told |
| HostProtocol.MillisecondsIncrease | native/browser-host/src/protocol.rs:109-140 | of any two timestamps the later has the greater millisecond value exactly unless it is in the second right after a leap second with no greater fraction; the values are equal exactly there with equal fractions |
| HostProtocol.OrderedBetweenLeaps | native/browser-host/src/protocol.rs:109-140 | between timestamps that are not leap seconds the value orders them both ways |
| HostProtocol.NonceCache.CheckAndInsert | native/browser-host/src/protocol.rs:86-106 | set and queue stay in agreement and bounded; a known nonce is refused, a new one is queued and the oldest leaves when full |
| HostProtocol.ValidateEnvelope | native/browser-host/src/protocol.rs:150-170 | the checks in their order; an envelope refused before the nonce check consumes no slot |
| HostProtocol.CacheIsRecentHistory | native/browser-host/src/protocol.rs:86-106 | after any calls the cache is exactly the last 4096 accepted nonces, without duplicates |
| HostProtocol.ReplayNeedsFullCache | native/browser-host/src/protocol.rs:86-106 | a nonce is accepted twice only with at least 4096 other acceptances in between |
| HostProtocol.RefusedExactlyOnRecentNonce | native/browser-host/src/protocol.rs:150-170 | an envelope passing the early checks is refused exactly when its nonce is among the last 4096 accepted, and refusal changes nothing |
| TemplateMatch.MatchSignature | packages/domain-packs/src/template.ts:103-136 | returns true exactly when the leftmost greedy placement with at most five steps between matches exists |
| TemplateMatch.Scan | packages/domain-packs/src/template.ts:103-136 | the loop over steps decides the greedy alignment of the hit table |
| TemplateMatch.AcceptsExactlyEarliestWithinGaps | packages/domain-packs/src/template.ts:103-136 | given any ordered embedding, the matcher accepts exactly when the earliest embedding keeps the gap bound |
| TemplateMatch.MatchIsEarliestEmbedding | packages/domain-packs/src/template.ts:103-136 | a match yields an ordered gap-bounded embedding, and it is the earliest one |
| TemplateMatch.MatchSurvivesExtension | packages/domain-packs/src/template.ts:103-136 | steps added after a match never undo it |
| TemplateMatch.GreedyRefusesTightTail | packages/domain-packs/src/template.ts:103-136 | a, six others, a, b is refused although a tight embedding of a, b exists |
| TemplateCells.StepExactly | packages/domain-packs/src/template.ts:85-122 | a step satisfies a signature tuple exactly when its action is listed or plausible, its object is listed under any of its names, and its role is listed |
| TemplateCells.PlausibleExactly | packages/domain-packs/src/template.ts:85-100 | an action is plausible exactly when it is the first of its id, declared for the object, and of a risk that fits the kind of event |
| TemplateCells.AlternativesExactly | packages/domain-packs/src/validate.ts:34-40 | a cell lists exactly its trimmed pieces between bars that are not blank |
| TemplateCells.CanonicalExactly | packages/domain-packs/src/template.ts:68-75 | a name stands for the last object declared under it, or for itself |
| Scheduler.NextCloseIsEarliest | packages/domain-packs/src/proactivity.ts:80-91 | the earliest clamped close date on or after the given date, exactly except where February of the year 0 is read |
| Scheduler.DaysInMonthIs | packages/domain-packs/src/proactivity.ts:53-56 | the month length used is the calendar's, for the year as JavaScript reads it |
| Scheduler.ActiveQuietPeriod | packages/domain-packs/src/proactivity.ts:131-139 | the first well-formed period covering the date, or none when none covers it |
| Scheduler.QuietTestExactly | packages/domain-packs/src/proactivity.ts:131-139 | comparing ISO strings agrees with calendar order, for every period, exactly for years before 0, four-digit years and longer ones beginning 9999 |
| Scheduler.QuietTestIsCalendarTest | packages/domain-packs/src/proactivity.ts:131-139 | the four-digit case: the string test and the calendar test agree on every period |
| Scheduler.ShortYearsMissTheirPeriod | packages/domain-packs/src/proactivity.ts:62-64 | every day of a year below 1000 lies outside the period that covers its whole year |
| Scheduler.FarYearsHitOldPeriods | packages/domain-packs/src/proactivity.ts:62-64 | a longer year whose numeral begins with a number below 9999 falls inside a period of that old year |
| Scheduler.ReleaseIsDayAfter | packages/domain-packs/src/proactivity.ts:151-155 | the release date is the first day after the period exactly for ends from the year 100 on other than 9999-12-31 |
| Timing.RealDaysExactly | packages/domain-packs/src/proactivity.ts:69-73 | the days computed between any two days are the real ones exactly when both years are read alike |
| Timing.FiscalDueExactly | packages/domain-packs/src/proactivity.ts:518-542 | a fiscal workflow is due exactly when the days computed to the close date used are within the lead; where years are read alike these are the days with a close date within the lead, and the days shown are real |
| Timing.FiscalFromYear100 | packages/domain-packs/src/proactivity.ts:518-542 | which is so from the year 100 on |
| Timing.WatchedDateDueExactly | packages/domain-packs/src/proactivity.ts:544-566 | a watched date is due from lead days before it on, as days are computed, and never stops being due once past unless only it is read as a later year |
| Timing.SameWeekday | packages/domain-packs/src/proactivity.ts:568-576 | two days share the weekday test exactly when the days computed between them are whole weeks, for every valid day |
| Timing.WeekdayCounts | packages/domain-packs/src/proactivity.ts:568-576 | weekdays count from Sunday and the epoch was a Thursday |
| Timing.WeeklyExactly | packages/domain-packs/src/proactivity.ts:571-588 | a weekly workflow is due exactly if timed so and, where required, today is the weekday observed; with the reason otherwise |
| Timing.ContinuousExactly | packages/domain-packs/src/proactivity.ts:590-605 | a continuous workflow is due exactly if timed so and its runs were verified |
| Timing.WatchedDateIs | packages/domain-packs/src/proactivity.ts:544-566 | what a watched date leads to, by the lead of the first watch over the object or the workflow's own |
| Timing.FiscalIs | packages/domain-packs/src/proactivity.ts:528-542 | what a fiscal workflow shows, by the pack's lead before the workflow's own |
| Dismissal.VerdictIs | packages/domain-packs/src/proactivity.ts:205-257 | the verdict over the sorted history equals an order-free reading: never, or the back-off from the latest counted refusal |
| Dismissal.NeverIsForever | packages/domain-packs/src/proactivity.ts:205-257 | a relevant never-suggest suppresses under every extension of the history |
| Dismissal.AcceptanceLiftsBackOffOnly | packages/domain-packs/src/proactivity.ts:205-257 | an acceptance that no refusal is later than, wherever it stands and even at the time of the last refusal, lifts back-off and nothing else |
| Dismissal.AnotherNotNowExtends | packages/domain-packs/src/proactivity.ts:205-257 | under a non-decreasing ladder another latest refusal never brings the end forward |
| Dismissal.NeverShortensExactlyWhenLadderClimbs | packages/domain-packs/src/proactivity.ts:205-257 | never shortening holds for all histories exactly when the ladder does not descend, or when no decision can be about the suggestion |
| Dismissal.ReleasedStaysReleased | packages/domain-packs/src/proactivity.ts:205-257 | once its end is reached, suppression stays off for the same history |
| Dismissal.OthersIgnored | packages/domain-packs/src/proactivity.ts:218-223 | a decision about another workflow, or in pattern scope another pattern, changes no verdict wherever it stands |
| Dismissal.NeverExactly | packages/domain-packs/src/proactivity.ts:218-232 | held back for good exactly when someone said never about this workflow or pattern |
| Dismissal.LoneDecision | packages/domain-packs/src/proactivity.ts:225-256 | what one decision does: never, the first rung for a snooze or dismissal with a readable time, nothing for any other |
| AuditJson.CanonicalExactly | packages/contracts/src/audit.ts:37-53 | an event has the canonical text of any object exactly when both hold the same properties, in whatever insertion order; a metadata property named __proto__ does not count, and a list counts as the object of its positions |
| AuditChain.AuditLog.Append | packages/db/src/audit.ts:25-71 | a row and a head chained to the previous ones, or a rolled-back key violation; the log stays genuine |
| AuditChain.AuditLog.Verify | packages/db/src/audit.ts:91-176 | accepts exactly intact logs and otherwise reports the first bad row with its reason, or the head fault |
| AuditChain.TextsAgree | packages/db/src/audit.ts:116-130 | the text rebuilt from a row, whatever JSON it stores, is the appended one exactly when every column shows the event |
| AuditChain.TamperEvident | packages/db/src/audit.ts:91-176 | non-empty rows verifying up to the head of the appended events show exactly those events in order: no deletion, insertion or move, and no edit beyond what a row's text leaves open |
| AuditChain.IntactExactly | packages/db/src/audit.ts:91-176 | against the head the appended events left, the verifier accepts exactly the rows that show those events in order, and an emptied table |
| AuditChain.EditUnseenExactly | packages/db/src/audit.ts:116-153 | an edit of one row of an accepted table goes unseen exactly when the same event is read from the new row and its links are kept |
| AuditChain.AddedProtoUnseen | packages/contracts/src/audit.ts:43-48 | an accepted row may gain a metadata property named __proto__ of any value |
| AuditChain.ListUnseen | packages/contracts/src/audit.ts:43-48 | metadata that is an object of positions may become the list of them, as the empty object an empty list |
| AuditChain.MetadataExactly | packages/contracts/src/audit.ts:43-48 | in an accepted table a row holds its event's metadata exactly when it stores an object with the event's own __proto__ property |
| AuditChain.GenuineVerifiesExactly | packages/db/src/audit.ts:91-176 | an append-only log verifies exactly when all events were in normal form and appended in (occurred_at, id) order |
| AuditChain.AppendKeepsVerifying | packages/db/src/audit.ts:25-71 | one more append keeps the log verifying exactly when the event is in normal form and sorts after the last row |
| DeviceSessions.SessionTable.Create | packages/db/src/repositories.ts:748-773 | inserts a session unless its id or token hash is taken |
| DeviceSessions.SessionTable.RevokeByToken | packages/db/src/repositories.ts:776-793 | afterwards no row of the token hash is unrevoked and no other row changed; at most one row changed, it is returned as it was, and none is returned exactly when nothing changed |
| DeviceSessions.SessionTable.Active | packages/db/src/repositories.ts:796-812 | true exactly for a hash with an unrevoked, unexpired row |
| DeviceSessions.LiveExactly | packages/db/src/repositories.ts:796-812 | a token is good for thirty days from its issue unless its session was revoked |
| DeviceSessions.EnrollDevice | apps/api/src/server.ts:621-678 | enrolling is one insert step of the protocol |
| DeviceSessions.Rotate | apps/api/src/server.ts:682-725 | an uninterleaved rotation is the protocol's arrive, revoke and insert steps: it issues claims of the same holder and device in the same family, linked to the revoked row, and never conflicts |
| DeviceSessions.AtMostOneLiveSession | apps/api/src/server.ts:682-725 | under any interleaving a family has at most one unrevoked session, and none while a rotation of it is between revoke and insert |
| DeviceSessions.RotationChain | apps/api/src/server.ts:704-719 | the rotated-from links of a family form one unbranched chain over its rows in order |
| DeviceSessions.RotationSucceedsExactly | apps/api/src/server.ts:692-719 | the insert of a rotation succeeds exactly when no session of the family was issued in that millisecond; otherwise the family is dead |
| DeviceSessions.DeadFamilyStaysDead | apps/api/src/server.ts:682-725 | a family without live session or pending rotation never gets one back |
| Reconciliation.MatchAccounts | packages/agent-runtime/src/adapters.ts:177-194 | the loop classifies every row as matched, ambiguous or missing |
| Reconciliation.MatchedExactly | packages/agent-runtime/src/adapters.ts:177-194 | a row is matched exactly to the only account of its domain when that bears its company's name |
| Reconciliation.RowsPartitioned | packages/agent-runtime/src/adapters.ts:160-172 | every row is counted in exactly one class |
| Reconciliation.ProposeFieldUpdates | packages/agent-runtime/src/adapters.ts:146-174 | the nested loops build the diff and its summary counts; in the record columns see ReconciledRecords.ChangesListed |
| Reconciliation.ChangesAre | packages/agent-runtime/src/adapters.ts:146-174 | the diff holds exactly the differing compared fields of the matched pairs; in the record columns see ReconciledRecords.ChangesListed |
| Reconciliation.DemoSalesforceWorld.Guard | packages/agent-runtime/src/adapters.ts:108-123 | the request is recorded and the configured fault decides the failure |
| Reconciliation.DemoSalesforceWorld.UpdateFields | packages/agent-runtime/src/adapters.ts:319-345 | a new key applies the changes once and is recorded; a known key returns its receipt; a fault changes no account |
| Reconciliation.DemoSalesforceWorld.VerifyUpdate | packages/agent-runtime/src/adapters.ts:346-362 | an independent read of every change, changing nothing |
| Reconciliation.UntouchedAccounts | packages/agent-runtime/src/adapters.ts:326-341 | accounts outside the diff are untouched, and ids, names and domains never change |
| Reconciliation.VerifiesExactly | packages/agent-runtime/src/adapters.ts:317-364 | verification after a write succeeds exactly when every change lands and no two clash |
| Reconciliation.AppliedAtMostOnce | packages/agent-runtime/src/adapters.ts:319-345 | any number of retries under one key apply the changes once if any got past the guard, else not at all |
| Reconciliation.SecondPassIsEmptyExactly | packages/agent-runtime/src/adapters.ts:146-194 | a second pass proposes nothing exactly when rows matched to one account agree |
| Reconciliation.PassVerifiesExactly | packages/agent-runtime/src/adapters.ts:317-364 | a pass verifies exactly when its changes do not clash |
| Reconciliation.Converges | packages/agent-runtime/src/adapters.ts:146-194 | with unique ids and distinct domains one pass verifies and leaves nothing to propose |
| ReconciledRecords.ChangesListed | packages/agent-runtime/src/adapters.ts:146-174 | the proposed changes are the differing columns of the matched pairs, each once, in the order of pairs and of owner, employee_count, website, segment, from the account's value to the row's |
| ReconciledRecords.AppliedColumns | packages/agent-runtime/src/adapters.ts:326-341 | after applying changes each column holds what its last change says, counts as the numeral they read as, or what it held |
| ReconciledRecords.PassExactly | packages/agent-runtime/src/adapters.ts:146-194 | with unique ids and distinct domains one pass leaves the account of every matched row with the row's owner, employee count, website and segment, and every other account as it was |
| ReconciledRecords.ListedInOrder | packages/agent-runtime/src/adapters.ts:177-194 | matched, ambiguous and missing rows are each listed in row order |
| ReconciledRecords.QueryExactly | packages/agent-runtime/src/adapters.ts:299-307 | the queried accounts are exactly those in some row's domain |
| ReconciledRecords.FaultsPass | packages/agent-runtime/src/adapters.ts:108-123 | exactly as many calls fail, and can be retried, as transient failures were due; permanent and rate-limit faults stay |
| AgentSpec.SortedCountsUpExactly | packages/agent-runtime/src/validator.ts:39-46 | the sort-and-compare test finds exactly the numberings 1 to n without gaps or repeats |
| Validator.ValidateAgentSpec | packages/agent-runtime/src/validator.ts:20-177 | all issues in the order the validator raises them |
| Validator.AcceptsExactly | packages/agent-runtime/src/validator.ts:34-177 | no issue exactly for specifications that meet the declarative rules on order, ids, references, literals, capabilities, risk, budgets and schedule |
| ValidatorRules.ReportedExactly | packages/agent-runtime/src/validator.ts:34-177 | each rule is reported, of a step or of the whole, exactly if that step or the whole breaks it |
| Validator.IdsDistinctExactly | packages/agent-runtime/src/validator.ts:47-50 | the set-size test finds exactly the lists without repeated ids |
| Validator.ProducerIs | packages/agent-runtime/src/validator.ts:54-66 | an output's producer is the last step listed with its key |
| CronInterval.MinCronIntervalMinutes | packages/agent-runtime/src/validator.ts:183-202 | the estimate for a five-field expression, or none |
| CronInterval.EstimateExactly | packages/agent-runtime/src/validator.ts:183-202 | of five words between any white space the first decides: every minute, every n, hourly for a fixed minute, none for other forms; of any other number of words there is no estimate |
| CronInterval.FieldsOfWords | packages/agent-runtime/src/validator.ts:184-186 | the fields are the words, whatever white space stands between and around them |
| CronInterval.StepEstimateExactly | packages/agent-runtime/src/validator.ts:183-202 | a step that divides the hour is estimated exactly; any other up to sixty also fires as close as the remainder; a longer one fires once an hour |
| CronInterval.AcceptedStepTooClose | packages/agent-runtime/src/validator.ts:160-169 | an accepted step schedule fires within fifteen minutes exactly when the hour leaves a shorter remainder |
| CronInterval.ListEstimateSafe | packages/agent-runtime/src/validator.ts:192-200 | the estimate for a list of minutes never exceeds the real distance between firings |
| AgentInputs.ValidateAgentInputs | packages/agent-runtime/src/agent-inputs.ts:50-75 | the missing inputs in declaration order with their reasons |
| AgentInputs.ReadyExactly | packages/agent-runtime/src/agent-inputs.ts:50-75 | ready exactly when every required input reads as something other than undefined, null, blank text or an empty list |
| AgentInputs.ReadyUnsuppliedExactly | packages/agent-runtime/src/agent-inputs.ts:50-75 | a required input reads as answered exactly when supplied with an answer, or not supplied under a name every object inherits |
| ValidatorRules.MissingListed | packages/agent-runtime/src/agent-inputs.ts:50-75 | every unanswered input is told in declaration order by key and prompt, as not supplied or as empty; no other is |
| RunEngine.ResolveStepInputs | packages/agent-runtime/src/run-engine.ts:32-61 | the loop resolves all bindings or throws at the first unsupplied required input |
| RunEngine.ResolvedInputs | packages/agent-runtime/src/run-engine.ts:38-60 | the record holds each declared name, and under it the literal, the referenced output or the agent input |
| RunEngine.NeverThrows | packages/agent-runtime/src/run-engine.ts:42-58 | with required inputs supplied, resolution never throws |
| RunEngine.AttemptsPositive | packages/agent-runtime/src/run-engine.ts:78-90 | at least one and at most the allowed attempts, and only transient errors lead to another |
| RunEngine.Run.Attempt | packages/agent-runtime/src/run-engine.ts:78-90 | the retry loop over a changing world |
| RunEngine.Run.ExecuteStep | packages/agent-runtime/src/run-engine.ts:63-142 | one step over the mutable run state, dispatched by mode; what it hands over and returns is RunEffects.WrittenExactly, ReadIsLastAnswer and ProposalIsLastAnswer |
| RunEngine.NonWriteCalls | packages/agent-runtime/src/run-engine.ts:92-106 | a read or proposal calls only its own implementation, and on success leaves its output |
| RunEngine.WriteCalls | packages/agent-runtime/src/run-engine.ts:108-141 | the calls logged by a write step: at most one write, only outside shadow, with the given diff and only if it hashes to the given hash, then at most one verification; what the adapter receives is RunEffects.WrittenExactly |
| RunEngine.KeysDiffer | packages/contracts/src/run.ts:96-104 | within a run, equal idempotency keys mean equal step id and diff hash |
| RunEffects.AttemptsAre | packages/agent-runtime/src/run-engine.ts:78-90 | repeating a call gives its last answer and the world that answer left; only a transient error that was not the last allowed answer is followed by another |
| RunEffects.ReadIsLastAnswer | packages/agent-runtime/src/run-engine.ts:92-97 | a read step returns, stores and leaves what its adapter last answered on the resolved inputs |
| RunEffects.ProposalIsLastAnswer | packages/agent-runtime/src/run-engine.ts:99-106 | a proposal is what its adapter last answered on the resolved inputs |
| RunEffects.WrittenExactly | packages/agent-runtime/src/run-engine.ts:108-141 | a write is reported exactly when the run is not a shadow run, the hash given is that of the diff given, and the adapter, handed the resolved inputs, that diff and the key, answered and was read back; output, verdict and world are those of that answer and read-back |
| RunEffects.KeysName | packages/contracts/src/run.ts:96-104 | across runs, equal keys mean equal run, agent version, step, capability version and hash |
| RunEffects.SliceExactly | packages/agent-runtime/src/local-runtime.ts:435-444 | the diff a write executes is the proposal its literal pairs_with names, or the whole merged diff when it names none; there is none exactly when the named one was not produced |
| RunEffects.ApprovedRunHands | packages/agent-runtime/src/local-runtime.ts:391-468 | in a world that remembers what writes are handed, an approved run leaves what its writes are bound to, in plan order under their own keys: all of them if it completes, a prefix if it fails, none unless the fresh plan hashed to the approval |
| RunEffects.ProposalsAreLatest | packages/agent-runtime/src/local-runtime.ts:404-408 | the proposals kept are those of the proposing steps, the latest under each key |
| RunEffects.CompletedExactly | packages/agent-runtime/src/local-runtime.ts:365-484 | an approved run completes exactly when its inputs are ready, every read and proposal went through, the merged diff hashed to the approval, there is a write, and every write was made and read back; what a stale or unready run reports |
| RunEffects.ReportIs | packages/agent-runtime/src/local-runtime.ts:457-468 | a finished run is verified exactly when every write was confirmed, and tells what the read-backs said in order |
| RunEffects.StepsCounted | packages/agent-runtime/src/local-runtime.ts:328-333 | a pass that succeeds counts every step that is not a write |
| RunEffects.RecordsCounted | packages/agent-runtime/src/local-runtime.ts:328-333 | the records read are those of the lists the reads answered |
| RunEffects.GapsListed | packages/agent-runtime/src/runtime-capabilities.ts:85-131 | the gaps are the first thing in the way of each step that cannot be executed, in order |
| LocalRuntime.LocalAgentRuntime.RegisterAgent | packages/agent-runtime/src/local-runtime.ts:166-201 | registers exactly the valid specifications whose every step this runtime implements |
| LocalRuntime.RuntimeGaps | packages/agent-runtime/src/runtime-capabilities.ts:85-131 | the gaps of a specification against a registry and its unmet prerequisites, step by step |
| LocalRuntime.NoGapsExactly | packages/agent-runtime/src/runtime-capabilities.ts:85-131 | no gap exactly when the runtime can execute every step |
| LocalRuntime.RegisteredStepsReachAdapters | packages/agent-runtime/src/local-runtime.ts:166-201 | a registered agent's first-pass step with ready inputs always reaches its adapter |
| LocalRuntime.LocalAgentRuntime.RunShadow | packages/agent-runtime/src/local-runtime.ts:296-348 | the shadow run over the mutable run, and the agent record it stamps |
| LocalRuntime.LocalAgentRuntime.RunApproved | packages/agent-runtime/src/local-runtime.ts:365-484 | the two-pass run over the mutable run, and the agent record it stamps; when it completes is RunEffects.CompletedExactly |
| LocalRuntime.LocalAgentRuntime.ApplyWrites | packages/agent-runtime/src/local-runtime.ts:430-471 | the second loop, each write bound to its slice; which slice is RunEffects.SliceExactly |
| LocalRuntime.ApprovedRunDiscipline | packages/agent-runtime/src/local-runtime.ts:365-484 | no write before every other step ran and the merged proposals hashed to the approval; writes are a prefix of the planned ones; a completed run made all of them and is verified exactly when each was confirmed |
| LocalRuntime.ShadowNeverWrites | packages/agent-runtime/src/local-runtime.ts:296-348 | a shadow run makes no write call and, when complete, called every other step |
| RunAgreement.MergedIsWhole | packages/agent-runtime/src/local-runtime.ts:491-504 | the merged diff holds the changes of every proposal in plan order, their counts added up and the largest number of accounts affected |
| RunAgreement.ShadowAgreesWithApproval | packages/agent-runtime/src/local-runtime.ts:391-421 | what a shadow run showed is never stale for an approved run started in the same world |
| RunAgreement.ApprovalMayFollow | packages/agent-runtime/src/local-runtime.ts:296-421 | with reads and proposals that only look, the approved run may follow the shadow run |
| ValidatedRuns.ReadyNeverThrows | packages/agent-runtime/src/run-engine.ts:32-61 | with ready inputs no step's resolution throws |
| ValidatedRuns.SecondPassReferencesProduced | packages/agent-runtime/src/local-runtime.ts:430-468 | every output a second-pass write reads has been produced |
| ValidatedRuns.FirstPassReferencesProduced | packages/agent-runtime/src/local-runtime.ts:393-408 | an output a first-pass step reads has been produced exactly when an earlier step other than a write leaves it |
| ValidatedRuns.ReadAfterWriteFindsNothing | packages/agent-runtime/src/local-runtime.ts:393-408 | an accepted plan over two catalog capabilities whose read refers to a write's output, and finds nothing |
| TraceCompiler.TraceReadiness | packages/contracts/src/action-trace.ts:350-372 | the dataflow problems of a trace in order |
| CompiledTraces.ReadyExactly | packages/contracts/src/action-trace.ts:350-372 | ready exactly when orders are distinct and every value read comes from an existing step of smaller order |
| TraceCompiler.CompileTraceToAgentSpec | packages/agent-runtime/src/trace-compiler.ts:134-410 | the compiled specification or the typed refusals; when it compiles and what it binds are CompiledMeaning.CompilesExactly and BindingsExactly |
| TraceCompiler.Translate | packages/agent-runtime/src/trace-compiler.ts:184-323 | the loop's steps, declared inputs and refusals |
| CompiledTraces.InOrderImage | packages/agent-runtime/src/trace-compiler.ts:184-323 | a successful compile is the in-order image of the trace: one read, or an adjacent proposal and write, per action, by the action's capabilities and risk, nothing dropped; what its inputs bind is CompiledMeaning.BindingsExactly |
| CompiledTraces.NumberedInOrder | packages/agent-runtime/src/trace-compiler.ts:278-305 | orders count up from one in list order, so the plan order is the list order |
| CompiledTraces.StepIdsUnique | packages/agent-runtime/src/trace-compiler.ts:123-125 | step ids are unique |
| CompiledTraces.NamesDistinct | packages/agent-runtime/src/trace-compiler.ts:278-317 | no two positions share a step id or an output key |
| CompiledTraces.BackwardExactly | packages/agent-runtime/src/validator.ts:52-83 | references name declared inputs and earlier outputs exactly when every producer is listed before its reader |
| CompiledTraces.IncreasingOrderSuffices | packages/agent-runtime/src/validator.ts:52-83 | a trace listed in increasing order meets that condition |
| CompiledTraces.ListedAgainstTheOrder | packages/contracts/src/action-trace.ts:360-368 | a ready trace that compiles to a forward reference |
| CompiledTraces.WritePairsWithLatest | packages/agent-runtime/src/trace-compiler.ts:302-322 | each write's named proposal is the latest one before it and the only producer of that key |
| CompiledTraces.SliceIsLatestProposal | packages/agent-runtime/src/local-runtime.ts:430-438 | in the local runtime the slice of every compiled write is what the latest proposing step before it proposed |
| CompiledMeaning.BindingsExactly | packages/agent-runtime/src/trace-compiler.ts:226-317 | the step of every action and its write bind value, value_field, target, expect_current, pairs_with and proposal to what the action's own binding, target and order say, and no other name; ids and keys are spelled from the trace id and order |
| CompiledMeaning.RefusalExactly | packages/agent-runtime/src/trace-compiler.ts:184-221 | an action is refused exactly when it is unknown, unavailable, not addressable or of another role, for the first of these |
| CompiledMeaning.CompilesExactly | packages/agent-runtime/src/trace-compiler.ts:134-344 | a trace compiles exactly when it is ready, some action names its site, none happened off the page, and every action is known, available, addressable and of an allowed role |
| CompiledMeaning.RefusedFor | packages/agent-runtime/src/trace-compiler.ts:139-344 | a ready trace that does not compile is refused for its first action off the page, or for its missing site and then its refused actions; never for having nothing executable alone |
| CompiledMeaning.RefusalsAre | packages/agent-runtime/src/trace-compiler.ts:184-221 | the refusals are the first thing wrong with each action that cannot be compiled, in order |
| CompiledMeaning.ProblemsListed | packages/contracts/src/action-trace.ts:350-372 | the problems are a repeated order and then every misread value, each as read too early or as missing |
| CompiledMeaning.FrameExactly | packages/agent-runtime/src/trace-compiler.ts:226-388 | every runtime input is declared once, required, with its first prompt, in order of first use; the trigger is the first site with a five-minute cooldown; the budget counts the writes |
| CompiledRuns.SameProposalSelected | packages/agent-runtime/src/workflow.ts:298-382 | in every run of a compiled plan a dispatched write is handed the answer of the step its pairs_with names exactly when that answer carried a hash, and otherwise an older proposal |
| CompiledRuns.SameDiffExactly | packages/agent-runtime/src/local-runtime.ts:430-454 | the diff the workflow hands a write is the local runtime's slice exactly when the paired step answered with what it proposes there |
| CompiledRuns.OlderProposalDispatched | packages/agent-runtime/src/workflow.ts:298-333 | after an answer without a hash the write goes out with the older hash and diff once approved, or the run fails if there is none |
| Workflow.AgentRun.OnApprove | packages/agent-runtime/src/workflow.ts:182-191 | an approval counts only for the pending step and hash |
| Workflow.AgentRun.OnReject | packages/agent-runtime/src/workflow.ts:192-194 | a rejection counts only for the pending step |
| Workflow.AgentRun.OnCancel | packages/agent-runtime/src/workflow.ts:195-197 | a cancel is always recorded |
| Workflow.AgentRun.RunTo | packages/agent-runtime/src/workflow.ts:255-343 | the loop head up to the next await |
| Workflow.AgentRun.OnAcknowledged | packages/agent-runtime/src/workflow.ts:205-412 | what follows each bookkeeping await; over runs see WorkflowRuns.EverythingBefore |
| Workflow.AgentRun.OnPolicy | packages/agent-runtime/src/workflow.ts:226-246 | the policy gates before the run and before a write; over runs see WorkflowRuns.PolicyFirst and WorkflowRuns.DenialBlocks |
| Workflow.AgentRun.OnResult | packages/agent-runtime/src/workflow.ts:282-304 | what a step's answer does to the carried proposal and tallies |
| Workflow.AgentRun.OnThrow | packages/agent-runtime/src/workflow.ts:271-281 | failing activities end the run, caught or not |
| Workflow.AgentRun.OnDecision | packages/agent-runtime/src/workflow.ts:352-362 | what the resolved or timed-out condition leads to |
| WorkflowSafety.ApprovedBeforeDispatch | packages/agent-runtime/src/workflow.ts:298-386 | in every interleaving a write needing approval is dispatched only after its approval while pending, no cancel or rejection by the decision and a non-deny recheck, with the hash and diff of the single latest proposal |
| WorkflowSafety.ShadowNeverDispatches | packages/agent-runtime/src/workflow.ts:317-329 | a shadow run never dispatches a write |
| WorkflowSafety.DispatchedOnce | packages/agent-runtime/src/workflow.ts:371-382 | no write step is dispatched twice |
| WorkflowSafety.Forward | packages/agent-runtime/src/workflow.ts:255-408 | the body only moves forward through the plan and the awaits of each step |
| WorkflowSafety.AlwaysPlaced | packages/agent-runtime/src/workflow.ts:336-343 | while a step waits for approval exactly its id and the carried hash are pending, and nothing is pending elsewhere in a live run |
| WorkflowSafety.CancelledExactly | packages/agent-runtime/src/workflow.ts:195-197 | the run is cancelled exactly when a cancel has arrived |
| WorkflowSafety.ResultIsHonest | packages/agent-runtime/src/workflow.ts:395-411 | the result counts exactly the proposed changes and the ended writes, and claims no warnings exactly if none was unverified |
| WorkflowSafety.LateCancelStillWrites | packages/agent-runtime/src/workflow.ts:364-382 | a cancel during the policy recheck or the recording after it does not stop that write |
| WorkflowSafety.CancelReachesExactly | packages/agent-runtime/src/workflow.ts:255-386 | for every run and moment of a cancel, some continuation dispatches a further write exactly when the cancel arrived in the policy recheck or the recording after it |
| WorkflowSafety.CancelLeavesOneWrite | packages/agent-runtime/src/workflow.ts:255-386 | any write dispatched after a cancel is the one whose decision was already taken |
| WorkflowRuns.PolicyFirst | packages/agent-runtime/src/workflow.ts:226-246 | no position of the plan is begun and no completion is claimed unless the first policy decision, the only one of that check, did not deny and every required input was there |
| WorkflowRuns.DenialBlocks | packages/agent-runtime/src/workflow.ts:226-232 | a denial of the run or of a write ends it as policy-blocked and as nothing else |
| WorkflowRuns.AskedBeforeDecided | packages/agent-runtime/src/workflow.ts:333-362 | the body waits for a decision only after the run was recorded as waiting and the approval asked for, and a result stands only once recorded |
| WorkflowRuns.EverythingBefore | packages/agent-runtime/src/workflow.ts:255-393 | wherever a run stands, every earlier position was carried out: reads and proposals answered and recorded, writes skipped in a shadow run and otherwise dispatched, answered and recorded |
| WorkflowRuns.CompletedDidEverything | packages/agent-runtime/src/workflow.ts:255-412 | a run that claims to have completed has carried out every position of the plan |
| WorkflowRuns.EndsExactly | packages/agent-runtime/src/workflow.ts:205-412 | a run comes to each of its six results exactly for one of that result's causes |
| WorkflowRuns.ResultHasCause | packages/agent-runtime/src/workflow.ts:205-412 | a result is claimed only after one of its causes |
| WorkflowRuns.CauseDecides | packages/agent-runtime/src/workflow.ts:205-412 | after a cause no other result is ever claimed |
| WorkflowProgress.AnsweredIsProgress | packages/agent-runtime/src/workflow.ts:205-412 | every answer takes the body at least one await further, whatever signals come between |
| WorkflowProgress.AnsweredRunsEnd | packages/agent-runtime/src/workflow.ts:205-412 | a run is over once fifteen awaits a step and fifteen more were answered |
| WorkflowProgress.SmoothRunsComplete | packages/agent-runtime/src/workflow.ts:205-412 | a run with ready inputs, a proposal before every write and nothing failing, denied, rejected, cancelled or timed out closes as completed once answered, with warnings exactly if a write came back unverified, having carried out every position |
| BrowserPlan.PlanBrowserWrites | packages/browser-actuator/src/plan.ts:84-210 | the refusal of the first objectionable change, or the steps in order; which steps is BrowserLayout.PlannedExactly |
| BrowserPlan.PlansExactly | packages/browser-actuator/src/plan.ts:84-122 | a plan exactly for one to fifty labelled real changes with pairwise distinct keys |
| BrowserLayout.PlannedExactly | packages/browser-actuator/src/plan.ts:84-207 | the planner answers these steps exactly when the changes can be planned and the steps are their layout: per change on its own control show, read first if a picklist, set from the old value to the new, read back; then, if a save control is named, one click on it and one read per change; nothing else |
| BrowserLayout.LaidOutOnce | packages/browser-actuator/src/plan.ts:124-207 | the layout determines the plan |
| BrowserLayout.KeysExactly | packages/browser-actuator/src/plan.ts:115-121 | two changes have one key exactly when role, trimmed lower-cased label and position agree |
| BrowserLayout.RefusedFor | packages/browser-actuator/src/plan.ts:84-122 | no changes, more than fifty, or the first change without a label, without a difference, or on a control already taken |
| BrowserAnswers.IssueExactly | packages/browser-actuator/src/authorize.ts:58-82 | a request is held back for the first check it fails and sent if it passes all; only writes need consent |
| BrowserAnswers.PerformedExactly | packages/browser-actuator/src/inpage.ts:367-470 | what each action does on the control it names and tells, and for what it is refused instead, changing nothing |
| BrowserAnswers.VerifiedExactly | packages/browser-actuator/src/verify.ts:33-55 | a field is verified when the page tells the value up to surrounding spaces, a click when the answering control bears the confirmed name |
| BrowserAnswers.OutcomeExactly | packages/browser-actuator/src/execute.ts:129-268 | the status a running step ends with, and that it tells what the page told |
| BrowserAnswers.ItemExactly | apps/desktop/src/lib/browserRun.ts:201-218 | a revert starts from the applied or unverified writes of fields, with what the page held before |
| BrowserExecute.Window.Dispatch | packages/browser-actuator/src/inpage.ts:367-527 | one action performed on the page, answered or lost before or after landing |
| BrowserExecute.ExecuteBrowserPlan | packages/browser-actuator/src/execute.ts:117-277 | the halting loop over a mutable page |
| BrowserOutcome.ExecutedPlan | packages/browser-actuator/src/execute.ts:117-277 | whatever the browser answers, one outcome per step: a run of applied or observed ones, at most one that stops, then skipped ones; nothing sent after the stop, tokens distinct, tallies exact, writes unverified exactly when a write stopped the run |
| BrowserOutcome.HonestPlan | packages/browser-actuator/src/execute.ts:117-277 | so it is for every run against the page itself |
| BrowserOutcome.PlannerMarks | packages/browser-actuator/src/plan.ts:124-207 | the planner marks exactly the consequential actions as writes |
| BrowserOutcome.WritesNeedConsent | packages/browser-actuator/src/authorize.ts:58-82 | every write sent in the run of a planner's plan, whatever the browser answers, is the request of its own step in a run that is not a shadow run, with policy, approval and presence |
| BrowserOutcome.StepAdvances | packages/browser-actuator/src/verify.ts:33-55 | a step goes through, or stops the run, with its token spent exactly if it was sent, whatever came back |
| BrowserRevert.SetPerformed | packages/browser-actuator/src/inpage.ts:394-452 | a field write changes exactly its control and reports what it held and holds, or is refused and changes nothing |
| BrowserRevert.BlockRun | packages/browser-actuator/src/execute.ts:129-268 | one change's steps end untouched, recorded, or landed with the answer lost |
| BrowserRoundTrip.PlanTrail | apps/desktop/src/lib/browserRun.ts:195-221 | after any run the page carries exactly the reported changes, and at most one whose answer was lost |
| BrowserRoundTrip.RevertRestores | packages/browser-actuator/src/plan.ts:238-261 | reverting is refused as having no changes on an unchanged page, or accepted and restores the page, except for a write whose answer was lost |
| BrowserReverting.CarriedRun | packages/browser-actuator/src/execute.ts:117-277 | a plan of writes, every request answered, leaves the writes up to the first that is not taken or does not read back |
| BrowserReverting.RestoredExactly | packages/browser-actuator/src/plan.ts:238-261 | after any run and its revert the page is as it was exactly when every reported change returns its control up to the first obstructing undo, earlier ones altered nothing, and neither did a lost write |
| BrowserLimits.AnsweredRunsRestoreExactly | packages/browser-actuator/src/plan.ts:238-261 | with no answer lost after landing, the page is as it was exactly when what was reported restores |
| BrowserLimits.OrdinaryRestoredExactly | packages/browser-actuator/src/inpage.ts:394-452 | over text fields and short picklists the round trip restores exactly when every reported change was on a control that can be put back, and a lost write changed nothing |
| BrowserLimits.PicklistRestoredExactly | packages/browser-actuator/src/inpage.ts:421-436 | a run over picklists is reverted exactly when each one it changed had an option selected that its text finds first |
| BrowserLimits.FieldRestoredExactly | packages/browser-actuator/src/inpage.ts:231-235 | a run over text fields is reverted exactly when every field it wrote held at most 512 characters |
| BrowserLimits.CheckboxBlocksRevert | packages/browser-actuator/src/inpage.ts:336-365 | when the last report is on a checkbox the revert changes nothing, whatever becomes of its requests |
| BrowserLimits.CheckboxRestoredExactly | packages/browser-actuator/src/inpage.ts:336-365 | and then the page is as it was exactly when nothing reported or lost had altered a control |
| ContextTriggers.TriggerBoard.HandleContext | packages/agent-runtime/src/local-runtime.ts:238-285 | the agents that fire, in order, and their new stamps |
| ContextTriggers.SelectsExactly | packages/agent-runtime/src/local-runtime.ts:238-269 | a context selects a trigger exactly when on the host of its origin, or without one or the other of its category, and about its kind of object if it names one |
| ContextTriggers.FiresExactly | packages/agent-runtime/src/local-runtime.ts:238-285 | an agent fires exactly when enabled, selected and cooled down since its last firing |
| ContextTriggers.CooldownHolds | packages/agent-runtime/src/local-runtime.ts:270-275 | two firings of one agent are at least its cooldown apart |

## Left out

- Cryptography: SHA-256, HMAC and the diff hash are functions; the audit digest and the token fingerprint are assumed collision free, the diff hash is arbitrary.
- HTTP routing, SQL text, Temporal's client, sockets and the clock: their answers are parameters or events.
- Schema parsing: objects arrive with the shapes their schemas promise; stored audit rows, which no schema reads, hold any JSON metadata. An output key `__proto__`, which would set a prototype, is an ordinary key.
- 64-bit overflow in the host's timestamp arithmetic: the model computes over unbounded integers, which agrees for every valid date.
- String case and Unicode normalisation: domain normalisation, label lower-casing and accessible-name rules are functions.
- Page behaviour beyond the in-page script: a click leaves the fields as they are, names and control identity do not change during a run, and framework setters accept the value given.
- Accessible names longer than 120 characters, which the page's answer cuts: names are compared whole.
- Revert of several plans at once, other tabs and edits by third parties during a run.
- Aliasing between the account records a match holds and the world's own records: matches hold copies.
- Workflow queries, step summaries, run cost and intervention time: reporting only.
- Copy text of suggestions, rendered labels and plan previews: text only.
- `evaluateProactivity`, `matchEpisode`, `templateReps`: composition and scoring over the parts modelled here.
- Mode tables of the capability catalog and the regular expressions that screen literals: parameters of the validator.
- `setEnabled`, `unregisterAgent`, `list` and the restart path of the local runtime: single map operations.
- HostProtocol.RenderParses: covers timestamps of the standard form; the parser also accepts others, which the model parses alike but no property is claimed for.
