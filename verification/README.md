# phenoEvents: a Dafny model

phenoEvents is an event library: a durable bus over two SQLite tables, an in-memory bus, a
checkpointed SQL projection of order events, and a registry of versioned JSON schemas. This
project models the four components and proves what they guarantee over all inputs and all
runs, and exactly when they do not.

`dafny verify dfyconfig.toml` checks everything.

## The components

**The outbox** (`src/bus/mod.rs`). `Outbox` holds the tables and the effect of each SQL statement.
`SqliteBusObject` is the bus as a class, its methods proved against those effects.
`OutboxProtocol` is the same bus as a transition system: any number of workers and publishers, one
action per statement or transaction, and an abort or SQL error at any await point. Every action
picks its own instant, so what holds of all runs holds for any clock; the continuations that are
shown to exist read a clock that may start anywhere and never goes back. What happened to an event
is read off the trace (`HistoryOf`), never kept as extra state. `OutboxGuarantees`,
`OutboxProgress`, `OutboxDelivery`, `OutboxBackoff` and `OutboxOrder` state what holds over every
run, `OutboxAccounts` what the counters and instants in the tables mean; `Timestamps` shows that
comparing the text of two timestamps, as SQLite does, compares the instants.

**The projection** (`src/projection/mod.rs`). `Orders` says what one event does to the read model,
`OrderPayloads` how it is written in the payload, `OrderReplay` what a second replay does to it,
`OrderProjectionObject` is the class with its rebuild loop. `ProjectionResume` says from which
checkpoints a replay over given tables ends in those of a clean fold, with and without totals, and
`ProjectionRecovery` is the machine that crashes between any two statements, restarts, resumes and
rewinds. `ProjectedOutbox` joins it to the outbox it reads.

**The registry** (`src/schema/registry.rs`). `SchemaRegistryObject` has the class and the checks
as loops; `SchemaVerdicts` says what they decide, read off the JSON itself; `SchemaEvolution` says
what "additive" guarantees about chains of versions and about payloads.

**The in-memory bus** (`src/bus/in_memory.rs`). `InMemoryBusObject` is the class,
`InMemoryProtocol` interleaves publishers (one locked step, then one send per subscriber),
`InMemoryLosses` says when a message is dropped, and `BusAgreement` compares its answers with
those of the outbox.

## What the code does not promise

- "At-least-once" (`src/lib.rs:6`), read as "the handler is called", has one exception. By
  `LostExactlyWhenCutBeforeCall` a published event is lost, its handler called in no
  continuation, if and only if an abort or SQL error hit its holder before the first call; every
  valid event can end so (`EventCanBeLost`). Any other published event can still be delivered
  (`CanBeDelivered`), and once the outbox is at rest it has been (`DeliveredAtRestExactly`).
- "Restart the subscriber ... resume automatically" (`docs/ops/RUNBOOK.md:19-20`) has a wider one:
  by `NeverFinishesExactlyWhenAbandoned` an event is acked or dead in no continuation if and only
  if an abort or SQL error hit its holder at any point after the claim. In
  `CrashInCallNeverResumes` it is hit during the first call; a worker subscribes again and the
  event stays `in_progress` for good. Any other published event can still be finished
  (`CanBeFinished`). `QuietAccounting` lists what an abandoned event may have seen.
- The backoff is a constant 10 ms (`src/bus/mod.rs:214`), not `10ms * attempts`
  (`docs/ops/RUNBOOK.md:16-17`); the model follows the code. By `BackoffIsConstant` the two agree
  after the first failure and after no other; `DocumentedBackoffFails` reaches every later one.
- A rewind of the projection is not crash safe at its first row: the stored checkpoint is still
  ahead of the row just rewritten. `RewindWindowExact` says when a resume after such a crash or
  SQL error still gives the clean fold, and `CutRewindLosesCancellation` is a run in which a
  cancelled order ends up open. Without rewinds every crash is safe and the tables come out
  identical (`ForwardRunsResumeFully`). With them every other crash point is safe but for totals
  (`EveryStateIsRecoverable`); the totals come out right exactly under the condition in
  `EveryStateResumesFullyExactly`.
- A rewind reproduces `total_cents` unless an item came before its order; `RewindTotalExact` is
  the condition, `RewindCanChangeTotal` the smallest log that breaks it. So a rebuild from 0
  repairs any state but for totals, and may change a total that was right:
  `RebuildFromZeroRepairs` says exactly when it gives identical tables.
- `register` compares a schema with the version below it only. `RegisterExact` is the condition
  under which all pairs of versions stay additive, `OutOfOrderBreaksTheChain` a chain that does
  not.
- "Do not overwrite an existing version" (`docs/ops/RUNBOOK.md:53`) is not enforced, so old
  consumers may be affected (`docs/ops/RUNBOOK.md:55`): in `OverwriteRefusesOldPayload` a second
  registration of version 1 takes back a verdict although all pairs of versions stay additive.
  `OverwriteExact` is the condition under which an overwrite takes none back.
- Contrary to `docs/ops/RUNBOOK.md:49-50` a later version may drop a name from `required`
  (`DroppingARequirementIsAccepted`, and for any table `DroppingRequirementsIsNeverRefused`).
  `RefusedExactly` says what is a breaking change: a property lost or changed, or a name newly
  required.
- Additive is not compatible. `AcceptanceExact` is the condition on two schemas under which every
  payload of the first is a payload of the second, `CompatibilityExact` what it comes to for
  additive ones, `AdditiveIsNotCompatible` a pair that fails it.

## Model

| member | source | states |
|---|---|---|
| OutboxProtocol.InvHolds | src/bus/mod.rs:112-266 | the inductive invariant of all reachable states: exclusive holders, rows and workers in step with the event's history, handled iff acked, in_progress rows held or abandoned |
| OutboxGuarantees.ClaimIsExclusive | src/bus/mod.rs:112-157 | in any interleaving at most one worker holds an event, and its row is in_progress |
| OutboxGuarantees.HoldIsStable | src/bus/mod.rs:112-231 | nobody but its holder changes the row of a held event, whatever step anyone takes |
| OutboxGuarantees.SplitIncrementIsAtomic | src/bus/mod.rs:197-231 | the separate read and write of `attempts` in `mark_failed` write what one atomic increment would |
| OutboxGuarantees.FailuresAreCounted | src/bus/mod.rs:197-231 | `attempts` is the number of errors the handler returned, short by one only while in progress; `last_error` is the last one counted |
| OutboxGuarantees.RetryBudget | src/bus/mod.rs:197-266 | the range of attempts and invocations in each status; at most max(1, max_retries) invocations per event in any run, for any max_retries |
| OutboxGuarantees.RetriesWait | src/bus/mod.rs:112-126 | an event whose handler failed is never selected again within 10 ms of the start of the `mark_failed` call |
| OutboxBackoff.BackoffIsConstant | src/bus/mod.rs:197-231 | a retrying row is due exactly 10 ms after its last `mark_failed` began, which is 10 ms times its attempts iff that is 1 |
| OutboxBackoff.DocumentedBackoffFails | src/bus/mod.rs:208-214 | for every number of attempts from 2 up to max_retries - 1 a reachable retrying row that is due earlier than 10 ms times its attempts |
| OutboxGuarantees.HandledExactlyWhenAcked | src/bus/mod.rs:172-195 | acked iff in handled_events; the handler returns Ok at most once per event in any run |
| OutboxGuarantees.DeadBranches | src/bus/mod.rs:203-243 | the duplicate shortcut of `process_once` and the missing row of `mark_failed` are unreachable while only the bus writes its tables |
| OutboxGuarantees.OrphanedExactlyWhenAbandoned | src/bus/mod.rs:45-49 | a row is in_progress with no holder iff its holder was aborted or hit an SQL error |
| OutboxGuarantees.SettledStep | src/bus/mod.rs:112-231 | one step of anyone keeps an acked, dead or orphaned row, and keeps it unchanged |
| OutboxGuarantees.SettledForever | src/bus/mod.rs:112-231 | acked, dlq and orphaned rows never change again and their handlers never run again, in any continuation |
| OutboxDelivery.LostExactlyWhenCutBeforeCall | src/bus/mod.rs:45-266 | for every published event of every reachable state: no continuation ever calls its handler iff its holder was aborted or hit an SQL error before the first call; and the same for continuations by a clock that never goes back |
| OutboxDelivery.NeverFinishesExactlyWhenAbandoned | src/bus/mod.rs:45-266 | for every published event of every reachable state: it is acked or dead in no continuation iff its holder was aborted or hit an SQL error at any point; and the same for a clock that never goes back |
| OutboxDelivery.CanBeFinished | src/bus/mod.rs:233-351 | every event that was not abandoned has a continuation without aborts, errors or publishes, by a clock that never goes back, in which it is acked or dead |
| OutboxDelivery.CrashInCallNeverResumes | src/bus/mod.rs:45-351 | every valid event has a run that aborts its worker in the first call and subscribes again, after which it is finished in no continuation although it was not cut off before its call |
| OutboxDelivery.DeliveredAtRestExactly | src/bus/mod.rs:112-266 | at rest a published event's handler was never called iff its holder was cut off before the first call |
| OutboxDelivery.CanBeDelivered | src/bus/mod.rs:233-351 | every event not cut off before its first call has a continuation without aborts, errors or publishes, by a clock that never goes back, that calls its handler |
| OutboxDelivery.BroughtToRest | src/bus/mod.rs:233-351 | every reachable state can be brought to rest by such a continuation, keeping all its events |
| OutboxDelivery.CutIsUncalledAndAbandoned | src/bus/mod.rs:45-49 | a holder was cut off before the first call iff the event is abandoned and uncalled, now and ever after |
| OutboxDelivery.EventCanBeLost | src/bus/mod.rs:45-49 | the exception is real: every valid event has a run in which it is cut off before its first call, and lost |
| OutboxDelivery.ClaimThenAbort | src/bus/mod.rs:45-157 | the run that orphans an event before its handler is called |
| OutboxProgress.OpLowersMeasure | src/bus/mod.rs:112-231 | every won claim and every committed mark lowers the work left in the outbox, and no other worker step raises it |
| OutboxProgress.DrainWorkIsBounded | src/bus/mod.rs:112-266 | without new events, a continuation of any reachable state holds at most Measure claims and marks, whatever aborts, errors and subscriptions it meets |
| OutboxProgress.EffortStep | src/bus/mod.rs:112-266 | every step a worker takes of its own accord, lost claims included, lowers the effort left |
| OutboxProgress.DrainTerminates | src/bus/mod.rs:112-266 | with no publish, subscription, abort or error, all workers together take at most Effort steps from any reachable state, lost claims included; a poll that finds nothing due is not a step |
| OutboxProgress.StuckExactlyWhenQuiet | src/bus/mod.rs:233-351 | with a worker subscribed and every retry due, nobody can step iff the outbox is at rest and every worker idle |
| OutboxProgress.DrainToRest | src/bus/mod.rs:338-351 | from any reachable state with a worker subscribed, the workers' own steps reach rest, by a clock that starts at any given instant and never goes back |
| OutboxProgress.TotalWork | src/bus/mod.rs:112-336 | over a whole run at most 2 * max(1, max_retries) claims and marks per published event |
| OutboxProgress.NeverStuck | src/bus/mod.rs:233-266 | a subscribed worker always has a step of its own, unless idle with nothing due |
| OutboxProgress.QuietAccounting | src/bus/mod.rs:290-302 | at rest each row is acked after one success, dead after max(1, max_retries) failures, or abandoned; the rows of `pending_count` are exactly the abandoned ones, and each of those saw beyond its counted failures nothing, one unanswered call, one success or one failure |
| OutboxOrder.OutboxIsLog | src/bus/mod.rs:307-336 | rowids are 1, 2, 3, ... in publish order without gaps; duplicates take none and the first envelope is kept |
| OutboxOrder.FirstInFirstOut | src/bus/mod.rs:112-170 | with one worker, a successful handler and rising timestamps, the handled events are always a prefix of the published ones, and each call gets the next event and the id handled just before |
| Envelopes.ValidateExactly | src/core/envelope.rs:55-128 | the three checks in their order: a type and a source that are empty once trimmed at both ends, version 0 |
| Envelopes.WhiteSpace | src/core/envelope.rs:107-115 | the 25 characters trimming removes |
| SqliteBusObject.SqliteBus.PublishEnvelope | src/bus/mod.rs:307-336 | the new tables and the answer, for valid, invalid and duplicate envelopes |
| SqliteBusObject.SqliteBus.ClaimNext | src/bus/mod.rs:112-157 | claims an oldest due row, and nothing iff nothing is due |
| SqliteBusObject.SqliteBus.LastSeen | src/bus/mod.rs:159-170 | a most recently handled id, none iff nothing was handled |
| SqliteBusObject.SqliteBus.MarkEventHandled | src/bus/mod.rs:181-195 | records the id once, with its first instant, and acks the row |
| SqliteBusObject.SqliteBus.MarkEventFailed | src/bus/mod.rs:197-231 | the whole new state of a failure, dead or retrying |
| SqliteBusObject.SqliteBus.ProcessOnce | src/bus/mod.rs:233-266 | one pass of the worker: which event, what its handler is given, what becomes of its row; and the pass is a run of the protocol |
| SqliteBusObject.PassIsARun | src/bus/mod.rs:233-266 | the steps by which a worker takes such a pass, beside any other workers |
| OutboxAccounts.CountedExactly | src/bus/mod.rs:290-296 | in every reachable state `pending_count` counts an id iff it was published, is not handled and has attempts left |
| OutboxAccounts.CountersAddUp | src/bus/mod.rs:290-302 | pending count, dlq count and handled events add up to the number of rows |
| SqliteBusObject.SqliteBus.PendingCount | src/bus/mod.rs:290-296 | the size of the set that CountedExactly describes |
| OutboxProgress.DeadAreTheFailed | src/bus/mod.rs:298-302 | the rows of `dlq_count` are in every state those whose recorded failures used up the budget, and at rest exactly the events that were neither abandoned nor ever handled with success |
| OutboxAccounts.HandledIsAcknowledged | src/bus/mod.rs:181-195 | in every run handled_events holds the acknowledged events, each with the instant of its acknowledgement |
| OutboxAccounts.LastSeenIsLastAcknowledged | src/bus/mod.rs:159-170 | in every run a handler is given the id acknowledged last before the read, none iff there is none |
| OutboxAccounts.FirstMarkIsKept | src/bus/mod.rs:184 | marking an event again keeps its first instant |
| OutboxAccounts.DueExactly | src/bus/mod.rs:197-231 | in every reachable state a row is due when it was first published, or 10 ms after its last recorded failure began to be recorded |
| OutboxAccounts.WritesAreStamped | src/bus/mod.rs:136-229 | an operation that changes a row stamps it with its instant, and none changes an envelope, a created_at or the set of rows |
| OutboxAccounts.PassOutcome | src/bus/mod.rs:233-266 | what one pass leaves of its event in every column, by the handler's answer, and that it touches no other row |
| Timestamps.TextOrderIsTimeOrder | src/bus/mod.rs:113-125 | byte order of RFC 3339 text with 0, 3, 6 or 9 fraction digits is the order in time, and equal text means equal instants |
| Timestamps.FractionOrder | src/bus/mod.rs:214 | fractions of different lengths, followed by the zone, order as the nanoseconds do |
| Timestamps.TextReadsBack | src/bus/mod.rs:113 | year to second, each of two or four digits, stand at their places in the text with these separators, followed by the fraction and +00:00 |
| Timestamps.FractionReadsBack | src/bus/mod.rs:214 | the fraction has as few groups of three digits as it takes, and they are the nanoseconds |
| Timestamps.DaysBeforeYearExactly | src/bus/mod.rs:113 | the calendar's years are the Gregorian ones, in closed form |
| Timestamps.MonthLengths | src/bus/mod.rs:113 | and so are its months |
| Timestamps.DateOrder | src/bus/mod.rs:113 | day numbers order as year, month and day do, leap years included |
| Orders.FoldIsLocal | src/projection/mod.rs:202-302 | the rows of an order after a log are what the events of that order alone make of them |
| Orders.InterleavingIsIrrelevant | src/projection/mod.rs:202-302 | logs with the same events per order build the same tables: events of different orders commute |
| OrderReplay.ConvergenceExact | src/projection/mod.rs:202-302 | two states of an order end up the same, but for the total, iff the log rewrites all they disagree on |
| OrderReplay.RewindConverges | src/projection/mod.rs:67-88 | replaying rows k+1.. over the tables of the first m >= k rows gives the items, customer and status of one clean fold |
| OrderReplay.EarlyEventIsAbsorbed | src/projection/mod.rs:90-98 | an event applied ahead of a replay that contains it makes no difference afterwards but for the total, and none to that iff the two end totals, read off the state and the log, are the same |
| OrderReplay.FullConvergenceExact | src/projection/mod.rs:202-302 | two states of an order end up the same after a log, total included, iff the log rewrites all else they disagree on and the end totals are the same |
| OrderReplay.TotalAfter | src/projection/mod.rs:214-287 | the total after any log from any state |
| OrderReplay.OrderTotal | src/projection/mod.rs:214-287 | after any log the total is the sum over the items if an item event followed the order's creation, else 0 |
| OrderReplay.OrderTotalWhenCreatedFirst | src/projection/mod.rs:214-302 | an order created before its items always has their sum as its total |
| OrderReplay.RewindTotalExact | src/projection/mod.rs:67-88 | a rewind gives exactly the clean rows of an order, total included, iff the named condition on the log alone does not hold |
| OrderReplay.ItemsAfter | src/projection/mod.rs:249-257 | the item rows after a log are those before it overlaid with the last setting of each sku |
| OrderReplay.RewindCanChangeTotal | src/projection/mod.rs:214-287 | the smallest log that a second replay gives another total |
| OrderReplay.RewindOfTables | src/projection/mod.rs:67-88 | the same for whole tables; identical tables when orders are created first |
| Orders.TotalPut | src/projection/mod.rs:271 | setting an item moves the sum by its quantity times its unit price, less what the item it replaces came to |
| Orders.ItemMovesTotal | src/projection/mod.rs:241-287 | an item event keeps the total of its order the sum, and moves it by exactly that |
| OrderProjectionObject.OrderProjection.SumItems | src/projection/mod.rs:269-274 | adds up quantity times unit price of an order's items, in whatever order |
| OrderProjectionObject.OrderProjection.UpsertItem | src/projection/mod.rs:241-287 | the item row and the order's recomputed total, which an absent order does not get |
| OrderPayloads.ItemAddedSetsItem | src/projection/mod.rs:241-287 | an item event with these four keys, whatever its others, sets exactly that item row, and the total of its order if there is one |
| OrderPayloads.OrderCreatedSetsOrder | src/projection/mod.rs:214-239 | a creation sets the customer, the status or "open" if there is no string, and keeps the total |
| OrderPayloads.OrderCancelledSetsStatus | src/projection/mod.rs:289-302 | a cancellation sets the status of an order that is there, and nothing else |
| OrderPayloads.OtherEventsDoNothing | src/projection/mod.rs:210 | any other event changes nothing and is no error |
| OrderPayloads.FirstBadFieldIsReported | src/projection/mod.rs:304-318 | the first field that does not fit is reported as missing or as invalid, and nothing is written |
| OrderPayloads.AcceptedExactlyWhenAllFit | src/projection/mod.rs:202-318 | an event is accepted iff all fields of its type are there and of their kind, integers within 64 bits |
| OrderProjectionObject.OrderProjection.ApplyOrderEvent | src/projection/mod.rs:202-212 | tables and outcome are those of `EventApplied`, which the lemmas of OrderPayloads describe; on an error nothing changes |
| OrderProjectionObject.OrderProjection.ApplyAtOffset | src/projection/mod.rs:90-115 | tables and checkpoint move together, and a bad event moves neither |
| OrderProjectionObject.OrderProjection.RebuildFromOffset | src/projection/mod.rs:67-88 | the loop computes `Replayed` |
| OrderProjectionObject.RebuildStopsAtFirstBadEvent | src/projection/mod.rs:67-88 | a rebuild applies and checkpoints exactly the good events from its offset, and fails iff it met a malformed one, with its error |
| OrderProjectionObject.ResumeStopsThereAgain | src/projection/mod.rs:67-88 | resuming where a rebuild stopped changes nothing and fails on the same event |
| OrderProjectionObject.LiveEqualsRebuild | src/projection/mod.rs:118-124 | applying live from a checkpoint ends in the same tables, offset and outcome as a rebuild from it |
| ProjectedOutbox.SelectedRowsAreTheLog | src/projection/mod.rs:68-82 | the rows a rebuild selects from a reachable outbox are the publish log after its offset, with consecutive rowids |
| ProjectedOutbox.LiveApplyEqualsRebuildOfOutbox | src/projection/mod.rs:67-124 | over any reachable outbox, rebuild and live application agree |
| ProjectionResume.HarmlessExact | src/projection/mod.rs:97-98 | which single events may be applied early without changing the outcome of a replay but for totals, iff |
| ProjectionResume.HarmlessFullyExact | src/projection/mod.rs:97-98 | and which without changing it at all, iff |
| ProjectionResume.ResumesFromExactly | src/projection/mod.rs:67-88 | for any tables and any checkpoint: a replay from there gives the clean fold but for totals iff the rows still to be replayed rewrite all else in which the tables differ from the clean ones |
| ProjectionResume.ResumesFullyExactly | src/projection/mod.rs:67-88 | and it gives identical tables, totals included, iff moreover the end totals of all orders are the clean ones |
| ProjectionRecovery.EveryStateIsRecoverable | src/projection/mod.rs:36-115 | in every state of a careful run (crashes and errors anywhere, but at the first row of a rewind only if harmless), resuming from the stored checkpoint or an earlier one gives the clean fold of the whole log but for totals; between a row's two writes, from the checkpoint up to that row |
| ProjectionRecovery.EveryStateResumesFullyExactly | src/projection/mod.rs:36-115 | in every such state any such resume gives identical tables, totals included, iff the totals agree |
| ProjectionRecovery.ForwardRunsResumeFully | src/projection/mod.rs:36-115 | in every state of every run without rewinds, with crashes and errors anywhere, resuming from the stored checkpoint gives exactly the clean fold of the whole log, totals included, for every log |
| ProjectionRecovery.ForwardRunsAreUpToDate | src/projection/mod.rs:90-98 | in such a run the tables are always those of the rows up to the stored checkpoint or of one row more |
| ProjectionRecovery.ForwardRunsAreCareful | src/projection/mod.rs:67-115 | without rewinds every run is careful, wherever it crashes |
| ProjectionRecovery.AheadExact | src/projection/mod.rs:97-98 | between the two writes of a row, from which checkpoints a replay gives the clean fold but for totals, iff, and from which identical tables, iff |
| ProjectionRecovery.RewindWindowExact | src/projection/mod.rs:97-98 | after a crash or SQL error at the first row of a rewind, resuming gives the clean fold but for totals iff that row was harmless, and identical tables iff the totals agree as well |
| ProjectionRecovery.CutRewindLosesCancellation | src/projection/mod.rs:67-98 | a run in which such a crash reopens a cancelled order for good |
| ProjectionRecovery.AlwaysInPlace | src/projection/mod.rs:43-47 | in every reachable state the offset in memory is the stored checkpoint and neither is beyond the good prefix |
| ProjectionRecovery.TotalIsAlwaysTheSum | src/projection/mod.rs:214-302 | in every reachable state, careful or not, the total of an order created first is the sum of its items |
| ProjectionRecovery.RestartConverges | src/projection/mod.rs:36-88 | after a careful run, a restart that rebuilds from the stored checkpoint ends in the clean fold but for totals; in identical tables iff the totals agree, as they do without rewinds and when orders are created first |
| ProjectionRecovery.AnyRunIsRepairable | src/projection/mod.rs:36-115 | after any run at all, with crashes anywhere in any rewind, replaying from the safe point or before gives the clean fold but for totals |
| ProjectionRecovery.AnyRunIsFullyRepairableExactly | src/projection/mod.rs:36-115 | and identical tables iff the totals agree |
| ProjectionRecovery.ForwardRunsAreSafe | src/projection/mod.rs:67-115 | without rewinds the stored checkpoint is never beyond the safe point |
| ProjectionRecovery.ReplayConverges | src/projection/mod.rs:67-88 | a rebuild from any resumable checkpoint ends in the clean fold but for totals, and in identical tables iff the totals agree, as they do when orders are created first |
| ProjectionRecovery.RebuildFromZeroRepairs | src/projection/mod.rs:67-88 | a rebuild from 0 repairs every reachable state but for totals, and gives identical tables iff no order of the tables has items that all came before it and are not free |
| ProjectionRecovery.UndisturbedRebuildIsARun | src/projection/mod.rs:67-88 | the rebuild method is the run of the machine in which nothing fails |
| SchemaRegistryObject.LatestSchemaFor | src/schema/registry.rs:68-76 | the schema of the greatest registered version below, none iff there is none |
| SchemaRegistryObject.EnforceAdditivePolicy | src/schema/registry.rs:79-104 | accepts iff all properties are kept and nothing new is required |
| SchemaRegistryObject.ValidateRequired | src/schema/registry.rs:152-160 | iff every required name is present |
| SchemaRegistryObject.ValidateProperties | src/schema/registry.rs:162-174 | iff every present property has the type its schema names |
| SchemaRegistryObject.ValidateAdditionalProperties | src/schema/registry.rs:176-196 | iff the schema is open or has all the payload's names |
| SchemaRegistryObject.ValidateAgainstSchema | src/schema/registry.rs:138-150 | decides `Accepts` |
| SchemaRegistryObject.SchemaRegistry.Register | src/schema/registry.rs:29-47 | the new table and verdict in every case; a rejected call changes nothing |
| SchemaRegistryObject.SchemaRegistry.Validate | src/schema/registry.rs:49-66 | the verdict is `Validated`, which PayloadRefusedExactly and UnknownVersionIsRefused describe |
| SchemaVerdicts.PayloadRefusedExactly | src/schema/registry.rs:138-236 | a payload is invalid iff its type is wrong, a required field is missing, a listed one has the wrong type, or additionalProperties is false and one is unlisted, read off the JSON of the schema |
| SchemaVerdicts.UnknownVersionIsRefused | src/schema/registry.rs:55-64 | version 0 and unregistered versions, each with its error |
| SchemaVerdicts.ClosedRefusesUnlisted | src/schema/registry.rs:176-196 | with additionalProperties false no object with an unlisted field is valid |
| SchemaVerdicts.OpenIgnoresUnlisted | src/schema/registry.rs:176-196 | with the key absent, true or no boolean an unlisted field never makes an object invalid, and valid only by being required |
| SchemaVerdicts.TypeTable | src/schema/registry.rs:198-215 | which type names fit which kind of value; unsupported names fit none |
| SchemaVerdicts.ShapeRefusedExactly | src/schema/registry.rs:35-39 | which schemas are malformed, and that version 0 is refused before |
| SchemaVerdicts.NothingBelowIsAccepted | src/schema/registry.rs:41-46 | a well-formed schema with no lower version is accepted, also in place of another |
| SchemaVerdicts.BreakingExactly | src/schema/registry.rs:79-104 | table and verdict against the next version below, read off the JSON of the two schemas |
| SchemaEvolution.AdditiveIsPreorder | src/schema/registry.rs:79-104 | the additive check is reflexive and transitive |
| SchemaEvolution.RegisterExact | src/schema/registry.rs:29-47 | an accepted registration keeps all pairs of versions additive iff the schema fits the next version above |
| SchemaEvolution.IncreasingRunsStayAdditive | src/schema/registry.rs:29-47 | after any calls with increasing versions per type, accepted or not, all pairs are additive |
| SchemaEvolution.OutOfOrderBreaksTheChain | src/schema/registry.rs:68-76 | two accepted calls out of order that leave a pair not additive |
| SchemaEvolution.ClosedAndAdditiveIsCompatible | src/schema/registry.rs:138-215 | for two additive schemas with one top-level type, the earlier with additionalProperties false: a payload of the earlier is one of the later |
| SchemaEvolution.ClosedChainIsCompatible | src/schema/registry.rs:29-66 | the same along a whole chain of versions with additionalProperties false, for any two of them |
| SchemaEvolution.AcceptanceExact | src/schema/registry.rs:138-215 | for any two schemas, additive or not: the later accepts every payload the earlier accepts iff `WidensSchema`, which is read off the two schemas |
| SchemaEvolution.CompatibilityExact | src/schema/registry.rs:138-215 | for additive schemas, open or closed, this comes down to `CompatibleSchemas` |
| SchemaEvolution.OverwriteExact | src/schema/registry.rs:29-66 | an accepted overwrite of a version keeps every earlier Ok verdict of that version iff the new schema widens the replaced one |
| SchemaEvolution.OverwriteRefusesOldPayload | src/schema/registry.rs:45 | two accepted calls for one version, all pairs additive throughout, and a payload that goes from Ok to PayloadInvalid |
| SchemaEvolution.DroppingARequirementIsAccepted | src/schema/registry.rs:95-101 | for any name, a later version may stop requiring it |
| SchemaEvolution.RefusedExactly | src/schema/registry.rs:79-104 | with a version below, a well-formed schema is a breaking change iff a property is lost or changed or a name is newly required |
| SchemaEvolution.DroppingRequirementsIsNeverRefused | src/schema/registry.rs:95-101 | an acceptable schema stays acceptable whatever names it drops from `required` |
| SchemaEvolution.AdditiveIsNotCompatible | src/schema/registry.rs:79-104 | an additive pair and a payload only the earlier accepts |
| InMemoryBusObject.InMemoryBus.Publish | src/bus/in_memory.rs:79-117 | answer, seen set, last id and every queue after an undisturbed publish; a message is dropped where TakenExactly says so |
| InMemoryBusObject.InMemoryBus.Subscribe | src/bus/in_memory.rs:119-139 | adds an empty queue and touches nothing else |
| InMemoryBusObject.InMemoryBus.Receive | src/bus/in_memory.rs:148-149 | takes the oldest message of an open queue |
| InMemoryProtocol.MessagesAreLinks | src/bus/in_memory.rs:84-111 | every delivered message carries the id published just before it in lock order, however publishers interleave |
| InMemoryProtocol.QueuesAreFifo | src/bus/in_memory.rs:142-149 | a subscriber handles what was delivered to it, in that order, each message once |
| InMemoryProtocol.RebuildFollowsChain | src/bus/in_memory.rs:102-111 | following predecessors through messages in any order gives the publish order, when ids are distinct |
| InMemoryProtocol.PublishOrderIsRecoverable | src/bus/in_memory.rs:79-117 | a subscriber that lost nothing can rebuild the publish order since it joined from what was delivered, whatever the arrival order |
| InMemoryProtocol.DeliveredAtMostOnce | src/bus/in_memory.rs:107-111 | with distinct ids no message reaches a subscriber twice, and none published before it joined |
| InMemoryProtocol.DeliveredExactlyOnce | src/bus/in_memory.rs:79-117 | a subscriber that lost nothing got exactly the messages published since it joined, each once |
| InMemoryLosses.TakenExactly | src/bus/in_memory.rs:107-111 | in every run a message sent to a subscriber is taken iff the subscription was not dropped and fewer than 1024 messages wait there |
| InMemoryLosses.LostExactly | src/bus/in_memory.rs:107-111 | a subscriber lost a message iff one was sent to it when that was not so |
| InMemoryLosses.KeepingUpLosesNothing | src/bus/in_memory.rs:32-35 | a subscriber that stays and is never 1024 messages behind loses nothing |
| InMemoryLosses.KeepingUpGetsAll | src/bus/in_memory.rs:79-117 | so it gets exactly the messages published since it joined, each once, and can rebuild their order |
| InMemoryProtocol.UndisturbedPublishIsARun | src/bus/in_memory.rs:79-117 | the publish method is a run of the interleaved protocol |
| BusAgreement.OneFreshAnswer | src/bus/in_memory.rs:98-101 | each published id gets exactly one acknowledgement not marked duplicate |
| BusAgreement.SqliteFollowsReference | src/bus/mod.rs:307-336 | the outbox answers as the list of publications alone determines |
| BusAgreement.MemoryFollowsReference | src/bus/in_memory.rs:79-117 | so does the in-memory bus |
| BusAgreement.BusesAgree | src/bus/mod.rs:51-55 | for the same publications both buses return the same stream of acknowledgements and envelope errors, whatever workers and subscribers do |
| BusAgreement.OutboxKeysAreSeen | src/bus/in_memory.rs:98-101 | then the ids in the outbox are the ids the in-memory bus has seen |

## Left out

- SQLite, sqlx and tokio: a statement or transaction takes effect whole or not at all. A commit that succeeds although its caller sees an error is not modelled.
- Table creation, tracing, metrics, benches and configuration.
- Manual requeues and deletions from the runbook: only the bus and the projection write their tables. DeadBranches and OutboxIsLog depend on this.
- Several bus handles with different `max_retries` over one database: all workers share one value.
- The SqliteBus methods are runs without SQL errors by one worker; errors, aborts and other workers are in OutboxProtocol. `status`, `attempts` and `last_error` only read a column.
- The poll of an idle worker that finds nothing due: it changes nothing and is no action of the protocol, so DrainTerminates does not count it. The loop polls for ever.
- Fairness: DrainToRest and CanBeDelivered give a continuation, and DrainTerminates bounds every one; that the scheduler keeps running the workers, and that handlers return, is up to the runtime.
- The stored text of an envelope: it decodes to itself. For the outbox a row that does not decode is an SQL error after the claim; the projection, which would stop there as it does at a malformed payload, only meets rows that decode.
- Envelope fields that nothing here inspects (causation, correlation, timestamp), the envelope builder, and the generation of ids: an id is an opaque number, fresh where the source draws a new one.
- Leap seconds, years beyond 9999 and zones other than UTC in timestamps. That `to_rfc3339` prints the shortest of 0, 3, 6 or 9 fraction digits is taken as its definition.
- 64-bit overflow: totals and attempts are exact integers.
- `updated_at` in the read model, and more than one projection instance over the same tables.
- Rewinds to an offset beyond the checkpoint, in the crash machine; the method itself takes any offset.
- The payload handed to `apply`: the machine passes the row after the offset, as a caller that follows the bus does.
- Error texts, and which offending field an error names: it depends on hash order.
- `run_subscriber`'s cleanup when its channel closes: the bus keeps a sender for every entry, so it never closes while the entry exists.
- EveryStateIsRecoverable: excludes the harmful crashes at the first row of a rewind, for which its statement is false; AnyRunIsRepairable covers them. It leaves totals to EveryStateResumesFullyExactly.
- FirstInFirstOut: assumes one worker, no abort or error, a handler that succeeds, and distinct rising instants; `ORDER BY created_at` alone promises no order among rows of one instant.
