# Decision memory: model and proofs

This project models the parts of the repository where state, interleaving and arithmetic are hardest, and proves
what those parts keep:

- **Decisions** (`DecisionEngine`, `DecisionStore`, `DecisionService`): the aggregate with its lifecycle, commands and
  event buffer; the decision and outcome tables; the repository between them; the use cases create, transition and
  record outcome.
- **Decisions under concurrency** (`CreateRace`, `CreateMisreports`, `StaleSaves`): the same use cases as step systems
  over any number of requests, where the id read, the insert, the row read, the outcome read, the fact insert and the
  row save are steps of their own and a request may fail or stop between any two of them.
- **The event stream** (`EventKeys`, `EventIds`, `EventStream`, `EventLoads`, `Archiver`): object keys with their
  calendar, event ids with their FNV-1a seed, the two-step append, the archive worker, and loading.
- **Evidence** (`Evidence`, `ContextEngine`): the advisor's decision query, one status at a time, merged, filtered and
  ranked.
- **Reflections** (`Reflection`, `ReflectionRace`): the row of a decision's reflection with its retries, lease and
  recovery, attempt by attempt; and any number of attempts and recoveries at once, where every read and every write is
  a step of its own.
- **Tag search** (`TagSearch`, `ArticleSearch`): what a tag pattern matches, and what becomes of the two article
  queries that use it.
- **Smaller cores** (`TagNormalizer`, `Calibration`, `CalibrationRace`, `Graph`) and what they share (`Decimal`, `Ids`,
  `StableSort`, `Wrappers`).

Objects that change in place are classes; their methods are proved against functions on values, and the lemmas speak
about those functions. Where a class has a step system beside it, a lemma or the method's own contract says that what
the method does is a legal run of it (`EventStream.EventBackend.AppendEvent`, `Archiver.WorkerRunIsARun`,
`Archiver.WorkerRunIsAShift`, `CreateRace.AttemptIsARun`, `StaleSaves.TransitionIsARun`,
`StaleSaves.RecordOutcomeIsARun`, `Reflection.CreateIsAStep`, `Reflection.MarkFailedIsAStep`), so the theorems about
runs hold of the methods. A store call that can fail does so by free choice, and a ghost counter of failed calls lets
a contract say that nothing else makes a use case fail. Times, generated texts and the results of queries whose order
the database leaves open enter as parameters or as any value the query allows. `f64` is `real`. A JSON column is the
value it encodes, or a text that encodes none.

## Where the code and what is said about it differ

The model follows the code. Each of these is a lemma, with the exact condition under which the code does what is said.

- `decompose_ts` is called approximate; it is exact from 1970 to the end of the `i32` years and only there
  (`EventKeys.DateIsExactIff`).
- The per-status queries order by `created_at` alone, while the merge breaks ties by id and promises a reproducible
  list. Rows tied at the cut can be lost (`Evidence.TiesCanLoseTheNewestRow`); `Evidence.MergeIsExactIff` and
  `Evidence.EvidenceIsReproducibleIff` say when they are not.
- The comment on the id seed promises distinct ids for distinct aggregates; two events of one aggregate in one second
  share an id, and no load returns both (`EventStream.SameSecondIsNotLoadedTwice`).
- `mark_outbox_failed` is guarded by `retry_count >= 3` and nothing ever raises the count, so no entry is marked
  failed (`EventStream.RunKeepsInv`). An entry typed `event:*` whose payload is no envelope stays pending for ever, and
  a hundred of them stop the archive (`Archiver.ArchivedEventuallyIff`). A generated reflection leaves such an entry
  (`Archiver.ReflectionsStarveTheStream`).
- The worker comments that it will retry a failed index insert; it archives the entry instead, and an event can end
  archived and never indexed (`EventStream.ArchivedButNeverIndexed`); `EventStream.LoadedIff` says for every run which
  events are.
- A save writes the whole aggregate it loaded earlier, so a completed decision can leave its terminal status
  (`StaleSaves.AStaleSaveUndoesACompletion`, `StaleSaves.SaveFollowsLifecycleIff`).
- A comment calls a generated reflection final. It is exactly while no attempt works on the row, none holds a lookup
  that saw it open, and no recovery holds the row as it was when stale (`ReflectionRace.GeneratedIsFinalIff`); with no
  attempt left a late recovery still undoes it (`ReflectionRace.LateRecoveryUndoesAReflection`).
- The reflection engine builds its failure update for context and model errors and does not await it; the row stays
  `generating` until the lease runs out (`Reflection.FirstAttemptEnds`), or for ever when the lease was never written
  (`ReflectionRace.SettledStaysIff`, `ReflectionRace.FirstAttemptCanLockOut`). A failed lookup resets the retry count:
  with `k` such failures the most creates that succeed are `3 + 3k`, so the cap of three holds exactly without them
  (`Reflection.CapHoldsIff`).
- `tag_like_pattern` asks its caller for `ESCAPE '\'`. In the query by tag the backslash escapes the quote for the
  compiler, the database receives an empty escape (`ArticleSearch.EscapesSent`), and the query fails exactly when it
  examines a row; it finds nothing ever (`ArticleSearch.ByTagSucceedsIff`).
- `related_articles` puts the sort direction inside the parentheses, which is no sort list for any number of tags
  (`ArticleSearch.RelatedOrderIsNoSortList`), so it finds nothing either (`ArticleSearch.RelatedFailsIff`). Its pattern
  lacks the closing quote and matches every tag that starts with the given one (`ArticleSearch.RelatedMatchesIff`).
- With the escape the pattern is made for, tags are matched in their JSON form: the search for a stored tag finds it
  exactly when the serializer writes it as it is (`TagSearch.StoredTagIsFoundIff`), a tag with quotes can match across
  stored tags (`TagSearch.TagSearchIff` says which), and SQLite compares ASCII letters without case
  (`TagSearch.SqliteTagSearchIff`).
- The insert of a create reads a missing row count as a refusal. Then a request can be refused its own row, and a
  single one can end in a conflict (`CreateMisreports.ALoneRequestCanConflict`); the rows are the initial ones and one a
  success exactly when every insert reports what it did (`CreateMisreports.AccountIsExactIff`).
- Calibration means count every use exactly when no update comes between the find and the update of another
  (`CalibrationRace.AllCountedIff`).
- The service comment calls invalidation possible from any active status; the lifecycle accepts it from `Proposed` and
  `Executing` only (`DecisionEngine.InvalidateAcceptedIff`).
- The object keys follow the days only to the end of 9999 (`EventKeys.KeysSortUntilIff`).

## Model

| member | source | states |
|---|---|---|
| Decimal.ParsePadded | crates/infrastructure/src/decision_repository.rs:51-55 | Parsing a zero-padded number gives it back, for every i64 of either sign and every width. |
| Decimal.ParsesIff | crates/infrastructure/src/decision_repository.rs:51-55 | A text parses to a number exactly when it is digits with an optional sign, with a value that fits an i64. |
| Ids.D1IdOfDecisionId | crates/shared-kernel/src/ids.rs:33-37 | The row key read from a printed decision id is the number it was printed from. |
| Ids.D1IdIff | crates/infrastructure/src/decision_repository.rs:51-55 | A text is read as a row key exactly when it is the prefix and a text that denotes that number. |
| Ids.IdsAreTenWide | crates/shared-kernel/src/ids.rs:33-37 | Below a million the three kinds of id are their prefix and six digits of the number. |
| Ids.DecisionIdInjective | crates/shared-kernel/src/ids.rs:33-37 | Printed decision ids are equal exactly when the numbers are. |
| DecisionEngine.DecisionAggregate.Propose | crates/decision-engine/src/aggregate.rs:119-151 | Succeeds exactly for a non-empty title and a confidence in [0,1], with the error named otherwise, and leaves the proposal event. |
| DecisionEngine.DecisionAggregate.Approve | crates/decision-engine/src/aggregate.rs:156-162 | State, event and answer after an approval, refused or accepted. |
| DecisionEngine.DecisionAggregate.Execute | crates/decision-engine/src/aggregate.rs:165-167 | The same for execution. |
| DecisionEngine.DecisionAggregate.AttachOutcome | crates/decision-engine/src/aggregate.rs:172-179 | The observation and its event are appended, the status stays. |
| DecisionEngine.DecisionAggregate.Complete | crates/decision-engine/src/aggregate.rs:183-188 | Refused without an observation before anything else; otherwise by the lifecycle, with the count in the event. |
| DecisionEngine.DecisionAggregate.Invalidate | crates/decision-engine/src/aggregate.rs:191-197 | State, event and answer after an invalidation. |
| DecisionEngine.DecisionAggregate.DrainEvents | crates/decision-engine/src/aggregate.rs:203-205 | Hands out all pending events once and changes nothing else. |
| DecisionEngine.EventsAreConserved | crates/decision-engine/src/aggregate.rs:153-205 | For every run of commands and drains, the drained pieces and the pending events are the events at the start and all events emitted, in order. |
| DecisionEngine.HistoryReplays | crates/decision-engine/src/events.rs:16-36 | The events of a run are honest about the state they were emitted in, and replaying them gives status and outcome count at the end. |
| DecisionEngine.StatusEventsDescend | crates/decision-engine/src/status.rs:37-51 | Every status event of an honest log costs height in the lifecycle. |
| DecisionEngine.LifeOfADecision | crates/decision-engine/src/aggregate.rs:119-205 | From a proposal: one log, opening with the proposal, replaying to the current state, with at most three further status events. |
| DecisionEngine.TerminalStatusIsKept | crates/decision-engine/src/status.rs:37-51 | No run of commands changes a status that no transition leaves, and none emits a status event from it. |
| DecisionEngine.InvalidateAcceptedIff | crates/decision-engine/src/status.rs:37-51 | Invalidation is accepted exactly from proposed or executing; an approved decision refuses it. |
| DecisionEngine.RunsStaySound | crates/decision-engine/src/aggregate.rs:183-188 | Confidence stays in range, a completed aggregate has an outcome, identity and creation time stay, outcomes only grow. |
| DecisionEngine.CreatedIsExecuting | crates/application/src/services/decision.rs:146-154 | The create walk ends executing, with its three events in order. |
| DecisionStore.D1Store.NextDecisionId | crates/store/src/d1/decision/crud.rs:17-27 | The answer is one above every id, and 1 on an empty table. |
| DecisionStore.D1Store.UpsertDecision | crates/store/src/d1/decision/crud.rs:54-94 | Insert or update in place with the first `created_at`; a failure writes nothing. |
| DecisionStore.D1Store.TryInsertDecision | crates/domain/src/traits/decision_upsert.rs:28-42 | True exactly when the id was free, and then only that row is added; nothing is written otherwise. |
| DecisionStore.D1Store.ListDecisions | crates/store/src/d1/decision/query.rs:26-40 | The newest rows up to the limit, each once, newest first. |
| DecisionStore.D1Store.SaveOutcome | crates/store/src/d1/decision/outcome.rs:15-38 | One fact is appended, with the given time or the clock. |
| DecisionStore.D1Store.ListOutcomes | crates/store/src/d1/decision/outcome.rs:41-56 | The facts of the decision, all of them, newest observation first. |
| DecisionStore.StatusNamesRoundTrip | crates/infrastructure/src/decision_repository.rs:28-49 | Every status survives its stored name. |
| DecisionStore.StoredNamesRoundTripIff | crates/infrastructure/src/decision_repository.rs:39-49 | A stored name survives exactly when it is one of the six that are written. |
| DecisionStore.OtherNamesRead | crates/infrastructure/src/decision_repository.rs:39-49 | Of the names that are never written one old name reads as invalidated and every other as a draft. |
| DecisionStore.AllowlistMeansLiveOrDone | crates/context-engine/src/planner.rs:9-15 | The evidence allowlist selects exactly executing and completed decisions. |
| DecisionStore.RowRoundTrip | crates/infrastructure/src/decision_repository.rs:57-81 | An aggregate written to a row and read back loses its pending events and nothing else. |
| DecisionStore.FindAfterSave | crates/infrastructure/src/decision_repository.rs:113-155 | After a save the id yields the saved aggregate with the first creation time, and no other id changes. |
| DecisionStore.ObservationsOfPermutation | crates/infrastructure/src/decision_repository.rs:90-108 | The hydrated outcomes do not depend, up to order, on the order of the facts. |
| DecisionStore.D1DecisionRepository.Save | crates/infrastructure/src/decision_repository.rs:136-139 | The table after a save is the upsert of the row of the aggregate; failures write nothing and are named. |
| DecisionStore.D1DecisionRepository.SaveNew | crates/infrastructure/src/decision_repository.rs:141-144 | Adds the row or reports the id as taken, never overwriting. |
| DecisionStore.D1DecisionRepository.Find | crates/infrastructure/src/decision_repository.rs:146-155 | None exactly for a missing row; otherwise the row joined with its facts; a malformed id is not found. |
| DecisionService.DecisionService.TryCreate | crates/application/src/services/decision.rs:140-163 | One attempt amid other requests adds its own new row, or none, and a refusal names a row that came in meanwhile. |
| DecisionService.DecisionService.Create | crates/application/src/services/decision.rs:138-166 | Adds one new row or none, with the row, the aggregate and the three events stated field by field; at most four offers; a conflict only after four foreign rows came in, an error of the infrastructure only when a store call failed, so a valid proposal succeeds otherwise. |
| DecisionService.DecisionService.Transition | crates/application/src/services/decision.rs:170-203 | A success leaves the row in the status asked for; it writes nothing exactly when the row was in it before, and otherwise moves that row alone and hands out the one event; which status accepts which command; a failure writes nothing and is an error of the infrastructure only when a store call failed. |
| DecisionService.CommandsAreAsked | crates/application/src/services/decision.rs:60-68 | Each command targets the status it is named for, is accepted in exactly the stated statuses, and leaves the stated event. |
| DecisionService.DecisionService.RecordOutcome | crates/application/src/services/decision.rs:213-239 | The fact is written after the load and stays whatever follows; on an executing decision only a failed store call is a failure, that row alone is completed, the aggregate has the observation added, and the two events count the facts on file. |
| DecisionService.RecordedObservations | crates/application/src/services/decision.rs:233-238 | Completing in memory and rereading the facts give the same outcomes up to order, and the same count. |
| DecisionService.ObservationIsReadBackIff | crates/application/src/services/decision.rs:276-284 | The observation in memory is the one reread exactly for a supplied positive time or an agreeing clock; what the reread one holds, field by field. |
| CreateRace.CreatesAreSafe | crates/application/src/services/decision.rs:138-166 | In every interleaving successful creates have different ids that were free before, and rows are the initial ones and one a success. |
| CreateRace.CreatesChangeNoRow | crates/domain/src/traits/decision_upsert.rs:28-42 | In every run a row stays, keeps its creation time, and changes only by a save of that row. |
| CreateRace.IdsStayDense | crates/domain/src/traits/decision_id_source.rs:13-21 | The ids in use stay 1 to n plus the successes: none skipped, none given twice. |
| CreateRace.ConflictNeedsFourOvertakers | crates/application/src/services/decision.rs:139-165 | A conflict needs four other creates that succeeded while it ran, so fewer than five requests never conflict. |
| CreateRace.FiveRequestsCanConflict | crates/application/src/services/decision.rs:139-165 | A run of five requests in which one conflicts: the bound is exact. |
| CreateRace.AttemptIsARun | crates/application/src/services/decision.rs:140-163 | An attempt that nothing disturbs between its id read and its insert is a legal run and succeeds. |
| CreateMisreports.CreatesStaySafe | crates/store/src/d1/decision/crud.rs:105-135 | With inserts that take effect and report a failure or a refusal: successful ids still differ and were free, and every row is an initial one, that of a success, or one not reported. |
| CreateMisreports.NoRowIsOverwritten | crates/store/src/d1/decision/crud.rs:105-135 | No create changes a row that is there, reported or not. |
| CreateMisreports.AccountIsExactIff | crates/store/src/d1/decision/crud.rs:105-135 | The rows are the initial ones and one a success exactly when every insert reports what it did. |
| CreateMisreports.ConflictNeedsFourRows | crates/application/src/services/decision.rs:139-165 | A conflict still needs four rows that came in meanwhile, of other successes or not reported. |
| CreateMisreports.ALoneRequestCanConflict | crates/store/src/d1/decision/crud.rs:105-135 | A run of one request that is denied its own rows, ends in a conflict and leaves four. |
| StaleSaves.CompletedAlwaysHasAFact | crates/application/src/services/decision.rs:170-239 | In every interleaving with stale aggregates and failures a completed row has an outcome fact on file. |
| StaleSaves.SaveFollowsLifecycleIff | crates/application/src/services/decision.rs:200 | A save follows the lifecycle exactly when the row has the status that was read, or it invalidates a proposed or executing row. |
| StaleSaves.FreshSavesFollowTheLifecycle | crates/decision-engine/src/status.rs:37-51 | When no save is stale, each save of a row costs lifecycle height: at most four, none of a terminal row. |
| StaleSaves.AStaleSaveUndoesACompletion | crates/infrastructure/src/decision_repository.rs:136-139 | A run in which a row goes from completed to invalidated. |
| StaleSaves.TransitionIsARun | crates/application/src/services/decision.rs:170-203 | An undisturbed transition, as the service states it, is a legal run with the same rows and facts. |
| StaleSaves.RecordOutcomeIsARun | crates/application/src/services/decision.rs:213-239 | An undisturbed recording of an outcome is one, too, with the fact on file and the completed row. |
| EventKeys.DecomposeTs | crates/event-store/src/lib.rs:162-191 | The loops return the civil date, with the casts to i32 and u32, for every i64. |
| EventKeys.DateIsExactIff | crates/event-store/src/lib.rs:162-195 | The date is valid with the day number secs / 86400 exactly for non-negative times whose year fits an i32. |
| EventKeys.DecomposeInvertsDayNumber | crates/event-store/src/lib.rs:162-195 | Any second of a valid date decomposes to that date. |
| EventKeys.SameDateIffSameDay | crates/event-store/src/lib.rs:162-195 | Two times give one date exactly when they fall on one UTC day. |
| EventKeys.DayNumberIsClosedForm | crates/event-store/src/lib.rs:193-195 | Counting years by the leap rule is the closed Gregorian formula with its 400-year cycle. |
| EventKeys.Event | crates/event-store/src/lib.rs:200-203 | The computed key is the specified one. |
| EventKeys.KeyIsReadBack | crates/event-store/src/lib.rs:200-203 | The key of any second of any date holds the type, then year, month and day that parse back to the date in four, two and two digits, then the id. |
| EventKeys.KeyInjective | crates/event-store/src/lib.rs:200-203 | Equal keys of slash-free types have equal type, id and date, hence equal day. |
| EventKeys.SlashFreeIdsMakeKeysInjective | crates/event-store/src/lib.rs:200-203 | Equal keys of slash-free ids, as all producers write them, have equal type, id and date, whatever the types hold. |
| EventKeys.TypesShareAKeyIff | crates/event-store/src/lib.rs:200-203 | Two different types share a key, for some times and ids, exactly when one goes on after a slash with a date; by the row above an id then holds a slash, too. |
| EventKeys.KeysSortByDay | crates/event-store/src/lib.rs:200-203 | To the end of 9999 keys of one type on different days compare as the days do, whatever the ids. |
| EventKeys.EarlierKeyComesFirstIff | crates/event-store/src/lib.rs:200-203 | For any two days and ids: the earlier key comes first exactly when its year is at most the later year cut to as many digits. |
| EventKeys.KeysSortUntilIff | crates/event-store/src/lib.rs:200-203 | All keys of one type on different days below a bound are in the order of the days exactly when the bound is at most the first second of 10000. |
| EventIds.SeqForAggregate | crates/infrastructure/src/event_log.rs:31-38 | The byte loop computes the specified hash. |
| EventIds.SeedOfOneByte | crates/infrastructure/src/event_log.rs:31-38 | The seed of every one-byte id from the 64-bit offset basis and prime as numbers, and the seed of the empty id. |
| EventIds.XorBits | crates/infrastructure/src/event_log.rs:34 | A bit of the exclusive or is set exactly where the two differ. |
| EventIds.AbsorbIsABijection | crates/infrastructure/src/event_log.rs:33-36 | Each xor-and-multiply step has an inverse on 64-bit states. |
| EventIds.CommonEndingCancels | crates/infrastructure/src/event_log.rs:31-38 | A common ending neither makes nor breaks a collision of seeds. |
| EventIds.OneByteApart | crates/infrastructure/src/event_log.rs:31-38 | Ids that differ in one byte at most share a seed exactly when they are equal. |
| EventIds.DifferAtOnePosition | crates/infrastructure/src/event_log.rs:27-38 | Ids of one length that differ in one position have different seeds. |
| EventIds.FormatIdIsReadBack | crates/event-store/src/lib.rs:206-208 | Behind the prefix the id holds the second and then the number, both read back from their decimal text. |
| EventIds.FormatIdInjective | crates/event-store/src/lib.rs:206-208 | Event ids are equal exactly when second and seed are. |
| EventIds.EventIdsCollideIff | crates/infrastructure/src/event_log.rs:42-47 | Two events share an id exactly when they share the second and the seed. |
| EventStream.EventBackend.AppendEvent | crates/event-store/src/r2_backend.rs:27-54 | Success writes the entry and the row, stated field by field, unless the id is indexed; a failure is one failed call and leaves the index alone and the outbox with or without the entry; either way what happened is a legal run of the step system. |
| EventStream.EventBackend.FindEventKeys | crates/store/src/d1/event_archive.rs:44-66 | The rows of the aggregate, newest first, cut at the limit. |
| EventStream.EventBackend.LoadEvents | crates/event-store/src/r2_backend.rs:56-92 | The result is fetched from those rows, misses skipped, sorted and cut; an object is passed over unread only for a failed read of its own. |
| EventStream.RunKeepsInv | crates/event-store/src/r2_backend.rs:27-54 | In every run: index rows belong to outbox entries with their key and payload, event objects are appended payloads, archived entries have objects, finished appends are indexed, nothing is marked failed. |
| EventStream.GivenUpIff | crates/store/src/d1/outbox.rs:69-81 | However often an entry fails: it is given up, and a retry counted, exactly when three retries were counted before. |
| EventStream.LoadsAreSound | crates/event-store/src/r2_backend.rs:56-92 | Every load returns appended events only, at most the limit, newest first, no id twice. |
| EventStream.SameSecondIsNotLoadedTwice | crates/infrastructure/src/event_log.rs:27-47 | Two loaded events of one aggregate and second are one event. |
| EventStream.LoadsKeepIndexOrder | crates/event-store/src/r2_backend.rs:71-91 | With unique ids: only events of the asked aggregate, in index order; the sort moves nothing and the cut drops nothing. |
| EventStream.LoadsFollowTheIndex | crates/event-store/src/r2_backend.rs:62-91 | Once all is archived: one event a row of the answer, in its order. |
| EventStream.FailedReadsCostTheirEvents | crates/event-store/src/r2_backend.rs:71-83 | Once all is archived, whichever reads fail: each costs the load the event of its row, and no other event is lost. |
| EventStream.LoadsAreExact | crates/event-store/src/r2_backend.rs:56-92 | Once all is archived: each finished append is returned, or the limit is reached by events at least as new. |
| EventStream.LifeIsAcceptable | crates/event-store/src/r2_backend.rs:27-92 | The assumptions of the load theorems hold together: a legal run from the empty stream with a finished append, unique ids and all archived. |
| EventStream.RunIndexesIff | crates/event-store/src/r2_backend.rs:27-54 | After any run an id is indexed exactly when it was before, or its append finished, or the worker indexed an entry that carries it. |
| EventStream.FoundIff | crates/event-store/src/r2_backend.rs:62-83 | With unique ids and an answer that is not cut, an event is found exactly when it is indexed and its object is stored. |
| EventStream.LoadedIff | crates/worker-entry/src/jobs/archive.rs:85-108 | Once all is archived an appended event is loaded exactly when its append finished or the worker's own index insert for it succeeded somewhere in the run. |
| EventLoads.ObjectIsLastWritten | crates/worker-entry/src/jobs/archive.rs:101-108 | After any run the object under a key is the last payload written under it. |
| EventLoads.IndexHoldsFirstRows | crates/store/src/d1/event_archive.rs:23-27 | After any run a row is indexed exactly when it was, or was the first one offered for an id that had none. |
| EventLoads.LoadedIsLastWrittenIff | crates/event-store/src/r2_backend.rs:56-92 | Without any assumption on ids: an uncut load returns an event exactly when it was the last one written under the key of the first row of some id of the aggregate. |
| EventStream.AppendArchiveLoad | crates/event-store/src/r2_backend.rs:27-92 | The run that appends one event to an empty stream and archives it: every load returns that event alone. The general statement is `Archiver.SoundEventsAreLoaded`. |
| EventStream.ArchivedButNeverIndexed | crates/worker-entry/src/jobs/archive.rs:85-108 | A run after which everything is archived and an appended event has no index row. |
| EventStream.KeysNameEvents | crates/event-store/src/lib.rs:200-203 | Equal keys of events with slash-free ids have equal type, date and id. |
| Archiver.ArchiveWorker.DrainOutbox | crates/store/src/d1/outbox.rs:38-54 | Exactly the oldest pending entries up to the limit, in order. |
| Archiver.ArchiveWorker.HandleEventOutbox | crates/worker-entry/src/jobs/archive.rs:75-109 | The whole new stream for each outcome of the index insert and the object write, each missing one a failed call; an undecodable payload changes nothing. |
| Archiver.ArchiveWorker.ArchiveOutbox | crates/worker-entry/src/jobs/archive.rs:33-69 | The whole new stream, index, objects with payloads and statuses, as at most a hundred drained entries handled in order, each by the luck of its store calls; each bad luck is one failed call. |
| Archiver.WorkerRunIsARun | crates/worker-entry/src/jobs/archive.rs:33-109 | What a run of the worker does is a legal run of the step system, whatever fails. |
| Archiver.WorkerRunIsARound | crates/worker-entry/src/jobs/archive.rs:33-69 | And a round of the queue: drained entries are archived or stay, no other is touched; a clean round when no call fails. |
| Archiver.WorkerRunIsAShift | crates/worker-entry/src/jobs/archive.rs:33-109 | What the worker class does without a failing call is a shift: its steps in order, with steps of producers before, between and after any two. |
| Archiver.CleanRoundsShortenTheQueue | crates/worker-entry/src/jobs/archive.rs:33-69 | A clean run frees at least the slots no poison takes, in every prefix of the outbox. |
| Archiver.ArchivedInTime | crates/worker-entry/src/jobs/archive.rs:16-72 | How many clean runs are enough for an entry with fewer than `limit` poison entries ahead. |
| Archiver.ArchivedEventuallyIff | crates/worker-entry/src/jobs/archive.rs:16-72 | A sound entry is archived in the end exactly when fewer than `limit` poison entries are ahead of it. |
| Archiver.SoundEventsAreLoaded | crates/worker-entry/src/jobs/archive.rs:16-109 | End to end: an event with fewer than `limit` poison entries ahead is loaded after the clean runs its place takes, even when its append stopped before the index insert, and whatever is appended meanwhile, between any two calls of the worker too. |
| Archiver.StarvedForever | crates/store/src/d1/outbox.rs:69-81 | Behind `limit` poison entries an entry stays as it is, whatever the runs do. |
| Archiver.ReflectionsStarveTheStream | crates/intelligence/reflection-engine/src/service.rs:190-207 | A hundred generated reflections stop the archive for everything appended later. |
| Evidence.MergeIsTop | crates/infrastructure/src/context_repository.rs:92-97 | Sort and cut list the newest of the given rows, ties by id. |
| Evidence.TopIsUnique | crates/infrastructure/src/context_repository.rs:87-91 | There is one such list. |
| Evidence.TopComesFirst | crates/infrastructure/src/context_repository.rs:92-97 | Each listed row is newer than every later and every omitted row, or as new with the larger id. |
| Evidence.MergeIsExactIff | crates/infrastructure/src/context_repository.rs:29-40 | The merge is the global query for every answer the database may give exactly when each globally selected row is within the limit of its own status, ties included. |
| Evidence.EvidenceIsReproducibleIff | crates/infrastructure/src/context_repository.rs:87-91 | The evidence is the same on every call under the same condition, and only then. |
| Evidence.TieBrokenAnswers | crates/infrastructure/src/context_repository.rs:29-40 | Queries that break ties by id always give the global answer. |
| Evidence.MergeIsWeaklyTop | crates/infrastructure/src/context_repository.rs:29-40 | For every answer: enough rows, allowlisted, ordered, and no row left out is strictly newer. |
| Evidence.MergeTimesAreExact | crates/infrastructure/src/context_repository.rs:29-40 | For every answer the creation times are those of the global query, position by position. |
| Evidence.TiesCanLoseTheNewestRow | crates/store/src/d1/decision/query.rs:14-17 | A table and an answer for which the merge misses a row of the global list. |
| Evidence.NoRowTwiceIff | crates/infrastructure/src/context_repository.rs:36-40 | For every table and answer the merge lists no row twice, exactly when no status is asked twice or the limit is below two. |
| ContextEngine.ListDecisions | crates/infrastructure/src/context_repository.rs:29-51 | The loop fails exactly when a query fails; otherwise the merge of all answers: weakly the top, exact in its times, and the global answer when no tie is cut. |
| ContextEngine.EvidenceFor | crates/context-engine/src/retriever.rs:5-41 | The merge filtered by domain, in merge order, ranked without change: a row gives an item exactly when no domain is asked for, its type holds it, or its lowercased title holds it lowercased; the item shows the row. An empty allowlist asks nothing. |
| ContextEngine.RetrievedRowsComeFromRows | crates/context-engine/src/retriever.rs:14-39 | Exactly the rows of the domain are kept, with relevance zero. |
| ContextEngine.RetrievedAreFiltered | crates/context-engine/src/retriever.rs:14-39 | The items are those of the rows about the domain, in their order, each with the id, title, type, status and confidence of its row. |
| ContextEngine.RankIsStable | crates/context-engine/src/ranking.rs:29-34 | The rank puts higher relevance first, loses nothing and keeps the order of equal scores. |
| ContextEngine.RankKeepsEqualScores | crates/context-engine/src/ranking.rs:29-34 | Items of one score stay as they are. |
| ContextEngine.PlannedEvidenceIsExactIff | crates/context-engine/src/planner.rs:5-15 | The planned query asks for active and completed decisions of the domain, ten of them; the exact condition under which its evidence is the global top ten. |
| StableSort.SortIsASort | crates/event-store/src/r2_backend.rs:89 | The library sort permutes and orders. |
| StableSort.SortIsStable | crates/context-engine/src/ranking.rs:29-34 | Elements of one key keep their order. |
| StableSort.SortOrder | crates/reasoning-framework/src/calibration.rs:53-54 | The sort lists every position once, by larger key, and by position where keys are equal. |
| TagSearch.EscapeLikeIsOnePass | crates/store/src/lib.rs:40-44 | The three replacements in their order are one single-pass escape. |
| TagSearch.OrderMattersIff | crates/store/src/lib.rs:40-44 | With the backslash replaced last the result differs exactly when a wildcard occurs. |
| TagSearch.PatternMatchesIff | crates/store/src/lib.rs:46-50 | A text matches the pattern exactly when the quoted tag occurs in it, for every tag and character comparison. |
| TagSearch.OneCharacterMatchesIff | crates/store/src/lib.rs:38-44 | Unescaped, an underscore matches any one character; an escaped character matches itself. That is what the escape is for. |
| TagSearch.TagSearchIff | crates/store/src/lib.rs:42-50 | With the backslash as the escape, for every tag and every stored list, quotes, backslashes and control characters included: the pattern matches exactly when the pieces of the tag between quotes run through the pieces of the stored text. |
| TagSearch.QuoteFreeSearchIff | crates/store/src/lib.rs:42-50 | The pattern of a quote-free tag matches exactly when the tag is a piece between quotes of a stored tag as it is written, or the comma between two tags. |
| TagSearch.PlainSearchIff | crates/store/src/lib.rs:42-50 | The pattern of a plain tag matches any stored list exactly when the tag is listed, or ends a listed tag behind a quote, or is the comma between two tags. |
| TagSearch.ExactTagSearchIff | crates/store/src/lib.rs:42-50 | The same for exact comparison, for any stored tags. |
| TagSearch.SqliteTagSearchIff | crates/store/src/lib.rs:42-50 | The same with ASCII letters compared without case, as SQLite does. |
| TagSearch.LettersFold | crates/store/src/lib.rs:42-50 | The comparison without case maps the 26 capital letters to the small ones and changes nothing else. |
| TagSearch.JsonTextIsReadBack | crates/store/src/lib.rs:46-50 | Every tag is read back from the text in which it is stored. |
| TagSearch.StoredTagIsFoundIff | crates/store/src/lib.rs:46-50 | For every tag: its pattern matches the list of it alone exactly when it holds no quote, backslash or control character. |
| TagSearch.QuoteRunsAcrossTags | crates/store/src/lib.rs:46-50 | For any two plain tags stored side by side there is a searched text with quotes that matches across them. |
| ArticleSearch.QuotedTextArrives | crates/store/src/d1/article.rs:266-267 | Doubling the quotes carries every text through an SQL literal unchanged. |
| ArticleSearch.EscapesSent | crates/store/src/d1/article.rs:213 | The compiled literal sends an empty escape in the query by tag and one backslash in the related query. |
| ArticleSearch.ByTagSucceedsIff | crates/store/src/d1/article.rs:205-215 | For every tag, table, comparison, limit and offset: the query succeeds exactly when the table is empty or the limit zero, and then finds nothing. |
| ArticleSearch.ListedTagIsAnError | crates/store/src/d1/article.rs:205-215 | An article that lists the tag, whose text the pattern matches, and the query for the tag is an error. |
| ArticleSearch.NeverFailsIff | crates/store/src/lib.rs:42-50 | Such a query works on all tables and patterns exactly when its escape is one character. |
| ArticleSearch.IntendedSearchIff | crates/store/src/lib.rs:42-50 | With the backslash as escape an uncut page holds exactly the articles whose stored text the pattern matches. |
| ArticleSearch.RelatedPatternMatchesIff | crates/store/src/d1/article.rs:264-268 | The related pattern matches exactly the texts that hold a quote and then the tag, for every tag and comparison. |
| ArticleSearch.RelatedMatchesIff | crates/store/src/d1/article.rs:264-268 | For every tag and stored list: exactly when the pieces of the tag run in the stored pieces, the last one as a beginning. |
| ArticleSearch.QuoteFreeRelatedIff | crates/store/src/d1/article.rs:264-268 | A quote-free tag matches exactly when a stored tag, or a part of one behind a quote, starts with it, or the punctuation does. |
| ArticleSearch.RelatedTagStartsItIff | crates/store/src/d1/article.rs:264-268 | An article with one plain tag matches exactly the tags that tag starts with, besides the closing bracket. |
| ArticleSearch.RelatedOrderIsNoSortList | crates/store/src/d1/article.rs:270-274 | For any number of tags the order that is sent is no sort list, and with the direction outside the parentheses it is one. |
| ArticleSearch.RelatedFailsIff | crates/store/src/d1/article.rs:244-286 | The call fails exactly when the tags cannot be read or there are some; otherwise it returns nothing. |
| TagNormalizer.NormalizeTags | crates/ai-pipeline/src/tag_normalizer.rs:55-62 | Strictly in byte order, and exactly the texts that are the canonical form of some given tag that is more than white space. |
| TagNormalizer.NormalizedIsTheSet | crates/ai-pipeline/src/tag_normalizer.rs:55-62 | The result lists the canonical forms of the non-empty tags, each once, in byte order. |
| TagNormalizer.TrimIsTheCore | crates/ai-pipeline/src/tag_normalizer.rs:55-57 | Trimming gives the one part of a text that is white space neither at its start nor at its end and has only white space around it; it is empty exactly for white space alone. |
| TagNormalizer.FormIff | crates/ai-pipeline/src/tag_normalizer.rs:64-74 | A canonical form is the value of the first table entry with the lowercased core as its key, or the core itself when there is none. |
| TagNormalizer.SameFormsSameResult | crates/ai-pipeline/src/tag_normalizer.rs:55-62 | The result depends on the set of canonical forms only. |
| TagNormalizer.NormalizeIsIdempotent | crates/ai-pipeline/src/tag_normalizer.rs:53-62 | Normalizing twice is normalizing once. |
| TagNormalizer.CanonicalIsIdempotent | crates/ai-pipeline/src/tag_normalizer.rs:64-74 | A canonical form is its own canonical form, for the whole table. |
| TagNormalizer.CaseVariantsMergeIff | crates/ai-pipeline/src/tag_normalizer.rs:64-74 | Spellings that differ in case only are merged exactly when the table knows them. |
| Reflection.D1ReflectionRepository.Create | crates/infrastructure/src/reflection_repository.rs:39-81 | What the lookup saw in which table, and what the write did to the rows as other attempts had left them by then: a new row with a fresh id, or the row seen open set to generating with its retry count and lease kept, or a refusal that changes nothing; refused only for a tracked decision or a failed call. |
| Reflection.D1ReflectionRepository.UpdateRow | crates/store/src/d1/reflection/crud.rs:33-87 | The one row with the id gets the status and the fields that are given; its other fields, a missing id and all other rows stay. |
| Reflection.D1ReflectionRepository.MarkFailed | crates/intelligence/reflection-engine/src/service.rs:236-256 | Looks up, then writes by id while others act in between: one more than the count seen, or zero after a failed lookup, whatever the row holds by then. |
| Reflection.CreateIsAStep | crates/infrastructure/src/reflection_repository.rs:39-81 | What the contract of an undisturbed create says is one step of the sequential model on the table. |
| Reflection.UpdatesAreSteps | crates/intelligence/reflection-engine/src/service.rs:97-188 | So are lease, result, giving up, failure and recovery, as updates of the row. |
| Reflection.MarkFailedIsAStep | crates/intelligence/reflection-engine/src/service.rs:236-256 | So is an undisturbed failure report, with and without a lookup. |
| Reflection.CapHoldsOfTheTable | crates/infrastructure/src/reflection_repository.rs:28-33 | Along any tables that such steps lead through, one attempt at a time, at most three creates change the table, and three more for each failure after a failed lookup. |
| Reflection.LeaseRunsOutIff | crates/worker-entry/src/jobs/reflection.rs:64-84 | A leased row is stale exactly when more than 900 seconds have passed since the lease. |
| ReflectionRace.CreateMovesAreAStep | crates/infrastructure/src/reflection_repository.rs:39-81 | Begin, lookup and write of a create with nothing in between are that step, whatever else runs. |
| ReflectionRace.FailureMovesAreAStep | crates/intelligence/reflection-engine/src/service.rs:236-256 | So are lookup and write of a failure report. |
| ReflectionRace.WritesAreSteps | crates/intelligence/reflection-engine/src/service.rs:97-188 | So are the lease, the result and the giving up of an attempt. |
| ReflectionRace.RecoveryMovesAreAStep | crates/worker-entry/src/jobs/reflection.rs:64-84 | So are the read and the write of a recovery. |
| ReflectionRace.OneRowADecision | crates/infrastructure/src/reflection_repository.rs:40-81 | In every interleaving of reads and writes no decision gets a second row, no row goes or changes its decision, and working attempts share a row exactly when they share the decision. |
| ReflectionRace.GeneratedIsFinalIff | crates/worker-entry/src/jobs/reflection.rs:64-84 | In every interleaving a generated row stays generated exactly when no attempt works on it, none holds a lookup that saw it open, and no recovery holds it as it was when stale. |
| ReflectionRace.SettledStaysIff | crates/store/src/d1/reflection/crud.rs:157-174 | Under the same condition, and only then, a row that is generated or hangs without a lease stays as it is in every field modelled. |
| ReflectionRace.LateRecoveryUndoesAReflection | crates/worker-entry/src/jobs/reflection.rs:64-84 | A run after which the row is generated and every attempt over, and a recovery read earlier still fails it. |
| ReflectionRace.FirstAttemptCanLockOut | crates/intelligence/reflection-engine/src/service.rs:97-131 | A run of one attempt that leaves a row which stays generating for ever, in every continuation. |
| ReflectionRace.BothReopenIff | crates/infrastructure/src/reflection_repository.rs:48-71 | By the steps of creates alone two of them can both re-open one row exactly when each has seen it open, is already on it, or has still to look while it is open. |
| Reflection.CreatesAreBounded | crates/infrastructure/src/reflection_repository.rs:28-33 | In sequential runs at most three creates succeed, and three more for each failure recorded after a failed lookup. |
| Reflection.BoundIsReached | crates/intelligence/reflection-engine/src/service.rs:236-238 | For every k a sequential run with exactly k such failures has 3 + 3k successful creates. |
| Reflection.CapHoldsIff | crates/infrastructure/src/reflection_repository.rs:28-33 | All sequential runs with at most k such failures stay within n creates exactly when n is at least 3 + 3k; three is the cap exactly for k = 0. |
| Reflection.AnotherAttemptIff | crates/worker-entry/src/jobs/reflection.rs:64-84 | A decision at rest gets another attempt exactly with no row, a failed row under the cap, or a leased hanging row with two retries left. |
| Reflection.FirstAttemptEnds | crates/intelligence/reflection-engine/src/service.rs:97-188 | Which ends of an attempt show on the row and which can be tried again. |
| Reflection.OverlapUndoesAReflection | crates/intelligence/reflection-engine/src/service.rs:104-188 | With overlapping attempts a generated reflection can turn into a failed one. |
| Calibration.CalibrationEngine.RecordOutcome | crates/reasoning-framework/src/calibration.rs:28-47 | The loop applies the impacts in order; it fails exactly when a store call fails, and then the impacts before that call stay applied. |
| Calibration.CalibrationEngine.TopFrameworks | crates/reasoning-framework/src/calibration.rs:50-56 | The ids of exactly the frameworks used often enough, higher calibration first, in the order listed where it is equal. |
| Calibration.CallsArePerFramework | crates/reasoning-framework/src/calibration.rs:33-45 | Any calls reach each framework through its own uses alone; unknown ids add nothing and repeated ids repeat. |
| Calibration.TotalsAreKept | crates/reasoning-framework/src/calibration.rs:36-41 | Mean times count is the earlier total plus everything recorded. |
| Calibration.FreshFrameworksAreBatchMeans | crates/reasoning-framework/src/calibration.rs:28-47 | From an unused framework: calibration is the number of achieved uses over the number of uses, the delta average is the mean. |
| Calibration.CalibrationStaysInUnit | crates/reasoning-framework/src/calibration.rs:38-39 | Calibration stays in [0,1]. |
| Calibration.OrderDoesNotMatter | crates/reasoning-framework/src/calibration.rs:28-47 | The same uses in any order and any split into calls give the same framework. |
| Calibration.UsedEnoughKeeps | crates/reasoning-framework/src/calibration.rs:52 | The filter keeps exactly the frameworks used often enough, in the order they came. |
| Calibration.TopIsARanking | crates/reasoning-framework/src/calibration.rs:50-56 | The stable sort of the kept frameworks is that ranking. |
| CalibrationRace.AllCountedIff | crates/reasoning-framework/src/calibration.rs:33-45 | Over every interleaving: the count and the means are those of all uses written exactly when no update came between the find and the update of another; then all totals are kept. |
| CalibrationRace.StoredMeansAreOfUses | crates/reasoning-framework/src/calibration.rs:33-45 | In every interleaving the stored values are the means over some of the uses written, and calibration stays in [0,1]. |
| Graph.GraphProjectionService.BuildDecisionGraph | crates/application/src/graph.rs:119-212 | The built graph is that of the newest decisions and of the outcomes that could be loaded; no more decisions go without theirs than calls failed. |
| Graph.GraphProjectionService.Expand | crates/application/src/graph.rs:238-308 | A decision node expands to its node, outcomes and signal edge, with all its outcomes unless a call failed; everything else expands to nothing. |
| Graph.GraphIsClosed | crates/application/src/graph.rs:139-203 | Both ends of every edge are nodes. |
| Graph.GraphPointsDown | crates/application/src/graph.rs:155-201 | Edges lead from signals to decisions and from decisions to outcomes, with the matching type. |
| Graph.GraphIsAcyclic | crates/application/src/graph.rs:119-212 | No walk is longer than two edges and none returns to its start. |
| Graph.GraphCounts | crates/application/src/graph.rs:139-203 | Edges are linked decisions plus outcomes; nodes are those plus decisions. |
| Graph.DecisionStandsInGraph | crates/application/src/graph.rs:139-176 | Each decision stands in its place with its id, title, confidence, status and link, its signal behind it with number and link, and so does the edge from the signal. |
| Graph.OutcomeStandsInGraph | crates/application/src/graph.rs:178-203 | So does each outcome, with its type and observation, and the edge from its decision: behind all decisions, decision by decision and in the order of its list. |
| Graph.EntityIdOfDecision | crates/application/src/graph.rs:242-247 | A decision node id leads back to its decision exactly for a positive id. |
| Graph.EntityIdIs | crates/application/src/graph.rs:242-247 | For any node id: the number between the first dash and the next, and 0 without a dash or a number. |
| Graph.ExpansionStands | crates/application/src/graph.rs:238-308 | An expansion by position: the decision, its outcomes in order, their edges, and the edge of the signal. |
| Graph.ExpansionIsClosedIff | crates/application/src/graph.rs:294-301 | An expansion alone is closed exactly when the decision has no signal. |
| Graph.ExpansionIsInTheGraph | crates/application/src/graph.rs:119-308 | On one store state the expansion of a listed decision is part of the graph. |

## Left out

- CreateRace.CreatesAreSafe: every insert reports what it did, as the contract of `try_insert` says; what holds without that is in `CreateMisreports`.
- DecisionStore.D1Store.NextDecisionId: at the largest i64 the model answers with a failure; SQLite's arithmetic past that value is not modelled, nor is the passage of ids through JavaScript numbers.
- Reflection.CapHoldsIff: counts creates in sequential runs, where each create, failure and recovery is whole; overlapping attempts are covered by `ReflectionRace`.
- ArticleSearch.RelatedFailsIff: what the binding makes of the tags column is a parameter, and the SQL grammar is that of the sort list alone.
- ArticleSearch.EscapesSent: of the compiler's escapes only those that stand for the character itself are modelled; the two `ESCAPE` literals hold no other.
- The storage class of columns: ids of aggregates are texts that are no numbers.
- Archiver.ArchivedEventuallyIff: the drain order is the insertion order, which is that of `created_at` while the database clock does not go back.
- StaleSaves.FreshSavesFollowTheLifecycle: freshness compares the status of the row, not its other columns; a stale save may also overwrite those.
- EventStream.LoadsAreExact: assumes distinct events have distinct ids and ids without slashes; what holds without that is `EventStream.LoadsAreSound` and `EventLoads.LoadedIsLastWrittenIff`.
- Rounding and NaN of `f64`, and `effective_confidence`.
- Encoders and decoders of JSON: encoding and decoding are an inverse pair, and a text that does not decode stands for itself.
- Full Unicode: lowercasing and white space are parameters with the few facts the proofs use.
- HTTP routes, bindings, queues, clocks and model calls; the artifact registry; memory promotion; trigger rules and framework selection; content policy.
- `find_by_signal` and `list` of the decision repository, and evaluations: mappings of the same kind as `find` and a plain insert.
- Node fields of the graph that the code always leaves empty, and that decisions sharing a signal repeat its node.
- The lowercase text of a verdict in `OutcomeAttached`: the verdict itself is kept.
