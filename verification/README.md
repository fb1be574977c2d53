# Verified model of the school platform's event relay, grading pipeline and curriculum rules

The platform keeps three promises that no single function body shows:

* **The outbox relay** (`app/events`) dispatches stored events, retries with exponential back-off, uses up at most
  three attempts besides those a death interrupted, and stays consistent when relays die at any write; without such
  deaths a dispatched event has been delivered to every consumer exactly once.
* **The grading pipeline** (`app/grading`) lets teachers save drafts, submit each learner's mark once, correct marks
  through a review workflow that leaves a chain of hashes, and compile marks into snapshots that act as a cache.
* **The curriculum rules** (`app/curriculum`, and the binding checks in `app/grading`) compare curriculum snapshots,
  govern publication and adoption, and freeze the context of an assessment once grading has begun.

Each is a state machine whose steps are the program's transactions (for the relay: its single writes), and the main
results quantify over all runs, interleavings and inputs. Beside each machine stands the imperative service as the
program writes it, with its loops and updated tables; the contracts of its methods are the steps of the machine.

| files | contents |
|---|---|
| `Options`, `Sorting`, `Text` | options; the contract of a stable sort; string order, trimming, sorted listings of sets |
| `EventModel`, `Retry`, `Planner` | tables of the outbox; retry policy and back-off; selection of a batch |
| `Outbox`, `Relays`, `RelayRuns` | one write of a relay; any number of relays, deaths and time; properties of all runs |
| `RelayService` | the relay as imperative code over the tables, each of its calls shown to be one of those runs |
| `VisitLaws` | what one visit does to an event, told by what the handlers do |
| `EventNames`, `NameLaws` | printing and parsing of versioned event names; accepted names character by character |
| `Marks`, `Completion`, `Compilation` | row validation, component summaries, percentages, missing marks, snapshots |
| `EntryLaws`, `CompilationLaws` | which rows are accepted and what is stored; what a compilation finds, counts and shows |
| `Gradebook`, `CommandLaws` | the grading commands as a state machine; when each is accepted and what it writes |
| `SubmissionProofs`, `DraftProofs`, `CorrectionPaths`, `GradeHistory`, `SubmittedMarks`, `CacheProofs` | properties of all its runs |
| `GradingService` | the grading commands as imperative code over the tables |
| `CurriculumDiff`, `DiffLaws` | the diff of two curriculum snapshots; its items read off the nodes |
| `Binding`, `BindingService` | curriculum governance and the frozen context of assessments, as state machine and as code |
| `GuardLaws` | which saves of an assessment are accepted, and what a withdrawal rules out |

The modules whose names end in `Laws` say of each operation when it is accepted and what it leaves, in terms of its
inputs and the tables' own fields, so that each definition of a machine has an independent statement of what it means.

Conventions: scores and percentages are integers in hundredths; hashes are uninterpreted functions; clocks, handler
outcomes and role policies are inputs of a step; a database constraint is a guard of the step it would abort; an
aborted transaction changes nothing. `saves`, `history`, `originals` and `seen` are recorded for the statement of
properties only and no step reads them.

## What turned out not to hold

Each of these is stated with the exact condition under which the program does keep the promise, and a concrete case.

* A dispatched event can have a consumer that is never recorded as processed: exactly when a relay died on the event
  while that consumer was being handled with its row started, because every later visit passes over a started row
  (`RelayRuns.DispatchedMeansDelivered`, `RelayRuns.StartedIsStuck`).  Its handler may never have come to an end
  (`RelayRuns.DeliveryCanBeLost`).
* An eligible event need not be taken up, however old it is: at each poll it is left behind exactly when a batch of
  eligible rows precedes it in the window (`Planner.TakenIffFewAhead`, `Planner.OldBackgroundWorkWaits`).
* A dead-lettered event can lack its dead-letter row: exactly when a relay dies between the two writes
  (`RelayRuns.DeadLettersMatchEvents`, `RelayRuns.DeadLetterCanBeLost`).
* Fresh locks can starve eligible work: exactly when they fill the window of three batches
  (`Planner.SelectionEmptyIffWindowFresh`, `Planner.FullWindowStarves`).
* A save on the version a client read replaces what the client did not see exactly when its draft was closed and
  another one is open, because versions restart with the next draft (`DraftProofs.NoLostUpdate`,
  `DraftProofs.VersionsRestart`).
* Only the last key and payload of a draft are remembered, so a repeated earlier save can put its old rows back
  (`DraftProofs.RepeatedSave`, `DraftProofs.RepeatOverwrites`, `DraftProofs.OldKeysAreForgotten`).
* A submission after a compilation leaves the run current although it misses the new records
  (`CacheProofs.CurrentRunIsFresh`, `CacheProofs.LateSubmissionIsMissed`).
* A score under a key that names no component counts on entry and not at compilation, so an accepted row can block
  compilation (`Marks.AcceptedRowSummary`, `Marks.ForeignKeysCanBlockCompilation`).
* The removal of a curriculum node goes unnoticed exactly when a new node has its key or a later old node with its
  key has another identity, which takes a colon in an entity type or surrounding spaces
  (`CurriculumDiff.RemovalIsReported`, `CurriculumDiff.TidyRemovalIsReported`, `CurriculumDiff.ColonsHideRemovals`).
* An assessment taken back to draft after its binding was locked can be given an unpublished curriculum version and
  reopened on it (`Binding.VouchedUnlessReset`, `Binding.LockedContextIsUnguarded`,
  `Binding.ReopeningBypassesTheGuard`).

## Model

| member | source | states |
|---|---|---|
| Sorting.SortIsTheOnlyOne | app/events/algorithms/priority_ordering.py:36-43 | An ordered list in which elements with equal keys keep their order is the result of `sorted`, and the only one |
| Sorting.SortForgetsOrder | app/grading/algorithms/missing_marks.py:60-69 | Sorting by a key that tells all elements apart does not depend on the input order |
| Retry.RetryDelaySchedule | app/events/algorithms/backoff.py:13-22 | The delay after attempt n is min(60 * 2^(n-1), 480) seconds for every n |
| Planner.PlanDispatchBatch | app/events/algorithms/dispatch_batch_planner.py:22-43 | The loop, sort and slice compute the plan used by all relay properties |
| Planner.SelectionIsTheFrontOfTheWindow | app/events/services.py:262-301 | The locked set is the first min(b, eligible) rows of the window by priority and age, at most 100, never a fresh lock; nothing left out is more urgent, and of equally urgent and old rows the earlier in the window is taken first |
| Planner.TakenIffFewAhead | app/events/algorithms/dispatch_batch_planner.py:31-43 | An eligible row of the window is taken if and only if fewer than a batch of eligible rows precede it |
| Planner.UrgentGoesFirst | app/events/algorithms/priority_ordering.py:15-43 | Of two free rows among the first 3b due ones, if the second is taken so is the first, before it, when it is more urgent (critical, high, normal, low, background) or as urgent and older |
| Planner.BatchIsFullOrAll | app/events/services.py:262-301 | What is locked is due and pending, to be retried, or locked more than 300 s ago; with b the batch size held between 1 and 100 it is b rows of the first 3b due ones, or all such rows among them |
| Planner.OldBackgroundWorkWaits | app/events/algorithms/priority_ordering.py:15-43 | The oldest due row, first in the listing, is left behind for a newer critical one |
| Planner.SelectionEmptyIffWindowFresh | app/events/services.py:267-300 | Nothing is locked if and only if every row of the window is freshly locked |
| Planner.SelectionMakesProgress | app/events/services.py:267-300 | With fewer than 3b fresh locks among the due rows and some eligible row, at least one event is locked |
| Planner.FullWindowStarves | app/events/services.py:270-289 | The bound 3b is tight for every b from 1 to 100: as many fresh locks hide eligible work |
| Outbox.StepKeepsInvariant | app/events/services.py:437-505 | Every single write of a visit keeps attempt numbering, delivery accounting, skip and dead-letter bookkeeping |
| Outbox.InterruptRests | app/events/services.py:448-505 | A relay that dies before any write leaves the event in a state that the next visit can take up |
| Outbox.StepEvolves | app/events/services.py:382-434 | A write never leaves a final status, never undoes a processed consumer and never calls one |
| Relays.EligibleIsFree | app/events/algorithms/dispatch_batch_planner.py:31-43 | An eligible row is held by no relay that is within its lease |
| Relays.FreeRowsAreListed | app/events/services.py:267-289 | Every free row is in the listing of due rows, ordered by due time and age |
| Relays.ApplyKeepsInv | app/events/services.py:262-301 | Write, lock, begin, write of a visit, death and passing time keep the invariant of one dying relay or of many leased ones |
| Relays.StepIsItsEffect | app/events/services.py:262-505 | Each step changes an event in one of five ways and leaves all others alone |
| RelayRuns.NoEventHeldTwice | app/events/services.py:262-301 | Lease safety: with atomic locking and batches finished or abandoned within 300 s, no event is ever still to be processed by two relays |
| RelayRuns.HeldRowsExpire | app/events/algorithms/dispatch_batch_planner.py:31-43 | A row still held is eligible for another relay at a later time if and only if it is due and more than 300 s have passed since it was locked |
| RelayRuns.TwoRelaysCanBeBusy | app/events/services.py:262-301 | A run with leases in which two relays are busy with different events |
| RelayRuns.ExpiredLeasesOverlap | app/events/services.py:262-301 | Past the lease of a run, a second relay may lock an event that the first still holds |
| RelayRuns.EventsEvolve | app/events/services.py:304-379 | No row disappears; dispatched and dead-lettered are final, in every run |
| RelayRuns.HistoryCounts | app/events/services.py:323-379 | The recorded deaths and retries of an event are those of the run |
| RelayRuns.AttemptsAreNumbered | app/events/services.py:304-305 | Attempt numbers are 1, 2, ... without gaps in every state |
| RelayRuns.RetriesAreBounded | app/events/services.py:323-359 | At most two entries into failed_retryable in any run, and at most 3 attempts plus one per death on the event |
| RelayRuns.AttemptsRunOut | app/events/services.py:323-359 | Between visits an event that is not final has used one attempt per retry and death; with three more attempts than deaths it is final |
| RelayRuns.VisitsUseUpAttempts | app/events/services.py:446-454 | The attempts left are never negative, fall by one with every visit and rise only with a death in a visit |
| RelayRuns.DeadLettersMatchEvents | app/events/services.py:362-379 | At most one dead-letter row, only for dead-lettered events, counting all attempts; missing exactly when a relay died between the two writes |
| RelayRuns.DeadLetterCanBeLost | app/events/services.py:362-379 | A run after which the row is missing |
| RelayRuns.DispatchedMeansDelivered | app/events/services.py:460-476 | A consumer registered for a dispatched event is processed, its handler having returned, if and only if no relay died on the event while the consumer was being handled with its row started; without any death each handler returned exactly once |
| RelayRuns.StartedIsStuck | app/events/algorithms/consumer_idempotency.py:14-18 | The row of an allowed consumer that a death left started stays so in every later state, and its handler is never running again |
| RelayRuns.DeliveryCanBeLost | app/events/services.py:470-475 | A run that ends with a dispatched event whose only handler never came to an end |
| RelayRuns.DeliveriesAreBounded | app/events/services.py:460-476 | A handler returns normally at most once more than relays died on the event |
| RelayRuns.RunningIsNotProcessed | app/events/services.py:470-474 | In no state of any run is a handler running whose pair is processed |
| RelayRuns.ProcessedIsNotCalledAgain | app/events/algorithms/consumer_idempotency.py:14-18 | Once processed, a pair stays so: its handler is never running again and no call of it is logged, however calls end |
| RelayRuns.BackoffIsRespected | app/events/services.py:349-359 | After a retryable failure at attempt n nothing happens to the event for min(60 * 2^(n-1), 480) seconds |
| RelayService.StepDescends | app/events/services.py:437-505 | A measure falls with every write, so a visit ends |
| RelayService.DriveIsARun | app/events/services.py:437-505 | The sequential visit is a run of the transition system, a death included when an exception escapes |
| RelayService.VisitsAreARun | app/events/services.py:446-505 | The first k visits of a batch are a run that leaves the rest of the batch, or nothing after an escape |
| RelayService.PollIsARun | app/events/services.py:437-505 | A whole call of the dispatch loop, its locking step included, is a run from any state in which no relay is busy, and ends in such a state |
| RelayService.DriveRests | app/events/services.py:437-505 | A whole visit leaves the event at rest |
| RelayService.DispatchAllRests | app/events/services.py:437-505 | So does a whole batch, for every event, abandoned or not |
| RelayService.DispatchCountIsExact | app/events/services.py:437-505 | The number returned is the number of batch events that are dispatched afterwards |
| VisitLaws.VisitOutcome | app/events/services.py:448-504 | The first consumer that is refused or whose handler does not return decides the status of the event: dispatched if and only if there is none, failed retryable if and only if it raised a retryable exception in attempt 1 or 2, dead lettered if and only if it is refused, raised a permanent exception, or a retryable one from attempt 3 on, and still locked if and only if its exception escapes |
| VisitLaws.VisitDispatches | app/events/services.py:456-476 | A visit that passes all consumers: dispatched now, the attempt succeeded, every consumer that was not settled called once in order and processed |
| VisitLaws.VisitBuries | app/events/services.py:489-504 | A visit stopped by a refusal or a permanent exception: dead lettered, one dead-letter row for permanent failure with the attempt number, the attempt closed as dead lettered, the consumer failed |
| VisitLaws.VisitPutsOff | app/events/services.py:477-488 | A visit stopped by a retryable exception: available again after 60 or 120 s in attempt 1 or 2, afterwards dead lettered for exceeded retries; the attempt closed as failed retryable, the consumer failed |
| VisitLaws.VisitEscapes | app/events/services.py:448-476 | An exception nobody catches leaves the row locked, the attempt started and the consumer started unless its row had failed before |
| VisitLaws.BatchVisitsEach | app/events/services.py:443-505 | Each event of a batch gets, as it was when locked, the visit its own handlers make of it, up to and with the first from which an exception escapes; all other events stay as they were |
| RelayService.LockingRests | app/events/services.py:262-301 | The code's selection and update is exactly the locking step of the transition system |
| RelayService.Backbone.WriteOutboxEvent | app/events/services.py:175-216 | A new key adds one pending row; a used key adds nothing |
| RelayService.Backbone.LockPendingEvents | app/events/services.py:262-301 | The rows locked and the order of the batch are those of the locking step |
| RelayService.Backbone.MarkEventDispatched | app/events/services.py:308-320 | Status, time and attempt after success |
| RelayService.Backbone.MarkEventFailedRetryable | app/events/services.py:323-359 | The attempt is closed, then the event is rescheduled or dead-lettered as the single writes do it |
| RelayService.Backbone.MoveEventToDeadLetter | app/events/services.py:362-379 | Status and one new dead-letter row |
| RelayService.Backbone.AlreadyProcessed | app/events/services.py:382-387 | Skips exactly the pairs that have a row and did not fail |
| RelayService.Backbone.RecordConsumerStarted | app/events/services.py:390-409 | Creates the row if there is none and leaves an existing one, even a failed one |
| RelayService.Backbone.RecordConsumerProcessed | app/events/services.py:412-421 | The pair is processed, nothing else changes |
| RelayService.Backbone.RecordConsumerFailed | app/events/services.py:424-434 | The pair is failed, nothing else changes |
| RelayService.Backbone.RunConsumer | app/events/services.py:460-476 | One turn of the consumer loop makes the single writes of that turn |
| RelayService.Backbone.CallHandler | app/events/services.py:473-474 | The handler's return, caught exception or escape continues the visit as the single writes do |
| RelayService.Backbone.RunConsumers | app/events/services.py:460-476 | The loop makes the single writes of all turns, or stops where an exception leaves it |
| RelayService.Backbone.RecordFailure | app/events/services.py:477-504 | Both exception handlers end the visit as the single writes do |
| RelayService.Backbone.DispatchEvent | app/events/services.py:448-503 | One visit ends in the state the single writes lead to |
| RelayService.Backbone.DispatchBatch | app/events/services.py:446-505 | The batch loop, with its count and its escape |
| RelayService.Backbone.DispatchPendingEvents | app/events/services.py:437-505 | A call is one locking step followed by the visits of its batch, and keeps all events at rest |
| EventNames.BuiltNamesParse | app/events/algorithms/event_type_normalizer.py:60-92 | Every valid namespace and version comes back exactly from its printed name |
| EventNames.ParsedNamesRebuild | app/events/algorithms/event_type_normalizer.py:70-92 | Rebuilding an accepted name gives its trimmed lower-case form |
| EventNames.AcceptedNames | app/events/algorithms/event_type_normalizer.py:17-85 | A name is accepted if and only if its clean form is a namespace, `.v` and a numeral without leading zero |
| NameLaws.AcceptedNamespaces | app/events/algorithms/event_type_normalizer.py:60-67 | A namespace is accepted if and only if its clean form starts with a letter, has a dot and a letter after each, otherwise only small letters, digits and underscores, and gives no order; it is returned clean |
| NameLaws.AcceptedVersionedNames | app/events/algorithms/event_type_normalizer.py:70-85 | A full name is accepted if and only if its clean form is such a namespace, `.v` and a whole number |
| NameLaws.CommandsGiveOrders | app/events/algorithms/event_type_normalizer.py:23-57 | A name is refused as a command if and only if one of seven words stands between its dots and underscores or one of three phrases between its dots |
| NameLaws.SplitFindsPieces | app/events/algorithms/event_type_normalizer.py:49-50 | Splitting finds exactly what stands between separators |
| NameLaws.CleanMeans | app/events/algorithms/event_type_normalizer.py:63-63 | Cleaning trims and replaces each capital by its small letter |
| EventNames.NamesAreInjective | app/events/algorithms/event_type_normalizer.py:88-92 | Different namespaces or versions never share a name |
| EventNames.FirstDigitWeighs | app/events/algorithms/event_type_normalizer.py:80-85 | Version numerals are read as decimal numbers: the first digit has the weight of its position |
| Completion.RoundedIs | app/grading/algorithms/cohort_summary_builder.py:9-16 | The rounded value is the one integer within half a unit, ties going up |
| Completion.PercentageInRangeAndMonotone | app/grading/algorithms/cohort_summary_builder.py:9-16 | The percentage lies in 0..100 and is monotone in the submitted count |
| Completion.PercentageIsClose | app/grading/algorithms/cohort_summary_builder.py:9-16 | It is within 0.005 of the exact value |
| Completion.FullPercentage | app/grading/algorithms/cohort_summary_builder.py:9-16 | 100.00 is shown if and only if 20000 * missing <= expected |
| Completion.FullMeansEverybody | app/grading/algorithms/cohort_summary_builder.py:9-16 | Below 20000 expected learners 100.00 means everybody |
| Completion.TwentyThousandIsTight | app/grading/algorithms/cohort_summary_builder.py:9-16 | From 20000 on, 100.00 is shown with one learner missing |
| Marks.SumPicksAny | app/grading/algorithms/practical_grid.py:26-30 | A total does not depend on the order of summation |
| Marks.ComponentTotal | app/grading/algorithms/practical_grid.py:26-30 | The loop sums all given values, or reports one that is no number |
| Marks.ValidateRow | app/grading/algorithms/batch_validation.py:36-84 | One row: learner, duplicate, component, total and bound checks in the program's order |
| Marks.ValidateGradeRows | app/grading/algorithms/batch_validation.py:21-85 | The row loop accepts or refuses exactly as the specification, with the first fault |
| EntryLaws.RowOutcome | app/grading/algorithms/batch_validation.py:36-81 | Which row is accepted: a learner on the roster not named before, and a number from 0 to a positive maximum (or a blank in a draft), or component cells that fit with a total in bounds; the stored score is the number entered or the total, scores and remarks are the entered ones |
| EntryLaws.BatchOutcome | app/grading/algorithms/batch_validation.py:21-85 | A batch is accepted if and only if every row fits, no learner is named twice and a final submission is not empty; each row is then repeated in order |
| EntryLaws.BatchFaultOutcome | app/grading/algorithms/batch_validation.py:36-84 | The reason of a refusal is that of the first row refused, and in it of the first check that fails: learner, duplicate, each component in order, total or score and its bounds |
| Marks.AcceptedStudentsAreDistinct | app/grading/algorithms/batch_validation.py:36-45 | Accepted rows name each learner of the roster at most once, one mark per row |
| Marks.BuildComponentSummary | app/grading/algorithms/component_summary.py:14-69 | The loop computes the summary or the first fault |
| Marks.SummarizeNames | app/grading/algorithms/component_summary.py:24-62 | One fact per component in order; the missing list holds exactly the required components left blank |
| EntryLaws.SummaryOutcome | app/grading/algorithms/component_summary.py:14-69 | A summary is given if and only if every cell fits its component and the components' total is within the maximum; it shows for each component exactly what was entered, its maximum and whether it is required, and the sum of the shown scores |
| EntryLaws.ShownAddUp | app/grading/algorithms/component_summary.py:56-62 | With different component identifiers the shown scores add up to the total |
| Marks.AcceptedRowSummary | app/grading/algorithms/batch_validation.py:57-63 | For an accepted complete row: no required component is missing, the stored score is the summary total plus the foreign-key scores, and it compiles if and only if the components' own total is within the maximum |
| Marks.CleanKeysCompile | app/grading/algorithms/component_summary.py:56-69 | With keys that all name components, acceptance implies a clean summary with the same total |
| Marks.ForeignKeysCanBlockCompilation | app/grading/algorithms/batch_validation.py:57-63 | An accepted row whose summary is refused |
| Compilation.DetectMissingMarks | app/grading/algorithms/missing_marks.py:8-69 | The loops and the final sort compute the specified findings |
| Compilation.NoFindings | app/grading/algorithms/missing_marks.py:8-69 | There are no findings if and only if records and roster correspond one to one and every required component is filled |
| Compilation.AbsencesCounted | app/grading/services.py:1448-1460 | The missing count is the number of roster learners without a record |
| CompilationLaws.FindingsAreExact | app/grading/algorithms/missing_marks.py:8-68 | A finding of any of the four codes is reported if and only if it is true of the records and the roster |
| CompilationLaws.FindingsAreOrdered | app/grading/algorithms/missing_marks.py:69 | Findings come by learner, and for one learner by code |
| CompilationLaws.SummaryAndFindingsAgree | app/grading/algorithms/component_summary.py:24-29 | The summary of a record and the findings about it list the same missing components |
| CompilationLaws.MissingComeInOrder | app/grading/algorithms/missing_marks.py:37-41 | The missing components are listed in the order of the components, each once |
| CompilationLaws.CountsAreExact | app/grading/services.py:1441-1476 | The counts are those of the roster, of its learners with a record and of those without; the percentage is their ratio rounded half up; the sources are the batches of the records |
| Compilation.DetectInvalid | app/grading/algorithms/component_summary.py:72-94 | Reports exactly the learners of records whose summary is refused |
| Compilation.BuildLearnerSnapshots | app/grading/algorithms/learner_snapshot_builder.py:12-56 | The loop builds the specified snapshots or aborts |
| Compilation.CompileRecords | app/grading/services.py:1402-1533 | The whole computation of one compilation |
| Compilation.CompileAborts | app/grading/services.py:1506-1511 | A compilation aborts if and only if some record's summary is refused |
| Compilation.CompilationIsExact | app/grading/algorithms/compilation_status.py:21-33 | Only complete, partial or blocked commits; complete if and only if records and roster correspond and all required components are filled; submitted + missing = expected |
| Compilation.SnapshotsMatchRecords | app/grading/algorithms/learner_snapshot_builder.py:12-56 | One snapshot for every record and one record for every snapshot, ordered by learner, with that record's scores and components |
| CompilationLaws.SnapshotsShowRecords | app/grading/algorithms/learner_snapshot_builder.py:12-56 | Each snapshot shows a record's score, normalised score, maximum, rounded percentage and every component with its entered score, and carries exactly the true findings about that learner |
| SubmissionProofs.SubmissionsAreUnique | app/grading/models.py:671-682 | In every state: one batch per key and per teacher and assessment, one record per learner and assessment, and `record_count` counts the batch's records |
| SubmissionProofs.SubmissionIsIdempotent | app/grading/services.py:1243-1262 | After an accepted submission every later use of its key changes nothing: it is replayed for the same caller and rows and refused otherwise |
| DraftProofs.DraftsAreLastSaves | app/grading/services.py:427-479 | In every state at most one open draft per teacher and assessment; its version counts the accepted saves and its rows and key are those of the last |
| DraftProofs.NoLostUpdate | app/grading/algorithms/draft_merge.py:13-20 | A save accepted on the version its client read extends exactly the history the client saw if and only if the draft is still open, and replaces something unseen if and only if the draft was closed and another is open |
| DraftProofs.FreshSaveOutcome | app/grading/services.py:427-440 | A fresh valid save is accepted if and only if it carries no version, or the number of saves of every draft that is open for it |
| DraftProofs.RepeatedSave | app/grading/services.py:412-426 | A repeat of any earlier save, with any rows, is recognised if and only if its key is that of the draft's last save and its payload the same |
| DraftProofs.RepeatOverwrites | app/grading/services.py:412-479 | It replaces the draft's rows if and only if the draft is open, no draft stores the key any more, the rows are acceptable and the version is absent or current |
| DraftProofs.LastSaveIsReplayed | app/grading/services.py:412-426 | While its draft has not been saved again, a repeated save is answered from the draft without effect if its payload hash is the same (or was empty) and refused otherwise, whatever happened in between |
| DraftProofs.OldKeysAreForgotten | app/grading/services.py:463-467 | A run in which a repeated first save puts its old rows back over those of the second |
| DraftProofs.VersionsRestart | app/grading/services.py:1317-1322 | A run in which a save with the version its client read replaces rows the client never saw |
| CorrectionPaths.TrailsSpellPaths | app/grading/algorithms/correction_transition_rules.py:8-52 | In every state the audit trail of a correction has one to four records and spells a path of the table from under_hod_review to its status |
| CorrectionPaths.BlocksUntilTerminal | app/grading/algorithms/correction_status.py:31-61 | A correction blocks readiness exactly until its path reaches a status the table does not leave |
| CorrectionPaths.AppliedByOthers | app/grading/services.py:843-947 | An applied correction was approved in the last step but one and applied in the last, both by others than its requester |
| CorrectionPaths.RequestsAreFixed | app/grading/services.py:626-947 | The request, once made, never changes, and a terminal correction never changes at all; audit records are only added |
| CommandLaws.RequestOutcome | app/grading/services.py:626-690 | When a correction request is accepted, and the correction and audit rows it adds |
| CommandLaws.HodReviewOutcome | app/grading/services.py:693-741 | Accepted if and only if somebody else requested it and it is requested or under review; an approval leads to approved_by_hod, anything else to rejected_by_hod, and nothing but the correction and the audit table changes |
| CommandLaws.EscalationOutcome | app/grading/services.py:744-789 | Accepted if and only if there is a reason and the status is requested, submitted or under review |
| CommandLaws.HeadReviewOutcome | app/grading/services.py:792-840 | Accepted if and only if somebody else requested it and it was escalated; an approval leads to approved_by_academic_head, anything else to rejected_by_academic_head |
| CommandLaws.ApplicationOutcome | app/grading/services.py:843-947 | Accepted if and only if approved, by another than the requester, changing something, with the new score in bounds and the learner enrolled; then each field has the proposed value or its old one, the band is that of the new score, the listed fields are those the proposal changes, the runs of the assessment are stale and all else is unchanged |
| CommandLaws.SubmissionOutcome | app/grading/services.py:1243-1322 | Accepted if and only if confirmed, under a new key, the first of this teacher, with fitting rows that have scores, for learners without a record; then one batch, one record per row saying what the row says, and the open draft closed |
| CommandLaws.SaveOutcome | app/grading/services.py:385-479 | When a draft save is accepted, and that it goes to the open draft or else to a new one, with version, key, payload hash and rows |
| CommandLaws.StoredKeyOutcome | app/grading/services.py:412-426 | A key that a draft stores is answered from it for the same assessment, teacher and payload, and refused otherwise |
| CommandLaws.CompilationOutcome | app/grading/services.py:1381-1556 | Accepted if and only if every record of the assessment can be summarised; earlier runs become stale and one run is added |
| GradeHistory.HistoryIsAChain | app/grading/services.py:854-946 | In every state: version - 1 is the number of applied audits and of applied corrections; replaying the proposals over the submitted record gives the present one; the hashes chain from the first to the last; each audit lists exactly the fields its application changed |
| GradeHistory.FieldsAreLastProposals | app/grading/services.py:854-881 | In every state each of score, component scores and remarks of a record is that of the last applied correction that proposed one, and the submitted one if none did |
| SubmittedMarks.UncorrectedRecordsCompile | app/grading/algorithms/batch_validation.py:21-85 | A record no correction was applied to, with clean keys, compiles with all required components and its stored score as total |
| SubmittedMarks.UntouchedAssessmentsCompile | app/grading/services.py:1409-1533 | An assessment of such records always compiles, and is complete if and only if every learner of the roster has a record |
| SubmittedMarks.RecordsComeFromRows | app/grading/services.py:1268-1316 | In every state each record goes back to one row of one accepted submission, belongs to that row's learner and batch and as submitted repeats the row; its score lies within bounds then and now, and its learner is on the roster |
| CacheProofs.OneCurrentRun | app/grading/services.py:1476-1478 | In every state an assessment has at most one run that is not stale, and it is the last one created |
| CacheProofs.CurrentRunIsCoherent | app/grading/services.py:920-922 | Each snapshot of a current run has the score and component facts of the learner's present record |
| CacheProofs.CurrentRunShowsRecords | app/grading/algorithms/component_summary.py:24-69 | Each snapshot of a current run shows the present record's score and, for every component, exactly what the record holds for it |
| CacheProofs.RecompilationKeepsFacts | app/grading/services.py:1503-1533 | Compiling again gives a snapshot with the same learner, score and components for each of them |
| CacheProofs.CurrentRunIsFresh | app/grading/services.py:1464-1533 | A current run equals a recompilation if and only if it has a snapshot for every present record |
| CacheProofs.LateSubmissionIsMissed | app/grading/services.py:1286-1322 | A run of the commands that ends with a current compilation differing from a recompilation |
| GradingService.DoKeepsAll | app/grading/services.py:385-1556 | Every command keeps the submission, draft, correction, history and cache invariants together |
| GradingService.Service.SaveGradeDraft | app/grading/services.py:385-479 | The transaction has exactly the effect and answer of the command, and keeps all invariants |
| GradingService.Service.SubmitGradeBatch | app/grading/services.py:1215-1346 | Likewise, with the loops that insert records and close drafts |
| GradingService.Service.CreateCorrectionRequest | app/grading/services.py:626-690 | Likewise |
| GradingService.Service.ReviewCorrectionAsHod | app/grading/services.py:693-741 | Likewise |
| GradingService.Service.EscalateCorrectionRequest | app/grading/services.py:744-789 | Likewise, consulting the escalation list instead of the table |
| GradingService.Service.ReviewCorrectionAsAcademicHead | app/grading/services.py:792-840 | Likewise |
| GradingService.Service.ApplyProposal | app/grading/services.py:851-946 | The record, runs, correction and audit table after an application |
| GradingService.Service.ApplyApprovedCorrection | app/grading/services.py:843-947 | The transaction has exactly the effect of the command, and keeps all invariants |
| Gradebook.ChangedFieldsAreTheDifference | app/grading/services.py:879-891 | The list names exactly the fields that differ between the record and the record with the proposal written over it; it is empty, and the application refused, if and only if the application would change none of them |
| GradingService.Service.CorrectionChangedFields | app/grading/algorithms/correction_audit_diff.py:10-26 | The appended names are exactly the fields in which the corrected record differs, in the order of their names, each once |
| GradingService.Service.CompileAssessment | app/grading/services.py:1381-1556 | The transaction has exactly the effect of the command, and keeps all invariants |
| CurriculumDiff.DiffGraphSnapshots | app/curriculum/algorithms/curriculum_diff_engine.py:56-107 | The loop computes the specified diff |
| CurriculumDiff.DiffIsAPatch | app/curriculum/algorithms/curriculum_diff_engine.py:56-107 | Applied to the old fingerprints the diff meets no conflict and gives the new ones |
| CurriculumDiff.EmptyDiffMeansEqual | app/curriculum/algorithms/curriculum_diff_engine.py:56-107 | The diff is empty if and only if the fingerprints are equal |
| DiffLaws.DiffIsExact | app/curriculum/algorithms/curriculum_diff_engine.py:40-107 | An item is in the diff if and only if it describes the nodes compared at some key: added, removed, or the first of retired, reactivated, date changed, assessment criteria changed, renamed and updated that applies |
| DiffLaws.ComparedNodes | app/curriculum/algorithms/curriculum_diff_engine.py:60-66 | The nodes compared at a key are the last of either snapshot with that key |
| CurriculumDiff.DiffForgetsOrder | app/curriculum/algorithms/curriculum_diff_engine.py:61-66 | With distinct keys the order of the inputs does not matter |
| CurriculumDiff.SwappingMirrors | app/curriculum/algorithms/curriculum_diff_engine.py:40-53 | Swapping the inputs mirrors added and removed, retired and reactivated, and swaps the fingerprints |
| CurriculumDiff.RemovalIsReported | app/curriculum/algorithms/curriculum_diff_engine.py:60-89 | The removal of an old node is reported if and only if no new node has its key and the last old node with its key has its identity |
| CurriculumDiff.DistinctRemovalIsReported | app/curriculum/algorithms/curriculum_diff_engine.py:60-89 | With distinct old keys: if and only if no new node has its key |
| CurriculumDiff.TidyRemovalIsReported | app/curriculum/algorithms/curriculum_diff_engine.py:60-89 | Between tidy snapshots: if and only if no new node has its identity |
| CurriculumDiff.TidyKeysAreIdentities | app/curriculum/algorithms/curriculum_diff_engine.py:21-24 | With colon-free trimmed entity types equal keys mean equal identities |
| CurriculumDiff.ColonsHideRemovals | app/curriculum/algorithms/curriculum_diff_engine.py:21-24 | Two identities that share a key: the removal of one is hidden by the other among the old nodes, among the new ones, or both |
| Binding.ContextIsFrozen | app/grading/models.py:323-343 | Once an assessment has a non-draft batch or a record, its version, learning area and rubric never change in the rest of any run |
| Binding.LearnerSnapshotsAgree | app/grading/services.py:1512-1533 | All learner snapshots of an assessment carry its context, and so agree with each other |
| Binding.VouchedUnlessReset | app/grading/models.py:256-282 | For an assessment not in draft: the guard was consulted about the present context if and only if that was not set back in draft after locking |
| Binding.ContextPassedTheGuard | app/curriculum/services.py:1039-1071 | In that case the version was not withdrawn, had an active publication and an adoption not ended, and the active rubric hung in this version and active area, at a save of this very context, which the assessment has kept since |
| Binding.GuardMeansInForce | app/curriculum/services.py:1039-1071 | The guard allows a context if and only if the version is not withdrawn, has an active publication and an adoption that has not ended, and the rubric is active and hangs in this version and active area |
| GuardLaws.SaveOutcome | app/grading/models.py:224-343 | A save is accepted if and only if it is a draft or its complete context is on an active version with a rubric of it and is in force or locked already, and it does not change a graded context; the first operational save locks |
| GuardLaws.WithdrawnIsNotTakenUp | app/curriculum/algorithms/dependency_guards.py:19-37 | After a withdrawal, in any run, no operational save on that version is accepted unless the assessment is locked on this very context |
| GuardLaws.OperationalMeans | app/grading/models.py:235-254 | Grading asks for an open, locked assessment with a rubric of its version and area |
| Binding.LockedContextIsUnguarded | app/grading/models.py:259-278 | Saving a locked assessment with the context it has is accepted or refused whatever is published, adopted or withdrawn |
| Binding.ReopeningBypassesTheGuard | app/grading/models.py:256-282 | A run in which an assessment is graded on a version that was never published |
| BindingService.Registry.BindingIsValid | app/grading/algorithms/curriculum_binding.py:44-74 | The checks of a binding, with the publication check skipped for a preserved context |
| BindingService.Registry.Save | app/grading/models.py:224-233 | Validation, locking on the first operational save and storage have exactly the effect of the command |
| BindingService.Registry.SaveBatch | app/grading/models.py:721-727 | A non-draft batch requires an operationally bound assessment |
| BindingService.Registry.AddRecords | app/grading/models.py:235-254 | Grading requires the assessment to be open and operationally bound, its version active or not |
| BindingService.Registry.TakeSnapshots | app/grading/algorithms/compilation_inputs.py:40-43 | So does compiling it, and the snapshots repeat its context |
| BindingService.Registry.PublishVersion | app/curriculum/services.py:400-432 | At most one active publication per version |
| BindingService.Registry.SupersedePublication | app/curriculum/services.py:435-443 | Exactly that publication becomes inactive |
| BindingService.Registry.ScheduleAdoption | app/curriculum/services.py:490-532 | An adoption is added for a published, active version that is neither withdrawn nor adopted |
| BindingService.Registry.ActivateAdoption | app/curriculum/services.py:535-549 | The adoption becomes active unless its version may not be adopted |
| BindingService.Registry.MarkWithdrawn | app/curriculum/services.py:552-586 | The version is withdrawn, nothing else changes |

## Left out

- Outbox contracts: payload schemas, producers, partition keys and tenants of events are checks that only refuse a write.
- Registry and handler table: fixed during a run; changing them while events are in flight is not modelled.
- Handler side effects and `on_commit` writes: a domain write and its outbox row are separate transactions, and nothing is claimed about both.
- Relays with expired leases that go on working: outside the lease hypothesis of `RelayRuns.NoEventHeldTwice`.
- RelayService.Backbone.DispatchPendingEvents: the clock stands still within one call; it moves between the single writes in `Relays`.
- EventNames.BuiltNamesParse: trimming and lower-casing are those of ASCII; other Unicode letters and spaces are not modelled.
- Completion.PercentageIsClose: decimals are exact; the 28-digit context precision of intermediate quotients is not modelled.
- Marks.ValidateRow: scores have two decimals, and component scores that are not a dictionary are not modelled.
- CurriculumDiff.DiffGraphSnapshots: entity type and identifier are present strings; SHA-256 is an arbitrary function.
- GradingService.Service.SubmitGradeBatch: whether the assessment is open and bound is an input of each call; how that changes is the subject of `Binding`, and the two machines are not composed.
- Batch statuses other than submitted, record deletion and administrative edits of records do not occur in the services and are not steps.
- `build_submission_batch` and `build_grade_record` (app/grading/services.py:482-543): helpers that insert a row outside the submission command.
- Role and attribute policies: one flag per command, except that nobody reviews or applies their own correction.
- Text sanitising, lengths and tenant isolation: reasons and remarks are strings as they are stored.
- School grading bands: the normalised score of a corrected record is an arbitrary function of assessment and score.
- Binding.LearnerSnapshotsAgree: speaks of learner snapshots; the assessment-level snapshot of a compilation without records carries no such promise.
- Adoption windows, effective dates, change-set workflow and rollback plans: checks on single rows that the guard does not read.
- Report snapshots, aggregates, readiness verdicts, evidence intake and notification cards: they read this state and change none of it.
