# Verified models of AnalyticKit's stateful core

The project models the parts of AnalyticKit whose correctness depends on state that lives across calls, and proves
what each of them keeps over whole runs:

- **Async migrations.** A migration is a saga: numbered operations run forward under a stored index, and a failure or
  a forced stop compensates them in reverse order. `MigrationSaga` is the state machine of one row with a log of
  everything that was executed for it; `MigrationCompensation` adds the data that operations transform;
  `MigrationRunner` is the runner itself, which changes the row in place and refines the state machine.
  `MigrationFleet` has all rows and the task queue, `MigrationWhole` joins that with one migration's saga; `MigrationSetup` has the boot: the dependency dictionaries, the
  walk along the chain, and the automatic starts.
- **Cohorts that refer to cohorts.** `ReferenceGraph` has paths and cycles; `Cohorts` has the worklist search that guards
  updates, what it decides exactly, and the acyclicity of every team's cohorts over all runs.
- **Feature flags evaluated in the client.** `FeatureFlags` has filters, conditions and verdicts, `FlagMeaning` what
  these mean without them, `FlagRollout` the shares of variants among the 60-bit hash values, `FlagClient` the two ways in which a client asks.
- **The client's event queue.** `EventPipeline` is a state machine over the steps of any number of producers and
  consumers; `EventClient` has the queue, the consumer and the client as objects.
- **The single-threaded timer.** `Timer` has its state machine under every interleaving, and the timer as an object.
- **Date buckets.** `Calendar` relates dates to day counts; `DateRange` divides a range into buckets.

Objects that the program changes in place are classes, its loops are methods with invariants, and each method is
tied to a function or a state-machine step about which the lemmas speak.

## What does not hold of the code

Each of these is a lemma or a method with the input or state on which it shows, and one with the exact condition.

- A cohort reference that two cohorts share is no loop, but is reported as one (`DiamondIsRejected`); without shared
  references the check is exact (`AcceptsExactly`). A primary key written as text escapes it
  (`TextualSelfReferenceIsAccepted`; exactly when: `AcceptedUpdate`). The comment in the search says that loops are only
  formed by updates; a create that names a key before it is assigned makes one, too (`DanglingCreateMakesLoop`;
  exactly when: `CreateExactly`).
- Triggering or starting a migration afresh does not ask what is in place. From a completed or an errored migration, the
  index stops saying what is in force (`RetriggerLosesTrackOfOperations`, `CarefulIsNotSuitable`; exactly when:
  `StartExactly`), and a migration that was queued twice runs again after it completed (`QueuedTwiceRunsTwice`; exactly
  when: `ReopensExactly`). Resuming ignores the limit on concurrent migrations (`ResumeBesideRunning`; exactly when:
  `MigrationFleet.ResumeExactly`).
- Resuming runs the failed operation again. That is right for "create if absent", but an insertion with a truncation as
  rollback, of which the repository's own migrations have several, then leaves its rows in the table twice, for as long as
  nothing else removes duplicates (`ResumeInsertsTwice`; exactly when: `MigrationCompensation.ResumeExactly`). Rolling back
  is right for both, and also where several insertions share a truncation (`BackfillRestores`).
- Automatic starts stop at a migration that is already complete: completion looks one step ahead and does not skip.
  The chain is completed exactly if everything after the first run of waiting migrations already was
  (`ChainStopsAtCompleted`; exactly when: `ChainCompletesExactly`).
- An oversized message is dropped without being marked as done, so no later `flush` returns
  (`OversizedMessageStaysUnfinished`; exactly when: `FlushReturnsExactly`). `join` is documented to end the consumer once
  the queue is empty; it ends after the current batch, and leaves what is queued (`JoinLosesMessage`; exactly when:
  `JoinLosesExactly`). The constructor keeps only the last consumer, so `join` pauses no other, and it raises where there
  is none (`StartAndJoin`).
- A definite local flag answer can turn into an error when more properties become known (`MoreInformationMayRaise`;
  exactly when: `AnswerStable`), and the order of conditions can decide between an answer and an error (`OrderMayMatter`;
  exactly when: `ConditionOrderExactly`). Asking for all flags and asking for one differ for some answer of the server
  exactly if some flag forces the server to be asked (`ServerOverridesAnswer`; exactly when: `AgreeExactly`).
- The timer's wait ends later than the first deadline by the time between reading the clock and beginning to wait
  (`WaitEndsLate`; by how much: `StepKeepsInv`).
- `get_daterange` raises where a step leaves the years 1 to 9999, even if no bucket lies there (`EdgesRaise`; exactly when:
  `GetDaterange`).

## Model

| member | source | states |
|---|---|---|
| Cohorts.CohortTable.WillCreateLoops | analytickit/api/cohort.py:232-258 | terminates, and says "no loop" if and only if every reference it can reach resolves within the team, none leads back to the cohort and no two name the same target; each error is given only where its defect exists |
| Cohorts.CohortTable.QueueReferences | analytickit/api/cohort.py:250-256 | finds a repeated reference if and only if one of them was seen, and otherwise queues all of them in order |
| Cohorts.CohortTable.UpdateCohort | analytickit/api/cohort.py:134-154 | if the check accepts the edit, exactly this cohort's references become the new ones, or stay if none are given; otherwise nothing changes |
| Cohorts.CohortTable.CreateCohort | analytickit/api/cohort.py:102-119 | adds the cohort under its new key, unchecked |
| Cohorts.AcceptedUpdate | analytickit/api/cohort.py:134-154 | an accepted update keeps the stored graph acyclic if and only if the search does not come upon the edited cohort written as text |
| Cohorts.AcceptsExactly | analytickit/api/cohort.py:232-258 | on numeric references that resolve: accepted if and only if the graph stays acyclic and no reachable reference is shared |
| Cohorts.ReachableCycleIsReported | analytickit/api/cohort.py:236-256 | any cycle reachable from the edited cohort, through it or not, makes the search refuse |
| Cohorts.CreateExactly | analytickit/api/cohort.py:102-119 | a create keeps the stored graph acyclic if and only if no reference is, or leads to, the key it gets |
| Cohorts.RunsStayAcyclic | analytickit/api/cohort.py:102-154 | over any sequence of creates that name stored cohorts and of checked updates, every team's graph stays acyclic and closed |
| Cohorts.LastWriteIsStored | analytickit/api/cohort.py:102-154 | over any sequence of requests, a cohort's references are in the end those of its last accepted edit, or of its creation |
| Cohorts.AcceptedEditIsStored | analytickit/api/cohort.py:151-154 | an edit that adds a reference, is accepted, and is there afterwards |
| Cohorts.EmptyTableIsSound | analytickit/api/cohort.py:102-119 | the state in which such runs begin has the invariant |
| Cohorts.DiamondIsRejected | analytickit/api/cohort.py:250-256 | an acyclic update with a shared reference is refused |
| Cohorts.TextualSelfReferenceIsAccepted | analytickit/api/cohort.py:235-246 | a self-reference written as text is accepted and makes a loop |
| Cohorts.DanglingCreateMakesLoop | analytickit/api/cohort.py:102-119 | two creates make a loop |
| MigrationSaga.StepKeepsSaga | analytickit/async_migrations/runner.py:109-208 | op success, failure and crash, partial and full rollback, resume and forced stop keep the index truthful: what is below it is in force, what is above it is not |
| MigrationSaga.RunKeepsSaga | analytickit/async_migrations/runner.py:30-208 | so does every run in which fresh triggers and starts come only where nothing is in place |
| MigrationSaga.RollbackKeepsSaga | analytickit/async_migrations/runner.py:181-208 | a rollback that fails at operation j stores the one index that is truthful, and a full one leaves nothing in force |
| MigrationSaga.StartExactly | analytickit/async_migrations/utils.py:295-304 | from any truthful index, a fresh start keeps it truthful if and only if no operation after the first was reached |
| MigrationSaga.RetriggerLosesTrackOfOperations | analytickit/api/async_migration.py:79-108 | re-triggering a completed migration reaches index 0 with operation 1 in force |
| MigrationSaga.ExactlyOnce | analytickit/async_migrations/runner.py:102-156 | without rollbacks and crashes, any mix of failures and resumes finishes operations 0, 1, ... once each and in order, and all of them where the row says completed |
| MigrationSaga.RunOpDones | analytickit/async_migrations/runner.py:102-156 | k successful turns run exactly the next k operations and store the index and progress after them |
| MigrationSaga.ProgressIsPercentage | analytickit/async_migrations/definition.py:112-114 | the progress is how many percent of the operations are done, rounded down |
| MigrationSaga.FailedStartIsCompensated | analytickit/async_migrations/utils.py:182-227 | a start that fails at operation k runs 0 to k, rolls back k to 0 and ends rolled back at index 0 |
| MigrationSaga.ForcedStopIsCompensated | analytickit/async_migrations/utils.py:240-255 | a forced stop in operation k does, too, whether or not the operation was begun |
| MigrationCompensation.UndosRestore | analytickit/async_migrations/runner.py:190-204 | reverse-order compensation from a half-done operation restores the data as they were before the last one compensated, given that each rollback undoes its own operation from wherever that got to |
| MigrationCompensation.RollbackKeepsData | analytickit/async_migrations/runner.py:181-208 | under that contract, the row still tells the state of the data after a rollback, complete or not |
| MigrationCompensation.StepKeepsData | analytickit/async_migrations/runner.py:109-208 | so it does after every step; an operation that was begun before and not rolled back must in addition be one that can be run again |
| MigrationCompensation.RunKeepsData | analytickit/async_migrations/runner.py:30-208 | and over every run that runs no other operation again |
| MigrationCompensation.NoRetryIsSafe | analytickit/async_migrations/runner.py:102-156 | runs without a resume and a lost worker run none again, whatever the operations are |
| MigrationCompensation.RerunnableIsSafe | analytickit/api/async_migration.py:110-123 | any run will do if all operations can be run again |
| MigrationCompensation.FailedStartRestoresData | analytickit/async_migrations/utils.py:182-227 | a start that fails at operation k ends rolled back at index 0 with the data it began on, if each rollback undoes its own operation |
| MigrationCompensation.ForcedStopRestoresData | analytickit/async_migrations/utils.py:240-255 | so does a run that is force-stopped there, whether or not the operation was begun |
| MigrationCompensation.LayeredRollbackRestores | analytickit/async_migrations/runner.py:190-204 | where a rollback undoes more than its own operation, the whole rollback still restores the initial data if each one makes the data ready for the next |
| MigrationCompensation.FailedStartLeadsDown | analytickit/async_migrations/utils.py:182-227 | so it does for a start that fails at operation k, if whatever the failure leaves is ready for that operation's rollback |
| MigrationCompensation.ForcedStopLeadsDown | analytickit/async_migrations/utils.py:240-255 | and for a run that is force-stopped there |
| MigrationCompensation.BackfillRestores | analytickit/async_migrations/migrations/0002_events_sample_by.py:43-135 | creating a copy, inserting into it partition by partition with a truncation of the whole copy as rollback, detaching, and inserting the rest: failing or being stopped anywhere leaves no copy and the table attached |
| MigrationCompensation.BackfillIsNotUndoable | analytickit/async_migrations/migrations/0002_events_sample_by.py:43-57 | not every rollback there undoes just its own operation |
| MigrationCompensation.ResumeExactly | analytickit/api/async_migration.py:110-123 | resuming a failed operation makes its change exactly once, whatever the failure left, if and only if the operation comes to the same from everything that a failure may leave |
| MigrationCompensation.ResumeInsertsTwice | analytickit/async_migrations/migrations/0002_events_sample_by.py:43-57 | an insertion that fails after its rows are in, and is resumed, completes with the rows in twice |
| MigrationCompensation.InsertRowsIsOnlyUndoable | analytickit/async_migrations/migrations/0002_events_sample_by.py:43-57 | an insertion with a truncation as its rollback can be undone and not be run again |
| MigrationCompensation.SagaIsAllOrNothing | analytickit/async_migrations/definition.py:12-20 | after any failures, crashes, safe retries and rollbacks, a rolled-back migration has changed nothing and a completed one has made each change once |
| MigrationCompensation.CreateTableIsCompensable | analytickit/async_migrations/definition.py:12-20 | operations exist that can be undone and run again |
| MigrationRunner.Migration.UpdateAsyncMigration | analytickit/async_migrations/utils.py:307-347 | a missing argument leaves its column unchanged |
| MigrationRunner.Migration.ExecuteOp | analytickit/async_migrations/utils.py:44-48 | each execution, forward or back, is logged once with its outcome |
| MigrationRunner.Migration.ProcessError | analytickit/async_migrations/utils.py:182-227 | records status and index, and then rolls back unless told not to, failing at startup, or automatic rollback is off |
| MigrationRunner.Migration.AttemptMigrationRollback | analytickit/async_migrations/runner.py:181-208 | the descending loop performs the state machine's rollback, wherever it stops |
| MigrationRunner.Migration.CompleteMigration | analytickit/async_migrations/utils.py:264-277 | completes a row once |
| MigrationRunner.Migration.RunNextOp | analytickit/async_migrations/runner.py:109-156 | one turn advances, completes, or fails and compensates; a resumed run of a row that is not running changes nothing |
| MigrationRunner.Migration.RunOperations | analytickit/async_migrations/runner.py:102-106 | the driver loop terminates, and is a run of the state machine: some successes, then completion or one failure |
| MigrationRunner.Migration.StartAsyncMigration | analytickit/async_migrations/runner.py:30-99 | a start is refused, completes at once, fails at startup, or is such a run from operation 0 |
| MigrationRunner.Migration.Resume | analytickit/api/async_migration.py:110-123 | accepted if and only if errored; the index stays |
| MigrationRunner.Migration.ForceStopMigration | analytickit/api/async_migration.py:125-132 | accepted if and only if running; then an error, with compensation if wanted and not disabled |
| MigrationRunner.Migration.RollbackMigration | analytickit/api/async_migration.py:144-165 | accepted if and only if errored, or completed when forced; then a rollback |
| MigrationFleet.AfterKeepsLimit | analytickit/async_migrations/runner.py:51-62 | at most one migration runs after any event except a resume beside a running one |
| MigrationFleet.ResumeExactly | analytickit/api/async_migration.py:110-123 | a resume keeps the limit if and only if nothing runs |
| MigrationFleet.ResumeBesideRunning | analytickit/api/async_migration.py:110-123 | resuming an errored migration beside a running one makes two run |
| MigrationFleet.RunsStayWithinLimit | analytickit/async_migrations/runner.py:27-62 | at most one migration runs over every interleaving of requests and queued tasks in which no migration is resumed while another runs |
| MigrationFleet.ReopensExactly | analytickit/async_migrations/runner.py:30-99 | a completed migration stays completed if and only if the event is no accepted trigger of it, no forced rollback of it, and no queued fresh start of it that gets past the first checks |
| MigrationFleet.AfterKeepsDependenciesFirst | analytickit/async_migrations/runner.py:227-234 | an event that reopens no completed migration gets none under way before its dependency is completed |
| MigrationFleet.RunsKeepDependenciesFirst | analytickit/async_migrations/runner.py:30-99 | where all migrations are required, no request names a migration whose fresh start is queued, and no completed one is triggered or force-rolled back: in every run, whatever runs, failed or completed has its dependency completed, and no completed migration is reopened |
| MigrationFleet.LeaveCompletedExactly | analytickit/api/async_migration.py:155-165 | taking a migration out of the completed state is harmless if and only if nothing that depends on it is under way |
| MigrationFleet.QueuedTwiceRunsTwice | analytickit/async_migrations/runner.py:215-224 | a migration kicked off twice while not started runs again after it completed |
| MigrationFleet.StartMeaning | analytickit/async_migrations/runner.py:50-99 | a start runs a migration exactly if nothing runs, the release is in range, it is required, services and health are fine and its dependency is completed; it fails at startup if one of the latter is not, completes at once if not required, and changes nothing otherwise |
| MigrationFleet.RequestMeaning | analytickit/api/async_migration.py:79-123 | an accepted trigger and an accepted resume set the status and queue one task, afresh or not |
| MigrationFleet.OutcomeMeaning | analytickit/api/async_migration.py:125-165 | an end, an error, a rollback changes one migration's status, and only the end of a running one queues another |
| MigrationFleet.CompletionMeaning | analytickit/async_migrations/utils.py:264-292 | completing queues the migration that depends on it exactly if that waits and automatic starts are on |
| MigrationWhole.IndexStaysTruthful | analytickit/async_migrations/runner.py:30-208 | among all other migrations and under requests that trigger only what is fresh and not queued and undo nothing completed, one migration's own actions are a disciplined run: its index stays truthful, its dependency is completed before it gets going, and its status is what the other migrations see |
| MigrationWhole.EventIsAction | analytickit/api/async_migration.py:79-165 | what is requested of a migration, or happens to it, has the same effect on its status in the fleet and on its own state machine |
| MigrationWhole.CarefulIsNotSuitable | analytickit/api/async_migration.py:79-108 | triggering an errored migration is not refused, and restarts it with a later operation in force |
| MigrationSetup.ChainNeverRepeats | analytickit/async_migrations/setup.py:93-106 | the walk from the root along the inverted map never comes back to a name |
| MigrationSetup.ChainIsBounded | analytickit/async_migrations/setup.py:98-101 | so it is no longer than the number of migrations |
| MigrationSetup.ChainContinues | analytickit/async_migrations/setup.py:98-101 | every walk extends to one that ends where nothing depends on its last name |
| MigrationSetup.ChainsAgree | analytickit/async_migrations/setup.py:93-106 | there is only one such walk |
| MigrationSetup.SetupIsConsistent | analytickit/async_migrations/setup.py:47-73 | what an accepted setup leaves behind: the inverse map gives a migration that depends on its key, and the root found is the only one |
| MigrationSetup.ChainCompletesExactly | analytickit/async_migrations/utils.py:264-292 | the automatic starts complete the chain if and only if everything after the first run of waiting migrations already was |
| MigrationSetup.ChainStopsAtCompleted | analytickit/async_migrations/utils.py:287-292 | with a completed migration between two waiting ones, the last is never started |
| MigrationSetup.NextTurn | analytickit/async_migrations/utils.py:287-292 | with its predecessors completed, a waiting migration starts, completes, and queues its successor exactly if that waits |
| MigrationSetup.KickedExactly | analytickit/async_migrations/runner.py:215-224 | the kickstart queues the first unapplied migration exactly if it waits to be started |
| MigrationSetup.DrainedExactly | analytickit/async_migrations/setup.py:93-106 | what processing the queue until it is empty comes to |
| MigrationSetup.AsyncMigrations.SetupModel | analytickit/async_migrations/setup.py:79-90 | a migration that is not hidden gets a row once; an existing row keeps its status |
| MigrationSetup.NewRowsAreNotStarted | analytickit/async_migrations/setup.py:48-49 | after the setup there is a row for every migration that shows; the new ones wait, the others are as they were |
| MigrationSetup.AsyncMigrations.Register | analytickit/async_migrations/setup.py:44-70 | accepts if and only if there is at most one root and no unapplied migration is overdue; finds the root |
| MigrationSetup.AsyncMigrations.Invert | analytickit/async_migrations/setup.py:72-73 | every dependency is mapped to the last migration that has it, and nothing else is mapped |
| MigrationSetup.AsyncMigrations.RegisterDefinitions | analytickit/async_migrations/setup.py:44-73 | an accepted configuration is consistent and has the root that was found |
| MigrationSetup.AsyncMigrations.SetupAsyncMigrations | analytickit/async_migrations/setup.py:35-76 | accepts if and only if there is at most one root and every overdue migration is completed, unless versions are ignored; then every migration that shows has one row, those from before unchanged, and the first unapplied one is kicked off if automatic starts are on |
| MigrationSetup.AsyncMigrations.KickstartMigrationIfPossible | analytickit/async_migrations/setup.py:93-106 | the walk terminates at the first unapplied migration, with every earlier one applied, or at the chain's end |
| MigrationSetup.AsyncMigrations.RunNext | analytickit/async_migrations/runner.py:215-224 | queues a fresh start exactly if dependency, release range and status allow it |
| MigrationSetup.AsyncMigrations.CompleteAsyncMigration | analytickit/async_migrations/utils.py:264-292 | completes the row and tries the migration that depends on it |
| MigrationSetup.AsyncMigrations.StartAsyncMigration | analytickit/async_migrations/runner.py:30-99 | the checks at startup, in their order, with the status each leaves |
| MigrationSetup.AsyncMigrations.TriggerRequest | analytickit/api/async_migration.py:79-108 | accepted if and only if nothing runs and the release is in range, whatever the status; then the migration is starting and one fresh start is queued |
| MigrationSetup.AsyncMigrations.ResumeRequest | analytickit/api/async_migration.py:110-123 | accepted if and only if errored, whatever else runs; then the migration is running and one task that goes on with it is queued |
| MigrationSetup.AsyncMigrations.ProcessTask | analytickit/tasks/async_migrations.py:20-26 | the first task is taken: a fresh start goes through the checks, a resumed migration goes on if it still runs, and either then ends as its operations do |
| MigrationSetup.ProcessMeaning | analytickit/tasks/async_migrations.py:20-26 | which tasks run operations, and what each ending of those leaves in the rows and the queue |
| MigrationSetup.ResumedCompletes | analytickit/api/async_migration.py:110-123 | a resumed migration whose operations pass ends completed, with its waiting successor queued |
| MigrationSetup.AsyncMigrations.ResumeAndProcess | analytickit/api/async_migration.py:110-123 | the request and its task, for every ending |
| MigrationSetup.AsyncMigrations.DrainQueue | analytickit/async_migrations/utils.py:287-292 | processing the queue terminates, having started the waiting migrations in chain order, each after its predecessor completed |
| MigrationSetup.AsyncMigrations.KickstartAndDrain | analytickit/async_migrations/setup.py:75-106 | from a boot with nothing running to an empty queue: which migrations were started, in what order, and when the whole chain is completed |
| FeatureFlags.VerdictMeaning | analytickitanalytics/feature_flags.py:42-60 | on if any condition matches, otherwise undecided if any is inconclusive, otherwise off |
| FlagMeaning.FlagMeans | analytickitanalytics/feature_flags.py:42-60 | a flag is on for whom a condition matches, otherwise undecided if one is, otherwise off |
| FlagMeaning.FirstOtherDecides | analytickitanalytics/feature_flags.py:65-67 | a condition's filters all match, or the first that does not decides |
| FlagMeaning.ConditionMeaning | analytickitanalytics/feature_flags.py:63-74 | a condition is what its filters are, but fails for who matches them and is not in the rollout, by the hash of flag key and user id |
| FeatureFlags.ConditionOrderIsIrrelevant | analytickitanalytics/feature_flags.py:42-60 | reordering the conditions of a flag changes no verdict, unless one condition raises and another matches |
| FeatureFlags.ConditionOrderExactly | analytickitanalytics/feature_flags.py:42-60 | every reordering gives the same verdict if and only if that is not so |
| FeatureFlags.OrderMayMatter | analytickitanalytics/feature_flags.py:46-53 | two conditions in one order give an error and in the other an answer |
| FlagMeaning.OperatorsPoint | analytickitanalytics/feature_flags.py:117-127 | "gt" matches if the property is the bigger number or text, the text with the bigger character at the first difference or the longer one, and "lt", "gte" and "lte" accordingly |
| FlagMeaning.TypesDoNotMix | analytickitanalytics/feature_flags.py:117-127 | none of the four matches between values of different types |
| FlagMeaning.ListsCompareAtFirstDifference | analytickitanalytics/feature_flags.py:117-127 | lists are ordered where they first differ |
| FlagMeaning.ExactMeaning | analytickitanalytics/feature_flags.py:92-100 | "exact" is equality by value, or being one of a list |
| FlagMeaning.TextOperatorsMeaning | analytickitanalytics/feature_flags.py:105-115 | "icontains" looks for the filter's text in the property's without regard to case, and "regex" searches the property's text |
| FlagMeaning.KnownAndUnknown | analytickitanalytics/feature_flags.py:77-88 | nothing is known of a property that is not given; one that is given is set |
| FeatureFlags.OrderingOperatorsAgree | analytickitanalytics/feature_flags.py:92-127 | for numbers and text, the four ordering operators and "exact" describe one total order |
| FeatureFlags.NegationsComplement | analytickitanalytics/feature_flags.py:92-115 | of an operator and its negation exactly one matches a known property, except that an invalid regular expression matches with neither |
| FeatureFlags.MatchAllStable | analytickitanalytics/feature_flags.py:63-69 | a conclusive result of filters in order survives more properties |
| FeatureFlags.ConditionStable | analytickitanalytics/feature_flags.py:63-74 | so does that of a condition |
| FeatureFlags.SettlingKeepsVerdict | analytickitanalytics/feature_flags.py:46-60 | deciding inconclusive conditions later keeps a definite verdict, or raises |
| FeatureFlags.EvaluationRaisesExactly | analytickitanalytics/feature_flags.py:42-129 | evaluation raises if and only if, before any matching condition, an ordering filter whose predecessors all match meets a value of its own type that does not compare |
| FeatureFlags.AnswerStable | analytickitanalytics/feature_flags.py:42-129 | a definite answer survives an extension of the properties if and only if the extension has no such clash; "off" always survives |
| FeatureFlags.AlwaysComparesExactly | analytickitanalytics/feature_flags.py:117-127 | the values that compare with all values of their type are the booleans, numbers, texts and the empty list |
| FeatureFlags.AnswerFinal | analytickitanalytics/feature_flags.py:117-127 | where ordering filters compare with such values only, a definite answer is final |
| FeatureFlags.MoreInformationMayRaise | analytickitanalytics/feature_flags.py:117-118 | one more property turns a match into an error |
| FeatureFlags.HigherRolloutKeepsAnswer | analytickitanalytics/feature_flags.py:63-74 | raising the rollout of any condition unmatches no user and changes no variant |
| FlagRollout.SlotsDisjoint | analytickitanalytics/feature_flags.py:23-39 | no hash falls to two variants |
| FlagRollout.SlotsCover | analytickitanalytics/feature_flags.py:23-39 | the variants cover exactly the hashes below the sum of their percentages |
| FlagRollout.VariantGetsItsShare | analytickitanalytics/feature_flags.py:17-39 | the number of hash values of a variant is within one of its percentage of them |
| FlagMeaning.RolloutAdmitsItsShare | analytickitanalytics/feature_flags.py:63-74 | a rollout of p percent admits p percent of the hash values and at most one more |
| FlagMeaning.MatchedUserGetsVariant | analytickitanalytics/feature_flags.py:17-51 | who is matched gets the named variant whose percentages enclose the salted hash of flag key and user id, and plain "on" if none does |
| FlagRollout.OneHashHasNoVariant | analytickit/api/feature_flag.py:138-146 | percentages that sum to 100 leave exactly one hash value without a variant |
| FlagRollout.VariantLookupTable | analytickitanalytics/feature_flags.py:31-39 | each row begins where the one before it ends, at the sum of the percentages so far |
| FlagRollout.GetMatchingVariant | analytickitanalytics/feature_flags.py:23-28 | finds the variant whose slot the user's hash is in, or none if there is none |
| FlagRollout.MatchFeatureFlagProperties | analytickitanalytics/feature_flags.py:42-60 | the loop with its early return and its flag computes the verdict |
| FlagClient.Client.AskBothWays | analytickitanalytics/client.py:455-566 | what the two ways of asking return: evaluated locally they agree on every key, duplicate keys and undecided flags included, and otherwise on loaded keys if no flag forces the fallback |
| FlagClient.Client.AskForSoleFlag | analytickitanalytics/client.py:397-566 | what both ways of asking return for a flag: off if it is inactive or for a group that is not passed, whatever its conditions and the server say of it alone; nothing local if it is kept across identification or for an unknown type of group; and otherwise its evaluation |
| FlagClient.NeverDecidedHere | analytickitanalytics/client.py:399-415 | the two kinds of flags that only the server can decide |
| FlagClient.OffForEverybody | analytickitanalytics/client.py:402-423 | an inactive flag, and a group flag without its group, are off |
| FlagClient.EvaluatedForWhom | analytickitanalytics/client.py:425-428 | a group flag is what it would be for a person with the group's key and properties |
| FlagClient.IndependentOfOthers | analytickitanalytics/client.py:397-428 | a group flag does not depend on the person, and a person flag not on the groups |
| FlagClient.LastDefiniteCounts | analytickitanalytics/client.py:475-492 | of several flags with one key, the last that can be decided counts |
| FlagClient.AgreeExactly | analytickitanalytics/client.py:494-566 | they agree on a loaded key, whatever the server would say, if and only if no flag forces the fallback |
| FlagClient.ServerOverridesAnswer | analytickitanalytics/client.py:557-562 | a flag that is on when asked for alone and off when asked for with all |
| FlagClient.AgreeWithServer | analytickitanalytics/client.py:494-566 | when they agree given the server's answer |
| FlagClient.UndecidedNeedsFallback | analytickitanalytics/client.py:539-557 | a loaded key without a local answer forces it |
| FlagClient.Client.GetFeatureFlag | analytickitanalytics/client.py:455-523 | the last definite answer among the flags of that key, or else the remote one |
| FlagClient.Client.GetAllFlags | analytickitanalytics/client.py:525-566 | for every key: the last definite answer, overridden by the remote ones exactly where some flag forced the fallback |
| EventPipeline.RunConserves | analytickitanalytics/consumer.py:70-117 | for any consumers and any interleaving: the unfinished count is queued + taken and unacknowledged + oversized, and every dequeued message is in hand, requested or oversized, as often as it was dequeued |
| EventPipeline.StepCounts | analytickitanalytics/consumer.py:85-88 | each step of each thread keeps the count |
| EventPipeline.StepPlaces | analytickitanalytics/consumer.py:91-117 | each step neither loses nor duplicates a message |
| EventPipeline.EnqueueExactly | analytickitanalytics/client.py:323-329 | a message is refused exactly if the queue is bounded and full |
| EventPipeline.SendableOrOversized | analytickitanalytics/consumer.py:15-108 | a message of at most 32768 bytes is sent and a bigger one is dropped |
| EventPipeline.FlushMeansHandedOver | analytickitanalytics/client.py:331-337 | when flush returns, what was accepted was handed to request, each exactly as often as accepted |
| EventPipeline.FlushReturnsExactly | analytickitanalytics/client.py:331-337 | once all is drained and uploaded, flush returns if and only if nothing oversized was accepted |
| EventPipeline.OversizedBlocksFlushForever | analytickitanalytics/consumer.py:104-108 | after one oversized message the count is never zero again |
| EventPipeline.OversizedMessageStaysUnfinished | analytickitanalytics/consumer.py:104-108 | one oversized message, taken and dropped, leaves the count at one with nothing queued or under way, and above zero ever after |
| EventPipeline.BatchesAreBounded | analytickitanalytics/consumer.py:99-113 | every batch has at most flush_at messages of at most 32768 bytes each, fewer than 475000 bytes without its last, and fewer than 475000 + 32768 in all |
| EventPipeline.SingleConsumerIsFifo | analytickitanalytics/consumer.py:91-117 | one consumer hands over the sendable messages in the order of acceptance, without gaps |
| EventPipeline.StoppedTakesNothing | analytickitanalytics/consumer.py:58-68 | once the paused consumers are past their batch, nothing more is taken or requested |
| EventPipeline.JoinLosesExactly | analytickitanalytics/client.py:339-352 | whatever any number of consumers are doing, joining some of them may return with messages in the queue if and only if there are some when it begins |
| EventPipeline.JoinLosesMessage | analytickitanalytics/client.py:339-352 | a message that was accepted, and is never requested, because join came first |
| EventPipeline.StoppedLosesTheQueue | analytickitanalytics/client.py:339-352 | once all consumers have ended, what was accepted and not handed over is exactly what is queued or was oversized |
| EventClient.MessageQueue.Put | analytickitanalytics/client.py:323-329 | refuses if and only if the queue is bounded and full; otherwise appends and counts |
| EventClient.EventConsumer.Next | analytickitanalytics/consumer.py:91-117 | takes a prefix of the queue and returns its sendable messages in order; it stops only when the time is up, the queue is empty, there are flush_at messages, or 475000 bytes are reached |
| EventClient.EventConsumer.Upload | analytickitanalytics/consumer.py:70-89 | hands over one batch and acknowledges exactly its messages, whether or not the upload works |
| EventClient.UploadIsRun | analytickitanalytics/consumer.py:70-117 | an undisturbed upload is a run of the state machine that returns its consumer to the top of the loop, so all that holds of runs holds of uploads |
| EventClient.TwoShareABatch | analytickitanalytics/consumer.py:99-113 | two small messages go in one batch |
| EventClient.EventConsumer.PauseConsumer | analytickitanalytics/consumer.py:66-68 | the consumer's loop is to end |
| EventClient.Client.constructor | analytickitanalytics/client.py:82-110 | creates all consumers and remembers only the last |
| EventClient.Client.Enqueue | analytickitanalytics/client.py:313-329 | the three ways to accept a message, when one is refused, and which of them counts as unfinished |
| EventClient.Client.Join | analytickitanalytics/client.py:339-352 | pauses exactly the remembered consumers, and raises where there was never a list |
| EventClient.StartAndJoin | analytickitanalytics/client.py:82-110 | of a new client, join pauses every consumer if and only if there is at most one, and raises if and only if there is none |
| Timer.StepKeepsInv | analytickit/timer.py:41-99 | schedule, cancel, clock and worker each keep: pending tasks in order; every task exactly one of pending, cancelled and popped; pops in order and never early; no wait without end while a task is pending, and none past the first deadline but for the time between reading the clock and beginning to wait |
| Timer.RunKeepsInv | analytickit/timer.py:41-99 | all of that under every interleaving |
| Timer.DeadlinesInOrder | analytickit/timer.py:87-99 | the first pending task has the earliest deadline, as the worker takes for granted |
| Timer.CancelledNeverRuns | analytickit/timer.py:57-63 | a task cancelled while pending never runs, whatever happens before and after |
| Timer.DueTaskIsPopped | analytickit/timer.py:71-85 | no wake-up is lost: a first task that is due, and has been for as long as its wait began late, is popped by the next turn of a worker that is not busy |
| Timer.FirstIsPopped | analytickit/timer.py:71-85 | whatever the thread is doing, also a job, once that or its wait is over it pops the first task |
| Timer.PendingTasksRun | analytickit/timer.py:71-85 | so every pending task runs, without anything else being scheduled or cancelled |
| Timer.ScheduledTasksRun | analytickit/timer.py:41-85 | a task that is scheduled in any reachable state runs |
| Timer.WaitEndsLate | analytickit/timer.py:75-80 | a wait that ends after the first deadline by the time between reading the clock and beginning to wait |
| Timer.SingleThreadedTimer.StartThread | analytickit/timer.py:66-69 | starts the thread once |
| Timer.SingleThreadedTimer.ScheduleTask | analytickit/timer.py:41-55 | starts the thread, which may wait on an empty map first, and then adds the task and notifies |
| Timer.SingleThreadedTimer.CancelTask | analytickit/timer.py:57-63 | performs the cancel step; cancelling twice or too late removes nothing |
| Timer.SingleThreadedTimer.SleepTimeUntilNextTask | analytickit/timer.py:92-99 | the least time that is left to any pending task, and none if nothing is pending |
| Timer.SingleThreadedTimer.RunOnce | analytickit/timer.py:71-85 | is a run of the worker's steps from taking the lock to giving it back, and gives out a job only when its deadline has come |
| Calendar.FirstDayFormula | analytickit/utils.py:798-802 | the first of any month, as counted by years and leap days, is where the months before it end |
| Calendar.ThirtyOneDaysLater | analytickit/utils.py:59-60 | 31 days after the first of a month lies in the very next month |
| Calendar.DateRoundTrip | analytickit/utils.py:799-802 | dates and day counts correspond one to one |
| Calendar.MonthIsUnique | analytickit/utils.py:799-802 | no day is in two months |
| Calendar.Epoch | analytickit/utils.py:788-802 | the number and weekday of January 1, 1970 |
| Calendar.LeapDay | analytickit/utils.py:788-802 | those of the leap day of 2000 |
| Calendar.LastDay | analytickit/utils.py:788-802 | those of the last day of year 9999 |
| DateRange.GetDaterange | analytickit/utils.py:770-803 | nothing without both ends; otherwise buckets that follow one another from the one with the start to the one with the end; an error exactly if a step leaves the years 1 to 9999 |
| DateRange.EvenRange | analytickit/utils.py:793-796 | so for all frequencies but the month |
| DateRange.MonthRange | analytickit/utils.py:797-802 | so for the month |
| DateRange.TilesCover | analytickit/utils.py:770-803 | every moment between the first bucket and the end lies in some bucket |
| DateRange.TilesDisjoint | analytickit/utils.py:770-803 | and in no other |
| DateRange.MonthsTile | analytickit/utils.py:797-802 | by month: the first day of every month from the start's to the end's, none skipped or repeated |
| DateRange.WeeksTile | analytickit/utils.py:791-796 | by week: every Sunday from the one on or before the start |
| DateRange.DaysTile | analytickit/utils.py:788-796 | by day: midnight of every day from the start's to the end's, none skipped or repeated |
| DateRange.HoursTile | analytickit/utils.py:793-796 | by hour: the start and every 3600 seconds after it, up to the end |
| DateRange.MinutesTile | analytickit/utils.py:793-796 | by minute: the start and every 60 seconds after it, up to the end |
| DateRange.MonthStep | analytickit/utils.py:800-802 | "31 days later, then day 1" is the next month, or the range ends before the calendar does |
| DateRange.EdgesRaise | analytickit/utils.py:792-796 | the last day, by day, is one bucket within the calendar and raises; the first day, by week, begins before it |
| DateRange.DaysOverflowExactly | analytickit/utils.py:793-796 | a range by day raises exactly if it ends on the last day of year 9999 |

## Left out

- Cohorts.CohortTable.WillCreateLoops: does not say which of the two errors is reported where both defects are reachable, because that depends on the order of the stack and no caller distinguishes them for its decision.
- EventClient.EventConsumer.Next: sees the queue as one thread does; other threads' steps in between are in `EventPipeline`.
- Cohorts: other fields, property groups and their nesting, text that is not a number, and the calculation of members.
- Migrations: the web framework, the broker and the databases; e-mails, analytics events, error rows, timestamps and query ids, on which no decision depends. Revoking a task is taken to kill its worker, and a rollback to be one step.
- Migrations: version comparison, service requirements, prechecks and health checks are parameters; a health check that fails is a forced stop.
- Migrations: the periodic check takes a task that is still waiting in the queue for a crashed one; the model takes its finding of a crash as true.
- Migrations: an overridden `progress`, the dependency that is ignored in test mode, and the text of errors. A lookup of a row that does not exist raises; in the model it changes nothing.
- Flags: loading them, reporting which were asked for, and logging. Regular expressions, lower case, text conversion and SHA-1 are parameters; hashes and percentages are exact rationals, so floating-point rounding and NaN do not occur; dictionaries as property values do not, either.
- Events: request retries, backoff, compression, HTTP status and encoding failures; a message's size is a parameter. How often the clock leaves time is a parameter. Waiting for a thread to end is not modelled.
- Timer: errors in tasks, and two threads that both find the thread not started.
- Dates: time zones and daylight saving, and the error for an unknown frequency.
- Authentication, dashboards, insights, plugins and query generation: glue code.
