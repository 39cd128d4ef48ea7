# A verified model of the agent harness

This project models the stateful parts of the agent harness service and of its command handler, and proves
what they keep over every run:

- the task executor: tasks as rows, one `Step` per database transaction, any interleaving of resolve, claim,
  completion, stale recovery, resumption, manual pickup, task_data writes and project changes (`Tasks`), when a task can be
  claimed (`Pickup`), whose claim a completion ends (`Workers`), when a failed task can be resumed (`Resumption`), the
  transactions as written, row by row (`TaskExecutor`), and the poll with its per-project cap and exponential back-off (`Dispatch`);
- edits of a task's dependency list through the project service, with the search that refuses cycles, and what they
  leave of the executor's guarantees (`DependencyEdits`);
- agent schedules and their runs, where a slow worker may complete a run after it was recovered (`Schedules`);
- the artifact store, which computes versions from replica reads of any age and relies on unique indexes to
  arbitrate (`Artifacts`), and what that gives to the new-slug guard, to archiving and to the three ways of asking
  for the latest version (`ArtifactStore`);
- memory slugs: the normaliser, the safety rule (`Slugs`), the rewriting rules that define the normaliser's results
  without its passes (`NormalForms`), the files they name (`MemoryPaths`), and what a
  session finds in those files when it starts (`Materialization`);
- the command handler in Go: `**` globs (`Globs`), the bounded line reader and its loop (`BoundedLines`), and the
  concurrent reply protocol (`Proxy`);
- the async cache, as coroutine steps between awaits (`AsyncCache`), what it holds and answers (`CacheContents`), which
  entry it evicts (`CacheOrder`), and its dictionaries updated in place (`TimedCache`);
- the worklist that cancels subagents (`Subagents`).

A state machine here is a `State`, an `Event` for each atomic step with whatever the environment chooses as
arguments, a function `Step`, and `Run` over a sequence of events. Theorems quantify over every sequence. Where the
source updates rows or dictionaries in place there is a class whose methods do the same and are proved equal to
`Step`, so what is proved of runs holds of the methods. `Text` and `Common` hold shared helpers.

Where the cache's dictionaries are concerned this is itself proved: the class keeps a ghost history and is at all times
equal to the run of that history (`TimedCache.Cache.Promises`).

Findings, each stated as a theorem with its exact condition or a run that shows it:

- A task that lists a dependency twice is never promoted by the executor's own sweep, while the service's cascade after
  a manual status change does promote it (`Tasks.DependenciesCompletedExactly`, `Tasks.RepeatedDependencyIsRefused`,
  `Tasks.CascadeAgreesExactly`, `Tasks.CascadeIgnoresMissing`). The cascade's comment says that deleted dependencies count as met; the code counts only
  those without a row.
- A resumed task can lose its resumability in two ways, although the comments at task_executor.py:687-688 and 893-895
  promise otherwise: its setup fails, which reports no subtype (`Resumption.ResumabilityAfterFailure`), or the flags are
  cleared after the session has already failed (`Resumption.LateClearLosesResumability`). Over every run it is resumable
  exactly when the last write of its error_subtype was a resumable one (`Resumption.ResumableExactly`).
- The status guard on completions, which the comment at task_executor.py:757-759 says stops a worker whose task was
  recovered and claimed again, does not: the late completion ends the other worker's claim
  (`Workers.RecoveredWorkerStillCompletes`). A completion ends its own claim exactly when nothing has ended that claim
  before (`Workers.CompletionEndsOwnClaimExactly`).
- An accepted edit of a task that has run breaks the order of the executor exactly when a dependency it adds is not
  COMPLETED (`DependencyEdits.EditKeepsOrderedExactly`): a failed task is then resumed and can be claimed before its
  dependency has run (`DependencyEdits.EditedFailureIsClaimable`).
- A late completion can release a schedule whose next run is executing, and can revive a cancelled one
  (`Schedules.StatusIsTruthExactly`, `Schedules.CancelledStaysCancelledExactly`). Each release allows one more run at
  once (`Schedules.RunsAtOnceAreBounded`), and any number can add up (`Schedules.RunsPileUp`).
- The first unscoped artifact type to use a slug owns it for good (`Artifacts.UnscopedSlugBelongsToOneType`).
- A session starts with the oldest version of each memory that is fetched and readable, not the latest
  (`Materialization.FileHoldsLatestExactly`, `Materialization.SecondSaveIsNotSeen`).
- One distinct key beyond the cache size lets a refresh and a computation of one key overlap
  (`AsyncCache.SingleFlightExactly`).
- The cache, documented as LRU at utils.py:97-98, forgets stale hits: a full cache can evict the key used last
  (`CacheOrder.StaleHitIsForgotten`); it is LRU along a run exactly when no stale hit or repeated store is of a key other
  than the last (`CacheOrder.UseOrderExactly`).

## Model

| member | source | states |
|---|---|---|
| `Tasks.DependenciesCompletedExactly` | ypl/agent_harness_service/projects/task_utils.py:74-97 | comparing a count of rows with the length of the list checks "all exist and are COMPLETED" exactly when no dependency is listed twice; by this test a repeated one keeps the task waiting |
| `Tasks.RepeatedDependencyIsRefused` | ypl/mcp_server/tools/project_tasks.py:620-641 | the list [0, 0] over one COMPLETED task, which batch creation accepts, fails the sweep's test and passes the cascade's |
| `Tasks.CascadeAgreesExactly` | ypl/agent_harness_service/projects/project_service.py:158-196 | the cascade accepts all that the sweep accepts, and the two part exactly on lists with a repeated, missing or deleted dependency |
| `Tasks.CascadeIgnoresMissing` | ypl/agent_harness_service/projects/project_service.py:158-196 | adding a missing or a deleted COMPLETED dependency to any list that both accept makes the sweep refuse it and not the cascade |
| `Tasks.CompletedExcludesFailed` | ypl/agent_harness_service/task_executor.py:245-259 | a task whose dependencies all completed has none failed, so the two tests of the sweep never disagree |
| `Tasks.ExecutorTransitionsExactly` | ypl/agent_harness_service/projects/task_utils.py:29-55 | which status changes the executor makes: seven edges, each taken by some step, no other taken by any, all in the shared table |
| `Tasks.CompletedIsAbsorbing` | ypl/agent_harness_service/task_executor.py:761-788 | over any run a COMPLETED task stays COMPLETED |
| `Tasks.StartedTasksHaveCompletedDependencies` | ypl/agent_harness_service/task_executor.py:218-288 | from rows in order, such as the task tools create, in every reachable state a READY, IN_PROGRESS, COMPLETED or FAILED task has all its dependencies COMPLETED |
| `Tasks.CompletionOrderIsCompletedSet` | ypl/agent_harness_service/task_executor.py:764-788 | the tasks completed along a run are exactly the COMPLETED ones at its end, each once |
| `Tasks.CompletionOrderIsTopological` | ypl/agent_harness_service/task_executor.py:218-288 | the order in which tasks complete is a topological order of the dependency graph |
| `Tasks.StuckTasksNeverStart` | ypl/agent_harness_service/task_executor.py:225-231 | tasks that wait for each other, for a missing task, or on a repeated dependency are never made READY nor claimed by the executor's own steps |
| `Tasks.TasksReachingCycleAreNeverClaimed` | ypl/agent_harness_service/task_executor.py:359-373 | no task on a dependency cycle, or from which one is reached, is ever claimed by the executor's own steps |
| `Tasks.ProductiveStepFalls` | ypl/agent_harness_service/task_executor.py:242-268 | a resolve, claim or successful completion that changes anything lowers the total rank of the tasks |
| `Tasks.EffectiveRunsAreShort` | ypl/agent_harness_service/task_executor.py:242-268 | so a run of such steps has at most three per task |
| `Tasks.QuiescentMeansStuck` | ypl/agent_harness_service/task_executor.py:230-268 | when no such step changes anything, the unfinished tasks hold one another up |
| `Tasks.AllTasksFinishExactly` | ypl/agent_harness_service/task_executor.py:218-271 | when executions succeed and the scheduler stands still, all tasks are COMPLETED if and only if no group was stuck at the start |
| `Tasks.AcyclicGraphIsNeverStuck` | ypl/agent_harness_service/task_executor.py:218-227 | when no walk along dependencies returns to a task, every dependency exists and none is listed twice, no group is stuck |
| `Tasks.StuckGroupExactly` | ypl/agent_harness_service/task_executor.py:218-288 | some group is stuck if and only if a dependency is missing or repeated or there is a cycle |
| `Tasks.AllTasksFinishOnSoundGraphs` | ypl/agent_harness_service/task_executor.py:218-271 | when executions succeed and the scheduler stands still, all tasks are COMPLETED if and only if nothing is missing, nothing is repeated and there is no cycle |
| `Tasks.ClaimsAreConserved` | ypl/agent_harness_service/task_executor.py:359-384 | from any state and over any run, per task: claims, with one in progress at the start, are effective completions plus stale recoveries plus one still in progress; claims in a PAUSED project never exceed the settings of forced_pickup, made by the tools, by a task_data write or before the run |
| `Resumption.ResumableExactly` | ypl/agent_harness_service/task_executor.py:774-784 | over every run, a task that could not be resumed at the start can be at the end if and only if it is FAILED, not deleted, has a session, and the last write of its error_subtype, by a completion, by the clearing of the resume flags or by a caller's merge, was a resumable one |
| `Resumption.ResumabilityAfterFailure` | ypl/agent_harness_service/task_executor.py:774-784 | right after resume, claim and another failure the task is resumable exactly when that failure reported a resumable subtype |
| `Resumption.LateClearLosesResumability` | ypl/agent_harness_service/task_executor.py:687-697 | the run: resume, claim, a failure with a resumable subtype, then the clearing of the flags; the task was resumable and no longer is |
| `Resumption.ResumesLastAssigned` | ypl/agent_harness_service/task_executor.py:582-587 | over every run, the resume_session flag is its last write and the sessions are those assigned, in order, so that a resumption continues the one assigned last |
| `Pickup.ClaimStartsExactly` | ypl/agent_harness_service/task_executor.py:343-384 | after any run a claim starts the task if and only if it is READY, neither it nor its project is deleted, and the project is ACTIVE, or PAUSED with forced_pickup turned on by its last write; the flag is then used up |
| `Pickup.ForcedPickupIsClaimed` | ypl/agent_harness_service/task_executor.py:343-384 | a READY task of a PAUSED project is started by the manual trigger and a claim, once for each trigger, and not without it |
| `Pickup.ProjectStatusIsLastSet` | ypl/agent_harness_service/task_executor.py:359-367 | the project status that a claim sees is the last one set; no step of a task changes it |
| `Pickup.DeletedTaskMovesExactly` | ypl/agent_harness_service/task_executor.py:361-366 | over every run a deleted task is never promoted, claimed, recovered or resumed; its status changes exactly when an execution already running completes |
| `Pickup.DeletedExactly` | ypl/agent_harness_service/task_executor.py:236 | a task is deleted exactly once a soft deletion has come |
| `Workers.CompletionEndsOwnClaimExactly` | ypl/agent_harness_service/task_executor.py:757-768 | over every run, a completion ends the claim its worker made if and only if no recovery and no other completion ended that claim in between |
| `Workers.RecoveredWorkerStillCompletes` | ypl/agent_harness_service/task_executor.py:757-768 | the run: claim, recovery, second claim, completion by the first worker, which takes effect on the second claim |
| `TaskExecutor.SweepOneRow` | ypl/agent_harness_service/task_executor.py:243-265 | judging the next row on the half-updated table extends the simultaneous update by that row |
| `TaskExecutor.SweepIsIdempotent` | ypl/agent_harness_service/task_executor.py:230-271 | after one sweep over all rows a second one changes nothing |
| `TaskExecutor.TaskTable.ResolveTaskDependencies` | ypl/agent_harness_service/task_executor.py:218-270 | the in-place sweep, rows in any order, is the simultaneous promotion of all resolvable rows, and returns their number |
| `TaskExecutor.TaskTable.ClaimTask` | ypl/agent_harness_service/task_executor.py:343-384 | a task is claimed exactly when READY in a project that allows pickup, and the claim uses up forced_pickup |
| `TaskExecutor.TaskTable.UpdateTaskCompletion` | ypl/agent_harness_service/task_executor.py:748-788 | only an IN_PROGRESS task is completed or failed, keeping a subtype only if it is resumable |
| `TaskExecutor.TaskTable.RecoverStaleInProgressTasks` | ypl/agent_harness_service/task_executor.py:172-215 | exactly the selected stale rows go back to READY |
| `TaskExecutor.TaskTable.ResumeTask` | ypl/agent_harness_service/task_executor.py:847-905 | a task is resumed, with its last session, exactly when it failed resumably, and each error code is given exactly when its test is the first to fail |
| `TaskExecutor.TaskTable.UpdateTaskData` | ypl/mcp_server/tools/project_tasks.py:1425-1435 | the caller's keys are merged over the stored ones in any status and any project |
| `DependencyEdits.DependsOnItself` | ypl/agent_harness_service/projects/project_service.py:697-706 | the stack search ends and answers exactly whether a walk along dependencies leads from the task back to it |
| `DependencyEdits.EditKeepsAcyclicExactly` | ypl/agent_harness_service/projects/project_service.py:686-706 | searching from the edited task is enough: an acyclic graph stays acyclic exactly when that search finds nothing |
| `DependencyEdits.SetTaskDependencies` | ypl/agent_harness_service/projects/project_service.py:643-719 | each refusal exactly, and the list without repetitions and the status that an accepted edit leaves |
| `DependencyEdits.AcceptedEditIsSound` | ypl/agent_harness_service/projects/project_service.py:643-719 | an accepted edit keeps the project's graph acyclic and the list free of repetitions, and makes a PENDING, BLOCKED or READY task READY exactly when the sweep's own test would |
| `DependencyEdits.EditedRowExactly` | ypl/agent_harness_service/projects/project_service.py:643-719 | the row after an accepted edit, in every status: the requested tasks once each in order of first mention; PENDING, BLOCKED and READY become BLOCKED exactly while a requested task is not COMPLETED and READY otherwise, every other status stays |
| `DependencyEdits.EditKeepsOrderedExactly` | ypl/agent_harness_service/projects/project_service.py:708-719 | for a task in any status: after an accepted edit all started tasks still have their dependencies COMPLETED if and only if an IN_PROGRESS, COMPLETED or FAILED task was given COMPLETED dependencies only |
| `DependencyEdits.EditedFailureIsClaimable` | ypl/agent_harness_service/projects/project_service.py:708-719 | the run: a resumable FAILED task is given an unfinished dependency and resumed, and can be claimed |
| `DependencyEdits.ProjectsAreAcyclic` | ypl/agent_harness_service/projects/project_service.py:686-706 | where every dependency is an undeleted task of the same project and no project's graph has a cycle, no walk over the whole table returns |
| `DependencyEdits.EditKeepsGraphSound` | ypl/agent_harness_service/projects/project_service.py:643-719 | an accepted edit keeps that, for all projects, and adds no repetition |
| `DependencyEdits.EditKeepsCreated` | ypl/agent_harness_service/projects/project_service.py:711-719 | before anything has run, an accepted edit makes READY only a task without dependencies |
| `DependencyEdits.SoundProjectsFinish` | ypl/agent_harness_service/projects/project_service.py:643-719 | so after accepted edits, when executions succeed, the scheduler comes to a standstill only with all tasks COMPLETED |
| `Dispatch.StoredCountIsConsecutiveDenials` | ypl/agent_harness_service/task_executor.py:1010-1059 | over any attempts the stored hit count is the number of consecutive denials, the deadline is one back-off after the last, and denials are spaced by growing back-offs |
| `Dispatch.RepeatedDenialsTakeTime` | ypl/agent_harness_service/task_executor.py:1021-1027 | k + 1 consecutive denials of a project span at least base * (2^k - 1) seconds, or from the j-th back-off on, where doubling reaches the cap, base * (2^j - 1) + (k - j) * cap; the stored deadline is at most one cap after the last |
| `Dispatch.SkippedUntilBackoffExactly` | ypl/agent_harness_service/task_executor.py:1010-1027 | over any attempts a project is skipped exactly until the smaller of base * 2^(k-1) and the cap has passed since the last of its k consecutive denials |
| `Dispatch.TotalBackoffBeforeSaturation` | ypl/agent_harness_service/task_executor.py:1023-1026 | before saturation that sum is base * (2^k - 1) |
| `Dispatch.TotalBackoffExactly` | ypl/agent_harness_service/task_executor.py:1022-1025 | the sum of the first k back-offs in closed form, before and after the cap is reached |
| `Dispatch.CapIsRespected` | ypl/agent_harness_service/task_executor.py:146-169 | for a project dispatched to, the snapshot count plus the cycle's dispatches stays within the cap |
| `Dispatch.DeniedAtMostOnce` | ypl/agent_harness_service/task_executor.py:1010-1027 | a project is denied at most once a cycle |
| `Dispatch.DenialIsLast` | ypl/agent_harness_service/task_executor.py:1010-1056 | all of a project's dispatches in a cycle come before its denial |
| `Dispatch.BatchIsRespected` | ypl/agent_harness_service/task_executor.py:1106-1110 | a cycle never dispatches more than the batch size |
| `Dispatch.CoolingWithinCycle` | ypl/agent_harness_service/task_executor.py:1008-1027 | within a cycle the cooldowns skip exactly the projects cooling at its start or denied since |
| `Dispatch.JudgementMeetsVerdict` | ypl/agent_harness_service/task_executor.py:998-1078 | what the loop computes from its dictionaries is the verdict defined by the history of the cycle |
| `Dispatch.Dispatcher.Consider` | ypl/agent_harness_service/task_executor.py:1010-1092 | the tests for one task, in order, and their effect on the cooldown dictionary; a denial stores the next count and a deadline after the smaller of the doubled base and the cap |
| `Dispatch.Dispatcher.Poll` | ypl/agent_harness_service/task_executor.py:992-1110 | every outcome is the one its history calls for, dispatches are a subsequence of the fetched order, the cycle ends only when it must, and tokens are dispatches plus capacity-blocked tasks |
| `Schedules.RunNumbersAreConsecutive` | ypl/agent_harness_service/scheduler.py:187-204 | run numbers are exactly 1..n over any interleaving |
| `Schedules.NeverMoreThanMaxRuns` | ypl/agent_harness_service/scheduler.py:121-131 | a fixed max_runs M >= 1 bounds the runs ever started even with completions after recovery, and an IN_PROGRESS schedule's newest run is executing |
| `Schedules.RunCountIsTerminalRunsPlusOverwrites` | ypl/agent_harness_service/scheduler.py:262-263 | run_count is the number of terminal runs plus the completions that found no executing run to end |
| `Schedules.StepTruthfulExactly` | ypl/agent_harness_service/scheduler.py:251-292 | a step leaves the status truthful if and only if it is not a completion without an executing run that meets a schedule in progress |
| `Schedules.StatusIsTruthExactly` | ypl/agent_harness_service/scheduler.py:241-292 | all along a run IN_PROGRESS means exactly one executing run, if and only if no such completion occurs |
| `Schedules.StatusMatchesRunsWithoutOverwrites` | ypl/agent_harness_service/scheduler.py:241-292 | in particular while run_count equals the terminal runs |
| `Schedules.RunsAtOnceAreBounded` | ypl/agent_harness_service/scheduler.py:251-292 | over every run, the runs executing at once are at most the completions that released an executing run, plus one if IN_PROGRESS |
| `Schedules.RunsPileUp` | ypl/agent_harness_service/scheduler.py:99-131 | the bound is met for every number k: k slow workers, recovered and then completing their own runs, leave k + 1 runs executing |
| `Schedules.LateCompletionReleasesRunningSchedule` | ypl/agent_harness_service/scheduler.py:251-292 | the race: a completion after recovery makes a schedule PENDING while its second run executes |
| `Schedules.CancelledStaysCancelledExactly` | ypl/agent_harness_service/scheduler.py:251-292 | a cancelled schedule stays cancelled along a run exactly when no completion arrives |
| `Schedules.CompletionRevivesCancelledSchedule` | ypl/agent_harness_service/scheduler.py:251-292 | the run: claim, recovery, claim, first completion, cancel, second completion makes it PENDING again |
| `Schedules.FinalStatusExactly` | ypl/agent_harness_service/scheduler.py:271-292 | over every run a schedule is COMPLETED if and only if the last completion succeeded and was of a one-time schedule or at max_runs, FAILED if and only if that failed or a recovery at max_runs followed; a recurring one ends only at max_runs |
| `Schedules.PausedStaysPausedExactly` | ypl/streamlit_server/pages/agent_schedule.py:326-355 | a paused schedule stays paused and starts no run exactly until a completion, its owner's resumption or a permitted cancellation |
| `Schedules.ResumingUndoesPausing` | ypl/streamlit_server/pages/agent_schedule.py:326-355 | the owner's pause makes a PENDING schedule PAUSED and resuming gives the same row back; other callers change nothing |
| `Schedules.DeletedExactly` | ypl/agent_harness_service/scheduler.py:84-90 | a schedule is deleted exactly once a deletion has come |
| `Schedules.DeletedIsFrozenExactly` | ypl/agent_harness_service/scheduler.py:176-181 | of a deleted schedule only a completion, or a claim while PENDING, which does not look at the deletion, changes anything |
| `Schedules.OneTimeScheduleEndsOnce` | ypl/agent_harness_service/scheduler.py:274-275 | a completed one-time schedule never starts another run |
| `Schedules.ScheduleRow.ClaimAgentSchedule` | ypl/agent_harness_service/scheduler.py:168-212 | the claim transaction is the Claim step |
| `Schedules.ScheduleRow.UpdateRunCompletion` | ypl/agent_harness_service/scheduler.py:221-294 | the completion transaction is the Complete step, whatever the schedule's status; it leaves COMPLETED or FAILED, as the run ended, exactly for a one-time schedule or at max_runs, and PENDING otherwise |
| `Schedules.ScheduleRow.RecoverStaleInProgress` | ypl/agent_harness_service/scheduler.py:99-131 | the recovery loop fails every executing run, counts each, and leaves FAILED exactly at max_runs, PENDING otherwise |
| `Schedules.ScheduleRow.TriggerAgentScheduleNow` | ypl/mcp_common/scheduled_agent_call_helpers.py:576-631 | a manual trigger starts a run exactly for the owner of a PENDING recurring schedule that is not locked; each error is given exactly when its test is the first to fail |
| `Schedules.ScheduleRow.CancelById` | ypl/mcp_common/scheduled_agent_call_helpers.py:470-507 | only a PENDING or PAUSED schedule is cancelled, by its owner or an admin; each error is given exactly when its test is the first to fail |
| `Artifacts.StaleMaximumCollides` | ypl/db/agent_harness.py:729-770 | a version computed from a stale maximum is one the unique index refuses |
| `Artifacts.CommittedCreateReadTrueMaximum` | ypl/agent_harness_service/artifact_store.py:277-302 | a create that commits stores one more than the number of versions, and its read had missed none |
| `Artifacts.VersionsAreContiguous` | ypl/agent_harness_service/artifact_store.py:205-302 | under any interleaving, with each read seeing any earlier state, every key's versions are 1..n in commit order |
| `Artifacts.RunGrows` | ypl/agent_harness_service/artifact_store.py:626-685 | rows are only added, and archiving and deletion are one-way, between any two states of a run |
| `Artifacts.OneUnscopedOwner` | ypl/db/agent_harness.py:729-737 | two unscoped types never both hold versions of one slug |
| `Artifacts.UnscopedSlugBelongsToOneType` | ypl/agent_harness_service/artifact_store.py:183-187 | the first unscoped type to store a slug keeps it: all unscoped rows of the slug have its type |
| `ArtifactStore.NewSlugIsInactiveAtInsert` | ypl/agent_harness_service/artifact_store.py:277-297 | a create with create_new_slug commits only when no version of the key is active, if the activity read is no older than the maximum read |
| `ArtifactStore.NewSlugGuardNeedsReadOrder` | ypl/agent_harness_service/artifact_store.py:277-297 | and that order of reads is needed: with any other pair of reads some run breaks the guard |
| `ArtifactStore.FreshCreateExactly` | ypl/agent_harness_service/artifact_store.py:263-302 | with fresh reads, which of the five errors or which version a create answers, for every key and history |
| `ArtifactStore.LatestFormsAgree` | ypl/agent_harness_service/artifact_store.py:313-327 | for a scoped type the NOT EXISTS filter, DISTINCT ON and the descending LIMIT 1 lookup select the same row for every named key |
| `ArtifactStore.ArchivedSlugStartsOver` | ypl/agent_harness_service/artifact_store.py:645-685 | after archiving a slug its lookup is empty, archiving again flips nothing, and a new-slug create takes max + 1 |
| `ArtifactStore.ArchivingLeavesOthers` | ypl/agent_harness_service/artifact_store.py:645-685 | archiving a slug marks exactly its active rows, as archived only; every other key keeps its lookup, activity and versions |
| `ArtifactStore.FlagsExactly` | ypl/agent_harness_service/artifact_store.py:626-685 | over every run a row is archived or deleted exactly when an event aimed at it did so |
| `ArtifactStore.Store.CreateArtifact` | ypl/agent_harness_service/artifact_store.py:344-480 | with or without a slug, one row is added or nothing changes; which error or version, by the allocation rule and the index |
| `ArtifactStore.Store.ArchiveArtifactsBySlug` | ypl/agent_harness_service/artifact_store.py:672-685 | the loop archives exactly the key's active rows and returns their number |
| `ArtifactStore.Store.ArchiveArtifact` | ypl/agent_harness_service/artifact_store.py:626-642 | one undeleted row is archived, or nothing |
| `Slugs.NormalizeOne` | ypl/agent_harness_service/memory_slug.py:119-146 | the passes as run compute the normaliser's function, which `NormalForms.SlugIsNormalFormExactly` characterises without them |
| `Slugs.NormalizePathToSlug` | ypl/agent_harness_service/memory_slug.py:108-116 | and so do path and prefix together, as `NormalForms.PrefixIsJoined` characterises |
| `Slugs.EndsMdExactly` | ypl/agent_harness_service/memory_slug.py:131-132 | lower-casing before the test never finds an extension that is not ".md" up to ASCII case |
| `Slugs.SegmentsByPart` | ypl/agent_harness_service/memory_slug.py:134-146 | all passes over the whole string amount to cleaning each segment on its own |
| `Slugs.NormalizerRange` | ypl/agent_harness_service/memory_slug.py:119-146 | the outputs of the normaliser are exactly the canonical slugs |
| `Slugs.RoundTrip` | ypl/agent_harness_service/memory_slug.py:131-146 | normalising a canonical slug with ".md" appended gives it back |
| `Slugs.IdempotentExactly` | ypl/agent_harness_service/memory_slug.py:119-146 | an output is a fixed point if and only if it does not end in ".md" |
| `Slugs.PrefixIsJoinExactly` | ypl/agent_harness_service/memory_slug.py:108-116 | normalising under a prefix equals normalising prefix + "/" + path if and only if the prefix does not end in ".md" |
| `Slugs.NormalizedSlugIsSafeExactly` | ypl/agent_harness_service/memory_slug.py:149-186 | a normalised slug is safe if and only if it is non-empty, at most 255 long and does not start with "_" |
| `NormalForms.SlugIsNormalFormExactly` | ypl/agent_harness_service/memory_slug.py:119-146 | the result is the one canonical text that the path without its extension rewrites to, in any order of steps, by these rules: a capital becomes small, a backslash a slash, any other character outside the alphabet a dash; a double dash or slash becomes one; a dash or dot at an end of a segment and a slash at an end of the path go |
| `NormalForms.CharacterKeepsSlug` | ypl/agent_harness_service/memory_slug.py:126-136 | anywhere in a path, a character and what it becomes give the same slug |
| `NormalForms.PrefixIsJoined` | ypl/agent_harness_service/memory_slug.py:108-116 | for every prefix the result is the slug of the prefix without its extension, a slash and the path |
| `MemoryPaths.MemoryStaysInsideScope` | ypl/agent_harness_service/memory_materialization.py:50-96 | a path exists exactly for a known scope and safe slug, and resolves strictly below the workspace's scope directory |
| `MemoryPaths.DistinctMemoriesHaveDistinctFiles` | ypl/agent_harness_service/memory_materialization.py:87-96 | distinct (scope, slug) pairs resolve to distinct files |
| `MemoryPaths.MemoryShadowsExactly` | ypl/agent_harness_service/memory_materialization.py:65-78 | one memory's file is needed as a directory by another exactly when its slug plus ".md/" starts the other's slug |
| `MemoryPaths.StoredSlugIsSafeExactly` | ypl/agent_harness_service/artifact_store.py:68-119 | of the slugs the store accepts, exactly those ending in a newline cannot be materialised |
| `MemoryPaths.PatternIsSafeExactly` | ypl/agent_harness_service/artifact_store.py:68-69 | the store's pattern is the safety rule for one segment without dots of at most 63 characters |
| `MemoryPaths.NewlineIsStoredExactly` | ypl/agent_harness_service/artifact_store.py:68-69 | the store accepts a final newline after exactly what its pattern accepts, and nothing of that is safe |
| `MemoryPaths.StoredMemoriesNeverShadow` | ypl/agent_harness_service/memory_materialization.py:50-96 | no stored memory's file is needed as a directory by another |
| `MemoryPaths.NormalizedSlugIsStorableExactly` | ypl/agent_harness_service/artifact_store.py:68-119 | the store accepts a normalised slug exactly when it has one segment, no dot, 1 to 63 characters and no leading "_" |
| `Materialization.MaterializeMemory` | ypl/agent_harness_service/memory_materialization.py:169-215 | the loop writes each readable row over what its file holds and counts the writes |
| `Materialization.CountWrittenExactly` | ypl/agent_harness_service/memory_materialization.py:169-215 | the count returned is the number of rows written |
| `Materialization.MemoryFileExactly` | ypl/agent_harness_service/memory_materialization.py:50-96 | the file of each row: topic, user or agent directory, the slug and ".md", if and only if the row is scoped and its slug safe |
| `Materialization.OldestFetchedWins` | ypl/agent_harness_service/memory_materialization.py:155-198 | rows come newest first, so that each file ends up with the oldest row fetched for it |
| `Materialization.FileHoldsLatestExactly` | ypl/agent_harness_service/memory_materialization.py:155-198 | on every reachable table and for every limit, the file holds the row of the latest-version lookup if and only if that row was fetched and written and no other version of it was |
| `Materialization.SecondSaveIsNotSeen` | ypl/agent_harness_service/memory_materialization.py:155-198 | a memory saved twice: the session sees its first version |
| `Globs.ConcatenationSplitsPath` | services/command-handler/tools.go:510-541 | a concatenated pattern matches iff the path can be cut so that each half matches |
| `Globs.TableAgrees` | services/command-handler/tools.go:510-541 | the meaning agrees with the recurrence of a pattern-by-path table |
| `Globs.MatchByTable` | services/command-handler/tools.go:510-541 | a table filled row by row from the bottom, without search, decides the same matches as the backtracking |
| `Globs.StarsAreIdempotent` | services/command-handler/tools.go:516-528 | a repeated `**` means the same as one, anywhere in a pattern |
| `Globs.GlobMatch` | services/command-handler/tools.go:511-541 | the backtracking matcher is true exactly when the path splits into runs, any run for `**` and one matching component for every other part |
| `Globs.MatchDoubleStarGlob` | services/command-handler/tools.go:503-508 | the same for strings split at slashes |
| `Globs.AnyDepth` | services/command-handler/tools.go:516-526 | `**/p` matches a path iff p matches it from some component on |
| `BoundedLines.KeptIsLong` | services/command-handler/main.go:137-146 | an oversized line is cut off less than one fragment below the limit |
| `BoundedLines.ReadBoundedLine` | services/command-handler/main.go:134-154 | exactly one line's fragments are consumed; the line is accepted iff it fits and is then complete, otherwise its leading fragments are kept |
| `BoundedLines.QuotedAfterExactly` | services/command-handler/main.go:203-211 | the scan for a request id succeeds exactly on lines with the key, separators and a quoted id, first occurrence first |
| `BoundedLines.OversizedIsRefusedByName` | services/command-handler/main.go:193-213 | an oversized request is refused under its own id, however fragmented, when the id ends a fragment's width below the limit |
| `BoundedLines.ReadLoop` | services/command-handler/main.go:188-245 | the loop judges each line in turn, as `BoundedLines.LineIsJudgedExactly` states, until the input ends or the context is cancelled |
| `BoundedLines.LineIsJudgedExactly` | services/command-handler/main.go:193-237 | a line starts a worker under an id if and only if it is whole, fits, and is white space around a text that decodes to a request with that non-empty id; it is refused under an id if and only if it is whole, does not fit, and what was kept shows that id after "req_id" |
| `BoundedLines.LinesSurviveCutting` | services/command-handler/main.go:134-154 | however each line is cut into fragments, the lines read back are the lines sent |
| `BoundedLines.FragmentationIsInvisible` | services/command-handler/main.go:188-237 | the requests accepted are what the lines ask for by their own text, in order, whatever the fragmentation; an oversized line changes nothing else |
| `Proxy.RepliesNeverInterleave` | services/command-handler/main.go:68-81 | in every reachable state at most one thread writes, and the output is whole reply lines and a piece of at most one more |
| `Proxy.LinesAreReplies` | services/command-handler/main.go:68-77 | splitting whole lines at newlines gives the encoded replies back, in order |
| `Proxy.RequestsAreAccounted` | services/command-handler/main.go:226-230 | each request taken is answered or owed by one thread, and the wait group counts the unfinished workers |
| `Proxy.ExitAnswersEverything` | services/command-handler/main.go:247-251 | on exit the replies, as a multiset of ids by workers and by the reader, are the requests taken, and the output is those replies |
| `Proxy.RepliesSayWhatWasComputed` | services/command-handler/main.go:95-123 | over every run the workers are the accepted requests in order, each replies at most once, under its request's id and with what its handler computed; the reader's replies are refusals of lines it read |
| `Proxy.DrainNeverStalls` | services/command-handler/main.go:247-251 | while draining some thread can always move until the exit |
| `Proxy.EveryRequestIsAnsweredOnce` | services/command-handler/main.go:156-251 | from fragments to replies: workers reply under each id as often as the lines, by their own text, ask for it |
| `AsyncCache.ValuesComeFromTheFunction` | ypl/utils.py:121-191 | every value cached or returned was produced by the function for that key |
| `AsyncCache.HitsAndMissesCountLookups` | ypl/utils.py:133-182 | hits and misses count each lookup once; the rest are waiting or were cancelled while waiting |
| `AsyncCache.OneRefreshPerKey` | ypl/utils.py:121-131 | at most one refresh body per key is in flight, evictions or not |
| `AsyncCache.SingleFlightWithoutEviction` | ypl/utils.py:158-191 | while nothing is evicted, a key has at most one computation or one refresh in flight, never both |
| `AsyncCache.FewKeysNeverEvict` | ypl/utils.py:182-188 | a run over no more keys than maxsize evicts nothing |
| `AsyncCache.SingleFlightExactly` | ypl/utils.py:121-191 | n distinct keys are always single-flight exactly when n is at most maxsize (or maxsize is 0), over all runs and over those whose clock never goes back |
| `AsyncCache.OneKeyTooMany` | ypl/utils.py:182-191 | a run over maxsize + 1 keys, its clock never going back, with a refresh and a computation of one key in flight |
| `AsyncCache.MissesAreSettled` | ypl/utils.py:180-191 | while nothing is evicted, misses are cached keys plus calls in flight plus calls that raised |
| `CacheContents.EntriesAreLastStored` | ypl/utils.py:126-128 | over every run the cache is exactly the entries last stored and not evicted since: the value a lookup's computation returned with the time of its call, or the value a refresh returned with its own clock reading |
| `CacheContents.CallsAreServedExactly` | ypl/utils.py:133-171 | a call is a hit if and only if an entry is held, returns the value last stored, moves the key last if and only if the entry's age is at most the time to live, and schedules a refresh if and only if it is stale or one is wanted and none runs |
| `CacheContents.LockedLookupsAreServedExactly` | ypl/utils.py:173-191 | the same for the second look under the lock, with the time of the call; otherwise a miss |
| `CacheContents.ComputedLookupsReturnTheirValue` | ypl/utils.py:190-191 | a lookup that calls the function returns what the function returned to it |
| `CacheContents.LocksAreHeldByOneExactly` | ypl/utils.py:173-191 | over every run a lock is held if and only if a lookup computes under it, and by one only: errors and cancellations leave none behind |
| `CacheContents.KeysAreMarkedExactly` | ypl/utils.py:121-131 | over every run a key is marked if and only if one refresh of it runs; the refreshes counted are those scheduled |
| `CacheContents.RefreshRunsExactly` | ypl/utils.py:121-126 | a scheduled refresh calls the function if and only if none of its key runs |
| `CacheOrder.OrderIsByLastTouch` | ypl/utils.py:138-147 | over every run the dict lists exactly the cached keys, each once, in order of last fresh hit or first store |
| `CacheOrder.EvictsLeastRecentlyTouched` | ypl/utils.py:182-188 | a key leaves the cache only alone, and every other cached key was touched later |
| `CacheOrder.HitPutsLastExactly` | ypl/utils.py:133-156 | a hit puts its key last exactly when it is fresh or the key is last already |
| `CacheOrder.UseOrderExactly` | ypl/utils.py:97-98 | along a run the dict is in order of last use, as an LRU cache would keep it, if and only if every stale hit and every store onto a present key is of the last key |
| `CacheOrder.EvictsLeastRecentlyUsed` | ypl/utils.py:182-188 | while that holds, eviction takes the least recently used key |
| `CacheOrder.StaleHitIsForgotten` | ypl/utils.py:149-156 | in a full cache of any size above one, a stale hit of the first key and a miss evict the key used last and keep one used earlier |
| `CacheOrder.AcquireReachesFunction` | ypl/utils.py:173-191 | with room for one entry, a lookup that gets the lock returns the cached value or calls the function; only maxsize 0 raises |
| `TimedCache.Cache.Promises` | ypl/utils.py:121-191 | at any time the object's fields are those of the run of its history, so the theorems on runs hold of it |
| `TimedCache.Cache.CacheInfo` | ypl/utils.py:193-194 | the reported figures account for every lookup; without evictions the size is the misses that were stored |
| `TimedCache.Cache.HandleCacheHit` | ypl/utils.py:133-156 | a fresh entry moves to the end, a stale one is served and refreshed in the background |
| `TimedCache.Cache.Lookup` | ypl/utils.py:158-173 | the wrapper up to its first await is the Call step |
| `TimedCache.Cache.EnterLocked` | ypl/utils.py:174-188 | the second look, the eviction and the start of the computation are the Acquire step |
| `TimedCache.Cache.FunctionReturned` | ypl/utils.py:190-191 | storing and releasing are the ComputeDone step |
| `TimedCache.Cache.CancelWaiting` | ypl/utils.py:173-174 | a waiter's cancellation is the CancelWait step |
| `TimedCache.Cache.FunctionRaised` | ypl/utils.py:173-190 | an exception releases the lock and stores nothing: the ComputeFail step |
| `TimedCache.Cache.RefreshRaised` | ypl/utils.py:126-131 | an exception in a refresh removes its mark all the same: the RefreshFail step |
| `TimedCache.Cache.RefreshCacheEntry` | ypl/utils.py:121-126 | a refresh up to its await is the RefreshStart step |
| `TimedCache.Cache.RefreshReturned` | ypl/utils.py:127-131 | storing a refreshed value, over what was there, is the RefreshDone step |
| `Subagents.CollectDescendants` | ypl/agent_harness_service/orchestration.py:222-240 | on any finite forest the worklist ends and collects, each once, exactly the sessions reachable through ACTIVE children |
| `Subagents.Orchestrator.CancelSubagentTasks` | ypl/agent_harness_service/orchestration.py:213-269 | exactly the unfinished tracked descendants are cancelled and counted, every descendant stops being tracked, nothing else changes |

## Left out

- SQL, row locking, Redis, clocks, HTTP, Slack, logging and configuration: each transaction is one atomic step and the environment chooses times, locked rows, limiter answers and counts.
- Status edits by hand and task restarts through the task tools, which may move a task out of COMPLETED, and the cascade of the project service after such an edit (project_service.py:158-196, 613-616), which promotes dependents by its own test; neither is a step of the task runs. The task theorems are about the executor's own steps, resumption, manual pickup, task_data writes, project changes and soft deletion.
- Edits of dependency lists during a run: they are modelled one at a time in `DependencyEdits`, while a task run keeps its graph. Identifiers there are canonical; two spellings of one identifier are not modelled.
- The Slack alert after repeated denials of a project.
- Keys of task_data other than forced_pickup, resume_session and error_subtype; error_subtype is a string or absent. Rows imported from Linear start in any status; the order theorems start from rows in order.
- `complete_task` beyond setting the status, and the session row a task execution creates; task identifiers are row numbers.
- The order in which `get_ready_tasks` fetches tasks: the poll is proved for any fetched list.
- The in-progress count is cached for one poll interval (its docstring says 60 seconds); the poll is proved for any counts, and the cap for one count per project and cycle.
- Answers to a schedule or task identifier that does not parse.
- Edits of a schedule's fields, `max_runs` among them, and the computation of `next_run_at` (cron stays uninterpreted); nothing rechecks `next_run_at` at the claim, so no theorem says that runs wait for it.
- `last_error`, `last_run_at`, timestamps and session links of schedules and runs; a schedule row that has disappeared at completion.
- Uploads, labels, attachments and caller-supplied metadata of artifacts; a metadata write that races with archiving is treated as one step.
- A retried insert after a lost acknowledgement; `list_artifact_versions`, which does not filter archived rows although its documentation says so.
- Lower-casing of characters whose lower-case form lies outside the allow-list, since the next pass turns them into dashes.
- File writes of the materialiser beyond which row's content a file ends up with: paths are proved lexically, without symbolic links, and rows are taken to be created in the order of the table, as the listing by creation time sees them.
- `Slugs.NormalizePathToSlug`: non-string inputs are not modelled.
- `filepath.Match` on one component is an arbitrary function that may report a malformed pattern; paths are already slash-separated.
- The internals of the buffered reader: its answers are any fragments; JSON decoding is an arbitrary function of the trimmed line, and trimming covers ASCII white space.
- Handlers that panic, a marshalling error, failing writes to standard output, and how cancellation changes a handler's reply.
- `Proxy.DrainNeverStalls`: does not bound the time to exit, because a handler may run as long as it likes.
- `cache_clear`, direct calls of `refresh_cache_entry` by users of the cache (there are none), and jitter; `_should_refresh` is an arbitrary answer.
- The exact scheduling of waiters on a lock: any waiter may get a free lock.
- Sessions whose parent links form a cycle through the root, and a session table that changes during the traversal.
