# Agola run scheduler, graphs, keys and groups: a verified model

Agola is a continuous integration server. This project models the parts of it whose correctness is hard to see
from the code, and proves what they are there for:

* **The run scheduler.** A run has a phase, a result that is written once, a stop flag and tasks; executor tasks are
  rows of their own. `RunTypes`, `Scheduler` and `SchedulerCode` hold the values, the rules and the code that changes a
  run. `RunStore` lists the transactions on one run. Two models are built on it. In `SplitModel` all
  transactions interleave freely and a decision may rest on any state read before: this is how `scheduleRun` works, which
  reads in one transaction, writes in a second and submits in further ones. In `SerialModel` one `scheduleRun` is one step.
  `SerialSplit` shows that serial runs are split runs, `SplitWitnesses` what the split model does not promise, and `Completion` (with
  `SerialWitnesses`) when a run can still finish. `SchedulerLaws`, `RunLaws` and `SubmissionLaws` say in plain terms of statuses, conditions and
  flags what the rules decide and what every run keeps. `Runservice` ties the code of `scheduleRun` to both models. `Restart` has the
  renaming of tasks when a run is restarted.
* **Dependency graphs.** `Graph` has paths, cycles, levellings and isomorphisms of finite graphs; `RunConfigs` and `Configs` the
  worklists, checks, levels and the translation from names to ids; `Fixpoint` the repeated advancing of tasks.
* **Reports and execution.** `Reports` and `ExecutorTasks` cover both ends of the executor task protocol, and `Executors` the choice
  of an executor.
* **Flat keys.** `Runes`, `FlatEscape` and `FlatUnescape` work on bytes of UTF-8 and model `escape` and `unescape` with their
  buffers; `FlatKeys` brings the two together.
* **Tables.** `Revisions` covers the generated compare-and-set updates, `PagedScan` the paged scans of export and rebuild.
* **Project groups.** `Paths`, `GroupTree`, `GroupLookup`, `GroupRuns` and `GroupActions` model the tree of groups, paths as
  strings, lookups by path and the handlers that create, move and delete groups; `GroupLaws` says in plain terms what these accept.

`dafny verify dfyconfig.toml` checks the whole project.

How the source's forms appear here: an object that is changed in place is a class whose methods are proved against a function
of the old state; a walk over a Go map takes the keys in an arbitrary order; an error return is an `Option`, a flag or a
`Result`; a serializable transaction is one step, and a failing one changes nothing. Clocks, generated ids, the result of
sending a task and whether data can be encoded or decoded are parameters. `hide` statements in proofs keep definitions
out of sight that the proof does not use.

Results that differ from what the code or its comments suggest:

* At-most-once submission holds in the serial model only. `SplitWitnesses.SubmittedTwice` gives an interleaving that submits a
  task twice. A check of the stored status at submission would rule that out (`SplitModel.OnceIfRechecked`); it is sufficient,
  not necessary. `SplitModel.RepetitionByStatus` says for which statuses it is exact, `SplitWitnesses.StatusDoesNotTell` that the
  others cannot decide.
* In the split model neither "finished" nor "stopped" is final for executor tasks: `SplitWitnesses.SubmittedAfterTheEnd` stores one for a
  run that is finished and stopped. With the same check a finished run never has one (`SplitModel.FinishedIsFinalIfRechecked`).
  The check does not repair "stopped": `SplitWitnesses.SkippedAndSubmitted` passes it after stop. A checked submission comes
  after stop exactly when stop was set between its commit and its insert (`SplitModel.RecheckedFromUnstopped`). A submission that finds the
  revision of the run unchanged since the commit is free of all of this (`SplitModel.SameRevisionIsSafe`), so that with this
  check stop is final (`SplitModel.StopIsFinalIfUnchanged`).
* A run can be stuck: when an executor task is stored as cancelled while its run task is running, no report of it is accepted any more,
  and the run never finishes as long as executors keep their final phases (`Completion.StuckForever`, an instance in
  `SerialWitnesses.StuckRun`). Every other unfinished run of an acyclic config can still finish (`Completion.CanFinishExactly`). An executor
  that cancels only what has not started never gets a run there (`Completion.OrderlyNeverStuck`).
* A run that is cancelled while it is queued is never archived, unless none of its tasks is unstarted (`RunLaws.CancelledIsNeverArchived`):
  only tasks that are over are fetched. The loop at the end of `advanceRun`, which is to mark unstarted tasks as fetched, never
  finds one (`RunLaws.CommitFetchesNothing`): a run with a result is not over before its tasks are.
* The round trip of `unescape` and `escape` fails exactly for keys that have more than 8 runes, 2 more than a multiple of 8, and end
  in `.f` (`FlatKeys.RoundTrip`): `unescape` takes their ending for the file marker.
* A comment in `advanceRunTasks` says that its result is not deterministic because of the order of the tasks. The
  result does not depend on the order (`SchedulerCode.AdvanceRunTasks`), because parents are looked at in the run as it was
  before; what may take several calls is the fixpoint (`Fixpoint.FixpointWithinLevels`).
* Not every failing write leaves the object in memory at the revision it was read at. An update leaves the raised one when the object cannot
  be encoded, and when the write to the query table fails after the row itself was written (`Revisions.Table.Update`); an insert
  leaves revision 1 in the second case only (`Revisions.Table.Insert`). The transaction is rolled back in both.
* Reports converge only if no second final phase and no mix of running and cancelled is ever sent (`Reports.ConvergesExactly`).
* Deleting a project group takes the path of exactly the groups below it (`GroupRuns.PathsAfterDelete`): of other groups than itself
  exactly when it has a subgroup (`GroupRuns.DeleteOrphansSubgroups`, an instance in `GroupRuns.DeleteLeavesOrphan`). Deleting an owner always
  leaves groups without a path (`GroupRuns.RemoveOwnerAlwaysOrphans`). A lost path is lost for ever (`GroupRuns.OrphansStayOrphans`).
* `escape` writes outside its buffer exactly for keys with an invalid byte that have at least 8 runes or a character to
  escape (`FlatEscape.Escape`, an instance in `FlatEscape.EscapeOutOfRange`): the loop meets a replacement rune that is longer than the byte it stands for.
* A rebuild fails not only when data cannot be decoded, but also when the data of two rows holds the same id (`PagedScan.RebuildTable`, an
  instance in `PagedScan.RebuildClash`).
  Data that holds the id of its row rules that out (`PagedScan.OwnIdsNeverClash`).

## Model

| member | source | states |
|---|---|---|
| `SerialModel.NoDeadlock` | internal/services/runservice/scheduler.go:81-300 | in every reachable running state of an acyclic config, a scheduling step that changes nothing and submits nothing has a reason: an executor task is stored, or a finished task has an archive to fetch, or a task waits for approval, or no executor accepts a ready task |
| `Completion.CanFinishExactly` | internal/services/runservice/scheduler.go:732-810 | when a run can still finish: with executors that never leave a final phase, a queued or running run of an acyclic config has a continuation that ends with it finished if and only if no stored executor task is cancelled while its task is running |
| `Completion.CanFinish` | internal/services/runservice/scheduler.go:81-300 | then there is even a continuation in which each executor task goes through the phases of the executor in their order |
| `Completion.StuckForever` | internal/services/runservice/scheduler.go:748-752 | a run with a cancelled executor task whose task is running never finishes, whatever happens, as long as final phases are kept |
| `SerialWitnesses.StuckRun` | internal/services/runservice/scheduler.go:748-752 | a concrete serial run that gets there: running is reported, then the executor task is cancelled |
| `Completion.OrderlyNeverStuck` | internal/services/executor/executor.go:1149-1222 | executors that cancel only what has not started, and never leave a final phase, never bring a run there |
| `Completion.OrderlyCanAlwaysFinish` | internal/services/runservice/scheduler.go:81-300 | so with such executors a run of an acyclic config can always still finish |
| `Completion.Round` | internal/services/runservice/scheduler.go:495-611 | one scheduling step with willing executors on a settled run, and settling again with steps that an executor can take, finishes the run or brings it closer to its end: the result gets set, a task finishes, or a task gets its approval |
| `Completion.ScheduleMoves` | internal/services/runservice/scheduler.go:495-611 | scheduling a settled running run with willing executors changes the run or submits a task |
| `Completion.CommitChange` | internal/services/runservice/scheduler.go:545-572 | what a commit that changes a run achieves: a result, a finished task, or a new request for approval |
| `Completion.Drain` | internal/services/runservice/scheduler.go:870-948 | unless the run is stuck, all executor tasks can be brought to an end without leaving a final phase: their last phase is reported, logs and archives are fetched, and they are deleted |
| `Completion.StepStaysFine` | internal/services/runservice/scheduler.go:176-179 | every serial step keeps that a task waiting for approval has not been approved yet |
| `SerialModel.StuckHasReason` | internal/services/runservice/scheduler.go:81-300 | the same for every state that keeps the serial invariant |
| `SerialModel.SubmittedAtMostOnce` | internal/services/runservice/scheduler.go:229-300 | over a whole serial run no run task is submitted twice, every task that ran or has an executor task had its dependencies met, and at most one executor task per run task is stored |
| `SerialModel.FinishedIsFinal` | internal/services/runservice/scheduler.go:615-693 | in a serial run: once the run is finished, then for ever the result is set and stays, all tasks are finished, no executor task is stored and none is created |
| `SerialModel.StopIsFinal` | internal/services/runservice/scheduler.go:81-104 | in a serial run: once stop is set no executor task is created any more, and the stop flag stays |
| `SerialModel.SerialStepKeeps` | internal/services/runservice/scheduler.go:495-611 | every serial step keeps the serial invariant (also: executor tasks exist only while the run is running) and takes nothing back that was settled |
| `SerialModel.SubmissionsKeep` | internal/services/runservice/scheduler.go:229-300 | the submission loop keeps the invariant in every order of the tasks and for every outcome of choosing an executor and of sending, and leaves the run alone |
| `SerialModel.ReadyOrWaiting` | internal/services/runservice/scheduler.go:106-184 | when a commit changes nothing and no executor task is stored, some task is runnable or waits for approval |
| `SerialModel.StoppedRunnable` | internal/services/runservice/scheduler.go:97-104 | after the commit of a stopped run only tasks that already have an executor task look ready |
| `SerialSplit.SerialRunIsSplitRun` | internal/services/runservice/scheduler.go:495-611 | every serial run is an interleaving of the split model that passes through the same states in the same order, with each scheduleRun as a commit followed by its submissions |
| `RunLaws.ParentsAreFetched` | internal/services/runservice/scheduler.go:150-163 | in every state of every interleaving: when a task has an executor task, runs, ran, or was ever submitted, each of its parents has succeeded, failed or been skipped, and no archive of it is left to fetch |
| `RunLaws.ParentsMeetTheirConditions` | internal/services/runservice/scheduler.go:48-79 | and each of its edges lists a condition that the parent meets: an edge with on_success alone has a parent that succeeded, with on_failure alone one that failed, with on_skipped alone one that was skipped |
| `RunLaws.StatusChangesHaveReasons` | internal/services/runservice/scheduler.go:81-184 | every change of a task status in every interleaving has one of four reasons: a report of its executor task, in the phase that the status then says; cancelled as a root of a run with a result; skipped by stop without an executor task; skipped because all parents are over and one meets no condition of its edge |
| `RunLaws.PhaseChangesHaveReasons` | internal/services/runservice/scheduler.go:615-693 | a run starts or is cancelled while queued, and ends by a commit that found all tasks over and no executor task left; a success is stored by an earlier commit |
| `RunLaws.WaitingIsJustified` | internal/services/runservice/scheduler.go:165-180 | in every interleaving an unstarted task waits for approval only when its config asks for one, it has none, the run is not to stop, and its parents are fetched and meet their conditions |
| `RunLaws.ApprovalsHaveReasons` | internal/services/runservice/action/action.go:667-719 | an approval is given to a task that waits for it, by the approval request only, and is never taken back |
| `RunLaws.FetchedIsOver` | internal/services/runservice/scheduler.go:1354-1388 | only of tasks that are over is a log or an archive ever marked as fetched |
| `RunLaws.FetchesHaveReasons` | internal/services/runservice/scheduler.go:1088-1186 | each log and each archive is marked as fetched by its own transaction and no other |
| `RunLaws.ExecutorTasksHaveReasons` | internal/services/runservice/scheduler.go:259-291 | an executor task comes into being by a submission, under a new id, unstarted and not to stop, when none is stored for its task; its task and executor never change, its phase only by the executor, its stop flag is only ever set, and every change raises its revision by one |
| `RunLaws.DeletedWhenFetched` | internal/services/runservice/scheduler.go:1354-1411 | an executor task is deleted only when its task is over and all its logs and archives have been fetched |
| `RunLaws.ArchivedIsComplete` | internal/services/runservice/scheduler.go:1499-1546 | an archived run is over, so is each of its tasks, and everything of them has been fetched |
| `RunLaws.CancelledIsNeverArchived` | internal/services/runservice/scheduler.go:1499-1546 | a run that is cancelled while queued is never archived if one of its tasks has not started |
| `RunLaws.CommitFetchesNothing` | internal/services/runservice/scheduler.go:677-690 | no commit changes what is fetched of a task: the loop at the end of advanceRun never finds anything to mark |
| `RunLaws.StopFlagsAreJustified` | internal/services/runservice/scheduler.go:901-911 | only a run that has started is stopped; an executor task is told to stop only when its run is to stop or has finished |
| `RunLaws.StopReachesExecutors` | internal/services/runservice/scheduler.go:552-562 | the commit of a stopped run tells every executor task that it has read to stop, and leaves the others alone; other commits leave all alone |
| `SplitModel.SafeUnderEveryInterleaving` | internal/services/runservice/scheduler.go:48-79 | dependency safety, whose parts the two rows on parents give in full, and at most one stored executor task per run task hold in every state of every interleaving |
| `SplitModel.ResultsAreFinal` | internal/services/runservice/scheduler.go:615-693 | under every interleaving the result is written once; success means that all tasks are over and each failed one has its failure ignored, failed that some failed one has not, stopped that the stop flag is set; final task statuses never change |
| `SplitModel.ApprovalIsRespected` | internal/services/runservice/scheduler.go:186-227 | under every interleaving a task that was ever submitted is not an excluded one, and was approved if its config asks for approval |
| `SplitModel.RevisionChain` | internal/services/runservice/scheduler.go:552-589 | a commit that goes through was computed from the run stored just before it, raises the revision by one, and adds a run event exactly when it changes the stored phase or result |
| `SplitModel.EventLogIsHistory` | internal/services/runservice/scheduler.go:578-587 | the run events are the exact history of the stored phase and result, without repetitions |
| `SplitModel.ResubmittedOnlyWhenFinished` | internal/services/runservice/scheduler.go:229-300 | a task that is submitted again has finished in the meantime |
| `SplitModel.RepetitionByStatus` | internal/services/runservice/scheduler.go:229-300 | whether a submission repeats an earlier one, told by the stored status of its task: if that is neither skipped nor cancelled, the task was submitted before if and only if the status is not "not started"; a status that says that the task ran means a repetition |
| `SplitWitnesses.StatusDoesNotTell` | internal/services/runservice/scheduler.go:229-300 | for skipped and for cancelled the stored status does not tell: in one run of the split model the submitted task was submitted before, in another it was not |
| `SplitModel.OnceIfRechecked` | internal/services/runservice/scheduler.go:229-300 | a sufficient guard: if every submission finds the stored status still not started, no task is submitted twice even in the split model |
| `SplitModel.FinishedIsFinalIfRechecked` | internal/services/runservice/scheduler.go:229-300 | the same guard repairs the end of a run: with it, a finished run of the split model has no executor task in any state |
| `SplitModel.StoppedCommitRepeats` | internal/services/runservice/scheduler.go:97-104 | when stop is final in the split model: a submission that rests on a stopped run only repeats a task that was submitted before |
| `SplitModel.RecheckedFromUnstopped` | internal/services/runservice/scheduler.go:229-300 | a submission that finds its task still not started rests on a run that was not stopped; so it comes after stop exactly when stop was set between its commit and its insert |
| `SplitModel.SameRevisionIsSafe` | internal/services/runservice/scheduler.go:229-300 | one guard repairs everything: a submission that finds the revision of the run unchanged since its commit finds it not stopped, its task not started, and repeats nothing |
| `SplitModel.StopIsFinalIfUnchanged` | internal/services/runservice/scheduler.go:229-300 | over whole runs: with that guard on every submission nothing is submitted after stop, and no task twice |
| `SplitWitnesses.SubmittedTwice` | internal/services/runservice/scheduler.go:495-611 | for every final phase of the first executor task, a run of the split model that submits one task twice: the second submission rests on a run that was read before the first executor task was created and deleted |
| `SplitWitnesses.SubmittedAfterTheEnd` | internal/services/runservice/scheduler.go:495-611 | a run of the split model that is finished and stopped without any executor task and then gets one; it submits no task twice although its submission does not pass the recheck |
| `SplitWitnesses.SkippedAndSubmitted` | internal/services/runservice/scheduler.go:495-611 | a run of the split model in which a task that has not started is submitted after stop, skipped by a commit that has not seen its executor task, and submitted again |
| `SplitModel.Reached` | internal/services/runservice/scheduler.go:495-611 | every state of every interleaving keeps the invariant, and every earlier state relates to it: the same revision means the same run |
| `RunSafety.InvNext` | internal/services/runservice/scheduler.go:495-948 | every action (start, cancel, stop, approve, executor phase change, report, log and archive fetches, deletion of an executor task, archiving, commit, submission), decided from any earlier state, keeps the invariant |
| `RunSafety.NextMoves` | internal/services/runservice/scheduler.go:732-810 | every action moves the run forward only, and saves it with the next revision or not at all |
| `RunSafety.SeenStaysSeen` | internal/services/runservice/scheduler.go:495-541 | what was read earlier stays related to the current state after every action |
| `RunSafety.StatusChanges` | internal/services/runservice/scheduler.go:732-810 | only a report starts or ends a task with success, failure or stop, and only one that has an executor task |
| `RunSafety.EtTasksChange` | internal/services/runservice/scheduler.go:870-948 | the set of run tasks with an executor task grows by a submission and shrinks by a deletion, and nothing else changes it |
| `RunSafety.DependencySafeNext` | internal/services/runservice/scheduler.go:48-79 | every action keeps dependency safety, although it may rest on an old read: met dependencies stay met |
| `RunSafety.OneEtNext` | internal/services/runservice/scheduler.go:229-300 | every action keeps the bound of one executor task per run task |
| `RunSafety.ExplainedNext` | internal/services/runservice/scheduler.go:615-693 | every action keeps the result explained by the tasks |
| `RunSafety.EventsNext` | internal/services/runservice/scheduler.go:578-587 | every action extends the run events exactly when phase or result changes |
| `RunStore.InitHolds` | internal/services/runservice/action/action.go:497-612 | a new run, or one restarted with the tasks that are kept, starts in the invariant |
| `Restart.RecreateRun` | internal/services/runservice/action/action.go:379-495 | whatever order the loops take: the new config is the old one with tasks renamed one to one, in the keys and in all dependencies, and a task keeps its id if and only if it and all its ancestors succeeded and the restart is not from the start; a kept task stays as it was, every other one is created anew |
| `Restart.RecreatedMeans` | internal/services/runservice/action/action.go:403-489 | a task is kept exactly when it succeeded with all that it reaches and the restart is not from the start |
| `Restart.RenamedMeans` | internal/services/runservice/action/action.go:413-430 | under its new id a task is what it was and depends on what it depended on, under the same conditions |
| `Restart.RenameRedone` | internal/services/runservice/action/action.go:403-433 | the loop over the tasks that did not succeed, or over all: exactly these get new ids |
| `Restart.MarkBelow` | internal/services/runservice/action/action.go:435-447 | exactly the tasks below one that got a new id are marked |
| `Restart.RenameMarked` | internal/services/runservice/action/action.go:449-469 | exactly the marked tasks get one more new id |
| `Restart.UpdateRunTasks` | internal/services/runservice/action/action.go:471-489 | the run has a task for each task of the new config and no other: the old one where there is one, else a fresh one |
| `Restart.RenamedIsIsomorphic` | internal/services/runservice/action/action.go:413-430 | renaming keys and dependencies gives an isomorphic dependency graph |
| `Restart.RestartedIsNew` | internal/services/runservice/action/action.go:325-377 | a run in any state of the invariant that may be restarted becomes a run that may be stored first, on an isomorphic graph: acyclic and without implied edges if the old one was |
| `Restart.RestartRun` | internal/services/runservice/action/action.go:325-377 | the handler: accepts exactly cancelled and finished runs, and from failed tasks only those without success whose successful tasks are all fetched; gives a run and config that may be stored first and can be restarted in their turn |
| `RunStore.ScheduledRunMoves` | internal/services/runservice/scheduler.go:545-572 | one scheduling decision moves the run forward; it only skips or cancels tasks that have not started |
| `Scheduler.DependenciesStayMet` | internal/services/runservice/scheduler.go:48-79 | dependencies that are met stay met while the run moves forward |
| `Scheduler.AdvancedRunMoves` | internal/services/runservice/scheduler.go:615-693 | advanceRun changes no task status, sets a result only once and finishes a run only forward |
| `Scheduler.CloseRunMoves` | internal/services/runservice/scheduler.go:658-690 | a run changes to finished only with a result, all tasks finished and no executor task |
| `SchedulerLaws.CancelledMeans` | internal/services/runservice/scheduler.go:106-137 | advancing cancels exactly the roots without executor task of a run whose result is set, unless stop has skipped them |
| `SchedulerLaws.SkippedMeans` | internal/services/runservice/scheduler.go:85-174 | advancing skips exactly the unstarted tasks that stop rules out, and those whose parents are all over and fetched while one of them meets no condition of its edge |
| `SchedulerLaws.WaitingMeans` | internal/services/runservice/scheduler.go:165-180 | advancing asks for approval exactly when it is needed and missing and the task could run otherwise |
| `SchedulerLaws.OnlyUnstartedAdvance` | internal/services/runservice/scheduler.go:81-184 | advancing changes nothing but status and request for approval, and only of tasks that have not started |
| `SchedulerLaws.RunnableMeans` | internal/services/runservice/scheduler.go:186-227 | which tasks can run: not excluded, not started, approved where needed, all parents fetched and meeting their conditions |
| `SchedulerLaws.ResultMeans` | internal/services/runservice/scheduler.go:615-656 | the result a running run gets: failed exactly with a failure that is not ignored, else success exactly when all tasks are over, else stopped exactly with the stop flag |
| `SchedulerLaws.PhaseMeans` | internal/services/runservice/scheduler.go:658-676 | a run finishes exactly when it has a result other than a success found just now, all tasks are over and no executor task is left |
| `SchedulerLaws.TasksMean` | internal/services/runservice/scheduler.go:677-690 | advanceRun changes a task exactly when it never started and the run, with a result, is over: then all of it counts as fetched |
| `SchedulerLaws.ReportedMeans` | internal/services/runservice/scheduler.go:732-810 | for every status, the reports that lead to it and from where |
| `SchedulerLaws.NewTaskMeans` | internal/services/runservice/action/action.go:555-589 | a new task waits, or is skipped from the start, without approval; all its logs are to be fetched, and one archive per step that saves to the workspace |
| `SchedulerCode.AnyConditionMatches` | internal/services/runservice/scheduler.go:54-72 | true exactly when on_success is listed and the parent succeeded, on_failure and it failed, or on_skipped and it was skipped |
| `SchedulerCode.TaskMatchesParentDependCondition` | internal/services/runservice/scheduler.go:48-79 | counting the matching parents, in any order, decides whether every direct parent meets a condition of its edge |
| `SchedulerCode.AllParentsFinished` | internal/services/runservice/scheduler.go:152-163 | true exactly when each parent has one of the five final statuses and no archive that is not fetched |
| `SchedulerCode.StopStage` | internal/services/runservice/scheduler.go:85-104 | the first loop, in any order, skips the unstarted and unscheduled tasks of a stopped run and nothing else |
| `SchedulerCode.CancelStage` | internal/services/runservice/scheduler.go:106-137 | the second loop, in any order, cancels the root tasks of a run whose result is set and nothing else |
| `SchedulerCode.Decide` | internal/services/runservice/scheduler.go:165-180 | the decision on one task whose parents are looked at in the run as it was before: skip, ask for approval, or leave alone |
| `SchedulerCode.DecideStage` | internal/services/runservice/scheduler.go:139-184 | the last loop, in any order, skips tasks whose conditions fail and asks for approval |
| `SchedulerCode.AdvanceRunTasks` | internal/services/runservice/scheduler.go:81-184 | the result is one function of the run and the scheduled tasks, whatever order each of the three loops takes |
| `SchedulerCode.GetTasksToRun` | internal/services/runservice/scheduler.go:186-227 | exactly the tasks that are not excluded, have not started, are approved where needed, and whose parents are fetched and meet their conditions; each once |
| `SchedulerCode.RunRecord.ChangePhase` | services/runservice/types/run.go:115-123 | changes the phase; of the other modelled fields none |
| `SchedulerCode.RunRecord.TasksFinished` | internal/services/runservice/scheduler.go:637-644 | whether all tasks are finished |
| `SchedulerCode.RunRecord.FailRun` | internal/services/runservice/scheduler.go:619-635 | sets failed exactly when some task failed and its config does not ignore that; an error is possible only for a task without config |
| `SchedulerCode.RunRecord.CloseWhenOver` | internal/services/runservice/scheduler.go:658-690 | finishes the run exactly when it is over and then marks as fetched what was never run |
| `SchedulerCode.RunRecord.AdvanceRun` | internal/services/runservice/scheduler.go:615-693 | sets failed exactly with a failure that is not ignored, else success exactly when all tasks are over, else stopped exactly with the stop flag; a result that is set stays; an error leaves the run as it was |
| `SchedulerCode.RunRecord.UpdateRunTaskStatus` | internal/services/runservice/scheduler.go:732-810 | an unstarted task takes over the reported phase, a running one only stopped, success and failed, any other none; a report for an unknown task is an error |
| `SchedulerCode.RunRecord.FinishArchive` | internal/services/runservice/scheduler.go:1147-1186 | marks the first archive of a step as fetched, and fails exactly when task, step or archive is missing |
| `Fixpoint.AdvancedOnceIsEnough` | internal/services/runservice/scheduler.go:139-184 | a task that was advanced once stays as it is until one of its parents changes |
| `Fixpoint.FixpointWithinLevels` | internal/services/runservice/scheduler.go:106-184 | with no event from outside, as many applications of advanceRunTasks as the graph has levels reach a fixpoint |
| `Fixpoint.FixpointWithinTaskCount` | internal/services/runservice/scheduler.go:106-184 | in an acyclic config the number of tasks is always enough |
| `Fixpoint.SettledAfterItsLevel` | internal/services/runservice/scheduler.go:106-184 | a task of level l has its final state after l + 1 applications |
| `Executors.Chosen` | internal/services/runservice/scheduler.go:334-383 | the first executor that accepts the task, none exactly when nobody accepts it |
| `Executors.ChooseExecutor` | internal/services/runservice/scheduler.go:334-383 | the first executor that is alive, allows privileged containers if the task has any, has the architecture if one is asked for, and is below its limit both by what is stored and by what it reports; none exactly when there is none |
| `Runservice.StopExecutorTasks` | internal/services/runservice/scheduler.go:552-562 | succeeds exactly when no executor task that was read has changed since, and then sets the stop flag of each |
| `Runservice.AdvanceSeen` | internal/services/runservice/scheduler.go:545-572 | the decisions on a run that was read are those of the model's commit |
| `Runservice.StoredRun.CommitSchedule` | internal/services/runservice/scheduler.go:495-592 | from first read to the end of the second transaction: goes through exactly when the commit of the model is enabled, and does the same; otherwise nothing changes |
| `Runservice.StoredRun.SubmitRunTasks` | internal/services/runservice/scheduler.go:229-300 | the loop with its early returns does the submissions of the model |
| `SubmissionLaws.SubmissionsMean` | internal/services/runservice/scheduler.go:229-300 | what the loop leaves: it goes through a prefix of the tasks, after which each has an executor task, and stops early only at a task that nobody accepts or behind one that could not be sent; stored executor tasks stay, new ones are unstarted, not to stop, and with an executor that suits |
| `SubmissionLaws.CountsMean` | internal/services/runservice/scheduler.go:302-332 | how the counts that the choice rests on change: a stored executor task counts for its executor and no other, and those of other runs count too |
| `Runservice.StoredRun.ScheduleRun` | internal/services/runservice/scheduler.go:495-611 | one scheduleRun without interference is one step of the serial model |
| `Reports.FirstDecisiveWins` | internal/services/runservice/scheduler.go:732-810 | closed form of any sequence of reports: the first decisive one wins |
| `Reports.UndecidedStatus` | internal/services/runservice/scheduler.go:732-810 | without a decisive report the task is running exactly when some report said so |
| `Reports.NeverBackwards` | internal/services/runservice/scheduler.go:732-810 | the status never moves backwards |
| `Reports.ConvergesWhenOneFinal` | internal/services/runservice/scheduler.go:732-810 | reports in any order and number, with one final phase among them, end with that status |
| `Reports.ConvergesExactly` | internal/services/runservice/scheduler.go:732-810 | all such sequences from a set of phases end with the status of the same name if and only if the set has no other final phase, and for cancelled no running either |
| `ExecutorTasks.RunningTask.ExecuteTaskSteps` | internal/services/executor/executor.go:905-988 | at every point the step phases read success, then at most one running, failed or stopped, then not started; it fails exactly when some step did not succeed with status 0 |
| `ExecutorTasks.RunningTask.ExecuteTask` | internal/services/executor/executor.go:724-802 | the task ends as success exactly when setup and all steps were good, as stopped exactly when a step was not and it is to stop, as failed otherwise; all statuses sent before the last one say running, the last one is the final status |
| `ExecutorTasks.FinalPhase` | internal/services/executor/executor.go:724-802 | success, stopped or failed, each with its exact condition on setup, steps and stop flag |
| `ExecutorTasks.FinalStepsMean` | internal/services/executor/executor.go:905-988 | where each step stands in the end: done with status 0 before the first that went wrong, that one stopped or failed by its stop flag and with its exit status, the others never started |
| `ExecutorTasks.ProgressStep` | internal/services/executor/executor.go:905-988 | the three ways in which a step changes the list keep its shape |
| `ExecutorTasks.ExecutionConverges` | internal/services/executor/executor.go:724-802 | both sides together: however the statuses of one execution arrive, the run task ends with the final one |
| `ExecutorTasks.Executor.TaskUpdater` | internal/services/executor/executor.go:1149-1222 | starts, cancels or reports a fetched executor task exactly in the cases listed, and changes the map of running tasks accordingly |
| `RunConfigs.GetParents` | internal/runconfig/runconfig.go:412-420 | exactly the direct parents, each once |
| `RunConfigs.GetAllParents` | internal/runconfig/runconfig.go:425-446 | terminates on cyclic graphs and returns, without duplicates, exactly the tasks reachable by one or more edges |
| `RunConfigs.WorklistDone` | internal/runconfig/runconfig.go:425-446 | an empty worklist means that the visited tasks are exactly the reachable ones |
| `RunConfigs.CheckRunConfigTasks` | internal/runconfig/runconfig.go:323-364 | accepts exactly the acyclic graphs without an edge implied by a longer path; the cycle error lists exactly the tasks on cycles |
| `RunConfigs.TaskTable.GenTasksLevels` | internal/runconfig/runconfig.go:366-409 | the pass loop terminates; it succeeds exactly on acyclic graphs, then the levels are a levelling; otherwise the tasks without a level are exactly those on or above a cycle |
| `RunConfigs.TaskTable.LevelPass` | internal/runconfig/runconfig.go:373-402 | one pass, in any order, keeps the invariant of the passes and sets levels or stops |
| `RunConfigs.PassEnds` | internal/runconfig/runconfig.go:373-402 | the invariant of the passes moves on to the next level |
| `RunConfigs.FixpointSplits` | internal/runconfig/runconfig.go:397-408 | a pass that sets nothing leaves exactly the tasks that lead to a cycle |
| `Graph.LevelIsLongestPath` | internal/runconfig/runconfig.go:366-409 | each level is the length of the longest dependency path |
| `Graph.LevellingUnique` | internal/runconfig/runconfig.go:366-409 | there is only one levelling, so the levels do not depend on the iteration order |
| `Graph.AcyclicHasLevelling` | internal/runconfig/runconfig.go:366-409 | every acyclic graph has a levelling |
| `Graph.LevelBelowCount` | internal/runconfig/runconfig.go:366-409 | levels are below the number of tasks |
| `Graph.NoSinkMeansCycle` | internal/runconfig/runconfig.go:366-409 | a set of tasks each with a parent in the set contains a cycle |
| `Graph.IsomorphismKeepsShape` | internal/runconfig/runconfig.go:323-364 | an isomorphic graph is acyclic and without implied edges too |
| `Configs.GetTaskParents` | internal/config/config.go:944-958 | the direct parents of a task, by name |
| `Configs.GetAllTaskParents` | internal/config/config.go:963-984 | exactly the tasks reachable by one or more edges, also on cyclic graphs |
| `Configs.CheckCycles` | internal/config/config.go:785-809 | accepts exactly when every run's graph is acyclic |
| `Configs.CheckCommon` | internal/config/config.go:811-826 | accepts exactly when no run has an edge implied by a longer path |
| `Configs.CheckDuplicates` | internal/config/config.go:828-840 | accepts exactly when no task lists a dependency twice |
| `Configs.CheckDepends` | internal/config/config.go:768-783 | accepts exactly when every dependency names a task of the same run |
| `Configs.CheckNames` | internal/config/config.go:700-737 | accepts exactly when all names of runs and tasks have 1 to 100 bytes, run names are distinct, and task names are within each run |
| `Configs.CheckConfig` | internal/config/config.go:695-840 | accepts exactly the configs whose runs pass all checks; a cycle is reported exactly when the earlier checks pass and some run has one |
| `Configs.GenConditions` | internal/runconfig/runconfig.go:282-299 | an empty list becomes on_success; otherwise each condition keeps its place and its meaning, an unknown one becomes none of the three |
| `Configs.GetRunConfigTaskByName` | internal/runconfig/runconfig.go:314-321 | finds the id generated for the name, in any order |
| `Configs.GenRunConfigTasks` | internal/runconfig/runconfig.go:204-312 | every task under its own id with its own fields, and its dependencies under the ids of their tasks |
| `Configs.TranslatedMeans` | internal/runconfig/runconfig.go:204-312 | each translated task carries the fields of its config and depends on exactly the tasks that its dependencies name |
| `Configs.ConditionsOfTranslated` | internal/runconfig/runconfig.go:278-312 | the conditions of each edge: on_success when none is given, otherwise those given; an unknown one gives none |
| `Configs.TranslationIsIsomorphism` | internal/runconfig/runconfig.go:278-312 | the id graph is the name graph under other names |
| `Configs.CheckedRunTranslatesToAcceptedGraph` | internal/runconfig/runconfig.go:278-364 | an accepted run translates to a graph that CheckRunConfigTasks and GenTasksLevels accept |
| `Configs.TasksOfAcceptedConfig` | internal/config/config.go:695-840 | the whole way: once checkConfig accepts, translation, check and levelling all succeed on an isomorphic graph, and every dependency is on a task of the config |
| `Runes.DecodeUtf8` | internal/objectstorage/posixflat.go:136-139 | decoding a rune undoes encoding it, wherever it stands |
| `Runes.EncodedLength` | internal/objectstorage/posixflat.go:40-50 | encoding the runes of any string of bytes gives the string back, with two more bytes for each invalid byte |
| `Runes.RunesOfEncoded` | internal/objectstorage/posixflat.go:40-50 | the bytes of a key are valid and the loop over them meets exactly its runes |
| `FlatEscape.CountEscapes` | internal/objectstorage/posixflat.go:40-50 | the first loop counts runes, separators and escapes of any bytes |
| `FlatEscape.FillEscaped` | internal/objectstorage/posixflat.go:64-86 | the second loop, over any bytes, fills the buffer with the escaped runes and separators; it runs out of range exactly when the buffer is too short for them |
| `FlatEscape.Escape` | internal/objectstorage/posixflat.go:33-95 | for any bytes: out of range exactly with an invalid byte and at least 8 runes, a slash or a percent sign; a key of fewer than 8 runes with neither stays as it is; a valid key gives one piece per rune: %2F for a slash, %25 for a percent sign, its own bytes otherwise, with a slash behind every 8th rune or the marker when that is the last |
| `FlatEscape.EscapedMeans` | internal/objectstorage/posixflat.go:39-95 | the same of the escaped key of any runes |
| `FlatEscape.UnitMeans` | internal/objectstorage/posixflat.go:33-81 | the piece of a rune has a percent sign exactly for a slash and a percent sign, and never a slash |
| `FlatEscape.EscapeOutOfRange` | internal/objectstorage/posixflat.go:39-95 | two bytes, an invalid one and a slash, that meet this condition |
| `FlatEscape.EscapedIsInjective` | internal/objectstorage/posixflat.go:39-95 | escape is injective |
| `FlatEscape.NoFileIsADirectory` | internal/objectstorage/posixflat.go:39-95 | no escaped key followed by a slash is a prefix of an escaped key: no key's file is another key's directory |
| `FlatUnescape.CountTokens` | internal/objectstorage/posixflat.go:128-162 | the first loop of unescape counts escapes, separators and runes, and refuses exactly what the scan refuses |
| `FlatUnescape.FillUnescaped` | internal/objectstorage/posixflat.go:175-200 | the second loop fills the buffer exactly, with no index out of range |
| `FlatUnescape.Unescape` | internal/objectstorage/posixflat.go:127-201 | unescape of any byte string, with its errors and the marker flag |
| `FlatUnescape.PercentMeans` | internal/objectstorage/posixflat.go:97-151 | a percent sign with two hexadecimal digits, letters in either case, is read as that byte |
| `FlatUnescape.BadPercentMeans` | internal/objectstorage/posixflat.go:141-148 | anything else after a percent sign is an error that names it |
| `FlatUnescape.SlashMeans` | internal/objectstorage/posixflat.go:152-157 | a slash that does not follow a multiple of 8 runes is an error |
| `FlatKeys.ScanEscaped` | internal/objectstorage/posixflat.go:135-162 | scanning an escaped key gives back its runes and separators |
| `FlatKeys.UnescapeOfEscape` | internal/objectstorage/posixflat.go:39-201 | what unescape gives back for every key: the key and the marker flag, or the key without its last two runes, or an error |
| `FlatKeys.RoundTrip` | internal/objectstorage/posixflat.go:39-201 | the round trip holds if and only if the key has no U+FFFD and is not one longer than 8 runes, 2 more than a multiple of 8, that ends in .f |
| `FlatKeys.RoundTripFails` | internal/objectstorage/posixflat.go:39-201 | a concrete key for which the round trip fails |
| `Revisions.Table.Insert` | internal/generators/gen_insert_delete.go:70-103 | inserts exactly a new object under a new id, with revision 1, into table and query table, or changes neither; after an error the object keeps its revision unless only the write to the query table failed |
| `Revisions.Table.Update` | internal/generators/gen_insert_delete.go:125-168 | updates exactly when the stored revision is the one read, and raises it; after an error the object keeps its revision exactly when it was never stored, or could be encoded and its row was not written |
| `Revisions.Table.InsertOrUpdate` | internal/generators/gen_insert_delete.go:59-68 | inserts objects that were never stored, updates the others; the exact condition for success, and the tables after it and after an error |
| `Revisions.Table.Delete` | internal/generators/gen_insert_delete.go:170-184 | deletes the row in both tables, or in neither |
| `Revisions.UpdateChain` | internal/generators/gen_insert_delete.go:134-168 | over every history without reused ids, a successful update was computed from the row stored just before it and raises its revision by one |
| `Revisions.ReusedIdBreaksTheChain` | internal/generators/gen_insert_delete.go:134-168 | a concrete history with a reused id in which that fails |
| `Revisions.CountersCountWrites` | internal/generators/gen_insert_delete.go:134-168 | no increment is lost and none counts twice, under every interleaving |
| `PagedScan.PageStep` | internal/db/rebuild.go:37-82 | one page holds the next rows; a short page is the last; behind a full page the scan goes on with the rows it has not seen |
| `PagedScan.ExportTable` | internal/db/export.go:21-69 | the page loop ends and writes every row with an id once, in ascending order, for every table size and page size |
| `PagedScan.LinesMean` | internal/db/export.go:53-62 | a row is written as its data and a line end |
| `PagedScan.LessMeans` | internal/db/export.go:27-28 | the order of the ids: the first place where two differ decides |
| `PagedScan.Export` | internal/db/export.go:16-79 | all tables one after the other |
| `PagedScan.InsertPage` | internal/db/rebuild.go:62-76 | the inserts of one page, under the ids inside the data, go through exactly when all rows seen so far decode to different ids, and then mirror them |
| `PagedScan.RebuildTable` | internal/db/rebuild.go:32-83 | the rebuild ends; it succeeds exactly when the data of all rows with an id decodes, to different ids, and then gives one entry per row under the id inside its data, with the revision and data of the row |
| `PagedScan.ScanVisitsAll` | internal/db/rebuild.go:32-83 | the scan visits exactly the rows with a non-empty id, in ascending order; it is a permutation of the table if and only if no id is empty |
| `PagedScan.RebuildClash` | internal/db/rebuild.go:62-76 | two rows with different ids whose data decodes to one id stop the rebuild |
| `PagedScan.OwnIdsNeverClash` | internal/db/rebuild.go:62-76 | when data holds the id of its row, the rebuild succeeds exactly when all data can be decoded |
| `PagedScan.RebuiltIsOnePerRow` | internal/db/rebuild.go:32-83 | with unique non-empty ids and data that decodes to the id of its row, the rebuilt query table has exactly one entry per row, under its id |
| `Paths.SplitOfJoined` | internal/services/configstore/db/db.go:854-860 | splitting undoes joining when no part has a slash |
| `Paths.JoinedOfSplit` | internal/services/configstore/db/db.go:854-860 | joining undoes splitting for every string |
| `Paths.PlainRef` | internal/services/configstore/common/common.go:35-44 | a reference without percent signs is a path exactly when it has a slash, otherwise an id |
| `Paths.PrefixMeansAncestor` | internal/services/configstore/action/projectgroup.go:245-258 | on paths as strings, starting with another path and a slash says exactly that the parts are a proper prefix |
| `GroupTree.PrefixTestIsExact` | internal/services/configstore/action/projectgroup.go:245-258 | the prefix test rejects exactly the moves of a group into itself or below itself |
| `GroupTree.PathsAreUnique` | internal/services/configstore/db/db.go:767-795 | a path names at most one group |
| `GroupTree.ClimbIsBounded` | internal/services/configstore/db/db.go:731-765 | no chain of parents is longer than the number of groups |
| `GroupTree.UnderMeansInHierarchy` | internal/services/configstore/db/db.go:731-765 | a group lies inside exactly the groups of its hierarchy |
| `GroupLookup.PathFindsItsGroup` | internal/services/configstore/db/db.go:854-898 | a reference by path finds a group if and only if it is that group's path |
| `GroupLookup.WalkFollowsNames` | internal/services/configstore/db/db.go:884-897 | going down by names ends at a group exactly when the names continue the path |
| `GroupActions.ConfigStore.GetProjectGroupByName` | internal/services/configstore/db/db.go:839-852 | the one group with this parent and name |
| `GroupActions.ConfigStore.GetProjectGroupByPath` | internal/services/configstore/db/db.go:854-898 | the loop over the parts of a path; an unknown owner is an error, an unknown group is not |
| `GroupActions.ConfigStore.GetProjectGroup` | internal/services/configstore/db/db.go:808-822 | a reference with a slash, after percent-decoding, is a path, any other an id |
| `GroupActions.ConfigStore.GetProjectGroupHierarchy` | internal/services/configstore/db/db.go:731-765 | the climb ends and finds the hierarchy, or there is none |
| `GroupActions.ConfigStore.GetProjectGroupPath` | internal/services/configstore/db/db.go:767-795 | the path of the group, an error exactly when something above it is missing |
| `GroupActions.ConfigStore.GetPath` | internal/services/configstore/db/db.go:189-239 | the path of a parent |
| `GroupActions.ConfigStore.CreateProjectGroup` | internal/services/configstore/action/projectgroup.go:129-184 | creates exactly when the request is valid, the parent exists with a path and the name is free: one row more, with the name and visibility asked for, below the stored parent; the table stays good |
| `GroupActions.ConfigStore.UpdateProjectGroup` | internal/services/configstore/action/projectgroup.go:186-276 | updates exactly when the request is valid, kind and root parent are kept, both paths exist and, unless name and parent stay the same, the new name is free below the new parent and the move is not into the group itself or below it: that row alone changes, to the name, parent and visibility asked for; the table stays good |
| `GroupActions.ConfigStore.PathsAllowUpdate` | internal/services/configstore/action/projectgroup.go:233-258 | the duplicate check and the string test together decide exactly which moves are allowed |
| `GroupActions.ConfigStore.DeleteProjectGroup` | internal/services/configstore/action/projectgroup.go:278-307 | deletes exactly existing groups that are not root groups, and leaves their subgroups behind; the table stays good |
| `GroupLaws.CreateMeans` | internal/services/configstore/action/projectgroup.go:129-184 | for a parent given by id: which creations are accepted, down to the rows |
| `GroupLaws.UpdateMeans` | internal/services/configstore/action/projectgroup.go:186-276 | for ids: which updates of other than root groups are accepted, down to the rows and the edges of the tree |
| `GroupLaws.UpdateRootMeans` | internal/services/configstore/action/projectgroup.go:206-215 | of a root group only the visibility is updated, with name and parent as they are |
| `GroupLaws.DeleteMeans` | internal/services/configstore/action/projectgroup.go:278-298 | for ids: exactly stored groups that are not root groups are deleted |
| `GroupLaws.ValidNameMeans` | internal/util/validation.go:24-38 | a name is valid exactly when it is no uuid and matches the regular expression part by part |
| `GroupLaws.PathErrors` | internal/services/configstore/db/db.go:854-898 | a path is an error exactly when it names no stored owner; below an owner an unknown name is only not found |
| `GroupLaws.PathMeans` | internal/services/configstore/db/db.go:767-795 | the path of a root group is org/ or user/ with the name of the owner, that of any other group the path of its parent with its name |
| `GroupLaws.EscapedRef` | internal/services/configstore/common/common.go:35-44 | a reference with an escape: an escaped slash, in either case, makes it a path, and a malformed escape is an error |
| `GroupRuns.NextStaysGood` | internal/services/configstore/action/projectgroup.go:129-307 | every call keeps the parents acyclic, sibling names distinct and the rows well formed |
| `GroupRuns.TreeStaysGood` | internal/services/configstore/action/projectgroup.go:129-307 | over every sequence of accepted and refused creates, updates and deletes, with owners coming and going, the table stays good |
| `GroupRuns.MoveStaysAcyclic` | internal/services/configstore/action/projectgroup.go:186-276 | a move that is not into the group itself or below it makes no cycle |
| `GroupRuns.OthersKeepTheirPath` | internal/services/configstore/action/projectgroup.go:260-267 | a move leaves the path of every group outside the moved one alone |
| `GroupRuns.SubtreeMovesAlong` | internal/services/configstore/action/projectgroup.go:260-267 | a group below the moved one gets the path of the new place followed by the names it had below |
| `GroupRuns.PathsAfterDelete` | internal/services/configstore/action/projectgroup.go:289-298 | deleting a group takes the path from itself and from every group below it, and from no other group |
| `GroupRuns.DeleteOrphansSubgroups` | internal/services/configstore/action/projectgroup.go:289-298 | deleting a group with a path takes the path of some other group if and only if it has a subgroup |
| `GroupRuns.DeleteLeavesOrphan` | internal/services/configstore/action/projectgroup.go:289-298 | an accepted deletion after which a subgroup is stored without a path |
| `GroupRuns.PathsAfterRemoveOwner` | internal/services/configstore/action/org.go:148-174 | deleting an owner takes the path from all groups below its root group, and from no other group |
| `GroupRuns.RemoveOwnerOrphansGroups` | internal/services/configstore/action/org.go:148-174 | deleting a stored owner takes the path of some group if and only if the owner has a root group |
| `GroupRuns.RemoveOwnerAlwaysOrphans` | internal/services/configstore/action/org.go:148-174 | over every sequence of calls each stored owner has a root group, so that deleting an owner always leaves groups without a path |
| `GroupRuns.LostPathStaysLost` | internal/services/configstore/action/projectgroup.go:289-298 | a group whose path was lost by a deletion above it never gets a path again by any call |
| `GroupRuns.OrphansStayOrphans` | internal/services/configstore/action/projectgroup.go:289-298 | nor over any sequence of calls |

## Left out

- Other runs: one run is modelled at a time; the executor tasks of other runs appear as counts per executor.
- Sending an executor task to its executor: a flag that says whether it worked. When sending a stop fails, scheduleRun returns before submitting; a stopped run has nothing to submit then (`SerialModel.StopIsFinal`), so the model does not tell this apart.
- A process that ends between the commit and the submissions of scheduleRun: part of the split model, not of the serial one.
- Runs created with setup errors: they are stored in the phase setup error without tasks, and nothing is ever scheduled for them.
- Annotations of run tasks: that they are set is an action that saves the run with its next revision; what they say is left out.
- The ids that a restart hands out: a list of different ids that the config does not use. Names and environment of a restarted run are left out.
- SchedulerCode.RunRecord.ChangePhase: does not model the start and end times, which no decision looks at.
- SchedulerCode.RunRecord.UpdateRunTaskStatus: does not model step phases, exit statuses, timestamps and fail errors that are copied from the report.
- The database transactions of the log and archive fetchers and of the cleaner: each is one action with the condition under which it runs; what they transfer is left out.
- Change groups, run counters, caches and workspaces of the run service.
- Configs.CheckConfig: does not model the checks of empty entries, runtimes, containers and steps, nor the defaults that are set; they do not touch the graph.
- Configs.GenRunConfigTasks: does not model environment, working directory, shell, user and registry authentication of a task; `when` is a flag.
- A depends condition with an unknown text: it becomes a condition without a value and never matches, as in the code.
- The setup, the steps and the pod of an executor task: outcomes that are given; logs and timestamps are left out.
- Cleaning of paths by the file path functions, and listing of stored objects.
- SQL text and retries: serializable transactions with rollback are taken as given, and rows are ordered character by character.
- Timestamps of the generated insert and update code.
- Decoding of JSON and YAML, and the object kinds of the tables.
- Users, organizations and their members: only their names, ids and root groups, and that they can be created and deleted.
- Secrets and variables of a group, and projects.
- The name check for uuids: a parameter that says which strings are uuids.
- GroupActions.ConfigStore.GetPath: does not give the paths of projects, which are left out; a stored owner id is always read as an id.
