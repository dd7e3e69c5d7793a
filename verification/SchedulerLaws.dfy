/** The rules of module Scheduler in plain terms: which statuses, fetch phases and conditions decide,
    without the definitions that the rules are built from. */
module SchedulerLaws {
  import opened RunTypes
  import opened RunConfigs
  import opened Scheduler

  // ---------------------------------------------------------------- dependencies

  lemma ConditionsMean(conds: seq<DependCondition>, s: TaskStatus)
    ensures AnyMatches(conds, s) <==>
            || (DependCondition.OnSuccess in conds && s == TaskStatus.Success)
            || (DependCondition.OnFailure in conds && s == TaskStatus.Failed)
            || (DependCondition.OnSkipped in conds && s == TaskStatus.Skipped)
  {
  }

  lemma DoneMeans(rt: RunTask)
    ensures Done(rt) <==>
            && rt.status in {TaskStatus.Success, TaskStatus.Failed, TaskStatus.Stopped, TaskStatus.Skipped, TaskStatus.Cancelled}
            && forall i :: 0 <= i < |rt.archivesPhase| ==> rt.archivesPhase[i] == FetchFinished
  {
  }

  /** A parent whose archives are not all fetched holds its children back, whatever its status. */
  lemma ParentsDoneMeans(rc: RunConfig, r: Run, t: TaskID)
    requires Fits(rc, r) && t in rc
    ensures ParentsDone(rc, r, t) <==>
            forall p :: p in rc[t].depends && p in rc ==>
              && r.tasks[p].status in {TaskStatus.Success, TaskStatus.Failed, TaskStatus.Stopped, TaskStatus.Skipped, TaskStatus.Cancelled}
              && forall i :: 0 <= i < |r.tasks[p].archivesPhase| ==> r.tasks[p].archivesPhase[i] == FetchFinished
  {
    hide Done;
    forall p | p in rc ensures p in Parents(rc, t) <==> p in rc[t].depends { }
    forall p | p in rc { DoneMeans(r.tasks[p]); }
  }

  lemma DependsMatchMeans(rc: RunConfig, r: Run, t: TaskID)
    requires Fits(rc, r) && t in rc
    ensures DependsMatch(rc, r, t) <==>
            forall p :: p in rc[t].depends && p in rc ==>
              || (DependCondition.OnSuccess in rc[t].depends[p] && r.tasks[p].status == TaskStatus.Success)
              || (DependCondition.OnFailure in rc[t].depends[p] && r.tasks[p].status == TaskStatus.Failed)
              || (DependCondition.OnSkipped in rc[t].depends[p] && r.tasks[p].status == TaskStatus.Skipped)
  {
    hide AnyMatches;
    forall p | p in rc && p in rc[t].depends { ConditionsMean(rc[t].depends[p], r.tasks[p].status); }
    forall p | p in rc ensures p in Parents(rc, t) <==> p in rc[t].depends { }
  }

  lemma RunnableMeans(rc: RunConfig, r: Run, t: TaskID)
    requires Fits(rc, r) && t in rc
    ensures Runnable(rc, r, t) <==>
            && !r.tasks[t].skip && r.tasks[t].status == TaskStatus.NotStarted
            && (rc[t].needsApproval ==> r.tasks[t].approved)
            && forall p :: p in rc[t].depends && p in rc ==>
                 && (forall i :: 0 <= i < |r.tasks[p].archivesPhase| ==> r.tasks[p].archivesPhase[i] == FetchFinished)
                 && (|| (DependCondition.OnSuccess in rc[t].depends[p] && r.tasks[p].status == TaskStatus.Success)
                     || (DependCondition.OnFailure in rc[t].depends[p] && r.tasks[p].status == TaskStatus.Failed)
                     || (DependCondition.OnSkipped in rc[t].depends[p] && r.tasks[p].status == TaskStatus.Skipped))
  {
    hide ParentsDone, DependsMatch;
    ParentsDoneMeans(rc, r, t);
    DependsMatchMeans(rc, r, t);
  }

  // ---------------------------------------------------------------- one task after advanceRunTasks

  /** A task that has started, or is over, stays as it is. Of the others only the status and the request
      for approval can change. */
  lemma OnlyUnstartedAdvance(rc: RunConfig, r: Run, scheduled: set<TaskID>, t: TaskID)
    requires t in rc && t in r.tasks
    ensures var a, b := r.tasks[t], AdvancedTask(rc, r, scheduled, t);
            && b == a.(status := b.status, waitingApproval := b.waitingApproval)
            && (a.status != TaskStatus.NotStarted ==> b == a)
            && b.status in {a.status, TaskStatus.Skipped, TaskStatus.Cancelled}
  {
  }

  /** Cancelled: exactly the roots that were not submitted, of a run whose result is set, unless stop has
      skipped them already. */
  lemma CancelledMeans(rc: RunConfig, r: Run, scheduled: set<TaskID>, t: TaskID)
    requires Fits(rc, r) && t in rc && r.tasks[t].status == TaskStatus.NotStarted
    ensures AdvancedTask(rc, r, scheduled, t).status == TaskStatus.Cancelled <==>
            && !r.tasks[t].skip && t !in scheduled && !r.stop && r.result != RunResult.Unknown
            && forall p :: p in rc[t].depends ==> p !in rc
  {
    NoParentsMeans(rc, t);
  }

  lemma NoParentsMeans(rc: RunConfig, t: TaskID)
    requires t in rc
    ensures Parents(rc, t) == {} <==> forall p :: p in rc[t].depends ==> p !in rc
  {
    if p :| p in rc[t].depends && p in rc { assert p in Parents(rc, t); }
  }

  /** Skipped: by stop when it was not submitted, or because all parents are over and one of them does
      not meet any condition of its edge. */
  lemma SkippedMeans(rc: RunConfig, r: Run, scheduled: set<TaskID>, t: TaskID)
    requires Fits(rc, r) && t in rc && r.tasks[t].status == TaskStatus.NotStarted
    ensures AdvancedTask(rc, r, scheduled, t).status == TaskStatus.Skipped <==>
            || (r.stop && t !in scheduled)
            || (&& !r.tasks[t].skip
                && (forall p :: p in rc[t].depends && p in rc ==>
                      && r.tasks[p].status in
                           {TaskStatus.Success, TaskStatus.Failed, TaskStatus.Stopped, TaskStatus.Skipped, TaskStatus.Cancelled}
                      && forall i :: 0 <= i < |r.tasks[p].archivesPhase| ==> r.tasks[p].archivesPhase[i] == FetchFinished)
                && exists p :: p in rc[t].depends && p in rc
                     && (r.tasks[p].status == TaskStatus.Success ==> DependCondition.OnSuccess !in rc[t].depends[p])
                     && (r.tasks[p].status == TaskStatus.Failed ==> DependCondition.OnFailure !in rc[t].depends[p])
                     && (r.tasks[p].status == TaskStatus.Skipped ==> DependCondition.OnSkipped !in rc[t].depends[p]))
  {
    hide ParentsDone, DependsMatch;
    ParentsDoneMeans(rc, r, t);
    DependsMatchMeans(rc, r, t);
    NoParentsMeans(rc, t);
  }

  /** Approval is asked for exactly when it is needed and missing and the task could run otherwise. */
  lemma WaitingMeans(rc: RunConfig, r: Run, scheduled: set<TaskID>, t: TaskID)
    requires Fits(rc, r) && t in rc && !r.tasks[t].waitingApproval
    ensures AdvancedTask(rc, r, scheduled, t).waitingApproval <==>
            && AdvancedTask(rc, r, scheduled, t).status == TaskStatus.NotStarted
            && !r.tasks[t].skip && rc[t].needsApproval && !r.tasks[t].approved
            && forall p :: p in rc[t].depends && p in rc ==>
                 && (forall i :: 0 <= i < |r.tasks[p].archivesPhase| ==> r.tasks[p].archivesPhase[i] == FetchFinished)
                 && (|| (DependCondition.OnSuccess in rc[t].depends[p] && r.tasks[p].status == TaskStatus.Success)
                     || (DependCondition.OnFailure in rc[t].depends[p] && r.tasks[p].status == TaskStatus.Failed)
                     || (DependCondition.OnSkipped in rc[t].depends[p] && r.tasks[p].status == TaskStatus.Skipped))
  {
    hide ParentsDone, DependsMatch;
    ParentsDoneMeans(rc, r, t);
    DependsMatchMeans(rc, r, t);
  }

  // ---------------------------------------------------------------- the run after advanceRun

  /** The result of a running run that has none yet. */
  lemma ResultMeans(rc: RunConfig, r: Run, hasScheduled: bool)
    requires Fits(rc, r) && r.phase == RunPhase.Running && r.result == RunResult.Unknown
    ensures var r', over := AdvancedRun(rc, r, hasScheduled),
                  forall t :: t in r.tasks ==> r.tasks[t].status !in {TaskStatus.NotStarted, TaskStatus.Running};
            && (r'.result == RunResult.Failed <==> exists t :: t in rc && r.tasks[t].status == TaskStatus.Failed && !rc[t].ignoreFailure)
            && (r'.result == RunResult.Success <==>
                over && forall t :: t in rc && r.tasks[t].status == TaskStatus.Failed ==> rc[t].ignoreFailure)
            && (r'.result == RunResult.Stopped <==>
                r.stop && !over && forall t :: t in rc && r.tasks[t].status == TaskStatus.Failed ==> rc[t].ignoreFailure)
  {
    var over := forall t :: t in r.tasks ==> r.tasks[t].status !in {TaskStatus.NotStarted, TaskStatus.Running};
    OverMeans(r);
    FatalMeans(rc, r);
    CloseKeeps(r.(result := RunResult.Failed), hasScheduled);
    CloseKeeps(r.(result := RunResult.Stopped), hasScheduled);
    CloseKeeps(r, hasScheduled);
  }

  lemma FatalMeans(rc: RunConfig, r: Run)
    requires Fits(rc, r)
    ensures HasFatalTask(rc, r) <==> exists t :: t in rc && r.tasks[t].status == TaskStatus.Failed && !rc[t].ignoreFailure
  {
    if t :| t in rc && r.tasks[t].status == TaskStatus.Failed && !rc[t].ignoreFailure { assert FatalTask(rc, r, t); }
  }

  lemma OverMeans(r: Run)
    ensures AllFinished(r) <==> forall t :: t in r.tasks ==> r.tasks[t].status !in {TaskStatus.NotStarted, TaskStatus.Running}
  {
  }

  lemma ClosedPhase(r: Run, hasScheduled: bool)
    requires r.phase in {RunPhase.Queued, RunPhase.Running}
    ensures CloseRun(r, hasScheduled).phase == if r.result != RunResult.Unknown && AllFinished(r) && !hasScheduled then RunPhase.Finished else r.phase
    ensures CloseRun(r, hasScheduled).result == r.result
  {
    hide FetchSkipped, AllFinished;
  }

  /** The run ends exactly when it has a result other than a success found just now, all its tasks are
      over and no executor task is left. */
  lemma PhaseMeans(rc: RunConfig, r: Run, hasScheduled: bool)
    requires r.phase in {RunPhase.Queued, RunPhase.Running}
    ensures var r' := AdvancedRun(rc, r, hasScheduled);
            && r'.phase in {r.phase, RunPhase.Finished}
            && (r'.phase == RunPhase.Finished <==>
                && r'.result != RunResult.Unknown && !(r.result == RunResult.Unknown && r'.result == RunResult.Success)
                && !hasScheduled && forall t :: t in r.tasks ==> r.tasks[t].status !in {TaskStatus.NotStarted, TaskStatus.Running})
  {
    hide CloseRun, HasFatalTask;
    OverMeans(r);
    ClosedPhase(r.(result := RunResult.Failed), hasScheduled);
    ClosedPhase(r.(result := RunResult.Stopped), hasScheduled);
    ClosedPhase(r, hasScheduled);
    assert AllFinished(r.(result := RunResult.Failed)) == AllFinished(r) == AllFinished(r.(result := RunResult.Stopped));
  }

  lemma ClosedTask(r: Run, hasScheduled: bool, t: TaskID)
    requires t in r.tasks
    ensures var r' := CloseRun(r, hasScheduled);
            && r' == r.(phase := r'.phase, tasks := r'.tasks) && r'.tasks.Keys == r.tasks.Keys
            && r'.tasks[t] == if r'.result.IsSet() && r'.phase.IsFinished() then FetchSkipped(r.tasks[t]) else r.tasks[t]
  {
    hide FetchSkipped, AllFinished;
  }

  lemma ClosedOrNot(rc: RunConfig, r: Run, hasScheduled: bool, t: TaskID)
    requires t in r.tasks
    ensures var r' := AdvancedRun(rc, r, hasScheduled);
            && r' == r.(phase := r'.phase, result := r'.result, tasks := r'.tasks) && r'.tasks.Keys == r.tasks.Keys
            && r'.tasks[t] == if r'.result.IsSet() && r'.phase.IsFinished() then FetchSkipped(r.tasks[t]) else r.tasks[t]
  {
    hide CloseRun, FetchSkipped, HasFatalTask, AllFinished;
    ClosedTask(r, hasScheduled, t);
    ClosedTask(r.(result := RunResult.Failed), hasScheduled, t);
    ClosedTask(r.(result := RunResult.Stopped), hasScheduled, t);
  }

  lemma CloseKeeps(r: Run, hasScheduled: bool)
    ensures var r' := CloseRun(r, hasScheduled);
            && r' == r.(phase := r'.phase, tasks := r'.tasks) && r'.tasks.Keys == r.tasks.Keys
            && r'.phase in {r.phase, RunPhase.Finished}
  {
    hide FetchSkipped, AllFinished;
  }

  /** A result that is set stays, no result is set outside the phase running, and stop is left alone. */
  lemma AdvancedKeeps(rc: RunConfig, r: Run, hasScheduled: bool)
    ensures var r' := AdvancedRun(rc, r, hasScheduled);
            && r' == r.(phase := r'.phase, result := r'.result, tasks := r'.tasks) && r'.tasks.Keys == r.tasks.Keys
            && r'.phase in {r.phase, RunPhase.Finished}
            && (r.phase != RunPhase.Running || r.result != RunResult.Unknown ==> r'.result == r.result)
  {
    hide CloseRun, HasFatalTask, AllFinished;
    CloseKeeps(r, hasScheduled);
    CloseKeeps(r.(result := RunResult.Failed), hasScheduled);
    CloseKeeps(r.(result := RunResult.Stopped), hasScheduled);
  }

  lemma ResultKept(rc: RunConfig, r: Run, hasScheduled: bool)
    requires r.phase != RunPhase.Running || r.result != RunResult.Unknown
    ensures AdvancedRun(rc, r, hasScheduled).result == r.result
  {
    AdvancedKeeps(rc, r, hasScheduled);
  }

  /** Nothing else of the run changes. A task changes exactly when it never started and the run, with a
      result, is over; and then only in what is to be fetched of it: all of it counts as fetched. */
  lemma TasksMean(rc: RunConfig, r: Run, hasScheduled: bool, t: TaskID)
    requires t in r.tasks
    ensures var r', a := AdvancedRun(rc, r, hasScheduled), r.tasks[t];
            && r' == r.(phase := r'.phase, result := r'.result, tasks := r'.tasks) && r'.tasks.Keys == r.tasks.Keys
            && var b := r'.tasks[t];
               if a.status == TaskStatus.NotStarted && r'.result != RunResult.Unknown
                  && r'.phase in {RunPhase.SetupError, RunPhase.Cancelled, RunPhase.Finished}
               then
                 && b == a.(setupLog := FetchFinished, stepLogs := b.stepLogs, archivesPhase := b.archivesPhase)
                 && |b.stepLogs| == |a.stepLogs| && |b.archivesPhase| == |a.archivesPhase|
                 && (forall i :: 0 <= i < |b.stepLogs| ==> b.stepLogs[i] == FetchFinished)
                 && forall i :: 0 <= i < |b.archivesPhase| ==> b.archivesPhase[i] == FetchFinished
               else b == a
  {
    hide AdvancedRun;
    ClosedOrNot(rc, r, hasScheduled, t);
  }

  // ---------------------------------------------------------------- reports and new tasks

  /** What a report does to the status of a task: a phase is taken over from a task that has not started or
      already says so, and from a running one if it is stopped, success or failed. */
  lemma ReportedMeans(s: TaskStatus, p: ExecutorTaskPhase)
    ensures Reported(s, p) == TaskStatus.NotStarted <==> s == TaskStatus.NotStarted && p == ExecutorTaskPhase.NotStarted
    ensures Reported(s, p) == TaskStatus.Skipped <==> s == TaskStatus.Skipped
    ensures Reported(s, p) == TaskStatus.Cancelled <==>
            s == TaskStatus.Cancelled || (s == TaskStatus.NotStarted && p == ExecutorTaskPhase.Cancelled)
    ensures Reported(s, p) == TaskStatus.Running <==>
            || (s == TaskStatus.NotStarted && p == ExecutorTaskPhase.Running)
            || (s == TaskStatus.Running && p in {ExecutorTaskPhase.NotStarted, ExecutorTaskPhase.Running, ExecutorTaskPhase.Cancelled})
    ensures Reported(s, p) == TaskStatus.Stopped <==>
            s == TaskStatus.Stopped || (s in {TaskStatus.NotStarted, TaskStatus.Running} && p == ExecutorTaskPhase.Stopped)
    ensures Reported(s, p) == TaskStatus.Success <==>
            s == TaskStatus.Success || (s in {TaskStatus.NotStarted, TaskStatus.Running} && p == ExecutorTaskPhase.Success)
    ensures Reported(s, p) == TaskStatus.Failed <==>
            s == TaskStatus.Failed || (s in {TaskStatus.NotStarted, TaskStatus.Running} && p == ExecutorTaskPhase.Failed)
  {
  }

  /** The archives of a new task are its steps that save to the workspace, in their order. */
  lemma {:induction false} ArchivesMean(steps: seq<StepKind>, from: nat)
    ensures forall n :: n in GenArchives(steps, from) <==> from <= n < |steps| && steps[n] == SaveToWorkspace
    ensures forall i, j :: 0 <= i < j < |GenArchives(steps, from)| ==> GenArchives(steps, from)[i] < GenArchives(steps, from)[j]
    decreases |steps| - from
  {
    if from < |steps| {
      ArchivesMean(steps, from + 1);
      var rest := GenArchives(steps, from + 1);
      assert forall i :: 0 <= i < |rest| ==> rest[i] in rest;
    }
  }

  /** A new task has nothing behind it: it waits, or is skipped from the start, and all logs and archives
      are still to be fetched. */
  lemma NewTaskMeans(rct: RunConfigTask)
    ensures var rt := GenRunTask(rct);
            && rt.status == (if rct.skip then TaskStatus.Skipped else TaskStatus.NotStarted)
            && rt.skip == rct.skip && !rt.waitingApproval && !rt.approved
            && rt.setupLog == FetchNotStarted && |rt.stepLogs| == |rct.steps|
            && (forall i :: 0 <= i < |rt.stepLogs| ==> rt.stepLogs[i] == FetchNotStarted)
            && (forall n :: n in rt.workspaceArchives <==> 0 <= n < |rct.steps| && rct.steps[n] == SaveToWorkspace)
            && (forall i, j :: 0 <= i < j < |rt.workspaceArchives| ==> rt.workspaceArchives[i] < rt.workspaceArchives[j])
            && |rt.archivesPhase| == |rt.workspaceArchives|
            && forall i :: 0 <= i < |rt.archivesPhase| ==> rt.archivesPhase[i] == FetchNotStarted
  {
    ArchivesMean(rct.steps, 0);
  }
}
