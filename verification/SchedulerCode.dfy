/** The scheduler's code (internal/services/runservice/scheduler.go): methods that change a run in
    place, or work on a copy of one, proved against the rules of module Scheduler. */
module SchedulerCode {
  import opened RunTypes
  import opened Graph
  import opened RunConfigs
  import opened Scheduler
  import opened SchedulerLaws

  // ---------------------------------------------------------------- dependencies

  method AnyConditionMatches(conds: seq<DependCondition>, s: TaskStatus) returns (matched: bool)
    ensures matched <==> AnyMatches(conds, s)
    ensures matched <==>
            || (DependCondition.OnSuccess in conds && s == TaskStatus.Success)
            || (DependCondition.OnFailure in conds && s == TaskStatus.Failed)
            || (DependCondition.OnSkipped in conds && s == TaskStatus.Skipped)
  {
    ConditionsMean(conds, s);
    matched := false;
    for k := 0 to |conds|
      invariant matched <==> exists l :: 0 <= l < k && CondMatches(conds[l], s)
    {
      match conds[k] {
        case OnSuccess => if s.Success? { matched := true; }
        case OnFailure => if s.Failed? { matched := true; }
        case OnSkipped => if s.Skipped? { matched := true; }
        case Unset =>
      }
    }
  }

  /** Counts the parents whose edge matches, and compares with the number of parents. */
  method TaskMatchesParentDependCondition(rc: RunConfig, r: Run, t: TaskID) returns (matches: bool)
    requires Fits(rc, r) && t in rc
    ensures matches <==> DependsMatch(rc, r, t)
    ensures matches <==>
            forall p :: p in rc[t].depends && p in rc ==>
              || (DependCondition.OnSuccess in rc[t].depends[p] && r.tasks[p].status == TaskStatus.Success)
              || (DependCondition.OnFailure in rc[t].depends[p] && r.tasks[p].status == TaskStatus.Failed)
              || (DependCondition.OnSkipped in rc[t].depends[p] && r.tasks[p].status == TaskStatus.Skipped)
  {
    DependsMatchMeans(rc, r, t);
    var parents := GetParents(rc, t);
    var matchedNum := 0;
    for i := 0 to |parents|
      invariant matchedNum <= i
      invariant matchedNum == i <==> forall k :: 0 <= k < i ==> EdgeMatches(rc, r, t, parents[k])
    {
      assert parents[i] in Elements(parents);
      var matched := AnyConditionMatches(rc[t].depends[parents[i]], r.tasks[parents[i]].status);
      if matched {
        matchedNum := matchedNum + 1;
      }
    }
    matches := |parents| == matchedNum;
    if matches {
      forall p | p in Parents(rc, t) ensures EdgeMatches(rc, r, t, p) { var k := ElementAt(parents, p); }
    } else {
      ghost var k :| 0 <= k < |parents| && !EdgeMatches(rc, r, t, parents[k]);
      assert parents[k] in Elements(parents);
    }
  }

  method AllParentsFinished(rc: RunConfig, r: Run, t: TaskID) returns (all: bool)
    requires Fits(rc, r) && t in rc
    ensures all <==> ParentsDone(rc, r, t)
    ensures all <==>
            forall p :: p in rc[t].depends && p in rc ==>
              && r.tasks[p].status in {TaskStatus.Success, TaskStatus.Failed, TaskStatus.Stopped, TaskStatus.Skipped, TaskStatus.Cancelled}
              && forall i :: 0 <= i < |r.tasks[p].archivesPhase| ==> r.tasks[p].archivesPhase[i] == FetchFinished
  {
    ParentsDoneMeans(rc, r, t);
    var parents := GetParents(rc, t);
    assert forall k :: 0 <= k < |parents| ==> parents[k] in Elements(parents);
    var finishedParents := 0;
    for i := 0 to |parents|
      invariant finishedParents <= i
      invariant forall k :: 0 <= k < |parents| ==> parents[k] in r.tasks
      invariant finishedParents == i <==> forall k :: 0 <= k < i ==> Done(r.tasks[parents[k]])
    {
      assert parents[i] in Elements(parents);
      if Done(r.tasks[parents[i]]) {
        finishedParents := finishedParents + 1;
      }
    }
    all := finishedParents == |parents|;
    if all {
      forall p | p in Parents(rc, t) ensures Done(r.tasks[p]) { var k := ElementAt(parents, p); }
    } else {
      ghost var k :| 0 <= k < |parents| && !Done(r.tasks[parents[k]]);
      assert parents[k] in Elements(parents);
    }
  }

  // ---------------------------------------------------------------- advanceRunTasks

  ghost function Scheduled(ets: seq<ExecutorTask>): set<TaskID> {
    set et | et in ets :: et.task
  }

  method IsScheduled(ets: seq<ExecutorTask>, t: TaskID) returns (scheduled: bool)
    ensures scheduled <==> t in Scheduled(ets)
  {
    scheduled := false;
    for i := 0 to |ets|
      invariant scheduled <==> exists k :: 0 <= k < i && ets[k].task == t
    {
      if ets[i].task == t {
        scheduled := true;
      }
    }
    assert scheduled ==> exists et :: et in ets && et.task == t;
  }

  /** The three stages of advanceRunTasks for one task. */
  ghost function Stage(rc: RunConfig, r: Run, scheduled: set<TaskID>, n: nat, t: TaskID): RunTask
    requires t in rc && t in r.tasks && n <= 3
    decreases n
  {
    if n == 0 then r.tasks[t]
    else if n == 1 then StopTask(r, scheduled, t, Stage(rc, r, scheduled, 0, t))
    else if n == 2 then CancelRoot(rc, r, scheduled, t, Stage(rc, r, scheduled, 1, t))
    else DecideTask(rc, r, t, Stage(rc, r, scheduled, 2, t))
  }

  /** Stage `n` reached by the tasks outside `rest`, stage `n - 1` by those in it. */
  ghost predicate InStage(rc: RunConfig, r: Run, scheduled: set<TaskID>, n: nat, rest: set<TaskID>, tasks: map<TaskID, RunTask>)
    requires 1 <= n <= 3
  {
    && Fits(rc, r) && tasks.Keys == r.tasks.Keys && rest <= tasks.Keys
    && forall t :: t in tasks ==> tasks[t] == Stage(rc, r, scheduled, if t in rest then n - 1 else n, t)
  }

  method StopStage(rc: RunConfig, r: Run, ets: seq<ExecutorTask>) returns (tasks: map<TaskID, RunTask>)
    requires Fits(rc, r)
    ensures InStage(rc, r, Scheduled(ets), 1, {}, tasks)
  {
    tasks := r.tasks;
    if r.stop {
      var rest := tasks.Keys;
      while rest != {}
        invariant InStage(rc, r, Scheduled(ets), 1, rest, tasks)
        decreases rest
      {
        var t :| t in rest;
        rest := rest - {t};
        var isScheduled := IsScheduled(ets, t);
        if !isScheduled && tasks[t].status.NotStarted? {
          tasks := tasks[t := tasks[t].(status := TaskStatus.Skipped)];
        }
      }
    }
  }

  method CancelStage(rc: RunConfig, r: Run, ets: seq<ExecutorTask>, before: map<TaskID, RunTask>) returns (tasks: map<TaskID, RunTask>)
    requires InStage(rc, r, Scheduled(ets), 1, {}, before)
    ensures InStage(rc, r, Scheduled(ets), 2, {}, tasks)
  {
    tasks := before;
    var rest := tasks.Keys;
    while rest != {}
      invariant InStage(rc, r, Scheduled(ets), 2, rest, tasks)
      decreases rest
    {
      var t :| t in rest;
      rest := rest - {t};
      if !tasks[t].skip && tasks[t].status.NotStarted? {
        var parents := GetParents(rc, t);
        assert parents != [] ==> parents[0] in Elements(parents);
        if |parents| == 0 && r.result.IsSet() {
          var isScheduled := IsScheduled(ets, t);
          if !isScheduled {
            tasks := tasks[t := tasks[t].(status := TaskStatus.Cancelled)];
          }
        }
      }
    }
  }

  /** The body of the last loop of advanceRunTasks: `rt` is the task `t` of the copy. */
  method Decide(rc: RunConfig, r: Run, t: TaskID, rt: RunTask) returns (rt': RunTask)
    requires Fits(rc, r) && t in rc
    ensures rt' == DecideTask(rc, r, t, rt)
  {
    rt' := rt;
    if rt.skip || !rt.status.NotStarted? {
      return;
    }
    var allParentsFinished := AllParentsFinished(rc, r, t);
    if allParentsFinished {
      var matched := TaskMatchesParentDependCondition(rc, r, t);
      if !matched {
        rt' := rt.(status := TaskStatus.Skipped);
      } else if rc[t].needsApproval && !rt.waitingApproval && !rt.approved {
        rt' := rt.(waitingApproval := true);
      }
    }
  }

  method DecideStage(rc: RunConfig, r: Run, ghost scheduled: set<TaskID>, before: map<TaskID, RunTask>) returns (tasks: map<TaskID, RunTask>)
    requires InStage(rc, r, scheduled, 2, {}, before)
    ensures InStage(rc, r, scheduled, 3, {}, tasks)
  {
    hide DecideTask, CancelRoot, StopTask;
    tasks := before;
    var rest := tasks.Keys;
    while rest != {}
      invariant InStage(rc, r, scheduled, 3, rest, tasks)
      decreases rest
    {
      var t :| t in rest;
      rest := rest - {t};
      var rt := Decide(rc, r, t, tasks[t]);
      tasks := tasks[t := rt];
    }
  }

  /** The result is the same whatever order each of the three loops takes. */
  method AdvanceRunTasks(rc: RunConfig, curRun: Run, ets: seq<ExecutorTask>) returns (newRun: Run)
    requires Fits(rc, curRun)
    ensures newRun == AdvancedTasks(rc, curRun, Scheduled(ets))
  {
    hide DecideTask, CancelRoot, StopTask;
    var tasks := StopStage(rc, curRun, ets);
    tasks := CancelStage(rc, curRun, ets, tasks);
    tasks := DecideStage(rc, curRun, Scheduled(ets), tasks);
    newRun := curRun.(tasks := tasks);
  }

  method GetTasksToRun(rc: RunConfig, r: Run) returns (tasksToRun: seq<TaskID>)
    requires Fits(rc, r)
    ensures Elements(tasksToRun) == TasksToRun(rc, r) && NoDuplicates(tasksToRun)
    ensures forall t :: t in tasksToRun <==>
              && t in rc && !r.tasks[t].skip && r.tasks[t].status == TaskStatus.NotStarted
              && (rc[t].needsApproval ==> r.tasks[t].approved)
              && forall p :: p in rc[t].depends && p in rc ==>
                   && (forall i :: 0 <= i < |r.tasks[p].archivesPhase| ==> r.tasks[p].archivesPhase[i] == FetchFinished)
                   && (|| (DependCondition.OnSuccess in rc[t].depends[p] && r.tasks[p].status == TaskStatus.Success)
                       || (DependCondition.OnFailure in rc[t].depends[p] && r.tasks[p].status == TaskStatus.Failed)
                       || (DependCondition.OnSkipped in rc[t].depends[p] && r.tasks[p].status == TaskStatus.Skipped))
  {
    tasksToRun := [];
    var rest := r.tasks.Keys;
    while rest != {}
      invariant rest <= r.tasks.Keys
      invariant Elements(tasksToRun) == TasksToRun(rc, r) - rest && NoDuplicates(tasksToRun)
      decreases rest
    {
      var t :| t in rest;
      rest := rest - {t};
      var run := false;
      if !r.tasks[t].skip && r.tasks[t].status.NotStarted? {
        var allParentsFinished := AllParentsFinished(rc, r, t);
        if allParentsFinished {
          var matched := TaskMatchesParentDependCondition(rc, r, t);
          run := matched && (!rc[t].needsApproval || (rc[t].needsApproval && r.tasks[t].approved));
        }
      }
      assert run <==> t in TasksToRun(rc, r);
      if run {
        assert t !in Elements(tasksToRun);
        ElementsAppend(tasksToRun, t);
        tasksToRun := tasksToRun + [t];
      }
    }
    forall t | t in rc { RunnableMeans(rc, r, t); }
    assert forall t :: t in tasksToRun <==> t in Elements(tasksToRun);
  }

  // ---------------------------------------------------------------- the run in place

  datatype FetchError = NoSuchTask | NoSuchStep | NoSuchArchive

  /** A run object as a transaction reads it from the database and changes it in place. */
  class RunRecord {
    var phase: RunPhase
    var result: RunResult
    var stop: bool
    var tasks: map<TaskID, RunTask>
    var archived: bool

    function Value(): Run
      reads this
    {
      Run(phase, result, stop, tasks, archived)
    }

    constructor (r: Run)
      ensures Value() == r
    {
      phase, result, stop, tasks, archived := r.phase, r.result, r.stop, r.tasks, r.archived;
    }

    method ChangePhase(p: RunPhase)
      modifies this`phase
      ensures Value() == old(Value()).(phase := p)
    {
      phase := p;
    }

    method TasksFinished() returns (finished: bool)
      ensures finished <==> AllFinished(Value())
      ensures finished <==> forall t :: t in tasks ==> tasks[t].status !in {TaskStatus.NotStarted, TaskStatus.Running}
    {
      finished := true;
      var rest := tasks.Keys;
      while rest != {}
        invariant rest <= tasks.Keys
        invariant finished <==> forall t :: t in tasks && t !in rest ==> tasks[t].status.IsFinished()
        decreases rest
      {
        var t :| t in rest;
        rest := rest - {t};
        if !tasks[t].status.IsFinished() {
          finished := false;
        }
      }
    }

    /** The first loop of advanceRun. It may fail only when a task has no config. */
    method FailRun(rc: RunConfig) returns (err: bool)
      modifies this`result
      ensures err ==> result == old(result) && !(tasks.Keys <= rc.Keys)
      ensures !err ==> result == if HasFatalTask(rc, old(Value())) then RunResult.Failed else old(result)
      ensures !err && tasks.Keys == rc.Keys ==>
                result == if exists t :: t in rc && tasks[t].status == TaskStatus.Failed && !rc[t].ignoreFailure
                          then RunResult.Failed else old(result)
    {
      if tasks.Keys == rc.Keys { FatalMeans(rc, Value()); }
      var rest := tasks.Keys;
      while rest != {}
        invariant rest <= tasks.Keys && result == old(result)
        invariant forall t :: t !in rest ==> !FatalTask(rc, Value(), t)
        decreases rest
      {
        var t :| t in rest;
        rest := rest - {t};
        if t !in rc {
          return true;
        }
        if tasks[t].status.Failed? && !rc[t].ignoreFailure {
          assert FatalTask(rc, Value(), t);
          result := RunResult.Failed;
          return false;
        }
      }
      return false;
    }

    /** Marks everything there is to fetch of a task that never ran as fetched. */
    method FinishFetchPhases()
      modifies this`tasks
      ensures tasks == map t | t in old(tasks) :: FetchSkipped(old(tasks)[t])
    {
      var rest := tasks.Keys;
      while rest != {}
        invariant rest <= tasks.Keys == old(tasks).Keys
        invariant forall t :: t in tasks ==> tasks[t] == if t in rest then old(tasks)[t] else FetchSkipped(old(tasks)[t])
        decreases rest
      {
        var t :| t in rest;
        rest := rest - {t};
        if tasks[t].status.NotStarted? {
          tasks := tasks[t := FetchSkipped(tasks[t])];
        }
      }
    }

    method CloseWhenOver(hasScheduledTasks: bool)
      modifies this
      ensures Value() == CloseRun(old(Value()), hasScheduledTasks)
    {
      if result.IsSet() {
        var finished := TasksFinished();
        if finished && !phase.IsFinished() && !hasScheduledTasks {
          ChangePhase(RunPhase.Finished);
        }
        if phase.IsFinished() {
          FinishFetchPhases();
        }
      }
    }

    /** Updates result and phase. An error leaves the run as it was. */
    method AdvanceRun(rc: RunConfig, ets: seq<ExecutorTask>) returns (err: bool)
      modifies this
      ensures err ==> Value() == old(Value()) && !(tasks.Keys <= rc.Keys)
      ensures !err ==> Value() == AdvancedRun(rc, old(Value()), ets != [])
      ensures !err && old(tasks).Keys == rc.Keys && old(phase) == RunPhase.Running && old(result) == RunResult.Unknown ==>
                var over := forall t :: t in old(tasks) ==> old(tasks)[t].status !in {TaskStatus.NotStarted, TaskStatus.Running};
                var failed := exists t :: t in old(tasks) && t in rc && old(tasks)[t].status == TaskStatus.Failed && !rc[t].ignoreFailure;
                && (result == RunResult.Failed <==> failed)
                && (result == RunResult.Success <==> !failed && over)
                && (result == RunResult.Stopped <==> !failed && !over && stop)
      ensures old(phase) != RunPhase.Running || old(result) != RunResult.Unknown ==> result == old(result)
    {
      if phase != RunPhase.Running || result != RunResult.Unknown {
        ResultKept(rc, Value(), ets != []);
      } else if tasks.Keys == rc.Keys {
        ResultMeans(rc, Value(), ets != []);
      }
      var hasScheduledTasks := |ets| > 0;
      if !result.IsSet() && phase.Running? {
        err := FailRun(rc);
        if err {
          return;
        }
      }
      if !result.IsSet() && phase.Running? {
        var finished := TasksFinished();
        if finished {
          result := RunResult.Success;
          return false;
        }
      }
      if !result.IsSet() && phase.Running? {
        if stop {
          result := RunResult.Stopped;
        }
      }
      CloseWhenOver(hasScheduledTasks);
      return false;
    }

    /** A report that does not fit the current status is ignored. */
    method UpdateRunTaskStatus(et: ExecutorTask) returns (err: bool)
      modifies this`tasks
      ensures err <==> et.task !in old(tasks)
      ensures err ==> tasks == old(tasks)
      ensures !err ==> Value() == ReportTask(old(Value()), et.task, et.phase)
      ensures !err ==>
                var a, b, p := old(tasks)[et.task].status, tasks[et.task].status, et.phase;
                && tasks == old(tasks)[et.task := old(tasks)[et.task].(status := b)]
                && (a == TaskStatus.NotStarted ==>
                      && (b == TaskStatus.NotStarted <==> p == ExecutorTaskPhase.NotStarted)
                      && (b == TaskStatus.Cancelled <==> p == ExecutorTaskPhase.Cancelled)
                      && (b == TaskStatus.Running <==> p == ExecutorTaskPhase.Running)
                      && (b == TaskStatus.Stopped <==> p == ExecutorTaskPhase.Stopped)
                      && (b == TaskStatus.Success <==> p == ExecutorTaskPhase.Success)
                      && (b == TaskStatus.Failed <==> p == ExecutorTaskPhase.Failed))
                && (a == TaskStatus.Running ==>
                      && (b == TaskStatus.Stopped <==> p == ExecutorTaskPhase.Stopped)
                      && (b == TaskStatus.Success <==> p == ExecutorTaskPhase.Success)
                      && (b == TaskStatus.Failed <==> p == ExecutorTaskPhase.Failed)
                      && (b == TaskStatus.Running <==> p in {ExecutorTaskPhase.NotStarted, ExecutorTaskPhase.Running, ExecutorTaskPhase.Cancelled}))
                && (a != TaskStatus.NotStarted && a != TaskStatus.Running ==> b == a)
    {
      if et.task !in tasks {
        return true;
      }
      var rt := tasks[et.task];
      var wrongstatus := false;
      match et.phase {
        case NotStarted => if rt.status != TaskStatus.NotStarted { wrongstatus := true; }
        case Cancelled => if rt.status != TaskStatus.Cancelled && rt.status != TaskStatus.NotStarted { wrongstatus := true; }
        case Running => if rt.status != TaskStatus.Running && rt.status != TaskStatus.NotStarted { wrongstatus := true; }
        case Stopped =>
          if rt.status != TaskStatus.Stopped && rt.status != TaskStatus.NotStarted && rt.status != TaskStatus.Running { wrongstatus := true; }
        case Success =>
          if rt.status != TaskStatus.Success && rt.status != TaskStatus.NotStarted && rt.status != TaskStatus.Running { wrongstatus := true; }
        case Failed =>
          if rt.status != TaskStatus.Failed && rt.status != TaskStatus.NotStarted && rt.status != TaskStatus.Running { wrongstatus := true; }
      }
      if !wrongstatus {
        rt := rt.(status := match et.phase
          case NotStarted => TaskStatus.NotStarted
          case Cancelled => TaskStatus.Cancelled
          case Running => TaskStatus.Running
          case Stopped => TaskStatus.Stopped
          case Success => TaskStatus.Success
          case Failed => TaskStatus.Failed);
      }
      tasks := tasks[et.task := rt];
      return false;
    }

    /** Marks the first archive of step `stepnum` as fetched. */
    method FinishArchive(t: TaskID, stepnum: nat) returns (err: Option<FetchError>)
      requires t in tasks ==> tasks[t].ArchivesFit()
      modifies this`tasks
      ensures err.Some? ==> tasks == old(tasks)
      ensures err.None? <==> t in old(tasks) && stepnum < |old(tasks)[t].stepLogs| && stepnum in old(tasks)[t].workspaceArchives
      ensures err.None? ==>
                exists i :: (FirstArchive(old(tasks)[t], stepnum, i)
                             && tasks == old(tasks)[t := ArchiveFetched(old(tasks)[t], i)])
      ensures err.None? ==>
                var a := old(tasks)[t];
                exists i: nat :: i < |a.workspaceArchives| && a.workspaceArchives[i] == stepnum
                  && (forall k :: 0 <= k < i ==> a.workspaceArchives[k] != stepnum)
                  && i < |a.archivesPhase| && tasks == old(tasks)[t := a.(archivesPhase := a.archivesPhase[i := FetchFinished])]
    {
      if t !in tasks {
        return Some(NoSuchTask);
      }
      var rt := tasks[t];
      if |rt.stepLogs| <= stepnum {
        return Some(NoSuchStep);
      }
      for i := 0 to |rt.workspaceArchives|
        invariant tasks == old(tasks) && stepnum !in rt.workspaceArchives[..i]
      {
        if rt.workspaceArchives[i] == stepnum {
          assert FirstArchive(rt, stepnum, i);
          tasks := tasks[t := ArchiveFetched(rt, i)];
          return None;
        }
      }
      return Some(NoSuchArchive);
    }
  }

  ghost predicate FirstArchive(rt: RunTask, stepnum: nat, i: nat) {
    i < |rt.workspaceArchives| == |rt.archivesPhase| && rt.workspaceArchives[i] == stepnum && stepnum !in rt.workspaceArchives[..i]
  }

  function ArchiveFetched(rt: RunTask, i: nat): RunTask
    requires i < |rt.archivesPhase|
  {
    rt.(archivesPhase := rt.archivesPhase[i := FetchFinished])
  }
}
