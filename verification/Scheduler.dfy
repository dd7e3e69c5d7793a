/** The pure rules of the run scheduler (internal/services/runservice/scheduler.go): what each
    decision says about a run, a run config and the set of tasks with a stored executor task. */
module Scheduler {
  import opened RunTypes
  import opened RunConfigs

  /** The run and its config speak about the same tasks. */
  ghost predicate Fits(rc: RunConfig, r: Run) {
    rc.Keys == r.tasks.Keys
  }

  // ---------------------------------------------------------------- conditions

  predicate CondMatches(c: DependCondition, s: TaskStatus) {
    match c
    case OnSuccess => s.Success?
    case OnFailure => s.Failed?
    case OnSkipped => s.Skipped?
    case Unset => false
  }

  ghost predicate AnyMatches(conds: seq<DependCondition>, s: TaskStatus) {
    exists k :: 0 <= k < |conds| && CondMatches(conds[k], s)
  }

  /** The edge from `t` to its parent `p` allows `t` to run. */
  ghost predicate EdgeMatches(rc: RunConfig, r: Run, t: TaskID, p: TaskID)
    requires t in rc
  {
    p in rc[t].depends && p in r.tasks && AnyMatches(rc[t].depends[p], r.tasks[p].status)
  }

  ghost predicate DependsMatch(rc: RunConfig, r: Run, t: TaskID)
    requires t in rc
  {
    forall p :: p in Parents(rc, t) ==> EdgeMatches(rc, r, t, p)
  }

  /** A parent counts as finished only when its archives have been fetched. */
  predicate Done(rt: RunTask) {
    rt.status.IsFinished() && rt.ArchivesFetchFinished()
  }

  ghost predicate ParentsDone(rc: RunConfig, r: Run, t: TaskID)
    requires t in rc
  {
    forall p :: p in Parents(rc, t) ==> p in r.tasks && Done(r.tasks[p])
  }

  /** Every direct parent is finished, fetched, and matches a condition of its edge. */
  ghost predicate DependenciesMet(rc: RunConfig, r: Run, t: TaskID)
    requires t in rc
  {
    ParentsDone(rc, r, t) && DependsMatch(rc, r, t)
  }

  // ---------------------------------------------------------------- advancing a run

  ghost predicate AllFinished(r: Run) {
    forall t :: t in r.tasks ==> r.tasks[t].status.IsFinished()
  }

  /** A failed task whose failure is not ignored. */
  ghost predicate FatalTask(rc: RunConfig, r: Run, t: TaskID) {
    t in r.tasks && t in rc && r.tasks[t].status.Failed? && !rc[t].ignoreFailure
  }

  ghost predicate HasFatalTask(rc: RunConfig, r: Run) {
    exists t :: FatalTask(rc, r, t)
  }

  function FetchSkipped(rt: RunTask): RunTask {
    if rt.status.NotStarted? then
      rt.(setupLog := FetchFinished,
          stepLogs := seq(|rt.stepLogs|, _ => FetchFinished),
          archivesPhase := seq(|rt.archivesPhase|, _ => FetchFinished))
    else rt
  }

  /** The last part of advanceRun: a run with a result may be over. */
  ghost function CloseRun(r: Run, hasScheduled: bool): Run {
    if !r.result.IsSet() then r else
    var r' := if AllFinished(r) && !r.phase.IsFinished() && !hasScheduled then r.(phase := RunPhase.Finished) else r;
    if r'.phase.IsFinished() then r'.(tasks := map t | t in r'.tasks :: FetchSkipped(r'.tasks[t])) else r'
  }

  ghost function AdvancedRun(rc: RunConfig, r: Run, hasScheduled: bool): Run {
    if r.result.IsSet() || !r.phase.Running? then CloseRun(r, hasScheduled)
    else if HasFatalTask(rc, r) then CloseRun(r.(result := RunResult.Failed), hasScheduled)
    else if AllFinished(r) then r.(result := RunResult.Success)
    else if r.stop then CloseRun(r.(result := RunResult.Stopped), hasScheduled)
    else r
  }

  // ---------------------------------------------------------------- advancing its tasks

  function StopTask(r: Run, scheduled: set<TaskID>, t: TaskID, rt: RunTask): RunTask {
    if r.stop && t !in scheduled && rt.status.NotStarted? then rt.(status := TaskStatus.Skipped) else rt
  }

  ghost function CancelRoot(rc: RunConfig, r: Run, scheduled: set<TaskID>, t: TaskID, rt: RunTask): RunTask
    requires t in rc
  {
    if !rt.skip && rt.status.NotStarted? && Parents(rc, t) == {} && r.result.IsSet() && t !in scheduled
    then rt.(status := TaskStatus.Cancelled) else rt
  }

  ghost function DecideTask(rc: RunConfig, r: Run, t: TaskID, rt: RunTask): RunTask
    requires t in rc
  {
    if rt.skip || !rt.status.NotStarted? || !ParentsDone(rc, r, t) then rt
    else if !DependsMatch(rc, r, t) then rt.(status := TaskStatus.Skipped)
    else if rc[t].needsApproval && !rt.waitingApproval && !rt.approved then rt.(waitingApproval := true)
    else rt
  }

  /** One task after advanceRunTasks. Only the run as it was before matters, not what happened to
      other tasks meanwhile: that is why the iteration order does not matter. */
  ghost function AdvancedTask(rc: RunConfig, r: Run, scheduled: set<TaskID>, t: TaskID): RunTask
    requires t in rc && t in r.tasks
  {
    DecideTask(rc, r, t, CancelRoot(rc, r, scheduled, t, StopTask(r, scheduled, t, r.tasks[t])))
  }

  ghost function AdvancedTasks(rc: RunConfig, r: Run, scheduled: set<TaskID>): Run
    requires Fits(rc, r)
  {
    r.(tasks := map t | t in r.tasks :: AdvancedTask(rc, r, scheduled, t))
  }

  ghost predicate Runnable(rc: RunConfig, r: Run, t: TaskID) {
    && t in rc && t in r.tasks
    && !r.tasks[t].skip && r.tasks[t].status.NotStarted?
    && DependenciesMet(rc, r, t)
    && (!rc[t].needsApproval || r.tasks[t].approved)
  }

  ghost function TasksToRun(rc: RunConfig, r: Run): set<TaskID> {
    set t | t in r.tasks && Runnable(rc, r, t)
  }

  // ---------------------------------------------------------------- executor reports

  function StatusOf(p: ExecutorTaskPhase): TaskStatus {
    match p
    case NotStarted => TaskStatus.NotStarted
    case Cancelled => TaskStatus.Cancelled
    case Running => TaskStatus.Running
    case Stopped => TaskStatus.Stopped
    case Success => TaskStatus.Success
    case Failed => TaskStatus.Failed
  }

  /** Whether updateRunTaskStatus accepts phase `p` for a task with status `s`. */
  predicate AcceptsReport(s: TaskStatus, p: ExecutorTaskPhase) {
    match p
    case NotStarted => s.NotStarted?
    case Cancelled => s.Cancelled? || s.NotStarted?
    case Running => s.Running? || s.NotStarted?
    case Stopped => s.Stopped? || s.NotStarted? || s.Running?
    case Success => s.Success? || s.NotStarted? || s.Running?
    case Failed => s.Failed? || s.NotStarted? || s.Running?
  }

  function Reported(s: TaskStatus, p: ExecutorTaskPhase): TaskStatus {
    if AcceptsReport(s, p) then StatusOf(p) else s
  }

  function ReportTask(r: Run, t: TaskID, p: ExecutorTaskPhase): Run
    requires t in r.tasks
  {
    r.(tasks := r.tasks[t := r.tasks[t].(status := Reported(r.tasks[t].status, p))])
  }

  // ---------------------------------------------------------------- creating runs

  function GenArchives(steps: seq<StepKind>, from: nat): seq<nat>
    decreases |steps| - from
  {
    if from >= |steps| then [] else
    (if steps[from].SaveToWorkspace? then [from] else []) + GenArchives(steps, from + 1)
  }

  /** genRunTask: a task that `when` excludes starts out as skipped. */
  function GenRunTask(rct: RunConfigTask): RunTask {
    var archives := GenArchives(rct.steps, 0);
    RunTask(if rct.skip then TaskStatus.Skipped else TaskStatus.NotStarted, rct.skip, false, false,
            FetchNotStarted, seq(|rct.steps|, _ => FetchNotStarted),
            archives, seq(|archives|, _ => FetchNotStarted))
  }

  /** A successful task that a restarted run keeps, with all its ancestors (recreateRun). */
  ghost predicate KeptTask(rc: RunConfig, r: Run, t: TaskID)
    requires t in rc && t in r.tasks
  {
    && r.tasks[t].status.Success? && !r.tasks[t].skip
    && r.tasks[t].LogsFetchFinished() && r.tasks[t].ArchivesFetchFinished() && r.tasks[t].ArchivesFit()
    && forall p :: p in Parents(rc, t) ==> EdgeMatches(rc, r, t, p) && r.tasks[p].status.Success? && r.tasks[p].ArchivesFetchFinished()
  }

  /** A run as it is first stored: queued, each task fresh or kept. */
  ghost predicate NewRun(rc: RunConfig, r: Run) {
    && Fits(rc, r)
    && r.phase.Queued? && r.result.Unknown? && !r.stop && !r.archived
    && forall t :: t in r.tasks ==> r.tasks[t] == GenRunTask(rc[t]) || KeptTask(rc, r, t)
  }

  // ---------------------------------------------------------------- how a task evolves

  /** Forward moves of a task status: a finished status is never left. */
  predicate StatusMoves(a: TaskStatus, b: TaskStatus) {
    a == b || a.NotStarted? || (a.Running? && (b.Stopped? || b.Success? || b.Failed?))
  }

  predicate FetchMoves(a: seq<FetchPhase>, b: seq<FetchPhase>) {
    |a| == |b| && forall i :: 0 <= i < |a| && a[i].FetchFinished? ==> b[i].FetchFinished?
  }

  predicate TaskMoves(a: RunTask, b: RunTask) {
    && a.skip == b.skip && StatusMoves(a.status, b.status)
    && a.workspaceArchives == b.workspaceArchives
    && (a.setupLog.FetchFinished? ==> b.setupLog.FetchFinished?)
    && FetchMoves(a.stepLogs, b.stepLogs) && FetchMoves(a.archivesPhase, b.archivesPhase)
    && (a.approved ==> b.approved)
  }

  predicate PhaseMoves(a: RunPhase, b: RunPhase) {
    a == b || (a.Queued? && (b.Running? || b.Cancelled? || b.Finished?)) || (a.Running? && b.Finished?)
  }

  /** What every transaction keeps: nothing that is settled about a run is ever taken back. */
  ghost predicate RunMoves(a: Run, b: Run) {
    && a.tasks.Keys == b.tasks.Keys
    && PhaseMoves(a.phase, b.phase)
    && (a.result.IsSet() ==> a.result == b.result)
    && (a.stop ==> b.stop) && (a.archived ==> b.archived)
    && forall t :: t in a.tasks ==> TaskMoves(a.tasks[t], b.tasks[t])
  }

  lemma RunMovesTrans(a: Run, b: Run, c: Run)
    requires RunMoves(a, b) && RunMoves(b, c)
    ensures RunMoves(a, c)
  {
    forall t | t in a.tasks ensures TaskMoves(a.tasks[t], c.tasks[t]) {
      assert TaskMoves(a.tasks[t], b.tasks[t]) && TaskMoves(b.tasks[t], c.tasks[t]);
    }
  }

  lemma DoneStays(a: RunTask, b: RunTask)
    requires TaskMoves(a, b) && Done(a)
    ensures Done(b) && a.status == b.status
  {
  }

  /** Dependencies that are met stay met: they rest on settled facts only. */
  lemma DependenciesStayMet(rc: RunConfig, a: Run, b: Run, t: TaskID)
    requires RunMoves(a, b) && t in rc && DependenciesMet(rc, a, t)
    ensures DependenciesMet(rc, b, t)
  {
    forall p | p in Parents(rc, t) ensures p in b.tasks && Done(b.tasks[p]) && EdgeMatches(rc, b, t, p) {
      assert EdgeMatches(rc, a, t, p) && Done(a.tasks[p]);
      DoneStays(a.tasks[p], b.tasks[p]);
    }
  }

  lemma FetchSkippedMoves(rt: RunTask)
    ensures TaskMoves(rt, FetchSkipped(rt))
  {
  }

  lemma CloseRunMoves(r: Run, hasScheduled: bool)
    ensures RunMoves(r, CloseRun(r, hasScheduled)) || r.phase.SetupError?
    ensures CloseRun(r, hasScheduled).phase != r.phase ==> r.result.IsSet() && AllFinished(r) && !hasScheduled
    ensures forall t :: t in r.tasks ==> CloseRun(r, hasScheduled).tasks[t].status == r.tasks[t].status
  {
    forall t | t in r.tasks ensures TaskMoves(r.tasks[t], FetchSkipped(r.tasks[t])) {
      FetchSkippedMoves(r.tasks[t]);
    }
  }

  lemma ResultThenCloseMoves(r: Run, res: RunResult, hasScheduled: bool)
    requires !r.phase.SetupError? && !r.result.IsSet()
    ensures var r' := CloseRun(r.(result := res), hasScheduled);
            RunMoves(r, r') && forall t :: t in r.tasks ==> r'.tasks[t].status == r.tasks[t].status
  {
    hide CloseRun, TaskMoves;
    CloseRunMoves(r.(result := res), hasScheduled);
  }

  lemma AdvancedRunMoves(rc: RunConfig, r: Run, hasScheduled: bool)
    requires !r.phase.SetupError?
    ensures RunMoves(r, AdvancedRun(rc, r, hasScheduled))
    ensures forall t :: t in r.tasks ==> AdvancedRun(rc, r, hasScheduled).tasks[t].status == r.tasks[t].status
  {
    hide CloseRun, HasFatalTask, FatalTask, AllFinished, TaskMoves;
    if r.result.IsSet() || !r.phase.Running? {
      CloseRunMoves(r, hasScheduled);
    } else {
      TaskMovesSelf(r);
      ResultThenCloseMoves(r, RunResult.Failed, hasScheduled);
      ResultThenCloseMoves(r, RunResult.Stopped, hasScheduled);
    }
  }

  lemma TaskMovesSelf(r: Run)
    ensures forall t :: t in r.tasks ==> TaskMoves(r.tasks[t], r.tasks[t])
  {
  }

  lemma CloseKeepsStop(r: Run, hasScheduled: bool)
    ensures CloseRun(r, hasScheduled).stop == r.stop
  {
  }

  lemma StopFlagKept(rc: RunConfig, r: Run, hasScheduled: bool)
    ensures AdvancedRun(rc, r, hasScheduled).stop == r.stop
  {
    hide HasFatalTask, AllFinished, CloseRun;
    CloseKeepsStop(r, hasScheduled);
    CloseKeepsStop(r.(result := RunResult.Failed), hasScheduled);
    CloseKeepsStop(r.(result := RunResult.Stopped), hasScheduled);
  }

  /** After a stop, only tasks with an executor task are still not started. */
  lemma DecidedSkipped(rc: RunConfig, r: Run, scheduled: set<TaskID>, t: TaskID)
    requires t in rc && t in r.tasks && r.stop
    ensures t in scheduled || !AdvancedTask(rc, r, scheduled, t).status.NotStarted?
  {
  }
}
