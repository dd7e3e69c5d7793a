/** The stored state of one run and the transactions on it. Each action is one serializable
    transaction; an action that decides from an earlier read names the state it read (`seen`). */
module RunStore {
  import opened RunTypes
  import opened Scheduler

  /** The run with its revision, its executor tasks, its run events, the ids ever given to an
      executor task, and the tasks for which one was ever inserted, in order. */
  datatype Store = Store(
    run: Run,
    rev: nat,
    ets: map<ExecutorTaskID, ExecutorTask>,
    events: seq<RunEvent>,
    issued: set<ExecutorTaskID>,
    submitted: seq<TaskID>)

  datatype Action =
    | Start | CancelQueued | Stop
    | Approve(task: TaskID)
    | Annotate(task: TaskID)
    | SetPhase(et: ExecutorTaskID, phase: ExecutorTaskPhase)
    | MarkStop(et: ExecutorTaskID)
    | Report(et: ExecutorTaskID)
    | FetchSetupLog(task: TaskID)
    | FetchStepLog(task: TaskID, step: nat)
    | FetchArchive(task: TaskID, archive: nat)
    | DeleteTask(et: ExecutorTaskID)
    | Archive
    | Commit
    | Submit(task: TaskID, et: ExecutorTaskID, executor: ExecutorID)
    | Abort

  ghost function EtTasks(ets: map<ExecutorTaskID, ExecutorTask>): set<TaskID> {
    set e | e in ets :: ets[e].task
  }

  function Event(r: Run): RunEvent {
    RunEvent(r.phase, r.result)
  }

  /** saveRun: the run, its first event, nothing scheduled. */
  ghost predicate Init(rc: RunConfig, s: Store) {
    NewRun(rc, s.run) && s.rev == 1 && s.ets == map[] && s.events == [Event(s.run)] && s.issued == {} && s.submitted == []
  }

  /** The run update that every transaction on the run ends with. */
  function Saved(s: Store, r: Run): Store {
    s.(run := r, rev := s.rev + 1)
  }

  function NoApprovals(tasks: map<TaskID, RunTask>): map<TaskID, RunTask> {
    map t | t in tasks :: tasks[t].(waitingApproval := false)
  }

  // ---------------------------------------------------------------- the commit of scheduleRun

  /** The run that scheduleRun writes, computed from the state it read. */
  ghost function ScheduledRun(rc: RunConfig, seen: Store): Run {
    var r := AdvancedRun(rc, seen.run, seen.ets != map[]);
    if r.phase.Running? && Fits(rc, r) then AdvancedTasks(rc, r, EtTasks(seen.ets)) else r
  }

  /** When the run is to stop, every executor task that was read is told so, unless one of them
      has been changed or deleted since: then the transaction fails. */
  predicate StopsApply(seen: Store, s: Store) {
    seen.run.stop ==> forall e :: e in seen.ets ==> e in s.ets && s.ets[e].revision == seen.ets[e].revision
  }

  function StoppedEts(seen: Store, s: Store): map<ExecutorTaskID, ExecutorTask> {
    if !seen.run.stop then s.ets else
    map e | e in s.ets ::
      if e in seen.ets then seen.ets[e].(stop := true, revision := seen.ets[e].revision + 1) else s.ets[e]
  }

  ghost function Committed(rc: RunConfig, seen: Store, s: Store): Store {
    var r := ScheduledRun(rc, seen);
    Saved(s, r).(
      ets := StoppedEts(seen, s),
      events := if Event(r) == Event(seen.run) then s.events else s.events + [Event(r)])
  }

  // ---------------------------------------------------------------- actions

  ghost predicate Enabled(rc: RunConfig, seen: Store, s: Store, a: Action) {
    match a
    case Start => s.run.phase.Queued?
    case CancelQueued => s.run.phase.Queued?
    case Stop => s.run.phase.Running?
    case Approve(t) => t in s.run.tasks && s.run.tasks[t].waitingApproval && !s.run.tasks[t].approved
    case Annotate(t) => t in s.run.tasks
    case SetPhase(e, _) => e in s.ets
    case MarkStop(e) => e in s.ets && s.ets[e].phase.IsFinished() && s.run.phase.IsFinished() && !s.ets[e].stop
    case Report(e) => e in s.ets && s.ets[e].task in s.run.tasks
    case FetchSetupLog(t) => t in seen.run.tasks && seen.run.tasks[t].status.IsFinished() && t in s.run.tasks
    case FetchStepLog(t, i) =>
      t in seen.run.tasks && seen.run.tasks[t].status.IsFinished() && t in s.run.tasks && i < |s.run.tasks[t].stepLogs|
    case FetchArchive(t, i) =>
      t in seen.run.tasks && seen.run.tasks[t].status.IsFinished() && t in s.run.tasks && i < |s.run.tasks[t].archivesPhase|
    case DeleteTask(e) =>
      && e in s.ets && s.ets[e].task in seen.run.tasks
      && var rt := seen.run.tasks[s.ets[e].task]; Done(rt) && rt.LogsFetchFinished()
    case Archive =>
      && s.run.phase.IsFinished()
      && forall t :: t in s.run.tasks ==> s.run.tasks[t].LogsFetchFinished() && s.run.tasks[t].ArchivesFetchFinished()
    case Commit => seen.rev == s.rev && StopsApply(seen, s)
    case Submit(t, e, _) => seen.run.phase.Running? && Runnable(rc, seen.run, t) && t !in EtTasks(s.ets) && e !in s.issued
    case Abort => true
  }

  function SetTask(s: Store, t: TaskID, rt: RunTask): Store {
    Saved(s, s.run.(tasks := s.run.tasks[t := rt]))
  }

  ghost function Next(rc: RunConfig, seen: Store, s: Store, a: Action): Store
    requires Enabled(rc, seen, s, a)
  {
    match a
    case Start => var r := s.run.(phase := RunPhase.Running); Saved(s, r).(events := s.events + [Event(r)])
    case CancelQueued => var r := s.run.(phase := RunPhase.Cancelled); Saved(s, r).(events := s.events + [Event(r)])
    case Stop => Saved(s, s.run.(stop := true, tasks := NoApprovals(s.run.tasks)))
    case Approve(t) => SetTask(s, t, s.run.tasks[t].(waitingApproval := false, approved := true))
    case Annotate(t) => Saved(s, s.run)
    case SetPhase(e, p) => s.(ets := s.ets[e := s.ets[e].(phase := p, revision := s.ets[e].revision + 1)])
    case MarkStop(e) => s.(ets := s.ets[e := s.ets[e].(stop := true, revision := s.ets[e].revision + 1)])
    case Report(e) => Saved(s, ReportTask(s.run, s.ets[e].task, s.ets[e].phase))
    case FetchSetupLog(t) => SetTask(s, t, s.run.tasks[t].(setupLog := FetchFinished))
    case FetchStepLog(t, i) => SetTask(s, t, s.run.tasks[t].(stepLogs := s.run.tasks[t].stepLogs[i := FetchFinished]))
    case FetchArchive(t, i) => SetTask(s, t, s.run.tasks[t].(archivesPhase := s.run.tasks[t].archivesPhase[i := FetchFinished]))
    case DeleteTask(e) => s.(ets := s.ets - {e})
    case Archive => Saved(s, s.run.(archived := true))
    case Commit => Committed(rc, seen, s)
    case Submit(t, e, x) =>
      s.(ets := s.ets[e := ExecutorTask(x, t, false, ExecutorTaskPhase.NotStarted, 1)],
         issued := s.issued + {e}, submitted := s.submitted + [t])
    case Abort => s
  }

  // ---------------------------------------------------------------- what holds in every state

  ghost predicate Ran(s: TaskStatus) {
    s.Running? || s.Success? || s.Failed? || s.Stopped?
  }

  ghost predicate TasksConsistent(rc: RunConfig, s: Store) {
    && Fits(rc, s.run) && EtTasks(s.ets) <= s.run.tasks.Keys && s.ets.Keys <= s.issued
    && (forall t :: t in s.run.tasks ==> s.run.tasks[t].ArchivesFit())
    && (forall t :: t in s.run.tasks && s.run.tasks[t].skip ==> s.run.tasks[t].status.Skipped?)
    && (forall t :: t in s.run.tasks && s.run.tasks[t].status.Running? ==> t in EtTasks(s.ets))
  }

  /** Dependency safety: whatever ran, or is about to, had all its dependencies met. */
  ghost predicate DependencySafe(rc: RunConfig, s: Store) {
    forall t :: t in s.run.tasks && t in rc && (t in EtTasks(s.ets) || Ran(s.run.tasks[t].status)) ==> DependenciesMet(rc, s.run, t)
  }

  /** At most one executor task per run task is stored. */
  ghost predicate OneEtPerTask(s: Store) {
    forall d, e :: d in s.ets && e in s.ets && s.ets[d].task == s.ets[e].task ==> d == e
  }

  ghost predicate ResultExplained(rc: RunConfig, r: Run) {
    && (r.result.Success? ==> AllFinished(r) && !HasFatalTask(rc, r))
    && (r.result.Failed? ==> HasFatalTask(rc, r))
    && (r.result.Stopped? ==> r.stop)
    && (r.phase.Finished? ==> r.result.IsSet() && AllFinished(r))
    && (r.phase.Queued? || r.phase.Cancelled? ==> !r.result.IsSet())
    && !r.phase.SetupError?
  }

  /** The event log ends with the current phase and result, and no event repeats the one before. */
  ghost predicate EventsFollow(s: Store) {
    && |s.events| > 0 && s.events[|s.events| - 1] == Event(s.run)
    && forall i :: 0 < i < |s.events| ==> s.events[i] != s.events[i - 1]
  }

  ghost predicate Inv(rc: RunConfig, s: Store) {
    && TasksConsistent(rc, s) && DependencySafe(rc, s) && OneEtPerTask(s)
    && ResultExplained(rc, s.run) && EventsFollow(s)
  }

  /** Executor tasks never change hands. The same revision means the same executor task. */
  predicate EtMoves(a: ExecutorTask, b: ExecutorTask) {
    && a.task == b.task && a.executor == b.executor && (a.stop ==> b.stop)
    && a.revision <= b.revision && (a.revision == b.revision ==> a == b)
  }

  ghost predicate EtsMove(a: map<ExecutorTaskID, ExecutorTask>, b: map<ExecutorTaskID, ExecutorTask>) {
    forall e :: e in a && e in b ==> EtMoves(a[e], b[e])
  }

  /** How a state read earlier relates to the current one. The same revision means the same run. */
  ghost predicate SeenBefore(seen: Store, s: Store) {
    && RunMoves(seen.run, s.run) && seen.rev <= s.rev && (seen.rev == s.rev ==> seen.run == s.run)
    && seen.ets.Keys <= seen.issued <= s.issued && EtsMove(seen.ets, s.ets)
  }

  // ---------------------------------------------------------------- every action keeps it

  lemma InitHolds(rc: RunConfig, s: Store)
    requires Init(rc, s)
    ensures Inv(rc, s)
  {
    forall t | t in s.run.tasks && Ran(s.run.tasks[t].status) ensures DependenciesMet(rc, s.run, t) {
      assert KeptTask(rc, s.run, t);
    }
  }

  lemma AdvancedTaskMoves(rc: RunConfig, r: Run, scheduled: set<TaskID>, t: TaskID)
    requires t in rc && t in r.tasks
    ensures TaskMoves(r.tasks[t], AdvancedTask(rc, r, scheduled, t))
    ensures var st := AdvancedTask(rc, r, scheduled, t).status; st == r.tasks[t].status || st.Skipped? || st.Cancelled?
  {
  }

  lemma AdvancedTasksMove(rc: RunConfig, r: Run, scheduled: set<TaskID>)
    requires Fits(rc, r)
    ensures RunMoves(r, AdvancedTasks(rc, r, scheduled))
    ensures forall t :: t in r.tasks ==>
              var st := AdvancedTasks(rc, r, scheduled).tasks[t].status;
              st == r.tasks[t].status || st.Skipped? || st.Cancelled?
  {
    hide AdvancedTask, TaskMoves;
    forall t | t in r.tasks
      ensures TaskMoves(r.tasks[t], AdvancedTask(rc, r, scheduled, t))
      ensures var st := AdvancedTask(rc, r, scheduled, t).status; st == r.tasks[t].status || st.Skipped? || st.Cancelled?
    {
      AdvancedTaskMoves(rc, r, scheduled, t);
    }
  }

  /** What one scheduling decision does to a run. */
  lemma ScheduledRunMoves(rc: RunConfig, seen: Store)
    requires Fits(rc, seen.run) && !seen.run.phase.SetupError?
    ensures RunMoves(seen.run, ScheduledRun(rc, seen)) && Fits(rc, ScheduledRun(rc, seen))
    ensures forall t :: t in seen.run.tasks ==>
              var st := ScheduledRun(rc, seen).tasks[t].status;
              st == seen.run.tasks[t].status || st.Skipped? || st.Cancelled?
  {
    hide AdvancedRun, AdvancedTasks, TaskMoves, PhaseMoves, EtTasks;
    var r := AdvancedRun(rc, seen.run, seen.ets != map[]);
    AdvancedRunMoves(rc, seen.run, seen.ets != map[]);
    if r.phase.Running? {
      AdvancedTasksMove(rc, r, EtTasks(seen.ets));
      RunMovesTrans(seen.run, r, AdvancedTasks(rc, r, EtTasks(seen.ets)));
    }
  }
}
