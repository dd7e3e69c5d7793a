/** The run service's values: runs, run tasks, run configs, executor tasks.
    Identifiers are wrapped strings so that they cannot be confused with one another. */
module RunTypes {
  import Runes

  datatype Option<+T> = None | Some(value: T)

  datatype TaskID = TaskID(uuid: string)
  datatype ExecutorTaskID = ExecutorTaskID(uuid: string)
  datatype ExecutorID = ExecutorID(name: string)

  datatype RunPhase = SetupError | Queued | Cancelled | Running | Finished {
    predicate IsFinished() { SetupError? || Cancelled? || Finished? }
  }

  datatype RunResult = Unknown | Stopped | Success | Failed {
    predicate IsSet() { !Unknown? }
  }

  datatype TaskStatus = NotStarted | Skipped | Cancelled | Running | Stopped | Success | Failed {
    predicate IsFinished() { Cancelled? || Skipped? || Stopped? || Success? || Failed? }
  }

  datatype FetchPhase = FetchNotStarted | FetchFinished

  datatype ExecutorTaskPhase = NotStarted | Cancelled | Running | Stopped | Success | Failed {
    predicate IsFinished() { Cancelled? || Stopped? || Success? || Failed? }
  }

  datatype RunTask = RunTask(
    status: TaskStatus,
    skip: bool,
    waitingApproval: bool,
    approved: bool,
    setupLog: FetchPhase,
    stepLogs: seq<FetchPhase>,
    workspaceArchives: seq<nat>,
    archivesPhase: seq<FetchPhase>)
  {
    predicate LogsFetchFinished() {
      setupLog.FetchFinished? && forall i :: 0 <= i < |stepLogs| ==> stepLogs[i].FetchFinished?
    }

    /** There is one fetch phase per archive. */
    predicate ArchivesFit() {
      |archivesPhase| == |workspaceArchives|
    }

    predicate ArchivesFetchFinished() {
      forall i :: 0 <= i < |archivesPhase| ==> archivesPhase[i].FetchFinished?
    }
  }

  datatype Run = Run(
    phase: RunPhase,
    result: RunResult,
    stop: bool,
    tasks: map<TaskID, RunTask>,
    archived: bool)

  /** `Unset` is the zero value that an unknown condition text is translated to. */
  datatype DependCondition = OnSuccess | OnFailure | OnSkipped | Unset

  datatype StepKind = RunStep | SaveToWorkspace | RestoreWorkspace | SaveCache | RestoreCache

  /** An empty architecture means "any architecture". */
  datatype Runtime = Runtime(arch: string, privileged: seq<bool>)

  datatype RunConfigTask = RunConfigTask(
    level: int,
    name: seq<Runes.Byte>,
    depends: map<TaskID, seq<DependCondition>>,
    steps: seq<StepKind>,
    runtime: Runtime,
    ignoreFailure: bool,
    needsApproval: bool,
    skip: bool)

  type RunConfig = map<TaskID, RunConfigTask>

  datatype ExecutorTask = ExecutorTask(
    executor: ExecutorID,
    task: TaskID,
    stop: bool,
    phase: ExecutorTaskPhase,
    revision: nat)

  datatype RunEvent = RunEvent(phase: RunPhase, result: RunResult)
}
