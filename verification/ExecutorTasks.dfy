/** The executor's side of the phase protocol (internal/services/executor/executor.go). */
module ExecutorTasks {
  import opened RunTypes
  import opened Scheduler
  import opened Reports

  datatype StepStatus = StepStatus(phase: ExecutorTaskPhase, exitStatus: Option<int>)

  datatype Status = Status(phase: ExecutorTaskPhase, setup: ExecutorTaskPhase, steps: seq<StepStatus>)

  /** What running a step yields, and whether the task is to stop by the time it has ended.
      A step of a type that the executor does not know is not run at all. */
  datatype StepOutcome = UnknownStep | Ran(err: bool, exitCode: int, stop: bool)

  const WAITING := StepStatus(ExecutorTaskPhase.NotStarted, None)
  const RUNNING := StepStatus(ExecutorTaskPhase.Running, None)

  predicate Good(o: StepOutcome) {
    o.Ran? && !o.err && o.exitCode == 0
  }

  /** The phases read success*, then at most one running, failed or stopped, then not started*.
      Successful steps, and no others, have exit status 0. */
  predicate Shape(steps: seq<StepStatus>) {
    exists k :: 0 <= k <= |steps| && ShapeAt(steps, k)
  }

  predicate ShapeAt(steps: seq<StepStatus>, k: nat)
    requires k <= |steps|
  {
    && (forall i :: 0 <= i < k ==> steps[i].phase.Success? && steps[i].exitStatus == Some(0))
    && (forall i :: k < i < |steps| ==> steps[i].phase.NotStarted?)
    && (k < |steps| ==> !steps[k].phase.Success? && !steps[k].phase.Cancelled? && steps[k].exitStatus != Some(0))
  }

  lemma GoodMeans(o: StepOutcome)
    ensures Good(o) <==> !(o.UnknownStep? || o.err || o.exitCode != 0)
  {
  }

  /** How many steps succeed before the first that does not. */
  function Successes(outcomes: seq<StepOutcome>): (k: nat)
    ensures k <= |outcomes|
    ensures forall i :: 0 <= i < k ==> Good(outcomes[i])
    ensures k < |outcomes| ==> !Good(outcomes[k])
  {
    if outcomes == [] || !Good(outcomes[0]) then 0
    else
      var k := Successes(outcomes[1..]);
      assert forall i :: 0 <= i < k ==> outcomes[1..][i] == outcomes[i + 1];
      1 + k
  }

  /** The status of a step that ended badly. A step of unknown type stays running. */
  function Ended(o: StepOutcome): StepStatus {
    if o.UnknownStep? then RUNNING else
    StepStatus(if o.stop then ExecutorTaskPhase.Stopped else ExecutorTaskPhase.Failed, if o.err then None else Some(o.exitCode))
  }

  function StepsBefore(k: nat): seq<StepStatus> {
    seq(k, _ => StepStatus(ExecutorTaskPhase.Success, Some(0)))
  }

  /** All steps when `k` have succeeded and the next one has status `s`. */
  function StepsAt(n: nat, k: nat, s: StepStatus): seq<StepStatus>
    requires k < n
  {
    StepsBefore(k) + [s] + seq(n - k - 1, _ => WAITING)
  }

  function FinalSteps(outcomes: seq<StepOutcome>): seq<StepStatus> {
    var k, n := Successes(outcomes), |outcomes|;
    if k == n then StepsBefore(n) else StepsAt(n, k, Ended(outcomes[k]))
  }

  lemma StepsAtShape(n: nat, k: nat, s: StepStatus)
    requires k < n && !s.phase.Success? && !s.phase.Cancelled? && s.exitStatus != Some(0)
    ensures Shape(StepsAt(n, k, s))
  {
    assert ShapeAt(StepsAt(n, k, s), k);
  }

  lemma SuccessShape(steps: seq<StepStatus>, k: nat)
    requires k <= |steps| && steps == StepsBefore(k) + seq(|steps| - k, _ => WAITING)
    ensures Shape(steps)
  {
    assert ShapeAt(steps, k);
  }

  /** Where each step stands in the end: done, the first that went wrong, or never started. */
  lemma FinalStepsMean(outcomes: seq<StepOutcome>, i: nat)
    requires i < |outcomes|
    ensures |FinalSteps(outcomes)| == |outcomes|
    ensures var s, o := FinalSteps(outcomes)[i], outcomes[i];
            && (s == StepStatus(ExecutorTaskPhase.Success, Some(0)) <==>
                forall j :: 0 <= j <= i ==> outcomes[j].Ran? && !outcomes[j].err && outcomes[j].exitCode == 0)
            && ((exists j :: 0 <= j < i && (outcomes[j].UnknownStep? || outcomes[j].err || outcomes[j].exitCode != 0)) ==>
                s == StepStatus(ExecutorTaskPhase.NotStarted, None))
            && ((forall j :: 0 <= j < i ==> outcomes[j].Ran? && !outcomes[j].err && outcomes[j].exitCode == 0) ==>
                && (o.UnknownStep? ==> s == StepStatus(ExecutorTaskPhase.Running, None))
                && (o.Ran? && o.err ==>
                    s == StepStatus(if o.stop then ExecutorTaskPhase.Stopped else ExecutorTaskPhase.Failed, None))
                && (o.Ran? && !o.err && o.exitCode != 0 ==>
                    s == StepStatus(if o.stop then ExecutorTaskPhase.Stopped else ExecutorTaskPhase.Failed, Some(o.exitCode))))
  {
    var k, n := Successes(outcomes), |outcomes|;
    if k < n {
      assert FinalSteps(outcomes)[i] == if i < k then StepsBefore(k)[i] else if i == k then Ended(outcomes[k]) else WAITING;
      assert !Good(outcomes[k]);
    }
  }

  /** The status that a step of a known type gets when it has ended. */
  method EndStep(o: StepOutcome) returns (s: StepStatus, serr: bool)
    requires o.Ran?
    ensures serr <==> !Good(o)
    ensures s == if Good(o) then StepStatus(ExecutorTaskPhase.Success, Some(0)) else Ended(o)
  {
    s := StepStatus(ExecutorTaskPhase.Success, None);
    serr := false;
    if o.err {
      s := s.(phase := if o.stop then ExecutorTaskPhase.Stopped else ExecutorTaskPhase.Failed);
      serr := true;
    } else if o.exitCode != 0 {
      s := s.(phase := if o.stop then ExecutorTaskPhase.Stopped else ExecutorTaskPhase.Failed, exitStatus := Some(o.exitCode));
      serr := true;
    } else {
      s := s.(exitStatus := Some(o.exitCode));
    }
  }

  /** `i` steps have succeeded, the others have not started. */
  function Progress(n: nat, i: nat): seq<StepStatus>
    requires i <= n
  {
    StepsBefore(i) + seq(n - i, _ => WAITING)
  }

  /** The three ways a step changes the list: it starts, it ends badly, it succeeds. */
  lemma ProgressStep(outcomes: seq<StepOutcome>, i: nat)
    requires i < |outcomes| && i <= Successes(outcomes)
    ensures var n, o, start := |outcomes|, outcomes[i], Progress(|outcomes|, i)[i := RUNNING];
            && |Progress(n, i)| == |start| == n && Shape(start)
            && (!Good(o) ==> Successes(outcomes) == i && FinalSteps(outcomes) == start[i := Ended(o)] && Shape(start[i := Ended(o)]))
            && (o.UnknownStep? ==> !Good(o) && Ended(o) == RUNNING && start[i := RUNNING] == start)
            && (Good(o) ==> i + 1 <= Successes(outcomes)
                            && start[i := StepStatus(ExecutorTaskPhase.Success, Some(0))] == Progress(n, i + 1) && Shape(Progress(n, i + 1)))
  {
    hide Shape;
    var n, o, start := |outcomes|, outcomes[i], Progress(|outcomes|, i)[i := RUNNING];
    assert start == StepsAt(n, i, RUNNING);
    StepsAtShape(n, i, RUNNING);
    if Good(o) {
      assert start[i := StepStatus(ExecutorTaskPhase.Success, Some(0))] == Progress(n, i + 1);
      SuccessShape(Progress(n, i + 1), i + 1);
    } else {
      assert start[i := Ended(o)] == StepsAt(n, i, Ended(o));
      StepsAtShape(n, i, Ended(o));
      assert start[i := RUNNING] == start;
    }
  }

  lemma ProgressEnds(outcomes: seq<StepOutcome>)
    ensures var n := |outcomes|;
            && Progress(n, 0) == seq(n, _ => WAITING) && Shape(Progress(n, n))
            && (Successes(outcomes) == n ==> FinalSteps(outcomes) == Progress(n, n))
  {
    var n := |outcomes|;
    assert Progress(n, n) == StepsBefore(n);
    SuccessShape(Progress(n, n), n);
  }

  class RunningTask {
    var phase: ExecutorTaskPhase
    var setup: ExecutorTaskPhase
    var steps: seq<StepStatus>

    function Value(): Status
      reads this
    {
      Status(phase, setup, steps)
    }

    constructor (n: nat)
      ensures Value() == Status(ExecutorTaskPhase.NotStarted, ExecutorTaskPhase.NotStarted, seq(n, _ => WAITING))
    {
      phase, setup := ExecutorTaskPhase.NotStarted, ExecutorTaskPhase.NotStarted;
      steps := seq(n, _ => WAITING);
    }

    /** Runs the steps in order until one does not succeed. `sent` are the statuses reported on the
        way: one whenever a step starts and one whenever it ends. */
    method ExecuteTaskSteps(outcomes: seq<StepOutcome>) returns (failed: bool, sent: seq<Status>)
      requires steps == seq(|outcomes|, _ => WAITING)
      modifies this`steps
      ensures steps == FinalSteps(outcomes) && Shape(steps)
      ensures failed <==> exists i :: 0 <= i < |outcomes| && (outcomes[i].UnknownStep? || outcomes[i].err || outcomes[i].exitCode != 0)
      ensures forall i :: 0 <= i < |sent| ==> Shape(sent[i].steps) && sent[i].phase == phase && sent[i].setup == setup
    {
      hide Progress, StepsAt, Shape, Ended, Good, FinalSteps;
      sent := [];
      var n := |outcomes|;
      forall i | 0 <= i < n { GoodMeans(outcomes[i]); }
      ProgressEnds(outcomes);
      for i := 0 to n
        invariant i <= Successes(outcomes)
        invariant steps == Progress(n, i)
        invariant forall j :: 0 <= j < |sent| ==> Shape(sent[j].steps) && sent[j].phase == phase && sent[j].setup == setup
      {
        ProgressStep(outcomes, i);
        steps := steps[i := RUNNING];
        sent := sent + [Value()];
        if outcomes[i].UnknownStep? {
          return true, sent;
        }
        var s, serr := EndStep(outcomes[i]);
        steps := steps[i := s];
        sent := sent + [Value()];
        if serr {
          return true, sent;
        }
      }
      failed := false;
    }

    /** Setup, steps, end: the last status sent is the final one, all before it say "running". */
    method ExecuteTask(setupOk: bool, outcomes: seq<StepOutcome>, stopAtEnd: bool) returns (sent: seq<Status>)
      requires steps == seq(|outcomes|, _ => WAITING)
      modifies this
      ensures phase == FinalPhase(setupOk, outcomes, stopAtEnd)
      ensures var bad := exists i :: 0 <= i < |outcomes| && (outcomes[i].UnknownStep? || outcomes[i].err || outcomes[i].exitCode != 0);
              && (phase == ExecutorTaskPhase.Success <==> setupOk && !bad)
              && (phase == ExecutorTaskPhase.Stopped <==> setupOk && bad && stopAtEnd)
              && (phase == ExecutorTaskPhase.Failed <==> !setupOk || (bad && !stopAtEnd))
      ensures setup == if setupOk then ExecutorTaskPhase.Success else ExecutorTaskPhase.Failed
      ensures steps == (if setupOk then FinalSteps(outcomes) else old(steps)) && Shape(steps)
      ensures |sent| > 0 && sent[|sent| - 1] == Value()
      ensures forall i :: 0 <= i < |sent| - 1 ==> sent[i].phase.Running?
      ensures forall i :: 0 <= i < |sent| ==> Shape(sent[i].steps)
    {
      hide Shape, FinalSteps, Good, Successes;
      phase, setup := ExecutorTaskPhase.Running, ExecutorTaskPhase.Running;
      SuccessShape(steps, 0);
      sent := [Value()];
      if !setupOk {
        phase, setup := ExecutorTaskPhase.Failed, ExecutorTaskPhase.Failed;
        sent := sent + [Value()];
        return;
      }
      setup := ExecutorTaskPhase.Success;
      sent := sent + [Value()];
      var failed, stepsSent := ExecuteTaskSteps(outcomes);
      sent := sent + stepsSent;
      if failed {
        phase := if stopAtEnd then ExecutorTaskPhase.Stopped else ExecutorTaskPhase.Failed;
      } else {
        phase := ExecutorTaskPhase.Success;
      }
      sent := sent + [Value()];
    }
  }

  /** The phase a task ends in. */
  function FinalPhase(setupOk: bool, outcomes: seq<StepOutcome>, stopAtEnd: bool): (p: ExecutorTaskPhase)
    ensures p == ExecutorTaskPhase.Success <==>
            setupOk && forall i :: 0 <= i < |outcomes| ==> outcomes[i].Ran? && !outcomes[i].err && outcomes[i].exitCode == 0
    ensures p == ExecutorTaskPhase.Stopped <==>
            setupOk && stopAtEnd && exists i :: 0 <= i < |outcomes| && (outcomes[i].UnknownStep? || outcomes[i].err || outcomes[i].exitCode != 0)
    ensures p in {ExecutorTaskPhase.Success, ExecutorTaskPhase.Stopped, ExecutorTaskPhase.Failed}
  {
    if !setupOk then ExecutorTaskPhase.Failed
    else if Successes(outcomes) == |outcomes| then ExecutorTaskPhase.Success
    else if stopAtEnd then ExecutorTaskPhase.Stopped else ExecutorTaskPhase.Failed
  }

  ghost function Phases(sent: seq<Status>): set<ExecutorTaskPhase> {
    set s | s in sent :: s.phase
  }

  /** The two sides together: whichever of the statuses of one execution arrive, in whatever order
      and however often, the run task ends with the status of the final phase as soon as that one
      has arrived. */
  lemma ExecutionConverges(sent: seq<Status>, final: ExecutorTaskPhase, reports: seq<ExecutorTaskPhase>)
    requires |sent| > 0 && sent[|sent| - 1].phase == final && final.IsFinished() && !final.Cancelled?
    requires forall i :: 0 <= i < |sent| - 1 ==> sent[i].phase.Running?
    requires final in reports && forall p :: p in reports ==> p in Phases(sent) || p.NotStarted?
    ensures After(TaskStatus.NotStarted, reports) == StatusOf(final)
  {
    var drawn := Phases(sent) + {ExecutorTaskPhase.NotStarted};
    forall p | p in Phases(sent) ensures p.Running? || p == final {
      var s :| s in sent && s.phase == p;
    }
    ConvergesWhenOneFinal(reports, drawn, final);
  }

  // ---------------------------------------------------------------- tasks fetched from the runservice

  /** What the executor does with a fetched executor task. */
  datatype Reaction = Ignore | CancelRunning | Send(phase: ExecutorTaskPhase) | StartTask | Postpone

  class Executor {
    const id: ExecutorID
    const activeTasksLimit: int
    /** The running tasks, each with its stop flag. */
    var runningTasks: map<ExecutorTaskID, bool>

    constructor (id: ExecutorID, limit: int)
      ensures this.id == id && activeTasksLimit == limit && runningTasks == map[]
    {
      this.id, activeTasksLimit, runningTasks := id, limit, map[];
    }

    /** A fetched task is started only when it is ours, not started, not to stop and not already
        running. A running one is cancelled when its stop flag turns from false to true. For a task
        that is not running here, only "cancelled" (never started) or "failed" (lost) is reported. */
    method TaskUpdater(etID: ExecutorTaskID, et: ExecutorTask) returns (r: Reaction)
      modifies this`runningTasks
      ensures r.StartTask? <==> et.executor == id && etID !in old(runningTasks) && !et.stop && et.phase.NotStarted?
                                && |old(runningTasks)| <= activeTasksLimit
      ensures r.CancelRunning? <==> et.executor == id && etID in old(runningTasks) && !old(runningTasks)[etID] && et.stop
      ensures r.Send? <==> et.executor == id && etID !in old(runningTasks) && ((et.stop && et.phase.NotStarted?) || et.phase.Running?)
      ensures r.Send? ==> r.phase == if et.phase.Running? then ExecutorTaskPhase.Failed else ExecutorTaskPhase.Cancelled
      ensures runningTasks == if r.StartTask? then old(runningTasks)[etID := false]
                              else if r.CancelRunning? then old(runningTasks)[etID := true] else old(runningTasks)
    {
      if et.executor != id {
        return Ignore;
      }
      if etID in runningTasks {
        if !runningTasks[etID] && et.stop {
          runningTasks := runningTasks[etID := true];
          return CancelRunning;
        }
        return Ignore;
      }
      r := Ignore;
      var phase := et.phase;
      if et.stop && phase.NotStarted? {
        phase := ExecutorTaskPhase.Cancelled;
        r := Send(phase);
      }
      if phase.Running? {
        phase := ExecutorTaskPhase.Failed;
        r := Send(phase);
      }
      if !et.stop && phase.NotStarted? {
        var activeTasks := |runningTasks|;
        if activeTasks > activeTasksLimit {
          return Postpone;
        }
        runningTasks := runningTasks[etID := false];
        return StartTask;
      }
    }
  }
}
