/** Runs of the split model that show what it does not promise. In each of them a submission rests
    on a run that was read long before. */
module SplitWitnesses {
  import opened RunTypes
  import opened RunConfigs
  import opened Scheduler
  import opened RunStore
  import opened SplitModel

  const T := TaskID("t")
  const U := TaskID("u")
  const FIRST := ExecutorTaskID("first")
  const SECOND := ExecutorTaskID("second")
  const EXECUTOR := ExecutorID("executor")
  const PLAIN := RunConfigTask(0, [0x74], map[], [], Runtime("", []), false, false, false)

  /** One task, or two that do not depend on each other. */
  function Config(two: bool): RunConfig {
    if two then map[T := PLAIN, U := PLAIN] else map[T := PLAIN]
  }

  function Task(status: TaskStatus): RunTask {
    RunTask(status, false, false, false, FetchNotStarted, [], [], [])
  }

  function Tasks(two: bool): map<TaskID, RunTask> {
    if two then map[T := Task(TaskStatus.NotStarted), U := Task(TaskStatus.NotStarted)] else map[T := Task(TaskStatus.NotStarted)]
  }

  /** Nothing has started. */
  function Idle(two: bool, phase: RunPhase, rev: nat, events: seq<RunEvent>): Store {
    Store(Run(phase, RunResult.Unknown, false, Tasks(two), false), rev, map[], events, {}, [])
  }

  const QUEUED := RunEvent(RunPhase.Queued, RunResult.Unknown)
  const RUNNING := RunEvent(RunPhase.Running, RunResult.Unknown)

  function Last(b: seq<Store>): Store
    requires |b| > 0
  {
    b[|b| - 1]
  }

  /** A run in which the state number 2 was committed with the task, or both, ready to run. */
  ghost predicate Begun(two: bool, b: seq<Store>, ms: seq<Move>) {
    && SplitRun(Config(two), b, ms) && |b| == |ms| + 1 >= 3
    && b[2] == Idle(two, RunPhase.Running, 3, [QUEUED, RUNNING]) && ms[1].action.Commit?
  }

  lemma NoParents(two: bool)
    ensures forall t :: t in Config(two) ==> Parents(Config(two), t) == {}
    ensures Config(two).Keys == Tasks(two).Keys
  {
  }

  lemma First(two: bool)
    ensures SplitRun(Config(two), [Idle(two, RunPhase.Queued, 1, [QUEUED])], [])
  {
    assert GenRunTask(PLAIN) == Task(TaskStatus.NotStarted);
  }

  lemma IdleCommit(two: bool)
    ensures var s := Idle(two, RunPhase.Running, 2, [QUEUED, RUNNING]);
            Committed(Config(two), s, s) == Idle(two, RunPhase.Running, 3, [QUEUED, RUNNING])
  {
    hide DecideTask;
    NoParents(two);
    var rc, s := Config(two), Idle(two, RunPhase.Running, 2, [QUEUED, RUNNING]);
    var r := s.run;
    assert !HasFatalTask(rc, r);
    assert !AllFinished(r) by { assert T in r.tasks; }
    forall t | t in r.tasks ensures AdvancedTask(rc, r, {}, t) == r.tasks[t] { IdleDecided(two, r, t); }
    assert AdvancedTasks(rc, r, {}).tasks == r.tasks;
    assert EtTasks(s.ets) == {};
  }

  lemma IdleDecided(two: bool, r: Run, t: TaskID)
    requires t in Config(two) && t in r.tasks && r.tasks[t] == Task(TaskStatus.NotStarted)
    ensures DecideTask(Config(two), r, t, r.tasks[t]) == r.tasks[t]
  {
    NoParents(two);
  }

  lemma Begin(two: bool) returns (b: seq<Store>, ms: seq<Move>)
    ensures Begun(two, b, ms) && |b| == 3
  {
    hide SplitRun, Committed, Tasks;
    var rc := Config(two);
    var s0 := Idle(two, RunPhase.Queued, 1, [QUEUED]);
    var s1 := Idle(two, RunPhase.Running, 2, [QUEUED, RUNNING]);
    var s2 := Idle(two, RunPhase.Running, 3, [QUEUED, RUNNING]);
    First(two);
    OneMoreMove(rc, [s0], [], Move(Start, 0), s1);
    IdleCommit(two);
    OneMoreMove(rc, [s0] + [s1], [] + [Move(Start, 0)], Move(Commit, 1), s2);
    b, ms := [s0] + [s1] + [s2], [] + [Move(Start, 0)] + [Move(Commit, 1)];
  }

  lemma ReadyAtCommit(two: bool, t: TaskID)
    requires t in Config(two)
    ensures Runnable(Config(two), Idle(two, RunPhase.Running, 3, [QUEUED, RUNNING]).run, t)
  {
    NoParents(two);
  }

  function Inserted(s: Store, t: TaskID, e: ExecutorTaskID): Store {
    s.(ets := s.ets[e := ExecutorTask(EXECUTOR, t, false, ExecutorTaskPhase.NotStarted, 1)],
       issued := s.issued + {e}, submitted := s.submitted + [t])
  }

  /** A submission of what was ready at state number 2, whatever has happened since. */
  lemma SubmitLate(two: bool, b: seq<Store>, ms: seq<Move>, t: TaskID, e: ExecutorTaskID) returns (b': seq<Store>, ms': seq<Move>)
    requires Begun(two, b, ms) && t in Config(two) && t !in EtTasks(Last(b).ets) && e !in Last(b).issued
    ensures Begun(two, b', ms') && b' == b + [Inserted(Last(b), t, e)] && ms' == ms + [Move(Submit(t, e, EXECUTOR), 2)]
  {
    hide SplitRun, Runnable, EtTasks, Config, Tasks;
    ReadyAtCommit(two, t);
    b', ms' := b + [Inserted(Last(b), t, e)], ms + [Move(Submit(t, e, EXECUTOR), 2)];
    OneMoreMove(Config(two), b, ms, ms'[|ms|], Last(b'));
  }

  /** Another action, decided from the state at position `seen`. */
  lemma Act(two: bool, b: seq<Store>, ms: seq<Move>, a: Action, seen: nat) returns (b': seq<Store>, ms': seq<Move>)
    requires Begun(two, b, ms) && seen < |b| && !a.Submit? && Enabled(Config(two), b[seen], Last(b), a)
    ensures Begun(two, b', ms') && b' == b + [Next(Config(two), b[seen], Last(b), a)] && ms' == ms + [Move(a, seen)]
  {
    hide SplitRun, Enabled, Next, Config, Idle;
    b', ms' := b + [Next(Config(two), b[seen], Last(b), a)], ms + [Move(a, seen)];
    OneMoreMove(Config(two), b, ms, Move(a, seen), Last(b'));
  }

  lemma CommitFrom(two: bool, b: seq<Store>, ms: seq<Move>, seen: nat) returns (b': seq<Store>, ms': seq<Move>)
    requires Begun(two, b, ms) && seen < |b| && Enabled(Config(two), b[seen], Last(b), Commit)
    ensures Begun(two, b', ms') && b' == b + [Committed(Config(two), b[seen], Last(b))] && ms' == ms + [Move(Commit, seen)]
    ensures Last(b').issued == Last(b).issued && Last(b').submitted == Last(b).submitted
  {
    hide SplitRun, ScheduledRun, Config, Idle, StoppedEts;
    b', ms' := Act(two, b, ms, Commit, seen);
  }

  lemma BegunParts(two: bool, b: seq<Store>, ms: seq<Move>)
    requires Begun(two, b, ms)
    ensures |b| == |ms| + 1 >= 3 && b[2] == Idle(two, RunPhase.Running, 3, [QUEUED, RUNNING])
    ensures SplitRun(Config(two), b, ms)
  {
  }

  lemma NoEts(ets: map<ExecutorTaskID, ExecutorTask>, t: TaskID)
    requires ets == map[]
    ensures t !in EtTasks(ets) && EtTasks(ets) == {}
  {
  }

  // ---------------------------------------------------------------- a task is submitted twice

  /** The executor task FIRST reports `p`, and is deleted when the log has been fetched. */
  lemma EndFirst(two: bool, b: seq<Store>, ms: seq<Move>, p: ExecutorTaskPhase) returns (b': seq<Store>, ms': seq<Move>)
    requires Begun(two, b, ms) && p.IsFinished() && FIRST in Last(b).ets && Last(b).ets[FIRST].task == T
    requires T in Last(b).run.tasks && Last(b).run.tasks[T] == Task(TaskStatus.NotStarted)
    ensures Begun(two, b', ms') && b <= b' && Last(b').ets == Last(b).ets - {FIRST}
    ensures Last(b').submitted == Last(b).submitted && Last(b').issued == Last(b).issued
    ensures T in Last(b').run.tasks && Last(b').run.tasks[T].status == StatusOf(p)
  {
    hide Begun, SplitRun;
    BegunParts(two, b, ms);
    var s := Last(b);
    b', ms' := Act(two, b, ms, SetPhase(FIRST, p), |b| - 1);
    b', ms' := Act(two, b', ms', Report(FIRST), |b'| - 1);
    b', ms' := FetchAndDelete(two, b', ms');
    assert Last(b').ets == s.ets - {FIRST};
  }

  lemma FetchAndDelete(two: bool, b: seq<Store>, ms: seq<Move>) returns (b': seq<Store>, ms': seq<Move>)
    requires Begun(two, b, ms) && FIRST in Last(b).ets && Last(b).ets[FIRST].task == T
    requires T in Last(b).run.tasks && Last(b).run.tasks[T].status.IsFinished()
    requires Last(b).run.tasks[T].stepLogs == [] && Last(b).run.tasks[T].archivesPhase == []
    ensures Begun(two, b', ms') && b <= b' && ms <= ms' && |b'| == |b| + 2 && Last(b').ets == Last(b).ets - {FIRST}
    ensures Last(b').submitted == Last(b).submitted && Last(b').issued == Last(b).issued
    ensures T in Last(b').run.tasks && Last(b').run.tasks[T].status == Last(b).run.tasks[T].status
  {
    hide Begun, SplitRun;
    BegunParts(two, b, ms);
    b', ms' := Act(two, b, ms, FetchSetupLog(T), |b| - 1);
    b', ms' := Act(two, b', ms', DeleteTask(FIRST), |b'| - 1);
  }

  /** A submission at the end of `b`, of a task with this stored status. */
  ghost predicate LastSubmits(two: bool, b: seq<Store>, ms: seq<Move>, t: TaskID, status: TaskStatus) {
    && Begun(two, b, ms) && ms[|ms| - 1].action.Submit? && ms[|ms| - 1].action.task == t
    && t in b[|ms| - 1].run.tasks && b[|ms| - 1].run.tasks[t].status == status
  }

  /** At-most-once submission over a whole run does not hold in the split model. */
  lemma SubmittedTwice(p: ExecutorTaskPhase) returns (b: seq<Store>, ms: seq<Move>)
    requires p.IsFinished()
    ensures LastSubmits(false, b, ms, T, StatusOf(p)) && b[|ms| - 1].submitted == [T] && Last(b).submitted == [T, T]
  {
    hide Begun, SplitRun, EtTasks;
    b, ms := Begin(false);
    BegunParts(false, b, ms);
    NoEts(Last(b).ets, T);
    b, ms := SubmitLate(false, b, ms, T, FIRST);
    b, ms := EndFirst(false, b, ms, p);
    NoEts(Last(b).ets, T);
    b, ms := SubmitLate(false, b, ms, T, SECOND);
    BegunParts(false, b, ms);
  }

  // ---------------------------------------------------------------- stop, and the end

  function Stopped(phase: RunPhase, result: RunResult, status: TaskStatus): Run {
    Run(phase, result, true, map[T := Task(status)], false)
  }

  /** The first commit of a stopped run skips the task, the second one ends the run. */
  lemma StoppedCommit(seen: Store, s: Store)
    requires seen.ets == map[] && seen.run == Stopped(RunPhase.Running, RunResult.Unknown, TaskStatus.NotStarted)
    ensures Committed(Config(false), seen, s).run == Stopped(RunPhase.Running, RunResult.Stopped, TaskStatus.Skipped)
    ensures seen.ets == map[] ==> Committed(Config(false), seen, s).ets.Keys == s.ets.Keys
    ensures forall e :: e in s.ets ==> Committed(Config(false), seen, s).ets[e] == s.ets[e]
  {
    NoParents(false);
    NoEts(seen.ets, T);
    var rc, r := Config(false), seen.run;
    assert !HasFatalTask(rc, r);
    assert !AllFinished(r) by { assert T in r.tasks; }
    var r' := AdvancedRun(rc, r, false);
    assert r' == Stopped(RunPhase.Running, RunResult.Stopped, TaskStatus.NotStarted) by {
      AllFinishedHere(r, RunResult.Stopped);
    }
    SkippedByStop(r');
    assert AdvancedTasks(rc, r', {}).tasks == map[T := Task(TaskStatus.Skipped)];
  }

  lemma SkippedByStop(r: Run)
    requires r.stop && r.tasks == map[T := Task(TaskStatus.NotStarted)]
    ensures AdvancedTask(Config(false), r, {}, T) == Task(TaskStatus.Skipped)
  {
  }

  lemma EndCommit(s: Store)
    requires s.ets == map[] && s.run == Stopped(RunPhase.Running, RunResult.Stopped, TaskStatus.Skipped)
    ensures Committed(Config(false), s, s).run == Stopped(RunPhase.Finished, RunResult.Stopped, TaskStatus.Skipped)
    ensures Committed(Config(false), s, s).ets == map[]
  {
    assert AllFinished(s.run);
    var tasks := s.run.tasks;
    assert (map t | t in tasks :: FetchSkipped(tasks[t])) == tasks;
  }

  lemma StoppedRun() returns (b: seq<Store>, ms: seq<Move>)
    ensures Begun(false, b, ms) && |b| == 4 && Last(b).ets == map[] && Last(b).issued == {} && Last(b).submitted == []
    ensures Last(b).run == Stopped(RunPhase.Running, RunResult.Unknown, TaskStatus.NotStarted)
  {
    hide SplitRun, Begun;
    b, ms := Begin(false);
    BegunParts(false, b, ms);
    b, ms := Act(false, b, ms, Stop, 2);
  }

  /** Without the recheck, neither "finished" nor "stopped" is final for the executor tasks: a stored
      one appears after the end. Each submission is the first of its task all the same, although
      the last one would not pass the recheck. */
  lemma SubmittedAfterTheEnd() returns (b: seq<Store>, ms: seq<Move>)
    ensures LastSubmits(false, b, ms, T, TaskStatus.Skipped) && |b| == 7
    ensures b[5].run.phase.Finished? && b[5].run.stop && b[5].ets == map[] && b[5].submitted == []
    ensures FIRST in b[6].ets && NoDuplicates(b[6].submitted) && !Rechecked(b[5], ms[5])
  {
    hide SplitRun, Begun, EtTasks, Committed, StopsApply;
    b, ms := StoppedRun();
    BegunParts(false, b, ms);
    CommitNow(Last(b));
    StoppedCommit(Last(b), Last(b));
    b, ms := CommitFrom(false, b, ms, 3);
    assert Last(b).ets.Keys == {};
    CommitNow(Last(b));
    EndCommit(Last(b));
    b, ms := CommitFrom(false, b, ms, 4);
    NoEts(Last(b).ets, T);
    b, ms := SubmitLate(false, b, ms, T, FIRST);
    BegunParts(false, b, ms);
  }

  lemma CommitNow(s: Store)
    requires s.ets == map[]
    ensures Enabled(Config(false), s, s, Commit)
  {
  }

  /** A submission after stop, and the commit that skips the task although it has an executor task;
      when that one is gone, the task is submitted again. */
  lemma SkippedAndSubmitted() returns (b: seq<Store>, ms: seq<Move>)
    ensures LastSubmits(false, b, ms, T, TaskStatus.Skipped) && b[|ms| - 1].submitted == [T] && Last(b).submitted == [T, T]
    ensures |b| == 9 && b[3].run.stop && b[3].submitted == [] && Rechecked(b[3], ms[3]) && b[4].submitted == [T]
  {
    hide SplitRun, Begun, EtTasks, Committed, StopsApply;
    b, ms := StoppedRun();
    BegunParts(false, b, ms);
    NoEts(Last(b).ets, T);
    b, ms := SubmitLate(false, b, ms, T, FIRST);
    StoppedCommit(b[3], Last(b));
    OldCommit(b[3], Last(b));
    b, ms := CommitFrom(false, b, ms, 3);
    b, ms := FetchAndDelete(false, b, ms);
    assert Last(b).ets == map[];
    NoEts(Last(b).ets, T);
    b, ms := SubmitLate(false, b, ms, T, SECOND);
    BegunParts(false, b, ms);
  }

  lemma OldCommit(seen: Store, s: Store)
    requires seen.ets == map[] && seen.rev == s.rev
    ensures Enabled(Config(false), seen, s, Commit)
  {
  }

  // ---------------------------------------------------------------- cancelled

  /** A commit after the failure of one task cancels the other one. */
  lemma FailedCommit(s: Store)
    requires s.run.phase.Running? && s.run.result.Unknown? && !s.run.stop && EtTasks(s.ets) == {T}
    requires s.run.tasks.Keys == {T, U} && s.run.tasks[T].status.Failed? && s.run.tasks[U] == Task(TaskStatus.NotStarted)
    ensures Committed(Config(true), s, s).run.tasks.Keys == {T, U}
    ensures Committed(Config(true), s, s).run.tasks[U].status.Cancelled?
  {
    hide AdvancedTask, EtTasks;
    NoParents(true);
    assert FatalTask(Config(true), s.run, T);
    var r := s.run.(result := RunResult.Failed);
    assert !AllFinished(r) by { assert U in r.tasks; }
    CancelledByFailure(r);
    assert AdvancedRun(Config(true), s.run, s.ets != map[]) == r;
  }

  lemma CancelledByFailure(r: Run)
    requires r.result.IsSet() && !r.stop && U in r.tasks && r.tasks[U] == Task(TaskStatus.NotStarted)
    ensures AdvancedTask(Config(true), r, {T}, U).status.Cancelled?
  {
    NoParents(true);
  }

  lemma CommitEnabled(two: bool, s: Store)
    requires !s.run.stop
    ensures Enabled(Config(two), s, s, Commit)
  {
  }

  lemma CancelledAndNotSubmitted() returns (b: seq<Store>, ms: seq<Move>)
    ensures LastSubmits(true, b, ms, U, TaskStatus.Cancelled) && b[|ms| - 1].submitted == [T] && Last(b).submitted == [T, U]
  {
    hide SplitRun, Begun, EtTasks, Committed, StopsApply;
    b, ms := Begin(true);
    BegunParts(true, b, ms);
    NoEts(Last(b).ets, T);
    b, ms := SubmitLate(true, b, ms, T, FIRST);
    b, ms := Act(true, b, ms, SetPhase(FIRST, ExecutorTaskPhase.Failed), 3);
    b, ms := Act(true, b, ms, Report(FIRST), 4);
    OnlyFirst(Last(b).ets);
    FailedCommit(Last(b));
    CommitEnabled(true, Last(b));
    var s := Last(b);
    b, ms := CommitFrom(true, b, ms, 5);
    assert Last(b).ets == s.ets by { CommitKeepsEts(s); }
    b, ms := SubmitLate(true, b, ms, U, SECOND);
    BegunParts(true, b, ms);
  }

  lemma OnlyFirst(ets: map<ExecutorTaskID, ExecutorTask>)
    requires ets.Keys == {FIRST} && ets[FIRST].task == T
    ensures EtTasks(ets) == {T}
  {
  }

  lemma CommitKeepsEts(s: Store)
    requires !s.run.stop
    ensures Committed(Config(true), s, s).ets == s.ets
  {
  }

  // ---------------------------------------------------------------- what the status does not tell

  /** For a task whose stored status is "skipped" or "cancelled", the status does not tell whether the
      task was submitted before: both happen, for both. */
  lemma StatusDoesNotTell(status: TaskStatus)
      returns (two: bool, b: seq<Store>, ms: seq<Move>, t: TaskID, c: seq<Store>, ns: seq<Move>)
    requires status.Skipped? || status.Cancelled?
    ensures LastSubmits(false, b, ms, T, status) && T in b[|ms| - 1].submitted
    ensures LastSubmits(two, c, ns, t, status) && t !in c[|ns| - 1].submitted
  {
    hide SplitRun;
    if status.Skipped? {
      b, ms := SkippedAndSubmitted();
      two, t := false, T;
      c, ns := SubmittedAfterTheEnd();
    } else {
      b, ms := SubmittedTwice(ExecutorTaskPhase.Cancelled);
      two, t := true, U;
      c, ns := CancelledAndNotSubmitted();
    }
  }
}
