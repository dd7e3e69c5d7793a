/** The split model: the transactions of all schedulers, fetchers and handlers interleave freely,
    and a decision may rest on any state read before. */
module SplitModel {
  import opened RunTypes
  import opened RunConfigs
  import opened Scheduler
  import opened SchedulerLaws
  import opened RunStore
  import opened RunSafety

  /** An action, and the position of the state that it was decided from. */
  datatype Move = Move(action: Action, seen: nat)

  ghost predicate Takes(rc: RunConfig, b: seq<Store>, i: nat, m: Move)
    requires i + 1 < |b|
  {
    && m.seen <= i && Enabled(rc, b[m.seen], b[i], m.action)
    && b[i + 1] == Next(rc, b[m.seen], b[i], m.action)
  }

  /** `b` lists the states of a run of the system, `ms` the moves between them. */
  ghost predicate SplitRun(rc: RunConfig, b: seq<Store>, ms: seq<Move>) {
    && |b| == |ms| + 1 && Init(rc, b[0])
    && (forall i :: 0 <= i < |ms| ==> Takes(rc, b, i, ms[i]))
    && forall i :: 0 <= i < |ms| && ms[i].action.Submit? ==> FromCommit(ms, i)
  }

  /** scheduleRun submits what was ready in the run that it has just committed. */
  ghost predicate FromCommit(ms: seq<Move>, i: nat)
    requires i < |ms|
  {
    0 < ms[i].seen <= i && ms[ms[i].seen - 1].action.Commit?
  }

  /** A task that ever got an executor task still has it or is finished. */
  ghost predicate SubmittedSettled(s: Store) {
    forall t :: t in s.submitted ==> t in EtTasks(s.ets) || (t in s.run.tasks && s.run.tasks[t].status.IsFinished())
  }

  lemma SubmittedSettledNext(rc: RunConfig, seen: Store, s: Store, a: Action)
    requires Ready(rc, seen, s) && Enabled(rc, seen, s, a) && TasksConsistent(rc, s) && SubmittedSettled(s)
    ensures SubmittedSettled(Next(rc, seen, s, a))
  {
    hide EtTasks, RunMoves, TaskMoves, EtsMove, ScheduledRun, StopsApply, StoppedEts, Runnable;
    var s' := Next(rc, seen, s, a);
    EtTasksChange(rc, seen, s, a);
    NextMoves(rc, seen, s, a);
    forall t | t in s'.submitted ensures t in EtTasks(s'.ets) || (t in s'.run.tasks && s'.run.tasks[t].status.IsFinished()) {
      if t in s.submitted {
        if t in s.run.tasks { MovesAt(s.run, s'.run, t); }
        if a.DeleteTask? && s.ets[a.et].task == t { MovesAt(seen.run, s.run, t); }
      }
    }
  }

  /** Every state keeps the invariant, and every earlier state relates to it. */
  lemma {:induction false} Reached(rc: RunConfig, b: seq<Store>, ms: seq<Move>, n: nat)
    requires SplitRun(rc, b, ms) && n < |b|
    ensures Inv(rc, b[n]) && SubmittedSettled(b[n])
    ensures forall i :: 0 <= i <= n ==> Fits(rc, b[i].run) && SeenBefore(b[i], b[n])
  {
    hide Inv, Init, SubmittedSettled, Enabled, Next, SeenBefore, Fits;
    if n == 0 {
      FirstState(rc, b[0]);
    } else {
      Reached(rc, b, ms, n - 1);
      var m := ms[n - 1];
      assert Takes(rc, b, n - 1, m);
      var seen, s := b[m.seen], b[n - 1];
      StepKeeps(rc, seen, s, m.action);
      forall i | 0 <= i <= n ensures Fits(rc, b[i].run) && SeenBefore(b[i], b[n]) {
        if i < n {
          StepSeen(rc, b[i], seen, s, m.action);
        }
      }
    }
  }

  lemma FirstState(rc: RunConfig, s: Store)
    requires Init(rc, s)
    ensures Inv(rc, s) && SubmittedSettled(s) && Fits(rc, s.run) && SeenBefore(s, s)
  {
    InitHolds(rc, s);
    SeenSelf(s);
  }

  lemma StepKeeps(rc: RunConfig, seen: Store, s: Store, a: Action)
    requires Inv(rc, s) && SubmittedSettled(s) && Fits(rc, seen.run) && SeenBefore(seen, s) && Enabled(rc, seen, s, a)
    ensures var s' := Next(rc, seen, s, a);
            Inv(rc, s') && SubmittedSettled(s') && Fits(rc, s'.run) && SeenBefore(s', s')
  {
    hide SubmittedSettled, DependencySafe, OneEtPerTask, EventsFollow, Enabled, Next, SeenBefore, ResultExplained;
    assert Ready(rc, seen, s) by { hide *; ReadyFrom(rc, seen, s); }
    InvNext(rc, seen, s, a);
    SubmittedSettledNext(rc, seen, s, a);
    SeenSelf(Next(rc, seen, s, a));
  }

  lemma ReadyFrom(rc: RunConfig, seen: Store, s: Store)
    requires Inv(rc, s) && Fits(rc, seen.run) && SeenBefore(seen, s)
    ensures Ready(rc, seen, s) && s.ets.Keys <= s.issued
  {
  }

  lemma StepSeen(rc: RunConfig, before: Store, seen: Store, s: Store, a: Action)
    requires Inv(rc, s) && Fits(rc, seen.run) && SeenBefore(seen, s) && SeenBefore(before, s) && Enabled(rc, seen, s, a)
    ensures SeenBefore(before, Next(rc, seen, s, a))
  {
    hide *;
    ReadyFrom(rc, seen, s);
    SeenStaysSeen(rc, before, seen, s, a);
  }

  // ---------------------------------------------------------------- main results

  /** Dependency safety and "at most one stored executor task per run task", under every interleaving. */
  lemma SafeUnderEveryInterleaving(rc: RunConfig, b: seq<Store>, ms: seq<Move>, n: nat)
    requires SplitRun(rc, b, ms) && n < |b|
    ensures DependencySafe(rc, b[n]) && OneEtPerTask(b[n])
  {
    hide SplitRun, DependencySafe, OneEtPerTask;
    Reached(rc, b, ms, n);
  }

  /** A task that was ever submitted is not one that "when" excludes, and it was approved if its
      config asks for that. */
  ghost predicate SubmittedWasAllowed(rc: RunConfig, s: Store, t: TaskID) {
    t in rc && t in s.run.tasks && !s.run.tasks[t].skip && (rc[t].needsApproval ==> s.run.tasks[t].approved)
  }

  lemma {:induction false} ApprovalIsRespected(rc: RunConfig, b: seq<Store>, ms: seq<Move>, n: nat)
    requires SplitRun(rc, b, ms) && n < |b|
    ensures forall t :: t in b[n].submitted ==> SubmittedWasAllowed(rc, b[n], t)
  {
    hide SplitRun, Inv, Next, Enabled, SeenBefore, SubmittedWasAllowed;
    StartOf(rc, b, ms);
    if n > 0 {
      var m := ms[n - 1];
      TakesAt(rc, b, ms, n - 1);
      Reached(rc, b, ms, n);
      ApprovalIsRespected(rc, b, ms, n - 1);
      SubmittedGrows(rc, b[m.seen], b[n - 1], m.action);
      forall t | t in b[n].submitted ensures SubmittedWasAllowed(rc, b[n], t) {
        if t in b[n - 1].submitted {
          AllowedStays(rc, b[n - 1], b[n], t);
        } else {
          SubmitIsAllowed(rc, b[m.seen], b[n - 1], m.action);
          AllowedStays(rc, b[m.seen], b[n], t);
        }
      }
    }
  }

  lemma AllowedStays(rc: RunConfig, a: Store, b: Store, t: TaskID)
    requires SeenBefore(a, b) && SubmittedWasAllowed(rc, a, t)
    ensures SubmittedWasAllowed(rc, b, t)
  {
    MovesAt(a.run, b.run, t);
  }

  lemma SubmitIsAllowed(rc: RunConfig, seen: Store, s: Store, a: Action)
    requires Enabled(rc, seen, s, a) && a.Submit?
    ensures SubmittedWasAllowed(rc, seen, a.task)
  {
  }

  /** The result is written once and stays explained; finished tasks keep their status. */
  lemma ResultsAreFinal(rc: RunConfig, b: seq<Store>, ms: seq<Move>, i: nat, j: nat)
    requires SplitRun(rc, b, ms) && i <= j < |b|
    ensures b[i].run.result != RunResult.Unknown ==> b[j].run.result == b[i].run.result
    ensures b[i].run.tasks.Keys == rc.Keys && b[j].run.tasks.Keys == rc.Keys
    ensures b[j].run.result == RunResult.Success ==>
              && (forall t :: t in rc ==> b[j].run.tasks[t].status !in {TaskStatus.NotStarted, TaskStatus.Running})
              && forall t :: t in rc && b[j].run.tasks[t].status == TaskStatus.Failed ==> rc[t].ignoreFailure
    ensures b[j].run.result == RunResult.Failed ==>
              exists t :: t in rc && b[j].run.tasks[t].status == TaskStatus.Failed && !rc[t].ignoreFailure
    ensures b[j].run.result == RunResult.Stopped ==> b[j].run.stop
    ensures b[j].run.phase == RunPhase.Finished ==>
              && b[j].run.result != RunResult.Unknown
              && forall t :: t in rc ==> b[j].run.tasks[t].status !in {TaskStatus.NotStarted, TaskStatus.Running}
    ensures forall t :: t in rc && b[i].run.tasks[t].status !in {TaskStatus.NotStarted, TaskStatus.Running} ==>
              b[j].run.tasks[t].status == b[i].run.tasks[t].status
  {
    hide SplitRun, AllFinished, HasFatalTask;
    Reached(rc, b, ms, j);
    OverMeans(b[j].run);
    FatalMeans(rc, b[j].run);
    assert SeenBefore(b[i], b[j]);
    forall t | t in rc && b[i].run.tasks[t].status !in {TaskStatus.NotStarted, TaskStatus.Running}
      ensures b[j].run.tasks[t].status == b[i].run.tasks[t].status
    {
      MovesAt(b[i].run, b[j].run, t);
    }
  }

  /** A commit that goes through was computed from the run stored just before it, whatever was read
      when, and adds a run event exactly when it changes the stored phase or result. */
  lemma RevisionChain(rc: RunConfig, b: seq<Store>, ms: seq<Move>, i: nat)
    requires SplitRun(rc, b, ms) && i < |ms|
    ensures b[i + 1].run != b[i].run ==> b[i + 1].rev == b[i].rev + 1
    ensures b[i + 1].rev == b[i].rev || b[i + 1].rev == b[i].rev + 1
    ensures ms[i].action.Commit? ==> b[ms[i].seen].run == b[i].run && b[i + 1].rev == b[i].rev + 1
    ensures b[i + 1].events == b[i].events + if Event(b[i + 1].run) == Event(b[i].run) then [] else [Event(b[i + 1].run)]
  {
    hide SplitRun, Enabled, Next, Inv;
    TakesAt(rc, b, ms, i);
    Reached(rc, b, ms, i);
    var seen, a := b[ms[i].seen], ms[i].action;
    ReadyFrom(rc, seen, b[i]);
    NextMoves(rc, seen, b[i], a);
    InvEvents(rc, b[i]);
    EventsNext(rc, seen, b[i], a);
    if a.Commit? {
      RevisionTells(rc, seen, b[i]);
      CommitSaves(rc, seen, b[i]);
    }
    assert b[i].events + [] == b[i].events;
  }

  lemma TakesAt(rc: RunConfig, b: seq<Store>, ms: seq<Move>, i: nat)
    requires SplitRun(rc, b, ms) && i < |ms|
    ensures i + 1 < |b| && Takes(rc, b, i, ms[i])
  {
  }

  lemma InvEvents(rc: RunConfig, s: Store)
    requires Inv(rc, s)
    ensures EventsFollow(s)
  {
  }

  lemma CommitSaves(rc: RunConfig, seen: Store, s: Store)
    requires Enabled(rc, seen, s, Commit)
    ensures Next(rc, seen, s, Commit).rev == s.rev + 1
  {
  }

  /** Phase and result of every state, without immediate repetitions. */
  ghost function Changes(b: seq<Store>): seq<RunEvent>
    requires |b| > 0
  {
    var last := Event(b[|b| - 1].run);
    if |b| == 1 then [last]
    else Changes(b[..|b| - 1]) + if last == Event(b[|b| - 2].run) then [] else [last]
  }

  /** The event log is the exact history of the stored phase and result. */
  lemma {:induction false} EventLogIsHistory(rc: RunConfig, b: seq<Store>, ms: seq<Move>, n: nat)
    requires SplitRun(rc, b, ms) && n < |b|
    ensures b[n].events == Changes(b[..n + 1])
  {
    hide Init, Takes;
    if n == 0 {
      assert b[0].events == [Event(b[0].run)] by { FirstEvent(rc, b[0]); }
    } else {
      EventLogIsHistory(rc, b, ms, n - 1);
      RevisionChain(rc, b, ms, n - 1);
      assert b[..n + 1][..n] == b[..n];
    }
  }

  lemma FirstEvent(rc: RunConfig, s: Store)
    requires Init(rc, s)
    ensures s.events == [Event(s.run)]
  {
  }

  // ---------------------------------------------------------------- submitting twice

  /** A task is submitted again only when it has finished in the meantime: no submission of a task
      whose stored status is "not started" is a repetition. */
  lemma ResubmittedOnlyWhenFinished(rc: RunConfig, b: seq<Store>, ms: seq<Move>, i: nat)
    requires SplitRun(rc, b, ms) && i < |ms| && ms[i].action.Submit?
    ensures var t := ms[i].action.task;
            t in b[i].submitted ==> t in b[i].run.tasks && b[i].run.tasks[t].status.IsFinished()
  {
    hide SplitRun, Inv, SeenBefore;
    TakesAt(rc, b, ms, i);
    Reached(rc, b, ms, i);
  }

  /** Who has an executor task was submitted; and a task that had not started when the run was
      created and ran since was submitted too. */
  ghost predicate RanWasSubmitted(first: Store, s: Store) {
    && (forall t :: t in EtTasks(s.ets) ==> t in s.submitted)
    && forall t :: t in first.run.tasks && t in s.run.tasks && first.run.tasks[t].status.NotStarted? && Ran(s.run.tasks[t].status)
         ==> t in s.submitted
  }

  lemma RanStep(rc: RunConfig, first: Store, seen: Store, s: Store, a: Action)
    requires Ready(rc, seen, s) && Enabled(rc, seen, s, a) && s.ets.Keys <= s.issued && RanWasSubmitted(first, s)
    requires forall t :: t in first.run.tasks <==> t in s.run.tasks
    ensures RanWasSubmitted(first, Next(rc, seen, s, a))
  {
    hide Ready, Enabled, Next, EtTasks;
    var s' := Next(rc, seen, s, a);
    ReadySeen(rc, seen, s);
    EtTasksChange(rc, seen, s, a);
    SubmittedGrows(rc, seen, s, a);
    forall t | t in first.run.tasks && t in s'.run.tasks && first.run.tasks[t].status.NotStarted? && Ran(s'.run.tasks[t].status)
      ensures t in s'.submitted
    {
      StatusChanges(rc, seen, s, a, t);
      if a.Report? { ReportHasEt(rc, seen, s, a); }
    }
  }

  lemma ReadySeen(rc: RunConfig, seen: Store, s: Store)
    requires Ready(rc, seen, s)
    ensures SeenBefore(seen, s)
  {
  }

  lemma ReportHasEt(rc: RunConfig, seen: Store, s: Store, a: Action)
    requires Enabled(rc, seen, s, a) && a.Report?
    ensures a.et in s.ets && s.ets[a.et].task in EtTasks(s.ets)
  {
  }

  lemma {:induction false} RanReached(rc: RunConfig, b: seq<Store>, ms: seq<Move>, n: nat)
    requires SplitRun(rc, b, ms) && n < |b|
    ensures RanWasSubmitted(b[0], b[n])
  {
    hide SplitRun, Inv, Ready, SeenBefore, Enabled, Next, RanWasSubmitted, Fits;
    StartOf(rc, b, ms);
    if n == 0 {
      FirstRan(rc, b, ms);
    } else {
      TakesAt(rc, b, ms, n - 1);
      RanReached(rc, b, ms, n - 1);
      Reached(rc, b, ms, n - 1);
      var seen, s := b[ms[n - 1].seen], b[n - 1];
      ReadyFrom(rc, seen, s);
      SameTasksAs(b[0], s);
      RanStep(rc, b[0], seen, s, ms[n - 1].action);
    }
  }

  lemma FirstRan(rc: RunConfig, b: seq<Store>, ms: seq<Move>)
    requires SplitRun(rc, b, ms)
    ensures RanWasSubmitted(b[0], b[0])
  {
    hide Takes;
  }

  lemma SameTasksAs(a: Store, b: Store)
    requires SeenBefore(a, b)
    ensures forall t :: t in a.run.tasks <==> t in b.run.tasks
  {
  }

  /** The task of a submission had not started when the run was created. */
  lemma SubmittedFromStart(rc: RunConfig, b: seq<Store>, ms: seq<Move>, i: nat)
    requires SplitRun(rc, b, ms) && i < |ms| && ms[i].action.Submit?
    ensures var t := ms[i].action.task;
            t in b[0].run.tasks && b[0].run.tasks[t].status.NotStarted? && t in b[i].run.tasks
  {
    hide SplitRun, Inv, SeenBefore, Fits, Next;
    TakesAt(rc, b, ms, i);
    var m := ms[i];
    SubmitIsAllowed(rc, b[m.seen], b[i], m.action);
    SubmitNotStarted(rc, b[m.seen], b[i], m.action);
    Reached(rc, b, ms, m.seen);
    Reached(rc, b, ms, i);
    StatusBack(b[0], b[m.seen], m.action.task);
    SameTasksAs(b[m.seen], b[i]);
  }

  lemma SubmitNotStarted(rc: RunConfig, seen: Store, s: Store, a: Action)
    requires Enabled(rc, seen, s, a) && a.Submit?
    ensures a.task in seen.run.tasks && seen.run.tasks[a.task].status.NotStarted?
  {
  }

  lemma StatusBack(a: Store, b: Store, t: TaskID)
    requires SeenBefore(a, b) && t in b.run.tasks && b.run.tasks[t].status.NotStarted?
    ensures t in a.run.tasks && a.run.tasks[t].status.NotStarted?
  {
    MovesAt(a.run, b.run, t);
  }

  /** Which submissions repeat an earlier one, told by the stored status of the task: "not started"
      never does, and one that says that the task ran always does. */
  lemma RepetitionByStatus(rc: RunConfig, b: seq<Store>, ms: seq<Move>, i: nat)
    requires SplitRun(rc, b, ms) && i < |ms| && ms[i].action.Submit?
    ensures var t := ms[i].action.task;
            && t in b[i].run.tasks
            && (Ran(b[i].run.tasks[t].status) ==> t in b[i].submitted)
            && (!b[i].run.tasks[t].status.Skipped? && !b[i].run.tasks[t].status.Cancelled? ==>
                  (t in b[i].submitted <==> !b[i].run.tasks[t].status.NotStarted?))
  {
    hide SplitRun;
    StartOf(rc, b, ms);
    SubmittedFromStart(rc, b, ms, i);
    RanReached(rc, b, ms, i);
    ResubmittedOnlyWhenFinished(rc, b, ms, i);
  }

  /** The stored status of the task still says "not started" when the task is submitted. */
  ghost predicate Rechecked(s: Store, m: Move) {
    m.action.Submit? ==> m.action.task in s.run.tasks && s.run.tasks[m.action.task].status.NotStarted?
  }

  /** Rechecking the stored status before each submission is enough: then no task is ever submitted
      twice, even in the split model. It is not necessary: see SplitWitnesses.SubmittedAfterTheEnd. */
  lemma {:induction false} OnceIfRechecked(rc: RunConfig, b: seq<Store>, ms: seq<Move>, n: nat)
    requires SplitRun(rc, b, ms) && n < |b|
    requires forall i :: 0 <= i < n ==> Rechecked(b[i], ms[i])
    ensures NoDuplicates(b[n].submitted)
  {
    hide SplitRun, Enabled, Inv, Next;
    StartOf(rc, b, ms);
    if n == 0 {
      assert b[0].submitted == [];
    } else {
      TakesAt(rc, b, ms, n - 1);
      OnceIfRechecked(rc, b, ms, n - 1);
      assert Rechecked(b[n - 1], ms[n - 1]);
      if ms[n - 1].action.Submit? { ResubmittedOnlyWhenFinished(rc, b, ms, n - 1); }
      SubmittedGrows(rc, b[ms[n - 1].seen], b[n - 1], ms[n - 1].action);
    }
  }

  /** While all tasks are finished, a rechecked submission is impossible. */
  lemma NoSubmissionWhenFinished(rc: RunConfig, seen: Store, s: Store, m: Move)
    requires Enabled(rc, seen, s, m.action) && Rechecked(s, m) && AllFinished(s.run) && s.ets == map[]
    ensures Next(rc, seen, s, m.action).ets == map[]
  {
    hide ScheduledRun, Runnable, StopsApply;
  }

  /** From a state with all tasks finished and no executor task, rechecked submissions never lead to one. */
  lemma {:induction false} NoEtAfterTheEnd(rc: RunConfig, b: seq<Store>, ms: seq<Move>, p: nat, n: nat)
    requires SplitRun(rc, b, ms) && p <= n < |b| && AllFinished(b[p].run) && b[p].ets == map[]
    requires forall k :: p <= k < n ==> Rechecked(b[k], ms[k])
    ensures AllFinished(b[n].run) && b[n].ets == map[]
    decreases n
  {
    hide SplitRun, Enabled, Next, Rechecked, AllFinished;
    StartOf(rc, b, ms);
    if p < n {
      NoEtAfterTheEnd(rc, b, ms, p, n - 1);
      TakesAt(rc, b, ms, n - 1);
      NoSubmissionWhenFinished(rc, b[ms[n - 1].seen], b[n - 1], ms[n - 1]);
      StillAllFinished(rc, b, ms, p, n);
    }
  }

  lemma StillAllFinished(rc: RunConfig, b: seq<Store>, ms: seq<Move>, p: nat, n: nat)
    requires SplitRun(rc, b, ms) && p <= n < |b| && AllFinished(b[p].run)
    ensures AllFinished(b[n].run)
  {
    hide SplitRun;
    ResultsAreFinal(rc, b, ms, p, n);
    Reached(rc, b, ms, n);
    SameTasksAs(b[p], b[n]);
  }

  lemma FinishedSchedule(rc: RunConfig, seen: Store)
    requires !seen.run.phase.Finished? && !seen.run.phase.SetupError? && ScheduledRun(rc, seen).phase.Finished?
    ensures AllFinished(seen.run) && seen.ets == map[]
  {
    hide TaskMoves, AllFinished, CloseRun, HasFatalTask, EtTasks, AdvancedTask, RunMoves;
    var r, h := seen.run, seen.ets != map[];
    CloseRunMoves(r, h);
    CloseRunMoves(r.(result := RunResult.Failed), h);
    CloseRunMoves(r.(result := RunResult.Stopped), h);
    AllFinishedHere(r, RunResult.Failed);
    AllFinishedHere(r, RunResult.Stopped);
  }

  lemma OnlyCommitFinishes(rc: RunConfig, seen: Store, s: Store, a: Action)
    requires Enabled(rc, seen, s, a) && !s.run.phase.Finished? && Next(rc, seen, s, a).run.phase.Finished?
    ensures a.Commit? && seen.rev == s.rev && ScheduledRun(rc, seen).phase.Finished?
  {
    hide ScheduledRun, Runnable, StopsApply, StoppedEts, EtTasks;
  }

  /** The run becomes finished by a commit only, decided from a state with all tasks finished and
      without executor task. */
  lemma FinishedByCommit(rc: RunConfig, seen: Store, s: Store, a: Action)
    requires Enabled(rc, seen, s, a) && SeenBefore(seen, s) && !s.run.phase.Finished? && !s.run.phase.SetupError?
    requires Next(rc, seen, s, a).run.phase.Finished?
    ensures AllFinished(seen.run) && seen.ets == map[]
  {
    hide Enabled, Next, ScheduledRun, RunMoves, AllFinished, EtsMove;
    OnlyCommitFinishes(rc, seen, s, a);
    FinishedSchedule(rc, seen);
  }

  lemma AllFinishedHere(r: Run, res: RunResult)
    ensures AllFinished(r.(result := res)) <==> AllFinished(r)
  {
  }

  /** With every submission rechecked, a finished run has no executor task, and never gets one. */
  lemma {:induction false} FinishedIsFinalIfRechecked(rc: RunConfig, b: seq<Store>, ms: seq<Move>, n: nat)
    requires SplitRun(rc, b, ms) && n < |b| && b[n].run.phase.Finished?
    requires forall k :: 0 <= k < n ==> Rechecked(b[k], ms[k])
    ensures b[n].ets == map[]
  {
    hide SplitRun, Enabled, Next, Rechecked, AllFinished, SeenBefore, Inv;
    StartOf(rc, b, ms);
    FirstPhase(rc, b, ms);
    TakesAt(rc, b, ms, n - 1);
    Reached(rc, b, ms, n - 1);
    var p := ms[n - 1].seen;
    if b[n - 1].run.phase.Finished? {
      FinishedIsFinalIfRechecked(rc, b, ms, n - 1);
      FinishedHasAllFinished(rc, b[n - 1]);
      NoEtAfterTheEnd(rc, b, ms, n - 1, n);
    } else {
      NeverSetupError(rc, b[n - 1]);
      FinishedByCommit(rc, b[p], b[n - 1], ms[n - 1].action);
      NoEtAfterTheEnd(rc, b, ms, p, n);
    }
  }

  lemma FirstPhase(rc: RunConfig, b: seq<Store>, ms: seq<Move>)
    requires SplitRun(rc, b, ms)
    ensures b[0].run.phase.Queued?
  {
    hide Takes;
  }

  lemma FinishedHasAllFinished(rc: RunConfig, s: Store)
    requires Inv(rc, s) && s.run.phase.Finished?
    ensures AllFinished(s.run)
  {
  }

  lemma NeverSetupError(rc: RunConfig, s: Store)
    requires Inv(rc, s)
    ensures !s.run.phase.SetupError?
  {
  }

  // ---------------------------------------------------------------- submitting after stop

  /** What a commit of a stopped run leaves ready had an executor task when the commit was decided. */
  lemma CommitOfStopped(rc: RunConfig, seen: Store, s: Store, t: TaskID)
    requires Fits(rc, seen.run) && Enabled(rc, seen, s, Commit)
    requires var s' := Next(rc, seen, s, Commit); s'.run.stop && s'.run.phase.Running? && Runnable(rc, s'.run, t)
    ensures t in EtTasks(seen.ets)
  {
    hide AdvancedRun, AdvancedTask, EtTasks, StopsApply, StoppedEts, DependenciesMet;
    var r := AdvancedRun(rc, seen.run, seen.ets != map[]);
    StopFlagKept(rc, seen.run, seen.ets != map[]);
    AdvancedKeeps(rc, seen.run, seen.ets != map[]);
    DecidedSkipped(rc, r, EtTasks(seen.ets), t);
  }

  lemma {:induction false} SubmittedStays(rc: RunConfig, b: seq<Store>, ms: seq<Move>, i: nat, j: nat, t: TaskID)
    requires SplitRun(rc, b, ms) && i <= j < |b| && t in b[i].submitted
    ensures t in b[j].submitted
    decreases j - i
  {
    hide SplitRun, Enabled, Next;
    StartOf(rc, b, ms);
    if i < j {
      SubmittedStays(rc, b, ms, i, j - 1, t);
      TakesAt(rc, b, ms, j - 1);
      SubmittedGrows(rc, b[ms[j - 1].seen], b[j - 1], ms[j - 1].action);
    }
  }

  lemma FromCommitAt(rc: RunConfig, b: seq<Store>, ms: seq<Move>, i: nat)
    requires SplitRun(rc, b, ms) && i < |ms| && ms[i].action.Submit?
    ensures 0 < ms[i].seen <= i && ms[ms[i].seen - 1].action.Commit?
  {
    assert FromCommit(ms, i);
  }

  lemma SubmitReady(rc: RunConfig, seen: Store, s: Store, a: Action)
    requires Enabled(rc, seen, s, a) && a.Submit?
    ensures seen.run.phase.Running? && Runnable(rc, seen.run, a.task)
  {
  }

  /** A submission that rests on the commit of a stopped run is a repetition. */
  lemma StoppedCommitRepeats(rc: RunConfig, b: seq<Store>, ms: seq<Move>, i: nat)
    requires SplitRun(rc, b, ms) && i < |ms| && ms[i].action.Submit?
    ensures b[ms[i].seen].run.stop ==> ms[i].action.task in b[i].submitted
  {
    hide SplitRun, Enabled, Next, Inv, SeenBefore, Runnable, EtTasks, Fits;
    var p, t := ms[i].seen, ms[i].action.task;
    StartOf(rc, b, ms);
    FromCommitAt(rc, b, ms, i);
    TakesAt(rc, b, ms, i);
    TakesAt(rc, b, ms, p - 1);
    SubmitReady(rc, b[p], b[i], ms[i].action);
    var q := ms[p - 1].seen;
    if b[p].run.stop {
      Reached(rc, b, ms, q);
      CommitOfStopped(rc, b[q], b[p - 1], t);
      RanReached(rc, b, ms, q);
      SubmittedStays(rc, b, ms, q, i, t);
    }
  }

  /** A rechecked submission does not rest on the commit of a stopped run. So the run is stopped when it
      takes place exactly if stop was set between that commit and the insert. */
  lemma RecheckedFromUnstopped(rc: RunConfig, b: seq<Store>, ms: seq<Move>, i: nat)
    requires SplitRun(rc, b, ms) && i < |ms| && ms[i].action.Submit? && Rechecked(b[i], ms[i])
    ensures !b[ms[i].seen].run.stop
    ensures b[i].run.stop <==> StopSetBetween(b, ms, ms[i].seen, i)
  {
    hide SplitRun, Inv, Enabled, Next;
    StartOf(rc, b, ms);
    TakesAt(rc, b, ms, i);
    StoppedCommitRepeats(rc, b, ms, i);
    ResubmittedOnlyWhenFinished(rc, b, ms, i);
    StopNeedsSetting(rc, b, ms, ms[i].seen, i);
  }

  ghost predicate StopSetBetween(b: seq<Store>, ms: seq<Move>, p: nat, i: nat) {
    exists k :: p <= k < i && k < |ms| && ms[k].action.Stop?
  }

  lemma {:induction false} StopNeedsSetting(rc: RunConfig, b: seq<Store>, ms: seq<Move>, p: nat, i: nat)
    requires SplitRun(rc, b, ms) && p <= i < |b| && !b[p].run.stop
    ensures b[i].run.stop <==> StopSetBetween(b, ms, p, i)
    decreases i
  {
    hide SplitRun, Enabled, Next, Inv, SeenBefore, Fits;
    StartOf(rc, b, ms);
    if p < i {
      StopNeedsSetting(rc, b, ms, p, i - 1);
      TakesAt(rc, b, ms, i - 1);
      Reached(rc, b, ms, i - 1);
      StopStep(rc, b[ms[i - 1].seen], b[i - 1], ms[i - 1].action);
    }
  }

  lemma StopStep(rc: RunConfig, seen: Store, s: Store, a: Action)
    requires Enabled(rc, seen, s, a) && SeenBefore(seen, s)
    ensures Next(rc, seen, s, a).run.stop == (s.run.stop || a.Stop?)
  {
    hide ScheduledRun, Runnable, StopsApply, StoppedEts, RunMoves;
    ScheduleKeepsStop(rc, seen);
  }

  lemma ScheduleKeepsStop(rc: RunConfig, seen: Store)
    ensures ScheduledRun(rc, seen).stop == seen.run.stop
  {
    hide AdvancedRun, EtTasks;
    StopFlagKept(rc, seen.run, seen.ets != map[]);
  }

  /** One guard repairs everything: if the run still has the revision of the commit that a submission rests
      on, the run is not stopped, the recheck holds, and the submission is no repetition. */
  lemma SameRevisionIsSafe(rc: RunConfig, b: seq<Store>, ms: seq<Move>, i: nat)
    requires SplitRun(rc, b, ms) && i < |ms| && ms[i].action.Submit? && b[ms[i].seen].rev == b[i].rev
    ensures !b[i].run.stop && Rechecked(b[i], ms[i]) && ms[i].action.task !in b[i].submitted
  {
    hide SplitRun, Inv, Enabled, Next, StopSetBetween;
    TakesAt(rc, b, ms, i);
    Reached(rc, b, ms, i);
    assert SeenBefore(b[ms[i].seen], b[i]);
    SubmitNotStarted(rc, b[ms[i].seen], b[i], ms[i].action);
    RecheckedFromUnstopped(rc, b, ms, i);
    ResubmittedOnlyWhenFinished(rc, b, ms, i);
  }

  ghost predicate Unchanged(b: seq<Store>, ms: seq<Move>, k: nat)
    requires k < |ms| && k < |b|
  {
    ms[k].action.Submit? ==> ms[k].seen < |b| && b[ms[k].seen].rev == b[k].rev
  }

  /** With that guard on every submission, stop is final: nothing is submitted any more. And no task is
      ever submitted twice. */
  lemma {:induction false} StopIsFinalIfUnchanged(rc: RunConfig, b: seq<Store>, ms: seq<Move>, i: nat, j: nat)
    requires SplitRun(rc, b, ms) && i <= j < |b| && |b| == |ms| + 1
    requires forall k :: 0 <= k < j ==> Unchanged(b, ms, k)
    ensures b[i].run.stop ==> b[j].run.stop && b[j].submitted == b[i].submitted
    ensures NoDuplicates(b[j].submitted)
    decreases j
  {
    hide SplitRun, Enabled, Next, Inv, Rechecked;
    if i < j {
      StopIsFinalIfUnchanged(rc, b, ms, i, j - 1);
      TakesAt(rc, b, ms, j - 1);
      Reached(rc, b, ms, j - 1);
      assert Unchanged(b, ms, j - 1);
      SubmittedGrows(rc, b[ms[j - 1].seen], b[j - 1], ms[j - 1].action);
      StopStep(rc, b[ms[j - 1].seen], b[j - 1], ms[j - 1].action);
      if ms[j - 1].action.Submit? { SameRevisionIsSafe(rc, b, ms, j - 1); }
    } else if j > 0 {
      StopIsFinalIfUnchanged(rc, b, ms, j - 1, j - 1);
      TakesAt(rc, b, ms, j - 1);
      assert Unchanged(b, ms, j - 1);
      SubmittedGrows(rc, b[ms[j - 1].seen], b[j - 1], ms[j - 1].action);
      if ms[j - 1].action.Submit? { SameRevisionIsSafe(rc, b, ms, j - 1); }
    } else {
      StartOf(rc, b, ms);
    }
  }

  lemma StartOf(rc: RunConfig, b: seq<Store>, ms: seq<Move>)
    requires SplitRun(rc, b, ms)
    ensures |b| == |ms| + 1 && b[0].submitted == []
  {
  }

  lemma SubmittedGrows(rc: RunConfig, seen: Store, s: Store, a: Action)
    requires Enabled(rc, seen, s, a)
    ensures Next(rc, seen, s, a).submitted == if a.Submit? then s.submitted + [a.task] else s.submitted
  {
  }

  // ---------------------------------------------------------------- extending a run

  lemma OneMoreMove(rc: RunConfig, b: seq<Store>, ms: seq<Move>, m: Move, s': Store)
    requires SplitRun(rc, b, ms) && m.seen < |b|
    requires Enabled(rc, b[m.seen], b[|b| - 1], m.action) && s' == Next(rc, b[m.seen], b[|b| - 1], m.action)
    requires m.action.Submit? ==> m.seen > 0 && ms[m.seen - 1].action.Commit?
    ensures SplitRun(rc, b + [s'], ms + [m])
  {
    hide Init, Enabled, Next;
    var b', ms' := b + [s'], ms + [m];
    forall i | 0 <= i < |ms'| ensures Takes(rc, b', i, ms'[i]) {
      if i < |ms| {
        assert Takes(rc, b, i, ms[i]);
        SameTakes(rc, b, s', i, ms[i]);
      }
    }
    forall i | 0 <= i < |ms'| && ms'[i].action.Submit? ensures FromCommit(ms', i) {
      if i < |ms| { assert FromCommit(ms, i); }
    }
  }

  lemma SameTakes(rc: RunConfig, b: seq<Store>, s': Store, i: nat, m: Move)
    requires i + 1 < |b| && Takes(rc, b, i, m)
    ensures Takes(rc, b + [s'], i, m)
  {
    hide Enabled, Next;
  }
}
