/** What every run of the split model keeps, in plain terms: statuses, conditions, fetch phases, flags. */
module RunLaws {
  import opened RunTypes
  import opened Scheduler
  import opened SchedulerLaws
  import opened RunStore
  import opened RunSafety
  import opened SplitModel

  /** What is known of the `i`-th step of a run. */
  lemma StepOf(rc: RunConfig, b: seq<Store>, ms: seq<Move>, i: nat)
    requires SplitRun(rc, b, ms) && i < |ms|
    ensures |b| == |ms| + 1 && ms[i].seen <= i
    ensures Enabled(rc, b[ms[i].seen], b[i], ms[i].action) && b[i + 1] == Next(rc, b[ms[i].seen], b[i], ms[i].action)
    ensures Inv(rc, b[i]) && Ready(rc, b[ms[i].seen], b[i]) && Ready(rc, b[i], b[i]) && b[i].ets.Keys <= b[i].issued
    ensures b[i + 1].run.tasks.Keys == b[i].run.tasks.Keys == rc.Keys
  {
    hide Inv, Enabled, Next, SeenBefore;
    TakesAt(rc, b, ms, i);
    Reached(rc, b, ms, i);
    Reached(rc, b, ms, i + 1);
    ReadyFrom(rc, b[ms[i].seen], b[i]);
    ReadyFrom(rc, b[i], b[i]);
    FitsInv(rc, b[i]);
    FitsInv(rc, b[i + 1]);
  }

  lemma FitsInv(rc: RunConfig, s: Store)
    requires Inv(rc, s)
    ensures s.run.tasks.Keys == rc.Keys
  {
  }

  lemma StartOfRun(rc: RunConfig, b: seq<Store>, ms: seq<Move>)
    requires SplitRun(rc, b, ms)
    ensures |b| == |ms| + 1 && Init(rc, b[0]) && b[0].run.tasks.Keys == rc.Keys
  {
    hide Takes;
  }

  // ---------------------------------------------------------------- dependencies

  /** Whatever runs, ran, or was ever submitted. */
  lemma NeededParents(rc: RunConfig, b: seq<Store>, ms: seq<Move>, n: nat, t: TaskID)
    requires SplitRun(rc, b, ms) && n < |b| && t in rc
    requires || t in b[n].submitted || (exists e :: e in b[n].ets && b[n].ets[e].task == t)
             || (t in b[n].run.tasks
                 && b[n].run.tasks[t].status in {TaskStatus.Running, TaskStatus.Success, TaskStatus.Failed, TaskStatus.Stopped})
    ensures Fits(rc, b[n].run) && DependenciesMet(rc, b[n].run, t)
  {
    hide SplitRun, Inv, DependenciesMet, SeenBefore;
    Reached(rc, b, ms, n);
    FitsInv(rc, b[n]);
    if t in b[n].submitted {
      SubmittedIsMet(rc, b, ms, n, t);
    } else {
      SafeUnderEveryInterleaving(rc, b, ms, n);
      if e :| e in b[n].ets && b[n].ets[e].task == t { assert t in EtTasks(b[n].ets); }
    }
  }

  lemma {:induction false} SubmittedIsMet(rc: RunConfig, b: seq<Store>, ms: seq<Move>, n: nat, t: TaskID)
    requires SplitRun(rc, b, ms) && n < |b| && t in b[n].submitted
    ensures t in rc && DependenciesMet(rc, b[n].run, t)
  {
    hide SplitRun, Inv, DependenciesMet, Enabled, Next, RunMoves;
    StartOf(rc, b, ms);
    if n > 0 {
      var m := ms[n - 1];
      TakesAt(rc, b, ms, n - 1);
      Reached(rc, b, ms, n);
      SubmittedGrows(rc, b[m.seen], b[n - 1], m.action);
      if t in b[n - 1].submitted {
        SubmittedIsMet(rc, b, ms, n - 1, t);
        DependenciesStayMet(rc, b[n - 1].run, b[n].run, t);
      } else {
        SubmitIsMet(rc, b[m.seen], b[n - 1], m.action);
        DependenciesStayMet(rc, b[m.seen].run, b[n].run, t);
      }
    }
  }

  lemma SubmitIsMet(rc: RunConfig, seen: Store, s: Store, a: Action)
    requires Enabled(rc, seen, s, a) && a.Submit?
    ensures a.task in rc && DependenciesMet(rc, seen.run, a.task)
  {
  }

  /** In every state of every interleaving: when a task has an executor task, ran, or was ever submitted,
      each of its parents is over and has no archive that is not fetched. */
  lemma ParentsAreFetched(rc: RunConfig, b: seq<Store>, ms: seq<Move>, n: nat, t: TaskID, p: TaskID)
    requires SplitRun(rc, b, ms) && n < |b| && t in rc && p in rc && p in rc[t].depends
    requires || t in b[n].submitted || (exists e :: e in b[n].ets && b[n].ets[e].task == t)
             || (t in b[n].run.tasks
                 && b[n].run.tasks[t].status in {TaskStatus.Running, TaskStatus.Success, TaskStatus.Failed, TaskStatus.Stopped})
    ensures p in b[n].run.tasks
    ensures var rp := b[n].run.tasks[p];
            && rp.status in {TaskStatus.Success, TaskStatus.Failed, TaskStatus.Skipped}
            && forall i :: 0 <= i < |rp.archivesPhase| ==> rp.archivesPhase[i] == FetchFinished
  {
    hide SplitRun, ParentsDone, DependsMatch;
    NeededParents(rc, b, ms, n, t);
    ParentsDoneMeans(rc, b[n].run, t);
    DependsMatchMeans(rc, b[n].run, t);
  }

  /** And then each of its edges lists a condition that the parent meets; an edge that lists a single condition
      tells how the parent ended. */
  lemma ParentsMeetTheirConditions(rc: RunConfig, b: seq<Store>, ms: seq<Move>, n: nat, t: TaskID, p: TaskID)
    requires SplitRun(rc, b, ms) && n < |b| && t in rc && p in rc && p in rc[t].depends
    requires || t in b[n].submitted || (exists e :: e in b[n].ets && b[n].ets[e].task == t)
             || (t in b[n].run.tasks
                 && b[n].run.tasks[t].status in {TaskStatus.Running, TaskStatus.Success, TaskStatus.Failed, TaskStatus.Stopped})
    ensures p in b[n].run.tasks
    ensures var conds, st := rc[t].depends[p], b[n].run.tasks[p].status;
            && (|| (DependCondition.OnSuccess in conds && st == TaskStatus.Success)
                || (DependCondition.OnFailure in conds && st == TaskStatus.Failed)
                || (DependCondition.OnSkipped in conds && st == TaskStatus.Skipped))
            && ((forall k :: 0 <= k < |conds| ==> conds[k] == DependCondition.OnSuccess) ==> st == TaskStatus.Success)
            && ((forall k :: 0 <= k < |conds| ==> conds[k] == DependCondition.OnFailure) ==> st == TaskStatus.Failed)
            && ((forall k :: 0 <= k < |conds| ==> conds[k] == DependCondition.OnSkipped) ==> st == TaskStatus.Skipped)
  {
    hide SplitRun, ParentsDone, DependsMatch;
    NeededParents(rc, b, ms, n, t);
    DependsMatchMeans(rc, b[n].run, t);
  }

  // ---------------------------------------------------------------- what a commit writes

  /** The run that a commit writes: with the result of advanceRun, and while it is running with its tasks advanced. */
  lemma CommitWrites(rc: RunConfig, seen: Store)
    requires Fits(rc, seen.run) && !seen.run.phase.SetupError?
    ensures var r := ScheduledRun(rc, seen);
            && r.phase == AdvancedRun(rc, seen.run, seen.ets != map[]).phase && r.stop == seen.run.stop
            && r.result == AdvancedRun(rc, seen.run, seen.ets != map[]).result && r.archived == seen.run.archived
            && r.tasks.Keys == seen.run.tasks.Keys
            && forall t :: t in rc ==>
                 if r.phase == RunPhase.Running
                 then r.tasks[t] == AdvancedTask(rc, seen.run.(result := r.result), EtTasks(seen.ets), t)
                 else r.tasks[t] == AdvancedRun(rc, seen.run, seen.ets != map[]).tasks[t]
  {
    hide AdvancedRun, AdvancedTask, EtTasks;
    var r := AdvancedRun(rc, seen.run, seen.ets != map[]);
    AdvancedKeeps(rc, seen.run, seen.ets != map[]);
    if r.phase.Running? {
      forall t | t in rc ensures r.tasks[t] == seen.run.tasks[t] { ClosedOrNot(rc, seen.run, seen.ets != map[], t); }
      assert r.tasks == seen.run.tasks;
      assert r == seen.run.(result := r.result);
    }
  }

  // ---------------------------------------------------------------- why a status changes

  /** A report changes the status of its own task, to the phase that the executor task is in. */
  lemma ReportReason(rc: RunConfig, seen: Store, s: Store, e: ExecutorTaskID, t: TaskID)
    requires Enabled(rc, seen, s, Report(e)) && t in s.run.tasks && t in Next(rc, seen, s, Report(e)).run.tasks
    requires Next(rc, seen, s, Report(e)).run.tasks[t].status != s.run.tasks[t].status
    ensures e in s.ets && s.ets[e].task == t
    ensures var a, c, p := s.run.tasks[t].status, Next(rc, seen, s, Report(e)).run.tasks[t].status, s.ets[e].phase;
            || (a == TaskStatus.NotStarted && c == TaskStatus.Running && p == ExecutorTaskPhase.Running)
            || (a == TaskStatus.NotStarted && c == TaskStatus.Cancelled && p == ExecutorTaskPhase.Cancelled)
            || (a in {TaskStatus.NotStarted, TaskStatus.Running}
                && (|| (c == TaskStatus.Stopped && p == ExecutorTaskPhase.Stopped)
                    || (c == TaskStatus.Success && p == ExecutorTaskPhase.Success)
                    || (c == TaskStatus.Failed && p == ExecutorTaskPhase.Failed)))
  {
    if e in s.ets && s.ets[e].task == t { ReportedMeans(s.run.tasks[t].status, s.ets[e].phase); }
  }

  /** A commit changes only tasks that have not started. It cancels roots of a run that has its result, and
      skips what stop or unmet conditions rule out. */
  lemma CommitReason(rc: RunConfig, seen: Store, s: Store, t: TaskID)
    requires Ready(rc, seen, s) && Enabled(rc, seen, s, Commit) && t in rc
    requires Next(rc, seen, s, Commit).run.tasks.Keys == rc.Keys
    requires Next(rc, seen, s, Commit).run.tasks[t].status != s.run.tasks[t].status
    ensures s.run.tasks[t].status == TaskStatus.NotStarted
    ensures var c := Next(rc, seen, s, Commit).run.tasks[t].status;
            || (&& c == TaskStatus.Cancelled && !s.run.stop && Next(rc, seen, s, Commit).run.result != RunResult.Unknown
                && (forall p :: p in rc[t].depends ==> p !in rc) && forall e :: e in seen.ets ==> seen.ets[e].task != t)
            || (c == TaskStatus.Skipped && s.run.stop && forall e :: e in seen.ets ==> seen.ets[e].task != t)
            || (&& c == TaskStatus.Skipped
                && (forall p :: p in rc[t].depends && p in rc ==>
                      && s.run.tasks[p].status in
                           {TaskStatus.Success, TaskStatus.Failed, TaskStatus.Stopped, TaskStatus.Skipped, TaskStatus.Cancelled}
                      && forall i :: 0 <= i < |s.run.tasks[p].archivesPhase| ==> s.run.tasks[p].archivesPhase[i] == FetchFinished)
                && exists p :: p in rc[t].depends && p in rc
                     && (s.run.tasks[p].status == TaskStatus.Success ==> DependCondition.OnSuccess !in rc[t].depends[p])
                     && (s.run.tasks[p].status == TaskStatus.Failed ==> DependCondition.OnFailure !in rc[t].depends[p])
                     && (s.run.tasks[p].status == TaskStatus.Skipped ==> DependCondition.OnSkipped !in rc[t].depends[p]))
  {
    hide AdvancedRun, AdvancedTask, SeenBefore, StopsApply, StoppedEts, ScheduledRun, EtTasks;
    RevisionTells(rc, seen, s);
    CommitRun(rc, seen, s);
    CommitWrites(rc, seen);
    var r := seen.run.(result := ScheduledRun(rc, seen).result);
    if ScheduledRun(rc, seen).phase.Running? {
      OnlyUnstartedAdvance(rc, r, EtTasks(seen.ets), t);
      CancelledMeans(rc, r, EtTasks(seen.ets), t);
      SkippedMeans(rc, r, EtTasks(seen.ets), t);
      EtTasksMean(seen.ets, t);
    } else {
      TasksMean(rc, seen.run, seen.ets != map[], t);
    }
  }

  lemma EtTasksMean(ets: map<ExecutorTaskID, ExecutorTask>, t: TaskID)
    ensures t in EtTasks(ets) <==> exists e :: e in ets && ets[e].task == t
  {
  }

  /** Every change of a task status in every run of the split model has one of these reasons. */
  lemma StatusChangesHaveReasons(rc: RunConfig, b: seq<Store>, ms: seq<Move>, i: nat, t: TaskID)
    requires SplitRun(rc, b, ms) && i < |ms| && t in rc
    ensures |b| == |ms| + 1 && ms[i].seen <= i && b[i].run.tasks.Keys == b[i + 1].run.tasks.Keys == rc.Keys
    ensures var a, c := b[i].run.tasks[t].status, b[i + 1].run.tasks[t].status;
            a != c ==>
              || (&& ms[i].action.Report? && ms[i].action.et in b[i].ets && b[i].ets[ms[i].action.et].task == t
                  && var p := b[i].ets[ms[i].action.et].phase;
                     || (a == TaskStatus.NotStarted && c == TaskStatus.Running && p == ExecutorTaskPhase.Running)
                     || (a == TaskStatus.NotStarted && c == TaskStatus.Cancelled && p == ExecutorTaskPhase.Cancelled)
                     || (a in {TaskStatus.NotStarted, TaskStatus.Running}
                         && (|| (c == TaskStatus.Stopped && p == ExecutorTaskPhase.Stopped)
                             || (c == TaskStatus.Success && p == ExecutorTaskPhase.Success)
                             || (c == TaskStatus.Failed && p == ExecutorTaskPhase.Failed))))
              || (&& ms[i].action.Commit? && a == TaskStatus.NotStarted && c == TaskStatus.Cancelled
                  && !b[i].run.stop && b[i + 1].run.result != RunResult.Unknown
                  && (forall p :: p in rc[t].depends ==> p !in rc) && forall e :: e in b[ms[i].seen].ets ==> b[ms[i].seen].ets[e].task != t)
              || (&& ms[i].action.Commit? && a == TaskStatus.NotStarted && c == TaskStatus.Skipped
                  && b[i].run.stop && forall e :: e in b[ms[i].seen].ets ==> b[ms[i].seen].ets[e].task != t)
              || (&& ms[i].action.Commit? && a == TaskStatus.NotStarted && c == TaskStatus.Skipped
                  && (forall p :: p in rc[t].depends && p in rc ==>
                        && b[i].run.tasks[p].status in
                             {TaskStatus.Success, TaskStatus.Failed, TaskStatus.Stopped, TaskStatus.Skipped, TaskStatus.Cancelled}
                        && forall k :: 0 <= k < |b[i].run.tasks[p].archivesPhase| ==> b[i].run.tasks[p].archivesPhase[k] == FetchFinished)
                  && exists p :: p in rc[t].depends && p in rc
                       && (b[i].run.tasks[p].status == TaskStatus.Success ==> DependCondition.OnSuccess !in rc[t].depends[p])
                       && (b[i].run.tasks[p].status == TaskStatus.Failed ==> DependCondition.OnFailure !in rc[t].depends[p])
                       && (b[i].run.tasks[p].status == TaskStatus.Skipped ==> DependCondition.OnSkipped !in rc[t].depends[p]))
  {
    hide SplitRun, Inv, Enabled, Next, Ready;
    StepOf(rc, b, ms, i);
    var seen, s, a := b[ms[i].seen], b[i], ms[i].action;
    if b[i].run.tasks[t].status != b[i + 1].run.tasks[t].status {
      OnlyReportOrCommit(rc, seen, s, a, t);
      if a.Report? { ReportReason(rc, seen, s, a.et, t); } else { CommitReason(rc, seen, s, t); }
    }
  }

  lemma OnlyReportOrCommit(rc: RunConfig, seen: Store, s: Store, a: Action, t: TaskID)
    requires Enabled(rc, seen, s, a) && t in s.run.tasks && t in Next(rc, seen, s, a).run.tasks
    requires Next(rc, seen, s, a).run.tasks[t].status != s.run.tasks[t].status
    ensures a.Report? || a.Commit?
  {
    hide ScheduledRun, StopsApply, StoppedEts, Runnable;
  }

  // ---------------------------------------------------------------- why the phase changes

  /** A run starts or is cancelled while it is queued, and ends by a commit that found all its tasks over and no
      executor task left; a success is stored first and ends the run with a later commit. */
  lemma PhaseChangesHaveReasons(rc: RunConfig, b: seq<Store>, ms: seq<Move>, i: nat)
    requires SplitRun(rc, b, ms) && i < |ms|
    ensures |b| == |ms| + 1 && ms[i].seen <= i && b[i].run.tasks.Keys == rc.Keys
    ensures var a, c := b[i].run.phase, b[i + 1].run.phase;
            a != c ==>
              || (ms[i].action.Start? && a == RunPhase.Queued && c == RunPhase.Running)
              || (ms[i].action.CancelQueued? && a == RunPhase.Queued && c == RunPhase.Cancelled)
              || (&& ms[i].action.Commit? && a == RunPhase.Running && c == RunPhase.Finished
                  && (forall t :: t in rc ==> b[i].run.tasks[t].status !in {TaskStatus.NotStarted, TaskStatus.Running})
                  && b[ms[i].seen].ets == map[] && b[i + 1].run.result != RunResult.Unknown
                  && (b[i + 1].run.result == RunResult.Success ==> b[i].run.result == RunResult.Success))
  {
    hide SplitRun, Enabled, Next, Ready, TasksConsistent, DependencySafe, OneEtPerTask, EventsFollow;
    StepOf(rc, b, ms, i);
    var seen, s, a := b[ms[i].seen], b[i], ms[i].action;
    if b[i].run.phase != b[i + 1].run.phase {
      OnlyThesePhases(rc, seen, s, a);
      if a.Commit? { CommitEnds(rc, seen, s); }
    }
  }

  lemma OnlyThesePhases(rc: RunConfig, seen: Store, s: Store, a: Action)
    requires Enabled(rc, seen, s, a) && Next(rc, seen, s, a).run.phase != s.run.phase
    ensures a.Commit? || (s.run.phase.Queued? && Next(rc, seen, s, a).run.phase == if a.Start? then RunPhase.Running else RunPhase.Cancelled)
    ensures a.Commit? || a.Start? || a.CancelQueued?
  {
    hide ScheduledRun, StopsApply, StoppedEts, Runnable;
  }

  lemma CommitEnds(rc: RunConfig, seen: Store, s: Store)
    requires Ready(rc, seen, s) && Enabled(rc, seen, s, Commit) && ResultExplained(rc, s.run)
    requires Next(rc, seen, s, Commit).run.phase != s.run.phase
    ensures var s' := Next(rc, seen, s, Commit);
            && s.run.phase == RunPhase.Running && s'.run.phase == RunPhase.Finished && seen.ets == map[]
            && (forall t :: t in s.run.tasks ==> s.run.tasks[t].status !in {TaskStatus.NotStarted, TaskStatus.Running})
            && s'.run.result != RunResult.Unknown && (s'.run.result == RunResult.Success ==> s.run.result == RunResult.Success)
  {
    hide AdvancedRun, AdvancedTask, SeenBefore, StopsApply, StoppedEts, ScheduledRun, EtTasks, AllFinished, HasFatalTask;
    RevisionTells(rc, seen, s);
    CommitRun(rc, seen, s);
    CommitWrites(rc, seen);
    AdvancedKeeps(rc, seen.run, seen.ets != map[]);
    if seen.run.phase in {RunPhase.Queued, RunPhase.Running} {
      PhaseMeans(rc, seen.run, seen.ets != map[]);
    } else {
      AdvancedRunMoves(rc, seen.run, seen.ets != map[]);
    }
  }

  // ---------------------------------------------------------------- approval

  /** What a commit does to the request for approval of one task. */
  lemma CommitWaiting(rc: RunConfig, seen: Store, s: Store, t: TaskID)
    requires Ready(rc, seen, s) && Enabled(rc, seen, s, Commit) && t in rc
    requires Next(rc, seen, s, Commit).run.tasks.Keys == rc.Keys
    ensures var a, c := s.run.tasks[t], Next(rc, seen, s, Commit).run.tasks[t];
            && Next(rc, seen, s, Commit).run.stop == s.run.stop && c.approved == a.approved
            && (c.status == TaskStatus.NotStarted ==> a.status == TaskStatus.NotStarted)
            && (a.waitingApproval ==> c.waitingApproval)
            && (c.waitingApproval && !a.waitingApproval ==>
                && rc[t].needsApproval && !a.approved && c.status == TaskStatus.NotStarted
                && (s.run.stop ==> exists e :: e in seen.ets && seen.ets[e].task == t) && DependenciesMet(rc, s.run, t))
  {
    hide AdvancedRun, AdvancedTask, SeenBefore, StopsApply, StoppedEts, ScheduledRun, EtTasks;
    RevisionTells(rc, seen, s);
    CommitRun(rc, seen, s);
    CommitWrites(rc, seen);
    var r := seen.run.(result := ScheduledRun(rc, seen).result);
    if ScheduledRun(rc, seen).phase.Running? {
      OnlyUnstartedAdvance(rc, r, EtTasks(seen.ets), t);
      if r.tasks[t].waitingApproval {
        WaitingStays(rc, r, EtTasks(seen.ets), t);
      } else {
        WaitingMeans(rc, r, EtTasks(seen.ets), t);
        SameDependencies(rc, seen.run, r, t);
      }
      if r.tasks[t].status.NotStarted? { SkippedMeans(rc, r, EtTasks(seen.ets), t); }
      EtTasksMean(seen.ets, t);
    } else {
      TasksMean(rc, seen.run, seen.ets != map[], t);
    }
  }

  lemma SameDependencies(rc: RunConfig, a: Run, r: Run, t: TaskID)
    requires Fits(rc, a) && r.tasks == a.tasks && t in rc
    ensures DependenciesMet(rc, a, t) <==>
            forall p :: p in rc[t].depends && p in rc ==>
              && (forall i :: 0 <= i < |r.tasks[p].archivesPhase| ==> r.tasks[p].archivesPhase[i] == FetchFinished)
              && (|| (DependCondition.OnSuccess in rc[t].depends[p] && r.tasks[p].status == TaskStatus.Success)
                  || (DependCondition.OnFailure in rc[t].depends[p] && r.tasks[p].status == TaskStatus.Failed)
                  || (DependCondition.OnSkipped in rc[t].depends[p] && r.tasks[p].status == TaskStatus.Skipped))
  {
    hide ParentsDone, DependsMatch;
    ParentsDoneMeans(rc, a, t);
    DependsMatchMeans(rc, a, t);
  }

  lemma WaitingStays(rc: RunConfig, r: Run, scheduled: set<TaskID>, t: TaskID)
    requires t in rc && t in r.tasks && r.tasks[t].waitingApproval
    ensures AdvancedTask(rc, r, scheduled, t).waitingApproval
  {
  }

  /** Who has an executor task was allowed to run. */
  lemma HasEtAllowed(rc: RunConfig, b: seq<Store>, ms: seq<Move>, n: nat, e: ExecutorTaskID)
    requires SplitRun(rc, b, ms) && n < |b| && e in b[n].ets
    ensures var t := b[n].ets[e].task;
            t in rc && t in b[n].run.tasks && (rc[t].needsApproval ==> b[n].run.tasks[t].approved)
  {
    hide SplitRun;
    RanReached(rc, b, ms, n);
    assert b[n].ets[e].task in EtTasks(b[n].ets);
    ApprovalIsRespected(rc, b, ms, n);
    assert SubmittedWasAllowed(rc, b[n], b[n].ets[e].task);
  }

  lemma {:induction false} WaitingReached(rc: RunConfig, b: seq<Store>, ms: seq<Move>, n: nat, t: TaskID)
    requires SplitRun(rc, b, ms) && n < |b| && t in rc
    ensures b[n].run.tasks.Keys == rc.Keys
    ensures b[n].run.tasks[t].waitingApproval && b[n].run.tasks[t].status == TaskStatus.NotStarted ==>
              rc[t].needsApproval && !b[n].run.tasks[t].approved && !b[n].run.stop && DependenciesMet(rc, b[n].run, t)
    decreases n
  {
    hide SplitRun, Inv, Enabled, Next, Ready, DependenciesMet;
    StartOfRun(rc, b, ms);
    if n == 0 {
      FirstNotWaiting(rc, b[0], t);
    } else {
      var i := n - 1;
      StepOf(rc, b, ms, i);
      WaitingReached(rc, b, ms, i, t);
      var seen, s, a := b[ms[i].seen], b[i], ms[i].action;
      MetStaysMet(rc, seen, s, a, t);
      if a.Commit? {
        CommitWaiting(rc, seen, s, t);
        NoCommitSets(rc, b, ms, i, t);
      } else {
        OthersWaiting(rc, seen, s, a, t);
      }
    }
  }

  lemma MetStaysMet(rc: RunConfig, seen: Store, s: Store, a: Action, t: TaskID)
    requires Ready(rc, seen, s) && Enabled(rc, seen, s, a) && t in rc
    ensures DependenciesMet(rc, s.run, t) ==> DependenciesMet(rc, Next(rc, seen, s, a).run, t)
  {
    hide Ready, Enabled, Next, DependenciesMet, RunMoves;
    NextMoves(rc, seen, s, a);
    if DependenciesMet(rc, s.run, t) { DependenciesStayMet(rc, s.run, Next(rc, seen, s, a).run, t); }
  }

  /** A task that has not started waits for approval only when its config asks for one, it has none, the run is not
      to stop and its dependencies are met. */
  lemma WaitingIsJustified(rc: RunConfig, b: seq<Store>, ms: seq<Move>, n: nat, t: TaskID)
    requires SplitRun(rc, b, ms) && n < |b| && t in rc
    ensures b[n].run.tasks.Keys == rc.Keys
    ensures b[n].run.tasks[t].waitingApproval && b[n].run.tasks[t].status == TaskStatus.NotStarted ==>
              && rc[t].needsApproval && !b[n].run.tasks[t].approved && !b[n].run.stop
              && forall p :: p in rc[t].depends && p in rc ==>
                   && (forall i :: 0 <= i < |b[n].run.tasks[p].archivesPhase| ==> b[n].run.tasks[p].archivesPhase[i] == FetchFinished)
                   && (|| (DependCondition.OnSuccess in rc[t].depends[p] && b[n].run.tasks[p].status == TaskStatus.Success)
                       || (DependCondition.OnFailure in rc[t].depends[p] && b[n].run.tasks[p].status == TaskStatus.Failed)
                       || (DependCondition.OnSkipped in rc[t].depends[p] && b[n].run.tasks[p].status == TaskStatus.Skipped))
  {
    hide SplitRun, DependenciesMet;
    WaitingReached(rc, b, ms, n, t);
    SameDependencies(rc, b[n].run, b[n].run, t);
  }

  lemma FirstNotWaiting(rc: RunConfig, s: Store, t: TaskID)
    requires Init(rc, s) && t in rc
    ensures t in s.run.tasks && (s.run.tasks[t].status == TaskStatus.NotStarted ==> !s.run.tasks[t].waitingApproval)
  {
  }

  lemma OthersWaiting(rc: RunConfig, seen: Store, s: Store, a: Action, t: TaskID)
    requires Enabled(rc, seen, s, a) && !a.Commit? && t in s.run.tasks && t in Next(rc, seen, s, a).run.tasks
    ensures var x, y := s.run.tasks[t], Next(rc, seen, s, a).run.tasks[t];
            && (y.waitingApproval ==> x.waitingApproval && y.approved == x.approved && Next(rc, seen, s, a).run.stop == s.run.stop)
            && (y.status == TaskStatus.NotStarted ==> x.status == TaskStatus.NotStarted)
  {
    hide ScheduledRun, StopsApply, StoppedEts, Runnable;
    if a.Report? && s.ets[a.et].task == t { ReportedMeans(s.run.tasks[t].status, s.ets[a.et].phase); }
  }

  /** A stopped run asks for no approvals: the tasks that stop leaves alone have their approval. */
  lemma NoCommitSets(rc: RunConfig, b: seq<Store>, ms: seq<Move>, i: nat, t: TaskID)
    requires SplitRun(rc, b, ms) && i < |ms| && |b| == |ms| + 1 && ms[i].seen <= i && t in rc
    requires Ready(rc, b[ms[i].seen], b[i]) && Enabled(rc, b[ms[i].seen], b[i], ms[i].action) && ms[i].action.Commit?
    ensures t in b[i].run.tasks
    ensures (exists e :: e in b[ms[i].seen].ets && b[ms[i].seen].ets[e].task == t) && rc[t].needsApproval ==> b[i].run.tasks[t].approved
  {
    hide SplitRun, Enabled;
    RevisionTells(rc, b[ms[i].seen], b[i]);
    if e :| e in b[ms[i].seen].ets && b[ms[i].seen].ets[e].task == t { HasEtAllowed(rc, b, ms, ms[i].seen, e); }
  }

  /** An approval is given, once, to a task that waits for it, and is never taken back. */
  lemma ApprovalsHaveReasons(rc: RunConfig, b: seq<Store>, ms: seq<Move>, i: nat, t: TaskID)
    requires SplitRun(rc, b, ms) && i < |ms| && t in rc
    ensures |b| == |ms| + 1 && b[i].run.tasks.Keys == b[i + 1].run.tasks.Keys == rc.Keys
    ensures var x, y := b[i].run.tasks[t], b[i + 1].run.tasks[t];
            && (x.approved ==> y.approved)
            && (y.approved && !x.approved ==> ms[i].action == Approve(t) && x.waitingApproval && !y.waitingApproval)
  {
    hide SplitRun, Inv, Ready, Enabled, Next;
    StepOf(rc, b, ms, i);
    var seen, s, a := b[ms[i].seen], b[i], ms[i].action;
    if a.Commit? { CommitWaiting(rc, seen, s, t); } else { OthersApprove(rc, seen, s, a, t); }
  }

  lemma OthersApprove(rc: RunConfig, seen: Store, s: Store, a: Action, t: TaskID)
    requires Enabled(rc, seen, s, a) && !a.Commit? && t in s.run.tasks && t in Next(rc, seen, s, a).run.tasks
    ensures var x, y := s.run.tasks[t], Next(rc, seen, s, a).run.tasks[t];
            && (x.approved ==> y.approved)
            && (y.approved && !x.approved ==> a == Approve(t) && x.waitingApproval && !y.waitingApproval)
  {
    hide ScheduledRun, StopsApply, StoppedEts, Runnable;
  }

  // ---------------------------------------------------------------- logs, archives and the archived flag

  /** Something of the task was fetched. */
  predicate Touched(rt: RunTask) {
    || rt.setupLog == FetchFinished
    || (exists i :: 0 <= i < |rt.stepLogs| && rt.stepLogs[i] == FetchFinished)
    || (exists i :: 0 <= i < |rt.archivesPhase| && rt.archivesPhase[i] == FetchFinished)
  }

  lemma CommitTouches(rc: RunConfig, seen: Store, s: Store, t: TaskID)
    requires Ready(rc, seen, s) && Enabled(rc, seen, s, Commit) && t in rc && Inv(rc, s)
    requires Next(rc, seen, s, Commit).run.tasks.Keys == rc.Keys
    ensures var a, c := s.run.tasks[t], Next(rc, seen, s, Commit).run.tasks[t];
            && a.setupLog == c.setupLog && a.stepLogs == c.stepLogs && a.archivesPhase == c.archivesPhase
            && Next(rc, seen, s, Commit).run.archived == s.run.archived
  {
    hide AdvancedRun, AdvancedTask, SeenBefore, StopsApply, StoppedEts, ScheduledRun, EtTasks, HasFatalTask;
    RevisionTells(rc, seen, s);
    CommitRun(rc, seen, s);
    CommitWrites(rc, seen);
    var h := seen.ets != map[];
    if ScheduledRun(rc, seen).phase.Running? {
      OnlyUnstartedAdvance(rc, seen.run.(result := ScheduledRun(rc, seen).result), EtTasks(seen.ets), t);
    } else {
      TasksMean(rc, seen.run, h, t);
      AdvancedRunMoves(rc, seen.run, h);
      AdvancedKeeps(rc, seen.run, h);
      if seen.run.phase in {RunPhase.Queued, RunPhase.Running} { PhaseMeans(rc, seen.run, h); }
    }
  }

  lemma OthersTouch(rc: RunConfig, seen: Store, s: Store, a: Action, t: TaskID)
    requires Ready(rc, seen, s) && Enabled(rc, seen, s, a) && !a.Commit? && t in s.run.tasks && t in Next(rc, seen, s, a).run.tasks
    ensures var x, y := s.run.tasks[t], Next(rc, seen, s, a).run.tasks[t];
            || x.status !in {TaskStatus.NotStarted, TaskStatus.Running}
            || (x.setupLog == y.setupLog && x.stepLogs == y.stepLogs && x.archivesPhase == y.archivesPhase)
  {
    hide Ready, Enabled, Next;
    if a.FetchSetupLog? || a.FetchStepLog? || a.FetchArchive? {
      FetchingOver(rc, seen, s, a);
      if t in seen.run.tasks { MovedSince(rc, seen, s, t); }
    }
    OthersFetchNothing(rc, seen, s, a, t);
  }

  lemma FetchingOver(rc: RunConfig, seen: Store, s: Store, a: Action)
    requires Enabled(rc, seen, s, a) && (a.FetchSetupLog? || a.FetchStepLog? || a.FetchArchive?)
    ensures a.task in seen.run.tasks && seen.run.tasks[a.task].status !in {TaskStatus.NotStarted, TaskStatus.Running}
  {
  }

  lemma OthersFetchNothing(rc: RunConfig, seen: Store, s: Store, a: Action, t: TaskID)
    requires Enabled(rc, seen, s, a) && !a.Commit? && t in s.run.tasks && t in Next(rc, seen, s, a).run.tasks
    ensures var x, y := s.run.tasks[t], Next(rc, seen, s, a).run.tasks[t];
            || ((a.FetchSetupLog? || a.FetchStepLog? || a.FetchArchive?) && a.task == t)
            || (x.setupLog == y.setupLog && x.stepLogs == y.stepLogs && x.archivesPhase == y.archivesPhase)
  {
    hide ScheduledRun, StopsApply, StoppedEts, Runnable;
  }

  /** What was over when it was read is over still, and what was fetched is fetched. */
  lemma MovedSince(rc: RunConfig, seen: Store, s: Store, t: TaskID)
    requires Ready(rc, seen, s) && t in seen.run.tasks
    ensures t in s.run.tasks && TaskMoves(seen.run.tasks[t], s.run.tasks[t])
    ensures seen.run.tasks[t].status !in {TaskStatus.NotStarted, TaskStatus.Running} ==> s.run.tasks[t].status == seen.run.tasks[t].status
  {
    hide EtsMove;
    assert TaskMoves(seen.run.tasks[t], s.run.tasks[t]);
  }

  lemma {:induction false} TouchedIsOver(rc: RunConfig, b: seq<Store>, ms: seq<Move>, n: nat, t: TaskID)
    requires SplitRun(rc, b, ms) && n < |b| && t in rc
    ensures b[n].run.tasks.Keys == rc.Keys
    ensures Touched(b[n].run.tasks[t]) ==> b[n].run.tasks[t].status !in {TaskStatus.NotStarted, TaskStatus.Running}
    decreases n
  {
    hide *;
    StartOfRun(rc, b, ms);
    if n == 0 {
      FirstUntouched(rc, b[0], t);
    } else {
      StepOf(rc, b, ms, n - 1);
      TouchedIsOver(rc, b, ms, n - 1, t);
      var seen, s, a := b[ms[n - 1].seen], b[n - 1], ms[n - 1].action;
      OverStays(rc, seen, s, a, t);
      if a.Commit? { CommitTouches(rc, seen, s, t); } else { OthersTouch(rc, seen, s, a, t); }
      SameTouched(s.run.tasks[t], b[n].run.tasks[t]);
    }
  }

  /** The loop of advanceRun that marks what never ran as fetched has nothing to do: no commit changes
      what is fetched of any task, or the archived flag. */
  lemma CommitFetchesNothing(rc: RunConfig, b: seq<Store>, ms: seq<Move>, i: nat, t: TaskID)
    requires SplitRun(rc, b, ms) && i < |ms| && ms[i].action.Commit? && t in rc
    ensures |b| == |ms| + 1 && b[i].run.tasks.Keys == b[i + 1].run.tasks.Keys == rc.Keys
    ensures var x, y := b[i].run.tasks[t], b[i + 1].run.tasks[t];
            && x.setupLog == y.setupLog && x.stepLogs == y.stepLogs && x.archivesPhase == y.archivesPhase
            && b[i].run.archived == b[i + 1].run.archived
  {
    hide *;
    StepOf(rc, b, ms, i);
    CommitTouches(rc, b[ms[i].seen], b[i], t);
  }

  lemma FirstUntouched(rc: RunConfig, s: Store, t: TaskID)
    requires Init(rc, s) && t in rc
    ensures t in s.run.tasks
    ensures Touched(s.run.tasks[t]) ==> s.run.tasks[t].status !in {TaskStatus.NotStarted, TaskStatus.Running}
  {
    hide GenRunTask;
    NewTaskMeans(rc[t]);
  }

  lemma SameTouched(x: RunTask, y: RunTask)
    ensures x.setupLog == y.setupLog && x.stepLogs == y.stepLogs && x.archivesPhase == y.archivesPhase ==> (Touched(x) <==> Touched(y))
  {
  }

  /** What is over stays as it ended, and what was fetched stays fetched. */
  lemma OverStays(rc: RunConfig, seen: Store, s: Store, a: Action, t: TaskID)
    requires Ready(rc, seen, s) && Enabled(rc, seen, s, a) && t in s.run.tasks
    ensures t in Next(rc, seen, s, a).run.tasks
    ensures var x, y := s.run.tasks[t], Next(rc, seen, s, a).run.tasks[t];
            && (x.status !in {TaskStatus.NotStarted, TaskStatus.Running} ==> y.status == x.status)
            && TaskMoves(x, y)
  {
    hide Ready, Enabled, Next;
    NextMoves(rc, seen, s, a);
  }

  /** Only of tasks that are over is a log or an archive ever marked as fetched. */
  lemma FetchedIsOver(rc: RunConfig, b: seq<Store>, ms: seq<Move>, n: nat, t: TaskID)
    requires SplitRun(rc, b, ms) && n < |b| && t in rc
    ensures b[n].run.tasks.Keys == rc.Keys
    ensures var rt := b[n].run.tasks[t];
            rt.status in {TaskStatus.NotStarted, TaskStatus.Running} ==>
              && rt.setupLog == FetchNotStarted
              && (forall i :: 0 <= i < |rt.stepLogs| ==> rt.stepLogs[i] == FetchNotStarted)
              && forall i :: 0 <= i < |rt.archivesPhase| ==> rt.archivesPhase[i] == FetchNotStarted
  {
    hide SplitRun;
    TouchedIsOver(rc, b, ms, n, t);
  }

  /** Each log and each archive is marked as fetched on its own. */
  lemma FetchesHaveReasons(rc: RunConfig, b: seq<Store>, ms: seq<Move>, i: nat, t: TaskID)
    requires SplitRun(rc, b, ms) && i < |ms| && t in rc
    ensures |b| == |ms| + 1 && b[i].run.tasks.Keys == b[i + 1].run.tasks.Keys == rc.Keys
    ensures var x, y := b[i].run.tasks[t], b[i + 1].run.tasks[t];
            && |y.stepLogs| == |x.stepLogs| && |y.archivesPhase| == |x.archivesPhase|
            && (y.setupLog != x.setupLog ==> ms[i].action == FetchSetupLog(t) && y.setupLog == FetchFinished)
            && (forall k :: 0 <= k < |x.stepLogs| && y.stepLogs[k] != x.stepLogs[k] ==>
                  ms[i].action == FetchStepLog(t, k) && y.stepLogs[k] == FetchFinished)
            && forall k :: 0 <= k < |x.archivesPhase| && y.archivesPhase[k] != x.archivesPhase[k] ==>
                 ms[i].action == FetchArchive(t, k) && y.archivesPhase[k] == FetchFinished
  {
    hide *;
    StepOf(rc, b, ms, i);
    var seen, s, a := b[ms[i].seen], b[i], ms[i].action;
    if a.Commit? { CommitTouches(rc, seen, s, t); } else { OthersFetch(rc, seen, s, a, t); }
  }

  lemma OthersFetch(rc: RunConfig, seen: Store, s: Store, a: Action, t: TaskID)
    requires Enabled(rc, seen, s, a) && !a.Commit? && t in s.run.tasks && t in Next(rc, seen, s, a).run.tasks
    ensures var x, y := s.run.tasks[t], Next(rc, seen, s, a).run.tasks[t];
            && |y.stepLogs| == |x.stepLogs| && |y.archivesPhase| == |x.archivesPhase|
            && (y.setupLog != x.setupLog ==> a == FetchSetupLog(t) && y.setupLog == FetchFinished)
            && (forall k :: 0 <= k < |x.stepLogs| && y.stepLogs[k] != x.stepLogs[k] ==>
                  a == FetchStepLog(t, k) && y.stepLogs[k] == FetchFinished)
            && forall k :: 0 <= k < |x.archivesPhase| && y.archivesPhase[k] != x.archivesPhase[k] ==>
                 a == FetchArchive(t, k) && y.archivesPhase[k] == FetchFinished
  {
    hide ScheduledRun, StopsApply, StoppedEts, Runnable;
  }

  /** An executor task comes into being by a submission, unstarted and not to stop, when none is stored for its task. Its
      task and executor never change, its phase only by the executor, its stop flag is only ever set. */
  lemma ExecutorTasksHaveReasons(rc: RunConfig, b: seq<Store>, ms: seq<Move>, i: nat, e: ExecutorTaskID)
    requires SplitRun(rc, b, ms) && i < |ms|
    ensures |b| == |ms| + 1
    ensures e in b[i + 1].ets && e !in b[i].ets ==>
              && ms[i].action == Submit(b[i + 1].ets[e].task, e, b[i + 1].ets[e].executor) && e !in b[i].issued
              && !b[i + 1].ets[e].stop && b[i + 1].ets[e].phase == ExecutorTaskPhase.NotStarted
              && forall d :: d in b[i].ets ==> b[i].ets[d].task != b[i + 1].ets[e].task
    ensures e in b[i + 1].ets && e in b[i].ets ==>
              var x, y := b[i].ets[e], b[i + 1].ets[e];
              && y.task == x.task && y.executor == x.executor && (x.stop ==> y.stop)
              && (y.phase != x.phase ==> ms[i].action == SetPhase(e, y.phase))
              && (y != x ==> y.revision == x.revision + 1)
  {
    hide SplitRun, Inv, Ready, Enabled, Next;
    StepOf(rc, b, ms, i);
    EtsHaveReasons(rc, b[ms[i].seen], b[i], ms[i].action, e);
  }

  lemma EtsHaveReasons(rc: RunConfig, seen: Store, s: Store, a: Action, e: ExecutorTaskID)
    requires Ready(rc, seen, s) && Enabled(rc, seen, s, a) && s.ets.Keys <= s.issued
    ensures var s' := Next(rc, seen, s, a);
            && (e in s'.ets && e !in s.ets ==>
                  && a == Submit(s'.ets[e].task, e, s'.ets[e].executor) && e !in s.issued
                  && !s'.ets[e].stop && s'.ets[e].phase == ExecutorTaskPhase.NotStarted
                  && forall d :: d in s.ets ==> s.ets[d].task != s'.ets[e].task)
            && (e in s'.ets && e in s.ets ==>
                  var x, y := s.ets[e], s'.ets[e];
                  && y.task == x.task && y.executor == x.executor && (x.stop ==> y.stop)
                  && (y.phase != x.phase ==> a == SetPhase(e, y.phase))
                  && (y != x ==> y.revision == x.revision + 1))
  {
    hide ScheduledRun, Runnable, RunMoves;
    if a.Commit? && e in seen.ets && e in s.ets { assert EtMoves(seen.ets[e], s.ets[e]); }
  }

  /** An executor task is deleted only when its task is over and all logs and archives of it have been fetched. */
  lemma DeletedWhenFetched(rc: RunConfig, b: seq<Store>, ms: seq<Move>, i: nat, e: ExecutorTaskID)
    requires SplitRun(rc, b, ms) && i < |ms| && i + 1 < |b| && e in b[i].ets && e !in b[i + 1].ets
    ensures b[i].ets[e].task in b[i].run.tasks
    ensures var rt := b[i].run.tasks[b[i].ets[e].task];
            && rt.status in {TaskStatus.Success, TaskStatus.Failed, TaskStatus.Stopped, TaskStatus.Skipped, TaskStatus.Cancelled}
            && rt.setupLog == FetchFinished
            && (forall k :: 0 <= k < |rt.stepLogs| ==> rt.stepLogs[k] == FetchFinished)
            && forall k :: 0 <= k < |rt.archivesPhase| ==> rt.archivesPhase[k] == FetchFinished
  {
    hide SplitRun, Inv;
    StepOf(rc, b, ms, i);
    DeletedNext(rc, b[ms[i].seen], b[i], ms[i].action, e);
  }

  lemma DeletedNext(rc: RunConfig, seen: Store, s: Store, a: Action, e: ExecutorTaskID)
    requires Ready(rc, seen, s) && Enabled(rc, seen, s, a) && e in s.ets && e !in Next(rc, seen, s, a).ets
    ensures s.ets[e].task in s.run.tasks
    ensures var rt := s.run.tasks[s.ets[e].task];
            && rt.status in {TaskStatus.Success, TaskStatus.Failed, TaskStatus.Stopped, TaskStatus.Skipped, TaskStatus.Cancelled}
            && AllFetched(rt)
  {
    hide Ready, Enabled, Next, TaskMoves, AllFetched;
    DeletesFetched(rc, seen, s, a, e);
    var t := s.ets[e].task;
    MovedSince(rc, seen, s, t);
    FetchedStays(seen.run.tasks[t], s.run.tasks[t]);
  }

  lemma DeletesFetched(rc: RunConfig, seen: Store, s: Store, a: Action, e: ExecutorTaskID)
    requires Enabled(rc, seen, s, a) && e in s.ets && e !in Next(rc, seen, s, a).ets
    ensures s.ets[e].task in seen.run.tasks
    ensures var rt := seen.run.tasks[s.ets[e].task]; rt.status !in {TaskStatus.NotStarted, TaskStatus.Running} && AllFetched(rt)
  {
    hide ScheduledRun, Runnable;
    assert a == DeleteTask(e);
  }

  ghost predicate AllFetched(rt: RunTask) {
    && rt.setupLog == FetchFinished
    && (forall i :: 0 <= i < |rt.stepLogs| ==> rt.stepLogs[i] == FetchFinished)
    && forall i :: 0 <= i < |rt.archivesPhase| ==> rt.archivesPhase[i] == FetchFinished
  }

  lemma FetchedStays(x: RunTask, y: RunTask)
    requires TaskMoves(x, y) && AllFetched(x)
    ensures AllFetched(y)
  {
  }

  lemma {:induction false} ArchivedReached(rc: RunConfig, b: seq<Store>, ms: seq<Move>, n: nat, t: TaskID)
    requires SplitRun(rc, b, ms) && n < |b| && t in rc && b[n].run.archived
    ensures b[n].run.tasks.Keys == rc.Keys && b[n].run.phase in {RunPhase.Cancelled, RunPhase.Finished}
    ensures b[n].run.tasks[t].status !in {TaskStatus.NotStarted, TaskStatus.Running} && AllFetched(b[n].run.tasks[t])
    decreases n
  {
    hide SplitRun, Enabled, Next, Inv, Ready, TaskMoves, AllFetched, Touched;
    StartOfRun(rc, b, ms);
    FirstNotArchived(rc, b[0]);
    StepOf(rc, b, ms, n - 1);
    var seen, s, a := b[ms[n - 1].seen], b[n - 1], ms[n - 1].action;
    OverStays(rc, seen, s, a, t);
    if s.run.archived {
      ArchivedReached(rc, b, ms, n - 1, t);
      PhaseStays(rc, seen, s, a);
      FetchedStays(s.run.tasks[t], b[n].run.tasks[t]);
    } else {
      if a.Commit? { CommitTouches(rc, seen, s, t); }
      NeverSetupError(rc, s);
      ArchivedNow(rc, seen, s, a, t);
      TouchedIsOver(rc, b, ms, n - 1, t);
      FetchedIsTouched(s.run.tasks[t]);
    }
  }

  lemma FetchedIsTouched(rt: RunTask)
    requires AllFetched(rt)
    ensures Touched(rt)
  {
  }

  /** An archived run is over, and so is each of its tasks, with everything fetched. */
  lemma ArchivedIsComplete(rc: RunConfig, b: seq<Store>, ms: seq<Move>, n: nat, t: TaskID)
    requires SplitRun(rc, b, ms) && n < |b| && t in rc && b[n].run.archived
    ensures b[n].run.tasks.Keys == rc.Keys && b[n].run.phase in {RunPhase.Cancelled, RunPhase.Finished}
    ensures var rt := b[n].run.tasks[t];
            && rt.status in {TaskStatus.Success, TaskStatus.Failed, TaskStatus.Stopped, TaskStatus.Skipped, TaskStatus.Cancelled}
            && rt.setupLog == FetchFinished
            && (forall i :: 0 <= i < |rt.stepLogs| ==> rt.stepLogs[i] == FetchFinished)
            && forall i :: 0 <= i < |rt.archivesPhase| ==> rt.archivesPhase[i] == FetchFinished
  {
    hide SplitRun;
    ArchivedReached(rc, b, ms, n, t);
    assert b[n].run.tasks[t].status.IsFinished();
  }

  lemma FirstNotArchived(rc: RunConfig, s: Store)
    requires Init(rc, s)
    ensures !s.run.archived
  {
  }

  lemma PhaseStays(rc: RunConfig, seen: Store, s: Store, a: Action)
    requires Ready(rc, seen, s) && Enabled(rc, seen, s, a) && s.run.phase in {RunPhase.Cancelled, RunPhase.Finished}
    ensures Next(rc, seen, s, a).run.phase == s.run.phase
  {
    hide Ready, Enabled, Next;
    NextMoves(rc, seen, s, a);
  }

  lemma ArchivedNow(rc: RunConfig, seen: Store, s: Store, a: Action, t: TaskID)
    requires Enabled(rc, seen, s, a) && t in s.run.tasks
    requires a.Commit? ==> Next(rc, seen, s, a).run.archived == s.run.archived
    requires !s.run.archived && Next(rc, seen, s, a).run.archived
    ensures Next(rc, seen, s, a).run == s.run.(archived := true) && s.run.phase in {RunPhase.SetupError, RunPhase.Cancelled, RunPhase.Finished}
    ensures AllFetched(s.run.tasks[t])
  {
    hide ScheduledRun, Runnable, StopsApply, StoppedEts;
    assert a == Archive;
  }

  // ---------------------------------------------------------------- runs that are cancelled while queued

  /** Before a run starts there are no executor tasks. */
  lemma {:induction false} NoEtsBeforeStart(rc: RunConfig, b: seq<Store>, ms: seq<Move>, n: nat)
    requires SplitRun(rc, b, ms) && n < |b| && b[n].run.phase in {RunPhase.Queued, RunPhase.Cancelled}
    ensures b[n].ets == map[]
    decreases n
  {
    hide SplitRun, Enabled, Next, Inv, Ready;
    StartOfRun(rc, b, ms);
    if n == 0 {
      FirstHasNoEts(rc, b[0]);
    } else {
      StepOf(rc, b, ms, n - 1);
      var seen, s, a := b[ms[n - 1].seen], b[n - 1], ms[n - 1].action;
      NoEtsStep(rc, seen, s, a);
      NoEtsBeforeStart(rc, b, ms, n - 1);
    }
  }

  lemma FirstHasNoEts(rc: RunConfig, s: Store)
    requires Init(rc, s)
    ensures s.ets == map[]
  {
  }

  lemma NoEtsStep(rc: RunConfig, seen: Store, s: Store, a: Action)
    requires Ready(rc, seen, s) && Enabled(rc, seen, s, a)
    requires Next(rc, seen, s, a).run.phase in {RunPhase.Queued, RunPhase.Cancelled}
    ensures s.run.phase in {RunPhase.Queued, RunPhase.Cancelled} && (s.ets == map[] ==> Next(rc, seen, s, a).ets == map[])
  {
    hide ScheduledRun, Runnable, StopsApply, TaskMoves;
    NextMoves(rc, seen, s, a);
  }

  /** A task that has not started when its queued run is cancelled never does, and the run is never archived. */
  lemma {:induction false} CancelledIsNeverArchived(rc: RunConfig, b: seq<Store>, ms: seq<Move>, i: nat, j: nat, t: TaskID)
    requires SplitRun(rc, b, ms) && i <= j < |b| && t in rc
    requires b[i].run.phase == RunPhase.Cancelled && t in b[i].run.tasks && b[i].run.tasks[t].status == TaskStatus.NotStarted
    ensures b[j].run.phase == RunPhase.Cancelled && t in b[j].run.tasks && b[j].run.tasks[t].status == TaskStatus.NotStarted
    ensures !b[j].run.archived
    decreases j
  {
    hide *;
    StartOfRun(rc, b, ms);
    NotArchivedYet(rc, b, ms, j, t);
    if i < j {
      CancelledIsNeverArchived(rc, b, ms, i, j - 1, t);
      StepOf(rc, b, ms, j - 1);
      NoEtsBeforeStart(rc, b, ms, j - 1);
      PhaseStays(rc, b[ms[j - 1].seen], b[j - 1], ms[j - 1].action);
      CancelledStep(rc, b[ms[j - 1].seen], b[j - 1], ms[j - 1].action, t);
    }
  }

  lemma NotArchivedYet(rc: RunConfig, b: seq<Store>, ms: seq<Move>, n: nat, t: TaskID)
    requires SplitRun(rc, b, ms) && n < |b| && t in rc
    ensures b[n].run.archived ==> t in b[n].run.tasks && b[n].run.tasks[t].status != TaskStatus.NotStarted
  {
    hide SplitRun;
    if b[n].run.archived { ArchivedReached(rc, b, ms, n, t); }
  }

  lemma CancelledStep(rc: RunConfig, seen: Store, s: Store, a: Action, t: TaskID)
    requires Ready(rc, seen, s) && Enabled(rc, seen, s, a) && Inv(rc, s) && s.run.phase == RunPhase.Cancelled && s.ets == map[]
    requires s.run.tasks.Keys == Next(rc, seen, s, a).run.tasks.Keys == rc.Keys && t in rc
    ensures Next(rc, seen, s, a).run.tasks[t].status == s.run.tasks[t].status
  {
    hide Ready, Inv, Next, ScheduledRun, StopsApply, Runnable;
    CancelledCommit(rc, seen, s, a);
    if Next(rc, seen, s, a).run.tasks[t].status != s.run.tasks[t].status { OnlyReportOrCommit(rc, seen, s, a, t); }
  }

  lemma CancelledCommit(rc: RunConfig, seen: Store, s: Store, a: Action)
    requires Ready(rc, seen, s) && Enabled(rc, seen, s, a) && Inv(rc, s) && s.run.phase == RunPhase.Cancelled
    requires s.run.tasks.Keys == rc.Keys
    ensures a.Commit? ==> Next(rc, seen, s, a).run.tasks == s.run.tasks
  {
    if a.Commit? {
      hide AdvancedRun, AdvancedTask, SeenBefore, StopsApply, StoppedEts, ScheduledRun, EtTasks, HasFatalTask;
      RevisionTells(rc, seen, s);
      CommitRun(rc, seen, s);
      CommitWrites(rc, seen);
      AdvancedRunMoves(rc, seen.run, seen.ets != map[]);
      ResultKept(rc, seen.run, seen.ets != map[]);
      forall t | t in rc ensures Next(rc, seen, s, a).run.tasks[t] == s.run.tasks[t] { TasksMean(rc, seen.run, seen.ets != map[], t); }
    }
  }

  // ---------------------------------------------------------------- stop

  lemma StopStepKeeps(rc: RunConfig, seen: Store, s: Store, a: Action)
    requires Ready(rc, seen, s) && Enabled(rc, seen, s, a)
    ensures Next(rc, seen, s, a).run.stop <==> s.run.stop || a.Stop?
    ensures a.Stop? ==> s.run.phase == RunPhase.Running && Next(rc, seen, s, a).run.phase == RunPhase.Running
    ensures s.run.phase in {RunPhase.Running, RunPhase.Finished} ==> Next(rc, seen, s, a).run.phase in {RunPhase.Running, RunPhase.Finished}
  {
    hide Enabled, Next, TaskMoves;
    NextMoves(rc, seen, s, a);
    StopStep(rc, seen, s, a);
    if a.Stop? { StopRuns(rc, seen, s, a); }
  }

  lemma StopRuns(rc: RunConfig, seen: Store, s: Store, a: Action)
    requires Enabled(rc, seen, s, a) && a.Stop?
    ensures s.run.phase == RunPhase.Running && Next(rc, seen, s, a).run.phase == RunPhase.Running
  {
  }

  /** Only a run that has started is stopped. An executor task is told to stop only when its run is to stop, or is over. */
  lemma {:induction false} StopFlagsAreJustified(rc: RunConfig, b: seq<Store>, ms: seq<Move>, n: nat, e: ExecutorTaskID)
    requires SplitRun(rc, b, ms) && n < |b|
    ensures b[n].run.stop ==> b[n].run.phase in {RunPhase.Running, RunPhase.Finished}
    ensures e in b[n].ets && b[n].ets[e].stop ==> b[n].run.stop || b[n].run.phase == RunPhase.Finished
    decreases n
  {
    hide SplitRun, Enabled, Next, Inv, Ready;
    StartOfRun(rc, b, ms);
    if n == 0 {
      FirstNotStopped(rc, b[0]);
    } else {
      StepOf(rc, b, ms, n - 1);
      StopFlagsAreJustified(rc, b, ms, n - 1, e);
      var seen, s, a := b[ms[n - 1].seen], b[n - 1], ms[n - 1].action;
      StopStepKeeps(rc, seen, s, a);
      NoEtsIfCancelled(rc, b, ms, n - 1);
      if e in b[n].ets && b[n].ets[e].stop { EtStopStep(rc, seen, s, a, e); }
      if s.run.phase == RunPhase.Finished { PhaseStays(rc, seen, s, a); }
    }
  }

  lemma NoEtsIfCancelled(rc: RunConfig, b: seq<Store>, ms: seq<Move>, n: nat)
    requires SplitRun(rc, b, ms) && n < |b|
    ensures b[n].run.phase == RunPhase.Cancelled ==> b[n].ets == map[]
  {
    if b[n].run.phase == RunPhase.Cancelled { NoEtsBeforeStart(rc, b, ms, n); }
  }

  lemma FirstNotStopped(rc: RunConfig, s: Store)
    requires Init(rc, s)
    ensures !s.run.stop && s.ets == map[]
  {
  }

  lemma EtStopStep(rc: RunConfig, seen: Store, s: Store, a: Action, e: ExecutorTaskID)
    requires Ready(rc, seen, s) && Enabled(rc, seen, s, a) && e in Next(rc, seen, s, a).ets && Next(rc, seen, s, a).ets[e].stop
    ensures e in s.ets
    ensures s.ets[e].stop || s.run.phase in {RunPhase.Cancelled, RunPhase.Finished} || s.run.stop
  {
    hide ScheduledRun, Runnable, TaskMoves;
  }

  /** A commit of a stopped run tells every executor task that it has read to stop; all other commits leave the
      executor tasks alone. */
  lemma StopReachesExecutors(rc: RunConfig, b: seq<Store>, ms: seq<Move>, i: nat, e: ExecutorTaskID)
    requires SplitRun(rc, b, ms) && i < |ms| && ms[i].action.Commit?
    ensures |b| == |ms| + 1 && ms[i].seen <= i
    ensures b[i].run.stop && e in b[ms[i].seen].ets ==> e in b[i + 1].ets && b[i + 1].ets[e].stop
    ensures !b[i].run.stop || (e in b[i].ets && e !in b[ms[i].seen].ets) ==> (e in b[i + 1].ets <==> e in b[i].ets)
    ensures e in b[i].ets && e in b[i + 1].ets && (!b[i].run.stop || e !in b[ms[i].seen].ets) ==> b[i + 1].ets[e] == b[i].ets[e]
  {
    hide SplitRun, Inv;
    StepOf(rc, b, ms, i);
    RevisionTells(rc, b[ms[i].seen], b[i]);
    CommitStops(rc, b[ms[i].seen], b[i], e);
  }

  lemma CommitStops(rc: RunConfig, seen: Store, s: Store, e: ExecutorTaskID)
    requires Enabled(rc, seen, s, Commit) && seen.run == s.run
    ensures var s' := Next(rc, seen, s, Commit);
            && (s.run.stop && e in seen.ets ==> e in s'.ets && s'.ets[e].stop)
            && s'.ets.Keys == s.ets.Keys
            && (e in s.ets && (!s.run.stop || e !in seen.ets) ==> s'.ets[e] == s.ets[e])
  {
    hide ScheduledRun;
  }
}
