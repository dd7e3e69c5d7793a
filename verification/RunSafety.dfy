/** Every action keeps the invariant of module RunStore and never takes back what is settled,
    whichever earlier state it decided from. */
module RunSafety {
  import opened RunTypes
  import opened Scheduler
  import opened RunStore

  lemma SetTaskMoves(r: Run, t: TaskID, rt: RunTask)
    requires t in r.tasks && TaskMoves(r.tasks[t], rt)
    ensures RunMoves(r, r.(tasks := r.tasks[t := rt]))
  {
    hide TaskMoves;
    TaskMovesSelf(r);
  }

  lemma NoApprovalsMoves(r: Run)
    ensures RunMoves(r, r.(stop := true, tasks := NoApprovals(r.tasks)))
  {
  }

  lemma ReportMoves(rt: RunTask, p: ExecutorTaskPhase)
    ensures TaskMoves(rt, rt.(status := Reported(rt.status, p)))
    ensures var st := Reported(rt.status, p); st == rt.status || Ran(st) || st.Cancelled?
  {
  }

  /** What an action needs of the states it works on. */
  ghost predicate Ready(rc: RunConfig, seen: Store, s: Store) {
    Fits(rc, s.run) && Fits(rc, seen.run) && !s.run.phase.SetupError? && SeenBefore(seen, s)
  }

  /** Each action moves the run forward, and saves it with the next revision or not at all. */
  lemma NextMoves(rc: RunConfig, seen: Store, s: Store, a: Action)
    requires Ready(rc, seen, s) && Enabled(rc, seen, s, a)
    ensures var s' := Next(rc, seen, s, a);
            && RunMoves(s.run, s'.run) && Fits(rc, s'.run)
            && (s'.rev == s.rev + 1 || (s'.rev == s.rev && s'.run == s.run))
  {
    hide TaskMoves, ScheduledRun, Runnable;
    TaskMovesSelf(s.run);
    match a {
      case Stop => NoApprovalsMoves(s.run);
      case Approve(t) => UnwaitedMoves(s.run.tasks[t]); SetTaskMoves(s.run, t, s.run.tasks[t].(waitingApproval := false, approved := true));
      case Report(e) =>
        var t := s.ets[e].task;
        ReportMoves(s.run.tasks[t], s.ets[e].phase);
        SetTaskMoves(s.run, t, s.run.tasks[t].(status := Reported(s.run.tasks[t].status, s.ets[e].phase)));
      case FetchSetupLog(t) => SetupFetchedMoves(s.run.tasks[t]); SetTaskMoves(s.run, t, s.run.tasks[t].(setupLog := FetchFinished));
      case FetchStepLog(t, i) =>
        StepFetchedMoves(s.run.tasks[t], i);
        SetTaskMoves(s.run, t, s.run.tasks[t].(stepLogs := s.run.tasks[t].stepLogs[i := FetchFinished]));
      case FetchArchive(t, i) =>
        ArchiveFetchedMoves(s.run.tasks[t], i);
        SetTaskMoves(s.run, t, s.run.tasks[t].(archivesPhase := s.run.tasks[t].archivesPhase[i := FetchFinished]));
      case Commit => ScheduledRunMoves(rc, seen);
      case _ =>
    }
  }

  lemma UnwaitedMoves(rt: RunTask)
    ensures TaskMoves(rt, rt.(waitingApproval := false, approved := true))
  {
  }

  lemma SetupFetchedMoves(rt: RunTask)
    ensures TaskMoves(rt, rt.(setupLog := FetchFinished))
  {
  }

  lemma StepFetchedMoves(rt: RunTask, i: nat)
    requires i < |rt.stepLogs|
    ensures TaskMoves(rt, rt.(stepLogs := rt.stepLogs[i := FetchFinished]))
  {
  }

  lemma ArchiveFetchedMoves(rt: RunTask, i: nat)
    requires i < |rt.archivesPhase|
    ensures TaskMoves(rt, rt.(archivesPhase := rt.archivesPhase[i := FetchFinished]))
  {
  }

  /** Each action moves the executor tasks forward and gives out new ids only. */
  lemma EtsNext(rc: RunConfig, seen: Store, s: Store, a: Action)
    requires SeenBefore(seen, s) && Enabled(rc, seen, s, a) && s.ets.Keys <= s.issued
    ensures var s' := Next(rc, seen, s, a);
            && EtsMove(s.ets, s'.ets) && s.issued <= s'.issued && s'.ets.Keys <= s'.issued
            && s'.ets.Keys - s.ets.Keys <= s'.issued - s.issued
  {
    hide ScheduledRun, Runnable, RunMoves;
    if a.Commit? {
      forall e | e in s.ets ensures EtMoves(s.ets[e], StoppedEts(seen, s)[e]) {
        if seen.run.stop && e in seen.ets { assert EtMoves(seen.ets[e], s.ets[e]); }
      }
    }
  }

  lemma EtsMoveTrans(a: Store, b: Store, c: Store)
    requires EtsMove(a.ets, b.ets) && EtsMove(b.ets, c.ets)
    requires a.ets.Keys <= a.issued <= b.issued && c.ets.Keys - b.ets.Keys <= c.issued - b.issued
    ensures EtsMove(a.ets, c.ets)
  {
    forall e | e in a.ets && e in c.ets ensures EtMoves(a.ets[e], c.ets[e]) {
      assert e in b.ets;
      assert EtMoves(a.ets[e], b.ets[e]) && EtMoves(b.ets[e], c.ets[e]);
    }
  }

  /** A state read earlier stays one that was read earlier. */
  lemma SeenStaysSeen(rc: RunConfig, before: Store, seen: Store, s: Store, a: Action)
    requires Ready(rc, seen, s) && Enabled(rc, seen, s, a) && SeenBefore(before, s) && s.ets.Keys <= s.issued
    ensures SeenBefore(before, Next(rc, seen, s, a)) && SeenBefore(s, Next(rc, seen, s, a))
  {
    hide RunMoves, EtsMove, Next, Enabled;
    var s' := Next(rc, seen, s, a);
    NextMoves(rc, seen, s, a);
    RunMovesTrans(before.run, s.run, s'.run);
    EtsNext(rc, seen, s, a);
    EtsMoveTrans(before, s, s');
  }

  lemma SeenSelf(s: Store)
    requires s.ets.Keys <= s.issued
    ensures SeenBefore(s, s)
  {
    TaskMovesSelf(s.run);
  }

  // ---------------------------------------------------------------- tasks and executor tasks

  /** Status changes: only a report starts or ends a task, and only one with an executor task. */
  lemma StatusChanges(rc: RunConfig, seen: Store, s: Store, a: Action, t: TaskID)
    requires Ready(rc, seen, s) && Enabled(rc, seen, s, a) && t in s.run.tasks && t in Next(rc, seen, s, a).run.tasks
    ensures var st, st' := s.run.tasks[t].status, Next(rc, seen, s, a).run.tasks[t].status;
            st' == st || st'.Skipped? || st'.Cancelled? || (a.Report? && s.ets[a.et].task == t)
  {
    hide ScheduledRun, Runnable, TaskMoves, EtTasks, EtsMove, StopsApply, StoppedEts, PhaseMoves;
    if a.Commit? { ScheduledRunMoves(rc, seen); }
  }

  lemma SameTasks(a: map<ExecutorTaskID, ExecutorTask>, b: map<ExecutorTaskID, ExecutorTask>)
    requires a.Keys == b.Keys && forall e :: e in a ==> a[e].task == b[e].task
    ensures EtTasks(a) == EtTasks(b)
  {
    forall t | t in EtTasks(a) ensures t in EtTasks(b) {
      var e :| e in a && a[e].task == t;
      assert e in b && b[e].task == t;
    }
    forall t | t in EtTasks(b) ensures t in EtTasks(a) {
      var e :| e in b && b[e].task == t;
      assert e in a && a[e].task == t;
    }
  }

  /** Which run tasks have an executor task: one more after a submission, fewer after a deletion. */
  lemma EtTasksChange(rc: RunConfig, seen: Store, s: Store, a: Action)
    requires SeenBefore(seen, s) && Enabled(rc, seen, s, a) && s.ets.Keys <= s.issued
    ensures var s' := Next(rc, seen, s, a);
            && (a.Submit? ==> EtTasks(s'.ets) == EtTasks(s.ets) + {a.task})
            && (a.DeleteTask? ==> EtTasks(s.ets) <= EtTasks(s'.ets) + {s.ets[a.et].task} && EtTasks(s'.ets) <= EtTasks(s.ets))
            && (!a.Submit? && !a.DeleteTask? ==> EtTasks(s'.ets) == EtTasks(s.ets) && s'.ets.Keys == s.ets.Keys)
  {
    hide ScheduledRun, Runnable, RunMoves;
    match a {
      case Commit =>
        var ets' := Next(rc, seen, s, a).ets;
        forall e | e in s.ets ensures ets'[e].task == s.ets[e].task {
          if seen.run.stop && e in seen.ets { assert EtMoves(seen.ets[e], s.ets[e]); }
        }
        SameTasks(s.ets, ets');
      case SetPhase(e, p) => SameTasks(s.ets, Next(rc, seen, s, a).ets);
      case MarkStop(e) => SameTasks(s.ets, Next(rc, seen, s, a).ets);
      case Submit(t, e, x) =>
        var ets' := Next(rc, seen, s, a).ets;
        assert ets'[e].task == t;
        forall u | u in EtTasks(s.ets) ensures u in EtTasks(ets') {
          var d :| d in s.ets && s.ets[d].task == u;
          assert d in ets' && ets'[d].task == u;
        }
      case DeleteTask(e) =>
        var ets' := Next(rc, seen, s, a).ets;
        forall u | u in EtTasks(s.ets) ensures u in EtTasks(ets') + {s.ets[e].task} {
          var d :| d in s.ets && s.ets[d].task == u;
          if d != e { assert d in ets' && ets'[d].task == u; }
        }
      case _ =>
    }
  }

  lemma EtTaskOf(ets: map<ExecutorTaskID, ExecutorTask>, e: ExecutorTaskID)
    requires e in ets
    ensures ets[e].task in EtTasks(ets)
  {
  }

  lemma ConsistentNext(rc: RunConfig, seen: Store, s: Store, a: Action)
    requires Ready(rc, seen, s) && Enabled(rc, seen, s, a) && TasksConsistent(rc, s)
    ensures TasksConsistent(rc, Next(rc, seen, s, a))
  {
    hide Next, ScheduledRun, EtTasks, EtsMove, StopsApply, DependenciesMet, RunMoves, Enabled;
    var s' := Next(rc, seen, s, a);
    NextMoves(rc, seen, s, a);
    SameKeys(s.run, s'.run);
    EtTasksFit(rc, seen, s, a);
    EtsNext(rc, seen, s, a);
    ArchivesStayFit(s.run, s'.run);
    forall t | t in s'.run.tasks ensures (s'.run.tasks[t].skip ==> s'.run.tasks[t].status.Skipped?)
                                      && (s'.run.tasks[t].status.Running? ==> t in EtTasks(s'.ets)) {
      TaskConsistentNext(rc, seen, s, a, t);
    }
  }

  lemma ArchivesStayFit(a: Run, b: Run)
    requires RunMoves(a, b) && forall t :: t in a.tasks ==> a.tasks[t].ArchivesFit()
    ensures forall t :: t in b.tasks ==> b.tasks[t].ArchivesFit()
  {
    forall t | t in b.tasks ensures b.tasks[t].ArchivesFit() {
      assert TaskMoves(a.tasks[t], b.tasks[t]) && a.tasks[t].ArchivesFit();
    }
  }

  lemma EtTasksFit(rc: RunConfig, seen: Store, s: Store, a: Action)
    requires Ready(rc, seen, s) && Enabled(rc, seen, s, a) && TasksConsistent(rc, s)
    ensures EtTasks(Next(rc, seen, s, a).ets) <= s.run.tasks.Keys
  {
    hide Next, ScheduledRun, EtTasks, EtsMove, StopsApply, DependenciesMet, TaskMoves;
    EtTasksChange(rc, seen, s, a);
  }

  lemma TaskConsistentNext(rc: RunConfig, seen: Store, s: Store, a: Action, t: TaskID)
    requires Ready(rc, seen, s) && Enabled(rc, seen, s, a) && TasksConsistent(rc, s)
    requires t in s.run.tasks && t in Next(rc, seen, s, a).run.tasks
    ensures var s' := Next(rc, seen, s, a);
            && (s'.run.tasks[t].skip ==> s'.run.tasks[t].status.Skipped?)
            && (s'.run.tasks[t].status.Running? ==> t in EtTasks(s'.ets))
  {
    hide Next, ScheduledRun, EtTasks, EtsMove, StopsApply, Runnable, RunMoves, TaskMoves;
    NextMoves(rc, seen, s, a);
    EtTasksChange(rc, seen, s, a);
    MovesAt(s.run, Next(rc, seen, s, a).run, t);
    StatusChanges(rc, seen, s, a, t);
    if a.Report? { EtTaskOf(s.ets, a.et); }
    if a.DeleteTask? {
      SameKeys(seen.run, s.run);
      MovesAt(seen.run, s.run, s.ets[a.et].task);
    }
  }

  lemma MovesAt(a: Run, b: Run, t: TaskID)
    requires RunMoves(a, b) && t in a.tasks
    ensures t in b.tasks && a.tasks[t].skip == b.tasks[t].skip && StatusMoves(a.tasks[t].status, b.tasks[t].status)
  {
    assert TaskMoves(a.tasks[t], b.tasks[t]);
  }

  lemma NeededBefore(rc: RunConfig, seen: Store, s: Store, a: Action, t: TaskID)
    requires Ready(rc, seen, s) && Enabled(rc, seen, s, a) && TasksConsistent(rc, s) && t in s.run.tasks && t in Next(rc, seen, s, a).run.tasks
    requires t in EtTasks(Next(rc, seen, s, a).ets) || Ran(Next(rc, seen, s, a).run.tasks[t].status)
    ensures t in EtTasks(s.ets) || Ran(s.run.tasks[t].status) || (a.Submit? && a.task == t)
  {
    hide Next, ScheduledRun, EtTasks, EtsMove, RunMoves, StopsApply, Runnable;
    StatusChanges(rc, seen, s, a, t);
    EtTasksChange(rc, seen, s, a);
    if a.Report? { EtTaskOf(s.ets, a.et); }
  }

  lemma DependencySafeNext(rc: RunConfig, seen: Store, s: Store, a: Action)
    requires Ready(rc, seen, s) && Enabled(rc, seen, s, a) && TasksConsistent(rc, s) && DependencySafe(rc, s)
    ensures DependencySafe(rc, Next(rc, seen, s, a))
  {
    hide Next, ScheduledRun, EtTasks, EtsMove, RunMoves, StopsApply, DependenciesMet;
    var s' := Next(rc, seen, s, a);
    NextMoves(rc, seen, s, a);
    SameKeys(s.run, s'.run);
    forall t | t in s'.run.tasks && t in rc && (t in EtTasks(s'.ets) || Ran(s'.run.tasks[t].status))
      ensures DependenciesMet(rc, s'.run, t)
    {
      NeededBefore(rc, seen, s, a, t);
      if t in EtTasks(s.ets) || Ran(s.run.tasks[t].status) {
        DependenciesStayMet(rc, s.run, s'.run, t);
      } else {
        RunMovesTrans(seen.run, s.run, s'.run);
        DependenciesStayMet(rc, seen.run, s'.run, t);
      }
    }
  }

  lemma SameKeys(a: Run, b: Run)
    requires RunMoves(a, b)
    ensures a.tasks.Keys == b.tasks.Keys
  {
  }

  lemma OneEtNext(rc: RunConfig, seen: Store, s: Store, a: Action)
    requires Ready(rc, seen, s) && Enabled(rc, seen, s, a) && TasksConsistent(rc, s) && OneEtPerTask(s)
    ensures OneEtPerTask(Next(rc, seen, s, a))
  {
    hide ScheduledRun, RunMoves, Runnable, StopsApply, Done, Fits;
    var s' := Next(rc, seen, s, a);
    EtsNext(rc, seen, s, a);
    forall d, e | d in s'.ets && e in s'.ets && s'.ets[d].task == s'.ets[e].task ensures d == e {
      if d in s.ets && e in s.ets {
        assert EtMoves(s.ets[d], s'.ets[d]) && EtMoves(s.ets[e], s'.ets[e]);
      }
    }
  }

  // ---------------------------------------------------------------- results and events

  /** Settled facts of a run that moved on, when neither phase nor result changed. */
  lemma ExplainedStays(rc: RunConfig, r: Run, r': Run)
    requires ResultExplained(rc, r) && RunMoves(r, r') && r'.phase == r.phase && r'.result == r.result
    ensures ResultExplained(rc, r')
  {
    if AllFinished(r) { FinishedStays(rc, r, r'); }
    if HasFatalTask(rc, r) { FatalStays(rc, r, r'); }
  }

  lemma FinishedStays(rc: RunConfig, r: Run, r': Run)
    requires RunMoves(r, r') && AllFinished(r)
    ensures AllFinished(r') && (!HasFatalTask(rc, r) ==> !HasFatalTask(rc, r'))
  {
    forall t | t in r'.tasks ensures r'.tasks[t].status == r.tasks[t].status {
      assert TaskMoves(r.tasks[t], r'.tasks[t]) && r.tasks[t].status.IsFinished();
    }
    if !HasFatalTask(rc, r) && HasFatalTask(rc, r') {
      var t :| FatalTask(rc, r', t);
      assert FatalTask(rc, r, t);
    }
  }

  lemma FatalStays(rc: RunConfig, r: Run, r': Run)
    requires RunMoves(r, r') && HasFatalTask(rc, r)
    ensures HasFatalTask(rc, r')
  {
    var t :| FatalTask(rc, r, t);
    assert TaskMoves(r.tasks[t], r'.tasks[t]);
    assert FatalTask(rc, r', t);
  }

  lemma CloseRunExplained(rc: RunConfig, r: Run, hasScheduled: bool)
    requires ResultExplained(rc, r)
    ensures ResultExplained(rc, CloseRun(r, hasScheduled))
  {
    hide HasFatalTask;
    CloseRunMoves(r, hasScheduled);
    var r' := CloseRun(r, hasScheduled);
    if r.phase != r'.phase {
      SameTasksSameFacts(rc, r, r.(phase := RunPhase.Finished));
      ExplainedStays(rc, r.(phase := RunPhase.Finished), r') by { TaskMovesClose(r, hasScheduled); }
    } else {
      ExplainedStays(rc, r, r');
    }
  }

  lemma TaskMovesClose(r: Run, hasScheduled: bool)
    requires CloseRun(r, hasScheduled).phase != r.phase
    ensures RunMoves(r.(phase := RunPhase.Finished), CloseRun(r, hasScheduled))
  {
    CloseRunMoves(r, hasScheduled);
  }

  lemma AdvancedRunExplained(rc: RunConfig, r: Run, hasScheduled: bool)
    requires ResultExplained(rc, r)
    ensures ResultExplained(rc, AdvancedRun(rc, r, hasScheduled))
  {
    hide CloseRun, AllFinished, HasFatalTask;
    CloseRunExplained(rc, r, hasScheduled);
    if !r.result.IsSet() && r.phase.Running? {
      if HasFatalTask(rc, r) {
        SameTasksSameFacts(rc, r, r.(result := RunResult.Failed));
        CloseRunExplained(rc, r.(result := RunResult.Failed), hasScheduled);
      } else if AllFinished(r) {
        SameTasksSameFacts(rc, r, r.(result := RunResult.Success));
      } else if r.stop {
        CloseRunExplained(rc, r.(result := RunResult.Stopped), hasScheduled);
      }
    }
  }

  lemma SameTasksSameFacts(rc: RunConfig, r: Run, r': Run)
    requires r.tasks == r'.tasks
    ensures (HasFatalTask(rc, r) <==> HasFatalTask(rc, r')) && (AllFinished(r) <==> AllFinished(r'))
  {
    forall t ensures FatalTask(rc, r, t) <==> FatalTask(rc, r', t) { }
  }

  lemma ScheduledRunExplained(rc: RunConfig, seen: Store)
    requires ResultExplained(rc, seen.run) && Fits(rc, seen.run)
    ensures ResultExplained(rc, ScheduledRun(rc, seen))
  {
    hide AdvancedRun, AdvancedTask, ResultExplained, RunMoves, EtTasks;
    var r := AdvancedRun(rc, seen.run, seen.ets != map[]);
    AdvancedRunExplained(rc, seen.run, seen.ets != map[]);
    if r.phase.Running? && Fits(rc, r) {
      AdvancedTasksMove(rc, r, EtTasks(seen.ets));
      ExplainedStays(rc, r, AdvancedTasks(rc, r, EtTasks(seen.ets)));
    }
  }

  lemma ExplainedNext(rc: RunConfig, seen: Store, s: Store, a: Action)
    requires Ready(rc, seen, s) && Enabled(rc, seen, s, a) && ResultExplained(rc, s.run)
    ensures ResultExplained(rc, Next(rc, seen, s, a).run)
  {
    var r' := Next(rc, seen, s, a).run;
    NextMoves(rc, seen, s, a);
    if a.Commit? {
      hide *;
      RevisionTells(rc, seen, s);
      ScheduledRunExplained(rc, seen);
      CommitRun(rc, seen, s);
    } else if a.Start? || a.CancelQueued? {
      hide HasFatalTask, AllFinished;
    } else {
      hide ResultExplained, RunMoves;
      ExplainedStays(rc, s.run, r');
    }
  }

  lemma RevisionTells(rc: RunConfig, seen: Store, s: Store)
    requires Ready(rc, seen, s) && Enabled(rc, seen, s, Commit)
    ensures seen.run == s.run && Fits(rc, seen.run)
  {
  }

  lemma CommitRun(rc: RunConfig, seen: Store, s: Store)
    requires Enabled(rc, seen, s, Commit)
    ensures Next(rc, seen, s, Commit).run == ScheduledRun(rc, seen)
  {
  }

  lemma EventsNext(rc: RunConfig, seen: Store, s: Store, a: Action)
    requires Ready(rc, seen, s) && Enabled(rc, seen, s, a) && EventsFollow(s)
    ensures EventsFollow(Next(rc, seen, s, a))
    ensures var s' := Next(rc, seen, s, a);
            s'.events == if Event(s'.run) == Event(s.run) then s.events else s.events + [Event(s'.run)]
  {
    hide ScheduledRun, RunMoves, EtTasks, EtsMove, StopsApply, StoppedEts, Runnable;
    var s' := Next(rc, seen, s, a);
    if a.Commit? { assert seen.run == s.run; }
    assert s'.events == if Event(s'.run) == Event(s.run) then s.events else s.events + [Event(s'.run)];
    if s'.events != s.events {
      assert s'.events[..|s.events|] == s.events;
    }
  }

  /** The invariant is kept by every action, whatever earlier state it decided from. */
  lemma InvNext(rc: RunConfig, seen: Store, s: Store, a: Action)
    requires Inv(rc, s) && Fits(rc, seen.run) && SeenBefore(seen, s) && Enabled(rc, seen, s, a)
    ensures Inv(rc, Next(rc, seen, s, a))
  {
    assert Ready(rc, seen, s);
    hide TasksConsistent, DependencySafe, OneEtPerTask, ResultExplained, EventsFollow, Next, Enabled;
    ConsistentNext(rc, seen, s, a);
    DependencySafeNext(rc, seen, s, a);
    OneEtNext(rc, seen, s, a);
    ExplainedNext(rc, seen, s, a);
    EventsNext(rc, seen, s, a);
  }
}
