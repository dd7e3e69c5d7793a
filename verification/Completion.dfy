/** When a run can still finish: from a state of a serial run of an acyclic config there is a way on
    which executors, fetchers and users do their part and the run ends, unless an executor task
    was cancelled whose task is known as running. */
module Completion {
  import opened RunTypes
  import opened Graph
  import opened RunConfigs
  import opened Scheduler
  import opened Executors
  import opened RunStore
  import opened RunSafety
  import opened SerialModel

  // ---------------------------------------------------------------- ways

  /** How an executor changes a phase: a final phase is never left, and a running task ends as stopped,
      success or failed. */
  predicate PhaseInOrder(p: ExecutorTaskPhase, q: ExecutorTaskPhase) {
    p == q || p.NotStarted? || (p.Running? && (q.Stopped? || q.Success? || q.Failed?))
  }

  ghost predicate Orderly(s: Store, m: SerialMove) {
    m.Single? && m.action.SetPhase? && m.action.et in s.ets ==> PhaseInOrder(s.ets[m.action.et].phase, m.action.phase)
  }

  /** Less than that: only final phases are kept. */
  ghost predicate KeepsFinal(s: Store, m: SerialMove) {
    m.Single? && m.action.SetPhase? && m.action.et in s.ets && s.ets[m.action.et].phase.IsFinished() ==>
      m.action.phase == s.ets[m.action.et].phase
  }

  lemma OrderlyKeepsFinal(s: Store, m: SerialMove)
    requires Orderly(s, m)
    ensures KeepsFinal(s, m)
  {
  }

  ghost predicate IsWay(rc: RunConfig, b: seq<Store>, ms: seq<SerialMove>, s: Store, s': Store) {
    && |b| == |ms| + 1 && b[0] == s && b[|b| - 1] == s'
    && forall i :: 0 <= i < |ms| ==>
         SerialEnabled(rc, b[i], ms[i]) && Orderly(b[i], ms[i]) && b[i + 1] == SerialNext(rc, b[i], ms[i])
  }

  ghost predicate Leads(rc: RunConfig, s: Store, s': Store) {
    exists b, ms :: IsWay(rc, b, ms, s, s')
  }

  lemma LeadsSelf(rc: RunConfig, s: Store)
    ensures Leads(rc, s, s)
  {
    assert IsWay(rc, [s], [], s, s);
  }

  lemma LeadsStep(rc: RunConfig, s0: Store, s: Store, m: SerialMove)
    requires Leads(rc, s0, s) && SerialEnabled(rc, s, m) && Orderly(s, m)
    ensures Leads(rc, s0, SerialNext(rc, s, m))
  {
    hide SerialEnabled, SerialNext, Orderly;
    var b, ms :| IsWay(rc, b, ms, s0, s);
    var s' := SerialNext(rc, s, m);
    var b', ms' := b + [s'], ms + [m];
    forall i | 0 <= i < |ms'|
      ensures SerialEnabled(rc, b'[i], ms'[i]) && Orderly(b'[i], ms'[i]) && b'[i + 1] == SerialNext(rc, b'[i], ms'[i])
    {
      if i < |ms| { assert b'[i] == b[i] && b'[i + 1] == b[i + 1] && ms'[i] == ms[i]; }
    }
    assert IsWay(rc, b', ms', s0, s');
  }

  lemma LeadsTrans(rc: RunConfig, r: Store, s: Store, t: Store)
    requires Leads(rc, r, s) && Leads(rc, s, t)
    ensures Leads(rc, r, t)
  {
    hide SerialEnabled, SerialNext, Orderly;
    var b, ms :| IsWay(rc, b, ms, r, s);
    var c, ns :| IsWay(rc, c, ns, s, t);
    var d, os := b + c[1..], ms + ns;
    forall i | 0 <= i < |os|
      ensures SerialEnabled(rc, d[i], os[i]) && Orderly(d[i], os[i]) && d[i + 1] == SerialNext(rc, d[i], os[i])
    {
      if i < |ms| {
        assert d[i] == b[i] && d[i + 1] == b[i + 1] && os[i] == ms[i];
      } else {
        assert d[i] == c[i - |ms|] && d[i + 1] == c[i - |ms| + 1] && os[i] == ns[i - |ms|];
      }
    }
    assert IsWay(rc, d, os, r, t);
  }

  // ---------------------------------------------------------------- what holds on the way

  /** A task that waits for approval has not been approved. */
  ghost predicate FlagsFit(r: Run) {
    forall t :: WaitsForApproval(r, t) ==> !r.tasks[t].approved
  }

  ghost predicate Fine(rc: RunConfig, s: Store) {
    SerialInv(rc, s) && FlagsFit(s.run)
  }

  lemma FineParts(rc: RunConfig, s: Store)
    requires Fine(rc, s)
    ensures SerialInv(rc, s) && FlagsFit(s.run) && Fits(rc, s.run) && !s.run.phase.SetupError? && s.ets.Keys <= s.issued
    ensures forall e :: e in s.ets ==> s.ets[e].task in s.run.tasks
    ensures s.ets != map[] ==> s.run.phase.Running?
    ensures TasksConsistent(rc, s)
  {
    SerialInvParts(rc, s);
    forall e | e in s.ets ensures s.ets[e].task in s.run.tasks { assert s.ets[e].task in EtTasks(s.ets); }
  }

  lemma ClosedRunTask(r: Run, hasScheduled: bool, t: TaskID)
    requires t in r.tasks
    ensures var r' := CloseRun(r, hasScheduled);
            r'.tasks.Keys == r.tasks.Keys && (r'.tasks[t] == r.tasks[t] || r'.tasks[t] == FetchSkipped(r.tasks[t]))
  {
    hide AllFinished, FetchSkipped;
  }

  lemma AdvancedRunTask(rc: RunConfig, r: Run, hasScheduled: bool, t: TaskID)
    requires t in r.tasks
    ensures var r' := AdvancedRun(rc, r, hasScheduled);
            r'.tasks.Keys == r.tasks.Keys && (r'.tasks[t] == r.tasks[t] || r'.tasks[t] == FetchSkipped(r.tasks[t]))
  {
    hide AllFinished, FetchSkipped, HasFatalTask, CloseRun;
    ClosedRunTask(r, hasScheduled, t);
    ClosedRunTask(r.(result := RunResult.Failed), hasScheduled, t);
    ClosedRunTask(r.(result := RunResult.Stopped), hasScheduled, t);
  }

  lemma CommitKeepsFlags(rc: RunConfig, s: Store)
    requires Fits(rc, s.run) && !s.run.phase.SetupError? && FlagsFit(s.run)
    ensures FlagsFit(Committed(rc, s, s).run)
  {
    hide AdvancedRun, AdvancedTask, EtTasks;
    ScheduledRunMoves(rc, s);
    forall t | WaitsForApproval(Committed(rc, s, s).run, t) ensures !Committed(rc, s, s).run.tasks[t].approved {
      var r := AdvancedRun(rc, s.run, s.ets != map[]);
      AdvancedRunTask(rc, s.run, s.ets != map[], t);
      FlagsOfTask(rc, r, EtTasks(s.ets), t);
      assert WaitsForApproval(s.run, t) ==> !s.run.tasks[t].approved;
    }
  }

  lemma FlagsOfTask(rc: RunConfig, r: Run, scheduled: set<TaskID>, t: TaskID)
    requires t in r.tasks && (t in rc)
    ensures var rt := AdvancedTask(rc, r, scheduled, t);
            && rt.approved == r.tasks[t].approved
            && (rt.status.NotStarted? ==> r.tasks[t].status.NotStarted?)
            && (rt.waitingApproval ==> r.tasks[t].waitingApproval || !rt.approved)
  {
    hide ParentsDone, DependsMatch;
  }

  lemma SingleKeepsFlags(rc: RunConfig, s: Store, a: Action)
    requires FlagsFit(s.run) && !a.Commit? && !a.Submit? && Enabled(rc, s, s, a)
    ensures FlagsFit(Next(rc, s, s, a).run)
  {
    forall t | WaitsForApproval(Next(rc, s, s, a).run, t) ensures !Next(rc, s, s, a).run.tasks[t].approved {
      assert WaitsForApproval(s.run, t) ==> !s.run.tasks[t].approved;
    }
  }

  lemma StepStaysFine(rc: RunConfig, s: Store, m: SerialMove)
    requires Fine(rc, s) && SerialEnabled(rc, s, m)
    ensures Fine(rc, SerialNext(rc, s, m)) && RunMoves(s.run, SerialNext(rc, s, m).run)
  {
    hide SerialInv, FlagsFit, Committed, Enabled, Next, GoodSchedule, RunMoves;
    SerialStepKeeps(rc, s, m);
    FineParts(rc, s);
    match m
    case Single(a) => SingleKeepsFlags(rc, s, a);
    case Schedule(order, offers) =>
      CommitKeepsFlags(rc, s);
      ScheduleKeeps(rc, s, order, offers);
  }

  /** One more step on a way. */
  lemma Go(rc: RunConfig, s0: Store, s: Store, a: Action) returns (s': Store)
    requires Leads(rc, s0, s) && Fine(rc, s) && !a.Commit? && !a.Submit? && Enabled(rc, s, s, a)
    requires Orderly(s, Single(a))
    ensures s' == Next(rc, s, s, a) && Leads(rc, s0, s') && Fine(rc, s') && RunMoves(s.run, s'.run)
  {
    hide Fine, Leads, Enabled, Next, RunMoves, Orderly;
    s' := SerialNext(rc, s, Single(a));
    LeadsStep(rc, s0, s, Single(a));
    StepStaysFine(rc, s, Single(a));
  }

  // ---------------------------------------------------------------- fetching

  /** The same executor tasks, phase and result, and the same tasks up to what has been fetched. */
  ghost predicate OnlyFetched(s: Store, s': Store) {
    && s'.ets == s.ets && s'.run.phase == s.run.phase && s'.run.result == s.run.result
    && s'.run.tasks.Keys == s.run.tasks.Keys
    && forall t :: t in s.run.tasks ==> OnlyFetchedTask(s.run.tasks[t], s'.run.tasks[t])
  }

  predicate OnlyFetchedTask(a: RunTask, b: RunTask) {
    && b.status == a.status && b.approved == a.approved && b.waitingApproval == a.waitingApproval
    && |a.stepLogs| == |b.stepLogs| && |a.archivesPhase| == |b.archivesPhase|
    && (a.LogsFetchFinished() ==> b.LogsFetchFinished()) && (a.ArchivesFetchFinished() ==> b.ArchivesFetchFinished())
  }

  lemma OnlyFetchedTrans(a: Store, b: Store, c: Store)
    requires OnlyFetched(a, b) && OnlyFetched(b, c)
    ensures OnlyFetched(a, c)
  {
    hide OnlyFetchedTask;
    forall t | t in a.run.tasks ensures OnlyFetchedTask(a.run.tasks[t], c.run.tasks[t]) {
      assert OnlyFetchedTask(a.run.tasks[t], b.run.tasks[t]) && OnlyFetchedTask(b.run.tasks[t], c.run.tasks[t]);
      OnlyFetchedTaskTrans(a.run.tasks[t], b.run.tasks[t], c.run.tasks[t]);
    }
  }

  lemma OnlyFetchedTaskTrans(a: RunTask, b: RunTask, c: RunTask)
    requires OnlyFetchedTask(a, b) && OnlyFetchedTask(b, c)
    ensures OnlyFetchedTask(a, c)
  {
  }

  lemma OnlyFetchedSelf(s: Store)
    ensures OnlyFetched(s, s)
  {
  }

  lemma FetchSetup(rc: RunConfig, s0: Store, s: Store, t: TaskID) returns (s': Store)
    requires Leads(rc, s0, s) && Fine(rc, s) && t in s.run.tasks && s.run.tasks[t].status.IsFinished()
    ensures Leads(rc, s0, s') && Fine(rc, s') && OnlyFetched(s, s') && s'.run.tasks[t].setupLog.FetchFinished?
  {
    hide Fine, Leads;
    s' := Go(rc, s0, s, FetchSetupLog(t));
  }

  lemma FetchSteps(rc: RunConfig, s0: Store, s: Store, t: TaskID) returns (s': Store)
    requires Leads(rc, s0, s) && Fine(rc, s) && t in s.run.tasks && s.run.tasks[t].status.IsFinished()
    requires s.run.tasks[t].setupLog.FetchFinished?
    ensures Leads(rc, s0, s') && Fine(rc, s') && OnlyFetched(s, s') && s'.run.tasks[t].LogsFetchFinished()
  {
    hide Fine, Leads;
    s' := s;
    OnlyFetchedSelf(s);
    for i := 0 to |s.run.tasks[t].stepLogs|
      invariant Leads(rc, s0, s') && Fine(rc, s') && OnlyFetched(s, s')
      invariant s'.run.tasks[t].setupLog.FetchFinished?
      invariant forall k :: 0 <= k < i ==> s'.run.tasks[t].stepLogs[k].FetchFinished?
    {
      var before := s';
      assert OnlyFetchedTask(s.run.tasks[t], before.run.tasks[t]);
      s' := Go(rc, s0, before, FetchStepLog(t, i));
      assert s'.run.tasks[t] == before.run.tasks[t].(stepLogs := before.run.tasks[t].stepLogs[i := FetchFinished]);
      OneTaskFetched(before, s', t);
      OnlyFetchedTrans(s, before, s');
    }
    assert OnlyFetchedTask(s.run.tasks[t], s'.run.tasks[t]);
  }

  lemma OneTaskFetched(s: Store, s': Store, t: TaskID)
    requires t in s.run.tasks && s'.run.tasks.Keys == s.run.tasks.Keys
    requires s' == s.(run := s.run.(tasks := s.run.tasks[t := s'.run.tasks[t]]), rev := s'.rev)
    requires OnlyFetchedTask(s.run.tasks[t], s'.run.tasks[t])
    ensures OnlyFetched(s, s')
  {
  }

  lemma FetchArchives(rc: RunConfig, s0: Store, s: Store, t: TaskID) returns (s': Store)
    requires Leads(rc, s0, s) && Fine(rc, s) && t in s.run.tasks && s.run.tasks[t].status.IsFinished()
    ensures Leads(rc, s0, s') && Fine(rc, s') && OnlyFetched(s, s') && s'.run.tasks[t].ArchivesFetchFinished()
  {
    hide Fine, Leads;
    s' := s;
    OnlyFetchedSelf(s);
    for i := 0 to |s.run.tasks[t].archivesPhase|
      invariant Leads(rc, s0, s') && Fine(rc, s') && OnlyFetched(s, s')
      invariant forall k :: 0 <= k < i ==> s'.run.tasks[t].archivesPhase[k].FetchFinished?
    {
      var before := s';
      assert OnlyFetchedTask(s.run.tasks[t], before.run.tasks[t]);
      s' := Go(rc, s0, before, FetchArchive(t, i));
      assert s'.run.tasks[t] == before.run.tasks[t].(archivesPhase := before.run.tasks[t].archivesPhase[i := FetchFinished]);
      OneTaskFetched(before, s', t);
      OnlyFetchedTrans(s, before, s');
    }
    assert OnlyFetchedTask(s.run.tasks[t], s'.run.tasks[t]);
  }

  lemma FetchTask(rc: RunConfig, s0: Store, s: Store, t: TaskID) returns (s': Store)
    requires Leads(rc, s0, s) && Fine(rc, s) && t in s.run.tasks && s.run.tasks[t].status.IsFinished()
    ensures Leads(rc, s0, s') && Fine(rc, s') && OnlyFetched(s, s')
    ensures s'.run.tasks[t].LogsFetchFinished() && Done(s'.run.tasks[t])
  {
    hide Fine, Leads, OnlyFetchedTask;
    var s1 := FetchSetup(rc, s0, s, t);
    FetchedStatus(s, s1, t);
    var s2 := FetchSteps(rc, s0, s1, t);
    FetchedStatus(s1, s2, t);
    s' := FetchArchives(rc, s0, s2, t);
    FetchedStatus(s2, s', t);
    OnlyFetchedTrans(s, s1, s2);
    OnlyFetchedTrans(s, s2, s');
  }

  lemma FetchedStatus(s: Store, s': Store, t: TaskID)
    requires OnlyFetched(s, s') && t in s.run.tasks
    ensures t in s'.run.tasks && s'.run.tasks[t].status == s.run.tasks[t].status
    ensures s.run.tasks[t].LogsFetchFinished() ==> s'.run.tasks[t].LogsFetchFinished()
    ensures forall u :: u in s'.run.tasks ==> u in s.run.tasks && s'.run.tasks[u].status == s.run.tasks[u].status
  {
    assert forall u :: u in s.run.tasks ==> OnlyFetchedTask(s.run.tasks[u], s'.run.tasks[u]);
  }

  /** All that happens on a way moves the run forward. */
  lemma {:induction false} WayMoves(rc: RunConfig, b: seq<Store>, ms: seq<SerialMove>, s: Store, s': Store)
    requires Fine(rc, s) && IsWay(rc, b, ms, s, s')
    ensures Fine(rc, s') && RunMoves(s.run, s'.run)
    decreases |ms|
  {
    hide Fine, SerialEnabled, SerialNext, RunMoves, Orderly;
    if ms == [] {
      SelfMoves(s.run);
    } else {
      var n := |ms| - 1;
      assert IsWay(rc, b[..n + 1], ms[..n], s, b[n]);
      WayMoves(rc, b[..n + 1], ms[..n], s, b[n]);
      StepStaysFine(rc, b[n], ms[n]);
      RunMovesTrans(s.run, b[n].run, s'.run);
    }
  }

  lemma LeadsForward(rc: RunConfig, s: Store, s': Store)
    requires Fine(rc, s) && Leads(rc, s, s')
    ensures Fine(rc, s') && RunMoves(s.run, s'.run)
  {
    hide Fine, IsWay, RunMoves;
    var b, ms :| IsWay(rc, b, ms, s, s');
    WayMoves(rc, b, ms, s, s');
  }

  // ---------------------------------------------------------------- executor tasks

  /** An executor task that was cancelled although its task is known as running: no report of it is
      accepted, and nothing else ends the task. */
  ghost predicate StuckEt(s: Store, e: ExecutorTaskID) {
    && e in s.ets && s.ets[e].phase.Cancelled?
    && s.ets[e].task in s.run.tasks && s.run.tasks[s.ets[e].task].status.Running?
  }

  ghost predicate Stuck(s: Store) {
    exists e :: StuckEt(s, e)
  }

  lemma StuckMeans(s: Store)
    ensures Stuck(s) <==>
            exists e :: e in s.ets && s.ets[e].phase == ExecutorTaskPhase.Cancelled && s.ets[e].task in s.run.tasks
                        && s.run.tasks[s.ets[e].task].status == TaskStatus.Running
  {
    if e :| e in s.ets && s.ets[e].phase == ExecutorTaskPhase.Cancelled && s.ets[e].task in s.run.tasks
            && s.run.tasks[s.ets[e].task].status == TaskStatus.Running
    {
      assert StuckEt(s, e);
    }
  }

  lemma EndPhase(rc: RunConfig, s: Store, e: ExecutorTaskID) returns (s': Store)
    requires Fine(rc, s) && e in s.ets && !StuckEt(s, e)
    ensures Leads(rc, s, s') && Fine(rc, s') && s'.run == s.run
    ensures s'.ets.Keys == s.ets.Keys && s'.ets[e].task == s.ets[e].task && forall d :: d in s.ets && d != e ==> s'.ets[d] == s.ets[d]
    ensures s'.ets[e].phase.IsFinished() && !StuckEt(s', e)
  {
    hide Fine, Leads, RunMoves;
    LeadsSelf(rc, s);
    s' := s;
    if !s.ets[e].phase.IsFinished() {
      s' := Go(rc, s, s, SetPhase(e, ExecutorTaskPhase.Success));
    }
  }

  lemma ReportFinal(rc: RunConfig, s0: Store, s: Store, e: ExecutorTaskID) returns (s': Store)
    requires Leads(rc, s0, s) && Fine(rc, s) && e in s.ets && s.ets[e].phase.IsFinished() && !StuckEt(s, e)
    ensures Leads(rc, s0, s') && Fine(rc, s') && s'.ets == s.ets
    ensures s'.run.phase == s.run.phase && s'.run.result == s.run.result
    ensures s.ets[e].task in s'.run.tasks && s'.run.tasks[s.ets[e].task].status.IsFinished()
    ensures OtherStatuses(s, s', s.ets[e].task)
  {
    hide Fine, Leads, RunMoves, Reported;
    FineParts(rc, s);
    s' := Go(rc, s0, s, Report(e));
    ReportedEnd(s.run.tasks[s.ets[e].task].status, s.ets[e].phase);
  }

  /** An executor that has not ended its task reports success; one that has reports what it has. */
  lemma ReportEnd(rc: RunConfig, s: Store, e: ExecutorTaskID) returns (s': Store)
    requires Fine(rc, s) && e in s.ets && !StuckEt(s, e)
    ensures Leads(rc, s, s') && Fine(rc, s')
    ensures s'.ets.Keys == s.ets.Keys && s'.ets[e].task == s.ets[e].task && forall d :: d in s.ets && d != e ==> s'.ets[d] == s.ets[d]
    ensures s'.run.phase == s.run.phase && s'.run.result == s.run.result
    ensures s.ets[e].task in s'.run.tasks && s'.run.tasks[s.ets[e].task].status.IsFinished()
    ensures OtherStatuses(s, s', s.ets[e].task)
  {
    hide Fine, Leads, StuckEt;
    var s1 := EndPhase(rc, s, e);
    s' := ReportFinal(rc, s, s1, e);
  }

  lemma ReportedEnd(s: TaskStatus, p: ExecutorTaskPhase)
    requires p.IsFinished() && !(p.Cancelled? && s.Running?)
    ensures Reported(s, p).IsFinished()
  {
  }

  ghost predicate OtherStatuses(s: Store, s': Store, t: TaskID) {
    forall u :: u in s'.run.tasks && u != t ==> u in s.run.tasks && s'.run.tasks[u].status == s.run.tasks[u].status
  }

  /** Then everything of its task is fetched, and `e` is deleted. */
  lemma FinishEt(rc: RunConfig, s: Store, e: ExecutorTaskID) returns (s': Store)
    requires Fine(rc, s) && e in s.ets && !Stuck(s)
    ensures Leads(rc, s, s') && Fine(rc, s') && s'.ets == s.ets - {e} && !Stuck(s')
    ensures s'.run.phase == s.run.phase && s'.run.result == s.run.result
    ensures s.ets[e].task in s'.run.tasks && s'.run.tasks[s.ets[e].task].status.IsFinished()
  {
    hide Fine, Leads, RunMoves, OnlyFetchedTask, OtherStatuses, Stuck;
    var t := s.ets[e].task;
    NotStuck(s, e);
    var s1 := ReportEnd(rc, s, e);
    var s2 := FetchTask(rc, s, s1, t);
    FetchedStatus(s1, s2, t);
    s' := Go(rc, s, s2, DeleteTask(e));
    assert s2.ets - {e} == s.ets - {e};
    StillUnstuck(s, s1, s', e);
  }

  lemma NotStuck(s: Store, e: ExecutorTaskID)
    requires !Stuck(s)
    ensures !StuckEt(s, e)
  {
  }

  lemma StillUnstuck(s: Store, s1: Store, s': Store, e: ExecutorTaskID)
    requires !Stuck(s) && e in s.ets && OtherStatuses(s, s1, s.ets[e].task) && s'.ets == s.ets - {e}
    requires s.ets[e].task in s'.run.tasks && s'.run.tasks[s.ets[e].task].status.IsFinished()
    requires forall t :: t in s'.run.tasks ==> t in s1.run.tasks && s'.run.tasks[t].status == s1.run.tasks[t].status
    ensures !Stuck(s')
  {
    forall d ensures !StuckEt(s', d) {
      assert !StuckEt(s, d);
    }
  }

  lemma FinishedOnWay(rc: RunConfig, s: Store, s': Store, t: TaskID)
    requires Fine(rc, s) && Leads(rc, s, s') && t in s.run.tasks && s.run.tasks[t].status.IsFinished()
    ensures t in s'.run.tasks && s'.run.tasks[t].status.IsFinished()
  {
    hide Fine, Leads;
    LeadsForward(rc, s, s');
    MovesAt(s.run, s'.run, t);
  }

  /** All executor tasks come to an end. */
  lemma {:induction false} Drain(rc: RunConfig, s: Store) returns (s': Store)
    requires Fine(rc, s) && !Stuck(s)
    ensures Leads(rc, s, s') && Fine(rc, s') && s'.ets == map[]
    ensures s'.run.phase == s.run.phase && s'.run.result == s.run.result
    ensures forall e :: e in s.ets ==> s.ets[e].task in s'.run.tasks && s'.run.tasks[s.ets[e].task].status.IsFinished()
    decreases |s.ets|
  {
    hide *;
    if s.ets == map[] {
      LeadsSelf(rc, s);
      s' := s;
    } else {
      var e :| e in s.ets;
      var s1 := FinishEt(rc, s, e);
      assert s1.ets.Keys == s.ets.Keys - {e};
      assert |s1.ets| == |s1.ets.Keys| < |s.ets.Keys| == |s.ets|;
      s' := Drain(rc, s1);
      LeadsTrans(rc, s, s1, s');
      FinishedOnWay(rc, s1, s', s.ets[e].task);
      forall d | d in s.ets ensures s.ets[d].task in s'.run.tasks && s'.run.tasks[s.ets[d].task].status.IsFinished() {
        if d != e { assert d in s1.ets && s1.ets[d] == s.ets[d]; }
      }
    }
  }

  // ---------------------------------------------------------------- archives and approvals

  lemma FetchAll(rc: RunConfig, s: Store) returns (s': Store)
    requires Fine(rc, s)
    ensures Leads(rc, s, s') && Fine(rc, s') && OnlyFetched(s, s')
    ensures forall t :: !UnfetchedArchive(s'.run, t)
  {
    hide Fine, Leads, OnlyFetchedTask;
    s' := s;
    LeadsSelf(rc, s);
    OnlyFetchedSelf(s);
    var rest := s.run.tasks.Keys;
    while rest != {}
      invariant Leads(rc, s, s') && Fine(rc, s') && OnlyFetched(s, s') && rest <= s.run.tasks.Keys
      invariant forall t :: UnfetchedArchive(s'.run, t) ==> t in rest
      decreases rest
    {
      var t :| t in rest;
      rest := rest - {t};
      var before := s';
      if before.run.tasks[t].status.IsFinished() {
        s' := FetchTask(rc, s, before, t);
        OnlyFetchedTrans(s, before, s');
        forall u | UnfetchedArchive(s'.run, u) ensures u in rest {
          if u !in rest + {t} { StillFetched(before, s', u); }
        }
      }
    }
  }

  lemma StillFetched(s: Store, s': Store, t: TaskID)
    requires OnlyFetched(s, s') && !UnfetchedArchive(s.run, t)
    ensures !UnfetchedArchive(s'.run, t)
  {
    if t in s.run.tasks { assert OnlyFetchedTask(s.run.tasks[t], s'.run.tasks[t]); }
  }

  /** The same run but for approvals. */
  ghost predicate OnlyApproved(s: Store, s': Store) {
    && s'.ets == s.ets && s'.run.phase == s.run.phase && s'.run.result == s.run.result
    && s'.run.tasks.Keys == s.run.tasks.Keys
    && forall t :: t in s.run.tasks ==>
         var a, b := s.run.tasks[t], s'.run.tasks[t];
         && b == a.(approved := b.approved, waitingApproval := b.waitingApproval)
         && (WaitsForApproval(s.run, t) ==> b == a || b.approved)
         && (a.approved ==> b.approved)
  }

  lemma ApprovedTrans(a: Store, b: Store, c: Store)
    requires OnlyApproved(a, b) && OnlyApproved(b, c)
    ensures OnlyApproved(a, c)
  {
  }

  lemma ApproveOne(rc: RunConfig, s0: Store, s: Store, t: TaskID) returns (s': Store)
    requires Leads(rc, s0, s) && Fine(rc, s) && WaitsForApproval(s.run, t)
    ensures Leads(rc, s0, s') && Fine(rc, s') && OnlyApproved(s, s') && !WaitsForApproval(s'.run, t)
    ensures forall u :: WaitsForApproval(s'.run, u) ==> WaitsForApproval(s.run, u)
  {
    hide Fine, Leads, RunMoves;
    FineParts(rc, s);
    s' := Go(rc, s0, s, Approve(t));
  }

  lemma ApproveAll(rc: RunConfig, s: Store) returns (s': Store)
    requires Fine(rc, s)
    ensures Leads(rc, s, s') && Fine(rc, s') && OnlyApproved(s, s')
    ensures forall t :: !WaitsForApproval(s'.run, t)
  {
    hide Fine, Leads, OnlyApproved;
    s' := s;
    LeadsSelf(rc, s);
    ApprovedSelf(s);
    var rest := s.run.tasks.Keys;
    while rest != {}
      invariant Leads(rc, s, s') && Fine(rc, s') && OnlyApproved(s, s')
      invariant forall t :: WaitsForApproval(s'.run, t) ==> t in rest
      decreases rest
    {
      var t :| t in rest;
      rest := rest - {t};
      var before := s';
      if WaitsForApproval(before.run, t) {
        s' := ApproveOne(rc, s, before, t);
        ApprovedTrans(s, before, s');
      }
    }
  }

  lemma ApprovedSelf(s: Store)
    ensures OnlyApproved(s, s)
  {
  }

  // ---------------------------------------------------------------- a settled state

  /** Nothing is left to do but to schedule. */
  ghost predicate Settled(s: Store) {
    s.ets == map[] && (forall t :: !UnfetchedArchive(s.run, t)) && forall t :: !WaitsForApproval(s.run, t)
  }

  lemma Settle(rc: RunConfig, s: Store) returns (s': Store)
    requires Fine(rc, s) && !Stuck(s)
    ensures Leads(rc, s, s') && Fine(rc, s') && Settled(s')
    ensures s'.run.phase == s.run.phase && s'.run.result == s.run.result
    ensures forall e :: e in s.ets ==> s.ets[e].task in s'.run.tasks && s'.run.tasks[s.ets[e].task].status.IsFinished()
    ensures forall t :: WaitsForApproval(s.run, t) ==> t in s'.run.tasks && s'.run.tasks[t].approved
  {
    hide Fine, Leads, OnlyFetched, UnfetchedArchive, WaitsForApproval, Stuck;
    var s1 := ApproveAll(rc, s);
    ApprovedUnstuck(s, s1);
    var s2 := Drain(rc, s1);
    var s3 := FetchAll(rc, s2);
    s' := ApproveAll(rc, s3);
    LeadsTrans(rc, s, s1, s2);
    LeadsTrans(rc, s2, s3, s');
    LeadsTrans(rc, s, s2, s');
    LeadsTrans(rc, s1, s2, s');
    FetchedSame(s2, s3);
    forall t ensures !UnfetchedArchive(s'.run, t) { ApprovedFetched(s3, s', t); }
    forall e | e in s.ets ensures s.ets[e].task in s'.run.tasks && s'.run.tasks[s.ets[e].task].status.IsFinished() {
      FinishedOnWay(rc, s2, s', s.ets[e].task);
    }
    forall t | WaitsForApproval(s.run, t) ensures t in s'.run.tasks && s'.run.tasks[t].approved {
      WaitingApproved(s, s1, t);
      ApprovedOnWay(rc, s1, s', t);
    }
  }

  lemma ApprovedUnstuck(s: Store, s': Store)
    requires OnlyApproved(s, s') && !Stuck(s)
    ensures !Stuck(s')
  {
    forall e ensures !StuckEt(s', e) { assert !StuckEt(s, e); }
  }

  lemma FetchedSame(s: Store, s': Store)
    requires OnlyFetched(s, s')
    ensures s'.ets == s.ets && s'.run.phase == s.run.phase && s'.run.result == s.run.result
  {
  }

  lemma ApprovedFetched(s: Store, s': Store, t: TaskID)
    requires OnlyApproved(s, s') && !UnfetchedArchive(s.run, t)
    ensures !UnfetchedArchive(s'.run, t)
  {
  }

  lemma WaitingApproved(s: Store, s': Store, t: TaskID)
    requires OnlyApproved(s, s') && WaitsForApproval(s.run, t) && !WaitsForApproval(s'.run, t)
    ensures t in s'.run.tasks && s'.run.tasks[t].approved
  {
  }

  lemma ApprovedOnWay(rc: RunConfig, s: Store, s': Store, t: TaskID)
    requires Fine(rc, s) && Leads(rc, s, s') && t in s.run.tasks && s.run.tasks[t].approved
    ensures t in s'.run.tasks && s'.run.tasks[t].approved
  {
    hide Fine, Leads;
    LeadsForward(rc, s, s');
    assert TaskMoves(s.run.tasks[t], s'.run.tasks[t]);
  }

  // ---------------------------------------------------------------- one more scheduling step

  /** Accepts every task of the config. */
  lemma WillingExecutor(rc: RunConfig) returns (x: Executor)
    ensures forall t, counts :: t in rc ==> Accepts(x, counts, rc[t])
  {
    var archs := ListOfSet(set t | t in rc :: rc[t].runtime.arch);
    x := Executor(ExecutorID("willing"), true, true, archs, 0, 0);
    forall t, counts | t in rc ensures Accepts(x, counts, rc[t]) {
      assert rc[t].runtime.arch in Elements(archs);
    }
  }

  lemma {:induction false} ListOfSet<T(!new)>(s: set<T>) returns (l: seq<T>)
    ensures Elements(l) == s && NoDuplicates(l)
  {
    if s == {} {
      l := [];
    } else {
      var x :| x in s;
      var rest := ListOfSet(s - {x});
      l := rest + [x];
      ElementsAppend(rest, x);
      forall i, j | 0 <= i < j < |l| ensures l[i] != l[j] {
        if j == |rest| { assert rest[i] in Elements(rest); }
      }
    }
  }

  function Zeros(n: nat): (s: string)
    ensures |s| == n
  {
    seq(n, _ => '0')
  }

  /** A length that no issued id reaches. */
  lemma {:induction false} LongerThanAll(ids: set<ExecutorTaskID>) returns (n: nat)
    ensures forall e :: e in ids ==> |e.uuid| < n
    decreases |ids|
  {
    if ids == {} {
      n := 0;
    } else {
      var e :| e in ids;
      var m := LongerThanAll(ids - {e});
      n := if |e.uuid| < m then m else |e.uuid| + 1;
    }
  }

  /** An offer with an executor that accepts every task of the config. */
  ghost predicate Willing(rc: RunConfig, o: Offer) {
    |o.executors| > 0 && forall t, counts :: t in rc ==> Accepts(o.executors[0], counts, rc[t])
  }

  function OfferOf(x: Executor, length: nat): (o: Offer)
    ensures |o.id.uuid| == length && o.executors == [x]
  {
    Offer([x], map[], ExecutorTaskID(Zeros(length)), true)
  }

  lemma {:induction false} WillingOffers(rc: RunConfig, s: Store, n: nat) returns (offers: seq<Offer>)
    ensures |offers| == n && FreshOffers(s, offers)
    ensures forall o :: o in offers ==> Willing(rc, o)
  {
    hide OfferOf, Accepts;
    var x := WillingExecutor(rc);
    var l := LongerThanAll(s.issued);
    offers := [];
    for i := 0 to n
      invariant |offers| == i && FreshOffers(s, offers)
      invariant forall o :: o in offers ==> Willing(rc, o) && |o.id.uuid| < l + i
    {
      offers := offers + [OfferOf(x, l + i)];
    }
  }

  /** Scheduling a settled run with willing executors changes it or submits a task. */
  lemma ScheduleMoves(rc: RunConfig, s: Store) returns (s': Store, order: seq<TaskID>, offers: seq<Offer>)
    requires Fine(rc, s) && Settled(s) && s.run.phase.Running? && Acyclic(DependGraph(rc))
    ensures SerialEnabled(rc, s, Schedule(order, offers)) && s' == SerialNext(rc, s, Schedule(order, offers))
    ensures s'.run != s.run || s'.submitted != s.submitted
  {
    hide Fine, Acyclic, Committed, FreshOffers, Runnable, TasksToRun, SerialInv, UnfetchedArchive, WaitsForApproval, Submissions, Willing;
    var s1 := Committed(rc, s, s);
    order := ListOfSet(if s1.run.phase.Running? then TasksToRun(rc, s1.run) else {});
    offers := WillingOffers(rc, s1, |order|);
    s' := SerialNext(rc, s, Schedule(order, offers));
    FineParts(rc, s);
    NobodyRefuses(rc, s, order, offers);
    if s'.run == s.run && s'.submitted == s.submitted {
      StuckHasReason(rc, s, order, offers);
    }
  }

  lemma NobodyRefuses(rc: RunConfig, s: Store, order: seq<TaskID>, offers: seq<Offer>)
    requires Settled(s)
    requires forall o :: o in offers ==> Willing(rc, o)
    ensures !HasReason(rc, s, order, offers)
  {
    hide Committed, Accepts, UnfetchedArchive, WaitsForApproval;
    forall k | 0 <= k < |order| && k < |offers| ensures !Refused(rc, Committed(rc, s, s), order[k], offers[k]) {
      var t, o := order[k], offers[k];
      assert Willing(rc, o);
      if t in rc { assert Accepts(o.executors[0], CountsOf(Committed(rc, s, s).ets, o), rc[t]); }
    }
  }

  // ---------------------------------------------------------------- what a scheduling step achieves

  /** What is submitted comes from the list of tasks to run. */
  lemma {:induction false} SubmissionsFromOrder(rc: RunConfig, s: Store, order: seq<TaskID>, offers: seq<Offer>)
    requires |offers| == |order|
    ensures forall t :: t in Submissions(rc, s, order, offers).submitted ==> t in s.submitted || t in order
    ensures s.submitted <= Submissions(rc, s, order, offers).submitted
    decreases |order|
  {
    hide EtTasks, Chosen, CountsOf;
    if order != [] {
      SubmissionsFromOrder(rc, s, order[1..], offers[1..]);
      assert order == [order[0]] + order[1..];
      if order[0] in rc {
        var x := Chosen(offers[0].executors, CountsOf(s.ets, offers[0]), rc[order[0]]);
        if x.Some? { SubmissionsFromOrder(rc, Submitted(s, order[0], offers[0].id, x.value), order[1..], offers[1..]); }
      }
    }
  }

  /** After a submission some executor task is stored for a task that has not finished. */
  ghost predicate UnfinishedEt(s: Store, e: ExecutorTaskID) {
    e in s.ets && s.ets[e].task in s.run.tasks && !s.run.tasks[s.ets[e].task].status.IsFinished()
  }

  lemma SubmissionLeavesEt(rc: RunConfig, s: Store, order: seq<TaskID>, offers: seq<Offer>) returns (e: ExecutorTaskID)
    requires Fine(rc, s) && SerialEnabled(rc, s, Schedule(order, offers))
    requires var s' := SerialNext(rc, s, Schedule(order, offers)); s'.submitted != s.submitted && SerialInv(rc, s')
    ensures e in SerialNext(rc, s, Schedule(order, offers)).ets && UnfinishedEt(SerialNext(rc, s, Schedule(order, offers)), e)
  {
    hide Committed, Runnable, Submissions, FreshOffers, EtTasks, Inv;
    var s1, s' := Committed(rc, s, s), SerialNext(rc, s, Schedule(order, offers));
    PhaseAfterCommit(rc, s);
    RunnableInOrder(rc, s1, order, offers);
    SubmissionsFromOrder(rc, s1, order, offers);
    SubmissionsGrow(rc, s1, order, offers);
    var k := |s.submitted|;
    var t := s'.submitted[k];
    assert t in order by { LastIsNew(s'.submitted, k, s.submitted, order); }
    RunnableNotStarted(rc, s1.run, t);
    e := EtOf(s'.ets, t);
  }

  lemma LastIsNew(l: seq<TaskID>, k: nat, before: seq<TaskID>, order: seq<TaskID>)
    requires before <= l && NoDuplicates(l) && k == |before| < |l| && forall t :: t in l ==> t in before || t in order
    ensures l[k] in order
  {
    assert forall i :: 0 <= i < k ==> before[i] == l[i];
  }

  lemma RunnableNotStarted(rc: RunConfig, r: Run, t: TaskID)
    requires Runnable(rc, r, t)
    ensures t in r.tasks && r.tasks[t].status.NotStarted?
  {
  }

  lemma EtOf(ets: map<ExecutorTaskID, ExecutorTask>, t: TaskID) returns (e: ExecutorTaskID)
    requires t in EtTasks(ets)
    ensures e in ets && ets[e].task == t
  {
    e :| e in ets && ets[e].task == t;
  }

  /** A task that a commit leads on: it is over, or it now waits for an approval it does not have. */
  ghost predicate LedOn(a: Run, b: Run, t: TaskID) {
    && t in a.tasks && t in b.tasks
    && ((!a.tasks[t].status.IsFinished() && b.tasks[t].status.IsFinished()) || (WaitsForApproval(b, t) && !b.tasks[t].approved))
  }

  lemma AdvancedTaskChange(rc: RunConfig, r: Run, t: TaskID)
    requires Fits(rc, r) && t in r.tasks && AdvancedTask(rc, r, {}, t) != r.tasks[t]
    ensures LedOn(r, AdvancedTasks(rc, r, {}), t)
  {
    hide ParentsDone, DependsMatch;
  }

  lemma CommitChange(rc: RunConfig, s: Store)
    requires Fits(rc, s.run) && s.run.phase.Running? && s.ets == map[]
    requires var r := Committed(rc, s, s).run; r != s.run && r.phase.Running?
    ensures var r := Committed(rc, s, s).run; (!s.run.result.IsSet() && r.result.IsSet()) || exists t :: LedOn(s.run, r, t)
  {
    hide AdvancedTask, HasFatalTask, AllFinished, LedOn, FetchSkipped;
    assert EtTasks(s.ets) == {};
    var r := AdvancedRun(rc, s.run, false);
    if r == s.run {
      var r' := AdvancedTasks(rc, r, {});
      assert Committed(rc, s, s).run == r';
      assert (forall t :: t in r.tasks ==> AdvancedTask(rc, r, {}, t) == r.tasks[t]) ==> r'.tasks == r.tasks;
      var t :| t in r.tasks && AdvancedTask(rc, r, {}, t) != r.tasks[t];
      AdvancedTaskChange(rc, r, t);
    }
  }

  // ---------------------------------------------------------------- the measure

  ghost function Unfinished(r: Run): set<TaskID> {
    set t | t in r.tasks && !r.tasks[t].status.IsFinished()
  }

  ghost function Unapproved(r: Run): set<TaskID> {
    set t | t in r.tasks && !r.tasks[t].approved
  }

  ghost predicate Less(a: Run, b: Run) {
    || (a.result.IsSet() && !b.result.IsSet())
    || (a.result.IsSet() == b.result.IsSet()
        && (|Unfinished(a)| < |Unfinished(b)| || (|Unfinished(a)| == |Unfinished(b)| && |Unapproved(a)| < |Unapproved(b)|)))
  }

  lemma ForwardShrinks(a: Run, b: Run)
    requires RunMoves(a, b)
    ensures Unfinished(b) <= Unfinished(a) && Unapproved(b) <= Unapproved(a)
    ensures |Unfinished(b)| <= |Unfinished(a)| && |Unapproved(b)| <= |Unapproved(a)|
    ensures a.result.IsSet() ==> b.result.IsSet()
  {
    forall t | t in b.tasks ensures TaskMoves(a.tasks[t], b.tasks[t]) { }
    SubsetSize(Unfinished(b), Unfinished(a));
    SubsetSize(Unapproved(b), Unapproved(a));
  }

  lemma FinishingShrinks(a: Run, b: Run, t: TaskID)
    requires RunMoves(a, b) && t in a.tasks && !a.tasks[t].status.IsFinished() && b.tasks[t].status.IsFinished()
    ensures Less(b, a)
  {
    ForwardShrinks(a, b);
    assert t in Unfinished(a) && t !in Unfinished(b);
    SubsetSize(Unfinished(b), Unfinished(a));
  }

  lemma ApprovingShrinks(a: Run, b: Run, t: TaskID)
    requires RunMoves(a, b) && t in a.tasks && !a.tasks[t].approved && b.tasks[t].approved
    ensures Less(b, a)
  {
    ForwardShrinks(a, b);
    assert t in Unapproved(a) && t !in Unapproved(b);
    SubsetSize(Unapproved(b), Unapproved(a));
  }

  lemma ResultShrinks(a: Run, b: Run)
    requires !a.result.IsSet() && b.result.IsSet()
    ensures Less(b, a)
  {
  }

  // ---------------------------------------------------------------- rounds

  /** One round: schedule, then settle again. The run finishes, or it comes closer to its end. */
  lemma Round(rc: RunConfig, s: Store) returns (s': Store)
    requires Fine(rc, s) && Settled(s) && s.run.phase.Running? && Acyclic(DependGraph(rc))
    ensures Leads(rc, s, s') && Fine(rc, s')
    ensures s'.run.phase.Finished? || (s'.run.phase.Running? && Settled(s') && Less(s'.run, s.run))
  {
    hide *;
    var s1, order, offers := ScheduleMoves(rc, s);
    LeadsSelf(rc, s);
    ScheduleIsOrderly(s, order, offers);
    LeadsStep(rc, s, s, Schedule(order, offers));
    StepStaysFine(rc, s, Schedule(order, offers));
    RunningOrFinished(s.run, s1.run);
    if s1.run.phase.Finished? {
      s' := s1;
    } else {
      ScheduledUnstuck(rc, s, order, offers);
      s' := Settle(rc, s1);
      LeadsTrans(rc, s, s1, s');
      LeadsForward(rc, s1, s');
      LeadsForward(rc, s, s');
      if s1.submitted != s.submitted {
        FineParts(rc, s1);
        var e := SubmissionLeavesEt(rc, s, order, offers);
        SubmittedShrinks(s, s1, s', e);
      } else {
        ChangedShrinks(rc, s, order, offers, s1, s');
      }
    }
  }

  lemma ScheduleIsOrderly(s: Store, order: seq<TaskID>, offers: seq<Offer>)
    ensures Orderly(s, Schedule(order, offers))
  {
  }

  lemma {:induction false} SubmissionsNotStarted(rc: RunConfig, s: Store, order: seq<TaskID>, offers: seq<Offer>)
    requires |offers| == |order| && forall e :: e in s.ets ==> s.ets[e].phase.NotStarted?
    ensures forall e :: e in Submissions(rc, s, order, offers).ets ==> Submissions(rc, s, order, offers).ets[e].phase.NotStarted?
    decreases |order|
  {
    hide EtTasks, Chosen, CountsOf;
    if order != [] {
      SubmissionsNotStarted(rc, s, order[1..], offers[1..]);
      if order[0] in rc {
        var x := Chosen(offers[0].executors, CountsOf(s.ets, offers[0]), rc[order[0]]);
        if x.Some? { SubmissionsNotStarted(rc, Submitted(s, order[0], offers[0].id, x.value), order[1..], offers[1..]); }
      }
    }
  }

  lemma ScheduledUnstuck(rc: RunConfig, s: Store, order: seq<TaskID>, offers: seq<Offer>)
    requires Settled(s) && SerialEnabled(rc, s, Schedule(order, offers))
    ensures !Stuck(SerialNext(rc, s, Schedule(order, offers)))
  {
    hide Committed, Submissions;
    PhaseAfterCommit(rc, s);
    assert Committed(rc, s, s).ets.Keys == {};
    SubmissionsNotStarted(rc, Committed(rc, s, s), order, offers);
  }

  lemma RunningOrFinished(a: Run, b: Run)
    requires RunMoves(a, b) && a.phase.Running?
    ensures b.phase.Running? || b.phase.Finished?
  {
  }

  lemma SubmittedShrinks(s: Store, s1: Store, s': Store, e: ExecutorTaskID)
    requires RunMoves(s.run, s1.run) && RunMoves(s.run, s'.run) && UnfinishedEt(s1, e)
    requires s1.ets[e].task in s'.run.tasks && s'.run.tasks[s1.ets[e].task].status.IsFinished()
    ensures Less(s'.run, s.run)
  {
    hide RunMoves, Less;
    KeysOnWay(s.run, s1.run);
    MovesAt(s.run, s1.run, s1.ets[e].task);
    FinishingShrinks(s.run, s'.run, s1.ets[e].task);
  }

  lemma KeysOnWay(a: Run, b: Run)
    requires RunMoves(a, b)
    ensures a.tasks.Keys == b.tasks.Keys
    ensures forall t :: t in a.tasks && a.tasks[t].approved ==> b.tasks[t].approved
  {
    forall t | t in a.tasks ensures TaskMoves(a.tasks[t], b.tasks[t]) { }
  }

  lemma ChangedShrinks(rc: RunConfig, s: Store, order: seq<TaskID>, offers: seq<Offer>, s1: Store, s': Store)
    requires Fine(rc, s) && Settled(s) && s.run.phase.Running? && SerialEnabled(rc, s, Schedule(order, offers))
    requires s1 == SerialNext(rc, s, Schedule(order, offers)) && s1.run != s.run && s1.run.phase.Running?
    requires RunMoves(s.run, s1.run) && RunMoves(s1.run, s'.run) && RunMoves(s.run, s'.run) && s'.run.result == s1.run.result
    requires forall t :: WaitsForApproval(s1.run, t) ==> t in s'.run.tasks && s'.run.tasks[t].approved
    ensures Less(s'.run, s.run)
  {
    hide Fine, RunMoves, Less, Committed, GoodSchedule, Submissions, LedOn;
    FineParts(rc, s);
    assert |offers| == |order| by { ScheduleSizes(rc, s, order, offers); }
    SubmissionsGrow(rc, Committed(rc, s, s), order, offers);
    CommitChange(rc, s);
    if !s.run.result.IsSet() && s1.run.result.IsSet() {
      ResultShrinks(s.run, s'.run);
    } else {
      var t :| LedOn(s.run, s1.run, t);
      LedOnShrinks(s, s1, s', t);
    }
  }

  lemma ScheduleSizes(rc: RunConfig, s: Store, order: seq<TaskID>, offers: seq<Offer>)
    requires SerialEnabled(rc, s, Schedule(order, offers))
    ensures |offers| == |order|
  {
  }

  lemma LedOnShrinks(s: Store, s1: Store, s': Store, t: TaskID)
    requires RunMoves(s.run, s1.run) && RunMoves(s1.run, s'.run) && RunMoves(s.run, s'.run) && LedOn(s.run, s1.run, t)
    requires WaitsForApproval(s1.run, t) ==> t in s'.run.tasks && s'.run.tasks[t].approved
    ensures Less(s'.run, s.run)
  {
    hide RunMoves, Less, WaitsForApproval;
    KeysOnWay(s.run, s1.run);
    KeysOnWay(s1.run, s'.run);
    if !s.run.tasks[t].status.IsFinished() && s1.run.tasks[t].status.IsFinished() {
      MovesAt(s1.run, s'.run, t);
      FinishingShrinks(s.run, s'.run, t);
    } else {
      ApprovingShrinks(s.run, s'.run, t);
    }
  }

  lemma {:induction false} Rounds(rc: RunConfig, s: Store) returns (s': Store)
    requires Fine(rc, s) && Settled(s) && s.run.phase.Running? && Acyclic(DependGraph(rc))
    ensures Leads(rc, s, s') && s'.run.phase.Finished?
    decreases !s.run.result.IsSet(), |Unfinished(s.run)|, |Unapproved(s.run)|
  {
    hide Fine, Settled, Acyclic, Leads;
    s' := Round(rc, s);
    if !s'.run.phase.Finished? {
      var s1 := s';
      s' := Rounds(rc, s1);
      LeadsTrans(rc, s, s1, s');
    }
  }

  /** The run `b`, `ms` is continued after state `i` with orderly executors, until the run is finished. */
  ghost predicate Completes(rc: RunConfig, b: seq<Store>, i: nat, b': seq<Store>, ms': seq<SerialMove>) {
    && i < |b| && SerialRun(rc, b', ms') && b[..i + 1] <= b' && |b'| == |ms'| + 1 && b'[|b'| - 1].run.phase.Finished?
    && forall k :: i <= k < |ms'| ==> Orderly(b'[k], ms'[k])
  }

  /** The same, asking of executors only that they keep final phases. */
  ghost predicate CompletesAnyhow(rc: RunConfig, b: seq<Store>, i: nat, b': seq<Store>, ms': seq<SerialMove>) {
    && i < |b| && SerialRun(rc, b', ms') && b[..i + 1] <= b' && |b'| == |ms'| + 1 && b'[|b'| - 1].run.phase.Finished?
    && forall k :: i <= k < |ms'| ==> KeepsFinal(b'[k], ms'[k])
  }

  /** From every state of a serial run of an acyclic config that is queued or running and not stuck,
      there is a continuation in which the run finishes. */
  lemma CanFinish(rc: RunConfig, b: seq<Store>, ms: seq<SerialMove>, i: nat)
      returns (b': seq<Store>, ms': seq<SerialMove>)
    requires SerialRun(rc, b, ms) && i < |b| && Acyclic(DependGraph(rc)) && !Stuck(b[i])
    requires b[i].run.phase.Queued? || b[i].run.phase.Running?
    ensures Completes(rc, b, i, b', ms')
  {
    hide Fine, Settled, Acyclic, Leads, SerialRun, IsWay, Stuck;
    RunIsFine(rc, b, ms, i);
    LeadsSelf(rc, b[i]);
    var s := b[i];
    if s.run.phase.Queued? {
      s := Go(rc, b[i], s, Start);
      StartUnstuck(b[i], s);
    }
    var s1 := Settle(rc, s);
    var s2 := Rounds(rc, s1);
    LeadsTrans(rc, s, s1, s2);
    LeadsTrans(rc, b[i], s, s2);
    var c, ns := WayOf(rc, b[i], s2);
    b', ms' := JoinWay(rc, b, ms, i, c, ns, s2);
  }

  lemma StartUnstuck(s: Store, s': Store)
    requires !Stuck(s) && s'.ets == s.ets && s'.run.tasks == s.run.tasks
    ensures !Stuck(s')
  {
    forall e ensures !StuckEt(s', e) { assert !StuckEt(s, e); }
  }

  /** As long as final phases are kept, no step gets a stuck run out of its state. */
  lemma StuckStep(rc: RunConfig, s: Store, m: SerialMove, e: ExecutorTaskID)
    requires SerialInv(rc, s) && SerialEnabled(rc, s, m) && KeepsFinal(s, m) && StuckEt(s, e)
    ensures StuckEt(SerialNext(rc, s, m), e)
  {
    match m
    case Single(a) => StuckSingle(rc, s, a, e);
    case Schedule(order, offers) => StuckSchedule(rc, s, order, offers, e);
  }

  lemma StuckSingle(rc: RunConfig, s: Store, a: Action, e: ExecutorTaskID)
    requires SerialInv(rc, s) && !a.Commit? && !a.Submit? && Enabled(rc, s, s, a) && KeepsFinal(s, Single(a)) && StuckEt(s, e)
    ensures StuckEt(Next(rc, s, s, a), e)
  {
    hide TasksConsistent, DependencySafe, ResultExplained, EventsFollow, NoDuplicates;
  }

  lemma StuckSchedule(rc: RunConfig, s: Store, order: seq<TaskID>, offers: seq<Offer>, e: ExecutorTaskID)
    requires SerialInv(rc, s) && SerialEnabled(rc, s, Schedule(order, offers)) && StuckEt(s, e)
    ensures StuckEt(SerialNext(rc, s, Schedule(order, offers)), e)
  {
    hide SerialInv, ScheduledRun, Runnable, Submissions, NoDuplicates;
    SerialInvParts(rc, s);
    var s1 := Committed(rc, s, s);
    ScheduledRunMoves(rc, s);
    MovesAt(s.run, s1.run, s.ets[e].task);
    assert StuckEt(s1, e);
    SubmissionsGrow(rc, s1, order, offers);
    SubmissionsKeepEt(rc, s1, order, offers, e);
  }

  /** Submissions leave the stored executor tasks alone: their ids are new. */
  lemma {:induction false} SubmissionsKeepEt(rc: RunConfig, s: Store, order: seq<TaskID>, offers: seq<Offer>, e: ExecutorTaskID)
    requires |offers| == |order| && e in s.ets && forall o :: o in offers ==> o.id != e
    ensures e in Submissions(rc, s, order, offers).ets && Submissions(rc, s, order, offers).ets[e] == s.ets[e]
    decreases |order|
  {
    hide EtTasks, Chosen, CountsOf;
    if order != [] {
      SubmissionsKeepEt(rc, s, order[1..], offers[1..], e);
      assert offers[0] in offers;
      if order[0] in rc {
        var x := Chosen(offers[0].executors, CountsOf(s.ets, offers[0]), rc[order[0]]);
        if x.Some? { SubmissionsKeepEt(rc, Submitted(s, order[0], offers[0].id, x.value), order[1..], offers[1..], e); }
      }
    }
  }

  lemma {:induction false} StuckForever(rc: RunConfig, b: seq<Store>, ms: seq<SerialMove>, i: nat, j: nat, e: ExecutorTaskID)
    requires SerialRun(rc, b, ms) && i <= j < |b| && |b| == |ms| + 1 && StuckEt(b[i], e)
    requires forall k :: i <= k < j ==> KeepsFinal(b[k], ms[k])
    ensures StuckEt(b[j], e) && !b[j].run.phase.Finished?
    decreases j - i
  {
    hide SerialEnabled, SerialNext, Init, SerialInv, RunMoves, StuckEt, KeepsFinal;
    SerialReached(rc, b, ms, j, j);
    if i < j {
      StuckForever(rc, b, ms, i, j - 1, e);
      SerialReached(rc, b, ms, j - 1, j - 1);
      assert KeepsFinal(b[j - 1], ms[j - 1]);
      StuckStep(rc, b[j - 1], ms[j - 1], e);
    }
    StuckIsUnfinished(rc, b[j], e);
  }

  lemma StuckIsUnfinished(rc: RunConfig, s: Store, e: ExecutorTaskID)
    requires SerialInv(rc, s) && StuckEt(s, e)
    ensures !s.run.phase.Finished?
  {
    hide TasksConsistent, DependencySafe, OneEtPerTask, EventsFollow, NoDuplicates;
  }

  /** Exactly then: with executors that keep final phases, a queued or running run of an acyclic config
      can still finish if and only if it is not stuck. */
  lemma CanFinishExactly(rc: RunConfig, b: seq<Store>, ms: seq<SerialMove>, i: nat)
    requires SerialRun(rc, b, ms) && i < |b| && Acyclic(DependGraph(rc))
    requires b[i].run.phase.Queued? || b[i].run.phase.Running?
    ensures (exists b', ms' :: CompletesAnyhow(rc, b, i, b', ms')) <==>
            !exists e :: e in b[i].ets && b[i].ets[e].phase == ExecutorTaskPhase.Cancelled && b[i].ets[e].task in b[i].run.tasks
                         && b[i].run.tasks[b[i].ets[e].task].status == TaskStatus.Running
  {
    StuckMeans(b[i]);
    hide SerialRun, Acyclic, Orderly, KeepsFinal, StuckEt;
    if Stuck(b[i]) {
      var e :| StuckEt(b[i], e);
      forall b', ms' ensures !CompletesAnyhow(rc, b, i, b', ms') {
        if CompletesAnyhow(rc, b, i, b', ms') {
          assert b'[i] == b[..i + 1][i] == b[i];
          StuckForever(rc, b', ms', i, |b'| - 1, e);
        }
      }
    } else {
      var b', ms' := CanFinish(rc, b, ms, i);
      forall k | i <= k < |ms'| ensures KeepsFinal(b'[k], ms'[k]) { OrderlyKeepsFinal(b'[k], ms'[k]); }
      assert CompletesAnyhow(rc, b, i, b', ms');
    }
  }

  // ---------------------------------------------------------------- orderly executors

  /** The executor task of a running task has started, and was not cancelled. */
  ghost predicate PhasesFit(s: Store) {
    forall e :: e in s.ets && s.ets[e].task in s.run.tasks && s.run.tasks[s.ets[e].task].status.Running? ==>
                  !s.ets[e].phase.NotStarted? && !s.ets[e].phase.Cancelled?
  }

  lemma PhasesSingle(rc: RunConfig, s: Store, a: Action)
    requires SerialInv(rc, s) && PhasesFit(s) && !a.Commit? && !a.Submit? && Enabled(rc, s, s, a) && Orderly(s, Single(a))
    ensures PhasesFit(Next(rc, s, s, a))
  {
    hide TasksConsistent, DependencySafe, ResultExplained, EventsFollow, NoDuplicates;
  }

  lemma CommitEts(rc: RunConfig, s: Store)
    ensures Committed(rc, s, s).ets.Keys == s.ets.Keys && Committed(rc, s, s).run == ScheduledRun(rc, s)
    ensures forall e :: e in s.ets ==>
              Committed(rc, s, s).ets[e].task == s.ets[e].task && Committed(rc, s, s).ets[e].phase == s.ets[e].phase
  {
    hide ScheduledRun;
  }

  lemma PhasesCommit(rc: RunConfig, s: Store)
    requires SerialInv(rc, s) && PhasesFit(s)
    ensures PhasesFit(Committed(rc, s, s))
  {
    hide SerialInv, ScheduledRun, Committed, RunMoves;
    SerialInvParts(rc, s);
    ScheduledRunMoves(rc, s);
    SameTaskKeys(s.run, ScheduledRun(rc, s));
    CommitEts(rc, s);
  }

  lemma SameTaskKeys(a: Run, b: Run)
    requires RunMoves(a, b)
    ensures a.tasks.Keys == b.tasks.Keys
  {
  }

  lemma {:induction false} PhasesSubmissions(rc: RunConfig, s: Store, order: seq<TaskID>, offers: seq<Offer>)
    requires |offers| == |order| && PhasesFit(s)
    requires forall i :: 0 <= i < |order| ==> order[i] in s.run.tasks && s.run.tasks[order[i]].status.NotStarted?
    ensures PhasesFit(Submissions(rc, s, order, offers))
    decreases |order|
  {
    hide EtTasks, Chosen, CountsOf;
    if order != [] {
      PhasesSubmissions(rc, s, order[1..], offers[1..]);
      if order[0] in rc {
        var x := Chosen(offers[0].executors, CountsOf(s.ets, offers[0]), rc[order[0]]);
        if x.Some? { PhasesSubmissions(rc, Submitted(s, order[0], offers[0].id, x.value), order[1..], offers[1..]); }
      }
    }
  }

  lemma PhasesStep(rc: RunConfig, s: Store, m: SerialMove)
    requires SerialInv(rc, s) && PhasesFit(s) && SerialEnabled(rc, s, m) && Orderly(s, m)
    ensures PhasesFit(SerialNext(rc, s, m))
  {
    hide SerialInv, PhasesFit, Enabled, Next, Committed, Submissions, FreshOffers, Runnable;
    match m
    case Single(a) => PhasesSingle(rc, s, a);
    case Schedule(order, offers) =>
      var s1 := Committed(rc, s, s);
      PhasesCommit(rc, s);
      RunnableInOrder(rc, s1, order, offers);
      forall i | 0 <= i < |order| ensures order[i] in s1.run.tasks && s1.run.tasks[order[i]].status.NotStarted? {
        RunnableNotStarted(rc, s1.run, order[i]);
      }
      PhasesSubmissions(rc, s1, order, offers);
  }

  /** With orderly executors no run is ever stuck. */
  lemma {:induction false} OrderlyNeverStuck(rc: RunConfig, b: seq<Store>, ms: seq<SerialMove>, i: nat)
    requires SerialRun(rc, b, ms) && i < |b| && |b| == |ms| + 1
    requires forall k :: 0 <= k < i ==> Orderly(b[k], ms[k])
    ensures PhasesFit(b[i]) && !Stuck(b[i])
  {
    hide SerialEnabled, SerialNext, Init, SerialInv, RunMoves, PhasesFit, Orderly, Stuck;
    if i == 0 {
      FirstPhases(rc, b[0]);
    } else {
      OrderlyNeverStuck(rc, b, ms, i - 1);
      SerialReached(rc, b, ms, i - 1, i - 1);
      PhasesStep(rc, b[i - 1], ms[i - 1]);
    }
    PhasesUnstuck(b[i]);
  }

  lemma FirstPhases(rc: RunConfig, s: Store)
    requires Init(rc, s)
    ensures PhasesFit(s)
  {
  }

  lemma PhasesUnstuck(s: Store)
    requires PhasesFit(s)
    ensures !Stuck(s)
  {
  }

  /** So with orderly executors a run can always still finish. */
  lemma OrderlyCanAlwaysFinish(rc: RunConfig, b: seq<Store>, ms: seq<SerialMove>, i: nat)
      returns (b': seq<Store>, ms': seq<SerialMove>)
    requires SerialRun(rc, b, ms) && i < |b| && |b| == |ms| + 1 && Acyclic(DependGraph(rc))
    requires forall k :: 0 <= k < i ==> Orderly(b[k], ms[k])
    requires b[i].run.phase.Queued? || b[i].run.phase.Running?
    ensures Completes(rc, b, i, b', ms')
  {
    hide *;
    OrderlyNeverStuck(rc, b, ms, i);
    b', ms' := CanFinish(rc, b, ms, i);
  }

  lemma WayOf(rc: RunConfig, s: Store, s': Store) returns (b: seq<Store>, ms: seq<SerialMove>)
    requires Leads(rc, s, s')
    ensures IsWay(rc, b, ms, s, s')
  {
    b, ms :| IsWay(rc, b, ms, s, s');
  }

  lemma {:induction false} RunIsFine(rc: RunConfig, b: seq<Store>, ms: seq<SerialMove>, i: nat)
    requires SerialRun(rc, b, ms) && i < |b|
    ensures Fine(rc, b[i])
  {
    hide Fine, SerialEnabled, SerialNext, Init;
    if i == 0 {
      SerialStart(rc, b[0]);
      FirstFlags(rc, b[0]);
    } else {
      RunIsFine(rc, b, ms, i - 1);
      StepStaysFine(rc, b[i - 1], ms[i - 1]);
    }
  }

  lemma FirstFlags(rc: RunConfig, s: Store)
    requires Init(rc, s) && SerialInv(rc, s)
    ensures Fine(rc, s)
  {
    hide SerialInv;
    forall t | t in s.run.tasks ensures !WaitsForApproval(s.run, t) {
      assert s.run.tasks[t] == GenRunTask(rc[t]) || KeptTask(rc, s.run, t);
    }
  }

  lemma JoinWay(rc: RunConfig, b: seq<Store>, ms: seq<SerialMove>, i: nat, c: seq<Store>, ns: seq<SerialMove>, s': Store)
      returns (b': seq<Store>, ms': seq<SerialMove>)
    requires SerialRun(rc, b, ms) && i < |b| && IsWay(rc, c, ns, b[i], s')
    ensures SerialRun(rc, b', ms') && b[..i + 1] <= b' && |b'| == |ms'| + 1 && b'[|b'| - 1] == s'
    ensures forall k :: i <= k < |ms'| ==> Orderly(b'[k], ms'[k])
  {
    hide SerialEnabled, SerialNext, Init, Orderly;
    b', ms' := b[..i + 1] + c[1..], ms[..i] + ns;
    forall k | 0 <= k < |ms'|
      ensures SerialEnabled(rc, b'[k], ms'[k]) && b'[k + 1] == SerialNext(rc, b'[k], ms'[k]) && (k >= i ==> Orderly(b'[k], ms'[k]))
    {
      if k < i {
        assert b'[k] == b[k] && b'[k + 1] == b[k + 1] && ms'[k] == ms[k];
      } else {
        assert b'[k] == c[k - i] && b'[k + 1] == c[k - i + 1] && ms'[k] == ns[k - i];
      }
    }
  }
}
