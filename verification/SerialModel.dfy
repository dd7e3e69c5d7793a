/** The serial model: one scheduleRun of the run is a single step; all other transactions are
    steps of their own and decide from the current state. */
module SerialModel {
  import opened RunTypes
  import opened Graph
  import opened RunConfigs
  import opened Scheduler
  import opened SchedulerLaws
  import opened Executors
  import opened RunStore
  import opened RunSafety
  import opened SplitModel

  /** What one turn of the submission loop meets: the registered executors, the executor tasks of
      other runs per executor, the generated id, and whether sending the task succeeds. */
  datatype Offer = Offer(executors: seq<Executor>, others: map<ExecutorID, nat>, id: ExecutorTaskID, sent: bool)

  datatype SerialMove = Single(action: Action) | Schedule(order: seq<TaskID>, offers: seq<Offer>)

  function StoredFor(ets: map<ExecutorTaskID, ExecutorTask>, x: ExecutorID): nat {
    |set e | e in ets && ets[e].executor == x|
  }

  /** The number of stored executor tasks of each registered executor, over all runs. */
  function CountsOf(ets: map<ExecutorTaskID, ExecutorTask>, o: Offer): map<ExecutorID, nat> {
    var ids := set e | e in o.executors :: e.id;
    map x | x in ids :: StoredFor(ets, x) + if x in o.others then o.others[x] else 0
  }

  /** submitRunTasks: tasks with an executor task are passed over; without an executor, or when
      sending fails, the loop ends. */
  ghost function Submissions(rc: RunConfig, s: Store, order: seq<TaskID>, offers: seq<Offer>): Store
    requires |offers| == |order|
    decreases |order|
  {
    if order == [] then s
    else if order[0] in EtTasks(s.ets) || order[0] !in rc then Submissions(rc, s, order[1..], offers[1..])
    else
      match Chosen(offers[0].executors, CountsOf(s.ets, offers[0]), rc[order[0]])
      case None => s
      case Some(x) =>
        var s' := Submitted(s, order[0], offers[0].id, x);
        if offers[0].sent then Submissions(rc, s', order[1..], offers[1..]) else s'
  }

  lemma NoSubmissions(rc: RunConfig, s: Store)
    ensures Submissions(rc, s, [], []) == s && Elements<TaskID>([]) == {} && NoDuplicates<TaskID>([])
  {
  }

  function Submitted(s: Store, t: TaskID, e: ExecutorTaskID, x: ExecutorID): Store {
    s.(ets := s.ets[e := ExecutorTask(x, t, false, ExecutorTaskPhase.NotStarted, 1)],
       issued := s.issued + {e}, submitted := s.submitted + [t])
  }

  /** The generated ids are new and differ from one another. */
  ghost predicate FreshOffers(s: Store, offers: seq<Offer>) {
    && (forall i :: 0 <= i < |offers| ==> offers[i].id !in s.issued)
    && forall i, j :: 0 <= i < j < |offers| ==> offers[i].id != offers[j].id
  }

  /** `order` lists the tasks to run in some order, each with what its turn will meet. */
  ghost predicate GoodSchedule(rc: RunConfig, committed: Store, order: seq<TaskID>, offers: seq<Offer>) {
    && |offers| == |order| && FreshOffers(committed, offers) && NoDuplicates(order)
    && Elements(order) == if committed.run.phase.Running? then TasksToRun(rc, committed.run) else {}
  }

  ghost predicate SerialEnabled(rc: RunConfig, s: Store, m: SerialMove) {
    match m
    case Single(a) => !a.Commit? && !a.Submit? && Enabled(rc, s, s, a)
    case Schedule(order, offers) => GoodSchedule(rc, Committed(rc, s, s), order, offers)
  }

  ghost function SerialNext(rc: RunConfig, s: Store, m: SerialMove): Store
    requires SerialEnabled(rc, s, m)
  {
    match m
    case Single(a) => Next(rc, s, s, a)
    case Schedule(order, offers) => Submissions(rc, Committed(rc, s, s), order, offers)
  }

  ghost predicate SerialRun(rc: RunConfig, b: seq<Store>, ms: seq<SerialMove>) {
    && |b| == |ms| + 1 && Init(rc, b[0])
    && forall i :: 0 <= i < |ms| ==> SerialEnabled(rc, b[i], ms[i]) && b[i + 1] == SerialNext(rc, b[i], ms[i])
  }

  // ---------------------------------------------------------------- invariants of serial runs

  /** Beyond the invariant of the split model: no task was submitted twice, and executor tasks
      exist only while the run is running. */
  ghost predicate SerialInv(rc: RunConfig, s: Store) {
    && Inv(rc, s) && SubmittedSettled(s)
    && NoDuplicates(s.submitted)
    && (s.ets != map[] ==> s.run.phase.Running?)
  }

  lemma CommittedIsNext(rc: RunConfig, s: Store)
    requires s.ets.Keys <= s.issued
    ensures Enabled(rc, s, s, Commit) && Next(rc, s, s, Commit) == Committed(rc, s, s) && SeenBefore(s, s)
  {
    SeenSelf(s);
  }

  lemma SerialInvParts(rc: RunConfig, s: Store)
    requires SerialInv(rc, s)
    ensures Inv(rc, s) && SubmittedSettled(s) && NoDuplicates(s.submitted) && TasksConsistent(rc, s)
    ensures Fits(rc, s.run) && s.ets.Keys <= s.issued && !s.run.phase.SetupError? && SeenBefore(s, s) && Ready(rc, s, s)
  {
    SeenSelf(s);
  }

  lemma PhaseAfterCommit(rc: RunConfig, s: Store)
    ensures var s' := Committed(rc, s, s);
            s'.ets.Keys == s.ets.Keys && (s.run.phase.Running? && s.ets != map[] ==> s'.run.phase.Running?)
    ensures Committed(rc, s, s).submitted == s.submitted && Committed(rc, s, s).issued == s.issued
  {
    hide AdvancedTask, HasFatalTask, AllFinished;
  }

  lemma CommitKeeps(rc: RunConfig, s: Store)
    requires SerialInv(rc, s)
    ensures SerialInv(rc, Committed(rc, s, s))
  {
    hide *;
    SerialInvParts(rc, s);
    CommittedIsNext(rc, s);
    StepKeeps(rc, s, s, Commit);
    CommitKeepsRest(rc, s);
  }

  lemma CommitKeepsRest(rc: RunConfig, s: Store)
    requires SerialInv(rc, s) && Inv(rc, Committed(rc, s, s)) && SubmittedSettled(Committed(rc, s, s))
    ensures SerialInv(rc, Committed(rc, s, s))
  {
    hide Committed, Inv, SubmittedSettled;
    PhaseAfterCommit(rc, s);
    assert Committed(rc, s, s).ets != map[] ==> s.ets.Keys != {};
  }

  /** One submission, of a task that was ready in the committed run and has no executor task. */
  lemma SubmitKeeps(rc: RunConfig, s: Store, t: TaskID, e: ExecutorTaskID, x: ExecutorID)
    requires SerialInv(rc, s) && s.run.phase.Running? && Runnable(rc, s.run, t) && t !in EtTasks(s.ets) && e !in s.issued
    ensures SerialInv(rc, Submitted(s, t, e, x)) && Submitted(s, t, e, x).run == s.run
  {
    hide Inv, SubmittedSettled, Runnable, EtTasks, Next, SeenBefore;
    SerialInvParts(rc, s);
    SubmittedIsNext(rc, s, t, e, x);
    StepKeeps(rc, s, s, Submit(t, e, x));
    NotSubmittedYet(rc, s, t);
  }

  lemma SubmittedIsNext(rc: RunConfig, s: Store, t: TaskID, e: ExecutorTaskID, x: ExecutorID)
    requires s.run.phase.Running? && Runnable(rc, s.run, t) && t !in EtTasks(s.ets) && e !in s.issued
    ensures Enabled(rc, s, s, Submit(t, e, x)) && Next(rc, s, s, Submit(t, e, x)) == Submitted(s, t, e, x)
  {
  }

  lemma NotSubmittedYet(rc: RunConfig, s: Store, t: TaskID)
    requires SubmittedSettled(s) && Runnable(rc, s.run, t) && t !in EtTasks(s.ets)
    ensures t !in s.submitted
  {
  }

  lemma {:induction false} SubmissionsKeep(rc: RunConfig, s: Store, order: seq<TaskID>, offers: seq<Offer>)
    requires |offers| == |order| && FreshOffers(s, offers)
    requires SerialInv(rc, s) && s.run.phase.Running? && forall i :: 0 <= i < |order| ==> Runnable(rc, s.run, order[i])
    ensures SerialInv(rc, Submissions(rc, s, order, offers)) && Submissions(rc, s, order, offers).run == s.run
    decreases |order|
  {
    hide SerialInv, Runnable, EtTasks, Chosen;
    if order != [] {
      if order[0] in EtTasks(s.ets) || order[0] !in rc {
        SubmissionsKeep(rc, s, order[1..], offers[1..]);
      } else {
        var x := Chosen(offers[0].executors, CountsOf(s.ets, offers[0]), rc[order[0]]);
        if x.Some? {
          SubmitKeeps(rc, s, order[0], offers[0].id, x.value);
          if offers[0].sent {
            SubmissionsKeep(rc, Submitted(s, order[0], offers[0].id, x.value), order[1..], offers[1..]);
          }
        }
      }
    }
  }

  lemma RunnableInOrder(rc: RunConfig, s: Store, order: seq<TaskID>, offers: seq<Offer>)
    requires GoodSchedule(rc, s, order, offers)
    ensures s.run.phase.Running? || order == []
    ensures forall i :: 0 <= i < |order| ==> Runnable(rc, s.run, order[i])
    ensures |offers| == |order| && FreshOffers(s, offers)
  {
    hide Runnable;
    assert forall i :: 0 <= i < |order| ==> order[i] in Elements(order);
    if order != [] { assert order[0] in Elements(order); }
  }

  lemma ScheduleKeeps(rc: RunConfig, s: Store, order: seq<TaskID>, offers: seq<Offer>)
    requires SerialInv(rc, s) && SerialEnabled(rc, s, Schedule(order, offers))
    ensures var s' := SerialNext(rc, s, Schedule(order, offers));
            SerialInv(rc, s') && s'.run == Committed(rc, s, s).run
  {
    hide SerialInv, Committed, GoodSchedule, FreshOffers;
    CommitKeeps(rc, s);
    RunnableInOrder(rc, Committed(rc, s, s), order, offers);
    if order != [] { SubmissionsKeep(rc, Committed(rc, s, s), order, offers); }
  }

  lemma SingleKeeps(rc: RunConfig, s: Store, a: Action)
    requires SerialInv(rc, s) && SerialEnabled(rc, s, Single(a))
    ensures SerialInv(rc, SerialNext(rc, s, Single(a)))
  {
    hide Inv, SubmittedSettled, Next, SeenBefore, NoDuplicates;
    SerialInvParts(rc, s);
    StepKeeps(rc, s, s, a);
    SubmittedGrows(rc, s, s, a);
    SinglePhase(rc, s, a);
  }

  lemma SinglePhase(rc: RunConfig, s: Store, a: Action)
    requires SerialInv(rc, s) && !a.Commit? && !a.Submit? && Enabled(rc, s, s, a)
    ensures var s' := Next(rc, s, s, a); s'.ets != map[] ==> s'.run.phase.Running?
  {
    hide Inv, SubmittedSettled, NoDuplicates;
    if s.ets == map[] { assert Next(rc, s, s, a).ets == map[]; }
  }

  lemma SerialStepKeeps(rc: RunConfig, s: Store, m: SerialMove)
    requires SerialInv(rc, s) && SerialEnabled(rc, s, m)
    ensures SerialInv(rc, SerialNext(rc, s, m)) && RunMoves(s.run, SerialNext(rc, s, m).run)
  {
    hide *;
    SerialInvParts(rc, s);
    match m {
      case Single(a) =>
        SingleKeeps(rc, s, a);
        SingleMoves(rc, s, a);
      case Schedule(order, offers) =>
        ScheduleKeeps(rc, s, order, offers);
        CommitMoves(rc, s);
    }
  }

  lemma SingleMoves(rc: RunConfig, s: Store, a: Action)
    requires SerialInv(rc, s) && SerialEnabled(rc, s, Single(a))
    ensures RunMoves(s.run, SerialNext(rc, s, Single(a)).run)
  {
    hide RunMoves, Inv, Next, Enabled;
    SerialInvParts(rc, s);
    NextMoves(rc, s, s, a);
  }

  lemma CommitMoves(rc: RunConfig, s: Store)
    requires SerialInv(rc, s)
    ensures RunMoves(s.run, Committed(rc, s, s).run)
  {
    hide *;
    SerialInvParts(rc, s);
    CommittedIsNext(rc, s);
    NextMoves(rc, s, s, Commit);
  }

  lemma SerialStart(rc: RunConfig, s: Store)
    requires Init(rc, s)
    ensures SerialInv(rc, s)
  {
    FirstState(rc, s);
  }

  lemma {:induction false} SerialReached(rc: RunConfig, b: seq<Store>, ms: seq<SerialMove>, i: nat, j: nat)
    requires SerialRun(rc, b, ms) && i <= j < |b|
    ensures SerialInv(rc, b[i]) && SerialInv(rc, b[j]) && RunMoves(b[i].run, b[j].run)
    decreases j
  {
    hide SerialInv, Init, SerialEnabled, RunMoves, SerialNext;
    if j == 0 {
      SerialStart(rc, b[0]);
      SelfMoves(b[0].run);
    } else if i < j {
      SerialReached(rc, b, ms, i, j - 1);
      SerialStepKeeps(rc, b[j - 1], ms[j - 1]);
      RunMovesTrans(b[i].run, b[j - 1].run, b[j].run);
    } else {
      SerialReached(rc, b, ms, i - 1, j - 1);
      SerialStepKeeps(rc, b[j - 1], ms[j - 1]);
      SelfMoves(b[j].run);
    }
  }

  lemma SelfMoves(r: Run)
    ensures RunMoves(r, r)
  {
    TaskMovesSelf(r);
  }

  // ---------------------------------------------------------------- main results

  /** No run task is ever submitted twice, and dependency safety holds in every state. */
  lemma SubmittedAtMostOnce(rc: RunConfig, b: seq<Store>, ms: seq<SerialMove>, n: nat)
    requires SerialRun(rc, b, ms) && n < |b|
    ensures NoDuplicates(b[n].submitted)
    ensures DependencySafe(rc, b[n]) && OneEtPerTask(b[n])
  {
    hide SerialRun, DependencySafe, OneEtPerTask, SubmittedSettled;
    SerialReached(rc, b, ms, n, n);
  }

  lemma {:induction false} NothingToSubmit(rc: RunConfig, s: Store, order: seq<TaskID>, offers: seq<Offer>)
    requires |offers| == |order| && forall i :: 0 <= i < |order| ==> order[i] in EtTasks(s.ets)
    ensures Submissions(rc, s, order, offers) == s
    decreases |order|
  {
    hide EtTasks;
    if order != [] { NothingToSubmit(rc, s, order[1..], offers[1..]); }
  }

  /** When the run is to stop, every task that could still be ready has its executor task. */
  lemma StoppedRunnable(rc: RunConfig, s: Store, t: TaskID)
    requires SerialInv(rc, s) && s.run.stop
    requires Committed(rc, s, s).run.phase.Running? && Runnable(rc, Committed(rc, s, s).run, t)
    ensures t in EtTasks(Committed(rc, s, s).ets)
  {
    hide DecideTask, CancelRoot, EtTasks, DependenciesMet, HasFatalTask, Inv, SubmittedSettled;
    SerialInvParts(rc, s);
    CommitEtTasks(rc, s);
    var r := AdvancedRun(rc, s.run, s.ets != map[]);
    AdvancedRunMoves(rc, s.run, s.ets != map[]);
    assert r.stop;
    DecidedSkipped(rc, r, EtTasks(s.ets), t);
  }

  lemma CommitEtTasks(rc: RunConfig, s: Store)
    requires SerialInv(rc, s)
    ensures EtTasks(Committed(rc, s, s).ets) == EtTasks(s.ets)
  {
    hide *;
    SerialInvParts(rc, s);
    CommittedIsNext(rc, s);
    EtTasksChange(rc, s, s, Commit);
  }

  /** No submission follows once the run is finished, or once it is to stop. */
  lemma NoNewSubmission(rc: RunConfig, s: Store, m: SerialMove)
    requires SerialInv(rc, s) && SerialEnabled(rc, s, m) && (s.run.phase.Finished? || s.run.stop)
    ensures SerialNext(rc, s, m).submitted == s.submitted
  {
    hide SerialInv, Committed, GoodSchedule, Enabled, Next, Runnable, EtTasks, RunMoves;
    match m {
      case Single(a) => SubmittedGrows(rc, s, s, a);
      case Schedule(order, offers) =>
        var s1 := Committed(rc, s, s);
        PhaseAfterCommit(rc, s);
        RunnableInOrder(rc, s1, order, offers);
        CommitMoves(rc, s);
        FinishedMoves(s.run, s1.run);
        if order != [] {
          forall i | 0 <= i < |order| ensures order[i] in EtTasks(s1.ets) {
            StoppedRunnable(rc, s, order[i]);
          }
        }
        NothingToSubmit(rc, s1, order, offers);
    }
  }

  lemma FinishedMoves(a: Run, b: Run)
    requires RunMoves(a, b)
    ensures (a.phase.Finished? ==> b.phase.Finished?) && (a.stop ==> b.stop)
    ensures a.result.IsSet() ==> b.result == a.result
  {
  }

  lemma {:induction false} SubmissionsEnd(rc: RunConfig, b: seq<Store>, ms: seq<SerialMove>, i: nat, j: nat)
    requires SerialRun(rc, b, ms) && i <= j < |b| && (b[i].run.phase.Finished? || b[i].run.stop)
    ensures b[j].submitted == b[i].submitted
    decreases j - i
  {
    hide SerialInv, SerialEnabled, SerialNext, RunMoves, Init;
    if i < j {
      SubmissionsEnd(rc, b, ms, i, j - 1);
      SerialReached(rc, b, ms, i, j - 1);
      FinishedMoves(b[i].run, b[j - 1].run);
      NoNewSubmission(rc, b[j - 1], ms[j - 1]);
    }
  }

  /** Finished is final: the result is set and stays, every task is finished, no executor task of
      the run is stored, and none is ever created again. */
  lemma FinishedIsFinal(rc: RunConfig, b: seq<Store>, ms: seq<SerialMove>, i: nat, j: nat)
    requires SerialRun(rc, b, ms) && i <= j < |b| && b[i].run.phase.Finished?
    ensures b[j].run.phase == RunPhase.Finished && b[j].run.result != RunResult.Unknown && b[j].run.result == b[i].run.result
    ensures forall t :: t in b[j].run.tasks ==> b[j].run.tasks[t].status !in {TaskStatus.NotStarted, TaskStatus.Running}
    ensures b[j].ets == map[] && b[j].submitted == b[i].submitted
  {
    OverMeans(b[j].run);
    hide SerialRun, RunMoves, AllFinished, SubmittedSettled;
    SerialReached(rc, b, ms, i, j);
    FinishedMoves(b[i].run, b[j].run);
    SubmissionsEnd(rc, b, ms, i, j);
  }

  /** Once the stop flag is set it stays set, and no executor task is created any more. */
  lemma StopIsFinal(rc: RunConfig, b: seq<Store>, ms: seq<SerialMove>, i: nat, j: nat)
    requires SerialRun(rc, b, ms) && i <= j < |b| && b[i].run.stop
    ensures b[j].run.stop && b[j].submitted == b[i].submitted
  {
    hide SerialRun, RunMoves, SerialInv;
    SerialReached(rc, b, ms, i, j);
    FinishedMoves(b[i].run, b[j].run);
    SubmissionsEnd(rc, b, ms, i, j);
  }

  // ---------------------------------------------------------------- no deadlock

  ghost predicate UnfetchedArchive(r: Run, t: TaskID) {
    t in r.tasks && r.tasks[t].status.IsFinished() && !r.tasks[t].ArchivesFetchFinished()
  }

  ghost predicate WaitsForApproval(r: Run, t: TaskID) {
    t in r.tasks && r.tasks[t].status.NotStarted? && r.tasks[t].waitingApproval
  }

  /** A ready task without an executor task that no registered executor accepts. */
  ghost predicate Refused(rc: RunConfig, s: Store, t: TaskID, o: Offer) {
    && Runnable(rc, s.run, t) && t !in EtTasks(s.ets)
    && forall k :: 0 <= k < |o.executors| ==> !Accepts(o.executors[k], CountsOf(s.ets, o), rc[t])
  }

  /** Without executor tasks, a commit that changes nothing found no result to set and no end. */
  lemma UnchangedCommit(rc: RunConfig, s: Store)
    requires Fits(rc, s.run) && s.run.phase.Running? && s.ets == map[] && Committed(rc, s, s).run == s.run
    ensures !AllFinished(s.run) && AdvancedTasks(rc, s.run, {}) == s.run
  {
    hide AdvancedTask, HasFatalTask, AllFinished;
    assert EtTasks(s.ets) == {};
    var r := AdvancedRun(rc, s.run, false);
    assert r.result == s.run.result && r.phase == s.run.phase;
    assert r == s.run;
  }

  /** In an acyclic config, some unfinished task has finished parents only. */
  lemma FirstUnfinished(rc: RunConfig, r: Run) returns (t: TaskID)
    requires Fits(rc, r) && Acyclic(DependGraph(rc)) && !AllFinished(r)
    ensures t in r.tasks && !r.tasks[t].status.IsFinished()
    ensures forall p :: p in Parents(rc, t) ==> p in r.tasks && r.tasks[p].status.IsFinished()
  {
    var g := DependGraph(rc);
    var u := set t | t in r.tasks && !r.tasks[t].status.IsFinished();
    var t0 :| t0 in r.tasks && !r.tasks[t0].status.IsFinished();
    assert !NoSink(g, u) by {
      if NoSink(g, u) { var c := NoSinkMeansCycle(g, u, t0); }
    }
    t :| t in u && g[t] * u == {};
    forall p | p in Parents(rc, t) ensures r.tasks[p].status.IsFinished() {
      assert p in g[t] && p !in g[t] * u;
    }
  }

  /** A task that advancing leaves alone, with all parents done, is ready or waits for approval. */
  lemma UnchangedIsReady(rc: RunConfig, r: Run, t: TaskID)
    requires t in rc && t in r.tasks && r.tasks[t].status.NotStarted? && !r.tasks[t].skip && ParentsDone(rc, r, t)
    requires AdvancedTask(rc, r, {}, t) == r.tasks[t]
    ensures Runnable(rc, r, t) || WaitsForApproval(r, t)
  {
    hide ParentsDone, DependsMatch;
  }

  lemma ReadyOrWaiting(rc: RunConfig, s: Store) returns (t: TaskID)
    requires TasksConsistent(rc, s) && s.run.phase.Running? && Acyclic(DependGraph(rc))
    requires s.ets == map[] && Committed(rc, s, s).run == s.run
    requires forall t :: !UnfetchedArchive(s.run, t)
    ensures Runnable(rc, s.run, t) || WaitsForApproval(s.run, t)
  {
    hide AdvancedTask, Acyclic, DependGraph, Committed, Runnable, AllFinished;
    UnchangedCommit(rc, s);
    t := FirstUnfinished(rc, s.run);
    assert s.run.tasks[t].status.NotStarted?;
    forall p | p in Parents(rc, t) ensures p in s.run.tasks && Done(s.run.tasks[p]) {
      assert !UnfetchedArchive(s.run, p);
    }
    assert AdvancedTasks(rc, s.run, {}).tasks[t] == AdvancedTask(rc, s.run, {}, t);
    UnchangedIsReady(rc, s.run, t);
  }

  /** The submission loop submits nothing only if it stops at a task that nobody accepts. */
  lemma NobodyAccepts(rc: RunConfig, s: Store, order: seq<TaskID>, offers: seq<Offer>)
    requires |offers| == |order| > 0 && s.ets == map[] && Runnable(rc, s.run, order[0])
    requires Submissions(rc, s, order, offers).submitted == s.submitted && forall o :: o in offers ==> o.id !in s.issued
    ensures Refused(rc, s, order[0], offers[0])
  {
    hide Runnable;
    assert order[0] in rc by { RunnableKnown(rc, s.run, order[0]); }
    var x := Chosen(offers[0].executors, CountsOf(s.ets, offers[0]), rc[order[0]]);
    if x.Some? {
      var s' := Submitted(s, order[0], offers[0].id, x.value);
      assert |s'.submitted| == |s.submitted| + 1;
      SubmissionsGrow(rc, s', order[1..], offers[1..]);
    }
  }

  lemma RunnableKnown(rc: RunConfig, r: Run, t: TaskID)
    requires Runnable(rc, r, t)
    ensures t in rc
  {
  }

  lemma {:induction false} SubmissionsGrow(rc: RunConfig, s: Store, order: seq<TaskID>, offers: seq<Offer>)
    requires |offers| == |order|
    ensures |Submissions(rc, s, order, offers).submitted| >= |s.submitted|
    ensures Submissions(rc, s, order, offers).run == s.run
    decreases |order|
  {
    hide EtTasks, Chosen;
    if order != [] {
      SubmissionsGrow(rc, s, order[1..], offers[1..]);
      if order[0] in rc {
        var x := Chosen(offers[0].executors, CountsOf(s.ets, offers[0]), rc[order[0]]);
        if x.Some? { SubmissionsGrow(rc, Submitted(s, order[0], offers[0].id, x.value), order[1..], offers[1..]); }
      }
    }
  }

  /** Why scheduling a running run may change nothing and submit nothing. */
  ghost predicate HasReason(rc: RunConfig, s: Store, order: seq<TaskID>, offers: seq<Offer>) {
    || s.ets != map[]
    || (exists t :: UnfetchedArchive(s.run, t))
    || (exists t :: WaitsForApproval(s.run, t))
    || (exists k :: 0 <= k < |order| && k < |offers| && Refused(rc, Committed(rc, s, s), order[k], offers[k]))
  }

  lemma StuckHasReason(rc: RunConfig, s: Store, order: seq<TaskID>, offers: seq<Offer>)
    requires SerialInv(rc, s) && Acyclic(DependGraph(rc)) && s.run.phase.Running?
    requires SerialEnabled(rc, s, Schedule(order, offers))
    requires var s' := SerialNext(rc, s, Schedule(order, offers)); s'.run == s.run && s'.submitted == s.submitted
    ensures HasReason(rc, s, order, offers)
  {
    hide Acyclic, Committed, Runnable, UnfetchedArchive, WaitsForApproval, Refused, EtTasks, FreshOffers, SerialInv;
    SerialInvParts(rc, s);
    var s1 := Committed(rc, s, s);
    SubmissionsGrow(rc, s1, order, offers);
    PhaseAfterCommit(rc, s);
    if s.ets == map[] && (forall t :: !UnfetchedArchive(s.run, t)) && (forall t :: !WaitsForApproval(s.run, t)) {
      var t := ReadyOrWaiting(rc, s);
      assert t in TasksToRun(rc, s1.run) by { RunnableStored(rc, s1.run, t); }
      var k := ElementAt(order, t);
      RunnableInOrder(rc, s1, order, offers);
      assert s1.ets == map[] by { assert s1.ets.Keys == {}; }
      FreshIds(s1, offers);
      NobodyAccepts(rc, s1, order, offers);
    }
  }

  /** No deadlock: when scheduling a running run changes nothing and submits nothing, then an
      executor task is stored, or an archive is still to fetch, or a task waits for approval, or
      no executor accepts a task that is ready. */
  lemma NoDeadlock(rc: RunConfig, b: seq<Store>, ms: seq<SerialMove>, i: nat, order: seq<TaskID>, offers: seq<Offer>)
    requires SerialRun(rc, b, ms) && i < |b| && Acyclic(DependGraph(rc)) && b[i].run.phase.Running?
    requires SerialEnabled(rc, b[i], Schedule(order, offers))
    requires var s' := SerialNext(rc, b[i], Schedule(order, offers)); s'.run == b[i].run && s'.submitted == b[i].submitted
    ensures || b[i].ets != map[]
            || (exists t :: t in b[i].run.tasks && b[i].run.tasks[t].status !in {TaskStatus.NotStarted, TaskStatus.Running}
                            && FetchNotStarted in b[i].run.tasks[t].archivesPhase)
            || (exists t :: t in b[i].run.tasks && b[i].run.tasks[t].status == TaskStatus.NotStarted && b[i].run.tasks[t].waitingApproval)
            || (exists k :: 0 <= k < |order| && k < |offers| && Runnable(rc, b[i].run, order[k]) && order[k] in rc
                            && forall x :: x in offers[k].executors ==> !Accepts(x, CountsOf(map[], offers[k]), rc[order[k]]))
  {
    hide *;
    SerialReached(rc, b, ms, i, i);
    StuckHasReason(rc, b[i], order, offers);
    CommitUnchanged(rc, b[i], order, offers);
    ReasonMeans(rc, b[i], order, offers);
  }

  lemma CommitUnchanged(rc: RunConfig, s: Store, order: seq<TaskID>, offers: seq<Offer>)
    requires SerialEnabled(rc, s, Schedule(order, offers)) && SerialNext(rc, s, Schedule(order, offers)).run == s.run
    ensures Committed(rc, s, s).run == s.run && Committed(rc, s, s).ets.Keys == s.ets.Keys
  {
    hide Committed, Enabled, Next;
    SubmissionsGrow(rc, Committed(rc, s, s), order, offers);
    PhaseAfterCommit(rc, s);
  }

  lemma ReasonMeans(rc: RunConfig, s: Store, order: seq<TaskID>, offers: seq<Offer>)
    requires HasReason(rc, s, order, offers) && Committed(rc, s, s).run == s.run && Committed(rc, s, s).ets.Keys == s.ets.Keys
    ensures || s.ets != map[]
            || (exists t :: t in s.run.tasks && s.run.tasks[t].status !in {TaskStatus.NotStarted, TaskStatus.Running}
                            && FetchNotStarted in s.run.tasks[t].archivesPhase)
            || (exists t :: t in s.run.tasks && s.run.tasks[t].status == TaskStatus.NotStarted && s.run.tasks[t].waitingApproval)
            || (exists k :: 0 <= k < |order| && k < |offers| && Runnable(rc, s.run, order[k]) && order[k] in rc
                            && forall x :: x in offers[k].executors ==> !Accepts(x, CountsOf(map[], offers[k]), rc[order[k]]))
  {
    hide Runnable, Committed, Accepts, CountsOf, EtTasks;
    if s.ets == map[] {
      assert Committed(rc, s, s).ets == map[];
      if t :| UnfetchedArchive(s.run, t) {
        var rt := s.run.tasks[t];
        var i :| 0 <= i < |rt.archivesPhase| && rt.archivesPhase[i] != FetchFinished;
        assert rt.archivesPhase[i] == FetchNotStarted;
      }
      if k :| 0 <= k < |order| && k < |offers| && Refused(rc, Committed(rc, s, s), order[k], offers[k]) {
        RunnableKnown(rc, s.run, order[k]);
      }
    }
  }

  lemma RunnableStored(rc: RunConfig, r: Run, t: TaskID)
    requires Runnable(rc, r, t)
    ensures t in r.tasks
  {
  }

  lemma FreshIds(s: Store, offers: seq<Offer>)
    requires FreshOffers(s, offers)
    ensures forall o :: o in offers ==> o.id !in s.issued
  {
  }
}
