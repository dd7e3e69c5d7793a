/** The scheduling of a run (scheduleRun and submitRunTasks in
    internal/services/runservice/scheduler.go) on a stored run that it updates in place. */
module Runservice {
  import opened RunTypes
  import opened Graph
  import opened RunConfigs
  import opened Scheduler
  import opened SchedulerCode
  import opened Executors
  import opened RunStore
  import opened SerialModel

  method ListEts(ets: map<ExecutorTaskID, ExecutorTask>) returns (l: seq<ExecutorTask>)
    ensures Scheduled(l) == EtTasks(ets) && (l != [] <==> ets != map[])
  {
    l := [];
    var rest := ets.Keys;
    while rest != {}
      invariant rest <= ets.Keys
      invariant forall t :: t in Scheduled(l) <==> exists e :: e in ets && e !in rest && ets[e].task == t
      invariant l == [] <==> rest == ets.Keys
      decreases rest
    {
      var e :| e in rest;
      rest := rest - {e};
      ScheduledAppend(l, ets[e]);
      l := l + [ets[e]];
    }
    forall t ensures t in Scheduled(l) <==> t in EtTasks(ets) { }
  }

  lemma ScheduledAppend(l: seq<ExecutorTask>, et: ExecutorTask)
    ensures Scheduled(l + [et]) == Scheduled(l) + {et.task}
  {
    assert forall x :: x in l + [et] <==> x in l || x == et;
  }

  /** Sets the stop flag of every executor task that was read. It fails when one of them was
      updated or deleted since. */
  method StopExecutorTasks(seen: map<ExecutorTaskID, ExecutorTask>, cur: map<ExecutorTaskID, ExecutorTask>)
      returns (ok: bool, ets: map<ExecutorTaskID, ExecutorTask>)
    ensures ok <==> forall e :: e in seen ==> e in cur && cur[e].revision == seen[e].revision
    ensures ok ==> ets == map e | e in cur ::
                            if e in seen then seen[e].(stop := true, revision := seen[e].revision + 1) else cur[e]
  {
    ets := cur;
    var rest := seen.Keys;
    while rest != {}
      invariant rest <= seen.Keys
      invariant forall e :: e in seen && e !in rest ==> e in cur && cur[e].revision == seen[e].revision
      invariant ets.Keys == cur.Keys
      invariant forall e :: e in ets ==>
                  ets[e] == if e in seen && e !in rest then seen[e].(stop := true, revision := seen[e].revision + 1) else cur[e]
      decreases rest
    {
      var e :| e in rest;
      rest := rest - {e};
      if e !in ets || ets[e].revision != seen[e].revision {
        return false, cur;
      }
      ets := ets[e := seen[e].(stop := true, revision := seen[e].revision + 1)];
    }
    return true, ets;
  }

  /** The two decisions of scheduleRun on what it read: advanceRun, and advanceRunTasks after it. */
  method AdvanceSeen(rc: RunConfig, seenRun: Run, seenEts: map<ExecutorTaskID, ExecutorTask>, ghost seen: Store) returns (r: Run)
    requires seenRun == seen.run && seenEts == seen.ets && Fits(rc, seenRun) && !seenRun.phase.SetupError?
    ensures r == ScheduledRun(rc, seen) && r.stop == seenRun.stop
  {
    StopFlagKept(rc, seenRun, seenEts != map[]);
    hide AdvancedTask, HasFatalTask, AllFinished, CloseRun, AdvancedRun, EtTasks, TaskMoves;
    var scheduled := ListEts(seenEts);
    var rec := new RunRecord(seenRun);
    var err := rec.AdvanceRun(rc, scheduled);
    AdvancedRunMoves(rc, seenRun, seenEts != map[]);
    r := rec.Value();
    if rec.phase.Running? {
      r := AdvanceRunTasks(rc, r, scheduled);
    }
  }

  /** The database rows of one run. */
  class StoredRun {
    var run: Run
    var rev: nat
    var ets: map<ExecutorTaskID, ExecutorTask>
    var events: seq<RunEvent>
    ghost var issued: set<ExecutorTaskID>
    ghost var submitted: seq<TaskID>

    ghost function Value(): Store
      reads this
    {
      Store(run, rev, ets, events, issued, submitted)
    }

    constructor (r: Run)
      ensures Value() == Store(r, 1, map[], [Event(r)], {}, [])
    {
      run, rev, ets, events := r, 1, map[], [RunEvent(r.phase, r.result)];
      issued, submitted := {}, [];
    }

    /** scheduleRun from its first read to the end of its second transaction. The state `seen` may
        be any earlier one: then the update goes through only if no revision has moved on. */
    method CommitSchedule(rc: RunConfig, seenRun: Run, seenRev: nat, seenEts: map<ExecutorTaskID, ExecutorTask>, ghost seen: Store)
        returns (ok: bool)
      requires seenRun == seen.run && seenRev == seen.rev && seenEts == seen.ets && Fits(rc, seenRun) && !seenRun.phase.SetupError?
      modifies this
      ensures ok <==> Enabled(rc, seen, old(Value()), Commit)
      ensures Value() == if ok then Next(rc, seen, old(Value()), Commit) else old(Value())
    {
      hide AdvancedTasks, AdvancedRun, EtTasks, Fits;
      var r := AdvanceSeen(rc, seenRun, seenEts, seen);
      ok := true;
      var ets' := ets;
      if r.stop {
        ok, ets' := StopExecutorTasks(seenEts, ets);
      }
      if seenRev != rev {
        ok := false;
      }
      if ok {
        run, rev, ets := r, rev + 1, ets';
        if seenRun.phase != r.phase || seenRun.result != r.result {
          events := events + [RunEvent(r.phase, r.result)];
        }
      }
    }

    /** submitRunTasks, with what each turn of its loop meets. */
    method SubmitRunTasks(rc: RunConfig, tasks: seq<TaskID>, offers: seq<Offer>)
      requires |offers| == |tasks| && forall i :: 0 <= i < |tasks| ==> tasks[i] in rc
      modifies this
      ensures Value() == Submissions(rc, old(Value()), tasks, offers)
    {
      hide EtTasks, Chosen, CountsOf;
      for i := 0 to |tasks|
        invariant Submissions(rc, old(Value()), tasks, offers) == Submissions(rc, Value(), tasks[i..], offers[i..])
      {
        var t := tasks[i];
        assert tasks[i..][0] == t && offers[i..][0] == offers[i];
        assert tasks[i..][1..] == tasks[i + 1..] && offers[i..][1..] == offers[i + 1..];
        var exists' := HasExecutorTask(t);
        if exists' {
          continue;
        }
        var x, _ := ChooseExecutor(offers[i].executors, CountsOf(ets, offers[i]), rc[t]);
        if x.None? {
          return;
        }
        InsertExecutorTask(t, offers[i].id, x.value);
        if !offers[i].sent {
          return;
        }
      }
    }

    method HasExecutorTask(t: TaskID) returns (has: bool)
      ensures has <==> t in EtTasks(ets)
    {
      has := exists e :: e in ets && ets[e].task == t;
    }

    method InsertExecutorTask(t: TaskID, id: ExecutorTaskID, x: ExecutorID)
      modifies this`ets, this`issued, this`submitted
      ensures Value() == Submitted(old(Value()), t, id, x)
    {
      ets := ets[id := ExecutorTask(x, t, false, ExecutorTaskPhase.NotStarted, 1)];
      issued := issued + {id};
      submitted := submitted + [t];
    }

    /** One scheduleRun without interference is one step of the serial model. */
    method ScheduleRun(rc: RunConfig, offers: seq<Offer>) returns (ghost order: seq<TaskID>)
      requires Fits(rc, run) && !run.phase.SetupError? && |offers| >= |rc| && FreshOffers(Value(), offers)
      modifies this
      ensures |order| <= |offers|
      ensures SerialEnabled(rc, old(Value()), Schedule(order, offers[..|order|]))
      ensures Value() == SerialNext(rc, old(Value()), Schedule(order, offers[..|order|]))
    {
      hide Enabled, Next, FreshOffers, Runnable, RunMoves, Submissions, Committed;
      ghost var before := Value();
      var ok := CommitSchedule(rc, run, rev, ets, before);
      SelfCommit(rc, before);
      assert ok && Value() == Committed(rc, before, before);
      ghost var committed := Value();
      CommitFits(rc, before);
      order := [];
      if run.phase.Running? {
        var tasks := GetTasksToRun(rc, run);
        order := tasks;
        OrderFits(rc, run, tasks);
        SubmitRunTasks(rc, tasks, offers[..|tasks|]);
      } else {
        NoSubmissions(rc, committed);
      }
      PhaseAfterCommit(rc, before);
      FreshPrefix(before, committed, offers, |order|);
    }
  }

  lemma SelfCommit(rc: RunConfig, s: Store)
    ensures Enabled(rc, s, s, Commit) && Next(rc, s, s, Commit) == Committed(rc, s, s)
  {
  }

  lemma CommitFits(rc: RunConfig, s: Store)
    requires Fits(rc, s.run) && !s.run.phase.SetupError?
    ensures Fits(rc, Committed(rc, s, s).run)
  {
    ScheduledRunMoves(rc, s);
  }

  lemma FreshPrefix(a: Store, b: Store, offers: seq<Offer>, n: nat)
    requires FreshOffers(a, offers) && a.issued == b.issued && n <= |offers|
    ensures FreshOffers(b, offers[..n])
  {
  }

  /** There are no more tasks to run than tasks. */
  lemma OrderFits(rc: RunConfig, r: Run, tasks: seq<TaskID>)
    requires Fits(rc, r) && Elements(tasks) == TasksToRun(rc, r) && NoDuplicates(tasks)
    ensures |tasks| <= |rc| && forall i :: 0 <= i < |tasks| ==> tasks[i] in rc
  {
    hide Runnable;
    forall i | 0 <= i < |tasks| ensures tasks[i] in rc { assert tasks[i] in Elements(tasks); }
    assert |rc| == |rc.Keys|;
    if |tasks| > |rc.Keys| {
      var i, j := Pigeonhole(tasks, rc.Keys);
    }
  }
}
