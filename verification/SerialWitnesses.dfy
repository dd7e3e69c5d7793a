/** A serial run that gets stuck although executors keep final phases. */
module SerialWitnesses {
  import opened RunTypes
  import opened Graph
  import opened Scheduler
  import opened Executors
  import opened RunStore
  import opened SerialModel
  import opened SplitWitnesses
  import opened Completion

  const WILLING := Executor(EXECUTOR, true, true, [], 0, 0)
  const OFFER := Offer([WILLING], map[], FIRST, true)

  lemma OneMoreStep(rc: RunConfig, b: seq<Store>, ms: seq<SerialMove>, m: SerialMove)
    requires SerialRun(rc, b, ms) && |b| == |ms| + 1 && SerialEnabled(rc, Last(b), m)
    ensures SerialRun(rc, b + [SerialNext(rc, Last(b), m)], ms + [m])
  {
    hide SerialEnabled, SerialNext, Init;
    var b', ms' := b + [SerialNext(rc, Last(b), m)], ms + [m];
    forall i | 0 <= i < |ms'| ensures SerialEnabled(rc, b'[i], ms'[i]) && b'[i + 1] == SerialNext(rc, b'[i], ms'[i]) {
      if i < |ms| { assert b'[i] == b[i] && b'[i + 1] == b[i + 1] && ms'[i] == ms[i]; }
    }
  }

  lemma FirstState()
    ensures SerialRun(Config(false), [Idle(false, RunPhase.Queued, 1, [QUEUED])], [])
  {
    assert GenRunTask(PLAIN) == Task(TaskStatus.NotStarted);
  }

  /** The first scheduling step submits the task. */
  lemma FirstSchedule()
    ensures var s, rc := Idle(false, RunPhase.Running, 2, [QUEUED, RUNNING]), Config(false);
            && SerialEnabled(rc, s, Schedule([T], [OFFER]))
            && SerialNext(rc, s, Schedule([T], [OFFER])) == Inserted(Idle(false, RunPhase.Running, 3, [QUEUED, RUNNING]), T, FIRST)
  {
    hide Committed, Runnable;
    var rc := Config(false);
    var s, s1 := Idle(false, RunPhase.Running, 2, [QUEUED, RUNNING]), Idle(false, RunPhase.Running, 3, [QUEUED, RUNNING]);
    IdleCommit(false);
    ReadyAtCommit(false, T);
    assert TasksToRun(rc, s1.run) == {T} == Elements([T]);
    NoEts(s1.ets, T);
    assert Chosen([WILLING], CountsOf(s1.ets, OFFER), PLAIN) == Some(EXECUTOR);
    assert rc[T] == PLAIN;
    assert [T][1..] == [] && [OFFER][1..] == [];
    NoSubmissions(rc, Submitted(s1, T, FIRST, EXECUTOR));
    assert Submissions(rc, s1, [T], [OFFER]) == Submissions(rc, Submitted(s1, T, FIRST, EXECUTOR), [], []);
  }

  /** Running is reported, then the executor task is cancelled: the run is stuck for ever. */
  lemma StuckRun() returns (b: seq<Store>, ms: seq<SerialMove>)
    ensures SerialRun(Config(false), b, ms) && |b| == |ms| + 1
    ensures forall i :: 0 <= i < |ms| ==> KeepsFinal(b[i], ms[i])
    ensures StuckEt(Last(b), FIRST) && Last(b).run.phase.Running?
  {
    hide SerialRun, GoodSchedule, Submissions, Committed;
    var rc := Config(false);
    var start, schedule := Single(Start), Schedule([T], [OFFER]);
    FirstState();
    b, ms := [Idle(false, RunPhase.Queued, 1, [QUEUED])], [];
    OneMoreStep(rc, b, ms, start);
    b, ms := b + [SerialNext(rc, Last(b), start)], ms + [start];
    assert Last(b) == Idle(false, RunPhase.Running, 2, [QUEUED, RUNNING]);
    FirstSchedule();
    OneMoreStep(rc, b, ms, schedule);
    b, ms := b + [SerialNext(rc, Last(b), schedule)], ms + [schedule];
    b, ms := RunAndCancel(b, ms);
  }

  lemma RunAndCancel(b: seq<Store>, ms: seq<SerialMove>) returns (b': seq<Store>, ms': seq<SerialMove>)
    requires SerialRun(Config(false), b, ms) && |b| == |ms| + 1 && forall i :: 0 <= i < |ms| ==> KeepsFinal(b[i], ms[i])
    requires Last(b) == Inserted(Idle(false, RunPhase.Running, 3, [QUEUED, RUNNING]), T, FIRST)
    ensures SerialRun(Config(false), b', ms') && |b'| == |ms'| + 1
    ensures forall i :: 0 <= i < |ms'| ==> KeepsFinal(b'[i], ms'[i])
    ensures StuckEt(Last(b'), FIRST) && Last(b').run.phase.Running?
  {
    hide SerialRun;
    var rc := Config(false);
    var run, report, cancel := Single(SetPhase(FIRST, ExecutorTaskPhase.Running)), Single(Report(FIRST)),
                               Single(SetPhase(FIRST, ExecutorTaskPhase.Cancelled));
    OneMoreStep(rc, b, ms, run);
    b', ms' := b + [SerialNext(rc, Last(b), run)], ms + [run];
    OneMoreStep(rc, b', ms', report);
    b', ms' := b' + [SerialNext(rc, Last(b'), report)], ms' + [report];
    OneMoreStep(rc, b', ms', cancel);
    b', ms' := b' + [SerialNext(rc, Last(b'), cancel)], ms' + [cancel];
  }
}
