/** Executor reports as updateRunTaskStatus applies them, one after the other: they may be lost,
    repeated and reordered (internal/services/runservice/scheduler.go). */
module Reports {
  import opened RunTypes
  import opened Scheduler

  /** The status of a run task after a sequence of reports. */
  function After(s: TaskStatus, ps: seq<ExecutorTaskPhase>): TaskStatus
    decreases |ps|
  {
    if ps == [] then s else Reported(After(s, ps[..|ps| - 1]), ps[|ps| - 1])
  }

  /** `ps[k]` is a final phase that is accepted unless an earlier one was: "cancelled" is refused
      once the task was seen running. */
  predicate Decisive(ps: seq<ExecutorTaskPhase>, k: nat)
    requires k < |ps|
  {
    ps[k].IsFinished() && (ps[k].Cancelled? ==> ExecutorTaskPhase.Running !in ps[..k])
  }

  ghost predicate Undecided(ps: seq<ExecutorTaskPhase>, n: nat) {
    n <= |ps| && forall j: nat :: j < n ==> !Decisive(ps, j)
  }

  ghost predicate FirstDecisive(ps: seq<ExecutorTaskPhase>, k: nat) {
    k < |ps| && Decisive(ps, k) && Undecided(ps, k)
  }

  lemma DecisivePrefix(ps: seq<ExecutorTaskPhase>, n: nat, k: nat)
    requires k < n <= |ps|
    ensures Decisive(ps[..n], k) <==> Decisive(ps, k)
  {
    assert ps[..n][..k] == ps[..k];
  }

  /** Without a decisive report, any "running" counts. */
  lemma {:induction false} UndecidedStatus(ps: seq<ExecutorTaskPhase>)
    requires Undecided(ps, |ps|)
    ensures After(TaskStatus.NotStarted, ps) == if ExecutorTaskPhase.Running in ps then TaskStatus.Running else TaskStatus.NotStarted
    decreases |ps|
  {
    if ps != [] {
      var n := |ps| - 1;
      var init := ps[..n];
      forall j: nat | j < n ensures !Decisive(init, j) { DecisivePrefix(ps, n, j); }
      UndecidedStatus(init);
      assert ps == init + [ps[n]];
      assert !Decisive(ps, n);
    }
  }

  /** Closed form: the first decisive report wins. */
  lemma {:induction false} FirstDecisiveWins(ps: seq<ExecutorTaskPhase>, k: nat)
    requires FirstDecisive(ps, k)
    ensures After(TaskStatus.NotStarted, ps) == StatusOf(ps[k])
    decreases |ps|
  {
    var n := |ps| - 1;
    var init := ps[..n];
    forall j: nat | j < n ensures Decisive(init, j) <==> Decisive(ps, j) { DecisivePrefix(ps, n, j); }
    if k < n {
      FirstDecisiveWins(init, k);
    } else {
      UndecidedStatus(init);
    }
  }

  /** The status never moves backwards. */
  lemma {:induction false} NeverBackwards(s: TaskStatus, ps: seq<ExecutorTaskPhase>, i: nat, j: nat)
    requires i <= j <= |ps|
    ensures StatusMoves(After(s, ps[..i]), After(s, ps[..j]))
    decreases j
  {
    if i < j {
      NeverBackwards(s, ps, i, j - 1);
      assert ps[..j][..j - 1] == ps[..j - 1];
    }
  }

  /** Reports drawn from `drawn` in any order and number, with `final` among them. */
  ghost predicate Draw(ps: seq<ExecutorTaskPhase>, drawn: set<ExecutorTaskPhase>, final: ExecutorTaskPhase) {
    final in ps && forall p :: p in ps ==> p in drawn
  }

  /** No other final phase is reported, and a cancelled task was never reported running. */
  predicate OneFinal(drawn: set<ExecutorTaskPhase>, final: ExecutorTaskPhase) {
    && (forall p :: p in drawn && p.IsFinished() ==> p == final)
    && (final.Cancelled? ==> ExecutorTaskPhase.Running !in drawn)
  }

  lemma {:induction false} FirstOccurrence(ps: seq<ExecutorTaskPhase>, p: ExecutorTaskPhase) returns (k: nat)
    requires p in ps
    ensures k < |ps| && ps[k] == p && p !in ps[..k]
    decreases |ps|
  {
    var n := |ps| - 1;
    assert ps == ps[..n] + [ps[n]];
    if p in ps[..n] {
      k := FirstOccurrence(ps[..n], p);
      assert ps[..k] == ps[..n][..k];
    } else {
      k := n;
    }
  }

  lemma ConvergesWhenOneFinal(ps: seq<ExecutorTaskPhase>, drawn: set<ExecutorTaskPhase>, final: ExecutorTaskPhase)
    requires final.IsFinished() && OneFinal(drawn, final) && Draw(ps, drawn, final)
    ensures After(TaskStatus.NotStarted, ps) == StatusOf(final)
  {
    var k := FirstOccurrence(ps, final);
    forall j: nat | j < k ensures !Decisive(ps, j) {
      assert ps[j] in ps && ps[j] in ps[..k];
    }
    assert forall p :: p in ps[..k] ==> p in ps;
    FirstDecisiveWins(ps, k);
  }

  /** Convergence, with its exact condition: all sequences drawn from a set of phases end with the
      status of `final` if and only if no other final phase is in the set and, for "cancelled",
      "running" is not in it either. */
  lemma ConvergesExactly(drawn: set<ExecutorTaskPhase>, final: ExecutorTaskPhase)
    requires final in drawn
    requires final in {ExecutorTaskPhase.Cancelled, ExecutorTaskPhase.Stopped, ExecutorTaskPhase.Success, ExecutorTaskPhase.Failed}
    ensures (forall ps :: Draw(ps, drawn, final) ==> After(TaskStatus.NotStarted, ps) == StatusOf(final)) <==>
            && drawn <= {final, ExecutorTaskPhase.NotStarted, ExecutorTaskPhase.Running}
            && (final == ExecutorTaskPhase.Cancelled ==> ExecutorTaskPhase.Running !in drawn)
    ensures StatusOf(final) == match final
                               case Cancelled => TaskStatus.Cancelled
                               case Stopped => TaskStatus.Stopped
                               case Success => TaskStatus.Success
                               case Failed => TaskStatus.Failed
                               case NotStarted => TaskStatus.NotStarted
                               case Running => TaskStatus.Running
  {
    assert OneFinal(drawn, final) <==>
           && drawn <= {final, ExecutorTaskPhase.NotStarted, ExecutorTaskPhase.Running}
           && (final == ExecutorTaskPhase.Cancelled ==> ExecutorTaskPhase.Running !in drawn);
    if OneFinal(drawn, final) {
      forall ps | Draw(ps, drawn, final) ensures After(TaskStatus.NotStarted, ps) == StatusOf(final) {
        ConvergesWhenOneFinal(ps, drawn, final);
      }
    } else {
      var p :| p in drawn && p != final && (p.IsFinished() || (p.Running? && final.Cancelled?));
      var ps := [p, final];
      assert Draw(ps, drawn, final);
      assert ps[..1] == [p] && [p][..0] == [];
      assert After(TaskStatus.NotStarted, []) == TaskStatus.NotStarted;
      assert After(TaskStatus.NotStarted, [p]) == StatusOf(p);
      assert After(TaskStatus.NotStarted, ps) == StatusOf(p) != StatusOf(final);
    }
  }
}
