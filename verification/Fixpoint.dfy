/** Repeated advancing of the tasks of a run, with no event from outside in between. */
module Fixpoint {
  import opened RunTypes
  import opened Graph
  import opened RunConfigs
  import opened Scheduler

  ghost function Repeated(rc: RunConfig, r: Run, scheduled: set<TaskID>, n: nat): (r': Run)
    requires Fits(rc, r)
    ensures Fits(rc, r') && r'.stop == r.stop && r'.result == r.result
    decreases n
  {
    if n == 0 then r else AdvancedTasks(rc, Repeated(rc, r, scheduled, n - 1), scheduled)
  }

  ghost predicate SameParents(rc: RunConfig, a: Run, b: Run, t: TaskID)
    requires t in rc
  {
    forall p :: p in Parents(rc, t) ==> p in a.tasks && p in b.tasks && a.tasks[p] == b.tasks[p]
  }

  lemma SameParentsSameDecision(rc: RunConfig, a: Run, b: Run, t: TaskID, rt: RunTask)
    requires t in rc && SameParents(rc, a, b, t)
    ensures DecideTask(rc, a, t, rt) == DecideTask(rc, b, t, rt)
  {
    assert ParentsDone(rc, a, t) <==> ParentsDone(rc, b, t);
    assert forall p :: p in Parents(rc, t) ==> (EdgeMatches(rc, a, t, p) <==> EdgeMatches(rc, b, t, p));
    assert DependsMatch(rc, a, t) <==> DependsMatch(rc, b, t);
  }

  /** A task that was advanced once stays as it is until one of its parents changes. */
  lemma AdvancedOnceIsEnough(rc: RunConfig, a: Run, b: Run, scheduled: set<TaskID>, t: TaskID)
    requires t in rc && t in a.tasks && t in b.tasks && a.stop == b.stop && a.result == b.result
    requires SameParents(rc, a, b, t) && b.tasks[t] == AdvancedTask(rc, a, scheduled, t)
    ensures AdvancedTask(rc, b, scheduled, t) == b.tasks[t]
  {
    SameParentsSameDecision(rc, a, b, t, b.tasks[t]);
  }

  /** A task of level `l` has its final state after `l + 1` applications. */
  lemma {:induction false} SettledAfterItsLevel(rc: RunConfig, r: Run, scheduled: set<TaskID>, lv: map<TaskID, int>, n: nat, t: TaskID)
    requires Fits(rc, r) && IsLevelling(DependGraph(rc), lv) && t in rc && t in lv && 0 <= lv[t] < n
    ensures Repeated(rc, r, scheduled, n + 1).tasks[t] == Repeated(rc, r, scheduled, n).tasks[t]
    decreases n
  {
    hide DecideTask, CancelRoot, StopTask, AdvancedTask, IsLevelling, DependGraph;
    var a, b := Repeated(rc, r, scheduled, n - 1), Repeated(rc, r, scheduled, n);
    forall p | p in Parents(rc, t) ensures a.tasks[p] == b.tasks[p] {
      ParentIsLower(rc, lv, t, p);
      SettledAfterItsLevel(rc, r, scheduled, lv, n - 1, p);
    }
    assert b.tasks[t] == AdvancedTask(rc, a, scheduled, t);
    AdvancedOnceIsEnough(rc, a, b, scheduled, t);
  }

  lemma LevelIsNat(rc: RunConfig, lv: map<TaskID, int>, t: TaskID)
    requires IsLevelling(DependGraph(rc), lv) && t in rc
    ensures t in lv && 0 <= lv[t]
  {
  }

  lemma ParentIsLower(rc: RunConfig, lv: map<TaskID, int>, t: TaskID, p: TaskID)
    requires IsLevelling(DependGraph(rc), lv) && t in rc && p in Parents(rc, t)
    ensures p in rc && p in lv && t in lv && 0 <= lv[p] < lv[t]
  {
    assert p in DependGraph(rc)[t];
  }

  /** As many applications as the graph has levels reach a fixpoint. */
  lemma FixpointWithinLevels(rc: RunConfig, r: Run, scheduled: set<TaskID>, lv: map<TaskID, int>, levels: nat)
    requires Fits(rc, r) && IsLevelling(DependGraph(rc), lv)
    requires forall t :: t in rc ==> t in lv && lv[t] < levels
    ensures AdvancedTasks(rc, Repeated(rc, r, scheduled, levels), scheduled) == Repeated(rc, r, scheduled, levels)
  {
    hide AdvancedTask, IsLevelling, DependGraph;
    var a := Repeated(rc, r, scheduled, levels);
    var b := Repeated(rc, r, scheduled, levels + 1);
    assert b == AdvancedTasks(rc, a, scheduled);
    forall t | t in a.tasks ensures b.tasks[t] == a.tasks[t] {
      LevelIsNat(rc, lv, t);
      SettledAfterItsLevel(rc, r, scheduled, lv, levels, t);
    }
    assert a.tasks == b.tasks;
  }

  /** In an acyclic config, as many applications as there are tasks are always enough. */
  lemma FixpointWithinTaskCount(rc: RunConfig, r: Run, scheduled: set<TaskID>)
    requires Fits(rc, r) && Acyclic(DependGraph(rc))
    ensures AdvancedTasks(rc, Repeated(rc, r, scheduled, |rc|), scheduled) == Repeated(rc, r, scheduled, |rc|)
  {
    hide Acyclic;
    var g := DependGraph(rc);
    var lv := AcyclicHasLevelling(g);
    assert g.Keys == rc.Keys && |g| == |g.Keys| == |rc.Keys|;
    forall t | t in rc ensures lv[t] < |rc| { LevelBelowCount(g, lv, t); }
    FixpointWithinLevels(rc, r, scheduled, lv, |rc|);
  }
}
