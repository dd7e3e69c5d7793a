/** Dependency graph of a run config (internal/runconfig/runconfig.go). Go walks its maps in
    a random order: each such walk is a loop that picks any remaining key. */
module RunConfigs {
  import opened RunTypes
  import opened Graph

  /** The direct parents of `t`. A dependency on an id that is not in the config has no parent. */
  ghost function Parents(rcts: RunConfig, t: TaskID): set<TaskID>
    requires t in rcts
  {
    set p | p in rcts && p in rcts[t].depends
  }

  ghost function DependGraph(rcts: RunConfig): Graph<TaskID> {
    map t | t in rcts :: Parents(rcts, t)
  }

  /** Every dependency is on a task of the config. */
  ghost predicate DependsClosed(rc: RunConfig) {
    forall t :: t in rc ==> rc[t].depends.Keys <= rc.Keys
  }

  ghost predicate NoDuplicates<T>(s: seq<T>) {
    forall i, j :: 0 <= i < j < |s| ==> s[i] != s[j]
  }

  lemma ElementsAppend<T>(s: seq<T>, x: T)
    ensures Elements(s + [x]) == Elements(s) + {x}
  {
    forall y | y in Elements(s) + {x} ensures y in s + [x] {
      if y in s { var i :| 0 <= i < |s| && s[i] == y; assert (s + [x])[i] == y; }
      else { assert (s + [x])[|s|] == y; }
    }
  }

  lemma ElementAt<T>(s: seq<T>, x: T) returns (i: nat)
    requires x in Elements(s)
    ensures i < |s| && s[i] == x
  {
    i :| 0 <= i < |s| && s[i] == x;
  }

  method GetParents(rcts: RunConfig, task: TaskID) returns (parents: seq<TaskID>)
    requires task in rcts
    ensures Elements(parents) == Parents(rcts, task) && NoDuplicates(parents)
    ensures forall p :: p in parents <==> p in rcts && p in rcts[task].depends
  {
    parents := [];
    var rest := rcts.Keys;
    while rest != {}
      invariant rest <= rcts.Keys
      invariant Elements(parents) == Parents(rcts, task) - rest && NoDuplicates(parents)
      decreases rest
    {
      var t :| t in rest;
      rest := rest - {t};
      if t in rcts[task].depends {
        assert t !in Elements(parents);
        ElementsAppend(parents, t);
        parents := parents + [t];
      }
    }
    assert forall p :: p in parents <==> p in Elements(parents);
  }

  // ---------------------------------------------------------------- all parents

  /** What the worklist of GetAllParents keeps: everything seen is reachable, and every parent
      of the task or of a visited task is visited or still waiting. */
  ghost predicate WorklistInv<T(!new)>(g: Graph<T>, t: T, visited: set<T>, waiting: set<T>) {
    && t in g && Closed(g)
    && (forall v :: v in visited + waiting ==> v in g && Reaches(g, t, v))
    && g[t] <= visited + waiting
    && (forall v :: v in visited && v in g ==> g[v] <= visited + waiting)
  }

  lemma WorklistStart<T(!new)>(g: Graph<T>, t: T)
    requires t in g && Closed(g)
    ensures WorklistInv(g, t, {}, g[t])
  {
    forall v | v in g[t] ensures Reaches(g, t, v) { EdgeReaches(g, t, v); }
  }

  lemma WorklistVisit<T(!new)>(g: Graph<T>, t: T, visited: set<T>, waiting: set<T>, v: T)
    requires WorklistInv(g, t, visited, waiting) && v in waiting && v in g
    ensures WorklistInv(g, t, visited + {v}, waiting - {v} + g[v])
  {
    forall w | w in g[v] ensures Reaches(g, t, w) { ReachesEdge(g, t, v, w); }
  }

  lemma WorklistDone<T(!new)>(g: Graph<T>, t: T, visited: set<T>)
    requires WorklistInv(g, t, visited, {})
    ensures forall v :: v in visited <==> Reaches(g, t, v)
  {
    forall v | Reaches(g, t, v) ensures v in visited {
      var p :| |p| >= 2 && PathFromTo(g, p, t, v);
      ClosedSetCatchesPath(g, visited, p);
    }
  }

  /** Terminates on cyclic graphs too, and then lists the task as its own parent. */
  method GetAllParents(rcts: RunConfig, task: TaskID) returns (parents: seq<TaskID>)
    requires task in rcts
    ensures NoDuplicates(parents)
    ensures forall p :: p in parents <==> Reaches(DependGraph(rcts), task, p)
  {
    ghost var g := DependGraph(rcts);
    var pMap: set<TaskID> := {};
    var nextParents := GetParents(rcts, task);
    WorklistStart(g, task);
    while |nextParents| > 0
      invariant pMap <= rcts.Keys
      invariant WorklistInv(g, task, pMap, Elements(nextParents))
      decreases rcts.Keys - pMap, |nextParents|
    {
      ghost var before := pMap;
      var level := nextParents;
      nextParents := [];
      var i := 0;
      assert level[i..] == level;
      while i < |level|
        invariant 0 <= i <= |level|
        invariant before <= pMap <= rcts.Keys
        invariant pMap == before ==> nextParents == []
        invariant WorklistInv(g, task, pMap, Elements(level[i..]) + Elements(nextParents))
      {
        pMap, nextParents := VisitParent(rcts, task, pMap, nextParents, level, i);
        i := i + 1;
      }
      assert Elements(level[i..]) == {};
      assert Elements(level[i..]) + Elements(nextParents) == Elements(nextParents);
    }
    assert Elements(nextParents) == {};
    WorklistDone(g, task, pMap);
    parents := ListOf(pMap);
    assert forall p :: p in parents <==> p in Elements(parents);
  }

  /** One turn of the inner loop of GetAllParents: the `i`-th task of the current level. */
  method VisitParent(rcts: RunConfig, ghost task: TaskID, pMap: set<TaskID>, nextParents: seq<TaskID>,
                     level: seq<TaskID>, i: nat) returns (pMap': set<TaskID>, next: seq<TaskID>)
    requires i < |level| && pMap <= rcts.Keys
    requires WorklistInv(DependGraph(rcts), task, pMap, Elements(level[i..]) + Elements(nextParents))
    ensures pMap <= pMap' <= rcts.Keys && (pMap' == pMap ==> next == nextParents)
    ensures WorklistInv(DependGraph(rcts), task, pMap', Elements(level[i + 1..]) + Elements(next))
  {
    var parent := level[i];
    if parent in pMap {
      pMap', next := pMap, nextParents;
      WorklistTurn(DependGraph(rcts), task, pMap, level, i, nextParents, []);
    } else {
      assert parent in Elements(level[i..]) by { assert level[i..][0] == parent; }
      var ps := GetParents(rcts, parent);
      WorklistTurn(DependGraph(rcts), task, pMap, level, i, nextParents, ps);
      pMap', next := pMap + {parent}, nextParents + ps;
    }
  }

  /** Taking `level[i]` off the worklist: skipped if it was seen, replaced by its parents if not. */
  lemma WorklistTurn<T(!new)>(g: Graph<T>, t: T, visited: set<T>, level: seq<T>, i: nat, next: seq<T>, parents: seq<T>)
    requires i < |level| && WorklistInv(g, t, visited, Elements(level[i..]) + Elements(next))
    ensures level[i] in g
    ensures level[i] in visited ==> WorklistInv(g, t, visited, Elements(level[i + 1..]) + Elements(next))
    ensures level[i] !in visited && Elements(parents) == g[level[i]] ==>
              WorklistInv(g, t, visited + {level[i]}, Elements(level[i + 1..]) + Elements(next + parents))
  {
    var parent := level[i];
    var waiting, later := Elements(level[i..]) + Elements(next), Elements(level[i + 1..]);
    assert Elements(level[i..]) == {parent} + later by {
      assert level[i..] == [parent] + level[i + 1..];
    }
    assert parent in waiting;
    if parent in visited {
      WorklistSame(g, t, visited, waiting, later + Elements(next));
    } else if Elements(parents) == g[parent] {
      WorklistVisit(g, t, visited, waiting, parent);
      assert Elements(next + parents) == Elements(next) + g[parent];
      WorklistSame(g, t, visited + {parent}, waiting - {parent} + g[parent], later + Elements(next + parents));
    }
  }

  lemma WorklistSame<T(!new)>(g: Graph<T>, t: T, visited: set<T>, w: set<T>, w': set<T>)
    requires WorklistInv(g, t, visited, w) && visited + w == visited + w'
    ensures WorklistInv(g, t, visited, w')
  {
    assert forall v :: v in visited + w <==> v in visited + w';
  }

  method ListOf(s: set<TaskID>) returns (l: seq<TaskID>)
    ensures Elements(l) == s && NoDuplicates(l)
  {
    l := [];
    var rest := s;
    while rest != {}
      invariant rest <= s && Elements(l) == s - rest && NoDuplicates(l)
      decreases rest
    {
      var t :| t in rest;
      rest := rest - {t};
      assert t !in Elements(l);
      ElementsAppend(l, t);
      l := l + [t];
    }
  }

  // ---------------------------------------------------------------- the check

  datatype CheckError = Circular(tasks: set<TaskID>) | CommonDependency(task: TaskID, parent: TaskID, common: TaskID)

  lemma NoRedundantMeans(rcts: RunConfig)
    ensures NoRedundantEdge(DependGraph(rcts)) <==>
            forall t, via, p :: t in rcts && via in rcts && p in rcts && via in rcts[t].depends && p in rcts[t].depends ==>
              !Reaches(DependGraph(rcts), via, p)
  {
    hide Reaches;
    var g := DependGraph(rcts);
    forall t, via, p ensures Redundant(g, t, via, p) <==>
      t in rcts && via in rcts && p in rcts && via in rcts[t].depends && p in rcts[t].depends && Reaches(g, via, p) { }
  }

  /** Accepts exactly the acyclic configs without an edge implied by a longer path. The cycle
      error names all tasks that lie on a cycle. */
  method CheckRunConfigTasks(rcts: RunConfig) returns (err: Option<CheckError>)
    ensures err.None? <==> Acyclic(DependGraph(rcts)) && NoRedundantEdge(DependGraph(rcts))
    ensures err.None? <==>
            && (forall t :: t in rcts ==> !Reaches(DependGraph(rcts), t, t))
            && forall t, via, p :: t in rcts && via in rcts && p in rcts && via in rcts[t].depends && p in rcts[t].depends ==>
                 !Reaches(DependGraph(rcts), via, p)
    ensures err.Some? && err.value.Circular? <==> !Acyclic(DependGraph(rcts))
    ensures err.Some? && err.value.Circular? ==>
              forall t :: t in err.value.tasks <==> t in rcts && Reaches(DependGraph(rcts), t, t)
    ensures err.Some? && err.value.CommonDependency? ==>
              Redundant(DependGraph(rcts), err.value.task, err.value.parent, err.value.common)
  {
    ghost var g := DependGraph(rcts);
    NoRedundantMeans(rcts);
    var cerrs: set<TaskID> := {};
    var rest := rcts.Keys;
    while rest != {}
      invariant rest <= rcts.Keys
      invariant forall t :: t in cerrs <==> t in rcts && t !in rest && Reaches(g, t, t)
      decreases rest
    {
      var t :| t in rest;
      rest := rest - {t};
      var allParents := GetAllParents(rcts, t);
      if t in allParents {
        cerrs := cerrs + {t};
      }
    }
    if cerrs != {} {
      var t :| t in cerrs;
      assert Reaches(g, t, t);
      return Some(Circular(cerrs));
    }
    assert Acyclic(g);
    rest := rcts.Keys;
    while rest != {}
      invariant rest <= rcts.Keys
      invariant forall t, via, p :: t !in rest ==> !Redundant(g, t, via, p)
      decreases rest
    {
      var t :| t in rest;
      rest := rest - {t};
      var hit := CommonDependencyOf(rcts, t);
      if hit.Some? {
        return Some(CommonDependency(t, hit.value.0, hit.value.1));
      }
    }
    return None;
  }

  /** The body of the second outer loop of CheckRunConfigTasks, for one task. */
  method CommonDependencyOf(rcts: RunConfig, t: TaskID) returns (hit: Option<(TaskID, TaskID)>)
    requires t in rcts
    ensures hit.Some? ==> Redundant(DependGraph(rcts), t, hit.value.0, hit.value.1)
    ensures hit.None? ==> forall via, p :: !Redundant(DependGraph(rcts), t, via, p)
  {
    ghost var g := DependGraph(rcts);
    var parents := GetParents(rcts, t);
    for i := 0 to |parents|
      invariant forall k, p :: 0 <= k < i ==> !Redundant(g, t, parents[k], p)
    {
      assert parents[i] in Elements(parents);
      var above := GetAllParents(rcts, parents[i]);
      for j := 0 to |parents|
        invariant forall k :: 0 <= k < j ==> !Redundant(g, t, parents[i], parents[k])
      {
        assert parents[j] in Elements(parents);
        if parents[j] in above {
          return Some((parents[i], parents[j]));
        }
      }
      forall p ensures !Redundant(g, t, parents[i], p) {
        if p in g[t] { assert p in Elements(parents); }
      }
    }
    forall via, p ensures !Redundant(g, t, via, p) {
      if via in g[t] { assert via in Elements(parents); }
    }
    return None;
  }

  // ---------------------------------------------------------------- levels

  ghost function Levels(rcts: RunConfig): map<TaskID, int> {
    map t | t in rcts :: rcts[t].level
  }

  /** `t` is on a cycle or has one among its ancestors. */
  ghost predicate LeadsToCycle(g: Graph<TaskID>, t: TaskID) {
    exists c :: Reaches(g, c, c) && (c == t || Reaches(g, t, c))
  }

  ghost predicate ParentsBelow(g: Graph<TaskID>, lv: map<TaskID, int>, t: TaskID, level: int) {
    t in g && forall p :: p in g[t] ==> p in lv && 0 <= lv[p] < level
  }

  /** All parents of `t` have a level, a lower one. */
  ghost predicate ParentsLower(g: Graph<TaskID>, lv: map<TaskID, int>, t: TaskID) {
    t in lv && ParentsBelow(g, lv, t, lv[t])
  }

  ghost predicate ParentAt(g: Graph<TaskID>, lv: map<TaskID, int>, t: TaskID, level: int) {
    t in g && exists p :: p in g[t] && p in lv && lv[p] == level
  }

  /** A parent of `t` has no level, or has level `level`. */
  ghost predicate Blocked(g: Graph<TaskID>, lv: map<TaskID, int>, t: TaskID, level: int) {
    ParentAt(g, lv, t, -1) || ParentAt(g, lv, t, level)
  }

  /** Below level 0 no task is stuck; a stuck task cannot get a level below `level`. */
  ghost predicate Stuck(g: Graph<TaskID>, lv: map<TaskID, int>, t: TaskID, level: int) {
    level > 0 ==> Blocked(g, lv, t, level - 1)
  }

  ghost predicate HasTopParent(g: Graph<TaskID>, lv: map<TaskID, int>, t: TaskID) {
    t in lv && (lv[t] > 0 ==> ParentAt(g, lv, t, lv[t] - 1))
  }

  /** The state before the pass for `level`: lower levels are final, and a task without a level
      has a parent that rules out all levels below `level`. */
  ghost predicate PassInv(g: Graph<TaskID>, lv: map<TaskID, int>, level: int) {
    && Closed(g) && lv.Keys == g.Keys
    && (forall t :: t in lv ==> -1 <= lv[t] < level)
    && (forall t {:trigger ParentsLower(g, lv, t)} :: t in lv && lv[t] >= 0 ==> ParentsLower(g, lv, t))
    && (forall t {:trigger HasTopParent(g, lv, t)} :: t in lv ==> HasTopParent(g, lv, t))
    && (forall t {:trigger Stuck(g, lv, t, level)} :: t in lv && lv[t] == -1 ==> Stuck(g, lv, t, level))
  }

  /** In the middle of the pass for `level`, which began with `lv0`; `done` are the tasks seen. */
  ghost predicate InPass(g: Graph<TaskID>, lv0: map<TaskID, int>, lv: map<TaskID, int>, level: int, done: set<TaskID>) {
    && lv.Keys == lv0.Keys == g.Keys
    && (forall t :: t in lv ==> lv[t] == lv0[t] || (lv0[t] == -1 && lv[t] == level && t in done))
    && (forall t {:trigger ParentsBelow(g, lv0, t, level)} :: t in lv && lv[t] == level ==> ParentsBelow(g, lv0, t, level))
    && (forall t {:trigger Blocked(g, lv, t, level)} :: t in done && t in lv && lv[t] == -1 ==> Blocked(g, lv, t, level))
  }

  lemma BlockedStays(g: Graph<TaskID>, lv: map<TaskID, int>, t: TaskID, u: TaskID, level: int)
    requires Blocked(g, lv, t, level) && u in lv && lv[u] == -1
    ensures Blocked(g, lv[u := level], t, level)
  {
    var lv' := lv[u := level];
    if ParentAt(g, lv, t, -1) {
      var p :| p in g[t] && p in lv && lv[p] == -1;
      assert p in lv' && (lv'[p] == -1 || lv'[p] == level);
    } else {
      var p :| p in g[t] && p in lv && lv[p] == level;
      assert p in lv' && (lv'[p] == -1 || lv'[p] == level);
    }
  }

  lemma PassEnds(g: Graph<TaskID>, lv0: map<TaskID, int>, lv: map<TaskID, int>, level: nat)
    requires PassInv(g, lv0, level) && InPass(g, lv0, lv, level, g.Keys)
    ensures PassInv(g, lv, level + 1)
  {
    forall t | t in lv && lv[t] >= 0 ensures ParentsLower(g, lv, t) {
      if lv[t] == level { assert ParentsBelow(g, lv0, t, level); } else { assert ParentsLower(g, lv0, t); }
    }
    forall t | t in lv ensures HasTopParent(g, lv, t) {
      assert HasTopParent(g, lv0, t);
      if lv[t] == level > 0 {
        assert ParentsBelow(g, lv0, t, level) && lv0[t] == -1 && Stuck(g, lv0, t, level);
        assert Blocked(g, lv0, t, level - 1);
        assert !ParentAt(g, lv0, t, -1);
        var p :| p in g[t] && p in lv0 && lv0[p] == level - 1;
        assert p in lv && lv[p] == level - 1;
      } else if lv[t] > 0 {
        var p :| p in g[t] && p in lv0 && lv0[p] == lv0[t] - 1;
        assert p in lv && lv[p] == lv[t] - 1;
      }
    }
    forall t | t in lv && lv[t] == -1 ensures Stuck(g, lv, t, level + 1) {
      assert Blocked(g, lv, t, level);
    }
  }

  lemma PassStep(g: Graph<TaskID>, lv0: map<TaskID, int>, lv: map<TaskID, int>, level: nat, done: set<TaskID>,
                 t: TaskID, ok: bool)
    requires PassInv(g, lv0, level) && InPass(g, lv0, lv, level, done) && t in g && t !in done && lv[t] == -1
    requires ok <==> forall p :: p in g[t] ==> lv[p] != -1 && lv[p] < level
    ensures InPass(g, lv0, if ok then lv[t := level] else lv, level, done + {t})
  {
    var lv' := if ok then lv[t := level] else lv;
    if ok {
      forall u | u in lv' && lv'[u] == level ensures ParentsBelow(g, lv0, u, level) {
        if u != t { assert lv[u] == level; } else { assert forall p :: p in g[t] ==> p in lv0 && lv[p] == lv0[p]; }
      }
      forall u | u in done + {t} && u in lv' && lv'[u] == -1 ensures Blocked(g, lv', u, level) {
        assert Blocked(g, lv, u, level);
        BlockedStays(g, lv, u, t, level);
      }
    } else {
      var p :| p in g[t] && !(lv[p] != -1 && lv[p] < level);
      assert p in lv && (lv[p] == -1 || lv[p] == level);
      assert ParentAt(g, lv, t, lv[p]);
    }
  }

  /** After a pass that set nothing, the tasks without a level are those that lead to a cycle. */
  lemma FixpointSplits(g: Graph<TaskID>, lv: map<TaskID, int>, level: nat)
    requires PassInv(g, lv, level) && PassInv(g, lv, level + 1)
    ensures forall t :: t in g ==> (lv[t] == -1 <==> LeadsToCycle(g, t))
  {
    var u := set t | t in g && lv[t] == -1;
    forall v | v in u ensures g[v] * u != {} {
      assert Stuck(g, lv, v, level + 1);
      assert Blocked(g, lv, v, level) && !ParentAt(g, lv, v, level);
      var p :| p in g[v] && p in lv && lv[p] == -1;
      assert p in g[v] * u;
    }
    assert NoSink(g, u);
    forall t | t in g ensures lv[t] == -1 <==> LeadsToCycle(g, t) {
      if t in u {
        var c := NoSinkMeansCycle(g, u, t);
      } else if LeadsToCycle(g, t) {
        var c :| Reaches(g, c, c) && (c == t || Reaches(g, t, c));
        if c != t { RankedReach(g, lv, level, t, c); }
        RankedReach(g, lv, level, c, c);
      }
    }
  }

  lemma AllLevelsSet(g: Graph<TaskID>, lv: map<TaskID, int>, level: nat)
    requires PassInv(g, lv, level)
    requires forall t :: t in g ==> (lv[t] == -1 <==> LeadsToCycle(g, t))
    ensures (forall t :: t in g ==> lv[t] != -1) <==> Acyclic(g)
    ensures (forall t :: t in g ==> lv[t] != -1) ==> IsLevelling(g, lv)
  {
    if t :| t in g && Reaches(g, t, t) {
      assert LeadsToCycle(g, t);
    }
    if t :| t in g && lv[t] == -1 {
      var c :| Reaches(g, c, c) && (c == t || Reaches(g, t, c));
      assert c in g;
    } else {
      forall t, p | t in g && p in g[t] ensures p in lv && lv[p] < lv[t] {
        assert ParentsLower(g, lv, t);
      }
      forall t | t in g && lv[t] > 0 ensures exists p :: p in g[t] && p in lv && lv[p] == lv[t] - 1 {
        assert HasTopParent(g, lv, t);
      }
    }
  }

  lemma RankedReach(g: Graph<TaskID>, lv: map<TaskID, int>, level: nat, a: TaskID, b: TaskID)
    requires PassInv(g, lv, level) && Reaches(g, a, b)
    ensures a in g && b in g && (lv[a] >= 0 ==> 0 <= lv[b] < lv[a])
  {
    var p :| |p| >= 2 && PathFromTo(g, p, a, b);
    for k := 1 to |p|
      invariant k >= 1 && lv[a] >= 0 ==> 0 <= lv[p[k - 1]] && (k > 1 ==> lv[p[k - 1]] < lv[a])
    {
      assert p[k - 1 + 1] in g[p[k - 1]];
      if lv[a] >= 0 { assert ParentsLower(g, lv, p[k - 1]); }
    }
  }

  ghost predicate EqualButLevels(a: RunConfig, b: RunConfig) {
    a.Keys == b.Keys && forall t :: t in a ==> a[t] == b[t].(level := a[t].level)
  }

  ghost function WithoutLevel(rcts: RunConfig): set<TaskID> {
    set t | t in rcts && rcts[t].level == -1
  }

  lemma SameGraph(a: RunConfig, b: RunConfig)
    requires EqualButLevels(b, a)
    ensures DependGraph(a) == DependGraph(b)
  {
    forall t | t in a ensures Parents(a, t) == Parents(b, t) {
      assert a[t].depends == b[t].depends;
    }
  }

  lemma LevelsKeepClosed(a: RunConfig, b: RunConfig)
    requires EqualButLevels(b, a) && DependsClosed(a)
    ensures DependsClosed(b)
  {
    forall t | t in b ensures b[t].depends.Keys <= b.Keys {
      assert a[t].depends == b[t].depends;
    }
  }

  /** A pass over `start` that still has to see `rest`. */
  ghost predicate PassState(start: RunConfig, now: RunConfig, level: nat, rest: set<TaskID>) {
    && EqualButLevels(now, start) && rest <= now.Keys
    && InPass(DependGraph(start), Levels(start), Levels(now), level, start.Keys - rest)
  }

  lemma SetLevel(start: RunConfig, now: RunConfig, t: TaskID, level: nat)
    requires t in now && now[t].level == -1 && EqualButLevels(now, start)
    ensures var next := now[t := now[t].(level := level)];
            && Levels(next) == Levels(now)[t := level] && WithoutLevel(next) < WithoutLevel(now)
            && EqualButLevels(next, start) && next.Keys == now.Keys
  {
    assert t in WithoutLevel(now);
  }

  lemma InPassSkips(g: Graph<TaskID>, lv0: map<TaskID, int>, lv: map<TaskID, int>, level: nat, done: set<TaskID>, t: TaskID)
    requires InPass(g, lv0, lv, level, done) && t in g && lv[t] != -1
    ensures InPass(g, lv0, lv, level, done + {t})
  {
  }

  lemma PassStateStep(start: RunConfig, now: RunConfig, next: RunConfig, level: nat, rest: set<TaskID>, t: TaskID, done: bool)
    requires PassInv(DependGraph(start), Levels(start), level)
    requires PassState(start, now, level, rest) && t in rest
    requires done <==> now[t].level == -1 &&
                       forall p :: p in Parents(now, t) ==> now[p].level != -1 && now[p].level < level
    requires next == if done then now[t := now[t].(level := level)] else now
    ensures PassState(start, next, level, rest - {t})
    ensures if done then WithoutLevel(next) < WithoutLevel(now) else next == now
  {
    var g, lv, seen := DependGraph(start), Levels(now), start.Keys - rest;
    assert start.Keys - (rest - {t}) == seen + {t};
    assert done <==> lv[t] == -1 && forall p :: p in g[t] ==> lv[p] != -1 && lv[p] < level by {
      SameGraph(start, now);
      assert g[t] == Parents(now, t);
    }
    if done { SetLevel(start, now, t, level); }
    if lv[t] == -1 {
      PassStep(g, Levels(start), lv, level, seen, t, done);
    } else {
      InPassSkips(g, Levels(start), lv, level, seen, t);
    }
  }

  lemma PassStateStart(start: RunConfig, level: nat)
    requires PassInv(DependGraph(start), Levels(start), level)
    ensures PassState(start, start, level, start.Keys)
  {
  }

  lemma PassStateEnd(start: RunConfig, now: RunConfig, level: nat)
    requires PassInv(DependGraph(start), Levels(start), level) && PassState(start, now, level, {})
    ensures PassInv(DependGraph(now), Levels(now), level + 1)
  {
    SameGraph(start, now);
    assert start.Keys - {} == DependGraph(start).Keys;
    PassEnds(DependGraph(start), Levels(start), Levels(now), level);
  }

  /** The run config tasks, whose `level` fields are written in place. */
  class TaskTable {
    var tasks: RunConfig

    constructor (rcts: RunConfig)
      ensures tasks == rcts
    {
      tasks := rcts;
    }

    ghost predicate SameButLevels(rcts: RunConfig)
      reads this
    {
      EqualButLevels(tasks, rcts)
    }

    method ResetLevels()
      modifies this
      ensures SameButLevels(old(tasks))
      ensures forall t :: t in tasks ==> tasks[t].level == -1
    {
      var rest := tasks.Keys;
      while rest != {}
        invariant rest <= tasks.Keys && SameButLevels(old(tasks))
        invariant forall t :: t in tasks && t !in rest ==> tasks[t].level == -1
        decreases rest
      {
        var t :| t in rest;
        rest := rest - {t};
        tasks := tasks[t := tasks[t].(level := -1)];
      }
    }

    /** Whether all parents of `t` have a level below `level`. */
    method ParentsBelow(t: TaskID, level: nat) returns (ok: bool)
      requires t in tasks
      ensures ok <==> forall p :: p in Parents(tasks, t) ==> tasks[p].level != -1 && tasks[p].level < level
    {
      var parents := GetParents(tasks, t);
      ok := true;
      for i := 0 to |parents|
        invariant forall k :: 0 <= k < |parents| ==> parents[k] in Elements(parents)
        invariant ok <==> forall k :: 0 <= k < i ==> tasks[parents[k]].level != -1 && tasks[parents[k]].level < level
      {
        if tasks[parents[i]].level == -1 || tasks[parents[i]].level >= level {
          ok := false;
        }
      }
      assert forall p :: p in Parents(tasks, t) ==> p in Elements(parents);
    }

    /** Sets the level of `t` if it has none yet and all its parents are below `level`. */
    method LevelTask(t: TaskID, level: nat) returns (done: bool)
      requires t in tasks
      modifies this
      ensures done <==> old(tasks)[t].level == -1 &&
                        forall p :: p in Parents(old(tasks), t) ==> old(tasks)[p].level != -1 && old(tasks)[p].level < level
      ensures tasks == if done then old(tasks)[t := old(tasks)[t].(level := level)] else old(tasks)
    {
      done := false;
      if tasks[t].level == -1 {
        done := ParentsBelow(t, level);
        if done {
          tasks := tasks[t := tasks[t].(level := level)];
        }
      }
    }

    /** One pass over all tasks; `c` counts the levels set. */
    method LevelPass(level: nat) returns (c: nat)
      requires PassInv(DependGraph(tasks), Levels(tasks), level)
      modifies this
      ensures SameButLevels(old(tasks))
      ensures PassInv(DependGraph(tasks), Levels(tasks), level + 1)
      ensures c == 0 ==> tasks == old(tasks)
      ensures c > 0 ==> WithoutLevel(tasks) < WithoutLevel(old(tasks))
    {
      c := 0;
      ghost var start := tasks;
      var rest := tasks.Keys;
      PassStateStart(start, level);
      while rest != {}
        invariant PassState(start, tasks, level, rest)
        invariant if c == 0 then tasks == start else WithoutLevel(tasks) < WithoutLevel(start)
        decreases rest
      {
        var t :| t in rest;
        ghost var before := tasks;
        var done := LevelTask(t, level);
        PassStateStep(start, before, tasks, level, rest, t, done);
        rest := rest - {t};
        if done { c := c + 1; }
      }
      PassStateEnd(start, tasks, level);
    }

    /** Succeeds exactly on acyclic graphs. Then each level is the longest dependency path;
        otherwise exactly the tasks that lead to a cycle are left without a level. */
    method GenTasksLevels() returns (ok: bool)
      modifies this
      ensures SameButLevels(old(tasks)) && DependGraph(tasks) == DependGraph(old(tasks))
      ensures ok <==> Acyclic(DependGraph(tasks))
      ensures ok ==> IsLevelling(DependGraph(tasks), Levels(tasks))
      ensures forall t :: t in tasks ==> (tasks[t].level == -1 <==> LeadsToCycle(DependGraph(tasks), t))
    {
      ResetLevels();
      SameGraph(old(tasks), tasks);
      ghost var g := DependGraph(tasks);
      var level := 0;
      while true
        invariant SameButLevels(old(tasks)) && DependGraph(tasks) == g
        invariant PassInv(g, Levels(tasks), level)
        decreases WithoutLevel(tasks)
      {
        ghost var before := Levels(tasks);
        var c := LevelPass(level);
        SameGraph(old(tasks), tasks);
        if c == 0 {
          assert Levels(tasks) == before;
          break;
        }
        level := level + 1;
      }
      FixpointSplits(g, Levels(tasks), level);
      AllLevelsSet(g, Levels(tasks), level);
      ok := AllHaveLevels();
      assert forall t :: t in tasks ==> tasks[t].level == Levels(tasks)[t];
    }

    method AllHaveLevels() returns (ok: bool)
      ensures ok <==> forall t :: t in tasks ==> tasks[t].level != -1
    {
      var rest := tasks.Keys;
      while rest != {}
        invariant rest <= tasks.Keys
        invariant forall t :: t in tasks && t !in rest ==> tasks[t].level != -1
        decreases rest
      {
        var t :| t in rest;
        rest := rest - {t};
        if tasks[t].level == -1 {
          return false;
        }
      }
      return true;
    }
  }
}
