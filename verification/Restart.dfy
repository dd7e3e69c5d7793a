/** Restarting a finished run (recreateRun in internal/services/runservice/action/action.go): tasks that
    have to run again get new ids in a copy of the run config, the others stay as they are. */
module Restart {
  import opened RunTypes
  import opened Graph
  import opened RunConfigs
  import opened Scheduler
  import opened RunStore

  // ---------------------------------------------------------------- renaming

  function RenameKey<T>(d: map<TaskID, T>, from: TaskID, to: TaskID): map<TaskID, T> {
    if from in d then (d - {from})[to := d[from]] else d
  }

  ghost predicate HasSource<T>(d: map<TaskID, T>, f: map<TaskID, TaskID>, m: TaskID) {
    exists k :: k in d && k in f && f[k] == m
  }

  /** `e` is `d` with its keys renamed. */
  ghost predicate KeysRenamed<T(!new)>(d: map<TaskID, T>, e: map<TaskID, T>, f: map<TaskID, TaskID>) {
    && (forall k :: k in d ==> k in f && f[k] in e && e[f[k]] == d[k])
    && (forall m :: m in e ==> HasSource(d, f, m))
  }

  /** `y` is `x` with its dependencies under new ids. */
  ghost predicate OnlyRenamed(x: RunConfigTask, y: RunConfigTask, f: map<TaskID, TaskID>) {
    y == x.(depends := y.depends) && KeysRenamed(x.depends, y.depends, f)
  }

  /** `rc` is `rc0` with each task `a` under the id `f[a]`. */
  ghost predicate RenamedBy(rc0: RunConfig, rc: RunConfig, f: map<TaskID, TaskID>) {
    && f.Keys == rc0.Keys
    && (forall a, b :: a in f && b in f && f[a] == f[b] ==> a == b)
    && (forall a :: a in f ==> f[a] in rc && OnlyRenamed(rc0[a], rc[f[a]], f))
    && (forall t :: t in rc ==> exists a :: a in f && f[a] == t)
  }

  ghost function Moved(f: map<TaskID, TaskID>, from: TaskID, to: TaskID): map<TaskID, TaskID> {
    map a | a in f :: if f[a] == from then to else f[a]
  }

  lemma RenamedSelf(rc: RunConfig)
    requires DependsClosed(rc)
    ensures RenamedBy(rc, rc, map t | t in rc :: t)
  {
    var f := map t: TaskID | t in rc :: t;
    forall a | a in f ensures OnlyRenamed(rc[a], rc[f[a]], f) { }
  }

  lemma SourceMoves<T>(d: map<TaskID, T>, f: map<TaskID, TaskID>, from: TaskID, to: TaskID, m: TaskID)
    requires HasSource(d, f, m)
    ensures HasSource(d, Moved(f, from, to), if m == from then to else m)
  {
    var k :| k in d && k in f && f[k] == m;
    assert Moved(f, from, to)[k] == if m == from then to else m;
  }

  lemma KeysStep<T(!new)>(d: map<TaskID, T>, e: map<TaskID, T>, f: map<TaskID, TaskID>, from: TaskID, to: TaskID)
    requires KeysRenamed(d, e, f) && to !in e
    ensures KeysRenamed(d, RenameKey(e, from, to), Moved(f, from, to))
  {
    hide HasSource;
    var f', e' := Moved(f, from, to), RenameKey(e, from, to);
    forall k | k in d ensures k in f' && f'[k] in e' && e'[f'[k]] == d[k] {
      assert f[k] in e && e[f[k]] == d[k];
    }
    forall m | m in e' ensures HasSource(d, f', m) {
      SourceMoves(d, f, from, to, if m == to then from else m);
    }
  }

  lemma OnlyRenamedStep(x: RunConfigTask, y: RunConfigTask, f: map<TaskID, TaskID>, from: TaskID, to: TaskID)
    requires OnlyRenamed(x, y, f) && to !in y.depends
    ensures OnlyRenamed(x, y.(depends := RenameKey(y.depends, from, to)), Moved(f, from, to))
  {
    hide KeysRenamed, RenameKey, Moved;
    KeysStep(x.depends, y.depends, f, from, to);
  }

  /** The id of a task, as a key and in the dependencies of all tasks. */
  function Rename(rc: RunConfig, from: TaskID, to: TaskID): RunConfig
    requires from in rc
  {
    var moved := (rc - {from})[to := rc[from]];
    map t | t in moved :: moved[t].(depends := RenameKey(moved[t].depends, from, to))
  }

  lemma RenameAt(rc: RunConfig, from: TaskID, to: TaskID, t: TaskID)
    requires from in rc && to !in rc && t in rc
    ensures var rc', t' := Rename(rc, from, to), if t == from then to else t;
            t' in rc' && rc'[t'] == rc[t].(depends := RenameKey(rc[t].depends, from, to))
  {
    hide RenameKey;
  }

  lemma RenameKeys(rc: RunConfig, from: TaskID, to: TaskID)
    requires from in rc && to !in rc
    ensures Rename(rc, from, to).Keys == rc.Keys - {from} + {to}
  {
    hide RenameKey;
  }

  lemma MovedIsOneToOne(f: map<TaskID, TaskID>, from: TaskID, to: TaskID)
    requires (forall a, b :: a in f && b in f && f[a] == f[b] ==> a == b) && forall a :: a in f ==> f[a] != to
    ensures var f' := Moved(f, from, to); forall a, b :: a in f' && b in f' && f'[a] == f'[b] ==> a == b
  {
  }

  lemma TaskMovesAlong(rc0: RunConfig, rc: RunConfig, f: map<TaskID, TaskID>, from: TaskID, to: TaskID, a: TaskID)
    requires RenamedBy(rc0, rc, f) && from in rc && to !in rc && a in f
    ensures var rc', f' := Rename(rc, from, to), Moved(f, from, to);
            f'[a] in rc' && OnlyRenamed(rc0[a], rc'[f'[a]], f')
  {
    hide OnlyRenamed, RenameKey, Rename;
    RenameAt(rc, from, to, f[a]);
    DependsKnown(rc0, rc, f, f[a]);
    OnlyRenamedStep(rc0[a], rc[f[a]], f, from, to);
  }

  lemma SourceAfter(rc0: RunConfig, rc: RunConfig, f: map<TaskID, TaskID>, from: TaskID, to: TaskID, t: TaskID)
    requires RenamedBy(rc0, rc, f) && from in rc && to !in rc && t in rc.Keys - {from} + {to}
    ensures exists a :: a in Moved(f, from, to) && Moved(f, from, to)[a] == t
  {
    hide OnlyRenamed;
    var a :| a in f && f[a] == if t == to then from else t;
    assert Moved(f, from, to)[a] == t;
  }

  lemma RenamedStep(rc0: RunConfig, rc: RunConfig, f: map<TaskID, TaskID>, from: TaskID, to: TaskID)
    requires RenamedBy(rc0, rc, f) && from in rc && to !in rc
    ensures RenamedBy(rc0, Rename(rc, from, to), Moved(f, from, to))
  {
    hide OnlyRenamed, Rename;
    var rc', f' := Rename(rc, from, to), Moved(f, from, to);
    RenameKeys(rc, from, to);
    MovedIsOneToOne(f, from, to);
    forall a | a in f' ensures f'[a] in rc' && OnlyRenamed(rc0[a], rc'[f'[a]], f') {
      TaskMovesAlong(rc0, rc, f, from, to, a);
    }
    forall t | t in rc' ensures exists a :: a in f' && f'[a] == t {
      SourceAfter(rc0, rc, f, from, to, t);
    }
  }

  lemma KeysKnown<T(!new)>(d: map<TaskID, T>, e: map<TaskID, T>, f: map<TaskID, TaskID>, known: set<TaskID>)
    requires KeysRenamed(d, e, f) && forall a :: a in f ==> f[a] in known
    ensures e.Keys <= known
  {
  }

  lemma DependsKnown(rc0: RunConfig, rc: RunConfig, f: map<TaskID, TaskID>, t: TaskID)
    requires RenamedBy(rc0, rc, f) && t in rc
    ensures rc[t].depends.Keys <= rc.Keys
  {
    hide KeysRenamed;
    var a :| a in f && f[a] == t;
    assert OnlyRenamed(rc0[a], rc[f[a]], f);
    KeysKnown(rc0[a].depends, rc[t].depends, f, rc.Keys);
  }

  lemma KeyRenamed<T(!new)>(d: map<TaskID, T>, e: map<TaskID, T>, f: map<TaskID, TaskID>, b: TaskID)
    requires KeysRenamed(d, e, f) && b in f
    requires forall a, c :: a in f && c in f && f[a] == f[c] ==> a == c
    ensures b in d <==> f[b] in e
  {
    if f[b] in e { assert HasSource(d, f, f[b]); }
  }

  lemma EdgeRenamed(rc0: RunConfig, rc: RunConfig, f: map<TaskID, TaskID>, a: TaskID, b: TaskID)
    requires RenamedBy(rc0, rc, f) && a in rc0 && b in rc0
    ensures f[a] in rc && f[b] in rc && (b in Parents(rc0, a) <==> f[b] in Parents(rc, f[a]))
    ensures b in rc0[a].depends ==> f[b] in rc[f[a]].depends && rc[f[a]].depends[f[b]] == rc0[a].depends[b]
  {
    assert OnlyRenamed(rc0[a], rc[f[a]], f);
    KeyRenamed(rc0[a].depends, rc[f[a]].depends, f, b);
  }

  lemma RenamedNodes(rc0: RunConfig, rc: RunConfig, f: map<TaskID, TaskID>)
    requires RenamedBy(rc0, rc, f)
    ensures NodesMatch(DependGraph(rc0), DependGraph(rc), f)
  {
    hide OnlyRenamed, Parents;
  }

  lemma GraphEdgeRenamed(rc0: RunConfig, rc: RunConfig, f: map<TaskID, TaskID>, a: TaskID, b: TaskID)
    requires RenamedBy(rc0, rc, f) && a in DependGraph(rc0) && b in DependGraph(rc0)
    ensures a in f && b in f && f[a] in DependGraph(rc)
    ensures b in DependGraph(rc0)[a] <==> f[b] in DependGraph(rc)[f[a]]
  {
    hide OnlyRenamed, Parents;
    EdgeRenamed(rc0, rc, f, a, b);
  }

  lemma RenamedEdges(rc0: RunConfig, rc: RunConfig, f: map<TaskID, TaskID>)
    requires RenamedBy(rc0, rc, f)
    ensures EdgesMatch(DependGraph(rc0), DependGraph(rc), f)
  {
    hide RenamedBy, DependGraph;
    var g, h := DependGraph(rc0), DependGraph(rc);
    forall a, b | a in g && b in g ensures a in f && b in f && f[a] in h && (b in g[a] <==> f[b] in h[f[a]]) {
      GraphEdgeRenamed(rc0, rc, f, a, b);
    }
  }

  lemma RenamedIsClosed(rc0: RunConfig, rc: RunConfig, f: map<TaskID, TaskID>)
    requires RenamedBy(rc0, rc, f)
    ensures DependsClosed(rc)
  {
    hide RenamedBy;
    forall t | t in rc ensures rc[t].depends.Keys <= rc.Keys { DependsKnown(rc0, rc, f, t); }
  }

  /** Renaming keeps the graph. */
  lemma RenamedIsIsomorphic(rc0: RunConfig, rc: RunConfig, f: map<TaskID, TaskID>)
    requires RenamedBy(rc0, rc, f)
    ensures Isomorphic(DependGraph(rc0), DependGraph(rc), f)
  {
    hide RenamedBy, NodesMatch, EdgesMatch, DependGraph;
    RenamedNodes(rc0, rc, f);
    RenamedEdges(rc0, rc, f);
  }

  // ---------------------------------------------------------------- new ids

  /** The ids that the generator hands out: no two alike and none in the config. */
  ghost predicate FreshIDs(rc0: RunConfig, ids: seq<TaskID>) {
    NoDuplicates(ids) && forall i :: 0 <= i < |ids| ==> ids[i] !in rc0
  }

  /** `rc` is `rc0` under a renaming that has used the first `n` new ids. */
  ghost predicate RenamedSoFar(rc0: RunConfig, ids: seq<TaskID>, n: nat, rc: RunConfig, f: map<TaskID, TaskID>) {
    n <= |ids| && |rc| == |rc0| && RenamedBy(rc0, rc, f) && UsesOnly(f, ids[..n])
  }

  ghost predicate UsesOnly(f: map<TaskID, TaskID>, ids: seq<TaskID>) {
    forall a :: a in f ==> f[a] == a || f[a] in ids
  }

  lemma NothingRenamed(rc: RunConfig, ids: seq<TaskID>) returns (f: map<TaskID, TaskID>)
    requires DependsClosed(rc)
    ensures RenamedSoFar(rc, ids, 0, rc, f) && f.Keys == rc.Keys && forall a :: a in f ==> f[a] == a
  {
    f := map t: TaskID | t in rc :: t;
    RenamedSelf(rc);
  }

  lemma NewIDIsFresh(rc0: RunConfig, ids: seq<TaskID>, n: nat, rc: RunConfig, f: map<TaskID, TaskID>)
    requires FreshIDs(rc0, ids) && RenamedSoFar(rc0, ids, n, rc, f) && n < |ids|
    ensures ids[n] !in rc
  {
    hide OnlyRenamed;
    forall t | t in rc ensures t != ids[n] {
      var a :| a in f && f[a] == t;
      if t != a { var i :| 0 <= i < n && ids[i] == t; }
    }
  }

  lemma SizeKept(rc: RunConfig, from: TaskID, to: TaskID)
    requires from in rc && to !in rc
    ensures |Rename(rc, from, to)| == |rc|
  {
    hide Rename;
    RenameKeys(rc, from, to);
    assert |Rename(rc, from, to).Keys| == |rc.Keys - {from} + {to}|;
  }

  lemma OneMoreRenamed(rc0: RunConfig, ids: seq<TaskID>, n: nat, rc: RunConfig, f: map<TaskID, TaskID>, a: TaskID)
    requires FreshIDs(rc0, ids) && RenamedSoFar(rc0, ids, n, rc, f) && n < |ids| && a in f
    ensures f[a] in rc && ids[n] !in rc
    ensures RenamedSoFar(rc0, ids, n + 1, Rename(rc, f[a], ids[n]), f[a := ids[n]])
  {
    hide RenamedBy, Rename, FreshIDs;
    var from, to := f[a], ids[n];
    NewIDIsFresh(rc0, ids, n, rc, f);
    MovesOne(rc0, rc, f, a, to);
    SizeKept(rc, from, to);
    assert ids[..n + 1] == ids[..n] + [to];
  }

  lemma MovesOne(rc0: RunConfig, rc: RunConfig, f: map<TaskID, TaskID>, a: TaskID, to: TaskID)
    requires RenamedBy(rc0, rc, f) && a in f && to !in rc
    ensures f[a] in rc && RenamedBy(rc0, Rename(rc, f[a], to), f[a := to])
  {
    hide OnlyRenamed, Rename;
    RenamedStep(rc0, rc, f, f[a], to);
    assert Moved(f, f[a], to) == f[a := to];
  }

  // ---------------------------------------------------------------- recreateRun

  predicate Redone(run0: Run, fromStart: bool, t: TaskID) {
    t in run0.tasks && (fromStart || !run0.tasks[t].status.Success?)
  }

  /** A task that is not run again and that reaches none that is. */
  ghost predicate Kept(rc0: RunConfig, run0: Run, fromStart: bool, t: TaskID) {
    && t in rc0 && !Redone(run0, fromStart, t)
    && forall p :: Reaches(DependGraph(rc0), t, p) ==> !Redone(run0, fromStart, p)
  }

  ghost function RecreatedTasks(rc: RunConfig, run0: Run): map<TaskID, RunTask> {
    map t | t in rc :: if t in run0.tasks then run0.tasks[t] else GenRunTask(rc[t])
  }

  ghost function Recreated(rc: RunConfig, run0: Run): Run {
    Run(RunPhase.Queued, RunResult.Unknown, false, RecreatedTasks(rc, run0), false)
  }

  /** A task of the config gets the id `to`, and then every dependency on it does. */
  method RenameTask(rc0: RunConfig, from: TaskID, to: TaskID) returns (rc: RunConfig)
    requires from in rc0 && to !in rc0
    ensures rc == Rename(rc0, from, to)
  {
    rc := (rc0 - {from})[to := rc0[from]];
    ghost var moved := rc;
    var rest := rc.Keys;
    while rest != {}
      invariant rest <= rc.Keys == moved.Keys
      invariant forall t :: t in rest ==> rc[t] == moved[t]
      invariant forall t :: t in rc && t !in rest ==>
                  rc[t] == moved[t].(depends := RenameKey(moved[t].depends, from, to))
      decreases rest
    {
      var t :| t in rest;
      rest := rest - {t};
      if from in rc[t].depends {
        var conds := rc[t].depends[from];
        rc := rc[t := rc[t].(depends := (rc[t].depends - {from})[to := conds])];
      }
    }
  }

  /** The first loop has `rest` still to visit. */
  ghost predicate RedoneSoFar(run0: Run, fromStart: bool, ids: seq<TaskID>, f: map<TaskID, TaskID>,
                              rest: set<TaskID>, recreated: set<TaskID>) {
    && (forall a :: a in f ==> if a !in rest && Redone(run0, fromStart, a) then f[a] in ids else f[a] == a)
    && (forall a :: a in f && a !in rest && Redone(run0, fromStart, a) ==> f[a] in recreated)
    && (forall x :: x in recreated ==> x in ids)
  }

  lemma RedoneStep(run0: Run, fromStart: bool, ids: seq<TaskID>, f: map<TaskID, TaskID>,
                   rest: set<TaskID>, recreated: set<TaskID>, t: TaskID, id: TaskID)
    requires t in rest && t in f && RedoneSoFar(run0, fromStart, ids, f, rest, recreated)
    ensures f[t] == t
    ensures Redone(run0, fromStart, t) ==>
              RedoneSoFar(run0, fromStart, ids + [id], f[t := id], rest - {t}, recreated + {id})
    ensures !Redone(run0, fromStart, t) ==> RedoneSoFar(run0, fromStart, ids, f, rest - {t}, recreated)
  {
  }

  /** The first loop: the tasks to run again, in any order. */
  method RenameRedone(rc0: RunConfig, run0: Run, fromStart: bool, ids: seq<TaskID>)
      returns (rc: RunConfig, n: nat, recreated: set<TaskID>, ghost f: map<TaskID, TaskID>)
    requires Fits(rc0, run0) && DependsClosed(rc0) && FreshIDs(rc0, ids) && |ids| >= |rc0|
    ensures n <= |rc0| && f.Keys == rc0.Keys && RenamedSoFar(rc0, ids, n, rc, f)
    ensures RedoneSoFar(run0, fromStart, ids[..n], f, {}, recreated)
  {
    hide Rename, RenamedBy, FreshIDs, DependsClosed, RedoneSoFar, UsesOnly;
    rc, n, recreated := rc0, 0, {};
    f := NothingRenamed(rc0, ids);
    var rest := run0.tasks.Keys;
    NothingRedone(run0, fromStart, f);
    while rest != {}
      invariant rest <= rc0.Keys == f.Keys && n + |rest| <= |rc0.Keys|
      invariant RenamedSoFar(rc0, ids, n, rc, f) && RedoneSoFar(run0, fromStart, ids[..n], f, rest, recreated)
      decreases rest
    {
      var t :| t in rest;
      RedoneStep(run0, fromStart, ids[..n], f, rest, recreated, t, ids[n]);
      rest := rest - {t};
      if fromStart || !run0.tasks[t].status.Success? {
        OneMoreRenamed(rc0, ids, n, rc, f, t);
        assert ids[..n + 1] == ids[..n] + [ids[n]];
        rc := RenameTask(rc, t, ids[n]);
        recreated := recreated + {ids[n]};
        f := f[t := ids[n]];
        n := n + 1;
      }
    }
  }

  lemma NothingRedone(run0: Run, fromStart: bool, f: map<TaskID, TaskID>)
    requires f.Keys == run0.tasks.Keys && forall a :: a in f ==> f[a] == a
    ensures RedoneSoFar(run0, fromStart, [], f, run0.tasks.Keys, {})
  {
  }

  /** Some task that got a new id is above `t`. */
  ghost predicate BelowAny(rc: RunConfig, recreated: set<TaskID>, t: TaskID) {
    exists p :: p in recreated && Reaches(DependGraph(rc), t, p)
  }

  /** The second loop: the tasks below those. */
  method MarkBelow(rc: RunConfig, recreated: set<TaskID>) returns (marked: set<TaskID>)
    ensures forall t :: t in marked <==> t in rc && BelowAny(rc, recreated, t)
  {
    marked := {};
    var rest := rc.Keys;
    while rest != {}
      invariant rest <= rc.Keys
      invariant forall t :: t in marked <==> t in rc && t !in rest && BelowAny(rc, recreated, t)
      decreases rest
    {
      var t :| t in rest;
      rest := rest - {t};
      var parents := GetAllParents(rc, t);
      var i := 0;
      while i < |parents| && parents[i] !in recreated
        invariant 0 <= i <= |parents| && forall k :: 0 <= k < i ==> parents[k] !in recreated
      {
        i := i + 1;
      }
      if i < |parents| {
        assert parents[i] in recreated;
        marked := marked + {t};
      }
    }
  }

  /** The third loop has renamed the tasks that had the ids `gone` after the first. */
  ghost predicate MarkedSoFar(ids: seq<TaskID>, before: map<TaskID, TaskID>, f: map<TaskID, TaskID>, gone: set<TaskID>) {
    f.Keys == before.Keys && forall a :: a in f ==> if before[a] in gone then f[a] in ids else f[a] == before[a]
  }

  lemma MarkedStep(ids: seq<TaskID>, before: map<TaskID, TaskID>, f: map<TaskID, TaskID>, gone: set<TaskID>,
                   a: TaskID, id: TaskID)
    requires MarkedSoFar(ids, before, f, gone) && a in f && before[a] !in gone
    requires forall b, c :: b in before && c in before && before[b] == before[c] ==> b == c
    ensures f[a] == before[a] && MarkedSoFar(ids + [id], before, f[a := id], gone + {before[a]})
  {
  }

  lemma SourceOf(rc0: RunConfig, rc: RunConfig, f: map<TaskID, TaskID>, t: TaskID) returns (a: TaskID)
    requires RenamedBy(rc0, rc, f) && t in rc
    ensures a in f && f[a] == t && forall b, c :: b in f && c in f && f[b] == f[c] ==> b == c
  {
    a :| a in f && f[a] == t;
  }

  method RenameMarked(ghost rc0: RunConfig, rc1: RunConfig, marked: set<TaskID>, ids: seq<TaskID>, n: nat,
                      ghost before: map<TaskID, TaskID>)
      returns (rc: RunConfig, ghost m: nat, ghost f: map<TaskID, TaskID>)
    requires FreshIDs(rc0, ids) && RenamedSoFar(rc0, ids, n, rc1, before)
    requires marked <= rc1.Keys && n + |marked| <= |ids|
    ensures m <= |ids| && RenamedSoFar(rc0, ids, m, rc, f) && MarkedSoFar(ids[..m], before, f, marked)
  {
    hide Rename, RenamedBy, FreshIDs, MarkedSoFar, UsesOnly;
    rc, m, f := rc1, n, before;
    var next := n;
    var rest := marked;
    assert MarkedSoFar(ids[..m], before, f, {}) by { NothingMarked(ids[..m], before); }
    assert marked - rest == {};
    while rest != {}
      invariant rest <= marked && m == next && next + |rest| <= |ids|
      invariant RenamedSoFar(rc0, ids, m, rc, f) && MarkedSoFar(ids[..m], before, f, marked - rest)
      decreases rest
    {
      var t :| t in rest;
      ghost var a := SourceOf(rc0, rc1, before, t);
      SameKeys(ids[..m], before, f, marked - rest);
      MarkedStep(ids[..m], before, f, marked - rest, a, ids[m]);
      OneMoreRenamed(rc0, ids, m, rc, f, a);
      assert ids[..m + 1] == ids[..m] + [ids[m]] && marked - rest + {t} == marked - (rest - {t});
      rest := rest - {t};
      rc := RenameTask(rc, t, ids[next]);
      next := next + 1;
      m, f := m + 1, f[a := ids[m]];
    }
    assert marked - rest == marked;
  }

  lemma NothingMarked(ids: seq<TaskID>, before: map<TaskID, TaskID>)
    ensures MarkedSoFar(ids, before, before, {})
  {
  }

  lemma SameKeys(ids: seq<TaskID>, before: map<TaskID, TaskID>, f: map<TaskID, TaskID>, gone: set<TaskID>)
    requires MarkedSoFar(ids, before, f, gone)
    ensures f.Keys == before.Keys
  {
  }

  /** The last two loops: tasks without a config leave the run, and configs without a task get one. */
  method UpdateRunTasks(rc: RunConfig, run0: Run) returns (tasks: map<TaskID, RunTask>)
    ensures tasks == RecreatedTasks(rc, run0)
  {
    tasks := run0.tasks;
    var rest := run0.tasks.Keys;
    while rest != {}
      invariant rest <= run0.tasks.Keys
      invariant tasks == map t | t in run0.tasks && (t in rc || t in rest) :: run0.tasks[t]
      decreases rest
    {
      var t :| t in rest;
      rest := rest - {t};
      if t !in rc { tasks := tasks - {t}; }
    }
    rest := rc.Keys;
    while rest != {}
      invariant rest <= rc.Keys
      invariant tasks == map t | t in rc && (t in run0.tasks || t !in rest) ::
                  if t in run0.tasks then run0.tasks[t] else GenRunTask(rc[t])
      decreases rest
    {
      var t :| t in rest;
      rest := rest - {t};
      if t !in tasks { tasks := tasks[t := GenRunTask(rc[t])]; }
    }
  }

  /** What the loops leave: `f` keeps the ids of the kept tasks and no other. */
  ghost predicate KeepsExactly(rc0: RunConfig, run0: Run, fromStart: bool, ids: seq<TaskID>, f: map<TaskID, TaskID>) {
    && f.Keys == rc0.Keys
    && (forall a :: a in f ==> (f[a] == a <==> Kept(rc0, run0, fromStart, a)))
    && forall a :: a in f && f[a] != a ==> f[a] in ids
  }

  method RecreateRun(rc0: RunConfig, run0: Run, fromStart: bool, ids: seq<TaskID>)
      returns (rc: RunConfig, run: Run, ghost f: map<TaskID, TaskID>)
    requires Fits(rc0, run0) && DependsClosed(rc0) && FreshIDs(rc0, ids) && |ids| >= 2 * |rc0|
    ensures RenamedBy(rc0, rc, f) && KeepsExactly(rc0, run0, fromStart, ids, f)
    ensures run == Recreated(rc, run0)
    ensures f.Keys == rc0.Keys && run.tasks.Keys == rc.Keys
    ensures forall a :: a in rc0 ==>
              (f[a] == a <==>
               !fromStart && run0.tasks[a].status == TaskStatus.Success
               && forall p :: p in rc0 && Reaches(DependGraph(rc0), a, p) ==> run0.tasks[p].status == TaskStatus.Success)
    ensures forall a :: a in rc0 ==>
              f[a] in rc && run.tasks[f[a]] == if f[a] == a then run0.tasks[a] else GenRunTask(rc[f[a]])
    ensures forall a, b :: a in rc0 && b in rc0 ==>
              && (f[a] == f[b] ==> a == b) && rc[f[a]] == rc0[a].(depends := rc[f[a]].depends)
              && (b in rc0[a].depends <==> f[b] in rc[f[a]].depends)
              && (b in rc0[a].depends ==> rc[f[a]].depends[f[b]] == rc0[a].depends[b])
    ensures run.phase == RunPhase.Queued && run.result == RunResult.Unknown && !run.stop && !run.archived
  {
    hide RenamedBy, FreshIDs, DependsClosed, RedoneSoFar, MarkedSoFar, UsesOnly, BelowAny, KeepsExactly, RecreatedTasks;
    ghost var f1, m;
    var rc1, n, recreated;
    rc1, n, recreated, f1 := RenameRedone(rc0, run0, fromStart, ids);
    var marked := MarkBelow(rc1, recreated);
    SubsetSize(marked, rc1.Keys);
    rc, m, f := RenameMarked(rc0, rc1, marked, ids, n, f1);
    KeptExactly(rc0, run0, fromStart, ids, n, rc1, f1, recreated, marked, m, f);
    var tasks := UpdateRunTasks(rc, run0);
    run := Run(RunPhase.Queued, RunResult.Unknown, false, tasks, false);
    RecreatedMeans(rc0, rc, run0, fromStart, ids, f);
    forall a, b | a in rc0 && b in rc0
      ensures (f[a] == f[b] ==> a == b) && rc[f[a]] == rc0[a].(depends := rc[f[a]].depends)
      ensures b in rc0[a].depends <==> f[b] in rc[f[a]].depends
      ensures b in rc0[a].depends ==> rc[f[a]].depends[f[b]] == rc0[a].depends[b]
    {
      RenamedMeans(rc0, rc, f, a, b);
    }
  }

  /** Under its id, new or not, a task is what it was, and depends on what it depended on, under the same conditions. */
  lemma RenamedMeans(rc0: RunConfig, rc: RunConfig, f: map<TaskID, TaskID>, a: TaskID, b: TaskID)
    requires RenamedBy(rc0, rc, f) && a in rc0 && b in rc0
    ensures f[a] in rc && (f[a] == f[b] ==> a == b) && rc[f[a]] == rc0[a].(depends := rc[f[a]].depends)
    ensures b in rc0[a].depends <==> f[b] in rc[f[a]].depends
    ensures b in rc0[a].depends ==> rc[f[a]].depends[f[b]] == rc0[a].depends[b]
  {
    EdgeRenamed(rc0, rc, f, a, b);
    assert OnlyRenamed(rc0[a], rc[f[a]], f);
    KeyRenamed(rc0[a].depends, rc[f[a]].depends, f, b);
  }

  /** Which tasks stay as they are, and what becomes of the others. */
  lemma RecreatedMeans(rc0: RunConfig, rc: RunConfig, run0: Run, fromStart: bool, ids: seq<TaskID>, f: map<TaskID, TaskID>)
    requires Fits(rc0, run0) && FreshIDs(rc0, ids) && RenamedBy(rc0, rc, f) && KeepsExactly(rc0, run0, fromStart, ids, f)
    ensures f.Keys == rc0.Keys && RecreatedTasks(rc, run0).Keys == rc.Keys
    ensures forall a :: a in rc0 ==>
              (f[a] == a <==>
               !fromStart && run0.tasks[a].status == TaskStatus.Success
               && forall p :: p in rc0 && Reaches(DependGraph(rc0), a, p) ==> run0.tasks[p].status == TaskStatus.Success)
    ensures forall a :: a in rc0 ==>
              f[a] in rc && RecreatedTasks(rc, run0)[f[a]] == if f[a] == a then run0.tasks[a] else GenRunTask(rc[f[a]])
  {
    hide RenamedBy, FreshIDs, KeepsExactly, GenRunTask, Reaches, Kept;
    KeepsAll(rc0, run0, fromStart, ids, f);
    forall a | a in rc0
      ensures f[a] in rc && RecreatedTasks(rc, run0)[f[a]] == if f[a] == a then run0.tasks[a] else GenRunTask(rc[f[a]])
      ensures f[a] == a <==>
              !fromStart && run0.tasks[a].status == TaskStatus.Success
              && forall p :: p in rc0 && Reaches(DependGraph(rc0), a, p) ==> run0.tasks[p].status == TaskStatus.Success
    {
      KeepsOwn(rc0, run0, fromStart, ids, f, a);
      TargetIsTask(rc0, rc, f, a);
      RecreatedAt(rc0, rc, run0, ids, f, a);
      KeptMeans(rc0, run0, fromStart, a);
    }
  }

  lemma KeepsAll(rc0: RunConfig, run0: Run, fromStart: bool, ids: seq<TaskID>, f: map<TaskID, TaskID>)
    requires KeepsExactly(rc0, run0, fromStart, ids, f)
    ensures f.Keys == rc0.Keys
  {
  }

  lemma RecreatedAt(rc0: RunConfig, rc: RunConfig, run0: Run, ids: seq<TaskID>, f: map<TaskID, TaskID>, a: TaskID)
    requires FreshIDs(rc0, ids) && Fits(rc0, run0) && a in f && a in rc0 && f[a] in rc && (f[a] != a ==> f[a] in ids)
    ensures RecreatedTasks(rc, run0).Keys == rc.Keys
    ensures RecreatedTasks(rc, run0)[f[a]] == if f[a] == a then run0.tasks[a] else GenRunTask(rc[f[a]])
  {
  }

  /** A task is kept when it succeeded together with all that it depends on, directly or not. */
  lemma KeptMeans(rc0: RunConfig, run0: Run, fromStart: bool, t: TaskID)
    requires Fits(rc0, run0) && t in rc0
    ensures Kept(rc0, run0, fromStart, t) <==>
            && !fromStart && run0.tasks[t].status == TaskStatus.Success
            && forall p :: p in rc0 && Reaches(DependGraph(rc0), t, p) ==> run0.tasks[p].status == TaskStatus.Success
  {
    hide Reaches;
    forall p | Reaches(DependGraph(rc0), t, p) ensures p in rc0 { ReachedIsTask(rc0, t, p); }
  }

  lemma RedoneAre(rc0: RunConfig, run0: Run, fromStart: bool, ids: seq<TaskID>, n: nat, f: map<TaskID, TaskID>,
                  recreated: set<TaskID>, a: TaskID)
    requires FreshIDs(rc0, ids) && n <= |ids| && a in f && f.Keys == rc0.Keys
    requires RedoneSoFar(run0, fromStart, ids[..n], f, {}, recreated)
    ensures f[a] in recreated <==> Redone(run0, fromStart, a)
    ensures f[a] == a <==> !Redone(run0, fromStart, a)
  {
  }

  lemma BelowMeansReaches(rc0: RunConfig, run0: Run, fromStart: bool, ids: seq<TaskID>, n: nat, rc: RunConfig,
                          f: map<TaskID, TaskID>, recreated: set<TaskID>, a: TaskID)
    requires FreshIDs(rc0, ids) && n <= |ids| && a in f && f.Keys == rc0.Keys
    requires RedoneSoFar(run0, fromStart, ids[..n], f, {}, recreated) && RenamedBy(rc0, rc, f)
    ensures BelowAny(rc, recreated, f[a]) <==>
              exists b :: Reaches(DependGraph(rc0), a, b) && Redone(run0, fromStart, b)
  {
    hide FreshIDs, RedoneSoFar, RenamedBy, Reaches, Isomorphic, DependGraph, Redone, Closed;
    var g, h := DependGraph(rc0), DependGraph(rc);
    RenamedIsIsomorphic(rc0, rc, f);
    assert Closed(g) && Closed(h) by { GraphIsClosed(rc0); GraphIsClosed(rc); }
    if BelowAny(rc, recreated, f[a]) {
      var p :| p in recreated && Reaches(h, f[a], p);
      ReachedIsTask(rc, f[a], p);
      var b := SourceOf(rc0, rc, f, p);
      RedoneAre(rc0, run0, fromStart, ids, n, f, recreated, b);
      InGraph(rc0, f, a);
      InGraph(rc0, f, b);
      ReachPullsBack(g, h, f, a, b);
    }
    if b :| Reaches(g, a, b) && Redone(run0, fromStart, b) {
      ReachedIsTask(rc0, a, b);
      RedoneAre(rc0, run0, fromStart, ids, n, f, recreated, b);
      InGraph(rc0, f, a);
      InGraph(rc0, f, b);
      ReachPushes(g, h, f, a, b);
    }
  }

  lemma GraphIsClosed(rc: RunConfig)
    ensures Closed(DependGraph(rc))
  {
  }

  lemma InGraph(rc0: RunConfig, f: map<TaskID, TaskID>, a: TaskID)
    requires a in f && f.Keys == rc0.Keys
    ensures a in DependGraph(rc0)
  {
  }

  lemma ReachedIsTask(rc: RunConfig, a: TaskID, b: TaskID)
    requires Reaches(DependGraph(rc), a, b)
    ensures a in rc && b in rc
  {
    var p :| |p| >= 2 && PathFromTo(DependGraph(rc), p, a, b);
    assert p[0] in DependGraph(rc) && p[|p| - 1] in DependGraph(rc);
  }

  lemma KeptExactly(rc0: RunConfig, run0: Run, fromStart: bool, ids: seq<TaskID>, n: nat, rc1: RunConfig,
                    f1: map<TaskID, TaskID>, recreated: set<TaskID>, marked: set<TaskID>, m: nat, f: map<TaskID, TaskID>)
    requires Fits(rc0, run0) && FreshIDs(rc0, ids) && f1.Keys == rc0.Keys
    requires RenamedSoFar(rc0, ids, n, rc1, f1) && RedoneSoFar(run0, fromStart, ids[..n], f1, {}, recreated)
    requires forall t :: t in marked <==> t in rc1 && BelowAny(rc1, recreated, t)
    requires m <= |ids| && MarkedSoFar(ids[..m], f1, f, marked)
    requires RenamedBy(rc0, rc1, f1) && UsesOnly(f1, ids[..n])
    ensures KeepsExactly(rc0, run0, fromStart, ids, f)
  {
    hide RenamedBy, RedoneSoFar, BelowAny, Reaches, DependGraph, Redone;
    forall a | a in f ensures (f[a] == a <==> Kept(rc0, run0, fromStart, a)) && (f[a] != a ==> f[a] in ids) {
      RedoneAre(rc0, run0, fromStart, ids, n, f1, recreated, a);
      BelowMeansReaches(rc0, run0, fromStart, ids, n, rc1, f1, recreated, a);
      TargetIsTask(rc0, rc1, f1, a);
    }
  }

  lemma TargetIsTask(rc0: RunConfig, rc: RunConfig, f: map<TaskID, TaskID>, a: TaskID)
    requires RenamedBy(rc0, rc, f) && a in f
    ensures f[a] in rc
  {
  }

  // ---------------------------------------------------------------- what may be restarted

  predicate CanRestartFromScratch(r: Run) {
    !r.phase.SetupError? && r.phase.IsFinished()
  }

  /** Only a task that was fetched completely can be kept. */
  predicate CanRestartFromFailedTasks(r: Run) {
    && !r.phase.SetupError? && r.phase.IsFinished() && !r.result.Success?
    && forall t :: t in r.tasks && r.tasks[t].status.Success? ==>
         r.tasks[t].LogsFetchFinished() && r.tasks[t].ArchivesFetchFinished()
  }

  predicate CanRestart(r: Run, fromStart: bool) {
    if fromStart then CanRestartFromScratch(r) else CanRestartFromFailedTasks(r)
  }

  lemma CanRestartMeans(r: Run, fromStart: bool)
    ensures CanRestart(r, fromStart) <==>
            && r.phase in {RunPhase.Cancelled, RunPhase.Finished}
            && (fromStart ||
                (r.result != RunResult.Success
                 && forall t :: t in r.tasks && r.tasks[t].status == TaskStatus.Success ==>
                      && r.tasks[t].setupLog == FetchFinished
                      && (forall i :: 0 <= i < |r.tasks[t].stepLogs| ==> r.tasks[t].stepLogs[i] == FetchFinished)
                      && forall i :: 0 <= i < |r.tasks[t].archivesPhase| ==> r.tasks[t].archivesPhase[i] == FetchFinished))
  {
  }

  // ---------------------------------------------------------------- a restarted run is a new run

  /** The parents of a kept task are kept. */
  lemma ParentKept(rc0: RunConfig, run0: Run, fromStart: bool, t: TaskID, p: TaskID)
    requires Fits(rc0, run0) && Kept(rc0, run0, fromStart, t) && p in Parents(rc0, t)
    ensures Kept(rc0, run0, fromStart, p)
  {
    hide Reaches, Redone;
    var g := DependGraph(rc0);
    GraphIsClosed(rc0);
    EdgeReaches(g, t, p);
    forall q | Reaches(g, p, q) ensures !Redone(run0, fromStart, q) {
      ReachesBeyond(g, t, p, q);
    }
  }

  lemma KeptIsKept(rc0: RunConfig, s: Store, fromStart: bool, ids: seq<TaskID>, rc: RunConfig,
                   f: map<TaskID, TaskID>, t: TaskID)
    requires TasksConsistent(rc0, s) && DependencySafe(rc0, s) && CanRestart(s.run, fromStart)
    requires RenamedBy(rc0, rc, f) && KeepsExactly(rc0, s.run, fromStart, ids, f)
    requires t in rc && t in f && Kept(rc0, s.run, fromStart, t)
    ensures KeptTask(rc, Recreated(rc, s.run), t)
  {
    hide RenamedBy, KeepsExactly;
    var run := Recreated(rc, s.run);
    assert f[t] == t by { KeepsOwn(rc0, s.run, fromStart, ids, f, t); }
    assert DependenciesMet(rc0, s.run, t);
    forall p | p in Parents(rc, t)
      ensures EdgeMatches(rc, run, t, p) && run.tasks[p].status.Success? && run.tasks[p].ArchivesFetchFinished()
    {
      var b := SourceOf(rc0, rc, f, p);
      KeepsOwn(rc0, s.run, fromStart, ids, f, t);
      EdgeRenamed(rc0, rc, f, t, b);
      ParentKept(rc0, s.run, fromStart, t, b);
      KeepsOwn(rc0, s.run, fromStart, ids, f, b);
      assert EdgeMatches(rc0, s.run, t, p);
    }
  }

  lemma KeepsOwn(rc0: RunConfig, run0: Run, fromStart: bool, ids: seq<TaskID>, f: map<TaskID, TaskID>, t: TaskID)
    requires KeepsExactly(rc0, run0, fromStart, ids, f) && t in f
    ensures t in rc0 && f.Keys == rc0.Keys && (Kept(rc0, run0, fromStart, t) <==> f[t] == t)
    ensures f[t] != t ==> f[t] in ids
  {
  }

  /** A run restarted in any state that a run can be in starts as InitHolds needs it, on the same graph. */
  lemma RestartedIsNew(rc0: RunConfig, s: Store, fromStart: bool, ids: seq<TaskID>, rc: RunConfig, f: map<TaskID, TaskID>)
    requires Inv(rc0, s) && CanRestart(s.run, fromStart) && FreshIDs(rc0, ids)
    requires RenamedBy(rc0, rc, f) && KeepsExactly(rc0, s.run, fromStart, ids, f)
    ensures NewRun(rc, Recreated(rc, s.run))
    ensures Isomorphic(DependGraph(rc0), DependGraph(rc), f)
    ensures Acyclic(DependGraph(rc0)) && NoRedundantEdge(DependGraph(rc0)) ==>
              Acyclic(DependGraph(rc)) && NoRedundantEdge(DependGraph(rc))
  {
    hide RenamedBy, KeepsExactly, Kept, KeptTask, DependencySafe, CanRestart, Isomorphic, Acyclic, NoRedundantEdge, Closed;
    var run := Recreated(rc, s.run);
    RenamedIsIsomorphic(rc0, rc, f);
    GraphIsClosed(rc0);
    GraphIsClosed(rc);
    if Acyclic(DependGraph(rc0)) && NoRedundantEdge(DependGraph(rc0)) {
      IsomorphismKeepsShape(DependGraph(rc0), DependGraph(rc), f);
    }
    forall t | t in run.tasks && t in s.run.tasks ensures KeptTask(rc, run, t) {
      var a := SourceOf(rc0, rc, f, t);
      KeepsOwn(rc0, s.run, fromStart, ids, f, a);
      KeptIsKept(rc0, s, fromStart, ids, rc, f, t);
    }
  }

  /** The handler: a run that may not be restarted is refused. */
  method RestartRun(rc0: RunConfig, run0: Run, fromStart: bool, ids: seq<TaskID>, ghost s: Store)
      returns (bundle: Option<(RunConfig, Run)>)
    requires Inv(rc0, s) && s.run == run0
    requires DependsClosed(rc0) && FreshIDs(rc0, ids) && |ids| >= 2 * |rc0|
    ensures bundle.Some? <==> CanRestart(run0, fromStart)
    ensures bundle.Some? <==>
            && run0.phase in {RunPhase.Cancelled, RunPhase.Finished}
            && (fromStart ||
                (run0.result != RunResult.Success
                 && forall t :: t in run0.tasks && run0.tasks[t].status == TaskStatus.Success ==>
                      && run0.tasks[t].setupLog == FetchFinished
                      && (forall i :: 0 <= i < |run0.tasks[t].stepLogs| ==> run0.tasks[t].stepLogs[i] == FetchFinished)
                      && forall i :: 0 <= i < |run0.tasks[t].archivesPhase| ==> run0.tasks[t].archivesPhase[i] == FetchFinished))
    ensures bundle.Some? ==>
              var (rc, run) := bundle.value;
              && NewRun(rc, run) && run == Recreated(rc, run0) && DependsClosed(rc)
              && exists f :: RenamedBy(rc0, rc, f) && Isomorphic(DependGraph(rc0), DependGraph(rc), f)
                             && KeepsExactly(rc0, run0, fromStart, ids, f)
  {
    hide Isomorphic, KeepsExactly, Kept, DependsClosed, FreshIDs, NewRun, RenamedBy;
    CanRestartMeans(run0, fromStart);
    if !CanRestart(run0, fromStart) { return None; }
    var rc, run;
    ghost var f;
    rc, run, f := RecreateRun(rc0, run0, fromStart, ids);
    RestartedIsNew(rc0, s, fromStart, ids, rc, f);
    RenamedIsClosed(rc0, rc, f);
    bundle := Some((rc, run));
  }
}
