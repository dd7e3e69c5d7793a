/** The graph part of checkConfig (internal/config/config.go) and the translation of a checked
    run to run config tasks (internal/runconfig/runconfig.go). */
module Configs {
  import opened RunTypes
  import opened Graph
  import opened RunConfigs

  const MAX_RUN_NAME_LENGTH := 100
  const MAX_TASK_NAME_LENGTH := 100

  /** A name is the bytes of its text: the length limits count bytes. */
  datatype Name = Name(text: seq<Runes.Byte>)

  /** Condition texts are not checked when a config is read: `Other` stands for any unknown text. */
  datatype ConfigCondition = OnSuccess | OnFailure | OnSkipped | Other(text: string)

  datatype Depend = Depend(taskName: Name, conditions: seq<ConfigCondition>)

  datatype Task = Task(
    name: Name,
    depends: seq<Depend>,
    steps: seq<StepKind>,
    runtime: Runtime,
    ignoreFailure: bool,
    approval: bool)

  datatype ConfigRun = ConfigRun(name: Name, tasks: seq<Task>)

  // ---------------------------------------------------------------- the graph of names

  ghost predicate DistinctNames(tasks: seq<Task>) {
    forall i, j :: 0 <= i < j < |tasks| ==> tasks[i].name != tasks[j].name
  }

  ghost function Names(tasks: seq<Task>): set<Name> {
    set t | t in tasks :: t.name
  }

  ghost predicate DependsOn(t: Task, n: Name) {
    exists k :: 0 <= k < |t.depends| && t.depends[k].taskName == n
  }

  /** The position of the first task called `n` (the method `Task` of a run). */
  function IndexOf(tasks: seq<Task>, n: Name): (i: nat)
    requires exists t :: t in tasks && t.name == n
    ensures i < |tasks| && tasks[i].name == n
    ensures forall k :: 0 <= k < i ==> tasks[k].name != n
  {
    if tasks[0].name == n then 0 else
    assert forall t :: t in tasks ==> t == tasks[0] || t in tasks[1..];
    1 + IndexOf(tasks[1..], n)
  }

  ghost predicate IsName(tasks: seq<Task>, n: Name) {
    exists t :: t in tasks && t.name == n
  }

  lemma NamesAreNames(tasks: seq<Task>, n: Name)
    ensures n in Names(tasks) <==> IsName(tasks, n)
  {
  }

  ghost function ParentNames(tasks: seq<Task>, t: Task): set<Name> {
    set n | n in Names(tasks) && DependsOn(t, n)
  }

  ghost function NameGraph(tasks: seq<Task>): Graph<Name> {
    map n | n in Names(tasks) :: ParentNames(tasks, tasks[IndexOf(tasks, n)])
  }

  lemma IndexOfDistinct(tasks: seq<Task>, i: nat)
    requires DistinctNames(tasks) && i < |tasks|
    ensures IsName(tasks, tasks[i].name) && IndexOf(tasks, tasks[i].name) == i
  {
    assert tasks[i] in tasks;
  }

  lemma NameGraphAt(tasks: seq<Task>, i: nat)
    requires DistinctNames(tasks) && i < |tasks|
    ensures tasks[i].name in NameGraph(tasks) && IndexOf(tasks, tasks[i].name) == i
    ensures NameGraph(tasks)[tasks[i].name] == ParentNames(tasks, tasks[i])
  {
    assert tasks[i] in tasks;
  }

  lemma NameGraphClosed(tasks: seq<Task>)
    ensures Closed(NameGraph(tasks)) && NameGraph(tasks).Keys == Names(tasks)
  {
  }

  method GetTaskParents(tasks: seq<Task>, task: Task) returns (parents: seq<Name>)
    ensures Elements(parents) == ParentNames(tasks, task)
    ensures forall n :: n in parents <==>
              && (exists i :: 0 <= i < |tasks| && tasks[i].name == n)
              && exists k :: 0 <= k < |task.depends| && task.depends[k].taskName == n
    ensures DistinctNames(tasks) ==> NoDuplicates(parents)
  {
    parents := [];
    for i := 0 to |tasks|
      invariant forall n :: n in parents <==> IsName(tasks[..i], n) && DependsOn(task, n)
      invariant DistinctNames(tasks) ==> NoDuplicates(parents)
    {
      var isParent := false;
      for k := 0 to |task.depends|
        invariant isParent <==> exists k' :: 0 <= k' < k && task.depends[k'].taskName == tasks[i].name
      {
        if task.depends[k].taskName == tasks[i].name {
          isParent := true;
        }
      }
      assert isParent <==> DependsOn(task, tasks[i].name);
      IsNameGrows(tasks, i);
      if isParent {
        parents := parents + [tasks[i].name];
      }
    }
    assert tasks[..|tasks|] == tasks;
  }

  lemma IsNameGrows(tasks: seq<Task>, i: nat)
    requires i < |tasks|
    ensures forall n :: IsName(tasks[..i + 1], n) <==> IsName(tasks[..i], n) || n == tasks[i].name
    ensures DistinctNames(tasks) ==> !IsName(tasks[..i], tasks[i].name)
  {
    assert tasks[..i + 1] == tasks[..i] + [tasks[i]];
    assert tasks[i] in tasks[..i + 1];
  }

  method GetAllTaskParents(tasks: seq<Task>, i: nat) returns (parents: set<Name>)
    requires DistinctNames(tasks) && i < |tasks|
    ensures forall p :: p in parents <==> Reaches(NameGraph(tasks), tasks[i].name, p)
  {
    ghost var g, start := NameGraph(tasks), tasks[i].name;
    NameGraphClosed(tasks);
    NameGraphAt(tasks, i);
    parents := {};
    var nextParents := GetTaskParents(tasks, tasks[i]);
    WorklistStart(g, start);
    while |nextParents| > 0
      invariant parents <= Names(tasks)
      invariant WorklistInv(g, start, parents, Elements(nextParents))
      decreases Names(tasks) - parents, |nextParents|
    {
      ghost var before := parents;
      var level := nextParents;
      nextParents := [];
      assert level[0..] == level;
      for k := 0 to |level|
        invariant before <= parents <= Names(tasks) && (parents == before ==> nextParents == [])
        invariant WorklistInv(g, start, parents, Elements(level[k..]) + Elements(nextParents))
      {
        parents, nextParents := VisitTaskParent(tasks, start, parents, nextParents, level, k);
      }
      assert Elements(level[|level|..]) + Elements(nextParents) == Elements(nextParents);
    }
    assert Elements(nextParents) == {};
    WorklistDone(g, start, parents);
  }

  /** One turn of the inner loop of GetAllTaskParents. */
  method VisitTaskParent(tasks: seq<Task>, ghost start: Name, seen: set<Name>, nextParents: seq<Name>,
                         level: seq<Name>, k: nat) returns (seen': set<Name>, next: seq<Name>)
    requires DistinctNames(tasks) && k < |level| && seen <= Names(tasks)
    requires WorklistInv(NameGraph(tasks), start, seen, Elements(level[k..]) + Elements(nextParents))
    ensures seen <= seen' <= Names(tasks) && (seen' == seen ==> next == nextParents)
    ensures WorklistInv(NameGraph(tasks), start, seen', Elements(level[k + 1..]) + Elements(next))
  {
    var parent := level[k];
    if parent in seen {
      seen', next := seen, nextParents;
      WorklistTurn(NameGraph(tasks), start, seen, level, k, nextParents, []);
    } else {
      WorklistTurn(NameGraph(tasks), start, seen, level, k, nextParents, []);
      NamesAreNames(tasks, parent);
      var ps := GetTaskParents(tasks, tasks[IndexOf(tasks, parent)]);
      WorklistTurn(NameGraph(tasks), start, seen, level, k, nextParents, ps);
      seen', next := seen + {parent}, nextParents + ps;
    }
  }

  // ---------------------------------------------------------------- checkConfig

  datatype ConfigError =
    | NoRuns
    | BadRunName(run: nat)
    | BadTaskName(run: nat, task: nat)
    | MissingTask(run: nat, task: nat)
    | CircularDependency(run: nat, tasks: set<Name>)
    | CommonDependency(run: nat, task: nat)
    | DuplicateDependency(run: nat, task: nat)

  ghost predicate GoodName(n: Name, limit: nat) {
    0 < |n.text| <= limit
  }

  ghost predicate GoodTaskNames(run: ConfigRun) {
    && (forall i :: 0 <= i < |run.tasks| ==> GoodName(run.tasks[i].name, MAX_TASK_NAME_LENGTH))
    && DistinctNames(run.tasks)
  }

  ghost predicate GoodRunNames(runs: seq<ConfigRun>) {
    && (forall i :: 0 <= i < |runs| ==> GoodName(runs[i].name, MAX_RUN_NAME_LENGTH))
    && (forall i, j :: 0 <= i < j < |runs| ==> runs[i].name != runs[j].name)
  }

  ghost predicate TaskDependsExist(tasks: seq<Task>, t: Task) {
    forall k :: 0 <= k < |t.depends| ==> IsName(tasks, t.depends[k].taskName)
  }

  ghost predicate DependsExist(run: ConfigRun) {
    forall i :: 0 <= i < |run.tasks| ==> TaskDependsExist(run.tasks, run.tasks[i])
  }

  ghost predicate DistinctDepends(t: Task) {
    forall k, l :: 0 <= k < l < |t.depends| ==> t.depends[k].taskName != t.depends[l].taskName
  }

  /** What an accepted config promises of each of its runs. */
  ghost predicate CheckedRun(run: ConfigRun) {
    && GoodTaskNames(run)
    && DependsExist(run)
    && Acyclic(NameGraph(run.tasks))
    && NoRedundantEdge(NameGraph(run.tasks))
    && forall i :: 0 <= i < |run.tasks| ==> DistinctDepends(run.tasks[i])
  }

  method CheckNames(runs: seq<ConfigRun>) returns (err: Option<ConfigError>)
    ensures err.None? <==> GoodRunNames(runs) && forall r :: 0 <= r < |runs| ==> GoodTaskNames(runs[r])
    ensures err.None? <==>
            && (forall r :: 0 <= r < |runs| ==> 1 <= |runs[r].name.text| <= 100)
            && (forall q, r :: 0 <= q < r < |runs| ==> runs[q].name != runs[r].name)
            && forall r :: 0 <= r < |runs| ==>
                 && (forall i :: 0 <= i < |runs[r].tasks| ==> 1 <= |runs[r].tasks[i].name.text| <= 100)
                 && forall i, j :: 0 <= i < j < |runs[r].tasks| ==> runs[r].tasks[i].name != runs[r].tasks[j].name
    ensures err.Some? ==> err.value.BadRunName? || err.value.BadTaskName?
  {
    var seenRuns: set<Name> := {};
    for r := 0 to |runs|
      invariant GoodRunNames(runs[..r])
      invariant forall n :: n in seenRuns <==> exists k :: 0 <= k < r && runs[k].name == n
      invariant forall k :: 0 <= k < r ==> GoodTaskNames(runs[k])
    {
      var run := runs[r];
      if |run.name.text| == 0 || |run.name.text| > MAX_RUN_NAME_LENGTH || run.name in seenRuns {
        return Some(BadRunName(r));
      }
      seenRuns := seenRuns + {run.name};
      var seenTasks: set<Name> := {};
      for i := 0 to |run.tasks|
        invariant forall k :: 0 <= k < i ==> GoodName(run.tasks[k].name, MAX_TASK_NAME_LENGTH)
        invariant DistinctNames(run.tasks[..i])
        invariant forall n :: n in seenTasks <==> exists k :: 0 <= k < i && run.tasks[k].name == n
      {
        var name := run.tasks[i].name;
        if |name.text| == 0 || |name.text| > MAX_TASK_NAME_LENGTH || name in seenTasks {
          assert !GoodTaskNames(runs[r]);
          return Some(BadTaskName(r, i));
        }
        seenTasks := seenTasks + {name};
      }
      assert run.tasks[..|run.tasks|] == run.tasks;
    }
    assert runs[..|runs|] == runs;
    return None;
  }

  method CheckDepends(runs: seq<ConfigRun>) returns (err: Option<ConfigError>)
    ensures err.None? <==> forall r :: 0 <= r < |runs| ==> DependsExist(runs[r])
    ensures err.None? <==>
            forall r, i, k :: 0 <= r < |runs| && 0 <= i < |runs[r].tasks| && 0 <= k < |runs[r].tasks[i].depends| ==>
              exists j :: 0 <= j < |runs[r].tasks| && runs[r].tasks[j].name == runs[r].tasks[i].depends[k].taskName
    ensures err.Some? ==> err.value.MissingTask?
  {
    for r := 0 to |runs|
      invariant forall k :: 0 <= k < r ==> DependsExist(runs[k])
    {
      var tasks := runs[r].tasks;
      var allTasks := set t | t in tasks :: t.name;
      for i := 0 to |tasks|
        invariant forall k :: 0 <= k < i ==> TaskDependsExist(tasks, tasks[k])
      {
        for d := 0 to |tasks[i].depends|
          invariant forall k :: 0 <= k < d ==> IsName(tasks, tasks[i].depends[k].taskName)
        {
          NamesAreNames(tasks, tasks[i].depends[d].taskName);
          if tasks[i].depends[d].taskName !in allTasks {
            assert !TaskDependsExist(tasks, tasks[i]) && !DependsExist(runs[r]);
            return Some(MissingTask(r, i));
          }
        }
      }
    }
    return None;
  }

  method CyclicTasks(tasks: seq<Task>) returns (cyclic: set<Name>)
    requires DistinctNames(tasks)
    ensures forall n :: n in cyclic <==> n in NameGraph(tasks) && Reaches(NameGraph(tasks), n, n)
  {
    ghost var g := NameGraph(tasks);
    cyclic := {};
    for i := 0 to |tasks|
      invariant forall n :: n in cyclic <==> IsName(tasks[..i], n) && Reaches(g, n, n)
    {
      var allParents := GetAllTaskParents(tasks, i);
      IsNameGrows(tasks, i);
      if tasks[i].name in allParents {
        cyclic := cyclic + {tasks[i].name};
      }
    }
    assert tasks[..|tasks|] == tasks;
    forall n ensures n in g <==> IsName(tasks, n) { NamesAreNames(tasks, n); }
  }

  method CheckCycles(runs: seq<ConfigRun>) returns (err: Option<ConfigError>)
    requires forall r :: 0 <= r < |runs| ==> DistinctNames(runs[r].tasks)
    ensures err.None? <==> forall r :: 0 <= r < |runs| ==> Acyclic(NameGraph(runs[r].tasks))
    ensures err.Some? ==> err.value.CircularDependency?
  {
    for r := 0 to |runs|
      invariant forall k :: 0 <= k < r ==> Acyclic(NameGraph(runs[k].tasks))
    {
      var cyclic := CyclicTasks(runs[r].tasks);
      if cyclic != {} {
        var n :| n in cyclic;
        assert !Acyclic(NameGraph(runs[r].tasks));
        return Some(CircularDependency(r, cyclic));
      }
    }
    return None;
  }

  /** The two inner loops of the common dependency check: one parent `via` of a task. */
  method SharedWith(tasks: seq<Task>, t: Name, parents: seq<Name>, via: Name) returns (hit: bool)
    requires DistinctNames(tasks) && t in NameGraph(tasks) && IsName(tasks, via)
    requires Elements(parents) == NameGraph(tasks)[t] && via in NameGraph(tasks)[t]
    ensures hit <==> exists p :: Redundant(NameGraph(tasks), t, via, p)
  {
    hide IndexOf, NameGraph, Reaches, DistinctNames;
    ghost var g := NameGraph(tasks);
    var above := GetAllTaskParents(tasks, IndexOf(tasks, via));
    for j := 0 to |parents|
      invariant forall l :: 0 <= l < j ==> parents[l] !in above
    {
      if parents[j] in above {
        assert parents[j] in Elements(parents);
        assert Redundant(g, t, via, parents[j]);
        return true;
      }
    }
    forall p ensures !Redundant(g, t, via, p) {
      if p in g[t] { var l := ElementAt(parents, p); }
    }
    return false;
  }

  /** The body of the common dependency check for the `i`-th task. */
  method HasCommonDependency(tasks: seq<Task>, i: nat) returns (hit: bool)
    requires DistinctNames(tasks) && i < |tasks|
    ensures hit <==> exists via, p :: Redundant(NameGraph(tasks), tasks[i].name, via, p)
  {
    ghost var g, t := NameGraph(tasks), tasks[i].name;
    NameGraphAt(tasks, i);
    var parents := GetTaskParents(tasks, tasks[i]);
    for k := 0 to |parents|
      invariant forall l, p :: 0 <= l < k ==> !Redundant(g, t, parents[l], p)
    {
      assert parents[k] in Elements(parents);
      NamesAreNames(tasks, parents[k]);
      hit := SharedWith(tasks, tasks[i].name, parents, parents[k]);
      if hit {
        return;
      }
    }
    forall via, p ensures !Redundant(g, t, via, p) {
      if via in g[t] { var l := ElementAt(parents, via); }
    }
    return false;
  }

  lemma NamedBy(tasks: seq<Task>, t: Name) returns (i: nat)
    requires t in NameGraph(tasks)
    ensures i < |tasks| && tasks[i].name == t
  {
    i := IndexOf(tasks, t);
  }

  method CheckCommon(runs: seq<ConfigRun>) returns (err: Option<ConfigError>)
    requires forall r :: 0 <= r < |runs| ==> DistinctNames(runs[r].tasks)
    ensures err.None? <==> forall r :: 0 <= r < |runs| ==> NoRedundantEdge(NameGraph(runs[r].tasks))
    ensures err.Some? ==> err.value.CommonDependency?
  {
    hide NameGraph, DistinctNames, Reaches, IsName;
    for r := 0 to |runs|
      invariant forall k :: 0 <= k < r ==> NoRedundantEdge(NameGraph(runs[k].tasks))
    {
      var tasks := runs[r].tasks;
      ghost var g := NameGraph(tasks);
      for i := 0 to |tasks|
        invariant forall k, via, p :: 0 <= k < i ==> !Redundant(g, tasks[k].name, via, p)
      {
        var hit := HasCommonDependency(tasks, i);
        if hit {
          assert !NoRedundantEdge(NameGraph(runs[r].tasks));
          return Some(ConfigError.CommonDependency(r, i));
        }
      }
      forall t, via, p ensures !Redundant(g, t, via, p) {
        if t in g { var at := NamedBy(tasks, t); }
      }
    }
    return None;
  }

  method CheckDuplicates(runs: seq<ConfigRun>) returns (err: Option<ConfigError>)
    ensures err.None? <==> forall r, i :: 0 <= r < |runs| && 0 <= i < |runs[r].tasks| ==> DistinctDepends(runs[r].tasks[i])
    ensures err.None? <==>
            forall r, i, k, l :: 0 <= r < |runs| && 0 <= i < |runs[r].tasks| && 0 <= k < l < |runs[r].tasks[i].depends| ==>
              runs[r].tasks[i].depends[k].taskName != runs[r].tasks[i].depends[l].taskName
    ensures err.Some? ==> err.value.DuplicateDependency?
  {
    for r := 0 to |runs|
      invariant forall k, i :: 0 <= k < r && 0 <= i < |runs[k].tasks| ==> DistinctDepends(runs[k].tasks[i])
    {
      for i := 0 to |runs[r].tasks|
        invariant forall k :: 0 <= k < i ==> DistinctDepends(runs[r].tasks[k])
      {
        var depends := runs[r].tasks[i].depends;
        var seen: set<Name> := {};
        for d := 0 to |depends|
          invariant forall n :: n in seen <==> exists k :: 0 <= k < d && depends[k].taskName == n
          invariant forall k, l :: 0 <= k < l < d ==> depends[k].taskName != depends[l].taskName
        {
          if depends[d].taskName in seen {
            assert !DistinctDepends(runs[r].tasks[i]);
            return Some(DuplicateDependency(r, i));
          }
          seen := seen + {depends[d].taskName};
        }
      }
    }
    return None;
  }

  /** Accepts exactly the configs whose runs are all checked runs. An error of a later check
      means that all earlier checks passed for every run. */
  method CheckConfig(runs: seq<ConfigRun>) returns (err: Option<ConfigError>)
    ensures err.None? <==> runs != [] && GoodRunNames(runs) && forall r :: 0 <= r < |runs| ==> CheckedRun(runs[r])
    ensures err.Some? && (err.value.CircularDependency? || err.value.CommonDependency? || err.value.DuplicateDependency?) ==>
              forall r :: 0 <= r < |runs| ==> GoodTaskNames(runs[r]) && DependsExist(runs[r])
    ensures err.Some? && err.value.CircularDependency? <==>
              runs != [] && GoodRunNames(runs)
              && (forall r :: 0 <= r < |runs| ==> GoodTaskNames(runs[r]) && DependsExist(runs[r]))
              && exists r :: 0 <= r < |runs| && !Acyclic(NameGraph(runs[r].tasks))
  {
    if |runs| == 0 {
      return Some(NoRuns);
    }
    err := CheckNames(runs);
    if err.Some? { return; }
    err := CheckDepends(runs);
    if err.Some? { return; }
    err := CheckCycles(runs);
    if err.Some? { return; }
    err := CheckCommon(runs);
    if err.Some? { return; }
    err := CheckDuplicates(runs);
  }

  // ---------------------------------------------------------------- translation

  function TranslateCondition(c: ConfigCondition): DependCondition {
    match c
    case OnSuccess => DependCondition.OnSuccess
    case OnFailure => DependCondition.OnFailure
    case OnSkipped => DependCondition.OnSkipped
    case Other(_) => DependCondition.Unset
  }

  /** An empty list means "on success"; otherwise each condition keeps its place. */
  ghost predicate ConditionsTranslated(cs: seq<ConfigCondition>, ds: seq<DependCondition>) {
    if cs == [] then ds == [DependCondition.OnSuccess]
    else |ds| == |cs| && forall k :: 0 <= k < |cs| ==> ds[k] == TranslateCondition(cs[k])
  }

  method GenConditions(cs: seq<ConfigCondition>) returns (ds: seq<DependCondition>)
    ensures ConditionsTranslated(cs, ds)
    ensures cs == [] ==> ds == [DependCondition.OnSuccess]
    ensures cs != [] ==> |ds| == |cs| && forall k :: 0 <= k < |cs| ==>
              && (ds[k] == DependCondition.OnSuccess <==> cs[k] == ConfigCondition.OnSuccess)
              && (ds[k] == DependCondition.OnFailure <==> cs[k] == ConfigCondition.OnFailure)
              && (ds[k] == DependCondition.OnSkipped <==> cs[k] == ConfigCondition.OnSkipped)
  {
    ds := seq(|cs|, _ => DependCondition.Unset);
    if |cs| == 0 {
      ds := ds + [DependCondition.OnSuccess];
    } else {
      for k := 0 to |cs|
        invariant |ds| == |cs| && forall l :: 0 <= l < k ==> ds[l] == TranslateCondition(cs[l])
      {
        ds := ds[k := TranslateCondition(cs[k])];
      }
    }
  }

  /** `rct` carries the fields of `t`; the dependencies are stated apart. */
  ghost predicate SameTask(t: Task, skip: bool, rct: RunConfigTask) {
    && rct.name == t.name.text && rct.steps == t.steps && rct.runtime == t.runtime
    && rct.ignoreFailure == t.ignoreFailure && rct.needsApproval == t.approval && rct.skip == skip
  }

  /** `depends` holds exactly the first `n` dependencies of `t`, under the ids of their tasks. */
  ghost predicate DependsTranslated(tasks: seq<Task>, ids: seq<TaskID>, t: Task, n: nat,
                                    depends: map<TaskID, seq<DependCondition>>)
    requires |ids| == |tasks| && n <= |t.depends| && TaskDependsExist(tasks, t)
  {
    && (forall k :: 0 <= k < n ==>
          var id := ids[IndexOf(tasks, t.depends[k].taskName)];
          id in depends && ConditionsTranslated(t.depends[k].conditions, depends[id]))
    && (forall id :: id in depends ==>
          exists k :: 0 <= k < n && id == ids[IndexOf(tasks, t.depends[k].taskName)])
  }

  ghost predicate Translated(tasks: seq<Task>, ids: seq<TaskID>, skips: seq<bool>, rcts: RunConfig)
    requires |ids| == |tasks| == |skips| && forall i :: 0 <= i < |tasks| ==> TaskDependsExist(tasks, tasks[i])
  {
    && rcts.Keys == Elements(ids)
    && forall i :: 0 <= i < |tasks| ==>
         && ids[i] in rcts
         && SameTask(tasks[i], skips[i], rcts[ids[i]])
         && DependsTranslated(tasks, ids, tasks[i], |tasks[i].depends|, rcts[ids[i]].depends)
  }

  /** Tasks with the right fields, before the dependencies are filled in. */
  ghost predicate Named(tasks: seq<Task>, ids: seq<TaskID>, skips: seq<bool>, n: nat, rcts: RunConfig)
    requires n <= |ids| == |tasks| == |skips|
  {
    && rcts.Keys == Elements(ids[..n])
    && forall i :: 0 <= i < n ==> ids[i] in rcts && SameTask(tasks[i], skips[i], rcts[ids[i]])
  }

  /** The position whose id is `id`, found through the name. */
  lemma PositionOfID(tasks: seq<Task>, ids: seq<TaskID>, skips: seq<bool>, rcts: RunConfig, id: TaskID)
    requires |ids| == |tasks| == |skips| && Named(tasks, ids, skips, |ids|, rcts) && DistinctNames(tasks) && id in rcts
    ensures IsName(tasks, Name(rcts[id].name)) && ids[IndexOf(tasks, Name(rcts[id].name))] == id
  {
    assert ids[..|ids|] == ids;
    var j := ElementAt(ids, id);
    assert SameTask(tasks[j], skips[j], rcts[id]);
    IndexOfDistinct(tasks, j);
  }

  lemma NamedAt(tasks: seq<Task>, ids: seq<TaskID>, skips: seq<bool>, rcts: RunConfig, n: Name)
    requires |ids| == |tasks| == |skips| && Named(tasks, ids, skips, |ids|, rcts) && IsName(tasks, n)
    ensures IndexOf(tasks, n) < |tasks|
    ensures ids[IndexOf(tasks, n)] in rcts && rcts[ids[IndexOf(tasks, n)]].name == n.text
  {
    assert ids[..|ids|] == ids;
  }

  /** Finds the run config task called `n`, looking at the tasks in any order. */
  method GetRunConfigTaskByName(rcts: RunConfig, n: Name, tasks: seq<Task>, ids: seq<TaskID>, skips: seq<bool>) returns (id: TaskID)
    requires |ids| == |tasks| == |skips| && Named(tasks, ids, skips, |ids|, rcts)
    requires DistinctNames(tasks) && IsName(tasks, n)
    ensures id == ids[IndexOf(tasks, n)]
  {
    hide Named, DistinctNames, IndexOf;
    var want := IndexOf(tasks, n);
    NamedAt(tasks, ids, skips, rcts, n);
    var rest := rcts.Keys;
    while rest != {}
      invariant rest <= rcts.Keys && ids[want] in rest
      decreases rest
    {
      id :| id in rest;
      if rcts[id].name == n.text {
        PositionOfID(tasks, ids, skips, rcts, id);
        return;
      }
      rest := rest - {id};
    }
    assert false;
  }

  lemma DependsApart(tasks: seq<Task>, ids: seq<TaskID>, t: Task, k: nat)
    requires |ids| == |tasks| && NoDuplicates(ids) && k < |t.depends|
    requires TaskDependsExist(tasks, t) && DistinctDepends(t)
    ensures forall l :: 0 <= l < k ==> ids[IndexOf(tasks, t.depends[l].taskName)] != ids[IndexOf(tasks, t.depends[k].taskName)]
  {
    forall l | 0 <= l < k ensures ids[IndexOf(tasks, t.depends[l].taskName)] != ids[IndexOf(tasks, t.depends[k].taskName)] {
      assert t.depends[l].taskName != t.depends[k].taskName;
      assert IndexOf(tasks, t.depends[l].taskName) != IndexOf(tasks, t.depends[k].taskName);
    }
  }

  /** Setting the entry of the `k`-th dependency keeps the earlier ones: their ids differ. */
  lemma DependsTranslatedStep(tasks: seq<Task>, ids: seq<TaskID>, t: Task, k: nat,
                              depends: map<TaskID, seq<DependCondition>>, conditions: seq<DependCondition>)
    requires |ids| == |tasks| && NoDuplicates(ids) && k < |t.depends|
    requires TaskDependsExist(tasks, t) && DistinctDepends(t)
    requires DependsTranslated(tasks, ids, t, k, depends)
    requires ConditionsTranslated(t.depends[k].conditions, conditions)
    ensures DependsTranslated(tasks, ids, t, k + 1, depends[ids[IndexOf(tasks, t.depends[k].taskName)] := conditions])
  {
    hide ConditionsTranslated, IndexOf, DistinctDepends, NoDuplicates;
    var at := IndexOf(tasks, t.depends[k].taskName);
    var next := depends[ids[at] := conditions];
    DependsApart(tasks, ids, t, k);
    forall l | 0 <= l < k + 1
      ensures var id := ids[IndexOf(tasks, t.depends[l].taskName)];
              id in next && ConditionsTranslated(t.depends[l].conditions, next[id])
    {
      if l < k { assert ids[IndexOf(tasks, t.depends[l].taskName)] != ids[at]; }
    }
    forall id | id in next ensures exists l :: 0 <= l < k + 1 && id == ids[IndexOf(tasks, t.depends[l].taskName)] {
      if id == ids[at] { assert id == ids[IndexOf(tasks, t.depends[k].taskName)]; }
    }
  }

  method GenDepends(rcts: RunConfig, i: nat, tasks: seq<Task>, ids: seq<TaskID>, skips: seq<bool>)
      returns (depends: map<TaskID, seq<DependCondition>>)
    requires |ids| == |tasks| == |skips| && Named(tasks, ids, skips, |ids|, rcts) && i < |tasks|
    requires DistinctNames(tasks) && NoDuplicates(ids)
    requires TaskDependsExist(tasks, tasks[i]) && DistinctDepends(tasks[i])
    ensures DependsTranslated(tasks, ids, tasks[i], |tasks[i].depends|, depends)
  {
    var t := tasks[i];
    depends := map[];
    for k := 0 to |t.depends|
      invariant DependsTranslated(tasks, ids, t, k, depends)
    {
      var conditions := GenConditions(t.depends[k].conditions);
      var id := GetRunConfigTaskByName(rcts, t.depends[k].taskName, tasks, ids, skips);
      DependsTranslatedStep(tasks, ids, t, k, depends, conditions);
      depends := depends[id := conditions];
    }
  }

  /** The first loop of GenRunConfigTasks: tasks under fresh ids, without dependencies. */
  method GenTasks(tasks: seq<Task>, ids: seq<TaskID>, skips: seq<bool>) returns (rcts: RunConfig)
    requires |ids| == |tasks| == |skips| && NoDuplicates(ids)
    ensures Named(tasks, ids, skips, |ids|, rcts)
  {
    rcts := map[];
    for i := 0 to |tasks|
      invariant Named(tasks, ids, skips, i, rcts)
    {
      var t := tasks[i];
      assert ids[..i + 1] == ids[..i] + [ids[i]];
      ElementsAppend(ids[..i], ids[i]);
      rcts := rcts[ids[i] := RunConfigTask(0, t.name.text, map[], t.steps, t.runtime, t.ignoreFailure, t.approval, skips[i])];
    }
  }

  lemma NamedStays(tasks: seq<Task>, ids: seq<TaskID>, skips: seq<bool>, rcts: RunConfig, id: TaskID,
                   depends: map<TaskID, seq<DependCondition>>)
    requires |ids| == |tasks| == |skips| && Named(tasks, ids, skips, |ids|, rcts) && id in rcts
    ensures Named(tasks, ids, skips, |ids|, rcts[id := rcts[id].(depends := depends)])
  {
  }

  /** `ids[i]` is the id generated for the `i`-th task, `skips[i]` whether its `when` excludes it. */
  method GenRunConfigTasks(tasks: seq<Task>, ids: seq<TaskID>, skips: seq<bool>) returns (rcts: RunConfig)
    requires |ids| == |tasks| == |skips| && NoDuplicates(ids)
    requires DistinctNames(tasks)
    requires forall i :: 0 <= i < |tasks| ==> TaskDependsExist(tasks, tasks[i]) && DistinctDepends(tasks[i])
    ensures Translated(tasks, ids, skips, rcts)
  {
    rcts := GenTasks(tasks, ids, skips);
    var rest := rcts.Keys;
    while rest != {}
      invariant rest <= rcts.Keys
      invariant Named(tasks, ids, skips, |ids|, rcts)
      invariant forall i :: 0 <= i < |ids| && ids[i] !in rest ==>
                  DependsTranslated(tasks, ids, tasks[i], |tasks[i].depends|, rcts[ids[i]].depends)
      decreases rest
    {
      var id :| id in rest;
      rest := rest - {id};
      PositionOfID(tasks, ids, skips, rcts, id);
      var depends := GenDepends(rcts, IndexOf(tasks, Name(rcts[id].name)), tasks, ids, skips);
      NamedStays(tasks, ids, skips, rcts, id, depends);
      rcts := rcts[id := rcts[id].(depends := depends)];
    }
    assert ids[..|ids|] == ids;
  }

  // ---------------------------------------------------------------- what a translated task is

  /** The task `i` carries the fields of the config under its own id; it depends on the tasks that its dependencies
      name and on no others. */
  lemma TranslatedMeans(tasks: seq<Task>, ids: seq<TaskID>, skips: seq<bool>, rcts: RunConfig, i: nat)
    requires |ids| == |tasks| == |skips| && NoDuplicates(ids) && DistinctNames(tasks) && i < |tasks|
    requires forall k :: 0 <= k < |tasks| ==> TaskDependsExist(tasks, tasks[k])
    requires Translated(tasks, ids, skips, rcts)
    ensures (forall id :: id in rcts <==> id in ids) && ids[i] in rcts
    ensures var t, rct := tasks[i], rcts[ids[i]];
            && rct.name == t.name.text && rct.steps == t.steps && rct.runtime == t.runtime
            && rct.ignoreFailure == t.ignoreFailure && rct.needsApproval == t.approval && rct.skip == skips[i]
            && forall j :: 0 <= j < |tasks| ==>
                 (ids[j] in rct.depends <==> exists k :: 0 <= k < |t.depends| && t.depends[k].taskName == tasks[j].name)
    ensures forall id :: id in rcts[ids[i]].depends ==> id in ids
  {
    var t, depends := tasks[i], rcts[ids[i]].depends;
    assert DependsTranslated(tasks, ids, t, |t.depends|, depends) && SameTask(t, skips[i], rcts[ids[i]]);
    forall j | 0 <= j < |tasks|
      ensures ids[j] in depends <==> exists k :: 0 <= k < |t.depends| && t.depends[k].taskName == tasks[j].name
    {
      DependencyTranslated(tasks, ids, t, depends, j);
    }
  }

  /** And each dependency brings its conditions: "on success" when it has none, otherwise its own; an
      unknown text becomes a condition that nothing meets. */
  lemma ConditionsOfTranslated(tasks: seq<Task>, ids: seq<TaskID>, skips: seq<bool>, rcts: RunConfig, i: nat, k: nat, j: nat)
    requires |ids| == |tasks| == |skips| && NoDuplicates(ids) && DistinctNames(tasks) && i < |tasks|
    requires forall l :: 0 <= l < |tasks| ==> TaskDependsExist(tasks, tasks[l])
    requires Translated(tasks, ids, skips, rcts)
    requires k < |tasks[i].depends| && j < |tasks| && tasks[i].depends[k].taskName == tasks[j].name
    ensures ids[i] in rcts && ids[j] in rcts[ids[i]].depends
    ensures var cs, ds := tasks[i].depends[k].conditions, rcts[ids[i]].depends[ids[j]];
            && (DependCondition.OnSuccess in ds <==> cs == [] || ConfigCondition.OnSuccess in cs)
            && (DependCondition.OnFailure in ds <==> ConfigCondition.OnFailure in cs)
            && (DependCondition.OnSkipped in ds <==> ConfigCondition.OnSkipped in cs)
  {
    var t, depends := tasks[i], rcts[ids[i]].depends;
    assert DependsTranslated(tasks, ids, t, |t.depends|, depends);
    IndexOfDistinct(tasks, j);
    TranslatedConditions(t.depends[k].conditions, depends[ids[j]]);
  }

  lemma TranslatedConditions(cs: seq<ConfigCondition>, ds: seq<DependCondition>)
    requires ConditionsTranslated(cs, ds)
    ensures DependCondition.OnSuccess in ds <==> cs == [] || ConfigCondition.OnSuccess in cs
    ensures DependCondition.OnFailure in ds <==> ConfigCondition.OnFailure in cs
    ensures DependCondition.OnSkipped in ds <==> ConfigCondition.OnSkipped in cs
  {
    forall c | c in cs ensures TranslateCondition(c) in ds {
      var k :| 0 <= k < |cs| && cs[k] == c;
      assert ds[k] == TranslateCondition(c);
    }
    forall d | d in ds ensures cs == [] || exists c :: c in cs && TranslateCondition(c) == d {
      var k :| 0 <= k < |ds| && ds[k] == d;
      if cs != [] { assert cs[k] in cs; }
    }
  }

  // ---------------------------------------------------------------- the graph is preserved

  ghost function Renaming(tasks: seq<Task>, ids: seq<TaskID>): map<Name, TaskID>
    requires |ids| == |tasks|
  {
    map n | n in Names(tasks) :: ids[IndexOf(tasks, n)]
  }

  /** A dependency listed in the config is a key of the translated dependencies, and conversely. */
  lemma DependencyTranslated(tasks: seq<Task>, ids: seq<TaskID>, t: Task, depends: map<TaskID, seq<DependCondition>>, j: nat)
    requires |ids| == |tasks| && NoDuplicates(ids) && DistinctNames(tasks) && j < |tasks| && TaskDependsExist(tasks, t)
    requires DependsTranslated(tasks, ids, t, |t.depends|, depends)
    ensures DependsOn(t, tasks[j].name) <==> ids[j] in depends
  {
    IndexOfDistinct(tasks, j);
    if DependsOn(t, tasks[j].name) {
      var k :| 0 <= k < |t.depends| && t.depends[k].taskName == tasks[j].name;
      assert ids[IndexOf(tasks, t.depends[k].taskName)] in depends;
    }
    if ids[j] in depends {
      var k :| 0 <= k < |t.depends| && ids[j] == ids[IndexOf(tasks, t.depends[k].taskName)];
      assert IndexOf(tasks, t.depends[k].taskName) == j;
    }
  }

  lemma EdgeTranslated(tasks: seq<Task>, ids: seq<TaskID>, skips: seq<bool>, rcts: RunConfig, i: nat, j: nat)
    requires |ids| == |tasks| == |skips| && NoDuplicates(ids) && DistinctNames(tasks) && i < |tasks| && j < |tasks|
    requires forall k :: 0 <= k < |tasks| ==> TaskDependsExist(tasks, tasks[k])
    requires Translated(tasks, ids, skips, rcts)
    ensures ids[i] in rcts && ids[j] in rcts
    ensures tasks[j].name in NameGraph(tasks)[tasks[i].name] <==> ids[j] in DependGraph(rcts)[ids[i]]
  {
    NameGraphAt(tasks, i);
    IndexOfDistinct(tasks, j);
    NamesAreNames(tasks, tasks[j].name);
    DependencyTranslated(tasks, ids, tasks[i], rcts[ids[i]].depends, j);
  }

  lemma RenamingIsOneToOne(tasks: seq<Task>, ids: seq<TaskID>)
    requires |ids| == |tasks| && NoDuplicates(ids) && DistinctNames(tasks)
    ensures var f := Renaming(tasks, ids);
            && (forall a, b :: a in f && b in f && f[a] == f[b] ==> a == b)
            && (forall a :: a in f ==> f[a] in Elements(ids))
            && (forall y :: y in Elements(ids) ==> exists a :: a in f && f[a] == y)
  {
    var f := Renaming(tasks, ids);
    forall a, b | a in f && b in f && f[a] == f[b] ensures a == b {
      assert IndexOf(tasks, a) == IndexOf(tasks, b);
    }
    forall y | y in Elements(ids) ensures exists a :: a in f && f[a] == y {
      var i := ElementAt(ids, y);
      IndexOfDistinct(tasks, i);
      NamesAreNames(tasks, tasks[i].name);
      assert f[tasks[i].name] == y;
    }
  }

  lemma EdgeBetweenNames(tasks: seq<Task>, ids: seq<TaskID>, skips: seq<bool>, rcts: RunConfig, a: Name, b: Name)
    requires |ids| == |tasks| == |skips| && NoDuplicates(ids) && DistinctNames(tasks)
    requires forall k :: 0 <= k < |tasks| ==> TaskDependsExist(tasks, tasks[k])
    requires Translated(tasks, ids, skips, rcts)
    requires a in NameGraph(tasks) && b in NameGraph(tasks)
    ensures var f := Renaming(tasks, ids);
            f[a] in DependGraph(rcts) && (b in NameGraph(tasks)[a] <==> f[b] in DependGraph(rcts)[f[a]])
  {
    NamesAreNames(tasks, a);
    NamesAreNames(tasks, b);
    EdgeTranslated(tasks, ids, skips, rcts, IndexOf(tasks, a), IndexOf(tasks, b));
  }

  lemma AllEdges(tasks: seq<Task>, ids: seq<TaskID>, skips: seq<bool>, rcts: RunConfig)
    requires |ids| == |tasks| == |skips| && NoDuplicates(ids) && DistinctNames(tasks)
    requires forall k :: 0 <= k < |tasks| ==> TaskDependsExist(tasks, tasks[k])
    requires Translated(tasks, ids, skips, rcts)
    ensures var g, h, f := NameGraph(tasks), DependGraph(rcts), Renaming(tasks, ids);
            forall a, b :: a in g && b in g ==> f[a] in h && (b in g[a] <==> f[b] in h[f[a]])
  {
    var g, h, f := NameGraph(tasks), DependGraph(rcts), Renaming(tasks, ids);
    forall a, b | a in g && b in g ensures f[a] in h && (b in g[a] <==> f[b] in h[f[a]]) {
      EdgeBetweenNames(tasks, ids, skips, rcts, a, b);
    }
  }

  /** The id graph is the name graph under other names. */
  lemma TranslationIsIsomorphism(tasks: seq<Task>, ids: seq<TaskID>, skips: seq<bool>, rcts: RunConfig)
    requires |ids| == |tasks| == |skips| && NoDuplicates(ids) && DistinctNames(tasks)
    requires forall k :: 0 <= k < |tasks| ==> TaskDependsExist(tasks, tasks[k])
    requires Translated(tasks, ids, skips, rcts)
    ensures Isomorphic(NameGraph(tasks), DependGraph(rcts), Renaming(tasks, ids))
  {
    hide *;
    RenamingIsOneToOne(tasks, ids);
    KeysAreIDs(tasks, ids, skips, rcts);
    AllEdges(tasks, ids, skips, rcts);
    IsomorphicFromParts(NameGraph(tasks), DependGraph(rcts), Renaming(tasks, ids));
  }

  lemma KeysAreIDs(tasks: seq<Task>, ids: seq<TaskID>, skips: seq<bool>, rcts: RunConfig)
    requires |ids| == |tasks| == |skips|
    requires forall k :: 0 <= k < |tasks| ==> TaskDependsExist(tasks, tasks[k])
    requires Translated(tasks, ids, skips, rcts)
    ensures DependGraph(rcts).Keys == Elements(ids)
    ensures Renaming(tasks, ids).Keys == NameGraph(tasks).Keys
  {
  }

  lemma TranslatedIsClosed(tasks: seq<Task>, ids: seq<TaskID>, skips: seq<bool>, rcts: RunConfig)
    requires |ids| == |tasks| == |skips|
    requires forall k :: 0 <= k < |tasks| ==> TaskDependsExist(tasks, tasks[k])
    requires Translated(tasks, ids, skips, rcts)
    ensures DependsClosed(rcts)
  {
    hide ConditionsTranslated, SameTask;
    forall t | t in rcts ensures rcts[t].depends.Keys <= rcts.Keys {
      var i := ElementAt(ids, t);
      assert DependsTranslated(tasks, ids, tasks[i], |tasks[i].depends|, rcts[t].depends);
    }
  }

  /** A run accepted by checkConfig gives run config tasks that CheckRunConfigTasks and
      GenTasksLevels accept: these two conditions are exactly what they test. */
  lemma CheckedRunTranslatesToAcceptedGraph(run: ConfigRun, ids: seq<TaskID>, skips: seq<bool>, rcts: RunConfig)
    requires |ids| == |run.tasks| == |skips| && NoDuplicates(ids) && CheckedRun(run)
    requires Translated(run.tasks, ids, skips, rcts)
    ensures Acyclic(DependGraph(rcts)) && NoRedundantEdge(DependGraph(rcts))
  {
    TranslationIsIsomorphism(run.tasks, ids, skips, rcts);
    NameGraphClosed(run.tasks);
    IsomorphismKeepsShape(NameGraph(run.tasks), DependGraph(rcts), Renaming(run.tasks, ids));
  }

  /** The whole way from a config to levelled tasks: once checkConfig accepts, nothing fails. */
  method TasksOfAcceptedConfig(runs: seq<ConfigRun>, r: nat, ids: seq<TaskID>, skips: seq<bool>)
      returns (accepted: bool, table: TaskTable)
    requires r < |runs| && |ids| == |runs[r].tasks| == |skips| && NoDuplicates(ids)
    ensures accepted <==> GoodRunNames(runs) && forall k :: 0 <= k < |runs| ==> CheckedRun(runs[k])
    ensures accepted ==> IsLevelling(DependGraph(table.tasks), Levels(table.tasks))
    ensures accepted ==> Isomorphic(NameGraph(runs[r].tasks), DependGraph(table.tasks), Renaming(runs[r].tasks, ids))
    ensures accepted ==> DependsClosed(table.tasks)
  {
    var err := CheckConfig(runs);
    accepted := err.None?;
    table := new TaskTable(map[]);
    if accepted {
      var rcts := GenRunConfigTasks(runs[r].tasks, ids, skips);
      CheckedRunTranslatesToAcceptedGraph(runs[r], ids, skips, rcts);
      TranslationIsIsomorphism(runs[r].tasks, ids, skips, rcts);
      TranslatedIsClosed(runs[r].tasks, ids, skips, rcts);
      var checkErr := CheckRunConfigTasks(rcts);
      assert checkErr.None?;
      table := new TaskTable(rcts);
      var ok := table.GenTasksLevels();
      assert ok;
      LevelsKeepClosed(rcts, table.tasks);
    }
  }
}
