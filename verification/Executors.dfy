/** The choice of an executor (chooseExecutor in internal/services/runservice/scheduler.go). */
module Executors {
  import opened RunTypes

  /** `alive` says whether the last update is recent enough. A limit of 0 means no limit. */
  datatype Executor = Executor(
    id: ExecutorID,
    alive: bool,
    allowPrivileged: bool,
    archs: seq<string>,
    activeTasksLimit: int,
    activeTasks: int)

  predicate RequiresPrivileged(rct: RunConfigTask) {
    true in rct.runtime.privileged
  }

  /** The load of an executor is the larger of what is stored for it and what it reports. */
  function Load(e: Executor, counts: map<ExecutorID, nat>): int {
    var stored := if e.id in counts then counts[e.id] else 0;
    if e.activeTasks > stored then e.activeTasks else stored
  }

  predicate Accepts(e: Executor, counts: map<ExecutorID, nat>, rct: RunConfigTask) {
    && e.alive
    && (RequiresPrivileged(rct) ==> e.allowPrivileged)
    && (rct.runtime.arch != "" ==> rct.runtime.arch in e.archs)
    && (e.activeTasksLimit != 0 ==> Load(e, counts) < e.activeTasksLimit)
  }

  lemma AcceptsMeans(e: Executor, counts: map<ExecutorID, nat>, rct: RunConfigTask)
    ensures Accepts(e, counts, rct) <==>
            && e.alive
            && (true in rct.runtime.privileged ==> e.allowPrivileged)
            && (rct.runtime.arch == "" || rct.runtime.arch in e.archs)
            && (e.activeTasksLimit == 0
                || (e.activeTasks < e.activeTasksLimit && (if e.id in counts then counts[e.id] else 0) < e.activeTasksLimit))
  {
  }

  /** The first executor that accepts the task. */
  function Chosen(executors: seq<Executor>, counts: map<ExecutorID, nat>, rct: RunConfigTask): (r: Option<ExecutorID>)
    ensures r.None? <==> forall i :: 0 <= i < |executors| ==> !Accepts(executors[i], counts, rct)
    ensures r.Some? ==> exists i :: (0 <= i < |executors| && executors[i].id == r.value && Accepts(executors[i], counts, rct)
                                     && forall k :: 0 <= k < i ==> !Accepts(executors[k], counts, rct))
  {
    if executors == [] then None
    else if Accepts(executors[0], counts, rct) then Some(executors[0].id)
    else
      var r := Chosen(executors[1..], counts, rct);
      assert forall i :: 0 <= i < |executors[1..]| ==> executors[1..][i] == executors[i + 1];
      r
  }

  lemma ChosenStep(executors: seq<Executor>, counts: map<ExecutorID, nat>, rct: RunConfigTask, i: nat)
    requires i < |executors|
    ensures Chosen(executors[i..], counts, rct) ==
            if Accepts(executors[i], counts, rct) then Some(executors[i].id) else Chosen(executors[i + 1..], counts, rct)
  {
    assert executors[i..][0] == executors[i] && executors[i..][1..] == executors[i + 1..];
  }

  method NeedsPrivileged(rct: RunConfigTask) returns (requiresPrivilegedContainers: bool)
    ensures requiresPrivilegedContainers <==> RequiresPrivileged(rct)
  {
    requiresPrivilegedContainers := false;
    for i := 0 to |rct.runtime.privileged|
      invariant !requiresPrivilegedContainers && true !in rct.runtime.privileged[..i]
    {
      if rct.runtime.privileged[i] {
        requiresPrivilegedContainers := true;
        break;
      }
    }
    assert rct.runtime.privileged[..|rct.runtime.privileged|] == rct.runtime.privileged;
  }

  method HasArch(archs: seq<string>, arch: string) returns (hasArch: bool)
    ensures hasArch <==> arch in archs
  {
    hasArch := false;
    for k := 0 to |archs|
      invariant hasArch <==> arch in archs[..k]
    {
      if archs[k] == arch {
        hasArch := true;
      }
    }
    assert archs[..|archs|] == archs;
  }

  /** The first executor that is alive, allows what the task needs, has its architecture and is below its limit
      both by what is stored for it and by what it reports. */
  method ChooseExecutor(executors: seq<Executor>, counts: map<ExecutorID, nat>, rct: RunConfigTask)
      returns (r: Option<ExecutorID>, ghost first: nat)
    ensures r == Chosen(executors, counts, rct)
    ensures first <= |executors| && r == if first < |executors| then Some(executors[first].id) else None
    ensures forall i :: 0 <= i <= first && i < |executors| ==>
              (i == first <==>
               var e := executors[i];
               && e.alive
               && (true in rct.runtime.privileged ==> e.allowPrivileged)
               && (rct.runtime.arch == "" || rct.runtime.arch in e.archs)
               && (e.activeTasksLimit == 0
                   || (e.activeTasks < e.activeTasksLimit && (if e.id in counts then counts[e.id] else 0) < e.activeTasksLimit)))
  {
    first := FirstAccepting(executors, counts, rct);
    forall i | 0 <= i < |executors| ensures Accepts(executors[i], counts, rct) <==>
      var e := executors[i];
      && e.alive
      && (true in rct.runtime.privileged ==> e.allowPrivileged)
      && (rct.runtime.arch == "" || rct.runtime.arch in e.archs)
      && (e.activeTasksLimit == 0
          || (e.activeTasks < e.activeTasksLimit && (if e.id in counts then counts[e.id] else 0) < e.activeTasksLimit))
    {
      AcceptsMeans(executors[i], counts, rct);
    }
    r := FindExecutor(executors, counts, rct);
  }

  lemma FirstAccepting(executors: seq<Executor>, counts: map<ExecutorID, nat>, rct: RunConfigTask) returns (first: nat)
    ensures first <= |executors|
    ensures Chosen(executors, counts, rct) == if first < |executors| then Some(executors[first].id) else None
    ensures forall i :: 0 <= i <= first && i < |executors| ==> (i == first <==> Accepts(executors[i], counts, rct))
  {
    var r := Chosen(executors, counts, rct);
    if r.Some? {
      first :| first < |executors| && executors[first].id == r.value && Accepts(executors[first], counts, rct)
               && forall k :: 0 <= k < first ==> !Accepts(executors[k], counts, rct);
    } else {
      first := |executors|;
    }
  }

  method FindExecutor(executors: seq<Executor>, counts: map<ExecutorID, nat>, rct: RunConfigTask) returns (r: Option<ExecutorID>)
    ensures r == Chosen(executors, counts, rct)
  {
    hide Chosen, RequiresPrivileged;
    var requiresPrivilegedContainers := NeedsPrivileged(rct);
    assert executors[0..] == executors;
    for i := 0 to |executors|
      invariant Chosen(executors, counts, rct) == Chosen(executors[i..], counts, rct)
    {
      var e := executors[i];
      ChosenStep(executors, counts, rct, i);
      if !e.alive {
        continue;
      }
      if requiresPrivilegedContainers && !e.allowPrivileged {
        continue;
      }
      if rct.runtime.arch != "" {
        var hasArch := HasArch(e.archs, rct.runtime.arch);
        if !hasArch {
          continue;
        }
      }
      if e.activeTasksLimit != 0 {
        var activeTasks: int := if e.id in counts then counts[e.id] else 0;
        if e.activeTasks > activeTasks {
          activeTasks := e.activeTasks;
        }
        if activeTasks >= e.activeTasksLimit {
          continue;
        }
      }
      return Some(e.id);
    }
    NobodyChosen(counts, rct);
    assert executors[|executors|..] == [];
    return None;
  }

  lemma NobodyChosen(counts: map<ExecutorID, nat>, rct: RunConfigTask)
    ensures Chosen([], counts, rct) == None
  {
  }
}
