/** What the submission loop of scheduleRun leaves behind, in plain terms. */
module SubmissionLaws {
  import opened RunTypes
  import opened Executors
  import opened RunStore
  import opened SerialModel

  lemma EtTasksHas(ets: map<ExecutorTaskID, ExecutorTask>, t: TaskID)
    ensures t in EtTasks(ets) <==> exists e :: e in ets && ets[e].task == t
  {
  }

  /** Storing an executor task raises the count of its executor by one, and no other; at first only the executor
      tasks of other runs count. */
  lemma CountsMean(ets: map<ExecutorTaskID, ExecutorTask>, o: Offer, e: ExecutorTaskID, et: ExecutorTask, y: Executor)
    requires e !in ets && y in o.executors
    ensures y.id in CountsOf(ets, o) && y.id in CountsOf(ets[e := et], o) && y.id in CountsOf(map[], o)
    ensures CountsOf(ets[e := et], o)[y.id] == CountsOf(ets, o)[y.id] + if et.executor == y.id then 1 else 0
    ensures CountsOf(map[], o)[y.id] == if y.id in o.others then o.others[y.id] else 0
  {
    hide StoredFor;
    StoredOneMore(ets, ets[e := et], e, y.id);
    NoneStored(map[], y.id);
  }

  lemma StoredOneMore(ets: map<ExecutorTaskID, ExecutorTask>, more: map<ExecutorTaskID, ExecutorTask>, e: ExecutorTaskID, x: ExecutorID)
    requires e !in ets && e in more && more == ets[e := more[e]]
    ensures StoredFor(more, x) == StoredFor(ets, x) + if more[e].executor == x then 1 else 0
  {
    var a := set d | d in ets && ets[d].executor == x;
    var c := set d | d in more && more[d].executor == x;
    forall d ensures d in c <==> d in a || (d == e && more[e].executor == x) {
      if d in ets { assert d in more && more[d] == ets[d]; }
    }
    assert more[e].executor != x ==> c == a;
    assert more[e].executor == x ==> c == a + {e};
  }

  lemma NoneStored(ets: map<ExecutorTaskID, ExecutorTask>, x: ExecutorID)
    requires ets == map[]
    ensures StoredFor(ets, x) == 0
  {
    assert (set d | d in ets && ets[d].executor == x) == {};
  }

  /** The id of a registered executor that is alive, and has what the task needs. */
  ghost predicate Suits(executors: seq<Executor>, rct: RunConfigTask, id: ExecutorID) {
    exists i :: 0 <= i < |executors| && executors[i].id == id && executors[i].alive
      && (true in rct.runtime.privileged ==> executors[i].allowPrivileged)
      && (rct.runtime.arch == "" || rct.runtime.arch in executors[i].archs)
  }

  lemma ChosenSuits(executors: seq<Executor>, counts: map<ExecutorID, nat>, rct: RunConfigTask)
    requires Chosen(executors, counts, rct).Some?
    ensures Suits(executors, rct, Chosen(executors, counts, rct).value)
  {
    hide Chosen;
    var i := FirstAccepting(executors, counts, rct);
    AcceptsMeans(executors[i], counts, rct);
  }

  /** Whose executor task `e` is, of those that the first `n` turns have stored. */
  ghost predicate NewEt(rc: RunConfig, et: ExecutorTask, e: ExecutorTaskID, order: seq<TaskID>, offers: seq<Offer>, n: nat)
    requires |offers| == |order|
  {
    exists k :: 0 <= k < n && k < |order| && e == offers[k].id && order[k] in rc
      && et == ExecutorTask(et.executor, order[k], false, ExecutorTaskPhase.NotStarted, 1)
      && Suits(offers[k].executors, rc[order[k]], et.executor)
  }

  ghost predicate HasEt(r: Store, t: TaskID) {
    exists e :: e in r.ets && r.ets[e].task == t
  }

  /** Why the loop ends before turn `n`. */
  ghost predicate EndsAt(rc: RunConfig, s: Store, r: Store, order: seq<TaskID>, offers: seq<Offer>, n: nat)
    requires |offers| == |order|
  {
    n < |order| ==>
      || (&& !HasEt(r, order[n]) && order[n] in rc
          && forall x :: x in offers[n].executors ==> !Accepts(x, CountsOf(r.ets, offers[n]), rc[order[n]]))
      || (n > 0 && offers[n - 1].id in r.ets && offers[n - 1].id !in s.ets && !offers[n - 1].sent)
  }

  ghost predicate Left(rc: RunConfig, s: Store, r: Store, order: seq<TaskID>, offers: seq<Offer>, n: nat)
    requires |offers| == |order|
  {
    && n <= |order| && r.run == s.run && r.rev == s.rev && r.events == s.events
    && (forall e :: e in s.ets ==> e in r.ets && r.ets[e] == s.ets[e])
    && (forall e :: e in r.ets && e !in s.ets ==> NewEt(rc, r.ets[e], e, order, offers, n))
    && (forall k :: 0 <= k < n ==> HasEt(r, order[k]))
    && EndsAt(rc, s, r, order, offers, n) && AllSent(s, r, offers, n)
  }

  /** Of what was stored, only the last may not have been sent. */
  ghost predicate AllSent(s: Store, r: Store, offers: seq<Offer>, n: nat) {
    forall k :: 0 <= k < n - 1 && k < |offers| && offers[k].id in r.ets && offers[k].id !in s.ets ==> offers[k].sent
  }

  lemma SentLater(rc: RunConfig, s: Store, s': Store, r: Store, order: seq<TaskID>, offers: seq<Offer>, m: nat)
    requires |offers| == |order| > 0 && m <= |order| - 1 && AllSent(s', r, offers[1..], m) && FreshOffers(s, offers)
    requires forall e :: e in s'.ets && e !in s.ets ==> e == offers[0].id
    requires forall e :: e in r.ets && e !in s'.ets ==> exists k :: 0 <= k < |order| - 1 && e == offers[1..][k].id
    requires m > 0 && offers[0].id in s'.ets && offers[0].id !in s.ets ==> offers[0].sent
    ensures AllSent(s, r, offers, m + 1)
  {
    forall k | 0 <= k < m && offers[k].id in r.ets && offers[k].id !in s.ets ensures offers[k].sent {
      if k > 0 {
        assert offers[1..][k - 1] == offers[k] && offers[k].id != offers[0].id;
      }
    }
  }

  lemma NewEtIds(rc: RunConfig, r: Store, s: Store, order: seq<TaskID>, offers: seq<Offer>, m: nat)
    requires |offers| == |order| && forall e :: e in r.ets && e !in s.ets ==> NewEt(rc, r.ets[e], e, order, offers, m)
    ensures forall e :: e in r.ets && e !in s.ets ==> exists k :: 0 <= k < m && k < |order| && e == offers[k].id
  {
    hide Suits;
  }

  lemma NewEtLater(rc: RunConfig, et: ExecutorTask, e: ExecutorTaskID, order: seq<TaskID>, offers: seq<Offer>, m: nat)
    requires |offers| == |order| > 0 && NewEt(rc, et, e, order[1..], offers[1..], m)
    ensures NewEt(rc, et, e, order, offers, m + 1)
  {
    hide Suits;
    var k :| 0 <= k < m && k < |order[1..]| && e == offers[1..][k].id && order[1..][k] in rc
      && et == ExecutorTask(et.executor, order[1..][k], false, ExecutorTaskPhase.NotStarted, 1)
      && Suits(offers[1..][k].executors, rc[order[1..][k]], et.executor);
    assert order[k + 1] == order[1..][k] && offers[k + 1] == offers[1..][k];
  }

  /** What the later turns leave is what all turns leave. */
  lemma LeftLater(rc: RunConfig, s: Store, s': Store, r: Store, order: seq<TaskID>, offers: seq<Offer>, m: nat)
    requires |offers| == |order| > 0 && Left(rc, s', r, order[1..], offers[1..], m)
    requires s'.run == s.run && s'.rev == s.rev && s'.events == s.events && HasEt(s', order[0])
    requires s.ets.Keys <= s'.ets.Keys && forall e :: e in s.ets ==> s'.ets[e] == s.ets[e]
    requires forall e :: e in s'.ets && e !in s.ets ==> NewEt(rc, s'.ets[e], e, order, offers, 1)
    requires offers[0].id in s'.ets && offers[0].id !in s.ets ==> offers[0].sent
    requires FreshOffers(s, offers)
    ensures Left(rc, s, r, order, offers, m + 1)
  {
    hide NewEt, Suits, Accepts, CountsOf, AllSent, FreshOffers;
    NewEtIds(rc, r, s', order[1..], offers[1..], m);
    NewEtIds(rc, s', s, order, offers, 1);
    SentLater(rc, s, s', r, order, offers, m);
    forall e | e in r.ets && e !in s.ets ensures NewEt(rc, r.ets[e], e, order, offers, m + 1) {
      if e in s'.ets {
        NewEtMore(rc, r.ets[e], e, order, offers, 1, m + 1);
      } else {
        NewEtLater(rc, r.ets[e], e, order, offers, m);
      }
    }
    forall k | 0 <= k < m + 1 ensures HasEt(r, order[k]) {
      if k == 0 {
        var e :| e in s'.ets && s'.ets[e].task == order[0];
        assert r.ets[e].task == order[0];
      } else {
        assert HasEt(r, order[1..][k - 1]);
      }
    }
    if m + 1 < |order| {
      assert order[1..][m] == order[m + 1] && offers[1..][m] == offers[m + 1];
      if m > 0 { assert offers[1..][m - 1] == offers[m]; }
    }
  }

  lemma NewEtMore(rc: RunConfig, et: ExecutorTask, e: ExecutorTaskID, order: seq<TaskID>, offers: seq<Offer>, m: nat, n: nat)
    requires |offers| == |order| && m <= n && NewEt(rc, et, e, order, offers, m)
    ensures NewEt(rc, et, e, order, offers, n)
  {
    hide Suits;
  }

  lemma NothingToDo(rc: RunConfig, s: Store)
    ensures Left(rc, s, s, [], [], 0)
  {
  }

  lemma NobodyThere(rc: RunConfig, s: Store, order: seq<TaskID>, offers: seq<Offer>)
    requires |offers| == |order| > 0 && order[0] in rc && order[0] !in EtTasks(s.ets)
    requires Chosen(offers[0].executors, CountsOf(s.ets, offers[0]), rc[order[0]]).None?
    ensures Left(rc, s, s, order, offers, 0)
  {
    hide EtTasks, CountsOf, Accepts, Suits;
    EtTasksHas(s.ets, order[0]);
  }

  /** One turn that submits. */
  lemma TurnSubmits(rc: RunConfig, s: Store, order: seq<TaskID>, offers: seq<Offer>, x: ExecutorID)
    requires |offers| == |order| > 0 && order[0] in rc && offers[0].id !in s.issued && s.ets.Keys <= s.issued
    requires Suits(offers[0].executors, rc[order[0]], x)
    ensures var s' := Submitted(s, order[0], offers[0].id, x);
            && s'.run == s.run && s'.rev == s.rev && s'.events == s.events && HasEt(s', order[0])
            && s.ets.Keys <= s'.ets.Keys <= s'.issued && (forall e :: e in s.ets ==> s'.ets[e] == s.ets[e])
            && (forall e :: e in s'.ets && e !in s.ets ==> NewEt(rc, s'.ets[e], e, order, offers, 1))
            && (!offers[0].sent ==> Left(rc, s, s', order, offers, 1))
  {
    hide CountsOf, Accepts, Suits;
    var t, o := order[0], offers[0];
    var s' := Submitted(s, t, o.id, x);
    assert s'.ets[o.id].task == t;
    assert NewEt(rc, s'.ets[o.id], o.id, order, offers, 1);
  }

  lemma FreshTail(s: Store, s': Store, offers: seq<Offer>)
    requires |offers| > 0 && FreshOffers(s, offers) && s'.issued <= s.issued + {offers[0].id}
    ensures FreshOffers(s', offers[1..])
  {
  }

  lemma {:induction false} LeftReached(rc: RunConfig, s: Store, order: seq<TaskID>, offers: seq<Offer>) returns (n: nat)
    requires |offers| == |order| && FreshOffers(s, offers) && s.ets.Keys <= s.issued
    requires forall k :: 0 <= k < |order| ==> order[k] in rc
    ensures Left(rc, s, Submissions(rc, s, order, offers), order, offers, n)
    decreases |order|
  {
    hide EtTasks, CountsOf, Accepts, Suits, Left, HasEt, NewEt, EndsAt, Chosen;
    if order == [] {
      n := 0;
      NothingToDo(rc, s);
    } else {
      var t, o := order[0], offers[0];
      EtTasksHas(s.ets, t);
      assert forall k :: 0 <= k < |order[1..]| ==> order[1..][k] in rc;
      if t in EtTasks(s.ets) {
        FreshTail(s, s, offers);
        var m := LeftReached(rc, s, order[1..], offers[1..]);
        n := m + 1;
        HasEtIs(s, t);
        LeftLater(rc, s, s, Submissions(rc, s, order, offers), order, offers, m);
      } else {
        match Chosen(o.executors, CountsOf(s.ets, o), rc[t]) {
          case None =>
            n := 0;
            NobodyThere(rc, s, order, offers);
          case Some(x) =>
            var s' := Submitted(s, t, o.id, x);
            ChosenSuits(o.executors, CountsOf(s.ets, o), rc[t]);
            TurnSubmits(rc, s, order, offers, x);
            if o.sent {
              FreshTail(s, s', offers);
              var m := LeftReached(rc, s', order[1..], offers[1..]);
              n := m + 1;
              LeftLater(rc, s, s', Submissions(rc, s, order, offers), order, offers, m);
            } else {
              n := 1;
            }
        }
      }
    }
  }

  lemma HasEtIs(r: Store, t: TaskID)
    ensures HasEt(r, t) <==> exists e :: e in r.ets && r.ets[e].task == t
  {
  }

  /** The loop goes through the first `n` tasks, after which each has an executor task. It stops early only at a task without
      one that no executor accepts, or behind a task whose executor task could not be sent. Executor tasks that were stored stay as they
      are; each new one is for the task of its turn, has not started, and is not to stop. */
  lemma SubmissionsMean(rc: RunConfig, s: Store, order: seq<TaskID>, offers: seq<Offer>) returns (n: nat)
    requires |offers| == |order| && FreshOffers(s, offers) && s.ets.Keys <= s.issued
    requires forall k :: 0 <= k < |order| ==> order[k] in rc
    ensures n <= |order|
    ensures var r := Submissions(rc, s, order, offers); r.run == s.run && r.rev == s.rev && r.events == s.events
    ensures var r := Submissions(rc, s, order, offers); forall e :: e in s.ets ==> e in r.ets && r.ets[e] == s.ets[e]
    ensures var r := Submissions(rc, s, order, offers);
            forall e :: e in r.ets && e !in s.ets ==>
              exists k :: 0 <= k < n && e == offers[k].id
                && r.ets[e] == ExecutorTask(r.ets[e].executor, order[k], false, ExecutorTaskPhase.NotStarted, 1)
                && Suits(offers[k].executors, rc[order[k]], r.ets[e].executor)
    ensures var r := Submissions(rc, s, order, offers);
            forall t :: t in order[..n] ==> exists e :: e in r.ets && r.ets[e].task == t
    ensures var r := Submissions(rc, s, order, offers);
            n < |order| ==>
              || (&& (forall e :: e in r.ets ==> r.ets[e].task != order[n])
                  && forall x :: x in offers[n].executors ==> !Accepts(x, CountsOf(r.ets, offers[n]), rc[order[n]]))
              || (n > 0 && offers[n - 1].id in r.ets && offers[n - 1].id !in s.ets && !offers[n - 1].sent)
    ensures var r := Submissions(rc, s, order, offers);
            forall k :: 0 <= k < n - 1 && offers[k].id in r.ets && offers[k].id !in s.ets ==> offers[k].sent
  {
    hide Submissions, Suits, Accepts, CountsOf, HasEt;
    n := LeftReached(rc, s, order, offers);
    var r := Submissions(rc, s, order, offers);
    forall t | t in order[..n] ensures exists e :: e in r.ets && r.ets[e].task == t {
      var k :| 0 <= k < n && order[k] == t;
      assert HasEt(r, order[k]);
      HasEtIs(r, t);
    }
    if n < |order| { HasEtIs(r, order[n]); }
  }
}
