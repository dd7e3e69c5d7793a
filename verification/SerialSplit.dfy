/** The two models belong together: every serial run is one of the interleavings of the split
    model, with the transactions of each scheduleRun next to each other. */
module SerialSplit {
  import opened RunTypes
  import opened Scheduler
  import opened Executors
  import opened RunStore
  import opened SplitModel
  import opened SerialModel

  /** The moves of the loop of submitRunTasks, all decided from the state at position `c`. */
  lemma {:induction false} SubmissionMoves(rc: RunConfig, b: seq<Store>, ms: seq<Move>, c: nat,
                                           order: seq<TaskID>, offers: seq<Offer>)
      returns (b': seq<Store>, ms': seq<Move>)
    requires SplitRun(rc, b, ms) && 0 < c < |b| && ms[c - 1].action.Commit?
    requires b[c].run.phase.Running? && forall i :: 0 <= i < |order| ==> Runnable(rc, b[c].run, order[i])
    requires |offers| == |order| && FreshOffers(b[|b| - 1], offers)
    ensures SplitRun(rc, b', ms') && b <= b' && ms <= ms'
    ensures b'[|b'| - 1] == Submissions(rc, b[|b| - 1], order, offers)
    decreases |order|
  {
    hide SplitRun, Runnable, EtTasks, Chosen, CountsOf;
    var s := b[|b| - 1];
    b', ms' := b, ms;
    if order != [] {
      if order[0] in EtTasks(s.ets) || order[0] !in rc {
        b', ms' := SubmissionMoves(rc, b, ms, c, order[1..], offers[1..]);
      } else {
        var x := Chosen(offers[0].executors, CountsOf(s.ets, offers[0]), rc[order[0]]);
        if x.Some? {
          var s', m := Submitted(s, order[0], offers[0].id, x.value), Move(Submit(order[0], offers[0].id, x.value), c);
          SplitLength(rc, b, ms);
          OneMoreMove(rc, b, ms, m, s');
          b', ms' := b + [s'], ms + [m];
          if offers[0].sent {
            b', ms' := SubmissionMoves(rc, b + [s'], ms + [m], c, order[1..], offers[1..]);
          }
        }
      }
    }
  }

  lemma SplitLength(rc: RunConfig, b: seq<Store>, ms: seq<Move>)
    requires SplitRun(rc, b, ms)
    ensures |b| == |ms| + 1
  {
  }

  /** The moves of one serial step. */
  lemma StepMoves(rc: RunConfig, b: seq<Store>, ms: seq<Move>, m: SerialMove)
      returns (b': seq<Store>, ms': seq<Move>)
    requires SplitRun(rc, b, ms) && SerialInv(rc, b[|b| - 1]) && SerialEnabled(rc, b[|b| - 1], m)
    ensures SplitRun(rc, b', ms') && b < b' && ms <= ms'
    ensures b'[|b'| - 1] == SerialNext(rc, b[|b| - 1], m)
  {
    hide SplitRun, SerialInv, Committed, Next, Enabled, GoodSchedule, FreshOffers, Submissions, Runnable;
    SplitLength(rc, b, ms);
    var s := b[|b| - 1];
    SerialInvParts(rc, s);
    match m
    case Single(a) =>
      var s' := Next(rc, s, s, a);
      OneMoreMove(rc, b, ms, Move(a, |b| - 1), s');
      b', ms' := b + [s'], ms + [Move(a, |b| - 1)];
    case Schedule(order, offers) =>
      CommittedIsNext(rc, s);
      var s' := Committed(rc, s, s);
      OneMoreMove(rc, b, ms, Move(Commit, |b| - 1), s');
      b', ms' := b + [s'], ms + [Move(Commit, |b| - 1)];
      RunnableInOrder(rc, s', order, offers);
      if s'.run.phase.Running? {
        b', ms' := SubmissionMoves(rc, b', ms', |b|, order, offers);
      } else {
        NoSubmissions(rc, s');
      }
  }

  /** Every state of a serial run is reached by an interleaving of the split model, with all the
      states of the serial run on the way. */
  lemma {:induction false} SerialRunIsSplitRun(rc: RunConfig, b: seq<Store>, ms: seq<SerialMove>, n: nat)
      returns (b': seq<Store>, ms': seq<Move>, at: seq<nat>)
    requires SerialRun(rc, b, ms) && n < |b|
    ensures SplitRun(rc, b', ms') && |at| == n + 1
    ensures forall i :: 0 <= i <= n ==> at[i] < |b'| && b'[at[i]] == b[i]
    ensures forall i, j :: 0 <= i < j <= n ==> at[i] < at[j]
    ensures at[n] == |b'| - 1
  {
    hide SerialNext, SerialEnabled, SplitRun, SerialInv;
    if n == 0 {
      FirstMove(rc, b[0]);
      b', ms', at := [b[0]], [], [0];
    } else {
      var b0, ms0, at0 := SerialRunIsSplitRun(rc, b, ms, n - 1);
      SerialReached(rc, b, ms, n - 1, n - 1);
      b', ms' := StepMoves(rc, b0, ms0, ms[n - 1]);
      at := at0 + [|b'| - 1];
    }
  }

  lemma FirstMove(rc: RunConfig, s: Store)
    requires Init(rc, s)
    ensures SplitRun(rc, [s], [])
  {
  }
}
