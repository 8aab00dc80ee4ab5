/**
 The count condition of ManagerDrain is exact: if it fails at a worker that has not been stopped, some
 interleaving of that worker with the draining main thread abandons a reply.
 */
module DrainExact {
  import opened TaskRing
  import P = Pipeline
  import R = RingProtocol
  import W = WorkerAlone
  import opened Manager
  import opened ManagerDrain

  /** The run goes on inside one call of processReplyTask: no call begins. */
  ghost predicate WithinCall(run: seq<Action>) {
    forall a <- run :: a.Main? || a.Work? || a.Stop?
  }

  ghost predicate Reaches(m: Manager, run: seq<Action>, m': Manager) {
    IsRun(m, run) && After(m, run) == m' && WithinCall(run)
  }

  lemma StepThen(m: Manager, a: Action, run: seq<Action>, m': Manager)
    requires Enabled(m, a) && (a.Main? || a.Work? || a.Stop?) && Reaches(Apply(m, a), run, m')
    ensures Reaches(m, [a] + run, m')
  {
    hide Apply, Enabled;
    assert ([a] + run)[1..] == run;
  }

  lemma {:induction false} Compose(m: Manager, r: seq<Action>, m1: Manager, s: seq<Action>, m2: Manager)
    requires Reaches(m, r, m1) && Reaches(m1, s, m2)
    ensures Reaches(m, r + s, m2)
    decreases |r|
  {
    hide Apply, Enabled;
    if r == [] {
      assert r + s == s;
    } else {
      assert r + s == [r[0]] + (r[1..] + s);
      Compose(Apply(m, r[0]), r[1..], m1, s, m2);
      StepThen(m, r[0], r[1..] + s, m2);
    }
  }

  // One pop of the draining main thread, the workers standing still.

  /** The pop under way, or the next one, will return a task if the worker does nothing. */
  ghost predicate Expects(w: P.Worker)
    requires w.replies.ring.Valid()
  {
    match w.replies.popper
    case PopIdle => w.replies.ring.Contents() != []
    case PopEntered => w.replies.ring.Contents() != []
    case PopLoaded(_, seen) => seen > 0
    case PopNonEmpty => true
    case PopRead(_) => true
    case PopReturned(result) => result != NULL
  }

  /** The replies this worker's turn can still pop if the worker does nothing. */
  ghost function Waiting(w: P.Worker): nat
    requires w.replies.ring.Valid()
  {
    |w.replies.ring.Contents()| + |Pending(w)|
  }

  function StepsToReturn(popper: R.PopPc): nat {
    match popper
    case PopIdle => 5
    case PopEntered => 4
    case PopLoaded(_, _) => 3
    case PopNonEmpty => 2
    case PopRead(_) => 1
    case PopReturned(_) => 0
  }

  ghost function PopCall(w: P.Worker): P.Action {
    if w.replies.popper.PopIdle? then P.Collect else P.CollectStep
  }

  /** What a step of the pop leaves as it was. */
  ghost predicate SamePop(w: P.Worker, v: P.Worker) {
    && w.replies.ring.Valid() && v.replies.ring.Valid()
    && (Expects(v) <==> Expects(w)) && Waiting(v) == Waiting(w) && Load(v) == Load(w) && v.terminate == w.terminate
  }

  lemma PopStepExpects(s: R.Spsc)
    requires R.Inv(s) && R.PopRunning(s)
    ensures var t := R.PopMicroStep(s);
            && t.ring.Valid() && StepsToReturn(t.popper) < StepsToReturn(s.popper)
            && |t.ring.Contents()| + (if s.popper.PopRead? then 1 else 0) == |s.ring.Contents()|
            && (s.popper.PopEntered? ==> t.popper.PopLoaded? && (t.popper.seen > 0 <==> t.ring.Contents() != []))
            && (s.popper.PopLoaded? ==> t.popper == if s.popper.seen > 0 then R.PopNonEmpty else R.PopReturned(NULL))
            && (s.popper.PopNonEmpty? ==> t.popper.PopRead?)
            && (s.popper.PopRead? ==> t.popper == R.PopReturned(s.popper.task))
  {
    R.PopStepKeepsInv(s);
    hide Ring.Contents;
  }

  lemma CollectAdvances(w: P.Worker)
    requires P.Inv(w) && w.replies.popper.PopIdle?
    ensures var v := P.Apply(w, P.Collect);
            SamePop(w, v) && StepsToReturn(v.replies.popper) < StepsToReturn(w.replies.popper)
  {
    assert R.Inv(w.replies);
    hide P.Inv, P.WorkStep, R.PushMicroStep, R.PopMicroStep, Ring.Contents, P.Dropped;
  }

  /** A pop step as a change of the reply ring alone. */
  lemma CollectStepFields(w: P.Worker)
    requires P.Enabled(w, P.CollectStep)
    ensures var v := P.Apply(w, P.CollectStep);
            v == w.(replies := R.PopMicroStep(w.replies)) && P.Dropped(v) == P.Dropped(w)
  {
    hide P.WorkStep, R.PushMicroStep, R.PopMicroStep, Ring.Valid, P.Chosen;
  }

  lemma CollectStepLoad(w: P.Worker)
    requires P.Inv(w) && P.Enabled(w, P.CollectStep)
    ensures Load(P.Apply(w, P.CollectStep)) == Load(w)
  {
    CollectStepPends(w);
    CollectStepFields(w);
    hide P.Inv, P.Apply, P.Enabled, P.Dropped, Pending, R.PopMicroStep;
  }

  /** The pop under way keeps to its outcome. */
  lemma CollectStepWaits(w: P.Worker)
    requires R.Inv(w.replies) && R.PopRunning(w.replies) && w.replies.ring.Valid()
    requires w.replies.popper.PopRead? ==> w.replies.popper.task != NULL
    ensures var v := w.(replies := R.PopMicroStep(w.replies));
            && v.replies.ring.Valid() && (Expects(v) <==> Expects(w)) && Waiting(v) == Waiting(w)
            && StepsToReturn(v.replies.popper) < StepsToReturn(w.replies.popper)
  {
    PopStepExpects(w.replies);
    hide R.Inv, R.PopMicroStep, Ring.Contents, Ring.Valid;
  }

  lemma CollectStepAdvances(w: P.Worker)
    requires P.Inv(w) && P.Enabled(w, P.CollectStep)
    ensures var v := P.Apply(w, P.CollectStep);
            SamePop(w, v) && StepsToReturn(v.replies.popper) < StepsToReturn(w.replies.popper)
  {
    assert R.Inv(w.replies) && R.PopRunning(w.replies) && w.replies.ring.Valid();
    if w.replies.popper.PopRead? {
      PoppedReplyIsNotNull(w);
    }
    CollectStepLoad(w);
    CollectStepFields(w);
    CollectStepWaits(w);
    hide P.Inv, R.Inv, P.Apply, P.Enabled, R.PopMicroStep, Ring.Valid, P.Dropped, Load, Waiting, Expects, StepsToReturn;
  }

  lemma PopCanGoOn(w: P.Worker)
    requires w.replies.ring.Valid() && !w.replies.popper.PopReturned?
    ensures P.Enabled(w, PopCall(w))
  {
    hide Ring.Valid;
  }

  lemma RepliesInv(w: P.Worker)
    requires P.Inv(w)
    ensures R.Inv(w.replies) && w.replies.ring.Valid()
  {
  }

  lemma PopAdvances(w: P.Worker)
    requires P.Inv(w) && !w.replies.popper.PopReturned?
    ensures P.Enabled(w, PopCall(w)) && P.Inv(P.Apply(w, PopCall(w)))
    ensures var v := P.Apply(w, PopCall(w));
            SamePop(w, v) && StepsToReturn(v.replies.popper) < StepsToReturn(w.replies.popper)
  {
    hide P.Inv, P.Enabled, P.Apply, SamePop, Ring.Valid, StepsToReturn;
    RepliesInv(w);
    PopCanGoOn(w);
    P.EveryStepKeepsInv(w, PopCall(w));
    if w.replies.popper.PopIdle? {
      CollectAdvances(w);
    } else {
      CollectStepAdvances(w);
    }
  }

  /** Only worker j, and of the main thread only its place in the pop, differ. */
  ghost predicate OnlyAt(m: Manager, m': Manager, j: nat) {
    && |m'.workers| == |m.workers| && m'.submitted == m.submitted
    && forall i :: 0 <= i < |m.workers| && i != j ==> m'.workers[i] == m.workers[i]
  }

  lemma SamePopComposes(u: P.Worker, v: P.Worker, w: P.Worker)
    requires SamePop(u, v) && SamePop(v, w)
    ensures SamePop(u, w)
  {
    hide Expects, Waiting, Load;
  }

  lemma MainPops(m: Manager)
    requires |m.workers| == THREAD_COUNT + 1 && m.main.Draining? && m.main.worker <= THREAD_COUNT
    requires var w := m.workers[m.main.worker]; !w.replies.popper.PopReturned? && P.Enabled(w, PopCall(w))
    ensures Enabled(m, Main)
    ensures var j := m.main.worker;
            Apply(m, Main) == m.(workers := m.workers[j := P.Apply(m.workers[j], PopCall(m.workers[j]))])
  {
    hide P.Apply, P.Enabled;
  }

  lemma MainAdvances(m: Manager)
    requires Inv(m) && m.main.Draining? && !m.workers[m.main.worker].replies.popper.PopReturned?
    ensures Enabled(m, Main) && Inv(Apply(m, Main))
    ensures var j, m' := m.main.worker, Apply(m, Main);
            && m'.main == m.main && m'.taken == m.taken && OnlyAt(m, m', j)
            && SamePop(m.workers[j], m'.workers[j])
            && StepsToReturn(m'.workers[j].replies.popper) < StepsToReturn(m.workers[j].replies.popper)
  {
    assert AgreesAt(m, m.main.worker);
    DrainIsAtAWorker(m);
    PopAdvances(m.workers[m.main.worker]);
    MainPops(m);
    hide P.Inv, P.Apply, P.Enabled, SamePop, AgreesAt, Inv, Enabled, Apply, PopCall, StepsToReturn;
    EveryStepKeepsInv(m, Main);
  }

  lemma StayPut(m: Manager)
    ensures Reaches(m, [], m)
  {
  }

  lemma StandingStill(m: Manager)
    requires Inv(m) && m.main.Draining?
    ensures SamePop(m.workers[m.main.worker], m.workers[m.main.worker])
  {
    assert AgreesAt(m, m.main.worker);
  }

  lemma DrainIsAtAWorker(m: Manager)
    requires Inv(m)
    ensures |m.workers| == THREAD_COUNT + 1
    ensures m.main.Draining? ==> m.main.worker <= THREAD_COUNT
  {
  }

  /** The pop runs to its return. */
  lemma {:induction false} FinishPop(m: Manager) returns (run: seq<Action>, m': Manager)
    requires Inv(m) && m.main.Draining?
    ensures Reaches(m, run, m') && Inv(m') && m'.main == m.main && m'.taken == m.taken && OnlyAt(m, m', m.main.worker)
    ensures var j := m.main.worker;
            SamePop(m.workers[j], m'.workers[j]) && m'.workers[j].replies.popper.PopReturned?
    decreases StepsToReturn(m.workers[m.main.worker].replies.popper)
  {
    var j := m.main.worker;
    hide Inv, Apply, Enabled, Reaches, StepsToReturn, SamePop;
    DrainIsAtAWorker(m);
    if m.workers[j].replies.popper.PopReturned? {
      run, m' := [], m;
      StayPut(m);
      StandingStill(m);
    } else {
      MainAdvances(m);
      var m1 := Apply(m, Main);
      var rest;
      rest, m' := FinishPop(m1);
      run := [Main] + rest;
      StepThen(m, Main, rest, m');
      SamePopComposes(m.workers[j], m1.workers[j], m'.workers[j]);
    }
  }

  lemma PopReturned(m: Manager)
    requires Inv(m) && m.main.Draining? && m.workers[m.main.worker].replies.popper.PopReturned?
    ensures Enabled(m, Main) && MainCall(m) == P.CollectDone
  {
    hide AgreesAt;
  }

  /** What one pop, from its start to the main thread's look at the result, leads to. */
  ghost predicate PopLeads(m: Manager, m': Manager) {
    && m.main.Draining? && m.main.worker < |m.workers|
    && OnlyAt(m, m', m.main.worker)
    && var j, w := m.main.worker, m.workers[m.main.worker];
       && w.replies.ring.Valid()
       && if !Expects(w) then
            m'.main == NextTurn(j, m.main.count) && m'.taken == m.taken
          else if Allowed(m.main.count, m.main.processed) then
            && m'.main == m.main.(processed := m.main.processed + 1) && Abandoned(m') == Abandoned(m)
            && m'.workers[j].replies.popper.PopIdle? && m'.workers[j].replies.ring.Valid()
            && Waiting(m'.workers[j]) < Waiting(w) && Load(m'.workers[j]) == Load(w) - 1
            && m'.workers[j].terminate == w.terminate
          else
            Abandoned(m') != Abandoned(m)
  }

  lemma LookLeads(m: Manager)
    requires Inv(m) && m.main.Draining? && m.workers[m.main.worker].replies.popper.PopReturned?
    ensures Enabled(m, Main) && PopLeads(m, Apply(m, Main))
  {
    PopReturned(m);
    var j := m.main.worker;
    var w := m.workers[j];
    assert AgreesAt(m, j);
    PopDoneEffect(m);
    CollectDoneEffect(w);
    AbandonsExactlyBeyondTheCount(m, Main);
    hide Inv, AgreesAt, P.Apply, P.Enabled, Abandoned, Enabled, MainCall, MainStep, P.Dropped, Ring.Contents;
  }

  lemma OnePop(m: Manager) returns (run: seq<Action>, m': Manager)
    requires Inv(m) && m.main.Draining?
    ensures Reaches(m, run, m') && Inv(m') && PopLeads(m, m')
  {
    var m1;
    run, m1 := FinishPop(m);
    LookLeads(m1);
    m' := Apply(m1, Main);
    EveryStepKeepsInv(m1, Main);
    StayPut(m');
    StepThen(m1, Main, [], m');
    Compose(m, run, m1, [Main], m');
    run := run + [Main];
    hide Inv, Apply, Enabled, Reaches, Expects, Waiting, Load;
  }

  // Reaching the turn of a worker.

  /** The main thread is about to pop at worker j for the first or a further time. */
  ghost predicate AboutToPop(m: Manager, j: nat) {
    && Inv(m) && m.main.Draining? && m.main.worker == j && j < |m.workers| && m.workers[j].replies.popper.PopIdle?
    && m.workers[j].replies.ring.Valid() && m.workers[j].tasks.ring.Valid()
  }

  /** The turn is over, and nothing but the current worker has changed; or a reply has been abandoned. */
  ghost predicate TurnEnds(m: Manager, m': Manager) {
    Abandoned(m') != Abandoned(m)
    || (m.main.Draining? && m'.main == NextTurn(m.main.worker, m.main.count) && OnlyAt(m, m', m.main.worker))
  }

  lemma RingIsValid(m: Manager, j: nat)
    requires Inv(m) && j < |m.workers|
    ensures m.workers[j].replies.ring.Valid() && m.workers[j].tasks.ring.Valid()
    ensures ClientAt(m.main, j) == Away ==> m.workers[j].replies.popper.PopIdle?
  {
    assert AgreesAt(m, j);
  }

  lemma {:induction false} FinishTurn(m: Manager, j: nat) returns (run: seq<Action>, m': Manager)
    requires AboutToPop(m, j)
    ensures Reaches(m, run, m') && Inv(m') && TurnEnds(m, m')
    decreases Waiting(m.workers[j])
  {
    hide Inv, Reaches, Abandoned, Waiting, Expects, Load;
    RingIsValid(m, j);
    run, m' := OnePop(m);
    if Abandoned(m') == Abandoned(m) && m'.main.Draining? && m'.main.worker == j {
      RingIsValid(m', j);
      var more, m2 := FinishTurn(m', j);
      Compose(m, run, m', more, m2);
      run, m' := run + more, m2;
    }
  }

  /** The main thread gets to the turn of worker i, which meanwhile stands still; or abandons a reply before. */
  lemma {:induction false} ReachTurn(m: Manager, j: nat, i: nat) returns (run: seq<Action>, m': Manager)
    requires AboutToPop(m, j) && m.main.processed == 0 && j <= i <= THREAD_COUNT
    ensures Reaches(m, run, m') && Inv(m')
    ensures Abandoned(m') != Abandoned(m)
            || (AboutToPop(m', i) && m'.main == Draining(i, m.main.count, 0) && m'.workers[i] == m.workers[i])
    decreases i - j
  {
    hide Reaches, Abandoned;
    if j == i {
      run, m' := [], m;
      StayPut(m);
    } else {
      DrainIsAtAWorker(m);
      run, m' := FinishTurn(m, j);
      if Abandoned(m') == Abandoned(m) {
        RingIsValid(m, j + 1);
        DrainIsAtAWorker(m');
        RingIsValid(m', j + 1);
        hide Inv;
        var more, m2 := ReachTurn(m', j + 1, i);
        Compose(m, run, m', more, m2);
        run, m' := run + more, m2;
      }
    }
  }

  // Overtaking the count.

  lemma WorkerHolds(m: Manager, j: nat)
    requires Inv(m) && j < |m.workers|
    ensures P.Inv(m.workers[j])
  {
    assert AgreesAt(m, j);
  }

  lemma WorkStepOf(m: Manager, j: nat)
    requires |m.workers| == THREAD_COUNT + 1 && j <= THREAD_COUNT && P.Enabled(m.workers[j], P.Work)
    ensures Enabled(m, Work(j)) && Apply(m, Work(j)) == m.(workers := m.workers[j := P.WorkStep(m.workers[j])])
  {
    hide P.WorkStep, P.WorkEnabled;
  }

  lemma WorkerAdvances(m: Manager, j: nat)
    requires AboutToPop(m, j) && !m.workers[j].terminate && P.Inside(m.workers[j]) > 0
    requires m.workers[j].replies.ring.Contents() == []
    ensures Enabled(m, Work(j)) && AboutToPop(Apply(m, Work(j)), j)
    ensures var w, m' := m.workers[j], Apply(m, Work(j));
            && m'.main == m.main && m'.taken == m.taken && m'.workers[j].terminate == w.terminate
            && P.Inside(m'.workers[j]) == P.Inside(w) && W.StepsAhead(m'.workers[j]) < W.StepsAhead(w)
  {
    hide Inv, P.Inv, P.WorkStep, P.Enabled, P.Inside, W.StepsAhead, Ring.Contents, Ring.Valid, Apply, Enabled;
    DrainIsAtAWorker(m);
    WorkerHolds(m, j);
    W.WorkTowardsReply(m.workers[j]);
    WorkStepOf(m, j);
    EveryStepKeepsInv(m, Work(j));
  }

  /** The worker works until a reply waits, the main thread standing still. */
  lemma {:induction false} AwaitReply(m: Manager, j: nat) returns (run: seq<Action>, m': Manager)
    requires AboutToPop(m, j) && !m.workers[j].terminate && P.Inside(m.workers[j]) > 0
    ensures Reaches(m, run, m') && AboutToPop(m', j) && m'.main == m.main && m'.taken == m.taken
    ensures var v := m'.workers[j];
            v.replies.ring.Contents() != [] && !v.terminate && P.Inside(v) == P.Inside(m.workers[j])
    decreases W.StepsAhead(m.workers[j])
  {
    if m.workers[j].replies.ring.Contents() != [] {
      run, m' := [], m;
      StayPut(m);
    } else {
      WorkerAdvances(m, j);
      hide Inv, P.Inside, W.StepsAhead, Reaches, Ring.Contents, Apply, Enabled;
      var rest;
      rest, m' := AwaitReply(Apply(m, Work(j)), j);
      run := [Work(j)] + rest;
      StepThen(m, Work(j), rest, m');
    }
  }

  lemma AboutToPopFacts(m: Manager, j: nat)
    requires AboutToPop(m, j)
    ensures m.main.count != -1 ==> m.main.processed <= Limit(m.main.count)
    ensures Load(m.workers[j]) == P.Inside(m.workers[j])
    ensures Expects(m.workers[j]) <==> m.workers[j].replies.ring.Contents() != []
  {
  }

  /** With more inside the worker than its turn may still release, the two threads can go on to abandon one. */
  lemma {:induction false} AbandonAt(m: Manager, j: nat) returns (run: seq<Action>, m': Manager)
    requires AboutToPop(m, j) && !m.workers[j].terminate && m.main.count != -1
    requires P.Inside(m.workers[j]) + m.main.processed > Limit(m.main.count)
    ensures Reaches(m, run, m') && Abandoned(m') != Abandoned(m)
    decreases Limit(m.main.count) - m.main.processed
  {
    AboutToPopFacts(m, j);
    var m1, m2, more;
    run, m1 := AwaitReply(m, j);
    AboutToPopFacts(m1, j);
    more, m2 := OnePop(m1);
    hide Inv, P.Inside, Waiting, Load, Reaches, Ring.Contents, Pick, Expects;
    Compose(m, run, m1, more, m2);
    run, m' := run + more, m2;
    if Abandoned(m') == Abandoned(m) {
      RingIsValid(m', j);
      AboutToPopFacts(m', j);
      more, m2 := AbandonAt(m', j);
      Compose(m, run, m', more, m2);
      run, m' := run + more, m2;
    }
  }

  /** A call that does not fit can abandon a reply. */
  lemma UnfitCallCanAbandon(m: Manager, count: int, i: nat) returns (run: seq<Action>, m': Manager)
    requires Inv(m) && Enabled(m, Drain(count)) && count != -1
    requires i < |m.workers| && !m.workers[i].terminate && P.Inside(m.workers[i]) > Limit(count)
    ensures Reaches(Apply(m, Drain(count)), run, m') && Abandoned(m') != Abandoned(m)
  {
    var m0 := Apply(m, Drain(count));
    EveryStepKeepsInv(m, Drain(count));
    RingIsValid(m, 0);
    RingIsValid(m0, 0);
    DrainIsAtAWorker(m);
    hide Inv, P.Inside, Reaches, Pick;
    run, m' := ReachTurn(m0, 0, i);
    if Abandoned(m') == Abandoned(m) {
      var more, m2 := AbandonAt(m', i);
      Compose(m0, run, m', more, m2);
      run, m' := run + more, m2;
    }
  }

  /** A call that fits abandons nothing, however the workers interleave with it and with what follows it. */
  lemma {:induction false} FittingCallAbandonsNothing(m: Manager, run: seq<Action>)
    requires Inv(m) && Covered(m) && IsRun(m, run) && WithinCall(run)
    ensures Abandoned(After(m, run)) == Abandoned(m)
    decreases |run|
  {
    hide Inv, Covered, Abandoned, Apply, Enabled;
    if run != [] {
      assert run[0] in run;
      EveryStepKeepsCovered(m, run[0]);
      EveryStepKeepsInv(m, run[0]);
      FittingCallAbandonsNothing(Apply(m, run[0]), run[1..]);
    }
  }

  /**
   While no worker has been stopped: a call of processReplyTask abandons no reply under any interleaving
   with the workers exactly when, as it begins, no worker has more tasks inside than the count allows.
   */
  lemma AbandonsNothingExactlyWhenItFits(m: Manager, count: int)
    requires Inv(m) && Enabled(m, Drain(count)) && forall i :: 0 <= i < |m.workers| ==> !m.workers[i].terminate
    ensures (forall run :: IsRun(Apply(m, Drain(count)), run) && WithinCall(run) ==>
               Abandoned(After(Apply(m, Drain(count)), run)) == Abandoned(m))
            <==> Fits(m, count)
  {
    var m0 := Apply(m, Drain(count));
    if Fits(m, count) {
      EveryStepKeepsInv(m, Drain(count));
      DrainKeepsCovered(m, count);
      forall run | IsRun(m0, run) && WithinCall(run) ensures Abandoned(After(m0, run)) == Abandoned(m) {
        FittingCallAbandonsNothing(m0, run);
      }
    } else {
      hide Inv, P.Inside, Pick, Limit;
      var i :| 0 <= i < |m.workers| && P.Inside(m.workers[i]) > Limit(count);
      var run, m' := UnfitCallCanAbandon(m, count, i);
    }
  }
}
