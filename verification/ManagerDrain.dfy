/**
 What draining with a count loses. The main thread pops one reply more than the count allows and
 abandons it. Workers push replies at any time, so what decides is not the replies that wait when
 processReplyTask is called, but the tasks inside each worker.
 */
module ManagerDrain {
  import opened TaskRing
  import P = Pipeline
  import R = RingProtocol
  import opened Manager

  /** How many replies one turn may release when the count is not -1. */
  function Limit(count: int): nat {
    if count < 0 then 0 else count
  }

  /** No worker has more tasks inside than the count allows. */
  ghost predicate Fits(m: Manager, count: int) {
    count == -1 || forall i :: 0 <= i < |m.workers| ==> P.Inside(m.workers[i]) <= Limit(count)
  }

  /** The replies a worker's turn can still meet: inside the worker, or popped and not yet looked at. */
  ghost function Load(w: P.Worker): int {
    P.Inside(w) + |Pending(w)|
  }

  /** What the turns still to come can meet is within what they may still release. */
  ghost predicate Covered(m: Manager) {
    m.main.Draining? && m.main.count != -1 ==>
      forall i :: m.main.worker <= i < |m.workers| ==>
        Load(m.workers[i]) + (if i == m.main.worker then m.main.processed else 0) <= Limit(m.main.count)
  }

  lemma LoadNeverGrows(w: P.Worker, a: P.Action)
    requires P.Inv(w) && P.Enabled(w, a) && !a.Submit? && a != P.SubmitStep && a != P.SubmitDone
    ensures Load(P.Apply(w, a)) <= Load(w) - if a == P.CollectDone then |Pending(w)| else 0
  {
    hide P.Inv, P.WorkStep, R.PushMicroStep, R.PopMicroStep, P.Dropped, P.Hand;
    P.DropsExactlyOnFullReplyRing(w, a);
    match a
    case Work => WorkLeavesClientSide(w);
    case CollectStep => CollectStepPends(w);
    case CollectDone => CollectDoneEffect(w);
    case Collect =>
    case Stop =>
  }

  lemma InsideIsNatural(w: P.Worker)
    requires P.Inv(w)
    ensures P.Inside(w) >= 0
  {
    P.InsideIsWhatIsThere(w);
  }

  /** Abandoning is the one step that pops a reply beyond the count. */
  lemma AbandonsExactlyBeyondTheCount(m: Manager, a: Action)
    requires Inv(m) && Enabled(m, a)
    ensures Abandoned(Apply(m, a)) != Abandoned(m) <==>
            && a == Main && m.main.Draining? && MainCall(m) == P.CollectDone
            && m.workers[m.main.worker].replies.popper.result != NULL
            && m.main.count != -1 && m.main.processed == Limit(m.main.count)
    ensures Abandoned(Apply(m, a)) != Abandoned(m) ==>
            Abandoned(Apply(m, a)) ==
              Abandoned(m) + [Entry(m.main.worker, m.workers[m.main.worker].replies.popper.result)]
  {
    if a == Main && m.main.Draining? && MainCall(m) == P.CollectDone {
      PopDoneEffect(m);
      hide P.Apply, P.Enabled, Inv, Pick, MainStep, MainCall, Enabled;
      var t := Taken(Entry(m.main.worker, m.workers[m.main.worker].replies.popper.result),
                     Allowed(m.main.count, m.main.processed));
      PickSnoc(m.taken, t, false);
    } else {
      hide P.Apply, P.Enabled, Inv, Pick;
    }
  }

  lemma PickSnoc(taken: seq<Taken>, t: Taken, released: bool)
    ensures Pick(taken + [t], released) == Pick(taken, released) + if t.released == released then [t.entry] else []
  {
    assert (taken + [t])[..|taken|] == taken;
  }

  // A call that fits abandons nothing.

  /** One worker's load does not grow and the main thread stays where it is. */
  lemma StaysCovered(m: Manager, m': Manager, j: nat)
    requires Covered(m) && j < |m.workers| == |m'.workers| && m'.main == m.main
    requires m'.workers == m.workers[j := m'.workers[j]] && Load(m'.workers[j]) <= Load(m.workers[j])
    ensures Covered(m')
  {
    hide Load, Limit;
  }

  lemma WorkerStepKeepsCovered(m: Manager, a: Action)
    requires Inv(m) && Covered(m) && Enabled(m, a) && (a.Work? || a.Stop?)
    ensures Covered(Apply(m, a))
  {
    assert AgreesAt(m, a.worker);
    LoadNeverGrows(m.workers[a.worker], if a.Work? then P.Work else P.Stop);
    hide Inv, AgreesAt, P.Apply, P.Enabled, Load, Covered;
    StaysCovered(m, Apply(m, a), a.worker);
  }

  lemma DrainKeepsCovered(m: Manager, count: int)
    requires Inv(m) && Enabled(m, Drain(count)) && Fits(m, count)
    ensures Covered(Apply(m, Drain(count)))
  {
    hide P.Inv, P.Inside, Of, Routed, Entries;
    forall i | 0 <= i < |m.workers| ensures Load(m.workers[i]) == P.Inside(m.workers[i]) {
      assert AgreesAt(m, i);
    }
  }

  lemma PopStepKeepsCovered(m: Manager)
    requires Inv(m) && Covered(m) && Enabled(m, Main) && m.main.Draining? && MainCall(m) != P.CollectDone
    ensures Covered(MainStep(m))
  {
    assert AgreesAt(m, m.main.worker);
    LoadNeverGrows(m.workers[m.main.worker], MainCall(m));
    hide Inv, AgreesAt, P.Apply, P.Enabled, Load, MainCall, Covered;
    StaysCovered(m, MainStep(m), m.main.worker);
  }

  lemma PopDoneKeepsCovered(m: Manager)
    requires Inv(m) && Covered(m) && Enabled(m, Main) && m.main.Draining? && MainCall(m) == P.CollectDone
    ensures Covered(MainStep(m)) && Abandoned(MainStep(m)) == Abandoned(m)
  {
    var j := m.main.worker;
    assert AgreesAt(m, j);
    PopDoneEffect(m);
    LoadNeverGrows(m.workers[j], P.CollectDone);
    InsideIsNatural(m.workers[j]);
    AbandonsExactlyBeyondTheCount(m, Main);
    hide Inv, AgreesAt, P.Apply, P.Enabled, P.Inside, Abandoned, MainStep, MainCall, Enabled;
  }

  lemma EveryStepKeepsCovered(m: Manager, a: Action)
    requires Inv(m) && Covered(m) && Enabled(m, a) && (a.Drain? ==> Fits(m, a.count))
    ensures Covered(Apply(m, a)) && Abandoned(Apply(m, a)) == Abandoned(m)
  {
    hide Inv, MainStep, Abandoned, Fits;
    AbandonsExactlyBeyondTheCount(m, a);
    if a.Work? || a.Stop? {
      WorkerStepKeepsCovered(m, a);
    } else if a.Drain? {
      DrainKeepsCovered(m, a.count);
    } else if a.Main? && m.main.Draining? {
      if MainCall(m) == P.CollectDone {
        PopDoneKeepsCovered(m);
      } else {
        PopStepKeepsCovered(m);
      }
    } else {
      NoDrainBegins(m, a);
    }
  }

  lemma NoDrainBegins(m: Manager, a: Action)
    requires Inv(m) && Enabled(m, a) && (a.Add? || (a.Main? && !m.main.Draining?))
    ensures !Apply(m, a).main.Draining?
  {
    hide Inv, P.Apply, P.Enabled;
  }

  /** Every call of processReplyTask in the run has a count that its workers fit in as it begins. */
  ghost predicate WellDrained(m: Manager, run: seq<Action>)
    requires IsRun(m, run)
    decreases |run|
  {
    run == [] || ((run[0].Drain? ==> Fits(m, run[0].count)) && WellDrained(Apply(m, run[0]), run[1..]))
  }

  lemma {:induction false} WellDrainedKeepsCovered(m: Manager, run: seq<Action>)
    requires Inv(m) && Covered(m) && IsRun(m, run) && WellDrained(m, run)
    ensures Covered(After(m, run)) && Abandoned(After(m, run)) == Abandoned(m)
    decreases |run|
  {
    hide Inv, Covered, Abandoned, Fits, Apply;
    if run != [] {
      EveryStepKeepsCovered(m, run[0]);
      EveryStepKeepsInv(m, run[0]);
      WellDrainedKeepsCovered(Apply(m, run[0]), run[1..]);
    }
  }

  /** Runs that drain with -1 only are such runs, whatever is inside the workers. */
  lemma {:induction false} DrainingWithoutCountIsWellDrained(m: Manager, run: seq<Action>)
    requires IsRun(m, run) && forall k :: 0 <= k < |run| && run[k].Drain? ==> run[k].count == -1
    ensures WellDrained(m, run)
    decreases |run|
  {
    hide Apply, Enabled;
    if run != [] {
      DrainingWithoutCountIsWellDrained(Apply(m, run[0]), run[1..]);
    }
  }
}
