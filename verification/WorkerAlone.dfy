/** The worker thread running while the client does nothing: what it gets done, and when it must lose a task. */
module WorkerAlone {
  import opened TaskRing
  import opened Pipeline
  import R = RingProtocol

  /** The worker has a task in its hand or queued. */
  ghost predicate Busy(w: Worker)
    requires w.tasks.ring.Valid()
  {
    w.tasks.ring.Contents() != [] || Hand(w) != []
  }

  /** Decreases with every step of a busy worker; 20 steps are more than one task takes. */
  ghost function StepsAhead(w: Worker): nat
    requires w.tasks.ring.Valid()
  {
    20 * |w.tasks.ring.Contents()| +
    match w.pc
    case Executing(_) => 17
    case Replying(_) =>
      (match w.replies.pusher
       case PushEntered(_) => 16
       case PushNextKnown(_, _) => 15
       case PushChecked(_, _) => 14
       case PushWrote(_, _) => 13
       case _ => 12)
    case LoopHead => 11
    case Polling =>
      (match w.tasks.popper
       case PopReturned(result) => if result != NULL then 18 else 13
       case PopEntered => 10
       case PopLoaded(_, seen) => if seen > 0 then 9 else 14
       case PopNonEmpty => 8
       case _ => 7)
    case Sleeping => 12
    case Exited => 0
  }

  /** A worker whose loop has not ended always has a next step. */
  lemma CanWork(w: Worker)
    requires Inv(w) && (!w.terminate || !w.pc.Exited?)
    ensures Enabled(w, Work) && w.tasks.ring.Valid()
  {
    hide Ring.Contents, Tasks, Chosen;
  }

  lemma PollDecreases(w: Worker)
    requires Inv(w) && w.pc.Polling? && WorkEnabled(w) && w.tasks.ring.Valid() && Busy(w)
    ensures WorkStep(w).tasks.ring.Valid() && StepsAhead(WorkStep(w)) < StepsAhead(w)
  {
    hide Ring.Contents, Tasks, Chosen;
    assert R.Inv(w.tasks);
    if R.PopRunning(w.tasks) {
      R.PopStepKeepsInv(w.tasks);
      IndexTestsAreExact(w.tasks.ring);
    }
  }

  lemma BusyWorkDecreases(w: Worker)
    requires Inv(w) && !w.terminate && WorkEnabled(w) && w.tasks.ring.Valid() && Busy(w)
    ensures WorkStep(w).tasks.ring.Valid() && StepsAhead(WorkStep(w)) < StepsAhead(w)
  {
    if w.pc.Polling? {
      PollDecreases(w);
    } else {
      hide Ring.Contents, Tasks, Chosen, Ring.Valid;
    }
  }

  /** The worker after n steps of its own, the client doing nothing. */
  ghost function Alone(w: Worker, n: nat): Worker
    decreases n
  {
    if n == 0 || !WorkEnabled(w) then w else Alone(WorkStep(w), n - 1)
  }

  /** What the client did and had done to it stays as it was. */
  ghost predicate SameClient(w: Worker, v: Worker) {
    && v.tasks.pusher == w.tasks.pusher && v.tasks.accepted == w.tasks.accepted
    && v.replies.popper == w.replies.popper && v.replies.popped == w.replies.popped && v.terminate == w.terminate
  }

  lemma WorkKeepsClient(w: Worker)
    requires WorkEnabled(w)
    ensures SameClient(w, WorkStep(w))
  {
    hide Ring.Contents;
  }

  /** Pushing a reply into a full ring, the worker has 1000 tasks inside. */
  lemma FullReplyRingMeansInside(w: Worker)
    requires Inv(w)
    ensures w.replies.ring.Valid()
    ensures (w.pc.Replying? && w.replies.pusher.PushNextKnown? && |w.replies.ring.Contents()| == MAX_TASK_NUM - 1) ==>
              Inside(w) >= MAX_TASK_NUM
  {
    InsideIsWhatIsThere(w);
    hide Inv, Ring.Contents, Inside;
  }

  lemma FittingWorkLosesNothing(w: Worker)
    requires Inv(w) && WorkEnabled(w) && Inside(w) <= MAX_TASK_NUM - 1
    ensures Inv(WorkStep(w)) && Dropped(WorkStep(w)) == Dropped(w) && Inside(WorkStep(w)) == Inside(w)
  {
    DropsExactlyOnFullReplyRing(w, Work);
    FullReplyRingMeansInside(w);
    EveryStepKeepsInv(w, Work);
    WorkKeepsClient(w);
    hide Inv, WorkStep, WorkEnabled, Dropped, Ring.Contents;
  }

  /** With no reply waiting and a task inside, a step brings the worker closer to a reply and loses nothing. */
  lemma WorkTowardsReply(w: Worker)
    requires Inv(w) && !w.terminate && Inside(w) > 0
    requires w.replies.ring.Valid() && w.replies.ring.Contents() == []
    ensures Enabled(w, Work) && Inv(WorkStep(w)) && Inside(WorkStep(w)) == Inside(w) && SameClient(w, WorkStep(w))
    ensures w.tasks.ring.Valid() && WorkStep(w).tasks.ring.Valid() && WorkStep(w).replies.ring.Valid()
    ensures StepsAhead(WorkStep(w)) < StepsAhead(w)
  {
    CanWork(w);
    InsideIsWhatIsThere(w);
    assert Busy(w);
    BusyWorkDecreases(w);
    DropsExactlyOnFullReplyRing(w, Work);
    EveryStepKeepsInv(w, Work);
    WorkKeepsClient(w);
    InsideIsWhatIsThere(WorkStep(w));
    hide Inv, WorkStep, WorkEnabled, Dropped, Busy, StepsAhead, Ring.Contents, Ring.Valid, Hand;
  }

  lemma {:induction false} AloneLosesOnlyWhenOverloaded(w: Worker, n: nat)
    requires Inv(w) && Inside(w) <= MAX_TASK_NUM - 1
    ensures Dropped(Alone(w, n)) == Dropped(w)
    decreases n
  {
    hide Inv, WorkStep, WorkEnabled, Dropped, Inside;
    if n > 0 && WorkEnabled(w) {
      FittingWorkLosesNothing(w);
      AloneLosesOnlyWhenOverloaded(WorkStep(w), n - 1);
    }
  }

  lemma {:induction false} AloneMustLose(w: Worker) returns (n: nat)
    requires Inv(w) && !w.terminate && Inside(w) >= MAX_TASK_NUM && w.tasks.ring.Valid()
    ensures Dropped(Alone(w, n)) != Dropped(w)
    decreases StepsAhead(w)
  {
    CanWork(w);
    InsideIsWhatIsThere(w);
    assert Busy(w);
    BusyWorkDecreases(w);
    DropsExactlyOnFullReplyRing(w, Work);
    EveryStepKeepsInv(w, Work);
    WorkKeepsClient(w);
    hide Inv, WorkStep, WorkEnabled, Dropped, Busy, StepsAhead, Ring.Contents, Ring.Valid;
    var v := WorkStep(w);
    if Dropped(v) != Dropped(w) {
      n := 1;
      assert Alone(v, 0) == v;
    } else {
      n := AloneMustLose(v);
      n := n + 1;
    }
  }

  /**
   From any reachable state of a worker that has not been stopped, the worker running on by itself
   drops a task sooner or later exactly when at least 1000 tasks are inside it.
   */
  lemma DropsExactlyWhenOverloaded(w: Worker, run: seq<Action>)
    requires Initial(w) && IsRun(w, run) && !After(w, run).terminate
    ensures (exists n: nat :: Dropped(Alone(After(w, run), n)) != Dropped(After(w, run)))
            <==> Inside(After(w, run)) >= MAX_TASK_NUM
  {
    EveryRunKeepsInv(w, run);
    var v := After(w, run);
    hide Inside, Dropped, Alone, After;
    if Inside(v) >= MAX_TASK_NUM {
      CanWork(v);
      var n := AloneMustLose(v);
    } else {
      forall n: nat ensures Dropped(Alone(v, n)) == Dropped(v) {
        AloneLosesOnlyWhenOverloaded(v, n);
      }
    }
  }

  // Stopping.

  /** Steps a stopped worker takes at most before its loop ends. */
  ghost function StepsToExit(w: Worker): nat {
    match w.pc
    case Exited => 0
    case LoopHead => 1
    case Sleeping => 2
    case Replying(_) =>
      (match w.replies.pusher
       case PushEntered(_) => 6
       case PushNextKnown(_, _) => 5
       case PushChecked(_, _) => 4
       case PushWrote(_, _) => 3
       case _ => 2)
    case Executing(_) => 7
    case Polling =>
      (match w.tasks.popper
       case PopReturned(_) => 8
       case PopRead(_) => 9
       case PopNonEmpty => 10
       case PopLoaded(_, _) => 11
       case _ => 12)
  }

  /** The worker is inside a pop that has not taken its task yet. */
  ghost predicate MayStillTake(w: Worker) {
    w.pc.Polling? && !w.tasks.popper.PopReturned?
  }

  lemma StoppedStep(w: Worker)
    requires Inv(w) && w.terminate && WorkEnabled(w)
    ensures StepsToExit(WorkStep(w)) < StepsToExit(w) && WorkStep(w).terminate
    ensures |WorkStep(w).tasks.popped| + (if MayStillTake(WorkStep(w)) then 1 else 0)
            <= |w.tasks.popped| + if MayStillTake(w) then 1 else 0
  {
    hide Ring.Contents, Tasks, Chosen;
    assert w.pc.Replying? ==> !w.replies.pusher.PushIdle?;
  }

  lemma ClientTakesNothing(w: Worker, a: Action)
    requires Inv(w) && Enabled(w, a) && a != Work
    ensures var v := Apply(w, a);
            && v.tasks.popped == w.tasks.popped && v.tasks.popper == w.tasks.popper && v.pc == w.pc
            && v.executed == w.executed && (w.terminate ==> v.terminate)
  {
    hide Ring.Contents, Tasks, Chosen;
  }

  /** After stop, whatever else goes on, the worker takes no further task but one whose pop is already under way. */
  lemma {:induction false} StoppedWorkerTakesNoMore(w: Worker, run: seq<Action>)
    requires Inv(w) && w.terminate && IsRun(w, run)
    ensures |After(w, run).tasks.popped| <= |w.tasks.popped| + if MayStillTake(w) then 1 else 0
    decreases |run|
  {
    hide Inv, Apply, Enabled, MayStillTake;
    if run != [] {
      EveryStepKeepsInv(w, run[0]);
      StoppedTakesNoMore(w, run[0]);
      StoppedWorkerTakesNoMore(Apply(w, run[0]), run[1..]);
    }
  }

  lemma StoppedTakesNoMore(w: Worker, a: Action)
    requires Inv(w) && w.terminate && Enabled(w, a)
    ensures Apply(w, a).terminate
    ensures |Apply(w, a).tasks.popped| + (if MayStillTake(Apply(w, a)) then 1 else 0)
            <= |w.tasks.popped| + if MayStillTake(w) then 1 else 0
  {
    hide Inv;
    if a == Work {
      StoppedStep(w);
      hide WorkStep, WorkEnabled;
    } else {
      ClientTakesNothing(w, a);
      hide Apply, Enabled;
    }
  }

  lemma AloneSteps(w: Worker, n: nat)
    ensures w.pc.Exited? ==> Alone(w, n) == w
    ensures n > 0 && WorkEnabled(w) ==> Alone(w, n) == Alone(WorkStep(w), n - 1)
  {
    hide WorkStep;
  }

  lemma ExitIsNear(w: Worker)
    ensures StepsToExit(w) <= 12 && (StepsToExit(w) == 0 <==> w.pc.Exited?)
  {
  }

  /** And its loop ends within twelve steps of its own. */
  lemma {:induction false} StoppedWorkerExits(w: Worker, n: nat)
    requires Inv(w) && w.terminate && n >= StepsToExit(w)
    ensures StepsToExit(w) <= 12 && Alone(w, n).pc.Exited?
    decreases n
  {
    hide Inv, WorkStep, WorkEnabled, Alone, StepsToExit;
    ExitIsNear(w);
    AloneSteps(w, n);
    if !w.pc.Exited? {
      CanWork(w);
      assert WorkEnabled(w) by {
        WorkIsEnabled(w);
      }
      StoppedStep(w);
      EveryStepKeepsInv(w, Work);
      StoppedWorkerExits(WorkStep(w), n - 1);
    }
  }

  lemma WorkIsEnabled(w: Worker)
    requires Enabled(w, Work)
    ensures WorkEnabled(w)
  {
  }
}
