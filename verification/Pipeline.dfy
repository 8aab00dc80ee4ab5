/**
 One CMysqlThread: a client pushes tasks and pops replies, the worker loop pops a task, executes it
 and pushes it on the reply ring. All micro-steps of both rings interleave.
 */
module Pipeline {
  import opened TaskRing
  import R = RingProtocol

  datatype WorkerPc =
    | LoopHead                 // about to test is_terminate_
    | Polling                  // inside tasks_.pop()
    | Sleeping
    | Executing(task: Ptr)
    | Replying(task: Ptr)      // inside reply_tasks_.push(task)
    | Exited

  /** What became of an executed task: on the reply ring, or lost because that ring was full. */
  datatype Outcome = Outcome(task: Ptr, kept: bool)

  datatype Worker = Worker(
    tasks: R.Spsc, replies: R.Spsc, pc: WorkerPc, terminate: bool,
    executed: seq<Ptr>, outcomes: seq<Outcome>)

  datatype Action =
    | Submit(task: Ptr) | SubmitStep | SubmitDone    // addTask
    | Collect | CollectStep | CollectDone            // getReplyTask
    | Stop
    | Work                                           // the worker thread's next micro-step

  ghost predicate Initial(w: Worker) {
    && R.Initial(w.tasks) && R.Initial(w.replies)
    && w.pc == LoopHead && !w.terminate && w.executed == [] && w.outcomes == []
  }

  ghost predicate WorkEnabled(w: Worker) {
    match w.pc
    case LoopHead => R.Enabled(w.tasks, R.CallPop)
    case Polling => R.Enabled(w.tasks, R.PopStep) || R.Enabled(w.tasks, R.PopDone)
    case Executing(t) => R.Enabled(w.replies, R.CallPush(t))
    case Replying(_) => R.Enabled(w.replies, R.PushStep) || R.Enabled(w.replies, R.PushDone)
    case Sleeping => true
    case Exited => false
  }

  ghost function WorkStep(w: Worker): Worker
    requires WorkEnabled(w)
  {
    match w.pc
    case LoopHead =>
      if w.terminate then w.(pc := Exited) else w.(pc := Polling, tasks := R.Apply(w.tasks, R.CallPop))
    case Polling =>
      if R.Enabled(w.tasks, R.PopStep) then w.(tasks := R.Apply(w.tasks, R.PopStep))
      else
        var task := w.tasks.popper.result;
        w.(tasks := R.Apply(w.tasks, R.PopDone), pc := if task != NULL then Executing(task) else Sleeping)
    case Sleeping => w.(pc := LoopHead)
    case Executing(t) =>
      w.(executed := w.executed + [t], pc := Replying(t), replies := R.Apply(w.replies, R.CallPush(t)))
    case Replying(t) =>
      if R.Enabled(w.replies, R.PushStep) then
        var replies := R.Apply(w.replies, R.PushStep);
        w.(replies := replies,
           outcomes :=
             if replies.pusher.PushReturned? then w.outcomes + [Outcome(t, replies.pusher.ok)] else w.outcomes)
      else w.(replies := R.Apply(w.replies, R.PushDone), pc := LoopHead)
  }

  ghost predicate Enabled(w: Worker, a: Action) {
    match a
    case Submit(t) => t != NULL && R.Enabled(w.tasks, R.CallPush(t))
    case SubmitStep => R.Enabled(w.tasks, R.PushStep)
    case SubmitDone => R.Enabled(w.tasks, R.PushDone)
    case Collect => R.Enabled(w.replies, R.CallPop)
    case CollectStep => R.Enabled(w.replies, R.PopStep)
    case CollectDone => R.Enabled(w.replies, R.PopDone)
    case Stop => true
    case Work => WorkEnabled(w)
  }

  ghost function Apply(w: Worker, a: Action): Worker
    requires Enabled(w, a)
  {
    match a
    case Submit(t) => w.(tasks := R.Apply(w.tasks, R.CallPush(t)))
    case SubmitStep => w.(tasks := R.Apply(w.tasks, R.PushStep))
    case SubmitDone => w.(tasks := R.Apply(w.tasks, R.PushDone))
    case Collect => w.(replies := R.Apply(w.replies, R.CallPop))
    case CollectStep => w.(replies := R.Apply(w.replies, R.PopStep))
    case CollectDone => w.(replies := R.Apply(w.replies, R.PopDone))
    case Stop => w.(terminate := true)
    case Work => WorkStep(w)
  }

  ghost predicate IsRun(w: Worker, run: seq<Action>)
    decreases |run|
  {
    run == [] || (Enabled(w, run[0]) && IsRun(Apply(w, run[0]), run[1..]))
  }

  ghost function After(w: Worker, run: seq<Action>): Worker
    requires IsRun(w, run)
    decreases |run|
  {
    if run == [] then w else After(Apply(w, run[0]), run[1..])
  }

  // Projections of the outcome log.

  ghost function Tasks(os: seq<Outcome>): (ts: seq<Ptr>)
    ensures |ts| == |os|
  {
    if os == [] then [] else Tasks(os[..|os| - 1]) + [os[|os| - 1].task]
  }

  ghost function Chosen(os: seq<Outcome>, kept: bool): seq<Ptr> {
    if os == [] then []
    else
      var o := os[|os| - 1];
      Chosen(os[..|os| - 1], kept) + if o.kept == kept then [o.task] else []
  }

  /** Replies that reached the reply ring. */
  ghost function Kept(w: Worker): seq<Ptr> {
    Chosen(w.outcomes, true)
  }

  /** Executed tasks whose reply push found the ring full. */
  ghost function Dropped(w: Worker): seq<Ptr> {
    Chosen(w.outcomes, false)
  }

  /** The task the worker holds: popped, and not yet on the reply ring nor dropped. */
  ghost function Hand(w: Worker): seq<Ptr> {
    match w.pc
    case Polling =>
      if w.tasks.popper.PopReturned? && w.tasks.popper.result != NULL then [w.tasks.popper.result] else []
    case Executing(t) => [t]
    case Replying(t) => if w.replies.pusher.PushReturned? then [] else [t]
    case _ => []
  }

  ghost predicate Coupled(w: Worker) {
    && (w.pc.Polling? <==> !w.tasks.popper.PopIdle?)
    && (w.pc.Replying? <==> !w.replies.pusher.PushIdle?)
    && (w.pc.Replying? ==> w.replies.pusher.task == w.pc.task)
    && (!w.tasks.pusher.PushIdle? ==> w.tasks.pusher.task != NULL)
    && (w.pc.Exited? ==> w.terminate)
  }

  ghost predicate Inv(w: Worker) {
    && R.Inv(w.tasks) && R.Inv(w.replies) && Coupled(w)
    && NULL !in w.tasks.accepted
    && w.tasks.popped == Tasks(w.outcomes) + Hand(w)
    && w.replies.accepted == Kept(w)
    && w.executed == Tasks(w.outcomes) + if w.pc.Replying? then Hand(w) else []
  }

  lemma Snoc(os: seq<Outcome>, o: Outcome)
    ensures Tasks(os + [o]) == Tasks(os) + [o.task]
    ensures Chosen(os + [o], o.kept) == Chosen(os, o.kept) + [o.task]
    ensures Chosen(os + [o], !o.kept) == Chosen(os, !o.kept)
  {
    assert (os + [o])[..|os|] == os;
  }

  lemma PollKeepsInv(w: Worker)
    requires Inv(w) && w.pc.Polling? && WorkEnabled(w)
    ensures Inv(WorkStep(w))
  {
    hide R.Inv, R.FifoStep, R.PopMicroStep, Ring.Contents, Ring.Valid;
    if R.Enabled(w.tasks, R.PopStep) {
      R.EveryStepRefinesFifo(w.tasks, R.PopStep);
      R.PopStepEffect(w.tasks);
      if w.tasks.popper.PopRead? {
        R.PoppedTaskWasAccepted(w.tasks);
      }
    } else {
      R.EveryStepRefinesFifo(w.tasks, R.PopDone);
    }
  }

  /** One step inside the push of a reply; the outcome is logged as the push returns. */
  lemma ReplyPushKeepsInv(w: Worker)
    requires Inv(w) && w.pc.Replying? && R.Enabled(w.replies, R.PushStep)
    ensures Inv(WorkStep(w))
  {
    hide R.Inv, R.FifoStep, R.PushMicroStep, Ring.Contents, Ring.Valid, Tasks, Chosen;
    R.EveryStepRefinesFifo(w.replies, R.PushStep);
    R.PushStepEffect(w.replies);
    var replies := R.Apply(w.replies, R.PushStep);
    if replies.pusher.PushReturned? {
      Snoc(w.outcomes, Outcome(w.pc.task, replies.pusher.ok));
    }
  }

  lemma ReplyKeepsInv(w: Worker)
    requires Inv(w) && w.pc.Replying? && WorkEnabled(w)
    ensures Inv(WorkStep(w))
  {
    hide R.Inv, R.FifoStep, Ring.Contents, Ring.Valid, Tasks, Chosen;
    if R.Enabled(w.replies, R.PushStep) {
      ReplyPushKeepsInv(w);
    } else {
      R.EveryStepRefinesFifo(w.replies, R.PushDone);
    }
  }

  lemma OtherWorkKeepsInv(w: Worker)
    requires Inv(w) && !w.pc.Polling? && !w.pc.Replying? && WorkEnabled(w)
    ensures Inv(WorkStep(w))
  {
    hide R.Inv, R.FifoStep, Ring.Contents, Ring.Valid;
    match w.pc
    case LoopHead => R.EveryStepRefinesFifo(w.tasks, R.CallPop);
    case Executing(t) => R.EveryStepRefinesFifo(w.replies, R.CallPush(t));
    case Sleeping =>
  }

  lemma ClientStepKeepsInv(w: Worker, a: Action)
    requires Inv(w) && Enabled(w, a) && a != Work
    ensures Inv(Apply(w, a))
  {
    hide R.Inv, R.FifoStep, R.PushMicroStep, R.PopMicroStep, Ring.Contents, Ring.Valid, Tasks, Chosen;
    match a
    case Submit(t) => R.EveryStepRefinesFifo(w.tasks, R.CallPush(t));
    case SubmitStep =>
      R.EveryStepRefinesFifo(w.tasks, R.PushStep);
      R.PushStepEffect(w.tasks);
    case SubmitDone => R.EveryStepRefinesFifo(w.tasks, R.PushDone);
    case Collect => R.EveryStepRefinesFifo(w.replies, R.CallPop);
    case CollectStep =>
      R.EveryStepRefinesFifo(w.replies, R.PopStep);
      R.PopStepEffect(w.replies);
    case CollectDone => R.EveryStepRefinesFifo(w.replies, R.PopDone);
    case Stop =>
  }

  lemma EveryStepKeepsInv(w: Worker, a: Action)
    requires Inv(w) && Enabled(w, a)
    ensures Inv(Apply(w, a))
  {
    hide Inv, R.Inv, WorkStep;
    if a != Work {
      ClientStepKeepsInv(w, a);
    } else if w.pc.Polling? {
      PollKeepsInv(w);
    } else if w.pc.Replying? {
      ReplyKeepsInv(w);
    } else {
      OtherWorkKeepsInv(w);
    }
  }

  lemma {:induction false} EveryRunKeepsInv(w: Worker, run: seq<Action>)
    requires Inv(w) && IsRun(w, run)
    ensures Inv(After(w, run))
    decreases |run|
  {
    if run != [] {
      EveryStepKeepsInv(w, run[0]);
      EveryRunKeepsInv(Apply(w, run[0]), run[1..]);
    }
  }

  lemma {:induction false} OutcomesSplit(os: seq<Outcome>)
    ensures multiset(Tasks(os)) == multiset(Chosen(os, true)) + multiset(Chosen(os, false))
    ensures |os| == |Chosen(os, true)| + |Chosen(os, false)|
  {
    if os != [] {
      OutcomesSplit(os[..|os| - 1]);
    }
  }

  lemma {:induction false} ChosenWasExecuted(os: seq<Outcome>, kept: bool, t: Ptr)
    requires t in Chosen(os, kept)
    ensures t in Tasks(os)
  {
    if t != os[|os| - 1].task {
      ChosenWasExecuted(os[..|os| - 1], kept, t);
    }
  }

  lemma ExecutedFollowsAccepted(w: Worker)
    requires Inv(w)
    ensures w.executed <= w.tasks.accepted
  {
    hide Ring.Contents, Tasks, Chosen, R.PusherInv, R.PopperInv;
    assert w.executed <= w.tasks.popped <= w.tasks.accepted;
  }

  lemma AcceptedIsPartitioned(w: Worker)
    requires Inv(w)
    ensures w.tasks.ring.Valid() && w.replies.ring.Valid()
    ensures multiset(w.tasks.accepted) ==
            multiset(w.tasks.ring.Contents()) + multiset(Hand(w)) + multiset(w.replies.ring.Contents())
            + multiset(w.replies.popped) + multiset(Dropped(w))
  {
    hide Ring.Contents, Hand, Chosen, Tasks, R.PusherInv, R.PopperInv;
    OutcomesSplit(w.outcomes);
  }

  /** Over every run each accepted task is in exactly one place, and execution follows the submission order. */
  lemma Conservation(w: Worker, run: seq<Action>)
    requires Initial(w) && IsRun(w, run)
    ensures var v := After(w, run);
            && v.tasks.ring.Valid() && v.replies.ring.Valid()
            && multiset(v.tasks.accepted) ==
               multiset(v.tasks.ring.Contents()) + multiset(Hand(v)) + multiset(v.replies.ring.Contents())
               + multiset(v.replies.popped) + multiset(Dropped(v))
            && v.executed <= v.tasks.accepted
  {
    EveryRunKeepsInv(w, run);
    hide After, IsRun, Inv, Ring.Contents, Ring.Valid, Hand, Chosen, Tasks;
    AcceptedIsPartitioned(After(w, run));
    ExecutedFollowsAccepted(After(w, run));
  }

  /** Without drops the places are consecutive segments of the submission order. */
  lemma NoDropKeepsOrder(w: Worker)
    requires Inv(w) && Dropped(w) == []
    ensures w.tasks.accepted ==
            w.replies.popped + w.replies.ring.Contents() + Hand(w) + w.tasks.ring.Contents()
    ensures w.executed <= w.tasks.accepted
  {
    NoneDroppedMeansAllKept(w.outcomes);
  }

  lemma {:induction false} NoneDroppedMeansAllKept(os: seq<Outcome>)
    requires Chosen(os, false) == []
    ensures Chosen(os, true) == Tasks(os)
  {
    if os != [] {
      NoneDroppedMeansAllKept(os[..|os| - 1]);
    }
  }

  /** Tasks accepted and not yet handed back. */
  ghost function Outstanding(w: Worker): int {
    |w.tasks.accepted| - |w.replies.popped|
  }

  /** At most 999 tasks are outstanding in every state of the run. */
  ghost predicate Throttled(w: Worker, run: seq<Action>)
    requires IsRun(w, run)
    decreases |run|
  {
    Outstanding(w) <= MAX_TASK_NUM - 1 && (run == [] || Throttled(Apply(w, run[0]), run[1..]))
  }

  /** Tasks accepted, not yet handed back and not dropped. */
  ghost function Inside(w: Worker): int {
    Outstanding(w) - |Dropped(w)|
  }

  lemma InsideIsWhatIsThere(w: Worker)
    requires Inv(w)
    ensures w.tasks.ring.Valid() && w.replies.ring.Valid()
    ensures Inside(w) == |w.replies.ring.Contents()| + |Hand(w)| + |w.tasks.ring.Contents()|
    ensures |w.replies.ring.Contents()| <= MAX_TASK_NUM - 1
  {
    hide Ring.Contents, Hand, Chosen, Tasks, R.PusherInv, R.PopperInv;
    OutcomesSplit(w.outcomes);
    R.QueueIsBounded(w.replies);
  }

  lemma FullReplyRingMeansOutstanding(w: Worker)
    requires Inv(w) && w.pc.Replying? && !w.replies.pusher.PushReturned?
    requires |w.replies.ring.Contents()| == MAX_TASK_NUM - 1
    ensures Outstanding(w) >= MAX_TASK_NUM
  {
    hide Ring.Contents;
    OutcomesSplit(w.outcomes);
    assert |w.replies.accepted| == |w.replies.popped| + MAX_TASK_NUM - 1;
  }

  lemma CompareDecidesTheDrop(w: Worker)
    requires Inv(w) && w.pc.Replying? && w.replies.pusher.PushNextKnown?
    ensures Enabled(w, Work)
    ensures Dropped(WorkStep(w)) ==
            Dropped(w) + if |w.replies.ring.Contents()| == MAX_TASK_NUM - 1 then Hand(w) else []
  {
    hide Ring.Contents;
    R.PushFailsExactlyWhenFull(w.replies);
    Snoc(w.outcomes, Outcome(w.pc.task, false));
    assert WorkStep(w).outcomes ==
           if |w.replies.ring.Contents()| == MAX_TASK_NUM - 1 then w.outcomes + [Outcome(w.pc.task, false)]
           else w.outcomes;
  }

  lemma OtherReplyStepsDropNothing(w: Worker)
    requires WorkEnabled(w) && w.pc.Replying? && !w.replies.pusher.PushNextKnown?
    ensures Dropped(WorkStep(w)) == Dropped(w)
  {
    hide Chosen, R.PushMicroStep, Ring.Valid;
    if R.Enabled(w.replies, R.PushStep) {
      R.PushStepEffect(w.replies);
      Snoc(w.outcomes, Outcome(w.pc.task, true));
    }
  }

  lemma OtherStepsDropNothing(w: Worker, a: Action)
    requires Enabled(w, a)
    requires !(a == Work && w.pc.Replying? && w.replies.pusher.PushNextKnown?)
    ensures Dropped(Apply(w, a)) == Dropped(w)
  {
    hide R.Apply, Chosen;
    if a == Work && w.pc.Replying? {
      OtherReplyStepsDropNothing(w);
    }
  }

  /** A step drops a task exactly when the worker's load of read_idx_ sees 999 waiting replies. */
  lemma DropsExactlyOnFullReplyRing(w: Worker, a: Action)
    requires Inv(w) && Enabled(w, a)
    ensures Dropped(Apply(w, a)) != Dropped(w) <==>
            && a == Work && w.pc.Replying? && w.replies.pusher.PushNextKnown?
            && |w.replies.ring.Contents()| == MAX_TASK_NUM - 1
    ensures Dropped(Apply(w, a)) != Dropped(w) ==>
            Dropped(Apply(w, a)) == Dropped(w) + Hand(w) && Outstanding(w) >= MAX_TASK_NUM
  {
    if a == Work && w.pc.Replying? && w.replies.pusher.PushNextKnown? {
      CompareDecidesTheDrop(w);
      if |w.replies.ring.Contents()| == MAX_TASK_NUM - 1 {
        FullReplyRingMeansOutstanding(w);
      }
    } else {
      OtherStepsDropNothing(w, a);
    }
  }

  lemma {:induction false} ThrottledStepsDropNothing(w: Worker, run: seq<Action>)
    requires Inv(w) && Dropped(w) == [] && IsRun(w, run) && Throttled(w, run)
    ensures Dropped(After(w, run)) == []
    decreases |run|
  {
    if run != [] {
      DropsExactlyOnFullReplyRing(w, run[0]);
      EveryStepKeepsInv(w, run[0]);
      ThrottledStepsDropNothing(Apply(w, run[0]), run[1..]);
    }
  }

  /** If the client never lets more than 999 tasks be outstanding, every reply reaches the reply ring. */
  lemma ThrottledRunDropsNothing(w: Worker, run: seq<Action>)
    requires Initial(w) && IsRun(w, run) && Throttled(w, run)
    ensures Dropped(After(w, run)) == []
    ensures var v := After(w, run);
            && v.tasks.ring.Valid() && v.replies.ring.Valid()
            && v.tasks.accepted == v.replies.popped + v.replies.ring.Contents() + Hand(v) + v.tasks.ring.Contents()
  {
    ThrottledStepsDropNothing(w, run);
    EveryRunKeepsInv(w, run);
    NoDropKeepsOrder(After(w, run));
  }
}
