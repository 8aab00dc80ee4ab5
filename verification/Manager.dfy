/**
 CMysqlThreadMgr over ten workers: the main thread adds tasks and drains replies with
 processReplyTask(count), the workers run concurrently. Worker 9 is the one addTask(task) uses.
 */
module Manager {
  import opened TaskRing
  import P = Pipeline
  import R = RingProtocol

  const THREAD_COUNT: nat := 9

  datatype Key = Hash(id: nat) | NoHash

  function WorkerOf(key: Key): (worker: nat)
    ensures worker <= THREAD_COUNT
  {
    if key.Hash? then key.id % THREAD_COUNT else THREAD_COUNT
  }

  datatype Submission = Submission(key: Key, task: Ptr)

  /** A task on its way through one worker. */
  datatype Entry = Entry(worker: nat, task: Ptr)

  /** A reply popped by processReplyTask: replied to and released, or abandoned as the loop ended. */
  datatype Taken = Taken(entry: Entry, released: bool)

  datatype MainPc =
    | Idle
    | Adding(key: Key, task: Ptr)                          // inside addTask
    | Draining(worker: nat, count: int, processed: nat)    // inside processReplyTask(count), at this worker

  /** `submitted` logs accepted tasks, `taken` the replies popped, both in main-thread order. */
  datatype Manager = Manager(workers: seq<P.Worker>, main: MainPc, submitted: seq<Submission>, taken: seq<Taken>)

  datatype Action = Add(key: Key, task: Ptr) | Drain(count: int) | Main | Work(worker: nat) | Stop(worker: nat)

  ghost predicate Initial(m: Manager) {
    && |m.workers| == THREAD_COUNT + 1
    && (forall i :: 0 <= i < |m.workers| ==> P.Initial(m.workers[i]))
    && m.main == Idle && m.submitted == [] && m.taken == []
  }

  /** The loop condition of processReplyTask, short of the null test. */
  predicate Allowed(count: int, processed: nat) {
    count == -1 || processed < count
  }

  /** What follows the turn of a worker. */
  function NextTurn(worker: nat, count: int): MainPc {
    if worker < THREAD_COUNT then Draining(worker + 1, count, 0) else Idle
  }

  /** The next call the main thread makes on its current worker. */
  ghost function MainCall(m: Manager): P.Action
    requires |m.workers| == THREAD_COUNT + 1 && !m.main.Idle?
    requires m.main.Draining? ==> m.main.worker <= THREAD_COUNT
  {
    match m.main
    case Adding(key, _) => if m.workers[WorkerOf(key)].tasks.pusher.PushReturned? then P.SubmitDone else P.SubmitStep
    case Draining(i, _, _) =>
      var popper := m.workers[i].replies.popper;
      if popper.PopIdle? then P.Collect else if popper.PopReturned? then P.CollectDone else P.CollectStep
  }

  ghost function CurrentWorker(m: Manager): nat
    requires !m.main.Idle?
  {
    if m.main.Adding? then WorkerOf(m.main.key) else m.main.worker
  }

  ghost predicate Enabled(m: Manager, a: Action) {
    && |m.workers| == THREAD_COUNT + 1
    && match a
       case Add(key, task) => m.main.Idle? && P.Enabled(m.workers[WorkerOf(key)], P.Submit(task))
       case Drain(_) => m.main.Idle?
       case Main =>
         && !m.main.Idle?
         && (m.main.Draining? ==> m.main.worker <= THREAD_COUNT)
         && P.Enabled(m.workers[CurrentWorker(m)], MainCall(m))
       case Work(i) => i <= THREAD_COUNT && P.Enabled(m.workers[i], P.Work)
       case Stop(i) => i <= THREAD_COUNT
  }

  ghost function Apply(m: Manager, a: Action): Manager
    requires Enabled(m, a)
  {
    match a
    case Add(key, task) =>
      var i := WorkerOf(key);
      m.(main := Adding(key, task), workers := m.workers[i := P.Apply(m.workers[i], P.Submit(task))])
    case Drain(count) => m.(main := Draining(0, count, 0))
    case Main => MainStep(m)
    case Work(i) => m.(workers := m.workers[i := P.Apply(m.workers[i], P.Work)])
    case Stop(i) => m.(workers := m.workers[i := P.Apply(m.workers[i], P.Stop)])
  }

  ghost function MainStep(m: Manager): Manager
    requires Enabled(m, Main)
  {
    var i := CurrentWorker(m);
    var w := P.Apply(m.workers[i], MainCall(m));
    var m' := m.(workers := m.workers[i := w]);
    match m.main
    case Adding(key, task) =>
      if MainCall(m) == P.SubmitDone then m'.(main := Idle)
      else if w.tasks.pusher == R.PushReturned(task, true) then m'.(submitted := m.submitted + [Submission(key, task)])
      else m'
    case Draining(_, count, processed) =>
      if MainCall(m) != P.CollectDone then m'
      else
        var result := m.workers[i].replies.popper.result;
        if result == NULL then m'.(main := NextTurn(i, count))
        else if Allowed(count, processed) then
          m'.(taken := m.taken + [Taken(Entry(i, result), true)], main := Draining(i, count, processed + 1))
        else m'.(taken := m.taken + [Taken(Entry(i, result), false)], main := NextTurn(i, count))
  }

  ghost predicate IsRun(m: Manager, run: seq<Action>)
    decreases |run|
  {
    run == [] || (Enabled(m, run[0]) && IsRun(Apply(m, run[0]), run[1..]))
  }

  ghost function After(m: Manager, run: seq<Action>): Manager
    requires IsRun(m, run)
    decreases |run|
  {
    if run == [] then m else After(Apply(m, run[0]), run[1..])
  }

  // The logs, and what one worker sees of them.

  ghost function Routed(subs: seq<Submission>): (log: seq<Entry>)
    ensures |log| == |subs|
    ensures forall p :: 0 <= p < |subs| ==> log[p] == Entry(WorkerOf(subs[p].key), subs[p].task)
  {
    seq(|subs|, p requires 0 <= p < |subs| => Entry(WorkerOf(subs[p].key), subs[p].task))
  }

  ghost function Entries(taken: seq<Taken>): (log: seq<Entry>)
    ensures |log| == |taken|
    ensures forall p :: 0 <= p < |taken| ==> log[p] == taken[p].entry
  {
    seq(|taken|, p requires 0 <= p < |taken| => taken[p].entry)
  }

  ghost function Pick(taken: seq<Taken>, released: bool): seq<Entry> {
    if taken == [] then []
    else
      var t := taken[|taken| - 1];
      Pick(taken[..|taken| - 1], released) + if t.released == released then [t.entry] else []
  }

  /** The tasks replied to and released, in order. */
  ghost function Released(m: Manager): seq<Entry> {
    Pick(m.taken, true)
  }

  /** The replies popped and never released. */
  ghost function Abandoned(m: Manager): seq<Entry> {
    Pick(m.taken, false)
  }

  ghost function Of(log: seq<Entry>, worker: nat): seq<Ptr> {
    if log == [] then []
    else
      var e := log[|log| - 1];
      Of(log[..|log| - 1], worker) + if e.worker == worker then [e.task] else []
  }

  /** A reply the main thread has popped and not yet looked at. */
  ghost function Pending(w: P.Worker): seq<Ptr> {
    if w.replies.popper.PopReturned? && w.replies.popper.result != NULL then [w.replies.popper.result] else []
  }

  // The invariant.

  /** What the main thread is doing at one worker. */
  datatype Client = Away | Pushing(task: Ptr) | Popping

  ghost function ClientAt(main: MainPc, i: nat): Client {
    match main
    case Idle => Away
    case Adding(key, task) => if WorkerOf(key) == i then Pushing(task) else Away
    case Draining(worker, _, _) => if worker == i then Popping else Away
  }

  ghost predicate Engaged(w: P.Worker, client: Client) {
    && (w.tasks.pusher.PushIdle? <==> !client.Pushing?)
    && (client.Pushing? ==> w.tasks.pusher.task == client.task)
    && (!client.Popping? ==> w.replies.popper.PopIdle?)
  }

  /** One worker with what the main thread does there, was accepted there and took from there. */
  ghost predicate WorkerInv(w: P.Worker, client: Client, accepted: seq<Ptr>, taken: seq<Ptr>) {
    P.Inv(w) && Engaged(w, client) && w.tasks.accepted == accepted && w.replies.popped == taken + Pending(w)
  }

  ghost predicate AgreesAt(m: Manager, i: nat)
    requires i < |m.workers|
  {
    WorkerInv(m.workers[i], ClientAt(m.main, i), Of(Routed(m.submitted), i), Of(Entries(m.taken), i))
  }

  /** The drain is at one of the ten workers and has not passed its count. */
  ghost predicate MainInv(main: MainPc) {
    main.Draining? ==>
      main.worker <= THREAD_COUNT && (main.processed == 0 || main.count == -1 || main.processed <= main.count)
  }

  ghost predicate Inv(m: Manager) {
    && |m.workers| == THREAD_COUNT + 1
    && MainInv(m.main)
    && (forall b :: 0 <= b < |m.taken| ==> m.taken[b].entry.worker <= THREAD_COUNT)
    && forall i :: 0 <= i < |m.workers| ==> AgreesAt(m, i)
  }

  // Steps, seen by the worker they act on.

  /** The worker's own steps, and stop, do not touch the client's ends of the rings. */
  lemma WorkLeavesClientSide(w: P.Worker)
    requires P.Enabled(w, P.Work)
    ensures var w' := P.Apply(w, P.Work);
            && w'.tasks.pusher == w.tasks.pusher && w'.tasks.accepted == w.tasks.accepted
            && w'.replies.popper == w.replies.popper && w'.replies.popped == w.replies.popped
            && w'.terminate == w.terminate
  {
    hide Ring.Contents;
  }

  lemma WorkStepAt(w: P.Worker, client: Client, accepted: seq<Ptr>, taken: seq<Ptr>)
    requires WorkerInv(w, client, accepted, taken) && P.Enabled(w, P.Work)
    ensures WorkerInv(P.Apply(w, P.Work), client, accepted, taken)
  {
    P.EveryStepKeepsInv(w, P.Work);
    WorkLeavesClientSide(w);
    hide P.Inv, P.Apply;
  }

  lemma StopAt(w: P.Worker, client: Client, accepted: seq<Ptr>, taken: seq<Ptr>)
    requires WorkerInv(w, client, accepted, taken)
    ensures WorkerInv(P.Apply(w, P.Stop), client, accepted, taken)
  {
    P.EveryStepKeepsInv(w, P.Stop);
    hide P.Inv;
  }

  lemma SubmitAt(w: P.Worker, task: Ptr, accepted: seq<Ptr>, taken: seq<Ptr>)
    requires WorkerInv(w, Away, accepted, taken) && P.Enabled(w, P.Submit(task))
    ensures WorkerInv(P.Apply(w, P.Submit(task)), Pushing(task), accepted, taken)
  {
    P.EveryStepKeepsInv(w, P.Submit(task));
    hide P.Inv;
  }

  lemma SubmitStepAt(w: P.Worker, task: Ptr, accepted: seq<Ptr>, taken: seq<Ptr>)
    requires WorkerInv(w, Pushing(task), accepted, taken) && P.Enabled(w, P.SubmitStep)
    ensures var w' := P.Apply(w, P.SubmitStep);
            WorkerInv(w', Pushing(task),
              accepted + (if w'.tasks.pusher == R.PushReturned(task, true) then [task] else []), taken)
  {
    P.EveryStepKeepsInv(w, P.SubmitStep);
    R.PushStepEffect(w.tasks);
    hide P.Inv, R.PushMicroStep, Ring.Valid;
  }

  lemma SubmitDoneAt(w: P.Worker, task: Ptr, accepted: seq<Ptr>, taken: seq<Ptr>)
    requires WorkerInv(w, Pushing(task), accepted, taken) && P.Enabled(w, P.SubmitDone)
    ensures WorkerInv(P.Apply(w, P.SubmitDone), Away, accepted, taken)
  {
    P.EveryStepKeepsInv(w, P.SubmitDone);
    hide P.Inv;
  }

  lemma CollectAt(w: P.Worker, accepted: seq<Ptr>, taken: seq<Ptr>)
    requires WorkerInv(w, Popping, accepted, taken) && P.Enabled(w, P.Collect)
    ensures WorkerInv(P.Apply(w, P.Collect), Popping, accepted, taken)
  {
    P.EveryStepKeepsInv(w, P.Collect);
    hide P.Inv, P.WorkStep, R.PushMicroStep, R.PopMicroStep;
  }

  lemma RepliesAreTasks(w: P.Worker)
    requires P.Inv(w)
    ensures NULL !in w.replies.accepted
  {
    assert forall t :: t in w.tasks.popped ==> t in w.tasks.accepted;
    hide R.Inv;
    forall t | t in P.Kept(w) ensures t in w.tasks.popped {
      P.ChosenWasExecuted(w.outcomes, true, t);
    }
  }

  lemma PoppedReplyIsNotNull(w: P.Worker)
    requires P.Inv(w) && w.replies.popper.PopRead?
    ensures w.replies.popper.task != NULL
  {
    RepliesAreTasks(w);
    assert R.Inv(w.replies);
    R.PoppedTaskWasAccepted(w.replies);
  }

  /** A pop step extends what was popped by what is then pending. */
  lemma CollectStepPends(w: P.Worker)
    requires P.Inv(w) && P.Enabled(w, P.CollectStep)
    ensures Pending(w) == []
    ensures var w' := P.Apply(w, P.CollectStep);
            w'.tasks == w.tasks && w'.replies.popped == w.replies.popped + Pending(w')
  {
    R.PopStepEffect(w.replies);
    if w.replies.popper.PopRead? {
      PoppedReplyIsNotNull(w);
    }
    hide P.Inv, R.PopMicroStep, Ring.Valid;
  }

  lemma CollectStepAt(w: P.Worker, accepted: seq<Ptr>, taken: seq<Ptr>)
    requires WorkerInv(w, Popping, accepted, taken) && P.Enabled(w, P.CollectStep)
    ensures WorkerInv(P.Apply(w, P.CollectStep), Popping, accepted, taken)
  {
    P.EveryStepKeepsInv(w, P.CollectStep);
    CollectStepPends(w);
    hide P.Inv, P.Apply, P.Enabled, Pending;
    assert taken + [] == taken;
  }

  lemma CollectDoneEffect(w: P.Worker)
    requires P.Enabled(w, P.CollectDone)
    ensures P.Apply(w, P.CollectDone) == w.(replies := w.replies.(popper := R.PopIdle))
    ensures Pending(P.Apply(w, P.CollectDone)) == []
  {
    hide P.WorkStep, R.PushMicroStep, R.PopMicroStep;
  }

  lemma CollectDoneAt(w: P.Worker, client: Client, accepted: seq<Ptr>, taken: seq<Ptr>)
    requires WorkerInv(w, Popping, accepted, taken) && P.Enabled(w, P.CollectDone) && client in {Away, Popping}
    ensures WorkerInv(P.Apply(w, P.CollectDone), client, accepted, taken + Pending(w))
  {
    P.EveryStepKeepsInv(w, P.CollectDone);
    CollectDoneEffect(w);
    hide P.Inv, P.Apply, P.Enabled, Pending;
    assert (taken + Pending(w)) + [] == taken + Pending(w);
  }

  // Steps of the machine.

  lemma OfSnoc(log: seq<Entry>, e: Entry, i: nat)
    ensures Of(log + [e], i) == Of(log, i) + if e.worker == i then [e.task] else []
  {
    assert (log + [e])[..|log|] == log;
  }

  lemma RoutedSnoc(subs: seq<Submission>, sub: Submission, i: nat)
    ensures Of(Routed(subs + [sub]), i) == Of(Routed(subs), i) + if WorkerOf(sub.key) == i then [sub.task] else []
  {
    assert Routed(subs + [sub]) == Routed(subs) + [Entry(WorkerOf(sub.key), sub.task)];
    OfSnoc(Routed(subs), Entry(WorkerOf(sub.key), sub.task), i);
  }

  lemma EntriesSnoc(taken: seq<Taken>, t: Taken, i: nat)
    ensures Of(Entries(taken + [t]), i) == Of(Entries(taken), i) + if t.entry.worker == i then [t.entry.task] else []
  {
    assert Entries(taken + [t]) == Entries(taken) + [t.entry];
    OfSnoc(Entries(taken), t.entry, i);
  }

  /** A step at worker j has only worker j to answer for; arriving at a worker disturbs nothing. */
  lemma OnlyOneWorkerChanges(m: Manager, m': Manager, j: nat)
    requires Inv(m) && j <= THREAD_COUNT && MainInv(m'.main)
    requires |m'.workers| == |m.workers| && m'.workers == m.workers[j := m'.workers[j]]
    requires forall i: nat :: i != j ==>
               && (ClientAt(m'.main, i) == ClientAt(m.main, i)
                   || (ClientAt(m.main, i) == Away && ClientAt(m'.main, i) == Popping))
               && Of(Routed(m'.submitted), i) == Of(Routed(m.submitted), i)
               && Of(Entries(m'.taken), i) == Of(Entries(m.taken), i)
    requires m'.taken == m.taken || exists t :: m'.taken == m.taken + [t] && t.entry.worker == j
    requires AgreesAt(m', j)
    ensures Inv(m')
  {
    hide P.Inv, Of, Routed, Entries, ClientAt, MainInv;
    forall i | 0 <= i < |m.workers| ensures AgreesAt(m', i) {
      assert AgreesAt(m, i);
      if i != j {
        assert m'.workers[i] == m.workers[i];
      }
    }
  }

  lemma WorkerStepKeepsInv(m: Manager, a: Action)
    requires Inv(m) && Enabled(m, a) && (a.Work? || a.Stop?)
    ensures Inv(Apply(m, a))
  {
    var j := a.worker;
    assert AgreesAt(m, j);
    if a.Work? {
      WorkStepAt(m.workers[j], ClientAt(m.main, j), Of(Routed(m.submitted), j), Of(Entries(m.taken), j));
    } else {
      StopAt(m.workers[j], ClientAt(m.main, j), Of(Routed(m.submitted), j), Of(Entries(m.taken), j));
    }
    hide WorkerInv, P.Apply, P.Enabled, Of, Routed, Entries, ClientAt, Inv;
    assert AgreesAt(Apply(m, a), j);
    OnlyOneWorkerChanges(m, Apply(m, a), j);
  }

  lemma CallStartKeepsInv(m: Manager, a: Action)
    requires Inv(m) && Enabled(m, a) && (a.Add? || a.Drain?)
    ensures Inv(Apply(m, a))
  {
    var j := if a.Add? then WorkerOf(a.key) else 0;
    var w, accepted, taken := m.workers[j], Of(Routed(m.submitted), j), Of(Entries(m.taken), j);
    assert AgreesAt(m, j);
    if a.Add? {
      SubmitAt(w, a.task, accepted, taken);
    } else {
      assert WorkerInv(w, Popping, accepted, taken);
    }
    hide WorkerInv, P.Apply, P.Enabled, Of, Routed, Entries, Inv, WorkerOf;
    assert AgreesAt(Apply(m, a), j);
    OnlyOneWorkerChanges(m, Apply(m, a), j);
  }

  lemma AddStepKeepsInv(m: Manager)
    requires Inv(m) && Enabled(m, Main) && m.main.Adding?
    ensures Inv(MainStep(m))
  {
    var j, m' := CurrentWorker(m), MainStep(m);
    var w, accepted, taken := m.workers[j], Of(Routed(m.submitted), j), Of(Entries(m.taken), j);
    assert AgreesAt(m, j);
    if MainCall(m) == P.SubmitDone {
      SubmitDoneAt(w, m.main.task, accepted, taken);
    } else {
      SubmitStepAt(w, m.main.task, accepted, taken);
      forall i: nat {
        RoutedSnoc(m.submitted, Submission(m.main.key, m.main.task), i);
      }
    }
    hide WorkerInv, P.Apply, P.Enabled, Of, Routed, Entries, Inv, WorkerOf;
    assert AgreesAt(m', j);
    OnlyOneWorkerChanges(m, m', j);
  }

  lemma PopStepKeepsInv(m: Manager)
    requires Inv(m) && Enabled(m, Main) && m.main.Draining? && MainCall(m) != P.CollectDone
    ensures Inv(MainStep(m))
  {
    var j, m' := CurrentWorker(m), MainStep(m);
    var w, accepted, taken := m.workers[j], Of(Routed(m.submitted), j), Of(Entries(m.taken), j);
    assert AgreesAt(m, j);
    if MainCall(m) == P.Collect {
      CollectAt(w, accepted, taken);
    } else {
      CollectStepAt(w, accepted, taken);
    }
    hide WorkerInv, P.Apply, P.Enabled, Of, Routed, Entries, Inv, WorkerOf;
    assert AgreesAt(m', j);
    OnlyOneWorkerChanges(m, m', j);
  }

  /** The main thread looks at the reply it has popped. */
  lemma PopDoneEffect(m: Manager)
    requires Inv(m) && Enabled(m, Main) && m.main.Draining? && MainCall(m) == P.CollectDone
    ensures var j, m', result := CurrentWorker(m), MainStep(m), m.workers[CurrentWorker(m)].replies.popper.result;
            var allowed := Allowed(m.main.count, m.main.processed);
            && m'.workers == m.workers[j := P.Apply(m.workers[j], P.CollectDone)] && m'.submitted == m.submitted
            && m'.taken == m.taken + (if result == NULL then [] else [Taken(Entry(j, result), allowed)])
            && m'.main == (if result != NULL && allowed then m.main.(processed := m.main.processed + 1)
                           else NextTurn(j, m.main.count))
            && MainInv(m'.main)
  {
    hide P.Apply, P.Enabled, AgreesAt;
  }

  lemma PopDoneKeepsInv(m: Manager)
    requires Inv(m) && Enabled(m, Main) && m.main.Draining? && MainCall(m) == P.CollectDone
    ensures Inv(MainStep(m))
  {
    var j, m' := CurrentWorker(m), MainStep(m);
    var w, accepted, taken := m.workers[j], Of(Routed(m.submitted), j), Of(Entries(m.taken), j);
    assert AgreesAt(m, j);
    PopDoneEffect(m);
    CollectDoneAt(w, ClientAt(m'.main, j), accepted, taken);
    var t := Taken(Entry(j, w.replies.popper.result), Allowed(m.main.count, m.main.processed));
    forall i: nat {
      EntriesSnoc(m.taken, t, i);
    }
    hide WorkerInv, P.Apply, P.Enabled, Of, Routed, Entries, Inv, MainStep, Enabled, MainCall, Allowed;
    assert t.entry.task == NULL ==> taken + Pending(w) == taken;
    assert AgreesAt(m', j);
    OnlyOneWorkerChanges(m, m', j);
  }

  lemma EveryStepKeepsInv(m: Manager, a: Action)
    requires Inv(m) && Enabled(m, a)
    ensures Inv(Apply(m, a))
  {
    hide AgreesAt, Inv, MainStep;
    if a.Work? || a.Stop? {
      WorkerStepKeepsInv(m, a);
    } else if !a.Main? {
      CallStartKeepsInv(m, a);
    } else if m.main.Adding? {
      AddStepKeepsInv(m);
    } else if MainCall(m) == P.CollectDone {
      PopDoneKeepsInv(m);
    } else {
      PopStepKeepsInv(m);
    }
  }

  lemma InitialInv(m: Manager)
    requires Initial(m)
    ensures Inv(m)
  {
    forall i | 0 <= i < |m.workers| ensures AgreesAt(m, i) {
      assert P.Initial(m.workers[i]);
    }
  }

  lemma {:induction false} EveryRunKeepsInv(m: Manager, run: seq<Action>)
    requires Inv(m) && IsRun(m, run)
    ensures Inv(After(m, run))
    decreases |run|
  {
    hide Inv;
    if run != [] {
      EveryStepKeepsInv(m, run[0]);
      EveryRunKeepsInv(Apply(m, run[0]), run[1..]);
    }
  }
}
