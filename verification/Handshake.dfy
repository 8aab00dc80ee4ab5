/**
 The start handshake of mysqlmgr/MysqlThread.cpp: init spawns the worker and waits on a condition
 variable for is_start_, which the worker sets before it takes the mutex to notify.
 */
module Handshake {
  datatype InitPc =
    | Called        // about to test is_start_
    | Spawning
    | WantLock
    | Testing       // holds the mutex, about to test is_start_
    | Waiting       // blocked in cond_.wait, mutex released
    | Woken         // about to take the mutex again
    | Releasing
    | Returned

  datatype WorkerPc = NotSpawned | SetFlag | WantNotifyLock | Notifying | Unlocking | InLoop

  datatype Holder = Nobody | ByInit | ByWorker

  datatype State = State(isStart: bool, holder: Holder, init: InitPc, worker: WorkerPc)

  datatype Action = Init | Worker | Spurious

  predicate Initial(s: State) {
    s == State(false, Nobody, Called, NotSpawned)
  }

  predicate Enabled(s: State, a: Action) {
    match a
    case Init =>
      && !s.init.Waiting? && !s.init.Returned?
      && (s.init.WantLock? || s.init.Woken? ==> s.holder == Nobody)
    case Worker => !s.worker.NotSpawned? && !s.worker.InLoop? && (s.worker.WantNotifyLock? ==> s.holder == Nobody)
    case Spurious => s.init.Waiting?
  }

  function Apply(s: State, a: Action): State
    requires Enabled(s, a)
  {
    match a
    case Spurious => s.(init := Woken)
    case Init => (
      match s.init
      case Called => s.(init := if s.isStart then Returned else Spawning)
      case Spawning => s.(init := WantLock, worker := SetFlag)
      case Testing => if s.isStart then s.(init := Releasing) else s.(init := Waiting, holder := Nobody)
      case Releasing => s.(init := Returned, holder := Nobody)
      case _ => s.(init := Testing, holder := ByInit))
    case Worker =>
      match s.worker
      case SetFlag => s.(isStart := true, worker := WantNotifyLock)
      case WantNotifyLock => s.(worker := Notifying, holder := ByWorker)
      case Notifying => s.(worker := Unlocking, init := if s.init.Waiting? then Woken else s.init)
      case _ => s.(worker := InLoop, holder := Nobody)
  }

  ghost predicate IsRun(s: State, run: seq<Action>)
    decreases |run|
  {
    run == [] || (Enabled(s, run[0]) && IsRun(Apply(s, run[0]), run[1..]))
  }

  ghost function After(s: State, run: seq<Action>): State
    requires IsRun(s, run)
    decreases |run|
  {
    if run == [] then s else After(Apply(s, run[0]), run[1..])
  }

  ghost predicate Inv(s: State) {
    && (s.holder == ByInit <==> s.init.Testing? || s.init.Releasing?)
    && (s.holder == ByWorker <==> s.worker.Notifying? || s.worker.Unlocking?)
    && (s.isStart <==> !s.worker.NotSpawned? && !s.worker.SetFlag?)
    && (s.worker.NotSpawned? <==> s.init.Called? || s.init.Spawning?)
    && (s.init.Waiting? ==> s.worker.SetFlag? || s.worker.WantNotifyLock? || s.worker.Notifying?)
    && (s.init.Returned? || s.init.Releasing? ==> s.isStart)
  }

  lemma {:induction false} EveryRunKeepsInv(s: State, run: seq<Action>)
    requires Inv(s) && IsRun(s, run)
    ensures Inv(After(s, run))
    decreases |run|
  {
    if run != [] {
      EveryRunKeepsInv(Apply(s, run[0]), run[1..]);
    }
  }

  /** No reachable state has init blocked in wait after the worker's notify. */
  lemma NoLostWakeUp(s: State, run: seq<Action>)
    requires Initial(s) && IsRun(s, run)
    ensures var t := After(s, run);
            && (t.init.Waiting? ==> t.worker.SetFlag? || t.worker.WantNotifyLock? || t.worker.Notifying?)
            && (t.init.Returned? ==> t.isStart)
  {
    EveryRunKeepsInv(s, run);
  }

  // Progress.

  /** An upper bound on the steps left, spurious wake-ups apart. */
  ghost function Measure(s: State): nat {
    var worker := match s.worker
      case NotSpawned => 5 case SetFlag => 4 case WantNotifyLock => 3
      case Notifying => 2 case Unlocking => 1 case InLoop => 0;
    var init := match s.init
      case Called => 6 case Spawning => 5 case WantLock => 4 case Woken => 4 case Testing => 3
      case Releasing => 2 case Waiting => 1 case Returned => 0;
    4 * worker + init
  }

  ghost function SpuriousSteps(run: seq<Action>): nat {
    if run == [] then 0 else SpuriousSteps(run[1..]) + if run[0].Spurious? then 1 else 0
  }

  lemma {:induction false} RunsAreBounded(s: State, run: seq<Action>)
    requires Inv(s) && IsRun(s, run)
    ensures |run| + Measure(After(s, run)) <= Measure(s) + 4 * SpuriousSteps(run)
    decreases |run|
  {
    if run != [] {
      RunsAreBounded(Apply(s, run[0]), run[1..]);
    }
  }

  /**
   From the call of init, a run has at most 26 steps plus four for each spurious wake-up, and it can
   be continued by a step that is not spurious until init has returned.
   */
  lemma HandshakeCompletes(s: State, run: seq<Action>)
    requires Initial(s) && IsRun(s, run)
    ensures |run| <= 26 + 4 * SpuriousSteps(run)
    ensures !After(s, run).init.Returned? ==> Enabled(After(s, run), Init) || Enabled(After(s, run), Worker)
  {
    RunsAreBounded(s, run);
    EveryRunKeepsInv(s, run);
  }
}
