/**
 c11cv.cpp: one producer and any number of consumers share a list under a mutex and a condition
 variable. The producer notifies after releasing the mutex; wake-ups may be spurious.
 */
module ProducerConsumers {
  datatype ProducerPc =
    | Sleeping      // between rounds
    | Creating
    | WantLock
    | Pushing       // holds the mutex
    | Unlocking     // holds the mutex, task pushed
    | Notifying     // mutex released, about to call notify_one

  datatype ConsumerPc =
    | WantGuard
    | Testing            // holds the mutex, about to test tasks.empty()
    | Waiting            // blocked in mycv.wait, mutex released
    | Woken              // about to take the mutex again
    | Popping            // holds the mutex, list seen non-empty
    | Handling(task: nat) // holds the mutex, in doTask and delete
    | Releasing          // holds the mutex, end of the loop body

  datatype Holder = Nobody | ByProducer | ByConsumer(i: nat)

  /** Tasks are the taskIDs; `produced` and `handled` are histories. */
  datatype State = State(
    tasks: seq<nat>, holder: Holder, producer: ProducerPc, consumers: seq<ConsumerPc>,
    nextID: nat, produced: seq<nat>, handled: seq<nat>)

  /** Produce carries the waiter that notify_one picks, when it is at that call and someone waits. */
  datatype Action = Produce(wake: nat) | Consume(i: nat) | Spurious(i: nat)

  ghost predicate Initial(s: State) {
    && s.tasks == [] && s.holder == Nobody && s.producer == Creating && |s.consumers| > 0
    && (forall i :: 0 <= i < |s.consumers| ==> s.consumers[i] == WantGuard)
    && s.nextID == 0 && s.produced == [] && s.handled == []
  }

  ghost predicate SomeoneWaits(s: State) {
    exists i :: 0 <= i < |s.consumers| && s.consumers[i] == Waiting
  }

  ghost predicate Enabled(s: State, a: Action) {
    match a
    case Produce(wake) =>
      && (s.producer == WantLock ==> s.holder == Nobody)
      && (s.producer == Notifying && SomeoneWaits(s) ==> wake < |s.consumers| && s.consumers[wake] == Waiting)
    case Consume(i) =>
      && i < |s.consumers| && s.consumers[i] != Waiting
      && (s.consumers[i] == WantGuard || s.consumers[i] == Woken ==> s.holder == Nobody)
      && (s.consumers[i] == Popping ==> s.tasks != [])
    case Spurious(i) => i < |s.consumers| && s.consumers[i] == Waiting
  }

  ghost function ProduceStep(s: State, wake: nat): State
    requires Enabled(s, Produce(wake))
  {
    match s.producer
    case Creating => s.(producer := WantLock)
    case WantLock => s.(producer := Pushing, holder := ByProducer)
    case Pushing => s.(producer := Unlocking, tasks := s.tasks + [s.nextID], produced := s.produced + [s.nextID])
    case Unlocking => s.(producer := Notifying, holder := Nobody)
    case Notifying =>
      s.(producer := Sleeping, nextID := s.nextID + 1,
         consumers := if SomeoneWaits(s) then s.consumers[wake := Woken] else s.consumers)
    case Sleeping => s.(producer := Creating)
  }

  ghost function ConsumeStep(s: State, i: nat): State
    requires Enabled(s, Consume(i))
  {
    match s.consumers[i]
    case WantGuard => s.(holder := ByConsumer(i), consumers := s.consumers[i := Testing])
    case Woken => s.(holder := ByConsumer(i), consumers := s.consumers[i := Testing])
    case Testing =>
      if s.tasks == [] then s.(holder := Nobody, consumers := s.consumers[i := Waiting])
      else s.(consumers := s.consumers[i := Popping])
    case Popping => s.(tasks := s.tasks[1..], consumers := s.consumers[i := Handling(s.tasks[0])])
    case Handling(t) => s.(handled := s.handled + [t], consumers := s.consumers[i := Releasing])
    case Releasing => s.(holder := Nobody, consumers := s.consumers[i := WantGuard])
  }

  ghost function Apply(s: State, a: Action): State
    requires Enabled(s, a)
  {
    match a
    case Produce(wake) => ProduceStep(s, wake)
    case Consume(i) => ConsumeStep(s, i)
    case Spurious(i) => s.(consumers := s.consumers[i := Woken])
  }

  ghost predicate IsRun(s: State, run: seq<Action>)
    decreases |run|
  {
    run == [] || (Enabled(s, run[0]) && IsRun(Apply(s, run[0]), run[1..]))
  }

  ghost function After(s: State, run: seq<Action>): State
    requires IsRun(s, run)
    decreases |run|
  {
    if run == [] then s else After(Apply(s, run[0]), run[1..])
  }

  // What every step keeps.

  predicate HoldsGuard(c: ConsumerPc) {
    c == Testing || c == Popping || c.Handling? || c == Releasing
  }

  ghost predicate MutualExclusion(s: State) {
    && (s.holder == ByProducer <==> s.producer == Pushing || s.producer == Unlocking)
    && (forall i :: 0 <= i < |s.consumers| ==> (HoldsGuard(s.consumers[i]) <==> s.holder == ByConsumer(i)))
    && (s.holder.ByConsumer? ==> s.holder.i < |s.consumers|)
  }

  /** The task a consumer has taken off the list and not finished. */
  ghost function InHand(s: State): seq<nat> {
    if s.holder.ByConsumer? && s.holder.i < |s.consumers| && s.consumers[s.holder.i].Handling?
    then [s.consumers[s.holder.i].task] else []
  }

  ghost predicate Delivered(s: State) {
    && s.produced == s.handled + InHand(s) + s.tasks
    && |s.produced| == s.nextID + (if s.producer == Unlocking || s.producer == Notifying then 1 else 0)
    && (forall k :: 0 <= k < |s.produced| ==> s.produced[k] == k)
  }

  ghost predicate NoLostWakeUp(s: State) {
    s.tasks == [] || s.producer == Unlocking || s.producer == Notifying
    || exists i :: 0 <= i < |s.consumers| && s.consumers[i] != Waiting
  }

  ghost predicate Inv(s: State) {
    && |s.consumers| > 0
    && MutualExclusion(s) && Delivered(s) && NoLostWakeUp(s)
    && (s.holder.ByConsumer? && s.consumers[s.holder.i] == Popping ==> s.tasks != [])
  }

  lemma ProduceKeepsInv(s: State, wake: nat)
    requires Inv(s) && Enabled(s, Produce(wake))
    ensures Inv(ProduceStep(s, wake))
  {
    if s.producer == Notifying {
      var i := if SomeoneWaits(s) then wake else 0;
      assert ProduceStep(s, wake).consumers[i] != Waiting;
    }
  }

  /** Taking the first task in hand, and finishing it, move it along. */
  lemma HandOver(handled: seq<nat>, tasks: seq<nat>)
    requires tasks != []
    ensures handled + [] + tasks == handled + [tasks[0]] + tasks[1..]
  {
  }

  lemma HandDown(handled: seq<nat>, task: nat, tasks: seq<nat>)
    ensures handled + [task] + tasks == (handled + [task]) + [] + tasks
  {
  }

  /** A step of a consumer that has the mutex concerns the task in hand; any other leaves nothing in hand. */
  lemma HandChanges(s: State, i: nat)
    requires Inv(s) && Enabled(s, Consume(i))
    ensures InHand(s) == if s.consumers[i].Handling? then [s.consumers[i].task] else []
    ensures InHand(ConsumeStep(s, i)) == if s.consumers[i] == Popping then [s.tasks[0]] else []
  {
    hide Delivered, NoLostWakeUp;
  }

  lemma ConsumeKeepsDelivered(s: State, i: nat)
    requires Inv(s) && Enabled(s, Consume(i))
    ensures Delivered(ConsumeStep(s, i))
  {
    HandChanges(s, i);
    hide InHand, NoLostWakeUp, MutualExclusion;
    match s.consumers[i]
    case Popping => HandOver(s.handled, s.tasks);
    case Handling(t) => HandDown(s.handled, t, s.tasks);
    case _ =>
  }

  lemma ConsumeKeepsExclusion(s: State, i: nat)
    requires Inv(s) && Enabled(s, Consume(i))
    ensures var s' := ConsumeStep(s, i);
            && MutualExclusion(s') && |s'.consumers| == |s.consumers|
            && (s'.holder.ByConsumer? && s'.consumers[s'.holder.i] == Popping ==> s'.tasks != [])
  {
    hide Delivered, NoLostWakeUp;
  }

  lemma ConsumeKeepsInv(s: State, i: nat)
    requires Inv(s) && Enabled(s, Consume(i))
    ensures Inv(ConsumeStep(s, i))
  {
    ConsumeKeepsDelivered(s, i);
    ConsumeKeepsExclusion(s, i);
    hide Delivered, MutualExclusion, Enabled;
    var s' := ConsumeStep(s, i);
    assert s'.tasks == [] || s'.consumers[i] != Waiting;
  }

  lemma EveryStepKeepsInv(s: State, a: Action)
    requires Inv(s) && Enabled(s, a)
    ensures Inv(Apply(s, a))
  {
    match a
    case Produce(wake) => ProduceKeepsInv(s, wake);
    case Consume(i) => ConsumeKeepsInv(s, i);
    case Spurious(i) => assert Apply(s, a).consumers[i] != Waiting;
  }

  lemma {:induction false} EveryRunKeepsInv(s: State, run: seq<Action>)
    requires Inv(s) && IsRun(s, run)
    ensures Inv(After(s, run))
    decreases |run|
  {
    if run != [] {
      EveryStepKeepsInv(s, run[0]);
      EveryRunKeepsInv(Apply(s, run[0]), run[1..]);
    }
  }

  /** Over every run, the handled tasks are 0, 1, 2, ... without gap or repetition. */
  lemma DeliveredOnceInOrder(s: State, run: seq<Action>)
    requires Initial(s) && IsRun(s, run)
    ensures forall k :: 0 <= k < |After(s, run).handled| ==> After(s, run).handled[k] == k
    ensures NoLostWakeUp(After(s, run))
  {
    assert s.consumers[0] != Waiting;
    EveryRunKeepsInv(s, run);
    var t := After(s, run);
    assert forall k :: 0 <= k < |t.handled| ==> t.handled[k] == t.produced[k];
  }

  // Progress while the producer starts no new round.

  function ConsumerRank(c: ConsumerPc): nat {
    match c
    case Waiting => 0 case Popping => 1 case Testing => 2 case WantGuard => 3
    case Woken => 3 case Releasing => 4 case Handling(_) => 5
  }

  ghost function ConsumerRanks(cs: seq<ConsumerPc>): nat {
    if cs == [] then 0 else ConsumerRanks(cs[..|cs| - 1]) + ConsumerRank(cs[|cs| - 1])
  }

  function ProducerRank(p: ProducerPc): nat {
    match p
    case Sleeping => 0 case Notifying => 4 case Unlocking => 5
    case Pushing => 11 case WantLock => 12 case Creating => 13
  }

  ghost function Measure(s: State): nat {
    5 * |s.tasks| + ProducerRank(s.producer) + ConsumerRanks(s.consumers)
  }

  /** Neither a spurious wake-up nor the producer's return from sleep. */
  ghost predicate Settling(s: State, a: Action) {
    !a.Spurious? && (a.Produce? ==> s.producer != Sleeping)
  }

  ghost predicate IsSettlingRun(s: State, run: seq<Action>)
    requires IsRun(s, run)
    decreases |run|
  {
    run == [] || (Settling(s, run[0]) && IsSettlingRun(Apply(s, run[0]), run[1..]))
  }

  lemma {:induction false} RankUpdate(cs: seq<ConsumerPc>, i: nat, c: ConsumerPc)
    requires i < |cs|
    ensures ConsumerRanks(cs[i := c]) == ConsumerRanks(cs) - ConsumerRank(cs[i]) + ConsumerRank(c)
  {
    var n := |cs| - 1;
    if i == n {
      assert cs[i := c][..n] == cs[..n];
    } else {
      RankUpdate(cs[..n], i, c);
      assert cs[i := c][..n] == cs[..n][i := c];
    }
  }

  lemma SettlingStepDecreases(s: State, a: Action)
    requires Enabled(s, a) && Settling(s, a)
    ensures Measure(Apply(s, a)) < Measure(s)
  {
    if a.Consume? {
      RankUpdate(s.consumers, a.i, Apply(s, a).consumers[a.i]);
    } else if s.producer == Notifying && SomeoneWaits(s) {
      RankUpdate(s.consumers, a.wake, Woken);
    }
  }

  lemma {:induction false} SettlingRunsAreBounded(s: State, run: seq<Action>)
    requires IsRun(s, run) && IsSettlingRun(s, run)
    ensures |run| + Measure(After(s, run)) <= Measure(s)
    decreases |run|
  {
    if run != [] {
      SettlingStepDecreases(s, run[0]);
      SettlingRunsAreBounded(Apply(s, run[0]), run[1..]);
    }
  }

  ghost predicate Settled(s: State) {
    forall a :: Enabled(s, a) ==> !Settling(s, a)
  }

  lemma StuckMeansAllHandled(s: State)
    requires Inv(s) && Settled(s)
    ensures s.tasks == [] && s.handled == s.produced && s.producer == Sleeping
    ensures forall i :: 0 <= i < |s.consumers| ==> s.consumers[i] == Waiting
  {
    if s.holder.ByConsumer? {
      assert Enabled(s, Consume(s.holder.i)) && Settling(s, Consume(s.holder.i));
    }
    var wake :| 0 <= wake && (SomeoneWaits(s) ==> wake < |s.consumers| && s.consumers[wake] == Waiting);
    assert s.producer != Sleeping ==> Enabled(s, Produce(wake)) && Settling(s, Produce(wake));
    forall i | 0 <= i < |s.consumers| ensures s.consumers[i] == Waiting {
      assert s.consumers[i] != Waiting ==> Enabled(s, Consume(i)) && Settling(s, Consume(i));
    }
  }

  /**
   From any reachable state, once the producer starts no new round, every run is finite, and where
   it can go no further all that was produced has been handled: no task waits for a lost wake-up.
   */
  lemma EverythingProducedIsHandled(s: State, run: seq<Action>, tail: seq<Action>)
    requires Initial(s) && IsRun(s, run) && IsRun(After(s, run), tail) && IsSettlingRun(After(s, run), tail)
    ensures |tail| <= Measure(After(s, run))
    ensures Settled(After(After(s, run), tail)) ==>
              After(After(s, run), tail).handled == After(After(s, run), tail).produced
  {
    assert s.consumers[0] != Waiting;
    EveryRunKeepsInv(s, run);
    EveryRunKeepsInv(After(s, run), tail);
    SettlingRunsAreBounded(After(s, run), tail);
    if Settled(After(After(s, run), tail)) {
      StuckMeansAllHandled(After(After(s, run), tail));
    }
  }
}
