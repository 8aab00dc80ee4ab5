/**
 CTaskList shared by one pushing and one popping thread, with no lock. Each micro-step makes one
 access to a shared variable; the two threads interleave freely (sequential consistency).
 */
module RingProtocol {
  import opened TaskRing

  datatype PushPc =
    | PushIdle
    | PushEntered(task: Ptr)                // about to load write_idx_ and compute next_idx
    | PushNextKnown(task: Ptr, next: nat)   // about to load read_idx_ and compare
    | PushChecked(task: Ptr, next: nat)     // about to write the slot
    | PushWrote(task: Ptr, next: nat)       // about to store write_idx_
    | PushReturned(task: Ptr, ok: bool)

  datatype PopPc =
    | PopIdle
    | PopEntered                            // about to load write_idx_
    | PopLoaded(write: nat, seen: nat)      // loaded when `seen` tasks were queued; about to compare
    | PopNonEmpty                           // about to read the slot
    | PopRead(task: Ptr)                    // about to store read_idx_
    | PopReturned(result: Ptr)

  /** `accepted` grows when a push publishes its slot, `popped` when a pop frees one. */
  datatype Spsc = Spsc(ring: Ring, pusher: PushPc, popper: PopPc, accepted: seq<Ptr>, popped: seq<Ptr>)

  datatype Action = CallPush(task: Ptr) | PushStep | PushDone | CallPop | PopStep | PopDone

  ghost predicate Initial(s: Spsc) {
    && s.ring.Valid() && s.ring.read == s.ring.write == 0
    && s.pusher == PushIdle && s.popper == PopIdle && s.accepted == [] && s.popped == []
  }

  predicate PushRunning(s: Spsc) {
    !s.pusher.PushIdle? && !s.pusher.PushReturned?
  }

  predicate PopRunning(s: Spsc) {
    !s.popper.PopIdle? && !s.popper.PopReturned?
  }

  ghost function PushMicroStep(s: Spsc): Spsc
    requires s.ring.Valid() && PushRunning(s)
  {
    match s.pusher
    case PushEntered(t) => s.(pusher := PushNextKnown(t, NextIdx(s.ring.write)))
    case PushNextKnown(t, n) => s.(pusher := if n == s.ring.read then PushReturned(t, false) else PushChecked(t, n))
    case PushChecked(t, n) =>
      s.(pusher := PushWrote(t, n), ring := s.ring.(slots := s.ring.slots[s.ring.write := t]))
    case PushWrote(t, n) =>
      s.(pusher := PushReturned(t, true), ring := s.ring.(write := n), accepted := s.accepted + [t])
  }

  ghost function PopMicroStep(s: Spsc): Spsc
    requires s.ring.Valid() && PopRunning(s)
  {
    match s.popper
    case PopEntered => s.(popper := PopLoaded(s.ring.write, |s.ring.Contents()|))
    case PopLoaded(w, _) => s.(popper := if w == s.ring.read then PopReturned(NULL) else PopNonEmpty)
    case PopNonEmpty => s.(popper := PopRead(s.ring.slots[s.ring.read]))
    case PopRead(t) =>
      s.(popper := PopReturned(t), ring := s.ring.(read := NextIdx(s.ring.read)), popped := s.popped + [t])
  }

  ghost predicate Enabled(s: Spsc, a: Action) {
    match a
    case CallPush(_) => s.pusher.PushIdle?
    case PushStep => s.ring.Valid() && PushRunning(s)
    case PushDone => s.pusher.PushReturned?
    case CallPop => s.popper.PopIdle?
    case PopStep => s.ring.Valid() && PopRunning(s)
    case PopDone => s.popper.PopReturned?
  }

  ghost function Apply(s: Spsc, a: Action): Spsc
    requires Enabled(s, a)
  {
    match a
    case CallPush(t) => s.(pusher := PushEntered(t))
    case PushStep => PushMicroStep(s)
    case PushDone => s.(pusher := PushIdle)
    case CallPop => s.(popper := PopEntered)
    case PopStep => PopMicroStep(s)
    case PopDone => s.(popper := PopIdle)
  }

  /** A run is any sequence of enabled micro-steps. */
  ghost predicate IsRun(s: Spsc, run: seq<Action>)
    decreases |run|
  {
    run == [] || (Enabled(s, run[0]) && IsRun(Apply(s, run[0]), run[1..]))
  }

  ghost function After(s: Spsc, run: seq<Action>): Spsc
    requires IsRun(s, run)
    decreases |run|
  {
    if run == [] then s else After(Apply(s, run[0]), run[1..])
  }

  ghost predicate PusherInv(s: Spsc)
    requires s.ring.Valid()
  {
    match s.pusher
    case PushNextKnown(_, n) => n == NextIdx(s.ring.write)
    case PushChecked(_, n) => n == NextIdx(s.ring.write) && |s.ring.Contents()| < MAX_TASK_NUM - 1
    case PushWrote(t, n) =>
      n == NextIdx(s.ring.write) && |s.ring.Contents()| < MAX_TASK_NUM - 1 && s.ring.slots[s.ring.write] == t
    case _ => true
  }

  ghost predicate PopperInv(s: Spsc)
    requires s.ring.Valid()
  {
    match s.popper
    case PopLoaded(w, seen) => (w == s.ring.read <==> seen == 0) && seen <= |s.ring.Contents()|
    case PopNonEmpty => s.ring.Contents() != []
    case PopRead(t) => s.ring.Contents() != [] && s.ring.Contents()[0] == t
    case _ => true
  }

  ghost predicate Inv(s: Spsc) {
    && s.ring.Valid()
    && s.accepted == s.popped + s.ring.Contents()
    && PusherInv(s)
    && PopperInv(s)
  }

  /** The queue the ring stands for: at most 999 tasks, oldest first. */
  ghost predicate FifoStep(q: seq<Ptr>, q': seq<Ptr>) {
    || q' == q
    || (|q| < MAX_TASK_NUM - 1 && exists t: Ptr :: q' == q + [t])
    || (q != [] && q' == q[1..])
  }

  lemma PushStepKeepsInv(s: Spsc)
    requires Inv(s) && PushRunning(s)
    ensures Inv(PushMicroStep(s))
    ensures PushMicroStep(s).ring.Contents() ==
            s.ring.Contents() + if s.pusher.PushWrote? then [s.pusher.task] else []
  {
    IndexTestsAreExact(s.ring);
    if s.pusher.PushChecked? {
      PushAppends(s.ring, s.pusher.task);
    } else if s.pusher.PushWrote? {
      PushAppends(s.ring, s.pusher.task);
      assert s.ring.slots[s.ring.write := s.pusher.task] == s.ring.slots;
    }
  }

  lemma MoveAcross(a: seq<Ptr>, x: Ptr, b: seq<Ptr>)
    ensures a + ([x] + b) == (a + [x]) + b
    ensures ([x] + b)[1..] == b
  {
  }

  lemma ReadAdvanceKeepsInv(s: Spsc)
    requires Inv(s) && s.popper.PopRead?
    ensures Inv(PopMicroStep(s))
    ensures s.ring.Contents() == [s.popper.task] + PopMicroStep(s).ring.Contents()
  {
    PopRemovesOldest(s.ring);
    IndexTestsAreExact(s.ring);
    MoveAcross(s.popped, s.popper.task, PopMicroStep(s).ring.Contents());
  }

  lemma PopStepKeepsInv(s: Spsc)
    requires Inv(s) && PopRunning(s)
    ensures Inv(PopMicroStep(s))
    ensures s.ring.Contents() ==
            (if s.popper.PopRead? then [s.popper.task] else []) + PopMicroStep(s).ring.Contents()
  {
    if s.popper.PopRead? {
      ReadAdvanceKeepsInv(s);
    } else {
      IndexTestsAreExact(s.ring);
      if s.popper.PopNonEmpty? {
        PopRemovesOldest(s.ring);
      }
    }
  }

  /** What a push step changes besides the ring: its own state and, on publishing, the log. */
  lemma PushStepEffect(s: Spsc)
    requires s.ring.Valid() && PushRunning(s)
    ensures var s' := PushMicroStep(s);
            && s'.popper == s.popper && s'.popped == s.popped
            && !s'.pusher.PushIdle? && s'.pusher.task == s.pusher.task
            && s'.accepted == s.accepted + (if s.pusher.PushWrote? then [s.pusher.task] else [])
            && (s.pusher.PushWrote? ==> s'.pusher == PushReturned(s.pusher.task, true))
            && (s'.pusher.PushReturned? ==>
                  s'.pusher.ok == s.pusher.PushWrote? && (s.pusher.PushWrote? || s.pusher.PushNextKnown?))
  {
    hide Ring.Valid, NextIdx;
  }

  /** What a pop step changes besides the ring. */
  lemma PopStepEffect(s: Spsc)
    requires s.ring.Valid() && PopRunning(s)
    ensures var s' := PopMicroStep(s);
            && s'.pusher == s.pusher && s'.accepted == s.accepted && !s'.popper.PopIdle?
            && s'.popped == s.popped + (if s.popper.PopRead? then [s.popper.task] else [])
            && (s.popper.PopRead? ==> s'.popper == PopReturned(s.popper.task))
            && (s'.popper.PopReturned? && !s.popper.PopRead? ==> s'.popper.result == NULL)
  {
    hide Ring.Contents, NextIdx;
  }

  /** Every micro-step of either thread refines one step of the bounded queue. */
  lemma EveryStepRefinesFifo(s: Spsc, a: Action)
    requires Inv(s) && Enabled(s, a)
    ensures Inv(Apply(s, a))
    ensures FifoStep(s.ring.Contents(), Apply(s, a).ring.Contents())
  {
    match a
    case PushStep => PushStepKeepsInv(s);
    case PopStep => PopStepKeepsInv(s);
    case _ =>
  }

  lemma {:induction false} EveryRunKeepsInv(s: Spsc, run: seq<Action>)
    requires Inv(s) && IsRun(s, run)
    ensures Inv(After(s, run))
    decreases |run|
  {
    if run != [] {
      EveryStepRefinesFifo(s, run[0]);
      EveryRunKeepsInv(Apply(s, run[0]), run[1..]);
    }
  }

  /** Over every run from the constructor, what was popped is a prefix of what was accepted. */
  lemma PoppedIsPrefixOfAccepted(s: Spsc, run: seq<Action>)
    requires Initial(s) && IsRun(s, run)
    ensures After(s, run).popped <= After(s, run).accepted
    ensures |After(s, run).accepted| - |After(s, run).popped| <= MAX_TASK_NUM - 1
  {
    EveryRunKeepsInv(s, run);
    IndexTestsAreExact(After(s, run).ring);
  }

  /** No micro-step changes a slot whose task has not been popped. */
  lemma OccupiedSlotsAreStable(s: Spsc, a: Action, k: nat)
    requires Inv(s) && Enabled(s, a)
    requires s.ring.Occupied(k)
    ensures k < MAX_TASK_NUM && Apply(s, a).ring.slots[k] == s.ring.slots[k]
  {
    if a == PushStep && s.pusher.PushChecked? {
      IndexTestsAreExact(s.ring);
    }
  }

  /** A push returns false exactly when its load of read_idx_ saw 999 queued tasks. */
  lemma PushFailsExactlyWhenFull(s: Spsc)
    requires Inv(s) && s.pusher.PushNextKnown?
    ensures PushMicroStep(s).pusher == PushReturned(s.pusher.task, false) <==> |s.ring.Contents()| == MAX_TASK_NUM - 1
  {
    IndexTestsAreExact(s.ring);
  }

  /** A pop gives up exactly when the ring was empty at its load of write_idx_, however it raced on. */
  lemma PopGivesUpExactlyWhenItSawEmpty(s: Spsc)
    requires Inv(s) && s.popper.PopLoaded?
    ensures PopMicroStep(s).popper == PopReturned(NULL) <==> s.popper.seen == 0
    ensures PopMicroStep(s).popper == PopNonEmpty <==> s.popper.seen > 0
  {
  }

  lemma PoppedTaskWasAccepted(s: Spsc)
    requires Inv(s) && s.popper.PopRead?
    ensures s.popper.task in s.accepted
  {
    assert s.ring.Contents()[0] in s.accepted;
  }

  lemma QueueIsBounded(s: Spsc)
    requires Inv(s)
    ensures s.ring.Valid() && |s.ring.Contents()| <= MAX_TASK_NUM - 1
  {
    IndexTestsAreExact(s.ring);
  }
}
