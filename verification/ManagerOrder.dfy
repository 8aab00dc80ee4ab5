/** Where every submitted task is, and in which order tasks are released, over whole runs of the manager. */
module ManagerOrder {
  import opened TaskRing
  import P = Pipeline
  import R = RingProtocol
  import opened Manager
  import opened ManagerDrain

  // Without any assumption on the client: any counts, any number of outstanding tasks.

  ghost predicate IsSubsequence(a: seq<Ptr>, b: seq<Ptr>)
    decreases |b|
  {
    a == [] ||
    (b != [] && (IsSubsequence(a, b[..|b| - 1])
                 || (a[|a| - 1] == b[|b| - 1] && IsSubsequence(a[..|a| - 1], b[..|b| - 1]))))
  }

  lemma {:induction false} ChosenIsSubsequence(os: seq<P.Outcome>, kept: bool)
    ensures IsSubsequence(P.Chosen(os, kept), P.Tasks(os))
  {
    if os != [] {
      var ts := P.Tasks(os);
      assert ts[..|ts| - 1] == P.Tasks(os[..|os| - 1]);
      ChosenIsSubsequence(os[..|os| - 1], kept);
      var c := P.Chosen(os, kept);
      if os[|os| - 1].kept == kept {
        assert c[..|c| - 1] == P.Chosen(os[..|os| - 1], kept);
      } else {
        assert c == P.Chosen(os[..|os| - 1], kept);
      }
    }
  }

  lemma SubsequenceSnoc(a: seq<Ptr>, b: seq<Ptr>, x: Ptr, y: Ptr)
    requires IsSubsequence(a, b)
    ensures IsSubsequence(a, b + [y]) && (x == y ==> IsSubsequence(a + [x], b + [y]))
  {
    assert (b + [y])[..|b|] == b && (a + [x])[..|a|] == a;
  }

  /** What one more popped reply adds to a worker's share of the released or abandoned ones. */
  lemma OfPickSnoc(before: seq<Taken>, t: Taken, released: bool, i: nat)
    ensures Of(Pick(before + [t], released), i) ==
            Of(Pick(before, released), i) + if t.released == released && t.entry.worker == i then [t.entry.task] else []
  {
    PickSnoc(before, t, released);
    OfSnoc(Pick(before, released), t.entry, i);
    hide Of, Pick;
    assert Pick(before, released) + [] == Pick(before, released);
  }

  lemma NothingTaken(i: nat)
    ensures Of(Entries([]), i) == Of(Pick([], true), i) == Of(Pick([], false), i) == []
  {
  }

  lemma LastTaken(taken: seq<Taken>)
    requires taken != []
    ensures taken == taken[..|taken| - 1] + [taken[|taken| - 1]]
  {
  }

  lemma {:induction false} PickedIsSubsequence(taken: seq<Taken>, released: bool, i: nat)
    ensures IsSubsequence(Of(Pick(taken, released), i), Of(Entries(taken), i))
  {
    if taken != [] {
      var before, t := taken[..|taken| - 1], taken[|taken| - 1];
      PickedIsSubsequence(before, released, i);
      LastTaken(taken);
      OfPickSnoc(before, t, released, i);
      EntriesSnoc(before, t, i);
      hide Of, Pick, Entries, IsSubsequence;
      var picked, all := Of(Pick(before, released), i), Of(Entries(before), i);
      SubsequenceSnoc(picked, all, t.entry.task, t.entry.task);
      assert picked + [] == picked && all + [] == all;
    }
  }

  lemma {:induction false} SubsequenceTransitive(a: seq<Ptr>, b: seq<Ptr>, c: seq<Ptr>)
    requires IsSubsequence(a, b) && IsSubsequence(b, c)
    ensures IsSubsequence(a, c)
    decreases |c|
  {
    if a != [] {
      var c' := c[..|c| - 1];
      if IsSubsequence(b, c') {
        SubsequenceTransitive(a, b, c');
      } else if IsSubsequence(a, b[..|b| - 1]) {
        SubsequenceTransitive(a, b[..|b| - 1], c');
      } else {
        SubsequenceTransitive(a[..|a| - 1], b[..|b| - 1], c');
      }
    }
  }

  lemma {:induction false} PrefixIsSubsequence(a: seq<Ptr>, b: seq<Ptr>)
    requires a <= b
    ensures IsSubsequence(a, b)
    decreases |b|
  {
    if a == b {
      if a != [] {
        PrefixIsSubsequence(a[..|a| - 1], b[..|b| - 1]);
      }
    } else {
      PrefixIsSubsequence(a, b[..|b| - 1]);
    }
  }

  /** Seen by one worker: what it handed back is a subsequence of what it was given. */
  lemma HandedBackIsSubsequence(w: P.Worker)
    requires P.Inv(w)
    ensures IsSubsequence(w.replies.popped, w.tasks.accepted)
  {
    assert w.replies.popped <= P.Kept(w) && P.Tasks(w.outcomes) <= w.tasks.accepted by {
      assert R.Inv(w.replies) && R.Inv(w.tasks);
      hide Ring.Contents, P.Hand, P.Chosen, P.Tasks;
    }
    hide P.Inv;
    PrefixIsSubsequence(w.replies.popped, P.Kept(w));
    ChosenIsSubsequence(w.outcomes, true);
    PrefixIsSubsequence(P.Tasks(w.outcomes), w.tasks.accepted);
    hide IsSubsequence, P.Chosen, P.Tasks;
    SubsequenceTransitive(w.replies.popped, P.Kept(w), P.Tasks(w.outcomes));
    SubsequenceTransitive(w.replies.popped, P.Tasks(w.outcomes), w.tasks.accepted);
  }

  /**
   Over every run, whatever the counts and even if replies were abandoned or dropped, each worker's
   releases follow its submission order and none is released twice.
   */
  lemma ReleasedInSubmissionOrder(m: Manager, run: seq<Action>, i: nat)
    requires Initial(m) && IsRun(m, run) && i <= THREAD_COUNT
    ensures IsSubsequence(Of(Released(After(m, run)), i), Of(Routed(After(m, run).submitted), i))
  {
    InitialInv(m);
    EveryRunKeepsInv(m, run);
    var m' := After(m, run);
    assert AgreesAt(m', i);
    var w, taken := m'.workers[i], Of(Entries(m'.taken), i);
    HandedBackIsSubsequence(w);
    PickedIsSubsequence(m'.taken, true, i);
    PrefixIsSubsequence(taken, w.replies.popped);
    hide IsSubsequence, Of, Routed, Entries, Pick, After, P.Inv;
    SubsequenceTransitive(Of(Released(m'), i), taken, w.replies.popped);
    SubsequenceTransitive(Of(Released(m'), i), w.replies.popped, w.tasks.accepted);
  }

  lemma SplitSnoc(all: seq<Ptr>, a: seq<Ptr>, b: seq<Ptr>, x: Ptr)
    requires multiset(all) == multiset(a) + multiset(b)
    ensures multiset(all + [x]) == multiset(a + [x]) + multiset(b)
    ensures multiset(all + [x]) == multiset(a) + multiset(b + [x])
  {
  }

  lemma {:induction false} PickSplits(taken: seq<Taken>, i: nat)
    ensures multiset(Of(Entries(taken), i)) ==
            multiset(Of(Pick(taken, true), i)) + multiset(Of(Pick(taken, false), i))
  {
    NothingTaken(i);
    hide Of, Pick, Entries;
    if taken != [] {
      var before, t := taken[..|taken| - 1], taken[|taken| - 1];
      PickSplits(before, i);
      LastTaken(taken);
      EntriesSnoc(before, t, i);
      OfPickSnoc(before, t, true, i);
      OfPickSnoc(before, t, false, i);
      var all, a, b := Of(Entries(before), i), Of(Pick(before, true), i), Of(Pick(before, false), i);
      assert all + [] == all && a + [] == a && b + [] == b;
      SplitSnoc(all, a, b, t.entry.task);
    }
  }

  /**
   Over every run, each submission to a worker is in exactly one place: released, abandoned, just popped,
   on the reply ring, in the worker's hand, on the task ring, or dropped on a full reply ring.
   */
  lemma EverySubmissionIsAccountedFor(m: Manager, run: seq<Action>, i: nat)
    requires Initial(m) && IsRun(m, run) && i <= THREAD_COUNT
    ensures Inv(After(m, run))
    ensures var m' := After(m, run); var w := m'.workers[i];
            && w.tasks.ring.Valid() && w.replies.ring.Valid()
            && multiset(Of(Routed(m'.submitted), i)) ==
               multiset(Of(Released(m'), i)) + multiset(Of(Abandoned(m'), i)) + multiset(Pending(w))
               + multiset(w.replies.ring.Contents()) + multiset(P.Hand(w)) + multiset(w.tasks.ring.Contents())
               + multiset(P.Dropped(w))
  {
    InitialInv(m);
    EveryRunKeepsInv(m, run);
    var m' := After(m, run);
    assert AgreesAt(m', i);
    P.AcceptedIsPartitioned(m'.workers[i]);
    PickSplits(m'.taken, i);
    hide Of, Routed, Entries, Pick, After, P.Inv, P.Hand, P.Dropped, Ring.Contents, Ring.Valid, Pending;
  }

  // With at most 999 outstanding tasks per worker.

  ghost predicate NoneDropped(m: Manager) {
    forall i :: 0 <= i < |m.workers| ==> P.Dropped(m.workers[i]) == []
  }

  ghost predicate WithinCapacity(m: Manager) {
    forall i :: 0 <= i < |m.workers| ==> P.Outstanding(m.workers[i]) <= MAX_TASK_NUM - 1
  }

  ghost predicate Throttled(m: Manager, run: seq<Action>)
    requires IsRun(m, run)
    decreases |run|
  {
    WithinCapacity(m) && (run == [] || Throttled(Apply(m, run[0]), run[1..]))
  }

  /** The worker a manager step acts on, and the step it takes there. */
  ghost function WorkerAction(m: Manager, a: Action): (nat, P.Action)
    requires Enabled(m, a) && !a.Drain?
  {
    match a
    case Add(key, task) => (WorkerOf(key), P.Submit(task))
    case Main => (CurrentWorker(m), MainCall(m))
    case Work(i) => (i, P.Work)
    case Stop(i) => (i, P.Stop)
  }

  lemma OneWorkerSteps(m: Manager, a: Action)
    requires Enabled(m, a) && !a.Drain?
    ensures var (j, act) := WorkerAction(m, a);
            && j <= THREAD_COUNT && P.Enabled(m.workers[j], act)
            && Apply(m, a).workers == m.workers[j := P.Apply(m.workers[j], act)]
  {
    hide P.Apply;
    assert a.Stop? ==> P.Enabled(m.workers[a.worker], P.Stop);
    hide P.Enabled;
  }

  lemma ThrottledStepDropsNothing(m: Manager, a: Action)
    requires Inv(m) && Enabled(m, a) && NoneDropped(m) && WithinCapacity(m)
    ensures NoneDropped(Apply(m, a))
  {
    if !a.Drain? {
      OneWorkerSteps(m, a);
      var (j, act) := WorkerAction(m, a);
      assert AgreesAt(m, j);
      P.DropsExactlyOnFullReplyRing(m.workers[j], act);
      hide P.Inv, P.Apply, P.Enabled, P.Dropped, P.Outstanding, WorkerAction, Apply, Enabled;
    }
  }

  lemma {:induction false} ThrottledRunDropsNothing(m: Manager, run: seq<Action>)
    requires Inv(m) && NoneDropped(m) && IsRun(m, run) && Throttled(m, run)
    ensures NoneDropped(After(m, run))
    decreases |run|
  {
    hide AgreesAt, NoneDropped, WithinCapacity;
    if run != [] {
      ThrottledStepDropsNothing(m, run[0]);
      EveryStepKeepsInv(m, run[0]);
      ThrottledRunDropsNothing(Apply(m, run[0]), run[1..]);
    }
  }

  lemma {:induction false} NothingAbandonedMeansAllReleased(taken: seq<Taken>)
    requires Pick(taken, false) == []
    ensures Pick(taken, true) == Entries(taken)
  {
    if taken != [] {
      NothingAbandonedMeansAllReleased(taken[..|taken| - 1]);
    }
  }

  /**
   Over throttled runs, with every call of processReplyTask given a count its workers fit in: what a
   worker was given is what it released, then what is still inside it, in order.
   */
  lemma NothingIsLost(m: Manager, run: seq<Action>, i: nat)
    requires Initial(m) && IsRun(m, run) && Throttled(m, run) && WellDrained(m, run) && i <= THREAD_COUNT
    ensures Inv(After(m, run)) && Abandoned(After(m, run)) == []
    ensures var m' := After(m, run); var w := m'.workers[i];
            && w.tasks.ring.Valid() && w.replies.ring.Valid()
            && Of(Routed(m'.submitted), i) ==
               Of(Released(m'), i) + Pending(w) + w.replies.ring.Contents() + P.Hand(w) + w.tasks.ring.Contents()
            && w.executed <= Of(Routed(m'.submitted), i)
  {
    InitialInv(m);
    EveryRunKeepsInv(m, run);
    assert forall j :: 0 <= j < |m.workers| ==> P.Initial(m.workers[j]);
    ThrottledRunDropsNothing(m, run);
    WellDrainedKeepsCovered(m, run);
    var m' := After(m, run);
    NothingAbandonedMeansAllReleased(m'.taken);
    assert AgreesAt(m', i);
    P.NoDropKeepsOrder(m'.workers[i]);
    hide Of, Routed, Entries, Pick, After, P.Inv, P.Hand, P.Dropped, Ring.Contents, Ring.Valid, Pending, Throttled,
         WellDrained, IsRun;
  }

  // The order theorem on log positions.

  lemma {:induction false} OfTakesInOrder(log: seq<Entry>, p: nat)
    requires p < |log|
    ensures |Of(log[..p], log[p].worker)| < |Of(log, log[p].worker)|
    ensures Of(log, log[p].worker)[|Of(log[..p], log[p].worker)|] == log[p].task
    ensures Of(log[..p], log[p].worker) <= Of(log, log[p].worker)
  {
    var n := |log| - 1;
    if p < n {
      OfTakesInOrder(log[..n], p);
      assert log[..n][..p] == log[..p];
    }
  }

  lemma {:induction false} OfComesFromLog(log: seq<Entry>, i: nat, k: nat) returns (p: nat)
    requires k < |Of(log, i)|
    ensures p < |log| && log[p] == Entry(i, Of(log, i)[k]) && |Of(log[..p], i)| == k
  {
    var n := |log| - 1;
    if k < |Of(log[..n], i)| {
      p := OfComesFromLog(log[..n], i, k);
      assert log[..n][..p] == log[..p];
    } else {
      p := n;
    }
  }

  ghost predicate DistinctTasks(subs: seq<Submission>) {
    forall p, q :: 0 <= p < q < |subs| ==> subs[p].task != subs[q].task
  }

  ghost predicate ReleasesArePrefixes(released: seq<Entry>, log: seq<Entry>) {
    forall b :: 0 <= b < |released| ==> Of(released, released[b].worker) <= Of(log, released[b].worker)
  }

  /** Where a released task was submitted: to the same worker, at the same rank. */
  lemma SubmissionOf(released: seq<Entry>, log: seq<Entry>, b: nat) returns (q: nat)
    requires b < |released| && ReleasesArePrefixes(released, log)
    ensures q < |log| && log[q] == released[b]
    ensures |Of(log[..q], released[b].worker)| == |Of(released[..b], released[b].worker)|
  {
    OfTakesInOrder(released, b);
    q := OfComesFromLog(log, released[b].worker, |Of(released[..b], released[b].worker)|);
  }

  lemma EarlierIsReleasedEarlier(released: seq<Entry>, log: seq<Entry>, b: nat, q: nat, p: nat) returns (a: nat)
    requires b < |released| && p < q < |log| && ReleasesArePrefixes(released, log)
    requires log[q] == released[b] && log[p].worker == log[q].worker
    requires |Of(log[..q], log[q].worker)| == |Of(released[..b], log[q].worker)|
    ensures a < b && released[a].task == log[p].task
  {
    var j := released[b].worker;
    OfTakesInOrder(log[..q], p);
    assert log[..q][..p] == log[..p];
    OfTakesInOrder(log, p);
    OfTakesInOrder(released, b);
    hide Of;
    assert Of(released[..b], j)[|Of(log[..p], j)|] == log[p].task;
    a := OfComesFromLog(released[..b], j, |Of(log[..p], j)|);
  }

  lemma ReleasedOnce(released: seq<Entry>, subs: seq<Submission>, b: nat, b': nat)
    requires b < b' < |released| && ReleasesArePrefixes(released, Routed(subs)) && DistinctTasks(subs)
    ensures released[b].task != released[b'].task
  {
    var q := SubmissionOf(released, Routed(subs), b);
    var q' := SubmissionOf(released, Routed(subs), b');
    if released[b].worker == released[b'].worker {
      OfTakesInOrder(released[..b'], b);
      assert released[..b'][..b] == released[..b];
    }
    assert q != q';
  }

  lemma WellDrainedReleasesArePrefixes(m: Manager, run: seq<Action>)
    requires Initial(m) && IsRun(m, run) && Throttled(m, run) && WellDrained(m, run)
    ensures ReleasesArePrefixes(Released(After(m, run)), Routed(After(m, run).submitted))
  {
    InitialInv(m);
    EveryRunKeepsInv(m, run);
    var released := Released(After(m, run));
    hide Of, Routed, AgreesAt, Throttled, WellDrained, IsRun, After, P.Hand, Ring.Contents;
    forall c | 0 <= c < |released|
      ensures Of(released, released[c].worker) <= Of(Routed(After(m, run).submitted), released[c].worker)
    {
      ReleasesAreFromWorkers(After(m, run).taken, true, c);
      NothingIsLost(m, run, released[c].worker);
    }
  }

  lemma {:induction false} ReleasesAreFromWorkers(taken: seq<Taken>, released: bool, c: nat)
    requires forall b :: 0 <= b < |taken| ==> taken[b].entry.worker <= THREAD_COUNT
    requires c < |Pick(taken, released)|
    ensures Pick(taken, released)[c].worker <= THREAD_COUNT
  {
    var n := |taken| - 1;
    if c < |Pick(taken[..n], released)| {
      ReleasesAreFromWorkers(taken[..n], released, c);
    }
  }

  /** Two tasks go the same way: equal hash ids modulo 9, or both without a hash. */
  ghost predicate SameWay(a: Key, b: Key) {
    (a.Hash? && b.Hash? && a.id % 9 == b.id % 9) || (a.NoHash? && b.NoHash?)
  }

  /**
   Over every throttled and well-drained run with distinct tasks: a released task is released at one
   place only, and every task submitted before it with a hash id equal modulo 9, or like it without
   a hash, was released earlier.
   */
  lemma EqualHashesReleaseInOrder(m: Manager, run: seq<Action>, b: nat) returns (q: nat)
    requires Initial(m) && IsRun(m, run) && Throttled(m, run) && WellDrained(m, run)
    requires b < |Released(After(m, run))| && DistinctTasks(After(m, run).submitted)
    ensures var released, subs := Released(After(m, run)), After(m, run).submitted;
            && q < |subs| && subs[q].task == released[b].task
            && released[b].worker == (if subs[q].key.Hash? then subs[q].key.id % 9 else 9)
            && (forall p :: (0 <= p < q && subs[p].key.Hash? && subs[q].key.Hash?
                             && subs[p].key.id % 9 == subs[q].key.id % 9) ==>
                  exists a :: 0 <= a < b && released[a].task == subs[p].task)
            && (forall p :: 0 <= p < q && subs[p].key.NoHash? && subs[q].key.NoHash? ==>
                  exists a :: 0 <= a < b && released[a].task == subs[p].task)
            && (forall b' :: 0 <= b' < |released| && b' != b ==> released[b'].task != released[b].task)
  {
    WellDrainedReleasesArePrefixes(m, run);
    hide IsRun, Throttled, WellDrained, Initial;
    var released, subs := Released(After(m, run)), After(m, run).submitted;
    hide After, Pick, Of;
    q := SubmissionOf(released, Routed(subs), b);
    forall p | 0 <= p < q && SameWay(subs[p].key, subs[q].key)
      ensures exists a :: 0 <= a < b && released[a].task == subs[p].task
    {
      var a := EarlierIsReleasedEarlier(released, Routed(subs), b, q, p);
    }
    forall b' | 0 <= b' < |released| && b' != b ensures released[b'].task != released[b].task {
      ReleasedOnce(released, subs, if b < b' then b else b', if b < b' then b' else b);
    }
  }
}
