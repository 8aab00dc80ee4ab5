/**
 reactor1/Mutex.h: MutexLock keeps the owner's thread id beside a pthread mutex. The id is written
 after the mutex is taken and cleared before it is released; any number of threads interleave.
 */
module HolderMutex {
  import opened Options

  datatype Pc =
    | Outside    // before lock, or after unlock
    | Taken      // pthread_mutex_lock returned, holder_ not yet stored
    | Inside     // holder_ stored: lock has returned
    | Cleared    // unlock cleared holder_, pthread_mutex_unlock not yet called

  /** tids are the kernel's thread ids: positive and distinct. */
  datatype State = State(tids: seq<nat>, owner: Option<nat>, holder: nat, pcs: seq<Pc>)

  /** One micro-step of thread i. */
  datatype Action = LockMutex(i: nat) | StoreHolder(i: nat) | ClearHolder(i: nat) | UnlockMutex(i: nat)

  ghost predicate Initial(s: State) {
    && |s.tids| == |s.pcs| && s.owner == None && s.holder == 0
    && (forall i :: 0 <= i < |s.tids| ==> s.tids[i] > 0 && s.pcs[i] == Outside)
    && (forall i, j :: 0 <= i < j < |s.tids| ==> s.tids[i] != s.tids[j])
  }

  predicate Enabled(s: State, a: Action) {
    && a.i < |s.pcs| && |s.tids| == |s.pcs|
    && match a
       case LockMutex(i) => s.pcs[i].Outside? && s.owner == None
       case StoreHolder(i) => s.pcs[i].Taken?
       case ClearHolder(i) => s.pcs[i].Inside?
       case UnlockMutex(i) => s.pcs[i].Cleared?
  }

  function Apply(s: State, a: Action): State
    requires Enabled(s, a)
  {
    match a
    case LockMutex(i) => s.(owner := Some(i), pcs := s.pcs[i := Taken])
    case StoreHolder(i) => s.(holder := s.tids[i], pcs := s.pcs[i := Inside])
    case ClearHolder(i) => s.(holder := 0, pcs := s.pcs[i := Cleared])
    case UnlockMutex(i) => s.(owner := None, pcs := s.pcs[i := Outside])
  }

  predicate IsLockedByThisThread(s: State, i: nat)
    requires i < |s.tids|
  {
    s.holder == s.tids[i]
  }

  ghost predicate IsRun(s: State, run: seq<Action>)
    decreases |run|
  {
    run == [] || (Enabled(s, run[0]) && IsRun(Apply(s, run[0]), run[1..]))
  }

  ghost function After(s: State, run: seq<Action>): State
    requires IsRun(s, run)
    decreases |run|
  {
    if run == [] then s else After(Apply(s, run[0]), run[1..])
  }

  ghost predicate Inv(s: State) {
    && |s.tids| == |s.pcs|
    && (forall i :: 0 <= i < |s.tids| ==> s.tids[i] > 0)
    && (forall i, j :: 0 <= i < j < |s.tids| ==> s.tids[i] != s.tids[j])
    && (s.owner.Some? ==> s.owner.value < |s.pcs|)
    && (forall i :: 0 <= i < |s.pcs| ==> (s.pcs[i].Outside? <==> s.owner != Some(i)))
    && s.holder == if s.owner.Some? && s.pcs[s.owner.value].Inside? then s.tids[s.owner.value] else 0
  }

  lemma {:induction false} EveryRunKeepsInv(s: State, run: seq<Action>)
    requires Inv(s) && IsRun(s, run)
    ensures Inv(After(s, run))
    decreases |run|
  {
    if run != [] {
      EveryRunKeepsInv(Apply(s, run[0]), run[1..]);
    }
  }

  /** At every point of every run, whatever the other threads are doing. */
  lemma HolderIsExact(s: State, run: seq<Action>, i: nat)
    requires Initial(s) && IsRun(s, run) && i < |After(s, run).tids| == |After(s, run).pcs|
    ensures var t := After(s, run);
            && (IsLockedByThisThread(t, i) <==> t.pcs[i].Inside?)
            && (forall j :: 0 <= j < |t.pcs| && j != i && t.pcs[i] != Outside ==> t.pcs[j] == Outside)
            && (t.owner == None ==> t.holder == 0)
  {
    EveryRunKeepsInv(s, run);
  }
}
