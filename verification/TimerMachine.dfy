/**
 The timer queue of reactor1/TimerQueue.cpp over one one-shot timerfd, as a machine whose runs are
 sequences of actions: time passing, addTimer at any moment, and handleRead callback by callback.
 */
module TimerMachine {
  const MICROS_PER_SECOND: int := 1000 * 1000

  // Arming the timerfd.

  datatype TimeSpec = TimeSpec(sec: int, nsec: int)

  /** `when` and `now` are microseconds since the epoch. */
  function HowMuchTimeFromNow(when: int, now: int): TimeSpec {
    var microseconds := if when - now < 100 then 100 else when - now;
    TimeSpec(microseconds / MICROS_PER_SECOND, (microseconds % MICROS_PER_SECOND) * 1000)
  }

  /** A one-shot timerfd; it is readable when Fired. */
  datatype Timerfd = Disarmed | Armed(deadline: int) | Fired

  /** timerfd_settime at time `at`: a zero value disarms. */
  function SetTime(ts: TimeSpec, at: int): Timerfd {
    if ts.sec == 0 && ts.nsec == 0 then Disarmed else Armed(at + ts.sec * 1_000_000 + ts.nsec / 1000)
  }

  /** The time specification is normalised, is never zero, and stands for at least 100 microseconds. */
  lemma TimeSpecIsExact(when: int, now: int, at: int)
    ensures var ts := HowMuchTimeFromNow(when, now);
            && ts.sec >= 0 && 0 <= ts.nsec < 1_000_000_000
            && ts.sec * 1_000_000_000 + ts.nsec == 1000 * (if when - now < 100 then 100 else when - now)
            && SetTime(ts, at) == Armed(at + if when - now < 100 then 100 else when - now)
  {
    var m := if when - now < 100 then 100 else when - now;
    assert m == (m / MICROS_PER_SECOND) * MICROS_PER_SECOND + m % MICROS_PER_SECOND;
  }

  // Timers.

  /** Pointer values; Sentry is UINTPTR_MAX, above every allocated address. */
  datatype Address = At(n: nat) | Sentry

  predicate Lower(a: Address, b: Address) {
    a.At? && (b.At? ==> a.n < b.n)
  }

  /**
   A timer object: its address, which decides ties in the set, a serial number that tells it from a
   later object at the same address, and its interval in whole microseconds, 0 <= delta if it repeats.
   */
  datatype Timer = Timer(addr: Address, serial: nat, repeat: bool, delta: int)

  datatype Entry = Entry(when: int, timer: Timer)

  /** The order of std::pair<Timestamp, Timer*>. */
  predicate Before(a: Entry, b: Entry) {
    a.when < b.when || (a.when == b.when && Lower(a.timer.addr, b.timer.addr))
  }

  ghost predicate Sorted(es: seq<Entry>) {
    forall i, j :: 0 <= i < j < |es| ==> Before(es[i], es[j])
  }

  /** How many entries of the sorted set come before e. */
  function LowerBound(es: seq<Entry>, e: Entry): (k: nat)
    ensures k <= |es|
    ensures forall i :: 0 <= i < k ==> Before(es[i], e)
    ensures k < |es| ==> !Before(es[k], e)
  {
    if es == [] || !Before(es[0], e) then 0 else 1 + LowerBound(es[1..], e)
  }

  function Insert(es: seq<Entry>, e: Entry): seq<Entry> {
    var k := LowerBound(es, e);
    es[..k] + [e] + es[k..]
  }

  /** `timers_.begin()` changes: the condition under which addTimer arms the timerfd. */
  predicate EarliestChanges(es: seq<Entry>, when: int) {
    es == [] || when < es[0].when
  }

  /** How many entries getExpired takes: lower_bound of the sentry (now, greatest pointer). */
  function DueCount(es: seq<Entry>, now: int): nat {
    LowerBound(es, Entry(now, Timer(Sentry, 0, false, 0)))
  }

  /** The entries reset puts back: the repeating timers of the batch, one interval after `now`. */
  function Reinsert(es: seq<Entry>, expired: seq<Entry>, now: int): seq<Entry> {
    if expired == [] then es
    else
      var rest := Reinsert(es, expired[..|expired| - 1], now);
      var t := expired[|expired| - 1].timer;
      if t.repeat then Insert(rest, Entry(now + t.delta, t)) else rest
  }

  // The machine.

  datatype Phase =
    | Idle
    // in handleRead: `ran` callbacks have been started, `since` timers had been created before
    | Handling(now: int, expired: seq<Entry>, ran: nat, since: nat)

  /** One callback run: timer, its expiration, and the time handleRead took at its start. */
  datatype Call = Call(timer: Timer, due: int, at: int)

  datatype State = State(
    entries: seq<Entry>, fd: Timerfd,
    readAt: int, setAt: int,       // when the last arming read the clock, and when it set the timerfd
    clock: int, phase: Phase, created: nat, freed: set<nat>, calls: seq<Call>)

  datatype Action =
    | Tick(time: int)
    | AddTimer(when: int, repeat: bool, delta: int, addr: nat, lag: nat)
    | BeginRead(lag: nat)      // handleRead up to getExpired
    | RunNext
    | EndRead(lag: nat)        // reset
    // lag is the time between a reading of the clock and the timerfd call that follows it

  ghost predicate Initial(s: State) {
    && s.entries == [] && s.fd == Disarmed && s.clock > 0 && s.readAt == s.setAt == s.clock
    && s.phase == Idle && s.created == 0 && s.freed == {} && s.calls == []
  }

  /** Timers that exist: in the set or in the batch being handled. */
  function InFlight(s: State): seq<Entry> {
    if s.phase.Handling? then s.phase.expired else []
  }

  ghost predicate AddrInUse(s: State, addr: nat) {
    (exists i :: 0 <= i < |s.entries| && s.entries[i].timer.addr == At(addr))
    || (exists i :: 0 <= i < |InFlight(s)| && InFlight(s)[i].timer.addr == At(addr))
  }

  ghost predicate Enabled(s: State, a: Action) {
    match a
    case Tick(time) => time >= s.clock
    case AddTimer(when, repeat, delta, addr, lag) =>
      && (repeat ==> delta >= 0)
      && !AddrInUse(s, addr)                          // the allocator returns fresh memory
      && (s.phase.Handling? ==> s.phase.ran > 0)      // called from the running callback
    case BeginRead(_) => s.phase.Idle?
    case RunNext => s.phase.Handling? && s.phase.ran < |s.phase.expired|
    case EndRead(_) => s.phase.Handling? && s.phase.ran == |s.phase.expired|
  }

  function Elapse(fd: Timerfd, time: int): Timerfd {
    if fd.Armed? && fd.deadline <= time then Fired else fd
  }

  /** resetTimerfd: the clock is read at s.clock, the timerfd set `lag` later. */
  function Arm(s: State, expiration: int, lag: nat): State {
    s.(fd := SetTime(HowMuchTimeFromNow(expiration, s.clock), s.clock + lag),
       readAt := s.clock, setAt := s.clock + lag, clock := s.clock + lag)
  }

  function Add(s: State, when: int, timer: Timer, lag: nat): State {
    var s' := s.(entries := Insert(s.entries, Entry(when, timer)), created := s.created + 1);
    if EarliestChanges(s.entries, when) then Arm(s', when, lag) else s'
  }

  /** now() at s.clock, the read of the timerfd `lag` later: it clears a fired timerfd and no other. */
  function Begin(s: State, lag: nat): State {
    var fd := Elapse(s.fd, s.clock + lag);
    var k := DueCount(s.entries, s.clock);
    s.(fd := if fd.Fired? then Disarmed else fd, clock := s.clock + lag,
       entries := s.entries[k..], phase := Handling(s.clock, s.entries[..k], 0, s.created))
  }

  function OneShots(expired: seq<Entry>): set<nat> {
    set i | 0 <= i < |expired| && !expired[i].timer.repeat :: expired[i].timer.serial
  }

  function End(s: State, lag: nat): State
    requires s.phase.Handling?
  {
    var es := Reinsert(s.entries, s.phase.expired, s.phase.now);
    var s' := s.(entries := es, phase := Idle, freed := s.freed + OneShots(s.phase.expired));
    if es != [] && es[0].when > 0 then Arm(s', es[0].when, lag) else s'
  }

  function Apply(s: State, a: Action): State
    requires a.RunNext? || a.EndRead? ==> s.phase.Handling?
    requires a.RunNext? ==> s.phase.ran < |s.phase.expired|
  {
    match a
    case Tick(time) => s.(clock := time, fd := Elapse(s.fd, time))
    case AddTimer(when, repeat, delta, addr, lag) => Add(s, when, Timer(At(addr), s.created, repeat, delta), lag)
    case BeginRead(lag) => Begin(s, lag)
    case RunNext =>
      var e := s.phase.expired[s.phase.ran];
      s.(calls := s.calls + [Call(e.timer, e.when, s.phase.now)], phase := s.phase.(ran := s.phase.ran + 1))
    case EndRead(lag) => End(s, lag)
  }

  /** The state after a run, built from its end: a run grows by one action at a time. */
  ghost predicate IsRun(s: State, run: seq<Action>)
    decreases |run|, 0
  {
    run == [] || (IsRun(s, run[..|run| - 1]) && Enabled(After(s, run[..|run| - 1]), run[|run| - 1]))
  }

  ghost function After(s: State, run: seq<Action>): State
    requires IsRun(s, run)
    decreases |run|, 1
  {
    if run == [] then s else Apply(After(s, run[..|run| - 1]), run[|run| - 1])
  }

  /** A call of addTimer with its arguments, and the clock when it was made. */
  datatype Ask = Ask(when: int, repeat: bool, delta: int, clock: int)

  /** The calls of addTimer in a run, in order. */
  ghost function Asked(s: State, run: seq<Action>): seq<Ask>
    requires IsRun(s, run)
    decreases |run|
  {
    if run == [] then []
    else
      var before, a := run[..|run| - 1], run[|run| - 1];
      Asked(s, before) + if a.AddTimer? then [Ask(a.when, a.repeat, a.delta, After(s, before).clock)] else []
  }
}
