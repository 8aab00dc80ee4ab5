/**
 The TimerQueue object of reactor1. Its methods are steps of the timer machine: the ghost `run` is
 the machine run the object has gone through, so the theorems about runs hold of the object.
 */
module TimerQueue {
  import M = TimerMachine
  import S = TimerSafety

  class Timer {
    const id: M.Timer
    var expiration: int

    constructor (id: M.Timer, when: int)
      ensures this.id == id && expiration == when
    {
      this.id := id;
      expiration := when;
    }

    method Restart(now: int)
      modifies this
      ensures expiration == if id.repeat then now + id.delta else 0
    {
      if id.repeat {
        expiration := now + id.delta;
      } else {
        expiration := 0;   // Timestamp::invalid()
      }
    }
  }

  /** An element of timers_: std::pair<Timestamp, Timer*>. */
  datatype Node = Node(when: int, timer: Timer)

  function EntryOf(n: Node): M.Entry {
    M.Entry(n.when, n.timer.id)
  }

  function Entries(nodes: seq<Node>): (es: seq<M.Entry>)
    ensures |es| == |nodes|
    ensures forall i :: 0 <= i < |nodes| ==> es[i] == EntryOf(nodes[i])
  {
    seq(|nodes|, i requires 0 <= i < |nodes| => EntryOf(nodes[i]))
  }

  lemma EntriesOfInsert(nodes: seq<Node>, node: Node, k: nat)
    requires k == M.LowerBound(Entries(nodes), EntryOf(node))
    ensures k <= |nodes|
    ensures Entries(nodes[..k] + [node] + nodes[k..]) == M.Insert(Entries(nodes), EntryOf(node))
  {
    hide M.LowerBound;
  }

  lemma RunSnoc(s: M.State, run: seq<M.Action>, a: M.Action)
    requires M.IsRun(s, run) && M.Enabled(M.After(s, run), a)
    ensures M.IsRun(s, run + [a]) && M.After(s, run + [a]) == M.Apply(M.After(s, run), a)
    ensures M.Asked(s, run + [a]) ==
            M.Asked(s, run) + if a.AddTimer? then [M.Ask(a.when, a.repeat, a.delta, M.After(s, run).clock)] else []
  {
    assert (run + [a])[..|run|] == run;
  }

  lemma BeginFields(s: M.State, lag: nat)
    ensures var k, t := M.DueCount(s.entries, s.clock), M.Apply(s, M.BeginRead(lag));
            && k <= |s.entries| && t.entries == s.entries[k..] && M.InFlight(t) == s.entries[..k]
            && t.phase == M.Handling(s.clock, s.entries[..k], 0, s.created)
            && t.clock == s.clock + lag && t.created == s.created && t.calls == s.calls
            && t.fd == (var fd := M.Elapse(s.fd, s.clock + lag); if fd.Fired? then M.Disarmed else fd)
  {
  }

  lemma {:induction false} FreshAddress(ts: set<Timer>) returns (addr: nat)
    ensures forall t <- ts, n: nat :: n >= addr ==> t.id.addr != M.At(n)
  {
    addr := 0;
    if ts != {} {
      var t :| t in ts;
      addr := FreshAddress(ts - {t});
      addr := if t.id.addr.At? && t.id.addr.n >= addr then t.id.addr.n + 1 else addr;
    }
  }

  predicate Unused(addr: nat, ts: set<Timer>) {
    forall t <- ts :: t.id.addr != M.At(addr)
  }

  /** Where handleRead stands, and the timer callbacks started so far. */
  datatype Handler = Handler(phase: M.Phase, calls: seq<M.Call>)

  /** The callbacks of a batch taken at time `now`, one per timer and in its order. */
  function CallsOf(batch: seq<M.Entry>, now: int): (calls: seq<M.Call>)
    ensures |calls| == |batch|
    ensures forall i :: 0 <= i < |batch| ==> calls[i] == M.Call(batch[i].timer, batch[i].when, now)
  {
    seq(|batch|, i requires 0 <= i < |batch| => M.Call(batch[i].timer, batch[i].when, now))
  }

  /** The first k callbacks of the batch have been started. */
  ghost function BatchStarted(p: Handler, k: nat): Handler {
    if p.phase.Handling? && k <= |p.phase.expired| then
      Handler(p.phase.(ran := k), p.calls + CallsOf(p.phase.expired[..k], p.phase.now))
    else p
  }

  /** The next callback of the batch has been started. */
  ghost function NextStarted(p: Handler): Handler {
    if p.phase.Handling? && p.phase.ran < |p.phase.expired| then
      var e := p.phase.expired[p.phase.ran];
      Handler(p.phase.(ran := p.phase.ran + 1), p.calls + [M.Call(e.timer, e.when, p.phase.now)])
    else p
  }

  lemma BatchStartsOneByOne(p: Handler, k: nat)
    requires p.phase.Handling? && p.phase.ran == 0
    ensures BatchStarted(p, 0) == p
    ensures k <= |p.phase.expired| ==> BatchStarted(p, k).phase == p.phase.(ran := k)
    ensures k < |p.phase.expired| ==> BatchStarted(p, k + 1) == NextStarted(BatchStarted(p, k))
  {
    assert p.calls + CallsOf(p.phase.expired[..0], p.phase.now) == p.calls;
    if k < |p.phase.expired| {
      var e := p.phase.expired[k];
      var before := CallsOf(p.phase.expired[..k], p.phase.now);
      assert CallsOf(p.phase.expired[..k + 1], p.phase.now) == before + [M.Call(e.timer, e.when, p.phase.now)];
      assert (p.calls + before) + [M.Call(e.timer, e.when, p.phase.now)]
          == p.calls + (before + [M.Call(e.timer, e.when, p.phase.now)]);
    }
  }

  /** The callbacks handleRead has to start if it is called after the run: those of the timers due. */
  ghost function DueCalls(start: M.State, run: seq<M.Action>): seq<M.Call> {
    if M.IsRun(start, run) then
      var s := M.After(start, run);
      CallsOf(s.entries[..M.DueCount(s.entries, s.clock)], s.clock)
    else []
  }

  class TimerQueue {
    var timers: seq<Node>        // timers_
    var live: set<Timer>         // the Timer objects allocated and not deleted
    var created: nat
    var fd: M.Timerfd            // the kernel's timerfd and clock
    var clock: int
    ghost const start: M.State
    ghost var run: seq<M.Action>
    ghost var batch: seq<Node>   // the local `expired` of handleRead while it runs

    ghost predicate Running()
      reads this
    {
      M.Initial(start) && M.IsRun(start, run)
    }

    ghost function State(): M.State
      reads this
      requires Running()
    {
      M.After(start, run)
    }

    /** The calls of addTimer so far. */
    ghost function Asks(): seq<M.Ask>
      reads this
    {
      if Running() then M.Asked(start, run) else []
    }

    ghost function Progress(): Handler
      reads this
    {
      if Running() then Handler(State().phase, State().calls) else Handler(M.Idle, [])
    }

    /** The fields are those of machine state s, and every key is its timer's current expiration. */
    ghost predicate Matches(s: M.State)
      reads this, live
    {
      && Entries(timers) == s.entries && Entries(batch) == M.InFlight(s)
      && fd == s.fd && clock == s.clock && created == s.created
      && (forall n <- timers :: n.timer in live && n.timer.expiration == n.when)
      && (forall n <- batch :: n.timer in live && n.timer.expiration == n.when)
    }

    ghost predicate Valid()
      reads this, live
    {
      Running() && Matches(State())
    }

    constructor (clock: int)
      requires clock > 0
      ensures Valid() && Progress() == Handler(M.Idle, []) && live == {} && run == [] && Asks() == []
    {
      this.clock := clock;
      timers, live, created, fd := [], {}, 0, M.Disarmed;
      start := M.State([], M.Disarmed, clock, clock, clock, M.Idle, 0, {}, []);
      run, batch := [], [];
    }

    /** Time passes: the clock moves on and an armed timerfd fires at its deadline. */
    method Elapse() returns (ghost time: int)
      requires Valid()
      modifies this`clock, this`fd, this`run
      ensures Valid() && Progress() == old(Progress())
      ensures M.Enabled(old(State()), M.Tick(time)) && run == old(run) + [M.Tick(time)]
      ensures clock == time >= old(clock)
      ensures Asks() == old(Asks())
    {
      var step: nat :| step >= 0;
      assert M.After(start, run).clock == clock;
      assert M.Enabled(M.After(start, run), M.Tick(clock + step));
      RunSnoc(start, run, M.Tick(clock + step));
      run := run + [M.Tick(clock + step)];
      clock := clock + step;
      fd := M.Elapse(fd, clock);
      time := clock;
    }

    /** insert: the set grows by the timer at its expiration; tells whether its first time changed. */
    method Insert(timer: Timer) returns (earliestChanged: bool)
      modifies this`timers
      ensures earliestChanged == M.EarliestChanges(Entries(old(timers)), timer.expiration)
      ensures Entries(timers) == M.Insert(Entries(old(timers)), M.Entry(timer.expiration, timer.id))
      ensures forall n :: n in timers <==> n in old(timers) || n == Node(timer.expiration, timer)
    {
      earliestChanged := false;
      ghost var before := timers;
      var when := timer.expiration;
      if timers == [] || when < timers[0].when {
        earliestChanged := true;
      }
      var k := M.LowerBound(Entries(timers), M.Entry(when, timer.id));
      EntriesOfInsert(timers, Node(when, timer), k);
      assert before == before[..k] + before[k..];
      timers := timers[..k] + [Node(when, timer)] + timers[k..];
    }

    /** resetTimerfd; time passes between its clock reading and timerfd_settime. */
    method ResetTimerfd(expiration: int) returns (lag: nat)
      modifies this`fd, this`clock
      ensures clock == old(clock) + lag
      ensures fd == M.SetTime(M.HowMuchTimeFromNow(expiration, old(clock)), clock)
    {
      var newValue := M.HowMuchTimeFromNow(expiration, clock);
      lag :| lag >= 0;
      clock := clock + lag;
      fd := M.SetTime(newValue, clock);
    }

    /** The allocator: an address that no live timer has. */
    method Allocate() returns (addr: nat)
      requires Valid()
      ensures !M.AddrInUse(State(), addr)
    {
      ghost var unused := FreshAddress(live);
      assert Unused(unused, live);
      addr :| Unused(addr, live);
      assert Unused(addr, live);
      forall i | 0 <= i < |timers| ensures State().entries[i].timer.addr != M.At(addr) {
        assert timers[i] in timers && timers[i].timer in live;
        assert Entries(timers)[i] == EntryOf(timers[i]);
      }
      forall i | 0 <= i < |batch| ensures M.InFlight(State())[i].timer.addr != M.At(addr) {
        assert batch[i] in batch && batch[i].timer in live && Entries(batch)[i] == EntryOf(batch[i]);
      }
    }

    /** The body of addTimer, on the fields. */
    method Link(ghost s: M.State, when: int, repeat: bool, delta: int, addr: nat) returns (timer: Timer, lag: nat)
      requires Matches(s)
      modifies this`timers, this`live, this`created, this`fd, this`clock
      ensures fresh(timer) && timer.id == M.Timer(M.At(addr), s.created, repeat, delta) && live == old(live) + {timer}
      ensures Matches(M.Apply(s, M.AddTimer(when, repeat, delta, addr, lag))) && clock >= old(clock)
      ensures timer.expiration == when && forall n :: n in timers <==> n in old(timers) || n == Node(when, timer)
    {
      hide M.Insert, M.LowerBound, M.SetTime, M.HowMuchTimeFromNow, Entries;
      ghost var before := timers;
      timer := new Timer(M.Timer(M.At(addr), created, repeat, delta), when);
      live := live + {timer};
      var earliestChanged := Insert(timer);
      lag := 0;
      if earliestChanged {
        lag := ResetTimerfd(timer.expiration);
      }
      created := created + 1;
      forall n | n in timers ensures n.timer in live && n.timer.expiration == n.when {
        assert n in before || n == Node(when, timer);
      }
    }

    method AddTimer(when: int, repeat: bool, delta: int) returns (timer: Timer)
      requires Valid() && (repeat ==> delta >= 0)
      requires Progress().phase.Handling? ==> Progress().phase.ran > 0
      modifies this`timers, this`live, this`created, this`fd, this`clock, this`run
      ensures Valid() && fresh(timer) && live == old(live) + {timer}
      ensures timer.expiration == when && timer.id.repeat == repeat && timer.id.delta == delta
      ensures forall n :: n in timers <==> n in old(timers) || n == Node(when, timer)
      ensures Progress() == old(Progress()) && clock >= old(clock)
      ensures exists addr, lag: nat ::
                && M.Enabled(old(State()), M.AddTimer(when, repeat, delta, addr, lag))
                && timer.id == M.Timer(M.At(addr), old(State()).created, repeat, delta)
                && run == old(run) + [M.AddTimer(when, repeat, delta, addr, lag)]
      ensures Asks() == old(Asks()) + [M.Ask(when, repeat, delta, old(clock))]
    {
      hide M.IsRun, M.After, M.Asked, M.Insert, M.EarliestChanges, M.AddrInUse, Entries;
      var addr := Allocate();
      var lag;
      ghost var s := State();
      timer, lag := Link(s, when, repeat, delta, addr);
      RunSnoc(start, run, M.AddTimer(when, repeat, delta, addr, lag));
      run := run + [M.AddTimer(when, repeat, delta, addr, lag)];
    }

    /** readTimerfd: a fired timerfd yields its eight bytes and is disarmed, any other fails to read. */
    method ReadTimerfd() returns (lag: nat)
      modifies this`fd, this`clock
      ensures clock == old(clock) + lag
      ensures fd == (var now := M.Elapse(old(fd), clock); if now.Fired? then M.Disarmed else now)
    {
      lag :| lag >= 0;
      clock := clock + lag;
      fd := M.Elapse(fd, clock);
      if fd.Fired? {
        fd := M.Disarmed;
      }
    }

    /** getExpired: cuts the set at lower_bound of the sentry. */
    method GetExpired(now: int) returns (expired: seq<Node>)
      modifies this`timers
      ensures |expired| == M.DueCount(Entries(old(timers)), now)
      ensures (forall n <- expired :: n in old(timers)) && (forall n <- timers :: n in old(timers))
      ensures var k := M.DueCount(Entries(old(timers)), now);
              Entries(expired) == Entries(old(timers))[..k] && Entries(timers) == Entries(old(timers))[k..]
    {
      var k := M.DueCount(Entries(timers), now);
      expired := timers[..k];
      timers := timers[k..];
    }

    /** handleRead up to getExpired, on the fields: `now` is taken first, then the timerfd is read. */
    method TakeBatch(ghost s: M.State) returns (now: int, expired: seq<Node>, lag: nat)
      requires Matches(s) && s.phase.Idle?
      modifies this`timers, this`fd, this`clock, this`batch
      ensures Matches(M.Apply(s, M.BeginRead(lag)))
      ensures now == old(clock) && expired == batch
    {
      hide M.DueCount, M.Begin, M.Elapse, M.Apply, M.InFlight, Entries;
      ghost var before := timers;
      now := clock;
      lag := ReadTimerfd();
      expired := GetExpired(now);
      batch := expired;
      BeginFields(s, lag);
      forall n | n in timers || n in expired ensures n.timer in live && n.timer.expiration == n.when {
        assert n in before;
      }
    }

    method BeginRead() returns (now: int, expired: seq<Node>)
      requires Valid() && Progress().phase.Idle?
      modifies this`timers, this`fd, this`clock, this`run, this`batch
      ensures Valid() && expired == batch
      ensures Progress() == Handler(M.Handling(now, Entries(expired), 0, created), old(Progress()).calls)
      ensures CallsOf(Entries(expired), now) == DueCalls(start, old(run))
      ensures exists lag: nat :: run == old(run) + [M.BeginRead(lag)]
      ensures Asks() == old(Asks())
    {
      hide M.IsRun, M.After, M.Asked, M.DueCount, M.Begin, M.Elapse, M.Apply, M.InFlight, Entries;
      var lag;
      ghost var s := State();
      now, expired, lag := TakeBatch(s);
      BeginFields(s, lag);
      RunSnoc(start, run, M.BeginRead(lag));
      run := run + [M.BeginRead(lag)];
    }

    /** it->second->run(): the next callback of the batch starts. */
    ghost method RunNext()
      requires Valid() && Progress().phase.Handling? && Progress().phase.ran < |batch|
      modifies this`run
      ensures Valid() && run == old(run) + [M.RunNext]
      ensures Asks() == old(Asks())
      ensures Progress() == NextStarted(old(Progress()))
      ensures Progress().phase.Handling? && Progress().phase.ran == old(Progress().phase.ran) + 1
    {
      RunSnoc(start, run, M.RunNext);
      run := run + [M.RunNext];
    }

    /** One timer of the batch: restarted and back in the set, or deleted. */
    method PutBackOne(t: Timer, now: int)
      requires t in live && forall n <- timers :: n.timer != t
      modifies this`timers, this`live, t
      ensures live == old(live) - if t.id.repeat then {} else {t}
      ensures Entries(timers) ==
              if t.id.repeat then M.Insert(Entries(old(timers)), M.Entry(now + t.id.delta, t.id))
              else Entries(old(timers))
      ensures forall n <- timers :: n in old(timers) || (t.id.repeat && n == Node(t.expiration, t))
    {
      if t.id.repeat {
        t.Restart(now);
        var _ := Insert(t);
      } else {
        live := live - {t};
      }
    }

    ghost predicate KeysAgree()
      reads this, live
    {
      forall n <- timers :: n.timer in live && n.timer.expiration == n.when
    }

    /** The loop of reset over the batch. */
    method PutBackAll(ghost s: M.State, expired: seq<Node>, now: int)
      requires Matches(s) && expired == batch && S.Ownership(s) && s.phase.Handling?
      modifies this`timers, this`live, live
      ensures Entries(timers) == M.Reinsert(s.entries, s.phase.expired, now)
      ensures KeysAgree() && live <= old(live)
      ensures forall k :: 0 <= k < |expired| ==> (expired[k].timer in live <==> expired[k].timer.id.repeat)
    {
      hide M.Insert, Entries, M.Reinsert;
      StartOfReset(s.entries, s.phase.expired, now);
      for i := 0 to |expired|
        invariant Entries(timers) == M.Reinsert(s.entries, s.phase.expired[..i], now)
        invariant KeysAgree() && live <= old(live)
        invariant forall k :: 0 <= k < i ==> (expired[k].timer in live <==> expired[k].timer.id.repeat)
        invariant forall k :: i <= k < |expired| ==>
                    expired[k].timer in live && expired[k].timer.expiration == expired[k].when
      {
        OthersAreOtherObjects(timers, expired, i, s, now);
        StepOfReset(s.entries, s.phase.expired, now, i);
        ghost var before := timers;
        PutBackOne(expired[i].timer, now);
        forall n | n in timers ensures n.timer in live && n.timer.expiration == n.when {
          assert n in before || n.timer == expired[i].timer;
        }
      }
    }

    /** reset: the batch goes back or is deleted, then the timerfd is armed for the first valid time. */
    method Reset(expired: seq<Node>, now: int)
      requires Valid() && expired == batch
      requires Progress().phase.Handling? && Progress().phase.now == now && Progress().phase.ran == |expired|
      modifies this, live
      ensures Valid() && Progress() == Handler(M.Idle, old(Progress()).calls) && live <= old(live)
      ensures forall k :: 0 <= k < |expired| ==> (expired[k].timer in live <==> expired[k].timer.id.repeat)
      ensures exists lag: nat :: run == old(run) + [M.EndRead(lag)]
      ensures Asks() == old(Asks())
    {
      hide M.IsRun, M.After, M.Asked, M.Reinsert, M.SetTime, M.HowMuchTimeFromNow, M.End, Entries, S.Times, S.WakeUp,
           S.CallHistory, S.CallsPermitQueue, S.CallsPermitBatch;
      ghost var s := State();
      S.EveryRunKeepsInv(start, run);
      hide S.Ownership;
      PutBackAll(s, expired, now);
      var nextExpire := 0;
      if timers != [] {
        nextExpire := timers[0].timer.expiration;
      }
      var lag: nat := 0;
      if nextExpire > 0 {
        lag := ResetTimerfd(nextExpire);
      }
      batch := [];
      EndFields(s, lag);
      RunSnoc(start, run, M.EndRead(lag));
      run := run + [M.EndRead(lag)];
    }
  }

  lemma EndFields(s: M.State, lag: nat)
    requires s.phase.Handling?
    ensures var t, es := M.Apply(s, M.EndRead(lag)), M.Reinsert(s.entries, s.phase.expired, s.phase.now);
            && t.entries == es && M.InFlight(t) == [] && t.phase.Idle? && t.created == s.created && t.calls == s.calls
            && t.clock == s.clock + (if es != [] && es[0].when > 0 then lag else 0)
            && t.fd ==
               if es != [] && es[0].when > 0 then M.SetTime(M.HowMuchTimeFromNow(es[0].when, s.clock), s.clock + lag)
               else s.fd
  {
    hide M.Reinsert, M.SetTime, M.HowMuchTimeFromNow;
  }

  lemma StartOfReset(es: seq<M.Entry>, expired: seq<M.Entry>, now: int)
    ensures M.Reinsert(es, expired[..0], now) == es && expired[..|expired|] == expired
  {
  }

  lemma StepOfReset(es: seq<M.Entry>, expired: seq<M.Entry>, now: int, i: nat)
    requires i < |expired|
    ensures var rest := M.Reinsert(es, expired[..i], now);
            M.Reinsert(es, expired[..i + 1], now) ==
            if expired[i].timer.repeat then M.Insert(rest, S.Next(expired[i], now)) else rest
  {
    assert expired[..i + 1][..i] == expired[..i];
    S.ReinsertUnfolds(es, expired[..i + 1], now, i);
  }

  lemma OthersAreOtherObjects(nodes: seq<Node>, batch: seq<Node>, i: nat, s: M.State, now: int)
    requires i < |batch| && S.Ownership(s) && s.phase.Handling? && Entries(batch) == s.phase.expired
    requires Entries(nodes) == M.Reinsert(s.entries, s.phase.expired[..i], now)
    ensures forall n <- nodes :: n.timer != batch[i].timer
    ensures forall k :: 0 <= k < |batch| && k != i ==> batch[k].timer != batch[i].timer
  {
    var expired := s.phase.expired[..i + 1];
    assert expired[..i] == s.phase.expired[..i];
    S.ReinsertResets(s.entries, expired[..i], now);
    S.NextIsFree(s.entries, expired, now, i, Entries(nodes));
    forall n | n in nodes ensures n.timer != batch[i].timer {
      var j :| 0 <= j < |nodes| && nodes[j] == n;
      assert S.Apart(Entries(nodes)[j], S.Next(expired[i], now));
    }
    forall k | 0 <= k < |batch| && k != i ensures batch[k].timer != batch[i].timer {
      assert if k < i then S.Apart(s.phase.expired[k], s.phase.expired[i])
             else S.Apart(s.phase.expired[i], s.phase.expired[k]);
    }
  }
}
