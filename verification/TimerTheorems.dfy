/** The promises of the timer queue, over every run of the machine and for any callbacks. */
module TimerTheorems {
  import opened TimerMachine
  import opened TimerSafety

  /**
   Between events a pending timer always has a wake-up: the timerfd is readable, or armed for the first
   timer at the latest, for 100us after the last arming if that is later, plus that arming's own delay.
   */
  lemma PendingTimersAlwaysHaveAWakeUp(s: State, run: seq<Action>)
    requires Initial(s) && IsRun(s, run) && After(s, run).phase.Idle? && After(s, run).entries != []
    ensures Guarded(After(s, run))
  {
    EveryRunKeepsInv(s, run);
  }

  /** So once that time has come the timerfd is readable, and handling it takes the first timer. */
  lemma TheWakeUpRunsTheFirstTimer(s: State, run: seq<Action>, time: int, lag: nat)
    requires Initial(s) && IsRun(s, run) && After(s, run).phase.Idle? && After(s, run).entries != []
    requires var t := After(s, run);
             && time >= t.clock
             && time >= t.entries[0].when + (t.setAt - t.readAt) && time >= t.readAt + 100 + (t.setAt - t.readAt)
    ensures var t := Apply(After(s, run), Tick(time));
            && t.fd == Fired
            && Begin(t, lag).phase.Handling? && |Begin(t, lag).phase.expired| > 0
            && Begin(t, lag).phase.expired[0] == After(s, run).entries[0]
  {
    EveryRunKeepsInv(s, run);
    var t := Apply(After(s, run), Tick(time));
    EveryStepKeepsInv(After(s, run), Tick(time));
    BatchIsWhatIsDue(t, lag);
    assert t.entries[0] in Begin(t, lag).phase.expired;
  }

  /**
   No callback runs before its timer's expiration, and two runs of one timer are of a repeating timer
   and at least its interval apart; so a one-shot timer runs at most once.
   */
  lemma CallsAreOnTimeAndApart(s: State, run: seq<Action>)
    requires Initial(s) && IsRun(s, run)
    ensures var calls := After(s, run).calls;
            && (forall i :: 0 <= i < |calls| ==> calls[i].due <= calls[i].at)
            && (forall i, j :: 0 <= i < j < |calls| && calls[i].timer.serial == calls[j].timer.serial ==>
                  calls[j].timer.repeat && calls[j].at >= calls[i].at + calls[j].timer.delta)
  {
    EveryRunKeepsInv(s, run);
    var calls := After(s, run).calls;
    forall i, j | 0 <= i < j < |calls| && calls[i].timer.serial == calls[j].timer.serial
      ensures calls[j].timer.repeat && calls[j].at >= calls[i].at + calls[j].timer.delta
    {
      assert Permits(calls[i], calls[j].timer, calls[j].at);
    }
  }

  /** Every timer ever created is pending, in the batch being handled, or freed: exactly one of the three. */
  lemma EachTimerHasOneOwner(s: State, run: seq<Action>, serial: nat)
    requires Initial(s) && IsRun(s, run) && serial < After(s, run).created
    ensures var t := After(s, run);
            var pending, handled := serial in Serials(t.entries), serial in Serials(InFlight(t));
            && (pending || handled || serial in t.freed)
            && !(pending && handled) && !(pending && serial in t.freed) && !(handled && serial in t.freed)
  {
    EveryRunKeepsInv(s, run);
    SerialsDisjoint(After(s, run).entries, InFlight(After(s, run)));
  }

  /** Hence the assertion in insert cannot fail, wherever a callback adds a timer. */
  lemma AddTimerMeetsNoEqualEntry(s: State, run: seq<Action>, when: int, repeat: bool, delta: int, addr: nat, lag: nat)
    requires Initial(s) && IsRun(s, run) && Enabled(After(s, run), AddTimer(when, repeat, delta, addr, lag))
    ensures var t := After(s, run);
            Entry(when, Timer(At(addr), t.created, repeat, delta)) !in t.entries
  {
    EveryRunKeepsInv(s, run);
    var t := After(s, run);
    NewEntryIsFree(t, when, Timer(At(addr), t.created, repeat, delta));
    InsertKeepsOrder(t.entries, Entry(when, Timer(At(addr), t.created, repeat, delta)));
  }

  /** addTimer arms the timerfd exactly for a new first timer: for its time, at least 100us ahead. */
  lemma AddTimerArmsForANewFirst(s: State, when: int, repeat: bool, delta: int, addr: nat, lag: nat)
    ensures Apply(s, AddTimer(when, repeat, delta, addr, lag)).fd ==
            if s.entries == [] || when < s.entries[0].when
            then Armed(s.clock + lag + if when - s.clock < 100 then 100 else when - s.clock) else s.fd
  {
    TimeSpecIsExact(when, s.clock, s.clock + lag);
  }

  /** reset arms it exactly for a first timer after time 0. */
  lemma ResetArmsForAValidFirst(s: State, lag: nat)
    requires s.phase.Handling?
    ensures var es := End(s, lag).entries;
            End(s, lag).fd ==
            if es != [] && es[0].when > 0
            then Armed(s.clock + lag + if es[0].when - s.clock < 100 then 100 else es[0].when - s.clock) else s.fd
  {
    var es := Reinsert(s.entries, s.phase.expired, s.phase.now);
    hide Reinsert;
    if es != [] {
      TimeSpecIsExact(es[0].when, s.clock, s.clock + lag);
    }
  }

  /** getExpired takes exactly the timers due now, in order, and leaves exactly the others. */
  lemma GetExpiredIsTheDueFilter(s: State, run: seq<Action>, lag: nat)
    requires Initial(s) && IsRun(s, run) && After(s, run).phase.Idle?
    ensures var t := After(s, run); var b := Begin(t, lag);
            && t.entries == b.phase.expired + b.entries && Sorted(t.entries)
            && (forall e <- b.phase.expired :: e.when <= t.clock)
            && (forall e <- b.entries :: e.when > t.clock)
  {
    EveryRunKeepsInv(s, run);
    BatchIsWhatIsDue(After(s, run), lag);
  }

  /**
   After reset a timer still due at handleRead's `now` was either added by a callback of the batch or
   repeats with an interval that truncates to zero microseconds; and every such repeating timer is due.
   */
  lemma NothingElseIsDueAfterReset(s: State, run: seq<Action>, lag: nat, e: Entry)
    requires Initial(s) && IsRun(s, run) && Enabled(After(s, run), EndRead(lag))
    requires e in End(After(s, run), lag).entries
    ensures var t := After(s, run);
            && (e.timer.serial < t.phase.since ==>
                  (e.when <= t.phase.now <==> PutBack(e, t.phase.expired, t.phase.now) && e.timer.delta == 0))
            && (e.timer.serial >= t.phase.since ==> e in t.entries)
  {
    EveryRunKeepsInv(s, run);
    var t := After(s, run);
    EndResets(t, lag);
    if PutBack(e, t.phase.expired, t.phase.now) {
      var x :| x in t.phase.expired && x.timer.repeat && e == Next(x, t.phase.now);
      assert x in t.entries + InFlight(t);
      var i :| 0 <= i < |t.phase.expired| && t.phase.expired[i] == x;
      assert t.phase.expired[i].timer.serial < t.phase.since;
    }
  }

  /** A one-shot timer of the batch is freed as the batch ends. */
  lemma OneShotsAreFreedWithTheirBatch(s: State, run: seq<Action>, lag: nat, m: nat)
    requires Initial(s) && IsRun(s, run) && Enabled(After(s, run), EndRead(lag))
    requires m < |After(s, run).phase.expired| && !After(s, run).phase.expired[m].timer.repeat
    ensures var t := End(After(s, run), lag); var serial := After(s, run).phase.expired[m].timer.serial;
            serial in t.freed && serial !in Serials(t.entries)
  {
    EveryRunKeepsInv(s, run);
    var t := After(s, run);
    EndResets(t, lag);
    EveryStepKeepsInv(t, EndRead(lag));
    assert t.phase.expired[m].timer.serial in OneShots(t.phase.expired);
  }

  lemma OneMore(s: State, run: seq<Action>, a: Action) returns (run': seq<Action>, t: State)
    requires IsRun(s, run) && Enabled(After(s, run), a)
    ensures IsRun(s, run') && t == After(s, run') == Apply(After(s, run), a)
  {
    run' := run + [a];
    assert run'[..|run|] == run;
    t := After(s, run');
  }

  /** A repeating timer whose interval truncates to zero is due again as soon as its callback has run. */
  lemma ZeroIntervalIsDueAgain(s: State) returns (run: seq<Action>)
    requires Initial(s)
    ensures IsRun(s, run) && Enabled(After(s, run), EndRead(0))
    ensures var t := After(s, run);
            && |t.phase.expired| == 1 && End(t, 0).entries == [Entry(t.phase.now, t.phase.expired[0].timer)]
            && t.phase.expired[0].timer.repeat && t.phase.expired[0].timer.delta == 0
            && |t.calls| == 1
  {
    hide IsRun, After;
    assert IsRun(s, []) && After(s, []) == s by {
      EmptyRun(s);
    }
    var t: State;
    run, t := OneMore(s, [], AddTimer(s.clock, true, 0, 0, 0));
    var timer := Timer(At(0), 0, true, 0);
    assert t.entries == [Entry(s.clock, timer)];
    var now := t.clock;
    run, t := OneMore(s, run, BeginRead(0));
    assert DueCount([Entry(s.clock, timer)], now) == 1;
    assert t.phase.expired == [Entry(s.clock, timer)] && t.entries == [];
    run, t := OneMore(s, run, RunNext);
    assert Reinsert([], [], now) == [];
    assert t.phase.expired[..0] == [];
    assert Reinsert([], t.phase.expired, now) == [Entry(now, timer)];
  }

  lemma EmptyRun(s: State)
    ensures IsRun(s, []) && After(s, []) == s
  {
  }
}
