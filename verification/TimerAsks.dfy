/** From the calls of addTimer to the callbacks: every run of the timer machine does what it was asked. */
module TimerAsks {
  import opened TimerMachine
  import opened TimerSafety

  ghost predicate Called(calls: seq<Call>, serial: nat) {
    exists i :: 0 <= i < |calls| && calls[i].timer.serial == serial
  }

  /** The timer is that of its addTimer call. */
  ghost predicate IsAsked(timer: Timer, asks: seq<Ask>) {
    && timer.serial < |asks|
    && timer.repeat == asks[timer.serial].repeat && timer.delta == asks[timer.serial].delta
  }

  /** An entry for the time asked, or for a later run of a timer that has been called. */
  ghost predicate EntryAsked(e: Entry, asks: seq<Ask>, calls: seq<Call>) {
    && IsAsked(e.timer, asks) && e.when >= asks[e.timer.serial].when
    && (e.when == asks[e.timer.serial].when || Called(calls, e.timer.serial))
  }

  /** A call made not before the time asked; the first call of a timer is the one due at that time. */
  ghost predicate CallAsked(calls: seq<Call>, k: nat, asks: seq<Ask>)
    requires k < |calls|
  {
    var c := calls[k];
    && IsAsked(c.timer, asks) && asks[c.timer.serial].when <= c.due <= c.at
    && (c.due == asks[c.timer.serial].when || Called(calls[..k], c.timer.serial))
  }

  ghost predicate CallsAsked(calls: seq<Call>, asks: seq<Ask>) {
    forall k :: 0 <= k < |calls| ==> CallAsked(calls, k, asks)
  }

  ghost predicate EntriesAsked(es: seq<Entry>, asks: seq<Ask>, calls: seq<Call>) {
    forall e <- es :: EntryAsked(e, asks, calls)
  }

  /** The timers of the batch whose turn has come have been called. */
  ghost predicate BatchCalled(s: State) {
    s.phase.Handling? ==>
      forall m :: 0 <= m < s.phase.ran && m < |s.phase.expired| ==> Called(s.calls, s.phase.expired[m].timer.serial)
  }

  ghost predicate FreedAsked(s: State, asks: seq<Ask>) {
    forall n <- s.freed :: n < |asks| && !asks[n].repeat && Called(s.calls, n)
  }

  ghost predicate Answers(s: State, asks: seq<Ask>) {
    && |asks| == s.created
    && EntriesAsked(s.entries, asks, s.calls) && EntriesAsked(InFlight(s), asks, s.calls)
    && CallsAsked(s.calls, asks) && BatchCalled(s) && FreedAsked(s, asks)
  }

  // More asks and more calls.

  lemma EntriesStayAsked(es: seq<Entry>, asks: seq<Ask>, calls: seq<Call>, asks': seq<Ask>, calls': seq<Call>)
    requires EntriesAsked(es, asks, calls) && asks <= asks' && calls <= calls'
    ensures EntriesAsked(es, asks', calls')
  {
    forall e | e in es ensures EntryAsked(e, asks', calls') {
      assert EntryAsked(e, asks, calls);
      CalledStays(calls, calls', e.timer.serial);
    }
  }

  lemma CalledStays(calls: seq<Call>, calls': seq<Call>, n: nat)
    requires calls <= calls'
    ensures Called(calls, n) ==> Called(calls', n)
  {
    if i :| 0 <= i < |calls| && calls[i].timer.serial == n {
      assert calls'[i] == calls[i];
    }
  }

  lemma CallsStayAsked(calls: seq<Call>, asks: seq<Ask>, asks': seq<Ask>)
    requires CallsAsked(calls, asks) && asks <= asks'
    ensures CallsAsked(calls, asks')
  {
    forall k | 0 <= k < |calls| ensures CallAsked(calls, k, asks') {
      assert CallAsked(calls, k, asks);
    }
  }

  // Steps.

  lemma AddAnswers(s: State, asks: seq<Ask>, when: int, repeat: bool, delta: int, addr: nat, lag: nat)
    requires Inv(s) && Answers(s, asks) && Enabled(s, AddTimer(when, repeat, delta, addr, lag))
    ensures Answers(Apply(s, AddTimer(when, repeat, delta, addr, lag)), asks + [Ask(when, repeat, delta, s.clock)])
  {
    var timer := Timer(At(addr), s.created, repeat, delta);
    var asks' := asks + [Ask(when, repeat, delta, s.clock)];
    var s' := Add(s, when, timer, lag);
    InsertMembers(s.entries, Entry(when, timer));
    assert s'.entries == Insert(s.entries, Entry(when, timer)) && s'.calls == s.calls && s'.phase == s.phase
           && s'.freed == s.freed && s'.created == s.created + 1;
    hide Inv, Insert, Add, Called;
    EntriesStayAsked(s.entries, asks, s.calls, asks', s.calls);
    EntriesStayAsked(InFlight(s), asks, s.calls, asks', s.calls);
    CallsStayAsked(s.calls, asks, asks');
    hide CallsAsked;
    assert EntryAsked(Entry(when, timer), asks', s.calls);
  }

  lemma BeginAnswers(s: State, asks: seq<Ask>, lag: nat)
    requires Inv(s) && Answers(s, asks) && s.phase.Idle?
    ensures Answers(Begin(s, lag), asks)
  {
    var k, s' := DueCount(s.entries, s.clock), Begin(s, lag);
    assert s'.entries == s.entries[k..] && InFlight(s') == s.entries[..k];
    hide Inv, DueCount, EntryAsked, CallsAsked, Called;
  }

  lemma CallsGrow(calls: seq<Call>, c: Call, asks: seq<Ask>)
    requires CallsAsked(calls, asks) && IsAsked(c.timer, asks) && asks[c.timer.serial].when <= c.due <= c.at
    requires c.due == asks[c.timer.serial].when || Called(calls, c.timer.serial)
    ensures CallsAsked(calls + [c], asks)
  {
    hide Called, IsAsked;
    var calls' := calls + [c];
    forall k | 0 <= k < |calls'| ensures CallAsked(calls', k, asks) {
      if k < |calls| {
        assert CallAsked(calls, k, asks) && calls'[..k] == calls[..k];
      } else {
        assert calls'[..k] == calls;
      }
    }
  }

  lemma NextEntry(s: State, asks: seq<Ask>)
    requires Inv(s) && Answers(s, asks) && Enabled(s, RunNext)
    ensures EntryAsked(s.phase.expired[s.phase.ran], asks, s.calls)
    ensures s.phase.expired[s.phase.ran].when <= s.phase.now
  {
    assert s.phase.expired[s.phase.ran] in InFlight(s);
    hide EntryAsked, CallsAsked, Called;
  }

  lemma BatchStaysCalled(s: State, asks: seq<Ask>)
    requires Answers(s, asks) && Enabled(s, RunNext)
    ensures BatchCalled(Apply(s, RunNext))
  {
    var calls' := s.calls + [NextCall(s)];
    forall m | 0 <= m <= s.phase.ran ensures Called(calls', s.phase.expired[m].timer.serial) {
      CalledStays(s.calls, calls', s.phase.expired[m].timer.serial);
      assert calls'[|s.calls|] == NextCall(s);
    }
    hide EntryAsked, CallsAsked, Called;
  }

  lemma RunAnswers(s: State, asks: seq<Ask>)
    requires Inv(s) && Answers(s, asks) && Enabled(s, RunNext)
    ensures Answers(Apply(s, RunNext), asks)
  {
    var calls' := s.calls + [NextCall(s)];
    assert Apply(s, RunNext) == s.(calls := calls', phase := s.phase.(ran := s.phase.ran + 1));
    NextEntry(s, asks);
    BatchStaysCalled(s, asks);
    CallsGrow(s.calls, NextCall(s), asks);
    EntriesStayAsked(s.entries, asks, s.calls, asks, calls');
    EntriesStayAsked(InFlight(s), asks, s.calls, asks, calls');
    hide Inv, EntriesAsked, CallsAsked, BatchCalled, Called, NextCall;
    forall n | n in s.freed ensures Called(calls', n) {
      CalledStays(s.calls, calls', n);
    }
  }

  /** What reset puts back or frees has been called. */
  lemma BatchEntry(s: State, asks: seq<Ask>, x: Entry)
    requires Inv(s) && Answers(s, asks) && s.phase.Handling? && s.phase.ran == |s.phase.expired|
    requires x in s.phase.expired
    ensures IsAsked(x.timer, asks) && Called(s.calls, x.timer.serial)
    ensures asks[x.timer.serial].when <= x.when <= s.phase.now && (x.timer.repeat ==> x.timer.delta >= 0)
  {
    var m :| 0 <= m < |s.phase.expired| && s.phase.expired[m] == x;
    assert x in InFlight(s) && EntryAsked(x, asks, s.calls);
    assert x in s.entries + InFlight(s);
  }

  lemma ResetEntriesAsked(s: State, asks: seq<Ask>, lag: nat)
    requires Inv(s) && Answers(s, asks) && Enabled(s, EndRead(lag))
    ensures EntriesAsked(End(s, lag).entries, asks, s.calls)
  {
    EndResets(s, lag);
    forall e | e in End(s, lag).entries ensures EntryAsked(e, asks, s.calls) {
      if e !in s.entries {
        assert PutBack(e, s.phase.expired, s.phase.now);
        var x :| x in s.phase.expired && x.timer.repeat && e == Next(x, s.phase.now);
        BatchEntry(s, asks, x);
      }
    }
  }

  lemma FreedStayAsked(s: State, asks: seq<Ask>, lag: nat)
    requires Inv(s) && Answers(s, asks) && Enabled(s, EndRead(lag))
    ensures forall n <- s.freed + OneShots(s.phase.expired) :: n < |asks| && !asks[n].repeat && Called(s.calls, n)
  {
    forall n | n in s.freed + OneShots(s.phase.expired) ensures n < |asks| && !asks[n].repeat && Called(s.calls, n) {
      if n !in s.freed {
        var m :| 0 <= m < |s.phase.expired| && !s.phase.expired[m].timer.repeat
                 && s.phase.expired[m].timer.serial == n;
        BatchEntry(s, asks, s.phase.expired[m]);
      }
    }
  }

  lemma EndAnswers(s: State, asks: seq<Ask>, lag: nat)
    requires Inv(s) && Answers(s, asks) && Enabled(s, EndRead(lag))
    ensures Answers(End(s, lag), asks)
  {
    EndResets(s, lag);
    ResetEntriesAsked(s, asks, lag);
    FreedStayAsked(s, asks, lag);
    hide Inv, End, Reset, EntryAsked, CallsAsked, Called, OneShots;
  }

  lemma StepAnswers(s: State, asks: seq<Ask>, a: Action)
    requires Inv(s) && Answers(s, asks) && Enabled(s, a)
    ensures Answers(Apply(s, a), asks + if a.AddTimer? then [Ask(a.when, a.repeat, a.delta, s.clock)] else [])
  {
    assert asks + [] == asks;
    hide Inv, EntriesAsked, CallsAsked, Called, Add, Begin, End;
    match a
    case Tick(_) =>
    case AddTimer(when, repeat, delta, addr, lag) =>
      hide Answers;
      AddAnswers(s, asks, when, repeat, delta, addr, lag);
    case BeginRead(lag) =>
      hide Answers;
      BeginAnswers(s, asks, lag);
    case RunNext =>
      hide Answers;
      RunAnswers(s, asks);
    case EndRead(lag) =>
      hide Answers;
      EndAnswers(s, asks, lag);
  }

  lemma {:induction false} RunAnswersAsks(s: State, run: seq<Action>)
    requires Initial(s) && IsRun(s, run)
    ensures Answers(After(s, run), Asked(s, run))
    decreases |run|
  {
    if run != [] {
      var before := run[..|run| - 1];
      RunAnswersAsks(s, before);
      EveryRunKeepsInv(s, before);
      hide Inv, Answers;
      StepAnswers(After(s, before), Asked(s, before), run[|run| - 1]);
    }
  }

  /**
   Over every run: the n-th call of addTimer, for time `when`, makes a timer that has its first callback
   for that time and none before it, repeats exactly if asked to and by the interval asked; until its
   first callback it is pending for that time or in the batch being handled; and it is freed only if it
   does not repeat, and not before it has been called.
   */
  lemma EveryAskIsAnswered(s: State, run: seq<Action>, n: nat)
    requires Initial(s) && IsRun(s, run) && n < |Asked(s, run)|
    ensures var t, ask := After(s, run), Asked(s, run)[n];
            && (forall k :: 0 <= k < |t.calls| && t.calls[k].timer.serial == n ==>
                  && t.calls[k].timer.repeat == ask.repeat && t.calls[k].timer.delta == ask.delta
                  && t.calls[k].at >= t.calls[k].due >= ask.when
                  && (t.calls[k].due == ask.when || Called(t.calls[..k], n)))
            && (Called(t.calls, n) || n in Serials(InFlight(t))
                || exists e :: e in t.entries && e.timer.serial == n && e.when == ask.when
                     && e.timer.repeat == ask.repeat && e.timer.delta == ask.delta)
            && (n in t.freed ==> !ask.repeat && Called(t.calls, n))
  {
    RunAnswersAsks(s, run);
    EveryRunKeepsInv(s, run);
    var t, asks := After(s, run), Asked(s, run);
    forall k | 0 <= k < |t.calls| && t.calls[k].timer.serial == n ensures CallAsked(t.calls, k, asks) {
    }
    if n in Serials(t.entries) {
      var i :| 0 <= i < |t.entries| && t.entries[i].timer.serial == n;
      assert t.entries[i] in t.entries && EntryAsked(t.entries[i], asks, t.calls);
    } else if n !in Serials(InFlight(t)) {
      assert n in t.freed;
    }
  }
}
