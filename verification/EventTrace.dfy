/**
 What the event loop has to do: the dispatch of ready channels to callbacks, the effect of the
 callbacks, and the trace that says for each dispatched event what was run for it.
 */
module EventTrace {
  import M = TimerMachine
  import T = TimerQueue
  import opened Poller

  datatype Command =
    | Quit
    | EnableReading(k: nat)     // on the k-th channel
    | RunAt(when: int)
    | RunAfter(delay: int)
    | RunEvery(delta: nat)      // with a positive interval; otherwise it is runAfter

  type Script = nat -> seq<Command>

  datatype Kind = OnError | OnRead | OnWrite

  /** A channel callback that was run. */
  datatype Event = Event(channel: Channel, kind: Kind)

  /** The callbacks handleEvent runs for a channel, from the events reported for it. */
  function Dispatch(f: Firing): seq<Event> {
    (if f.revents * {POLLERR, POLLNVAL} != {} && f.channel.hasError then [Event(f.channel, OnError)] else [])
    + (if f.revents * {POLLIN, POLLPRI, POLLRDHUP} != {} && f.channel.hasRead then [Event(f.channel, OnRead)] else [])
    + (if f.revents * {POLLOUT} != {} && f.channel.hasWrite then [Event(f.channel, OnWrite)] else [])
  }

  function DispatchAll(fired: seq<Firing>): seq<Event> {
    if fired == [] then [] else DispatchAll(fired[..|fired| - 1]) + Dispatch(fired[|fired| - 1])
  }

  /** handleEvent flag by flag: which callbacks it runs, each once, in the order error, read, write. */
  lemma DispatchIsExact(f: Firing)
    ensures var es, ch := Dispatch(f), f.channel;
            && (Event(ch, OnError) in es <==> ch.hasError && (POLLERR in f.revents || POLLNVAL in f.revents))
            && (Event(ch, OnRead) in es <==>
                  ch.hasRead && (POLLIN in f.revents || POLLPRI in f.revents || POLLRDHUP in f.revents))
            && (Event(ch, OnWrite) in es <==> ch.hasWrite && POLLOUT in f.revents)
            && (forall e <- es :: e.channel == ch)
            && (forall i, j :: 0 <= i < j < |es| ==>
                  if es[j].kind.OnRead? then es[i].kind.OnError? else es[j].kind.OnWrite? && !es[i].kind.OnWrite?)
  {
    var bad: Flags, readable: Flags := {POLLERR, POLLNVAL}, {POLLIN, POLLPRI, POLLRDHUP};
    Meets(f.revents, bad);
    Meets(f.revents, readable);
    Meets(f.revents, {POLLOUT});
  }

  lemma Meets(a: Flags, b: Flags)
    ensures a * b != {} <==> exists x :: x in b && x in a
  {
    if x :| x in b && x in a {
      assert x in a * b;
    }
  }

  // What callbacks do.

  /** The part of the loop's state that callbacks change: quit_, the registered channels, the timers asked for. */
  datatype Effects = Effects(quit: bool, slots: seq<Channel>, requests: seq<Command>)

  ghost function Do(e: Effects, pool: seq<Channel>, cmd: Command): Effects {
    match cmd
    case Quit => e.(quit := true)
    case EnableReading(k) => if k < |pool| && pool[k] !in e.slots then e.(slots := e.slots + [pool[k]]) else e
    case _ => e.(requests := e.requests + [cmd])
  }

  ghost function DoAll(e: Effects, pool: seq<Channel>, cmds: seq<Command>): Effects {
    if cmds == [] then e else Do(DoAll(e, pool, cmds[..|cmds| - 1]), pool, cmds[|cmds| - 1])
  }

  /** The callbacks numbered first..last, one after the other. */
  ghost function DoCalls(e: Effects, pool: seq<Channel>, script: Script, first: nat, last: nat): Effects
    decreases last
  {
    if last <= first then e else DoAll(DoCalls(e, pool, script, first, last - 1), pool, script(last - 1))
  }

  /** The commands that ask for a timer, in order. */
  function TimerCommands(cmds: seq<Command>): seq<Command> {
    if cmds == [] then []
    else
      var n := |cmds| - 1;
      TimerCommands(cmds[..n]) + if cmds[n].RunAt? || cmds[n].RunAfter? || cmds[n].RunEvery? then [cmds[n]] else []
  }

  /** TimerCommands picks out every such command once, in order: `at` are their places. */
  lemma {:induction false} TimerCommandsAreAll(cmds: seq<Command>) returns (at: seq<nat>)
    ensures |at| == |TimerCommands(cmds)|
    ensures forall i, j :: 0 <= i < j < |at| ==> at[i] < at[j]
    ensures forall j :: 0 <= j < |at| ==> at[j] < |cmds| && TimerCommands(cmds)[j] == cmds[at[j]]
    ensures forall p :: 0 <= p < |cmds| ==>
              (p in at <==> cmds[p].RunAt? || cmds[p].RunAfter? || cmds[p].RunEvery?)
    decreases |cmds|
  {
    at := [];
    if cmds != [] {
      var n := |cmds| - 1;
      at := TimerCommandsAreAll(cmds[..n]);
      assert forall p <- at :: p < n;
      if cmds[n].RunAt? || cmds[n].RunAfter? || cmds[n].RunEvery? {
        at := at + [n];
      }
    }
  }

  /** The timer commands of the callbacks numbered first..last. */
  ghost function CommandsOf(script: Script, first: nat, last: nat): seq<Command>
    decreases last
  {
    if last <= first then [] else CommandsOf(script, first, last - 1) + TimerCommands(script(last - 1))
  }

  lemma {:induction false} DoAllAsks(e: Effects, pool: seq<Channel>, cmds: seq<Command>)
    ensures DoAll(e, pool, cmds).requests == e.requests + TimerCommands(cmds)
  {
    if cmds != [] {
      var n := |cmds| - 1;
      DoAllAsks(e, pool, cmds[..n]);
    }
  }

  /** Callbacks ask for exactly the timers their timer commands name, in order. */
  lemma {:induction false} CallbacksAsk(e: Effects, pool: seq<Channel>, script: Script, first: nat, last: nat)
    ensures DoCalls(e, pool, script, first, last).requests == e.requests + CommandsOf(script, first, last)
    decreases last
  {
    if first < last {
      CallbacksAsk(e, pool, script, first, last - 1);
      DoAllAsks(DoCalls(e, pool, script, first, last - 1), pool, script(last - 1));
    }
  }

  lemma DoOneMore(e: Effects, pool: seq<Channel>, cmds: seq<Command>, i: nat)
    requires i < |cmds|
    ensures DoAll(e, pool, cmds[..i + 1]) == Do(DoAll(e, pool, cmds[..i]), pool, cmds[i])
  {
    assert cmds[..i + 1][..i] == cmds[..i];
  }

  lemma NoCalls(e: Effects, pool: seq<Channel>, script: Script, n: nat)
    ensures DoCalls(e, pool, script, n, n) == e
  {
  }

  lemma {:induction false} DoCallsCompose(e: Effects, pool: seq<Channel>, script: Script, a: nat, b: nat, c: nat)
    requires a <= b <= c
    ensures DoCalls(DoCalls(e, pool, script, a, b), pool, script, b, c) == DoCalls(e, pool, script, a, c)
    decreases c
  {
    if b < c {
      DoCallsCompose(e, pool, script, a, b, c - 1);
    }
  }

  /** The addTimer call a command makes, with the clock reading it was made at. */
  predicate Makes(cmd: Command, ask: M.Ask) {
    match cmd
    case RunAt(when) => ask.when == when && !ask.repeat
    case RunAfter(delay) => ask.when == ask.clock + delay && !ask.repeat
    case RunEvery(delta) => ask.when == ask.clock + delta && ask.repeat && ask.delta == delta
    case _ => false
  }

  ghost predicate MakeAll(cmds: seq<Command>, asks: seq<M.Ask>) {
    |cmds| == |asks| && forall i :: 0 <= i < |cmds| ==> Makes(cmds[i], asks[i])
  }

  /** The addTimer calls that are new are those of the new commands. */
  lemma NewAsks(requests: seq<Command>, more: seq<Command>, asks: seq<M.Ask>, asks': seq<M.Ask>)
    requires MakeAll(requests, asks) && MakeAll(requests + more, asks') && asks <= asks'
    ensures MakeAll(more, asks'[|asks|..])
  {
    hide Makes;
    forall i | 0 <= i < |more| ensures Makes(more[i], asks'[|asks|..][i]) {
      assert (requests + more)[|asks| + i] == more[i];
    }
  }

  // The trace.

  /** A point between two callbacks: what callbacks have done, how many were started, what the timer queue did. */
  datatype Moment = Moment(effects: Effects, calls: nat, run: seq<M.Action>, timerCalls: seq<M.Call>)

  /** An event that was served, with the moments before and after. */
  datatype Served = Served(event: Event, before: Moment, after: Moment)

  function Events(served: seq<Served>): (es: seq<Event>)
    ensures |es| == |served| && forall i :: 0 <= i < |served| ==> es[i] == served[i].event
  {
    seq(|served|, i requires 0 <= i < |served| => served[i].event)
  }

  /** The run goes on without entering or leaving handleRead. */
  ghost predicate Extends(run: seq<M.Action>, run': seq<M.Action>) {
    run <= run' && forall k :: |run| <= k < |run'| ==> !run'[k].BeginRead? && !run'[k].EndRead?
  }

  lemma ExtendsCompose(a: seq<M.Action>, b: seq<M.Action>, c: seq<M.Action>)
    requires Extends(a, b) && Extends(b, c)
    ensures Extends(a, c)
  {
  }

  lemma ExtendsByOne(run: seq<M.Action>, a: M.Action)
    requires !a.BeginRead? && !a.EndRead?
    ensures Extends(run, run) && Extends(run, run + [a])
  {
  }

  /** Nothing happens but that time passes. */
  ghost predicate Pauses(a: Moment, b: Moment) {
    b.effects == a.effects && b.calls == a.calls && b.timerCalls == a.timerCalls && Extends(a.run, b.run)
  }

  /** The next client callback runs, to its end, and no other. */
  ghost predicate CalledBack(a: Moment, b: Moment, pool: seq<Channel>, script: Script) {
    && b.calls == a.calls + 1 && b.effects == DoAll(a.effects, pool, script(a.calls))
    && b.timerCalls == a.timerCalls && Extends(a.run, b.run)
  }

  /** n callbacks are run, within a call of handleRead or outside. */
  ghost predicate Called(a: Moment, b: Moment, n: nat, pool: seq<Channel>, script: Script) {
    && b.calls == a.calls + n && Extends(a.run, b.run)
    && b.effects == DoCalls(a.effects, pool, script, a.calls, b.calls)
  }

  lemma CalledNone(a: Moment, pool: seq<Channel>, script: Script)
    ensures Called(a, a, 0, pool, script)
  {
  }

  lemma CalledCompose(a: Moment, b: Moment, c: Moment, n: nat, k: nat, pool: seq<Channel>, script: Script)
    requires Called(a, b, n, pool, script) && Called(b, c, k, pool, script)
    ensures Called(a, c, n + k, pool, script)
  {
    ExtendsCompose(a.run, b.run, c.run);
    DoCallsCompose(a.effects, pool, script, a.calls, b.calls, c.calls);
    hide DoCalls, Extends;
  }

  /** Time passes and the callback of the next timer of a batch is started and run. */
  lemma CalledOne(a: Moment, t: M.Action, b: Moment, c: Moment, pool: seq<Channel>, script: Script)
    requires t.Tick? && b.effects == a.effects && b.calls == a.calls && b.run == a.run + [t] + [M.RunNext]
    requires CalledBack(b, c, pool, script)
    ensures Called(a, c, 1, pool, script)
  {
    ExtendsByOne(a.run, t);
    ExtendsByOne(a.run + [t], M.RunNext);
    ExtendsCompose(a.run, a.run + [t], b.run);
    ExtendsCompose(a.run, b.run, c.run);
    hide Extends, DoAll;
    NoCalls(a.effects, pool, script, a.calls);
  }

  /** One call of handleRead: the timers due as it begins have their callbacks run, in order, and no others. */
  ghost predicate HandledTimers(a: Moment, b: Moment, pool: seq<Channel>, script: Script, start: M.State) {
    && b.timerCalls == a.timerCalls + T.DueCalls(start, a.run)
    && b.calls == a.calls + |T.DueCalls(start, a.run)|
    && b.effects == DoCalls(a.effects, pool, script, a.calls, b.calls)
    && a.run <= b.run && |b.run| >= |a.run| + 2
    && b.run[|a.run|].BeginRead? && b.run[|b.run| - 1].EndRead?
    && Extends(b.run[..|a.run| + 1], b.run[..|b.run| - 1])
  }

  /** handleRead from its parts: the batch is taken, its callbacks run, time passes, and reset. */
  lemma BatchHandled(
    a: Moment, b: Moment, c: Moment, t: M.Action, d: Moment, pool: seq<Channel>, script: Script, start: M.State)
    requires b.effects == a.effects && b.calls == a.calls && |b.run| == |a.run| + 1
    requires a.run <= b.run && b.run[|a.run|].BeginRead?
    requires Called(b, c, |T.DueCalls(start, a.run)|, pool, script) && t.Tick?
    requires d.effects == c.effects && d.calls == c.calls && |d.run| == |c.run| + 2
    requires c.run + [t] <= d.run && d.run[|d.run| - 1].EndRead?
    requires d.timerCalls == a.timerCalls + T.DueCalls(start, a.run)
    ensures HandledTimers(a, d, pool, script, start)
  {
    ExtendsByOne(c.run, t);
    ExtendsCompose(b.run, c.run, c.run + [t]);
    hide Extends, DoCalls, T.DueCalls;
    assert d.run[..|a.run| + 1] == b.run && d.run[..|d.run| - 1] == c.run + [t] by {
      assert Extends(b.run, c.run) ==> b.run <= c.run by {
        ExtendsMeansPrefix(b.run, c.run);
      }
    }
  }

  lemma ExtendsMeansPrefix(run: seq<M.Action>, run': seq<M.Action>)
    ensures Extends(run, run') ==> run <= run'
  {
  }

  /** The read event of the timerfd's channel. */
  ghost predicate IsTimerEvent(e: Event, pool: seq<Channel>) {
    |pool| > 0 && e == Event(pool[0], OnRead)
  }

  /** What is run for an event: handleRead for the timerfd's read event, else one client callback. */
  ghost predicate Ran(s: Served, pool: seq<Channel>, script: Script, start: M.State) {
    if IsTimerEvent(s.event, pool) then HandledTimers(s.before, s.after, pool, script, start)
    else CalledBack(s.before, s.after, pool, script)
  }

  /** From a to b exactly the events served are run, one after the other. */
  ghost predicate Chain(
    served: seq<Served>, a: Moment, b: Moment, pool: seq<Channel>, script: Script, start: M.State)
    decreases |served|
  {
    if served == [] then Pauses(a, b)
    else
      var s := served[|served| - 1];
      Chain(served[..|served| - 1], a, s.before, pool, script, start)
      && Ran(s, pool, script, start) && Pauses(s.after, b)
  }

  lemma PausesCompose(a: Moment, b: Moment, c: Moment)
    requires Pauses(a, b) && Pauses(b, c)
    ensures Pauses(a, c)
  {
  }

  lemma StandStill(a: Moment)
    ensures Pauses(a, a)
  {
  }

  lemma ChainPauses(
    served: seq<Served>, a: Moment, b: Moment, c: Moment, pool: seq<Channel>, script: Script, start: M.State)
    requires Chain(served, a, b, pool, script, start) && Pauses(b, c)
    ensures Chain(served, a, c, pool, script, start)
  {
    PausesCompose(if served == [] then a else served[|served| - 1].after, b, c);
    hide Pauses, Ran;
  }

  lemma {:induction false} PausesChain(
    a: Moment, b: Moment, served: seq<Served>, c: Moment, pool: seq<Channel>, script: Script, start: M.State)
    requires Pauses(a, b) && Chain(served, b, c, pool, script, start)
    ensures Chain(served, a, c, pool, script, start)
    decreases |served|
  {
    if served == [] {
      PausesCompose(a, b, c);
    } else {
      hide Pauses, Ran;
      PausesChain(a, b, served[..|served| - 1], served[|served| - 1].before, pool, script, start);
    }
  }

  lemma ChainSnoc(
    served: seq<Served>, s: Served, a: Moment, b: Moment, pool: seq<Channel>, script: Script, start: M.State)
    ensures Chain(served + [s], a, b, pool, script, start) <==>
            Chain(served, a, s.before, pool, script, start) && Ran(s, pool, script, start) && Pauses(s.after, b)
  {
    hide Pauses, Ran;
    assert (served + [s])[..|served|] == served;
  }

  lemma NothingServed(a: Moment, b: Moment, pool: seq<Channel>, script: Script, start: M.State)
    ensures Chain([], a, b, pool, script, start) <==> Pauses(a, b)
  {
  }

  lemma LastOf(x: seq<Served>, y: seq<Served>)
    requires y != []
    ensures y == y[..|y| - 1] + [y[|y| - 1]] && x + y == (x + y[..|y| - 1]) + [y[|y| - 1]]
  {
  }

  lemma {:induction false} ChainCompose(
    x: seq<Served>, y: seq<Served>, a: Moment, b: Moment, c: Moment, pool: seq<Channel>, script: Script, start: M.State)
    requires Chain(x, a, b, pool, script, start) && Chain(y, b, c, pool, script, start)
    ensures Chain(x + y, a, c, pool, script, start)
    decreases |y|
  {
    hide Chain, Pauses, Ran;
    if y == [] {
      assert x + y == x;
      NothingServed(b, c, pool, script, start);
      ChainPauses(x, a, b, c, pool, script, start);
    } else {
      var n := |y| - 1;
      LastOf(x, y);
      ChainSnoc(y[..n], y[n], b, c, pool, script, start);
      ChainCompose(x, y[..n], a, b, y[n].before, pool, script, start);
      ChainSnoc(x + y[..n], y[n], a, c, pool, script, start);
    }
  }

  lemma OneServed(e: Event, a: Moment, b: Moment, pool: seq<Channel>, script: Script, start: M.State)
    requires Ran(Served(e, a, b), pool, script, start)
    ensures Chain([Served(e, a, b)], a, b, pool, script, start)
  {
    StandStill(a);
    StandStill(b);
    hide Pauses, Ran;
    assert [Served(e, a, b)][..0] == [];
  }

  /** The client callbacks among the events. */
  ghost function ClientEvents(events: seq<Event>, pool: seq<Channel>): nat {
    if events == [] then 0
    else
      var n := |events| - 1;
      ClientEvents(events[..n], pool) + if IsTimerEvent(events[n], pool) then 0 else 1
  }

  ghost function Reads(run: seq<M.Action>): nat {
    if run == [] then 0 else Reads(run[..|run| - 1]) + if run[|run| - 1].BeginRead? then 1 else 0
  }

  lemma {:induction false} NoReads(run: seq<M.Action>, run': seq<M.Action>)
    requires Extends(run, run')
    ensures Reads(run') == Reads(run)
    decreases |run'|
  {
    if run == run' {
    } else {
      var n := |run'| - 1;
      NoReads(run, run'[..n]);
    }
  }

  lemma OneRead(a: Moment, b: Moment, pool: seq<Channel>, script: Script, start: M.State)
    requires HandledTimers(a, b, pool, script, start)
    ensures Reads(b.run) == Reads(a.run) + 1
  {
    var i, n := |a.run|, |b.run| - 1;
    assert b.run[..i + 1][..i] == a.run;
    NoReads(b.run[..i + 1], b.run[..n]);
  }

  lemma ServedCounts(s: Served, pool: seq<Channel>, script: Script, start: M.State)
    requires Ran(s, pool, script, start)
    ensures s.before.calls <= s.after.calls && s.before.run <= s.after.run
    ensures s.before.timerCalls <= s.after.timerCalls
    ensures s.after.effects == DoCalls(s.before.effects, pool, script, s.before.calls, s.after.calls)
    ensures s.after.calls - s.before.calls ==
            |s.after.timerCalls| - |s.before.timerCalls| + if IsTimerEvent(s.event, pool) then 0 else 1
    ensures Reads(s.after.run) - Reads(s.before.run) == if IsTimerEvent(s.event, pool) then 1 else 0
  {
    if IsTimerEvent(s.event, pool) {
      OneRead(s.before, s.after, pool, script, start);
    } else {
      NoReads(s.before.run, s.after.run);
      assert DoCalls(s.before.effects, pool, script, s.before.calls, s.before.calls) == s.before.effects;
    }
    hide DoAll, Reads, T.DueCalls;
  }

  /**
   The events served account for all callbacks: the callbacks started are one for each client event and
   those of the timers that handleRead took, they had the effects in between, and handleRead was called
   once for each read event of the timerfd.
   */
  lemma {:induction false} EventsExplainCalls(
    served: seq<Served>, a: Moment, b: Moment, pool: seq<Channel>, script: Script, start: M.State)
    requires Chain(served, a, b, pool, script, start)
    ensures a.calls <= b.calls && a.run <= b.run && a.timerCalls <= b.timerCalls
    ensures b.effects == DoCalls(a.effects, pool, script, a.calls, b.calls)
    ensures b.calls - a.calls == ClientEvents(Events(served), pool) + |b.timerCalls| - |a.timerCalls|
    ensures Reads(b.run) - Reads(a.run) == |served| - ClientEvents(Events(served), pool)
    decreases |served|
  {
    if served == [] {
      NoReads(a.run, b.run);
    } else {
      var n := |served| - 1;
      var s := served[n];
      EventsExplainCalls(served[..n], a, s.before, pool, script, start);
      ServedCounts(s, pool, script, start);
      NoReads(s.after.run, b.run);
      DoCallsCompose(a.effects, pool, script, a.calls, s.before.calls, s.after.calls);
      assert Events(served)[..n] == Events(served[..n]);
      hide Ran, Reads, DoCalls, Chain, IsTimerEvent;
    }
  }

  /**
   Callbacks only ever add channels: exactly those of their enableReading commands, none twice; quit is
   set exactly if it was or one of them calls it.
   */
  lemma {:induction false} CallbacksOnlyAdd(e: Effects, pool: seq<Channel>, script: Script, first: nat, last: nat)
    ensures var e' := DoCalls(e, pool, script, first, last);
            && e.slots <= e'.slots && e.requests <= e'.requests
            && (e'.quit <==> e.quit || exists n :: first <= n < last && Quit in script(n))
            && (forall n, k: nat :: first <= n < last && EnableReading(k) in script(n) && k < |pool| ==>
                  pool[k] in e'.slots)
            && (forall ch <- e'.slots :: ch in e.slots
                  || exists n, k: nat :: first <= n < last && EnableReading(k) in script(n)
                                         && k < |pool| && pool[k] == ch)
            && (NoDuplicates(e.slots) ==> NoDuplicates(e'.slots))
    decreases last
  {
    if first < last {
      CallbacksOnlyAdd(e, pool, script, first, last - 1);
      CommandsOnlyAdd(DoCalls(e, pool, script, first, last - 1), pool, script(last - 1));
      assert Quit in script(last - 1) ==> first <= last - 1 < last;
      hide DoAll, NoDuplicates;
    }
  }

  ghost predicate NoDuplicates(slots: seq<Channel>) {
    forall i, j :: 0 <= i < j < |slots| ==> slots[i] != slots[j]
  }

  lemma {:induction false} CommandsOnlyAdd(e: Effects, pool: seq<Channel>, cmds: seq<Command>)
    ensures var e' := DoAll(e, pool, cmds);
            && e.slots <= e'.slots && e.requests <= e'.requests
            && (e'.quit <==> e.quit || Quit in cmds)
            && (forall k: nat :: EnableReading(k) in cmds && k < |pool| ==> pool[k] in e'.slots)
            && (forall ch <- e'.slots :: ch in e.slots
                  || exists k: nat :: EnableReading(k) in cmds && k < |pool| && pool[k] == ch)
            && (NoDuplicates(e.slots) ==> NoDuplicates(e'.slots))
  {
    if cmds != [] {
      var n := |cmds| - 1;
      CommandsOnlyAdd(e, pool, cmds[..n]);
      assert cmds == cmds[..n] + [cmds[n]];
    }
  }

  // Whole runs of the loop.

  ghost function Flatten(parts: seq<seq<Served>>): seq<Served> {
    if parts == [] then [] else Flatten(parts[..|parts| - 1]) + parts[|parts| - 1]
  }

  /**
   Poll r fires exactly the channels registered by then that it reports; after it exactly the events
   dispatched for them are served, which leads from point r to point r + 1; no poll follows a quit.
   */
  ghost predicate IsHistory(
    rounds: seq<seq<Firing>>, parts: seq<seq<Served>>, points: seq<Moment>, polls: seq<Outcome>, pool: seq<Channel>,
    script: Script, start: M.State)
  {
    && |rounds| <= |polls| && |parts| == |rounds| && |points| == |rounds| + 1
    && forall r :: 0 <= r < |rounds| ==>
         && rounds[r] == Fired(points[r].effects.slots, polls[r]) && !points[r].effects.quit
         && Events(parts[r]) == DispatchAll(rounds[r])
         && Chain(parts[r], points[r], points[r + 1], pool, script, start)
  }

  lemma HistoryGrows(
    rounds: seq<seq<Firing>>, parts: seq<seq<Served>>, points: seq<Moment>, polls: seq<Outcome>, pool: seq<Channel>,
    script: Script, start: M.State, fired: seq<Firing>, served: seq<Served>, now: Moment)
    requires IsHistory(rounds, parts, points, polls, pool, script, start)
    requires var n := |rounds|;
             && n < |polls| && !points[n].effects.quit && fired == Fired(points[n].effects.slots, polls[n])
             && Events(served) == DispatchAll(fired) && Chain(served, points[n], now, pool, script, start)
    ensures IsHistory(rounds + [fired], parts + [served], points + [now], polls, pool, script, start)
  {
    hide Chain, Fired, DispatchAll;
  }

  lemma DispatchStep(t: seq<Served>, served: seq<Served>, more: seq<Served>, fired: seq<Firing>, i: nat)
    requires i < |fired| && Events(served) == DispatchAll(fired[..i]) && Events(more) == Dispatch(fired[i])
    ensures Events(served + more) == DispatchAll(fired[..i + 1])
    ensures (t + served) + more == t + (served + more)
  {
    assert fired[..i + 1][..i] == fired[..i];
    assert Events(served + more) == Events(served) + Events(more);
  }

  lemma NothingDispatched(fired: seq<Firing>)
    ensures Events([]) == DispatchAll(fired[..0]) && fired[..|fired|] == fired
  {
  }

  lemma EventsOfThree(t: seq<Served>, a: seq<Served>, b: seq<Served>, c: seq<Served>)
    ensures Events(a + b + c) == Events(a) + Events(b) + Events(c)
    ensures t + a + b + c == t + (a + b + c)
  {
  }

  lemma RoundStep(t: seq<Served>, parts: seq<seq<Served>>, served: seq<Served>)
    ensures t + Flatten(parts + [served]) == (t + Flatten(parts)) + served
  {
    assert (parts + [served])[..|parts|] == parts;
  }

  lemma HistorySizes(
    rounds: seq<seq<Firing>>, parts: seq<seq<Served>>, points: seq<Moment>, polls: seq<Outcome>, pool: seq<Channel>,
    script: Script, start: M.State)
    requires IsHistory(rounds, parts, points, polls, pool, script, start)
    ensures |parts| == |rounds| && |points| == |rounds| + 1
  {
    hide Chain, Fired, DispatchAll;
  }

  lemma RoundOf(
    rounds: seq<seq<Firing>>, parts: seq<seq<Served>>, points: seq<Moment>, polls: seq<Outcome>, pool: seq<Channel>,
    script: Script, start: M.State, r: nat)
    requires IsHistory(rounds, parts, points, polls, pool, script, start) && r < |rounds|
    ensures |parts| == |rounds| && |points| == |rounds| + 1
    ensures r < |polls| && rounds[r] == Fired(points[r].effects.slots, polls[r])
    ensures Events(parts[r]) == DispatchAll(rounds[r])
    ensures Chain(parts[r], points[r], points[r + 1], pool, script, start)
  {
    hide Chain, Fired, DispatchAll;
  }

  /** Between any two points of a history, what callbacks did is what the callbacks started in between do. */
  lemma {:induction false} PointsFollow(
    rounds: seq<seq<Firing>>, parts: seq<seq<Served>>, points: seq<Moment>, polls: seq<Outcome>, pool: seq<Channel>,
    script: Script, start: M.State, r: nat)
    requires IsHistory(rounds, parts, points, polls, pool, script, start) && r <= |rounds|
    ensures points[0].calls <= points[r].calls
    ensures points[r].effects == DoCalls(points[0].effects, pool, script, points[0].calls, points[r].calls)
    decreases r
  {
    hide IsHistory, DoCalls, Chain;
    HistorySizes(rounds, parts, points, polls, pool, script, start);
    if r == 0 {
      NoCalls(points[0].effects, pool, script, points[0].calls);
    } else {
      PointsFollow(rounds, parts, points, polls, pool, script, start, r - 1);
      RoundOf(rounds, parts, points, polls, pool, script, start, r - 1);
      EventsExplainCalls(parts[r - 1], points[r - 1], points[r], pool, script, start);
      DoCallsCompose(points[0].effects, pool, script, points[0].calls, points[r - 1].calls, points[r].calls);
    }
  }

  /** No poll is made once a callback has called quit, and until then polls go on. */
  lemma QuitEndsTheLoop(
    rounds: seq<seq<Firing>>, parts: seq<seq<Served>>, points: seq<Moment>, polls: seq<Outcome>, pool: seq<Channel>,
    script: Script, start: M.State, r: nat)
    requires IsHistory(rounds, parts, points, polls, pool, script, start) && r <= |rounds|
    requires !points[0].effects.quit
    ensures points[r].effects.quit <==> exists n :: points[0].calls <= n < points[r].calls && Quit in script(n)
    ensures points[r].effects.quit ==> r == |rounds|
  {
    PointsFollow(rounds, parts, points, polls, pool, script, start, r);
    CallbacksOnlyAdd(points[0].effects, pool, script, points[0].calls, points[r].calls);
    hide DoCalls, Chain, Fired, DispatchAll;
  }

  // The timerfd among the events of a round.

  lemma {:induction false} ClientEventsConcat(a: seq<Event>, b: seq<Event>, pool: seq<Channel>)
    ensures ClientEvents(a + b, pool) == ClientEvents(a, pool) + ClientEvents(b, pool)
    decreases |b|
  {
    if b == [] {
      assert a + b == a;
    } else {
      var n := |b| - 1;
      ClientEventsConcat(a, b[..n], pool);
      assert (a + b)[..|a| + n] == a + b[..n];
    }
  }

  /** What is reported makes the timerfd's channel readable. */
  predicate ReportsTimerfd(pool: seq<Channel>, report: map<int, Flags>)
    requires |pool| > 0
  {
    && pool[0].hasRead && pool[0].fd in report
    && (POLLIN in report[pool[0].fd] || POLLPRI in report[pool[0].fd] || POLLRDHUP in report[pool[0].fd])
  }

  /** Events of one channel's callback, if it is run. */
  function OneIf(isSet: bool, ch: Channel, kind: Kind): seq<Event> {
    if isSet then [Event(ch, kind)] else []
  }

  lemma TimerEventsOfCall(isSet: bool, ch: Channel, kind: Kind, pool: seq<Channel>)
    requires |pool| > 0
    ensures |OneIf(isSet, ch, kind)| - ClientEvents(OneIf(isSet, ch, kind), pool) ==
            if isSet && ch == pool[0] && kind == OnRead then 1 else 0
  {
    assert OneIf(true, ch, kind)[..0] == [];
  }

  lemma DispatchInParts(f: Firing)
    ensures var ch := f.channel;
            Dispatch(f) == OneIf(f.revents * {POLLERR, POLLNVAL} != {} && ch.hasError, ch, OnError)
                           + OneIf(f.revents * {POLLIN, POLLPRI, POLLRDHUP} != {} && ch.hasRead, ch, OnRead)
                           + OneIf(f.revents * {POLLOUT} != {} && ch.hasWrite, ch, OnWrite)
  {
  }

  lemma TimerEventsOfOne(f: Firing, pool: seq<Channel>)
    requires |pool| > 0
    ensures |Dispatch(f)| - ClientEvents(Dispatch(f), pool) ==
            if f.channel == pool[0] && f.channel.hasRead
               && (POLLIN in f.revents || POLLPRI in f.revents || POLLRDHUP in f.revents) then 1 else 0
  {
    var ch := f.channel;
    DispatchInParts(f);
    Meets(f.revents, {POLLIN, POLLPRI, POLLRDHUP});
    var a := OneIf(f.revents * {POLLERR, POLLNVAL} != {} && ch.hasError, ch, OnError);
    var b := OneIf(f.revents * {POLLIN, POLLPRI, POLLRDHUP} != {} && ch.hasRead, ch, OnRead);
    var c := OneIf(f.revents * {POLLOUT} != {} && ch.hasWrite, ch, OnWrite);
    TimerEventsOfCall(f.revents * {POLLERR, POLLNVAL} != {} && ch.hasError, ch, OnError, pool);
    TimerEventsOfCall(f.revents * {POLLIN, POLLPRI, POLLRDHUP} != {} && ch.hasRead, ch, OnRead, pool);
    TimerEventsOfCall(f.revents * {POLLOUT} != {} && ch.hasWrite, ch, OnWrite, pool);
    hide OneIf, ClientEvents, Dispatch;
    ClientEventsConcat(a, b, pool);
    ClientEventsConcat(a + b, c, pool);
  }

  lemma DispatchOneMore(before: seq<Firing>, f: Firing)
    ensures DispatchAll(before + [f]) == DispatchAll(before) + Dispatch(f)
  {
    assert (before + [f])[..|before|] == before;
  }

  lemma FiredOneMore(slots: seq<Channel>, report: map<int, Flags>)
    requires slots != []
    ensures var n := |slots| - 1;
            var revents := if slots[n].fd in report then report[slots[n].fd] else {};
            FiredBy(slots, report) ==
            FiredBy(slots[..n], report) + if revents != {} then [Firing(slots[n], revents)] else []
  {
  }

  lemma {:induction false} TimerEventsOfRound(slots: seq<Channel>, report: map<int, Flags>, pool: seq<Channel>)
    requires |pool| > 0 && NoDuplicates(slots)
    ensures var es := DispatchAll(FiredBy(slots, report));
            |es| - ClientEvents(es, pool) == if pool[0] in slots && ReportsTimerfd(pool, report) then 1 else 0
  {
    if slots == [] {
      assert DispatchAll(FiredBy([], report)) == [] && ClientEvents([], pool) == 0;
    } else {
      var n := |slots| - 1;
      var ch, before := slots[n], FiredBy(slots[..n], report);
      TimerEventsOfRound(slots[..n], report, pool);
      FiredOneMore(slots, report);
      assert ch !in slots[..n] && slots == slots[..n] + [ch];
      assert pool[0] in slots <==> pool[0] in slots[..n] || pool[0] == ch;
      hide FiredBy, Dispatch, ClientEvents, DispatchAll, NoDuplicates;
      if ch.fd in report && report[ch.fd] != {} {
        var f := Firing(ch, report[ch.fd]);
        DispatchOneMore(before, f);
        ClientEventsConcat(DispatchAll(before), Dispatch(f), pool);
        TimerEventsOfOne(f, pool);
      } else {
        assert before + [] == before;
      }
    }
  }

  /**
   Round r calls handleRead, and calls it once, exactly if its poll reports a read flag for the
   registered timerfd.
   */
  lemma HandleReadRunsExactlyWhenReported(
    rounds: seq<seq<Firing>>, parts: seq<seq<Served>>, points: seq<Moment>, polls: seq<Outcome>, pool: seq<Channel>,
    script: Script, start: M.State, r: nat)
    requires IsHistory(rounds, parts, points, polls, pool, script, start) && r < |rounds|
    requires |pool| > 0 && NoDuplicates(points[0].effects.slots)
    ensures points[r].run <= points[r + 1].run
    ensures Reads(points[r + 1].run) - Reads(points[r].run) ==
            if polls[r].Report? && pool[0] in points[r].effects.slots && pool[0].hasRead
               && pool[0].fd in polls[r].report
               && (POLLIN in polls[r].report[pool[0].fd] || POLLPRI in polls[r].report[pool[0].fd]
                   || POLLRDHUP in polls[r].report[pool[0].fd]) then 1 else 0
  {
    PointsFollow(rounds, parts, points, polls, pool, script, start, r);
    CallbacksOnlyAdd(points[0].effects, pool, script, points[0].calls, points[r].calls);
    RoundOf(rounds, parts, points, polls, pool, script, start, r);
    EventsExplainCalls(parts[r], points[r], points[r + 1], pool, script, start);
    if polls[r].Report? {
      TimerEventsOfRound(points[r].effects.slots, polls[r].report, pool);
    } else {
      assert DispatchAll([]) == [] && ClientEvents([], pool) == 0;
      assert parts[r] == [] && Events([]) == [];
    }
    hide IsHistory, Reads, DoCalls, Chain, FiredBy, NoDuplicates;
  }
}
