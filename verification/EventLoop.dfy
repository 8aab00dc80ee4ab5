/**
 EventLoop of reactor1 with its Poller, its TimerQueue and the channels of its client. The client's
 callbacks are scripts: the n-th callback to start performs any finite list of commands.
 */
module EventLoop {
  import M = TimerMachine
  import T = TimerQueue
  import Theorems = TimerTheorems
  import opened Poller
  import opened EventTrace

  class EventLoop {
    const poller: Poller
    const timerQueue: T.TimerQueue
    const pool: seq<Channel>      // the timerfd's channel, then the client's channels
    var looping: bool
    var quit: bool
    var activeChannels: seq<Channel>
    var calls: nat                // client callbacks started
    ghost var requests: seq<Command>
    ghost var trace: seq<Served>  // the events served, with what was run for each

    ghost predicate PollerWired()
      reads poller, poller.slots, pool
    {
      && poller.Valid() && poller.AllPolled() && poller.AgreesExcept({})
      && |pool| > 0
      && (forall i, j :: 0 <= i < j < |pool| ==> pool[i].fd != pool[j].fd)
      && (forall c <- poller.slots :: c in pool && {POLLIN, POLLPRI} <= c.events)
      && (forall c <- pool :: c.index >= 0 ==> c in poller.slots)
    }

    ghost predicate Valid()
      reads this`requests, poller, poller.slots, pool, timerQueue, timerQueue.live
    {
      PollerWired() && timerQueue.Valid() && MakeAll(requests, timerQueue.Asks())
    }

    ghost function State(): Effects
      reads this`quit, this`requests, poller
    {
      Effects(quit, poller.slots, requests)
    }

    ghost function Now(): Moment
      reads this`quit, this`requests, this`calls, poller, timerQueue
    {
      Moment(State(), calls, timerQueue.run, timerQueue.Progress().calls)
    }

    /** poller_ is built before timerQueue_, whose constructor already registers the timerfd's channel. */
    constructor (clock: int, timerChannel: Channel, clients: seq<Channel>)
      requires clock > 0 && timerChannel.hasRead
      requires forall c <- [timerChannel] + clients :: c.index < 0
      requires forall i, j :: 0 <= i < j < |clients| ==> clients[i].fd != clients[j].fd
      requires forall c <- clients :: c.fd != timerChannel.fd
      modifies timerChannel
      ensures Valid() && !looping && trace == [] && calls == 0 && pool == [timerChannel] + clients
      ensures timerQueue.Progress() == T.Handler(M.Idle, []) && State() == Effects(false, [timerChannel], [])
      ensures fresh(poller) && fresh(timerQueue) && timerQueue.live == {}
    {
      hide T.TimerQueue.Valid, T.TimerQueue.Matches, T.TimerQueue.Running, T.TimerQueue.Asks, T.TimerQueue.State,
           T.TimerQueue.Progress;
      looping, quit, activeChannels, calls, requests, trace := false, false, [], 0, [], [];
      pool := [timerChannel] + clients;
      poller := new Poller();
      timerQueue := new T.TimerQueue(clock);
      new;
      DistinctDescriptors(timerChannel, clients);
      Enable(timerChannel);
    }

    static lemma DistinctDescriptors(timerChannel: Channel, clients: seq<Channel>)
      requires forall i, j :: 0 <= i < j < |clients| ==> clients[i].fd != clients[j].fd
      requires forall c <- clients :: c.fd != timerChannel.fd
      ensures var pool := [timerChannel] + clients;
              forall i, j :: 0 <= i < j < |pool| ==> pool[i].fd != pool[j].fd
    {
    }

    /** enableReading on a channel, and through update and updateChannel to the poller. */
    method Enable(ch: Channel)
      requires PollerWired() && ch in pool
      modifies poller, ch`events, ch`index
      ensures PollerWired()
      ensures ch.events == old(ch.events) + {POLLIN, POLLPRI}
      ensures poller.slots == old(poller.slots) + if ch in old(poller.slots) then [] else [ch]
    {
      if ch.index < 0 {
        NotYetRegistered(ch);
      }
      ch.events := ch.events + {POLLIN, POLLPRI};
      poller.UpdateChannel(ch);
    }

    /** A channel without an index has no entry for its descriptor: descriptors are distinct. */
    lemma NotYetRegistered(ch: Channel)
      requires PollerWired() && ch in pool && ch.index < 0
      ensures ch.fd !in poller.channels && ch !in poller.slots
    {
      var i :| 0 <= i < |pool| && pool[i] == ch;
      forall c | c in poller.slots ensures c.fd != ch.fd {
        var j :| 0 <= j < |pool| && pool[j] == c;
        assert i != j;
      }
    }

    // Callbacks.

    /** Inside handleRead a callback is running, so one has been started. */
    ghost predicate CanCall()
      reads this`requests, poller, poller.slots, pool, timerQueue, timerQueue.live
    {
      Valid() && (timerQueue.Progress().phase.Handling? ==> timerQueue.Progress().phase.ran > 0)
    }

    /** enableReading on the k-th channel. */
    method PerformEnable(k: nat)
      requires CanCall()
      modifies poller, pool`events, pool`index
      ensures Valid() && State() == Do(old(State()), pool, EnableReading(k))
    {
      hide T.TimerQueue.Matches, T.TimerQueue.Running, T.TimerQueue.State, T.TimerQueue.Asks, T.TimerQueue.Progress;
      if k < |pool| {
        Enable(pool[k]);
      }
    }

    /** runAt, runAfter and runEvery: an addTimer call with its time and interval. */
    method PerformTimer(cmd: Command, when: int, repeat: bool, delta: nat) returns (t: T.Timer)
      requires CanCall() && cmd != Quit && !cmd.EnableReading?
      requires Makes(cmd, M.Ask(when, repeat, delta, timerQueue.clock))
      modifies this`requests
      modifies timerQueue`timers, timerQueue`live, timerQueue`created, timerQueue`fd, timerQueue`clock, timerQueue`run
      ensures Valid() && timerQueue.Progress() == old(timerQueue.Progress())
      ensures fresh(timerQueue.live - old(timerQueue.live)) && Extends(old(timerQueue.run), timerQueue.run)
      ensures State() == Do(old(State()), pool, cmd)
      ensures timerQueue.Asks() == old(timerQueue.Asks()) + [M.Ask(when, repeat, delta, old(timerQueue.clock))]
      ensures fresh(t) && t.id.repeat == repeat && t.id.delta == delta && timerQueue.clock >= old(timerQueue.clock)
      ensures Adds(old(timerQueue.timers), T.Node(when, t), timerQueue.timers)
    {
      hide T.TimerQueue.Matches, T.TimerQueue.Running, T.TimerQueue.State, T.TimerQueue.Asks, T.TimerQueue.Progress,
           PollerWired;
      requests := requests + [cmd];
      t := timerQueue.AddTimer(when, repeat, delta);
    }

    /** The set of timers grows by node n. */
    static ghost predicate Adds(before: seq<T.Node>, n: T.Node, after: seq<T.Node>) {
      n in after && (forall x <- before :: x in after) && (forall x <- after :: x in before || x == n)
    }

    /**
     The addTimer call the command makes, if any, at a clock reading between before and now: runAt for
     its time, runAfter a delay and runEvery an interval after that reading, only runEvery repeating.
     */
    static ghost predicate Commanded(cmd: Command, asks: seq<M.Ask>, asks': seq<M.Ask>, before: int, now: int) {
      if cmd.RunAt? || cmd.RunAfter? || cmd.RunEvery? then
        && |asks'| == |asks| + 1 && asks <= asks'
        && var ask := asks'[|asks|];
           && before <= ask.clock <= now
           && (cmd.RunAt? ==> ask.when == cmd.when && !ask.repeat)
           && (cmd.RunAfter? ==> ask.when == ask.clock + cmd.delay && !ask.repeat)
           && (cmd.RunEvery? ==> ask.when == ask.clock + cmd.delta && ask.repeat && ask.delta == cmd.delta)
      else asks' == asks
    }

    /** One command; time may pass before it. */
    method PerformOne(cmd: Command)
      requires CanCall()
      modifies this`quit, this`requests, poller, pool`events, pool`index
      modifies timerQueue`timers, timerQueue`live, timerQueue`created, timerQueue`fd, timerQueue`clock, timerQueue`run
      ensures Valid() && timerQueue.Progress() == old(timerQueue.Progress())
      ensures fresh(timerQueue.live - old(timerQueue.live)) && Extends(old(timerQueue.run), timerQueue.run)
      ensures State() == Do(old(State()), pool, cmd)
      ensures quit == (old(quit) || cmd.Quit?)
      ensures cmd.EnableReading? && cmd.k < |pool| && pool[cmd.k] !in old(poller.slots) ==>
                poller.slots == old(poller.slots) + [pool[cmd.k]]
      ensures !(cmd.EnableReading? && cmd.k < |pool| && pool[cmd.k] !in old(poller.slots)) ==>
                poller.slots == old(poller.slots)
      ensures Commanded(cmd, old(timerQueue.Asks()), timerQueue.Asks(), old(timerQueue.clock), timerQueue.clock)
      ensures cmd.RunAt? || cmd.RunAfter? || cmd.RunEvery? ==>
                exists n :: Adds(old(timerQueue.timers), n, timerQueue.timers) && fresh(n.timer)
                  && n.when == timerQueue.Asks()[|old(timerQueue.Asks())|].when
                  && n.timer.id.repeat == cmd.RunEvery? && (cmd.RunEvery? ==> n.timer.id.delta == cmd.delta)
      ensures cmd.Quit? || cmd.EnableReading? ==> timerQueue.timers == old(timerQueue.timers)
    {
      hide T.TimerQueue.Matches, T.TimerQueue.Running, T.TimerQueue.State, T.TimerQueue.Asks, T.TimerQueue.Progress,
           PollerWired, MakeAll, Extends;
      ghost var r := timerQueue.run;
      ghost var time := timerQueue.Elapse();
      ExtendsByOne(r, M.Tick(time));
      ghost var r1 := timerQueue.run;
      ExtendsByOne(r1, M.Tick(time));
      match cmd {
        case Quit => quit := true;
        case EnableReading(k) => PerformEnable(k);
        case RunAt(when) => var _ := PerformTimer(cmd, when, false, 0);
        case RunAfter(delay) => var _ := PerformTimer(cmd, timerQueue.clock + delay, false, 0);
        case RunEvery(delta) => var _ := PerformTimer(cmd, timerQueue.clock + delta, true, delta);
      }
      ExtendsCompose(r, r1, timerQueue.run);
    }

    /** The body of a client callback. */
    method Perform(cmds: seq<Command>)
      requires CanCall()
      modifies this`quit, this`requests, poller, pool`events, pool`index
      modifies timerQueue`timers, timerQueue`live, timerQueue`created, timerQueue`fd, timerQueue`clock, timerQueue`run
      ensures Valid() && timerQueue.Progress() == old(timerQueue.Progress())
      ensures fresh(timerQueue.live - old(timerQueue.live)) && Extends(old(timerQueue.run), timerQueue.run)
      ensures State() == DoAll(old(State()), pool, cmds)
      ensures old(timerQueue.Asks()) <= timerQueue.Asks()
      ensures MakeAll(TimerCommands(cmds), timerQueue.Asks()[|old(timerQueue.Asks())|..])
    {
      ghost var asks := timerQueue.Asks();
      DoAllAsks(State(), pool, cmds);
      ghost var e, p, r := State(), timerQueue.Progress(), timerQueue.run;
      assert DoAll(e, pool, cmds[..0]) == e;
      ExtendsByOne(r, M.RunNext);
      hide T.TimerQueue.Matches, T.TimerQueue.Running, T.TimerQueue.State, T.TimerQueue.Asks, T.TimerQueue.Progress,
        PollerWired, MakeAll, Do, DoAll, Extends;
      for i := 0 to |cmds|
        invariant CanCall() && timerQueue.Progress() == p
        invariant fresh(timerQueue.live - old(timerQueue.live)) && Extends(r, timerQueue.run)
        invariant State() == DoAll(e, pool, cmds[..i]) && asks <= timerQueue.Asks()
      {
        DoOneMore(e, pool, cmds, i);
        ghost var r1 := timerQueue.run;
        PerformOne(cmds[i]);
        ExtendsCompose(r, r1, timerQueue.run);
      }
      assert cmds[..|cmds|] == cmds;
      NewAsks(e.requests, TimerCommands(cmds), asks, timerQueue.Asks());
    }

    /** The next client callback starts and runs. */
    method RunCallback(script: Script)
      requires CanCall()
      modifies this`quit, this`requests, this`calls, poller, pool`events, pool`index
      modifies timerQueue`timers, timerQueue`live, timerQueue`created, timerQueue`fd, timerQueue`clock, timerQueue`run
      ensures Valid() && timerQueue.Progress() == old(timerQueue.Progress())
      ensures fresh(timerQueue.live - old(timerQueue.live))
      ensures CalledBack(old(Now()), Now(), pool, script)
    {
      hide PollerWired, DoAll, Valid;
      var n := calls;
      calls := calls + 1;
      Perform(script(n));
    }

    /** it->second->run(): the callback of the batch's next timer. */
    method RunExpired(script: Script)
      requires Valid() && timerQueue.Progress().phase.Handling? && timerQueue.Progress().phase.ran < |timerQueue.batch|
      modifies this`quit, this`requests, this`calls, poller, pool`events, pool`index
      modifies timerQueue`timers, timerQueue`live, timerQueue`created, timerQueue`fd, timerQueue`clock, timerQueue`run
      ensures Valid() && timerQueue.Progress() == T.NextStarted(old(timerQueue.Progress()))
      ensures fresh(timerQueue.live - old(timerQueue.live))
      ensures Called(old(Now()), Now(), 1, pool, script)
    {
      hide T.TimerQueue.Matches, T.TimerQueue.Running, T.TimerQueue.State, T.TimerQueue.Asks, T.TimerQueue.Progress,
        T.TimerQueue.Valid, PollerWired, MakeAll, CalledBack, Called, T.NextStarted;
      ghost var a := Now();
      ghost var time := timerQueue.Elapse();
      timerQueue.RunNext();
      ghost var b := Now();
      RunCallback(script);
      CalledOne(a, M.Tick(time), b, Now(), pool, script);
    }

    /** The callbacks of a batch of `size` timers. */
    method RunBatch(size: nat, script: Script)
      requires Valid() && timerQueue.Progress().phase.Handling? && timerQueue.Progress().phase.ran == 0
               && size == |timerQueue.batch| == |timerQueue.Progress().phase.expired|
      modifies this`quit, this`requests, this`calls, poller, pool`events, pool`index
      modifies timerQueue`timers, timerQueue`live, timerQueue`created, timerQueue`fd, timerQueue`clock, timerQueue`run
      ensures Valid() && timerQueue.Progress() == T.BatchStarted(old(timerQueue.Progress()), size)
      ensures fresh(timerQueue.live - old(timerQueue.live))
      ensures Called(old(Now()), Now(), size, pool, script)
    {
      ghost var a, p := Now(), timerQueue.Progress();
      CalledNone(a, pool, script);
      T.BatchStartsOneByOne(p, 0);
      hide T.TimerQueue.Matches, T.TimerQueue.Running, T.TimerQueue.State, T.TimerQueue.Asks, T.TimerQueue.Progress,
        T.TimerQueue.Valid, PollerWired, MakeAll, Called, T.NextStarted, T.BatchStarted, T.CallsOf, Now;
      for i := 0 to size
        invariant Valid() && timerQueue.Progress() == T.BatchStarted(p, i)
        invariant fresh(timerQueue.live - old(timerQueue.live))
        invariant Called(a, Now(), i, pool, script)
      {
        T.BatchStartsOneByOne(p, i);
        ghost var b := Now();
        RunExpired(script);
        CalledCompose(a, b, Now(), i, 1, pool, script);
      }
    }

    /** TimerQueue::handleRead: one callback per expired timer, then reset. */
    method HandleRead(script: Script)
      requires Valid() && timerQueue.Progress().phase.Idle?
      modifies this`quit, this`requests, this`calls, poller, pool`events, pool`index, timerQueue, timerQueue.live
      ensures Valid() && timerQueue.Progress().phase.Idle?
      ensures fresh(timerQueue.live - old(timerQueue.live))
      ensures HandledTimers(old(Now()), Now(), pool, script, timerQueue.start)
    {
      hide T.TimerQueue.Matches, T.TimerQueue.Running, T.TimerQueue.State, T.TimerQueue.Asks, T.TimerQueue.Progress,
        T.TimerQueue.Valid, PollerWired, MakeAll, Called, T.DueCalls, HandledTimers;
      ghost var a := Now();
      var now, expired := timerQueue.BeginRead();
      WholeBatch(timerQueue.Progress());
      ghost var b := Now();
      RunBatch(|expired|, script);
      ghost var c := Now();
      ghost var time := timerQueue.Elapse();
      timerQueue.Reset(expired, now);
      BatchHandled(a, b, c, M.Tick(time), Now(), pool, script, timerQueue.start);
    }

    static lemma WholeBatch(p: T.Handler)
      requires p.phase.Handling?
      ensures p.phase.expired[..|p.phase.expired|] == p.phase.expired
    {
    }

    /** Between callbacks, whatever they did, a pending timer still has its wake-up. */
    lemma PendingTimersWakeTheLoop()
      requires Valid() && timerQueue.Progress().phase.Idle? && timerQueue.timers != []
      ensures timerQueue.fd.Fired? || timerQueue.fd.Armed?
      ensures var s := timerQueue.State();
              timerQueue.fd.Armed? ==>
                timerQueue.fd.deadline - (s.setAt - s.readAt) <=
                if timerQueue.timers[0].when > s.readAt + 100 then timerQueue.timers[0].when else s.readAt + 100
    {
      Theorems.PendingTimersAlwaysHaveAWakeUp(timerQueue.start, timerQueue.run);
    }

    /** The stored indices tell the registered channels apart. */
    lemma ChannelsAreDistinct()
      requires BetweenCallbacks()
      ensures NoDuplicates(poller.slots)
    {
    }

    // The loop.

    ghost predicate BetweenCallbacks()
      reads this`requests, poller, poller.slots, pool, timerQueue, timerQueue.live
    {
      Valid() && timerQueue.Progress().phase.Idle?
    }

    /** Runs one callback of a channel if it is set; the timerfd's read callback is handleRead. */
    method Call(ch: Channel, kind: Kind, isSet: bool, script: Script) returns (ghost served: seq<Served>)
      requires BetweenCallbacks()
      modifies this`quit, this`requests, this`calls, this`trace, poller, pool`events, pool`index, timerQueue,
               timerQueue.live
      ensures BetweenCallbacks() && fresh(timerQueue.live - old(timerQueue.live))
      ensures trace == old(trace) + served && Events(served) == (if isSet then [Event(ch, kind)] else [])
      ensures Chain(served, old(Now()), Now(), pool, script, timerQueue.start)
    {
      served := [];
      ghost var before := Now();
      assert |pool| > 0;
      StandStill(before);
      hide T.TimerQueue.Matches, T.TimerQueue.Running, T.TimerQueue.State, T.TimerQueue.Asks, T.TimerQueue.Progress,
           T.TimerQueue.Valid, PollerWired, MakeAll, HandledTimers, CalledBack, Pauses;
      if isSet {
        if ch == pool[0] && kind == OnRead {
          HandleRead(script);
        } else {
          RunCallback(script);
        }
        served := [Served(Event(ch, kind), before, Now())];
        OneServed(Event(ch, kind), before, Now(), pool, script, timerQueue.start);
      }
      trace := trace + served;
    }

    /** handleEvent: the callbacks cannot change the channel's revents_. */
    method HandleEvent(ch: Channel, script: Script) returns (ghost served: seq<Served>)
      requires BetweenCallbacks()
      modifies this`quit, this`requests, this`calls, this`trace, poller, pool`events, pool`index, timerQueue,
               timerQueue.live
      ensures BetweenCallbacks() && fresh(timerQueue.live - old(timerQueue.live))
      ensures trace == old(trace) + served && Events(served) == Dispatch(Firing(ch, ch.revents))
      ensures Event(ch, OnError) in Events(served) <==> ch.hasError && (POLLERR in ch.revents || POLLNVAL in ch.revents)
      ensures Event(ch, OnRead) in Events(served) <==>
                ch.hasRead && (POLLIN in ch.revents || POLLPRI in ch.revents || POLLRDHUP in ch.revents)
      ensures Event(ch, OnWrite) in Events(served) <==> ch.hasWrite && POLLOUT in ch.revents
      ensures Chain(served, old(Now()), Now(), pool, script, timerQueue.start)
    {
      hide BetweenCallbacks, Now, Chain;
      ghost var t, m0 := trace, Now();
      ghost var a := Call(ch, OnError, ch.revents * {POLLERR, POLLNVAL} != {} && ch.hasError, script);
      ghost var m1 := Now();
      ghost var b := Call(ch, OnRead, ch.revents * {POLLIN, POLLPRI, POLLRDHUP} != {} && ch.hasRead, script);
      ghost var m2 := Now();
      ghost var c := Call(ch, OnWrite, ch.revents * {POLLOUT} != {} && ch.hasWrite, script);
      ChainCompose(a, b, m0, m1, m2, pool, script, timerQueue.start);
      ChainCompose(a + b, c, m0, m2, Now(), pool, script, timerQueue.start);
      served := a + b + c;
      EventsOfThree(t, a, b, c);
      DispatchIsExact(Firing(ch, ch.revents));
    }

    /** Time passes while the loop waits. */
    method Wait()
      requires BetweenCallbacks()
      modifies timerQueue`clock, timerQueue`fd, timerQueue`run
      ensures BetweenCallbacks() && Pauses(old(Now()), Now())
    {
      hide T.TimerQueue.Matches, T.TimerQueue.Running, T.TimerQueue.State, T.TimerQueue.Asks, T.TimerQueue.Progress,
           MakeAll, PollerWired, Extends;
      ghost var r := timerQueue.run;
      ghost var time := timerQueue.Elapse();
      ExtendsByOne(r, M.Tick(time));
    }

    /** poll returns: the list of active channels is filled. */
    method FillActive(outcome: Outcome) returns (ghost fired: seq<Firing>)
      requires PollerWired()
      modifies this`activeChannels, poller`pollfds, pool`revents
      ensures PollerWired() && fired == Fired(poller.slots, outcome) && activeChannels == Channels(fired)
      ensures forall j :: 0 <= j < |fired| ==> activeChannels[j].revents == fired[j].revents
    {
      hide Fired, PolledAmong;
      activeChannels := [];
      AllSlotsPolled(poller.pollfds, poller.slots);
      activeChannels := poller.Poll(outcome);
      fired := Fired(poller.slots, outcome);
      assert forall j :: 0 <= j < |fired| ==> fired[j] in fired;
    }

    method PollOnce(outcome: Outcome) returns (ghost fired: seq<Firing>)
      requires BetweenCallbacks()
      modifies this`activeChannels, poller`pollfds, pool`revents, timerQueue`clock, timerQueue`fd, timerQueue`run
      ensures BetweenCallbacks() && Pauses(old(Now()), Now())
      ensures fired == Fired(poller.slots, outcome)
      ensures activeChannels == Channels(fired)
      ensures forall j :: 0 <= j < |fired| ==> activeChannels[j].revents == fired[j].revents
    {
      hide T.TimerQueue.Matches, T.TimerQueue.Running, T.TimerQueue.State, T.TimerQueue.Asks, T.TimerQueue.Progress,
           T.TimerQueue.Valid, MakeAll, PollerWired, Pauses, Fired;
      Wait();
      fired := FillActive(outcome);
    }

    /** The inner loop: every active channel is handled once. */
    method HandleAll(active: seq<Channel>, script: Script, ghost fired: seq<Firing>) returns (ghost served: seq<Served>)
      requires BetweenCallbacks()
      requires active == Channels(fired) && forall j :: 0 <= j < |active| ==> active[j].revents == fired[j].revents
      modifies this`quit, this`requests, this`calls, this`trace, poller, pool`events, pool`index, timerQueue,
               timerQueue.live
      ensures BetweenCallbacks() && fresh(timerQueue.live - old(timerQueue.live))
      ensures trace == old(trace) + served && Events(served) == DispatchAll(fired)
      ensures Chain(served, old(Now()), Now(), pool, script, timerQueue.start)
    {
      hide BetweenCallbacks, Now, Chain, Dispatch, DispatchAll, Events, Channels, Pauses;
      served := [];
      ghost var m0, t0 := Now(), trace;
      StandStill(m0);
      NothingServed(m0, m0, pool, script, timerQueue.start);
      NothingDispatched(fired);
      for i := 0 to |active|
        invariant BetweenCallbacks() && fresh(timerQueue.live - old(timerQueue.live))
        invariant forall j :: i <= j < |active| ==> active[j].revents == fired[j].revents
        invariant trace == t0 + served && Events(served) == DispatchAll(fired[..i])
        invariant Chain(served, m0, Now(), pool, script, timerQueue.start)
      {
        ghost var m, more := Now(), [];
        more := HandleEvent(active[i], script);
        ChainCompose(served, more, m0, m, Now(), pool, script, timerQueue.start);
        DispatchStep(t0, served, more, fired, i);
        served := served + more;
      }
      assert fired[..|active|] == fired;
    }

    /** One turn of loop. */
    method Turn(outcome: Outcome, script: Script) returns (ghost fired: seq<Firing>, ghost served: seq<Served>)
      requires BetweenCallbacks()
      modifies this`quit, this`requests, this`calls, this`trace, this`activeChannels, poller, pool, timerQueue,
               timerQueue.live
      ensures BetweenCallbacks() && fresh(timerQueue.live - old(timerQueue.live))
      ensures fired == Fired(old(poller.slots), outcome)
      ensures trace == old(trace) + served && Events(served) == DispatchAll(fired)
      ensures Chain(served, old(Now()), Now(), pool, script, timerQueue.start)
    {
      ghost var m := Now();
      hide BetweenCallbacks, Chain, Fired, DispatchAll, Pauses;
      fired := PollOnce(outcome);
      ghost var polled := Now();
      served := HandleAll(activeChannels, script, fired);
      PausesChain(m, polled, served, Now(), pool, script, timerQueue.start);
    }

    /**
     loop, over any finite sequence of poll outcomes: it returns after the turn in which a callback
     first called quit, and is still looping if the outcomes end before. Poll r was made at `points[r]`
     and `parts[r]` is what was served after it.
     */
    method Loop(polls: seq<Outcome>, script: Script) returns (
      ghost rounds: seq<seq<Firing>>, ghost parts: seq<seq<Served>>, ghost points: seq<Moment>)
      requires BetweenCallbacks() && !looping
      modifies this, poller, pool, timerQueue, timerQueue.live
      ensures BetweenCallbacks()
      ensures IsHistory(rounds, parts, points, polls, pool, script, timerQueue.start)
      ensures points[0] == old(Now()).(effects := old(State()).(quit := false)) && points[|rounds|] == Now()
      ensures NoDuplicates(points[0].effects.slots)
      ensures trace == old(trace) + Flatten(parts)
      ensures !looping <==> quit
      ensures looping ==> |rounds| == |polls|
    {
      hide T.TimerQueue.Matches, T.TimerQueue.Running, T.TimerQueue.State, T.TimerQueue.Asks, T.TimerQueue.Progress,
        T.TimerQueue.Valid, PollerWired, MakeAll, Chain, DispatchAll, Fired;
      ChannelsAreDistinct();
      looping := true;
      quit := false;
      rounds, parts, points := [], [], [Now()];
      ghost var t0 := trace;
      var n := 0;
      while !quit && n < |polls|
        invariant BetweenCallbacks() && looping
        invariant fresh(timerQueue.live - old(timerQueue.live))
        invariant n == |rounds| <= |polls| && IsHistory(rounds, parts, points, polls, pool, script, timerQueue.start)
        invariant points[n] == Now()
        invariant points[0] == old(Now()).(effects := old(State()).(quit := false))
        invariant trace == t0 + Flatten(parts)
      {
        ghost var fired, served := Turn(polls[n], script);
        HistoryGrows(rounds, parts, points, polls, pool, script, timerQueue.start, fired, served, Now());
        RoundStep(t0, parts, served);
        rounds, parts, points := rounds + [fired], parts + [served], points + [Now()];
        n := n + 1;
      }
      if quit {
        looping := false;
      }
    }
  }
}
