/** What every run of the timer machine keeps. */
module TimerSafety {
  import opened TimerMachine

  // The sorted set.

  predicate Apart(a: Entry, b: Entry) {
    a.timer.addr != b.timer.addr && a.timer.serial != b.timer.serial
  }

  ghost predicate Distinct(es: seq<Entry>) {
    forall i, j :: 0 <= i < j < |es| ==> Apart(es[i], es[j])
  }

  ghost predicate FreeOf(es: seq<Entry>, e: Entry) {
    forall i :: 0 <= i < |es| ==> Apart(es[i], e)
  }

  ghost predicate AllApart(es: seq<Entry>, fs: seq<Entry>) {
    forall j :: 0 <= j < |fs| ==> FreeOf(es, fs[j])
  }

  ghost function Serials(es: seq<Entry>): set<nat> {
    set i | 0 <= i < |es| :: es[i].timer.serial
  }

  /** Entry by entry, what insertion leaves. */
  lemma InsertAt(es: seq<Entry>, e: Entry)
    ensures var k, r := LowerBound(es, e), Insert(es, e);
            && |r| == |es| + 1 && r[k] == e
            && (forall i :: 0 <= i < k ==> r[i] == es[i])
            && (forall i :: k < i < |r| ==> r[i] == es[i - 1])
            && (forall i :: k <= i < |es| ==> r[i + 1] == es[i])
  {
  }

  lemma InsertMembers(es: seq<Entry>, e: Entry)
    ensures forall x :: x in Insert(es, e) <==> x == e || x in es
  {
    var k := LowerBound(es, e);
    assert es == es[..k] + es[k..];
  }

  lemma RestComesAfter(es: seq<Entry>, e: Entry)
    requires Sorted(es) && FreeOf(es, e)
    ensures forall i :: LowerBound(es, e) <= i < |es| ==> Before(e, es[i])
  {
    var k := LowerBound(es, e);
    forall i | k <= i < |es| ensures Before(e, es[i]) {
      assert Apart(es[k], e) && (Before(es[k], es[i]) || k == i);
    }
  }

  lemma InsertSorted(es: seq<Entry>, e: Entry)
    requires Sorted(es) && FreeOf(es, e)
    ensures Sorted(Insert(es, e))
  {
    RestComesAfter(es, e);
    InsertAt(es, e);
    var k, r := LowerBound(es, e), Insert(es, e);
    hide LowerBound, Insert, Before;
    forall i, j | 0 <= i < j < |r| ensures Before(r[i], r[j]) {
      assert i < k || i == k || Before(es[i - 1], es[j - 1]);
    }
  }

  lemma InsertFirst(es: seq<Entry>, e: Entry)
    requires Sorted(es)
    ensures Insert(es, e)[0].when == if EarliestChanges(es, e.when) then e.when else es[0].when
  {
    InsertAt(es, e);
    hide Insert;
  }

  lemma InsertDistinct(es: seq<Entry>, e: Entry)
    requires Distinct(es) && FreeOf(es, e)
    ensures Distinct(Insert(es, e))
  {
    InsertAt(es, e);
    hide LowerBound, Insert, Apart;
    var k, r := LowerBound(es, e), Insert(es, e);
    assert forall i :: 0 <= i < |es| ==> Apart(e, es[i]) by {
      forall i | 0 <= i < |es| ensures Apart(e, es[i]) {
        ApartSymmetric(es[i], e);
      }
    }
    forall i, j | 0 <= i < j < |r| ensures Apart(r[i], r[j]) {
    }
  }

  lemma ApartSymmetric(a: Entry, b: Entry)
    ensures Apart(a, b) == Apart(b, a)
  {
  }

  /** std::set::insert never meets an equal entry; the set stays sorted and its first entry is the earlier one. */
  lemma InsertKeepsOrder(es: seq<Entry>, e: Entry)
    requires Sorted(es) && Distinct(es) && FreeOf(es, e)
    ensures e !in es && Sorted(Insert(es, e)) && Distinct(Insert(es, e))
    ensures Insert(es, e)[0].when == if EarliestChanges(es, e.when) then e.when else es[0].when
    ensures EarliestChanges(es, e.when) <==> es == [] || Insert(es, e)[0].when != es[0].when
    ensures forall x :: x in Insert(es, e) <==> x == e || x in es
  {
    InsertSorted(es, e);
    InsertFirst(es, e);
    InsertDistinct(es, e);
    InsertMembers(es, e);
    assert forall i :: 0 <= i < |es| ==> Apart(es[i], e) && es[i] != e;
  }

  lemma InsertSerials(es: seq<Entry>, e: Entry)
    ensures Serials(Insert(es, e)) == Serials(es) + {e.timer.serial}
  {
    var k := LowerBound(es, e);
    var r := Insert(es, e);
    forall i | 0 <= i < |es| ensures es[i].timer.serial in Serials(r) {
      assert r[if i < k then i else i + 1] == es[i];
    }
    assert r[k] == e;
  }

  /** lower_bound of the sentry cuts the set exactly at `now`. */
  lemma DueCountIsExact(es: seq<Entry>, now: int)
    requires Sorted(es) && forall i :: 0 <= i < |es| ==> es[i].timer.addr.At?
    ensures DueCount(es, now) <= |es|
    ensures forall i :: 0 <= i < |es| ==> (i < DueCount(es, now) <==> es[i].when <= now)
  {
    var k := DueCount(es, now);
    forall i | k <= i < |es| ensures es[i].when > now {
      assert k == i || Before(es[k], es[i]);
    }
  }

  // reset

  /** The entry reset puts back for a repeating timer of the batch. */
  function Next(e: Entry, now: int): Entry {
    Entry(now + e.timer.delta, e.timer)
  }

  ghost predicate PutBack(x: Entry, expired: seq<Entry>, now: int) {
    exists e :: e in expired && e.timer.repeat && x == Next(e, now)
  }

  ghost predicate Reset(es: seq<Entry>, expired: seq<Entry>, now: int, r: seq<Entry>) {
    && Sorted(r) && Distinct(r)
    && (forall x :: x in r <==> x in es || PutBack(x, expired, now))
    && Serials(r) == Serials(es) + (Serials(expired) - OneShots(expired))
  }

  lemma NextIsFree(es: seq<Entry>, expired: seq<Entry>, now: int, n: nat, rest: seq<Entry>)
    requires n == |expired| - 1 && n >= 0 && Distinct(expired) && AllApart(es, expired)
    requires Reset(es, expired[..n], now, rest)
    ensures FreeOf(rest, Next(expired[n], now))
  {
    var e := Next(expired[n], now);
    forall i | 0 <= i < |rest| ensures Apart(rest[i], e) {
      assert rest[i] in rest;
      if rest[i] in es {
        var j :| 0 <= j < |es| && es[j] == rest[i];
        assert FreeOf(es, expired[n]) && Apart(es[j], expired[n]);
      } else {
        var x :| x in expired[..n] && x.timer.repeat && rest[i] == Next(x, now);
        var j :| 0 <= j < n && expired[..n][j] == x;
        assert Apart(expired[j], expired[n]);
      }
    }
  }

  lemma ResetStep(es: seq<Entry>, expired: seq<Entry>, now: int, n: nat, rest: seq<Entry>)
    requires n == |expired| - 1 && n >= 0 && Distinct(expired) && AllApart(es, expired)
    requires Reset(es, expired[..n], now, rest)
    ensures Reset(es, expired, now, if expired[n].timer.repeat then Insert(rest, Next(expired[n], now)) else rest)
  {
    SerialsSnoc(expired, n);
    NextIsFree(es, expired, now, n, rest);
    if expired[n].timer.repeat {
      InsertKeepsOrder(rest, Next(expired[n], now));
      InsertSerials(rest, Next(expired[n], now));
    }
    assert expired == expired[..n] + [expired[n]];
    hide Sorted, Distinct, Insert, AllApart, FreeOf, Serials, OneShots;
    forall x ensures PutBack(x, expired, now) <==>
        PutBack(x, expired[..n], now) || (expired[n].timer.repeat && x == Next(expired[n], now))
    {
    }
    OneShotsAreSerials(expired[..n]);
  }

  lemma OneShotsAreSerials(expired: seq<Entry>)
    ensures OneShots(expired) <= Serials(expired)
  {
  }

  lemma NothingToReset(es: seq<Entry>, now: int)
    requires Sorted(es) && Distinct(es)
    ensures Reset(es, [], now, es)
  {
    assert Serials([]) == {};
  }

  lemma ReinsertUnfolds(es: seq<Entry>, expired: seq<Entry>, now: int, n: nat)
    requires n == |expired| - 1
    ensures var rest := Reinsert(es, expired[..n], now);
            Reinsert(es, expired, now) == if expired[n].timer.repeat then Insert(rest, Next(expired[n], now)) else rest
  {
    hide Insert;
  }

  lemma {:induction false} ReinsertResets(es: seq<Entry>, expired: seq<Entry>, now: int)
    requires Sorted(es) && Distinct(es) && Distinct(expired) && AllApart(es, expired)
    ensures Reset(es, expired, now, Reinsert(es, expired, now))
    decreases |expired|
  {
    if expired == [] {
      NothingToReset(es, now);
    } else {
      var n := |expired| - 1;
      assert Distinct(expired[..n]) && AllApart(es, expired[..n]);
      ReinsertUnfolds(es, expired, now, n);
      hide Reset, Sorted, Distinct, AllApart, Reinsert, Insert;
      ReinsertResets(es, expired[..n], now);
      ResetStep(es, expired, now, n, Reinsert(es, expired[..n], now));
    }
  }

  lemma SerialsSnoc(expired: seq<Entry>, n: nat)
    requires n < |expired| && n == |expired| - 1 && Distinct(expired)
    ensures Serials(expired) == Serials(expired[..n]) + {expired[n].timer.serial}
    ensures OneShots(expired) == OneShots(expired[..n])
            + if expired[n].timer.repeat then {} else {expired[n].timer.serial}
    ensures expired[n].timer.serial !in Serials(expired[..n])
  {
    forall i | 0 <= i < n ensures expired[i].timer.serial in Serials(expired[..n]) {
      assert expired[..n][i] == expired[i];
    }
    forall i | 0 <= i < n && !expired[i].timer.repeat ensures expired[i].timer.serial in OneShots(expired[..n]) {
      assert expired[..n][i] == expired[i];
    }
    forall i | 0 <= i < n ensures expired[..n][i].timer.serial != expired[n].timer.serial {
      assert Apart(expired[i], expired[n]);
    }
  }

  // The invariant.

  ghost predicate Times(s: State) {
    && 0 < s.clock && s.readAt <= s.setAt <= s.clock
    && (s.phase.Handling? ==>
          && 0 < s.phase.now <= s.clock && s.phase.ran <= |s.phase.expired| && s.phase.since <= s.created
          && (forall i :: 0 <= i < |s.phase.expired| ==>
                s.phase.expired[i].when <= s.phase.now && s.phase.expired[i].timer.serial < s.phase.since)
          && (forall e <- s.entries :: e.timer.serial < s.phase.since ==> e.when > s.phase.now))
  }

  /** Every timer created is in the set, in the batch, or freed, and in one of them only. */
  ghost predicate Ownership(s: State) {
    && Sorted(s.entries) && Distinct(s.entries) && Distinct(InFlight(s)) && AllApart(s.entries, InFlight(s))
    && (forall e <- s.entries + InFlight(s) :: e.timer.addr.At? && (e.timer.repeat ==> e.timer.delta >= 0))
    && s.freed !! Serials(s.entries) && s.freed !! Serials(InFlight(s))
    && (forall n: nat :: n < s.created <==> n in s.freed || n in Serials(s.entries) || n in Serials(InFlight(s)))
  }

  /** The timerfd will wake the loop no later than the first timer, or 100us after it was last armed. */
  ghost predicate Guarded(s: State)
    requires s.entries != []
  {
    match s.fd
    case Fired => true
    case Disarmed => false
    case Armed(deadline) =>
      var limit := if s.entries[0].when > s.readAt + 100 then s.entries[0].when else s.readAt + 100;
      deadline <= limit + (s.setAt - s.readAt)
  }

  /** Inside handleRead only timers due at or before time 0 must be guarded: reset arms for all others. */
  ghost predicate WakeUp(s: State) {
    s.entries != [] && (s.phase.Handling? ==> s.entries[0].when <= 0) ==> Guarded(s)
  }

  /** A call may be followed by a later run of the same timer only if that repeats, one interval on. */
  ghost predicate Permits(c: Call, timer: Timer, at: int) {
    c.timer.serial == timer.serial ==> c.timer == timer && timer.repeat && at >= c.at + timer.delta
  }

  ghost predicate CallHistory(calls: seq<Call>, clock: int) {
    && (forall i :: 0 <= i < |calls| ==> calls[i].due <= calls[i].at <= clock)
    && (forall i, j :: 0 <= i < j < |calls| ==> Permits(calls[i], calls[j].timer, calls[j].at))
  }

  ghost predicate CallsPermitQueue(s: State) {
    && (forall c <- s.calls :: c.timer.serial < s.created)
    && (forall c <- s.calls, e <- s.entries :: Permits(c, e.timer, e.when))
  }

  ghost predicate CallsPermitBatch(s: State) {
    s.phase.Handling? ==>
      && (forall c <- s.calls, m :: s.phase.ran <= m < |s.phase.expired| ==>
            Permits(c, s.phase.expired[m].timer, s.phase.expired[m].when))
      && (forall c <- s.calls, m :: 0 <= m < |s.phase.expired| && m < s.phase.ran ==>
            HasRun(c, s.phase.expired[m].timer, s.phase.now))
  }

  /** A call of a timer whose callback this batch has started. */
  ghost predicate HasRun(c: Call, timer: Timer, now: int) {
    c.timer.serial == timer.serial ==> c.timer == timer && c.at <= now
  }

  ghost predicate Inv(s: State) {
    Times(s) && Ownership(s) && WakeUp(s) && CallHistory(s.calls, s.clock) && CallsPermitQueue(s) && CallsPermitBatch(s)
  }

  lemma TickKeepsInv(s: State, time: int)
    requires Inv(s) && time >= s.clock
    ensures Inv(Apply(s, Tick(time)))
  {
  }

  /** The call that RunNext logs. */
  ghost function NextCall(s: State): Call
    requires Enabled(s, RunNext)
  {
    var e := s.phase.expired[s.phase.ran];
    Call(e.timer, e.when, s.phase.now)
  }

  lemma RunNextKeepsHistory(s: State)
    requires Inv(s) && Enabled(s, RunNext)
    ensures CallHistory(s.calls + [NextCall(s)], s.clock)
  {
    var e, c := s.phase.expired[s.phase.ran], NextCall(s);
    assert e in s.entries + InFlight(s);
    forall i | 0 <= i < |s.calls| ensures Permits(s.calls[i], c.timer, c.at) {
      assert s.calls[i] in s.calls;
    }
    hide Permits, Ownership, WakeUp, CallsPermitQueue, CallsPermitBatch;
  }

  lemma RunNextKeepsQueue(s: State)
    requires Inv(s) && Enabled(s, RunNext)
    ensures CallsPermitQueue(Apply(s, RunNext))
  {
    var e, c := s.phase.expired[s.phase.ran], NextCall(s);
    hide Times, WakeUp, CallHistory, CallsPermitBatch;
    assert e.timer.serial in Serials(InFlight(s));
    forall x <- s.entries ensures Permits(c, x.timer, x.when) {
      var i :| 0 <= i < |s.entries| && s.entries[i] == x;
      assert FreeOf(s.entries, e) && Apart(s.entries[i], e);
    }
    forall x | x in s.calls + [c] ensures x in s.calls || x == c {
    }
  }

  lemma NextCallPermitsTheRest(s: State, x: Call, m: nat)
    requires Inv(s) && Enabled(s, RunNext)
    requires x in s.calls + [NextCall(s)] && s.phase.ran < m < |s.phase.expired|
    ensures Permits(x, s.phase.expired[m].timer, s.phase.expired[m].when)
  {
    hide WakeUp, CallHistory;
    assert Apart(s.phase.expired[s.phase.ran], s.phase.expired[m]);
    if x !in s.calls {
      assert x == NextCall(s);
    }
  }

  lemma NextCallHasRun(s: State, x: Call, m: nat)
    requires Inv(s) && Enabled(s, RunNext)
    requires x in s.calls + [NextCall(s)] && m <= s.phase.ran
    ensures HasRun(x, s.phase.expired[m].timer, s.phase.now)
  {
    hide WakeUp, CallHistory;
    var e := s.phase.expired[m];
    assert e in s.entries + InFlight(s);
    if x in s.calls {
      assert if m < s.phase.ran then HasRun(x, e.timer, s.phase.now) else Permits(x, e.timer, e.when);
    } else {
      assert x == NextCall(s);
      assert m < s.phase.ran ==> Apart(e, s.phase.expired[s.phase.ran]);
    }
  }

  lemma RunNextKeepsBatch(s: State)
    requires Inv(s) && Enabled(s, RunNext)
    ensures CallsPermitBatch(Apply(s, RunNext))
  {
    assert Apply(s, RunNext) ==
           s.(calls := s.calls + [NextCall(s)], phase := s.phase.(ran := s.phase.ran + 1));
    hide Inv, Permits, HasRun, NextCall;
    forall x, m | x in s.calls + [NextCall(s)] && s.phase.ran < m < |s.phase.expired|
      ensures Permits(x, s.phase.expired[m].timer, s.phase.expired[m].when)
    {
      NextCallPermitsTheRest(s, x, m);
    }
    forall x, m | x in s.calls + [NextCall(s)] && 0 <= m <= s.phase.ran
      ensures HasRun(x, s.phase.expired[m].timer, s.phase.now)
    {
      NextCallHasRun(s, x, m);
    }
  }

  lemma RunNextKeepsInv(s: State)
    requires Inv(s) && Enabled(s, RunNext)
    ensures Inv(Apply(s, RunNext))
  {
    RunNextKeepsHistory(s);
    RunNextKeepsQueue(s);
    RunNextKeepsBatch(s);
    hide CallHistory, CallsPermitQueue, CallsPermitBatch;
  }

  // addTimer

  lemma NewEntryIsFree(s: State, when: int, timer: Timer)
    requires Inv(s) && timer.serial == s.created && timer.addr.At? && !AddrInUse(s, timer.addr.n)
    ensures FreeOf(s.entries, Entry(when, timer)) && FreeOf(InFlight(s), Entry(when, timer))
  {
    forall i | 0 <= i < |s.entries| ensures Apart(s.entries[i], Entry(when, timer)) {
      assert s.entries[i].timer.serial in Serials(s.entries);
    }
    forall i | 0 <= i < |InFlight(s)| ensures Apart(InFlight(s)[i], Entry(when, timer)) {
      assert InFlight(s)[i].timer.serial in Serials(InFlight(s));
    }
  }

  lemma ArmGuards(s: State, expiration: int, lag: nat)
    requires s.entries != [] && s.entries[0].when == expiration
    ensures Guarded(Arm(s, expiration, lag))
  {
    TimeSpecIsExact(expiration, s.clock, s.clock + lag);
  }

  lemma AddKeepsWakeUp(s: State, when: int, timer: Timer, lag: nat)
    requires Inv(s) && FreeOf(s.entries, Entry(when, timer))
    ensures WakeUp(Add(s, when, timer, lag))
  {
    var e := Entry(when, timer);
    InsertKeepsOrder(s.entries, e);
    var s' := s.(entries := Insert(s.entries, e), created := s.created + 1);
    hide Insert, Sorted, Distinct, Ownership, Times;
    if EarliestChanges(s.entries, when) {
      ArmGuards(s', when, lag);
    }
  }

  lemma AddKeepsOwnership(s: State, when: int, timer: Timer, lag: nat)
    requires Inv(s) && timer.serial == s.created && FreeOf(s.entries, Entry(when, timer))
    requires FreeOf(InFlight(s), Entry(when, timer)) && timer.addr.At? && (timer.repeat ==> timer.delta >= 0)
    ensures Ownership(Add(s, when, timer, lag))
  {
    var e := Entry(when, timer);
    var s' := Add(s, when, timer, lag);
    InsertKeepsOrder(s.entries, e);
    InsertSerials(s.entries, e);
    assert InFlight(s') == InFlight(s) && s'.entries == Insert(s.entries, e) && s'.freed == s.freed;
    hide Insert, Add, Sorted, WakeUp, Times, CallHistory, CallsPermitQueue, CallsPermitBatch;
    forall j | 0 <= j < |InFlight(s)| ensures FreeOf(s'.entries, InFlight(s)[j]) {
      forall i | 0 <= i < |s'.entries| ensures Apart(s'.entries[i], InFlight(s)[j]) {
        assert s'.entries[i] in s'.entries;
        ApartSymmetric(InFlight(s)[j], e);
        assert Apart(InFlight(s)[j], e);
        if s'.entries[i] != e {
          var k :| 0 <= k < |s.entries| && s.entries[k] == s'.entries[i];
          assert FreeOf(s.entries, InFlight(s)[j]) && Apart(s.entries[k], InFlight(s)[j]);
        }
      }
    }
    forall x <- s'.entries + InFlight(s') ensures x.timer.addr.At? && (x.timer.repeat ==> x.timer.delta >= 0) {
      assert x == e || x in s.entries + InFlight(s);
    }
  }

  lemma AddKeepsTimes(s: State, when: int, timer: Timer, lag: nat)
    requires Inv(s) && timer.serial == s.created
    ensures Times(Add(s, when, timer, lag))
  {
    InsertMembers(s.entries, Entry(when, timer));
    hide Insert, Guarded, Ownership, WakeUp, CallHistory, CallsPermitQueue, CallsPermitBatch;
  }

  lemma AddKeepsCalls(s: State, when: int, timer: Timer, lag: nat)
    requires Inv(s) && timer.serial == s.created
    ensures var s' := Add(s, when, timer, lag);
            CallHistory(s'.calls, s'.clock) && CallsPermitQueue(s') && CallsPermitBatch(s')
  {
    InsertMembers(s.entries, Entry(when, timer));
    var s' := Add(s, when, timer, lag);
    assert s'.calls == s.calls && s'.phase == s.phase && s'.clock >= s.clock && s'.created == s.created + 1;
    assert s'.entries == Insert(s.entries, Entry(when, timer));
    hide Insert, Add, Times, Ownership, WakeUp;
  }

  lemma AddKeepsInv(s: State, when: int, repeat: bool, delta: int, addr: nat, lag: nat)
    requires Inv(s) && Enabled(s, AddTimer(when, repeat, delta, addr, lag))
    ensures Inv(Apply(s, AddTimer(when, repeat, delta, addr, lag)))
  {
    var timer := Timer(At(addr), s.created, repeat, delta);
    NewEntryIsFree(s, when, timer);
    AddKeepsTimes(s, when, timer, lag);
    AddKeepsOwnership(s, when, timer, lag);
    AddKeepsWakeUp(s, when, timer, lag);
    AddKeepsCalls(s, when, timer, lag);
    hide Add, Times, Ownership, WakeUp, CallHistory, CallsPermitQueue, CallsPermitBatch;
  }

  // handleRead, first part

  lemma BeginKeepsOwnership(s: State, lag: nat)
    requires Inv(s) && s.phase.Idle?
    ensures Ownership(Begin(s, lag))
  {
    var k := DueCount(s.entries, s.clock);
    SplitQueue(s.entries, k);
    assert Serials(InFlight(s)) == {};
    hide DueCount, Sorted, Distinct, AllApart, Serials, Times, WakeUp, CallHistory, CallsPermitQueue, CallsPermitBatch;
    var s' := Begin(s, lag);
    assert InFlight(s') == s.entries[..k] && s'.entries == s.entries[k..];
    forall x <- s'.entries + InFlight(s') ensures x in s.entries + InFlight(s) {
      assert x in s.entries;
    }
  }

  /** The batch holds what is due, the set what is not. */
  lemma BatchIsWhatIsDue(s: State, lag: nat)
    requires Inv(s) && s.phase.Idle?
    ensures var s' := Begin(s, lag);
            && s'.phase.Handling? && s'.phase.now == s.clock && s.entries == s'.phase.expired + s'.entries
            && (forall e <- s'.phase.expired :: e.when <= s.clock && e.timer.serial < s.created)
            && (forall e <- s'.entries :: e.when > s.clock)
  {
    QueueIsKnown(s);
    DueSlices(s.entries, s.clock);
    hide DueCount, Inv, Ownership, Serials, Sorted;
  }

  lemma QueueIsKnown(s: State)
    requires Inv(s)
    ensures forall e <- s.entries :: e.timer.addr.At? && e.timer.serial < s.created
  {
    forall e <- s.entries ensures e.timer.addr.At? && e.timer.serial < s.created {
      assert e in s.entries + InFlight(s);
      assert e.timer.serial in Serials(s.entries);
    }
  }

  lemma DueSlices(es: seq<Entry>, now: int)
    requires Sorted(es) && forall e <- es :: e.timer.addr.At?
    ensures var k := DueCount(es, now);
            && k <= |es| && es == es[..k] + es[k..]
            && (forall e <- es[..k] :: e.when <= now) && (forall e <- es[k..] :: e.when > now)
  {
    assert forall i :: 0 <= i < |es| ==> es[i] in es;
    DueCountIsExact(es, now);
    hide DueCount, Sorted;
  }

  lemma BeginKeepsTimes(s: State, lag: nat)
    requires Inv(s) && s.phase.Idle?
    ensures Times(Begin(s, lag)) && WakeUp(Begin(s, lag))
  {
    BatchIsWhatIsDue(s, lag);
    hide DueCount, Ownership, CallHistory, CallsPermitQueue, CallsPermitBatch, Guarded;
    var s' := Begin(s, lag);
    assert s'.entries != [] ==> s'.entries[0] in s'.entries;
    forall i | 0 <= i < |s'.phase.expired|
      ensures s'.phase.expired[i].when <= s'.phase.now && s'.phase.expired[i].timer.serial < s.created
    {
      assert s'.phase.expired[i] in s'.phase.expired;
    }
  }

  lemma BeginKeepsCalls(s: State, lag: nat)
    requires Inv(s) && s.phase.Idle?
    ensures var s' := Begin(s, lag);
            CallHistory(s'.calls, s'.clock) && CallsPermitQueue(s') && CallsPermitBatch(s')
  {
    BatchIsWhatIsDue(s, lag);
    var s' := Begin(s, lag);
    assert s'.calls == s.calls && s'.created == s.created && s'.clock >= s.clock && s'.phase.ran == 0;
    hide DueCount, Begin, Ownership, Times, WakeUp;
    forall e <- s'.entries ensures e in s.entries {
    }
    forall m | 0 <= m < |s'.phase.expired| ensures s'.phase.expired[m] in s.entries {
    }
  }

  lemma BeginKeepsInv(s: State, lag: nat)
    requires Inv(s) && s.phase.Idle?
    ensures Inv(Begin(s, lag))
  {
    BeginKeepsOwnership(s, lag);
    BeginKeepsTimes(s, lag);
    BeginKeepsCalls(s, lag);
    hide Begin, CallHistory, Times, Ownership, WakeUp, CallsPermitQueue, CallsPermitBatch;
  }

  lemma SplitQueue(es: seq<Entry>, k: nat)
    requires k <= |es| && Sorted(es) && Distinct(es)
    ensures Sorted(es[k..]) && Distinct(es[k..]) && Distinct(es[..k]) && AllApart(es[k..], es[..k])
    ensures Serials(es) == Serials(es[..k]) + Serials(es[k..])
  {
    forall j, i | 0 <= j < k && 0 <= i < |es| - k ensures Apart(es[k..][i], es[..k][j]) {
      ApartSymmetric(es[j], es[k + i]);
      assert Apart(es[j], es[k + i]);
    }
    forall i | 0 <= i < |es| ensures es[i].timer.serial in Serials(es[..k]) + Serials(es[k..]) {
      if i < k {
        assert es[..k][i] == es[i];
      } else {
        assert es[k..][i - k] == es[i];
      }
    }
  }

  // handleRead, last part

  lemma EndResets(s: State, lag: nat)
    requires Inv(s) && Enabled(s, EndRead(lag))
    ensures var s' := End(s, lag);
            && Reset(s.entries, s.phase.expired, s.phase.now, s'.entries)
            && s'.freed == s.freed + OneShots(s.phase.expired)
            && s'.calls == s.calls && s'.created == s.created && s'.phase.Idle? && s'.clock >= s.clock
            && s'.readAt <= s'.setAt <= s'.clock
  {
    ReinsertResets(s.entries, s.phase.expired, s.phase.now);
    hide Reset, Reinsert, WakeUp, CallHistory, CallsPermitQueue, CallsPermitBatch, Ownership;
  }

  lemma EndKeepsOwnership(s: State, lag: nat)
    requires Inv(s) && Enabled(s, EndRead(lag))
    ensures Ownership(End(s, lag))
  {
    EndResets(s, lag);
    OneShotsAreSerials(s.phase.expired);
    SerialsDisjoint(s.entries, s.phase.expired);
    var s' := End(s, lag);
    assert InFlight(s) == s.phase.expired;
    hide End, Serials, OneShots, AllApart, Times, WakeUp, CallHistory, CallsPermitQueue, CallsPermitBatch;
    NoBatch();
    forall x <- s'.entries + InFlight(s') ensures x.timer.addr.At? && (x.timer.repeat ==> x.timer.delta >= 0) {
      assert x in s'.entries;
      if x !in s.entries {
        var e :| e in s.phase.expired && e.timer.repeat && x == Next(e, s.phase.now);
        assert e in s.entries + InFlight(s);
      } else {
        assert x in s.entries + InFlight(s);
      }
    }
  }

  lemma NoBatch()
    ensures Serials([]) == {} && forall es :: AllApart(es, [])
  {
  }

  lemma SerialsDisjoint(es: seq<Entry>, fs: seq<Entry>)
    requires AllApart(es, fs)
    ensures Serials(es) !! Serials(fs)
  {
    forall i, j | 0 <= i < |es| && 0 <= j < |fs| ensures es[i].timer.serial != fs[j].timer.serial {
      assert FreeOf(es, fs[j]) && Apart(es[i], fs[j]);
    }
  }

  /** Where reset skips arming, the first timer is one the batch's callbacks have armed for. */
  lemma UnarmedFirstIsGuarded(s: State, r: seq<Entry>)
    requires Inv(s) && s.phase.Handling? && Reset(s.entries, s.phase.expired, s.phase.now, r)
    requires r != [] && r[0].when <= 0
    ensures s.entries != [] && s.entries[0].when == r[0].when && Guarded(s)
  {
    assert r[0] in r;
    forall e | e in s.phase.expired && e.timer.repeat ensures Next(e, s.phase.now).when > 0 {
      assert e in s.entries + InFlight(s);
    }
    assert r[0] in s.entries;
    assert s.entries[0] in r;
    var i :| 0 <= i < |s.entries| && s.entries[i] == r[0];
    assert i == 0 || Before(s.entries[0], s.entries[i]);
    var j :| 0 <= j < |r| && r[j] == s.entries[0];
    assert j == 0 || Before(r[0], r[j]);
  }

  lemma EndKeepsWakeUp(s: State, lag: nat)
    requires Inv(s) && Enabled(s, EndRead(lag))
    ensures WakeUp(End(s, lag)) && Times(End(s, lag))
  {
    EndResets(s, lag);
    var r := Reinsert(s.entries, s.phase.expired, s.phase.now);
    var s' := s.(entries := r, phase := Idle, freed := s.freed + OneShots(s.phase.expired));
    if r != [] && r[0].when > 0 {
      ArmGuards(s', r[0].when, lag);
    } else if r != [] {
      UnarmedFirstIsGuarded(s, r);
    }
    hide Reinsert, Reset, Ownership, CallHistory, CallsPermitQueue, CallsPermitBatch, Arm;
  }

  lemma EndKeepsCalls(s: State, lag: nat)
    requires Inv(s) && Enabled(s, EndRead(lag))
    ensures var s' := End(s, lag);
            CallHistory(s'.calls, s'.clock) && CallsPermitQueue(s') && CallsPermitBatch(s')
  {
    EndResets(s, lag);
    var s' := End(s, lag);
    hide End, Ownership, WakeUp, Sorted, Distinct, Serials;
    forall c <- s.calls, x <- s'.entries ensures Permits(c, x.timer, x.when) {
      if x !in s.entries {
        var e :| e in s.phase.expired && e.timer.repeat && x == Next(e, s.phase.now);
        var m :| 0 <= m < |s.phase.expired| && s.phase.expired[m] == e;
        assert HasRun(c, s.phase.expired[m].timer, s.phase.now);
      }
    }
  }

  lemma EveryStepKeepsInv(s: State, a: Action)
    requires Inv(s) && Enabled(s, a)
    ensures Inv(Apply(s, a))
  {
    hide Times, Ownership, WakeUp, CallHistory, CallsPermitQueue, CallsPermitBatch, Begin, End, Add;
    match a
    case Tick(time) => TickKeepsInv(s, time);
    case AddTimer(when, repeat, delta, addr, lag) => AddKeepsInv(s, when, repeat, delta, addr, lag);
    case BeginRead(lag) => BeginKeepsInv(s, lag);
    case RunNext => RunNextKeepsInv(s);
    case EndRead(lag) =>
      EndKeepsOwnership(s, lag);
      EndKeepsWakeUp(s, lag);
      EndKeepsCalls(s, lag);
  }

  lemma {:induction false} EveryRunKeepsInv(s: State, run: seq<Action>)
    requires Initial(s) && IsRun(s, run)
    ensures Inv(After(s, run))
    decreases |run|
  {
    if run == [] {
      NoBatch();
    } else {
      EveryRunKeepsInv(s, run[..|run| - 1]);
      EveryStepKeepsInv(After(s, run[..|run| - 1]), run[|run| - 1]);
    }
  }
}
