/**
 Channel and Poller of reactor1: the pollfds_ vector, the map from descriptors to channels, and the
 index stored in each channel, kept in step by updateChannel.
 */
module Poller {
  datatype Flag = POLLIN | POLLPRI | POLLOUT | POLLERR | POLLHUP | POLLNVAL | POLLRDHUP

  /** A bit mask of poll events. */
  type Flags = set<Flag>

  datatype PollFd = PollFd(fd: int, events: Flags, revents: Flags)

  class Channel {
    const fd: nat
    var events: Flags
    var revents: Flags
    var index: int
    const hasRead: bool       // which callbacks are set
    const hasWrite: bool
    const hasError: bool

    constructor (fd: nat, hasRead: bool, hasWrite: bool, hasError: bool)
      ensures this.fd == fd && events == {} && revents == {} && index == -1
      ensures this.hasRead == hasRead && this.hasWrite == hasWrite && this.hasError == hasError
    {
      this.fd, events, revents, index := fd, {}, {}, -1;
      this.hasRead, this.hasWrite, this.hasError := hasRead, hasWrite, hasError;
    }
  }

  /** The channels of the slots whose revents are set, in slot order. */
  ghost function Ready(pollfds: seq<PollFd>, slots: seq<Channel>): (active: seq<Channel>)
    requires |pollfds| == |slots|
    ensures forall c <- active :: c in slots
  {
    if pollfds == [] then []
    else
      var n := |pollfds| - 1;
      Ready(pollfds[..n], slots[..n]) + if pollfds[n].revents != {} then [slots[n]] else []
  }

  class Poller {
    var pollfds: seq<PollFd>
    var channels: map<int, Channel>
    ghost var slots: seq<Channel>      // the channel registered at each slot

    /** Slots and registered channels correspond one to one, through the stored indices. */
    ghost predicate Valid()
      reads this, slots
    {
      && |slots| == |pollfds|
      && (forall k :: 0 <= k < |slots| ==>
            && slots[k].index == k
            && slots[k].fd in channels && channels[slots[k].fd] == slots[k]
            && (pollfds[k].fd == slots[k].fd || pollfds[k].fd == -1))
      && (forall fd :: fd in channels ==> channels[fd] in slots && channels[fd].fd == fd)
    }

    /** Each slot polls for its channel's events; the channel in `except` may be about to change. */
    ghost predicate AgreesExcept(except: set<Channel>)
      reads this, slots
    {
      && |slots| == |pollfds|
      && forall k :: 0 <= k < |slots| && slots[k] !in except ==> pollfds[k].events == slots[k].events
    }

    /** The channels whose slot has not been taken out of the poll set. */
    ghost function Polled(): seq<Channel>
      reads this
    {
      if |slots| == |pollfds| then PolledAmong(pollfds, slots) else []
    }

    /** No slot has been taken out of the poll set. */
    ghost predicate AllPolled()
      reads this
    {
      |slots| == |pollfds| && forall k :: 0 <= k < |slots| ==> pollfds[k].fd == slots[k].fd
    }

    constructor ()
      ensures Valid() && AllPolled() && AgreesExcept({}) && slots == []
    {
      pollfds, channels, slots := [], map[], [];
    }

    /**
     The preconditions are the assertions of the source: a channel without an index has no entry
     for its descriptor, and one with an index is registered.
     */
    method UpdateChannel(channel: Channel)
      requires Valid() && AgreesExcept({channel})
      requires channel.index < 0 ==> channel.fd !in channels
      requires channel.index >= 0 ==> channel in slots
      modifies this, channel`index
      ensures Valid() && AgreesExcept({})
      ensures old(AllPolled()) && channel.events != {} ==> AllPolled()
      ensures old(channel.index) < 0 ==>
                && slots == old(slots) + [channel]
                && pollfds == old(pollfds) + [PollFd(channel.fd, channel.events, {})]
      ensures old(channel.index) >= 0 ==>
                && slots == old(slots) && channel.index == old(channel.index)
                && pollfds == old(pollfds)[channel.index :=
                     PollFd(if channel.events == {} then -1 else old(pollfds)[channel.index].fd, channel.events, {})]
    {
      if channel.index < 0 {
        assert channel !in slots;
        pollfds := pollfds + [PollFd(channel.fd, channel.events, {})];
        channel.index := |pollfds| - 1;
        channels := channels[channel.fd := channel];
        slots := slots + [channel];
      } else {
        var idx := channel.index;
        var pfd := pollfds[idx];
        pfd := pfd.(events := channel.events, revents := {});
        if channel.events == {} {
          pfd := pfd.(fd := -1);
        }
        pollfds := pollfds[idx := pfd];
      }
    }

    /**
     The loop with its early exit. When numEvents is the number of slots with revents set, the list
     is all ready channels, in slot order, each carrying its slot's revents.
     */
    method FillActiveChannels(numEvents: int) returns (active: seq<Channel>)
      requires Valid()
      requires forall k :: 0 <= k < |slots| && pollfds[k].revents != {} ==> pollfds[k].fd == slots[k].fd
      requires numEvents == ReadyCount(pollfds)
      modifies slots`revents
      ensures Valid()
      ensures active == Ready(pollfds, slots)
      ensures forall k :: 0 <= k < |slots| ==>
                slots[k].revents == if pollfds[k].revents != {} then pollfds[k].revents else old(slots[k].revents)
    {
      active := Fill(pollfds, channels, slots, numEvents);
    }

    /** ::poll: the kernel writes each slot's revents, from what it has to report per descriptor; not for fd -1. */
    method KernelPoll(report: map<int, Flags>) returns (numEvents: nat)
      requires |slots| == |pollfds|
      modifies this`pollfds
      ensures |pollfds| == |slots|
      ensures forall k :: 0 <= k < |slots| ==>
                pollfds[k] == old(pollfds)[k].(revents := Reported(report, old(pollfds)[k].fd))
      ensures numEvents == ReadyCount(pollfds)
    {
      pollfds := seq(|pollfds|, k requires 0 <= k < |pollfds| reads this =>
        pollfds[k].(revents := Reported(report, pollfds[k].fd)));
      numEvents := ReadyCount(pollfds);
    }

    /** poll: nothing is filled in on an error or a timeout. */
    method Poll(outcome: Outcome) returns (active: seq<Channel>)
      requires Valid() && AgreesExcept({})
      modifies this`pollfds, slots`revents
      ensures Valid() && AgreesExcept({}) && (old(AllPolled()) ==> AllPolled())
      ensures active == Channels(Fired(old(Polled()), outcome))
      ensures forall f <- Fired(old(Polled()), outcome) :: f.channel.revents == f.revents
      ensures forall k :: 0 <= k < |slots| ==>
                (slots[k] in active <==>
                   outcome.Report? && old(pollfds)[k].fd >= 0 && old(pollfds)[k].fd in outcome.report
                   && outcome.report[old(pollfds)[k].fd] != {})
    {
      hide Ready, ReadyCount, FiredBy, PolledAmong;
      active := [];
      if outcome.Report? {
        ghost var before := pollfds;
        var numEvents := KernelPoll(outcome.report);
        ReadyMembers(pollfds, slots);
        PolledBySlots(before, pollfds, slots);
        FiredIsReady(pollfds, slots, outcome.report);
        hide Reported;
        if numEvents > 0 {
          active := FillActiveChannels(numEvents);
        } else {
          NoneReadyAfter(pollfds, slots, 0);
          EmptyPrefix(pollfds, slots);
        }
        forall f <- Fired(old(Polled()), outcome) ensures f.channel.revents == f.revents {
          var k := FiredComesFromASlot(pollfds, slots, outcome.report, f);
        }
      }
    }
  }

  /** What ::poll reports: an error, or events per descriptor (none on a timeout). */
  datatype Outcome = Error | Report(report: map<int, Flags>)

  datatype Firing = Firing(channel: Channel, revents: Flags)

  function Reported(report: map<int, Flags>, fd: int): Flags {
    if fd >= 0 && fd in report then report[fd] else {}
  }

  ghost function PolledAmong(pollfds: seq<PollFd>, slots: seq<Channel>): seq<Channel>
    requires |pollfds| == |slots|
  {
    if slots == [] then []
    else
      var n := |slots| - 1;
      PolledAmong(pollfds[..n], slots[..n]) + if pollfds[n].fd == slots[n].fd then [slots[n]] else []
  }

  lemma {:induction false} PolledBySlots(before: seq<PollFd>, pollfds: seq<PollFd>, slots: seq<Channel>)
    requires |before| == |pollfds| == |slots|
    requires forall k :: 0 <= k < |slots| ==> pollfds[k].fd == before[k].fd
    ensures PolledAmong(pollfds, slots) == PolledAmong(before, slots)
  {
    if slots != [] {
      var n := |slots| - 1;
      PolledBySlots(before[..n], pollfds[..n], slots[..n]);
    }
  }

  /** If no slot has been taken out, the kernel polls for all of them. */
  lemma {:induction false} AllSlotsPolled(pollfds: seq<PollFd>, slots: seq<Channel>)
    requires |pollfds| == |slots| && forall k :: 0 <= k < |slots| ==> pollfds[k].fd == slots[k].fd
    ensures PolledAmong(pollfds, slots) == slots
  {
    if slots != [] {
      var n := |slots| - 1;
      AllSlotsPolled(pollfds[..n], slots[..n]);
    }
  }

  ghost function FiredBy(slots: seq<Channel>, report: map<int, Flags>): seq<Firing> {
    if slots == [] then []
    else
      var n := |slots| - 1;
      var revents := Reported(report, slots[n].fd);
      FiredBy(slots[..n], report) + if revents != {} then [Firing(slots[n], revents)] else []
  }

  /** The registered channels the kernel reports events for, in slot order, with those events. */
  ghost function Fired(slots: seq<Channel>, outcome: Outcome): seq<Firing> {
    if outcome.Error? then [] else FiredBy(slots, outcome.report)
  }

  ghost function Channels(fired: seq<Firing>): (cs: seq<Channel>)
    ensures |cs| == |fired| && forall i :: 0 <= i < |fired| ==> cs[i] == fired[i].channel
  {
    seq(|fired|, i requires 0 <= i < |fired| => fired[i].channel)
  }

  lemma FiredSnoc(slots: seq<Channel>, last: Channel, report: map<int, Flags>)
    ensures var revents := Reported(report, last.fd);
            FiredBy(slots + [last], report) ==
            FiredBy(slots, report) + if revents != {} then [Firing(last, revents)] else []
  {
    assert (slots + [last])[..|slots|] == slots;
  }

  /** The last slot's part in what is ready and in what is fired. */
  lemma LastSlot(pollfds: seq<PollFd>, slots: seq<Channel>, report: map<int, Flags>)
    requires |pollfds| == |slots| && slots != []
    requires var p, c := pollfds[|slots| - 1], slots[|slots| - 1];
             (p.fd == c.fd || p.fd == -1) && p.revents == Reported(report, p.fd)
    ensures var n := |slots| - 1;
            && Ready(pollfds, slots) ==
               Ready(pollfds[..n], slots[..n]) + (if pollfds[n].revents != {} then [slots[n]] else [])
            && FiredBy(PolledAmong(pollfds, slots), report) ==
               FiredBy(PolledAmong(pollfds[..n], slots[..n]), report)
               + (if pollfds[n].revents != {} then [Firing(slots[n], pollfds[n].revents)] else [])
  {
    var n := |slots| - 1;
    var before := PolledAmong(pollfds[..n], slots[..n]);
    assert PolledAmong(pollfds, slots) == before + if pollfds[n].fd == slots[n].fd then [slots[n]] else [];
    hide PolledAmong, FiredBy;
    FiredSnoc(before, slots[n], report);
    assert before + [] == before;
  }

  lemma ChannelsSnoc(fired: seq<Firing>, f: Firing)
    ensures Channels(fired + [f]) == Channels(fired) + [f.channel]
  {
  }

  lemma NoSlots(report: map<int, Flags>)
    ensures Ready([], []) == Channels(FiredBy(PolledAmong([], []), report))
    ensures FiredBy(PolledAmong([], []), report) == []
  {
  }

  lemma {:induction false} FiredIsReady(pollfds: seq<PollFd>, slots: seq<Channel>, report: map<int, Flags>)
    requires |pollfds| == |slots|
    requires forall k :: 0 <= k < |slots| ==> pollfds[k].fd == slots[k].fd || pollfds[k].fd == -1
    requires forall k :: 0 <= k < |slots| ==> pollfds[k].revents == Reported(report, pollfds[k].fd)
    ensures Channels(FiredBy(PolledAmong(pollfds, slots), report)) == Ready(pollfds, slots)
  {
    hide Ready, FiredBy, PolledAmong, Reported, Channels;
    if slots == [] {
      NoSlots(report);
    } else {
      var n := |slots| - 1;
      FiredIsReady(pollfds[..n], slots[..n], report);
      LastSlot(pollfds, slots, report);
      var before := FiredBy(PolledAmong(pollfds[..n], slots[..n]), report);
      ChannelsSnoc(before, Firing(slots[n], pollfds[n].revents));
      assert before + [] == before && Ready(pollfds[..n], slots[..n]) + [] == Ready(pollfds[..n], slots[..n]);
    }
  }

  lemma {:induction false} FiredComesFromASlot(
    pollfds: seq<PollFd>, slots: seq<Channel>, report: map<int, Flags>, f: Firing) returns (k: nat)
    requires |pollfds| == |slots|
    requires forall k :: 0 <= k < |slots| ==> pollfds[k].fd == slots[k].fd || pollfds[k].fd == -1
    requires forall k :: 0 <= k < |slots| ==> pollfds[k].revents == Reported(report, pollfds[k].fd)
    requires f in FiredBy(PolledAmong(pollfds, slots), report)
    ensures k < |slots| && f == Firing(slots[k], pollfds[k].revents) && f.revents != {}
  {
    hide Ready, FiredBy, PolledAmong, Reported;
    NoSlots(report);
    assert slots != [];
    var n := |slots| - 1;
    LastSlot(pollfds, slots, report);
    if f in FiredBy(PolledAmong(pollfds[..n], slots[..n]), report) {
      k := FiredComesFromASlot(pollfds[..n], slots[..n], report, f);
    } else {
      k := n;
    }
  }

  /** The loop of fillActiveChannels over the vector and the map. */
  method Fill(pollfds: seq<PollFd>, channels: map<int, Channel>, ghost slots: seq<Channel>, numEvents: int)
    returns (active: seq<Channel>)
    requires |slots| == |pollfds| && numEvents == ReadyCount(pollfds)
    requires forall k :: 0 <= k < |slots| && pollfds[k].revents != {} ==>
               pollfds[k].fd in channels && channels[pollfds[k].fd] == slots[k]
    requires forall i, j :: 0 <= i < j < |slots| ==> slots[i] != slots[j]
    modifies slots`revents
    ensures active == Ready(pollfds, slots)
    ensures forall j :: 0 <= j < |slots| ==>
              slots[j].revents == if pollfds[j].revents != {} then pollfds[j].revents else old(slots[j].revents)
  {
    EmptyPrefix(pollfds, slots);
    hide Ready, ReadyCount;
    active := [];
    var left := numEvents;
    var k := 0;
    while k < |pollfds| && left > 0
      invariant 0 <= k <= |pollfds| && left == ReadyCount(pollfds) - ReadyCount(pollfds[..k])
      invariant active == Ready(pollfds[..k], slots[..k])
      invariant forall j :: 0 <= j < |slots| ==>
                  slots[j].revents ==
                      if j < k && pollfds[j].revents != {} then pollfds[j].revents else old(slots[j].revents)
    {
      ReadyStep(pollfds, slots, k);
      if pollfds[k].revents != {} {
        left := left - 1;
        var ch := channels[pollfds[k].fd];
        ch.revents := pollfds[k].revents;
        active := active + [ch];
      }
      k := k + 1;
    }
    assert k == |pollfds| ==> pollfds[..k] == pollfds;
    NoneReadyAfter(pollfds, slots, k);
  }

  function ReadyCount(pollfds: seq<PollFd>): nat {
    if pollfds == [] then 0
    else ReadyCount(pollfds[..|pollfds| - 1]) + if pollfds[|pollfds| - 1].revents != {} then 1 else 0
  }

  lemma EmptyPrefix(pollfds: seq<PollFd>, slots: seq<Channel>)
    requires |pollfds| == |slots|
    ensures Ready(pollfds[..0], slots[..0]) == [] && ReadyCount(pollfds[..0]) == 0
  {
  }

  lemma ReadyStep(pollfds: seq<PollFd>, slots: seq<Channel>, k: nat)
    requires |pollfds| == |slots| && k < |pollfds|
    ensures Ready(pollfds[..k + 1], slots[..k + 1]) ==
            Ready(pollfds[..k], slots[..k]) + if pollfds[k].revents != {} then [slots[k]] else []
    ensures ReadyCount(pollfds[..k + 1]) == ReadyCount(pollfds[..k]) + if pollfds[k].revents != {} then 1 else 0
  {
    assert pollfds[..k + 1][..k] == pollfds[..k] && slots[..k + 1][..k] == slots[..k];
  }

  lemma {:induction false} NoneReadyAfter(pollfds: seq<PollFd>, slots: seq<Channel>, k: nat)
    requires |pollfds| == |slots| && k <= |pollfds|
    ensures ReadyCount(pollfds[..k]) <= ReadyCount(pollfds)
    ensures ReadyCount(pollfds[..k]) == ReadyCount(pollfds) ==>
              && Ready(pollfds[..k], slots[..k]) == Ready(pollfds, slots)
              && forall j :: k <= j < |pollfds| ==> pollfds[j].revents == {}
    decreases |pollfds| - k
  {
    if k == |pollfds| {
      assert pollfds[..k] == pollfds && slots[..k] == slots;
    } else {
      ReadyStep(pollfds, slots, k);
      NoneReadyAfter(pollfds, slots, k + 1);
    }
  }

  /** A slot's channel is in the list exactly once if the slot is ready, and not at all otherwise. */
  lemma {:induction false} ReadyIsTheFilter(pollfds: seq<PollFd>, slots: seq<Channel>, k: nat)
    requires |pollfds| == |slots| && k < |slots|
    requires forall i, j :: 0 <= i < j < |slots| ==> slots[i] != slots[j]
    ensures multiset(Ready(pollfds, slots))[slots[k]] == if pollfds[k].revents != {} then 1 else 0
    decreases |slots|
  {
    var n := |slots| - 1;
    var before := Ready(pollfds[..n], slots[..n]);
    if k == n {
      assert slots[n] !in slots[..n];
      assert multiset(before)[slots[n]] == 0;
    } else {
      ReadyIsTheFilter(pollfds[..n], slots[..n], k);
    }
    var last := if pollfds[n].revents != {} then [slots[n]] else [];
    assert multiset(before + last) == multiset(before) + multiset(last);
  }

  lemma ReadyMembers(pollfds: seq<PollFd>, slots: seq<Channel>)
    requires |pollfds| == |slots| && forall i :: 0 <= i < |slots| ==> slots[i].index == i
    ensures forall k :: 0 <= k < |slots| ==> (slots[k] in Ready(pollfds, slots) <==> pollfds[k].revents != {})
  {
    forall k | 0 <= k < |slots| ensures slots[k] in Ready(pollfds, slots) <==> pollfds[k].revents != {} {
      ReadyIsTheFilter(pollfds, slots, k);
    }
  }

  /** And they are listed in slot order: `at` are the slots of the ready channels, all of them. */
  lemma {:induction false} ReadyKeepsSlotOrder(pollfds: seq<PollFd>, slots: seq<Channel>) returns (at: seq<nat>)
    requires |pollfds| == |slots|
    ensures |at| == |Ready(pollfds, slots)|
    ensures forall i, j :: 0 <= i < j < |at| ==> at[i] < at[j]
    ensures forall j :: 0 <= j < |at| ==> at[j] < |slots| && Ready(pollfds, slots)[j] == slots[at[j]]
    ensures forall k :: 0 <= k < |slots| ==> (k in at <==> pollfds[k].revents != {})
    decreases |slots|
  {
    at := [];
    if slots != [] {
      var n := |slots| - 1;
      at := ReadyKeepsSlotOrder(pollfds[..n], slots[..n]);
      assert forall k <- at :: k < n;
      if pollfds[n].revents != {} {
        at := at + [n];
      }
    }
  }

  /** So a poll fires each registered channel it reports exactly once, and no other. */
  lemma EachReportedChannelFiresOnce(slots: seq<Channel>, report: map<int, Flags>, k: nat)
    requires k < |slots|
    requires forall i, j :: 0 <= i < j < |slots| ==> slots[i] != slots[j]
    ensures multiset(Channels(Fired(slots, Report(report))))[slots[k]] ==
            if slots[k].fd in report && report[slots[k].fd] != {} then 1 else 0
    ensures forall f <- Fired(slots, Report(report)) ::
              f.channel.fd in report && f.revents == report[f.channel.fd] && f.revents != {}
  {
    var pollfds := seq(|slots|, i requires 0 <= i < |slots| => PollFd(slots[i].fd, {}, Reported(report, slots[i].fd)));
    AllSlotsPolled(pollfds, slots);
    FiredIsReady(pollfds, slots, report);
    ReadyIsTheFilter(pollfds, slots, k);
    forall f | f in Fired(slots, Report(report))
      ensures f.channel.fd in report && f.revents == report[f.channel.fd] && f.revents != {}
    {
      var i := FiredComesFromASlot(pollfds, slots, report, f);
    }
  }
}
