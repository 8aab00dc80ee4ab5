# Verification of sometestsnippet

Dafny models of the four parts of the repository that keep state or a format, and proofs of what
they promise. `dafny verify dfyconfig.toml` checks the whole project.

**The MySQL worker pipeline** (`mysqlmgr/`). `TaskRing` is the ring buffer object. `RingProtocol` splits
push and pop into accesses to shared variables and interleaves one pushing and one popping thread.
`Pipeline` composes two such rings with the worker loop, `WorkerAlone` lets a worker run on by itself,
`DropWitness` exhibits the run that loses a task. `Manager` has ten workers and the main thread that routes
tasks and drains replies with any count, in every interleaving; `ManagerDrain` and `DrainExact` say what a
drain loses, `ManagerOrder` where every task is and in which order tasks are released. `ThreadMgr` has the
objects with their methods; there the worker being drained takes any number of turns before each pop.

**The reactor** (`reactor1/`). `TimerMachine` is the timer queue as a machine over a clock and a
one-shot timerfd; callbacks may add timers at any point. `TimerSafety` has its invariant,
`TimerTheorems` what holds of every run, `TimerAsks` that the callbacks
made are those asked for. `TimerQueue` is the object: each method is a step of the
machine, and its ghost field `run` is the machine run it went through, so the theorems hold of it.
`Poller` has `Channel` and `Poller`, `EventLoop` composes everything; a client callback is any finite
list of commands (quit, enableReading, runAt, runAfter, runEvery). `EventTrace` says what has to be run for
each dispatched event: the loop's ghost trace holds, for every event, the moments before and after, and the
callbacks, their effects and the timer queue's run in between are tied to it.

**Small protocols.** `Handshake` (start of a worker thread), `ProducerConsumers` (`c11cv.cpp`, any number
of consumers, spurious wake-ups) and `HolderMutex` (`reactor1/Mutex.h`, any number of threads).

**Text** (`myyxs/version2`). `Framing` is the newline decoder, `Splitters` both `strSplit` overloads,
`StringList` `getStringList`, `IniLines`, `IniLoader` and `IniRoundTrip` the configuration reader.
`Text` has the splitting and joining they share.

Machines are a state, an `Action` type, `Enabled` and `Apply`; a run is a sequence of enabled actions,
so a statement about all runs is a statement about all interleavings. Where the source mutates an
object, a class has its fields and each method's contract gives the new state.

## Where the code falls short

Each of these is modelled as the code has it, with the exact condition under which it does what was meant:

- `MysqlThread.cpp:77` ignores a failed reply push. Nothing is lost if at most 999 tasks are outstanding
  at a worker (`Pipeline.ThrottledRunDropsNothing`); a step loses a task exactly when it sees 999 waiting
  replies (`Pipeline.DropsExactlyOnFullReplyRing`), and that happens (`DropWitness.UnthrottledClientLosesATask`).
  A worker left to itself loses a task exactly when 1000 are inside it (`WorkerAlone.DropsExactlyWhenOverloaded`).
- `MysqlThreadMgr.cpp:37-42` pops one reply more than the count and abandons it. What decides is not how many
  replies wait at the call, since workers go on pushing (`ThreadMgr.AReplyArrivingDuringTheDrainIsLost`): a
  call abandons nothing under any interleaving exactly when no worker has more tasks inside than the count
  as it begins (`DrainExact.AbandonsNothingExactlyWhenItFits`). With -1 nothing is abandoned, and the result
  is then always false, since no worker processes -1 replies.
- `TcpClient.cpp:56` appends the whole 4096-byte buffer. The client decodes what was sent exactly when
  every receive fills it (`Framing.DecodesWhatWasSentExactlyWhenBuffersAreFull`).
- `StringUtils.cpp:39-43` searches only for the delimiter's first character
  (`Splitters.LongDelimiterRebuildsExactly`, `Splitters.LongDelimiterFails`).
- `ConfigReader.cpp:111` dereferences a null section map exactly when a key precedes every section
  (`IniLoader.LoadMeaning`, `IniLoader.KeyBeforeAnySectionIsUndefined`).
- `TimerQueue.cpp:141` skips arming for a first timer at or before time 0; the invariant shows that
  such a timer was armed when it was added. A repeating timer whose interval truncates to 0 microseconds
  is due again at once (`TimerTheorems.NothingElseIsDueAfterReset`, `TimerTheorems.ZeroIntervalIsDueAgain`).
- `Poller.cpp:71-77` never restores the descriptor of a slot it has set to -1
  (`Poller.Poller.UpdateChannel`); with `enableReading` alone no slot is ever -1.
- `MysqlThreadMgr.h:27` declares 9 threads where ten are used. The model has the intended ten.

## Model

| member | source | states |
|---|---|---|
| TaskRing.CTaskList.constructor | mysqlmgr/TaskList.cpp:4-9 | the ring starts empty |
| TaskRing.CTaskList.Push | mysqlmgr/TaskList.cpp:18-27 | appends, or refuses exactly when 999 tasks are queued |
| TaskRing.CTaskList.Pop | mysqlmgr/TaskList.cpp:29-37 | removes and returns the oldest task, nullptr on empty |
| TaskRing.IndexTestsAreExact | mysqlmgr/TaskList.cpp:20-31 | the two index comparisons decide full and empty exactly; at most 999 tasks |
| RingProtocol.EveryStepRefinesFifo | mysqlmgr/TaskList.cpp:18-37 | every interleaved micro-step keeps the invariant and is a step of a FIFO of capacity 999 |
| RingProtocol.PoppedIsPrefixOfAccepted | mysqlmgr/TaskList.cpp:18-37 | over every run the popped tasks are a prefix of the accepted ones, at most 999 behind |
| RingProtocol.OccupiedSlotsAreStable | mysqlmgr/TaskList.cpp:23 | no step overwrites a slot before it is popped |
| RingProtocol.PushFailsExactlyWhenFull | mysqlmgr/TaskList.cpp:21 | push returns false iff its read of read_idx_ saw a full ring |
| RingProtocol.PopGivesUpExactlyWhenItSawEmpty | mysqlmgr/TaskList.cpp:31 | pop gives up iff the ring was empty when it loaded write_idx_ |
| Pipeline.Conservation | mysqlmgr/MysqlThread.cpp:63-82 | over every run each accepted task is in exactly one of task ring, hand, reply ring, returned, dropped; tasks are executed in submission order |
| Pipeline.NoDropKeepsOrder | mysqlmgr/MysqlThread.cpp:74-79 | without drops those places are consecutive segments of the submission order, and execution follows it |
| Pipeline.DropsExactlyOnFullReplyRing | mysqlmgr/MysqlThread.cpp:77 | a step drops a task iff the reply push sees 999 waiting replies; 1000 are then outstanding |
| Pipeline.ThrottledRunDropsNothing | mysqlmgr/MysqlThread.cpp:63-82 | no run with at most 999 outstanding tasks drops one; accepted = returned, waiting, in hand, queued, in that order |
| DropWitness.UnthrottledClientLosesATask | mysqlmgr/MysqlThread.cpp:77 | a run from the start that loses a task |
| WorkerAlone.DropsExactlyWhenOverloaded | mysqlmgr/MysqlThread.cpp:74-81 | from any reachable state a worker not stopped, running on alone, drops a task iff at least 1000 are inside it |
| WorkerAlone.StoppedWorkerTakesNoMore | mysqlmgr/MysqlThread.cpp:37-42 | after stop, in every run, the worker takes no task but one whose pop was under way |
| WorkerAlone.StoppedWorkerExits | mysqlmgr/MysqlThread.cpp:73-82 | a stopped worker's loop ends within twelve of its steps |
| Manager.EveryStepKeepsInv | mysqlmgr/MysqlThreadMgr.cpp:11-49 | each step of main thread or worker, draining with any count, keeps logs, rings and hands in agreement for all ten workers |
| ManagerDrain.AbandonsExactlyBeyondTheCount | mysqlmgr/MysqlThreadMgr.cpp:37-42 | a step abandons a reply iff the pop after the last allowed release returned one |
| ManagerDrain.EveryStepKeepsCovered | mysqlmgr/MysqlThreadMgr.cpp:30-49 | in a call whose workers fit its count no step of any thread abandons a reply |
| ManagerDrain.DrainingWithoutCountIsWellDrained | mysqlmgr/MysqlThreadMgr.cpp:37 | calls with -1 always fit |
| DrainExact.AbandonsNothingExactlyWhenItFits | mysqlmgr/MysqlThreadMgr.cpp:30-49 | while no worker is stopped, a call abandons nothing under any interleaving iff no worker has more tasks inside than the count as it begins |
| ManagerOrder.ReleasedInSubmissionOrder | mysqlmgr/MysqlThreadMgr.cpp:11-49 | with no assumption on client or counts, each worker's releases are a subsequence of its submissions |
| ManagerOrder.EverySubmissionIsAccountedFor | mysqlmgr/MysqlThreadMgr.cpp:11-49 | over every run a submission is in exactly one place: released, abandoned, popped, reply ring, hand, task ring, dropped |
| ManagerOrder.NothingIsLost | mysqlmgr/MysqlThreadMgr.cpp:11-49 | throttled runs whose drains fit: submissions to a worker = released, then what is inside it, in order; executed in order |
| ManagerOrder.EqualHashesReleaseInOrder | mysqlmgr/MysqlThreadMgr.h:17-19 | in such runs a released task comes from worker id % 9, or 9 without a hash, is released once, and after all earlier submissions with an id equal modulo 9, or like it without one |
| ThreadMgr.CMysqlThread.AddTask | mysqlmgr/MysqlThread.h:20-22 | pushes on the task ring |
| ThreadMgr.CMysqlThread.GetReplyTask | mysqlmgr/MysqlThread.h:24-26 | pops the reply ring |
| ThreadMgr.CMysqlThread.Serve | mysqlmgr/MysqlThread.cpp:74-81 | one loop turn: oldest task executed, then on the reply ring unless that is full |
| ThreadMgr.CMysqlThread.ReplyUpTo | mysqlmgr/MysqlThreadMgr.cpp:35-42 | while the worker keeps pushing: of all replies met, waiting or arriving, the first count are answered, one more is popped |
| ThreadMgr.CMysqlThreadMgr.AddTask | mysqlmgr/MysqlThreadMgr.cpp:11-18 | worker id % 9 of the ten, or the extra one for no hash, is given the task unless it has 999 queued; no other ring changes |
| ThreadMgr.CMysqlThreadMgr.ProcessReplyTask | mysqlmgr/MysqlThreadMgr.cpp:30-49 | for any count and any turns of the workers: what each turn meets, releases, what stays waiting; true iff some turn met at least count replies, count not negative |
| ThreadMgr.ReleasesAreInWorkerOrder | mysqlmgr/MysqlThreadMgr.cpp:34-42 | releases are worker by worker, each a prefix of what its turn met, by the count |
| ThreadMgr.OneReplyLostPerOverfullWorker | mysqlmgr/MysqlThreadMgr.cpp:37-42 | replies met = released + still waiting + one for each worker whose turn meets more than count |
| ThreadMgr.NothingLostExactlyWhenNoWorkerIsOverfull | mysqlmgr/MysqlThreadMgr.cpp:37-42 | a call loses nothing iff no worker's turn meets more replies than the count, or the count is -1 |
| ThreadMgr.FittingWorkerIsNotOverfull | mysqlmgr/MysqlThreadMgr.cpp:37-42 | a turn meets no more than the worker's two rings hold at the call |
| ThreadMgr.AReplyArrivingDuringTheDrainIsLost | mysqlmgr/MysqlThreadMgr.cpp:37-42 | count 1, one reply waiting and one task queued: its reply may be lost |
| ThreadMgr.CountZeroOnlyLoses | mysqlmgr/MysqlThreadMgr.cpp:35-42 | a count of 0 releases nothing and takes a reply out of every ring that has one |
| Handshake.NoLostWakeUp | mysqlmgr/MysqlThread.cpp:44-70 | init never waits after the worker's notify, although is_start_ is set outside the mutex |
| Handshake.HandshakeCompletes | mysqlmgr/MysqlThread.cpp:44-70 | runs have at most 26 steps plus four per spurious wake-up, and can go on until init returns |
| ProducerConsumers.EveryStepKeepsInv | c11cv.cpp:28-63 | mutual exclusion, delivery order and no lost wake-up are kept by every step |
| ProducerConsumers.DeliveredOnceInOrder | c11cv.cpp:28-63 | handled tasks are 0, 1, 2, ... in every run; a non-empty list has a consumer awake or a notify coming |
| ProducerConsumers.EverythingProducedIsHandled | c11cv.cpp:33-58 | once no new round starts, runs are bounded and end with everything produced handled |
| HolderMutex.HolderIsExact | reactor1/Mutex.h:22-38 | isLockedByThisThread is true iff the thread is between its store and its clear; exclusion; 0 when free |
| TimerMachine.TimeSpecIsExact | reactor1/TimerQueue.cpp:22-37 | sec and nsec add up to exactly max(100us, time left), nsec below a second, and arm for that |
| TimerSafety.InsertKeepsOrder | reactor1/TimerQueue.cpp:146-157 | insertion meets no equal entry, keeps the set sorted, and a changed first time is reported iff it changed |
| TimerSafety.DueCountIsExact | reactor1/TimerQueue.cpp:116-118 | lower_bound of the sentry cuts exactly at now |
| TimerSafety.ReinsertResets | reactor1/TimerQueue.cpp:128-135 | reset's loop: repeating timers at now plus interval, one-shots gone, nothing else changed |
| TimerSafety.EveryRunKeepsInv | reactor1/TimerQueue.cpp:86-157 | the invariant of times, ownership, wake-up and call history holds in every reachable state |
| TimerTheorems.PendingTimersAlwaysHaveAWakeUp | reactor1/TimerQueue.cpp:86-144 | outside handleRead a pending timer has a fired timerfd, or one armed no later than the bound |
| TimerTheorems.AddTimerArmsForANewFirst | reactor1/TimerQueue.cpp:89-95 | arms iff the timer is first, for max(100us, time left) |
| TimerTheorems.ResetArmsForAValidFirst | reactor1/TimerQueue.cpp:137-143 | arms iff the first remaining time is after 0 |
| TimerTheorems.TheWakeUpRunsTheFirstTimer | reactor1/TimerQueue.cpp:99-123 | at that time the timerfd is readable and handleRead takes the first timer |
| TimerTheorems.CallsAreOnTimeAndApart | reactor1/Timer.h:27-33 | never early; one-shots at most once; repeats at least an interval apart |
| TimerTheorems.EachTimerHasOneOwner | reactor1/TimerQueue.cpp:113-139 | every timer created is in the set, in the batch, or freed, and in one only |
| TimerTheorems.AddTimerMeetsNoEqualEntry | reactor1/TimerQueue.cpp:153-155 | the assertion in insert cannot fail, in callbacks either |
| TimerTheorems.GetExpiredIsTheDueFilter | reactor1/TimerQueue.cpp:113-123 | the batch is exactly what is due, sorted; the set keeps exactly the rest |
| TimerTheorems.NothingElseIsDueAfterReset | reactor1/TimerQueue.cpp:125-144 | an older timer is still due after reset iff it repeats with interval zero |
| TimerTheorems.ZeroIntervalIsDueAgain | reactor1/TimerQueue.cpp:128-131 | a run in which such a timer is due right after its callback |
| TimerTheorems.OneShotsAreFreedWithTheirBatch | reactor1/TimerQueue.cpp:132-134 | a one-shot of the batch is freed at its end |
| TimerAsks.EveryAskIsAnswered | reactor1/TimerQueue.cpp:86-144 | over every run the n-th addTimer has its first callback for the time asked, none before it, repeats by the interval asked, is pending until then, and is freed only after its callback if it does not repeat |
| TimerQueue.Timer.Restart | reactor1/Timer.h:27-33 | the new expiration |
| TimerQueue.TimerQueue.constructor | reactor1/TimerQueue.cpp:66-76 | starts as the initial machine state |
| TimerQueue.TimerQueue.Insert | reactor1/TimerQueue.cpp:146-157 | the set grows by the timer at its expiration; reports a changed first time |
| TimerQueue.TimerQueue.ResetTimerfd | reactor1/TimerQueue.cpp:48-58 | arms for the expiration, relative to the clock it read |
| TimerQueue.TimerQueue.AddTimer | reactor1/TimerQueue.cpp:86-97 | a new timer with the given repetition and interval enters the set at the given time, one machine step; keys stay equal to expirations |
| TimerQueue.TimerQueue.ReadTimerfd | reactor1/TimerQueue.cpp:39-46 | a fired timerfd is disarmed, any other left as it is |
| TimerQueue.TimerQueue.GetExpired | reactor1/TimerQueue.cpp:113-123 | cuts the set in two at lower_bound of the sentry |
| TimerQueue.TimerQueue.BeginRead | reactor1/TimerQueue.cpp:99-104 | handleRead up to getExpired is one machine step |
| TimerQueue.TimerQueue.PutBackAll | reactor1/TimerQueue.cpp:128-135 | the loop computes the machine's Reinsert; the batch's one-shots are deleted, the others live |
| TimerQueue.TimerQueue.Reset | reactor1/TimerQueue.cpp:125-144 | one machine step; keys equal expirations again although restart changed them |
| Poller.Poller.UpdateChannel | reactor1/Poller.cpp:52-79 | keeps slots, map and indices in one-to-one correspondence; the exact slot written |
| Poller.Fill | reactor1/Poller.cpp:34-50 | the early exit gives the full filter, each channel with its slot's revents; slots without revents need no channel |
| Poller.Poller.FillActiveChannels | reactor1/Poller.cpp:34-50 | the same on the object: the lookups succeed by the invariant |
| Poller.Poller.Poll | reactor1/Poller.cpp:20-32 | the active list is what the kernel reports for the slots not set to -1; empty on error or timeout |
| Poller.ReadyIsTheFilter | reactor1/Poller.cpp:37-49 | a slot's channel is listed once if ready, else not at all |
| Poller.ReadyKeepsSlotOrder | reactor1/Poller.cpp:37-49 | the ready channels are listed in slot order, all of them |
| Poller.EachReportedChannelFiresOnce | reactor1/Poller.cpp:20-50 | a poll fires each channel with a non-empty report once, with the flags reported, and no other |
| EventLoop.EventLoop.constructor | reactor1/EventLoop.cpp:15-20 | poller before timer queue: the timerfd's channel is registered |
| EventLoop.EventLoop.Enable | reactor1/Channel.h:32 | registers the channel at most once, polled for reading; all assertions hold |
| EventLoop.EventLoop.PerformOne | reactor1/EventLoop.cpp:56-78 | quit sets quit_; enableReading registers its channel; runAt, runAfter and runEvery each add one timer at the time, delay or interval given, only runEvery repeating; nothing else changes |
| EventLoop.EventLoop.Perform | reactor1/EventLoop.cpp:60-72 | a callback makes one addTimer call for each of its timer commands, in order |
| EventTrace.TimerCommandsAreAll | reactor1/EventLoop.cpp:60-72 | those are all its runAt, runAfter and runEvery commands |
| EventTrace.CallbacksAsk | reactor1/EventLoop.cpp:60-72 | over any callbacks the timers asked for are those of their timer commands |
| EventLoop.EventLoop.HandleRead | reactor1/TimerQueue.cpp:99-111 | one BeginRead to EndRead stretch of the timer run: the callbacks of exactly the timers due are run, in order, whatever they do |
| EventLoop.EventLoop.Call | reactor1/Channel.cpp:28-45 | a callback that is set is run, once: handleRead for the timerfd's read event, else the next client callback |
| EventTrace.DispatchIsExact | reactor1/Channel.cpp:28-45 | error for POLLERR or POLLNVAL, read for POLLIN, POLLPRI or POLLRDHUP, write for POLLOUT, if set, each once, in that order |
| EventLoop.EventLoop.HandleEvent | reactor1/Channel.cpp:28-45 | exactly these callbacks are run, by the revents filled in at the poll |
| EventTrace.HandleReadRunsExactlyWhenReported | reactor1/EventLoop.cpp:43-51 | a round calls handleRead, once, iff its poll reports a read flag for the registered timerfd |
| EventLoop.EventLoop.Loop | reactor1/EventLoop.cpp:37-54 | each round runs exactly the dispatch of what its poll reports, each event its own callbacks; stops after the round of the first quit |
| EventTrace.EventsExplainCalls | reactor1/EventLoop.cpp:37-54 | callbacks started = client events served + timers taken by handleRead; handleRead runs once per timerfd read event |
| EventTrace.QuitEndsTheLoop | reactor1/EventLoop.cpp:56-58 | a round is the last once one of the callbacks started has called quit |
| EventLoop.EventLoop.PendingTimersWakeTheLoop | reactor1/TimerQueue.cpp:137-143 | between callbacks a pending timer of the loop still has its wake-up |
| EventTrace.CallbacksOnlyAdd | reactor1/EventLoop.cpp:56-78 | callbacks register exactly the channels they enable reading on, none twice; quit is set iff one of them called it |
| Framing.TcpClient.RecvData | myyxs/version2/TcpClient.cpp:43-61 | result code, and the whole buffer appended |
| Framing.TcpClient.DecodePackage | myyxs/version2/TcpClient.cpp:63-72 | messages are the text before each newline, the rest stays |
| Framing.ChunkingDoesNotMatter | myyxs/version2/TcpClient.cpp:56-72 | any chunking decodes like the whole stream |
| Framing.StreamIsRebuilt | myyxs/version2/TcpClient.cpp:63-72 | no newline stays; messages and rest rebuild the stream |
| Framing.DecodesWhatWasSentExactlyWhenBuffersAreFull | myyxs/version2/TcpClient.cpp:44-57 | the appended buffers decode like the received bytes iff each receive filled its buffer |
| Framing.ShortReceiveLeavesPadding | myyxs/version2/TcpClient.cpp:56 | a two-byte receive already decodes differently |
| Splitters.SplitAtChar | myyxs/version2/utils/StringUtils.cpp:20-34 | appends all pieces but an empty last one |
| Splitters.CharPiecesRebuild | myyxs/version2/utils/StringUtils.cpp:20-34 | joined pieces, plus a delimiter if the text ends in one, are the text |
| Splitters.CharPiecesAreUnique | myyxs/version2/utils/StringUtils.cpp:20-34 | they are the only delimiter-free pieces that do, none for the empty text |
| Splitters.SplitAtString | myyxs/version2/utils/StringUtils.cpp:36-46 | the loop computes SplitSkipping, out_of_range included |
| Splitters.OneCharacterDelimiter | myyxs/version2/utils/StringUtils.cpp:36-46 | one character: never throws, all pieces, joins back |
| Splitters.SkippingAfterJoin | myyxs/version2/utils/StringUtils.cpp:36-46 | pieces without the delimiter's first character, joined by it, are found again |
| Splitters.LongDelimiterRebuildsExactly | myyxs/version2/utils/StringUtils.cpp:39-43 | joins back iff the text is a join of pieces without the delimiter's first character |
| Splitters.LongDelimiterFails | myyxs/version2/utils/StringUtils.cpp:39-45 | inputs on which it throws, and on which it loses a character |
| StringList.GetStringList | myyxs/version2/ConfigReader.cpp:46-69 | the loop computes Tokenize |
| StringList.TokensAreUnique | myyxs/version2/ConfigReader.cpp:51-68 | Tokenize is the only reading as tokens without comma, blank and tab, at most the first empty, between non-empty runs of these |
| IniLines.TrimBoth | myyxs/version2/ConfigReader.cpp:173-202 | the two loops compute Trim |
| IniLines.TrimIsExact | myyxs/version2/ConfigReader.cpp:173-202 | the six white space characters only are cut off, and all of them |
| IniLines.IsSection | myyxs/version2/ConfigReader.cpp:149-164 | recognises sections and their names |
| IniLines.SectionIsExact | myyxs/version2/ConfigReader.cpp:149-164 | a section line is a name in brackets with white space anywhere around, other than "[]" |
| IniLines.AssignmentIsExact | myyxs/version2/ConfigReader.cpp:92-109 | an assignment is a key without '=', not empty and no comment, '=', a value, with white space anywhere around both, unless it is a section line |
| IniLines.PaddedSectionReads | myyxs/version2/ConfigReader.cpp:149-164 | a section line, however padded, reads as that section |
| IniLines.PaddedEntryReads | myyxs/version2/ConfigReader.cpp:92-109 | a writable key and value, however padded, read back |
| IniLines.ReadsBackExactlyWhenWritable | myyxs/version2/ConfigReader.cpp:83-109 | a written key and value read back iff the key is no comment, has no '=', and the line is no section |
| IniLoader.ConfigReader.GetString | myyxs/version2/ConfigReader.cpp:19-30 | the value of the key in the section, or the default |
| IniLoader.ConfigReader.ReadLine | myyxs/version2/ConfigReader.cpp:82-116 | one line's effect, and when the null map is reached |
| IniLoader.ConfigReader.Load | myyxs/version2/ConfigReader.cpp:72-121 | reads exactly the lines of the file, in order |
| IniLoader.LoadMeaning | myyxs/version2/ConfigReader.cpp:80-117 | null map iff a key precedes every section; else the last assignment of each key wins |
| IniLoader.KeyBeforeAnySectionIsUndefined | myyxs/version2/ConfigReader.cpp:111 | the file "k=v" reaches the null map |
| IniLoader.LastValueIsTheLast | myyxs/version2/ConfigReader.cpp:111-116 | LastValue is the value of the last assigning line |
| IniRoundTrip.LoadAfterRender | myyxs/version2/ConfigReader.cpp:72-121 | every writable map of sections, listed in any order and written with any white space around names, keys and values, loads as the same map |
| IniRoundTrip.ReadBack | myyxs/version2/ConfigReader.cpp:19-121 | getString after loading the text returns what was written, else the default |

## Left out

- Weak memory: flags and indices are plain variables in C++; the machines assume sequential consistency.
- Integer widths: timestamps, counts and lengths are unbounded; an int64_t overflow of a time, an int32_t overflow of a reply counter and a find position above int range are not modelled. The uint16_t ring indices stay below 1000.
- Pipeline.Conservation: a task is a number; reuse of the address of a released task is not modelled.
- DrainExact.AbandonsNothingExactlyWhenItFits: exact while no worker has been stopped; a stopped worker may keep tasks it never executes, so fewer can be abandoned.
- Manager.EveryStepKeepsInv: the return value of processReplyTask is in `ThreadMgr` only.
- ThreadMgr.CMysqlThreadMgr.ProcessReplyTask: pushes, pops and loop turns of a worker are whole, and a worker runs while the drain is at it; its other turns touch only its own rings. `Manager` has all micro-steps of all workers.
- EventLoop.EventLoop.Loop: the sequence of poll outcomes is finite, so statements are about every finite prefix of a run.
- EventLoop.EventLoop.HandleRead: it is a method of the loop, not of the timer queue, because the callbacks it starts reach the whole reactor.
- TimerQueue.TimerQueue.Insert: std::set is a sorted sequence; its tree is library code.
- Poller.Poller.FillActiveChannels: numEvents is what ::poll promises, the number of slots with revents set.
- Poll masks are sets of flags; POLLHUP alone runs no callback, as in the source.
- Seconds as double: an interval is its truncated number of microseconds and whether it was positive; getFloat and timeDifference are not part of this model.
- The clock is one non-decreasing value for gettimeofday and the timerfd; each arming may lag its clock reading by any amount.
- Task execution, reply and release, logging, thread creation and join, sockets, MySQL calls and file access are parameters or opaque steps.
- The CTaskList and TimerQueue destructors, getNumber, getBool and the unused demos of the repository.
- addTask's test `idx >= thread_count_` is never true for a hash taken modulo 9 and has no branch here.
- The null test in c11cv.cpp:39 is never true, since the producer pushes only new tasks.
