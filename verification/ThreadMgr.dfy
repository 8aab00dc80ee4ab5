/**
 CMysqlThreadMgr and CMysqlThread as the objects they are: routing of a task, one turn of the worker
 loop, and draining replies with any count. While the main thread drains, the worker it is at takes
 any number of turns before each pop; a push or a pop is one step here, its micro-steps are in Manager.
 */
module ThreadMgr {
  import opened TaskRing
  import opened Manager
  import opened ManagerOrder

  /** How many of n waiting replies a worker's turn of processReplyTask replies to. */
  function Processed(n: nat, count: int): (k: nat)
    ensures k <= n
  {
    if count == -1 || n < count then n else if count < 0 then 0 else count
  }

  /** How many it pops. */
  function Popped(n: nat, count: int): (k: nat)
    ensures k <= n
  {
    if Processed(n, count) < n then Processed(n, count) + 1 else n
  }

  ghost function AllReleased(replies: seq<seq<Ptr>>, count: int): seq<Ptr> {
    if replies == [] then []
    else
      var last := replies[|replies| - 1];
      AllReleased(replies[..|replies| - 1], count) + last[..Processed(|last|, count)]
  }

  /** The waiting replies once the first `done` workers had their turn. */
  ghost function Drained(replies: seq<seq<Ptr>>, done: nat, count: int): seq<seq<Ptr>> {
    seq(|replies|, k requires 0 <= k < |replies| =>
      if k < done then replies[k][Popped(|replies[k]|, count)..] else replies[k])
  }

  /** Some worker's turn replied to exactly `count` tasks. */
  ghost predicate SomeExact(replies: seq<seq<Ptr>>, count: int) {
    exists i :: 0 <= i < |replies| && Processed(|replies[i]|, count) == count
  }

  /** The turn of one more worker, which meets `turn`, after those that met `seen`. */
  lemma TurnReleases(seen: seq<seq<Ptr>>, turn: seq<Ptr>, count: int)
    ensures AllReleased(seen + [turn], count) == AllReleased(seen, count) + turn[..Processed(|turn|, count)]
    ensures SomeExact(seen + [turn], count) <==> SomeExact(seen, count) || Processed(|turn|, count) == count
  {
    assert (seen + [turn])[..|seen|] == seen;
    assert (seen + [turn])[|seen|] == turn;
    assert forall k :: 0 <= k < |seen| ==> (seen + [turn])[k] == seen[k];
  }

  /** The rings of all workers when those that met `seen` have had their turn. */
  ghost function SoFar(seen: seq<seq<Ptr>>, before: seq<seq<Ptr>>, count: int): (r: seq<seq<Ptr>>)
    requires |seen| <= |before|
    ensures |r| == |before|
  {
    Drained(seen + before[|seen|..], |seen|, count)
  }

  lemma AllTurns(seen: seq<seq<Ptr>>, before: seq<seq<Ptr>>, count: int)
    requires |seen| == |before|
    ensures SoFar(seen, before, count) == Drained(seen, |seen|, count)
  {
    assert seen + before[|seen|..] == seen;
  }

  /** The rings before and after that turn. */
  lemma TurnDrains(seen: seq<seq<Ptr>>, before: seq<seq<Ptr>>, turn: seq<Ptr>, count: int)
    requires |seen| < |before|
    ensures var i := |seen|;
            && SoFar(seen, before, count)[i] == before[i]
            && SoFar(seen + [turn], before, count) == SoFar(seen, before, count)[i := turn[Popped(|turn|, count)..]]
  {
    hide Popped;
  }

  lemma DrainedExactly(seen: seq<seq<Ptr>>, count: int)
    ensures count == -1 ==> forall i :: 0 <= i < |seen| ==> Drained(seen, |seen|, count)[i] == []
    ensures var limit := if count < 0 then 0 else count;
            count != -1 ==> forall i :: 0 <= i < |seen| ==>
              Drained(seen, |seen|, count)[i] == if |seen[i]| <= limit then [] else seen[i][limit + 1..]
  {
  }

  lemma ExactMeansReached(seen: seq<seq<Ptr>>, count: int)
    ensures SomeExact(seen, count) <==> count >= 0 && exists i :: 0 <= i < |seen| && |seen[i]| >= count
  {
    if i :| 0 <= i < |seen| && |seen[i]| >= count && count >= 0 {
      assert Processed(|seen[i]|, count) == count;
    }
  }

  /** Sequence concatenation is associative. */
  lemma Associate(a: seq<Ptr>, b: seq<Ptr>, c: seq<Ptr>)
    ensures (a + b) + c == a + (b + c)
  {
  }

  lemma NoTurns(before: seq<seq<Ptr>>, count: int)
    ensures SoFar([], before, count) == before
    ensures AllReleased([], count) == [] && !SomeExact([], count)
  {
  }

  // What a worker does meanwhile.

  /** From `queued` the first n tasks are executed; their replies `arrived` are all of them if there is room. */
  ghost predicate Executes(queued: seq<Ptr>, room: int, n: nat, arrived: seq<Ptr>) {
    && n <= |queued| && |arrived| <= n && IsSubsequence(arrived, queued[..n])
    && (n <= room ==> arrived == queued[..n])
  }

  lemma {:induction false} SubsequenceConcat(a: seq<Ptr>, b: seq<Ptr>, a': seq<Ptr>, b': seq<Ptr>)
    requires IsSubsequence(a, b) && IsSubsequence(a', b')
    ensures IsSubsequence(a + a', b + b')
    decreases |b'|
  {
    if b' == [] {
      assert a + a' == a && b + b' == b;
    } else {
      var m, n := |a'| - 1, |b'| - 1;
      assert (b + b')[..|b| + n] == b + b'[..n];
      if IsSubsequence(a', b'[..n]) {
        SubsequenceConcat(a, b, a', b'[..n]);
      } else {
        SubsequenceConcat(a, b, a'[..m], b'[..n]);
        assert (a + a')[..|a| + m] == a + a'[..m];
      }
    }
  }

  lemma ExecutesMore(queued: seq<Ptr>, room: int, n: nat, arrived: seq<Ptr>, room': int, n': nat, arrived': seq<Ptr>)
    requires Executes(queued, room, n, arrived) && Executes(queued[n..], room', n', arrived')
    requires n + n' <= room ==> n' <= room'
    ensures Executes(queued, room, n + n', arrived + arrived') && queued[n..][n'..] == queued[n + n'..]
  {
    assert queued[..n] + queued[n..][..n'] == queued[..n + n'];
    SubsequenceConcat(arrived, queued[..n], arrived', queued[n..][..n']);
    hide IsSubsequence;
  }

  lemma ExecutesNothing(queued: seq<Ptr>, room: int)
    ensures Executes(queued, room, 0, []) && queued[0..] == queued
  {
  }

  /** Of a worker's replies the drain meets `seen`: those waiting, and those pushed before its last pop there. */
  ghost predicate Meets(queued: seq<Ptr>, queued': seq<Ptr>, replies: seq<Ptr>, seen: seq<Ptr>) {
    && |queued'| <= |queued| && queued' == queued[|queued| - |queued'|..]
    && replies <= seen
    && Executes(queued, MAX_TASK_NUM - 1 - |replies|, |queued| - |queued'|, seen[|replies|..])
  }

  lemma MoreArrived(rs: seq<Ptr>, arrived: seq<Ptr>, news: seq<Ptr>, popped: nat)
    requires popped <= |rs + arrived|
    ensures (rs + arrived)[popped..] + news == (rs + (arrived + news))[popped..]
  {
    Associate(rs, arrived, news);
  }

  /** What the next pop does to the replies from position `popped` on. */
  lemma PopFrom(all: seq<Ptr>, popped: nat)
    requires popped < |all|
    ensures all[popped..] != [] && all[popped..][0] == all[popped] && all[popped..][1..] == all[popped + 1..]
    ensures all[popped] in all
  {
  }

  /** The first |seen| workers have had their turn. */
  ghost predicate TurnsTaken(
    queued: seq<seq<Ptr>>, queued': seq<seq<Ptr>>, replies: seq<seq<Ptr>>, seen: seq<seq<Ptr>>)
  {
    && |queued| == |queued'| == |replies| && |seen| <= |queued|
    && (forall i :: 0 <= i < |seen| ==> Meets(queued[i], queued'[i], replies[i], seen[i]))
    && (forall i :: |seen| <= i < |queued| ==> queued'[i] == queued[i])
  }

  lemma NextTurnIsUntouched(
    queued: seq<seq<Ptr>>, queued': seq<seq<Ptr>>, replies: seq<seq<Ptr>>, seen: seq<seq<Ptr>>)
    requires TurnsTaken(queued, queued', replies, seen)
    ensures |queued| == |queued'| == |replies|
    ensures |seen| < |queued| ==> queued'[|seen|] == queued[|seen|]
  {
  }

  lemma NoTurnTaken(queued: seq<seq<Ptr>>, replies: seq<seq<Ptr>>)
    requires |queued| == |replies|
    ensures TurnsTaken(queued, queued, replies, [])
  {
  }

  lemma OneMoreTurn(
    queued: seq<seq<Ptr>>, queued': seq<seq<Ptr>>, replies: seq<seq<Ptr>>, seen: seq<seq<Ptr>>, now: seq<Ptr>,
    turn: seq<Ptr>)
    requires TurnsTaken(queued, queued', replies, seen) && |seen| < |queued|
    requires Meets(queued[|seen|], now, replies[|seen|], turn)
    ensures TurnsTaken(queued, queued'[|seen| := now], replies, seen + [turn])
  {
    hide Meets;
  }

  class CMysqlThread {
    const tasks: CTaskList
    const replyTasks: CTaskList
    ghost const rep: set<object>      // the two rings

    ghost predicate Valid()
      reads tasks, tasks.taskNode, replyTasks, replyTasks.taskNode
    {
      && rep == {tasks, tasks.taskNode, replyTasks, replyTasks.taskNode}
      && tasks.Valid() && replyTasks.Valid() && tasks != replyTasks && tasks.taskNode != replyTasks.taskNode
    }

    constructor ()
      ensures Valid() && fresh(rep)
      ensures tasks.contents == [] && replyTasks.contents == []
    {
      var requests := new CTaskList();
      var answers := new CTaskList();
      tasks, replyTasks := requests, answers;
      ghost var objects: set<object> := {requests, requests.taskNode, answers, answers.taskNode};
      rep := objects;
    }

    method AddTask(task: Ptr) returns (ok: bool)
      requires Valid()
      modifies tasks, tasks.taskNode
      ensures Valid()
      ensures ok <==> |old(tasks.contents)| < MAX_TASK_NUM - 1
      ensures tasks.contents == if ok then old(tasks.contents) + [task] else old(tasks.contents)
    {
      ok := tasks.Push(task);
    }

    method GetReplyTask() returns (task: Ptr)
      requires Valid()
      modifies replyTasks
      ensures Valid()
      ensures old(replyTasks.contents) == [] ==> task == NULL && replyTasks.contents == []
      ensures old(replyTasks.contents) != [] ==>
                task == old(replyTasks.contents)[0] && replyTasks.contents == old(replyTasks.contents)[1..]
    {
      task := replyTasks.Pop();
    }

    /** One turn of mainLoop; `executed` is the task handed to execute, NULL if the loop sleeps. */
    method Serve() returns (executed: Ptr)
      requires Valid() && NULL !in tasks.contents
      modifies tasks, replyTasks, replyTasks.taskNode
      ensures Valid()
      ensures old(tasks.contents) == [] ==>
                executed == NULL && tasks.contents == [] && replyTasks.contents == old(replyTasks.contents)
      ensures old(tasks.contents) != [] ==>
                && executed == old(tasks.contents)[0] && tasks.contents == old(tasks.contents)[1..]
                && replyTasks.contents == old(replyTasks.contents)
                   + if |old(replyTasks.contents)| < MAX_TASK_NUM - 1 then [executed] else []
    {
      executed := tasks.Pop();
      if executed != NULL {
        var _ := replyTasks.Push(executed);
      }
    }

    /** The worker thread takes one turn, having executed n of the tasks in `queued` and seen `arrived` arrive. */
    method OneTurn(ghost queued: seq<Ptr>, ghost rs: seq<Ptr>, ghost n: nat, ghost arrived: seq<Ptr>)
      returns (ghost n': nat, ghost arrived': seq<Ptr>)
      requires Valid() && NULL !in queued
      requires Executes(queued, MAX_TASK_NUM - 1 - |rs|, n, arrived) && n <= |queued| && tasks.contents == queued[n..]
      requires |arrived| <= n && replyTasks.contents == rs + arrived
      modifies tasks, replyTasks, replyTasks.taskNode
      ensures Valid()
      ensures Executes(queued, MAX_TASK_NUM - 1 - |rs|, n', arrived') && n' <= |queued|
      ensures tasks.contents == queued[n'..]
      ensures |arrived'| <= n' && replyTasks.contents == rs + arrived'
    {
      hide CTaskList.Valid, Executes;
      n', arrived' := n, arrived;
      if n < |queued| {
        ExecutesOneMore(queued, MAX_TASK_NUM - 1 - |rs|, n, arrived);
        assert queued[n..][0] == queued[n] && queued[n..][1..] == queued[n + 1..];
        n', arrived' := n + 1, if |rs + arrived| < MAX_TASK_NUM - 1 then arrived + [queued[n]] else arrived;
        Associate(rs, arrived, [queued[n]]);
      }
      var _ := Serve();
    }

    /** The worker thread takes any number of turns. */
    method Meanwhile() returns (ghost n: nat, ghost arrived: seq<Ptr>)
      requires Valid() && NULL !in tasks.contents
      modifies tasks, replyTasks, replyTasks.taskNode
      ensures Valid()
      ensures Executes(old(tasks.contents), MAX_TASK_NUM - 1 - |old(replyTasks.contents)|, n, arrived)
      ensures tasks.contents == old(tasks.contents)[n..]
      ensures replyTasks.contents == old(replyTasks.contents) + arrived
    {
      var turns: nat :| turns >= 0;
      ghost var queued, rs := tasks.contents, replyTasks.contents;
      n, arrived := 0, [];
      ExecutesNothing(queued, MAX_TASK_NUM - 1 - |rs|);
      hide CTaskList.Valid, Executes;
      for i := 0 to turns
        invariant Valid() && Executes(queued, MAX_TASK_NUM - 1 - |rs|, n, arrived) && |arrived| <= n <= |queued|
        invariant tasks.contents == queued[n..] && replyTasks.contents == rs + arrived
      {
        n, arrived := OneTurn(queued, rs, n, arrived);
      }
    }

    /** The inner while loop of processReplyTask; `replied` lists the tasks replied to and released. */
    method ReplyUpTo(count: int) returns (processNbr: nat, replied: seq<Ptr>, ghost seen: seq<Ptr>)
      requires Valid() && NULL !in replyTasks.contents && NULL !in tasks.contents
      modifies tasks, replyTasks, replyTasks.taskNode
      ensures Valid()
      ensures Meets(old(tasks.contents), tasks.contents, old(replyTasks.contents), seen)
      ensures count == -1 ==> replied == seen && replyTasks.contents == []
      ensures count != -1 ==>
                var limit := if count < 0 then 0 else count;
                if |seen| <= limit then replied == seen && replyTasks.contents == []
                else replied == seen[..limit] && replyTasks.contents == seen[limit + 1..]
      ensures processNbr == |replied| == Processed(|seen|, count)
      ensures replied == seen[..processNbr] && replyTasks.contents == seen[Popped(|seen|, count)..]
    {
      hide CTaskList.Valid, Executes;
      ghost var queued, rs := tasks.contents, replyTasks.contents;
      ghost var room := MAX_TASK_NUM - 1 - |rs|;
      ghost var n: nat := 0;
      ghost var arrived: seq<Ptr> := [];
      ExecutesNothing(queued, room);
      var task;
      task, n, arrived := PopNext(queued, rs, n, arrived, 0);
      processNbr, replied := 0, [];
      while (count == -1 || processNbr < count) && task != NULL
        invariant Valid() && Executes(queued, room, n, arrived) && n <= |queued| && tasks.contents == queued[n..]
        invariant NULL !in rs + queued
        invariant processNbr <= |rs + arrived| && replied == (rs + arrived)[..processNbr]
        invariant task == NULL <==> processNbr == |rs + arrived|
        invariant task != NULL ==>
                    task == (rs + arrived)[processNbr] && replyTasks.contents == (rs + arrived)[processNbr + 1..]
        invariant task == NULL ==> replyTasks.contents == []
        invariant count != -1 ==> processNbr == 0 || processNbr <= count
        decreases |rs| + |queued| - processNbr
      {
        replied := replied + [task];
        task, n, arrived := PopNext(queued, rs, n, arrived, processNbr + 1);
        processNbr := processNbr + 1;
      }
      seen := rs + arrived;
      assert seen[|rs|..] == arrived;
    }

    /** getReplyTask, after whatever the worker did since the last one; `popped` replies were popped before. */
    method PopNext(
      ghost queued: seq<Ptr>, ghost rs: seq<Ptr>, ghost n: nat, ghost arrived: seq<Ptr>, ghost popped: nat)
      returns (task: Ptr, ghost n': nat, ghost arrived': seq<Ptr>)
      requires Valid() && NULL !in rs + queued && popped <= |rs + arrived|
      requires Executes(queued, MAX_TASK_NUM - 1 - |rs|, n, arrived) && n <= |queued| && tasks.contents == queued[n..]
      requires replyTasks.contents == (rs + arrived)[popped..]
      modifies tasks, replyTasks, replyTasks.taskNode
      ensures Valid() && Executes(queued, MAX_TASK_NUM - 1 - |rs|, n', arrived') && n' <= |queued|
      ensures tasks.contents == queued[n'..]
      ensures arrived <= arrived' && |arrived'| <= |queued|
      ensures task == NULL <==> popped == |rs + arrived'|
      ensures task != NULL ==> task == (rs + arrived')[popped] && replyTasks.contents == (rs + arrived')[popped + 1..]
      ensures task == NULL ==> replyTasks.contents == []
    {
      hide CTaskList.Valid, IsSubsequence;
      ghost var more, news := Meanwhile();
      n', arrived' := n + more, arrived + news;
      ghost var room := MAX_TASK_NUM - 1 - |(rs + arrived)[popped..]|;
      ExecutesMore(queued, MAX_TASK_NUM - 1 - |rs|, n, arrived, room, more, news);
      MoreArrived(rs, arrived, news, popped);
      NoNullArrives(queued, MAX_TASK_NUM - 1 - |rs|, n', arrived');
      if popped < |rs + arrived'| {
        PopFrom(rs + arrived', popped);
      }
      task := GetReplyTask();
    }
  }

  lemma {:induction false} SubsequenceMember(a: seq<Ptr>, b: seq<Ptr>, x: Ptr)
    requires IsSubsequence(a, b) && x in a
    ensures x in b
    decreases |b|
  {
    var n := |b| - 1;
    if IsSubsequence(a, b[..n]) {
      SubsequenceMember(a, b[..n], x);
    } else if x != a[|a| - 1] {
      SubsequenceMember(a[..|a| - 1], b[..n], x);
    }
  }

  lemma NoNullArrives(queued: seq<Ptr>, room: int, n: nat, arrived: seq<Ptr>)
    requires NULL !in queued && Executes(queued, room, n, arrived)
    ensures NULL !in arrived
  {
    if NULL in arrived {
      SubsequenceMember(arrived, queued[..n], NULL);
      assert false;
    }
  }

  /** One more task executed, with or without room for its reply. */
  lemma ExecutesOneMore(queued: seq<Ptr>, room: int, n: nat, arrived: seq<Ptr>)
    requires Executes(queued, room, n, arrived) && n < |queued|
    ensures Executes(queued, room, n + 1, arrived + [queued[n]])
    ensures n >= room ==> Executes(queued, room, n + 1, arrived)
  {
    assert queued[..n + 1] == queued[..n] + [queued[n]];
    SubsequenceSnoc(arrived, queued[..n], queued[n], queued[n]);
    hide IsSubsequence;
  }

  class CMysqlThreadMgr {
    const threads: seq<CMysqlThread>
    var released: seq<Ptr>            // tasks on which reply() and release() were called

    ghost const rep: set<object>      // the rings of all threads

    ghost predicate Valid()
      reads rep
    {
      && |threads| == THREAD_COUNT + 1 && this !in rep
      && (forall i :: 0 <= i < |threads| ==>
            threads[i].tasks in rep && threads[i].tasks.taskNode in rep
            && threads[i].replyTasks in rep && threads[i].replyTasks.taskNode in rep
            && threads[i].Valid())
      && (forall i, j :: 0 <= i < |threads| && 0 <= j < |threads| && i != j ==> threads[i].rep !! threads[j].rep)
    }

    constructor ()
      ensures Valid() && fresh(rep) && released == []
      ensures forall i :: 0 <= i < |threads| ==> threads[i].tasks.contents == [] && threads[i].replyTasks.contents == []
    {
      hide CTaskList.Valid;
      var made: seq<CMysqlThread> := [];
      ghost var objects: set<object> := {};
      for n := 0 to THREAD_COUNT + 1
        invariant |made| == n && fresh(objects)
        invariant forall i :: 0 <= i < n ==>
                    && made[i].rep <= objects && made[i].Valid()
                    && made[i].tasks.contents == [] && made[i].replyTasks.contents == []
        invariant forall i, j :: 0 <= i < n && 0 <= j < n && i != j ==> made[i].rep !! made[j].rep
      {
        var t := new CMysqlThread();
        made, objects := made + [t], objects + t.rep;
      }
      threads, rep := made, objects;
      released := [];
    }

    ghost function Replies(): (r: seq<seq<Ptr>>)
      reads set i | 0 <= i < |threads| :: threads[i].replyTasks
      ensures |r| == |threads|
      ensures forall i :: 0 <= i < |threads| ==> r[i] == threads[i].replyTasks.contents
    {
      seq(|threads|, i requires 0 <= i < |threads|
        reads set k | 0 <= k < |threads| :: threads[k].replyTasks
        => threads[i].replyTasks.contents)
    }

    ghost function Queued(): (q: seq<seq<Ptr>>)
      reads set i | 0 <= i < |threads| :: threads[i].tasks
      ensures |q| == |threads|
      ensures forall i :: 0 <= i < |threads| ==> q[i] == threads[i].tasks.contents
    {
      seq(|threads|, i requires 0 <= i < |threads|
        reads set k | 0 <= k < |threads| :: threads[k].tasks
        => threads[i].tasks.contents)
    }

    /** What happens to the rings of thread i leaves the other threads alone. */
    twostate lemma OthersStandStill(i: nat)
      requires old(Valid()) && i < |threads| && threads[i].Valid()
      requires forall o | o in rep && o !in threads[i].rep :: unchanged(o)
      ensures Valid()
      ensures Queued() == old(Queued())[i := threads[i].tasks.contents]
      ensures Replies() == old(Replies())[i := threads[i].replyTasks.contents]
    {
      hide CTaskList.Valid;
      forall k | 0 <= k < |threads| && k != i
        ensures threads[k].Valid() && threads[k].tasks.contents == old(threads[k].tasks.contents)
        ensures threads[k].replyTasks.contents == old(threads[k].replyTasks.contents)
      {
        assert threads[k].rep !! threads[i].rep && threads[k].rep <= rep;
      }
    }

    /** addTask(hash_id, task) and addTask(task). */
    method AddTask(key: Key, task: Ptr) returns (ok: bool)
      requires Valid()
      modifies rep
      ensures Valid() && |threads| == 10
      ensures var i := if key.Hash? then key.id % 9 else 9;
              && (ok <==> |old(Queued())[i]| < 999)
              && Queued() == old(Queued())[i := old(Queued())[i] + if ok then [task] else []]
      ensures Replies() == old(Replies())
    {
      var i := WorkerOf(key);
      RepOf(i);
      hide CTaskList.Valid, CMysqlThread.Valid, Valid, Queued, Replies;
      ok := threads[i].AddTask(task);
      assert old(Queued())[i] + [] == old(Queued())[i];
      OthersStandStill(i);
    }

    /** The turn of worker i, which keeps running. */
    method Turn(i: nat, count: int) returns (processNbr: nat, ghost seen: seq<Ptr>)
      requires Valid() && i < |threads| && NULL !in Replies()[i] && NULL !in Queued()[i]
      modifies this`released, threads[i].rep
      ensures Valid()
      ensures Meets(old(Queued())[i], Queued()[i], old(Replies())[i], seen)
      ensures processNbr == Processed(|seen|, count)
      ensures released == old(released) + seen[..processNbr]
      ensures Replies() == old(Replies())[i := seen[Popped(|seen|, count)..]]
      ensures Queued() == old(Queued())[i := Queued()[i]]
    {
      RepOf(i);
      hide CTaskList.Valid, CMysqlThread.Valid, Meets, Valid, Queued, Replies, Popped, Processed;
      var replied;
      processNbr, replied, seen := threads[i].ReplyUpTo(count);
      OthersStandStill(i);
      released := released + replied;
    }

    lemma RepOf(i: nat)
      requires Valid() && i < |threads|
      ensures threads[i].rep <= rep && this !in rep && threads[i].Valid()
      ensures threads[i].rep == {threads[i].tasks, threads[i].tasks.taskNode,
                                 threads[i].replyTasks, threads[i].replyTasks.taskNode}
    {
    }

    /** `seen[i]` are the replies of worker i that its turn meets. */
    method ProcessReplyTask(count: int) returns (isResult: bool, ghost seen: seq<seq<Ptr>>)
      requires Valid()
      requires (forall r <- Replies() :: NULL !in r) && (forall q <- Queued() :: NULL !in q)
      modifies this`released, rep
      ensures Valid() && |seen| == |threads|
      ensures TurnsTaken(old(Queued()), Queued(), old(Replies()), seen)
      ensures released == old(released) + AllReleased(seen, count)
      ensures Replies() == Drained(seen, |threads|, count)
      ensures count == -1 ==> forall i :: 0 <= i < |threads| ==> Replies()[i] == []
      ensures count != -1 ==>
                var limit := if count < 0 then 0 else count;
                forall i :: 0 <= i < |threads| ==>
                  Replies()[i] == if |seen[i]| <= limit then [] else seen[i][limit + 1..]
      ensures isResult <==> count >= 0 && exists i :: 0 <= i < |seen| && |seen[i]| >= count
    {
      ghost var before, queued := Replies(), Queued();
      NoTurns(before, count);
      NoTurnTaken(queued, before);
      assert |threads| == THREAD_COUNT + 1;
      hide Valid, CMysqlThread.Valid, CTaskList.Valid, Replies, Queued, Processed, Popped, AllReleased, SomeExact,
           Drained, SoFar, Meets, TurnsTaken;
      isResult, seen := false, [];
      for i := 0 to THREAD_COUNT + 1
        invariant Valid() && |seen| == i
        invariant TurnsTaken(queued, Queued(), before, seen)
        invariant released == old(released) + AllReleased(seen, count)
        invariant Replies() == SoFar(seen, before, count)
        invariant isResult <==> SomeExact(seen, count)
      {
        TurnDrains(seen, before, [], count);
        NextTurnIsUntouched(queued, Queued(), before, seen);
        assert before[i] in before && queued[i] in queued;
        RepOf(i);
        var processNbr;
        ghost var turn, now := [], Queued();
        processNbr, turn := Turn(i, count);
        OneMoreTurn(queued, now, before, seen, Queued()[i], turn);
        TurnReleases(seen, turn, count);
        TurnDrains(seen, before, turn, count);
        Associate(old(released), AllReleased(seen, count), turn[..processNbr]);
        if processNbr == count {
          isResult := true;
        }
        seen := seen + [turn];
      }
      AllTurns(seen, before, count);
      ExactMeansReached(seen, count);
      DrainedExactly(seen, count);
    }
  }

  // What a call of processReplyTask loses. `seen` are the replies each worker's turn meets.

  ghost function Total(replies: seq<seq<Ptr>>): nat {
    if replies == [] then 0 else Total(replies[..|replies| - 1]) + |replies[|replies| - 1]|
  }

  /** A worker's turn meets more replies than the count allows. */
  ghost predicate Overfull(rs: seq<Ptr>, count: int) {
    count != -1 && |rs| > 0 && |rs| > count
  }

  ghost function OverfullWorkers(seen: seq<seq<Ptr>>, count: int): nat {
    if seen == [] then 0
    else
      var n := |seen| - 1;
      OverfullWorkers(seen[..n], count) + if Overfull(seen[n], count) then 1 else 0
  }

  /** Each worker whose turn meets more replies than the count loses exactly one: popped, never released. */
  lemma {:induction false} OneReplyLostPerOverfullWorker(seen: seq<seq<Ptr>>, count: int)
    ensures Total(seen) ==
            |AllReleased(seen, count)| + Total(Drained(seen, |seen|, count)) + OverfullWorkers(seen, count)
  {
    if seen != [] {
      var n := |seen| - 1;
      OneReplyLostPerOverfullWorker(seen[..n], count);
      assert Drained(seen, |seen|, count)[..n] == Drained(seen[..n], n, count);
    }
  }

  /** Workers are drained in the order of their numbers, one after the other. */
  lemma {:induction false} ReleasesAreInWorkerOrder(first: seq<seq<Ptr>>, later: seq<seq<Ptr>>, count: int)
    ensures AllReleased(first + later, count) == AllReleased(first, count) + AllReleased(later, count)
    ensures |first| == 1 ==>
              AllReleased(first, count) <= first[0]
              && |AllReleased(first, count)| == if count == -1 || |first[0]| <= count then |first[0]|
                                                else if count < 0 then 0 else count
    decreases |later|
  {
    if |first| == 1 {
      assert first == [] + [first[0]];
      TurnReleases([], first[0], count);
      assert [] + first[0][..Processed(|first[0]|, count)] == first[0][..Processed(|first[0]|, count)];
    }
    if later == [] {
      assert first + later == first;
    } else {
      var n := |later| - 1;
      assert (first + later) == (first + later[..n]) + [later[n]] && later == later[..n] + [later[n]];
      ReleasesAreInWorkerOrder(first, later[..n], count);
      TurnReleases(first + later[..n], later[n], count);
      TurnReleases(later[..n], later[n], count);
      Associate(AllReleased(first, count), AllReleased(later[..n], count), later[n][..Processed(|later[n]|, count)]);
    }
  }

  /** So a call loses nothing exactly when no worker is overfull, which holds for every call with -1. */
  lemma {:induction false} NothingLostExactlyWhenNoWorkerIsOverfull(seen: seq<seq<Ptr>>, count: int)
    ensures Total(seen) == |AllReleased(seen, count)| + Total(Drained(seen, |seen|, count)) <==>
            forall i :: 0 <= i < |seen| ==> !Overfull(seen[i], count)
  {
    OneReplyLostPerOverfullWorker(seen, count);
    NoOverfullWorkers(seen, count);
  }

  lemma {:induction false} NoOverfullWorkers(seen: seq<seq<Ptr>>, count: int)
    ensures OverfullWorkers(seen, count) == 0 <==> forall i :: 0 <= i < |seen| ==> !Overfull(seen[i], count)
  {
    if seen != [] {
      var n := |seen| - 1;
      NoOverfullWorkers(seen[..n], count);
      assert forall i :: 0 <= i < n ==> seen[..n][i] == seen[i];
    }
  }

  /** What can be told before the call: a worker with no more tasks in its two rings than the count is safe. */
  lemma FittingWorkerIsNotOverfull(queued: seq<Ptr>, queued': seq<Ptr>, replies: seq<Ptr>, seen: seq<Ptr>, count: int)
    requires Meets(queued, queued', replies, seen)
    ensures |seen| <= |queued| + |replies|
    ensures |queued| + |replies| <= count ==> !Overfull(seen, count)
  {
  }

  /** The replies waiting at the call do not decide: one waits, one task is queued, and count 1 loses its reply. */
  lemma AReplyArrivingDuringTheDrainIsLost(a: Ptr, b: Ptr)
    ensures !Overfull([a], 1) && Meets([b], [], [a], [a, b]) && Overfull([a, b], 1)
    ensures AllReleased([[a, b]], 1) == [a] && Drained([[a, b]], 1, 1) == [[]]
  {
    assert [b][..1] == [b] && [a, b][1..] == [b];
    assert IsSubsequence([b], [b]) by {
      assert [b][..0] == [];
    }
    assert AllReleased([[a, b]], 1) == AllReleased([[a, b]][..0], 1) + [a, b][..1];
  }

  /** processReplyTask(0) only loses: it releases nothing, and takes one reply out of every ring that has one. */
  lemma {:induction false} CountZeroOnlyLoses(seen: seq<seq<Ptr>>)
    ensures AllReleased(seen, 0) == []
    ensures forall i :: 0 <= i < |seen| ==>
              Drained(seen, |seen|, 0)[i] == if seen[i] == [] then [] else seen[i][1..]
  {
    if seen != [] {
      CountZeroOnlyLoses(seen[..|seen| - 1]);
    }
  }
}
