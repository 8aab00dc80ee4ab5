/** A client that submits 1000 tasks and collects no reply loses the last one. */
module DropWitness {
  import opened TaskRing
  import opened Pipeline
  import R = RingProtocol

  lemma {:induction false} ExtendRun(w: Worker, run: seq<Action>, a: Action)
    requires IsRun(w, run) && Enabled(After(w, run), a)
    ensures IsRun(w, run + [a]) && After(w, run + [a]) == Apply(After(w, run), a)
    decreases |run|
  {
    if run == [] {
      assert run + [a] == [a];
    } else {
      ExtendRun(Apply(w, run[0]), run[1..], a);
      assert (run + [a])[1..] == run[1..] + [a];
    }
  }

  lemma Go(w: Worker, run: seq<Action>, a: Action) returns (run': seq<Action>, v: Worker)
    requires IsRun(w, run) && Inv(After(w, run)) && Enabled(After(w, run), a)
    ensures IsRun(w, run') && v == After(w, run') == Apply(After(w, run), a)
    ensures Inv(v) && R.Inv(v.tasks) && R.Inv(v.replies)
  {
    ExtendRun(w, run, a);
    EveryStepKeepsInv(After(w, run), a);
    run', v := run + [a], After(w, run + [a]);
  }

  /** Between two laps: nobody is inside a push or a pop and `n` replies wait. */
  ghost predicate Quiet(w: Worker, n: nat) {
    && Inv(w) && R.Inv(w.tasks) && R.Inv(w.replies) && !w.terminate
    && w.pc == LoopHead && w.tasks.pusher == R.PushIdle && w.replies.popper == R.PopIdle
    && w.tasks.popper == R.PopIdle && w.replies.pusher == R.PushIdle
    && w.tasks.ring.Contents() == [] && |w.replies.ring.Contents()| == n
  }

  lemma SubmitOne(w: Worker, run0: seq<Action>, n: nat) returns (run: seq<Action>, v: Worker)
    requires IsRun(w, run0) && Quiet(After(w, run0), n)
    ensures IsRun(w, run) && v == After(w, run) && Inv(v) && R.Inv(v.tasks)
    ensures v.tasks.ring.Contents() == [1] && v == After(w, run0).(tasks := v.tasks)
    ensures v.tasks.pusher == R.PushIdle && v.tasks.popper == R.PopIdle
  {
    hide Inv, IsRun, After, R.Inv, Ring.Contents;
    run, v := Go(w, run0, Submit(1));
    run, v := Go(w, run, SubmitStep);
    R.PushFailsExactlyWhenFull(v.tasks);
    run, v := Go(w, run, SubmitStep);
    R.PushStepKeepsInv(v.tasks);
    run, v := Go(w, run, SubmitStep);
    R.PushStepKeepsInv(v.tasks);
    run, v := Go(w, run, SubmitStep);
    run, v := Go(w, run, SubmitDone);
  }

  lemma SeeOne(w: Worker, run0: seq<Action>) returns (run: seq<Action>, v: Worker)
    requires IsRun(w, run0) && Inv(After(w, run0)) && R.Inv(After(w, run0).tasks) && !After(w, run0).terminate
    requires After(w, run0).pc == LoopHead && After(w, run0).tasks.ring.Contents() == [1]
    requires After(w, run0).tasks.popper == R.PopIdle
    ensures IsRun(w, run) && v == After(w, run) && Inv(v) && R.Inv(v.tasks) && v.tasks.popper == R.PopNonEmpty
    ensures v.tasks.ring.Contents() == [1] && v == After(w, run0).(tasks := v.tasks, pc := Polling)
    ensures v.tasks.pusher == After(w, run0).tasks.pusher
  {
    hide Inv, IsRun, After, R.Inv, Ring.Contents;
    run, v := Go(w, run0, Work);
    R.PopStepKeepsInv(v.tasks);
    run, v := Go(w, run, Work);
    R.PopGivesUpExactlyWhenItSawEmpty(v.tasks);
    R.PopStepKeepsInv(v.tasks);
    run, v := Go(w, run, Work);
  }

  lemma TakeOne(w: Worker, run0: seq<Action>) returns (run: seq<Action>, v: Worker)
    requires IsRun(w, run0) && Inv(After(w, run0)) && R.Inv(After(w, run0).tasks)
    requires After(w, run0).pc == Polling && After(w, run0).tasks.ring.Contents() == [1]
    requires After(w, run0).tasks.popper == R.PopNonEmpty
    ensures IsRun(w, run) && v == After(w, run) && Inv(v) && R.Inv(v.tasks)
    ensures v.tasks.ring.Contents() == [] && v == After(w, run0).(tasks := v.tasks, pc := Executing(1))
    ensures v.tasks.pusher == After(w, run0).tasks.pusher && v.tasks.popper == R.PopIdle
  {
    hide Inv, IsRun, After, R.Inv, Ring.Contents;
    R.PopStepKeepsInv(After(w, run0).tasks);
    run, v := Go(w, run0, Work);
    R.PopStepKeepsInv(v.tasks);
    assert v.tasks.popper.PopRead? && v.tasks.ring.Contents()[0] == v.tasks.popper.task;
    run, v := Go(w, run, Work);
    run, v := Go(w, run, Work);
  }

  /** The worker begins to push its reply, up to the comparison with read_idx_. */
  lemma StartReply(w: Worker, run0: seq<Action>) returns (run: seq<Action>, v: Worker)
    requires IsRun(w, run0) && Inv(After(w, run0)) && R.Inv(After(w, run0).replies)
    requires After(w, run0).pc == Executing(1) && After(w, run0).replies.pusher == R.PushIdle
    ensures var u := After(w, run0);
            && IsRun(w, run) && v == After(w, run) && Inv(v) && R.Inv(v.replies) && v.replies.pusher.PushNextKnown?
            && v.replies.ring.Contents() == u.replies.ring.Contents() && v.replies.popper == u.replies.popper
            && v == u.(replies := v.replies, pc := Replying(1), executed := v.executed)
  {
    hide Inv, IsRun, After, R.Inv, Ring.Contents;
    run, v := Go(w, run0, Work);
    R.PushStepKeepsInv(v.replies);
    run, v := Go(w, run, Work);
  }

  /** The comparison: with room the reply is stored and published, without it is lost. */
  lemma EndReply(w: Worker, run0: seq<Action>, n: nat) returns (run: seq<Action>, v: Worker)
    requires IsRun(w, run0) && Inv(After(w, run0)) && R.Inv(After(w, run0).replies)
    requires After(w, run0).pc == Replying(1) && After(w, run0).replies.pusher.PushNextKnown?
    requires |After(w, run0).replies.ring.Contents()| == n
    ensures IsRun(w, run) && v == After(w, run) && Inv(v) && R.Inv(v.replies) && v.replies.pusher == R.PushIdle
    ensures n == MAX_TASK_NUM - 1 ==> Dropped(v) == Dropped(After(w, run0)) + [1]
    ensures n < MAX_TASK_NUM - 1 ==> |v.replies.ring.Contents()| == n + 1
    ensures v.replies.popper == After(w, run0).replies.popper
    ensures v == After(w, run0).(replies := v.replies, pc := LoopHead, outcomes := v.outcomes)
  {
    hide Inv, IsRun, After, R.Inv, Ring.Contents, Chosen;
    v := After(w, run0);
    R.QueueIsBounded(v.replies);
    R.PushFailsExactlyWhenFull(v.replies);
    R.PushStepKeepsInv(v.replies);
    DropsExactlyOnFullReplyRing(v, Work);
    run, v := Go(w, run0, Work);
    if n < MAX_TASK_NUM - 1 {
      R.PushStepKeepsInv(v.replies);
      run, v := Go(w, run, Work);
      R.PushStepKeepsInv(v.replies);
      run, v := Go(w, run, Work);
    }
    run, v := Go(w, run, Work);
  }

  /** One task through the worker: its reply waits, or is lost if 999 replies already wait. */
  lemma Lap(w: Worker, run0: seq<Action>, n: nat) returns (run: seq<Action>)
    requires IsRun(w, run0) && Quiet(After(w, run0), n)
    ensures IsRun(w, run)
    ensures n < MAX_TASK_NUM - 1 ==> Quiet(After(w, run), n + 1)
    ensures n == MAX_TASK_NUM - 1 ==> Dropped(After(w, run)) != []
  {
    hide IsRun, After, Inv, R.Inv;
    var v;
    run, v := SubmitOne(w, run0, n);
    run, v := SeeOne(w, run);
    run, v := TakeOne(w, run);
    run, v := StartReply(w, run);
    run, v := EndReply(w, run, n);
  }

  lemma {:induction false} FillReplies(w: Worker, n: nat) returns (run: seq<Action>)
    requires Initial(w) && n <= MAX_TASK_NUM - 1
    ensures IsRun(w, run) && Quiet(After(w, run), n)
  {
    run := [];
    if n > 0 {
      run := FillReplies(w, n - 1);
      run := Lap(w, run, n - 1);
    }
  }

  /** The client bound in ThrottledRunDropsNothing is needed: the 1000th uncollected task is lost. */
  lemma UnthrottledClientLosesATask(w: Worker)
    requires Initial(w)
    ensures exists run :: IsRun(w, run) && Dropped(After(w, run)) != []
  {
    var run := FillReplies(w, MAX_TASK_NUM - 1);
    run := Lap(w, run, MAX_TASK_NUM - 1);
  }
}
