/** The fixed ring of task pointers of mysqlmgr/TaskList: a queue with one empty slot. */
module TaskRing {
  /** An IMysqlTask*; NULL is nullptr. */
  type Ptr = nat
  const NULL: Ptr := 0

  const MAX_TASK_NUM: nat := 1000

  /** The three fields of CTaskList as one value. */
  datatype Ring = Ring(read: nat, write: nat, slots: seq<Ptr>) {
    ghost predicate Valid() {
      |slots| == MAX_TASK_NUM && read < MAX_TASK_NUM && write < MAX_TASK_NUM
    }

    /** The queued tasks, oldest first. */
    ghost function Contents(): seq<Ptr>
      requires Valid()
    {
      if read <= write then slots[read..write] else slots[read..] + slots[..write]
    }

    /** The slots that hold a queued task. */
    ghost predicate Occupied(k: nat) {
      if read <= write then read <= k < write else read <= k < MAX_TASK_NUM || k < write
    }
  }

  /** The reduced value is below 1000, so the cast back to uint16_t loses nothing. */
  function NextIdx(i: nat): nat {
    (i + 1) % MAX_TASK_NUM
  }

  /** Storing into the free slot and then advancing the write index appends. */
  lemma PushAppends(r: Ring, task: Ptr)
    requires r.Valid() && NextIdx(r.write) != r.read
    ensures var r' := r.(slots := r.slots[r.write := task]);
            && r'.Contents() == r.Contents()
            && r'.(write := NextIdx(r.write)).Contents() == r.Contents() + [task]
  {
    var r' := r.(slots := r.slots[r.write := task]);
    assert r'.Contents() == r.Contents();
    var r'' := r'.(write := NextIdx(r.write));
    assert r''.Contents() == r.Contents() + [task];
  }

  /** Advancing the read index of a ring that is not empty removes the oldest task. */
  lemma PopRemovesOldest(r: Ring)
    requires r.Valid() && r.write != r.read
    ensures r.Contents() == [r.slots[r.read]] + r.(read := NextIdx(r.read)).Contents()
  {
    var r' := r.(read := NextIdx(r.read));
    if r.read + 1 == MAX_TASK_NUM {
      assert r.slots[r.read..] == [r.slots[r.read]];
      assert r'.Contents() == r.slots[..r.write];
    } else if r.read < r.write {
      assert r'.Contents() == r.slots[r.read + 1..r.write];
    } else {
      assert r.slots[r.read..] == [r.slots[r.read]] + r.slots[r.read + 1..];
    }
  }

  /** The index tests decide full and empty exactly, and the ring never holds more than 999. */
  lemma IndexTestsAreExact(r: Ring)
    requires r.Valid()
    ensures |r.Contents()| <= 999
    ensures NextIdx(r.write) == r.read <==> |r.Contents()| == 999
    ensures r.write == r.read <==> r.Contents() == []
  {
    assert |r.Contents()| ==
           if r.read <= r.write then r.write - r.read else MAX_TASK_NUM - r.read + r.write;
  }

  class CTaskList {
    var readIdx: nat
    var writeIdx: nat
    const taskNode: array<Ptr>
    ghost var contents: seq<Ptr>   // the queued tasks, oldest first

    ghost function State(): Ring
      reads this, taskNode
    {
      Ring(readIdx, writeIdx, taskNode[..])
    }

    ghost predicate Valid()
      reads this, taskNode
    {
      State().Valid() && contents == State().Contents()
    }

    constructor ()
      ensures Valid() && fresh(taskNode)
      ensures contents == []
    {
      readIdx, writeIdx := 0, 0;
      taskNode := new Ptr[MAX_TASK_NUM](_ => NULL);
      contents := [];
    }

    method Push(task: Ptr) returns (ok: bool)
      requires Valid()
      modifies this, taskNode
      ensures Valid()
      ensures ok <==> |old(contents)| < 999
      ensures contents == if ok then old(contents) + [task] else old(contents)
    {
      IndexTestsAreExact(State());
      var nextIdx := NextIdx(writeIdx);
      if nextIdx == readIdx {
        return false;
      }
      PushAppends(State(), task);
      taskNode[writeIdx] := task;
      writeIdx := nextIdx;
      contents := contents + [task];
      return true;
    }

    method Pop() returns (task: Ptr)
      requires Valid()
      modifies this
      ensures Valid()
      ensures old(contents) == [] ==> task == NULL && contents == []
      ensures old(contents) != [] ==> task == old(contents)[0] && contents == old(contents)[1..]
    {
      IndexTestsAreExact(State());
      if writeIdx == readIdx {
        return NULL;
      }
      PopRemovesOldest(State());
      task := taskNode[readIdx];
      readIdx := NextIdx(readIdx);
      contents := contents[1..];
    }
  }
}
