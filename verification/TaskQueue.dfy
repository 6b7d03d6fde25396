/** The ring queue of tasks, used by one thread at a time. */
module TaskQueue {

  const QUEUE_SIZE := 256

  datatype Task = Task(id: int, priority: int, status: int)

  /** The stretch of the ring from head to tail. */
  function Between(slots: seq<Task>, head: nat, tail: nat): (c: seq<Task>)
    requires |slots| == QUEUE_SIZE && head < QUEUE_SIZE && tail < QUEUE_SIZE
    ensures |c| < QUEUE_SIZE
  {
    if head <= tail then slots[head..tail] else slots[head..] + slots[..tail]
  }

  function Next(i: nat): (j: nat)
    requires i < QUEUE_SIZE
    ensures j < QUEUE_SIZE && j == if i + 1 == QUEUE_SIZE then 0 else i + 1
  {
    (i + 1) % QUEUE_SIZE
  }

  lemma Pushed(slots: seq<Task>, head: nat, tail: nat, t: Task)
    requires |slots| == QUEUE_SIZE && head < QUEUE_SIZE && tail < QUEUE_SIZE
    ensures Next(tail) == head <==> |Between(slots, head, tail)| == QUEUE_SIZE - 1
    ensures Next(tail) != head ==> Between(slots[tail := t], head, Next(tail)) == Between(slots, head, tail) + [t]
  {}

  lemma Popped(slots: seq<Task>, head: nat, tail: nat, t: Task)
    requires |slots| == QUEUE_SIZE && head < QUEUE_SIZE && tail < QUEUE_SIZE && head != tail
    ensures var c := Between(slots, head, tail);
            c != [] && c[0] == slots[head] && Between(slots[head := t], Next(head), tail) == c[1..]
  {}

  class Queue {
    const tasks: array<Task>
    var head: nat
    var tail: nat

    ghost predicate Valid()
      reads this
    {
      tasks.Length == QUEUE_SIZE && head < QUEUE_SIZE && tail < QUEUE_SIZE
    }

    /** The queued tasks, oldest first. */
    ghost function Contents(): (c: seq<Task>)
      requires Valid()
      reads this, tasks
      ensures |c| < QUEUE_SIZE
    {
      Between(tasks[..], head, tail)
    }

    constructor ()
      ensures Valid() && fresh(tasks) && Contents() == []
    {
      tasks := new Task[QUEUE_SIZE](i => Task(-1, 0, 0));
      head, tail := 0, 0;
    }

    method Init()
      requires Valid()
      modifies this`head, this`tail, tasks
      ensures Valid() && Contents() == []
      ensures forall i :: 0 <= i < QUEUE_SIZE ==> tasks[i] == Task(-1, 0, 0)
    {
      head, tail := 0, 0;
      for i := 0 to QUEUE_SIZE
        invariant head == tail == 0
        invariant forall j :: 0 <= j < i ==> tasks[j] == Task(-1, 0, 0)
      {
        tasks[i] := Task(-1, 0, 0);
      }
    }

    /** One slot always stays free, so the queue holds QUEUE_SIZE - 1 tasks at most. */
    method Enqueue(id: int, priority: int) returns (r: int)
      requires Valid()
      modifies this`tail, tasks
      ensures Valid()
      ensures r == if |old(Contents())| == QUEUE_SIZE - 1 then -1 else 0
      ensures Contents() == if r == 0 then old(Contents()) + [Task(id, priority, 1)] else old(Contents())
    {
      var newTail := Next(tail);
      Pushed(tasks[..], head, tail, Task(id, priority, 1));
      hide Between;
      if newTail == head { return -1; }
      ghost var slots := tasks[..];
      tasks[tail] := Task(id, priority, 1);
      assert tasks[..] == slots[tail := Task(id, priority, 1)];
      tail := newTail;
      r := 0;
    }

    method Dequeue() returns (id: int)
      requires Valid()
      modifies this`head, tasks
      ensures Valid()
      ensures old(Contents()) == [] ==> id == -1 && Contents() == []
      ensures old(Contents()) != [] ==> id == old(Contents())[0].id && Contents() == old(Contents())[1..]
      ensures old(Contents()) != [] ==> tasks[old(head)] == old(tasks[head]).(status := 0)
    {
      if head == tail { return -1; }
      ghost var slots := tasks[..];
      Popped(slots, head, tail, slots[head].(status := 0));
      hide Between;
      id := tasks[head].id;
      tasks[head] := tasks[head].(status := 0);
      assert tasks[..] == slots[head := slots[head].(status := 0)];
      head := Next(head);
    }

    /** The compare-and-swap on `head`. */
    method CompareAndSwapHead(expected: nat, desired: nat) returns (swapped: bool)
      requires desired < QUEUE_SIZE
      modifies this`head
      ensures swapped == (old(head) == expected)
      ensures head == if swapped then desired else old(head)
    {
      swapped := head == expected;
      if swapped { head := desired; }
    }

    /** With no other thread around the swap succeeds, and the call is a dequeue. */
    method TryDequeue() returns (id: int)
      requires Valid()
      modifies this`head, tasks
      ensures Valid()
      ensures old(Contents()) == [] ==> id == -1 && Contents() == []
      ensures old(Contents()) != [] ==> id == old(Contents())[0].id && Contents() == old(Contents())[1..]
      ensures old(Contents()) != [] ==> tasks[old(head)] == old(tasks[head]).(status := 0)
    {
      var oldHead := head;
      if oldHead == tail { return -1; }
      ghost var slots := tasks[..];
      Popped(slots, head, tail, slots[head].(status := 0));
      var newHead := Next(oldHead);
      var swapped := CompareAndSwapHead(oldHead, newHead);
      if swapped {
        id := tasks[oldHead].id;
        tasks[oldHead] := tasks[oldHead].(status := 0);
        assert tasks[..] == slots[oldHead := slots[oldHead].(status := 0)];
      } else {
        id := -2;
      }
    }

    method QueuedTasks() returns (n: int)
      requires Valid()
      ensures n == |Contents()|
    {
      n := (tail - head + QUEUE_SIZE) % QUEUE_SIZE;
    }
  }
}
