/** The manager's shutdown: when waitAll can return, and when a batch can be processed at all. */
module Shutdown {
  import opened Options
  import opened Pipeline
  import ThreadPool
  import Batching

  predicate NoSubmit(ls: seq<Label>) { forall l :: l in ls ==> !(l.OfBatches? && l.b.Submit?) }

  /** The batch loop waits for commands that have not been submitted. */
  predicate Waiting(s: Manager, size: nat) {
    s.batches.at.Fill? && |s.batches.at.batch| < size && s.batches.queue == []
  }

  // ---- The loop stays where it is -----------------------------------------------------------------

  lemma {:induction false} LoopStuck(s: Manager, ls: seq<Label>, size: nat)
    requires |s.pool.workers| == |s.pool.late| && Waiting(s, size) && NoSubmit(ls)
    ensures var r := Exec(s, ls, size);
            r.Some? ==> r.value.batches == s.batches.(active := r.value.batches.active)
    decreases |ls|
  {
    if ls != [] {
      var before, l := ls[..|ls| - 1], ls[|ls| - 1];
      LoopStuck(s, before, size);
      hide Exec, ThreadPool.Step, ThreadPool.Held, MayFinish;
      var r := Exec(s, before, size);
      if r.Some? { StuckStep(r.value, l, size); }
    }
  }

  lemma StuckStep(s: Manager, l: Label, size: nat)
    requires |s.pool.workers| == |s.pool.late| && Waiting(s, size) && !(l.OfBatches? && l.b.Submit?)
    ensures var r := Step(s, l, size);
            r.Some? ==> r.value.batches == s.batches.(active := r.value.batches.active)
  {
    hide ThreadPool.Step, ThreadPool.Held, MayFinish;
  }

  lemma {:induction false} ExecAppend(s: Manager, ls: seq<Label>, more: seq<Label>, size: nat)
    requires |s.pool.workers| == |s.pool.late|
    ensures var r := Exec(s, ls, size);
            Exec(s, ls + more, size) == if r.Some? then Exec(r.value, more, size) else None
    decreases |more|
  {
    if more == [] {
      assert ls + more == ls;
    } else {
      var n := |more| - 1;
      ExecAppend(s, ls, more[..n], size);
      assert (ls + more)[..|ls + more| - 1] == ls + more[..n] && (ls + more)[|ls + more| - 1] == more[n];
      hide Step;
    }
  }

  /** In this continuation waitAll cannot return. */
  predicate Blocked(s: Manager, more: seq<Label>, size: nat)
    requires |s.pool.workers| == |s.pool.late|
  {
    var r := Exec(s, more, size);
    r.Some? ==> !ThreadPool.WaitAllReturns(r.value.pool)
  }

  /** On one worker, with a batch dispatched, waitAll never returns, whatever else happens. */
  lemma OneWorkerBlocked(ls: seq<Label>, more: seq<Label>, size: nat)
    requires var r := Exec(Init(1), ls, size);
             r.Some? && r.value.batches.dispatched != [] && Waiting(r.value, size) && NoSubmit(more)
    ensures Blocked(Exec(Init(1), ls, size).value, more, size)
  {
    var s := Exec(Init(1), ls, size).value;
    ExecAppend(Init(1), ls, more, size);
    LoopStuck(s, more, size);
    OneWorkerProcessesNothing(1, ls + more, size);
  }

  // ---- Building runs ------------------------------------------------------------------------------

  /** Steps that the workers take by themselves: no submission, no stop, no wakeup without a notification. */
  predicate Calm(ls: seq<Label>) { forall l :: l in ls ==> CalmLabel(l) }

  predicate CalmLabel(l: Label) {
    l.OfPool? && !l.p.Spurious? && !l.p.SetStop? && !l.p.NotifyAll?
  }

  ghost predicate Leads(s: Manager, t: Manager, size: nat)
    requires |s.pool.workers| == |s.pool.late|
  {
    exists more :: Calm(more) && Exec(s, more, size) == Some(t)
  }

  lemma LeadsSelf(s: Manager, size: nat)
    requires |s.pool.workers| == |s.pool.late|
    ensures Leads(s, s, size)
  {
    assert Calm([]) && Exec(s, [], size) == Some(s);
  }

  /** One more step of a worker. */
  lemma Onward(s: Manager, t: Manager, p: ThreadPool.Label, size: nat) returns (u: Manager)
    requires |s.pool.workers| == |s.pool.late| && Leads(s, t, size) && Inv(t, size)
    requires CalmLabel(OfPool(p)) && MayFinish(t, p) && !p.Push?
    requires |t.pool.workers| == |t.pool.late| && ThreadPool.Step(t.pool, p).Some?
    ensures Leads(s, u, size) && Inv(u, size)
    ensures u == t.(pool := ThreadPool.Step(t.pool, p).value) && |u.pool.workers| == |u.pool.late|
  {
    StepInv(t, OfPool(p), size);
    u := t.(pool := ThreadPool.Step(t.pool, p).value);
    assert Step(t, OfPool(p), size) == Some(u);
    hide Step, Inv;
    var more :| Calm(more) && Exec(s, more, size) == Some(t);
    assert (more + [OfPool(p)])[..|more|] == more;
    assert Calm(more + [OfPool(p)]) && Exec(s, more + [OfPool(p)], size) == Some(u);
  }

  /** The batch loop runs on worker v. */
  ghost predicate LoopOn(s: Manager, v: nat, size: nat) {
    Inv(s, size) && |s.pool.workers| == |s.pool.late| && !s.pool.stop && !s.batches.at.Done?
    && v < |s.pool.workers| && s.pool.workers[v] == ThreadPool.Running(0)
  }

  /** Between two states of such a run only another worker has changed. */
  predicate OtherMoved(t: Manager, u: Manager, v: nat) {
    && u.batches == t.batches && u.pool.stop == t.pool.stop && |u.pool.workers| == |t.pool.workers|
    && v < |u.pool.workers| && u.pool.workers[v] == t.pool.workers[v]
  }

  lemma LoopMeans(s: Manager, v: nat, size: nat)
    requires LoopOn(s, v, size)
    ensures Inv(s, size) && |s.pool.workers| == |s.pool.late| && ThreadPool.Inv(s.pool) && ThreadPool.TasksOk(s.pool)
    ensures !s.pool.stop && v < |s.pool.workers| && s.pool.workers[v] == ThreadPool.Running(0)
  {
    InvMeans(s, size);
  }

  /** Another worker runs another task. */
  lemma OtherTask(s: Pool, v: nat, w: nat)
    requires ThreadPool.TasksOk(s) && v < |s.workers| && s.workers[v] == ThreadPool.Running(0)
    requires w < |s.workers| && w != v
    ensures s.workers[w] != ThreadPool.Running(0)
  {}

  /** A worker that is not asleep comes to the queue: it finishes its task and passes the loop test. */
  lemma ToQueue(s: Manager, t: Manager, v: nat, w: nat, size: nat) returns (u: Manager)
    requires |s.pool.workers| == |s.pool.late| && Leads(s, t, size) && LoopOn(t, v, size) && t.pool.queue != []
    requires w < |t.pool.workers| && w != v && t.pool.lock.None?
    requires !t.pool.workers[w].Exited? && !t.pool.workers[w].Dozing?
        && (t.pool.workers[w].Asleep? ==> t.pool.pending > 0)
    ensures Leads(s, u, size) && LoopOn(u, v, size) && OtherMoved(t, u, v)
    ensures u.pool.queue == t.pool.queue && u.pool.pushed == t.pool.pushed && u.pool.lock.None?
    ensures u.pool.workers[w].Locking? || u.pool.workers[w].Woken?
  {
    hide Leads, Inv;
    LoopMeans(t, v, size);
    u := t;
    if u.pool.workers[w].Asleep? {
      u := Onward(s, u, ThreadPool.NotifyOne(w), size);
    } else {
      if u.pool.workers[w].Running? {
        OtherTask(u.pool, v, w);
        u := Onward(s, u, ThreadPool.FinishTask(w), size);
      }
      if u.pool.workers[w].Top? {
        u := Onward(s, u, ThreadPool.TestStop(w), size);
      }
    }
  }

  /** It takes the front of the queue. */
  lemma TakeNext(s: Manager, t: Manager, v: nat, size: nat) returns (u: Manager)
    requires |s.pool.workers| == |s.pool.late| && Leads(s, t, size) && LoopOn(t, v, size)
    requires t.pool.queue != [] && |t.pool.workers| >= 2
    ensures Leads(s, u, size) && LoopOn(u, v, size) && OtherMoved(t, u, v)
    ensures u.pool.queue == t.pool.queue[1..] && u.pool.pushed == t.pool.pushed
  {
    hide Leads, Inv;
    LoopMeans(t, v, size);
    var w := ThreadPool.AnotherWorker(t.pool, v);
    var t1 := ToQueue(s, t, v, w, size);
    LoopMeans(t1, v, size);
    u := Onward(s, t1, ThreadPool.Acquire(w), size);
  }

  /** With a second worker the pool's queue can be emptied while the batch loop runs. */
  lemma {:induction false} QueueEmptied(s: Manager, t: Manager, v: nat, size: nat) returns (u: Manager)
    requires |s.pool.workers| == |s.pool.late| && Leads(s, t, size) && LoopOn(t, v, size)
    requires |t.pool.workers| >= 2 || t.pool.queue == []
    ensures Leads(s, u, size) && LoopOn(u, v, size) && OtherMoved(t, u, v)
    ensures u.pool.queue == [] && u.pool.pushed == t.pool.pushed
    decreases |t.pool.queue|
  {
    hide Leads, LoopOn;
    if t.pool.queue == [] {
      LoopMeans(t, v, size);
      u := t;
    } else {
      var t1 := TakeNext(s, t, v, size);
      u := QueueEmptied(s, t1, v, size);
    }
  }

  /** And then waitAll returns, once a worker about to block has released the mutex. */
  lemma WaitAllReached(s: Manager, v: nat, size: nat)
    requires LoopOn(s, v, size) && (|s.pool.workers| >= 2 || s.pool.queue == [])
    ensures |s.pool.workers| == |s.pool.late|
    ensures exists more :: Calm(more) && !Blocked(s, more, size)
  {
    LoopMeans(s, v, size);
    LeadsSelf(s, size);
    var t := QueueEmptied(s, s, v, size);
    var u := t;
    if t.pool.lock.Some? {
      u := MutexReleased(s, t, v, size);
    }
    var more :| Calm(more) && Exec(s, more, size) == Some(u);
    assert !Blocked(s, more, size);
  }

  lemma MutexReleased(s: Manager, t: Manager, v: nat, size: nat) returns (u: Manager)
    requires |s.pool.workers| == |s.pool.late| && Leads(s, t, size) && LoopOn(t, v, size)
    requires t.pool.queue == [] && t.pool.lock.Some?
    ensures Leads(s, u, size) && ThreadPool.WaitAllReturns(u.pool)
  {
    hide Leads, Inv;
    LoopMeans(t, v, size);
    var w := t.pool.lock.value;
    assert w < |t.pool.workers| && t.pool.workers[w].Dozing?;
    u := Onward(s, t, ThreadPool.Block(w), size);
  }

  // ---- The exact conditions -----------------------------------------------------------------------

  /** While it fills a batch the loop runs on some worker. */
  lemma LoopRuns(s: Manager, size: nat) returns (v: nat)
    requires Inv(s, size) && s.batches.at.Fill? && !s.pool.stop
    ensures LoopOn(s, v, size)
    ensures s.batches.dispatched == [] ==> s.pool.queue == []
  {
    InvMeans(s, size);
    ThreadPool.TaskPlaced(s.pool, 0);
    v :| 0 <= v < |s.pool.workers| && s.pool.workers[v] == ThreadPool.Running(0);
  }

  /**
   Shutdown before stop, with a partial batch that waits for more commands: if none are submitted,
   waitAll never returns if and only if the loop has the only worker and a batch has been dispatched.
   */
  lemma ShutdownHangsIff(threads: nat, ls: seq<Label>, size: nat)
    requires var r := Exec(Init(threads), ls, size); r.Some? && !r.value.pool.stop && Waiting(r.value, size)
    ensures var s := Exec(Init(threads), ls, size).value;
            (forall more :: NoSubmit(more) ==> Blocked(s, more, size)) <==> threads == 1 && s.batches.dispatched != []
  {
    RunInv(threads, ls, size);
    hide Exec, Inv, Blocked;
    var s := Exec(Init(threads), ls, size).value;
    if threads == 1 && s.batches.dispatched != [] {
      forall more | NoSubmit(more)
        ensures Blocked(s, more, size)
      {
        OneWorkerBlocked(ls, more, size);
      }
    } else {
      var v := LoopRuns(s, size);
      WaitAllReached(s, v, size);
      var more :| Calm(more) && !Blocked(s, more, size);
      assert NoSubmit(more);
    }
  }

  // ---- Runs from the start ------------------------------------------------------------------------

  lemma NoSteps(s: Manager, size: nat)
    requires |s.pool.workers| == |s.pool.late|
    ensures Exec(s, [], size) == Some(s)
  {}

  /** One step of a concrete run. */
  lemma Next(s: Manager, ls: seq<Label>, l: Label, size: nat, t: Manager, u: Manager) returns (ls': seq<Label>)
    requires |s.pool.workers| == |s.pool.late| && Exec(s, ls, size) == Some(t)
    requires |t.pool.workers| == |t.pool.late| && Step(t, l, size) == Some(u)
    ensures ls' == ls + [l] && Exec(s, ls', size) == Some(u)
  {
    assert (ls + [l])[..|ls|] == ls;
    ls' := ls + [l];
  }

  /** The pool after worker 0 has taken processBatches. */
  function LoopPool(threads: nat): (p: Pool)
    requires threads > 0
    ensures |p.workers| == |p.late| == threads && p.workers[0] == ThreadPool.Running(0) && p.queue == []
    ensures p.pushed == p.pending == 1 && p.lock.None? && !p.stop
  {
    var p := ThreadPool.Init(threads);
    ThreadPool.SetWorker(p.(pushed := 1, pending := 1), 0, ThreadPool.Running(0))
  }

  lemma LoopStarts(threads: nat, size: nat) returns (ls: seq<Label>)
    requires threads > 0
    ensures Exec(Init(threads), ls, size) == Some(Manager(LoopPool(threads), Batching.Init()))
  {
    var s := Init(threads);
    var p1 := s.pool.(queue := s.pool.queue + [s.pool.pushed], pushed := 1, pending := 1);
    var p2 := ThreadPool.SetWorker(p1, 0, ThreadPool.Locking);
    var p3 := ThreadPool.SetWorker(p2.(queue := p2.queue[1..]), 0, ThreadPool.Running(0));
    assert p3 == LoopPool(threads);
    NoSteps(s, size);
    hide Exec, LoopPool, Batching.Step, ThreadPool.AnyAsleep, ThreadPool.Held;
    ls := Next(s, [], Initialize, size, s, Manager(p1, s.batches));
    ls := Next(s, ls, OfPool(ThreadPool.TestStop(0)), size, Manager(p1, s.batches), Manager(p2, s.batches));
    ls := Next(s, ls, OfPool(ThreadPool.Acquire(0)), size, Manager(p2, s.batches), Manager(p3, s.batches));
  }

  lemma LoopHeld(threads: nat)
    requires threads > 0
    ensures ThreadPool.Held(LoopPool(threads), 0)
  {
    assert LoopPool(threads).workers[0] == ThreadPool.Running(0);
  }

  function Repeated(cmd: Command, n: nat): (cmds: seq<Command>)
    ensures |cmds| == n
  {
    seq(n, i => cmd)
  }

  /** The loop with n commands collected, all that have been submitted. */
  function Collecting(threads: nat, cmd: Command, n: nat): Manager
    requires threads > 0
  {
    var cmds := Repeated(cmd, n);
    Manager(LoopPool(threads), Batching.State([], Batching.Fill(cmds), [], true, cmds))
  }

  /** Each command is submitted and collected at once. */
  lemma {:induction false} Collects(threads: nat, cmd: Command, n: nat, size: nat) returns (ls: seq<Label>)
    requires threads > 0 && n <= size
    ensures Exec(Init(threads), ls, size) == Some(Collecting(threads, cmd, n))
    decreases n
  {
    var s := Init(threads);
    hide Exec, ThreadPool.Held, ThreadPool.Step;
    if n == 0 {
      assert ThreadPool.Held(LoopPool(threads), 0) by { LoopHeld(threads); }
      ls := LoopStarts(threads, size);
      var t := Manager(LoopPool(threads), Batching.Init());
      hide LoopPool;
      ls := Next(s, ls, OfBatches(Batching.OuterTest), size, t, Collecting(threads, cmd, 0));
    } else {
      ls := Collects(threads, cmd, n - 1, size);
      ls := CollectsOne(threads, cmd, n - 1, size, ls);
    }
  }

  lemma CollectsOne(threads: nat, cmd: Command, n: nat, size: nat, before: seq<Label>) returns (ls: seq<Label>)
    requires threads > 0 && n < size && Exec(Init(threads), before, size) == Some(Collecting(threads, cmd, n))
    ensures Exec(Init(threads), ls, size) == Some(Collecting(threads, cmd, n + 1))
  {
    var s, t := Init(threads), Collecting(threads, cmd, n);
    var b := t.batches;
    var b1 := b.(queue := b.queue + [cmd], pushed := b.pushed + [cmd]);
    var b2 := b1.(at := Batching.Fill(b.at.batch + [b1.queue[0]]), queue := b1.queue[1..]);
    assert ThreadPool.Held(t.pool, 0) by { assert t.pool.workers[0] == ThreadPool.Running(0); }
    hide Exec, ThreadPool.Held, ThreadPool.Step, LoopPool;
    ls := Next(s, before, OfBatches(Batching.Submit(cmd)), size, t, t.(batches := b1));
    ls := Next(s, ls, OfBatches(Batching.InnerStep), size, t.(batches := b1), t.(batches := b2));
    assert Repeated(cmd, n + 1) == Repeated(cmd, n) + [cmd] && b2.queue == [];
  }

  /** The loop with its first batch full. */
  function Filled(threads: nat, cmd: Command, size: nat): (t: Manager)
    requires threads > 0
    ensures |t.pool.workers| == |t.pool.late|
  {
    var cmds := Repeated(cmd, size);
    Manager(LoopPool(threads), Batching.State([], Batching.Full(cmds), [], true, cmds))
  }

  lemma FillsFirst(threads: nat, cmd: Command, size: nat) returns (ls: seq<Label>)
    requires threads > 0
    ensures Exec(Init(threads), ls, size) == Some(Filled(threads, cmd, size))
  {
    LoopHeld(threads);
    ls := Collects(threads, cmd, size, size);
    hide Exec, ThreadPool.Held, ThreadPool.Step, LoopPool;
    ls := Next(Init(threads), ls, OfBatches(Batching.InnerStep), size, Collecting(threads, cmd, size),
      Filled(threads, cmd, size));
  }

  /** Dispatching it pushes a task. */
  function Dispatched(threads: nat, cmd: Command, size: nat): (t: Manager)
    requires threads > 0
    ensures |t.pool.workers| == |t.pool.late| && t.pool.pushed == 2 && !t.pool.stop && t.batches.active
  {
    var p := LoopPool(threads);
    var cmds := Repeated(cmd, size);
    Manager(p.(queue := p.queue + [p.pushed], pushed := p.pushed + 1, pending := p.pending + 1),
            Batching.State([], Batching.Test, [cmds], true, cmds))
  }

  lemma DispatchesFirst(threads: nat, cmd: Command, size: nat)
    requires threads > 0 && size > 0
    ensures Step(Filled(threads, cmd, size), OfBatches(Batching.Dispatch), size) == Some(Dispatched(threads, cmd, size))
  {
    LoopHeld(threads);
    var cmds := Repeated(cmd, size);
    assert [] + [cmds] == [cmds];
    hide LoopPool, Repeated, ThreadPool.Held, ThreadPool.StepWorker;
  }

  lemma LoopsAgain(threads: nat, cmd: Command, size: nat)
    requires threads > 0
    ensures var t := Dispatched(threads, cmd, size);
            Step(t, OfBatches(Batching.OuterTest), size) == Some(t.(batches := t.batches.(at := Batching.Fill([]))))
  {
    var t := Dispatched(threads, cmd, size);
    assert ThreadPool.Held(t.pool, 0) by { assert t.pool.workers[0] == ThreadPool.Running(0); }
    hide LoopPool, Repeated, ThreadPool.Held, ThreadPool.Step;
  }

  /** The first batch is dispatched, and the loop waits for the next command. */
  lemma FirstBatch(threads: nat, cmd: Command, size: nat) returns (ls: seq<Label>)
    requires threads > 0 && size > 0
    ensures var r := Exec(Init(threads), ls, size);
            r.Some? && Waiting(r.value, size) && r.value.batches.dispatched == [Repeated(cmd, size)]
            && !r.value.pool.stop && r.value.pool.pushed == 2
  {
    hide Exec, Step, LoopPool, Filled;
    var s, t := Init(threads), Dispatched(threads, cmd, size);
    ls := FillsFirst(threads, cmd, size);
    DispatchesFirst(threads, cmd, size);
    LoopsAgain(threads, cmd, size);
    ls := Next(s, ls, OfBatches(Batching.Dispatch), size, Filled(threads, cmd, size), t);
    ls := Next(s, ls, OfBatches(Batching.OuterTest), size, t, t.(batches := t.batches.(at := Batching.Fill([]))));
  }

  /** So with one worker shutdown can hang, whatever the batch size. */
  lemma HangReached(cmd: Command, size: nat)
    requires size > 0
    ensures exists ls :: var r := Exec(Init(1), ls, size);
              r.Some? && !r.value.pool.stop && Waiting(r.value, size)
                && r.value.batches.dispatched == [Repeated(cmd, size)]
  {
    var ls := FirstBatch(1, cmd, size);
  }

  /** After this run some batch is finished and the loop still runs. */
  predicate BatchFinished(threads: nat, ls: seq<Label>, size: nat) {
    var r := Exec(Init(threads), ls, size);
    r.Some? && !r.value.batches.at.Done? && exists task :: task in r.value.pool.finished && task > 0
  }

  /** A batch can be processed while the batch loop runs if and only if there are two workers or more. */
  lemma BatchFinishedIff(threads: nat, size: nat)
    requires size > 0
    ensures (exists ls :: BatchFinished(threads, ls, size)) <==> threads >= 2
  {
    if threads >= 2 {
      SecondWorkerFinishes(threads, size);
    } else {
      forall ls
        ensures !BatchFinished(threads, ls, size)
      {
        OneWorkerProcessesNothing(threads, ls, size);
      }
    }
  }

  lemma SecondWorkerFinishes(threads: nat, size: nat)
    requires size > 0 && threads >= 2
    ensures exists ls :: BatchFinished(threads, ls, size)
  {
    var ls := FirstBatch(threads, Batching.Command(Batching.Draw, [], 0), size);
    RunInv(threads, ls, size);
    var s := Exec(Init(threads), ls, size).value;
    hide Exec, Inv;
    var v := LoopRuns(s, size);
    LoopMeans(s, v, size);
    LeadsSelf(s, size);
    var t := QueueEmptied(s, s, v, size);
    var u := FirstTaskFinished(s, t, v, size);
    var more :| Calm(more) && Exec(s, more, size) == Some(u);
    ExecAppend(Init(threads), ls, more, size);
    assert BatchFinished(threads, ls + more, size);
  }

  /** With the queue empty task 1 is finished or its worker can finish it. */
  lemma FirstTaskFinished(s: Manager, t: Manager, v: nat, size: nat) returns (u: Manager)
    requires |s.pool.workers| == |s.pool.late| && Leads(s, t, size) && LoopOn(t, v, size)
    requires t.pool.queue == [] && t.pool.pushed == 2
    ensures Leads(s, u, size) && u.batches == t.batches && 1 in u.pool.finished
  {
    hide Leads, Inv;
    LoopMeans(t, v, size);
    ThreadPool.TaskPlaced(t.pool, 1);
    u := t;
    if 1 !in t.pool.finished {
      var w :| 0 <= w < |t.pool.workers| && t.pool.workers[w] == ThreadPool.Running(1);
      u := Onward(s, t, ThreadPool.FinishTask(w), size);
    }
  }
}
