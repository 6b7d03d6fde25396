/**
 The GPU manager: the batch loop runs as the first task of the worker pool, and every full batch
 becomes a further task of the same pool.
 */
module Pipeline {
  import opened Options
  import ThreadPool
  import Batching

  type Pool = ThreadPool.Pool
  type Batches = Batching.State
  type Command = Batching.Command

  /** Task 0 is processBatches; task q + 1 processes the q-th dispatched batch. */
  datatype Manager = Manager(pool: Pool, batches: Batches)

  datatype Label = Initialize | OfPool(p: ThreadPool.Label) | OfBatches(b: Batching.Label)

  function Init(threads: nat): Manager { Manager(ThreadPool.Init(threads), Batching.Init()) }

  /** A worker can finish any task but processBatches, which must have left its loop. */
  predicate MayFinish(s: Manager, l: ThreadPool.Label) {
    l.FinishTask? && l.w < |s.pool.workers| && s.pool.workers[l.w] == ThreadPool.Running(0) ==> s.batches.at.Done?
  }

  function PoolStep(s: Manager, l: ThreadPool.Label): (r: Option<Manager>)
    requires |s.pool.workers| == |s.pool.late|
    ensures r.Some? ==> |r.value.pool.workers| == |s.pool.workers| == |r.value.pool.late|
  {
    match ThreadPool.Step(s.pool, l)
    case Some(p) => Some(s.(pool := p))
    case None => None
  }

  function BatchStep(s: Manager, l: Batching.Label, size: nat): Option<Manager> {
    match Batching.Step(s.batches, l, size)
    case Some(b) => Some(s.(batches := b))
    case None => None
  }

  /** A batch is dispatched by pushing a task; an empty one is dropped. */
  function DispatchStep(s: Manager, size: nat): (r: Option<Manager>)
    requires |s.pool.workers| == |s.pool.late|
    ensures r.Some? ==> |r.value.pool.workers| == |s.pool.workers| == |r.value.pool.late|
  {
    if s.batches.at.Full? && s.batches.at.batch != [] then
      match PoolStep(s, ThreadPool.Push)
      case Some(t) => BatchStep(t, Batching.Dispatch, size)
      case None => None
    else BatchStep(s, Batching.Dispatch, size)
  }

  function Step(s: Manager, l: Label, size: nat): (r: Option<Manager>)
    requires |s.pool.workers| == |s.pool.late|
    ensures r.Some? ==> |r.value.pool.workers| == |s.pool.workers| == |r.value.pool.late|
  {
    match l
    case Initialize => if s.pool.pushed == 0 then PoolStep(s, ThreadPool.Push) else None
    case OfPool(p) => if p.Push? || !MayFinish(s, p) then None else PoolStep(s, p)
    case OfBatches(b) =>
      if b.Submit? || b.StopBatching? then BatchStep(s, b, size)
      else if !ThreadPool.Held(s.pool, 0) then None
      else if b.Dispatch? then DispatchStep(s, size)
      else BatchStep(s, b, size)
  }

  function Exec(s: Manager, ls: seq<Label>, size: nat): (r: Option<Manager>)
    requires |s.pool.workers| == |s.pool.late|
    ensures r.Some? ==> |r.value.pool.workers| == |s.pool.workers| == |r.value.pool.late|
    decreases |ls|
  {
    if ls == [] then Some(s)
    else
      match Exec(s, ls[..|ls| - 1], size)
      case Some(t) => Step(t, ls[|ls| - 1], size)
      case None => None
  }

  // ---- What every step keeps -----------------------------------------------------------------

  /** The tasks pushed are processBatches and the batches; the loop's state is that of task 0. */
  ghost predicate Linked(s: Manager) {
    && (s.pool.pushed == 0 ==> s.batches.at.Test? && s.batches.dispatched == [])
    && (s.pool.pushed > 0 ==> s.pool.pushed == 1 + |s.batches.dispatched|)
    && (s.batches.at.Done? || 0 !in s.pool.finished)
    && (s.batches.dispatched != [] || !s.batches.at.Test? ==> |s.pool.queue| < s.pool.pushed)
  }

  ghost predicate Inv(s: Manager, size: nat) {
    ThreadPool.Inv(s.pool) && Batching.Inv(s.batches, size) && Linked(s)
  }

  lemma InvMeans(s: Manager, size: nat)
    requires Inv(s, size)
    ensures ThreadPool.Inv(s.pool) && Batching.Inv(s.batches, size) && Linked(s)
    ensures ThreadPool.TasksOk(s.pool) && |s.pool.workers| == |s.pool.late|
  {}

  /** A command can be submitted at any time, whatever pool and loop are doing, and joins the command queue. */
  lemma SubmitAlways(s: Manager, cmd: Command, size: nat)
    requires |s.pool.workers| == |s.pool.late|
    ensures var b := s.batches;
            Step(s, OfBatches(Batching.Submit(cmd)), size)
            == Some(s.(batches := b.(queue := b.queue + [cmd], pushed := b.pushed + [cmd])))
  {
    hide ThreadPool.Step, ThreadPool.Held;
  }

  /**
   The pool takes its steps as it would alone, but for the pushes, which are the manager's, and for the
   end of processBatches, which must have left its loop.
   */
  lemma PoolStepIff(s: Manager, p: ThreadPool.Label, size: nat)
    requires |s.pool.workers| == |s.pool.late|
    ensures var r, alone := Step(s, OfPool(p), size), ThreadPool.Step(s.pool, p);
            && (r.Some? <==> alone.Some? && !p.Push? && (EndsLoop(s, p) ==> s.batches.at.Done?))
            && (r.Some? ==> r.value.pool == alone.value && r.value.batches == s.batches)
  {
    hide ThreadPool.Step;
  }

  predicate EndsLoop(s: Manager, p: ThreadPool.Label) {
    p.FinishTask? && p.w < |s.pool.workers| && s.pool.workers[p.w] == ThreadPool.Running(0)
  }

  lemma HeldIsTaken(s: Pool, task: nat)
    requires ThreadPool.TasksOk(s) && ThreadPool.Held(s, task)
    ensures task < s.pushed - |s.queue|
  {}

  /** What a step of the pool does to the counts of tasks. */
  lemma PoolFrame(s: Pool, l: ThreadPool.Label)
    requires |s.workers| == |s.late|
    ensures var r := ThreadPool.Step(s, l);
            r.Some? ==>
              var t := r.value;
              && t.pushed == s.pushed + (if l.Push? then 1 else 0)
              && |t.queue| <= |s.queue| + (if l.Push? then 1 else 0)
              && (0 in t.finished ==>
                    0 in s.finished || (l.FinishTask? && l.w < |s.workers| && s.workers[l.w] == ThreadPool.Running(0)))
  {
    hide ThreadPool.AnyAsleep;
  }

  lemma PoolStepKeeps(s: Manager, l: ThreadPool.Label)
    requires Linked(s) && |s.pool.workers| == |s.pool.late| && !l.Push? && MayFinish(s, l)
    ensures var r := PoolStep(s, l); r.Some? ==> Linked(r.value)
  {
    PoolFrame(s.pool, l);
    hide ThreadPool.Step;
  }

  lemma InitializeKeeps(s: Manager)
    requires Linked(s) && |s.pool.workers| == |s.pool.late| && s.pool.pushed == 0
    ensures var r := PoolStep(s, ThreadPool.Push); r.Some? ==> Linked(r.value)
  {
    PoolFrame(s.pool, ThreadPool.Push);
    hide ThreadPool.Step;
  }

  lemma BatchStepKeeps(s: Manager, l: Batching.Label, size: nat)
    requires Linked(s) && !l.Dispatch?
    requires l.Submit? || l.StopBatching? || |s.pool.queue| < s.pool.pushed
    ensures var r := BatchStep(s, l, size); r.Some? ==> Linked(r.value)
  {}

  lemma DispatchKeeps(s: Manager, size: nat)
    requires Linked(s) && |s.pool.workers| == |s.pool.late| && |s.pool.queue| < s.pool.pushed
    ensures var r := DispatchStep(s, size); r.Some? ==> Linked(r.value)
  {
    PoolFrame(s.pool, ThreadPool.Push);
    hide ThreadPool.Step;
  }

  lemma LinkedKept(s: Manager, l: Label, size: nat)
    requires Inv(s, size)
    ensures |s.pool.workers| == |s.pool.late|
    ensures var r := Step(s, l, size); r.Some? ==> Linked(r.value)
  {
    InvMeans(s, size);
    hide Inv, Linked, ThreadPool.TasksOk, ThreadPool.Inv, ThreadPool.Held, Batching.Inv, PoolStep, BatchStep,
        DispatchStep, MayFinish;
    match l
    case Initialize => if s.pool.pushed == 0 { InitializeKeeps(s); }
    case OfPool(p) => if !p.Push? && MayFinish(s, p) { PoolStepKeeps(s, p); }
    case OfBatches(b) =>
      if b.Submit? || b.StopBatching? {
        BatchStepKeeps(s, b, size);
      } else if ThreadPool.Held(s.pool, 0) {
        HeldIsTaken(s.pool, 0);
        if b.Dispatch? { DispatchKeeps(s, size); } else { BatchStepKeeps(s, b, size); }
      }
  }

  /** Every step is a step of the pool, of the batch loop, of both, or of neither. */
  lemma StepProjects(s: Manager, l: Label, size: nat)
    requires |s.pool.workers| == |s.pool.late|
    ensures var r := Step(s, l, size);
            r.Some? ==>
              && (r.value.pool == s.pool || exists p :: ThreadPool.Step(s.pool, p) == Some(r.value.pool))
              && (r.value.batches == s.batches
                || exists b :: Batching.Step(s.batches, b, size) == Some(r.value.batches))
  {
    hide ThreadPool.Step, ThreadPool.Held, Batching.Step, MayFinish;
  }

  lemma StepInv(s: Manager, l: Label, size: nat)
    requires Inv(s, size)
    ensures |s.pool.workers| == |s.pool.late|
    ensures var r := Step(s, l, size); r.Some? ==> Inv(r.value, size)
  {
    LinkedKept(s, l, size);
    StepProjects(s, l, size);
    InvMeans(s, size);
    hide Step, Linked, ThreadPool.TasksOk, ThreadPool.Inv, ThreadPool.Step, Batching.Inv, Batching.Step;
    var r := Step(s, l, size);
    if r.Some? {
      var t := r.value;
      if t.pool != s.pool {
        var p :| ThreadPool.Step(s.pool, p) == Some(t.pool);
        ThreadPool.StepInv(s.pool, p);
      }
      if t.batches != s.batches {
        var b :| Batching.Step(s.batches, b, size) == Some(t.batches);
        Batching.StepInv(s.batches, b, size);
      }
    }
  }

  lemma {:induction false} RunInv(threads: nat, ls: seq<Label>, size: nat)
    ensures var r := Exec(Init(threads), ls, size); r.Some? ==> Inv(r.value, size) && |r.value.pool.workers| == threads
    decreases |ls|
  {
    if ls == [] {
      ThreadPool.InitInv(threads);
      Batching.BatchesConserve([], size);
      hide ThreadPool.Inv, Batching.Inv;
    } else {
      var r := Exec(Init(threads), ls[..|ls| - 1], size);
      RunInv(threads, ls[..|ls| - 1], size);
      hide Inv, Step;
      if r.Some? { StepInv(r.value, ls[|ls| - 1], size); }
    }
  }

  // ---- Where a command is ----------------------------------------------------------------------

  /**
   The i-th command of the q-th run of `size` commands. Once that batch is dispatched, its task is in
   the pool's queue, held by one worker, or finished, exactly one of these, with the command at its
   place; until then it is in the partial batch or the command queue, in order.
   */
  ghost predicate CommandAt(s: Manager, size: nat, q: nat, i: nat)
    requires i < size && 0 <= q * size
  {
    var b, k := s.batches, q * size + i;
    k < |b.pushed| ==>
      && (q < |b.dispatched| <==> q + 1 in s.pool.queue || ThreadPool.Held(s.pool, q + 1) || q + 1 in s.pool.finished)
      && ThreadPool.Placed(s.pool, q + 1)
      && (q < |b.dispatched| ==> i < |b.dispatched[q]| && b.dispatched[q][i] == b.pushed[k])
      && (q >= |b.dispatched| ==>
            var at := k - |b.dispatched| * size;
            0 <= at < |Batching.Partial(b) + b.queue| && (Batching.Partial(b) + b.queue)[at] == b.pushed[k])
  }

  lemma TaskOfBatch(s: Manager, q: nat)
    requires Linked(s) && ThreadPool.Placed(s.pool, q + 1)
    ensures q < |s.batches.dispatched| <==>
        q + 1 in s.pool.queue || ThreadPool.Held(s.pool, q + 1) || q + 1 in s.pool.finished
  {
    hide ThreadPool.Held;
  }

  lemma CommandPlacedIn(s: Manager, size: nat, q: nat, i: nat)
    requires Inv(s, size) && i < size
    ensures 0 <= q * size && CommandAt(s, size, q, i)
  {
    Batching.StartIs(q, size);
    InvMeans(s, size);
    hide Inv, Linked, ThreadPool.TasksOk, ThreadPool.Inv, ThreadPool.Held, Batching.Inv, Batching.Partial,
        Batching.Start;
    ThreadPool.TaskPlaced(s.pool, q + 1);
    TaskOfBatch(s, q);
    hide ThreadPool.Placed;
    if q < |s.batches.dispatched| {
      Batching.DispatchedAt(s.batches, size, q, i);
    } else {
      Batching.UndispatchedAt(s.batches, size, q, i);
    }
  }

  /** In every run of the manager every submitted command is in exactly one place, in order of submission. */
  lemma CommandPlaced(threads: nat, ls: seq<Label>, size: nat, q: nat, i: nat)
    requires i < size
    ensures 0 <= q * size
    ensures var r := Exec(Init(threads), ls, size); r.Some? ==> CommandAt(r.value, size, q, i)
  {
    RunInv(threads, ls, size);
    Batching.StartIs(q, size);
    hide Exec, Inv, CommandAt;
    var r := Exec(Init(threads), ls, size);
    if r.Some? { CommandPlacedIn(r.value, size, q, i); }
  }

  // ---- One worker -------------------------------------------------------------------------------

  lemma FinishFrame(s: Pool, l: ThreadPool.Label)
    requires |s.workers| == |s.late|
    ensures var r := ThreadPool.Step(s, l);
            r.Some? ==> r.value.finished == s.finished
                        || exists task :: ThreadPool.Held(s, task) && r.value.finished == s.finished + {task}
  {
    hide ThreadPool.AnyAsleep;
    var r := ThreadPool.Step(s, l);
    if r.Some? && r.value.finished != s.finished {
      assert ThreadPool.Held(s, s.workers[l.w].task);
    }
  }

  /** The only worker can be running processBatches or some other task, not both. */
  lemma OnlyOneHeld(s: Pool, task: nat)
    requires ThreadPool.TasksOk(s) && |s.workers| <= 1 && ThreadPool.Held(s, task)
    ensures task == 0 || 0 in s.finished
    ensures task < s.pushed - |s.queue|
  {}

  ghost predicate ZeroFirst(finished: set<nat>) { 0 in finished || finished == {} }

  /** With one worker, nothing finishes before processBatches does. */
  lemma FirstFinishes(s: Manager, l: Label, size: nat)
    requires Inv(s, size) && |s.pool.workers| <= 1 && ZeroFirst(s.pool.finished)
    ensures |s.pool.late| == |s.pool.workers|
    ensures var r := Step(s, l, size); r.Some? ==> ZeroFirst(r.value.pool.finished)
  {
    InvMeans(s, size);
    StepProjects(s, l, size);
    hide Inv, Step, Linked, ThreadPool.TasksOk, ThreadPool.Inv, ThreadPool.Held, ThreadPool.Step, Batching.Inv;
    var r := Step(s, l, size);
    if r.Some? && r.value.pool != s.pool {
      var p :| ThreadPool.Step(s.pool, p) == Some(r.value.pool);
      FinishFrame(s.pool, p);
      if r.value.pool.finished != s.pool.finished {
        var task :| ThreadPool.Held(s.pool, task) && r.value.pool.finished == s.pool.finished + {task};
        OnlyOneHeld(s.pool, task);
      }
    }
  }

  lemma {:induction false} OneWorkerOrder(threads: nat, ls: seq<Label>, size: nat)
    requires threads <= 1
    ensures var r := Exec(Init(threads), ls, size); r.Some? ==> ZeroFirst(r.value.pool.finished)
    decreases |ls|
  {
    if ls != [] {
      var before := ls[..|ls| - 1];
      OneWorkerOrder(threads, before, size);
      RunInv(threads, before, size);
      hide Inv, Step;
      var r := Exec(Init(threads), before, size);
      if r.Some? { FirstFinishes(r.value, ls[|ls| - 1], size); }
    }
  }

  /** While the batch loop runs on the only worker every dispatched batch is still in the pool's queue. */
  lemma OneWorkerProcessesNothing(threads: nat, ls: seq<Label>, size: nat)
    requires threads <= 1
    ensures var r := Exec(Init(threads), ls, size);
            r.Some? && !r.value.batches.at.Done? ==>
              && r.value.pool.finished == {}
              && (r.value.batches.dispatched != [] ==> |r.value.pool.queue| == |r.value.batches.dispatched|)
              && (r.value.batches.dispatched != [] ==> !ThreadPool.WaitAllReturns(r.value.pool))
  {
    RunInv(threads, ls, size);
    OneWorkerOrder(threads, ls, size);
    hide Exec, Inv, ZeroFirst;
    var r := Exec(Init(threads), ls, size);
    if r.Some? && !r.value.batches.at.Done? { LoopHoldsWorker(r.value, size); }
  }

  lemma LoopHoldsWorker(s: Manager, size: nat)
    requires Inv(s, size) && |s.pool.workers| <= 1 && ZeroFirst(s.pool.finished) && !s.batches.at.Done?
    ensures s.pool.finished == {}
    ensures s.batches.dispatched != [] ==>
        |s.pool.queue| == |s.batches.dispatched| && !ThreadPool.WaitAllReturns(s.pool)
  {
    InvMeans(s, size);
    hide Inv, ThreadPool.Inv, Batching.Inv, Batching.Partial;
    if s.batches.dispatched != [] {
      ThreadPool.TaskPlaced(s.pool, 0);
      ThreadPool.TaskPlaced(s.pool, 1);
    }
  }
}
