/** When the batch loop can end: what shutdown relies on after it has cleared batchingActive_. */
module LoopEnd {
  import opened Options
  import opened Pipeline
  import opened Shutdown
  import ThreadPool
  import Batching

  /** The loop is filling a batch, and the commands submitted so far do not fill it. */
  predicate Short(s: Manager, size: nat) {
    s.batches.at.Fill? && |s.batches.at.batch| + |s.batches.queue| < size
  }

  /** After these steps processBatches has finished. */
  predicate Finishes(s: Manager, more: seq<Label>, size: nat)
    requires |s.pool.workers| == |s.pool.late|
  {
    var r := Exec(s, more, size);
    r.Some? && 0 in r.value.pool.finished
  }

  // ---- A loop that is short of commands -------------------------------------------------------------

  lemma ShortStep(s: Manager, l: Label, size: nat)
    requires |s.pool.workers| == |s.pool.late| && Short(s, size) && !(l.OfBatches? && l.b.Submit?)
    ensures var r := Step(s, l, size); r.Some? ==> Short(r.value, size)
  {
    hide ThreadPool.Step, ThreadPool.Held, MayFinish;
  }

  lemma {:induction false} StaysShort(s: Manager, more: seq<Label>, size: nat)
    requires |s.pool.workers| == |s.pool.late| && Short(s, size) && NoSubmit(more)
    ensures var r := Exec(s, more, size); r.Some? ==> Short(r.value, size)
    decreases |more|
  {
    if more != [] {
      var before := more[..|more| - 1];
      StaysShort(s, before, size);
      hide Step, Short;
      var r := Exec(s, before, size);
      if r.Some? { ShortStep(r.value, more[|more| - 1], size); }
    }
  }

  lemma ShortNeverFinishes(threads: nat, ls: seq<Label>, more: seq<Label>, size: nat)
    requires var r := Exec(Init(threads), ls, size); r.Some? && Short(r.value, size) && NoSubmit(more)
    ensures !Finishes(Exec(Init(threads), ls, size).value, more, size)
  {
    var s := Exec(Init(threads), ls, size).value;
    StaysShort(s, more, size);
    ExecAppend(Init(threads), ls, more, size);
    RunInv(threads, ls + more, size);
    hide Exec, Inv;
    var r := Exec(s, more, size);
    if r.Some? { InvMeans(r.value, size); }
  }

  // ---- A loop that is not ---------------------------------------------------------------------------

  /** Some run without submissions leads from s to t. */
  ghost predicate Goes(s: Manager, t: Manager, size: nat)
    requires |s.pool.workers| == |s.pool.late|
  {
    exists more :: NoSubmit(more) && Exec(s, more, size) == Some(t)
  }

  lemma GoesOn(s: Manager, t: Manager, l: Label, size: nat) returns (u: Manager)
    requires |s.pool.workers| == |s.pool.late| && Goes(s, t, size) && Inv(t, size)
    requires |t.pool.workers| == |t.pool.late| && !(l.OfBatches? && l.b.Submit?) && Step(t, l, size).Some?
    ensures u == Step(t, l, size).value && Goes(s, u, size) && Inv(u, size) && |u.pool.workers| == |u.pool.late|
  {
    StepInv(t, l, size);
    u := Step(t, l, size).value;
    hide Step, Inv;
    var more :| NoSubmit(more) && Exec(s, more, size) == Some(t);
    assert (more + [l])[..|more|] == more;
    assert NoSubmit(more + [l]) && Exec(s, more + [l], size) == Some(u);
  }

  /** The loop runs on worker v. */
  ghost predicate On(s: Manager, v: nat, size: nat) {
    Inv(s, size) && |s.pool.workers| == |s.pool.late|
    && v < |s.pool.workers| && s.pool.workers[v] == ThreadPool.Running(0)
  }

  /** A step of the loop itself, but for the dispatch of a batch. */
  lemma LoopStep(s: Manager, t: Manager, v: nat, l: Batching.Label, size: nat) returns (u: Manager)
    requires |s.pool.workers| == |s.pool.late| && Goes(s, t, size) && On(t, v, size)
    requires !l.Submit? && Batching.Step(t.batches, l, size).Some?
    requires l.Dispatch? ==> t.batches.at.Full? && t.batches.at.batch == []
    ensures u == t.(batches := Batching.Step(t.batches, l, size).value) && Goes(s, u, size) && On(u, v, size)
  {
    hide Goes, Inv, Batching.Step;
    assert ThreadPool.Held(t.pool, 0);
    u := GoesOn(s, t, OfBatches(l), size);
  }

  lemma {:induction false} FillsUp(s: Manager, t: Manager, v: nat, size: nat) returns (u: Manager)
    requires |s.pool.workers| == |s.pool.late| && Goes(s, t, size) && On(t, v, size)
    requires t.batches.at.Fill? && !Short(t, size) && !t.batches.active
    ensures Goes(s, u, size) && On(u, v, size) && u.batches.at.Full? && !u.batches.active
    decreases size - |t.batches.at.batch|
  {
    hide Goes, On;
    var t1 := LoopStep(s, t, v, Batching.InnerStep, size);
    u := t1;
    if !t1.batches.at.Full? { u := FillsUp(s, t1, v, size); }
  }

  lemma OnMeans(s: Manager, v: nat, size: nat)
    requires On(s, v, size)
    ensures Inv(s, size) && |s.pool.workers| == |s.pool.late| && ThreadPool.Held(s.pool, 0)
    ensures s.pool.lock.Some? ==>
      s.pool.lock.value < |s.pool.workers| && s.pool.workers[s.pool.lock.value].Dozing? && s.pool.lock.value != v
  {
    InvMeans(s, size);
  }

  /** A worker about to block releases the mutex. */
  lemma Unlocks(s: Manager, t: Manager, v: nat, size: nat) returns (u: Manager)
    requires |s.pool.workers| == |s.pool.late| && Goes(s, t, size) && On(t, v, size)
    ensures Goes(s, u, size) && On(u, v, size) && u.batches == t.batches && u.pool.lock.None?
  {
    hide Goes, Inv;
    OnMeans(t, v, size);
    u := t;
    if t.pool.lock.Some? {
      u := GoesOn(s, t, OfPool(ThreadPool.Block(t.pool.lock.value)), size);
    }
  }

  lemma Dispatches(s: Manager, t: Manager, v: nat, size: nat) returns (u: Manager)
    requires |s.pool.workers| == |s.pool.late| && Goes(s, t, size) && On(t, v, size)
    requires t.batches.at.Full? && !t.batches.active
    ensures Goes(s, u, size) && On(u, v, size) && u.batches.at.Test? && !u.batches.active
  {
    if t.batches.at.batch == [] {
      hide Goes, On;
      u := LoopStep(s, t, v, Batching.Dispatch, size);
    } else {
      var t1 := Unlocks(s, t, v, size);
      OnMeans(t1, v, size);
      hide Goes, Inv, ThreadPool.Held;
      u := GoesOn(s, t1, OfBatches(Batching.Dispatch), size);
    }
  }

  /** The loop leaves at the outer test, and its worker finishes the task. */
  lemma Leaves(s: Manager, t: Manager, v: nat, size: nat) returns (u: Manager)
    requires |s.pool.workers| == |s.pool.late| && Goes(s, t, size) && On(t, v, size)
    requires (t.batches.at.Test? && !t.batches.active) || t.batches.at.Done?
    ensures Goes(s, u, size) && 0 in u.pool.finished
  {
    var t1 := t;
    if t.batches.at.Test? {
      t1 := LoopStep(s, t, v, Batching.OuterTest, size);
    }
    hide Goes, Inv;
    u := GoesOn(s, t1, OfPool(ThreadPool.FinishTask(v)), size);
  }

  lemma EnoughFinishes(s: Manager, v: nat, size: nat)
    requires On(s, v, size) && !Short(s, size)
    ensures |s.pool.workers| == |s.pool.late|
    ensures exists more :: NoSubmit(more) && Finishes(s, more, size)
  {
    assert Goes(s, s, size) by { assert NoSubmit([]) && Exec(s, [], size) == Some(s); }
    hide Goes, Inv;
    var t := LoopStep(s, s, v, Batching.StopBatching, size);
    hide On;
    if t.batches.at.Fill? { t := FillsUp(s, t, v, size); }
    if t.batches.at.Full? { t := Dispatches(s, t, v, size); }
    t := Leaves(s, t, v, size);
    GoesMeans(s, t, size);
    var more :| NoSubmit(more) && Exec(s, more, size) == Some(t);
    hide Exec;
    assert Finishes(s, more, size);
  }

  lemma GoesMeans(s: Manager, t: Manager, size: nat)
    requires |s.pool.workers| == |s.pool.late| && Goes(s, t, size)
    ensures exists more :: NoSubmit(more) && Exec(s, more, size) == Some(t)
  {}

  /**
   In every reachable state with the loop on a worker, batching stopped or not, the loop can end
   without further submissions if and only if it is not filling a batch for which the commands are
   too few.
   */
  lemma LoopEndsIff(threads: nat, ls: seq<Label>, size: nat)
    requires var r := Exec(Init(threads), ls, size); r.Some? && ThreadPool.Held(r.value.pool, 0)
    ensures var s := Exec(Init(threads), ls, size).value;
            (exists more :: NoSubmit(more) && Finishes(s, more, size))
            <==> !(s.batches.at.Fill? && |s.batches.at.batch| + |s.batches.queue| < size)
  {
    RunInv(threads, ls, size);
    hide Exec, Inv, Finishes;
    var s := Exec(Init(threads), ls, size).value;
    if Short(s, size) {
      forall more | NoSubmit(more)
        ensures !Finishes(s, more, size)
      {
        ShortNeverFinishes(threads, ls, more, size);
      }
    } else {
      var v: nat :| v < |s.pool.workers| && s.pool.workers[v] == ThreadPool.Running(0);
      assert On(s, v, size);
      EnoughFinishes(s, v, size);
    }
  }
}
