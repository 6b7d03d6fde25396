/** The command queue, and the loop that assembles batches from it. */
module Batching {
  import opened Options
  import opened Arith

  datatype CommandType = Draw | Compute | MemoryTransfer | Custom

  datatype Command = Command(kind: CommandType, payload: seq<bv8>, timestamp: nat)

  /** CommandQueue: each method runs under the queue's own mutex. */
  class CommandQueue {
    var queue: seq<Command>

    constructor ()
      ensures queue == []
    {
      queue := [];
    }

    method Push(cmd: Command)
      modifies this
      ensures queue == old(queue) + [cmd]
    {
      queue := queue + [cmd];
    }

    method TryPop() returns (cmd: Option<Command>)
      modifies this
      ensures cmd == if old(queue) == [] then None else Some(old(queue)[0])
      ensures queue == if old(queue) == [] then [] else old(queue)[1..]
    {
      if queue == [] { return None; }
      cmd := Some(queue[0]);
      queue := queue[1..];
    }

    method Size() returns (n: nat)
      ensures n == |queue|
    {
      n := |queue|;
    }

    method Empty() returns (b: bool)
      ensures b <==> queue == []
    {
      b := queue == [];
    }
  }

  // ---- The batcher as a step system ------------------------------------------------------------

  /** Where processBatches is. At the outer test `batch` has already been dispatched. */
  datatype Batcher = Test | Fill(batch: seq<Command>) | Full(batch: seq<Command>) | Done

  /** `pushed` is history: all commands submitted. */
  datatype State = State(queue: seq<Command>, at: Batcher, dispatched: seq<seq<Command>>, active: bool,
                         pushed: seq<Command>)

  datatype Label = Submit(cmd: Command) | StopBatching | OuterTest | InnerStep | Dispatch

  function Init(): State { State([], Test, [], true, []) }

  function Step(s: State, l: Label, size: nat): Option<State> {
    match (l, s.at)
    case (Submit(cmd), _) => Some(s.(queue := s.queue + [cmd], pushed := s.pushed + [cmd]))
    case (StopBatching, _) => Some(s.(active := false))
    case (OuterTest, Test) => Some(s.(at := if s.active then Fill([]) else Done))
    case (InnerStep, Fill(batch)) =>
      if |batch| >= size then Some(s.(at := Full(batch)))
      else if s.queue != [] then Some(s.(at := Fill(batch + [s.queue[0]]), queue := s.queue[1..]))
      else Some(s)
    case (Dispatch, Full(batch)) =>
      Some(s.(at := Test, dispatched := if batch != [] then s.dispatched + [batch] else s.dispatched))
    case _ => None
  }

  /** submitCommandAsync on the queue itself is the Submit step. */
  method SubmitCommand(queue: CommandQueue, cmd: Command, size: nat, ghost s: State)
    requires s.queue == queue.queue
    modifies queue
    ensures Step(s, Submit(cmd), size) == Some(s.(queue := queue.queue, pushed := s.pushed + [cmd]))
  {
    queue.Push(cmd);
  }

  /** One turn of the inner loop on the queue itself is the InnerStep step. */
  method Collect(queue: CommandQueue, batch: seq<Command>, size: nat, ghost s: State) returns (at: Batcher)
    requires s.queue == queue.queue && s.at == Fill(batch)
    modifies queue
    ensures Step(s, InnerStep, size) == Some(s.(queue := queue.queue, at := at))
  {
    if |batch| >= size { return Full(batch); }
    var cmd := queue.TryPop();
    at := if cmd.Some? then Fill(batch + [cmd.value]) else Fill(batch);
  }

  function Exec(s: State, ls: seq<Label>, size: nat): Option<State>
    decreases |ls|
  {
    if ls == [] then Some(s)
    else
      match Exec(s, ls[..|ls| - 1], size)
      case Some(t) => Step(t, ls[|ls| - 1], size)
      case None => None
  }

  function Flatten(bs: seq<seq<Command>>): seq<Command> {
    if bs == [] then [] else Flatten(bs[..|bs| - 1]) + bs[|bs| - 1]
  }

  /** The commands taken from the queue and not yet dispatched. */
  function Partial(s: State): seq<Command> {
    if s.at.Fill? || s.at.Full? then s.at.batch else []
  }

  /** Nothing is lost, repeated or reordered, and all batches are full. */
  ghost predicate Inv(s: State, size: nat) {
    && Flatten(s.dispatched) + Partial(s) + s.queue == s.pushed
    && (forall b :: b in s.dispatched ==> |b| == size > 0)
    && (s.at.Fill? ==> |s.at.batch| <= size) && (s.at.Full? ==> |s.at.batch| == size)
  }

  lemma FlattenMore(bs: seq<seq<Command>>, b: seq<Command>)
    ensures Flatten(bs + [b]) == Flatten(bs) + b
  {
    assert (bs + [b])[..|bs|] == bs;
  }

  /** Moving commands along keeps all but the split of the sequence. */
  lemma MoveKeeps(s: State, t: State, size: nat)
    requires Inv(s, size) && t.dispatched == s.dispatched && t.pushed == s.pushed
    requires Partial(t) + t.queue == Partial(s) + s.queue
    requires (t.at.Fill? ==> |t.at.batch| <= size) && (t.at.Full? ==> |t.at.batch| == size)
    ensures Inv(t, size)
  {
    var f := Flatten(s.dispatched);
    hide Flatten;
    assert f + Partial(t) + t.queue == f + (Partial(t) + t.queue);
    assert f + Partial(s) + s.queue == f + (Partial(s) + s.queue);
  }

  lemma SubmitKeeps(s: State, cmd: Command, size: nat)
    requires Inv(s, size)
    ensures Inv(s.(queue := s.queue + [cmd], pushed := s.pushed + [cmd]), size)
  {
    var f := Flatten(s.dispatched);
    hide Flatten;
    assert f + Partial(s) + (s.queue + [cmd]) == (f + Partial(s) + s.queue) + [cmd];
  }

  lemma DispatchKeeps(s: State, size: nat)
    requires Inv(s, size) && s.at.Full? && s.at.batch != []
    ensures Inv(s.(at := Test, dispatched := s.dispatched + [s.at.batch]), size)
  {
    var f, batch := Flatten(s.dispatched), s.at.batch;
    FlattenMore(s.dispatched, batch);
    hide Flatten;
    assert f + batch + [] + s.queue == f + batch + s.queue;
  }

  lemma StepInv(s: State, l: Label, size: nat)
    requires Inv(s, size)
    ensures var r := Step(s, l, size); r.Some? ==> Inv(r.value, size)
  {
    hide Flatten;
    var r := Step(s, l, size);
    match (l, s.at)
    case (Submit(cmd), _) => SubmitKeeps(s, cmd, size);
    case (InnerStep, Fill(batch)) =>
      hide Inv;
      if |batch| < size && s.queue != [] {
        assert batch + [s.queue[0]] + s.queue[1..] == batch + s.queue;
      }
      assert |batch| <= size by { FillBound(s, size); }
      MoveKeeps(s, r.value, size);
    case (Dispatch, Full(batch)) =>
      if batch != [] {
        hide Inv;
        DispatchKeeps(s, size);
      } else {
        MoveKeeps(s, r.value, size);
      }
    case (StopBatching, _) => MoveKeeps(s, r.value, size);
    case (OuterTest, Test) => MoveKeeps(s, r.value, size);
    case _ =>
  }

  lemma FillBound(s: State, size: nat)
    requires Inv(s, size) && s.at.Fill?
    ensures |s.at.batch| <= size
  {}

  /**
   In every interleaving of submissions and batcher steps, the dispatched batches, the partial batch
   and the queue hold the submitted commands in order, and every dispatched batch is full.
   */
  lemma {:induction false} BatchesConserve(ls: seq<Label>, size: nat)
    ensures var r := Exec(Init(), ls, size); r.Some? ==> Inv(r.value, size)
    decreases |ls|
  {
    if ls == [] {
      assert Flatten([]) + [] + [] == [];
    } else {
      BatchesConserve(ls[..|ls| - 1], size);
      var r := Exec(Init(), ls[..|ls| - 1], size);
      if r.Some? { StepInv(r.value, ls[|ls| - 1], size); }
    }
  }

  // ---- Which commands a batch holds ---------------------------------------------------------------

  ghost predicate AllOfSize(bs: seq<seq<Command>>, size: nat) { forall b :: b in bs ==> |b| == size }

  lemma AllButLast(bs: seq<seq<Command>>, size: nat)
    requires AllOfSize(bs, size) && bs != []
    ensures AllOfSize(bs[..|bs| - 1], size) && |bs[|bs| - 1]| == size
  {
    assert bs[|bs| - 1] in bs;
  }

  /** Where the j-th batch begins. */
  function Start(j: nat, size: nat): nat {
    if j == 0 then 0 else Start(j - 1, size) + size
  }

  lemma {:induction false} StartIs(j: nat, size: nat)
    ensures Start(j, size) == j * size
  {
    if j > 0 {
      StartIs(j - 1, size);
      assert (j - 1) * size + size == j * size;
    }
  }

  lemma {:induction false} FlattenLength(bs: seq<seq<Command>>, size: nat)
    requires AllOfSize(bs, size)
    ensures |Flatten(bs)| == Start(|bs|, size)
  {
    if bs != [] {
      AllButLast(bs, size);
      hide AllOfSize;
      FlattenLength(bs[..|bs| - 1], size);
    }
  }

  lemma {:induction false} FlattenAt(bs: seq<seq<Command>>, size: nat, j: nat)
    requires AllOfSize(bs, size) && j < |bs|
    ensures var at := Start(j, size);
            at + size <= |Flatten(bs)| && Flatten(bs)[at..at + size] == bs[j]
  {
    var n := |bs| - 1;
    var init, last, at := bs[..n], bs[n], Start(j, size);
    var f := Flatten(init);
    AllButLast(bs, size);
    FlattenLength(init, size);
    assert Flatten(bs) == f + last;
    hide *;
    if j < n {
      FlattenAt(init, size, j);
      PrefixSlice(f, last, at, at + size);
    } else {
      SuffixSlice(f, last, at, size);
    }
  }

  lemma Conserved(s: State, size: nat)
    requires Inv(s, size)
    ensures s.pushed == Flatten(s.dispatched) + (Partial(s) + s.queue)
  {
    hide Flatten;
    var f := Flatten(s.dispatched);
    assert f + Partial(s) + s.queue == f + (Partial(s) + s.queue);
  }

  lemma SuffixSlice<T>(f: seq<T>, last: seq<T>, at: nat, size: nat)
    requires at == |f| && size == |last|
    ensures (f + last)[at..at + size] == last
  {}

  lemma PrefixSlice<T>(f: seq<T>, rest: seq<T>, a: nat, b: nat)
    requires a <= b <= |f|
    ensures (f + rest)[a..b] == f[a..b]
  {}

  lemma SliceOfPushed(s: State, size: nat, j: nat)
    requires Inv(s, size) && j < |s.dispatched|
    ensures var at := Start(j, size);
            at + size <= |s.pushed| && s.dispatched[j] == s.pushed[at..at + size]
  {
    var at := Start(j, size);
    Conserved(s, size);
    hide Flatten, Inv, Partial, AllOfSize, Start;
    AllFull(s, size);
    FlattenAt(s.dispatched, size, j);
    PrefixSlice(Flatten(s.dispatched), Partial(s) + s.queue, at, at + size);
  }

  lemma AllFull(s: State, size: nat)
    requires Inv(s, size)
    ensures AllOfSize(s.dispatched, size)
  {}

  /** The j-th batch holds the j-th run of `size` commands, in order of submission. */
  lemma BatchContents(ls: seq<Label>, size: nat, j: nat)
    ensures var r := Exec(Init(), ls, size);
            r.Some? && j < |r.value.dispatched| ==>
              0 <= j * size && j * size + size <= |r.value.pushed|
              && r.value.dispatched[j] == r.value.pushed[j * size..j * size + size]
  {
    BatchesConserve(ls, size);
    StartIs(j, size);
    hide *;
    var r := Exec(Init(), ls, size);
    if r.Some? && j < |r.value.dispatched| {
      SliceOfPushed(r.value, size, j);
    }
  }

  /** Command k, the i-th of the j-th run of `size`, stands in the j-th batch once that is dispatched. */
  lemma DispatchedAt(s: State, size: nat, j: nat, i: nat)
    requires Inv(s, size) && j < |s.dispatched| && i < size
    ensures |s.dispatched[j]| == size && 0 <= j * size && j * size + i < |s.pushed|
    ensures s.dispatched[j][i] == s.pushed[j * size + i]
  {
    StartIs(j, size);
    hide Inv, Start, Flatten;
    AllFull(s, size);
    SliceOfPushed(s, size, j);
    var at := Start(j, size);
    hide *;
    assert s.dispatched[j][i] == s.pushed[at..at + size][i];
  }

  /** Until then it stands in the partial batch or the queue. */
  lemma UndispatchedAt(s: State, size: nat, j: nat, i: nat)
    requires Inv(s, size) && j >= |s.dispatched| && i < size
    ensures 0 <= j * size
    ensures var k := j * size + i;
            k < |s.pushed| ==>
              var at := k - |s.dispatched| * size;
              0 <= at < |Partial(s) + s.queue| && (Partial(s) + s.queue)[at] == s.pushed[k]
  {
    var n := |s.dispatched|;
    hide Inv, Flatten, Partial, AllOfSize;
    AllFull(s, size);
    Conserved(s, size);
    FlattenLength(s.dispatched, size);
    StartIs(n, size);
    StartIs(j, size);
    StartMonotone(n, j, size);
    hide Start;
    var k := Start(j, size) + i;
    if k < |s.pushed| { SuffixAt(Flatten(s.dispatched), Partial(s) + s.queue, k); }
  }

  lemma {:induction false} StartMonotone(n: nat, j: nat, size: nat)
    requires n <= j
    ensures Start(n, size) <= Start(j, size)
    decreases j
  {
    if n < j { StartMonotone(n, j - 1, size); }
  }

  lemma SuffixAt<T>(f: seq<T>, rest: seq<T>, k: nat)
    requires |f| <= k < |f + rest|
    ensures 0 <= k - |f| < |rest| && rest[k - |f|] == (f + rest)[k]
  {}

  /** When the batcher has drained the queue, what remains of the last batch is the remainder. */
  lemma DrainedRemainder(ls: seq<Label>, size: nat)
    requires size > 0
    ensures var r := Exec(Init(), ls, size);
            r.Some? && r.value.queue == [] && |Partial(r.value)| < size ==>
              |r.value.dispatched| * size + |Partial(r.value)| == |r.value.pushed|
              && |Partial(r.value)| == Mod(|r.value.pushed|, size)
  {
    BatchesConserve(ls, size);
    var r := Exec(Init(), ls, size);
    if r.Some? && r.value.queue == [] && |Partial(r.value)| < size {
      var s := r.value;
      AllFull(s, size);
      FlattenLength(s.dispatched, size);
      StartIs(|s.dispatched|, size);
      ModIs(|s.pushed|, |s.dispatched|, |Partial(s)|, size);
    }
  }

  predicate NoSubmit(ls: seq<Label>) { forall l :: l in ls ==> !l.Submit? }

  /**
   The inner loop does not look at `batchingActive_`: with a partial batch and an empty queue it goes
   on for ever unless more commands come, stopped or not, and the partial batch is never dispatched.
   */
  lemma {:induction false} PartialBatchStuck(s: State, ls: seq<Label>, size: nat)
    requires s.at.Fill? && |s.at.batch| < size && s.queue == [] && NoSubmit(ls)
    ensures var r := Exec(s, ls, size);
            r.Some? ==> r.value == s.(active := r.value.active)
    decreases |ls|
  {
    if ls != [] {
      PartialBatchStuck(s, ls[..|ls| - 1], size);
    }
  }

  /** With too few commands in all, none is ever dispatched. */
  lemma {:induction false} TooFewStay(s: State, ls: seq<Label>, size: nat)
    requires s.at.Fill? && |s.at.batch| + |s.queue| < size && NoSubmit(ls)
    ensures var r := Exec(s, ls, size);
            r.Some? ==>
              && r.value.at.Fill? && |r.value.at.batch| + |r.value.queue| == |s.at.batch| + |s.queue|
              && r.value.dispatched == s.dispatched
    decreases |ls|
  {
    if ls != [] { TooFewStay(s, ls[..|ls| - 1], size); }
  }

  function Turns(k: nat): (ls: seq<Label>)
    ensures |ls| == k
  {
    seq(k, i => InnerStep)
  }

  /** After k turns of the inner loop k commands have moved from the queue to the batch. */
  lemma {:induction false} Collected(s: State, k: nat, size: nat)
    requires s.at.Fill? && |s.at.batch| + k <= size && k <= |s.queue|
    ensures Exec(s, Turns(k), size) == Some(s.(at := Fill(s.at.batch + s.queue[..k]), queue := s.queue[k..]))
  {
    if k == 0 {
      assert s.at.batch + s.queue[..0] == s.at.batch && s.queue[0..] == s.queue;
    } else {
      Collected(s, k - 1, size);
      assert Turns(k)[..k - 1] == Turns(k - 1) && Turns(k)[k - 1] == InnerStep;
      hide Turns, Step;
      CollectsNext(s, k, size);
    }
  }

  lemma CollectsNext(s: State, k: nat, size: nat)
    requires s.at.Fill? && 0 < k <= |s.queue| && |s.at.batch| + k <= size
    ensures Step(s.(at := Fill(s.at.batch + s.queue[..k - 1]), queue := s.queue[k - 1..]), InnerStep, size)
         == Some(s.(at := Fill(s.at.batch + s.queue[..k]), queue := s.queue[k..]))
  {
    assert s.at.batch + s.queue[..k - 1] + [s.queue[k - 1..][0]] == s.at.batch + s.queue[..k];
    assert s.queue[k - 1..][1..] == s.queue[k..];
  }

  predicate MoreDispatched(s: State, ls: seq<Label>, size: nat) {
    var r := Exec(s, ls, size);
    r.Some? && |r.value.dispatched| > |s.dispatched|
  }

  lemma EnoughDispatched(s: State, size: nat)
    requires size > 0 && s.at.Fill? && |s.at.batch| <= size <= |s.at.batch| + |s.queue|
    ensures exists ls :: NoSubmit(ls) && MoreDispatched(s, ls, size)
  {
    var k := size - |s.at.batch|;
    Collected(s, k, size);
    var ls := Turns(k);
    var t := Exec(s, ls, size).value;
    assert (ls + [InnerStep])[..k] == ls;
    assert (ls + [InnerStep] + [Dispatch])[..k + 1] == ls + [InnerStep];
    assert Step(t, InnerStep, size) == Some(t.(at := Full(t.at.batch)));
    assert Exec(s, ls + [InnerStep], size) == Some(t.(at := Full(t.at.batch)));
    assert NoSubmit(ls + [InnerStep] + [Dispatch]) && MoreDispatched(s, ls + [InnerStep] + [Dispatch], size);
  }

  /**
   Without further submissions the batch being filled can be dispatched if and only if it and the queue
   together hold a full batch.
   */
  lemma DispatchedIff(s: State, size: nat)
    requires size > 0 && s.at.Fill? && |s.at.batch| <= size
    ensures (exists ls :: NoSubmit(ls) && MoreDispatched(s, ls, size)) <==> |s.at.batch| + |s.queue| >= size
  {
    if |s.at.batch| + |s.queue| >= size {
      EnoughDispatched(s, size);
    } else {
      forall ls | NoSubmit(ls)
        ensures !MoreDispatched(s, ls, size)
      {
        TooFewStay(s, ls, size);
      }
    }
  }

  // ---- After batching is stopped ------------------------------------------------------------------

  lemma {:induction false} StaysStopped(s: State, ls: seq<Label>, size: nat)
    requires !s.active
    ensures var r := Exec(s, ls, size);
            r.Some? ==> !r.value.active && |r.value.dispatched| + Assembling(r.value) <= |s.dispatched| + Assembling(s)
    decreases |ls|
  {
    if ls != [] { StaysStopped(s, ls[..|ls| - 1], size); }
  }

  /** The batches being assembled: one, or none at the outer test and after the loop. */
  function Assembling(s: State): nat { if s.at.Fill? || s.at.Full? then 1 else 0 }

  /** A stopped loop dispatches the batch it is assembling and no other, whatever is submitted. */
  lemma OneMoreBatch(s: State, ls: seq<Label>, size: nat)
    requires !s.active
    ensures var r := Exec(s, ls, size);
            r.Some? ==> |r.value.dispatched| <= |s.dispatched| + if s.at.Fill? || s.at.Full? then 1 else 0
  {
    StaysStopped(s, ls, size);
  }

  lemma {:induction false} ExecAppend(s: State, ls: seq<Label>, more: seq<Label>, size: nat)
    ensures var r := Exec(s, ls, size);
            Exec(s, ls + more, size) == if r.Some? then Exec(r.value, more, size) else None
    decreases |more|
  {
    if more == [] {
      assert ls + more == ls;
    } else {
      var n := |more| - 1;
      ExecAppend(s, ls, more[..n], size);
      assert (ls + more)[..|ls + more| - 1] == ls + more[..n] && (ls + more)[|ls + more| - 1] == more[n];
      hide Step;
    }
  }

  function Submits(cmd: Command, k: nat): (ls: seq<Label>)
    ensures |ls| == k
  {
    seq(k, i => Submit(cmd))
  }

  lemma {:induction false} Submitted(s: State, cmd: Command, k: nat, size: nat)
    ensures var r := Exec(s, Submits(cmd, k), size);
            r.Some? && r.value.at == s.at && r.value.dispatched == s.dispatched && |r.value.queue| == |s.queue| + k
  {
    if k > 0 {
      Submitted(s, cmd, k - 1, size);
      assert Submits(cmd, k)[..k - 1] == Submits(cmd, k - 1) && Submits(cmd, k)[k - 1] == Submit(cmd);
      hide Submits;
    }
  }

  lemma AssembledDispatched(s: State, size: nat)
    requires size > 0 && (s.at.Fill? ==> |s.at.batch| <= size) && (s.at.Full? ==> |s.at.batch| == size)
    requires s.at.Fill? || s.at.Full?
    ensures exists ls :: MoreDispatched(s, ls, size)
  {
    if s.at.Full? {
      assert Exec(s, [], size) == Some(s);
      assert [Dispatch][..0] == [];
      assert MoreDispatched(s, [Dispatch], size);
    } else {
      var ls := Submits(Command(Draw, [], 0), size);
      Submitted(s, Command(Draw, [], 0), size, size);
      var t := Exec(s, ls, size).value;
      EnoughDispatched(t, size);
      var more :| NoSubmit(more) && MoreDispatched(t, more, size);
      ExecAppend(s, ls, more, size);
      assert MoreDispatched(s, ls + more, size);
    }
  }

  /** And it can dispatch one, given submissions, if and only if it is assembling one. */
  lemma StoppedDispatchesIff(s: State, size: nat)
    requires size > 0 && Inv(s, size) && !s.active
    ensures (exists ls :: MoreDispatched(s, ls, size)) <==> s.at.Fill? || s.at.Full?
  {
    hide Flatten;
    if s.at.Fill? || s.at.Full? {
      AssembledDispatched(s, size);
    } else {
      forall ls
        ensures !MoreDispatched(s, ls, size)
      {
        OneMoreBatch(s, ls, size);
      }
    }
  }
}
