/**
 The worker pool: a task queue under a mutex and a condition variable. Everything a thread does
 between taking and releasing the mutex is one step, but for the stretch between finding nothing to
 do and blocking, in which `stop_`, which is set without the mutex, may change.
 */
module ThreadPool {
  import opened Options

  datatype Worker =
    | Top                  // before the loop test
    | Locking              // before taking the mutex for the wait
    | Dozing               // holds the mutex, found no task and no stop, about to block
    | Asleep               // blocked on the condition variable
    | Woken                // notified, or woken for no reason; before taking the mutex again
    | Running(task: nat)
    | Exited

  /**
   Tasks are numbered in order of enqueue. `pending` counts producers between push and notify_one;
   `finished` and `late` are history: the tasks done, and what each worker took after stop.
   */
  datatype Pool = Pool(queue: seq<nat>, pushed: nat, workers: seq<Worker>, lock: Option<nat>, pending: nat,
                       stop: bool, notified: bool, finished: set<nat>, late: seq<nat>)

  datatype Label =
    | Push | NotifyOne(w: nat) | NotifyNobody
    | TestStop(w: nat) | Acquire(w: nat) | Block(w: nat) | Spurious(w: nat) | FinishTask(w: nat)
    | SetStop | NotifyAll

  function Init(threads: nat): Pool {
    Pool([], 0, seq(threads, i => Top), None, 0, false, false, {}, seq(threads, i => 0))
  }

  function SetWorker(s: Pool, w: nat, x: Worker): Pool
    requires w < |s.workers|
  {
    s.(workers := s.workers[w := x])
  }

  predicate AnyAsleep(ws: seq<Worker>) { exists w :: 0 <= w < |ws| && ws[w].Asleep? }

  function WakeAll(ws: seq<Worker>): (r: seq<Worker>)
    ensures |r| == |ws|
  {
    seq(|ws|, i requires 0 <= i < |ws| => if ws[i].Asleep? then Woken else ws[i])
  }

  /** With the mutex: the wait's predicate, and what the worker does next. */
  function Check(s: Pool, w: nat): Pool
    requires w < |s.workers| == |s.late|
  {
    if !s.stop && s.queue == [] then SetWorker(s.(lock := Some(w)), w, Dozing)
    else if s.queue == [] then SetWorker(s, w, Exited)
    else
      var taken := SetWorker(s.(queue := s.queue[1..]), w, Running(s.queue[0]));
      if s.stop then taken.(late := s.late[w := s.late[w] + 1]) else taken
  }

  function StepWorker(s: Pool, l: Label, w: nat): (r: Option<Pool>)
    requires w < |s.workers| == |s.late|
    ensures r.Some? ==> |r.value.workers| == |s.workers| == |r.value.late|
  {
    match (l, s.workers[w])
    case (NotifyOne(_), Asleep) =>
      if s.pending > 0 then Some(SetWorker(s.(pending := s.pending - 1), w, Woken)) else None
    case (TestStop(_), Top) => Some(SetWorker(s, w, if s.stop then Exited else Locking))
    case (Acquire(_), Locking) => if s.lock.None? then Some(Check(s, w)) else None
    case (Acquire(_), Woken) => if s.lock.None? then Some(Check(s, w)) else None
    case (Block(_), Dozing) => Some(SetWorker(s.(lock := None), w, Asleep))
    case (Spurious(_), Asleep) => Some(SetWorker(s, w, Woken))
    case (FinishTask(_), Running(t)) => Some(SetWorker(s.(finished := s.finished + {t}), w, Top))
    case _ => None
  }

  function Step(s: Pool, l: Label): (r: Option<Pool>)
    requires |s.workers| == |s.late|
    ensures r.Some? ==> |r.value.workers| == |s.workers| == |r.value.late|
  {
    match l
    case Push =>
      if s.lock.None? then Some(s.(queue := s.queue + [s.pushed], pushed := s.pushed + 1, pending := s.pending + 1))
      else None
    case NotifyNobody =>
      if s.pending > 0 && !AnyAsleep(s.workers) then Some(s.(pending := s.pending - 1)) else None
    case SetStop => if !s.stop then Some(s.(stop := true)) else None
    case NotifyAll => if s.stop && !s.notified then Some(s.(notified := true, workers := WakeAll(s.workers))) else None
    case _ => if l.w < |s.workers| then StepWorker(s, l, l.w) else None
  }

  function Exec(s: Pool, ls: seq<Label>): (r: Option<Pool>)
    requires |s.workers| == |s.late|
    ensures r.Some? ==> |r.value.workers| == |s.workers| == |r.value.late|
    decreases |ls|
  {
    if ls == [] then Some(s)
    else
      match Exec(s, ls[..|ls| - 1])
      case Some(t) => Step(t, ls[|ls| - 1])
      case None => None
  }

  // ---- Counting -------------------------------------------------------------------------------

  /** The workers that will look at the queue without being notified. */
  function OnTheWay(ws: seq<Worker>): nat {
    if ws == [] then 0
    else OnTheWay(ws[..|ws| - 1]) + (if Comes(ws[|ws| - 1]) then 1 else 0)
  }

  predicate Comes(w: Worker) { w.Woken? || w.Top? || w.Locking? }

  lemma {:induction false} OnTheWayUpdate(ws: seq<Worker>, w: nat, x: Worker)
    requires w < |ws|
    ensures OnTheWay(ws[w := x]) == OnTheWay(ws) - (if Comes(ws[w]) then 1 else 0) + (if Comes(x) then 1 else 0)
    ensures Comes(ws[w]) ==> OnTheWay(ws) > 0
  {
    var n := |ws| - 1;
    if w < n {
      assert ws[w := x][..n] == ws[..n][w := x];
      OnTheWayUpdate(ws[..n], w, x);
    } else {
      assert ws[w := x][..n] == ws[..n];
    }
  }

  // ---- What every step keeps --------------------------------------------------------------------

  /** The tasks taken so far are 0, 1, ... in order; each is finished or held by exactly one worker. */
  ghost predicate TasksOk(s: Pool) {
    var taken := s.pushed - |s.queue|;
    && taken >= 0
    && (forall i :: 0 <= i < |s.queue| ==> s.queue[i] == taken + i)
    && (forall t :: t in s.finished ==> t < taken)
    && (forall w :: 0 <= w < |s.workers| && s.workers[w].Running? ==>
      s.workers[w].task < taken && s.workers[w].task !in s.finished)
    && (forall v, w :: 0 <= v < w < |s.workers| && s.workers[v].Running? && s.workers[w].Running? ==>
          s.workers[v].task != s.workers[w].task)
    && (forall t: nat :: t < taken && t !in s.finished ==> Held(s, t))
  }

  predicate Held(s: Pool, t: nat) {
    exists w :: 0 <= w < |s.workers| && s.workers[w] == Running(t)
  }

  /** The mutex is held exactly by the worker about to block, and then there is nothing to do. */
  ghost predicate LockOk(s: Pool) {
    && (forall w :: 0 <= w < |s.workers| ==> (s.workers[w].Dozing? <==> s.lock == Some(w)))
    && (s.lock.Some? ==> s.lock.value < |s.workers| && s.queue == [])
  }

  /** No lost wakeup: while a worker sleeps, every queued task has someone coming for it. */
  ghost predicate WakeupsOk(s: Pool) {
    !s.stop && AnyAsleep(s.workers) ==> |s.queue| <= s.pending + OnTheWay(s.workers)
  }

  /**
   No worker leaves before stop; after it a worker takes at most one task, and none unless it was
   past the loop test.
   */
  ghost predicate LateOk(s: Pool) {
    && |s.late| == |s.workers|
    && (s.notified ==> s.stop)
    && forall w :: 0 <= w < |s.workers| ==>
         && s.late[w] <= 1 && (s.workers[w].Exited? ==> s.stop)
         && (s.late[w] == 1 ==> s.stop && (s.workers[w].Running? || s.workers[w].Top? || s.workers[w].Exited?))
  }

  ghost predicate Inv(s: Pool) {
    TasksOk(s) && LockOk(s) && WakeupsOk(s) && LateOk(s)
  }

  lemma InitInv(threads: nat)
    ensures Inv(Init(threads))
  {}

  /** A step that leaves tasks and running workers alone. */
  lemma IdleKeeps(s: Pool, t: Pool)
    requires TasksOk(s) && |t.workers| == |s.workers|
    requires t.queue == s.queue && t.pushed == s.pushed && t.finished == s.finished
    requires forall w :: 0 <= w < |s.workers| ==>
      (s.workers[w].Running? || t.workers[w].Running? ==> t.workers[w] == s.workers[w])
    ensures TasksOk(t)
  {
    forall k: nat | k < t.pushed - |t.queue| && k !in t.finished
      ensures Held(t, k)
    {
      assert Held(s, k);
      var w :| 0 <= w < |s.workers| && s.workers[w] == Running(k);
      assert t.workers[w] == Running(k);
    }
  }

  lemma PushKeeps(s: Pool)
    requires TasksOk(s)
    ensures TasksOk(s.(queue := s.queue + [s.pushed], pushed := s.pushed + 1, pending := s.pending + 1))
  {
    var t := s.(queue := s.queue + [s.pushed], pushed := s.pushed + 1, pending := s.pending + 1);
    forall k: nat | k < t.pushed - |t.queue| && k !in t.finished
      ensures Held(t, k)
    {
      assert Held(s, k);
    }
  }

  /** Taking the front of the queue: the next number in order. */
  lemma TakeKeeps(s: Pool, w: nat)
    requires TasksOk(s) && w < |s.workers| && !s.workers[w].Running? && s.queue != []
    ensures TasksOk(SetWorker(s.(queue := s.queue[1..]), w, Running(s.queue[0])))
  {
    var t := SetWorker(s.(queue := s.queue[1..]), w, Running(s.queue[0]));
    forall k: nat | k < t.pushed - |t.queue| && k !in t.finished
      ensures Held(t, k)
    {
      if k < s.pushed - |s.queue| {
        assert Held(s, k);
        var v :| 0 <= v < |s.workers| && s.workers[v] == Running(k);
        assert t.workers[v] == Running(k);
      } else {
        assert t.workers[w] == Running(k);
      }
    }
  }

  lemma FinishKeeps(s: Pool, w: nat)
    requires TasksOk(s) && w < |s.workers| && s.workers[w].Running?
    ensures TasksOk(SetWorker(s.(finished := s.finished + {s.workers[w].task}), w, Top))
  {
    var t := SetWorker(s.(finished := s.finished + {s.workers[w].task}), w, Top);
    forall k: nat | k < t.pushed - |t.queue| && k !in t.finished
      ensures Held(t, k)
    {
      assert Held(s, k);
      var v :| 0 <= v < |s.workers| && s.workers[v] == Running(k);
      assert t.workers[v] == Running(k);
    }
  }

  lemma TasksKept(s: Pool, l: Label)
    requires TasksOk(s) && |s.workers| == |s.late|
    ensures var r := Step(s, l); r.Some? ==> TasksOk(r.value)
  {
    hide TasksOk, AnyAsleep;
    var r := Step(s, l);
    if r.Some? {
      match l
      case Push => PushKeeps(s);
      case FinishTask(w) => FinishKeeps(s, w);
      case Acquire(w) =>
        if s.queue != [] {
          TakeKeeps(s, w);
          IdleKeeps(SetWorker(s.(queue := s.queue[1..]), w, Running(s.queue[0])), r.value);
        } else {
          IdleKeeps(s, r.value);
        }
      case _ => IdleKeeps(s, r.value);
    }
  }

  lemma LockKept(s: Pool, l: Label)
    requires LockOk(s) && |s.workers| == |s.late|
    ensures var r := Step(s, l); r.Some? ==> LockOk(r.value)
  {
    hide AnyAsleep;
  }

  lemma LateKept(s: Pool, l: Label)
    requires LateOk(s)
    ensures var r := Step(s, l); r.Some? ==> LateOk(r.value)
  {
    hide AnyAsleep;
  }

  lemma WakeupsKept(s: Pool, l: Label)
    requires LockOk(s) && WakeupsOk(s) && |s.workers| == |s.late|
    ensures var r := Step(s, l); r.Some? ==> WakeupsOk(r.value)
  {
    var r := Step(s, l);
    if r.Some? && !r.value.stop && AnyAsleep(r.value.workers) {
      var t := r.value;
      if !(l.Push? || l.NotifyNobody? || l.SetStop? || l.NotifyAll?) {
        OnTheWayUpdate(s.workers, l.w, t.workers[l.w]);
      }
    }
  }

  lemma StepInv(s: Pool, l: Label)
    requires Inv(s)
    ensures var r := Step(s, l); r.Some? ==> Inv(r.value)
  {
    hide *;
    assert TasksOk(s) && LockOk(s) && WakeupsOk(s) && LateOk(s) && |s.workers| == |s.late| by { InvMeans(s); }
    TasksKept(s, l);
    LockKept(s, l);
    LateKept(s, l);
    WakeupsKept(s, l);
    var r := Step(s, l);
    if r.Some? { InvIs(r.value); }
  }

  lemma InvMeans(s: Pool)
    requires Inv(s)
    ensures TasksOk(s) && LockOk(s) && WakeupsOk(s) && LateOk(s) && |s.workers| == |s.late|
  {}

  lemma InvIs(s: Pool)
    requires TasksOk(s) && LockOk(s) && WakeupsOk(s) && LateOk(s)
    ensures Inv(s)
  {}

  lemma {:induction false} RunInv(s: Pool, ls: seq<Label>)
    requires Inv(s)
    ensures var r := Exec(s, ls); r.Some? ==> Inv(r.value)
    decreases |ls|
  {
    if ls != [] {
      var before, l := ls[..|ls| - 1], ls[|ls| - 1];
      RunInv(s, before);
      var r := Exec(s, before);
      if r.Some? { StepInv(r.value, l); }
    }
  }

  // ---- Whole runs -------------------------------------------------------------------------------

  /**
   No lost wakeup, in every interleaving before stop: while a worker sleeps, the queued tasks are no
   more than the notifications still to come plus the workers about to look at the queue.
   */
  lemma NoLostWakeup(threads: nat, ls: seq<Label>)
    ensures var r := Exec(Init(threads), ls);
            r.Some? && !r.value.stop && AnyAsleep(r.value.workers) ==>
              |r.value.queue| <= r.value.pending + OnTheWay(r.value.workers)
  {
    InitInv(threads);
    RunInv(Init(threads), ls);
  }

  predicate AllAsleep(ws: seq<Worker>) { forall w :: 0 <= w < |ws| ==> ws[w].Asleep? }

  lemma {:induction false} NobodyComes(ws: seq<Worker>)
    requires forall w :: 0 <= w < |ws| ==> !Comes(ws[w])
    ensures OnTheWay(ws) == 0
  {
    if ws != [] { NobodyComes(ws[..|ws| - 1]); }
  }

  /** Before stop, with a task queued, a second worker is under way or can be notified. */
  lemma AnotherWorker(s: Pool, v: nat) returns (w: nat)
    requires Inv(s) && !s.stop && s.queue != [] && v < |s.workers| && s.workers[v].Running? && |s.workers| >= 2
    ensures w < |s.workers| && w != v && s.lock.None? && !s.workers[w].Exited? && !s.workers[w].Dozing?
    ensures s.workers[w].Asleep? ==> s.pending > 0
  {
    w := if v == 0 then 1 else 0;
    if s.workers[w].Asleep? {
      if u :| 0 <= u < |s.workers| && u != v && !s.workers[u].Asleep? {
        w := u;
      } else {
        assert AnyAsleep(s.workers);
        NobodyComes(s.workers);
      }
    }
  }

  /** So the whole pool never sleeps on a task whose producer has already notified. */
  lemma AllAsleepNotified(threads: nat, ls: seq<Label>)
    requires threads > 0
    ensures var r := Exec(Init(threads), ls);
            r.Some? && !r.value.stop && AllAsleep(r.value.workers) ==> |r.value.queue| <= r.value.pending
  {
    NoLostWakeup(threads, ls);
    var r := Exec(Init(threads), ls);
    if r.Some? && !r.value.stop && AllAsleep(r.value.workers) {
      assert r.value.workers[0].Asleep?;
      NobodyComes(r.value.workers);
    }
  }

  /** Of the tasks pushed so far the first ones are taken: each of these is finished or held, never both. */
  ghost predicate Placed(s: Pool, task: nat) {
    var taken := s.pushed - |s.queue|;
    && (task in s.queue <==> taken <= task < s.pushed)
    && (task < taken <==> task in s.finished || Held(s, task))
    && !(task in s.finished && Held(s, task))
    && (forall v, w :: 0 <= v < w < |s.workers| ==> !(s.workers[v] == Running(task) == s.workers[w]))
  }

  lemma TaskPlaced(s: Pool, task: nat)
    requires TasksOk(s)
    ensures Placed(s, task)
  {
    var taken := s.pushed - |s.queue|;
    if taken <= task < s.pushed {
      assert s.queue[task - taken] == task;
    }
  }

  /** Each task is queued, held by one worker, or finished, and never two of these; tasks are taken in FIFO order. */
  lemma TasksPartitioned(threads: nat, ls: seq<Label>, task: nat)
    ensures var r := Exec(Init(threads), ls);
            r.Some? ==>
              && Placed(r.value, task)
              && (r.value.queue != [] ==> r.value.queue[0] == r.value.pushed - |r.value.queue|)
  {
    InitInv(threads);
    RunInv(Init(threads), ls);
    var r := Exec(Init(threads), ls);
    if r.Some? { TaskPlaced(r.value, task); }
  }

  /** After stop no worker takes more than one further task. */
  lemma OneTaskAfterStop(threads: nat, ls: seq<Label>, w: nat)
    requires w < threads
    ensures var r := Exec(Init(threads), ls); r.Some? ==> r.value.late[w] <= 1
  {
    InitInv(threads);
    RunInv(Init(threads), ls);
  }

  /** What waitAll has seen when it returns: the mutex free and the queue empty. */
  predicate WaitAllReturns(s: Pool) { s.lock.None? && s.queue == [] }

  /** Then all tasks but those that workers are still running are finished. */
  lemma WaitAllMeans(threads: nat, ls: seq<Label>, task: nat)
    ensures var r := Exec(Init(threads), ls);
            r.Some? && WaitAllReturns(r.value) && task < r.value.pushed ==>
              (task in r.value.finished <==> !Held(r.value, task))
  {
    TasksPartitioned(threads, ls, task);
  }

  /** It returns in a state if and only if no worker is about to block and every task is taken. */
  lemma WaitAllReturnsIff(threads: nat, ls: seq<Label>)
    ensures var r := Exec(Init(threads), ls);
            r.Some? ==>
              (WaitAllReturns(r.value) <==>
                 && (forall w :: 0 <= w < |r.value.workers| ==> !r.value.workers[w].Dozing?)
                 && (forall task: nat :: task < r.value.pushed ==> task in r.value.finished || Held(r.value, task)))
  {
    InitInv(threads);
    RunInv(Init(threads), ls);
    var r := Exec(Init(threads), ls);
    if r.Some? { WaitAllReturnsWhen(r.value); }
  }

  lemma WaitAllReturnsWhen(s: Pool)
    requires Inv(s)
    ensures WaitAllReturns(s) <==>
              && (forall w :: 0 <= w < |s.workers| ==> !s.workers[w].Dozing?)
              && (forall task: nat :: task < s.pushed ==> task in s.finished || Held(s, task))
  {
    if s.queue == [] {
      forall task: nat | task < s.pushed
        ensures task in s.finished || Held(s, task)
      {
        TaskPlaced(s, task);
      }
    } else {
      TaskPlaced(s, s.queue[0]);
      assert s.queue[0] in s.queue;
    }
    if s.lock.Some? { assert s.workers[s.lock.value].Dozing?; }
  }

  /** And there may be such tasks: waitAll does not wait for them. */
  lemma WaitAllMissesRunning()
    ensures exists ls :: var r := Exec(Init(1), ls); r.Some? && WaitAllReturns(r.value) && Held(r.value, 0)
  {
    var s := Init(1);
    var s1 := s.(queue := s.queue + [0], pushed := 1, pending := 1);
    var s2 := s1.(pending := 0);
    var s3 := SetWorker(s2, 0, Locking);
    var s4 := SetWorker(s3.(queue := s3.queue[1..]), 0, Running(0));
    NoSteps(s);
    hide Exec;
    var ls := Next(s, [], Push, s, s1);
    ls := Next(s, ls, NotifyNobody, s1, s2);
    ls := Next(s, ls, TestStop(0), s2, s3);
    ls := Next(s, ls, Acquire(0), s3, s4);
    assert s4.workers[0] == Running(0);
  }

  /** One step of a concrete run. */
  lemma Next(s: Pool, ls: seq<Label>, l: Label, t: Pool, u: Pool) returns (ls': seq<Label>)
    requires |s.workers| == |s.late| && Exec(s, ls) == Some(t)
    requires |t.workers| == |t.late| && Step(t, l) == Some(u)
    ensures ls' == ls + [l] && Exec(s, ls') == Some(u)
  {
    Extend(s, ls, l);
    ls' := ls + [l];
  }

  lemma NoSteps(s: Pool)
    requires |s.workers| == |s.late|
    ensures Exec(s, []) == Some(s)
  {}

  lemma Extend(s: Pool, ls: seq<Label>, l: Label)
    requires |s.workers| == |s.late|
    ensures Exec(s, ls).Some? ==> Exec(s, ls + [l]) == Step(Exec(s, ls).value, l)
  {
    assert (ls + [l])[..|ls|] == ls;
  }

  // ---- Shutdown -----------------------------------------------------------------------------------

  predicate Settled(ws: seq<Worker>) {
    forall w :: 0 <= w < |ws| ==> !ws[w].Asleep? && !ws[w].Dozing?
  }

  /** Once stop is set no worker starts to doze; after the broadcast only a dozing one can fall asleep. */
  lemma {:induction false} StaysSettled(s: Pool, ls: seq<Label>)
    requires |s.workers| == |s.late| && s.stop && Settled(s.workers)
    ensures var r := Exec(s, ls); r.Some? ==> r.value.stop && Settled(r.value.workers)
    decreases |ls|
  {
    if ls != [] {
      var before := ls[..|ls| - 1];
      StaysSettled(s, before);
      hide Step, Settled;
      var r := Exec(s, before);
      if r.Some? { StepSettled(r.value, ls[|ls| - 1]); }
    }
  }

  lemma StepSettled(s: Pool, l: Label)
    requires |s.workers| == |s.late| && s.stop && Settled(s.workers)
    ensures var r := Step(s, l); r.Some? ==> r.value.stop && Settled(r.value.workers)
  {
    hide AnyAsleep;
  }

  /**
   The destructor's broadcast leaves a worker that may sleep for ever if and only if at that moment some
   worker has found the wait's predicate false and has not yet blocked: stop_ is set without the mutex.
   */
  lemma SleepsThroughStopIff(s: Pool)
    requires Inv(s) && s.stop && !s.notified
    ensures (exists ls, w: nat :: var r := Exec(Step(s, NotifyAll).value, ls);
                                  r.Some? && w < |r.value.workers| && r.value.workers[w].Asleep?)
            <==> exists w :: 0 <= w < |s.workers| && s.workers[w].Dozing?
  {
    var t := Step(s, NotifyAll).value;
    if s.lock.Some? {
      assert s.workers[s.lock.value].Dozing?;
      DozerFallsAsleep(s);
    } else {
      assert Settled(t.workers);
      hide Step;
      forall ls, w: nat
        ensures var r := Exec(t, ls); !(r.Some? && w < |r.value.workers| && r.value.workers[w].Asleep?)
      {
        StaysSettled(t, ls);
      }
    }
  }

  lemma DozerFallsAsleep(s: Pool)
    requires Inv(s) && s.stop && !s.notified && s.lock.Some?
    ensures exists ls, w: nat :: var r := Exec(Step(s, NotifyAll).value, ls);
                                 r.Some? && w < |r.value.workers| && r.value.workers[w].Asleep?
  {
    var t, w := Step(s, NotifyAll).value, s.lock.value;
    assert s.workers[w] == Dozing && t.workers[w] == Dozing;
    NoSteps(t);
    Extend(t, [], Block(w));
    hide Exec;
    assert Exec(t, [] + [Block(w)]).value.workers[w] == Asleep;
  }

  lemma FallsIntoDoze() returns (ls: seq<Label>)
    ensures Exec(Init(1), ls) == Some(Init(1).(workers := [Dozing], lock := Some(0)))
  {
    var s := Init(1);
    var s1 := SetWorker(s, 0, Locking);
    var s2 := SetWorker(s1.(lock := Some(0)), 0, Dozing);
    NoSteps(s);
    hide Exec;
    ls := Next(s, [], TestStop(0), s, s1);
    ls := Next(s, ls, Acquire(0), s1, s2);
    assert s2.workers == [Dozing];
  }

  /** A run in which this happens to the only worker. */
  lemma WorkerSleepsForEver()
    ensures exists ls :: var r := Exec(Init(1), ls);
              r.Some? && r.value.stop && r.value.notified && r.value.workers == [Asleep] && r.value.pending == 0
  {
    var s := Init(1);
    var s2 := s.(workers := [Dozing], lock := Some(0));
    var s3 := s2.(stop := true);
    var s4 := s3.(notified := true);
    var s5 := SetWorker(s4.(lock := None), 0, Asleep);
    var ls := FallsIntoDoze();
    hide Exec;
    ls := Next(s, ls, SetStop, s2, s3);
    assert WakeAll(s3.workers) == s3.workers;
    ls := Next(s, ls, NotifyAll, s3, s4);
    ls := Next(s, ls, Block(0), s4, s5);
  }
}
