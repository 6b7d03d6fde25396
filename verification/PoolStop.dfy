/** Which tasks the pool's workers take: the one in front of the queue, and what is taken after stop. */
module PoolStop {
  import opened Options
  import opened ThreadPool

  // ---- Bookkeeping ------------------------------------------------------------------------------

  function Pushes(ls: seq<Label>): nat {
    if ls == [] then 0 else Pushes(ls[..|ls| - 1]) + (if ls[|ls| - 1].Push? then 1 else 0)
  }

  function Notifies(ls: seq<Label>): nat {
    if ls == [] then 0
    else Notifies(ls[..|ls| - 1]) + (if ls[|ls| - 1].NotifyOne? || ls[|ls| - 1].NotifyNobody? then 1 else 0)
  }

  function Times(ls: seq<Label>, l: Label): nat {
    if ls == [] then 0 else Times(ls[..|ls| - 1], l) + (if ls[|ls| - 1] == l then 1 else 0)
  }

  /**
   The notifications still to come are the pushes without the notifications made; stop is set once and
   broadcast once.
   */
  lemma {:induction false} PendingCounts(threads: nat, ls: seq<Label>)
    ensures var r := Exec(Init(threads), ls);
            r.Some? ==>
              && r.value.pushed == Pushes(ls) && r.value.pending == Pushes(ls) - Notifies(ls)
              && Times(ls, SetStop) == (if r.value.stop then 1 else 0)
              && Times(ls, NotifyAll) == (if r.value.notified then 1 else 0)
    decreases |ls|
  {
    if ls != [] {
      var before := ls[..|ls| - 1];
      PendingCounts(threads, before);
      var r := Exec(Init(threads), before);
      hide Step;
      if r.Some? { StepCounts(r.value, ls[|ls| - 1]); }
    }
  }

  lemma StepCounts(s: Pool, l: Label)
    requires |s.workers| == |s.late|
    ensures var r := Step(s, l);
            r.Some? ==>
              && r.value.pushed == s.pushed + (if l.Push? then 1 else 0)
              && r.value.stop == (s.stop || l.SetStop?) && !(s.stop && l.SetStop?)
              && r.value.notified == (s.notified || l.NotifyAll?) && !(s.notified && l.NotifyAll?)
              && r.value.pending + (if l.NotifyOne? || l.NotifyNobody? then 1 else 0)
                 == s.pending + (if l.Push? then 1 else 0)
  {
    hide AnyAsleep;
  }

  // ---- The front of the queue ---------------------------------------------------------------------

  /** Worker w passes the loop test or takes the mutex. */
  predicate OwnSteps(ls: seq<Label>, w: nat) {
    forall l :: l in ls ==> l == TestStop(w) || l == Acquire(w)
  }

  predicate EndsWith(s: Pool, ls: seq<Label>, w: nat, x: Worker)
    requires |s.workers| == |s.late|
  {
    var r := Exec(s, ls);
    r.Some? && w < |r.value.workers| && r.value.workers[w] == x
  }

  /** A worker at the wait, or before stop at the loop test. */
  predicate Bound(s: Pool, w: nat)
    requires w < |s.workers|
  {
    s.workers[w].Locking? || s.workers[w].Woken? || (s.workers[w].Top? && !s.stop)
  }

  lemma OwnStep(s: Pool, l: Label, w: nat)
    requires |s.workers| == |s.late| && w < |s.workers| && (l == TestStop(w) || l == Acquire(w)) && !Bound(s, w)
    ensures var r := Step(s, l);
            r.Some? ==> !Bound(r.value, w) && (r.value.workers[w] == s.workers[w] || r.value.workers[w].Exited?)
  {}

  lemma {:induction false} OwnStepsIdle(s: Pool, ls: seq<Label>, w: nat)
    requires |s.workers| == |s.late| && w < |s.workers| && OwnSteps(ls, w) && !Bound(s, w)
    ensures var r := Exec(s, ls);
            r.Some? ==> !Bound(r.value, w) && (r.value.workers[w] == s.workers[w] || r.value.workers[w].Exited?)
    decreases |ls|
  {
    if ls != [] {
      var before := ls[..|ls| - 1];
      assert forall l :: l in before ==> l in ls;
      assert ls[|ls| - 1] in ls;
      OwnStepsIdle(s, before, w);
      var r := Exec(s, before);
      hide Step, Bound;
      if r.Some? { OwnStep(r.value, ls[|ls| - 1], w); }
    }
  }

  lemma TakesFront(s: Pool, w: nat)
    requires Inv(s) && s.lock.None? && s.queue != [] && w < |s.workers| && Bound(s, w)
    ensures |s.workers| == |s.late|
    ensures exists ls :: OwnSteps(ls, w) && EndsWith(s, ls, w, Running(s.queue[0]))
  {
    hide TasksOk, WakeupsOk;
    NoSteps(s);
    var ls, t := [], s;
    if s.workers[w].Top? {
      t := Step(s, TestStop(w)).value;
      ls := Next(s, ls, TestStop(w), s, t);
    }
    var u := Step(t, Acquire(w)).value;
    ls := Next(s, ls, Acquire(w), t, u);
    assert OwnSteps(ls, w) && EndsWith(s, ls, w, Running(s.queue[0]));
  }

  /**
   With the mutex free and a task queued, a worker comes by its own steps to hold the front task if and
   only if it is at the wait, or at the loop test before stop. After stop a queued task is still taken
   by a worker at the wait: it returns only if the queue is empty.
   */
  lemma TakesFrontIff(s: Pool, w: nat)
    requires Inv(s) && s.lock.None? && s.queue != [] && w < |s.workers|
    ensures |s.workers| == |s.late|
    ensures (exists ls :: OwnSteps(ls, w) && EndsWith(s, ls, w, Running(s.queue[0])))
            <==> s.workers[w].Locking? || s.workers[w].Woken? || (s.workers[w].Top? && !s.stop)
  {
    if Bound(s, w) {
      TakesFront(s, w);
    } else {
      FrontNotHeld(s, w);
      forall ls | OwnSteps(ls, w)
        ensures !EndsWith(s, ls, w, Running(s.queue[0]))
      {
        OwnStepsIdle(s, ls, w);
      }
    }
  }

  lemma FrontNotHeld(s: Pool, w: nat)
    requires Inv(s) && s.queue != [] && w < |s.workers|
    ensures s.workers[w] != Running(s.queue[0])
  {}

  /** A worker with the mutex leaves if and only if stop is set and nothing is queued, and dozes if neither. */
  lemma AcquireOutcome(s: Pool, w: nat)
    requires |s.workers| == |s.late| && s.lock.None? && w < |s.workers|
        && (s.workers[w].Locking? || s.workers[w].Woken?)
    ensures var r := Step(s, Acquire(w));
            && r.Some? && (r.value.workers[w].Exited? <==> s.stop && s.queue == [])
            && (r.value.workers[w].Dozing? <==> !s.stop && s.queue == [])
            && (r.value.workers[w].Running? <==> s.queue != [])
            && (s.queue != [] ==> r.value.workers[w].task == s.queue[0] && r.value.queue == s.queue[1..])
  {}

  // ---- After stop ---------------------------------------------------------------------------------

  /** A worker that has passed the loop test and not yet taken a task. */
  predicate AtWait(x: Worker) { x.Asleep? || x.Woken? || x.Locking? || x.Dozing? }

  predicate TakesMore(s: Pool, ls: seq<Label>, w: nat)
    requires |s.workers| == |s.late| && w < |s.workers|
  {
    var r := Exec(s, ls);
    r.Some? && r.value.late[w] > s.late[w]
  }

  lemma {:induction false} NoMoreTaken(s: Pool, ls: seq<Label>, w: nat)
    requires |s.workers| == |s.late| && w < |s.workers| && s.stop && !AtWait(s.workers[w])
    ensures var r := Exec(s, ls);
            r.Some? ==> r.value.stop && !AtWait(r.value.workers[w]) && r.value.late[w] == s.late[w]
    decreases |ls|
  {
    if ls != [] {
      var before := ls[..|ls| - 1];
      NoMoreTaken(s, before, w);
      var r := Exec(s, before);
      hide Step, AtWait;
      if r.Some? { StepTakesNone(r.value, ls[|ls| - 1], w); }
    }
  }

  lemma StepTakesNone(s: Pool, l: Label, w: nat)
    requires |s.workers| == |s.late| && w < |s.workers| && s.stop && !AtWait(s.workers[w])
    ensures var r := Step(s, l);
            r.Some? ==> r.value.stop && !AtWait(r.value.workers[w]) && r.value.late[w] == s.late[w]
  {
    hide AnyAsleep;
  }

  ghost predicate Reaches(s: Pool, t: Pool)
    requires |s.workers| == |s.late|
  {
    exists ls :: Exec(s, ls) == Some(t)
  }

  lemma ReachesNext(s: Pool, t: Pool, l: Label) returns (u: Pool)
    requires |s.workers| == |s.late| && Reaches(s, t) && Inv(t) && |t.workers| == |t.late| && Step(t, l).Some?
    ensures u == Step(t, l).value && Reaches(s, u) && Inv(u) && |u.workers| == |u.late|
  {
    StepInv(t, l);
    u := Step(t, l).value;
    hide Step, Inv;
    var ls :| Exec(s, ls) == Some(t);
    Extend(s, ls, l);
    assert Exec(s, ls + [l]) == Some(u);
  }

  lemma Releases(s: Pool, w: nat) returns (u: Pool)
    requires Inv(s) && s.stop && w < |s.workers| && AtWait(s.workers[w])
    ensures |s.workers| == |s.late| == |u.workers| == |u.late| && Reaches(s, u) && Inv(u)
    ensures u.stop && u.lock.None? && u.queue == s.queue && u.late == s.late
    ensures u.workers[w].Locking? || u.workers[w].Woken?
  {
    InvMeans(s);
    NoSteps(s);
    u := s;
    if s.lock.Some? {
      u := ReachesNext(s, u, Block(s.lock.value));
    }
    if u.workers[w].Asleep? {
      u := ReachesNext(s, u, Spurious(w));
    }
  }

  lemma WaiterTakes(s: Pool, w: nat)
    requires Inv(s) && s.stop && w < |s.workers| && AtWait(s.workers[w])
    ensures |s.workers| == |s.late| && exists ls :: TakesMore(s, ls, w)
  {
    var t := Releases(s, w);
    hide Inv, Reaches;
    if t.queue == [] {
      t := ReachesNext(s, t, Push);
    }
    var u := ReachesNext(s, t, Acquire(w));
    assert u.late[w] > s.late[w];
    assert exists ls :: Exec(s, ls) == Some(u) by { RunOf(s, u); }
    var ls :| Exec(s, ls) == Some(u);
    hide Exec;
    assert TakesMore(s, ls, w);
  }

  lemma RunOf(s: Pool, t: Pool)
    requires |s.workers| == |s.late| && Reaches(s, t)
    ensures exists ls :: Exec(s, ls) == Some(t)
  {}

  /** Once stop is set a worker can take a further task if and only if it is past the loop test. */
  lemma TakesMoreIff(s: Pool, w: nat)
    requires Inv(s) && s.stop && w < |s.workers|
    ensures |s.workers| == |s.late|
    ensures (exists ls :: TakesMore(s, ls, w)) <==> AtWait(s.workers[w])
  {
    if AtWait(s.workers[w]) {
      WaiterTakes(s, w);
    } else {
      forall ls
        ensures !TakesMore(s, ls, w)
      {
        NoMoreTaken(s, ls, w);
      }
    }
  }

  /** Every worker of every pool can come to take its one task after stop. */
  lemma OneTaken(threads: nat, w: nat)
    requires w < threads
    ensures exists ls :: var r := Exec(Init(threads), ls); r.Some? && r.value.stop && r.value.late[w] == 1
  {
    var s := Init(threads);
    InitInv(threads);
    NoSteps(s);
    hide Inv;
    var t := s;
    assert Reaches(s, s) by { assert Exec(s, []) == Some(s); }
    hide Reaches, Exec;
    t := ReachesNext(s, t, Push);
    t := ReachesNext(s, t, TestStop(w));
    t := ReachesNext(s, t, SetStop);
    t := ReachesNext(s, t, Acquire(w));
    RunOf(s, t);
  }
}
