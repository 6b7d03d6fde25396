/** How late a consumer of the task ring may be: the runs in which ids or the head go wrong, and all others. */
module TaskRingLimits {
  import opened Options
  import opened TaskQueue
  import opened TaskRing

  /** A read of the id is prompt if at most `gap` heads were advanced since its thread claimed its position. */
  predicate PromptStep(s: State, l: Label, gap: nat) {
    l.ReadId? && l.c < |s.consumers| && s.consumers[l.c].Claimed? ==> |s.claims| <= s.consumers[l.c].position + 1 + gap
  }

  predicate Prompt(s: State, ls: seq<Label>, bound: nat, gap: nat)
    requires WellTyped(s)
    decreases |ls|
  {
    ls == [] ||
    var before := ls[..|ls| - 1];
    var r := Exec(s, before, bound);
    Prompt(s, before, bound, gap) && (r.Some? ==> PromptStep(r.value, ls[|ls| - 1], gap))
  }

  /** Every id returned is the one enqueued at the position its thread claimed. */
  predicate AllRight(s: State) {
    forall c :: 0 <= c < |s.consumers| && s.consumers[c].Returned? ==>
      s.consumers[c].position < |s.log| && s.consumers[c].id == s.log[s.consumers[c].position]
  }

  // ---- Prompt reads -----------------------------------------------------------------------------

  predicate NoneReused(s: State) {
    forall c :: 0 <= c < |s.consumers| && s.consumers[c].Returned? ==> !s.consumers[c].reused
  }

  /** One slot always stays free: the last position claimed cannot have been written again. */
  lemma LastClaimKept(s: State, p: nat)
    requires Inv(s) && p + 1 == |s.claims|
    ensures !Reused(s, p)
  {}

  lemma PromptKeeps(s: State, l: Label)
    requires Inv(s) && NoneReused(s) && PromptStep(s, l, 0)
    ensures var r := Step(s, l); r.Some? ==> NoneReused(r.value)
  {
    if l.ReadId? && l.c < |s.consumers| && s.consumers[l.c].Claimed? {
      assert ConsumerOk(s, l.c);
      LastClaimKept(s, s.consumers[l.c].position);
    }
    hide Reused, ConsumerOk, Inv;
  }

  lemma {:induction false} PromptRun(consumers: nat, ls: seq<Label>)
    requires Prompt(Init(consumers), ls, QUEUE_SIZE, 0)
    ensures var r := Exec(Init(consumers), ls, QUEUE_SIZE); r.Some? ==> Inv(r.value) && NoneReused(r.value)
    decreases |ls|
  {
    InitInv(consumers);
    RunInv(Init(consumers), ls);
    if ls != [] {
      var before, l := ls[..|ls| - 1], ls[|ls| - 1];
      PromptRun(consumers, before);
      var r := Exec(Init(consumers), before, QUEUE_SIZE);
      hide Inv, Step, NoneReused, PromptStep, WellTyped, Timely;
      if r.Some? { PromptKeeps(r.value, l); }
    }
  }

  lemma RightOnes(s: State)
    requires Inv(s) && NoneReused(s)
    ensures AllRight(s)
  {
    forall c | 0 <= c < |s.consumers| && s.consumers[c].Returned?
      ensures s.consumers[c].position < |s.log| && s.consumers[c].id == s.log[s.consumers[c].position]
    {
      assert ConsumerOk(s, c);
    }
  }

  // ---- One consumer -----------------------------------------------------------------------------

  /** With no other consumer nothing advances the head between a thread's own steps. */
  predicate Lone(s: State) {
    |s.consumers| <= 1 && forall c :: 0 <= c < |s.consumers| ==> UpToDate(s.consumers[c], |s.claims|)
  }

  predicate UpToDate(c: Consumer, claimed: nat) {
    && (c.HeadRead? || c.NotEmpty? ==> c.seen == claimed)
    && (c.Claimed? ==> c.position + 1 == claimed)
  }

  lemma LoneStep(s: State, l: Label)
    requires WellTyped(s) && Lone(s)
    ensures Timely(s, l, 1) && PromptStep(s, l, 0)
    ensures var r := Step(s, l); r.Some? ==> Lone(r.value)
  {}

  /** So with any bound every run is one in which all swaps are timely and all reads prompt. */
  lemma {:induction false} LoneRun(consumers: nat, ls: seq<Label>, bound: nat)
    requires consumers <= 1
    ensures var r := Exec(Init(consumers), ls, bound);
            r.Some? ==> Lone(r.value) && Prompt(Init(consumers), ls, QUEUE_SIZE, 0)
                        && Exec(Init(consumers), ls, QUEUE_SIZE) == r
    decreases |ls|
  {
    if ls != [] {
      var before, l := ls[..|ls| - 1], ls[|ls| - 1];
      LoneRun(consumers, before, bound);
      var r := Exec(Init(consumers), before, bound);
      hide Step, Lone, PromptStep, WellTyped;
      if r.Some? { LoneStep(r.value, l); }
    }
  }

  // ---- Building runs ----------------------------------------------------------------------------

  ghost predicate Reaches(s: State, t: State, bound: nat, gap: nat)
    requires WellTyped(s)
  {
    exists ls :: Exec(s, ls, bound) == Some(t) && Prompt(s, ls, bound, gap)
  }

  lemma ReachesSelf(s: State, bound: nat, gap: nat)
    requires WellTyped(s)
    ensures Reaches(s, s, bound, gap)
  {
    assert Exec(s, [], bound) == Some(s) && Prompt(s, [], bound, gap);
  }

  lemma ReachesStep(s: State, t: State, l: Label, u: State, bound: nat, gap: nat)
    requires WellTyped(s) && Reaches(s, t, bound, gap) && WellTyped(t)
    requires Timely(t, l, bound) && PromptStep(t, l, gap) && Step(t, l) == Some(u)
    ensures Reaches(s, u, bound, gap)
  {
    hide Step, Timely, PromptStep, WellTyped;
    var ls :| Exec(s, ls, bound) == Some(t) && Prompt(s, ls, bound, gap);
    assert (ls + [l])[..|ls|] == ls;
    assert Exec(s, ls + [l], bound) == Some(u) && Prompt(s, ls + [l], bound, gap);
  }

  /** The producer rests; k positions are claimed and n published. */
  ghost predicate Idle(s: State, k: nat, n: nat) {
    && WellTyped(s) && |s.consumers| >= 2 && s.producer == Ready
    && |s.claims| == k && |s.log| == n && s.head == k % QUEUE_SIZE && s.tail == n % QUEUE_SIZE
  }

  lemma PutOne(s: State, t: State, id: int, k: nat, n: nat, bound: nat, gap: nat) returns (u: State)
    requires WellTyped(s) && Reaches(s, t, bound, gap) && Idle(t, k, n) && k <= n && n + 1 < k + QUEUE_SIZE
    ensures Reaches(s, u, bound, gap) && Idle(u, k, n + 1) && u.consumers == t.consumers
    ensures u.log == t.log + [id] && u.slots[n % QUEUE_SIZE] == id
  {
    hide Reaches;
    var t1 := t.(producer := Started(id));
    ReachesStep(s, t, Enqueue(id), t1, bound, gap);
    RoomLeft(k, n);
    var t2 := t1.(producer := HasRoom(id));
    ReachesStep(s, t1, CheckRoom, t2, bound, gap);
    var t3 := t2.(slots := t2.slots[t2.tail := id], producer := Stored(id));
    ReachesStep(s, t2, Store, t3, bound, gap);
    u := t3.(tail := Next(t3.tail), log := t3.log + [id], producer := Ready);
    ReachesStep(s, t3, Publish, u, bound, gap);
  }

  lemma RoomLeft(k: nat, n: nat)
    requires k <= n && n + 1 < k + QUEUE_SIZE
    ensures Next(n % QUEUE_SIZE) == (n + 1) % QUEUE_SIZE != k % QUEUE_SIZE
  {}

  /** A thread reads the head and finds a task. */
  lemma FindTask(s: State, t: State, c: nat, k: nat, n: nat, bound: nat, gap: nat) returns (u: State)
    requires WellTyped(s) && Reaches(s, t, bound, gap) && Idle(t, k, n) && k < n < k + QUEUE_SIZE
    requires c < |t.consumers| && t.consumers[c] == Waiting
    ensures Reaches(s, u, bound, gap) && u == t.(consumers := t.consumers[c := NotEmpty(k % QUEUE_SIZE, k)])
  {
    hide Reaches;
    var t1 := t.(consumers := t.consumers[c := HeadRead(t.head, k)]);
    ReachesStep(s, t, ReadHead(c), t1, bound, gap);
    u := t1.(consumers := t1.consumers[c := NotEmpty(t.head, k)]);
    assert t1.consumers[c] == HeadRead(t.head, k) && t.head != t.tail;
    ReachesStep(s, t1, ReadTail(c), u, bound, gap);
    assert u.consumers == t.consumers[c := NotEmpty(t.head, k)];
  }

  lemma ClaimOne(s: State, t: State, c: nat, k: nat, n: nat, bound: nat, gap: nat) returns (u: State)
    requires WellTyped(s) && Reaches(s, t, bound, gap) && Idle(t, k, n) && k < n < k + QUEUE_SIZE && bound > 0
    requires c < |t.consumers| && t.consumers[c] == Waiting
    ensures Reaches(s, u, bound, gap) && Idle(u, k + 1, n) && u.log == t.log && u.slots == t.slots
    ensures u.consumers == t.consumers[c := Claimed(k % QUEUE_SIZE, k)]
  {
    hide Reaches;
    var t1 := FindTask(s, t, c, k, n, bound, gap);
    var h := k % QUEUE_SIZE;
    u := t1.(head := Next(h), claims := t1.claims + [c], consumers := t1.consumers[c := Claimed(h, k)]);
    ReachesStep(s, t1, Swap(c), u, bound, gap);
    assert u.consumers == t.consumers[c := Claimed(h, k)];
  }

  /** One task passes through the ring and consumer 1. */
  lemma PassOne(s: State, t: State, k: nat, n: nat, bound: nat, gap: nat) returns (u: State)
    requires WellTyped(s) && Reaches(s, t, bound, gap) && Idle(t, k, n) && k < n < k + QUEUE_SIZE && bound > 0
    requires t.consumers[1] == Waiting
    ensures Reaches(s, u, bound, gap) && Idle(u, k + 1, n) && u.consumers == t.consumers && u.log == t.log
  {
    hide Reaches;
    var t1 := ClaimOne(s, t, 1, k, n, bound, gap);
    var t2 := Step(t1, ReadId(1)).value;
    ReachesStep(s, t1, ReadId(1), t2, bound, gap);
    u := t2.(consumers := t2.consumers[1 := Waiting]);
    ReachesStep(s, t2, Finish(1), u, bound, gap);
    assert u.consumers == t.consumers;
  }

  /** From an empty ring on, tasks pass through consumer 1 while the others stand still. */
  lemma {:induction false} PassTasks(s: State, t: State, k: nat, n: nat, bound: nat, gap: nat) returns (u: State)
    requires WellTyped(s) && Reaches(s, t, bound, gap) && Idle(t, k, k) && k <= n && bound > 0
    requires t.consumers[1] == Waiting
    ensures Reaches(s, u, bound, gap) && Idle(u, n, n) && u.consumers == t.consumers
    decreases n - k
  {
    if k == n {
      u := t;
    } else {
      hide Reaches;
      var t1 := PutOne(s, t, 0, k, k, bound, gap);
      var t2 := PassOne(s, t1, k, k + 1, bound, gap);
      u := PassTasks(s, t2, k + 1, n, bound, gap);
    }
  }

  lemma {:induction false} PutMany(s: State, t: State, n: nat, bound: nat, gap: nat) returns (u: State)
    requires WellTyped(s) && Reaches(s, t, bound, gap) && Idle(t, 0, 0) && n < QUEUE_SIZE
    ensures Reaches(s, u, bound, gap) && Idle(u, 0, n) && u.consumers == t.consumers
    ensures forall p :: 0 <= p < n ==> u.log[p] == 0
    decreases n
  {
    if n == 0 {
      u := t;
    } else {
      hide Reaches;
      var t1 := PutMany(s, t, n - 1, bound, gap);
      u := PutOne(s, t1, 0, 0, n - 1, bound, gap);
    }
  }

  lemma StartIdle(consumers: nat)
    requires consumers >= 2
    ensures var s := Init(consumers);
            Idle(s, 0, 0) && forall c :: 0 <= c < consumers ==> s.consumers[c] == Waiting
  {}

  // ---- Late swaps -------------------------------------------------------------------------------

  /** Consumer 0 has found the first task, and k tasks have since been taken by consumer 1. */
  lemma StaleAfter(k: nat, bound: nat) returns (u: State)
    requires k > 0 && bound > 0
    ensures Reaches(Init(2), u, bound, 0) && Idle(u, k, k) && u.consumers[0] == NotEmpty(0, 0)
  {
    hide Reaches;
    var s := Init(2);
    StartIdle(2);
    ReachesSelf(s, bound, 0);
    var t := PutOne(s, s, 0, 0, 0, bound, 0);
    var t1 := FindTask(s, t, 0, 0, 1, bound, 0);
    var t2 := PassOne(s, t1, 0, 1, bound, 0);
    u := PassTasks(s, t2, 1, k, bound, 0);
  }

  /**
   After QUEUE_SIZE advances the head index is back where consumer 0 read it: its swap succeeds on an
   empty ring, and it returns an id from a position at which nothing has been enqueued.
   */
  lemma LateSwap(bound: nat)
    requires bound > QUEUE_SIZE
    ensures exists ls :: Prompt(Init(2), ls, bound, 0) && var r := Exec(Init(2), ls, bound);
              r.Some? && |r.value.claims| > |r.value.log| && !AllRight(r.value)
  {
    var s := Init(2);
    var t := StaleAfter(QUEUE_SIZE, bound);
    hide Reaches;
    var t1 := Step(t, Swap(0)).value;
    ReachesStep(s, t, Swap(0), t1, bound, 0);
    var u := Step(t1, ReadId(0)).value;
    ReachesStep(s, t1, ReadId(0), u, bound, 0);
    assert |u.claims| == QUEUE_SIZE + 1 && |u.log| == QUEUE_SIZE;
    assert u.consumers[0].Returned? && u.consumers[0].position == QUEUE_SIZE;
    assert exists ls :: Exec(s, ls, bound) == Some(u) && Prompt(s, ls, bound, 0) by { RunOf(s, u, bound, 0); }
  }

  lemma RunOf(s: State, t: State, bound: nat, gap: nat)
    requires WellTyped(s) && Reaches(s, t, bound, gap)
    ensures exists ls :: Exec(s, ls, bound) == Some(t) && Prompt(s, ls, bound, gap)
  {}

  /**
   The head stays behind the tail in all runs, for any number of consumers, if and only if fewer than
   QUEUE_SIZE + 1 advances may lie between a head read and its swap: one more lets a stale swap succeed.
   */
  lemma HeadBehindTailIff(bound: nat)
    ensures (forall consumers, ls: seq<Label> ::
               var r := Exec(Init(consumers), ls, bound); r.Some? ==> |r.value.claims| <= |r.value.log|)
            <==> bound <= QUEUE_SIZE
  {
    if bound <= QUEUE_SIZE {
      forall consumers, ls: seq<Label>
        ensures var r := Exec(Init(consumers), ls, bound); r.Some? ==> |r.value.claims| <= |r.value.log|
      {
        SmallerBound(Init(consumers), ls, bound, QUEUE_SIZE);
        RunSafe(consumers, ls);
      }
    } else {
      LateSwap(bound);
    }
  }

  lemma {:induction false} SmallerBound(s: State, ls: seq<Label>, bound: nat, larger: nat)
    requires WellTyped(s) && bound <= larger
    ensures Exec(s, ls, bound).Some? ==> Exec(s, ls, larger) == Exec(s, ls, bound)
    decreases |ls|
  {
    if ls != [] { SmallerBound(s, ls[..|ls| - 1], bound, larger); }
  }

  // ---- Late reads -------------------------------------------------------------------------------

  /**
   The id is read after the swap, and one more advance in between is enough: with 255 tasks queued
   consumer 0 claims position 0, consumer 1 claims position 1, the producer fills the two free slots,
   and consumer 0 returns the id of position 256.
   */
  lemma ReusedSlotMisread(consumers: nat, bound: nat)
    requires consumers >= 2 && bound > 0
    ensures exists ls :: Prompt(Init(consumers), ls, bound, 1) && var r := Exec(Init(consumers), ls, bound);
              r.Some? && |r.value.log| == QUEUE_SIZE + 1 && r.value.log[0] == 0 && r.value.log[QUEUE_SIZE] == 1
              && |r.value.consumers| == consumers && r.value.consumers[0] == Returned(0, 1, true)
  {
    var s := Init(consumers);
    var t := BeforeMisread(consumers, bound);
    hide Reaches;
    var u := Step(t, ReadId(0)).value;
    ReachesStep(s, t, ReadId(0), u, bound, 1);
    assert u.consumers[0] == Returned(0, 1, true) && u.log[0] == 0 && u.log[QUEUE_SIZE] == 1;
    RunOf(s, u, bound, 1);
  }

  lemma BeforeMisread(consumers: nat, bound: nat) returns (t4: State)
    requires consumers >= 2 && bound > 0
    ensures Reaches(Init(consumers), t4, bound, 1) && Idle(t4, 2, QUEUE_SIZE + 1) && |t4.consumers| == consumers
    ensures t4.consumers[0] == Claimed(0, 0) && t4.slots[0] == 1 && t4.log[0] == 0 && t4.log[QUEUE_SIZE] == 1
  {
    var s := Init(consumers);
    StartIdle(consumers);
    ReachesSelf(s, bound, 1);
    hide Reaches, WellTyped;
    var t := PutMany(s, s, QUEUE_SIZE - 1, bound, 1);
    var t1 := ClaimOne(s, t, 0, 0, QUEUE_SIZE - 1, bound, 1);
    var t2 := PutOne(s, t1, 0, 1, QUEUE_SIZE - 1, bound, 1);
    var t3 := ClaimOne(s, t2, 1, 1, QUEUE_SIZE, bound, 1);
    t4 := PutOne(s, t3, 1, 2, QUEUE_SIZE, bound, 1);
  }

  /** A run within the limits after which some consumer has returned a wrong id. */
  ghost predicate WrongRun(consumers: nat, ls: seq<Label>, bound: nat, gap: nat) {
    Prompt(Init(consumers), ls, bound, gap) && var r := Exec(Init(consumers), ls, bound); r.Some? && !AllRight(r.value)
  }

  lemma MisreadIsWrong(consumers: nat, bound: nat)
    requires consumers >= 2 && bound > 0
    ensures exists ls :: WrongRun(consumers, ls, bound, 1)
  {
    ReusedSlotMisread(consumers, bound);
    var ls :| Prompt(Init(consumers), ls, bound, 1) && var r := Exec(Init(consumers), ls, bound);
              r.Some? && |r.value.log| == QUEUE_SIZE + 1 && r.value.log[0] == 0 && r.value.log[QUEUE_SIZE] == 1
              && |r.value.consumers| == consumers && r.value.consumers[0] == Returned(0, 1, true);
    hide Exec, Prompt, Init, WellTyped;
    assert WrongRun(consumers, ls, bound, 1);
  }

  /**
   Every consumer returns the id enqueued at the position it claimed, in all runs and whatever the
   bound on swaps, if and only if there is at most one consumer.
   */
  lemma AlwaysRightIffLone(consumers: nat, bound: nat)
    requires bound > 0
    ensures (forall ls :: var r := Exec(Init(consumers), ls, bound); r.Some? ==> AllRight(r.value))
            <==> consumers <= 1
  {
    hide AllRight;
    if consumers <= 1 {
      forall ls
        ensures var r := Exec(Init(consumers), ls, bound); r.Some? ==> AllRight(r.value)
      {
        LoneRun(consumers, ls, bound);
        var r := Exec(Init(consumers), ls, bound);
        if r.Some? {
          PromptRun(consumers, ls);
          RightOnes(r.value);
        }
      }
    } else {
      MisreadIsWrong(consumers, bound);
      hide Exec, Prompt;
      var ls :| WrongRun(consumers, ls, bound, 1);
      assert !AllRight(Exec(Init(consumers), ls, bound).value);
    }
  }

  /** A run within some limits is one within wider limits. */
  lemma {:induction false} WiderLimits(s: State, ls: seq<Label>, bound: nat, larger: nat, gap: nat, wider: nat)
    requires WellTyped(s) && bound <= larger && gap <= wider
    requires Prompt(s, ls, bound, gap) && Exec(s, ls, bound).Some?
    ensures Prompt(s, ls, larger, wider) && Exec(s, ls, larger) == Exec(s, ls, bound)
    decreases |ls|
  {
    SmallerBound(s, ls, bound, larger);
    if ls != [] { WiderLimits(s, ls[..|ls| - 1], bound, larger, gap, wider); }
  }

  /**
   For any number of consumers: the ids are right in all runs in which fewer than `bound` advances lie
   between a head read and its swap, and at most `gap` between that swap and the id read, if and only
   if `bound` is at most QUEUE_SIZE and `gap` is 0.
   */
  lemma AlwaysRightIff(bound: nat, gap: nat)
    requires bound > 0
    ensures (forall consumers, ls :: !WrongRun(consumers, ls, bound, gap)) <==> bound <= QUEUE_SIZE && gap == 0
  {
    hide Exec, Prompt, AllRight, WrongRun;
    if bound <= QUEUE_SIZE && gap == 0 {
      forall consumers, ls
        ensures !WrongRun(consumers, ls, bound, gap)
      {
        WithinLimits(consumers, ls, bound);
      }
    } else if bound > QUEUE_SIZE {
      LateIsWrong(bound);
      var ls :| WrongRun(2, ls, bound, 0);
      WiderWrong(ls, bound, 0, gap);
    } else {
      MisreadIsWrong(2, bound);
      var ls :| WrongRun(2, ls, bound, 1);
      WiderWrong(ls, bound, 1, gap);
    }
  }

  lemma WithinLimits(consumers: nat, ls: seq<Label>, bound: nat)
    requires bound <= QUEUE_SIZE
    ensures !WrongRun(consumers, ls, bound, 0)
  {
    hide AllRight;
    if WrongRun(consumers, ls, bound, 0) {
      WiderLimits(Init(consumers), ls, bound, QUEUE_SIZE, 0, 0);
      PromptRun(consumers, ls);
      hide Exec, Prompt;
      RightOnes(Exec(Init(consumers), ls, bound).value);
      assert false;
    }
  }

  lemma LateIsWrong(bound: nat)
    requires bound > QUEUE_SIZE
    ensures exists ls :: WrongRun(2, ls, bound, 0)
  {
    LateSwap(bound);
    hide Exec, Prompt, AllRight;
    var ls :| Prompt(Init(2), ls, bound, 0) && var r := Exec(Init(2), ls, bound);
              r.Some? && |r.value.claims| > |r.value.log| && !AllRight(r.value);
    assert WrongRun(2, ls, bound, 0);
  }

  lemma WiderWrong(ls: seq<Label>, bound: nat, gap: nat, wider: nat)
    requires gap <= wider && WrongRun(2, ls, bound, gap)
    ensures WrongRun(2, ls, bound, wider)
  {
    hide AllRight;
    WiderLimits(Init(2), ls, bound, bound, gap, wider);
  }
}
