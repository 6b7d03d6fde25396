/**
 The ring queue of tasks under concurrency: one producer and any number of consumers that claim the
 head by compare-and-swap. Every access to shared memory is one step.
 */
module TaskRing {
  import opened Options
  import opened TaskQueue

  /** Between two steps of enqueue_task. */
  datatype Producer = Ready | Started(id: int) | HasRoom(id: int) | Stored(id: int)

  /**
   Between two steps of try_dequeue_task. The thread holds `head`; `seen`, `position` and `reused` are
   history: the heads advanced when it read the head, the position it claimed, and whether the
   producer had written the slot again by the time the id was read.
   */
  datatype Consumer =
    | Waiting
    | HeadRead(head: nat, seen: nat)
    | NotEmpty(head: nat, seen: nat)
    | Claimed(head: nat, position: nat)
    | Returned(position: nat, id: int, reused: bool)

  /** `log` lists the ids published, `claims` the consumers that advanced the head, both in order. */
  datatype State = State(slots: seq<int>, head: nat, tail: nat, producer: Producer,
                         consumers: seq<Consumer>, log: seq<int>, claims: seq<nat>)

  datatype Label =
    | Enqueue(id: int) | CheckRoom | Store | Publish
    | ReadHead(c: nat) | ReadTail(c: nat) | Swap(c: nat) | ReadId(c: nat) | Finish(c: nat)

  function Init(consumers: nat): (s: State)
    ensures WellTyped(s)
  {
    State(seq(QUEUE_SIZE, i => -1), 0, 0, Ready, seq(consumers, i => Waiting), [], [])
  }

  /** The producer has written position p + QUEUE_SIZE into the slot of position p. */
  predicate Reused(s: State, p: nat) {
    p + QUEUE_SIZE < |s.log| || (p + QUEUE_SIZE == |s.log| && s.producer.Stored?)
  }

  predicate WellTyped(s: State) {
    |s.slots| == QUEUE_SIZE && s.head < QUEUE_SIZE && s.tail < QUEUE_SIZE
    && forall c :: 0 <= c < |s.consumers| ==> HoldsIndex(s.consumers[c])
  }

  predicate HoldsIndex(c: Consumer) {
    c.HeadRead? || c.NotEmpty? || c.Claimed? ==> c.head < QUEUE_SIZE
  }

  function StepProducer(s: State, l: Label): (r: Option<State>)
    requires WellTyped(s)
    ensures r.Some? ==> WellTyped(r.value)
  {
    match (l, s.producer)
    case (Enqueue(id), Ready) => Some(s.(producer := Started(id)))
    case (CheckRoom, Started(id)) =>
      Some(s.(producer := if Next(s.tail) == s.head then Ready else HasRoom(id)))
    case (Store, HasRoom(id)) => Some(s.(slots := s.slots[s.tail := id], producer := Stored(id)))
    case (Publish, Stored(id)) => Some(s.(tail := Next(s.tail), log := s.log + [id], producer := Ready))
    case _ => None
  }

  function StepConsumer(s: State, l: Label, c: nat): (r: Option<State>)
    requires WellTyped(s) && c < |s.consumers|
    ensures r.Some? ==> WellTyped(r.value)
  {
    match (l, s.consumers[c])
    case (ReadHead(_), Waiting) => Some(s.(consumers := s.consumers[c := HeadRead(s.head, |s.claims|)]))
    case (ReadTail(_), HeadRead(h, seen)) =>
      Some(s.(consumers := s.consumers[c := if h == s.tail then Waiting else NotEmpty(h, seen)]))
    case (Swap(_), NotEmpty(h, seen)) =>
      if s.head == h
      then Some(s.(head := Next(h), claims := s.claims + [c], consumers := s.consumers[c := Claimed(h, |s.claims|)]))
      else Some(s.(consumers := s.consumers[c := Waiting]))
    case (ReadId(_), Claimed(h, p)) =>
      Some(s.(consumers := s.consumers[c := Returned(p, s.slots[h], Reused(s, p))]))
    case (Finish(_), Returned(_, _, _)) => Some(s.(consumers := s.consumers[c := Waiting]))
    case _ => None
  }

  function Step(s: State, l: Label): (r: Option<State>)
    requires WellTyped(s)
    ensures r.Some? ==> WellTyped(r.value)
  {
    if l.Enqueue? || l.CheckRoom? || l.Store? || l.Publish? then StepProducer(s, l)
    else if l.c < |s.consumers| then StepConsumer(s, l, l.c)
    else None
  }

  /** A swap is timely if fewer than `bound` heads were advanced since its thread read the head. */
  predicate Timely(s: State, l: Label, bound: nat) {
    l.Swap? && l.c < |s.consumers| && s.consumers[l.c].NotEmpty? ==> |s.claims| < s.consumers[l.c].seen + bound
  }

  /** A run in which every swap is timely; None if a label is not enabled or a swap is late. */
  function Exec(s: State, ls: seq<Label>, bound: nat): (r: Option<State>)
    requires WellTyped(s)
    ensures r.Some? ==> WellTyped(r.value)
    decreases |ls|
  {
    if ls == [] then Some(s)
    else
      match Exec(s, ls[..|ls| - 1], bound)
      case Some(t) => if Timely(t, ls[|ls| - 1], bound) then Step(t, ls[|ls| - 1]) else None
      case None => None
  }

  // ---- What every step keeps --------------------------------------------------------------------

  /** Position q has this id: it is published, or stored and next to be published. */
  predicate Enqueued(log: seq<int>, producer: Producer, q: nat, id: int) {
    (q < |log| && log[q] == id) || (q == |log| && producer == Stored(id))
  }

  /** The id of some position after p. */
  ghost predicate IdAfter(log: seq<int>, producer: Producer, p: nat, id: int) {
    exists q :: p < q && Enqueued(log, producer, q, id)
  }

  ghost predicate ConsumerOk(s: State, c: nat)
    requires c < |s.consumers|
  {
    match s.consumers[c]
    case Waiting => true
    case HeadRead(h, seen) => h == seen % QUEUE_SIZE && seen <= |s.claims|
    case NotEmpty(h, seen) => h == seen % QUEUE_SIZE && seen <= |s.claims| && seen < |s.log|
    case Claimed(h, p) => h == p % QUEUE_SIZE && p < |s.claims| && s.claims[p] == c
    case Returned(p, id, reused) =>
      p < |s.claims| <= |s.log| && s.claims[p] == c
      && if reused then IdAfter(s.log, s.producer, p, id) else id == s.log[p]
  }

  /** The slot of position p still holds what was enqueued there. */
  predicate Intact(s: State, p: nat)
    requires p < |s.log| && |s.slots| == QUEUE_SIZE
  {
    s.slots[p % QUEUE_SIZE] == s.log[p]
  }

  ghost predicate Inv(s: State) {
    && WellTyped(s)
    && s.head == |s.claims| % QUEUE_SIZE && s.tail == |s.log| % QUEUE_SIZE
    && |s.claims| <= |s.log| < |s.claims| + QUEUE_SIZE
    && (s.producer.HasRoom? || s.producer.Stored? ==> |s.log| + 1 < |s.claims| + QUEUE_SIZE)
    && (s.producer.Stored? ==> s.slots[s.tail] == s.producer.id)
    && (forall p :: 0 <= p < |s.log| && !Reused(s, p) ==> Intact(s, p))
    && (forall c :: 0 <= c < |s.consumers| ==> ConsumerOk(s, c))
  }

  lemma InitInv(consumers: nat)
    ensures Inv(Init(consumers))
  {}

  lemma ProducerInv(s: State, l: Label)
    requires Inv(s)
    ensures var r := StepProducer(s, l); r.Some? ==> Inv(r.value)
  {
    match (l, s.producer)
    case (Enqueue(id), Ready) => PrepareInv(s, Started(id));
    case (CheckRoom, Started(id)) => PrepareInv(s, if Next(s.tail) == s.head then Ready else HasRoom(id));
    case (Store, HasRoom(id)) => StoreInv(s);
    case (Publish, Stored(id)) => PublishInv(s);
    case _ =>
  }

  /** The producer goes on: what it has stored stays stored until it is published. */
  predicate Continues(s: State, t: State) {
    s.log <= t.log && (s.producer.Stored? ==> t.producer == s.producer || t.log == s.log + [s.producer.id])
  }

  lemma IdAfterKept(s: State, t: State, p: nat, id: int)
    requires Continues(s, t) && (t.log == s.log || !t.producer.Stored?) && IdAfter(s.log, s.producer, p, id)
    requires t.producer == s.producer ==> t.log == s.log
    ensures IdAfter(t.log, t.producer, p, id)
  {
    var q :| p < q && Enqueued(s.log, s.producer, q, id);
    assert Enqueued(t.log, t.producer, q, id);
  }

  lemma SameConsumers(s: State, t: State)
    requires Inv(s) && t.consumers == s.consumers && t.claims == s.claims && Continues(s, t)
    requires (t.log == s.log || !t.producer.Stored?) && (t.producer == s.producer ==> t.log == s.log)
    ensures forall c :: 0 <= c < |t.consumers| ==> ConsumerOk(t, c)
  {
    forall c | 0 <= c < |t.consumers|
      ensures ConsumerOk(t, c)
    {
      assert ConsumerOk(s, c);
      hide IdAfter, Reused, Intact;
      var x := s.consumers[c];
      if x.Returned? && x.reused { IdAfterKept(s, t, x.position, x.id); }
    }
  }

  lemma PrepareInv(s: State, x: Producer)
    requires Inv(s) && !s.producer.Stored? && !x.Stored?
    requires x.HasRoom? ==> Next(s.tail) != s.head
    ensures Inv(s.(producer := x))
  {
    var t := s.(producer := x);
    SameConsumers(s, t);
    hide ConsumerOk;
    forall p | 0 <= p < |t.log| && !Reused(t, p)
      ensures Intact(t, p)
    {
      assert !Reused(s, p) && Intact(s, p);
    }
  }

  lemma StoreInv(s: State)
    requires Inv(s) && s.producer.HasRoom?
    ensures Inv(s.(slots := s.slots[s.tail := s.producer.id], producer := Stored(s.producer.id)))
  {
    var t := s.(slots := s.slots[s.tail := s.producer.id], producer := Stored(s.producer.id));
    SameConsumers(s, t);
    hide ConsumerOk;
    forall p | 0 <= p < |t.log| && !Reused(t, p)
      ensures Intact(t, p)
    {
      assert !Reused(s, p) && Intact(s, p);
      assert p % QUEUE_SIZE != s.tail;
    }
  }

  lemma NextIndex(k: nat)
    ensures Next(k % QUEUE_SIZE) == (k + 1) % QUEUE_SIZE
  {}

  lemma PublishInv(s: State)
    requires Inv(s) && s.producer.Stored?
    ensures Inv(s.(tail := Next(s.tail), log := s.log + [s.producer.id], producer := Ready))
  {
    var t := s.(tail := Next(s.tail), log := s.log + [s.producer.id], producer := Ready);
    SameConsumers(s, t);
    NextIndex(|s.log|);
    hide ConsumerOk, Next;
    forall p | 0 <= p < |t.log| && !Reused(t, p)
      ensures Intact(t, p)
    {
      if p < |s.log| { assert !Reused(s, p) && Intact(s, p); }
    }
  }

  lemma ConsumerInv(s: State, l: Label, c: nat)
    requires Inv(s) && c < |s.consumers|
    requires l.Swap? && s.consumers[c].NotEmpty? ==> |s.claims| < s.consumers[c].seen + QUEUE_SIZE
    ensures var r := StepConsumer(s, l, c); r.Some? ==> Inv(r.value)
  {
    assert ConsumerOk(s, c);
    match (l, s.consumers[c])
    case (ReadHead(_), Waiting) => MoveInv(s, c, HeadRead(s.head, |s.claims|));
    case (ReadTail(_), HeadRead(h, seen)) => MoveInv(s, c, if h == s.tail then Waiting else NotEmpty(h, seen));
    case (Swap(_), NotEmpty(h, seen)) => if s.head == h { ClaimInv(s, c); } else { MoveInv(s, c, Waiting); }
    case (ReadId(_), Claimed(h, p)) =>
      assert !Reused(s, p) ==> Intact(s, p);
      if Reused(s, p) { ReusedSlot(s, p); }
      MoveInv(s, c, Returned(p, s.slots[h], Reused(s, p)));
    case (Finish(_), Returned(_, _, _)) => MoveInv(s, c, Waiting);
    case _ =>
  }

  /** The last position below n with the slot of position p. */
  lemma LastTurn(n: nat, p: nat) returns (q: nat)
    requires p + QUEUE_SIZE < n || (p + QUEUE_SIZE == n && n % QUEUE_SIZE != p % QUEUE_SIZE)
    ensures p < q < n <= q + QUEUE_SIZE && q % QUEUE_SIZE == p % QUEUE_SIZE
  {
    q := n - 1 - (n - 1 - p) % QUEUE_SIZE;
  }

  /** A slot that was written again holds the id of the last position that was its turn. */
  lemma ReusedSlot(s: State, p: nat)
    requires Inv(s) && p < |s.log| && Reused(s, p)
    ensures IdAfter(s.log, s.producer, p, s.slots[p % QUEUE_SIZE])
  {
    var n := |s.log|;
    if s.producer.Stored? && n % QUEUE_SIZE == p % QUEUE_SIZE {
      assert Enqueued(s.log, s.producer, n, s.slots[p % QUEUE_SIZE]);
    } else {
      var q := LastTurn(n, p);
      assert !Reused(s, q) && Intact(s, q);
      assert Enqueued(s.log, s.producer, q, s.slots[p % QUEUE_SIZE]);
    }
  }

  /** A step that changes one consumer only. */
  lemma MoveInv(s: State, c: nat, x: Consumer)
    requires Inv(s) && c < |s.consumers| && HoldsIndex(x)
    requires ConsumerOk(s.(consumers := s.consumers[c := x]), c)
    ensures Inv(s.(consumers := s.consumers[c := x]))
  {
    var t := s.(consumers := s.consumers[c := x]);
    forall d | 0 <= d < |t.consumers|
      ensures ConsumerOk(t, d)
    {
      if d != c { assert ConsumerOk(s, d); }
    }
    forall p | 0 <= p < |t.log| && !Reused(t, p)
      ensures Intact(t, p)
    {
      assert !Reused(s, p) && Intact(s, p);
    }
  }

  /** A timely successful swap: the head index alone tells that no head was advanced in between. */
  lemma ClaimInv(s: State, c: nat)
    requires Inv(s) && c < |s.consumers| && s.consumers[c].NotEmpty? && s.head == s.consumers[c].head
    requires |s.claims| < s.consumers[c].seen + QUEUE_SIZE
    ensures var h := s.consumers[c].head;
            Inv(s.(head := Next(h), claims := s.claims + [c], consumers := s.consumers[c := Claimed(h, |s.claims|)]))
  {
    var h := s.consumers[c].head;
    var t := s.(head := Next(h), claims := s.claims + [c], consumers := s.consumers[c := Claimed(h, |s.claims|)]);
    assert ConsumerOk(s, c);
    assert s.consumers[c].seen == |s.claims| < |s.log|;
    NextIndex(|s.claims|);
    hide Next;
    ClaimConsumers(s, t, c);
    hide ConsumerOk;
    forall p | 0 <= p < |t.log| && !Reused(t, p)
      ensures Intact(t, p)
    {
      assert !Reused(s, p) && Intact(s, p);
    }
  }

  lemma ClaimConsumers(s: State, t: State, c: nat)
    requires Inv(s) && c < |s.consumers| && |s.claims| < |s.log|
    requires t.log == s.log && t.producer == s.producer && t.claims == s.claims + [c]
    requires t.consumers == s.consumers[c := Claimed(|s.claims| % QUEUE_SIZE, |s.claims|)]
    ensures forall d :: 0 <= d < |t.consumers| ==> ConsumerOk(t, d)
  {
    forall d | 0 <= d < |t.consumers|
      ensures ConsumerOk(t, d)
    {
      if d != c { assert ConsumerOk(s, d); }
    }
  }

  /** Every state of every run with fewer than QUEUE_SIZE advances between a head read and its swap. */
  lemma {:induction false} RunInv(s: State, ls: seq<Label>)
    requires Inv(s)
    ensures var r := Exec(s, ls, QUEUE_SIZE); r.Some? ==> Inv(r.value)
    decreases |ls|
  {
    if ls != [] {
      var before, l := ls[..|ls| - 1], ls[|ls| - 1];
      RunInv(s, before);
      var r := Exec(s, before, QUEUE_SIZE);
      if r.Some? && Timely(r.value, l, QUEUE_SIZE) {
        if l.Enqueue? || l.CheckRoom? || l.Store? || l.Publish? {
          ProducerInv(r.value, l);
        } else if l.c < |r.value.consumers| {
          ConsumerInv(r.value, l, l.c);
        }
      }
    }
  }

  /**
   In every such run the head never passes the tail, each position was claimed by one consumer, and a
   consumer returns the id enqueued at its position unless the producer had written the slot again.
   */
  lemma RunSafe(consumers: nat, ls: seq<Label>)
    ensures var r := Exec(Init(consumers), ls, QUEUE_SIZE);
            r.Some? ==>
              var s := r.value;
              && |s.claims| <= |s.log| < |s.claims| + QUEUE_SIZE
              && (forall c :: 0 <= c < |s.consumers| && s.consumers[c].Returned? ==>
                    var p := s.consumers[c].position;
                    p < |s.claims| && s.claims[p] == c && (!s.consumers[c].reused ==> s.consumers[c].id == s.log[p]))
              && (forall c, d :: 0 <= c < d < |s.consumers| ==> PositionsApart(s.consumers[c], s.consumers[d]))
  {
    InitInv(consumers);
    RunInv(Init(consumers), ls);
    hide Exec, Intact;
    var r := Exec(Init(consumers), ls, QUEUE_SIZE);
    if r.Some? {
      var s := r.value;
      forall c | 0 <= c < |s.consumers| && s.consumers[c].Returned?
        ensures var p := s.consumers[c].position;
                p < |s.claims| && s.claims[p] == c && (!s.consumers[c].reused ==> s.consumers[c].id == s.log[p])
      {
        assert ConsumerOk(s, c);
      }
      forall c, d | 0 <= c < d < |s.consumers|
        ensures PositionsApart(s.consumers[c], s.consumers[d])
      {
        assert ConsumerOk(s, c) && ConsumerOk(s, d);
      }
    }
  }

  /** Two positions share a slot exactly when they are a multiple of QUEUE_SIZE apart. */
  lemma SameSlotIff(p: nat, q: nat)
    requires p <= q
    ensures p % QUEUE_SIZE == q % QUEUE_SIZE <==> (q - p) % QUEUE_SIZE == 0
  {}

  /**
   A thread finds a task if and only if the tail is not a multiple of 256 positions from the head it
   read; so by a head that is still the head, if and only if a task is queued.
   */
  lemma FindsTaskIff(s: State, c: nat)
    requires Inv(s) && c < |s.consumers| && s.consumers[c].HeadRead?
    ensures s.consumers[c].seen <= |s.log|
    ensures var r, seen := Step(s, ReadTail(c)), s.consumers[c].seen;
            && r.Some? && (r.value.consumers[c].NotEmpty? <==> (|s.log| - seen) % 256 != 0)
            && (r.value.consumers[c].Waiting? <==> (|s.log| - seen) % 256 == 0)
            && (seen == |s.claims| ==> (r.value.consumers[c].NotEmpty? <==> |s.claims| < |s.log|))
  {
    assert ConsumerOk(s, c);
    SameSlotIff(s.consumers[c].seen, |s.log|);
    hide Intact, Reused, IdAfter;
  }

  /**
   A swap succeeds if and only if a multiple of 256 heads have been advanced since its thread read the
   head; so a timely one if and only if none has, whatever the producer is doing.
   */
  lemma SwapSucceedsIff(s: State, c: nat)
    requires Inv(s) && c < |s.consumers| && s.consumers[c].NotEmpty?
    ensures s.consumers[c].seen <= |s.claims|
    ensures var r, seen := Step(s, Swap(c)), s.consumers[c].seen;
            && r.Some? && (r.value.consumers[c].Claimed? <==> (|s.claims| - seen) % 256 == 0)
            && (r.value.consumers[c].Waiting? <==> (|s.claims| - seen) % 256 != 0)
            && (r.value.consumers[c].Waiting? ==> r.value.head == s.head && r.value.claims == s.claims)
            && (Timely(s, Swap(c), 256) ==> (r.value.consumers[c].Claimed? <==> |s.claims| == seen))
  {
    assert ConsumerOk(s, c);
    SameSlotIff(s.consumers[c].seen, |s.claims|);
    hide Intact, Reused, IdAfter;
  }

  /** The producer finds room if and only if fewer than 255 tasks are queued. */
  lemma FindsRoomIff(s: State)
    requires Inv(s) && s.producer.Started?
    ensures var r := Step(s, CheckRoom);
            r.Some? && (r.value.producer.HasRoom? <==> |s.log| - |s.claims| < 255)
            && (r.value.producer.Ready? <==> |s.log| - |s.claims| == 255)
  {
    hide Intact, Reused, ConsumerOk;
  }

  /** No id is enqueued twice. */
  ghost predicate DistinctIds(s: State) {
    forall p, q, id :: p < q && Enqueued(s.log, s.producer, p, id) ==> !Enqueued(s.log, s.producer, q, id)
  }

  /** If no id is enqueued twice, the id returned is the one enqueued there exactly when the slot was not reused. */
  lemma RightIffNotReused(consumers: nat, ls: seq<Label>, c: nat)
    ensures var r := Exec(Init(consumers), ls, QUEUE_SIZE);
            r.Some? && c < |r.value.consumers| && r.value.consumers[c].Returned? && DistinctIds(r.value) ==>
              var x := r.value.consumers[c];
              x.position < |r.value.log| && (x.id == r.value.log[x.position] <==> !x.reused)
  {
    InitInv(consumers);
    RunInv(Init(consumers), ls);
    hide Exec, Intact, Reused;
    var r := Exec(Init(consumers), ls, QUEUE_SIZE);
    if r.Some? && c < |r.value.consumers| && r.value.consumers[c].Returned? && DistinctIds(r.value) {
      var s, x := r.value, r.value.consumers[c];
      assert ConsumerOk(s, c);
      assert Enqueued(s.log, s.producer, x.position, s.log[x.position]);
    }
  }

  predicate PositionsApart(a: Consumer, b: Consumer) {
    (a.Claimed? || a.Returned?) && (b.Claimed? || b.Returned?) ==> a.position != b.position
  }

  /** A timely swap that succeeds claims the oldest unclaimed position, and something is enqueued there. */
  lemma SwapClaimsNext(s: State, c: nat)
    requires Inv(s) && c < |s.consumers| && s.consumers[c].NotEmpty? && Timely(s, Swap(c), QUEUE_SIZE)
    ensures var t := Step(s, Swap(c)).value;
            t.consumers[c].Claimed? ==>
              && t.consumers[c].position == |s.claims| < |s.log| && t.claims == s.claims + [c]
              && !Reused(t, |s.claims|) && Intact(t, |s.claims|)
  {
    assert ConsumerOk(s, c);
    if s.head == s.consumers[c].head {
      assert !Reused(s, |s.claims|);
    }
  }
}
