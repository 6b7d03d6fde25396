/** The single pair of links while no two pages share a bucket: it is exactly the recency list. */
module SharedRecency {
  import opened Options
  import opened Config
  import opened PageFile
  import L = LruSpec
  import opened SharedLinks
  import opened SharedTeardown
  import opened Recency
  import Coherence

  /** The node number at a position, NULL outside. */
  function At(order: seq<int>, i: int): int {
    if 0 <= i < |order| then order[i] else NULL
  }

  ghost predicate Apart(order: seq<int>) {
    forall i, j :: 0 <= i < j < |order| ==> order[i] != order[j]
  }

  ghost predicate InHeap(order: seq<int>, size: nat) {
    forall i :: 0 <= i < |order| ==> 0 <= order[i] < size
  }

  ghost predicate AllIn(order: seq<int>, size: nat) {
    forall n: nat :: n < size ==> n in order
  }

  /** From head to tail the links run through all nodes, each once, and back. */
  ghost predicate Listed(s: Shared, order: seq<int>) {
    && |order| == |s.heap| && InHeap(order, |s.heap|) && Apart(order) && AllIn(order, |s.heap|)
    && s.head == At(order, 0) && s.tail == At(order, |order| - 1)
    && (forall i {:trigger order[i]} :: 0 <= i < |order| ==>
          s.heap[order[i]].next == At(order, i + 1) && s.heap[order[i]].prev == At(order, i - 1))
  }

  lemma EmptyListed()
    ensures Listed(Empty(), [])
  {}

  function Moved(order: seq<int>, k: nat): (r: seq<int>)
    requires k < |order|
    ensures |r| == |order|
    ensures forall i :: 0 <= i < |r| ==> r[i] == order[if i == 0 then k else if i <= k then i - 1 else i]
  {
    [order[k]] + order[..k] + order[k + 1..]
  }

  /** What the assignments of the move do, node by node. */
  lemma MoveLinks(s: Shared, e: nat)
    requires WellFormed(s) && e < |s.heap| && e != s.head && s.head != NULL
    requires s.heap[e].prev != e && s.heap[e].next != e && s.heap[e].next != s.head && s.heap[e].prev != NULL
    ensures var t, p, n := MoveToFront(s, e), s.heap[e].prev, s.heap[e].next;
            && |t.heap| == |s.heap| && t.head == e
              && t.tail == (if e == s.tail then p else if s.tail == NULL then e else s.tail)
            && (forall i :: 0 <= i < |s.heap| ==>
                  t.heap[i].next == if i == e then s.head else if i == p then n else s.heap[i].next)
            && (forall i :: 0 <= i < |s.heap| ==>
                  t.heap[i].prev == if i == e then NULL else if i == s.head then e else if i == n then p
                    else s.heap[i].prev)
  {
    hide Closed;
  }

  lemma ListedAt(s: Shared, order: seq<int>, j: nat)
    requires Listed(s, order) && j < |order|
    ensures 0 <= order[j] < |s.heap| && s.heap[order[j]].prev == At(order, j - 1)
        && s.heap[order[j]].next == At(order, j + 1)
    ensures s.head == order[0] && forall i :: 0 <= i < |order| ==> (order[i] == order[j] <==> i == j)
  {}

  lemma MovedNext(s: Shared, t: Shared, order: seq<int>, k: nat, i: nat)
    requires Listed(s, order) && 0 < k < |order| && i < |order| == |t.heap| == |s.heap|
    requires forall j :: 0 <= j < |s.heap| ==>
               t.heap[j].next == if j == order[k] then s.head else if j == order[k - 1] then At(order, k + 1)
                                 else s.heap[j].next
    ensures 0 <= Moved(order, k)[i] < |t.heap|
    ensures t.heap[Moved(order, k)[i]].next == At(Moved(order, k), i + 1)
  {
    hide Listed, Moved, WellFormed;
    var r := Moved(order, k);
    var j := if i == 0 then k else if i <= k then i - 1 else i;
    ListedAt(s, order, j);
    assert r[i] == order[j];
    if i + 1 < |r| { assert r[i + 1] == order[if i + 1 <= k then i else i + 1]; }
  }

  lemma MovedPrev(s: Shared, t: Shared, order: seq<int>, k: nat, i: nat)
    requires Listed(s, order) && 0 < k < |order| && i < |order| == |t.heap| == |s.heap|
    requires forall j :: 0 <= j < |s.heap| ==>
               t.heap[j].prev == if j == order[k] then NULL else if j == s.head then order[k]
                                 else if j == At(order, k + 1) then order[k - 1] else s.heap[j].prev
    ensures 0 <= Moved(order, k)[i] < |t.heap|
    ensures t.heap[Moved(order, k)[i]].prev == At(Moved(order, k), i - 1)
  {
    hide Listed, Moved, WellFormed;
    var r := Moved(order, k);
    var j := if i == 0 then k else if i <= k then i - 1 else i;
    ListedAt(s, order, j);
    assert r[i] == order[j];
    if i > 0 { assert r[i - 1] == order[if i == 1 then k else if i <= k + 1 then i - 2 else i - 1]; }
  }

  lemma MovedApart(order: seq<int>, k: nat, size: nat)
    requires k < |order| && Apart(order) && InHeap(order, size) && AllIn(order, size)
    ensures Apart(Moved(order, k)) && InHeap(Moved(order, k), size) && AllIn(Moved(order, k), size)
  {
    forall n: nat | n < size
      ensures n in Moved(order, k)
    {
      assert n in order;
      var j :| 0 <= j < |order| && order[j] == n;
      assert Moved(order, k)[if j == k then 0 else if j < k then j + 1 else j] == n;
    }
  }

  lemma ListedIs(s: Shared, order: seq<int>)
    requires |order| == |s.heap| && InHeap(order, |s.heap|) && Apart(order) && AllIn(order, |s.heap|)
    requires s.head == At(order, 0) && s.tail == At(order, |order| - 1)
    requires forall i :: 0 <= i < |order| ==> s.heap[order[i]].next == At(order, i + 1)
    requires forall i :: 0 <= i < |order| ==> s.heap[order[i]].prev == At(order, i - 1)
    ensures Listed(s, order)
  {}

  /** The move to the front of any node of the list. */
  lemma MoveListed(s: Shared, order: seq<int>, k: nat)
    requires WellFormed(s) && Listed(s, order) && k < |order|
    ensures Listed(MoveToFront(s, order[k]), Moved(order, k))
  {
    hide *;
    ListedMeans(s, order);
    ListedAt(s, order, 0);
    ListedAt(s, order, k);
    if k == 0 {
      MoveNothing(s, order[0]);
      assert Moved(order, 0) == order;
    } else {
      var t, r := MoveToFront(s, order[k]), Moved(order, k);
      AtIs(order, k - 1);
      AtIs(order, k + 1);
      MoveLinks(s, order[k]);
      MovedApart(order, k, |s.heap|);
      forall i | 0 <= i < |r|
        ensures 0 <= r[i] < |t.heap| && t.heap[r[i]].next == At(r, i + 1) && t.heap[r[i]].prev == At(r, i - 1)
      {
        MovedNext(s, t, order, k, i);
        MovedPrev(s, t, order, k, i);
      }
      AtIs(r, 0);
      AtIs(r, |r| - 1);
      AtIs(order, |order| - 1);
      ListedAt(s, order, |order| - 1);
      ListedIs(t, r);
    }
  }

  lemma AtIs(order: seq<int>, i: int)
    ensures At(order, i) == if 0 <= i < |order| then order[i] else NULL
    ensures NULL < 0
  {}

  lemma ListedMeans(s: Shared, order: seq<int>)
    requires Listed(s, order)
    ensures |order| == |s.heap| && InHeap(order, |s.heap|) && Apart(order) && AllIn(order, |s.heap|)
    ensures s.tail == At(order, |order| - 1)
  {}

  lemma MoveNothing(s: Shared, e: nat)
    requires WellFormed(s) && e < |s.heap| && e == s.head
    ensures MoveToFront(s, e) == s
  {}

  /** What the assignments of an insertion into an empty bucket do, node by node. */
  lemma InsertLinks(s: Shared, off: uint64, page: Page, write: bool, h: nat)
    requires WellFormed(s) && h < HASH_SIZE && s.hash[h] == NULL
    ensures var t, ne := Insert(s, off, page, write, h), |s.heap|;
            && |t.heap| == ne + 1 && t.head == ne && t.tail == (if s.tail == NULL then ne else s.tail)
            && t.heap[ne].next == s.head && t.heap[ne].prev == NULL
            && (forall i :: 0 <= i < ne ==> t.heap[i].next == s.heap[i].next)
            && (forall i :: 0 <= i < ne ==> t.heap[i].prev == if i == s.head then ne else s.heap[i].prev)
  {
    hide Closed;
  }

  /** A new node in an empty bucket goes in front of the list. */
  lemma InsertListed(s: Shared, order: seq<int>, off: uint64, page: Page, write: bool, h: nat)
    requires WellFormed(s) && Listed(s, order) && h < HASH_SIZE && s.hash[h] == NULL
    ensures Listed(Insert(s, off, page, write, h), [|s.heap|] + order)
  {
    var t, r := Insert(s, off, page, write, h), [|s.heap|] + order;
    InsertLinks(s, off, page, write, h);
    hide Insert, Closed;
    forall i | 0 <= i < |order|
      ensures 0 <= order[i] < |s.heap| && t.heap[order[i]].next == At(order, i + 1)
      ensures t.heap[order[i]].prev == if i == 0 then |s.heap| else order[i - 1]
    {
      ListedAt(s, order, i);
      ListedAt(s, order, 0);
    }
    NewFirst(order, |s.heap|);
    hide Listed, Apart, AllIn;
    forall i | 0 <= i < |r|
      ensures t.heap[r[i]].next == At(r, i + 1) && t.heap[r[i]].prev == At(r, i - 1)
    {
      if i > 0 { assert r[i] == order[i - 1]; }
    }
    ListedIs(t, r);
  }

  lemma NewFirst(order: seq<int>, ne: nat)
    requires Apart(order) && InHeap(order, ne) && AllIn(order, ne)
    ensures Apart([ne] + order) && InHeap([ne] + order, ne + 1) && AllIn([ne] + order, ne + 1)
  {}

  // ---- Whole runs ---------------------------------------------------------------------------------

  function OffsetsOf(s: Shared, order: seq<int>): (offs: seq<uint64>)
    requires InHeap(order, |s.heap|)
    ensures |offs| == |order|
  {
    seq(|order|, i requires 0 <= i < |order| => s.heap[order[i]].offset)
  }

  /** The state after all requests, if every one returns. */
  function End(s: Shared, file: Bytes, ops: seq<L.Op>, bucket: Bucket, capacity: nat): (r: Option<Shared>)
    requires WellFormed(s)
    ensures r.Some? ==> WellFormed(r.value)
    decreases |ops|
  {
    if ops == [] then Some(s)
    else
      match Get(s, file, ops[0].off, ops[0].Write?, true, bucket, capacity)
      case Returned(t, e) => End(Finish(t, e, ops[0]), file, ops[1..], bucket, capacity)
      case _ => None
  }

  function Asked(ops: seq<L.Op>): (offs: seq<uint64>)
    ensures |offs| == |ops|
  {
    seq(|ops|, i requires 0 <= i < |ops| => ops[i].off)
  }

  /** The links show the recency order of the trace. */
  ghost predicate Shows(s: Shared, order: seq<int>, trace: seq<uint64>) {
    InHeap(order, |s.heap|) && Listed(s, order) && OffsetsOf(s, order) == Order(trace)
  }

  /** Other pages, dirty flags and data do not matter. */
  lemma SameLinks(s: Shared, t: Shared, order: seq<int>)
    requires Listed(s, order) && |t.heap| == |s.heap| && t.head == s.head && t.tail == s.tail
    requires forall i :: 0 <= i < |s.heap| ==>
      t.heap[i].next == s.heap[i].next && t.heap[i].prev == s.heap[i].prev && t.heap[i].offset == s.heap[i].offset
    ensures Listed(t, order) && InHeap(order, |s.heap|) && OffsetsOf(t, order) == OffsetsOf(s, order)
  {
    forall i | 0 <= i < |order|
      ensures 0 <= order[i] < |s.heap|
      ensures t.heap[order[i]].next == At(order, i + 1) && t.heap[order[i]].prev == At(order, i - 1)
    {
      ListedAt(s, order, i);
    }
    ListedMeans(s, order);
    hide Listed, Apart, AllIn;
    ListedIs(t, order);
  }

  lemma FinishLinks(s: Shared, e: nat, op: L.Op)
    requires WellFormed(s) && e < |s.heap|
    ensures var t := Finish(s, e, op);
            && |t.heap| == |s.heap| && t.head == s.head && t.tail == s.tail
            && forall i :: 0 <= i < |s.heap| ==>
                 t.heap[i].next == s.heap[i].next && t.heap[i].prev == s.heap[i].prev
                 && t.heap[i].offset == s.heap[i].offset
  {}

  lemma DirtyLinks(s: Shared, e: nat, write: bool)
    requires WellFormed(s) && e < |s.heap|
    ensures var t := s.(heap := if write then s.heap[e := s.heap[e].(dirty := true)] else s.heap);
            && WellFormed(t) && |t.heap| == |s.heap| && t.head == s.head && t.tail == s.tail
            && forall i :: 0 <= i < |s.heap| ==>
                 t.heap[i].next == s.heap[i].next && t.heap[i].prev == s.heap[i].prev
                 && t.heap[i].offset == s.heap[i].offset
  {}

  lemma MoveOffsets(s: Shared, order: seq<int>, k: nat)
    requires WellFormed(s) && InHeap(order, |s.heap|) && k < |order|
    ensures var t, offs := MoveToFront(s, order[k]), OffsetsOf(s, order);
            InHeap(Moved(order, k), |t.heap|)
              && OffsetsOf(t, Moved(order, k)) == [offs[k]] + (offs[..k] + offs[k + 1..])
  {
    var t, r, offs := MoveToFront(s, order[k]), Moved(order, k), OffsetsOf(s, order);
    SamePagesMeans(s.heap, t.heap);
    hide MoveToFront, WellFormed, Closed, SamePages, Moved;
    forall i | 0 <= i < |r|
      ensures 0 <= r[i] < |t.heap| && t.heap[r[i]].offset == ([offs[k]] + (offs[..k] + offs[k + 1..]))[i]
    {
      assert r[i] == order[if i == 0 then k else if i <= k then i - 1 else i];
    }
  }

  lemma InOrder(s: Shared, order: seq<int>, e: nat) returns (k: nat)
    requires Listed(s, order) && InHeap(order, |s.heap|) && e < |s.heap|
    ensures k < |order| && order[k] == e && OffsetsOf(s, order)[k] == s.heap[e].offset
  {
    hide *;
    ListedMeans(s, order);
    AllInMeans(order, |s.heap|, e);
    k :| 0 <= k < |order| && order[k] == e;
    OffsetAt(s, order, k);
  }

  lemma AllInMeans(order: seq<int>, size: nat, e: nat)
    requires AllIn(order, size) && e < size
    ensures exists k :: 0 <= k < |order| && order[k] == e
  {
    assert e in order;
  }

  lemma OffsetAt(s: Shared, order: seq<int>, k: nat)
    requires InHeap(order, |s.heap|) && k < |order|
    ensures 0 <= order[k] < |s.heap| && OffsetsOf(s, order)[k] == s.heap[order[k]].offset
  {}

  lemma HitShows(s: Shared, op: L.Op, file: Bytes, order: seq<int>, trace: seq<uint64>, bucket: Bucket, capacity: nat)
    returns (order': seq<int>)
    requires WellFormed(s) && Shows(s, order, trace)
    requires s.hash[bucket(op.off)] != NULL && s.heap[s.hash[bucket(op.off)]].offset == op.off
    ensures var r := Get(s, file, op.off, op.Write?, true, bucket, capacity);
            r.Returned? && Shows(Finish(r.s, r.node, op), order', trace + [op.off])
  {
    var e := s.hash[bucket(op.off)];
    var t := s.(heap := if op.Write? then s.heap[e := s.heap[e].(dirty := true)] else s.heap);
    HitMoves(s, file, op.off, op.Write?, bucket, capacity);
    assert 0 <= e < |s.heap|;
    hide *;
    ShowsMeans(s, order, trace);
    var k := InOrder(s, order, e);
    order' := Moved(order, k);
    DirtyLinks(s, e, op.Write?);
    SameLinks(s, t, order);
    MoveListed(t, order, k);
    MoveOffsets(t, order, k);
    var u := MoveToFront(t, e);
    FinishLinks(u, e, op);
    SameLinks(u, Finish(u, e, op), order');
    OrderNoDup(trace);
    WithoutAt(Order(trace), k);
    OrderAppend(trace, op.off);
    ShowsIs(Finish(u, e, op), order', trace + [op.off]);
  }

  lemma ShowsMeans(s: Shared, order: seq<int>, trace: seq<uint64>)
    requires Shows(s, order, trace)
    ensures InHeap(order, |s.heap|) && Listed(s, order) && OffsetsOf(s, order) == Order(trace) && |order| == |s.heap|
  {}

  lemma ShowsIs(s: Shared, order: seq<int>, trace: seq<uint64>)
    requires InHeap(order, |s.heap|) && Listed(s, order) && OffsetsOf(s, order) == Order(trace)
    ensures Shows(s, order, trace)
  {}

  lemma InsertOffsets(s: Shared, order: seq<int>, off: uint64, page: Page, write: bool, h: nat)
    requires WellFormed(s) && InHeap(order, |s.heap|) && h < HASH_SIZE
    ensures var t := Insert(s, off, page, write, h);
            InHeap([|s.heap|] + order, |t.heap|) && OffsetsOf(t, [|s.heap|] + order) == [off] + OffsetsOf(s, order)
  {
    var t, r := Insert(s, off, page, write, h), [|s.heap|] + order;
    InsertStacks(s, off, page, write, h);
    hide Insert, WellFormed;
    forall i | 0 <= i < |r|
      ensures 0 <= r[i] < |t.heap| && t.heap[r[i]].offset == ([off] + OffsetsOf(s, order))[i]
    {
      if i > 0 { assert r[i] == order[i - 1]; }
    }
  }

  /** A page whose bucket is empty is not in the list. */
  lemma NotListed(s: Shared, order: seq<int>, off: uint64, offsets: set<uint64>, bucket: Bucket)
    requires |s.hash| == HASH_SIZE && Homed(s, offsets, bucket) && s.hash[bucket(off)] == NULL
    requires InHeap(order, |s.heap|)
    ensures off !in OffsetsOf(s, order)
  {
    forall i | 0 <= i < |order|
      ensures OffsetsOf(s, order)[i] != off
    {
      assert s.hash[bucket(s.heap[order[i]].offset)] == order[i];
    }
  }

  lemma MissShows(s: Shared, op: L.Op, file: Bytes, order: seq<int>, trace: seq<uint64>, offsets: set<uint64>,
                  bucket: Bucket, capacity: nat) returns (order': seq<int>)
    requires WellFormed(s) && Shows(s, order, trace) && |s.hash| == HASH_SIZE && Homed(s, offsets, bucket)
    requires s.hash[bucket(op.off)] == NULL && s.count < capacity
    ensures var r := Get(s, file, op.off, op.Write?, true, bucket, capacity);
            r.Returned? && Shows(Finish(r.s, r.node, op), order', trace + [op.off])
  {
    var h, page := bucket(op.off), PageAt(file, op.off);
    order' := [|s.heap|] + order;
    hide *;
    ShowsMeans(s, order, trace);
    GetLoads(s, file, op.off, op.Write?, bucket, capacity);
    InsertListed(s, order, op.off, page, op.Write?, h);
    InsertOffsets(s, order, op.off, page, op.Write?, h);
    NotListed(s, order, op.off, offsets, bucket);
    var t := Insert(s, op.off, page, op.Write?, h);
    FinishLinks(t, |s.heap|, op);
    SameLinks(t, Finish(t, |s.heap|, op), order');
    WithoutAbsent(Order(trace), op.off);
    OrderAppend(trace, op.off);
    ShowsIs(Finish(t, |s.heap|, op), order', trace + [op.off]);
  }

  /** What a run keeps while its pages have buckets of their own. */
  ghost predicate Undisturbed(s: Shared, file: Bytes, plain: Bytes, offsets: set<uint64>, bucket: Bucket) {
    Direct(s, file, plain, offsets, bucket) && |s.hash| == HASH_SIZE && Homed(s, offsets, bucket) && Fronted(s)
  }

  lemma RequestShows(s: Shared, op: L.Op, file: Bytes, plain: Bytes, order: seq<int>, trace: seq<uint64>,
                     offsets: set<uint64>, bucket: Bucket, capacity: nat) returns (order': seq<int>)
    requires Undisturbed(s, file, plain, offsets, bucket) && Injective(bucket, offsets) && AllAligned(offsets)
    requires op.off in offsets && capacity >= HASH_SIZE && Shows(s, order, trace)
    ensures WellFormed(s)
    ensures var r := Get(s, file, op.off, op.Write?, true, bucket, capacity);
            && r.Returned? && Shows(Finish(r.s, r.node, op), order', trace + [op.off])
            && Undisturbed(Finish(r.s, r.node, op), file, Coherence.PlainServe(plain, op), offsets, bucket)
  {
    RequestKeeps(s, op, file, plain, offsets, bucket, capacity);
    if s.hash[bucket(op.off)] == NULL {
      RoomLeft(s, op.off, file, plain, offsets, bucket);
      hide *;
      order' := MissShows(s, op, file, order, trace, offsets, bucket, capacity);
    } else {
      assert s.heap[s.hash[bucket(op.off)]].offset == op.off;
      hide *;
      order' := HitShows(s, op, file, order, trace, bucket, capacity);
    }
  }

  lemma AskedNone(trace: seq<uint64>)
    ensures trace + Asked([]) == trace
  {}

  lemma AskedNext(trace: seq<uint64>, ops: seq<L.Op>)
    requires ops != []
    ensures trace + [ops[0].off] + Asked(ops[1..]) == trace + Asked(ops)
  {
    var l, r := trace + [ops[0].off] + Asked(ops[1..]), trace + Asked(ops);
    forall i | 0 <= i < |r|
      ensures l[i] == r[i]
    {}
  }

  lemma NothingBefore(trace: seq<uint64>)
    ensures [] + trace == trace
  {}

  lemma EmptyShows()
    ensures Shows(Empty(), [], [])
  {
    EmptyListed();
  }

  lemma EndStep(s: Shared, file: Bytes, ops: seq<L.Op>, bucket: Bucket, capacity: nat)
    requires WellFormed(s) && ops != []
    ensures var r := Get(s, file, ops[0].off, ops[0].Write?, true, bucket, capacity);
            r.Returned? ==>
              End(s, file, ops, bucket, capacity) == End(Finish(r.s, r.node, ops[0]), file, ops[1..], bucket, capacity)
  {}

  lemma {:induction false} RunShows(s: Shared, ops: seq<L.Op>, file: Bytes, plain: Bytes, order: seq<int>,
                                    trace: seq<uint64>,
                                    offsets: set<uint64>, bucket: Bucket, capacity: nat)
    requires Undisturbed(s, file, plain, offsets, bucket) && Injective(bucket, offsets) && AllAligned(offsets)
    requires Uses(ops, offsets) && capacity >= HASH_SIZE && Shows(s, order, trace)
    ensures WellFormed(s)
    ensures var r := End(s, file, ops, bucket, capacity);
            r.Some? && exists order' :: Shows(r.value, order', trace + Asked(ops))
    decreases |ops|
  {
    assert WellFormed(s);
    if ops == [] {
      AskedNone(trace);
      assert ops == [] && Shows(s, order, trace + Asked([]));
    } else {
      var op := ops[0];
      assert op.off in offsets && Uses(ops[1..], offsets);
      hide *;
      AskedNext(trace, ops);
      EndStep(s, file, ops, bucket, capacity);
      var order' := RequestShows(s, op, file, plain, order, trace, offsets, bucket, capacity);
      var r := Get(s, file, op.off, op.Write?, true, bucket, capacity);
      RunShows(Finish(r.s, r.node, op), ops[1..], file, Coherence.PlainServe(plain, op), order', trace + [op.off],
               offsets, bucket, capacity);
    }
  }

  /**
   While no two of the pages share a bucket, after every run the single pair of links leads from head to
   tail and back through the pages asked for, each once, in exactly the order of their last use.
   */
  lemma LinksShowRecency(ops: seq<L.Op>, file: Bytes, offsets: set<uint64>, bucket: Bucket, capacity: nat)
    requires Injective(bucket, offsets) && AllAligned(offsets) && Uses(ops, offsets) && capacity >= HASH_SIZE
    ensures var r := End(Empty(), file, ops, bucket, capacity);
            r.Some? && exists order :: Shows(r.value, order, Asked(ops))
  {
    EmptyDirect(file, offsets, bucket);
    EmptyHomed(offsets, bucket);
    assert Undisturbed(Empty(), file, file, offsets, bucket);
    hide *;
    EmptyShows();
    NothingBefore(Asked(ops));
    RunShows(Empty(), ops, file, file, [], [], offsets, bucket, capacity);
  }
}
