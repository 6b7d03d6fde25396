/**
 cache_get with one pair of links per node, as the C structure declares it: `next` and `prev` serve
 the bucket chain and the recency list at once. Nodes are numbered in order of allocation.
 */
module SharedLinks {
  import opened Config
  import opened PageFile
  import opened LruSpec
  import Coherence

  const NULL := -1

  datatype Node = Node(offset: uint64, data: Page, dirty: bool, next: int, prev: int)

  datatype Shared = Shared(heap: seq<Node>, hash: seq<int>, head: int, tail: int, count: nat)

  /** A call returns a node, or reads memory it has freed, or follows links for ever. */
  datatype Outcome = Returned(s: Shared, node: nat) | UseAfterFree | Endless

  datatype Walk = Found(node: nat) | NotFound | Cycle

  type Bucket = b: uint64 -> nat | forall off :: b(off) < HASH_SIZE witness off => 0

  function Empty(): (s: Shared)
    ensures WellFormed(s)
  {
    Shared([], seq(HASH_SIZE, i => NULL), NULL, NULL, 0)
  }

  predicate IsLink(e: int, n: nat) { NULL <= e < n }

  /** Every link of every node leads to a node or nowhere. */
  predicate Closed(heap: seq<Node>) {
    forall i :: 0 <= i < |heap| ==> IsLink(heap[i].next, |heap|) && IsLink(heap[i].prev, |heap|)
  }

  predicate WellFormed(s: Shared) {
    && |s.hash| == HASH_SIZE && IsLink(s.head, |s.heap|) && IsLink(s.tail, |s.heap|)
    && (forall h :: 0 <= h < HASH_SIZE ==> IsLink(s.hash[h], |s.heap|))
    && Closed(s.heap)
  }

  /** The lookup loop; more steps than nodes means that the links form a cycle. */
  function Follow(heap: seq<Node>, e: int, off: uint64, steps: nat): (w: Walk)
    requires IsLink(e, |heap|) && Closed(heap)
    ensures w.Found? ==> w.node < |heap| && heap[w.node].offset == off
    decreases steps
  {
    if e == NULL then NotFound
    else if steps == 0 then Cycle
    else if heap[e].offset == off then Found(e)
    else Follow(heap, heap[e].next, off, steps - 1)
  }

  /** The same nodes with the same pages: only links differ. */
  predicate SamePages(heap: seq<Node>, other: seq<Node>) {
    |other| == |heap| && forall i :: 0 <= i < |heap| ==>
      other[i].(next := heap[i].next, prev := heap[i].prev) == heap[i]
  }

  lemma SamePagesTrans(a: seq<Node>, b: seq<Node>, c: seq<Node>)
    requires SamePages(a, b)
    ensures SamePages(b, c) ==> SamePages(a, c)
  {}

  function SetNext(heap: seq<Node>, e: int, next: int): (r: seq<Node>)
    requires IsLink(e, |heap|) && IsLink(next, |heap|) && Closed(heap)
    ensures Closed(r) && SamePages(heap, r)
  {
    if e == NULL then heap else heap[e := heap[e].(next := next)]
  }

  function SetPrev(heap: seq<Node>, e: int, prev: int): (r: seq<Node>)
    requires IsLink(e, |heap|) && IsLink(prev, |heap|) && Closed(heap)
    ensures Closed(r) && SamePages(heap, r)
  {
    if e == NULL then heap else heap[e := heap[e].(prev := prev)]
  }

  /** The move to the front, assignment by assignment. */
  function MoveToFront(s: Shared, e: nat): (t: Shared)
    requires WellFormed(s) && e < |s.heap|
    ensures WellFormed(t) && SamePages(s.heap, t.heap) && t.hash == s.hash && t.count == s.count
  {
    if e == s.head then s
    else
      var h1 := SetNext(s.heap, s.heap[e].prev, s.heap[e].next);
      var h2 := SetPrev(h1, h1[e].next, h1[e].prev);
      var tail := if e == s.tail then h2[e].prev else s.tail;
      var h3 := SetPrev(SetNext(h2, e, s.head), e, NULL);
      var h4 := SetPrev(h3, s.head, e);
      SamePagesTrans(s.heap, h1, h2);
      SamePagesTrans(s.heap, h2, h3);
      SamePagesTrans(s.heap, h3, h4);
      s.(heap := h4, head := e, tail := if tail == NULL then e else tail)
  }

  /** A new node is put in front of its bucket, read, and put in front of the list. */
  function Insert(s: Shared, off: uint64, page: Page, write: bool, h: nat): (t: Shared)
    requires WellFormed(s) && h < HASH_SIZE
    ensures WellFormed(t) && |t.heap| == |s.heap| + 1 && t.hash == s.hash[h := |s.heap|] && t.count == s.count + 1
    ensures SamePages(s.heap + [Node(off, page, write, NULL, NULL)], t.heap)
  {
    var ne := |s.heap|;
    var h0 := s.heap + [Node(off, page, write, s.hash[h], NULL)];
    assert Closed(h0);
    var h1 := SetPrev(h0, s.hash[h], ne);
    var h2 := SetPrev(SetNext(h1, ne, s.head), ne, NULL);
    var h3 := SetPrev(h2, s.head, ne);
    SamePagesTrans(h0, h1, h2);
    SamePagesTrans(h0, h2, h3);
    Shared(h3, s.hash[h := ne], ne, if s.tail == NULL then ne else s.tail, s.count + 1)
  }

  /**
   cache_get. Past the capacity cache_evict frees the tail and then reads its `prev`; after a failed
   read the new node is freed and then its `next` is read.
   */
  function Get(s: Shared, file: Bytes, off: uint64, write: bool, readOk: bool, bucket: Bucket,
               capacity: nat): (r: Outcome)
    requires WellFormed(s)
    ensures r.Returned? ==> WellFormed(r.s) && r.node < |r.s.heap|
  {
    var h := bucket(off);
    match Follow(s.heap, s.hash[h], off, |s.heap|)
    case Cycle => Endless
    case Found(e) =>
      var heap := if write then s.heap[e := s.heap[e].(dirty := true)] else s.heap;
      Returned(MoveToFront(s.(heap := heap), e), e)
    case NotFound =>
      if !readOk then UseAfterFree
      else
        var t := Insert(s, off, PageAt(file, off), write, h);
        if t.count > capacity then UseAfterFree else Returned(t, |s.heap|)
  }

  function Fill(s: Shared, e: nat, page: Page): (t: Shared)
    requires WellFormed(s) && e < |s.heap|
    ensures WellFormed(t)
  {
    s.(heap := s.heap[e := s.heap[e].(data := page)])
  }

  function Finish(s: Shared, e: nat, op: Op): (t: Shared)
    requires WellFormed(s) && e < |s.heap|
    ensures WellFormed(t)
  {
    if op.Write? then Fill(s, e, op.page) else s
  }

  /** Every request returns the page that the plain store holds. */
  predicate Faithful(s: Shared, file: Bytes, plain: Bytes, ops: seq<Op>, bucket: Bucket, capacity: nat)
    requires WellFormed(s)
    decreases |ops|
  {
    ops == [] ||
    match Get(s, file, ops[0].off, ops[0].Write?, true, bucket, capacity)
    case Returned(t, e) =>
      && t.heap[e].data == PageAt(plain, ops[0].off)
      && Faithful(Finish(t, e, ops[0]), file, Coherence.PlainServe(plain, ops[0]), ops[1..], bucket, capacity)
    case _ => false
  }

  ghost predicate Uses(ops: seq<Op>, offsets: set<uint64>) {
    forall op :: op in ops ==> op.off in offsets
  }

  ghost predicate Injective(bucket: Bucket, offsets: set<uint64>) {
    forall a, b :: a in offsets && b in offsets && bucket(a) == bucket(b) ==> a == b
  }

  // ---- Without collisions -------------------------------------------------------------------

  ghost function Used(hash: seq<int>): set<nat> {
    set h: nat | h < |hash| && hash[h] != NULL
  }

  /** A node in its own bucket that shows the plain store's page. */
  ghost predicate Holds(n: Node, h: nat, plain: Bytes, offsets: set<uint64>, bucket: Bucket) {
    n.offset in offsets && bucket(n.offset) == h && n.data == PageAt(plain, n.offset)
  }

  /** Each bucket is empty or leads to the only node it will ever hold. */
  ghost predicate Direct(s: Shared, file: Bytes, plain: Bytes, offsets: set<uint64>, bucket: Bucket) {
    && WellFormed(s) && s.count == |Used(s.hash)|
    && (forall h :: 0 <= h < HASH_SIZE && s.hash[h] != NULL ==> Holds(s.heap[s.hash[h]], h, plain, offsets, bucket))
    && (forall off :: off in offsets && s.hash[bucket(off)] == NULL ==> PageAt(file, off) == PageAt(plain, off))
  }

  function Below(n: nat): (r: set<nat>)
    ensures |r| == n && forall h: nat :: h in r <==> h < n
  {
    if n == 0 then {} else Below(n - 1) + {n - 1}
  }

  lemma SubsetCount(a: set<nat>, b: set<nat>)
    requires a <= b
    ensures |a| <= |b|
  {
    assert b == a + (b - a);
  }

  lemma UsedFits(hash: seq<int>)
    ensures |Used(hash)| <= |hash|
  {
    SubsetCount(Used(hash), Below(|hash|));
  }

  lemma UsedOneMore(hash: seq<int>, h: nat, e: nat)
    requires h < |hash| && hash[h] == NULL
    ensures |Used(hash[h := e])| == |Used(hash)| + 1
  {
    assert Used(hash[h := e]) == Used(hash) + {h};
  }

  ghost predicate AllAligned(offsets: set<uint64>) {
    forall off :: off in offsets ==> Aligned(off)
  }

  /** Filling a page that is in its bucket, in the cache and in the plain store. */
  lemma FinishDirect(s: Shared, t: Shared, e: nat, op: Op, file: Bytes, plain: Bytes, offsets: set<uint64>,
                     bucket: Bucket)
    requires Direct(s, file, plain, offsets, bucket) && AllAligned(offsets) && op.off in offsets
    requires WellFormed(t) && t.hash == s.hash && t.count == s.count && |t.heap| == |s.heap|
    requires forall i :: 0 <= i < |s.heap| ==> t.heap[i].offset == s.heap[i].offset && t.heap[i].data == s.heap[i].data
    requires e < |s.heap| && s.heap[e].offset == op.off && s.hash[bucket(op.off)] == e
    ensures Direct(Finish(t, e, op), file, Coherence.PlainServe(plain, op), offsets, bucket)
  {
    RelinkedDirect(s, t, file, plain, offsets, bucket);
    if op.Write? {
      FillDirect(t, e, op.page, file, plain, offsets, bucket);
    }
  }

  lemma RelinkedDirect(s: Shared, t: Shared, file: Bytes, plain: Bytes, offsets: set<uint64>, bucket: Bucket)
    requires Direct(s, file, plain, offsets, bucket)
    requires WellFormed(t) && t.hash == s.hash && t.count == s.count && |t.heap| == |s.heap|
    requires forall i :: 0 <= i < |s.heap| ==> t.heap[i].offset == s.heap[i].offset && t.heap[i].data == s.heap[i].data
    ensures Direct(t, file, plain, offsets, bucket)
  {
    hide Used, Closed, PageAt;
  }

  lemma FillDirect(s: Shared, e: nat, page: Page, file: Bytes, plain: Bytes, offsets: set<uint64>, bucket: Bucket)
    requires Direct(s, file, plain, offsets, bucket) && AllAligned(offsets)
    requires e < |s.heap| && s.heap[e].offset in offsets && s.hash[bucket(s.heap[e].offset)] == e
    ensures Direct(Fill(s, e, page), file, Pwrite(plain, s.heap[e].offset, page), offsets, bucket)
  {
    hide Used, Closed, PageAt, Pwrite, AllAligned, Holds;
    PlainAfterFill(plain, s.heap[e].offset, page, offsets);
    forall h | 0 <= h < HASH_SIZE && s.hash[h] != NULL
      ensures Holds(Fill(s, e, page).heap[s.hash[h]], h, Pwrite(plain, s.heap[e].offset, page), offsets, bucket)
    {
      FillHolds(s, e, page, h, plain, offsets, bucket);
    }
  }

  lemma FillHolds(s: Shared, e: nat, page: Page, h: nat, plain: Bytes, offsets: set<uint64>, bucket: Bucket)
    requires WellFormed(s) && AllAligned(offsets) && h < HASH_SIZE && s.hash[h] != NULL
    requires e < |s.heap| && s.heap[e].offset in offsets && s.hash[bucket(s.heap[e].offset)] == e
    requires Holds(s.heap[s.hash[h]], h, plain, offsets, bucket)
    ensures Holds(Fill(s, e, page).heap[s.hash[h]], h, Pwrite(plain, s.heap[e].offset, page), offsets, bucket)
  {
    hide Closed, PageAt, Pwrite, AllAligned;
    PlainAfterFill(plain, s.heap[e].offset, page, offsets);
  }

  lemma PlainAfterFill(plain: Bytes, filled: uint64, page: Page, offsets: set<uint64>)
    requires AllAligned(offsets) && filled in offsets
    ensures forall off :: off in offsets ==>
      PageAt(Pwrite(plain, filled, page), off) == if off == filled then page else PageAt(plain, off)
  {
    forall off | off in offsets
      ensures PageAt(Pwrite(plain, filled, page), off) == if off == filled then page else PageAt(plain, off)
    {
      PageAtAfterPwrite(plain, filled, page, off);
    }
  }

  /** A lookup that finds its page at once changes links and the dirty flag only. */
  lemma GetAtOnce(s: Shared, file: Bytes, off: uint64, write: bool, bucket: Bucket, capacity: nat)
    requires WellFormed(s) && s.hash[bucket(off)] != NULL && s.heap[s.hash[bucket(off)]].offset == off
    ensures var r := Get(s, file, off, write, true, bucket, capacity);
            && r.Returned? && r.node == s.hash[bucket(off)] && r.s.hash == s.hash && r.s.count == s.count
            && |r.s.heap| == |s.heap|
            && forall i :: 0 <= i < |s.heap| ==>
              r.s.heap[i].offset == s.heap[i].offset && r.s.heap[i].data == s.heap[i].data
  {
    var e := s.hash[bucket(off)];
    assert Follow(s.heap, e, off, |s.heap|) == Found(e);
    hide Follow;
    var heap := if write then s.heap[e := s.heap[e].(dirty := true)] else s.heap;
    var t := MoveToFront(s.(heap := heap), e);
    hide MoveToFront;
    assert SamePages(heap, t.heap);
  }

  /** A lookup in an empty bucket loads the page. */
  lemma GetLoads(s: Shared, file: Bytes, off: uint64, write: bool, bucket: Bucket, capacity: nat)
    requires WellFormed(s) && s.hash[bucket(off)] == NULL && s.count < capacity
    ensures var r := Get(s, file, off, write, true, bucket, capacity);
            && r == Returned(Insert(s, off, PageAt(file, off), write, bucket(off)), |s.heap|)
  {}

  lemma HitDirect(s: Shared, op: Op, file: Bytes, plain: Bytes, offsets: set<uint64>, bucket: Bucket, capacity: nat)
    requires Direct(s, file, plain, offsets, bucket) && Injective(bucket, offsets) && AllAligned(offsets)
    requires op.off in offsets && s.hash[bucket(op.off)] != NULL
    ensures var r := Get(s, file, op.off, op.Write?, true, bucket, capacity);
            && r.Returned? && r.s.heap[r.node].data == PageAt(plain, op.off)
            && Direct(Finish(r.s, r.node, op), file, Coherence.PlainServe(plain, op), offsets, bucket)
  {
    var e := s.hash[bucket(op.off)];
    assert s.heap[e].offset == op.off && s.heap[e].data == PageAt(plain, op.off);
    GetAtOnce(s, file, op.off, op.Write?, bucket, capacity);
    var r := Get(s, file, op.off, op.Write?, true, bucket, capacity);
    hide Get, Direct;
    FinishDirect(s, r.s, e, op, file, plain, offsets, bucket);
  }

  lemma MissDirect(s: Shared, op: Op, file: Bytes, plain: Bytes, offsets: set<uint64>, bucket: Bucket, capacity: nat)
    requires Direct(s, file, plain, offsets, bucket) && Injective(bucket, offsets) && AllAligned(offsets)
    requires op.off in offsets && s.hash[bucket(op.off)] == NULL && capacity >= HASH_SIZE
    ensures var r := Get(s, file, op.off, op.Write?, true, bucket, capacity);
            && r.Returned? && r.s.heap[r.node].data == PageAt(plain, op.off)
            && Direct(Finish(r.s, r.node, op), file, Coherence.PlainServe(plain, op), offsets, bucket)
  {
    InsertDirect(s, op, file, plain, offsets, bucket);
    var t := Insert(s, op.off, PageAt(file, op.off), op.Write?, bucket(op.off));
    hide Insert;
    UsedFits(t.hash);
    GetLoads(s, file, op.off, op.Write?, bucket, capacity);
    hide Get, Direct, Injective;
    FinishDirect(t, t, |s.heap|, op, file, plain, offsets, bucket);
  }

  lemma InsertDirect(s: Shared, op: Op, file: Bytes, plain: Bytes, offsets: set<uint64>, bucket: Bucket)
    requires Direct(s, file, plain, offsets, bucket)
    requires op.off in offsets && s.hash[bucket(op.off)] == NULL
    ensures var t := Insert(s, op.off, PageAt(file, op.off), op.Write?, bucket(op.off));
            && Direct(t, file, plain, offsets, bucket)
            && t.heap[|s.heap|].offset == op.off && t.heap[|s.heap|].data == PageAt(plain, op.off)
            && t.count == s.count + 1
  {
    hide *;
    DirectAbsent(s, op.off, file, plain, offsets, bucket);
    var page := PageAt(file, op.off);
    var t := Insert(s, op.off, page, op.Write?, bucket(op.off));
    var extended := s.heap + [Node(op.off, page, op.Write?, NULL, NULL)];
    SamePagesMeans(extended, t.heap);
    assert extended[|s.heap|].offset == op.off;
    ExtendedDirect(s, t, op.off, file, plain, offsets, bucket);
  }

  lemma DirectAbsent(s: Shared, off: uint64, file: Bytes, plain: Bytes, offsets: set<uint64>, bucket: Bucket)
    requires Direct(s, file, plain, offsets, bucket) && off in offsets && s.hash[bucket(off)] == NULL
    ensures WellFormed(s) && PageAt(file, off) == PageAt(plain, off)
  {}

  lemma SamePagesMeans(a: seq<Node>, b: seq<Node>)
    requires SamePages(a, b)
    ensures |a| == |b| && forall i :: 0 <= i < |a| ==> b[i].offset == a[i].offset && b[i].data == a[i].data
  {}

  lemma ExtendedDirect(s: Shared, t: Shared, off: uint64, file: Bytes, plain: Bytes, offsets: set<uint64>,
                       bucket: Bucket)
    requires Direct(s, file, plain, offsets, bucket) && off in offsets && s.hash[bucket(off)] == NULL
    requires WellFormed(t) && |t.heap| == |s.heap| + 1 && t.count == s.count + 1
        && t.hash == s.hash[bucket(off) := |s.heap|]
    requires forall i :: 0 <= i < |s.heap| ==> t.heap[i].offset == s.heap[i].offset && t.heap[i].data == s.heap[i].data
    requires t.heap[|s.heap|].offset == off && t.heap[|s.heap|].data == PageAt(file, off)
    ensures Direct(t, file, plain, offsets, bucket)
  {
    hide Closed, PageAt, Used;
    UsedOneMore(s.hash, bucket(off), |s.heap|);
  }

  /** Offsets in buckets of their own: every run is served as by the plain store. */
  lemma {:induction false} DirectFaithful(s: Shared, file: Bytes, plain: Bytes, ops: seq<Op>,
                                          offsets: set<uint64>, bucket: Bucket, capacity: nat)
    requires Direct(s, file, plain, offsets, bucket) && Injective(bucket, offsets) && AllAligned(offsets)
    requires Uses(ops, offsets) && capacity >= HASH_SIZE
    ensures Faithful(s, file, plain, ops, bucket, capacity)
    decreases |ops|
  {
    if ops != [] {
      var op := ops[0];
      if s.hash[bucket(op.off)] == NULL {
        MissDirect(s, op, file, plain, offsets, bucket, capacity);
      } else {
        HitDirect(s, op, file, plain, offsets, bucket, capacity);
      }
      var r := Get(s, file, op.off, op.Write?, true, bucket, capacity);
      DirectFaithful(Finish(r.s, r.node, op), file, Coherence.PlainServe(plain, op), ops[1..], offsets, bucket,
        capacity);
    }
  }

  // ---- With a collision ---------------------------------------------------------------------

  /**
   Two pages of one bucket: write the first, read the second, read the first (which moves it to the
   front), read it again. The last lookup starts behind it, loads the page again and returns stale data.
   */
  function StaleRun(a: uint64, b: uint64, page: Page): seq<Op> {
    [Write(a, page), Read(b), Read(a), Read(a)]
  }

  function OneNode(a: uint64, page: Page, h: nat): (s: Shared)
    requires h < HASH_SIZE
    ensures WellFormed(s)
  {
    Shared([Node(a, page, true, NULL, NULL)], Empty().hash[h := 0], 0, 0, 1)
  }

  function TwoNodes(a: uint64, page: Page, b: uint64, other: Page, h: nat): (s: Shared)
    requires h < HASH_SIZE
    ensures WellFormed(s)
  {
    Shared([Node(a, page, true, NULL, 1), Node(b, other, false, 0, NULL)], Empty().hash[h := 1], 1, 0, 2)
  }

  /** After the first page moved to the front: its bucket still leads to the second, which is last. */
  function Swapped(a: uint64, page: Page, b: uint64, other: Page, h: nat): (s: Shared)
    requires h < HASH_SIZE
    ensures WellFormed(s)
  {
    Shared([Node(a, page, true, 1, NULL), Node(b, other, false, NULL, 0)], Empty().hash[h := 1], 0, 1, 2)
  }

  lemma FirstLoads(file: Bytes, a: uint64, page: Page, bucket: Bucket, capacity: nat)
    requires capacity > 0
    ensures var r := Get(Empty(), file, a, true, true, bucket, capacity);
            r.Returned? && r.node == 0 && Finish(r.s, 0, Write(a, page)) == OneNode(a, page, bucket(a))
  {
    var s := Empty();
    assert Follow(s.heap, s.hash[bucket(a)], a, 0) == NotFound;
    NotFoundLoads(s, file, a, true, bucket, capacity);
    hide PageAt, Get, Follow;
  }

  lemma SecondLoads(file: Bytes, a: uint64, page: Page, b: uint64, bucket: Bucket, capacity: nat)
    requires a != b && bucket(a) == bucket(b) && capacity > 1
    ensures WellFormed(OneNode(a, page, bucket(a)))
    ensures Get(OneNode(a, page, bucket(a)), file, b, false, true, bucket, capacity)
            == Returned(TwoNodes(a, page, b, PageAt(file, b), bucket(a)), 1)
  {
    hide PageAt;
    var s := OneNode(a, page, bucket(a));
    assert Follow(s.heap, 0, b, 1) == NotFound;
    hide Follow;
    assert Insert(s, b, PageAt(file, b), false, bucket(a)) == TwoNodes(a, page, b, PageAt(file, b), bucket(a));
    hide Insert;
  }

  lemma FirstMoves(file: Bytes, a: uint64, page: Page, b: uint64, other: Page, bucket: Bucket, capacity: nat)
    requires a != b && bucket(a) == bucket(b) && capacity > 1
    ensures WellFormed(TwoNodes(a, page, b, other, bucket(a)))
    ensures Get(TwoNodes(a, page, b, other, bucket(a)), file, a, false, true, bucket, capacity)
            == Returned(Swapped(a, page, b, other, bucket(a)), 0)
  {
    var s := TwoNodes(a, page, b, other, bucket(a));
    assert Follow(s.heap, 0, a, 1) == Found(0);
    assert Follow(s.heap, 1, a, 2) == Found(0);
  }

  lemma FirstMissed(file: Bytes, a: uint64, page: Page, b: uint64, other: Page, bucket: Bucket, capacity: nat)
    requires a != b && bucket(a) == bucket(b)
    ensures WellFormed(Swapped(a, page, b, other, bucket(a)))
    ensures var r := Get(Swapped(a, page, b, other, bucket(a)), file, a, false, true, bucket, capacity);
            r.Returned? ==> r.s.heap[r.node].data == PageAt(file, a)
  {
    hide PageAt;
    var s := Swapped(a, page, b, other, bucket(a));
    assert Follow(s.heap, 1, a, 2) == NotFound;
    hide Follow;
  }

  lemma StepBack(s: Shared, file: Bytes, plain: Bytes, op: Op, rest: seq<Op>, bucket: Bucket, capacity: nat)
    requires WellFormed(s)
    ensures var r := Get(s, file, op.off, op.Write?, true, bucket, capacity);
            !r.Returned? || r.s.heap[r.node].data != PageAt(plain, op.off)
            || !Faithful(Finish(r.s, r.node, op), file, Coherence.PlainServe(plain, op), rest, bucket, capacity)
            ==> !Faithful(s, file, plain, [op] + rest, bucket, capacity)
  {
    assert ([op] + rest)[1..] == rest;
  }

  lemma StaleRunFails(file: Bytes, a: uint64, b: uint64, page: Page, bucket: Bucket, capacity: nat)
    requires a != b && bucket(a) == bucket(b) && Aligned(a) && Aligned(b) && page != PageAt(file, a)
    ensures !Faithful(Empty(), file, file, StaleRun(a, b, page), bucket, capacity)
  {
    hide *;
    if capacity > 1 {
      StaleRunIs(file, a, b, page);
      AfterTheWrite(file, a, b, page, bucket, capacity);
      FirstLoads(file, a, page, bucket, capacity);
      StepBack(Empty(), file, file, Write(a, page), AfterWrite(a, b), bucket, capacity);
    } else {
      CapacityTooSmall(file, a, b, page, bucket, capacity);
    }
  }

  function AfterWrite(a: uint64, b: uint64): seq<Op> {
    [Read(b)] + ([Read(a)] + [Read(a)])
  }

  lemma StaleRunIs(file: Bytes, a: uint64, b: uint64, page: Page)
    ensures StaleRun(a, b, page) == [Write(a, page)] + AfterWrite(a, b)
    ensures Coherence.PlainServe(file, Write(a, page)) == Pwrite(file, a, page)
  {}

  lemma AfterWriteIs(a: uint64, b: uint64)
    ensures AfterWrite(a, b) == [Read(b)] + ([Read(a)] + [Read(a)])
  {}

  /** Nothing is filled after a read. */
  lemma ReadFinishes(s: Shared, e: nat, a: uint64, plain: Bytes)
    requires WellFormed(s) && e < |s.heap|
    ensures Finish(s, e, Read(a)) == s && Coherence.PlainServe(plain, Read(a)) == plain
  {}

  lemma AfterTheWrite(file: Bytes, a: uint64, b: uint64, page: Page, bucket: Bucket, capacity: nat)
    requires a != b && bucket(a) == bucket(b) && Aligned(a) && page != PageAt(file, a) && capacity > 1
    ensures WellFormed(OneNode(a, page, bucket(a)))
    ensures !Faithful(OneNode(a, page, bucket(a)), file, Pwrite(file, a, page), AfterWrite(a, b), bucket, capacity)
  {
    hide *;
    var h, other, plain := bucket(a), PageAt(file, b), Pwrite(file, a, page);
    SecondLoads(file, a, page, b, bucket, capacity);
    FirstMoves(file, a, page, b, other, bucket, capacity);
    FirstMissed(file, a, page, b, other, bucket, capacity);
    PageAtAfterPwrite(file, a, page, a);
    StepBack(Swapped(a, page, b, other, h), file, plain, Read(a), [], bucket, capacity);
    assert [Read(a)] + [] == [Read(a)];
    ReadFinishes(TwoNodes(a, page, b, other, h), 1, b, plain);
    ReadFinishes(Swapped(a, page, b, other, h), 0, a, plain);
    StepBack(TwoNodes(a, page, b, other, h), file, plain, Read(a), [Read(a)], bucket, capacity);
    StepBack(OneNode(a, page, h), file, plain, Read(b), [Read(a)] + [Read(a)], bucket, capacity);
    AfterWriteIs(a, b);
  }

  lemma CapacityTooSmall(file: Bytes, a: uint64, b: uint64, page: Page, bucket: Bucket, capacity: nat)
    requires a != b && bucket(a) == bucket(b) && capacity <= 1
    ensures !Faithful(Empty(), file, file, StaleRun(a, b, page), bucket, capacity)
  {
    var rest := [Read(b), Read(a), Read(a)];
    assert StaleRun(a, b, page) == [Write(a, page)] + rest && rest == [Read(b)] + [Read(a), Read(a)];
    StepBack(Empty(), file, file, Write(a, page), rest, bucket, capacity);
    if capacity == 1 {
      FirstLoads(file, a, page, bucket, 1);
      var s := OneNode(a, page, bucket(a));
      assert Follow(s.heap, 0, b, 1) == NotFound;
      StepBack(s, file, Pwrite(file, a, page), Read(b), [Read(a), Read(a)], bucket, 1);
    }
  }

  lemma StaleRunUses(a: uint64, b: uint64, page: Page, offsets: set<uint64>)
    requires a in offsets && b in offsets
    ensures Uses(StaleRun(a, b, page), offsets)
  {}

  /**
   The cache with shared links serves every run over the given pages as the plain store does, if and
   only if no two of the pages have the same bucket.
   */
  lemma SharedLinksFaithfulIff(file: Bytes, offsets: set<uint64>, bucket: Bucket, capacity: nat)
    requires AllAligned(offsets) && capacity >= HASH_SIZE
    ensures (forall ops :: Uses(ops, offsets) ==> Faithful(Empty(), file, file, ops, bucket, capacity))
            <==> Injective(bucket, offsets)
  {
    hide *;
    if Injective(bucket, offsets) {
      forall ops | Uses(ops, offsets)
        ensures Faithful(Empty(), file, file, ops, bucket, capacity)
      {
        EmptyDirect(file, offsets, bucket);
        DirectFaithful(Empty(), file, file, ops, offsets, bucket, capacity);
      }
    } else {
      CollisionFails(file, offsets, bucket, capacity);
    }
  }

  lemma EmptyDirect(file: Bytes, offsets: set<uint64>, bucket: Bucket)
    ensures Direct(Empty(), file, file, offsets, bucket)
  {
    assert Used(Empty().hash) == {};
  }

  lemma CollisionFails(file: Bytes, offsets: set<uint64>, bucket: Bucket, capacity: nat)
    requires AllAligned(offsets) && !Injective(bucket, offsets)
    ensures exists ops :: Uses(ops, offsets) && !Faithful(Empty(), file, file, ops, bucket, capacity)
  {
    var a, b :| a in offsets && b in offsets && bucket(a) == bucket(b) && a != b;
    var page := OtherPage(PageAt(file, a));
    hide Faithful, StaleRun;
    StaleRunFails(file, a, b, page, bucket, capacity);
    StaleRunUses(a, b, page, offsets);
  }

  function OtherPage(page: Page): (r: Page)
    ensures r != page
  {
    var r := page[0 := if page[0] == 0 then 1 else 0];
    assert r[0] != page[0];
    r
  }

  /** A failed read of a page that the lookup does not find reads the node it has just freed; a hit reads no file. */
  lemma FailedReadFaultsIff(s: Shared, file: Bytes, off: uint64, write: bool, bucket: Bucket, capacity: nat)
    requires WellFormed(s)
    ensures Get(s, file, off, write, false, bucket, capacity) == UseAfterFree
            <==> Follow(s.heap, s.hash[bucket(off)], off, |s.heap|) == NotFound
    ensures Follow(s.heap, s.hash[bucket(off)], off, |s.heap|).Found? ==>
      Get(s, file, off, write, false, bucket, capacity) == Get(s, file, off, write, true, bucket, capacity)
  {
    hide Follow, Insert, MoveToFront, PageAt;
  }

  // ---- A scan of distinct pages ---------------------------------------------------------------

  /** The outcome of the last of the requests; a fault or an endless loop ends the run. */
  function Last(s: Shared, file: Bytes, ops: seq<Op>, bucket: Bucket, capacity: nat): Outcome
    requires WellFormed(s) && ops != []
    decreases |ops|
  {
    var r := Get(s, file, ops[0].off, ops[0].Write?, true, bucket, capacity);
    if |ops| == 1 || !r.Returned? then r
    else Last(Finish(r.s, r.node, ops[0]), file, ops[1..], bucket, capacity)
  }

  /** Nodes linked in order of allocation, newest first, one for each page of the scan so far. */
  ghost predicate Stacked(s: Shared, ops: seq<Op>) {
    && WellFormed(s) && |s.heap| == |ops| == s.count && s.head == |ops| - 1
    && forall i :: 0 <= i < |ops| ==> s.heap[i].offset == ops[i].off && s.heap[i].next == i - 1
  }

  ghost predicate DistinctPages(ops: seq<Op>) {
    forall i, j :: 0 <= i < j < |ops| ==> ops[i].off != ops[j].off
  }

  lemma EmptyStacked()
    ensures Stacked(Empty(), [])
  {}

  /** From any bucket a lookup walks down to the oldest node without a match. */
  lemma {:induction false} WalkDown(s: Shared, ops: seq<Op>, e: int, off: uint64, steps: nat)
    requires Stacked(s, ops) && (forall op :: op in ops ==> op.off != off)
    requires NULL <= e < steps && e < |s.heap|
    ensures Follow(s.heap, e, off, steps) == NotFound
    decreases steps
  {
    if e > NULL {
      assert ops[e] in ops;
      if e > 0 { WalkDown(s, ops, e - 1, off, steps - 1); }
    }
  }

  lemma StackedNext(s: Shared, file: Bytes, ops: seq<Op>, op: Op, bucket: Bucket, capacity: nat)
    requires Stacked(s, ops) && forall o :: o in ops ==> o.off != op.off
    ensures var r := Get(s, file, op.off, op.Write?, true, bucket, capacity);
            if |ops| < capacity then r.Returned? && Stacked(Finish(r.s, r.node, op), ops + [op])
            else r == UseAfterFree
  {
    hide *;
    StackedMeans(s, ops);
    WalkDown(s, ops, s.hash[bucket(op.off)], op.off, |s.heap|);
    NotFoundLoads(s, file, op.off, op.Write?, bucket, capacity);
    InsertStacks(s, op.off, PageAt(file, op.off), op.Write?, bucket(op.off));
    if |ops| < capacity {
      PushStacks(s, Insert(s, op.off, PageAt(file, op.off), op.Write?, bucket(op.off)), ops, op);
    }
  }

  lemma StackedMeans(s: Shared, ops: seq<Op>)
    requires Stacked(s, ops)
    ensures WellFormed(s) && |s.hash| == HASH_SIZE && |s.heap| == |ops| == s.count && Closed(s.heap)
    ensures forall h :: 0 <= h < HASH_SIZE ==> IsLink(s.hash[h], |s.heap|) && NULL <= s.hash[h] < |s.heap|
  {}

  lemma NotFoundLoads(s: Shared, file: Bytes, off: uint64, write: bool, bucket: Bucket, capacity: nat)
    requires WellFormed(s) && Follow(s.heap, s.hash[bucket(off)], off, |s.heap|) == NotFound
    ensures Get(s, file, off, write, true, bucket, capacity) ==
              if s.count + 1 > capacity then UseAfterFree
              else Returned(Insert(s, off, PageAt(file, off), write, bucket(off)), |s.heap|)
  {
    hide Insert, PageAt, Follow;
  }

  lemma PushStacks(s: Shared, t: Shared, ops: seq<Op>, op: Op)
    requires Stacked(s, ops) && WellFormed(t)
    requires |t.heap| == |s.heap| + 1 && t.count == s.count + 1
    requires t.head == |s.heap| && t.heap[|s.heap|].next == s.head && t.heap[|s.heap|].offset == op.off
    requires forall i :: 0 <= i < |s.heap| ==> t.heap[i].next == s.heap[i].next && t.heap[i].offset == s.heap[i].offset
    ensures Stacked(Finish(t, |s.heap|, op), ops + [op])
  {
    hide Closed;
  }

  lemma InsertStacks(s: Shared, off: uint64, page: Page, write: bool, h: nat)
    requires WellFormed(s) && h < HASH_SIZE
    ensures var t := Insert(s, off, page, write, h);
            && t.head == |s.heap| && t.heap[|s.heap|].next == s.head && t.heap[|s.heap|].offset == off
            && forall i :: 0 <= i < |s.heap| ==>
              t.heap[i].next == s.heap[i].next && t.heap[i].offset == s.heap[i].offset
  {}

  lemma {:induction false} ScanFrom(s: Shared, file: Bytes, done: seq<Op>, ops: seq<Op>, bucket: Bucket, capacity: nat)
    requires WellFormed(s) && Stacked(s, done) && DistinctPages(done + ops)
    requires ops != [] && |done + ops| <= capacity + 1
    ensures var r := Last(s, file, ops, bucket, capacity);
            if |done + ops| <= capacity then r.Returned? else r == UseAfterFree
    decreases |ops|
  {
    hide *;
    NewPage(done, ops);
    StackedNext(s, file, done, ops[0], bucket, capacity);
    LastStep(s, file, ops, bucket, capacity);
    if |ops| > 1 {
      var r := Get(s, file, ops[0].off, ops[0].Write?, true, bucket, capacity);
      assert done + [ops[0]] + ops[1..] == done + ops;
      ScanFrom(Finish(r.s, r.node, ops[0]), file, done + [ops[0]], ops[1..], bucket, capacity);
    }
  }

  lemma LastStep(s: Shared, file: Bytes, ops: seq<Op>, bucket: Bucket, capacity: nat)
    requires WellFormed(s) && ops != []
    ensures var r := Get(s, file, ops[0].off, ops[0].Write?, true, bucket, capacity);
            Last(s, file, ops, bucket, capacity) ==
              if |ops| == 1 || !r.Returned? then r
              else Last(Finish(r.s, r.node, ops[0]), file, ops[1..], bucket, capacity)
  {}

  lemma NewPage(done: seq<Op>, ops: seq<Op>)
    requires DistinctPages(done + ops) && ops != []
    ensures forall o :: o in done ==> o.off != ops[0].off
  {
    forall o | o in done
      ensures o.off != ops[0].off
    {
      var i :| 0 <= i < |done| && done[i] == o;
      assert (done + ops)[i] == o && (done + ops)[|done|] == ops[0];
    }
  }

  /**
   Any run over distinct pages is served up to the capacity; the first access past it has
   cache_evict read the node it has just freed.
   */
  lemma ScanFaults(file: Bytes, ops: seq<Op>, bucket: Bucket, capacity: nat)
    requires ops != [] && DistinctPages(ops) && |ops| <= capacity + 1
    ensures var r := Last(Empty(), file, ops, bucket, capacity);
            if |ops| <= capacity then r.Returned? else r == UseAfterFree
  {
    EmptyStacked();
    assert [] + ops == ops;
    ScanFrom(Empty(), file, [], ops, bucket, capacity);
  }

  // ---- The daemon's segment -------------------------------------------------------------------

  ghost function Image(offsets: set<uint64>, bucket: Bucket): set<nat> {
    set off | off in offsets :: bucket(off)
  }

  /** More pages than buckets: two of them share one. */
  lemma TooManyCollide(offsets: set<uint64>, bucket: Bucket)
    requires |offsets| > HASH_SIZE
    ensures !Injective(bucket, offsets)
  {
    if Injective(bucket, offsets) {
      ImageCount(offsets, bucket);
      SubsetCount(Image(offsets, bucket), Below(HASH_SIZE));
      assert false;
    }
  }

  lemma {:induction false} ImageCount(offsets: set<uint64>, bucket: Bucket)
    requires Injective(bucket, offsets)
    ensures |Image(offsets, bucket)| == |offsets|
    decreases |offsets|
  {
    hide *;
    if offsets == {} {
      NoImage(bucket);
    } else {
      var x :| x in offsets;
      var rest := offsets - {x};
      ImageStep(offsets, x, bucket);
      ImageCount(rest, bucket);
      assert |offsets| == |rest| + 1;
    }
  }

  lemma NoImage(bucket: Bucket)
    ensures Image({}, bucket) == {}
  {}

  lemma ImageMeans(offsets: set<uint64>, bucket: Bucket, h: nat)
    ensures h in Image(offsets, bucket) <==> exists off :: off in offsets && bucket(off) == h
  {}

  lemma InjectiveMeans(offsets: set<uint64>, bucket: Bucket, a: uint64, b: uint64)
    requires Injective(bucket, offsets) && a in offsets && b in offsets && bucket(a) == bucket(b)
    ensures a == b
  {}

  lemma FewerInjective(offsets: set<uint64>, x: uint64, bucket: Bucket)
    requires Injective(bucket, offsets)
    ensures Injective(bucket, offsets - {x})
  {}

  lemma ImageStep(offsets: set<uint64>, x: uint64, bucket: Bucket)
    requires Injective(bucket, offsets) && x in offsets
    ensures Injective(bucket, offsets - {x}) && bucket(x) !in Image(offsets - {x}, bucket)
    ensures Image(offsets, bucket) == Image(offsets - {x}, bucket) + {bucket(x)}
  {
    hide *;
    FewerInjective(offsets, x, bucket);
    ImageMeans(offsets - {x}, bucket, bucket(x));
    if bucket(x) in Image(offsets - {x}, bucket) {
      var off :| off in offsets - {x} && bucket(off) == bucket(x);
      InjectiveMeans(offsets, bucket, off, x);
      assert false;
    }
    forall h: nat
      ensures h in Image(offsets, bucket) <==> h in Image(offsets - {x}, bucket) + {bucket(x)}
    {
      ImageSplit(offsets, x, bucket, h);
    }
  }

  lemma ImageSplit(offsets: set<uint64>, x: uint64, bucket: Bucket, h: nat)
    requires x in offsets
    ensures h in Image(offsets, bucket) <==> h in Image(offsets - {x}, bucket) || h == bucket(x)
  {
    hide *;
    ImageMeans(offsets, bucket, h);
    ImageMeans(offsets - {x}, bucket, h);
    if h in Image(offsets, bucket) && h != bucket(x) {
      var off :| off in offsets && bucket(off) == h;
      assert off in offsets - {x};
    }
  }
}
