/** cache_destroy with one pair of links per node: the bucket walks follow the links of the recency list. */
module SharedTeardown {
  import opened Config
  import opened PageFile
  import L = LruSpec
  import opened SharedLinks
  import Coherence

  /** The nodes not yet freed and the file so far; or a walk has read a node that was freed before. */
  datatype Teardown = Freeing(live: set<int>, file: Bytes) | FreedRead

  function EntryAt(n: Node): L.Entry { L.Entry(n.offset, n.data, n.dirty) }

  /** The walk from node e on: read `next`, write the page back in full if it is dirty, free the node. */
  function FreeChain(heap: seq<Node>, e: int, live: set<int>, file: Bytes): Teardown
    requires IsLink(e, |heap|) && Closed(heap)
    decreases |live|
  {
    if e == NULL then Freeing(live, file)
    else if e !in live then FreedRead
    else FreeChain(heap, heap[e].next, live - {e}, L.WriteBack(file, EntryAt(heap[e]), PAGE_SIZE))
  }

  /** The walks over the first h buckets. */
  function FreeBuckets(s: Shared, h: nat, file: Bytes): Teardown
    requires WellFormed(s) && h <= HASH_SIZE
  {
    if h == 0 then Freeing(Below(|s.heap|), file)
    else
      match FreeBuckets(s, h - 1, file)
      case Freeing(live, f) => FreeChain(s.heap, s.hash[h - 1], live, f)
      case FreedRead => FreedRead
  }

  function Destroy(s: Shared, file: Bytes): Teardown
    requires WellFormed(s)
  {
    FreeBuckets(s, |s.hash|, file)
  }

  lemma DestroyIs(s: Shared, file: Bytes)
    requires WellFormed(s)
    ensures |s.hash| == HASH_SIZE && Destroy(s, file) == FreeBuckets(s, |s.hash|, file)
  {}

  /** Every request returns the plain store's page, and cache_destroy leaves the plain store's file. */
  predicate WholeLife(s: Shared, file: Bytes, plain: Bytes, ops: seq<L.Op>, bucket: Bucket, capacity: nat)
    requires WellFormed(s)
    decreases |ops|
  {
    if ops == [] then
      var r := Destroy(s, file);
      r.Freeing? && r.file == plain
    else
      match Get(s, file, ops[0].off, ops[0].Write?, true, bucket, capacity)
      case Returned(t, e) =>
        && t.heap[e].data == PageAt(plain, ops[0].off)
        && WholeLife(Finish(t, e, ops[0]), file, Coherence.PlainServe(plain, ops[0]), ops[1..], bucket, capacity)
      case _ => false
  }

  lemma {:induction false} LifeIsFaithful(s: Shared, file: Bytes, plain: Bytes, ops: seq<L.Op>, bucket: Bucket,
                                          capacity: nat)
    requires WellFormed(s) && WholeLife(s, file, plain, ops, bucket, capacity)
    ensures Faithful(s, file, plain, ops, bucket, capacity)
    decreases |ops|
  {
    hide Destroy, Finish, Get, PageAt;
    if ops != [] {
      var r := Get(s, file, ops[0].off, ops[0].Write?, true, bucket, capacity);
      LifeIsFaithful(Finish(r.s, r.node, ops[0]), file, Coherence.PlainServe(plain, ops[0]), ops[1..], bucket,
        capacity);
    }
  }

  // ---- Two linked nodes in different buckets ------------------------------------------------------

  /** A walk that meets no freed node frees its first node and that node's successor. */
  lemma {:induction false} ChainFrees(heap: seq<Node>, e: int, live: set<int>, file: Bytes)
    requires IsLink(e, |heap|) && Closed(heap)
    ensures var r := FreeChain(heap, e, live, file);
            r.Freeing? ==>
              && r.live <= live
              && (e != NULL ==> e in live && e !in r.live)
              && (e != NULL && heap[e].next != NULL ==> heap[e].next in live && heap[e].next !in r.live)
    decreases |live|
  {
    if e != NULL && e in live {
      ChainFrees(heap, heap[e].next, live - {e}, L.WriteBack(file, EntryAt(heap[e]), PAGE_SIZE));
    }
  }

  /** Once a bucket has been walked its first node and that node's successor are freed. */
  lemma {:induction false} WalkedFreed(s: Shared, h: nat, g: nat, file: Bytes)
    requires WellFormed(s) && g < h <= HASH_SIZE && s.hash[g] != NULL
    ensures var r, e := FreeBuckets(s, h, file), s.hash[g];
            r.Freeing? ==> e !in r.live && (s.heap[e].next != NULL ==> s.heap[e].next !in r.live)
  {
    var before := FreeBuckets(s, h - 1, file);
    if before.Freeing? { ChainFrees(s.heap, s.hash[h - 1], before.live, before.file); }
    if g < h - 1 { WalkedFreed(s, h - 1, g, file); }
  }

  lemma {:induction false} StaysFaulted(s: Shared, h: nat, k: nat, file: Bytes)
    requires WellFormed(s) && h <= k <= HASH_SIZE && FreeBuckets(s, h, file) == FreedRead
    ensures FreeBuckets(s, k, file) == FreedRead
    decreases k
  {
    if h < k { StaysFaulted(s, h, k - 1, file); }
  }

  /** If the node of one bucket has the node of another as its successor, cache_destroy reads a freed node. */
  lemma LinkedNodesFault(s: Shared, file: Bytes, x: int, y: int, g: nat, h: nat)
    requires WellFormed(s) && g < HASH_SIZE && h < HASH_SIZE && g != h
    requires s.hash[g] == x != NULL && s.hash[h] == y != NULL && s.heap[x].next == y
    ensures Destroy(s, file) == FreedRead
  {
    hide FreeBuckets;
    DestroyIs(s, file);
    var last := if g < h then h else g;
    SecondWalkFaults(s, file, x, y, g, h);
    StaysFaulted(s, last + 1, |s.hash|, file);
  }

  lemma SecondWalkFaults(s: Shared, file: Bytes, x: int, y: int, g: nat, h: nat)
    requires WellFormed(s) && g < HASH_SIZE && h < HASH_SIZE && g != h
    requires s.hash[g] == x != NULL && s.hash[h] == y != NULL && s.heap[x].next == y
    ensures FreeBuckets(s, (if g < h then h else g) + 1, file) == FreedRead
  {
    var last := if g < h then h else g;
    var before := FreeBuckets(s, last, file);
    if before.Freeing? {
      WalkedFreed(s, last, if g < h then g else h, file);
      ChainFrees(s.heap, s.hash[last], before.live, before.file);
    }
  }

  // ---- Runs on one page ---------------------------------------------------------------------------

  /** The cache with one page. */
  function One(a: uint64, data: Page, dirty: bool, h: nat): (s: Shared)
    requires h < HASH_SIZE
    ensures WellFormed(s)
  {
    Shared([Node(a, data, dirty, NULL, NULL)], Empty().hash[h := 0], 0, 0, 1)
  }

  lemma OneLoads(file: Bytes, a: uint64, write: bool, bucket: Bucket, capacity: nat)
    requires capacity > 0
    ensures Get(Empty(), file, a, write, true, bucket, capacity)
        == Returned(One(a, PageAt(file, a), write, bucket(a)), 0)
  {
    var s := Empty();
    assert Follow(s.heap, s.hash[bucket(a)], a, 0) == NotFound;
    NotFoundLoads(s, file, a, write, bucket, capacity);
    hide PageAt, Get, Follow;
  }

  lemma OneHits(a: uint64, data: Page, dirty: bool, file: Bytes, write: bool, bucket: Bucket, capacity: nat)
    ensures Get(One(a, data, dirty, bucket(a)), file, a, write, true, bucket, capacity)
            == Returned(One(a, data, dirty || write, bucket(a)), 0)
  {
    hide PageAt;
    var s := One(a, data, dirty, bucket(a));
    assert Follow(s.heap, 0, a, 1) == Found(0);
    hide Follow, Insert;
  }

  lemma PwriteTwice(file: Bytes, a: nat, p: Page, q: Page)
    ensures Pwrite(Pwrite(file, a, p), a, q) == Pwrite(file, a, q)
  {}

  /** What the plain store holds when the only cached page is this one. */
  function PlainOne(file: Bytes, a: uint64, data: Page, dirty: bool): Bytes {
    if dirty then Pwrite(file, a, data) else file
  }

  lemma {:induction false} OneFreed(a: uint64, data: Page, dirty: bool, h: nat, k: nat, file: Bytes)
    requires h < HASH_SIZE && k <= HASH_SIZE
    ensures var r := FreeBuckets(One(a, data, dirty, h), k, file);
            r == if k <= h then Freeing({0}, file) else Freeing({}, PlainOne(file, a, data, dirty))
  {
    var s := One(a, data, dirty, h);
    if k == 0 {
      assert Below(1) == {0};
    } else {
      OneFreed(a, data, dirty, h, k - 1, file);
      if k - 1 == h {
        assert data[..PAGE_SIZE] == data;
        assert {0} - {0} == {};
      }
    }
  }

  lemma {:induction false} NothingFreed(k: nat, file: Bytes)
    requires k <= HASH_SIZE
    ensures FreeBuckets(Empty(), k, file) == Freeing({}, file)
  {
    if k > 0 { NothingFreed(k - 1, file); }
  }

  lemma OneDestroyed(a: uint64, data: Page, dirty: bool, h: nat, file: Bytes)
    requires h < HASH_SIZE
    ensures Destroy(One(a, data, dirty, h), file) == Freeing({}, PlainOne(file, a, data, dirty))
  {
    hide FreeBuckets;
    var s := One(a, data, dirty, h);
    DestroyIs(s, file);
    OneFreed(a, data, dirty, h, |s.hash|, file);
  }

  lemma NothingDestroyed(file: Bytes)
    ensures Destroy(Empty(), file) == Freeing({}, file)
  {
    hide FreeBuckets;
    DestroyIs(Empty(), file);
    NothingFreed(|Empty().hash|, file);
  }

  /** All requests are for page a. */
  ghost predicate Only(ops: seq<L.Op>, a: uint64) {
    forall op :: op in ops ==> op.off == a
  }

  /** One request changes the cached page as it changes the plain store. */
  lemma OneServed(file: Bytes, a: uint64, data: Page, dirty: bool, op: L.Op, bucket: Bucket, capacity: nat)
    requires op.off == a && Aligned(a)
    ensures var s, plain := One(a, data, dirty, bucket(a)), PlainOne(file, a, data, dirty);
            var r := Get(s, file, a, op.Write?, true, bucket, capacity);
            var data' := if op.Write? then op.page else data;
            && r.Returned? && r.s.heap[r.node].data == data
            && Finish(r.s, r.node, op) == One(a, data', dirty || op.Write?, bucket(a))
            && Coherence.PlainServe(plain, op) == PlainOne(file, a, data', dirty || op.Write?)
  {
    OneHits(a, data, dirty, file, op.Write?, bucket, capacity);
    if op.Write? && dirty { PwriteTwice(file, a, data, op.page); }
    hide Get, Pwrite;
  }

  lemma {:induction false} OneLives(file: Bytes, a: uint64, data: Page, dirty: bool, ops: seq<L.Op>, bucket: Bucket,
                                    capacity: nat)
    requires Aligned(a) && Only(ops, a) && data == PageAt(PlainOne(file, a, data, dirty), a)
    ensures WholeLife(One(a, data, dirty, bucket(a)), file, PlainOne(file, a, data, dirty), ops, bucket, capacity)
    decreases |ops|
  {
    if ops == [] {
      OneDestroyed(a, data, dirty, bucket(a), file);
    } else {
      var op := ops[0];
      OneServed(file, a, data, dirty, op, bucket, capacity);
      if op.Write? { PageAtAfterPwrite(PlainOne(file, a, data, dirty), a, op.page, a); }
      OneLives(file, a, if op.Write? then op.page else data, dirty || op.Write?, ops[1..], bucket, capacity);
    }
  }

  lemma LifeStep(s: Shared, file: Bytes, plain: Bytes, ops: seq<L.Op>, bucket: Bucket, capacity: nat)
    requires WellFormed(s) && ops != []
    ensures var r := Get(s, file, ops[0].off, ops[0].Write?, true, bucket, capacity);
            WholeLife(s, file, plain, ops, bucket, capacity) <==>
              && r.Returned? && r.s.heap[r.node].data == PageAt(plain, ops[0].off)
              && WholeLife(Finish(r.s, r.node, ops[0]), file, Coherence.PlainServe(plain, ops[0]), ops[1..], bucket,
                capacity)
  {}

  lemma OneFirst(file: Bytes, a: uint64, op: L.Op, h: nat)
    requires op.off == a && Aligned(a) && h < HASH_SIZE
    ensures var data := if op.Write? then op.page else PageAt(file, a);
            && One(a, PageAt(file, a), op.Write?, h).heap[0].data == PageAt(file, a)
            && Finish(One(a, PageAt(file, a), op.Write?, h), 0, op) == One(a, data, op.Write?, h)
            && Coherence.PlainServe(file, op) == PlainOne(file, a, data, op.Write?)
            && data == PageAt(PlainOne(file, a, data, op.Write?), a)
  {
    if op.Write? { PageAtAfterPwrite(file, a, op.page, a); }
    hide PageAt, Pwrite;
  }

  /** Runs on one page are right to the end. */
  lemma OnePageLives(file: Bytes, a: uint64, ops: seq<L.Op>, bucket: Bucket, capacity: nat)
    requires Aligned(a) && Only(ops, a) && capacity > 0
    ensures WholeLife(Empty(), file, file, ops, bucket, capacity)
  {
    if ops == [] {
      NothingDestroyed(file);
    } else {
      var op := ops[0];
      assert op.off == a && Only(ops[1..], a);
      hide *;
      OneLoads(file, a, op.Write?, bucket, capacity);
      OneFirst(file, a, op, bucket(a));
      LifeStep(Empty(), file, file, ops, bucket, capacity);
      OneLives(file, a, if op.Write? then op.page else PageAt(file, a), op.Write?, ops[1..], bucket, capacity);
    }
  }

  // ---- Runs on several pages, none in one bucket ---------------------------------------------------

  /** Every node is the one its bucket leads to. */
  ghost predicate Homed(s: Shared, offsets: set<uint64>, bucket: Bucket)
    requires |s.hash| == HASH_SIZE
  {
    forall n :: 0 <= n < |s.heap| ==> s.heap[n].offset in offsets && s.hash[bucket(s.heap[n].offset)] == n
  }

  /** The list's first node has a successor if there are two nodes. */
  predicate Fronted(s: Shared) {
    && (s.heap != [] ==> 0 <= s.head < |s.heap|)
    && (|s.heap| >= 2 ==> 0 <= s.heap[s.head].next < |s.heap| && s.heap[s.head].next != s.head)
  }

  lemma MoveFronted(s: Shared, e: nat)
    requires WellFormed(s) && Fronted(s) && e < |s.heap|
    ensures Fronted(MoveToFront(s, e))
  {}

  lemma InsertFronted(s: Shared, off: uint64, page: Page, write: bool, h: nat)
    requires WellFormed(s) && Fronted(s) && h < HASH_SIZE
    ensures Fronted(Insert(s, off, page, write, h))
  {}

  /** What a hit that finds its page at once does. */
  lemma HitMoves(s: Shared, file: Bytes, off: uint64, write: bool, bucket: Bucket, capacity: nat)
    requires WellFormed(s) && s.hash[bucket(off)] != NULL && s.heap[s.hash[bucket(off)]].offset == off
    ensures var e := s.hash[bucket(off)];
            var t := s.(heap := if write then s.heap[e := s.heap[e].(dirty := true)] else s.heap);
            WellFormed(t) && Get(s, file, off, write, true, bucket, capacity) == Returned(MoveToFront(t, e), e)
  {
    var e := s.hash[bucket(off)];
    assert Follow(s.heap, e, off, |s.heap|) == Found(e);
    hide Follow, MoveToFront, Insert, PageAt;
  }

  lemma DirtyFronted(s: Shared, e: nat, write: bool)
    requires WellFormed(s) && Fronted(s) && e < |s.heap|
    ensures Fronted(s.(heap := if write then s.heap[e := s.heap[e].(dirty := true)] else s.heap))
  {}

  lemma FinishFronted(s: Shared, e: nat, op: L.Op)
    requires WellFormed(s) && e < |s.heap|
    ensures Fronted(s) ==> Fronted(Finish(s, e, op))
    ensures Finish(s, e, op).hash == s.hash && |Finish(s, e, op).heap| == |s.heap|
    ensures forall i :: 0 <= i < |s.heap| ==> Finish(s, e, op).heap[i].offset == s.heap[i].offset
  {}

  /** What one request keeps. */
  ghost predicate Kept(s: Shared, t: Shared, op: L.Op, offsets: set<uint64>, bucket: Bucket)
    requires |s.hash| == HASH_SIZE && |t.hash| == HASH_SIZE
  {
    && Homed(t, offsets, bucket) && Fronted(t) && t.hash[bucket(op.off)] != NULL
    && forall h :: 0 <= h < HASH_SIZE && s.hash[h] != NULL ==> t.hash[h] != NULL
  }

  lemma HitKeeps(s: Shared, op: L.Op, file: Bytes, offsets: set<uint64>, bucket: Bucket, capacity: nat)
    requires WellFormed(s) && Homed(s, offsets, bucket) && Fronted(s)
    requires s.hash[bucket(op.off)] != NULL && s.heap[s.hash[bucket(op.off)]].offset == op.off
    ensures var r := Get(s, file, op.off, op.Write?, true, bucket, capacity);
            r.Returned? && Kept(s, Finish(r.s, r.node, op), op, offsets, bucket)
  {
    var e := s.hash[bucket(op.off)];
    var t := s.(heap := if op.Write? then s.heap[e := s.heap[e].(dirty := true)] else s.heap);
    HitMoves(s, file, op.off, op.Write?, bucket, capacity);
    hide *;
    GetAtOnce(s, file, op.off, op.Write?, bucket, capacity);
    DirtyFronted(s, e, op.Write?);
    MoveFronted(t, e);
    var u := MoveToFront(t, e);
    FinishFronted(u, e, op);
    SameKept(s, Finish(u, e, op), op, offsets, bucket);
  }

  lemma SameKept(s: Shared, t: Shared, op: L.Op, offsets: set<uint64>, bucket: Bucket)
    requires |s.hash| == HASH_SIZE && Homed(s, offsets, bucket) && s.hash[bucket(op.off)] != NULL
    requires t.hash == s.hash && |t.heap| == |s.heap| && Fronted(t)
    requires forall i :: 0 <= i < |s.heap| ==> t.heap[i].offset == s.heap[i].offset
    ensures Kept(s, t, op, offsets, bucket)
  {}

  lemma MissKeeps(s: Shared, op: L.Op, file: Bytes, offsets: set<uint64>, bucket: Bucket, capacity: nat)
    requires WellFormed(s) && Homed(s, offsets, bucket) && Fronted(s) && op.off in offsets
    requires s.hash[bucket(op.off)] == NULL && s.count < capacity
    ensures var r := Get(s, file, op.off, op.Write?, true, bucket, capacity);
            r.Returned? && Kept(s, Finish(r.s, r.node, op), op, offsets, bucket)
  {
    var h, page := bucket(op.off), PageAt(file, op.off);
    assert |s.hash| == HASH_SIZE;
    hide *;
    GetLoads(s, file, op.off, op.Write?, bucket, capacity);
    InsertFronted(s, op.off, page, op.Write?, h);
    InsertStacks(s, op.off, page, op.Write?, h);
    var t := Insert(s, op.off, page, op.Write?, h);
    FinishFronted(t, |s.heap|, op);
    NewKept(s, Finish(t, |s.heap|, op), op, offsets, bucket);
  }

  lemma NewKept(s: Shared, t: Shared, op: L.Op, offsets: set<uint64>, bucket: Bucket)
    requires |s.hash| == HASH_SIZE && Homed(s, offsets, bucket) && s.hash[bucket(op.off)] == NULL && op.off in offsets
    requires t.hash == s.hash[bucket(op.off) := |s.heap|] && |t.heap| == |s.heap| + 1 && Fronted(t)
    requires forall i :: 0 <= i < |s.heap| ==> t.heap[i].offset == s.heap[i].offset
    requires t.heap[|s.heap|].offset == op.off
    ensures Kept(s, t, op, offsets, bucket)
  {
    NewHomed(s, t, op.off, offsets, bucket);
    hide Homed, Fronted;
  }

  lemma NewHomed(s: Shared, t: Shared, off: uint64, offsets: set<uint64>, bucket: Bucket)
    requires |s.hash| == HASH_SIZE && Homed(s, offsets, bucket) && s.hash[bucket(off)] == NULL && off in offsets
    requires t.hash == s.hash[bucket(off) := |s.heap|] && |t.heap| == |s.heap| + 1
    requires forall i :: 0 <= i < |s.heap| ==> t.heap[i].offset == s.heap[i].offset
    requires t.heap[|s.heap|].offset == off
    ensures Homed(t, offsets, bucket)
  {
    forall n | 0 <= n < |t.heap|
      ensures t.heap[n].offset in offsets && t.hash[bucket(t.heap[n].offset)] == n
    {
      if n < |s.heap| { assert s.hash[bucket(s.heap[n].offset)] == n; }
    }
  }

  lemma RequestKeeps(s: Shared, op: L.Op, file: Bytes, plain: Bytes, offsets: set<uint64>, bucket: Bucket,
                     capacity: nat)
    requires Direct(s, file, plain, offsets, bucket) && Injective(bucket, offsets) && AllAligned(offsets)
    requires op.off in offsets && capacity >= HASH_SIZE && Homed(s, offsets, bucket) && Fronted(s)
    ensures var r := Get(s, file, op.off, op.Write?, true, bucket, capacity);
            && r.Returned? && Kept(s, Finish(r.s, r.node, op), op, offsets, bucket)
            && Direct(Finish(r.s, r.node, op), file, Coherence.PlainServe(plain, op), offsets, bucket)
  {
    if s.hash[bucket(op.off)] == NULL {
      MissDirect(s, op, file, plain, offsets, bucket, capacity);
      RoomLeft(s, op.off, file, plain, offsets, bucket);
      hide *;
      MissKeeps(s, op, file, offsets, bucket, capacity);
    } else {
      HitDirect(s, op, file, plain, offsets, bucket, capacity);
      assert s.heap[s.hash[bucket(op.off)]].offset == op.off;
      hide *;
      HitKeeps(s, op, file, offsets, bucket, capacity);
    }
  }

  lemma RoomLeft(s: Shared, off: uint64, file: Bytes, plain: Bytes, offsets: set<uint64>, bucket: Bucket)
    requires Direct(s, file, plain, offsets, bucket) && s.hash[bucket(off)] == NULL
    ensures s.count < HASH_SIZE
  {
    UsedOneMore(s.hash, bucket(off), 0);
    UsedFits(s.hash[bucket(off) := 0]);
  }

  /** Two pages cached: cache_destroy reads a freed node. */
  lemma TwoPagesFault(s: Shared, file: Bytes, plain: Bytes, a: uint64, b: uint64, offsets: set<uint64>, bucket: Bucket)
    requires Direct(s, file, plain, offsets, bucket) && Injective(bucket, offsets)
    requires Homed(s, offsets, bucket) && Fronted(s)
    requires a in offsets && b in offsets && a != b && s.hash[bucket(a)] != NULL && s.hash[bucket(b)] != NULL
    ensures Destroy(s, file) == FreedRead
  {
    assert bucket(a) != bucket(b);
    assert s.hash[bucket(a)] != s.hash[bucket(b)];
    assert |s.heap| >= 2;
    var x := s.head;
    var y := s.heap[x].next;
    LinkedNodesFault(s, file, x, y, bucket(s.heap[x].offset), bucket(s.heap[y].offset));
  }

  ghost predicate Asks(ops: seq<L.Op>, a: uint64) {
    exists op :: op in ops && op.off == a
  }

  /** Page a is cached, or will be. */
  ghost predicate Comes(s: Shared, ops: seq<L.Op>, a: uint64, bucket: Bucket)
    requires |s.hash| == HASH_SIZE
  {
    s.hash[bucket(a)] != NULL || Asks(ops, a)
  }

  lemma StillComes(s: Shared, t: Shared, ops: seq<L.Op>, a: uint64, offsets: set<uint64>, bucket: Bucket)
    requires |s.hash| == HASH_SIZE && |t.hash| == HASH_SIZE && ops != [] && Kept(s, t, ops[0], offsets, bucket)
    requires Comes(s, ops, a, bucket)
    ensures Comes(t, ops[1..], a, bucket)
  {
    if s.hash[bucket(a)] == NULL && ops[0].off != a {
      var op :| op in ops && op.off == a;
      assert op in ops[1..];
    }
  }

  /** A run that asks for two pages, in buckets of their own, does not end well. */
  lemma {:induction false} TwoPagesDie(s: Shared, file: Bytes, plain: Bytes, ops: seq<L.Op>, a: uint64, b: uint64,
                                       offsets: set<uint64>, bucket: Bucket, capacity: nat)
    requires Direct(s, file, plain, offsets, bucket) && Injective(bucket, offsets) && AllAligned(offsets)
    requires Uses(ops, offsets) && capacity >= HASH_SIZE && Homed(s, offsets, bucket) && Fronted(s)
    requires a in offsets && b in offsets && a != b && Comes(s, ops, a, bucket) && Comes(s, ops, b, bucket)
    ensures !WholeLife(s, file, plain, ops, bucket, capacity)
    decreases |ops|
  {
    assert WellFormed(s) && |s.hash| == HASH_SIZE;
    if ops == [] {
      TwoPagesFault(s, file, plain, a, b, offsets, bucket);
    } else {
      var op := ops[0];
      assert op.off in offsets && Uses(ops[1..], offsets);
      var r := Get(s, file, op.off, op.Write?, true, bucket, capacity);
      hide *;
      RequestKeeps(s, op, file, plain, offsets, bucket, capacity);
      LifeStep(s, file, plain, ops, bucket, capacity);
      var t := Finish(r.s, r.node, op);
      KeptMeans(s, t, op, offsets, bucket);
      StillComes(s, t, ops, a, offsets, bucket);
      StillComes(s, t, ops, b, offsets, bucket);
      TwoPagesDie(t, file, Coherence.PlainServe(plain, op), ops[1..], a, b, offsets, bucket, capacity);
    }
  }

  lemma KeptMeans(s: Shared, t: Shared, op: L.Op, offsets: set<uint64>, bucket: Bucket)
    requires |s.hash| == HASH_SIZE && |t.hash| == HASH_SIZE && Kept(s, t, op, offsets, bucket)
    ensures Homed(t, offsets, bucket) && Fronted(t)
  {}

  // ---- The exact conditions -----------------------------------------------------------------------

  ghost predicate OnePage(ops: seq<L.Op>) {
    forall op, op' :: op in ops && op' in ops ==> op.off == op'.off
  }

  /**
   A run over pages in buckets of their own, ended by cache_destroy, gives the plain store's pages and
   leaves its file if and only if it asks for one page only.
   */
  lemma LifeRightIff(file: Bytes, ops: seq<L.Op>, offsets: set<uint64>, bucket: Bucket, capacity: nat)
    requires AllAligned(offsets) && Injective(bucket, offsets) && Uses(ops, offsets) && capacity >= HASH_SIZE
    ensures WholeLife(Empty(), file, file, ops, bucket, capacity) <==> OnePage(ops)
  {
    if OnePage(ops) {
      var a := if ops == [] then 0 else ops[0].off;
      assert ops != [] ==> ops[0] in ops;
      OnePageLives(file, a, ops, bucket, capacity);
    } else {
      var op, op' :| op in ops && op' in ops && op.off != op'.off;
      assert Asks(ops, op.off) && Asks(ops, op'.off);
      EmptyDirect(file, offsets, bucket);
      EmptyHomed(offsets, bucket);
      hide WholeLife, Direct, Injective;
      TwoPagesDie(Empty(), file, file, ops, op.off, op'.off, offsets, bucket, capacity);
    }
  }

  lemma EmptyHomed(offsets: set<uint64>, bucket: Bucket)
    ensures Homed(Empty(), offsets, bucket) && Fronted(Empty())
  {}

  /** Two pages in different buckets: reading each once is enough. */
  lemma TwoReadsDie(file: Bytes, a: uint64, b: uint64, bucket: Bucket, capacity: nat)
    requires bucket(a) != bucket(b) && capacity > 0
    ensures !WholeLife(Empty(), file, file, [L.Read(a), L.Read(b)], bucket, capacity)
  {
    hide *;
    var ops := [L.Read(a), L.Read(b)];
    LifeStep(Empty(), file, file, ops, bucket, capacity);
    OneLoads(file, a, false, bucket, capacity);
    var s := One(a, PageAt(file, a), false, bucket(a));
    ReadFinishes(s, 0, a, file);
    SecondRead(file, a, b, PageAt(file, a), bucket, capacity);
    assert ops[1..] == [L.Read(b)];
  }

  lemma OneMeans(a: uint64, data: Page, h: nat, other: nat, b: uint64)
    requires h < HASH_SIZE && other < HASH_SIZE && h != other
    ensures var s := One(a, data, false, h);
            && |s.hash| == HASH_SIZE && s.hash[other] == NULL && s.hash[h] == 0 && s.head == 0
            && NULL < 0 && |s.heap| == s.count == 1 && Closed(s.heap) && Follow(s.heap, s.hash[other], b, 1) == NotFound
  {
    hide PageAt;
  }

  lemma SecondRead(file: Bytes, a: uint64, b: uint64, data: Page, bucket: Bucket, capacity: nat)
    requires bucket(a) != bucket(b) && capacity > 0
    ensures !WholeLife(One(a, data, false, bucket(a)), file, file, [L.Read(b)], bucket, capacity)
  {
    hide *;
    OneMeans(a, data, bucket(a), bucket(b), b);
    var s := One(a, data, false, bucket(a));
    var t := Insert(s, b, PageAt(file, b), false, bucket(b));
    LifeStep(s, file, file, [L.Read(b)], bucket, capacity);
    NotFoundLoads(s, file, b, false, bucket, capacity);
    if capacity > 1 {
      InsertStacks(s, b, PageAt(file, b), false, bucket(b));
      ReadFinishes(t, 1, b, file);
      LinkedNodesFault(t, file, 1, 0, bucket(b), bucket(a));
      assert [L.Read(b)][1..] == [];
      LifeEnds(t, file, file, bucket, capacity);
    }
  }

  lemma LifeEnds(s: Shared, file: Bytes, plain: Bytes, bucket: Bucket, capacity: nat)
    requires WellFormed(s)
    ensures WholeLife(s, file, plain, [], bucket, capacity) ==> Destroy(s, file).Freeing?
  {}

  /**
   The cache with shared links, from cache_init to cache_destroy, serves every run over the given pages
   and leaves the file as the plain store does, if and only if there is at most one page.
   */
  lemma AlwaysRightIff(file: Bytes, offsets: set<uint64>, bucket: Bucket, capacity: nat)
    requires AllAligned(offsets) && capacity > 0
    ensures (forall ops :: Uses(ops, offsets) ==> WholeLife(Empty(), file, file, ops, bucket, capacity))
            <==> |offsets| <= 1
  {
    hide WholeLife;
    if |offsets| <= 1 {
      forall ops | Uses(ops, offsets)
        ensures WholeLife(Empty(), file, file, ops, bucket, capacity)
      {
        FewPagesLive(file, ops, offsets, bucket, capacity);
      }
    } else {
      var ops := ManyPagesDie(file, offsets, bucket, capacity);
    }
  }

  lemma FewPagesLive(file: Bytes, ops: seq<L.Op>, offsets: set<uint64>, bucket: Bucket, capacity: nat)
    requires AllAligned(offsets) && capacity > 0 && |offsets| <= 1 && Uses(ops, offsets)
    ensures WholeLife(Empty(), file, file, ops, bucket, capacity)
  {
    var a := if ops == [] then 0 else ops[0].off;
    if ops != [] {
      assert ops[0] in ops;
      assert |offsets - {a}| == 0;
      assert offsets == {a};
    }
    OnePageLives(file, a, ops, bucket, capacity);
  }

  lemma ManyPagesDie(file: Bytes, offsets: set<uint64>, bucket: Bucket, capacity: nat) returns (ops: seq<L.Op>)
    requires AllAligned(offsets) && capacity > 0 && |offsets| > 1
    ensures Uses(ops, offsets) && !WholeLife(Empty(), file, file, ops, bucket, capacity)
  {
    hide WholeLife, Faithful;
    var a :| a in offsets;
    assert |offsets - {a}| > 0;
    var b :| b in offsets - {a};
    if bucket(a) != bucket(b) {
      ops := [L.Read(a), L.Read(b)];
      TwoReadsDie(file, a, b, bucket, capacity);
    } else {
      CollisionFails(file, offsets, bucket, capacity);
      ops :| Uses(ops, offsets) && !Faithful(Empty(), file, file, ops, bucket, capacity);
      if WholeLife(Empty(), file, file, ops, bucket, capacity) {
        LifeIsFaithful(Empty(), file, file, ops, bucket, capacity);
        assert false;
      }
    }
  }
}
