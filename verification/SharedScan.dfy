/** A scan of distinct pages on the single pair of links, ended by cache_destroy. */
module SharedScan {
  import opened Config
  import opened PageFile
  import L = LruSpec
  import opened SharedLinks
  import opened SharedTeardown
  import Coherence

  /** The entries of the first n nodes, newest first. */
  function Newest(heap: seq<Node>, n: nat): (es: seq<L.Entry>)
    requires n <= |heap|
    ensures |es| == n && forall i :: 0 <= i < n ==> es[i] == EntryAt(heap[n - 1 - i])
  {
    if n == 0 then [] else [EntryAt(heap[n - 1])] + Newest(heap, n - 1)
  }

  /** The newest node of bucket h, by the requests. */
  function NewestIn(ops: seq<L.Op>, h: nat, bucket: Bucket): int {
    if ops == [] then NULL
    else if bucket(ops[|ops| - 1].off) == h then |ops| - 1
    else NewestIn(ops[..|ops| - 1], h, bucket)
  }

  ghost predicate Hashed(s: Shared, ops: seq<L.Op>, bucket: Bucket) {
    |s.hash| == HASH_SIZE && forall h :: 0 <= h < HASH_SIZE ==> s.hash[h] == NewestIn(ops, h, bucket)
  }

  /** The state after requests for distinct pages: a stack, each bucket at its newest node. */
  ghost predicate Scanned(s: Shared, file: Bytes, plain: Bytes, ops: seq<L.Op>, bucket: Bucket) {
    && Stacked(s, ops) && Hashed(s, ops, bucket)
    && L.Distinct(Newest(s.heap, |s.heap|))
    && Coherence.Agrees(Coherence.Contents(Newest(s.heap, |s.heap|)), file, plain)
  }

  lemma EmptyScanned(file: Bytes, bucket: Bucket)
    ensures Scanned(Empty(), file, file, [], bucket)
  {}

  lemma {:induction false} SameNewest(heap: seq<Node>, other: seq<Node>, n: nat)
    requires n <= |heap| && n <= |other| && forall i :: 0 <= i < n ==> EntryAt(heap[i]) == EntryAt(other[i])
    ensures Newest(heap, n) == Newest(other, n)
  {
    if n > 0 { SameNewest(heap, other, n - 1); }
  }

  // ---- One bucket: every node is written back once ------------------------------------------------

  function InFull(): uint64 -> int { off => PAGE_SIZE }

  /** A walk down a stack frees it all and flushes its pages, newest first. */
  lemma {:induction false} WalksDown(heap: seq<Node>, e: int, file: Bytes)
    requires Closed(heap) && IsLink(e, |heap|) && forall i :: 0 <= i < |heap| ==> heap[i].next == i - 1
    ensures FreeChain(heap, e, Below(e + 1), file) == Freeing({}, L.Flush(file, Newest(heap, e + 1), InFull()))
    decreases e + 1
  {
    assert NULL <= e < |heap|;
    hide *;
    if e < 0 {
      NothingLeft(heap, e, file);
    } else {
      var x := EntryAt(heap[e]);
      ChainNext(heap, e, Below(e + 1), file);
      BelowNext(e);
      NewestNext(heap, e);
      FlushNext(file, x, Newest(heap, e));
      WalksDown(heap, e - 1, L.WriteBack(file, x, PAGE_SIZE));
    }
  }

  lemma NothingLeft(heap: seq<Node>, e: int, file: Bytes)
    requires Closed(heap) && IsLink(e, |heap|) && e < 0
    ensures FreeChain(heap, e, Below(e + 1), file) == Freeing({}, L.Flush(file, Newest(heap, e + 1), InFull()))
  {}

  lemma ChainNext(heap: seq<Node>, e: nat, live: set<int>, file: Bytes)
    requires Closed(heap) && e < |heap|
    ensures IsLink(heap[e].next, |heap|)
    ensures e in live ==> FreeChain(heap, e, live, file)
                          == FreeChain(heap, heap[e].next, live - {e}, L.WriteBack(file, EntryAt(heap[e]), PAGE_SIZE))
  {}

  lemma BelowNext(e: nat)
    ensures e in Below(e + 1) && Below(e + 1) - {e} == Below(e)
  {}

  lemma NewestNext(heap: seq<Node>, e: nat)
    requires e < |heap|
    ensures Newest(heap, e + 1) == [EntryAt(heap[e])] + Newest(heap, e)
  {}

  lemma FlushNext(file: Bytes, x: L.Entry, rest: seq<L.Entry>)
    ensures L.Flush(file, [x] + rest, InFull()) == L.Flush(L.WriteBack(file, x, PAGE_SIZE), rest, InFull())
  {
    assert ([x] + rest)[1..] == rest;
  }

  ghost predicate SameBucket(ops: seq<L.Op>, bucket: Bucket) {
    forall op, op' :: op in ops && op' in ops ==> bucket(op.off) == bucket(op'.off)
  }

  lemma {:induction false} OnlyBucket(ops: seq<L.Op>, b: nat, h: nat, bucket: Bucket)
    requires ops != [] && forall op :: op in ops ==> bucket(op.off) == b
    ensures NewestIn(ops, h, bucket) == if h == b then |ops| - 1 else NULL
  {
    var n := |ops| - 1;
    assert ops[n] in ops;
    if h != b && n > 0 { OnlyBucket(ops[..n], b, h, bucket); }
  }

  lemma {:induction false} OneBucketFreed(s: Shared, ops: seq<L.Op>, b: nat, k: nat, bucket: Bucket, file: Bytes)
    requires Stacked(s, ops) && Hashed(s, ops, bucket) && ops != [] && k <= HASH_SIZE
    requires forall op :: op in ops ==> bucket(op.off) == b
    ensures FreeBuckets(s, k, file) ==
              if k <= b then Freeing(Below(|s.heap|), file)
              else Freeing({}, L.Flush(file, Newest(s.heap, |s.heap|), InFull()))
  {
    hide *;
    StackedMeans(s, ops);
    if k == 0 {
      NoneWalked(s, file);
    } else {
      OneBucketFreed(s, ops, b, k - 1, bucket, file);
      OnlyBucket(ops, b, k - 1, bucket);
      HashedAt(s, ops, k - 1, bucket);
      if k <= b + 1 {
        NextWalk(s, k, Below(|s.heap|), file);
      } else {
        NextWalk(s, k, {}, L.Flush(file, Newest(s.heap, |s.heap|), InFull()));
      }
      if k == b + 1 {
        StackDown(s, ops);
        WalksDown(s.heap, |s.heap| - 1, file);
      } else if k <= b {
        NothingWalked(s.heap, Below(|s.heap|), file);
      } else {
        NothingWalked(s.heap, {}, L.Flush(file, Newest(s.heap, |s.heap|), InFull()));
      }
    }
  }

  lemma NoneWalked(s: Shared, file: Bytes)
    requires WellFormed(s)
    ensures FreeBuckets(s, 0, file) == Freeing(Below(|s.heap|), file)
  {}

  lemma NextWalk(s: Shared, k: nat, live: set<int>, file: Bytes)
    requires WellFormed(s)
    ensures forall start :: 0 < k <= HASH_SIZE && FreeBuckets(s, k - 1, start) == Freeing(live, file) ==>
              FreeBuckets(s, k, start) == FreeChain(s.heap, s.hash[k - 1], live, file)
  {}

  lemma HashedAt(s: Shared, ops: seq<L.Op>, h: nat, bucket: Bucket)
    requires Hashed(s, ops, bucket) && h < HASH_SIZE
    ensures |s.hash| == HASH_SIZE && s.hash[h] == NewestIn(ops, h, bucket)
  {}

  lemma StackDown(s: Shared, ops: seq<L.Op>)
    requires Stacked(s, ops)
    ensures Closed(s.heap) && forall i :: 0 <= i < |s.heap| ==> s.heap[i].next == i - 1
  {}

  lemma NothingWalked(heap: seq<Node>, live: set<int>, file: Bytes)
    requires Closed(heap)
    ensures FreeChain(heap, NULL, live, file) == Freeing(live, file)
  {}

  lemma OneBucketRight(s: Shared, file: Bytes, plain: Bytes, ops: seq<L.Op>, bucket: Bucket)
    requires Scanned(s, file, plain, ops, bucket) && SameBucket(ops, bucket)
    ensures WellFormed(s) && Destroy(s, file) == Freeing({}, plain)
  {
    var written := InFull();
    assert forall off :: written(off) == PAGE_SIZE;
    Coherence.FlushReachesPlain(Newest(s.heap, |s.heap|), file, plain, written);
    DestroyIs(s, file);
    if ops == [] {
      NothingHashed(s, HASH_SIZE, file);
    } else {
      assert ops[0] in ops;
      hide FreeBuckets, NewestIn, Newest;
      OneBucketFreed(s, ops, bucket(ops[0].off), |s.hash|, bucket, file);
    }
  }

  lemma {:induction false} NothingHashed(s: Shared, k: nat, file: Bytes)
    requires WellFormed(s) && k <= HASH_SIZE && s.heap == [] && forall h :: 0 <= h < HASH_SIZE ==> s.hash[h] == NULL
    ensures FreeBuckets(s, k, file) == Freeing({}, file)
  {
    if k > 0 { NothingHashed(s, k - 1, file); }
  }

  // ---- Two buckets: one walk frees what the other walks over -----------------------------------------

  lemma {:induction false} ChainFreesAll(heap: seq<Node>, e: int, live: set<int>, file: Bytes, i: nat)
    requires Closed(heap) && IsLink(e, |heap|) && (forall j :: 0 <= j < |heap| ==> heap[j].next == j - 1) && i <= e
    ensures var r := FreeChain(heap, e, live, file); r.Freeing? ==> r.live <= live && i in live && i !in r.live
    decreases e
  {
    ChainFrees(heap, e, live, file);
    if i < e && e in live {
      var file' := L.WriteBack(file, EntryAt(heap[e]), PAGE_SIZE);
      ChainFreesAll(heap, e - 1, live - {e}, file', i);
    }
  }

  lemma {:induction false} WalkFreesAll(s: Shared, ops: seq<L.Op>, h: nat, g: nat, file: Bytes, i: nat)
    requires Stacked(s, ops) && g < h <= HASH_SIZE && i <= s.hash[g]
    ensures var r := FreeBuckets(s, h, file); r.Freeing? ==> i !in r.live
  {
    var before := FreeBuckets(s, h - 1, file);
    if before.Freeing? {
      ChainFrees(s.heap, s.hash[h - 1], before.live, before.file);
      if g == h - 1 { ChainFreesAll(s.heap, s.hash[g], before.live, before.file, i); }
    }
    if g < h - 1 { WalkFreesAll(s, ops, h - 1, g, file, i); }
  }

  /** A node below another, first in a bucket of its own. */
  lemma TwoBucketsFault(s: Shared, ops: seq<L.Op>, g: nat, h: nat, file: Bytes)
    requires Stacked(s, ops) && g < HASH_SIZE && h < HASH_SIZE && g != h && NULL < s.hash[h] < s.hash[g]
    ensures Destroy(s, file) == FreedRead
  {
    DestroyIs(s, file);
    var last := if g < h then h else g;
    var before := FreeBuckets(s, last, file);
    WalkFreesAll(s, ops, last, if g < h then g else h, file, s.hash[h]);
    if before.Freeing? {
      ChainFreesAll(s.heap, s.hash[last], before.live, before.file, s.hash[h]);
    }
    hide FreeBuckets;
    StaysFaulted(s, last + 1, |s.hash|, file);
  }

  // ---- The run ----------------------------------------------------------------------------------------

  lemma NewestInNext(done: seq<L.Op>, op: L.Op, h: nat, bucket: Bucket)
    ensures NewestIn(done + [op], h, bucket) == if bucket(op.off) == h then |done| else NewestIn(done, h, bucket)
  {
    assert (done + [op])[..|done|] == done;
  }

  lemma HashedNext(s: Shared, t: Shared, done: seq<L.Op>, op: L.Op, bucket: Bucket)
    requires Hashed(s, done, bucket) && t.hash == s.hash[bucket(op.off) := |done|]
    ensures Hashed(t, done + [op], bucket)
  {
    forall h | 0 <= h < HASH_SIZE
      ensures t.hash[h] == NewestIn(done + [op], h, bucket)
    {
      NewestInNext(done, op, h, bucket);
    }
  }

  /** The entry that one request for a new page adds. */
  function Added(file: Bytes, op: L.Op): L.Entry {
    L.Entry(op.off, if op.Write? then op.page else PageAt(file, op.off), op.Write?)
  }

  lemma InsertedEntries(s: Shared, file: Bytes, op: L.Op, h: nat)
    requires WellFormed(s) && h < HASH_SIZE
    ensures var n := |s.heap|;
            var t := Finish(Insert(s, op.off, PageAt(file, op.off), op.Write?, h), n, op);
            && |t.heap| == n + 1 && t.hash == s.hash[h := n]
            && EntryAt(t.heap[n]) == Added(file, op) && forall i :: 0 <= i < n ==>
              EntryAt(t.heap[i]) == EntryAt(s.heap[i])
  {
    var t := Insert(s, op.off, PageAt(file, op.off), op.Write?, h);
    var extended := s.heap + [Node(op.off, PageAt(file, op.off), op.Write?, NULL, NULL)];
    hide Insert, Closed, PageAt;
    assert SamePages(extended, t.heap);
    assert extended[|s.heap|].offset == op.off;
    assert forall i :: 0 <= i < |s.heap| ==> extended[i] == s.heap[i];
  }

  lemma AgreesNext(es: seq<L.Entry>, file: Bytes, plain: Bytes, op: L.Op)
    requires L.Distinct(es) && Coherence.Agrees(Coherence.Contents(es), file, plain) && Aligned(op.off)
    requires forall i :: 0 <= i < |es| ==> es[i].offset != op.off
    ensures PageAt(file, op.off) == PageAt(plain, op.off)
    ensures L.Distinct([Added(file, op)] + es)
    ensures Coherence.Agrees(Coherence.Contents([Added(file, op)] + es), file, Coherence.PlainServe(plain, op))
  {
    Coherence.ContentsOf(es);
    Coherence.AgreesElsewhere(es, file, plain, op.off);
    assert op.off !in Coherence.Contents(es);
    hide Coherence.Contents, L.Distinct, Coherence.Agrees, PageAt;
    Coherence.ConsContents(Added(file, op), es);
    if op.Write? {
      Coherence.WriteAgrees(Coherence.Contents(es), file, plain, op.off, op.page);
    } else {
      Coherence.CleanLoadAgrees(Coherence.Contents(es), file, plain, op.off);
    }
  }

  lemma ScanStep(s: Shared, file: Bytes, plain: Bytes, done: seq<L.Op>, op: L.Op, bucket: Bucket, capacity: nat)
    requires Scanned(s, file, plain, done, bucket) && Aligned(op.off) && |done| < capacity
    requires forall o :: o in done ==> o.off != op.off
    ensures WellFormed(s)
    ensures var r := Get(s, file, op.off, op.Write?, true, bucket, capacity);
            && r.Returned? && r.s.heap[r.node].data == PageAt(plain, op.off)
            && Scanned(Finish(r.s, r.node, op), file, Coherence.PlainServe(plain, op), done + [op], bucket)
  {
    hide *;
    ScannedMeans(s, file, plain, done, bucket);
    StackedMeans(s, done);
    BucketBelow(bucket, op.off);
    NewOffset(s, done, op);
    var n, h, es := |s.heap|, bucket(op.off), Newest(s.heap, |s.heap|);
    var t := Insert(s, op.off, PageAt(file, op.off), op.Write?, h);
    var u := Finish(t, n, op);
    WalkDown(s, done, s.hash[h], op.off, n);
    NotFoundLoads(s, file, op.off, op.Write?, bucket, capacity);
    StackedNext(s, file, done, op, bucket, capacity);
    InsertedEntries(s, file, op, h);
    InsertedPage(s, file, op, h);
    HashedNext(s, u, done, op, bucket);
    NewestNext(u.heap, n);
    SameNewest(u.heap, s.heap, n);
    AgreesNext(es, file, plain, op);
    ScannedIs(u, file, Coherence.PlainServe(plain, op), done + [op], bucket);
  }

  lemma BucketBelow(bucket: Bucket, off: uint64)
    ensures bucket(off) < HASH_SIZE
  {}

  lemma InsertedPage(s: Shared, file: Bytes, op: L.Op, h: nat)
    requires WellFormed(s) && h < HASH_SIZE
    ensures var t := Insert(s, op.off, PageAt(file, op.off), op.Write?, h);
            |t.heap| == |s.heap| + 1 && t.heap[|s.heap|].data == PageAt(file, op.off)
  {
    hide PageAt, Closed;
  }

  lemma ScannedMeans(s: Shared, file: Bytes, plain: Bytes, ops: seq<L.Op>, bucket: Bucket)
    requires Scanned(s, file, plain, ops, bucket)
    ensures WellFormed(s) && Stacked(s, ops) && Hashed(s, ops, bucket) && L.Distinct(Newest(s.heap, |s.heap|))
    ensures Coherence.Agrees(Coherence.Contents(Newest(s.heap, |s.heap|)), file, plain)
  {}

  lemma ScannedIs(s: Shared, file: Bytes, plain: Bytes, ops: seq<L.Op>, bucket: Bucket)
    requires Stacked(s, ops) && Hashed(s, ops, bucket) && L.Distinct(Newest(s.heap, |s.heap|))
    requires Coherence.Agrees(Coherence.Contents(Newest(s.heap, |s.heap|)), file, plain)
    ensures Scanned(s, file, plain, ops, bucket)
  {}

  lemma NewOffset(s: Shared, done: seq<L.Op>, op: L.Op)
    requires Stacked(s, done) && forall o :: o in done ==> o.off != op.off
    ensures forall i :: 0 <= i < |s.heap| ==> Newest(s.heap, |s.heap|)[i].offset != op.off
  {
    forall i | 0 <= i < |s.heap|
      ensures Newest(s.heap, |s.heap|)[i].offset != op.off
    {
      assert done[|s.heap| - 1 - i] in done;
    }
  }

  lemma {:induction false} Newer(ops: seq<L.Op>, i: nat, bucket: Bucket)
    requires i < |ops|
    ensures i <= NewestIn(ops, bucket(ops[i].off), bucket) < |ops|
  {
    var n := |ops| - 1;
    if i < n { Newer(ops[..n], i, bucket); }
  }

  /** Two pages of different buckets among the cached: the newest page and one below it in another bucket. */
  lemma OtherBucketFaults(s: Shared, file: Bytes, ops: seq<L.Op>, bucket: Bucket)
    requires Stacked(s, ops) && Hashed(s, ops, bucket) && !SameBucket(ops, bucket)
    ensures Destroy(s, file) == FreedRead
  {
    var n := |ops| - 1;
    var g := bucket(ops[n].off);
    var op :| op in ops && bucket(op.off) != g;
    var i :| 0 <= i < |ops| && ops[i] == op;
    Newer(ops, n, bucket);
    Newer(ops, i, bucket);
    OtherThanNewest(ops, bucket(op.off), bucket);
    hide NewestIn, Destroy, FreeBuckets;
    TwoBucketsFault(s, ops, g, bucket(op.off), file);
  }

  lemma OtherThanNewest(ops: seq<L.Op>, h: nat, bucket: Bucket)
    requires ops != [] && bucket(ops[|ops| - 1].off) != h
    ensures NewestIn(ops, h, bucket) < |ops| - 1
  {
    NewestBelow(ops[..|ops| - 1], h, bucket);
  }

  lemma {:induction false} NewestBelow(ops: seq<L.Op>, h: nat, bucket: Bucket)
    ensures NULL <= NewestIn(ops, h, bucket) < |ops|
  {
    if ops != [] { NewestBelow(ops[..|ops| - 1], h, bucket); }
  }

  /** Without further requests the end of the life is cache_destroy. */
  lemma ScanEnds(s: Shared, file: Bytes, plain: Bytes, done: seq<L.Op>, bucket: Bucket, capacity: nat)
    requires Scanned(s, file, plain, done, bucket)
    ensures WellFormed(s)
    ensures WholeLife(s, file, plain, [], bucket, capacity) <==> SameBucket(done, bucket)
  {
    hide *;
    ScannedMeans(s, file, plain, done, bucket);
    NoRequests(s, file, plain, bucket, capacity);
    if SameBucket(done, bucket) {
      OneBucketRight(s, file, plain, done, bucket);
    } else {
      OtherBucketFaults(s, file, done, bucket);
    }
  }

  lemma NoRequests(s: Shared, file: Bytes, plain: Bytes, bucket: Bucket, capacity: nat)
    requires WellFormed(s)
    ensures WholeLife(s, file, plain, [], bucket, capacity) <==>
              Destroy(s, file).Freeing? && Destroy(s, file).file == plain
  {}

  lemma {:induction false} ScanLife(s: Shared, file: Bytes, plain: Bytes, done: seq<L.Op>, ops: seq<L.Op>,
                                    bucket: Bucket, capacity: nat)
    requires Scanned(s, file, plain, done, bucket) && DistinctPages(done + ops) && |done + ops| <= capacity
    requires forall op :: op in ops ==> Aligned(op.off)
    ensures WellFormed(s)
    ensures WholeLife(s, file, plain, ops, bucket, capacity) <==> SameBucket(done + ops, bucket)
    decreases |ops|
  {
    hide *;
    ScannedMeans(s, file, plain, done, bucket);
    if ops == [] {
      assert done + [] == done;
      ScanEnds(s, file, plain, done, bucket, capacity);
    } else {
      var op := ops[0];
      assert op in ops && forall o :: o in ops[1..] ==> o in ops;
      assert done + [op] + ops[1..] == done + ops;
      NewPage(done, ops);
      ScanStep(s, file, plain, done, op, bucket, capacity);
      LifeStep(s, file, plain, ops, bucket, capacity);
      var r := Get(s, file, op.off, op.Write?, true, bucket, capacity);
      ScanLife(Finish(r.s, r.node, op), file, Coherence.PlainServe(plain, op), done + [op], ops[1..], bucket, capacity);
    }
  }

  /**
   A run over distinct pages within the capacity, ended by cache_destroy, gives the plain store's pages
   and leaves its file if and only if all the pages share one bucket.
   */
  lemma ScanLifeIff(file: Bytes, ops: seq<L.Op>, bucket: Bucket, capacity: nat)
    requires DistinctPages(ops) && |ops| <= capacity && forall op :: op in ops ==> Aligned(op.off)
    ensures WholeLife(Empty(), file, file, ops, bucket, capacity) <==> SameBucket(ops, bucket)
  {
    hide *;
    EmptyScanned(file, bucket);
    assert [] + ops == ops;
    ScanLife(Empty(), file, file, [], ops, bucket, capacity);
  }
}
