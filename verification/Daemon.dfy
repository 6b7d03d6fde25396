/** The daemon's cores: the blocks one core walks over, and what the walk does to its cache. */
module Daemon {
  import opened Options
  import opened Arith
  import opened Config
  import opened PageFile
  import opened LruSpec
  import opened Recency
  import Fnv
  import SharedLinks

  const DAEMON_CORES := 2
  const SEG_SIZE: uint64 := 64 * 1024 * 1024
  const SEG_BLOCKS := SEG_SIZE / BLOCK_SIZE

  function Wrap(x: nat): uint64 { x % 0x1_0000_0000_0000_0000 }

  /** The offset of block `idx` (modulo the segment) in the segment of core `id`. */
  function BlockOffset(id: nat, idx: nat, segSize: nat): nat
    requires segSize >= BLOCK_SIZE
  {
    id * segSize + idx % (segSize / BLOCK_SIZE) * BLOCK_SIZE
  }

  /** The head of core_run's loop body: take the core's counter, advance it, form the offset. */
  method NextOffset(pos: array<uint64>, id: nat) returns (offset: uint64)
    requires id < DAEMON_CORES == pos.Length
    modifies pos
    ensures offset == BlockOffset(id, old(pos[id]), SEG_SIZE) && Aligned(offset)
    ensures offset == id * 67108864 + old(pos[id]) % 16384 * 4096
    ensures pos[id] as int == (old(pos[id]) as int + 1) % 0x1_0000_0000_0000_0000
    ensures pos[id] as int == Wrap(old(pos[id]) as int + 1)
    ensures forall j :: 0 <= j < pos.Length && j != id ==> pos[j] == old(pos[j])
  {
    var idx := pos[id];
    pos[id] := Wrap(idx + 1);
    offset := id * SEG_SIZE + idx % (SEG_SIZE / BLOCK_SIZE) * BLOCK_SIZE;
  }

  // ---- Segment coverage ---------------------------------------------------------------------

  /** Blocks of different cores never overlap, and each lies inside its core's segment. */
  lemma SegmentsDisjoint(id: nat, id': nat, idx: nat, idx': nat)
    requires id != id'
    ensures var o, o' := BlockOffset(id, idx, SEG_SIZE), BlockOffset(id', idx', SEG_SIZE);
            && id * SEG_SIZE <= o && o + BLOCK_SIZE <= (id + 1) * SEG_SIZE
            && (o + BLOCK_SIZE <= o' || o' + BLOCK_SIZE <= o)
  {}

  /** Iteration k from counter value `start` is the one that visits block b of an n-block segment. */
  ghost predicate Visits(start: uint64, k: nat, n: nat, b: nat)
    requires n > 0
  {
    Mod(Wrap(start + k), n) == b
  }

  ghost predicate VisitsOnce(start: uint64, n: nat, b: nat)
    requires n > 0
  {
    exists k :: 0 <= k < n && Visits(start, k, n, b) && forall j :: 0 <= j < n && Visits(start, j, n, b) ==> j == k
  }

  /** Every window of n consecutive iterations visits each block once. */
  ghost predicate CoversEveryWindow(n: nat)
    requires n > 0
  {
    forall start: uint64, b: nat :: b < n ==> VisitsOnce(start, n, b)
  }

  /** The counter's wraparound does not disturb the residue when n divides 2^64. */
  lemma WrapKeepsResidue(x: nat, n: nat)
    requires n > 0 && 0x1_0000_0000_0000_0000 % n == 0
    ensures Mod(Wrap(x), n) == Mod(x, n)
  {
    var m := 0x1_0000_0000_0000_0000 / n;
    var q := x / 0x1_0000_0000_0000_0000;
    assert m * n == 0x1_0000_0000_0000_0000;
    assert x == Wrap(x) + q * (m * n) == Wrap(x) + (q * m) * n;
    ModAddMultiple(Wrap(x), q * m, n);
  }

  /**
   Any n consecutive iterations visit each of the n blocks exactly once, wraparound of the 64-bit
   counter included, if and only if n divides 2^64.
   */
  lemma CoverageIff(n: nat)
    requires 0 < n < 0x1_0000_0000_0000_0000
    ensures CoversEveryWindow(n) <==> 0x1_0000_0000_0000_0000 % n == 0
  {
    if 0x1_0000_0000_0000_0000 % n == 0 {
      forall start: uint64, b: nat | b < n
        ensures VisitsOnce(start, n, b)
      {
        WindowCovered(start, n, b);
      }
    } else {
      SomeWindowMisses(n);
    }
  }

  lemma WindowCovered(start: uint64, n: nat, b: nat)
    requires 0 < n && 0x1_0000_0000_0000_0000 % n == 0 && b < n
    ensures VisitsOnce(start, n, b)
  {
    var k := OneResidue(start, n, b);
    forall j | 0 <= j < n
      ensures Visits(start, j, n, b) <==> Mod(start + j, n) == b
    {
      WrapKeepsResidue(start + j, n);
    }
    assert Visits(start, k, n, b);
  }

  /** Otherwise the window that starts at the last counter value visits one block twice. */
  lemma SomeWindowMisses(n: nat)
    requires 0 < n < 0x1_0000_0000_0000_0000 && 0x1_0000_0000_0000_0000 % n != 0
    ensures !CoversEveryWindow(n)
  {
    var r := 0x1_0000_0000_0000_0000 % n;
    var start: uint64 := 0xFFFF_FFFF_FFFF_FFFF;
    ModIs(start, 0x1_0000_0000_0000_0000 / n, r - 1, n);
    ModSmall(r - 1, n);
    assert Visits(start, 0, n, r - 1) && Visits(start, r, n, r - 1);
    assert !VisitsOnce(start, n, r - 1);
  }

  /** The daemon's segment of 16384 blocks is covered by every window of 16384 iterations. */
  lemma DaemonCovers()
    ensures SEG_BLOCKS == 16384 && CoversEveryWindow(SEG_BLOCKS)
  {
    CoverageIff(SEG_BLOCKS);
  }

  // ---- The cyclic scan against the cache -----------------------------------------------------

  /** Page k of a region of n pages, walked over cyclically. */
  function ScanOffset(base: nat, n: nat, k: nat): nat
    requires n > 0
  {
    base + Mod(k, n) * PAGE_SIZE
  }

  ghost predicate IsScan(ops: seq<Op>, base: nat, n: nat)
    requires n > 0
  {
    forall t :: 0 <= t < |ops| ==> ops[t].off == ScanOffset(base, n, t)
  }

  function ScanTrace(base: nat, n: nat, t: nat): seq<uint64>
    requires n > 0 && base + n * PAGE_SIZE <= 0x1_0000_0000_0000_0000
  {
    seq(t, k requires 0 <= k => OffsetBelow(base, n, k))
  }

  function OffsetBelow(base: nat, n: nat, k: nat): (off: uint64)
    requires n > 0 && base + n * PAGE_SIZE <= 0x1_0000_0000_0000_0000
    ensures off == ScanOffset(base, n, k)
  {
    ScanOffset(base, n, k)
  }

  /** The last min(t, n) pages of the scan, latest first. */
  function LastPages(base: nat, n: nat, t: nat): seq<uint64>
    requires n > 0 && base + n * PAGE_SIZE <= 0x1_0000_0000_0000_0000
  {
    seq(Min(t, n), i requires 0 <= i < Min(t, n) => OffsetBelow(base, n, t - 1 - i))
  }

  lemma {:induction false} ScanOrder(base: nat, n: nat, t: nat)
    requires n > 0 && base + n * PAGE_SIZE <= 0x1_0000_0000_0000_0000
    ensures Order(ScanTrace(base, n, t)) == LastPages(base, n, t)
  {
    if t > 0 {
      ScanOrder(base, n, t - 1);
      assert ScanTrace(base, n, t) == ScanTrace(base, n, t - 1) + [OffsetBelow(base, n, t - 1)];
      OrderAppend(ScanTrace(base, n, t - 1), OffsetBelow(base, n, t - 1));
      OrderNoDup(ScanTrace(base, n, t - 1));
      NextPage(base, n, t - 1);
    }
  }

  /** The page the scan comes to next was used n steps ago, and not since. */
  lemma NextInOrder(base: nat, n: nat, t: nat)
    requires n > 0 && base + n * PAGE_SIZE <= 0x1_0000_0000_0000_0000
    ensures forall i :: 0 <= i < Min(t, n) ==> (LastPages(base, n, t)[i] == OffsetBelow(base, n, t) <==> i == n - 1)
  {
    forall i | 0 <= i < Min(t, n)
      ensures LastPages(base, n, t)[i] == OffsetBelow(base, n, t) <==> i == n - 1
    {
      var j := t - 1 - i;
      assert LastPages(base, n, t)[i] == OffsetBelow(base, n, j);
      if i == n - 1 {
        ModAddMultiple(j, 1, n);
        assert j + 1 * n == t;
        assert Mod(j, n) == Mod(t, n);
      } else if Mod(j, n) == Mod(t, n) {
        ModSeparates(j, t, n);
      }
    }
  }

  lemma NextPage(base: nat, n: nat, t: nat)
    requires n > 0 && base + n * PAGE_SIZE <= 0x1_0000_0000_0000_0000
    requires NoDup(LastPages(base, n, t))
    ensures [OffsetBelow(base, n, t)] + Without(LastPages(base, n, t), OffsetBelow(base, n, t))
        == LastPages(base, n, t + 1)
  {
    var order, x := LastPages(base, n, t), OffsetBelow(base, n, t);
    NextInOrder(base, n, t);
    if t < n {
      WithoutAbsent(order, x);
      assert [x] + order == LastPages(base, n, t + 1);
    } else {
      WithoutAt(order, n - 1);
      assert [x] + (order[..n - 1] + order[n..]) == LastPages(base, n, t + 1);
    }
  }

  /** The next page of the scan is among the first `capacity` of the last pages iff the region fits. */
  lemma NextResident(base: nat, n: nat, t: nat, capacity: nat)
    requires n > 0 && base + n * PAGE_SIZE <= 0x1_0000_0000_0000_0000
    ensures OffsetBelow(base, n, t) in Take(LastPages(base, n, t), capacity) <==> n <= t && n <= capacity
  {
    var order, x := LastPages(base, n, t), OffsetBelow(base, n, t);
    NextInOrder(base, n, t);
    if n <= t && n <= capacity {
      assert Take(order, capacity)[n - 1] == x;
    }
  }

  lemma TraceOfScan(ops: seq<Op>, results: seq<Option<Page>>, base: nat, n: nat)
    requires n > 0 && base + n * PAGE_SIZE <= 0x1_0000_0000_0000_0000
    requires IsScan(ops, base, n) && |results| == |ops| && forall r :: r in results ==> r.Some?
    ensures Trace(ops, results) == ScanTrace(base, n, |ops|)
  {
    if ops != [] {
      var t := |ops| - 1;
      TraceOfScan(ops[..t], results[..t], base, n);
    }
  }

  /** A request is a miss, and counted as one, exactly when its page is not resident. */
  lemma ServeCounts(s: State, op: Op, io: Io, capacity: nat)
    requires capacity > 0
    ensures var t := Serve(s, op, io, capacity).0;
            && t.misses == s.misses + (if op.off in Offsets(s.entries) then 0 else 1)
            && t.hits == s.hits + (if op.off in Offsets(s.entries) then 1 else 0)
  {
    var i := Find(s.entries, op.off);
    assert op.off in Offsets(s.entries) <==> i < |s.entries| by {
      if i < |s.entries| { assert Offsets(s.entries)[i] == op.off; }
    }
  }

  /**
   Scanning n pages cyclically from an empty cache: every access misses if they do not fit, and
   otherwise only the first n accesses do.
   */
  lemma {:induction false} CyclicScan(file: Bytes, ops: seq<Op>, ios: seq<Io>, base: nat, n: nat, capacity: nat)
    requires n > 0 && base + n * PAGE_SIZE <= 0x1_0000_0000_0000_0000 && capacity > 0
    requires |ops| == |ios| && IsScan(ops, base, n) && forall io :: io in ios ==> io.readOk
    ensures Run(Init(file), ops, ios, capacity).0.misses == if n > capacity then |ops| else Min(|ops|, n)
  {
    if ops != [] {
      var t := |ops| - 1;
      var ops', ios' := ops[..t], ios[..t];
      assert ops == ops' + [ops[t]] && ios == ios' + [ios[t]];
      CyclicScan(file, ops', ios', base, n, capacity);
      RunAppend(Init(file), ops', ios', ops[t], ios[t], capacity);
      var (s, results) := Run(Init(file), ops', ios', capacity);
      AllServed(Init(file), ops', ios', capacity);
      TraceOfScan(ops', results, base, n);
      ResidentIsRecent(file, ops', ios', capacity);
      ScanOrder(base, n, t);
      NextResident(base, n, t, capacity);
      ServeCounts(s, ops[t], ios[t], capacity);
    }
  }

  lemma DaemonOffset(id: nat, t: nat)
    ensures BlockOffset(id, Wrap(t), SEG_SIZE) == ScanOffset(id * SEG_SIZE, SEG_BLOCKS, t)
  {
    WrapKeepsResidue(t, SEG_BLOCKS);
  }

  /** A daemon core's own accesses: they are a scan of its segment, and every one of them misses. */
  lemma DaemonAlwaysMisses(file: Bytes, ops: seq<Op>, ios: seq<Io>, id: nat)
    requires id < DAEMON_CORES && |ops| == |ios| && forall io :: io in ios ==> io.readOk
    requires forall t :: 0 <= t < |ops| ==> ops[t].off == BlockOffset(id, Wrap(t), SEG_SIZE)
    ensures Run(Init(file), ops, ios, MAX_CACHE_ENTRIES).0.misses == |ops|
  {
    forall t | 0 <= t < |ops|
      ensures ops[t].off == ScanOffset(id * SEG_SIZE, SEG_BLOCKS, t)
    {
      DaemonOffset(id, t);
    }
    CyclicScan(file, ops, ios, id * SEG_SIZE, SEG_BLOCKS, MAX_CACHE_ENTRIES);
  }

  // ---- A daemon core on the cache with shared links ---------------------------------------------

  /** The first n pages from `base` on. */
  ghost function SegmentPages(base: nat, n: nat): (r: set<uint64>)
    requires Aligned(base) && base + n * PAGE_SIZE <= 0x1_0000_0000_0000_0000
    ensures |r| == n && forall off :: off in r ==> Aligned(off) && off < base + n * PAGE_SIZE
  {
    if n == 0 then {} else SegmentPages(base, n - 1) + {base + (n - 1) * PAGE_SIZE}
  }

  function FnvBucket(): SharedLinks.Bucket { off => Fnv.Index(off) }

  /** A segment has more pages than the hash table has buckets, so some run over it is served wrongly. */
  lemma DaemonNotFaithful(file: Bytes, id: nat)
    requires id < DAEMON_CORES
    ensures exists ops :: SharedLinks.Uses(ops, SegmentPages(id * SEG_SIZE, SEG_BLOCKS)) &&
              !SharedLinks.Faithful(SharedLinks.Empty(), file, file, ops, FnvBucket(), MAX_CACHE_ENTRIES)
  {
    hide FnvBucket, SegmentPages, SharedLinks.Faithful, SharedLinks.Uses;
    var pages := SegmentPages(id * SEG_SIZE, SEG_BLOCKS);
    SharedLinks.TooManyCollide(pages, FnvBucket());
    SharedLinks.CollisionFails(file, pages, FnvBucket(), MAX_CACHE_ENTRIES);
  }

  lemma ScanStartsDistinct(ops: seq<Op>, id: nat)
    requires |ops| <= SEG_BLOCKS
    requires forall t :: 0 <= t < |ops| ==> ops[t].off == BlockOffset(id, Wrap(t), SEG_SIZE)
    ensures SharedLinks.DistinctPages(ops)
  {
    hide BlockOffset, Wrap;
    forall i, j | 0 <= i < j < |ops|
      ensures ops[i].off != ops[j].off
    {
      EarlyBlocks(id, i, j);
    }
  }

  lemma EarlyBlocks(id: nat, i: nat, j: nat)
    requires i < j < SEG_BLOCKS
    ensures BlockOffset(id, Wrap(i), SEG_SIZE) < BlockOffset(id, Wrap(j), SEG_SIZE)
  {
    assert Wrap(i) == i && Wrap(j) == j;
  }

  /** And the daemon's own scan reads freed memory at its 8193rd access, not before. */
  lemma DaemonScanFaults(file: Bytes, ops: seq<Op>, id: nat)
    requires id < DAEMON_CORES && 0 < |ops| <= MAX_CACHE_ENTRIES + 1
    requires forall t :: 0 <= t < |ops| ==> ops[t].off == BlockOffset(id, Wrap(t), SEG_SIZE)
    ensures var r := SharedLinks.Last(SharedLinks.Empty(), file, ops, FnvBucket(), MAX_CACHE_ENTRIES);
            if |ops| <= 8192 then r.Returned? else r == SharedLinks.UseAfterFree
  {
    hide FnvBucket, BlockOffset, Wrap, SharedLinks.Last, SharedLinks.DistinctPages;
    ScanStartsDistinct(ops, id);
    SharedLinks.ScanFaults(file, ops, FnvBucket(), MAX_CACHE_ENTRIES);
  }
}
