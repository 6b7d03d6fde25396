/** A daemon core that stops: cache_destroy with the single pair of links. */
module DaemonStop {
  import opened Config
  import opened PageFile
  import opened Daemon
  import L = LruSpec
  import Fnv
  import FnvValues
  import SharedLinks
  import SharedScan
  import SharedTeardown

  /** The requests of a core from counter value 0 on. */
  ghost predicate IsCoreRun(ops: seq<L.Op>, id: nat) {
    forall t :: 0 <= t < |ops| ==> ops[t].off == BlockOffset(id, Wrap(t), SEG_SIZE)
  }

  lemma BlocksAligned(ops: seq<L.Op>, id: nat)
    requires IsCoreRun(ops, id)
    ensures forall op :: op in ops ==> Aligned(op.off)
  {
    forall op | op in ops
      ensures Aligned(op.off)
    {
      var t :| 0 <= t < |ops| && ops[t] == op;
      BlockAligned(id, Wrap(t));
    }
  }

  lemma BlockAligned(id: nat, idx: nat)
    ensures Aligned(BlockOffset(id, idx, SEG_SIZE))
  {}

  lemma FirstTwoBlocks()
    ensures BlockOffset(0, Wrap(0), SEG_SIZE) == 0 && BlockOffset(0, Wrap(1), SEG_SIZE) == 4096
  {}

  lemma TwoBuckets(a: uint64, b: uint64)
    requires Fnv.Index(a) == 419 && Fnv.Index(b) == 1488
    ensures FnvBucket()(a) != FnvBucket()(b)
  {
    hide Fnv.Index;
    assert FnvBucket()(a) == Fnv.Index(a) && FnvBucket()(b) == Fnv.Index(b);
  }

  lemma OtherBucket(ops: seq<L.Op>, a: uint64, b: uint64)
    requires |ops| >= 2 && ops[0].off == a && ops[1].off == b && Fnv.Index(a) == 419 && Fnv.Index(b) == 1488
    ensures !SharedScan.SameBucket(ops, FnvBucket())
  {
    TwoBuckets(a, b);
    hide FnvBucket, Fnv.Index;
    assert ops[0] in ops && ops[1] in ops;
  }

  /**
   A core's run of up to 8192 iterations ends well if and only if its blocks share one bucket; so for
   core 0, whose first two blocks do not, never from the second iteration on.
   */
  lemma CoreStopsIff(file: Bytes, ops: seq<L.Op>, id: nat)
    requires id < DAEMON_CORES && IsCoreRun(ops, id) && |ops| <= 8192
    ensures SharedTeardown.WholeLife(SharedLinks.Empty(), file, file, ops, FnvBucket(), MAX_CACHE_ENTRIES)
            <==> SharedScan.SameBucket(ops, FnvBucket())
    ensures id == 0 && |ops| >= 2 ==> !SharedScan.SameBucket(ops, FnvBucket())
  {
    BlocksAligned(ops, id);
    ScanStartsDistinct(ops, id);
    hide FnvBucket, BlockOffset, Wrap, SharedScan.SameBucket, SharedTeardown.WholeLife, SharedLinks.DistinctPages,
        Aligned;
    SharedScan.ScanLifeIff(file, ops, FnvBucket(), MAX_CACHE_ENTRIES);
    if id == 0 && |ops| >= 2 {
      CoreZero(ops);
    }
  }

  lemma CoreZero(ops: seq<L.Op>)
    requires IsCoreRun(ops, 0) && |ops| >= 2
    ensures !SharedScan.SameBucket(ops, FnvBucket())
  {
    assert ops[0].off == BlockOffset(0, Wrap(0), SEG_SIZE) && ops[1].off == BlockOffset(0, Wrap(1), SEG_SIZE);
    hide *;
    FirstTwoBlocks();
    FnvValues.IndexOf0();
    FnvValues.IndexOf4096();
    OtherBucket(ops, 0, 4096);
  }
}
