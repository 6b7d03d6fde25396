/** The ring of blocks behind the cache: one fixed buffer, overwritten block by block. */
module RingCache {
  import opened Config

  const SLOTS := RING_SIZE / BLOCK_SIZE

  class Ring {
    var buffer: array?<byte>
    var pos: nat
    ghost var written: seq<seq<byte>>

    /** The slot that write number k goes to. */
    static function Slot(k: nat): (j: nat)
      ensures j < SLOTS
    {
      k % SLOTS
    }

    /** Write number k is whole in its slot. */
    ghost predicate Holds(k: nat)
      requires buffer != null && buffer.Length == RING_SIZE && k < |written|
      reads this, buffer
    {
      buffer[Slot(k) * BLOCK_SIZE..Slot(k) * BLOCK_SIZE + BLOCK_SIZE] == written[k]
    }

    /**
     The position is that of the next slot in turn, and the last SLOTS writes (or all, if fewer) are
     in their slots: each slot holds the latest write that was its turn.
     */
    ghost predicate Valid()
      reads this, buffer
    {
      if buffer == null then pos == 0 && written == []
      else
        && buffer.Length == RING_SIZE && pos == Slot(|written|) * BLOCK_SIZE
        && forall k :: 0 <= k < |written| && |written| - SLOTS <= k ==> Holds(k)
    }

    constructor ()
      ensures Valid() && buffer == null
    {
      buffer, pos, written := null, 0, [];
    }

    method Init()
      modifies this
      ensures Valid() && fresh(buffer) && buffer != null && written == [] && pos == 0
    {
      buffer := new byte[RING_SIZE](i => 0);
      pos := 0;
      written := [];
    }

    /** A block goes into the ring; without data or before Init nothing happens. */
    method CacheToRing(data: array?<byte>)
      requires Valid() && (data != null ==> data.Length == BLOCK_SIZE && data != buffer)
      modifies this`pos, this`written, buffer
      ensures Valid()
      ensures written == if data == null || buffer == null then old(written) else old(written) + [old(data[..])]
      ensures data == null || buffer == null ==> pos == old(pos)
    {
      if data == null || buffer == null {
        return;
      }
      NeverFull(|written|);
      if pos + BLOCK_SIZE <= RING_SIZE {
        CopyBlock(data);
        pos := (pos + BLOCK_SIZE) % RING_SIZE;
        written := written + [data[..]];
        forall k | 0 <= k < |written| && |written| - SLOTS <= k
          ensures Holds(k)
        {
          if k < |written| - 1 {
            assert old(Holds(k));
            SlotsDistinct(k, |written| - 1);
            Disjoint(Slot(k), Slot(|written| - 1));
          }
        }
      }
    }

    /** memcpy of one block to the current position. */
    method CopyBlock(data: array<byte>)
      requires buffer != null && buffer.Length == RING_SIZE && pos + BLOCK_SIZE <= RING_SIZE
      requires data.Length == BLOCK_SIZE && data != buffer
      modifies buffer
      ensures buffer[pos..pos + BLOCK_SIZE] == data[..]
      ensures forall i :: 0 <= i < RING_SIZE && !(pos <= i < pos + BLOCK_SIZE) ==> buffer[i] == old(buffer[i])
    {
      for i := 0 to BLOCK_SIZE
        invariant forall j :: 0 <= j < i ==> buffer[pos + j] == data[j]
        invariant forall j :: 0 <= j < RING_SIZE && !(pos <= j < pos + i) ==> buffer[j] == old(buffer[j])
      {
        buffer[pos + i] := data[i];
      }
    }

    method Destroy()
      modifies this
      ensures Valid() && buffer == null
    {
      buffer, pos, written := null, 0, [];
    }
  }

  lemma SlotCount()
    ensures SLOTS == 32768 && RING_SIZE == SLOTS * BLOCK_SIZE
  {}

  lemma NextSlot(k: nat)
    ensures Ring.Slot(k + 1) == if Ring.Slot(k) + 1 == SLOTS then 0 else Ring.Slot(k) + 1
  {
    SlotCount();
  }

  /** The overflow branch cannot be taken: every slot ends within the buffer. */
  lemma NeverFull(k: nat)
    ensures Ring.Slot(k) * BLOCK_SIZE + BLOCK_SIZE <= RING_SIZE
    ensures (Ring.Slot(k) * BLOCK_SIZE + BLOCK_SIZE) % RING_SIZE == Ring.Slot(k + 1) * BLOCK_SIZE
  {
    SlotCount();
    NextSlot(k);
    hide Ring.Slot;
  }

  /** Among the last SLOTS writes no two share a slot. */
  lemma SlotsDistinct(i: nat, k: nat)
    requires i < k < i + SLOTS
    ensures Ring.Slot(i) != Ring.Slot(k)
  {}

  lemma Disjoint(i: nat, j: nat)
    requires i != j
    ensures i * BLOCK_SIZE + BLOCK_SIZE <= j * BLOCK_SIZE || j * BLOCK_SIZE + BLOCK_SIZE <= i * BLOCK_SIZE
  {}
}
