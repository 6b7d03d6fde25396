/** One core of the daemon from start to stop: its walk over the segment, its cache and its ring. */
module CoreRun {
  import opened Options
  import opened Config
  import opened PageFile
  import opened LruSpec
  import opened Coherence
  import opened Recency
  import opened Daemon
  import C = Cache
  import R = RingCache
  import Fnv

  /**
   What the world does in one iteration: the results of the cache's system calls, and the bytes of
   the compressed block that reach the file when the core writes it there directly.
   */
  datatype Turn = Turn(io: Io, direct: Bytes)

  ghost predicate Ordinary(turns: seq<Turn>) {
    forall t :: t in turns ==> t.io.written == PAGE_SIZE && |t.direct| <= BLOCK_SIZE
  }

  function XorId(b: byte, id: nat): byte
    requires id < DAEMON_CORES
  {
    Fnv.EightMoreBits(0);
    Fnv.XorBelow(b, id, 8);
    Fnv.Xor(b, id)
  }

  /** Byte xor 0 is the byte itself; byte xor 1 makes an even byte one more and an odd byte one less. */
  lemma XorIdIs(b: byte, id: nat)
    requires id < DAEMON_CORES
    ensures XorId(b, id) == if id == 0 then b else if b % 2 == 0 then b + 1 else b - 1
  {
    Fnv.XorNothing(b / 2);
    assert Fnv.Xor(b, id) == if b == 0 && id == 0 then 0
        else 2 * Fnv.Xor(b / 2, 0) + (if b % 2 == id % 2 then 0 else 1);
  }

  /** The block of core 0 is the page; that of core 1 has the last bit of every byte flipped. */
  ghost predicate IsProcessed(block: seq<byte>, page: Page, id: nat) {
    && |block| == BLOCK_SIZE
    && forall i :: 0 <= i < BLOCK_SIZE ==>
         block[i] == if id == 0 then page[i] else if page[i] % 2 == 0 then page[i] + 1 else page[i] - 1
  }

  lemma ProcessedIs(page: Page, id: nat)
    requires id < DAEMON_CORES
    ensures IsProcessed(Processed(page, id), page, id)
  {
    forall i | 0 <= i < BLOCK_SIZE
      ensures Processed(page, id)[i] == if id == 0 then page[i] else if page[i] % 2 == 0 then page[i] + 1
          else page[i] - 1
    {
      XorIdIs(page[i], id);
    }
  }

  /** Processing a block again gives the page back. */
  lemma ProcessedTwice(page: Page, id: nat)
    requires id < DAEMON_CORES
    ensures Processed(Processed(page, id), id) == page
  {
    ProcessedIs(page, id);
    ProcessedIs(Processed(page, id), id);
    hide Processed;
  }

  /** The block after processing: every byte xor the core's number. */
  function Processed(page: Page, id: nat): (block: seq<byte>)
    requires id < DAEMON_CORES
    ensures |block| == BLOCK_SIZE
  {
    seq(BLOCK_SIZE, i requires 0 <= i < BLOCK_SIZE => XorId(page[i], id))
  }

  /** The offsets of the iterations that got a page, from counter value `start` on. */
  function Visited(id: nat, start: uint64, served: seq<bool>): seq<uint64>
    requires id < DAEMON_CORES
  {
    if served == [] then []
    else
      var n := |served| - 1;
      Visited(id, start, served[..n]) + (if served[n] then [Offset(id, Wrap(start + n))] else [])
  }

  function Offset(id: nat, idx: uint64): (off: uint64)
    requires id < DAEMON_CORES
    ensures off == BlockOffset(id, idx, SEG_SIZE) && Aligned(off)
  {
    BlockOffset(id, idx, SEG_SIZE)
  }

  /** The plain file after each of the pages is read and written back unchanged. */
  function Rewritten(file: Bytes, offs: seq<uint64>): Bytes {
    if offs == [] then file
    else
      var n := |offs| - 1;
      var before := Rewritten(file, offs[..n]);
      Pwrite(before, offs[n], PageAt(before, offs[n]))
  }

  lemma RewrittenNext(file: Bytes, offs: seq<uint64>, off: uint64)
    ensures var before := Rewritten(file, offs);
            Rewritten(file, offs + [off]) == Pwrite(before, off, PageAt(before, off))
  {
    assert (offs + [off])[..|offs|] == offs;
  }

  lemma VisitedNext(id: nat, start: uint64, served: seq<bool>, s: bool)
    requires id < DAEMON_CORES
    ensures Visited(id, start, served + [s]) ==
            Visited(id, start, served) + (if s then [Offset(id, Wrap(start + |served|))] else [])
  {
    assert (served + [s])[..|served|] == served;
  }

  /** Rewriting changes no page. */
  lemma {:induction false} RewrittenKeepsPages(file: Bytes, offs: seq<uint64>, q: nat)
    requires Aligned(q) && forall off :: off in offs ==> Aligned(off)
    ensures PageAt(Rewritten(file, offs), q) == PageAt(file, q)
  {
    if offs != [] {
      var n := |offs| - 1;
      RewrittenKeepsPages(file, offs[..n], q);
      var before := Rewritten(file, offs[..n]);
      PageAtAfterPwrite(before, offs[n], PageAt(before, offs[n]), q);
    }
  }

  // ---- Writing to the file behind the cache's back ------------------------------------------------

  /** A write to the place of a dirty page is no more than the write-back will undo. */
  lemma PokeAgrees(m: map<uint64, Entry>, file: Bytes, plain: Bytes, off: uint64, direct: Bytes)
    requires Agrees(m, file, plain) && off in m && m[off].dirty && |direct| <= PAGE_SIZE
    ensures Agrees(m, Pwrite(file, off, direct), plain)
  {
    var file' := Pwrite(file, off, direct);
    forall q: nat | Aligned(q) && q != off
      ensures PageAt(file', q) == PageAt(file, q)
    {
      PageAtAfterShortPwrite(file, off, direct, q);
    }
    if |plain| > |file'| {
      var k :| k in m && m[k].dirty && k + PAGE_SIZE == |plain|;
    }
  }

  /** The page just handed out for writing is in front, dirty. */
  lemma FrontPage(s: State, off: uint64, io: Io, capacity: nat)
    requires capacity > 1 && Distinct(s.entries)
    ensures var (t, r) := Get(s, off, true, io, capacity);
            r.Some? ==> t.entries != [] && t.entries[0] == Entry(off, r.value, true)
  {}

  /** One iteration against the plain file: the page is the plain one, and the direct write is undone. */
  lemma TurnCoherent(s: State, off: uint64, turn: Turn, plain: Bytes)
    requires Coherent(s, plain) && Aligned(off) && turn.io.written == PAGE_SIZE && |turn.direct| <= PAGE_SIZE
    ensures var (t, r) := Get(s, off, true, turn.io, MAX_CACHE_ENTRIES);
            if r.None? then Coherent(t, plain)
            else r.value == PageAt(plain, off)
                 && Coherent(t.(file := Pwrite(t.file, off, turn.direct)), Pwrite(plain, off, PageAt(plain, off)))
  {
    var page := PageAt(plain, off);
    ServeCoherent(s, Write(off, page), turn.io, MAX_CACHE_ENTRIES, plain);
    FrontPage(s, off, turn.io, MAX_CACHE_ENTRIES);
    var (t, r) := Get(s, off, true, turn.io, MAX_CACHE_ENTRIES);
    hide Get, PageAt, Pwrite, Agrees;
    if r.Some? {
      FillSame(t, page);
      ContentsOf(t.entries);
      PokeAgrees(Contents(t.entries), t.file, Pwrite(plain, off, page), off, turn.direct);
    }
  }

  lemma FillSame(s: State, page: Page)
    requires s.entries != [] && s.entries[0].data == page
    ensures Fill(s, page) == s
  {}

  // ---- Misses ---------------------------------------------------------------------------------------

  /** After t iterations the cache holds the last pages of the scan, and every access has missed. */
  ghost predicate AllMissed(s: State, id: nat, t: nat)
    requires id < DAEMON_CORES
  {
    s.misses == t && Offsets(s.entries) == Take(LastPages(id * SEG_SIZE, SEG_BLOCKS, t), MAX_CACHE_ENTRIES)
  }

  lemma NextMissed(s: State, id: nat, t: nat, io: Io)
    requires id < DAEMON_CORES && AllMissed(s, id, t) && io.readOk
    ensures var (u, r) := Get(s, Offset(id, Wrap(t)), true, io, MAX_CACHE_ENTRIES);
            r.Some? && AllMissed(u, id, t + 1)
  {
    var base, order := id * SEG_SIZE, LastPages(id * SEG_SIZE, SEG_BLOCKS, t);
    var off := OffsetBelow(base, SEG_BLOCKS, t);
    DaemonOffset(id, t);
    ScanOrder(base, SEG_BLOCKS, t);
    OrderNoDup(ScanTrace(base, SEG_BLOCKS, t));
    assert NoDup(Take(order, MAX_CACHE_ENTRIES));
    GetTouches(s, off, true, io, MAX_CACHE_ENTRIES);
    TouchTake(order, off, MAX_CACHE_ENTRIES);
    NextPage(base, SEG_BLOCKS, t);
    NextResident(base, SEG_BLOCKS, t, MAX_CACHE_ENTRIES);
    ServeCounts(s, Read(off), io, MAX_CACHE_ENTRIES);
  }

  // ---- The loop -------------------------------------------------------------------------------------

  method ProcessBlock(page: Page, id: nat) returns (buf: array<byte>)
    requires id < DAEMON_CORES
    ensures fresh(buf) && buf.Length == BLOCK_SIZE && buf[..] == Processed(page, id) && IsProcessed(buf[..], page, id)
  {
    ProcessedIs(page, id);
    hide IsProcessed;
    buf := new byte[BLOCK_SIZE](i requires 0 <= i < BLOCK_SIZE => page[i]);
    for i := 0 to BLOCK_SIZE
      invariant forall j :: 0 <= j < i ==> buf[j] == XorId(page[j], id)
      invariant forall j :: i <= j < BLOCK_SIZE ==> buf[j] == page[j]
    {
      buf[i] := XorId(buf[i], id);
    }
  }

  ghost predicate AllRead(turns: seq<Turn>) {
    forall t :: t in turns ==> t.io.readOk
  }

  /** The blocks a core hands to the ring: the plain pages it visits, each processed. */
  function Blocks(file: Bytes, offs: seq<uint64>, id: nat): (blocks: seq<seq<byte>>)
    requires id < DAEMON_CORES
  {
    seq(|offs|, j requires 0 <= j < |offs| => Processed(PageAt(file, offs[j]), id))
  }

  /** What the loop keeps: `served` says which iterations so far got a page. */
  ghost predicate LoopOk(s: State, blocks: seq<seq<byte>>, file: Bytes, id: nat, start: uint64, served: seq<bool>)
    requires id < DAEMON_CORES
  {
    var offs := Visited(id, start, served);
    Coherent(s, Rewritten(file, offs)) && blocks == Blocks(file, offs, id)
  }

  lemma VisitedAligned(id: nat, start: uint64, served: seq<bool>)
    requires id < DAEMON_CORES
    ensures forall off :: off in Visited(id, start, served) ==> Aligned(off)
  {}

  lemma LoopStarts(file: Bytes, id: nat, start: uint64)
    requires id < DAEMON_CORES
    ensures LoopOk(State([], file, 0, 0), [], file, id, start, [])
  {}

  lemma LoopNext(s: State, blocks: seq<seq<byte>>, file: Bytes, id: nat, start: uint64, served: seq<bool>, t: State,
                 now: bool)
    requires id < DAEMON_CORES && LoopOk(s, blocks, file, id, start, served)
    requires var off := Offset(id, Wrap(start + |served|));
             var plain := Rewritten(file, Visited(id, start, served));
             Coherent(t, if now then Pwrite(plain, off, PageAt(plain, off)) else plain)
    ensures var off := Offset(id, Wrap(start + |served|));
            var plain := Rewritten(file, Visited(id, start, served));
            LoopOk(t, blocks + (if now then [Processed(PageAt(plain, off), id)] else []), file, id, start,
              served + [now])
  {
    var off := Offset(id, Wrap(start + |served|));
    var offs := Visited(id, start, served);
    VisitedNext(id, start, served, now);
    VisitedAligned(id, start, served);
    RewrittenNext(file, offs, off);
    RewrittenKeepsPages(file, offs, off);
    hide Visited, Rewritten, Coherent, Processed, PageAt, Pwrite, Offset, Wrap;
    if now {
      assert Blocks(file, offs + [off], id) == Blocks(file, offs, id) + [Processed(PageAt(file, off), id)];
    } else {
      assert offs + [] == offs;
    }
  }

  lemma LoopMeans(s: State, blocks: seq<seq<byte>>, file: Bytes, id: nat, start: uint64, served: seq<bool>)
    requires id < DAEMON_CORES && LoopOk(s, blocks, file, id, start, served)
    ensures Coherent(s, Rewritten(file, Visited(id, start, served)))
  {}

  /** A page that is read is served; and if all have missed so far, so does the next. */
  lemma ReadMisses(s: State, t: State, id: nat, i: nat, io: Io)
    requires id < DAEMON_CORES && io.readOk
    requires var u := Get(s, Offset(id, Wrap(i)), true, io, MAX_CACHE_ENTRIES).0;
             t.entries == u.entries && t.misses == u.misses
    ensures AllMissed(s, id, i) ==> AllMissed(t, id, i + 1)
  {
    hide Get, Offset, Wrap;
    if AllMissed(s, id, i) { NextMissed(s, id, i, io); }
  }

  lemma ReadServes(s: State, off: uint64, io: Io)
    requires io.readOk
    ensures Get(s, off, true, io, MAX_CACHE_ENTRIES).1.Some?
  {}

  lemma OffsetIs(id: nat, idx: uint64, offset: uint64)
    requires id < DAEMON_CORES && offset == BlockOffset(id, idx, SEG_SIZE)
    ensures offset == Offset(id, idx)
  {}

  lemma WrapNext(start: uint64, i: nat)
    ensures Wrap(Wrap(start + i) + 1) == Wrap(start + i + 1)
  {}

  lemma LoopEnds(s: State, blocks: seq<seq<byte>>, file: Bytes, id: nat, start: uint64, served: seq<bool>,
                 order: seq<Entry>, written: uint64 -> int)
    requires id < DAEMON_CORES && LoopOk(s, blocks, file, id, start, served)
    requires Distinct(order) && (forall e :: e in order <==> e in s.entries) && forall off :: written(off) == PAGE_SIZE
    ensures Flush(s.file, order, written) == Rewritten(file, Visited(id, start, served))
    ensures blocks == Blocks(file, Visited(id, start, served), id)
  {
    SameMembersSameContents(order, s.entries);
    FlushReachesPlain(order, s.file, Rewritten(file, Visited(id, start, served)), written);
  }

  /** One turn of the loop: get the page, process it, write it to the file directly, keep it in the ring. */
  method Iterate(c: C.Cache, fd: C.File, ring: R.Ring, offset: uint64, id: nat, turn: Turn, ghost plain: Bytes)
    returns (served: bool)
    requires c.Valid() && ring.Valid() && ring.buffer != null && id < DAEMON_CORES && Aligned(offset)
    requires Coherent(c.Abs(fd), plain) && turn.io.written == PAGE_SIZE && |turn.direct| <= PAGE_SIZE
    modifies c, c.hash, c.nodes, fd, ring`pos, ring`written, ring.buffer
    ensures c.Valid() && fresh(c.nodes - old(c.nodes)) && ring.Valid()
    ensures var (t, r) := Get(old(c.Abs(fd)), offset, true, turn.io, MAX_CACHE_ENTRIES);
            served == r.Some? && c.Abs(fd).entries == t.entries && c.misses == t.misses
            && fd.bytes == if served then Pwrite(t.file, offset, turn.direct) else t.file
    ensures Coherent(c.Abs(fd), if served then Pwrite(plain, offset, PageAt(plain, offset)) else plain)
    ensures ring.written == old(ring.written) + if served then [Processed(PageAt(plain, offset), id)] else []
  {
    hide *;
    c.AbsMeans(fd);
    TurnCoherent(c.Abs(fd), offset, turn, plain);
    var page := c.Get(fd, offset, true, turn.io);
    c.AbsMeans(fd);
    if page == null {
      return false;
    }
    var buf := ProcessBlock(page.data, id);
    ghost var t := c.Abs(fd);
    fd.bytes := Pwrite(fd.bytes, offset, turn.direct);
    c.AbsIs(fd, t.(file := fd.bytes));
    ring.CacheToRing(buf);
    c.AbsMeans(fd);
    c.AbsIs(fd, t.(file := fd.bytes));
    served := true;
  }

  /** One turn of the loop, on the core's counter. */
  method Advance(c: C.Cache, fd: C.File, ring: R.Ring, pos: array<uint64>, id: nat, turn: Turn,
                 ghost file: Bytes, ghost start: uint64, ghost served: seq<bool>)
    returns (now: bool)
    requires c.Valid() && ring.Valid() && ring.buffer != null && id < DAEMON_CORES == pos.Length
    requires turn.io.written == PAGE_SIZE && |turn.direct| <= PAGE_SIZE && pos[id] == Wrap(start + |served|)
    requires LoopOk(c.Abs(fd), ring.written, file, id, start, served)
    requires (ring.buffer as object) != pos
    modifies c, c.hash, c.nodes, fd, ring`pos, ring`written, ring.buffer, pos
    ensures c.Valid() && fresh(c.nodes - old(c.nodes)) && ring.Valid()
    ensures pos[id] == Wrap(start + |served| + 1)
    ensures forall j :: 0 <= j < pos.Length && j != id ==> pos[j] == old(pos[j])
    ensures LoopOk(c.Abs(fd), ring.written, file, id, start, served + [now])
    ensures turn.io.readOk ==> now
    ensures turn.io.readOk && start == 0 && old(AllMissed(c.Abs(fd), id, |served|)) ==>
        AllMissed(c.Abs(fd), id, |served| + 1)
  {
    hide *;
    ghost var s, blocks := c.Abs(fd), ring.written;
    ghost var idx := pos[id];
    WrapNext(start, |served|);
    var offset := NextOffset(pos, id);
    OffsetIs(id, idx, offset);
    c.AbsMeans(fd);
    c.AbsIs(fd, s);
    LoopMeans(s, blocks, file, id, start, served);
    now := Iterate(c, fd, ring, offset, id, turn, Rewritten(file, Visited(id, start, served)));
    c.AbsMeans(fd);
    LoopNext(s, blocks, file, id, start, served, c.Abs(fd), now);
    if turn.io.readOk {
      ReadServes(s, offset, turn.io);
      if start == 0 { ReadMisses(s, c.Abs(fd), id, |served|, turn.io); }
    }
  }

  /**
   A core's whole run. The file ends up as if the core had only read and rewritten the pages it
   visited: nothing of its compressed blocks stays. The ring has received the visited pages, processed.
   If all reads succeed, every iteration gets a page, and from counter 0 on all of them miss.
   */
  method Run(fd: C.File, pos: array<uint64>, id: nat, turns: seq<Turn>)
    returns (misses: nat, ghost served: seq<bool>, ghost blocks: seq<seq<byte>>)
    requires id < DAEMON_CORES == pos.Length && Ordinary(turns)
    modifies fd, pos
    ensures pos[id] == Wrap(old(pos[id]) + |turns|)
    ensures forall j :: 0 <= j < pos.Length && j != id ==> pos[j] == old(pos[j])
    ensures |served| == |turns| && (AllRead(turns) ==> forall s :: s in served ==> s)
    ensures fd.bytes == Rewritten(old(fd.bytes), Visited(id, old(pos[id]), served))
    ensures forall q: nat :: Aligned(q) ==> PageAt(fd.bytes, q) == PageAt(old(fd.bytes), q)
    ensures var offs := Visited(id, old(pos[id]), served);
            && |blocks| == |offs|
            && forall j :: 0 <= j < |offs| ==> IsProcessed(blocks[j], PageAt(old(fd.bytes), offs[j]), id)
    ensures AllRead(turns) ==>
      |blocks| == |turns| && forall j :: 0 <= j < |turns| ==>
        IsProcessed(blocks[j], PageAt(old(fd.bytes), Offset(id, Wrap(old(pos[id]) + j))), id)
    ensures AllRead(turns) && old(pos[id]) == 0 ==> misses == |turns|
  {
    hide *;
    var c := new C.Cache();
    var ring := new R.Ring();
    ring.Init();
    served := [];
    ghost var file, start := fd.bytes, pos[id];
    c.AbsIs(fd, State([], file, 0, 0));
    LoopStarts(file, id, start);
    WrapSmall(start);
    NoneMissed(file, id);
    for i := 0 to |turns|
      invariant c.Valid() && fresh(c) && fresh(c.hash) && fresh(c.nodes)
      invariant ring.Valid() && ring.buffer != null && fresh(ring) && fresh(ring.buffer)
      invariant |served| == i && pos[id] == Wrap(start + i)
      invariant forall j :: 0 <= j < pos.Length && j != id ==> pos[j] == old(pos[j])
      invariant LoopOk(c.Abs(fd), ring.written, file, id, start, served)
      invariant AllRead(turns) ==> forall s :: s in served ==> s
      invariant AllRead(turns) && start == 0 ==> AllMissed(c.Abs(fd), id, i)
    {
      TurnOk(turns, i);
      var now := Advance(c, fd, ring, pos, id, turns[i], file, start, served);
      served := served + [now];
    }
    misses := c.misses;
    blocks := ring.written;
    c.AbsMeans(fd);
    MissesAre(c.Abs(fd), id, |turns|);
    ghost var s := c.Abs(fd);
    ghost var order := c.Destroy(fd, off => PAGE_SIZE);
    LoopEnds(s, blocks, file, id, start, served, order, off => PAGE_SIZE);
    BlocksAre(file, Visited(id, start, served), id);
    AllPagesKept(file, id, start, served);
    if AllRead(turns) { VisitedAll(id, start, served); }
    ring.Destroy();
  }

  lemma AllPagesKept(file: Bytes, id: nat, start: uint64, served: seq<bool>)
    requires id < DAEMON_CORES
    ensures forall q: nat :: Aligned(q) ==>
      PageAt(Rewritten(file, Visited(id, start, served)), q) == PageAt(file, q)
  {
    VisitedAligned(id, start, served);
    forall q: nat | Aligned(q)
      ensures PageAt(Rewritten(file, Visited(id, start, served)), q) == PageAt(file, q)
    {
      RewrittenKeepsPages(file, Visited(id, start, served), q);
    }
  }

  /** If every iteration gets a page, the j-th one visits the block of the counter's j-th value. */
  lemma {:induction false} VisitedAll(id: nat, start: uint64, served: seq<bool>)
    requires id < DAEMON_CORES && forall s :: s in served ==> s
    ensures |Visited(id, start, served)| == |served|
    ensures forall j :: 0 <= j < |served| ==> Visited(id, start, served)[j] == Offset(id, Wrap(start + j))
  {
    if served != [] {
      var n := |served| - 1;
      assert served[n] in served;
      forall s | s in served[..n]
        ensures s
      {
        assert s in served;
      }
      VisitedAll(id, start, served[..n]);
    }
  }

  lemma BlocksAre(file: Bytes, offs: seq<uint64>, id: nat)
    requires id < DAEMON_CORES
    ensures |Blocks(file, offs, id)| == |offs|
    ensures forall j :: 0 <= j < |offs| ==> IsProcessed(Blocks(file, offs, id)[j], PageAt(file, offs[j]), id)
  {
    forall j | 0 <= j < |offs|
      ensures IsProcessed(Blocks(file, offs, id)[j], PageAt(file, offs[j]), id)
    {
      ProcessedIs(PageAt(file, offs[j]), id);
    }
  }

  lemma WrapSmall(x: uint64)
    ensures Wrap(x) == x
  {}

  lemma NoneMissed(file: Bytes, id: nat)
    requires id < DAEMON_CORES
    ensures AllMissed(State([], file, 0, 0), id, 0)
  {}

  lemma MissesAre(s: State, id: nat, t: nat)
    requires id < DAEMON_CORES
    ensures AllMissed(s, id, t) ==> s.misses == t
  {}

  lemma TurnOk(turns: seq<Turn>, i: nat)
    requires Ordinary(turns) && i < |turns|
    ensures turns[i].io.written == PAGE_SIZE && |turns[i].direct| <= PAGE_SIZE
    ensures AllRead(turns) ==> turns[i].io.readOk
  {}
}
