/** The cache against a page store without a cache. */
module Coherence {
  import opened Options
  import opened Config
  import opened PageFile
  import opened LruSpec

  /** The uncached store: every request goes to the file at once. A request not served does nothing. */
  function PlainRun(file: Bytes, ops: seq<Op>, served: seq<bool>): (r: (Bytes, seq<Option<Page>>))
    requires |ops| == |served|
    ensures |r.1| == |ops|
    decreases |ops|
  {
    if ops == [] then (file, [])
    else if !served[0] then
      var (end, rest) := PlainRun(file, ops[1..], served[1..]);
      (end, [None] + rest)
    else
      var (end, rest) := PlainRun(PlainServe(file, ops[0]), ops[1..], served[1..]);
      (end, [Some(PageAt(file, ops[0].off))] + rest)
  }

  function PlainServe(file: Bytes, op: Op): Bytes {
    match op
    case Read(_) => file
    case Write(off, page) => Pwrite(file, off, page)
  }

  function Served(results: seq<Option<Page>>): (served: seq<bool>)
    ensures |served| == |results|
  {
    seq(|results|, i requires 0 <= i < |results| => results[i].Some?)
  }

  // ---- Agreement, with the cached pages as a map --------------------------------------------

  ghost function Contents(entries: seq<Entry>): map<uint64, Entry> {
    if entries == [] then map[] else Contents(entries[1..])[entries[0].offset := entries[0]]
  }

  /** The cached pages over the file show the plain store, and give its length once written back. */
  ghost predicate Agrees(m: map<uint64, Entry>, file: Bytes, plain: Bytes) {
    && (forall k :: k in m ==> Aligned(k) && m[k].offset == k && PageAt(plain, k) == m[k].data)
    && (forall k :: k in m && !m[k].dirty ==> PageAt(file, k) == m[k].data)
    && (forall q: nat :: Aligned(q) && q !in m ==> PageAt(plain, q) == PageAt(file, q))
    && |file| <= |plain|
    && (forall k :: k in m && m[k].dirty ==> k + PAGE_SIZE <= |plain|)
    && (|plain| > |file| ==> exists k :: k in m && m[k].dirty && k + PAGE_SIZE == |plain|)
  }

  lemma CleanLoadAgrees(m: map<uint64, Entry>, file: Bytes, plain: Bytes, off: uint64)
    requires Agrees(m, file, plain) && Aligned(off) && off !in m
    ensures Agrees(m[off := Entry(off, PageAt(file, off), false)], file, plain)
  {
    var m' := m[off := Entry(off, PageAt(file, off), false)];
    if |plain| > |file| {
      var k :| k in m && m[k].dirty && k + PAGE_SIZE == |plain|;
      assert k in m' && m'[k] == m[k];
    }
  }

  lemma WriteAgrees(m: map<uint64, Entry>, file: Bytes, plain: Bytes, off: uint64, page: Page)
    requires Agrees(m, file, plain) && Aligned(off)
    ensures Agrees(m[off := Entry(off, page, true)], file, Pwrite(plain, off, page))
  {
    var m' := m[off := Entry(off, page, true)];
    var plain' := Pwrite(plain, off, page);
    forall q: nat | Aligned(q)
      ensures PageAt(plain', q) == if q == off then page else PageAt(plain, q)
    {
      PageAtAfterPwrite(plain, off, page, q);
    }
    assert |plain'| == Max(|plain|, off + PAGE_SIZE);
    if |plain'| > |file| {
      if |plain'| == off + PAGE_SIZE {
        assert off in m' && m'[off].dirty;
      } else {
        var k :| k in m && m[k].dirty && k + PAGE_SIZE == |plain|;
        assert k in m' && m'[k].dirty;
      }
    }
  }

  /** Writing a page back in full and forgetting it keeps the agreement. */
  lemma RetireAgrees(m: map<uint64, Entry>, file: Bytes, plain: Bytes, off: uint64)
    requires Agrees(m, file, plain) && off in m
    ensures Agrees(m - {off}, WriteBack(file, m[off], PAGE_SIZE), plain)
  {
    var file' := WriteBack(file, m[off], PAGE_SIZE);
    assert m[off].data[..PAGE_SIZE] == m[off].data;
    forall q: nat | Aligned(q)
      ensures PageAt(file', q) == if q == off then m[off].data else PageAt(file, q)
    {
      if m[off].dirty {
        PageAtAfterPwrite(file, off, m[off].data, q);
      }
    }
    if |plain| > |file'| {
      var k :| k in m && m[k].dirty && k + PAGE_SIZE == |plain|;
      assert k != off && k in m - {off};
    }
  }

  // ---- One request --------------------------------------------------------------------------

  function Drop(entries: seq<Entry>, k: nat): (rest: seq<Entry>)
    requires k < |entries|
  {
    entries[..k] + entries[k + 1..]
  }

  /** Under distinct offsets the map holds exactly the entries of the list. */
  lemma {:induction false} ContentsOf(entries: seq<Entry>)
    requires Distinct(entries)
    ensures forall i :: 0 <= i < |entries| ==>
        entries[i].offset in Contents(entries) && Contents(entries)[entries[i].offset] == entries[i]
    ensures forall k :: k in Contents(entries) <==> Find(entries, k) < |entries|
  {
    if entries != [] {
      ContentsOf(entries[1..]);
    }
  }

  lemma ConsContents(e: Entry, rest: seq<Entry>)
    requires Distinct(rest) && e.offset !in Contents(rest)
    ensures Distinct([e] + rest)
    ensures Contents([e] + rest) == Contents(rest)[e.offset := e]
  {
    ContentsOf(rest);
    assert ([e] + rest)[1..] == rest;
  }

  /** Taking an entry out of the list takes its offset out of the map. */
  lemma {:induction false} DropContents(entries: seq<Entry>, k: nat)
    requires Distinct(entries) && k < |entries|
    ensures Distinct(Drop(entries, k))
    ensures Contents(Drop(entries, k)) == Contents(entries) - {entries[k].offset}
  {
    if k == 0 {
      assert Drop(entries, 0) == entries[1..];
      TailDistinct(entries);
    } else {
      var first, tail := entries[0], entries[1..];
      assert entries[k] == tail[k - 1];
      TailDistinct(entries);
      DropContents(tail, k - 1);
      DropCons(entries, k);
      ConsContents(first, Drop(tail, k - 1));
    }
  }

  lemma DropCons(entries: seq<Entry>, k: nat)
    requires 0 < k < |entries|
    ensures Drop(entries, k) == [entries[0]] + Drop(entries[1..], k - 1)
  {}

  lemma TailDistinct(entries: seq<Entry>)
    requires Distinct(entries) && entries != []
    ensures Distinct(entries[1..]) && entries[0].offset !in Contents(entries[1..])
    ensures Contents(entries[1..]) == Contents(entries) - {entries[0].offset}
    ensures forall k :: 0 < k < |entries| ==> entries[k].offset != entries[0].offset
  {
    var tail, off := entries[1..], entries[0].offset;
    ContentsOf(tail);
    assert forall j :: 0 <= j < |tail| ==> tail[j] == entries[j + 1] && tail[j].offset != off;
    assert Find(tail, off) == |tail|;
    WithoutAdded(Contents(tail), off, entries[0]);
  }

  lemma WithoutAdded(m: map<uint64, Entry>, off: uint64, e: Entry)
    requires off !in m
    ensures m[off := e] - {off} == m
  {}

  lemma EvictAgrees(s: State, plain: Bytes)
    requires Coherent(s, plain)
    ensures Coherent(Evict(s, PAGE_SIZE), plain)
  {
    if s.entries != [] {
      var last := |s.entries| - 1;
      DropContents(s.entries, last);
      assert Drop(s.entries, last) == s.entries[..last];
      ContentsOf(s.entries);
      RetireAgrees(Contents(s.entries), s.file, plain, s.entries[last].offset);
    }
  }

  /** A cached page found: afterwards the map has it dirty if it was asked for writing. */
  lemma HitContents(s: State, i: nat, write: bool)
    requires Distinct(s.entries) && i < |s.entries|
    ensures var e := s.entries[i];
            var t := Hit(s, i, write);
            Distinct(t.entries) && Contents(t.entries) == Contents(s.entries)[e.offset := e.(dirty := e.dirty || write)]
  {
    hide Contents;
    DropContents(s.entries, i);
    ConsContents(s.entries[i].(dirty := s.entries[i].dirty || write), Drop(s.entries, i));
    assert Hit(s, i, write).entries == [s.entries[i].(dirty := s.entries[i].dirty || write)] + Drop(s.entries, i);
  }

  lemma FillContents(s: State, page: Page)
    requires Distinct(s.entries) && s.entries != []
    ensures var e := s.entries[0];
            var t := Fill(s, page);
            Distinct(t.entries) && Contents(t.entries) == Contents(s.entries)[e.offset := e.(data := page)]
  {
    DropContents(s.entries, 0);
    ConsContents(s.entries[0].(data := page), Drop(s.entries, 0));
    assert Fill(s, page).entries == [s.entries[0].(data := page)] + Drop(s.entries, 0);
  }

  ghost predicate Coherent(s: State, plain: Bytes) {
    Distinct(s.entries) && Agrees(Contents(s.entries), s.file, plain)
  }

  lemma CachedPage(m: map<uint64, Entry>, file: Bytes, plain: Bytes, off: uint64)
    requires Agrees(m, file, plain) && off in m
    ensures m[off].data == PageAt(plain, off)
  {}

  lemma HitCoherent(s: State, op: Op, plain: Bytes)
    requires Coherent(s, plain) && Aligned(op.off) && Find(s.entries, op.off) < |s.entries|
    ensures var i := Find(s.entries, op.off);
            var t := Hit(s, i, op.Write?);
            && s.entries[i].data == PageAt(plain, op.off)
            && Coherent(Finish(t, op), PlainServe(plain, op))
  {
    hide Agrees, Find;
    var i := Find(s.entries, op.off);
    var t := Hit(s, i, op.Write?);
    ContentsOf(s.entries);
    CachedPage(Contents(s.entries), s.file, plain, op.off);
    HitContents(s, i, op.Write?);
    if op.Write? {
      FillContents(t, op.page);
      WriteAgrees(Contents(s.entries), s.file, plain, op.off, op.page);
      assert Contents(Fill(t, op.page).entries) == Contents(s.entries)[op.off := Entry(op.off, op.page, true)];
    } else {
      assert Contents(t.entries) == Contents(s.entries);
    }
  }

  lemma LoadCoherent(s: State, op: Op, plain: Bytes)
    requires Coherent(s, plain) && Aligned(op.off) && Find(s.entries, op.off) == |s.entries|
    ensures PageAt(s.file, op.off) == PageAt(plain, op.off)
    ensures Coherent(Finish(Load(s, op.off, op.Write?), op), PlainServe(plain, op))
  {
    var t := Load(s, op.off, op.Write?);
    ContentsOf(s.entries);
    ConsContents(t.entries[0], s.entries);
    if op.Write? {
      FillContents(t, op.page);
      WriteAgrees(Contents(s.entries), s.file, plain, op.off, op.page);
      assert Contents(Fill(t, op.page).entries) == Contents(s.entries)[op.off := Entry(op.off, op.page, true)];
    } else {
      CleanLoadAgrees(Contents(s.entries), s.file, plain, op.off);
    }
  }

  /** What the caller does with the page in front: fill it if it was asked for writing. */
  function Finish(s: State, op: Op): State
    requires s.entries != []
  {
    if op.Write? then Fill(s, op.page) else s
  }

  /** Evicting at the back and filling in front do not interfere. */
  lemma EvictFinish(s: State, op: Op, written: int)
    requires |s.entries| > 1
    ensures Evict(Finish(s, op), written) == Finish(Evict(s, written), op)
  {}

  /** Keeps the agreement and serves the plain store's page, or fails and changes nothing. */
  lemma ServeCoherent(s: State, op: Op, io: Io, capacity: nat, plain: Bytes)
    requires capacity > 0 && io.written == PAGE_SIZE && Aligned(op.off)
    requires Coherent(s, plain)
    ensures var (t, r) := Serve(s, op, io, capacity);
            if r.Some? then r.value == PageAt(plain, op.off) && Coherent(t, PlainServe(plain, op))
            else Coherent(t, plain)
  {
    hide Agrees, PageAt, Pwrite;
    if Find(s.entries, op.off) < |s.entries| {
      HitCoherent(s, op, plain);
    } else if io.readOk {
      LoadCoherent(s, op, plain);
      var t := Load(s, op.off, op.Write?);
      if |t.entries| > capacity {
        EvictAgrees(Finish(t, op), PlainServe(plain, op));
        EvictFinish(t, op, PAGE_SIZE);
      }
    }
  }

  // ---- Whole runs ---------------------------------------------------------------------------

  /**
   For any requests on aligned pages, whatever reads fail, if evicted pages reach the file: every
   page handed out is the one the uncached store would have read.
   */
  lemma {:induction false} RunCoherent(s: State, ops: seq<Op>, ios: seq<Io>, capacity: nat, plain: Bytes)
    requires capacity > 0 && |ops| == |ios|
    requires forall op :: op in ops ==> Aligned(op.off)
    requires forall io :: io in ios ==> io.written == PAGE_SIZE
    requires Coherent(s, plain)
    ensures var (t, results) := Run(s, ops, ios, capacity);
            var (plain', plainResults) := PlainRun(plain, ops, Served(results));
            results == plainResults && Coherent(t, plain')
    decreases |ops|
  {
    hide Serve, Coherent, Aligned, PlainServe, PageAt;
    if ops != [] {
      ServeCoherent(s, ops[0], ios[0], capacity, plain);
      var (t, first) := Serve(s, ops[0], ios[0], capacity);
      var plain' := if first.Some? then PlainServe(plain, ops[0]) else plain;
      RunCoherent(t, ops[1..], ios[1..], capacity, plain');
      var rest := Run(t, ops[1..], ios[1..], capacity).1;
      assert Served([first] + rest)[1..] == Served(rest);
    }
  }

  /** Flushing in any order ends in the plain store's file. */
  lemma {:induction false} FlushReachesPlain(entries: seq<Entry>, file: Bytes, plain: Bytes, written: uint64 -> int)
    requires Distinct(entries) && Agrees(Contents(entries), file, plain)
    requires forall off :: written(off) == PAGE_SIZE
    ensures Flush(file, entries, written) == plain
    decreases |entries|
  {
    if entries == [] {
      SamePagesSameFile(file, plain);
    } else {
      DropContents(entries, 0);
      assert Drop(entries, 0) == entries[1..];
      RetireAgrees(Contents(entries), file, plain, entries[0].offset);
      FlushReachesPlain(entries[1..], WriteBack(file, entries[0], PAGE_SIZE), plain, written);
    }
  }

  lemma SameMembersSameContents(a: seq<Entry>, b: seq<Entry>)
    requires Distinct(a) && Distinct(b) && forall e :: e in a <==> e in b
    ensures Contents(a) == Contents(b)
  {
    ContentsOf(a);
    ContentsOf(b);
    hide Contents, Distinct;
    forall k: uint64
      ensures k in Contents(a) <==> k in Contents(b)
      ensures k in Contents(a) ==> Contents(a)[k] == Contents(b)[k]
    {
      if k in Contents(a) {
        assert a[Find(a, k)] in b;
      }
      if k in Contents(b) {
        assert b[Find(b, k)] in a;
      }
    }
  }

  /** The file already holds the bytes of the page that pwrite does not write. */
  ghost predicate HasRest(file: Bytes, e: Entry, written: int) {
    forall i :: Max(0, written) <= i < PAGE_SIZE ==> PageAt(file, e.offset)[i] == e.data[i]
  }

  /**
   Evicting a dirty page keeps the plain store's page on file if and only if the file already held
   every byte that pwrite did not write: the dirty flag is gone either way.
   */
  lemma EvictKeepsPageIff(s: State, plain: Bytes, written: int)
    requires Coherent(s, plain) && s.entries != [] && s.entries[|s.entries| - 1].dirty
    ensures var e := s.entries[|s.entries| - 1];
            PageAt(Evict(s, written).file, e.offset) == PageAt(plain, e.offset) <==> HasRest(s.file, e, written)
  {
    var e := s.entries[|s.entries| - 1];
    ContentsOf(s.entries);
    assert e.data == PageAt(plain, e.offset);
    PartialWrite(s.file, e, written);
  }

  /** A short pwrite: the front of the page is new, the rest is as it was. */
  lemma PartialWrite(file: Bytes, e: Entry, written: int)
    requires e.dirty
    ensures forall i :: 0 <= i < PAGE_SIZE ==>
      PageAt(WriteBack(file, e, written), e.offset)[i] == if i < written then e.data[i] else PageAt(file, e.offset)[i]
  {}

  // ---- A flush with short writes ------------------------------------------------------------------

  lemma WriteBackElsewhere(file: Bytes, e: Entry, written: int, q: nat)
    requires Aligned(e.offset) && Aligned(q) && q != e.offset
    ensures PageAt(WriteBack(file, e, written), q) == PageAt(file, q)
  {
    if e.dirty && 0 < written {
      PageAtAfterShortPwrite(file, e.offset, e.data[..Min(written, PAGE_SIZE)], q);
    }
  }

  /** What a write-back makes of its page depends only on what that page was. */
  lemma WriteBackSamePage(f: Bytes, g: Bytes, e: Entry, written: int)
    requires PageAt(f, e.offset) == PageAt(g, e.offset)
    ensures PageAt(WriteBack(f, e, written), e.offset) == PageAt(WriteBack(g, e, written), e.offset)
  {
    if e.dirty {
      PartialWrite(f, e, written);
      PartialWrite(g, e, written);
    }
  }

  ghost predicate AlignedEntries(entries: seq<Entry>) {
    forall i :: 0 <= i < |entries| ==> Aligned(entries[i].offset)
  }

  lemma {:induction false} FlushedElsewhere(entries: seq<Entry>, file: Bytes, written: uint64 -> int, q: nat)
    requires AlignedEntries(entries) && Aligned(q) && forall i :: 0 <= i < |entries| ==> entries[i].offset != q
    ensures PageAt(Flush(file, entries, written), q) == PageAt(file, q)
    decreases |entries|
  {
    if entries != [] {
      var e := entries[0];
      WriteBackElsewhere(file, e, written(e.offset), q);
      FlushedElsewhere(entries[1..], WriteBack(file, e, written(e.offset)), written, q);
    }
  }

  /** After a flush every cached page is as its own write-back left it. */
  lemma {:induction false} FlushedAt(entries: seq<Entry>, file: Bytes, written: uint64 -> int, i: nat)
    requires Distinct(entries) && AlignedEntries(entries) && i < |entries|
    ensures var e := entries[i];
            PageAt(Flush(file, entries, written), e.offset) == PageAt(WriteBack(file, e, written(e.offset)), e.offset)
    decreases |entries|
  {
    var e, rest := entries[0], entries[1..];
    var file' := WriteBack(file, e, written(e.offset));
    if i == 0 {
      hide WriteBack;
      FlushedElsewhere(rest, file', written, e.offset);
    } else {
      assert entries[i] == rest[i - 1] && e.offset != entries[i].offset && Aligned(entries[i].offset);
      assert Distinct(rest) && AlignedEntries(rest);
      hide WriteBack, Distinct, AlignedEntries;
      FlushedAt(rest, file', written, i - 1);
      WriteBackElsewhere(file, e, written(e.offset), entries[i].offset);
      WriteBackSamePage(file', file, entries[i], written(entries[i].offset));
    }
  }

  /** This write-back makes the file `len` bytes long. */
  ghost predicate Reaches(e: Entry, written: int, len: nat) {
    e.dirty && 0 < written && e.offset + Min(written, PAGE_SIZE) == len
  }

  ghost predicate Within(e: Entry, len: nat) { e.dirty ==> e.offset + PAGE_SIZE <= len }

  lemma WriteBackLength(file: Bytes, e: Entry, written: int, len: nat)
    requires |file| <= len && Within(e, len)
    ensures |WriteBack(file, e, written)| <= len
    ensures |WriteBack(file, e, written)| == len <==> |file| == len || Reaches(e, written, len)
  {}

  lemma {:induction false} FlushLength(entries: seq<Entry>, file: Bytes, written: uint64 -> int, len: nat)
    requires |file| <= len && forall i :: 0 <= i < |entries| ==> Within(entries[i], len)
    ensures |Flush(file, entries, written)| <= len
    ensures |Flush(file, entries, written)| == len <==>
              |file| == len || exists i :: 0 <= i < |entries| && Reaches(entries[i], written(entries[i].offset), len)
    decreases |entries|
  {
    if entries != [] {
      var e, rest := entries[0], entries[1..];
      hide Within, Reaches, WriteBack;
      WriteBackLength(file, e, written(e.offset), len);
      FlushLength(rest, WriteBack(file, e, written(e.offset)), written, len);
      if i :| 0 <= i < |rest| && Reaches(rest[i], written(rest[i].offset), len) {
        assert rest[i] == entries[i + 1];
      }
      if i :| 0 < i < |entries| && Reaches(entries[i], written(entries[i].offset), len) {
        assert rest[i - 1] == entries[i];
      }
    }
  }

  /** Each dirty page is written as far as the file did not hold it already. */
  ghost predicate RestsHeld(file: Bytes, entries: seq<Entry>, written: uint64 -> int) {
    forall i :: 0 <= i < |entries| && entries[i].dirty ==> HasRest(file, entries[i], written(entries[i].offset))
  }

  /** The file has the plain store's length, or a write-back gives it that length. */
  ghost predicate LengthReached(file: Bytes, plain: Bytes, entries: seq<Entry>, written: uint64 -> int) {
    |file| == |plain|
    || exists i :: 0 <= i < |entries| && Reaches(entries[i], written(entries[i].offset), |plain|)
  }

  lemma AgreesAt(entries: seq<Entry>, file: Bytes, plain: Bytes)
    requires Distinct(entries) && Agrees(Contents(entries), file, plain)
    ensures AlignedEntries(entries) && |file| <= |plain|
    ensures forall i :: 0 <= i < |entries| ==> Within(entries[i], |plain|)
    ensures forall i :: 0 <= i < |entries| ==>
      entries[i].data == PageAt(plain, entries[i].offset)
      && (!entries[i].dirty ==> PageAt(file, entries[i].offset) == entries[i].data)
  {
    ContentsOf(entries);
  }

  lemma AgreesElsewhere(entries: seq<Entry>, file: Bytes, plain: Bytes, q: nat)
    requires Distinct(entries) && Agrees(Contents(entries), file, plain) && Aligned(q)
    requires forall i :: 0 <= i < |entries| ==> entries[i].offset != q
    ensures PageAt(plain, q) == PageAt(file, q)
  {
    ContentsOf(entries);
    hide Contents;
    if q in Contents(entries) { assert entries[Find(entries, q)].offset == q; }
  }

  lemma WriteBackRight(file: Bytes, e: Entry, written: int)
    requires !e.dirty ==> PageAt(file, e.offset) == e.data
    ensures PageAt(WriteBack(file, e, written), e.offset) == e.data <==> (e.dirty ==> HasRest(file, e, written))
  {
    if e.dirty { PartialWrite(file, e, written); }
  }

  lemma FlushedPages(entries: seq<Entry>, file: Bytes, plain: Bytes, written: uint64 -> int)
    requires Distinct(entries) && Agrees(Contents(entries), file, plain)
    ensures var end := Flush(file, entries, written);
            (forall q: nat :: Aligned(q) ==> PageAt(end, q) == PageAt(plain, q)) <==> RestsHeld(file, entries, written)
  {
    var end := Flush(file, entries, written);
    AgreesAt(entries, file, plain);
    hide Flush, Agrees, WriteBack, HasRest, Distinct, PageAt, Aligned;
    forall i | 0 <= i < |entries|
      ensures Aligned(entries[i].offset)
      ensures PageAt(end, entries[i].offset) == PageAt(plain, entries[i].offset)
              <==> (entries[i].dirty ==> HasRest(file, entries[i], written(entries[i].offset)))
    {
      FlushedAt(entries, file, written, i);
      WriteBackRight(file, entries[i], written(entries[i].offset));
    }
    forall q: nat | Aligned(q) && forall i :: 0 <= i < |entries| ==> entries[i].offset != q
      ensures PageAt(end, q) == PageAt(plain, q)
    {
      FlushedElsewhere(entries, file, written, q);
      AgreesElsewhere(entries, file, plain, q);
    }
  }

  /**
   With writes that may fail or be short: the flush ends in the plain store's file if and only if the
   file held before what was not written of the dirty pages, and the length is reached.
   */
  lemma FlushReachesPlainIff(entries: seq<Entry>, file: Bytes, plain: Bytes, written: uint64 -> int)
    requires Distinct(entries) && Agrees(Contents(entries), file, plain)
    ensures Flush(file, entries, written) == plain
            <==> RestsHeld(file, entries, written) && LengthReached(file, plain, entries, written)
  {
    AgreesAt(entries, file, plain);
    FlushLength(entries, file, written, |plain|);
    FlushedPages(entries, file, plain, written);
    var end := Flush(file, entries, written);
    hide Flush, Agrees, RestsHeld, PageAt, Distinct;
    if |end| == |plain| && (forall q: nat :: Aligned(q) ==> PageAt(end, q) == PageAt(plain, q)) {
      SamePagesSameFile(end, plain);
    }
  }

  /** A failed write-back loses the update: the next read of the page shows the old contents. */
  lemma FailedWriteBackLosesPage(page: Page)
    requires page != PageAt([], 0)
    ensures var ok, bad := Io(true, PAGE_SIZE), Io(true, -1);
            var ops := [Write(0, page), Read(PAGE_SIZE), Read(0)];
            && Run(Init([]), ops, [ok, ok, ok], 1).1[2] == Some(page)
            && Run(Init([]), ops, [ok, bad, ok], 1).1[2] == Some(PageAt([], 0)) != Some(page)
  {
    assert page[..PAGE_SIZE] == page;
    PageAtAfterPwrite([], 0, page, 0);
    EvictThenRead(page, Io(true, PAGE_SIZE));
    EvictThenRead(page, Io(true, -1));
  }

  /** In a cache of one page: fill page 0, read another page, read page 0 again. */
  lemma EvictThenRead(page: Page, io: Io)
    requires io.readOk
    ensures var ops := [Write(0, page), Read(PAGE_SIZE), Read(0)];
            Run(Init([]), ops, [Io(true, PAGE_SIZE), io, Io(true, PAGE_SIZE)], 1).1[2]
            == Some(PageAt(WriteBack([], Entry(0, page, true), io.written), 0))
  {
    var ok := Io(true, PAGE_SIZE);
    var ops, ios := [Write(0, page), Read(PAGE_SIZE), Read(0)], [ok, io, ok];
    var s1 := Serve(Init([]), ops[0], ok, 1).0;
    assert s1.entries == [Entry(0, page, true)];
    var s2 := Serve(s1, ops[1], io, 1).0;
    assert s2.entries == [Entry(PAGE_SIZE, PageAt([], PAGE_SIZE), false)];
    assert Serve(s2, ops[2], ok, 1).1 == Some(PageAt(s2.file, 0));
    var ops1, ios1 := ops[1..], ios[1..];
    var ops2, ios2 := ops1[1..], ios1[1..];
    assert ops1[0] == ops[1] && ops2[0] == ops[2] && ios1[0] == io && ios2[0] == ok;
    assert Run(s2, ops2, ios2, 1).1[0] == Serve(s2, ops[2], ok, 1).1;
    assert Run(s1, ops1, ios1, 1).1[1] == Run(s2, ops2, ios2, 1).1[0];
  }
}
