/**
 The page cache on values: what one `cache_get` and the final flush do to the list of
 cached pages (most recently used first) and to the backing file.
 */
module LruSpec {
  import opened Options
  import opened Config
  import opened PageFile

  datatype Entry = Entry(offset: uint64, data: Page, dirty: bool)

  datatype State = State(entries: seq<Entry>, file: Bytes, hits: nat, misses: nat)

  /** What the system calls of one access return: whether pread succeeds, and pwrite's result. */
  datatype Io = Io(readOk: bool, written: int)

  function Init(file: Bytes): State { State([], file, 0, 0) }

  /** The position of the page at `off`, or the length of the list. */
  function Find(entries: seq<Entry>, off: uint64): (i: nat)
    ensures i <= |entries|
    ensures i < |entries| ==> entries[i].offset == off
    ensures forall j :: 0 <= j < i ==> entries[j].offset != off
  {
    if entries == [] || entries[0].offset == off then 0 else 1 + Find(entries[1..], off)
  }

  /** pwrite of one cached page, of which only the first `written` bytes may reach the file. */
  function WriteBack(file: Bytes, e: Entry, written: int): Bytes {
    if e.dirty && 0 < written then Pwrite(file, e.offset, e.data[..Min(written, PAGE_SIZE)]) else file
  }

  function Evict(s: State, written: int): State {
    if s.entries == [] then s
    else
      var last := |s.entries| - 1;
      s.(entries := s.entries[..last], file := WriteBack(s.file, s.entries[last], written))
  }

  function Hit(s: State, i: nat, write: bool): State
    requires i < |s.entries|
  {
    var e := s.entries[i];
    s.(entries := [e.(dirty := e.dirty || write)] + s.entries[..i] + s.entries[i + 1..], hits := s.hits + 1)
  }

  function Load(s: State, off: uint64, write: bool): State {
    s.(entries := [Entry(off, PageAt(s.file, off), write)] + s.entries, misses := s.misses + 1)
  }

  /** cache_get: the new state, and the page the caller may now use (none if the read failed). */
  function Get(s: State, off: uint64, write: bool, io: Io, capacity: nat): (State, Option<Page>) {
    var i := Find(s.entries, off);
    if i < |s.entries| then (Hit(s, i, write), Some(s.entries[i].data))
    else if !io.readOk then (s.(misses := s.misses + 1), None)
    else
      var t := Load(s, off, write);
      (if |t.entries| > capacity then Evict(t, io.written) else t, Some(PageAt(s.file, off)))
  }

  /** The caller fills the page it was last given. */
  function Fill(s: State, page: Page): State
    requires s.entries != []
  {
    s.(entries := s.entries[0 := s.entries[0].(data := page)])
  }

  /** cache_destroy: every dirty page goes back to the file, in the order of the sequence. */
  function Flush(file: Bytes, entries: seq<Entry>, written: uint64 -> int): Bytes
    decreases |entries|
  {
    if entries == [] then file
    else Flush(WriteBack(file, entries[0], written(entries[0].offset)), entries[1..], written)
  }

  predicate Distinct(entries: seq<Entry>) {
    forall i, j :: 0 <= i < j < |entries| ==> entries[i].offset != entries[j].offset
  }

  // ---- Requests -------------------------------------------------------------------------

  /** One use of the cache: look at a page, or get it for writing and then fill it. */
  datatype Op = Read(off: uint64) | Write(off: uint64, page: Page)

  function Serve(s: State, op: Op, io: Io, capacity: nat): (State, Option<Page>)
    requires capacity > 0
  {
    var (t, r) := Get(s, op.off, op.Write?, io, capacity);
    if r.Some? && op.Write? then (Fill(t, op.page), r) else (t, r)
  }

  function Run(s: State, ops: seq<Op>, ios: seq<Io>, capacity: nat): (r: (State, seq<Option<Page>>))
    requires capacity > 0 && |ops| == |ios|
    ensures |r.1| == |ops|
    decreases |ops|
  {
    if ops == [] then (s, [])
    else
      var (t, first) := Serve(s, ops[0], ios[0], capacity);
      var (end, rest) := Run(t, ops[1..], ios[1..], capacity);
      (end, [first] + rest)
  }

  /** Requests one after another are one run. */
  lemma {:induction false} RunAppend(s: State, ops: seq<Op>, ios: seq<Io>, op: Op, io: Io, capacity: nat)
    requires capacity > 0 && |ops| == |ios|
    ensures var (t, rs) := Run(s, ops, ios, capacity);
            var (u, r) := Serve(t, op, io, capacity);
            Run(s, ops + [op], ios + [io], capacity) == (u, rs + [r])
    decreases |ops|
  {
    if ops == [] {
      assert ops + [op] == [op] && ios + [io] == [io];
      assert [op][1..] == [] && [io][1..] == [];
      var r := Serve(s, op, io, capacity).1;
      assert [r] + [] == [] + [r];
    } else {
      assert (ops + [op])[1..] == ops[1..] + [op] && (ios + [io])[1..] == ios[1..] + [io];
      var (t, first) := Serve(s, ops[0], ios[0], capacity);
      RunAppend(t, ops[1..], ios[1..], op, io, capacity);
      var (u, r) := Serve(Run(s, ops, ios, capacity).0, op, io, capacity);
      assert [first] + (Run(t, ops[1..], ios[1..], capacity).1 + [r]) == Run(s, ops, ios, capacity).1 + [r];
    }
  }
}
