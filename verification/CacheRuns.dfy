/** A client of the heap cache: a whole life of the cache, from creation to cache_destroy. */
module CacheRuns {
  import opened Options
  import opened Config
  import opened PageFile
  import opened LruSpec
  import opened Coherence
  import C = Cache

  /** The caller's in-place write to the page it was last given is the specification's Fill. */
  method FillPage(c: C.Cache, fd: C.File, page: C.Node, data: Page)
    requires c.Valid() && c.lru != [] && c.lru[0] == page
    modifies page`data
    ensures c.Valid() && c.Abs(fd) == Fill(old(c.Abs(fd)), data)
  {
    hide *;
    c.AbsMeans(fd);
    c.FrontIsAlone();
    C.EntryMeans(page);
    ghost var s := c.Abs(fd);
    page.data := data;
    FillState(s, data);
    forall i | 0 <= i < |c.lru|
      ensures Fill(s, data).entries[i] == C.EntryOf(c.lru[i])
    {
      C.EntryMeans(c.lru[i]);
    }
    c.AbsIs(fd, Fill(s, data));
  }

  lemma FillState(s: State, data: Page)
    requires s.entries != []
    ensures var t := Fill(s, data);
            && t.entries == s.entries[0 := s.entries[0].(data := data)]
            && t.file == s.file && t.hits == s.hits && t.misses == s.misses
  {}

  ghost predicate AllWritten(ios: seq<Io>) {
    forall io :: io in ios ==> io.written == PAGE_SIZE
  }

  ghost predicate AllAligned(ops: seq<Op>) {
    forall op :: op in ops ==> Aligned(op.off)
  }

  /** The state and results of the specification after the first i requests. */
  ghost function After(file: Bytes, ops: seq<Op>, ios: seq<Io>, i: nat): (State, seq<Option<Page>>)
    requires |ops| == |ios| && i <= |ops|
  {
    Run(Init(file), ops[..i], ios[..i], MAX_CACHE_ENTRIES)
  }

  lemma AfterNone(file: Bytes, ops: seq<Op>, ios: seq<Io>)
    requires |ops| == |ios|
    ensures After(file, ops, ios, 0) == (State([], file, 0, 0), [])
  {}

  lemma AfterNext(file: Bytes, ops: seq<Op>, ios: seq<Io>, i: nat)
    requires |ops| == |ios| && i < |ops|
    ensures var (s, results) := After(file, ops, ios, i);
            var (t, r) := Get(s, ops[i].off, ops[i].Write?, ios[i], MAX_CACHE_ENTRIES);
            && (r.Some? ==> t.entries != [])
            && After(file, ops, ios, i + 1) ==
               (if r.Some? && ops[i].Write? then Fill(t, ops[i].page) else t, results + [r])
  {
    assert ops[..i + 1] == ops[..i] + [ops[i]] && ios[..i + 1] == ios[..i] + [ios[i]];
    RunAppend(Init(file), ops[..i], ios[..i], ops[i], ios[i], MAX_CACHE_ENTRIES);
  }

  lemma AfterAll(file: Bytes, ops: seq<Op>, ios: seq<Io>, order: seq<Entry>, written: uint64 -> int)
    requires |ops| == |ios| && AllWritten(ios) && AllAligned(ops)
    requires forall off :: written(off) == PAGE_SIZE
    requires var (s, results) := After(file, ops, ios, |ops|);
             Distinct(order) && forall e :: e in order <==> e in s.entries
    ensures var (s, results) := After(file, ops, ios, |ops|);
            var (plain, expected) := PlainRun(file, ops, Served(results));
            results == expected && Flush(s.file, order, written) == plain
  {
    assert ops[..|ops|] == ops && ios[..|ops|] == ios;
    var (s, results) := After(file, ops, ios, |ops|);
    RunCoherent(Init(file), ops, ios, MAX_CACHE_ENTRIES, file);
    var plain := PlainRun(file, ops, Served(results)).0;
    SameMembersSameContents(order, s.entries);
    FlushReachesPlain(order, s.file, plain, written);
  }

  /**
   Serves the requests through a new cache and destroys it: every page handed out is the one the
   uncached store reads, and the file ends up as the uncached store's.
   */
  method Replay(fd: C.File, ops: seq<Op>, ios: seq<Io>) returns (results: seq<Option<Page>>)
    requires |ops| == |ios| && AllWritten(ios) && AllAligned(ops)
    modifies fd
    ensures |results| == |ops|
    ensures var (plain, expected) := PlainRun(old(fd.bytes), ops, Served(results));
            results == expected && fd.bytes == plain
  {
    hide *;
    var c := new C.Cache();
    results := [];
    AfterNone(fd.bytes, ops, ios);
    c.AbsIs(fd, State([], fd.bytes, 0, 0));
    for i := 0 to |ops|
      invariant c.Valid() && fresh(c) && fresh(c.hash) && fresh(c.nodes)
      invariant After(old(fd.bytes), ops, ios, i) == (c.Abs(fd), results)
    {
      AfterNext(old(fd.bytes), ops, ios, i);
      var page := c.Get(fd, ops[i].off, ops[i].Write?, ios[i]);
      results := results + [if page == null then None else Some(page.data)];
      if page != null && ops[i].Write? {
        c.FrontIsAlone();
        FillPage(c, fd, page, ops[i].page);
      }
    }
    c.AbsMeans(fd);
    var order := c.Destroy(fd, off => PAGE_SIZE);
    AfterAll(old(fd.bytes), ops, ios, order, off => PAGE_SIZE);
  }
}
