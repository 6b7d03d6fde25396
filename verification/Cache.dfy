/**
 The page cache on the heap: a bucket array with doubly linked chains, and a doubly linked list of
 all pages, most recently used first. Chain and list have a pair of links each.
 */
module Cache {
  import opened Options
  import opened Config
  import opened PageFile
  import opened LruSpec
  import Fnv

  class File {
    var bytes: Bytes

    constructor (bytes: Bytes)
      ensures this.bytes == bytes
    {
      this.bytes := bytes;
    }
  }

  class Node {
    const offset: uint64
    var data: Page
    var dirty: bool
    var next: Node?
    var prev: Node?
    var hnext: Node?
    var hprev: Node?

    constructor (offset: uint64, dirty: bool)
      ensures this.offset == offset && this.dirty == dirty
    {
      this.offset := offset;
      this.dirty := dirty;
      data := seq(PAGE_SIZE, i => 0);
      next, prev, hnext, hprev := null, null, null, null;
    }
  }

  /** The node at a position, null outside the sequence. */
  ghost function At(s: seq<Node>, i: int): Node? {
    if 0 <= i < |s| then s[i] else null
  }

  ghost predicate Apart(s: seq<Node>) {
    forall i, j :: 0 <= i < j < |s| ==> s[i] != s[j]
  }

  ghost function Nodes(s: seq<Node>): set<Node> {
    set n | n in s
  }

  ghost predicate Linked(s: seq<Node>, head: Node?, tail: Node?)
    reads s`next, s`prev
  {
    && Apart(s) && head == At(s, 0) && tail == At(s, |s| - 1)
    && (forall i {:trigger s[i].next} :: 0 <= i < |s| ==> s[i].next == At(s, i + 1))
    && (forall i {:trigger s[i].prev} :: 0 <= i < |s| ==> s[i].prev == At(s, i - 1))
  }

  ghost function Cut(s: seq<Node>, k: nat): (r: seq<Node>)
    requires k < |s|
    ensures |r| == |s| - 1 && forall i :: 0 <= i < |r| ==> r[i] == s[if i < k then i else i + 1]
  {
    s[..k] + s[k + 1..]
  }

  /** Once the neighbours of position k point past it, the rest is a list of its own. */
  lemma Relinked(s: seq<Node>, k: nat, head: Node?, tail: Node?)
    requires Apart(s) && k < |s|
    requires head == At(s, if k == 0 then 1 else 0) && tail == At(s, if k == |s| - 1 then k - 1 else |s| - 1)
    requires forall j {:trigger s[j].next} :: 0 <= j < |s| && j != k ==>
        s[j].next == At(s, if j == k - 1 then k + 1 else j + 1)
    requires forall j {:trigger s[j].prev} :: 0 <= j < |s| && j != k ==>
        s[j].prev == At(s, if j == k + 1 then k - 1 else j - 1)
    ensures Linked(Cut(s, k), head, tail)
  {}

  lemma CutMembers(s: seq<Node>, k: nat)
    requires Apart(s) && k < |s|
    ensures forall n :: n in Cut(s, k) <==> n in s && n != s[k]
  {
    forall n | n in s && n != s[k]
      ensures n in Cut(s, k)
    {
      var i :| 0 <= i < |s| && s[i] == n;
      assert Cut(s, k)[if i < k then i else i - 1] == n;
    }
  }

  lemma CutNodes(s: seq<Node>, k: nat)
    requires Apart(s) && k < |s|
    ensures Nodes(Cut(s, k)) == Nodes(s) - {s[k]}
  {
    CutMembers(s, k);
  }

  /** A bucket's chain, linked through hnext and hprev from the bucket on. */
  ghost predicate ChainOk(s: seq<Node>, first: Node?)
    reads s`hnext, s`hprev
  {
    && Apart(s) && first == At(s, 0)
    && (forall i {:trigger s[i].hnext} :: 0 <= i < |s| ==> s[i].hnext == At(s, i + 1))
    && (forall i {:trigger s[i].hprev} :: 0 <= i < |s| ==> s[i].hprev == At(s, i - 1))
  }

  lemma ChainRelinked(s: seq<Node>, k: nat, first: Node?)
    requires Apart(s) && k < |s| && first == At(s, if k == 0 then 1 else 0)
    requires forall j {:trigger s[j].hnext} :: 0 <= j < |s| && j != k ==>
        s[j].hnext == At(s, if j == k - 1 then k + 1 else j + 1)
    requires forall j {:trigger s[j].hprev} :: 0 <= j < |s| && j != k ==>
        s[j].hprev == At(s, if j == k + 1 then k - 1 else j - 1)
    ensures ChainOk(Cut(s, k), first)
  {}

  /** Each node of `members` is in the chain of its own bucket, and nothing else is in any. */
  ghost predicate Sorted(chains: seq<seq<Node>>, members: set<Node>) {
    && |chains| == HASH_SIZE
    && (forall h, i :: 0 <= h < HASH_SIZE && 0 <= i < |chains[h]| ==>
          chains[h][i] in members && Fnv.Index(chains[h][i].offset) == h)
    && (forall n :: n in members ==> n in chains[Fnv.Index(n.offset)])
  }

  lemma ChainsDisjoint(chains: seq<seq<Node>>, members: set<Node>, g: nat, h: nat)
    requires Sorted(chains, members) && g < HASH_SIZE && h < HASH_SIZE && g != h
    ensures forall n :: n in chains[g] ==> n in members && n !in chains[h]
  {
    forall n | n in chains[g]
      ensures n in members && n !in chains[h]
    {
      assert Fnv.Index(n.offset) == g;
    }
  }

  lemma SortedPush(chains: seq<seq<Node>>, members: set<Node>, ne: Node)
    requires Sorted(chains, members)
    ensures var h := Fnv.Index(ne.offset); Sorted(chains[h := [ne] + chains[h]], members + {ne})
  {}

  lemma SortedCut(chains: seq<seq<Node>>, members: set<Node>, h: nat, k: nat)
    requires Sorted(chains, members) && h < HASH_SIZE && k < |chains[h]| && Apart(chains[h])
    ensures Sorted(chains[h := Cut(chains[h], k)], members - {chains[h][k]})
  {
    var after: seq<seq<Node>>, rest := chains[h := Cut(chains[h], k)], members - {chains[h][k]};
    CutMembers(chains[h], k);
    forall g, i | 0 <= g < HASH_SIZE && 0 <= i < |after[g]|
      ensures after[g][i] in rest && Fnv.Index(after[g][i].offset) == g
    {
      assert after[g][i] in after[g];
      assert after[g][i] in chains[g];
    }
  }

  ghost predicate DistinctOffsets(s: seq<Node>) {
    forall i, j :: 0 <= i < j < |s| ==> s[i].offset != s[j].offset
  }

  ghost function EntryOf(n: Node): Entry
    reads n`data, n`dirty
  {
    Entry(n.offset, n.data, n.dirty)
  }

  lemma EntryMeans(n: Node)
    ensures EntryOf(n) == Entry(n.offset, n.data, n.dirty)
  {}

  ghost function Entries(s: seq<Node>): (es: seq<Entry>)
    reads s`data, s`dirty
    ensures |es| == |s| && forall i :: 0 <= i < |s| ==> es[i] == EntryOf(s[i])
  {
    if s == [] then [] else [EntryOf(s[0])] + Entries(s[1..])
  }

  /** Moving a node to the front keeps nodes, offsets and buffers. */
  lemma FrontedSame(s: seq<Node>, k: nat)
    requires DistinctOffsets(s) && k < |s|
    ensures var t := [s[k]] + Cut(s, k);
            Nodes(t) == Nodes(s) && DistinctOffsets(t)
  {
    CutMembers(s, k);
    var t := [s[k]] + Cut(s, k);
    forall i, j | 0 <= i < j < |t|
      ensures t[i].offset != t[j].offset
    {
      assert t[j] == Cut(s, k)[j - 1];
    }
  }

  lemma FrontedEntries(s: seq<Node>, k: nat, es: seq<Entry>, write: bool)
    requires k < |s| == |es|
    requires forall i :: 0 <= i < |s| && i != k ==> es[i] == EntryOf(s[i])
    requires EntryOf(s[k]) == es[k].(dirty := es[k].dirty || write)
    ensures var t, ts := [s[k]] + Cut(s, k), [es[k].(dirty := es[k].dirty || write)] + es[..k] + es[k + 1..];
            |ts| == |t| && forall i :: 0 <= i < |t| ==> ts[i] == EntryOf(t[i])
  {}

  lemma HitState(s: State, k: nat, write: bool)
    requires k < |s.entries|
    ensures var t := LruSpec.Hit(s, k, write);
            && t.entries == [s.entries[k].(dirty := s.entries[k].dirty || write)] + s.entries[..k] + s.entries[k + 1..]
            && t.file == s.file && t.hits == s.hits + 1 && t.misses == s.misses
  {}

  lemma NotServed(s: State, off: uint64, write: bool, io: Io)
    requires !io.readOk
    ensures Missed(s, off, write, io) == s.(misses := s.misses + 1)
  {}

  /** What the specification's miss makes of a list that shows the entries of `s`. */
  lemma Loaded(s: State, nodes: seq<Node>, ne: Node, io: Io)
    requires io.readOk && ne.data == PageAt(s.file, ne.offset)
    requires |s.entries| == |nodes| && forall i :: 0 <= i < |nodes| ==> s.entries[i] == EntryOf(nodes[i])
    ensures var t := Missed(s, ne.offset, ne.dirty, io);
            var all := [ne] + nodes;
            && t.hits == s.hits && t.misses == s.misses + 1
            && |t.entries| == (if |all| > MAX_CACHE_ENTRIES then |all| - 1 else |all|)
            && (forall i :: 0 <= i < |t.entries| ==> t.entries[i] == EntryOf(all[i]))
            && t.file == if |all| <= MAX_CACHE_ENTRIES then s.file
                         else WriteBack(s.file, EntryOf(nodes[|nodes| - 1]), io.written)
  {}

  lemma SpecHit(s: State, k: nat, off: uint64, write: bool, io: Io)
    requires Distinct(s.entries) && k < |s.entries| && s.entries[k].offset == off
    ensures LruSpec.Get(s, off, write, io, MAX_CACHE_ENTRIES) == (LruSpec.Hit(s, k, write), Some(s.entries[k].data))
  {}

  lemma SpecMiss(s: State, off: uint64, write: bool, io: Io)
    requires forall i :: 0 <= i < |s.entries| ==> s.entries[i].offset != off
    ensures LruSpec.Get(s, off, write, io, MAX_CACHE_ENTRIES)
         == (Missed(s, off, write, io), if io.readOk then Some(PageAt(s.file, off)) else None)
  {}

  lemma {:induction false} FlushConcat(file: Bytes, a: seq<Entry>, b: seq<Entry>, written: uint64 -> int)
    ensures Flush(file, a + b, written) == Flush(Flush(file, a, written), b, written)
    decreases |a|
  {
    if a == [] {
      assert a + b == b;
    } else {
      assert (a + b)[1..] == a[1..] + b;
      FlushConcat(WriteBack(file, a[0], written(a[0].offset)), a[1..], b, written);
    }
  }

  lemma FlushOne(file: Bytes, before: seq<Entry>, e: Entry, written: uint64 -> int)
    ensures var flushed := Flush(file, before, written);
            Flush(flushed, [e], written) == WriteBack(flushed, e, written(e.offset))
  {}

  lemma FlushNothing(file: Bytes, written: uint64 -> int)
    ensures Flush(file, [], written) == file
  {}

  /** The first h chains one after another. */
  ghost function Flat(chains: seq<seq<Node>>, h: nat): seq<Node>
    requires h <= |chains|
  {
    if h == 0 then [] else Flat(chains, h - 1) + chains[h - 1]
  }

  lemma FlatNone(chains: seq<seq<Node>>)
    ensures Flat(chains, 0) == []
  {}

  lemma FlatNext(chains: seq<seq<Node>>, h: nat)
    requires h < |chains|
    ensures Flat(chains, h + 1) == Flat(chains, h) + chains[h]
  {}

  /** They hold exactly the nodes of the first h buckets. */
  lemma {:induction false} FlatMembers(chains: seq<seq<Node>>, members: set<Node>, h: nat)
    requires Sorted(chains, members) && h <= HASH_SIZE
    ensures forall n :: n in Flat(chains, h) <==> n in members && Fnv.Index(n.offset) < h
  {
    if h > 0 {
      FlatMembers(chains, members, h - 1);
    }
  }

  lemma FlatDisjoint(chains: seq<seq<Node>>, members: set<Node>, h: nat)
    requires Sorted(chains, members) && h < HASH_SIZE
    ensures forall n :: n in chains[h] ==> n in members && n !in Flat(chains, h)
    ensures forall i :: 0 <= i < |chains[h]| ==> chains[h][i] in members
  {
    FlatMembers(chains, members, h);
  }

  lemma {:induction false} FlatApart(chains: seq<seq<Node>>, members: set<Node>, h: nat)
    requires Sorted(chains, members) && h <= HASH_SIZE
    requires forall g :: 0 <= g < HASH_SIZE ==> Apart(chains[g])
    ensures Apart(Flat(chains, h))
  {
    if h > 0 {
      FlatApart(chains, members, h - 1);
      FlatDisjoint(chains, members, h - 1);
    }
  }

  /** The chains together show the same entries as the list, each once. */
  lemma FlushedAll(chains: seq<seq<Node>>, members: set<Node>, lru: seq<Node>, es: seq<Entry>)
    requires Sorted(chains, members) && (forall g :: 0 <= g < HASH_SIZE ==> Apart(chains[g]))
    requires members == Nodes(lru) && DistinctOffsets(lru)
    requires |es| == |lru| && forall i :: 0 <= i < |lru| ==> es[i] == EntryOf(lru[i])
    ensures var order := Entries(Flat(chains, HASH_SIZE));
            Distinct(order) && forall e :: e in order <==> e in es
  {
    FlatMembers(chains, members, HASH_SIZE);
    FlatApart(chains, members, HASH_SIZE);
    hide Sorted;
    Reordered(lru, Flat(chains, HASH_SIZE), es);
  }

  /** The same nodes in another order show the same entries. */
  lemma Reordered(lru: seq<Node>, all: seq<Node>, es: seq<Entry>)
    requires DistinctOffsets(lru) && Apart(all) && forall n :: n in all <==> n in lru
    requires |es| == |lru| && forall i :: 0 <= i < |lru| ==> es[i] == EntryOf(lru[i])
    ensures Distinct(Entries(all)) && forall e :: e in Entries(all) <==> e in es
  {
    var order := Entries(all);
    forall i, j | 0 <= i < j < |order|
      ensures order[i].offset != order[j].offset
    {
      assert all[i] in lru && all[j] in lru;
    }
    forall e | e in es
      ensures e in order
    {
      var i :| 0 <= i < |es| && es[i] == e;
      assert lru[i] in all;
      var j :| 0 <= j < |all| && all[j] == lru[i];
      assert order[j] == e;
    }
    forall e | e in order
      ensures e in es
    {
      var j :| 0 <= j < |order| && order[j] == e;
      assert all[j] in lru;
    }
  }

  /** Walks one chain and writes back its dirty pages. */
  method FlushChain(fd: File, first: Node?, ghost chain: seq<Node>, ghost nodes: set<Node>, written: uint64 -> int)
    returns (ghost es: seq<Entry>)
    requires ChainOk(chain, first) && forall i :: 0 <= i < |chain| ==> chain[i] in nodes
    modifies nodes`dirty, fd
    ensures |es| == |chain| && forall j :: 0 <= j < |chain| ==> es[j] == old(EntryOf(chain[j]))
    ensures fd.bytes == Flush(old(fd.bytes), es, written)
    ensures forall n :: n in nodes && n !in chain ==> n.dirty == old(n.dirty)
  {
    hide Fnv.Index, WriteBack, Flush;
    es := [];
    FlushNothing(fd.bytes, written);
    var e := first;
    while e != null
      invariant |es| <= |chain| && e == At(chain, |es|)
      invariant forall j :: 0 <= j < |es| ==> es[j] == old(EntryOf(chain[j]))
      invariant forall n :: n in nodes && n !in chain[..|es|] ==> n.dirty == old(n.dirty)
      invariant fd.bytes == Flush(old(fd.bytes), es, written)
      decreases |chain| - |es|
    {
      var next := e.hnext;
      ghost var entry := EntryOf(e);
      WriteBackNode(fd, e, written(e.offset));
      FlushConcat(old(fd.bytes), es, [entry], written);
      FlushOne(old(fd.bytes), es, entry, written);
      es := es + [entry];
      e := next;
    }
  }

  lemma RoomForTwo()
    ensures MAX_CACHE_ENTRIES >= 2
  {}

  /** The specification's miss. */
  ghost function Missed(s: State, off: uint64, write: bool, io: Io): State {
    if !io.readOk then s.(misses := s.misses + 1)
    else
      var t := Load(s, off, write);
      if |t.entries| > MAX_CACHE_ENTRIES then LruSpec.Evict(t, io.written) else t
  }

  /** pwrite of a node's buffer if it is dirty; the dirty flag is cleared whatever pwrite returned. */
  method WriteBackNode(fd: File, n: Node, written: int)
    modifies fd, n`dirty
    ensures fd.bytes == WriteBack(old(fd.bytes), old(EntryOf(n)), written)
    ensures !n.dirty
  {
    if n.dirty {
      if 0 < written {
        fd.bytes := Pwrite(fd.bytes, n.offset, n.data[..Min(written, PAGE_SIZE)]);
      }
      n.dirty := false;
    }
  }

  class Cache {
    const hash: array<Node?>
    var lruHead: Node?
    var lruTail: Node?
    var entryCount: nat
    var hits: nat
    var misses: nat
    ghost var lru: seq<Node>
    ghost var nodes: set<Node>
    ghost var chains: seq<seq<Node>>

    // ---- The recency list ---------------------------------------------------------------------

    ghost predicate Listed()
      reads this`lru, this`nodes, this`lruHead, this`lruTail, nodes`next, nodes`prev
    {
      (forall i :: 0 <= i < |lru| ==> lru[i] in nodes) && Linked(lru, lruHead, lruTail)
    }

    /** Takes the node at position k out of the list. */
    method Unlink(e: Node, ghost k: nat)
      requires Listed() && k < |lru| && lru[k] == e
      modifies this`lru, this`lruHead, this`lruTail, nodes`next, nodes`prev
      ensures Listed() && lru == old(lru[..k] + lru[k + 1..])
    {
      if e.prev != null { e.prev.next := e.next; } else { lruHead := e.next; }
      if e.next != null { e.next.prev := e.prev; }
      if e == lruTail { lruTail := e.prev; }
      Relinked(lru, k, lruHead, lruTail);
      lru := Cut(lru, k);
    }

    method PushFront(e: Node)
      requires Listed() && e !in lru && e in nodes
      modifies this`lru, this`lruHead, this`lruTail, nodes`next, nodes`prev
      ensures Listed() && lru == [e] + old(lru)
    {
      e.next := lruHead;
      e.prev := null;
      if lruHead != null { lruHead.prev := e; }
      lruHead := e;
      if lruTail == null { lruTail := e; }
      lru := [e] + lru;
    }

    // ---- The bucket chains --------------------------------------------------------------------

    ghost predicate Chained(members: set<Node>)
      reads this`chains, hash, members`hnext, members`hprev
    {
      && hash.Length == HASH_SIZE && Sorted(chains, members)
      && (forall h :: 0 <= h < HASH_SIZE ==> ChainOk(chains[h], hash[h]))
    }

    method ChainLink(ne: Node, h: nat)
      requires h < HASH_SIZE == hash.Length == |chains| && ChainOk(chains[h], hash[h]) && ne !in chains[h]
      modifies hash, chains[h]`hprev, ne`hnext, ne`hprev
      ensures ChainOk([ne] + chains[h], hash[h])
      ensures forall j :: 0 <= j < hash.Length && j != h ==> hash[j] == old(hash[j])
    {
      ne.hnext := hash[h];
      ne.hprev := null;
      if hash[h] != null { hash[h].hprev := ne; }
      hash[h] := ne;
    }

    method ChainPush(ne: Node, h: nat, ghost members: set<Node>)
      requires Chained(members) && ne !in members && h == Fnv.Index(ne.offset)
      modifies this`chains, hash, members`hprev, ne`hnext, ne`hprev
      ensures Chained(members + {ne}) && hash[h] == ne
    {
      ghost var was := chains;
      SortedPush(was, members, ne);
      ChainLink(ne, h);
      chains := chains[h := [ne] + chains[h]];
      forall g | 0 <= g < HASH_SIZE && g != h
        ensures ChainOk(was[g], hash[g])
      {
        assert old(ChainOk(chains[g], hash[g]));
        ChainsDisjoint(was, members, g, h);
      }
    }

    method ChainUnlink(e: Node, h: nat, ghost k: nat)
      requires h < HASH_SIZE == hash.Length == |chains| && ChainOk(chains[h], hash[h])
      requires k < |chains[h]| && chains[h][k] == e
      modifies hash, chains[h]`hnext, chains[h]`hprev
      ensures ChainOk(Cut(chains[h], k), hash[h])
      ensures forall j :: 0 <= j < hash.Length && j != h ==> hash[j] == old(hash[j])
    {
      if e.hprev != null { e.hprev.hnext := e.hnext; }
      if e.hnext != null { e.hnext.hprev := e.hprev; }
      if hash[h] == e { hash[h] := e.hnext; }
      ChainRelinked(chains[h], k, hash[h]);
    }

    method ChainRemove(e: Node, h: nat, ghost members: set<Node>)
      requires Chained(members) && e in members && h == Fnv.Index(e.offset)
      modifies this`chains, hash, members`hprev, members`hnext
      ensures Chained(members - {e})
    {
      ghost var was := chains;
      ghost var k :| 0 <= k < |chains[h]| && chains[h][k] == e;
      ChainUnlink(e, h, k);
      chains := chains[h := Cut(chains[h], k)];
      forall g | 0 <= g < HASH_SIZE && g != h
        ensures ChainOk(was[g], hash[g])
      {
        assert old(ChainOk(chains[g], hash[g]));
        ChainsDisjoint(was, members, g, h);
      }
      SortedCut(was, members, h, k);
    }

    // ---- The whole cache ----------------------------------------------------------------------

    /** List and chains hold the same nodes, no offset twice; the counter is the list's length. */
    ghost predicate Sound()
      reads this`lru, this`nodes, this`chains, this`lruHead, this`lruTail, this`entryCount, hash
      reads nodes`next, nodes`prev, nodes`hnext, nodes`hprev
    {
      && Listed() && Chained(nodes) && nodes == Nodes(lru)
      && DistinctOffsets(lru) && entryCount == |lru|
    }

    ghost predicate Valid()
      reads this`lru, this`nodes, this`chains, this`lruHead, this`lruTail, this`entryCount, hash
      reads nodes`next, nodes`prev, nodes`hnext, nodes`hprev
    {
      Sound() && entryCount <= MAX_CACHE_ENTRIES
    }

    lemma SoundMeans()
      requires Sound()
      ensures Listed() && Chained(nodes) && Apart(lru) && DistinctOffsets(lru)
      ensures nodes == Nodes(lru) && entryCount == |lru|
    {}

    lemma IsSound()
      requires Listed() && Chained(nodes) && nodes == Nodes(lru) && entryCount == |lru|
      requires forall i, j :: 0 <= i < j < |lru| ==> lru[i].offset != lru[j].offset
      ensures Sound()
    {}

    lemma FrontIsAlone()
      requires Valid() && lru != []
      ensures lru[0] in nodes && forall i :: 0 < i < |lru| ==> lru[i] != lru[0]
    {}

    lemma IsValid()
      requires Sound() && entryCount <= MAX_CACHE_ENTRIES
      ensures Valid()
    {}

    lemma ValidMeans()
      requires Valid()
      ensures Sound() && Apart(lru) && DistinctOffsets(lru) && entryCount == |lru| <= MAX_CACHE_ENTRIES
      ensures nodes == Nodes(lru) && forall n :: n in nodes <==> n in lru
    {}

    /** The value of the cache and its file. */
    ghost function Abs(fd: File): State
      reads this, lru, fd
    {
      State(Entries(lru), fd.bytes, hits, misses)
    }

    lemma AbsMeans(fd: File)
      ensures Abs(fd).file == fd.bytes && Abs(fd).hits == hits && Abs(fd).misses == misses
      ensures |Abs(fd).entries| == |lru| && forall i :: 0 <= i < |lru| ==> Abs(fd).entries[i] == EntryOf(lru[i])
    {}

    lemma AbsPages(fd: File)
      requires Valid()
      ensures Distinct(Abs(fd).entries) && |Abs(fd).entries| == |lru|
      ensures forall i :: 0 <= i < |lru| ==>
          Abs(fd).entries[i].offset == lru[i].offset && Abs(fd).entries[i].data == lru[i].data
    {
      SoundMeans();
    }

    lemma AbsIs(fd: File, s: State)
      requires s.file == fd.bytes && s.hits == hits && s.misses == misses
      requires |s.entries| == |lru| && forall i :: 0 <= i < |lru| ==> s.entries[i] == EntryOf(lru[i])
      ensures Abs(fd) == s
    {
      assert Entries(lru) == s.entries;
    }

    lemma ChainedMeans()
      requires Chained(nodes)
      ensures Sorted(chains, nodes) && |chains| == HASH_SIZE == hash.Length
      ensures forall h :: 0 <= h < HASH_SIZE ==> Apart(chains[h]) && ChainOk(chains[h], hash[h])
    {}

    lemma EmptyIsValid()
      requires hash.Length == HASH_SIZE && (forall h :: 0 <= h < HASH_SIZE ==> hash[h] == null)
      requires chains == seq(HASH_SIZE, i => []) && lru == [] && nodes == {}
      requires lruHead == null && lruTail == null && entryCount == 0
      ensures Valid()
    {}

    constructor ()
      ensures Valid() && fresh(hash) && lru == [] && nodes == {} && hits == 0 && misses == 0
    {
      hash := new Node?[HASH_SIZE](i => null);
      lruHead, lruTail, entryCount, hits, misses := null, null, 0, 0, 0;
      lru, nodes := [], {};
      chains := seq(HASH_SIZE, i => []);
    }

    /** Walks the chain of bucket h. */
    method Lookup(h: nat, off: uint64) returns (e: Node?)
      requires Sound() && h == Fnv.Index(off)
      ensures e != null ==> e in lru && e.offset == off
      ensures e == null ==> forall n :: n in lru ==> n.offset != off
    {
      e := hash[h];
      ghost var k := 0;
      while e != null
        invariant k <= |chains[h]| && e == At(chains[h], k)
        invariant forall j :: 0 <= j < k ==> chains[h][j].offset != off
        decreases |chains[h]| - k
      {
        if e.offset == off { return; }
        e := e.hnext;
        k := k + 1;
      }
    }

    method Relist(e: Node, ghost k: nat)
      requires Listed() && k < |lru| && lru[k] == e
      modifies this`lru, this`lruHead, this`lruTail, nodes`next, nodes`prev
      ensures Listed() && lru == [e] + old(Cut(lru, k))
    {
      if e != lruHead {
        CutMembers(lru, k);
        Unlink(e, k);
        PushFront(e);
      }
    }

    method MoveToFront(e: Node, ghost k: nat)
      requires Valid() && k < |lru| && lru[k] == e
      modifies this`lru, this`lruHead, this`lruTail, nodes`next, nodes`prev
      ensures Valid() && lru == [e] + old(Cut(lru, k))
    {
      Relist(e, k);
      assert Chained(nodes) == old(Chained(nodes));
      assert Nodes(lru) == nodes && DistinctOffsets(lru) by { FrontedSame(old(lru), k); }
    }

    /** A page found: moved to the front, and marked dirty if it was asked for writing. */
    method Hit(e: Node, write: bool) returns (ghost k: nat)
      requires Valid() && e in lru
      modifies this`lru, this`lruHead, this`lruTail, this`hits, nodes`next, nodes`prev, e`dirty
      ensures Valid() && k < old(|lru|) && old(lru[k]) == e && lru == [e] + old(Cut(lru, k))
      ensures e.dirty == (old(e.dirty) || write) && hits == old(hits) + 1
    {
      hide Cache.Valid;
      k :| 0 <= k < |lru| && lru[k] == e;
      MoveToFront(e, k);
      ghost var valid := Valid();
      if write { e.dirty := true; }
      hits := hits + 1;
      assert valid == Valid();
    }

    /** The value of the cache after a hit is the specification's. */
    method GetCached(fd: File, e: Node, write: bool) returns (ghost k: nat)
      requires Valid() && e in lru
      modifies this`lru, this`lruHead, this`lruTail, this`hits, nodes`next, nodes`prev, e`dirty
      ensures Valid() && lru != [] && lru[0] == e
      ensures k < old(|lru|) && old(lru[k]) == e
      ensures Abs(fd) == LruSpec.Hit(old(Abs(fd)), k, write)
    {
      hide *;
      ValidMeans();
      AbsMeans(fd);
      ghost var was, s := lru, Abs(fd);
      EntryMeans(e);
      k := Hit(e, write);
      EntryMeans(e);
      FrontedEntries(was, k, s.entries, write);
      HitState(s, k, write);
      AbsIs(fd, LruSpec.Hit(s, k, write));
    }

    // ---- A page not yet cached ----------------------------------------------------------------

    /** `ne` is already in its bucket's chain, but not yet in the list. */
    ghost predicate Pending(ne: Node)
      reads this`lru, this`nodes, this`chains, this`lruHead, this`lruTail, this`entryCount, hash
      reads nodes`next, nodes`prev, nodes`hnext, nodes`hprev, ne`hnext, ne`hprev
    {
      && Listed() && Chained(nodes + {ne}) && nodes == Nodes(lru)
      && DistinctOffsets(lru) && entryCount == |lru| && (forall n :: n in lru ==> n.offset != ne.offset)
    }

    lemma PendingMeans(ne: Node)
      requires Pending(ne)
      ensures ne !in lru && ne !in nodes && entryCount == |lru|
    {}

    method Announce(ne: Node, h: nat)
      requires Valid() && h == Fnv.Index(ne.offset) && (forall n :: n in lru ==> n.offset != ne.offset)
      modifies this`chains, hash, nodes`hprev, ne`hnext, ne`hprev
      ensures Pending(ne)
    {
      ChainPush(ne, h, nodes);
      assert Listed() == old(Listed());
    }

    method Retract(ne: Node, h: nat)
      requires Pending(ne) && h == Fnv.Index(ne.offset) && entryCount <= MAX_CACHE_ENTRIES
      modifies this`chains, hash, nodes`hprev, nodes`hnext, ne`hnext, ne`hprev
      ensures Valid()
    {
      ChainRemove(ne, h, nodes + {ne});
      assert ne !in nodes;
      assert nodes + {ne} - {ne} == nodes;
      assert Listed() == old(Listed());
    }

    method Enlist(ne: Node)
      requires Pending(ne)
      modifies this`lru, this`nodes, this`lruHead, this`lruTail, this`entryCount
      modifies nodes`next, nodes`prev, ne`next, ne`prev
      ensures Sound() && lru == [ne] + old(lru) && nodes == old(nodes) + {ne} && entryCount == old(entryCount) + 1
    {
      hide Cache.Chained;
      nodes := nodes + {ne};
      PushFront(ne);
      entryCount := entryCount + 1;
      assert Chained(nodes) == old(Chained(nodes + {ne}));
    }

    // ---- Eviction -----------------------------------------------------------------------------

    lemma IsListed()
      requires nodes == Nodes(lru) && Linked(lru, lruHead, lruTail)
      ensures Listed()
    {}

    /** A list of one node leaves its head behind: only the tail is updated. */
    method DropTail()
      requires Listed() && nodes == Nodes(lru) && lru != []
      modifies this`lru, this`nodes, this`lruTail, nodes`next
      ensures lru == old(lru[..|lru| - 1]) && nodes == Nodes(lru) == old(nodes - {lru[|lru| - 1]})
      ensures if old(|lru|) >= 2 then Listed() else lruHead == old(lru[0])
    {
      ghost var last := |lru| - 1;
      var evict := lruTail;
      lruTail := evict.prev;
      if lruTail != null { lruTail.next := null; }
      if last > 0 { Relinked(lru, last, lruHead, lruTail); }
      CutMembers(lru, last);
      ghost var kept := Cut(lru, last);
      hide *;
      assert kept == lru[..last];
      CutNodes(lru, last);
      assert lru[last] == evict;
      lru := kept;
      nodes := nodes - {evict};
      if last > 0 { IsListed(); }
    }

    lemma DanglingHead()
      requires lru == [] && lruHead != null
      ensures !Sound()
    {}

    /**
     The tail leaves its bucket, is written back if dirty, and leaves the list. The list stays sound
     unless this was its only node, which the head then still points to.
     */
    method Evict(fd: File, written: int)
      requires Sound()
      modifies this`lru, this`nodes, this`lruTail, this`entryCount, nodes`next, nodes`dirty, fd
      modifies this`chains, hash, nodes`hprev, nodes`hnext
      ensures Sound() <==> old(|lru|) != 1
      ensures nodes <= old(nodes) && lru == if old(lru) == [] then [] else old(lru[..|lru| - 1])
      ensures forall n :: n in lru ==> n.dirty == old(n.dirty)
      ensures old(lru) == [] ==> fd.bytes == old(fd.bytes)
      ensures old(lru) != [] ==> fd.bytes == WriteBack(old(fd.bytes), old(EntryOf(lru[|lru| - 1])), written)
    {
      hide *;
      SoundMeans();
      TailMeans();
      if lruTail == null {
        return;
      }
      var evict := Tail();
      var h := Fnv.HashFunc(evict.offset);
      ChainRemove(evict, h, nodes);
      WriteBackNode(fd, evict, written);
      entryCount := entryCount - 1;
      ghost var kept := nodes - {evict};
      label Unhashed:
      DropTail();
      assert Chained(kept) == old@Unhashed(Chained(kept));
      if lru == [] { DanglingHead(); } else { IsSound(); }
    }

    lemma TailMeans()
      requires Listed()
      ensures lruTail == null <==> lru == []
    {}

    method Tail() returns (n: Node)
      requires Listed() && lru != []
      ensures n == lru[|lru| - 1] && n in nodes
    {
      n := lruTail;
    }

    // ---- cache_get ----------------------------------------------------------------------------

    /** A page just read goes to the front, and the oldest goes if there are too many. */
    method Insert(fd: File, ne: Node, written: int)
      requires Pending(ne) && entryCount <= MAX_CACHE_ENTRIES
      modifies this`lru, this`nodes, this`lruHead, this`lruTail, this`entryCount, this`chains, hash
      modifies nodes`next, nodes`prev, nodes`dirty, nodes`hprev, nodes`hnext
      modifies ne`next, ne`prev, ne`dirty, ne`hprev, ne`hnext, fd
      ensures Valid() && nodes <= old(nodes) + {ne}
      ensures old(|lru|) == MAX_CACHE_ENTRIES ==>
        lru == [ne] + old(lru[..|lru| - 1])
        && fd.bytes == WriteBack(old(fd.bytes), old(EntryOf(lru[|lru| - 1])), written)
      ensures old(|lru|) < MAX_CACHE_ENTRIES ==> lru == [ne] + old(lru) && fd.bytes == old(fd.bytes)
      ensures forall n :: n in lru ==> n.dirty == old(n.dirty)
    {
      hide *;
      RoomForTwo();
      Enlist(ne);
      SoundMeans();
      if entryCount > MAX_CACHE_ENTRIES {
        Evict(fd, written);
        SoundMeans();
      }
      IsValid();
    }

    /** The page of a node already in its chain is read, and the node goes to the front. */
    method ReadIn(fd: File, ne: Node, io: Io)
      requires Pending(ne) && entryCount <= MAX_CACHE_ENTRIES && io.readOk
      modifies this`lru, this`nodes, this`lruHead, this`lruTail, this`entryCount, this`chains, this`misses, hash
      modifies nodes`next, nodes`prev, nodes`dirty, nodes`hprev, nodes`hnext, ne, fd
      ensures Valid() && nodes <= old(nodes) + {ne} && lru != [] && lru[0] == ne
          && ne.data == PageAt(old(fd.bytes), ne.offset)
      ensures Abs(fd) == Missed(old(Abs(fd)), ne.offset, old(ne.dirty), io)
    {
      hide *;
      PendingMeans(ne);
      AbsMeans(fd);
      ghost var s := Abs(fd);
      misses := misses + 1;
      ne.data := ZeroPad(Pread(fd.bytes, ne.offset));
      PaddedReadIsPageAt(fd.bytes, ne.offset);
      label Read:
      Loaded(s, lru, ne, io);
      RoomForTwo();
      Insert(fd, ne, io.written);
      forall n | n in lru
        ensures EntryOf(n) == old@Read(EntryOf(n))
      {
        EntryMeans(n);
      }
      AbsIs(fd, Missed(s, ne.offset, old(ne.dirty), io));
    }

    method GetMissing(fd: File, ne: Node, h: nat, io: Io) returns (page: Node?)
      requires Valid() && h == Fnv.Index(ne.offset) && (forall n :: n in lru ==> n.offset != ne.offset)
      modifies this`lru, this`nodes, this`lruHead, this`lruTail, this`entryCount, this`chains, this`misses, hash
      modifies nodes`next, nodes`prev, nodes`dirty, nodes`hprev, nodes`hnext, ne, fd
      ensures Valid() && nodes <= old(nodes) + {ne}
      ensures page == if io.readOk then ne else null
      ensures page != null ==> lru != [] && lru[0] == page && page.data == PageAt(old(fd.bytes), ne.offset)
      ensures Abs(fd) == Missed(old(Abs(fd)), ne.offset, old(ne.dirty), io)
    {
      hide *;
      ValidMeans();
      AbsMeans(fd);
      ghost var s := Abs(fd);
      Announce(ne, h);
      if !io.readOk {
        Retract(ne, h);
        misses := misses + 1;
        NotServed(s, ne.offset, ne.dirty, io);
        AbsIs(fd, s.(misses := misses));
        return null;
      }
      AbsIs(fd, s);
      ReadIn(fd, ne, io);
      page := ne;
    }

    /**
     The page at `off`, from the cache or the file; null if the file could not be read. The caller
     may use the node's data until the next call, and write to it in place if it asked for writing.
     */
    method Get(fd: File, off: uint64, write: bool, io: Io) returns (page: Node?)
      requires Valid()
      modifies this, hash, nodes, fd
      ensures Valid() && fresh(nodes - old(nodes))
      ensures page != null ==> lru != [] && lru[0] == page
      ensures var (t, r) := LruSpec.Get(old(Abs(fd)), off, write, io, MAX_CACHE_ENTRIES);
              Abs(fd) == t && r == if page == null then None else Some(page.data)
    {
      hide *;
      ValidMeans();
      AbsMeans(fd);
      AbsPages(fd);
      ghost var s := Abs(fd);
      var h := Fnv.HashFunc(off);
      var e := Lookup(h, off);
      if e != null {
        ghost var k := GetCached(fd, e, write);
        SpecHit(s, k, off, write, io);
        page := e;
      } else {
        SpecMiss(s, off, write, io);
        var ne := new Node(off, write);
        page := GetMissing(fd, ne, h, io);
      }
    }

    // ---- cache_destroy ------------------------------------------------------------------------

    /** Walks the buckets in order and writes back every dirty page. */
    method FlushBuckets(fd: File, written: uint64 -> int) returns (ghost order: seq<Entry>)
      requires Chained(nodes) && |chains| == HASH_SIZE
      modifies hash, nodes`dirty, fd
      ensures forall j :: 0 <= j < HASH_SIZE ==> hash[j] == null
      ensures |order| == |Flat(chains, HASH_SIZE)|
      ensures forall j :: 0 <= j < |order| ==>
        Flat(chains, HASH_SIZE)[j] in nodes && order[j] == old(EntryOf(Flat(chains, HASH_SIZE)[j]))
      ensures fd.bytes == Flush(old(fd.bytes), order, written)
    {
      hide *;
      ChainedMeans();
      order := [];
      FlatNone(chains);
      FlushNothing(fd.bytes, written);
      for h := 0 to HASH_SIZE
        invariant |order| == |Flat(chains, h)|
        invariant forall j :: 0 <= j < |order| ==>
          Flat(chains, h)[j] in nodes && order[j] == old(EntryOf(Flat(chains, h)[j]))
        invariant forall n :: n in nodes && n !in Flat(chains, h) ==> n.dirty == old(n.dirty)
        invariant forall j :: h <= j < HASH_SIZE ==> hash[j] == old(hash[j])
        invariant forall j :: 0 <= j < h ==> hash[j] == null
        invariant fd.bytes == Flush(old(fd.bytes), order, written)
      {
        FlatDisjoint(chains, nodes, h);
        FlatNext(chains, h);
        assert ChainOk(chains[h], hash[h]) == old(ChainOk(chains[h], hash[h]));
        ghost var es := FlushChain(fd, hash[h], chains[h], nodes, written);
        hash[h] := null;
        FlushConcat(old(fd.bytes), order, es, written);
        order := order + es;
      }
    }

    /** Writes back every dirty page in some order, and empties the cache. */
    method Destroy(fd: File, written: uint64 -> int) returns (ghost order: seq<Entry>)
      requires Valid()
      modifies this`lru, this`nodes, this`chains, this`lruHead, this`lruTail, this`entryCount, hash, nodes`dirty, fd
      ensures Valid() && lru == []
      ensures Distinct(order) && forall e :: e in order <==> e in old(Abs(fd)).entries
      ensures fd.bytes == Flush(old(fd.bytes), order, written)
    {
      hide *;
      ValidMeans();
      SoundMeans();
      ChainedMeans();
      AbsMeans(fd);
      FlushedAll(chains, nodes, lru, Abs(fd).entries);
      ghost var expected := Entries(Flat(chains, HASH_SIZE));
      order := FlushBuckets(fd, written);
      assert order == expected;
      lruHead, lruTail, entryCount := null, null, 0;
      lru, nodes := [], {};
      chains := seq(HASH_SIZE, i => []);
      EmptyIsValid();
    }
  }
}
