/** Which pages are resident: the recency order of any run, and what the cyclic scan does to it. */
module Recency {
  import opened Options
  import opened Config
  import opened PageFile
  import opened LruSpec

  function Offsets(entries: seq<Entry>): (offs: seq<uint64>)
    ensures |offs| == |entries|
  {
    seq(|entries|, i requires 0 <= i < |entries| => entries[i].offset)
  }

  function Take<T>(s: seq<T>, n: nat): seq<T> { if n < |s| then s[..n] else s }

  function Without(s: seq<uint64>, x: uint64): (r: seq<uint64>)
    ensures forall y :: y in r <==> y in s && y != x
    ensures |r| <= |s|
  {
    if s == [] then [] else if s[0] == x then Without(s[1..], x) else [s[0]] + Without(s[1..], x)
  }

  ghost predicate NoDup(s: seq<uint64>) { forall i, j :: 0 <= i < j < |s| ==> s[i] != s[j] }

  /** The distinct offsets of a trace, latest use first. */
  function Order(trace: seq<uint64>): (r: seq<uint64>)
    ensures forall y :: y in r <==> y in trace
  {
    if trace == [] then []
    else
      var last := |trace| - 1;
      assert trace == trace[..last] + [trace[last]];
      [trace[last]] + Without(Order(trace[..last]), trace[last])
  }

  lemma OrderAppend(trace: seq<uint64>, x: uint64)
    ensures Order(trace + [x]) == [x] + Without(Order(trace), x)
  {
    assert (trace + [x])[..|trace|] == trace;
  }

  /** The offsets of the requests that were served, in order. */
  function Trace(ops: seq<Op>, results: seq<Option<Page>>): seq<uint64>
    requires |ops| == |results|
  {
    if ops == [] then []
    else
      var n := |ops| - 1;
      Trace(ops[..n], results[..n]) + (if results[n].Some? then [ops[n].off] else [])
  }

  // ---- The resident offsets are the front of the recency order -------------------------------

  lemma NoDupCons(x: uint64, s: seq<uint64>)
    requires NoDup(s) && x !in s
    ensures NoDup([x] + s)
  {}

  lemma {:induction false} WithoutNoDup(s: seq<uint64>, x: uint64)
    requires NoDup(s)
    ensures NoDup(Without(s, x))
  {
    if s != [] {
      WithoutNoDup(s[1..], x);
      if s[0] != x { NoDupCons(s[0], Without(s[1..], x)); }
    }
  }

  lemma {:induction false} OrderNoDup(trace: seq<uint64>)
    ensures NoDup(Order(trace))
  {
    if trace != [] {
      var last := |trace| - 1;
      OrderNoDup(trace[..last]);
      WithoutNoDup(Order(trace[..last]), trace[last]);
      NoDupCons(trace[last], Without(Order(trace[..last]), trace[last]));
    }
  }

  /** Removing the one occurrence of x, at position k. */
  lemma {:induction false} WithoutAt(s: seq<uint64>, k: nat)
    requires NoDup(s) && k < |s|
    ensures Without(s, s[k]) == s[..k] + s[k + 1..]
  {
    if k == 0 {
      WithoutAbsent(s[1..], s[0]);
    } else {
      WithoutAt(s[1..], k - 1);
    }
  }

  lemma {:induction false} WithoutAbsent(s: seq<uint64>, x: uint64)
    requires x !in s
    ensures Without(s, x) == s
  {
    if s != [] { WithoutAbsent(s[1..], x); }
  }

  /** Offsets after a served access, from the offsets before. */
  function Touch(offs: seq<uint64>, x: uint64, capacity: nat): seq<uint64> {
    Take([x] + Without(offs, x), capacity)
  }

  /** Moving to the front and truncating commute: this is why LRU is a stack algorithm. */
  lemma TouchTake(order: seq<uint64>, x: uint64, capacity: nat)
    requires NoDup(order) && capacity > 0
    ensures Touch(Take(order, capacity), x, capacity) == Take([x] + Without(order, x), capacity)
  {
    if x in order {
      var k :| 0 <= k < |order| && order[k] == x;
      TouchTakeAt(order, k, capacity);
    } else {
      WithoutAbsent(order, x);
      WithoutAbsent(Take(order, capacity), x);
    }
  }

  lemma TouchTakeAt(order: seq<uint64>, k: nat, capacity: nat)
    requires NoDup(order) && k < |order| && capacity > 0
    ensures Touch(Take(order, capacity), order[k], capacity) == Take([order[k]] + Without(order, order[k]), capacity)
  {
    var kept := Take(order, capacity);
    WithoutAt(order, k);
    if k < |kept| {
      WithoutAt(kept, k);
      hide Without;
      if capacity < |order| { MovedThenTaken(order, k, capacity); }
    } else {
      WithoutAbsent(kept, order[k]);
      hide Without;
      PushedThenTaken(order, k, capacity);
    }
  }

  lemma MovedThenTaken(order: seq<uint64>, k: nat, n: nat)
    requires k < n < |order|
    ensures [order[k]] + (order[..n][..k] + order[..n][k + 1..]) == ([order[k]] + (order[..k] + order[k + 1..]))[..n]
  {}

  lemma PushedThenTaken(order: seq<uint64>, k: nat, n: nat)
    requires 0 < n <= k < |order|
    ensures ([order[k]] + order[..n])[..n] == ([order[k]] + (order[..k] + order[k + 1..]))[..n]
  {}

  lemma HitOffsets(s: State, i: nat, write: bool)
    requires i < |s.entries|
    ensures var offs := Offsets(s.entries);
            Offsets(Hit(s, i, write).entries) == [offs[i]] + (offs[..i] + offs[i + 1..])
  {
    var offs, es := Offsets(s.entries), Hit(s, i, write).entries;
    forall j | 0 <= j < |es|
      ensures es[j].offset == ([offs[i]] + (offs[..i] + offs[i + 1..]))[j]
    {
      assert es[j].offset == s.entries[if j == 0 then i else if j <= i then j - 1 else j].offset;
    }
  }

  lemma HitTouches(s: State, i: nat, write: bool, capacity: nat)
    requires NoDup(Offsets(s.entries)) && i < |s.entries| <= capacity
    ensures Offsets(Hit(s, i, write).entries) == Touch(Offsets(s.entries), Offsets(s.entries)[i], capacity)
  {
    WithoutAt(Offsets(s.entries), i);
    HitOffsets(s, i, write);
    hide Without, Hit, NoDup;
  }

  lemma LoadTouches(s: State, off: uint64, write: bool, io: Io, capacity: nat)
    requires capacity > 0 && |s.entries| <= capacity && io.readOk && Find(s.entries, off) == |s.entries|
    ensures Offsets(Get(s, off, write, io, capacity).0.entries) == Touch(Offsets(s.entries), off, capacity)
  {
    var offs := Offsets(s.entries);
    assert off !in offs;
    WithoutAbsent(offs, off);
    hide Without, Find;
    assert Offsets(Load(s, off, write).entries) == [off] + offs;
  }

  lemma GetTouches(s: State, off: uint64, write: bool, io: Io, capacity: nat)
    requires capacity > 0 && NoDup(Offsets(s.entries)) && |s.entries| <= capacity
    ensures var (t, r) := Get(s, off, write, io, capacity);
            Offsets(t.entries) == if r.Some? then Touch(Offsets(s.entries), off, capacity) else Offsets(s.entries)
  {
    hide Touch, NoDup, Hit, Load, Evict;
    var i := Find(s.entries, off);
    if i < |s.entries| {
      HitTouches(s, i, write, capacity);
    } else if io.readOk {
      LoadTouches(s, off, write, io, capacity);
    }
  }

  lemma ServeTouches(s: State, op: Op, io: Io, capacity: nat)
    requires capacity > 0 && NoDup(Offsets(s.entries)) && |s.entries| <= capacity
    ensures var (t, r) := Serve(s, op, io, capacity);
            Offsets(t.entries) == if r.Some? then Touch(Offsets(s.entries), op.off, capacity) else Offsets(s.entries)
  {
    GetTouches(s, op.off, op.Write?, io, capacity);
    var (t, r) := Get(s, op.off, op.Write?, io, capacity);
    if r.Some? && op.Write? {
      assert Offsets(Fill(t, op.page).entries) == Offsets(t.entries);
    }
  }

  /**
   After any run from the empty cache, whatever I/O fails, the resident offsets are the first
   `capacity` of the recency order of the served requests, in that order.
   */
  lemma {:induction false} ResidentIsRecent(file: Bytes, ops: seq<Op>, ios: seq<Io>, capacity: nat)
    requires capacity > 0 && |ops| == |ios|
    ensures var (t, results) := Run(Init(file), ops, ios, capacity);
            Offsets(t.entries) == Take(Order(Trace(ops, results)), capacity)
  {
    if ops != [] {
      var n := |ops| - 1;
      ResidentIsRecent(file, ops[..n], ios[..n], capacity);
      assert ops == ops[..n] + [ops[n]] && ios == ios[..n] + [ios[n]];
      RunAppend(Init(file), ops[..n], ios[..n], ops[n], ios[n], capacity);
      var (t, results) := Run(Init(file), ops[..n], ios[..n], capacity);
      var r := Serve(t, ops[n], ios[n], capacity).1;
      assert (results + [r])[..n] == results;
      var trace := Trace(ops[..n], results);
      OrderNoDup(trace);
      assert NoDup(Take(Order(trace), capacity));
      ServeTouches(t, ops[n], ios[n], capacity);
      assert Run(Init(file), ops, ios, capacity).1 == results + [r];
      assert Trace(ops, results + [r]) == trace + (if r.Some? then [ops[n].off] else []);
      if r.Some? {
        OrderAppend(trace, ops[n].off);
        TouchTake(Order(trace), ops[n].off, capacity);
      } else {
        assert trace + [] == trace;
      }
    }
  }

  // ---- What the recency order says ------------------------------------------------------------

  function ToSet(s: seq<uint64>): set<uint64> { set x | x in s }

  lemma ToSetCons(x: uint64, s: seq<uint64>)
    ensures ToSet([x] + s) == {x} + ToSet(s)
  {}

  lemma {:induction false} NoDupCount(s: seq<uint64>)
    requires NoDup(s)
    ensures |ToSet(s)| == |s|
  {
    if s != [] {
      NoDupCount(s[1..]);
      assert ToSet(s) == {s[0]} + ToSet(s[1..]);
    }
  }

  /** The offsets in front of x in the order are those used since the last use of x. */
  lemma {:induction false} InFrontIsSince(trace: seq<uint64>, i: nat, k: nat)
    requires i < |trace| && trace[i] !in trace[i + 1..]
    requires k < |Order(trace)| && Order(trace)[k] == trace[i]
    ensures ToSet(Order(trace)[..k]) == ToSet(trace[i + 1..])
  {
    var prefix, y := trace[..|trace| - 1], trace[|trace| - 1];
    assert trace == prefix + [y];
    OrderAppend(prefix, y);
    OrderNoDup(trace);
    OrderNoDup(prefix);
    if i == |prefix| {
      assert Order(trace)[0] == y;
      assert k == 0;
    } else {
      assert prefix[i + 1..] + [y] == trace[i + 1..];
      assert prefix[i] in Order(prefix);
      var j :| 0 <= j < |Order(prefix)| && Order(prefix)[j] == prefix[i];
      InFrontIsSince(prefix, i, j);
      InFrontStep(Order(prefix), y, j, k, prefix[i + 1..]);
    }
  }

  lemma InFrontStep(before: seq<uint64>, y: uint64, j: nat, k: nat, since: seq<uint64>)
    requires NoDup(before) && j < |before| && before[j] != y
    requires k <= |Without(before, y)| && ([y] + Without(before, y))[k] == before[j]
    requires ToSet(before[..j]) == ToSet(since)
    ensures ToSet(([y] + Without(before, y))[..k]) == ToSet(since + [y])
  {
    assert k > 0;
    WithoutPrefix(before, y, j, k - 1);
    assert ([y] + Without(before, y))[..k] == [y] + Without(before, y)[..k - 1];
    ToSetCons(y, Without(before, y)[..k - 1]);
    ToSetSnoc(since, y);
  }

  lemma ToSetSnoc(s: seq<uint64>, x: uint64)
    ensures ToSet(s + [x]) == ToSet(s) + {x}
  {}

  lemma {:induction false} WithoutPrefix(s: seq<uint64>, y: uint64, j: nat, k: nat)
    requires j < |s| && s[j] != y && NoDup(s)
    requires k < |Without(s, y)| && Without(s, y)[k] == s[j]
    ensures ToSet(Without(s, y)[..k]) == ToSet(s[..j]) - {y}
  {
    WithoutNoDup(s, y);
    if j == 0 {
      assert Without(s, y)[0] == s[0];
      assert k == 0;
    } else {
      var rest := s[1..];
      assert s[..j] == [s[0]] + rest[..j - 1];
      ToSetCons(s[0], rest[..j - 1]);
      if s[0] == y {
        WithoutPrefix(rest, y, j - 1, k);
      } else {
        assert Without(s, y) == [s[0]] + Without(rest, y);
        assert s[j] != s[0];
        WithoutPrefix(rest, y, j - 1, k - 1);
        assert Without(s, y)[..k] == [s[0]] + Without(rest, y)[..k - 1];
        ToSetCons(s[0], Without(rest, y)[..k - 1]);
      }
    }
  }

  /**
   A page is resident exactly when fewer than `capacity` other offsets were used since its last use.
   */
  lemma ResidentIffRecent(trace: seq<uint64>, i: nat, capacity: nat)
    requires i < |trace| && trace[i] !in trace[i + 1..]
    ensures trace[i] in Take(Order(trace), capacity) <==> |ToSet(trace[i + 1..])| < capacity
  {
    var order := Order(trace);
    OrderNoDup(trace);
    assert trace[i] in order;
    var k :| 0 <= k < |order| && order[k] == trace[i];
    InFrontIsSince(trace, i, k);
    NoDupCount(order[..k]);
    assert trace[i] in Take(order, capacity) <==> k < capacity;
  }

  /** If the same requests are served, the contents at one capacity are the front part of those at a larger one. */
  lemma StackPropertyServed(file: Bytes, ops: seq<Op>, ios: seq<Io>, ios': seq<Io>, small: nat, large: nat)
    requires 0 < small <= large && |ops| == |ios| == |ios'|
    requires SameServed(Run(Init(file), ops, ios, small).1, Run(Init(file), ops, ios', large).1)
    ensures Offsets(Run(Init(file), ops, ios, small).0.entries)
            <= Offsets(Run(Init(file), ops, ios', large).0.entries)
  {
    ResidentIsRecent(file, ops, ios, small);
    ResidentIsRecent(file, ops, ios', large);
    SameTrace(ops, Run(Init(file), ops, ios, small).1, Run(Init(file), ops, ios', large).1);
  }

  predicate SameServed(rs: seq<Option<Page>>, rs': seq<Option<Page>>) {
    |rs| == |rs'| && forall i :: 0 <= i < |rs| ==> rs[i].Some? == rs'[i].Some?
  }

  /** They are, for one, if all reads succeed. */
  lemma StackProperty(file: Bytes, ops: seq<Op>, ios: seq<Io>, ios': seq<Io>, small: nat, large: nat)
    requires 0 < small <= large && |ops| == |ios| == |ios'|
    requires forall io :: io in ios + ios' ==> io.readOk
    ensures Offsets(Run(Init(file), ops, ios, small).0.entries)
            <= Offsets(Run(Init(file), ops, ios', large).0.entries)
  {
    AllServed(Init(file), ops, ios, small);
    AllServed(Init(file), ops, ios', large);
    StackPropertyServed(file, ops, ios, ios', small, large);
  }

  lemma {:induction false} AllServed(s: State, ops: seq<Op>, ios: seq<Io>, capacity: nat)
    requires capacity > 0 && |ops| == |ios| && forall io :: io in ios ==> io.readOk
    ensures forall r :: r in Run(s, ops, ios, capacity).1 ==> r.Some?
    decreases |ops|
  {
    if ops != [] { AllServed(Serve(s, ops[0], ios[0], capacity).0, ops[1..], ios[1..], capacity); }
  }

  lemma {:induction false} SameTrace(ops: seq<Op>, rs: seq<Option<Page>>, rs': seq<Option<Page>>)
    requires |ops| == |rs| && SameServed(rs, rs')
    ensures Trace(ops, rs) == Trace(ops, rs')
  {
    if ops != [] {
      var n := |ops| - 1;
      SameTrace(ops[..n], rs[..n], rs'[..n]);
    }
  }
}
