/** The per-core tables of hot blocks, and the migration of units between cores. */
module HotScheduler {
  import opened Config

  const TABLE_SIZE := 64

  datatype WorkUnit = WorkUnit(block: uint64, hot: nat)

  type Table = seq<WorkUnit>

  // ---- One core's table, on values -------------------------------------------------------------

  function Find(t: Table, block: uint64): (i: nat)
    ensures i <= |t| && (i < |t| ==> t[i].block == block)
    ensures forall j :: 0 <= j < i ==> t[j].block != block
  {
    if t == [] || t[0].block == block then 0 else 1 + Find(t[1..], block)
  }

  function Reported(t: Table, block: uint64): Table {
    var i := Find(t, block);
    if i < |t| then t[i := t[i].(hot := t[i].hot + 1)]
    else if |t| < TABLE_SIZE then t + [WorkUnit(block, 1)]
    else t
  }

  // ---- All cores, on values ----------------------------------------------------------------------

  type Tables = ts: seq<Table> | |ts| == CORES witness [[], [], [], []]

  /** Units on the cores below n, the caller's own left out. */
  function Others(ts: Tables, core: nat, n: nat): nat
    requires n <= CORES
  {
    if n == 0 then 0 else Others(ts, core, n - 1) + (if n - 1 == core then 0 else |ts[n - 1]|)
  }

  predicate ShouldMigrate(ts: Tables, core: nat)
    requires core < CORES
  {
    |ts[core]| < Others(ts, core, CORES) / (CORES - 1) - MIGRATION_THRESHOLD
  }

  /** The first other core from n on that has a unit, or CORES. */
  function Donor(ts: Tables, core: nat, n: nat): (i: nat)
    requires n <= CORES
    ensures n <= i <= CORES && (i < CORES ==> i != core && ts[i] != [])
    ensures forall j :: n <= j < i && j != core ==> ts[j] == []
    decreases CORES - n
  {
    if n == CORES then n else if n != core && ts[n] != [] then n else Donor(ts, core, n + 1)
  }

  function Migrated(ts: Tables, core: nat): (r: (Tables, uint64))
    requires core < CORES
  {
    var i := Donor(ts, core, 0);
    if i == CORES then (ts, 0) else (ts[i := ts[i][..|ts[i]| - 1]], ts[i][|ts[i]| - 1].block)
  }

  // ---- The code ------------------------------------------------------------------------------

  class CoreQueue {
    const w: array<WorkUnit>
    var count: nat

    ghost predicate Valid()
      reads this
    {
      w.Length == TABLE_SIZE && count <= TABLE_SIZE
    }

    ghost function Units(): Table
      requires Valid()
      reads this, w
    {
      w[..count]
    }

    constructor ()
      ensures Valid() && fresh(w) && Units() == []
    {
      w := new WorkUnit[TABLE_SIZE](i => WorkUnit(0, 0));
      count := 0;
    }

    method Report(block: uint64)
      requires Valid()
      modifies this`count, w
      ensures Valid() && Units() == Reported(old(Units()), block)
    {
      ghost var t := Units();
      for i := 0 to count
        invariant forall j :: 0 <= j < i ==> w[j].block != block
        invariant w[..] == old(w[..])
      {
        if w[i].block == block {
          assert Find(t, block) == i;
          w[i] := w[i].(hot := w[i].hot + 1);
          return;
        }
      }
      assert Find(t, block) == |t|;
      if count < TABLE_SIZE {
        w[count] := WorkUnit(block, 1);
        count := count + 1;
      }
    }

    method Pop() returns (block: uint64)
      requires Valid() && count > 0
      modifies this`count
      ensures Valid() && Units() == old(Units())[..old(count) - 1] && block == old(Units())[old(count) - 1].block
    {
      count := count - 1;
      block := w[count].block;
    }
  }

  class Scheduler {
    const queues: seq<CoreQueue>

    ghost predicate Valid()
      reads this, queues
    {
      && |queues| == CORES && (forall i :: 0 <= i < CORES ==> queues[i].Valid())
      && (forall i, j :: 0 <= i < j < CORES ==> queues[i] != queues[j] && queues[i].w != queues[j].w)
    }

    ghost function State(): Tables
      requires Valid()
      reads this, queues, set q | q in queues :: q.w
    {
      [queues[0].Units(), queues[1].Units(), queues[2].Units(), queues[3].Units()]
    }

    constructor ()
      ensures Valid() && State() == [[], [], [], []]
    {
      var a := new CoreQueue();
      var b := new CoreQueue();
      var c := new CoreQueue();
      var d := new CoreQueue();
      queues := [a, b, c, d];
    }

    method ReportAccess(core: nat, block: uint64)
      requires Valid() && core < CORES
      modifies queues[core], queues[core].w
      ensures Valid() && State() == old(State())[core := Reported(old(State())[core], block)]
    {
      queues[core].Report(block);
    }

    method ShouldMigrateNow(core: nat) returns (r: bool)
      requires Valid() && core < CORES
      ensures r == ShouldMigrate(State(), core)
    {
      var total, otherCores := 0, 0;
      for i := 0 to CORES
        invariant total == Others(State(), core, i)
        invariant otherCores == if i <= core then i else i - 1
      {
        if i != core {
          total := total + queues[i].count;
          otherCores := otherCores + 1;
        }
      }
      var avg := if otherCores > 0 then total / otherCores else 0;
      r := queues[core].count < avg - MIGRATION_THRESHOLD;
    }

    /** The last unit of core i's table. */
    method TakeFrom(i: nat) returns (block: uint64)
      requires Valid() && i < CORES && State()[i] != []
      modifies queues
      ensures Valid()
      ensures var t := old(State())[i];
              State() == old(State())[i := t[..|t| - 1]] && block == t[|t| - 1].block
    {
      block := queues[i].Pop();
    }

    method GetMigratedTask(core: nat) returns (block: uint64)
      requires Valid() && core < CORES
      modifies queues
      ensures Valid() && (State(), block) == Migrated(old(State()), core)
    {
      for i := 0 to CORES
        invariant Donor(State(), core, 0) == Donor(State(), core, i)
        invariant State() == old(State()) && Valid()
      {
        if i != core && queues[i].count > 0 {
          block := TakeFrom(i);
          return;
        }
      }
      block := 0;
    }
  }

  // ---- Migration -----------------------------------------------------------------------------

  /** How many units the loop takes from the other cores: all beyond three times the own count plus 17. */
  function Surplus(ts: Tables, core: nat): nat
    requires core < CORES
  {
    var total, own := Others(ts, core, CORES), |ts[core]|;
    if total > 3 * own + 17 then total - (3 * own + 17) else 0
  }

  lemma {:induction false} NoDonor(ts: Tables, core: nat, n: nat)
    requires n <= CORES && forall j :: 0 <= j < n && j != core ==> ts[j] == []
    ensures Others(ts, core, n) == 0
  {
    if n > 0 { NoDonor(ts, core, n - 1); }
  }

  lemma {:induction false} OthersAfter(ts: Tables, core: nat, i: nat, t: Table, n: nat)
    requires i < CORES && i != core && n <= CORES && |t| + 1 == |ts[i]|
    ensures Others(ts[i := t], core, n) == Others(ts, core, n) - (if i < n then 1 else 0)
  {
    if n > 0 { OthersAfter(ts, core, i, t, n - 1); }
  }

  /**
   A core that should migrate finds a unit on another core; the unit leaves that core, the core's own
   table stays, and the units elsewhere are one fewer.
   */
  lemma MigrationFinds(ts: Tables, core: nat)
    requires core < CORES && ShouldMigrate(ts, core)
    ensures var i := Donor(ts, core, 0);
            var (ts', block) := Migrated(ts, core);
            && i < CORES && i != core && ts' == ts[i := ts'[i]] && ts[i] == ts'[i] + [ts[i][|ts[i]| - 1]]
            && block == ts[i][|ts[i]| - 1].block
            && Others(ts', core, CORES) == Others(ts, core, CORES) - 1
  {
    var i := Donor(ts, core, 0);
    if i == CORES {
      NoDonor(ts, core, CORES);
    } else {
      OthersAfter(ts, core, i, ts[i][..|ts[i]| - 1], CORES);
    }
  }

  /** The migration condition without its division. */
  lemma ShouldMigrateIff(ts: Tables, core: nat)
    requires core < CORES
    ensures ShouldMigrate(ts, core) <==> Others(ts, core, CORES) >= 3 * |ts[core]| + 18
    ensures ShouldMigrate(ts, core) <==> Surplus(ts, core) > 0
  {}

  /** The tables after the core has taken n units. */
  function Taken(ts: Tables, core: nat, n: nat): Tables
    requires core < CORES
  {
    if n == 0 then ts else Migrated(Taken(ts, core, n - 1), core).0
  }

  /**
   A core that takes units as long as it should migrate stops after exactly `Surplus` of them: it
   should before each of these, and no longer after. Its own table stays, and each call removes one unit.
   */
  lemma {:induction false} MigrationCount(ts: Tables, core: nat, n: nat)
    requires core < CORES && n <= Surplus(ts, core)
    ensures Taken(ts, core, n)[core] == ts[core]
    ensures Others(Taken(ts, core, n), core, CORES) == Others(ts, core, CORES) - n
    ensures ShouldMigrate(Taken(ts, core, n), core) <==> n < Surplus(ts, core)
  {
    if n > 0 {
      MigrationCount(ts, core, n - 1);
      MigrationFinds(Taken(ts, core, n - 1), core);
    }
    ShouldMigrateIff(Taken(ts, core, n), core);
  }

  // ---- Hot counts over whole runs --------------------------------------------------------------

  datatype Event = Report(core: nat, block: uint64) | Migrate(core: nat)

  function After(ts: Tables, e: Event): Tables
    requires e.core < CORES
  {
    match e
    case Report(core, block) => ts[core := Reported(ts[core], block)]
    case Migrate(core) => Migrated(ts, core).0
  }

  predicate OnCores(events: seq<Event>) { forall e :: e in events ==> e.core < CORES }

  function Run(events: seq<Event>): Tables
    requires OnCores(events)
  {
    if events == [] then [[], [], [], []]
    else
      var n := |events| - 1;
      After(Run(events[..n]), events[n])
  }

  predicate Has(t: Table, block: uint64) { exists i :: 0 <= i < |t| && t[i].block == block }

  predicate DistinctBlocks(t: Table) {
    forall i, j :: 0 <= i < j < |t| ==> t[i].block != t[j].block
  }

  function Count(events: seq<Event>, e: Event): nat {
    if events == [] then 0 else Count(events[..|events| - 1], e) + (if events[|events| - 1] == e then 1 else 0)
  }

  lemma ReportedTable(t: Table, block: uint64)
    requires |t| <= TABLE_SIZE && DistinctBlocks(t)
    ensures |Reported(t, block)| <= TABLE_SIZE && DistinctBlocks(Reported(t, block))
  {}

  /** Every table is bounded and holds no block twice, after any run. */
  lemma {:induction false} TablesBounded(events: seq<Event>, core: nat)
    requires OnCores(events) && core < CORES
    ensures |Run(events)[core]| <= TABLE_SIZE && DistinctBlocks(Run(events)[core])
  {
    if events != [] {
      var n := |events| - 1;
      TablesBounded(events[..n], core);
      if events[n].Report? {
        ReportedTable(Run(events[..n])[core], events[n].block);
      }
    }
  }

  /** The event at `born` inserted the block, and it has been in the table ever since. */
  ghost predicate Since(events: seq<Event>, core: nat, block: uint64, born: nat)
    requires OnCores(events) && core < CORES && born < |events|
  {
    && events[born] == Report(core, block) && !Has(Run(events[..born])[core], block)
    && forall j :: born < j <= |events| ==> Has(Run(events[..j])[core], block)
  }

  /**
   In every run, across removals by migration and later insertions, a unit's `hot` is the number of
   reports of its block on its core from the report that inserted it on.
   */
  lemma {:induction false} HotIsCount(events: seq<Event>, core: nat, k: nat) returns (born: nat)
    requires OnCores(events) && core < CORES && k < |Run(events)[core]|
    ensures var u := Run(events)[core][k];
            born < |events| && Since(events, core, u.block, born)
            && u.hot == Count(events[born..], Report(core, u.block))
    decreases |events|
  {
    var n := |events| - 1;
    var before, e := events[..n], events[n];
    var t := Run(before)[core];
    var u := Run(events)[core][k];
    var report := Report(core, u.block);
    assert events == before + [e];
    assert Has(Run(events)[core], u.block);
    TablesBounded(before, core);
    if e == report && !Has(t, u.block) {
      born := n;
      SinceNow(before, core, u.block);
      assert events[n..] == [e];
    } else {
      UnitBefore(before, e, core, k);
      hide After, Since, DistinctBlocks;
      born := HotIsCount(before, core, k);
      SinceLonger(before, e, core, u.block, born);
      CountMore(before, e, born, report);
    }
  }

  lemma CountMore(before: seq<Event>, e: Event, born: nat, report: Event)
    requires born <= |before|
    ensures Count((before + [e])[born..], report) == Count(before[born..], report) + (if e == report then 1 else 0)
  {
    assert (before + [e])[born..] == before[born..] + [e];
    assert (before[born..] + [e])[..|before| - born] == before[born..];
  }

  lemma SinceNow(before: seq<Event>, core: nat, block: uint64)
    requires OnCores(before) && core < CORES && !Has(Run(before)[core], block)
    requires Has(Run(before + [Report(core, block)])[core], block)
    ensures Since(before + [Report(core, block)], core, block, |before|)
  {
    var events := before + [Report(core, block)];
    assert events[..|before|] == before && events[..|events|] == events;
  }

  /** A unit not just inserted was at the same place before, with one report less if this was one. */
  lemma UnitBefore(before: seq<Event>, e: Event, core: nat, k: nat)
    requires OnCores(before) && e.core < CORES && core < CORES
    requires |Run(before)[core]| <= TABLE_SIZE && DistinctBlocks(Run(before)[core])
    requires var t' := After(Run(before), e)[core];
             k < |t'| && (e == Report(core, t'[k].block) ==> Has(Run(before)[core], t'[k].block))
    ensures var t, t' := Run(before)[core], After(Run(before), e)[core];
            && k < |t| && t[k].block == t'[k].block
            && t'[k].hot == t[k].hot + (if e == Report(core, t[k].block) then 1 else 0)
  {}

  lemma SinceLonger(before: seq<Event>, e: Event, core: nat, block: uint64, born: nat)
    requires OnCores(before) && e.core < CORES && core < CORES && born < |before|
    requires Since(before, core, block, born) && Has(Run(before + [e])[core], block)
    ensures Since(before + [e], core, block, born)
  {
    var events := before + [e];
    forall j | born < j <= |events|
      ensures Has(Run(events[..j])[core], block)
    {
      if j <= |before| {
        assert events[..j] == before[..j];
      } else {
        assert events[..j] == events;
      }
    }
    assert events[..born] == before[..born];
  }
}
