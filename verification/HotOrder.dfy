/** Which blocks a core's table holds: what one report does, and the order of first reports. */
module HotOrder {
  import opened Config
  import opened HotScheduler

  /**
   A reported block is in the table afterwards, unless it is new and the table holds 64 units. Every
   other unit stays as it is and where it is; the block's own unit has one report more, or is new, last
   and has one.
   */
  lemma ReportEnters(t: Table, block: uint64)
    requires DistinctBlocks(t)
    ensures var t' := Reported(t, block);
            && (Has(t', block) <==> Has(t, block) || |t| < 64)
            && |t'| == |t| + (if Has(t, block) || |t| >= 64 then 0 else 1)
            && (forall i :: 0 <= i < |t| ==> t'[i].block == t[i].block)
            && (forall i :: 0 <= i < |t| ==> t'[i].hot == t[i].hot + (if t[i].block == block then 1 else 0))
            && (|t'| > |t| ==> t'[|t|] == WorkUnit(block, 1))
  {
    var t' := Reported(t, block);
    var i := Find(t, block);
    if i < |t| {
      assert t'[i].block == block;
    } else if |t| < TABLE_SIZE {
      assert t'[|t|].block == block;
    }
  }

  function BlocksOf(t: Table): (blocks: seq<uint64>)
    ensures |blocks| == |t|
  {
    seq(|t|, i requires 0 <= i < |t| => t[i].block)
  }

  /** The blocks reported on a core, each once, in order of first report. */
  function FirstReports(events: seq<Event>, core: nat): (blocks: seq<uint64>) {
    if events == [] then []
    else
      var before, e := FirstReports(events[..|events| - 1], core), events[|events| - 1];
      if e.Report? && e.core == core && e.block !in before then before + [e.block] else before
  }

  function First64(blocks: seq<uint64>): seq<uint64> { if |blocks| > 64 then blocks[..64] else blocks }

  /** No unit leaves the core by migration. */
  ghost predicate NoneTaken(events: seq<Event>, core: nat)
    requires OnCores(events)
  {
    forall j :: 0 <= j < |events| && events[j].Migrate? ==> Donor(Run(events[..j]), events[j].core, 0) != core
  }

  lemma HasIsListed(t: Table, block: uint64)
    ensures Has(t, block) <==> block in BlocksOf(t)
  {
    if Has(t, block) {
      var i :| 0 <= i < |t| && t[i].block == block;
      assert BlocksOf(t)[i] == block;
    }
  }

  lemma ReportLists(t: Table, firsts: seq<uint64>, block: uint64)
    requires DistinctBlocks(t) && BlocksOf(t) == First64(firsts)
    ensures BlocksOf(Reported(t, block)) == First64(if block in firsts then firsts else firsts + [block])
  {
    ReportEnters(t, block);
    HasIsListed(t, block);
    hide Reported, Has, DistinctBlocks;
    if |firsts| < 64 && block !in firsts {
      assert BlocksOf(Reported(t, block)) == BlocksOf(t) + [block];
    } else {
      assert BlocksOf(Reported(t, block)) == BlocksOf(t);
    }
  }

  /**
   In every run without migration from a core its table lists the first 64 of the blocks reported on
   it, in order of first report.
   */
  lemma {:induction false} ListsFirstReports(events: seq<Event>, core: nat)
    requires OnCores(events) && core < CORES && NoneTaken(events, core)
    ensures BlocksOf(Run(events)[core]) == First64(FirstReports(events, core))
  {
    if events != [] {
      var n := |events| - 1;
      var before, e := events[..n], events[n];
      assert NoneTaken(before, core) by {
        forall j | 0 <= j < n && before[j].Migrate?
          ensures Donor(Run(before[..j]), before[j].core, 0) != core
        {
          assert before[..j] == events[..j];
        }
      }
      ListsFirstReports(before, core);
      TablesBounded(before, core);
      if e.Report? && e.core == core {
        ReportLists(Run(before)[core], FirstReports(before, core), e.block);
      } else {
        OtherEvent(Run(before), e, core);
      }
    }
  }

  lemma OtherEvent(ts: Tables, e: Event, core: nat)
    requires e.core < CORES && core < CORES && !(e.Report? && e.core == core)
    requires e.Migrate? ==> Donor(ts, e.core, 0) != core
    ensures After(ts, e)[core] == ts[core]
  {}
}
