/** What the tables of any run say about the chain, row by row and column by column. */
module Readings {
  import opened Chain
  import opened Tables
  import opened Scan
  import opened Runs
  import opened Prefixes
  import opened Columns
  import opened Facts

  /** Every output and every covered transaction of the chain reads as it should, and there is nothing else. */
  ghost predicate TablesRead(cfg: ScanConfig, blocks: Blocks, db: Db) {
    && (forall n: nat, j: nat, o: nat :: IsTx(blocks, n, j) && o < |blocks[n].txs[j].outputs| ==>
          RowReads(cfg, blocks, db.cells, n, j, o))
    && (forall key :: key in db.cells ==> exists n: nat, j: nat, o: nat :: IsKeyOf(blocks, n, j, o, key))
    && (forall n: nat, j: nat :: IsTx(blocks, n, j) && InScope(cfg, n) ==> FactReads(cfg, blocks, db.transitions, n, j))
    && (forall x :: x in db.transitions ==>
          exists n: nat, j: nat :: IsTx(blocks, n, j) && InScope(cfg, n) && blocks[n].txs[j].hash == x)
  }

  lemma IndexReads(cfg: ScanConfig, blocks: Blocks, db: Db)
    requires WellFormed(History(blocks)) && IndexOf(cfg, blocks, db)
    ensures TablesRead(cfg, blocks, db)
  {
    hide WellFormed, History, IndexOf, RowReads, FactReads, InScope;
    forall n: nat, j: nat, o: nat | IsTx(blocks, n, j) && o < |blocks[n].txs[j].outputs|
      ensures RowReads(cfg, blocks, db.cells, n, j, o)
    {
      EveryRow(cfg, blocks, db, n, j, o);
    }
    forall key | key in db.cells
      ensures exists n: nat, j: nat, o: nat :: IsKeyOf(blocks, n, j, o, key)
    {
      var n, j, o := EveryKey(cfg, blocks, db, key);
    }
    forall n: nat, j: nat | IsTx(blocks, n, j) && InScope(cfg, n)
      ensures FactReads(cfg, blocks, db.transitions, n, j)
    {
      EveryTransition(cfg, blocks, db, n, j);
    }
    forall x | x in db.transitions
      ensures exists n: nat, j: nat :: IsTx(blocks, n, j) && InScope(cfg, n) && blocks[n].txs[j].hash == x
    {
      var n, j := EveryHash(cfg, blocks, db, x);
    }
  }

  lemma SeenIsWellFormed(cfg: ScanConfig, events: seq<Event>, i: nat, prefix: Blocks)
    requires ValidEvents(cfg, events) && i < |events| && SeenAt(events, i, prefix)
    ensures WellFormed(History(prefix))
  {
    hide WellFormed, History;
    assert Serves(events[i].view);
    PrefixWellFormed(events[i].view.blocks, prefix);
  }

  /**
   In every run, whatever the reorganisations, crashes and round boundaries: nothing is indexed yet, or the
   tables read, column by column, as one chain some scan saw up to the stored checkpoint.
   */
  lemma RunReads(cfg: ScanConfig, events: seq<Event>, n: nat) returns (prefix: Blocks)
    requires n <= |events| && OneBlockPerHash(events) && ValidEvents(cfg, events)
    ensures var db := After(cfg, events, n);
            NoFacts(db)
            || (Seen(events, n, prefix) && AtEnd(db, prefix) && TablesRead(cfg, prefix, db))
  {
    hide After, WellFormed, History, IndexOf, TablesRead, OneBlockPerHash, Serves, NoFacts;
    var db := After(cfg, events, n);
    AlwaysOneChain(cfg, events, n);
    prefix := [];
    if Untouched(cfg, db) {
      assert NoFacts(db);
    } else {
      prefix :| IndexOn(cfg, events, n, db, prefix);
      var i :| 0 <= i < n && i < |events| && SeenAt(events, i, prefix);
      SeenIsWellFormed(cfg, events, i, prefix);
      IndexReads(cfg, prefix, db);
    }
  }
}
