/**
 What one round touches, in numbers (crates/indexer/src/scanner.rs `scan_once`): which blocks it covers,
 what it writes on the checkpoint row, and which headers it keeps.
 */
module Reach {
  import opened Wrappers
  import opened Ckb
  import opened Protocol
  import opened Rows
  import opened Chain
  import opened Matching
  import opened Extract
  import opened Tables
  import opened Index
  import opened Rounds
  import opened Scan
  import opened InputOrder
  import opened Columns
  import opened Facts

  // ----- which blocks

  /** The block the database has reached; just below the first one if it has no checkpoint row. */
  function Reached(cfg: ScanConfig, db: Db): nat {
    if db.state.Some? then db.state.value.lastBlockNumber else if cfg.startBlock == 0 then 0 else cfg.startBlock - 1
  }

  /** Block `n` lies above the checkpoint and not below the start block. */
  predicate Ahead(cfg: ScanConfig, db: Db, n: nat) {
    n > Reached(cfg, db) && n >= cfg.startBlock
  }

  /** There is a block to cover. */
  ghost predicate HasWork(cfg: ScanConfig, db: Db, view: View) {
    exists n: nat :: InReach(cfg, view, n) && Ahead(cfg, db, n)
  }

  /**
   A committed round covers an interval: from the first block above the checkpoint and not below the start
   block, up to the last that is in reach and fits the batch. An indexer populated up to what it reports has
   populated all of it.
   */
  lemma CommittedRange(cfg: ScanConfig, db: Db, view: View)
    requires cfg.Valid() && view.Valid() && Commits(cfg, db, view)
    ensures var o := Round(cfg, db, view).outcome;
            && (forall n: nat :: o.from <= n <==> Ahead(cfg, db, n))
            && (forall n: nat :: n <= o.to <==> InReach(cfg, view, n) && n < o.from + cfg.batchBlocks)
            && o.from <= o.to
            && (PopulatedTip(view) ==> o.to < view.populated)
  {
    hide Round, BuildBatch, CellsAfter, InsertTransitions, CheckCanonical;
    CommitRange(cfg, db, view);
    TargetIsHighest(cfg, view);
    CommitEnd(cfg, db, view);
    assert InReach(cfg, view, Round(cfg, db, view).outcome.to);
  }

  lemma CommitEnd(cfg: ScanConfig, db: Db, view: View)
    requires cfg.Valid() && view.Valid() && Commits(cfg, db, view)
    ensures var o := Round(cfg, db, view).outcome;
            cfg.SafeTarget(view.SyncedTip()).Some? && o.to == To(cfg, o.from, cfg.SafeTarget(view.SyncedTip()).value)
  {
    hide BuildBatch, Applied, Pruned, CheckCanonical;
  }

  /** A round is idle exactly when there is no block to cover. */
  lemma IdleExactly(cfg: ScanConfig, db: Db, view: View)
    requires cfg.Valid() && view.Valid()
    ensures Round(cfg, db, view).outcome.Idle? <==> !HasWork(cfg, db, view)
  {
    hide BuildBatch, Applied, Pruned, CheckCanonical, InReach;
    TargetIsHighest(cfg, view);
    var target := cfg.SafeTarget(view.SyncedTip());
    if target.Some? {
      assert Highest(cfg, view, target.value);
      assert InReach(cfg, view, target.value);
    }
  }

  /** Every transaction of the blocks in `[from, to]` takes only kept cells. */
  ghost predicate RangeTakesOnlyKept(protocol: ProtocolScripts, blocks: Blocks, from: nat, to: nat) {
    forall n: nat, j: nat :: from <= n <= to && IsTx(blocks, n, j) ==> TakesOnlyKept(protocol, blocks, blocks[n].txs[j])
  }

  lemma ReadableRangeIs(rules: Rules, blocks: Blocks, from: nat, to: nat)
    requires WellFormed(History(blocks)) && from <= to < |blocks|
    ensures Before(blocks, to + 1) <= |History(blocks)|
    ensures ReadableRange(rules, History(blocks), Before(blocks, from), Before(blocks, to + 1))
       <==> RangeTakesOnlyKept(rules.protocol, blocks, from, to)
  {
    hide WellFormed, History, Before, Readable, TakesOnlyKept;
    var h, a, b := History(blocks), Before(blocks, from), Before(blocks, to + 1);
    BeforeInPrefix(blocks, to + 1, from);
    forall p | 0 <= p < |h|
      ensures Readable(rules, h[..p], h[p]) <==> TakesOnlyKept(rules.protocol, blocks, h[p].tx)
      ensures a <= p < b <==> from <= h[p].number <= to
      ensures IsTx(blocks, h[p].number, h[p].txIndex) && blocks[h[p].number].txs[h[p].txIndex] == h[p].tx
    {
      ReadableIs(rules, blocks, p);
      BlockSide(blocks, p, from);
      BlockSide(blocks, p, to + 1);
      HistoryPosition(blocks, p);
    }
    if ReadableRange(rules, h, a, b) {
      forall n: nat, j: nat | from <= n <= to && IsTx(blocks, n, j)
        ensures TakesOnlyKept(rules.protocol, blocks, blocks[n].txs[j])
      {
        var p := PositionOf(blocks, n, j);
        assert Readable(rules, h[..p], h[p]);
      }
    }
  }

  /**
   If the checkpoint is still on the node's chain and there is a block to cover, the round commits exactly
   when every transaction up to its last block takes only cells whose args have their lock's shape.
   */
  lemma CommitsExactly(cfg: ScanConfig, db: Db, view: View, target: nat)
    requires cfg.Valid() && Serves(view) && OnChain(cfg, db, view.blocks)
    requires Highest(cfg, view, target) && Ahead(cfg, db, target)
    ensures var to := if target < Reached(cfg, db) + cfg.batchBlocks then target else Reached(cfg, db) + cfg.batchBlocks;
            && to < |view.blocks|
            && (Commits(cfg, db, view) <==> RangeTakesOnlyKept(cfg.rules.protocol, view.blocks, Reached(cfg, db) + 1, to))
            && (Commits(cfg, db, view) ==> Round(cfg, db, view).outcome.to == to)
  {
    hide WellFormed, History, Before, Readable, ReadableRange, RangeTakesOnlyKept, Round, OnChain;
    RoundSucceeds(cfg, db, view, target);
    var to := if target < Reached(cfg, db) + cfg.batchBlocks then target else Reached(cfg, db) + cfg.batchBlocks;
    ReadableRangeIs(cfg.rules, view.blocks, Reached(cfg, db) + 1, to);
  }

  // ----- the checkpoint row

  /** Both the node and, where it reports a tip, the indexer have block `n`. */
  predicate OnBoth(view: View, n: nat) {
    n < |view.blocks| && (view.indexerTip.Some? ==> n <= view.indexerTip.value)
  }

  /** `n` is the last such block. */
  ghost predicate IsTip(view: View, n: nat) {
    forall m: nat :: m <= n <==> OnBoth(view, m)
  }

  /** What progress writes: the tip, the highest block in reach or 0 if that lies below the start, and the lag. */
  ghost predicate Progress(cfg: ScanConfig, view: View, state: StreamState) {
    && state.chainTip.Some? && IsTip(view, state.chainTip.value)
    && state.target.Some? && state.reorgLag == cfg.reorgLag
    && (if exists n: nat :: InReach(cfg, view, n) && n >= cfg.startBlock then Highest(cfg, view, state.target.value)
        else state.target.value == 0)
  }

  lemma TipIs(view: View)
    requires view.Valid()
    ensures IsTip(view, view.SyncedTip())
  {
  }

  lemma ProgressIs(cfg: ScanConfig, view: View, state: StreamState)
    requires view.Valid() && state.chainTip == Some(view.SyncedTip()) && state.reorgLag == cfg.reorgLag
    requires var target := cfg.SafeTarget(view.SyncedTip());
             state.target == Some(if target.Some? then target.value else 0)
    ensures Progress(cfg, view, state)
  {
    hide InReach, View.SyncedTip, ScanConfig.SafeTarget;
    TipIs(view);
    TargetIsHighest(cfg, view);
    var target := cfg.SafeTarget(view.SyncedTip());
    if target.Some? {
      assert Highest(cfg, view, target.value);
      assert InReach(cfg, view, target.value);
    }
  }

  lemma RoundState(cfg: ScanConfig, db: Db, view: View)
    requires cfg.Valid() && view.Valid()
    ensures var r, target := Round(cfg, db, view), cfg.SafeTarget(view.SyncedTip());
            && r.committed.state.Some?
            && var s := r.committed.state.value;
            && s.chainTip == Some(view.SyncedTip()) && s.reorgLag == cfg.reorgLag
            && s.target == Some(if target.Some? then target.value else 0)
            && (r.outcome.Committed? ==>
                  r.outcome.to < |view.blocks| && s.lastBlockNumber == r.outcome.to
                  && s.lastBlockHash == Some(view.blocks[r.outcome.to].hash) && !s.failed)
            && (!r.outcome.Committed? ==>
                  && s.lastBlockNumber == Reached(cfg, db)
                  && s.lastBlockHash == (if db.state.Some? then db.state.value.lastBlockHash else None)
                  && s.failed == (db.state.Some? && db.state.value.failed))
  {
    hide ProcessAll, Reported, Headers, CellsAfter, InsertTransitions, UpsertBlocks, Pruned, CheckCanonical, View.SyncedTip;
    if Commits(cfg, db, view) {
      CommitRange(cfg, db, view);
    }
  }

  /** Every column of the checkpoint row after a round. */
  lemma CheckpointRow(cfg: ScanConfig, db: Db, view: View)
    requires cfg.Valid() && view.Valid()
    ensures var r := Round(cfg, db, view);
            && r.committed.state.Some? && Progress(cfg, view, r.committed.state.value)
            && var s := r.committed.state.value;
            && (r.outcome.Committed? ==>
                  r.outcome.to < |view.blocks| && s.lastBlockNumber == r.outcome.to
                  && s.lastBlockHash == Some(view.blocks[r.outcome.to].hash) && !s.failed)
            && (!r.outcome.Committed? ==>
                  && s.lastBlockNumber == Reached(cfg, db)
                  && s.lastBlockHash == (if db.state.Some? then db.state.value.lastBlockHash else None)
                  && s.failed == (db.state.Some? && db.state.value.failed))
  {
    hide Round, Progress, View.SyncedTip, ScanConfig.SafeTarget;
    RoundState(cfg, db, view);
    ProgressIs(cfg, view, Round(cfg, db, view).committed.state.value);
  }

  // ----- headers

  /** A transaction creates or consumes a cell under one of the two locks. */
  ghost predicate Touches(protocol: ProtocolScripts, blocks: Blocks, tx: Tx) {
    || (exists o :: 0 <= o < |tx.outputs| && (IsSealLock(protocol, tx.outputs[o].lock) || IsTimeLock(protocol, tx.outputs[o].lock)))
    || (exists k :: 0 <= k < |tx.inputs| && (TakesSeal(protocol, blocks, tx.inputs[k]) || TakesTime(protocol, blocks, tx.inputs[k])))
  }

  ghost predicate Active(protocol: ProtocolScripts, blocks: Blocks, n: nat)
    requires n < |blocks|
  {
    exists j :: 0 <= j < |blocks[n].txs| && Touches(protocol, blocks, blocks[n].txs[j])
  }

  lemma TouchesIs(protocol: ProtocolScripts, blocks: Blocks, p: nat)
    requires WellFormed(History(blocks)) && p < |History(blocks)|
    ensures RecordCells(protocol, History(blocks), History(blocks)[p].tx) != []
       <==> Touches(protocol, blocks, History(blocks)[p].tx)
  {
    hide WellFormed, History, Source, IsSealLock, IsTimeLock, TakesSeal, TakesTime, RecordCells, ProtocolScripts.Classify;
    var h, tx := History(blocks), History(blocks)[p].tx;
    if o :| 0 <= o < |tx.outputs| && (IsSealLock(protocol, tx.outputs[o].lock) || IsTimeLock(protocol, tx.outputs[o].lock)) {
      ClassifyIs(protocol, tx.outputs[o].lock);
      OutputsAreReported(protocol, h, tx, o);
    }
    if k :| 0 <= k < |tx.inputs| && (TakesSeal(protocol, blocks, tx.inputs[k]) || TakesTime(protocol, blocks, tx.inputs[k])) {
      KindIs(protocol, blocks, p, k);
      RecordCellsBefore(protocol, h, p);
      MatchedInputsExact(protocol, h[..p], tx);
      HasRecordCell(protocol, h[..p], tx, k);
    }
    if RecordCells(protocol, h, tx) != [] {
      var c := AnyRecordCell(protocol, h, tx);
      if c.io == Output {
        ClassifyIs(protocol, tx.outputs[c.index].lock);
        EitherKind(protocol.Classify(tx.outputs[c.index].lock));
      } else {
        KindIs(protocol, blocks, p, c.index);
        SourceBefore(h, p, c.index);
        SameOutput(h, p, tx.inputs[c.index]);
        assert InputKind(protocol, h[..p], tx.inputs[c.index]).Some?;
        EitherKind(InputKind(protocol, h[..p], tx.inputs[c.index]));
      }
    }
  }

  lemma SameOutput(h: Txs, p: nat, op: OutPoint)
    requires p <= |h| && Source(h[..p], op) == Source(h, op)
    ensures Source(h, op).Some? ==> OutputOf(h[..p], op) == OutputOf(h, op)
  {
  }

  lemma HasRecordCell(protocol: ProtocolScripts, h: Txs, tx: Tx, k: nat)
    requires k in MatchedInputs(protocol, h, tx)
    ensures RecordCells(protocol, h, tx) != []
  {
    hide RecordCells;
  }

  lemma AnyRecordCell(protocol: ProtocolScripts, h: Txs, tx: Tx) returns (c: MatchedCell)
    requires RecordCells(protocol, h, tx) != []
    ensures c.io == Output ==> c.index < |tx.outputs| && protocol.Classify(tx.outputs[c.index].lock).Some?
    ensures c.io == Input ==> c.index < |tx.inputs| && InputKind(protocol, h, tx.inputs[c.index]).Some?
  {
    hide KindCells, MergeCells, Source;
    var a, b := KindCells(protocol.rgbppLock, h, tx), KindCells(protocol.btcTimeLock, h, tx);
    KindCellsExact(protocol.rgbppLock, h, tx);
    KindCellsExact(protocol.btcTimeLock, h, tx);
    MergeCellsExact(a, b);
    c := MergeCells(a, b)[0];
    assert c in a || c in b;
  }

  lemma {:induction false} RecordedBlocks(protocol: ProtocolScripts, h: Txs, a: nat, b: nat, n: nat)
    requires a <= b <= |h|
    ensures HasRecord(RecordsIn(protocol, h, a, b), n)
       <==> exists p :: a <= p < b && h[p].number == n && RecordCells(protocol, h, h[p].tx) != []
    decreases b
  {
    hide RecordCells;
    if a < b {
      RecordedBlocks(protocol, h, a, b - 1, n);
      var front, records := RecordsIn(protocol, h, a, b - 1), RecordsIn(protocol, h, a, b);
      if HasRecord(front, n) {
        var i :| 0 <= i < |front| && front[i].blockNumber == n;
        assert records[i] == front[i];
      }
      if h[b - 1].number == n && RecordCells(protocol, h, h[b - 1].tx) != [] {
        assert records[|front|].blockNumber == n;
      }
      if HasRecord(records, n) {
        var i :| 0 <= i < |records| && records[i].blockNumber == n;
        assert i < |front| ==> front[i] == records[i];
      }
    }
  }

  /** A populated indexer reports something in a block exactly when the block is active. */
  lemma ReportedIsActive(protocol: ProtocolScripts, view: View, from: nat, to: nat, n: nat)
    requires WellFormed(History(view.blocks)) && from <= n <= to < |view.blocks| && to < view.populated
    ensures HasRecord(Reported(protocol, view, from, to), n) <==> Active(protocol, view.blocks, n)
  {
    hide WellFormed, History, Reported, RecordsIn, RecordCells, HasRecord, Before, Touches;
    var blocks, h := view.blocks, History(view.blocks);
    ReportedAll(protocol, view, from, to);
    var a, b := Before(blocks, from), Before(blocks, to + 1);
    RecordedBlocks(protocol, h, a, b, n);
    if HasRecord(Reported(protocol, view, from, to), n) {
      var p :| a <= p < b && h[p].number == n && RecordCells(protocol, h, h[p].tx) != [];
      TouchesIs(protocol, blocks, p);
      HistoryPosition(blocks, p);
    }
    if Active(protocol, blocks, n) {
      var j :| 0 <= j < |blocks[n].txs| && Touches(protocol, blocks, blocks[n].txs[j]);
      var p := PositionOf(blocks, n, j);
      TouchesIs(protocol, blocks, p);
      BlockSide(blocks, p, from);
      BlockSide(blocks, p, to + 1);
    }
  }

  predicate ActiveHeader(blocks: Blocks, records: seq<TxRecord>, from: nat, end: nat, header: BlockRecord)
    requires end <= |blocks|
  {
    && from <= header.number < end && HasRecord(records, header.number)
    && header == HeaderRow(blocks, header.number, true)
  }

  lemma {:induction false} HeadersAre(blocks: Blocks, records: seq<TxRecord>, from: nat, end: nat)
    requires from <= end <= |blocks|
    ensures forall h :: h in ActiveHeaders(blocks, records, from, end) ==> ActiveHeader(blocks, records, from, end, h)
    ensures forall n :: from <= n < end && HasRecord(records, n) ==>
              HeaderRow(blocks, n, true) in ActiveHeaders(blocks, records, from, end)
    decreases end
  {
    hide HasRecord;
    if from < end {
      HeadersAre(blocks, records, from, end - 1);
    }
  }

  /** The row of a block, straight from the chain. */
  function HeaderRow(blocks: Blocks, n: nat, active: bool): BlockRecord
    requires n < |blocks|
  {
    BlockRecord(n, blocks[n].hash, blocks[n].parentHash, blocks[n].timestamp, active)
  }

  lemma {:induction false} UpsertedHeaders(bs: BlockTable, hs: seq<BlockRecord>, blocks: Blocks, n: nat)
    requires forall i :: 0 <= i < |hs| ==> hs[i].number < |blocks| && hs[i] == HeaderRow(blocks, hs[i].number, hs[i].active)
    ensures n in UpsertBlocks(bs, hs) <==> n in bs || exists i :: 0 <= i < |hs| && hs[i].number == n
    ensures (exists i :: 0 <= i < |hs| && hs[i].number == n) ==>
              n < |blocks|
              && UpsertBlocks(bs, hs)[n]
                 == HeaderRow(blocks, n, (n in bs && bs[n].active) || exists i :: 0 <= i < |hs| && hs[i].number == n && hs[i].active)
    ensures n in bs && !(exists i :: 0 <= i < |hs| && hs[i].number == n) ==> UpsertBlocks(bs, hs)[n] == bs[n]
  {
    if hs != [] {
      var m := |hs| - 1;
      UpsertedHeaders(bs, hs[..m], blocks, n);
      assert hs == hs[..m] + [hs[m]];
    }
  }

  /** The headers of a batch: the active blocks of the range, and its last one. */
  lemma BatchHeaders(blocks: Blocks, records: seq<TxRecord>, from: nat, to: nat, n: nat)
    requires from <= to < |blocks|
    ensures var hs := Headers(blocks, records, from, to);
            && (forall i :: 0 <= i < |hs| ==> hs[i].number < |blocks| && hs[i] == HeaderRow(blocks, hs[i].number, hs[i].active))
            && ((exists i :: 0 <= i < |hs| && hs[i].number == n) <==> from <= n <= to && (HasRecord(records, n) || n == to))
            && ((exists i :: 0 <= i < |hs| && hs[i].number == n && hs[i].active) <==> from <= n <= to && HasRecord(records, n))
  {
    hide HasRecord, ActiveHeaders;
    HeadersAre(blocks, records, from, to + 1);
    var hs, front := Headers(blocks, records, from, to), ActiveHeaders(blocks, records, from, to + 1);
    assert forall i :: 0 <= i < |front| ==> front[i] in front && hs[i] == front[i];
    if from <= n <= to && HasRecord(records, n) {
      var i :| 0 <= i < |front| && front[i] == HeaderRow(blocks, n, true);
      assert hs[i].number == n && hs[i].active;
    } else if n == to {
      assert hs[|front|].number == n;
    }
  }

  /** A header is kept while it is at most `headerRetention` blocks below the checkpoint. */
  predicate Retained(cfg: ScanConfig, to: nat, n: nat) {
    n + cfg.headerRetention >= to
  }

  lemma RoundBlocks(cfg: ScanConfig, db: Db, view: View, n: nat)
    requires cfg.Valid() && view.Valid() && Commits(cfg, db, view)
    ensures var r := Round(cfg, db, view);
            var bs := UpsertBlocks(db.blocks, r.outcome.batch.blocks);
            && r.outcome.from <= r.outcome.to < |view.blocks|
            && r.outcome.batch.blocks == Headers(view.blocks, Reported(cfg.rules.protocol, view, r.outcome.from, r.outcome.to),
                                                 r.outcome.from, r.outcome.to)
            && (n in r.committed.blocks <==> n in bs && Retained(cfg, r.outcome.to, n))
            && (n in r.committed.blocks ==> r.committed.blocks[n] == bs[n])
  {
    hide ProcessAll, Reported, Headers, CellsAfter, InsertTransitions, UpsertBlocks, CheckCanonical, View.SyncedTip;
    CommitRange(cfg, db, view);
  }

  /**
   The header rows after a committed round. Those of its range are exactly the active blocks and the last one,
   with the node's hash, parent and timestamp; an activity flag is never lost; the others are as before. Of
   all of them, those within the retention stay.
   */
  lemma HeaderRows(cfg: ScanConfig, db: Db, view: View, n: nat)
    requires cfg.Valid() && Serves(view) && Commits(cfg, db, view)
    ensures var r, protocol := Round(cfg, db, view), cfg.rules.protocol;
            var written := r.outcome.from <= n <= r.outcome.to && n < |view.blocks|
                           && (Active(protocol, view.blocks, n) || n == r.outcome.to);
            && (n in r.committed.blocks <==> Retained(cfg, r.outcome.to, n) && (n in db.blocks || written))
            && (n in r.committed.blocks && !written ==> r.committed.blocks[n] == db.blocks[n])
            && (n in r.committed.blocks && written ==>
                  r.committed.blocks[n]
                  == HeaderRow(view.blocks, n, (n in db.blocks && db.blocks[n].active) || Active(protocol, view.blocks, n)))
  {
    hide WellFormed, History, Round, Reported, Headers, HasRecord, Active, UpsertBlocks, Retained;
    RoundBlocks(cfg, db, view, n);
    CommittedRange(cfg, db, view);
    var o := Round(cfg, db, view).outcome;
    var records := Reported(cfg.rules.protocol, view, o.from, o.to);
    BatchHeaders(view.blocks, records, o.from, o.to, n);
    UpsertedHeaders(db.blocks, o.batch.blocks, view.blocks, n);
    if o.from <= n <= o.to {
      ReportedIsActive(cfg.rules.protocol, view, o.from, o.to, n);
    }
  }
}
