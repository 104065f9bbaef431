/** Referential integrity of every index: what the fact tables say about each other. */
module Integrity {
  import opened Wrappers
  import opened Ckb
  import opened Rows
  import opened Chain
  import opened Matching
  import opened Extract
  import opened Resolve
  import opened Tables
  import opened Index
  import opened Rounds
  import opened Scan

  /** The row at a key, traced back to the chain position that created the cell. */
  lemma RowOrigin(rules: Rules, h: Txs, lo: nat, cells: CellTable, key: CellKey) returns (i: nat, o: nat)
    requires WellFormed(h) && CellsExact(rules, h, lo, cells) && key in cells
    ensures i < |h| && o < |h[i].tx.outputs| && key == KeyOf(OpAt(h, i, o)) && Source(h, OpAt(h, i, o)) == Some(i)
    ensures ReadOutput(rules.protocol, h[i].tx, o).Some? && cells[key].cell.created == CreationAnchor(h, lo, i)
    ensures cells[key].consumed == ConsumptionAt(h, Consumer(h, lo, OpAt(h, i, o)))
  {
    hide ReadOutput, BuildNewCell, WellFormed, Source;
    i, o :| Names(h, key, i, o);
    assert RowExact(rules, h, lo, cells, i, o);
    SourceIn(h, i, o);
    BuiltKey(rules, h[i].tx.hash, ReadOutput(rules.protocol, h[i].tx, o).value, CreationAnchor(h, lo, i));
  }

  /** A consumption found in the history is one of the resolved inputs of the transaction there. */
  lemma ConsumptionIsInput(rules: Rules, h: Txs, p: nat, k: nat) returns (q: nat)
    requires WellFormed(h) && p < |h| && Readable(rules, h[..p], h[p]) && k < |h[p].tx.inputs|
    requires OutputAt(rules, h, h[p].tx.inputs[k]).Some?
    ensures q < |InputsOf(rules, h[..p], h[p])|
    ensures InputsOf(rules, h[..p], h[p])[q].outPoint == h[p].tx.inputs[k]
  {
    hide OutputAt, WellFormed, Readable, InputsOf;
    OutputBefore(rules, h, p, k);
    q := ConsumedCellIsInput(rules, h[..p], h[p], k);
  }

  lemma FactOf(rules: Rules, before: Txs, t: TxAt, ts: TransitionTable)
    requires Readable(rules, before, t) && TransitionExact(rules, before, t, ts)
    requires InputsOf(rules, before, t) != [] || ReadableOutputs(rules.protocol, t.tx, |t.tx.outputs|) != []
    ensures t.tx.hash in ts && ts[t.tx.hash].fact.block == AnchorOf(t)
    ensures ts[t.tx.hash].fact.inputCellCount == |InputsOf(rules, before, t)|
    ensures ts[t.tx.hash].fact.outputCellCount == |ReadableOutputs(rules.protocol, t.tx, |t.tx.outputs|)|
  {
    hide InputsOf, Readable, ReadableOutputs, ClassifyTransition, CommonTxid, ExpectedCommitment, NewCells, Spends;
  }

  /** Every consumed cell names a transaction whose transition is recorded, at the same block anchor. */
  lemma ConsumerHasTransition(rules: Rules, h: Txs, lo: nat, cells: CellTable, ts: TransitionTable, key: CellKey)
    requires WellFormed(h) && IsIndex(rules, h, lo, cells, ts) && key in cells && cells[key].consumed.Some?
    ensures var c := cells[key].consumed.value; c.txHash in ts && ts[c.txHash].fact.block == c.at
  {
    hide WellFormed, CellsExact, Readable, ReadOutput, InputsOf, TransitionExact, Source, ReadableOutputs;
    var i, o := RowOrigin(rules, h, lo, cells, key);
    var c := Consumer(h, lo, OpAt(h, i, o)).value;
    var q := ConsumptionIsInput(rules, h, c.pos, c.index);
    assert TransitionExact(rules, h[..c.pos], h[c.pos], ts);
    FactOf(rules, h[..c.pos], h[c.pos], ts);
  }

  /** A cell is created strictly before it is consumed, in (block, position) order; a backfilled cell's position is unknown. */
  lemma CreatedBeforeConsumed(cfg: ScanConfig, prefix: Blocks, db: Db, key: CellKey)
    requires WellFormed(History(prefix)) && IndexOf(cfg, prefix, db) && key in db.cells && db.cells[key].consumed.Some?
    ensures var c, d := db.cells[key].cell.created, db.cells[key].consumed.value.at;
            c.number < d.number || (c.number == d.number && c.txIndex < d.txIndex)
  {
    hide WellFormed, CellsExact, AllReadable, TransitionsExact, ReadOutput, Source, History;
    var h, lo := History(prefix), Before(prefix, cfg.FirstBlock());
    var i, o := RowOrigin(cfg.rules, h, lo, db.cells, key);
    var c := Consumer(h, lo, OpAt(h, i, o)).value;
    CreatorFirst(h, i, c.pos, c.index);
    PositionOrder(prefix, i, c.pos);
  }

  // ----- counting

  function KeysOf(inputs: seq<ResolvedInput>): seq<CellKey> {
    seq(|inputs|, q requires 0 <= q < |inputs| => KeyOf(inputs[q].outPoint))
  }

  lemma {:induction false} DistinctCount<T>(s: seq<T>)
    requires Distinct(s)
    ensures |set x | x in s| == |s|
  {
    if s != [] {
      var n := |s| - 1;
      DistinctCount(s[..n]);
      assert s == s[..n] + [s[n]];
      assert (set x | x in s) == (set x | x in s[..n]) + {s[n]};
    }
  }

  ghost function ConsumedBy(cells: CellTable, txHash: H256): set<CellKey> {
    set key | key in cells && cells[key].consumed.Some? && cells[key].consumed.value.txHash == txHash
  }

  ghost function CreatedBy(cells: CellTable, txHash: H256): set<CellKey> {
    set key | key in cells && key.txHash == txHash
  }

  lemma InputIsConsumed(rules: Rules, h: Txs, lo: nat, cells: CellTable, p: nat, q: nat)
    requires WellFormed(h) && CellsExact(rules, h, lo, cells) && lo <= p < |h| && Readable(rules, h[..p], h[p])
    requires q < |InputsOf(rules, h[..p], h[p])|
    ensures KeyOf(InputsOf(rules, h[..p], h[p])[q].outPoint) in ConsumedBy(cells, h[p].tx.hash)
  {
    hide WellFormed, Readable, InputsOf, ReadOutput, BuildNewCell;
    InputsNameConsumedCells(rules, h[..p], h[p], q);
    var k := InputsOf(rules, h[..p], h[p])[q].inputIndex;
    var op := h[p].tx.inputs[k];
    OutputBefore(rules, h, p, k);
    var i := Source(h, op).value;
    assert RowExact(rules, h, lo, cells, i, op.index);
    var c := Consumer(h, lo, op);
    assert op in h[p].tx.inputs;
    OneConsumer(h, i, c.value.pos, c.value.index, p, k);
    assert OpAt(h, i, op.index) == op;
  }

  lemma ConsumedIsInput(rules: Rules, h: Txs, lo: nat, cells: CellTable, p: nat, key: CellKey)
    requires WellFormed(h) && CellsExact(rules, h, lo, cells) && lo <= p < |h| && Readable(rules, h[..p], h[p])
    requires key in ConsumedBy(cells, h[p].tx.hash)
    ensures key in KeysOf(InputsOf(rules, h[..p], h[p]))
  {
    hide WellFormed, Readable, InputsOf, ReadOutput, CellsExact, Source;
    var i, o := RowOrigin(rules, h, lo, cells, key);
    var c := Consumer(h, lo, OpAt(h, i, o)).value;
    OneCreator(h, c.pos, p);
    var q := ConsumptionIsInput(rules, h, p, c.index);
    assert KeysOf(InputsOf(rules, h[..p], h[p]))[q] == key;
  }

  lemma InputKeysDistinct(rules: Rules, h: Txs, p: nat)
    requires WellFormed(h) && p < |h| && Readable(rules, h[..p], h[p])
    ensures Distinct(KeysOf(InputsOf(rules, h[..p], h[p])))
  {
    hide WellFormed, Readable, InputsOf;
    var keys := KeysOf(InputsOf(rules, h[..p], h[p]));
    assert h[..p] + [h[p]] == h[..p + 1];
    WellFormedPrefix(h, p + 1);
    SpendsDistinct(rules, h[..p], h[p]);
    forall a, b | 0 <= a < b < |keys|
      ensures keys[a] != keys[b]
    {
      assert SpendsOf(rules, h[..p], h[p])[a].key == keys[a] && SpendsOf(rules, h[..p], h[p])[b].key == keys[b];
    }
  }

  /** A transition's input count is the number of cells its transaction consumed. */
  lemma InputCountExact(rules: Rules, h: Txs, lo: nat, cells: CellTable, ts: TransitionTable, txHash: H256)
    requires WellFormed(h) && IsIndex(rules, h, lo, cells, ts) && txHash in ts
    ensures ts[txHash].fact.inputCellCount == |ConsumedBy(cells, txHash)|
  {
    hide WellFormed, Readable, InputsOf, CellsExact, ConsumedBy, TransitionExact, SpendsOf;
    var p :| lo <= p < |h| && h[p].tx.hash == txHash;
    assert TransitionExact(rules, h[..p], h[p], ts);
    RecordedHasFact(rules, h[..p], h[p], ts);
    var inputs := InputsOf(rules, h[..p], h[p]);
    var keys := KeysOf(inputs);
    InputKeysDistinct(rules, h, p);
    DistinctCount(keys);
    forall key
      ensures key in keys <==> key in ConsumedBy(cells, txHash)
    {
      if key in keys {
        var q :| 0 <= q < |keys| && keys[q] == key;
        InputIsConsumed(rules, h, lo, cells, p, q);
      }
      if key in ConsumedBy(cells, txHash) {
        ConsumedIsInput(rules, h, lo, cells, p, key);
      }
    }
    assert (set x | x in keys) == ConsumedBy(cells, txHash);
  }

  lemma RecordedHasFact(rules: Rules, before: Txs, t: TxAt, ts: TransitionTable)
    requires Readable(rules, before, t) && TransitionExact(rules, before, t, ts) && t.tx.hash in ts
    ensures ts[t.tx.hash].fact.inputCellCount == |InputsOf(rules, before, t)|
    ensures ts[t.tx.hash].fact.outputCellCount == |ReadableOutputs(rules.protocol, t.tx, |t.tx.outputs|)|
  {
    hide InputsOf, Readable, ReadableOutputs, ClassifyTransition, CommonTxid, ExpectedCommitment, NewCells, Spends;
  }

  function OutputKeys(txHash: H256, outputs: seq<RgbppOutput>): seq<CellKey> {
    seq(|outputs|, x requires 0 <= x < |outputs| => KeyOf(OutPoint(txHash, outputs[x].index)))
  }

  /** A transition's output count is the number of cells its transaction created. */
  lemma OutputCountExact(rules: Rules, h: Txs, lo: nat, cells: CellTable, ts: TransitionTable, txHash: H256)
    requires WellFormed(h) && IsIndex(rules, h, lo, cells, ts) && txHash in ts
    ensures ts[txHash].fact.outputCellCount == |CreatedBy(cells, txHash)|
  {
    hide WellFormed, Readable, CellsExact, TransitionExact, ReadableOutputs, ReadOutput;
    var p :| lo <= p < |h| && h[p].tx.hash == txHash;
    assert TransitionExact(rules, h[..p], h[p], ts);
    RecordedHasFact(rules, h[..p], h[p], ts);
    var tx := h[p].tx;
    var outputs := ReadableOutputs(rules.protocol, tx, |tx.outputs|);
    var keys := OutputKeys(txHash, outputs);
    ReadableOutputsExact(rules.protocol, tx, |tx.outputs|);
    forall a, b | 0 <= a < b < |keys|
      ensures keys[a] != keys[b]
    {
      KeyInjective(OutPoint(txHash, outputs[a].index), OutPoint(txHash, outputs[b].index));
    }
    DistinctCount(keys);
    forall key
      ensures key in keys <==> key in CreatedBy(cells, txHash)
    {
      if key in keys {
        var x :| 0 <= x < |keys| && keys[x] == key;
        OwnRowPresent(rules, h, lo, cells, p, outputs[x].index);
      }
      if key in CreatedBy(cells, txHash) {
        var i, o := RowOrigin(rules, h, lo, cells, key);
        OneCreator(h, i, p);
        var x :| 0 <= x < |outputs| && outputs[x] == ReadOutput(rules.protocol, tx, o).value;
        assert keys[x] == key;
      }
    }
    assert (set x | x in keys) == CreatedBy(cells, txHash);
  }

  lemma OwnRowPresent(rules: Rules, h: Txs, lo: nat, cells: CellTable, p: nat, o: nat)
    requires CellsExact(rules, h, lo, cells) && lo <= p < |h| && o < |h[p].tx.outputs|
    requires ReadOutput(rules.protocol, h[p].tx, o).Some?
    ensures KeyOf(OpAt(h, p, o)) in cells
  {
    hide ReadOutput, BuildNewCell;
    assert RowExact(rules, h, lo, cells, p, o);
  }

  /** A cell without an indexed creating transition was backfilled, and has been consumed. */
  lemma UnindexedCreationIsSpent(rules: Rules, h: Txs, lo: nat, cells: CellTable, ts: TransitionTable, key: CellKey)
    requires WellFormed(h) && IsIndex(rules, h, lo, cells, ts) && key in cells && key.txHash !in ts
    ensures cells[key].cell.created.txIndex == UNKNOWN_TX_INDEX && cells[key].consumed.Some?
  {
    hide WellFormed, Readable, InputsOf, TransitionExact, ReadableOutputs, ReadOutput, BuildNewCell, Source;
    var i: nat, o: nat :| Names(h, key, i, o);
    assert RowExact(rules, h, lo, cells, i, o);
    var output := ReadOutput(rules.protocol, h[i].tx, o).value;
    BuiltKey(rules, h[i].tx.hash, output, CreationAnchor(h, lo, i));
    if lo <= i {
      assert TransitionExact(rules, h[..i], h[i], ts);
      ReadableOutputsExact(rules.protocol, h[i].tx, |h[i].tx.outputs|);
      FactOf(rules, h[..i], h[i], ts);
    }
  }

  /** In a batch the scanner builds, every spend updates exactly one row. */
  lemma EverySpendUpdatesOneRow(cfg: ScanConfig, db: Db, view: View)
    requires cfg.Valid() && Serves(view) && OnChain(cfg, db, view.blocks) && Commits(cfg, db, view)
    ensures var batch := Round(cfg, db, view).outcome.batch;
            SpendHits(InsertCells(db.cells, batch.cells), batch.spends) == |batch.spends|
  {
    hide WellFormed, Round, BuildBatch, CellsAfter, InsertTransitions, IndexOf, InsertCells, SpendHits, OnChain;
    CommitRange(cfg, db, view);
    var o := Round(cfg, db, view).outcome;
    IndexAtCheckpoint(cfg, db, view.blocks);
    TargetIsHighest(cfg, view);
    assert InReach(cfg, view, o.to);
    BatchExtends(cfg, db, view, o.from, o.to, cfg.SafeTarget(view.SyncedTip()).value);
    EverySpendHits(InsertCells(db.cells, o.batch.cells), o.batch.spends);
  }
}
