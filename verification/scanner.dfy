/**
 The scanner as it runs: rounds that push into a batch in loops and commit it to the store
 (crates/indexer/src/scanner.rs). Every method is proved against its function in Rounds and Scan, so
 what Runs, Lag and Integrity prove holds of this code.
 */
module Scanning {
  import opened Wrappers
  import opened Ckb
  import opened Rows
  import opened Chain
  import opened Matching
  import opened Extract
  import opened Resolve
  import opened Tables
  import opened Rounds
  import opened Scan
  import opened Runs
  import opened Search
  import opened Storage

  /** Once resolving an input fails, the whole transaction fails with that error. */
  lemma {:induction false} FirstErrorWins(rules: Rules, table: CellTable, node: Txs, tx: Tx, indexes: seq<nat>,
                                          n: nat, cells: seq<NewCell>)
    requires n <= |indexes| && ResolveAll(rules, table, node, tx, indexes[..n], cells).Err?
    ensures ResolveAll(rules, table, node, tx, indexes, cells) == ResolveAll(rules, table, node, tx, indexes[..n], cells)
    decreases |indexes|
  {
    hide ResolveInput;
    if n == |indexes| {
      assert indexes[..n] == indexes;
    } else {
      var m := |indexes| - 1;
      assert indexes[..m][..n] == indexes[..n];
      FirstErrorWins(rules, table, node, tx, indexes[..m], n, cells);
    }
  }

  lemma {:induction false} FirstFailureWins(rules: Rules, table: CellTable, node: Txs, blocks: Blocks,
                                            records: seq<TxRecord>, n: nat)
    requires n <= |records| && ProcessAll(rules, table, node, blocks, records[..n]).Err?
    ensures ProcessAll(rules, table, node, blocks, records) == ProcessAll(rules, table, node, blocks, records[..n])
    decreases |records|
  {
    hide ProcessTransaction;
    if n == |records| {
      assert records[..n] == records;
    } else {
      var m := |records| - 1;
      assert records[..m][..n] == records[..n];
      FirstFailureWins(rules, table, node, blocks, records[..m], n);
    }
  }

  lemma {:induction false} IndexesPrefix(cells: seq<MatchedCell>, i: nat)
    requires i <= |cells|
    ensures InputIndexes(cells[..i]) <= InputIndexes(cells)
    decreases |cells|
  {
    if i < |cells| {
      var n := |cells| - 1;
      assert cells[..n][..i] == cells[..i];
      IndexesPrefix(cells[..n], i);
    } else {
      assert cells[..i] == cells;
    }
  }

  class CkbScanner {
    const cfg: ScanConfig
    const store: Store
    const pageLimit: nat

    constructor (cfg: ScanConfig, store: Store, pageLimit: nat)
      ensures this.cfg == cfg && this.store == store
      ensures this.pageLimit == if pageLimit == 0 then 1 else pageLimit
    {
      this.cfg, this.store := cfg, store;
      this.pageLimit := if pageLimit == 0 then 1 else pageLimit;
    }

    /** The pending batch first, then the store, then the node. */
    method ResolveOneInput(node: Txs, op: OutPoint, inputIndex: nat,
                           pending: seq<NewCell>) returns (r: Result<Resolution>)
      ensures r == ResolveInput(cfg.rules, store.cells, node, op, inputIndex, pending)
    {
      hide ResolvedFromNewCell, ResolvedFromRow, FromNode;
      var key := KeyOf(op);
      for i := 0 to |pending|
        invariant FindCell(pending, key) == FindCell(pending[i..], key)
      {
        if pending[i].key == key {
          var input := ResolvedFromNewCell(cfg.rules, pending[i], op, inputIndex);
          if input.Err? {
            return Err(input.error);
          }
          return Ok(Resolution(Some(input.value), pending));
        }
        assert pending[i..][1..] == pending[i + 1..];
      }
      assert FindCell(pending, key) == None;
      if key in store.cells {
        var input := ResolvedFromRow(cfg.rules, store.cells[key], op, inputIndex);
        if input.Err? {
          return Err(input.error);
        }
        return Ok(Resolution(Some(input.value), pending));
      }
      var fetched := FromNode(cfg.rules, node, op, inputIndex);
      if fetched.Err? {
        return Err(fetched.error);
      }
      if fetched.value.None? {
        return Ok(Resolution(None, pending));
      }
      return Ok(Resolution(Some(fetched.value.value.input), pending + [fetched.value.value.cell]));
    }

    method ResolveInputs(node: Txs, tx: Tx, cells: seq<MatchedCell>,
                         pending: seq<NewCell>) returns (r: Result<Resolutions>)
      ensures r == ResolveAll(cfg.rules, store.cells, node, tx, InputIndexes(cells), pending)
    {
      hide ResolveInput;
      var inputs: seq<ResolvedInput> := [];
      var grown := pending;
      for i := 0 to |cells|
        invariant ResolveAll(cfg.rules, store.cells, node, tx, InputIndexes(cells[..i]), pending) == Ok(Resolutions(inputs, grown))
      {
        assert cells[..i + 1][..i] == cells[..i];
        IndexesPrefix(cells, i + 1);
        if cells[i].io != Input {
          continue;
        }
        var k := cells[i].index;
        ghost var upTo := InputIndexes(cells[..i + 1]);
        assert upTo[..|upTo| - 1] == InputIndexes(cells[..i]);
        assert upTo == InputIndexes(cells)[..|upTo|];
        if k >= |tx.inputs| {
          FirstErrorWins(cfg.rules, store.cells, node, tx, InputIndexes(cells), |upTo|, pending);
          return Err(Inconsistent("no input at index"));
        }
        var one := ResolveOneInput(node, tx.inputs[k], k, grown);
        if one.Err? {
          FirstErrorWins(cfg.rules, store.cells, node, tx, InputIndexes(cells), |upTo|, pending);
          return Err(one.error);
        }
        grown := one.value.cells;
        if one.value.input.Some? {
          inputs := inputs + [one.value.input.value];
        }
      }
      assert cells[..|cells|] == cells;
      return Ok(Resolutions(inputs, grown));
    }

    method ProcessOne(node: Txs, blocks: Blocks, record: TxRecord, pending: Pending) returns (r: Result<Pending>)
      ensures r == ProcessTransaction(cfg.rules, store.cells, node, blocks, record, pending)
    {
      hide ResolveAll, Extraction, InputIndexes;
      var found := FindTx(node, record.txHash);
      if found.None? {
        return Err(Inconsistent("reported transaction the node cannot return"));
      }
      if record.blockNumber >= |blocks| {
        return Err(Inconsistent("no header fetched for block"));
      }
      var header := blocks[record.blockNumber];
      var t := TxAt(node[found.value].tx, record.blockNumber, header.hash, header.timestamp, record.txIndex);
      var resolved := ResolveInputs(node, t.tx, record.cells, pending.cells);
      if resolved.Err? {
        return Err(resolved.error);
      }
      var extracted := ExtractTx(cfg.rules, t, resolved.value.inputs);
      if extracted.Err? {
        return Ok(Pending(resolved.value.cells, pending.spends, pending.transitions));
      }
      return Ok(Pending(resolved.value.cells + extracted.value.cells,
                        pending.spends + extracted.value.spends,
                        pending.transitions + [extracted.value.transition]));
    }

    method FetchHeaders(blocks: Blocks, records: seq<TxRecord>, from: nat, to: nat) returns (headers: seq<BlockRecord>)
      requires from <= to < |blocks|
      ensures headers == Headers(blocks, records, from, to)
    {
      headers := [];
      for n := from to to + 1
        invariant headers == ActiveHeaders(blocks, records, from, n)
      {
        if HasRecord(records, n) {
          headers := headers + [HeaderOf(blocks, n, true)];
        }
      }
      if !HasRecord(records, to) {
        headers := headers + [HeaderOf(blocks, to, false)];
      }
    }

    method BuildRound(view: View, server: Server, from: nat, to: nat, target: nat) returns (r: Result<IndexBatch>)
      requires view.Valid() && from <= to < |view.blocks|
      requires Answers(cfg.rules.protocol, view, server) && pageLimit > 0
      ensures r == BuildBatch(cfg, store.cells, view, from, to, target)
    {
      hide ProcessTransaction, Headers, Reported, History, Answers;
      var records := CollectRange(cfg.rules.protocol, view, server, pageLimit, from, to);
      var headers := FetchHeaders(view.blocks, records, from, to);
      var node := History(view.blocks);
      var pending := EMPTY;
      for i := 0 to |records|
        invariant ProcessAll(cfg.rules, store.cells, node, view.blocks, records[..i]) == Ok(pending)
      {
        assert records[..i + 1][..i] == records[..i];
        var next := ProcessOne(node, view.blocks, records[i], pending);
        if next.Err? {
          FirstFailureWins(cfg.rules, store.cells, node, view.blocks, records, i + 1);
          return Err(next.error);
        }
        pending := next.value;
      }
      assert records[..|records|] == records;
      return Ok(IndexBatch(headers, pending.cells, pending.spends, pending.transitions,
                           to, Some(view.blocks[to].hash), target, view.SyncedTip(), cfg.reorgLag));
    }

    /** One round: bounded, and committed in one step. */
    method ScanOnce(view: View, server: Server) returns (outcome: Outcome)
      requires cfg.Valid() && view.Valid() && Answers(cfg.rules.protocol, view, server) && pageLimit > 0
      modifies store
      ensures store.Contents() == Round(cfg, old(store.Contents()), view).committed
      ensures outcome == Round(cfg, old(store.Contents()), view).outcome
    {
      hide BuildBatch, Applied, Pruned, Answers, CheckCanonical;
      var state := store.InitStream(cfg);
      var checkpoint := state.lastBlockNumber;
      var tip := view.SyncedTip();
      var safe := cfg.SafeTarget(tip);
      if safe.None? {
        store.RecordChainProgress(tip, 0, cfg.reorgLag);
        return Idle;
      }
      var target := safe.value;
      store.RecordChainProgress(tip, target, cfg.reorgLag);
      if target <= checkpoint {
        return Idle;
      }
      var canonical := CheckCanonical(state, view.blocks);
      if canonical.Err? {
        return Failed(canonical.error);
      }
      var from := if checkpoint + 1 < cfg.startBlock then cfg.startBlock else checkpoint + 1;
      var to := if target < from + cfg.batchBlocks - 1 then target else from + cfg.batchBlocks - 1;
      var batch := BuildRound(view, server, from, to, target);
      if batch.Err? {
        return Failed(batch.error);
      }
      var stats := store.ApplyBatch(batch.value);
      var keepFrom := if to < cfg.headerRetention then 0 else to - cfg.headerRetention;
      if keepFrom > 0 {
        var pruned := store.PruneBlocksBelow(keepFrom);
      }
      return Committed(from, to, batch.value);
    }

    /** One turn of the run loop: a failed round only leaves a mark on the checkpoint row. */
    method RunOnce(view: View, server: Server)
      requires cfg.Valid() && view.Valid() && Answers(cfg.rules.protocol, view, server) && pageLimit > 0
      modifies store
      ensures store.Contents() == Step(cfg, old(store.Contents()), Scanned(view, Never))
    {
      hide Round, Answers;
      var outcome := ScanOnce(view, server);
      if outcome.Failed? {
        store.SetStreamError();
      }
    }
  }
}
