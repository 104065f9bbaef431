/**
 The CKB side of the store as an object whose tables the statements update in place
 (crates/store/src/cells.rs, transitions.rs, blocks.rs, state.rs). Each method is one statement, or
 one transaction of statements, proved against the functions of Tables and Scan.
 */
module Storage {
  import opened Wrappers
  import opened Ckb
  import opened Rows
  import opened Tables
  import opened Scan
  import opened Runs

  datatype ApplyStats = ApplyStats(blocks: nat, cells: nat, spends: nat, transitions: nat)

  class Store {
    var cells: CellTable
    var transitions: TransitionTable
    var blocks: BlockTable
    var state: Option<StreamState>

    ghost function Contents(): Db
      reads this
    {
      Db(cells, transitions, blocks, state)
    }

    constructor ()
      ensures Contents() == FRESH
    {
      cells, transitions, blocks, state := map[], map[], map[], None;
    }

    // ----- single statements

    method UpsertBlockIn(b: BlockRecord)
      modifies this`blocks
      ensures blocks == UpsertBlock(old(blocks), b)
      ensures blocks.Keys == old(blocks).Keys + {b.number}
      ensures blocks[b.number] == b.(active := b.active || (b.number in old(blocks) && old(blocks)[b.number].active))
      ensures forall n :: n in old(blocks) && n != b.number ==> blocks[n] == old(blocks)[n]
    {
      if b.number in blocks {
        blocks := blocks[b.number := BlockRecord(b.number, b.hash, b.parentHash, b.timestamp,
                                                 blocks[b.number].active || b.active)];
      } else {
        blocks := blocks[b.number := b];
      }
    }

    method InsertCellIn(c: NewCell)
      modifies this`cells
      ensures cells == InsertCell(old(cells), c)
      ensures cells.Keys == old(cells).Keys + {c.key}
      ensures c.key !in old(cells) ==> cells[c.key].cell == c && cells[c.key].consumed.None?
      ensures c.key in old(cells) ==>
                && cells[c.key].cell == old(cells)[c.key].cell.(created := c.created)
                && cells[c.key].consumed == old(cells)[c.key].consumed
      ensures forall key :: key in old(cells) && key != c.key ==> cells[key] == old(cells)[key]
    {
      if c.key in cells {
        var row := cells[c.key];
        cells := cells[c.key := row.(cell := row.cell.(created := c.created))];
      } else {
        cells := cells[c.key := CellRow(c, None)];
      }
    }

    method ApplySpendIn(s: CellSpend) returns (updated: nat)
      modifies this`cells
      ensures cells == ApplySpend(old(cells), s)
      ensures cells.Keys == old(cells).Keys
      ensures s.key in cells ==> cells[s.key].cell == old(cells)[s.key].cell && cells[s.key].consumed == Some(s.spentBy)
      ensures forall key :: key in cells && key != s.key ==> cells[key] == old(cells)[key]
      ensures updated == if s.key in old(cells) then 1 else 0
    {
      updated := 0;
      if s.key in cells {
        cells := cells[s.key := cells[s.key].(consumed := Some(s.spentBy))];
        updated := 1;
      }
    }

    method InsertTransitionIn(t: NewTransition)
      modifies this`transitions
      ensures transitions == InsertTransition(old(transitions), t)
      ensures transitions.Keys == old(transitions).Keys + {t.ckbTxHash}
      ensures transitions[t.ckbTxHash].fact == t
      ensures var row := transitions[t.ckbTxHash];
              if t.ckbTxHash in old(transitions)
              then row.observedCommitment == old(transitions)[t.ckbTxHash].observedCommitment
                   && row.commitmentStatus == old(transitions)[t.ckbTxHash].commitmentStatus
              else row.observedCommitment.None? && row.commitmentStatus == Unchecked
      ensures forall x :: x in old(transitions) && x != t.ckbTxHash ==> transitions[x] == old(transitions)[x]
    {
      if t.ckbTxHash in transitions {
        transitions := transitions[t.ckbTxHash := transitions[t.ckbTxHash].(fact := t)];
      } else {
        transitions := transitions[t.ckbTxHash := TransitionRow(t, None, Unchecked)];
      }
    }

    /** Headers, cells, spends, transitions, and the checkpoint last, as one transaction. */
    method ApplyBatch(batch: IndexBatch) returns (stats: ApplyStats)
      modifies this
      ensures Contents() == Applied(old(Contents()), batch)
      ensures stats == ApplyStats(|batch.blocks|, |batch.cells|,
                                  SpendHits(InsertCells(old(cells), batch.cells), batch.spends), |batch.transitions|)
    {
      hide InsertCell, ApplySpend, InsertTransition, UpsertBlock;
      var spends := 0;
      for i := 0 to |batch.blocks|
        invariant blocks == UpsertBlocks(old(blocks), batch.blocks[..i])
        invariant cells == old(cells) && transitions == old(transitions) && state == old(state)
      {
        assert batch.blocks[..i + 1][..i] == batch.blocks[..i];
        UpsertBlockIn(batch.blocks[i]);
      }
      assert batch.blocks[..|batch.blocks|] == batch.blocks;
      for i := 0 to |batch.cells|
        invariant cells == InsertCells(old(cells), batch.cells[..i])
        invariant blocks == UpsertBlocks(old(blocks), batch.blocks)
        invariant transitions == old(transitions) && state == old(state)
      {
        assert batch.cells[..i + 1][..i] == batch.cells[..i];
        InsertCellIn(batch.cells[i]);
      }
      assert batch.cells[..|batch.cells|] == batch.cells;
      ghost var inserted := cells;
      for i := 0 to |batch.spends|
        invariant cells == ApplySpends(inserted, batch.spends[..i])
        invariant spends == SpendHits(inserted, batch.spends[..i])
        invariant blocks == UpsertBlocks(old(blocks), batch.blocks)
        invariant transitions == old(transitions) && state == old(state)
      {
        assert batch.spends[..i + 1][..i] == batch.spends[..i];
        var updated := ApplySpendIn(batch.spends[i]);
        spends := spends + updated;
      }
      assert batch.spends[..|batch.spends|] == batch.spends;
      for i := 0 to |batch.transitions|
        invariant transitions == InsertTransitions(old(transitions), batch.transitions[..i])
        invariant cells == CellsAfter(old(cells), batch)
        invariant blocks == UpsertBlocks(old(blocks), batch.blocks) && state == old(state)
      {
        assert batch.transitions[..i + 1][..i] == batch.transitions[..i];
        InsertTransitionIn(batch.transitions[i]);
      }
      assert batch.transitions[..|batch.transitions|] == batch.transitions;
      if state.Some? {
        state := Some(StreamState(batch.checkpointNumber, batch.checkpointHash, Some(batch.target),
                                  Some(batch.chainTip), batch.reorgLag, false));
      }
      stats := ApplyStats(|batch.blocks|, |batch.cells|, spends, |batch.transitions|);
    }

    // ----- checkpoint row, headers, verdicts

    method InitStream(cfg: ScanConfig) returns (row: StreamState)
      modifies this`state
      ensures Contents() == Initialised(cfg, old(Contents())) && state == Some(row)
      ensures old(state).Some? ==> state == old(state)
      ensures old(state).None? ==>
                && (row.lastBlockNumber + 1 == cfg.startBlock || (row.lastBlockNumber == 0 && cfg.startBlock == 0))
                && row.lastBlockHash.None? && row.target.None? && row.chainTip.None? && !row.failed
    {
      if state.None? {
        var initial := if cfg.startBlock == 0 then 0 else cfg.startBlock - 1;
        state := Some(StreamState(initial, None, None, None, 0, false));
      }
      row := state.value;
    }

    method RecordChainProgress(tip: nat, target: nat, lag: nat)
      modifies this`state
      ensures old(state).None? ==> state.None?
      ensures old(state).Some? ==>
                state == Some(old(state).value.(chainTip := Some(tip), target := Some(target), reorgLag := lag))
    {
      if state.Some? {
        var s := state.value;
        state := Some(StreamState(s.lastBlockNumber, s.lastBlockHash, Some(target), Some(tip), lag, s.failed));
      }
    }

    method PruneBlocksBelow(keepFrom: nat) returns (pruned: nat)
      modifies this`blocks
      ensures blocks == Pruned(old(blocks), keepFrom)
      ensures forall n :: n in blocks <==> n in old(blocks) && n >= keepFrom
      ensures forall n :: n in blocks ==> blocks[n] == old(blocks)[n]
      ensures pruned == |old(blocks)| - |blocks|
    {
      var kept := map n | n in blocks && n >= keepFrom :: blocks[n];
      assert kept.Keys <= blocks.Keys;
      SubsetSize(kept.Keys, blocks.Keys);
      pruned := |blocks| - |kept|;
      blocks := kept;
    }

    method SetStreamError()
      modifies this`state
      ensures Contents() == SetFailed(old(Contents()))
      ensures old(state).None? ==> state.None?
      ensures old(state).Some? ==> state == Some(old(state).value.(failed := true))
    {
      if state.Some? {
        state := Some(state.value.(failed := true));
      }
    }

    method SetCommitmentResult(txHash: H256, observed: Option<H256>, status: CommitmentStatus)
      modifies this`transitions
      ensures transitions == SetVerdict(old(transitions), txHash, observed, status)
      ensures transitions.Keys == old(transitions).Keys
      ensures txHash in transitions ==> transitions[txHash] == TransitionRow(old(transitions)[txHash].fact, observed, status)
      ensures forall x :: x in transitions && x != txHash ==> transitions[x] == old(transitions)[x]
    {
      if txHash in transitions {
        transitions := transitions[txHash := TransitionRow(transitions[txHash].fact, observed, status)];
      }
    }
  }

  lemma SubsetSize(a: set<nat>, b: set<nat>)
    requires a <= b
    ensures |a| <= |b|
  {
    assert b == a + (b - a);
  }
}
