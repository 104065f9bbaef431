/**
 What the rich indexer reports for a transaction: the inputs and outputs whose cells carry a
 protocol lock, per search, and how the scanner merges two searches into one record.
 Within one search inputs come before outputs, each in index order.
 */
module Matching {
  import opened Ckb
  import opened Protocol
  import opened Chain

  datatype IoType = Input | Output

  datatype MatchedCell = MatchedCell(io: IoType, index: nat)

  datatype TxRecord = TxRecord(txHash: H256, blockNumber: nat, txIndex: nat, cells: seq<MatchedCell>)

  /** The consumed cell exists on the chain and its lock has this code. */
  predicate InputMatches(id: ScriptId, h: Txs, op: OutPoint) {
    Source(h, op).Some? && id.Matches(OutputOf(h, op).lock)
  }

  function MatchedIns(id: ScriptId, h: Txs, tx: Tx, n: nat): seq<MatchedCell>
    requires n <= |tx.inputs|
  {
    if n == 0 then []
    else
      var found := MatchedIns(id, h, tx, n - 1);
      if InputMatches(id, h, tx.inputs[n - 1]) then found + [MatchedCell(Input, n - 1)] else found
  }

  function MatchedOuts(id: ScriptId, tx: Tx, n: nat): seq<MatchedCell>
    requires n <= |tx.outputs|
  {
    if n == 0 then []
    else
      var found := MatchedOuts(id, tx, n - 1);
      if id.Matches(tx.outputs[n - 1].lock) then found + [MatchedCell(Output, n - 1)] else found
  }

  function KindCells(id: ScriptId, h: Txs, tx: Tx): seq<MatchedCell> {
    MatchedIns(id, h, tx, |tx.inputs|) + MatchedOuts(id, tx, |tx.outputs|)
  }

  /** Push the cells the record does not hold yet. */
  function MergeCells(existing: seq<MatchedCell>, more: seq<MatchedCell>): seq<MatchedCell> {
    if more == [] then existing
    else
      var merged := MergeCells(existing, more[..|more| - 1]);
      if more[|more| - 1] in merged then merged else merged + [more[|more| - 1]]
  }

  function RecordCells(protocol: ProtocolScripts, h: Txs, tx: Tx): seq<MatchedCell> {
    MergeCells(KindCells(protocol.rgbppLock, h, tx), KindCells(protocol.btcTimeLock, h, tx))
  }

  /** The input positions of a record, in record order. */
  function InputIndexes(cells: seq<MatchedCell>): seq<nat> {
    if cells == [] then []
    else
      var n := |cells| - 1;
      var found := InputIndexes(cells[..n]);
      if cells[n].io == Input then found + [cells[n].index] else found
  }

  function MatchedInputs(protocol: ProtocolScripts, h: Txs, tx: Tx): seq<nat> {
    InputIndexes(RecordCells(protocol, h, tx))
  }

  predicate Distinct<T(==)>(s: seq<T>) {
    forall i, j :: 0 <= i < j < |s| ==> s[i] != s[j]
  }

  // ----- exactness

  predicate CellMatches(id: ScriptId, h: Txs, tx: Tx, c: MatchedCell) {
    match c.io
    case Input => c.index < |tx.inputs| && InputMatches(id, h, tx.inputs[c.index])
    case Output => c.index < |tx.outputs| && id.Matches(tx.outputs[c.index].lock)
  }

  lemma {:induction false} MatchedInsExact(id: ScriptId, h: Txs, tx: Tx, n: nat)
    requires n <= |tx.inputs|
    ensures Distinct(MatchedIns(id, h, tx, n))
    ensures forall c :: c in MatchedIns(id, h, tx, n) <==> c.io == Input && c.index < n && CellMatches(id, h, tx, c)
  {
    hide InputMatches;
    if n > 0 {
      MatchedInsExact(id, h, tx, n - 1);
    }
  }

  lemma {:induction false} MatchedOutsExact(id: ScriptId, h: Txs, tx: Tx, n: nat)
    requires n <= |tx.outputs|
    ensures Distinct(MatchedOuts(id, tx, n))
    ensures forall c :: c in MatchedOuts(id, tx, n) <==> c.io == Output && c.index < n && CellMatches(id, h, tx, c)
  {
    if n > 0 {
      MatchedOutsExact(id, h, tx, n - 1);
    }
  }

  lemma KindCellsExact(id: ScriptId, h: Txs, tx: Tx)
    ensures Distinct(KindCells(id, h, tx))
    ensures forall c :: c in KindCells(id, h, tx) <==> CellMatches(id, h, tx, c)
  {
    hide MatchedIns, MatchedOuts, InputMatches;
    MatchedInsExact(id, h, tx, |tx.inputs|);
    MatchedOutsExact(id, h, tx, |tx.outputs|);
    var ins, outs := MatchedIns(id, h, tx, |tx.inputs|), MatchedOuts(id, tx, |tx.outputs|);
    forall i, j | 0 <= i < j < |ins + outs|
      ensures (ins + outs)[i] != (ins + outs)[j]
    {
      if i < |ins| <= j {
        assert ins[i] in ins && outs[j - |ins|] in outs;
      }
    }
  }

  lemma {:induction false} MergeCellsExact(existing: seq<MatchedCell>, more: seq<MatchedCell>)
    requires Distinct(existing)
    ensures Distinct(MergeCells(existing, more))
    ensures existing <= MergeCells(existing, more)
    ensures forall c :: c in MergeCells(existing, more) <==> c in existing || c in more
  {
    if more != [] {
      var n := |more| - 1;
      MergeCellsExact(existing, more[..n]);
      assert more == more[..n] + [more[n]];
    }
  }

  lemma MergeNothing(a: seq<MatchedCell>)
    ensures MergeCells(a, []) == a
  {
  }

  lemma {:induction false} MergeIntoEmpty(more: seq<MatchedCell>)
    requires Distinct(more)
    ensures MergeCells([], more) == more
  {
    if more != [] {
      var n := |more| - 1;
      MergeIntoEmpty(more[..n]);
      assert more == more[..n] + [more[n]];
    }
  }

  lemma {:induction false} InputIndexesExact(cells: seq<MatchedCell>)
    requires Distinct(cells)
    ensures Distinct(InputIndexes(cells))
    ensures forall k: nat :: k in InputIndexes(cells) <==> MatchedCell(Input, k) in cells
  {
    if cells != [] {
      var n := |cells| - 1;
      InputIndexesExact(cells[..n]);
      assert cells == cells[..n] + [cells[n]];
      assert cells[n] !in cells[..n];
    }
  }

  /** The merged record names each consumed RGB++ cell of the transaction exactly once. */
  lemma MatchedInputsExact(protocol: ProtocolScripts, h: Txs, tx: Tx)
    ensures Distinct(MatchedInputs(protocol, h, tx))
    ensures forall k: nat :: k in MatchedInputs(protocol, h, tx) <==>
              k < |tx.inputs| && Source(h, tx.inputs[k]).Some?
              && protocol.Classify(OutputOf(h, tx.inputs[k]).lock).Some?
  {
    hide KindCells, MergeCells, InputIndexes, Source, Distinct;
    var a, b := KindCells(protocol.rgbppLock, h, tx), KindCells(protocol.btcTimeLock, h, tx);
    KindCellsExact(protocol.rgbppLock, h, tx);
    KindCellsExact(protocol.btcTimeLock, h, tx);
    MergeCellsExact(a, b);
    InputIndexesExact(MergeCells(a, b));
    forall k: nat
      ensures k in MatchedInputs(protocol, h, tx) <==>
                k < |tx.inputs| && Source(h, tx.inputs[k]).Some?
                && protocol.Classify(OutputOf(h, tx.inputs[k]).lock).Some?
    {
      var c := MatchedCell(Input, k);
      assert k in MatchedInputs(protocol, h, tx) <==> c in MergeCells(a, b);
      assert c in a <==> CellMatches(protocol.rgbppLock, h, tx, c);
      assert c in b <==> CellMatches(protocol.btcTimeLock, h, tx, c);
    }
  }

  /** A transaction with a classified output is always reported. */
  lemma OutputsAreReported(protocol: ProtocolScripts, h: Txs, tx: Tx, o: nat)
    requires o < |tx.outputs| && protocol.Classify(tx.outputs[o].lock).Some?
    ensures RecordCells(protocol, h, tx) != []
  {
    hide KindCells, MergeCells, Distinct;
    var a, b := KindCells(protocol.rgbppLock, h, tx), KindCells(protocol.btcTimeLock, h, tx);
    KindCellsExact(protocol.rgbppLock, h, tx);
    KindCellsExact(protocol.btcTimeLock, h, tx);
    MergeCellsExact(a, b);
    var c := MatchedCell(Output, o);
    assert CellMatches(protocol.rgbppLock, h, tx, c) || CellMatches(protocol.btcTimeLock, h, tx, c);
    assert c in MergeCells(a, b);
  }

  // ----- looking back is enough

  lemma {:induction false} MatchedInsBefore(id: ScriptId, h: Txs, p: nat, n: nat)
    requires WellFormed(h) && p < |h| && n <= |h[p].tx.inputs|
    ensures MatchedIns(id, h[..p], h[p].tx, n) == MatchedIns(id, h, h[p].tx, n)
  {
    hide Source, WellFormed;
    if n > 0 {
      MatchedInsBefore(id, h, p, n - 1);
      SourceBefore(h, p, n - 1);
    }
  }

  /** The record of a transaction is the same whether computed from the whole chain or from what precedes it. */
  lemma RecordCellsBefore(protocol: ProtocolScripts, h: Txs, p: nat)
    requires WellFormed(h) && p < |h|
    ensures RecordCells(protocol, h[..p], h[p].tx) == RecordCells(protocol, h, h[p].tx)
  {
    hide MatchedIns, MatchedOuts, MergeCells, WellFormed;
    MatchedInsBefore(protocol.rgbppLock, h, p, |h[p].tx.inputs|);
    MatchedInsBefore(protocol.btcTimeLock, h, p, |h[p].tx.inputs|);
  }
}
