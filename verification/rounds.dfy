/**
 A scan round as a function of the database and of one snapshot of the node
 (crates/indexer/src/scanner.rs: `scan_once`, `process_transaction`, `resolve_input`), and the proof
 that a round extends the index of a chain prefix to the index of a longer one.
 */
module Rounds {
  import opened Wrappers
  import opened Ckb
  import opened Protocol
  import opened Rows
  import opened Chain
  import opened Matching
  import opened Extract
  import opened Resolve
  import opened Tables
  import opened Index

  // ----- the batch under construction

  datatype Pending = Pending(cells: seq<NewCell>, spends: seq<CellSpend>, transitions: seq<NewTransition>)

  const EMPTY: Pending := Pending([], [], [])

  function FindCell(cells: seq<NewCell>, key: CellKey): (r: Option<NewCell>)
    ensures r.Some? ==> r.value in cells && r.value.key == key
    ensures r.None? ==> !AnyCell(cells, key)
  {
    if cells == [] then None
    else if cells[0].key == key then Some(cells[0])
    else
      assert forall i :: 1 <= i < |cells| ==> cells[1..][i - 1] == cells[i];
      FindCell(cells[1..], key)
  }

  datatype Resolution = Resolution(input: Option<ResolvedInput>, cells: seq<NewCell>)

  /** From this batch, from the database, or from the node, in that order. */
  function ResolveInput(rules: Rules, table: CellTable, node: Txs, op: OutPoint, inputIndex: nat, cells: seq<NewCell>):
    Result<Resolution>
  {
    match FindCell(cells, KeyOf(op))
    case Some(cell) =>
      var input :- ResolvedFromNewCell(rules, cell, op, inputIndex);
      Ok(Resolution(Some(input), cells))
    case None =>
      if KeyOf(op) in table then
        var input :- ResolvedFromRow(rules, table[KeyOf(op)], op, inputIndex);
        Ok(Resolution(Some(input), cells))
      else
        var fetched :- FromNode(rules, node, op, inputIndex);
        match fetched
        case None => Ok(Resolution(None, cells))
        case Some(b) => Ok(Resolution(Some(b.input), cells + [b.cell]))
  }

  datatype Resolutions = Resolutions(inputs: seq<ResolvedInput>, cells: seq<NewCell>)

  function ResolveAll(rules: Rules, table: CellTable, node: Txs, tx: Tx, indexes: seq<nat>, cells: seq<NewCell>):
    Result<Resolutions>
  {
    if indexes == [] then Ok(Resolutions([], cells))
    else
      var n := |indexes| - 1;
      var front :- ResolveAll(rules, table, node, tx, indexes[..n], cells);
      if indexes[n] >= |tx.inputs| then Err(Inconsistent("no input at index"))
      else
        var r :- ResolveInput(rules, table, node, tx.inputs[indexes[n]], indexes[n], front.cells);
        Ok(Resolutions(if r.input.Some? then front.inputs + [r.input.value] else front.inputs, r.cells))
  }

  function ProcessTransaction(rules: Rules, table: CellTable, node: Txs, blocks: Blocks, record: TxRecord,
                              pending: Pending):
    Result<Pending>
  {
    match FindTx(node, record.txHash)
    case None => Err(Inconsistent("reported transaction the node cannot return"))
    case Some(i) =>
      if record.blockNumber >= |blocks| then Err(Inconsistent("no header fetched for block"))
      else
        var header := blocks[record.blockNumber];
        var t := TxAt(node[i].tx, record.blockNumber, header.hash, header.timestamp, record.txIndex);
        var resolved :- ResolveAll(rules, table, node, t.tx, InputIndexes(record.cells), pending.cells);
        match Extraction(rules, t, resolved.inputs)
        case Err(_) => Ok(pending.(cells := resolved.cells))
        case Ok(e) => Ok(Pending(resolved.cells + e.cells, pending.spends + e.spends, pending.transitions + [e.transition]))
  }

  function ProcessAll(rules: Rules, table: CellTable, node: Txs, blocks: Blocks,
                      records: seq<TxRecord>): Result<Pending> {
    if records == [] then Ok(EMPTY)
    else
      var n := |records| - 1;
      var pending :- ProcessAll(rules, table, node, blocks, records[..n]);
      ProcessTransaction(rules, table, node, blocks, records[n], pending)
  }

  function RecordOf(protocol: ProtocolScripts, h: Txs, p: nat): TxRecord
    requires p < |h|
  {
    TxRecord(h[p].tx.hash, h[p].number, h[p].txIndex, RecordCells(protocol, h, h[p].tx))
  }

  /** The merged search result: one record per reported transaction at a position in `[a, b)`, in chain order. */
  function RecordsIn(protocol: ProtocolScripts, h: Txs, a: nat, b: nat): seq<TxRecord>
    requires a <= b <= |h|
  {
    if a == b then []
    else
      var records := RecordsIn(protocol, h, a, b - 1);
      var record := RecordOf(protocol, h, b - 1);
      if record.cells != [] then records + [record] else records
  }

  // ----- resolving is faithful to the chain

  ghost predicate FaithfulCell(rules: Rules, h: Txs, cell: NewCell) {
    exists op :: cell.key == KeyOf(op) && Faithful(rules, h, op, cell)
  }

  ghost predicate FaithfulTable(rules: Rules, h: Txs, table: CellTable) {
    forall key :: key in table ==> table[key].cell.key == key && FaithfulCell(rules, h, table[key].cell)
  }

  ghost predicate FaithfulCells(rules: Rules, h: Txs, cells: seq<NewCell>) {
    forall c :: c in cells ==> FaithfulCell(rules, h, c)
  }

  predicate Known(table: CellTable, cells: seq<NewCell>, op: OutPoint) {
    KeyOf(op) in table || AnyCell(cells, KeyOf(op))
  }

  lemma FaithfulAt(rules: Rules, h: Txs, cell: NewCell, op: OutPoint)
    requires FaithfulCell(rules, h, cell) && cell.key == KeyOf(op)
    ensures Faithful(rules, h, op, cell)
  {
    hide Faithful;
    var op' :| cell.key == KeyOf(op') && Faithful(rules, h, op', cell);
    KeyInjective(op, op');
  }

  lemma BackfillIsFaithful(rules: Rules, h: Txs, op: OutPoint)
    requires OutputAt(rules, h, op).Some?
    ensures FaithfulCell(rules, h, BackfillCell(rules, h, op)) && BackfillCell(rules, h, op).key == KeyOf(op)
  {
    hide ReadOutput, BuildNewCell;
    BackfillKey(rules, h, op);
    var i := Source(h, op).value;
    BuiltKey(rules, op.txHash, OutputAt(rules, h, op).value, Anchor(h[i].number, h[i].blockHash, UNKNOWN_TX_INDEX));
    assert Faithful(rules, h, op, BackfillCell(rules, h, op));
  }

  /** What the node hands over for a backfill is the row that the index expects. */
  lemma NodeBackfill(rules: Rules, node: Txs, op: OutPoint, inputIndex: nat)
    requires Source(node, op).Some? && rules.protocol.Classify(OutputOf(node, op).lock).Some?
    ensures OutputAt(rules, node, op).Some? ==>
              FromNode(rules, node, op, inputIndex)
                == Ok(Some(Backfill(InputFor(OutputAt(rules, node, op).value, op, inputIndex), BackfillCell(rules, node, op))))
    ensures OutputAt(rules, node, op).None? ==> FromNode(rules, node, op, inputIndex).Err?
  {
    hide ParseBinding, BuildNewCell;
  }

  /** Resolving a consumed RGB++ cell gives what the chain says, and backfills it iff it is unknown. */
  lemma ResolveOne(rules: Rules, table: CellTable, node: Txs, op: OutPoint, inputIndex: nat, cells: seq<NewCell>)
    requires FaithfulTable(rules, node, table) && FaithfulCells(rules, node, cells)
    requires Source(node, op).Some? && rules.protocol.Classify(OutputOf(node, op).lock).Some?
    ensures OutputAt(rules, node, op).Some? ==>
              ResolveInput(rules, table, node, op, inputIndex, cells)
                == Ok(Resolution(Some(InputFor(OutputAt(rules, node, op).value, op, inputIndex)),
                                 if Known(table, cells, op) then cells else cells + [BackfillCell(rules, node, op)]))
    ensures OutputAt(rules, node, op).None? ==>
              ResolveInput(rules, table, node, op, inputIndex, cells).Err? && !Known(table, cells, op)
  {
    hide ResolvedFromNewCell, ResolvedFromRow, FromNode, BackfillCell, OutputAt, Faithful, FaithfulCell;
    match FindCell(cells, KeyOf(op)) {
      case Some(cell) =>
        FaithfulAt(rules, node, cell, op);
        FaithfulMeans(rules, node, op, cell);
        ThreeWaysAgree(rules, node, op, cell, inputIndex);
        assert Known(table, cells, op) by {
          InIsAny(cells, cell);
        }
      case None =>
        if KeyOf(op) in table {
          FaithfulAt(rules, node, table[KeyOf(op)].cell, op);
          FaithfulMeans(rules, node, op, table[KeyOf(op)].cell);
          ThreeWaysAgree(rules, node, op, table[KeyOf(op)].cell, inputIndex);
          assert table[KeyOf(op)] == CellRow(table[KeyOf(op)].cell, table[KeyOf(op)].consumed);
        } else {
          NodeBackfill(rules, node, op, inputIndex);
        }
    }
  }

  lemma FaithfulMeans(rules: Rules, h: Txs, op: OutPoint, cell: NewCell)
    requires Faithful(rules, h, op, cell)
    ensures OutputAt(rules, h, op).Some?
  {
  }

  lemma InIsAny(cells: seq<NewCell>, c: NewCell)
    requires c in cells
    ensures AnyCell(cells, c.key)
  {
  }

  ghost function OpsOf(tx: Tx, indexes: seq<nat>): (r: seq<OutPoint>)
    requires forall k :: k in indexes ==> k < |tx.inputs|
    ensures |r| == |indexes|
  {
    seq(|indexes|, i requires 0 <= i < |indexes| => assert indexes[i] in indexes; tx.inputs[indexes[i]])
  }

  /** The backfills that resolving these out points in order adds. */
  ghost function BacksFor(rules: Rules, node: Txs, table: CellTable, cells: seq<NewCell>,
                          ops: seq<OutPoint>): seq<NewCell> {
    if ops == [] then []
    else
      var n := |ops| - 1;
      var front := BacksFor(rules, node, table, cells, ops[..n]);
      if Known(table, cells + front, ops[n]) || OutputAt(rules, node, ops[n]).None? then front
      else front + [BackfillCell(rules, node, ops[n])]
  }

  lemma {:induction false} BacksAreFaithful(rules: Rules, node: Txs, table: CellTable, cells: seq<NewCell>,
                                            ops: seq<OutPoint>)
    ensures FaithfulCells(rules, node, BacksFor(rules, node, table, cells, ops))
  {
    hide OutputAt, FaithfulCell, BackfillCell, Known;
    if ops != [] {
      var n := |ops| - 1;
      BacksAreFaithful(rules, node, table, cells, ops[..n]);
      if OutputAt(rules, node, ops[n]).Some? {
        BackfillIsFaithful(rules, node, ops[n]);
      }
    }
  }

  /** Every matched input names an RGB++ cell on the chain. */
  ghost predicate Matches(rules: Rules, node: Txs, tx: Tx, indexes: seq<nat>) {
    forall k :: k in indexes ==>
      k < |tx.inputs| && Source(node, tx.inputs[k]).Some?
      && rules.protocol.Classify(OutputOf(node, tx.inputs[k]).lock).Some?
  }

  ghost predicate AllOutputs(rules: Rules, node: Txs, tx: Tx, indexes: seq<nat>) {
    forall k :: k in indexes ==> k < |tx.inputs| && OutputAt(rules, node, tx.inputs[k]).Some?
  }

  /** The inputs the chain says these positions resolve to. */
  ghost function TrueInputs(rules: Rules, node: Txs, tx: Tx, indexes: seq<nat>): (r: seq<ResolvedInput>)
    requires AllOutputs(rules, node, tx, indexes)
    ensures |r| == |indexes|
  {
    seq(|indexes|, i requires 0 <= i < |indexes| =>
        assert indexes[i] in indexes;
        InputFor(OutputAt(rules, node, tx.inputs[indexes[i]]).value, tx.inputs[indexes[i]], indexes[i]))
  }

  lemma AllButLast(rules: Rules, node: Txs, tx: Tx, indexes: seq<nat>)
    requires indexes != [] && Matches(rules, node, tx, indexes)
    ensures var n := |indexes| - 1;
            && Matches(rules, node, tx, indexes[..n])
            && (forall k :: k in indexes[..n] ==> k < |tx.inputs|)
            && indexes[n] < |tx.inputs| && Source(node, tx.inputs[indexes[n]]).Some?
            && rules.protocol.Classify(OutputOf(node, tx.inputs[indexes[n]]).lock).Some?
            && (AllOutputs(rules, node, tx, indexes) <==>
                  AllOutputs(rules, node, tx, indexes[..n]) && OutputAt(rules, node, tx.inputs[indexes[n]]).Some?)
            && OpsOf(tx, indexes)[..n] == OpsOf(tx, indexes[..n]) && OpsOf(tx, indexes)[n] == tx.inputs[indexes[n]]
  {
    hide OutputAt, Source;
    var n := |indexes| - 1;
    assert indexes == indexes[..n] + [indexes[n]];
    assert indexes[n] in indexes;
  }

  lemma TrueInputsLast(rules: Rules, node: Txs, tx: Tx, indexes: seq<nat>)
    requires indexes != [] && AllOutputs(rules, node, tx, indexes)
    ensures var n := |indexes| - 1;
            && AllOutputs(rules, node, tx, indexes[..n])
            && indexes[n] < |tx.inputs| && OutputAt(rules, node, tx.inputs[indexes[n]]).Some?
            && TrueInputs(rules, node, tx, indexes)
                 == TrueInputs(rules, node, tx, indexes[..n])
                    + [InputFor(OutputAt(rules, node, tx.inputs[indexes[n]]).value, tx.inputs[indexes[n]], indexes[n])]
  {
    hide OutputAt, InputFor;
    var n := |indexes| - 1;
    assert indexes == indexes[..n] + [indexes[n]];
    assert indexes[n] in indexes;
    forall k | k in indexes[..n]
      ensures k < |tx.inputs| && OutputAt(rules, node, tx.inputs[k]).Some?
    {
      assert k in indexes;
    }
  }

  lemma {:induction false} ResolveMany(rules: Rules, table: CellTable, node: Txs, tx: Tx, indexes: seq<nat>,
                                       cells: seq<NewCell>)
    requires FaithfulTable(rules, node, table) && FaithfulCells(rules, node, cells)
    requires Matches(rules, node, tx, indexes)
    ensures AllOutputs(rules, node, tx, indexes) ==>
              ResolveAll(rules, table, node, tx, indexes, cells)
                == Ok(Resolutions(TrueInputs(rules, node, tx, indexes),
                                  cells + BacksFor(rules, node, table, cells, OpsOf(tx, indexes))))
    ensures !AllOutputs(rules, node, tx, indexes) ==> ResolveAll(rules, table, node, tx, indexes, cells).Err?
  {
    hide OutputAt, ResolveInput, FaithfulTable, FaithfulCell, Known, Matches, AllOutputs, BackfillCell, InputFor,
         TrueInputs, OpsOf;
    if indexes == [] {
      ResolveNone(rules, table, node, tx, cells);
    } else {
      var n := |indexes| - 1;
      AllButLast(rules, node, tx, indexes);
      ResolveMany(rules, table, node, tx, indexes[..n], cells);
      if AllOutputs(rules, node, tx, indexes[..n]) {
        ResolveLast(rules, table, node, tx, indexes, cells);
      }
    }
  }

  lemma ResolveLast(rules: Rules, table: CellTable, node: Txs, tx: Tx, indexes: seq<nat>, cells: seq<NewCell>)
    requires FaithfulTable(rules, node, table) && FaithfulCells(rules, node, cells)
    requires indexes != [] && Matches(rules, node, tx, indexes) && AllOutputs(rules, node, tx, indexes[..|indexes| - 1])
    requires ResolveAll(rules, table, node, tx, indexes[..|indexes| - 1], cells)
          == Ok(Resolutions(TrueInputs(rules, node, tx, indexes[..|indexes| - 1]),
                            cells + BacksFor(rules, node, table, cells, OpsOf(tx, indexes[..|indexes| - 1]))))
    ensures AllOutputs(rules, node, tx, indexes) ==>
              ResolveAll(rules, table, node, tx, indexes, cells)
                == Ok(Resolutions(TrueInputs(rules, node, tx, indexes),
                                  cells + BacksFor(rules, node, table, cells, OpsOf(tx, indexes))))
    ensures !AllOutputs(rules, node, tx, indexes) ==> ResolveAll(rules, table, node, tx, indexes, cells).Err?
  {
    hide OutputAt, ResolveInput, FaithfulTable, FaithfulCell, Known, Matches, AllOutputs, BackfillCell, InputFor,
         TrueInputs, OpsOf;
    var n := |indexes| - 1;
    AllButLast(rules, node, tx, indexes);
    var backs := BacksFor(rules, node, table, cells, OpsOf(tx, indexes[..n]));
    BacksAreFaithful(rules, node, table, cells, OpsOf(tx, indexes[..n]));
    ResolveOne(rules, table, node, tx.inputs[indexes[n]], indexes[n], cells + backs);
    if AllOutputs(rules, node, tx, indexes) {
      TrueInputsLast(rules, node, tx, indexes);
      var back := BackfillCell(rules, node, tx.inputs[indexes[n]]);
      assert (cells + backs) + [back] == cells + (backs + [back]);
    }
  }

  lemma ResolveNone(rules: Rules, table: CellTable, node: Txs, tx: Tx, cells: seq<NewCell>)
    ensures AllOutputs(rules, node, tx, [])
    ensures ResolveAll(rules, table, node, tx, [], cells)
         == Ok(Resolutions(TrueInputs(rules, node, tx, []), cells + BacksFor(rules, node, table, cells, OpsOf(tx, []))))
  {
    assert OpsOf(tx, []) == [] && TrueInputs(rules, node, tx, []) == [];
    assert cells + [] == cells;
  }

  // ----- one transaction of a round

  lemma {:induction false} BacksExact(rules: Rules, node: Txs, table: CellTable, cells: seq<NewCell>,
                                      ops: seq<OutPoint>, known: CellTable)
    requires forall i :: 0 <= i < |ops| ==> OutputAt(rules, node, ops[i]).Some?
    requires forall key :: key in known <==> key in table || AnyCell(cells, key)
    ensures var backs := BacksFor(rules, node, table, cells, ops);
            && DistinctCells(backs)
            && (forall b :: 0 <= b < |backs| ==> backs[b].key !in known && BackfillOfOp(rules, node, backs[b], ops))
            && (forall i :: 0 <= i < |ops| ==> KeyOf(ops[i]) in known || AnyCell(backs, KeyOf(ops[i])))
  {
    hide OutputAt, BackfillCell, AnyCell, BackfillOfOp;
    if ops != [] {
      var n := |ops| - 1;
      var front := BacksFor(rules, node, table, cells, ops[..n]);
      BacksExact(rules, node, table, cells, ops[..n], known);
      AnyOfBoth(cells, front, KeyOf(ops[n]));
      forall b | 0 <= b < |front|
        ensures BackfillOfOp(rules, node, front[b], ops)
      {
        LongerOps(rules, node, front[b], ops);
      }
      if !Known(table, cells + front, ops[n]) {
        var back := BackfillCell(rules, node, ops[n]);
        BackfillIsFaithful(rules, node, ops[n]);
        LastOp(rules, node, ops);
        NotAmong(front, back);
        forall i | 0 <= i < |ops|
          ensures KeyOf(ops[i]) in known || AnyCell(front + [back], KeyOf(ops[i]))
        {
          AnyOfBoth(front, [back], KeyOf(ops[i]));
          if i == n {
            InIsAny(front + [back], back);
          } else {
            assert ops[..n][i] == ops[i];
          }
        }
      } else {
        forall i | 0 <= i < |ops|
          ensures KeyOf(ops[i]) in known || AnyCell(front, KeyOf(ops[i]))
        {
          if i < n {
            assert ops[..n][i] == ops[i];
          }
        }
      }
    }
  }

  ghost predicate BackfillOfOp(rules: Rules, h: Txs, b: NewCell, ops: seq<OutPoint>) {
    exists i :: 0 <= i < |ops| && BackfillOf(rules, h, b, ops[i])
  }

  lemma AnyOfBoth(a: seq<NewCell>, b: seq<NewCell>, key: CellKey)
    ensures AnyCell(a + b, key) <==> AnyCell(a, key) || AnyCell(b, key)
  {
    if AnyCell(a, key) {
      var i :| 0 <= i < |a| && a[i].key == key;
      assert (a + b)[i].key == key;
    }
    if AnyCell(b, key) {
      var i :| 0 <= i < |b| && b[i].key == key;
      assert (a + b)[|a| + i].key == key;
    }
    if AnyCell(a + b, key) {
      var i :| 0 <= i < |a + b| && (a + b)[i].key == key;
      assert i < |a| ==> a[i].key == key;
      assert i >= |a| ==> b[i - |a|].key == key;
    }
  }

  lemma NotAmong(front: seq<NewCell>, back: NewCell)
    requires DistinctCells(front) && !AnyCell(front, back.key)
    ensures DistinctCells(front + [back])
  {
  }

  lemma LongerOps(rules: Rules, h: Txs, b: NewCell, ops: seq<OutPoint>)
    requires ops != [] && BackfillOfOp(rules, h, b, ops[..|ops| - 1])
    ensures BackfillOfOp(rules, h, b, ops)
  {
    hide BackfillOf;
    var i :| 0 <= i < |ops| - 1 && BackfillOf(rules, h, b, ops[..|ops| - 1][i]);
    assert BackfillOf(rules, h, b, ops[i]);
  }

  lemma LastOp(rules: Rules, h: Txs, ops: seq<OutPoint>)
    requires ops != [] && OutputAt(rules, h, ops[|ops| - 1]).Some?
    ensures BackfillOfOp(rules, h, BackfillCell(rules, h, ops[|ops| - 1]), ops)
  {
    hide OutputAt, BackfillCell;
    assert BackfillOf(rules, h, BackfillCell(rules, h, ops[|ops| - 1]), ops[|ops| - 1]);
  }

  /** Looking a consumed cell up in the whole chain or in what precedes its consumption is the same. */
  lemma OutputBefore(rules: Rules, node: Txs, p: nat, k: nat)
    requires WellFormed(node) && p < |node| && k < |node[p].tx.inputs|
    ensures OutputAt(rules, node[..p], node[p].tx.inputs[k]) == OutputAt(rules, node, node[p].tx.inputs[k])
    ensures OutputAt(rules, node, node[p].tx.inputs[k]).Some? ==>
              BackfillCell(rules, node[..p], node[p].tx.inputs[k]) == BackfillCell(rules, node, node[p].tx.inputs[k])
  {
    hide ReadOutput, BuildNewCell, WellFormed, Source;
    SourceBefore(node, p, k);
  }

  /** The record's input positions, computed on the whole chain. */
  function InputsAt(rules: Rules, node: Txs, p: nat): seq<nat>
    requires p < |node|
  {
    MatchedInputs(rules.protocol, node, node[p].tx)
  }

  lemma InputsAtMatch(rules: Rules, node: Txs, p: nat)
    requires WellFormed(node) && p < |node|
    ensures Matches(rules, node, node[p].tx, InputsAt(rules, node, p))
    ensures MatchedInputs(rules.protocol, node[..p], node[p].tx) == InputsAt(rules, node, p)
    ensures Readable(rules, node[..p], node[p]) <==> AllOutputs(rules, node, node[p].tx, InputsAt(rules, node, p))
  {
    hide RecordCells, OutputAt, WellFormed, Source, InputIndexes;
    MatchedInputsExact(rules.protocol, node, node[p].tx);
    RecordCellsBefore(rules.protocol, node, p);
    forall k | 0 <= k < |node[p].tx.inputs|
      ensures OutputAt(rules, node[..p], node[p].tx.inputs[k]) == OutputAt(rules, node, node[p].tx.inputs[k])
    {
      OutputBefore(rules, node, p, k);
    }
  }

  lemma InputsAtTrue(rules: Rules, node: Txs, p: nat)
    requires WellFormed(node) && p < |node| && Readable(rules, node[..p], node[p])
    ensures AllOutputs(rules, node, node[p].tx, InputsAt(rules, node, p))
    ensures InputsOf(rules, node[..p], node[p]) == TrueInputs(rules, node, node[p].tx, InputsAt(rules, node, p))
  {
    hide MatchedInputs, OutputAt, WellFormed, Readable, InputsAt;
    InputsAtMatch(rules, node, p);
    var m := InputsAt(rules, node, p);
    forall i | 0 <= i < |m|
      ensures InputsOf(rules, node[..p], node[p])[i] == TrueInputs(rules, node, node[p].tx, m)[i]
    {
      assert m[i] in m;
      OutputBefore(rules, node, p, m[i]);
    }
  }

  /** The backfills a round adds at position `p`. */
  ghost function BacksAt(rules: Rules, node: Txs, table: CellTable, cells: seq<NewCell>, p: nat): seq<NewCell>
    requires WellFormed(node) && p < |node|
  {
    InputsAtMatch(rules, node, p);
    BacksFor(rules, node, table, cells, OpsOf(node[p].tx, InputsAt(rules, node, p)))
  }

  lemma BacksAtBackfill(rules: Rules, node: Txs, table: CellTable, cells: seq<NewCell>, p: nat, known: CellTable)
    requires WellFormed(node) && p < |node| && Readable(rules, node[..p], node[p])
    requires forall key :: key in known <==> key in table || AnyCell(cells, key)
    ensures Backfills(rules, node[..p], InputsOf(rules, node[..p], node[p]), known, BacksAt(rules, node, table, cells, p))
  {
    hide OutputAt, BackfillCell, WellFormed, Readable, InputsAt, AnyCell, BacksFor, DistinctCells;
    InputsAtMatch(rules, node, p);
    InputsAtTrue(rules, node, p);
    var m := InputsAt(rules, node, p);
    var inputs := InputsOf(rules, node[..p], node[p]);
    var ops := OpsOf(node[p].tx, m);
    forall i | 0 <= i < |ops|
      ensures OutputAt(rules, node, ops[i]).Some? && inputs[i].outPoint == ops[i]
    {
      assert m[i] in m;
    }
    BacksExact(rules, node, table, cells, ops, known);
    var backs := BacksAt(rules, node, table, cells, p);
    forall b | 0 <= b < |backs|
      ensures BackfillOfInput(rules, node[..p], inputs, backs[b])
    {
      BackOfInput(rules, node, p, backs[b], m, ops, inputs);
    }
  }

  lemma BackOfInput(rules: Rules, node: Txs, p: nat, b: NewCell, m: seq<nat>, ops: seq<OutPoint>,
                    inputs: seq<ResolvedInput>)
    requires WellFormed(node) && p < |node| && BackfillOfOp(rules, node, b, ops)
    requires |m| == |ops| == |inputs|
    requires forall i :: 0 <= i < |ops| ==>
               m[i] < |node[p].tx.inputs| && ops[i] == node[p].tx.inputs[m[i]] && inputs[i].outPoint == ops[i]
    ensures BackfillOfInput(rules, node[..p], inputs, b)
  {
    hide OutputAt, BackfillCell, WellFormed;
    var i :| 0 <= i < |ops| && BackfillOf(rules, node, b, ops[i]);
    OutputBefore(rules, node, p, m[i]);
    assert BackfillOf(rules, node[..p], b, inputs[i].outPoint);
  }

  /** What processing position `p` makes of the batch. */
  ghost function Next(rules: Rules, node: Txs, table: CellTable, pending: Pending, p: nat): Pending
    requires WellFormed(node) && p < |node| && Readable(rules, node[..p], node[p])
  {
    Pending(pending.cells + (BacksAt(rules, node, table, pending.cells, p) + OutputCells(rules, node[p])),
            pending.spends + SpendsOf(rules, node[..p], node[p]),
            pending.transitions + TransitionFacts(rules, node[..p], node[p]))
  }

  /** Writing the batch so far would give the index up to position `p`. */
  ghost predicate PendingExact(rules: Rules, node: Txs, lo: nat, p: nat, table: CellTable, ts: TransitionTable,
                               pending: Pending) {
    && p <= |node|
    && IsIndex(rules, node[..p], lo,
               ApplySpends(InsertCells(table, pending.cells), pending.spends),
               InsertTransitions(ts, pending.transitions))
    && FaithfulCells(rules, node, pending.cells)
    && forall s :: 0 <= s < |pending.spends| ==> pending.spends[s].key in InsertCells(table, pending.cells)
  }

  lemma PendingKeys(table: CellTable, cells: seq<NewCell>, spends: seq<CellSpend>)
    ensures var after := ApplySpends(InsertCells(table, cells), spends);
            forall key :: (key in after <==> key in table || AnyCell(cells, key)) && (key in after <==> key in InsertCells(table, cells))
  {
    hide InsertCells, ApplySpends, AnyCell;
    SpendsKeepKeys(InsertCells(table, cells), spends);
    forall key
      ensures key in InsertCells(table, cells) <==> key in table || AnyCell(cells, key)
    {
      InsertCellsAt(table, cells, key);
    }
  }

  lemma OwnCellsFaithful(rules: Rules, node: Txs, p: nat)
    requires WellFormed(node) && p < |node|
    ensures FaithfulCells(rules, node, OutputCells(rules, node[p]))
  {
    hide ReadableOutputs, ReadOutput, BuildNewCell, WellFormed;
    var t := node[p];
    var outputs := ReadableOutputs(rules.protocol, t.tx, |t.tx.outputs|);
    ReadableOutputsExact(rules.protocol, t.tx, |t.tx.outputs|);
    forall c | c in OutputCells(rules, t)
      ensures FaithfulCell(rules, node, c)
    {
      var x :| 0 <= x < |outputs| && OutputCells(rules, t)[x] == c;
      var op := OutPoint(t.tx.hash, outputs[x].index);
      SourceIn(node, p, outputs[x].index);
      BuiltKey(rules, t.tx.hash, outputs[x], AnchorOf(t));
      assert Faithful(rules, node, op, c);
    }
  }

  /** One position later, writing the grown batch would give the index one position further. */
  lemma NextExact(rules: Rules, node: Txs, lo: nat, p: nat, table: CellTable, ts: TransitionTable, pending: Pending)
    requires WellFormed(node) && p < |node| && Readable(rules, node[..p], node[p])
    requires PendingExact(rules, node, lo, p, table, ts, pending)
    ensures PendingExact(rules, node, lo, p + 1, table, ts, Next(rules, node, table, pending, p))
  {
    hide InsertCells, ApplySpends, AnyCell, IsIndex, WellFormed, Readable, BacksAt, OutputCells, SpendsOf, TransitionFacts,
         InsertTransitions, Backfills, FaithfulCell;
    var h, t := node[..p], node[p];
    assert h + [t] == node[..p + 1];
    WellFormedPrefix(node, p + 1);
    var before := ApplySpends(InsertCells(table, pending.cells), pending.spends);
    var backs, outs, ss := BacksAt(rules, node, table, pending.cells, p), OutputCells(rules, t), SpendsOf(rules, h, t);
    PendingKeys(table, pending.cells, pending.spends);
    BacksAtBackfill(rules, node, table, pending.cells, p, before);
    StepIndex(rules, h, lo, t, before, InsertTransitions(ts, pending.transitions), backs);
    FreshInserts(rules, h, lo, t, before, InsertTransitions(ts, pending.transitions), backs);
    GrowBatch(table, pending.cells, pending.spends, backs + outs, ss);
    InsertTransitionsAppend(ts, pending.transitions, TransitionFacts(rules, h, t));
    GrownSpendsHit(rules, node, p, table, pending, before, backs + outs, ss);
    OwnCellsFaithful(rules, node, p);
    BacksAtFaithful(rules, node, table, pending.cells, p);
  }

  lemma BacksAtFaithful(rules: Rules, node: Txs, table: CellTable, cells: seq<NewCell>, p: nat)
    requires WellFormed(node) && p < |node|
    ensures FaithfulCells(rules, node, BacksAt(rules, node, table, cells, p))
  {
    hide BacksFor, WellFormed, FaithfulCells;
    InputsAtMatch(rules, node, p);
    BacksAreFaithful(rules, node, table, cells, OpsOf(node[p].tx, InputsAt(rules, node, p)));
  }

  /** What a transaction inserts is not in the table it is inserted into, and what it spends then is. */
  lemma FreshInserts(rules: Rules, h: Txs, lo: nat, t: TxAt, before: CellTable, ts: TransitionTable,
                     backs: seq<NewCell>)
    requires IsIndex(rules, h, lo, before, ts) && WellFormed(h + [t]) && Readable(rules, h, t)
    requires Backfills(rules, h, InputsOf(rules, h, t), before, backs)
    ensures var cs := backs + OutputCells(rules, t);
            && (forall c :: 0 <= c < |cs| ==> cs[c].key !in before)
            && (forall s :: 0 <= s < |SpendsOf(rules, h, t)| ==> SpendsOf(rules, h, t)[s].key in InsertCells(before, cs))
  {
    hide CellsExact, AllReadable, TransitionsExact, WellFormed, Readable, Backfills, InsertCells, ApplySpends, OutputCells,
         SpendsOf;
    StepIsDefined(rules, h, lo, t, before, backs);
  }

  lemma GrownSpendsHit(rules: Rules, node: Txs, p: nat, table: CellTable, pending: Pending, before: CellTable,
                       cs: seq<NewCell>, ss: seq<CellSpend>)
    requires forall key :: key in before <==> key in InsertCells(table, pending.cells)
    requires forall s :: 0 <= s < |pending.spends| ==> pending.spends[s].key in InsertCells(table, pending.cells)
    requires forall s :: 0 <= s < |ss| ==> ss[s].key in InsertCells(before, cs)
    ensures forall s :: 0 <= s < |pending.spends + ss| ==>
              (pending.spends + ss)[s].key in InsertCells(table, pending.cells + cs)
  {
    hide InsertCells, AnyCell;
    InsertCellsAppend(table, pending.cells, cs);
    var inserted := InsertCells(table, pending.cells);
    forall s | 0 <= s < |pending.spends + ss|
      ensures (pending.spends + ss)[s].key in InsertCells(table, pending.cells + cs)
    {
      var key := (pending.spends + ss)[s].key;
      InsertCellsAt(inserted, cs, key);
      InsertCellsAt(before, cs, key);
      if s >= |pending.spends| {
        assert ss[s - |pending.spends|].key == key;
      }
    }
  }

  // ----- processing the records of a range

  lemma FindPosition(node: Txs, p: nat)
    requires WellFormed(node) && p < |node|
    ensures FindTx(node, node[p].tx.hash) == Some(p)
  {
    hide WellFormed;
    OneCreator(node, p, FindTx(node, node[p].tx.hash).value);
  }

  lemma NextUnchanged(rules: Rules, node: Txs, table: CellTable, pending: Pending, p: nat)
    requires WellFormed(node) && p < |node| && Readable(rules, node[..p], node[p])
    requires InputsAt(rules, node, p) == [] && ReadableOutputs(rules.protocol, node[p].tx, |node[p].tx.outputs|) == []
    ensures Next(rules, node, table, pending, p) == pending
  {
    hide WellFormed, Readable, ReadableOutputs;
    InputsAtTrue(rules, node, p);
    InputsAtMatch(rules, node, p);
    assert InputsOf(rules, node[..p], node[p]) == [];
    assert OpsOf(node[p].tx, InputsAt(rules, node, p)) == [];
    assert BacksAt(rules, node, table, pending.cells, p) == [];
    assert OutputCells(rules, node[p]) == [] && SpendsOf(rules, node[..p], node[p]) == [];
    assert TransitionFacts(rules, node[..p], node[p]) == [];
  }

  /** A transaction neither search reports contributes nothing. */
  lemma UnreportedContributesNothing(rules: Rules, node: Txs, table: CellTable, pending: Pending, p: nat)
    requires WellFormed(node) && p < |node| && RecordCells(rules.protocol, node, node[p].tx) == []
    ensures Readable(rules, node[..p], node[p])
    ensures Next(rules, node, table, pending, p) == pending
  {
    hide WellFormed, RecordCells, ReadOutput, Readable, OutputAt, Next;
    assert InputsAt(rules, node, p) == [];
    InputsAtMatch(rules, node, p);
    assert AllOutputs(rules, node, node[p].tx, InputsAt(rules, node, p));
    var tx := node[p].tx;
    ReadableOutputsExact(rules.protocol, tx, |tx.outputs|);
    var outputs := ReadableOutputs(rules.protocol, tx, |tx.outputs|);
    if outputs != [] {
      ReportedOutput(rules.protocol, node, tx, outputs[0].index);
    }
    NextUnchanged(rules, node, table, pending, p);
  }

  lemma ReportedOutput(protocol: ProtocolScripts, node: Txs, tx: Tx, o: nat)
    requires o < |tx.outputs| && ReadOutput(protocol, tx, o).Some?
    ensures RecordCells(protocol, node, tx) != []
  {
    hide RecordCells, ParseBinding;
    OutputsAreReported(protocol, node, tx, o);
  }

  /** Processing the record of a position computes exactly what the chain says, or fails on unreadable args. */
  lemma ProcessExact(rules: Rules, table: CellTable, blocks: Blocks, p: nat, pending: Pending)
    requires var node := History(blocks);
             WellFormed(node) && p < |node| && FaithfulTable(rules, node, table) && FaithfulCells(rules, node, pending.cells)
    ensures var node := History(blocks);
            var r := ProcessTransaction(rules, table, node, blocks, RecordOf(rules.protocol, node, p), pending);
            && (r.Ok? <==> Readable(rules, node[..p], node[p]))
            && (r.Ok? ==> r.value == Next(rules, node, table, pending, p))
  {
    hide WellFormed, History, FaithfulTable, FaithfulCells, Readable, ResolveAll, BacksFor, TrueInputs, ReadableOutputs,
         RecordCells, InputsOf, AllOutputs, Matches, InputIndexes;
    var node := History(blocks);
    var t := node[p];
    HistoryPosition(blocks, p);
    FindPosition(node, p);
    InputsAtMatch(rules, node, p);
    var m := InputsAt(rules, node, p);
    ResolveMany(rules, table, node, t.tx, m, pending.cells);
    assert t == TxAt(t.tx, t.number, blocks[t.number].hash, blocks[t.number].timestamp, t.txIndex);
    if Readable(rules, node[..p], t) {
      InputsAtTrue(rules, node, p);
      var resolved := ResolveAll(rules, table, node, t.tx, m, pending.cells).value;
      var outputs := ReadableOutputs(rules.protocol, t.tx, |t.tx.outputs|);
      if outputs == [] && resolved.inputs == [] {
        NextUnchanged(rules, node, table, pending, p);
        NoBacks(rules, node, table, pending.cells, t.tx, m);
      } else {
        var backs := BacksAt(rules, node, table, pending.cells, p);
        assert (pending.cells + backs) + OutputCells(rules, t) == pending.cells + (backs + OutputCells(rules, t));
      }
    }
  }

  lemma NoBacks(rules: Rules, node: Txs, table: CellTable, cells: seq<NewCell>, tx: Tx, m: seq<nat>)
    requires m == []
    ensures cells + BacksFor(rules, node, table, cells, OpsOf(tx, m)) == cells
  {
    assert OpsOf(tx, m) == [];
  }

  ghost predicate ReadableRange(rules: Rules, node: Txs, a: nat, b: nat) {
    forall p :: a <= p < b && p < |node| ==> Readable(rules, node[..p], node[p])
  }

  /**
   Processing the records of positions `[a, b)` succeeds iff every consumed RGB++ cell there is readable,
   and then writing the batch extends the index from position `a` to position `b`.
   */
  lemma {:induction false} RangeExact(rules: Rules, table: CellTable, ts: TransitionTable, blocks: Blocks, lo: nat,
                                      a: nat, b: nat)
    requires a <= b <= |History(blocks)| && WellFormed(History(blocks))
    requires IsIndex(rules, History(blocks)[..a], lo, table, ts) && FaithfulTable(rules, History(blocks), table)
    ensures var node := History(blocks);
            var r := ProcessAll(rules, table, node, blocks, RecordsIn(rules.protocol, node, a, b));
            && (r.Ok? <==> ReadableRange(rules, node, a, b))
            && (r.Ok? ==> PendingExact(rules, node, lo, b, table, ts, r.value))
    decreases b
  {
    hide WellFormed, History, FaithfulTable, Readable, IsIndex, PendingExact, ProcessAll, ReadableRange, RecordCells;
    var node := History(blocks);
    if a == b {
      StartsExact(rules, node, lo, a, table, ts);
      EmptyRange(rules, node, a);
      NothingToProcess(rules, table, node, blocks);
    } else {
      var p := b - 1;
      RangeExact(rules, table, ts, blocks, lo, a, p);
      LongerRange(rules, node, a, p);
      var records := RecordsIn(rules.protocol, node, a, p);
      var front := ProcessAll(rules, table, node, blocks, records);
      var record := RecordOf(rules.protocol, node, p);
      if record.cells == [] {
        RangeSkip(rules, table, ts, blocks, lo, p, front);
      } else if front.Ok? {
        RangeStep(rules, table, ts, blocks, lo, p, records, front.value);
      } else {
        ErrorStays(rules, table, node, blocks, records, record);
      }
    }
  }

  lemma NothingToProcess(rules: Rules, table: CellTable, node: Txs, blocks: Blocks)
    ensures ProcessAll(rules, table, node, blocks, []) == Ok(EMPTY)
  {
  }

  /** One more position, that no search reports. */
  lemma RangeSkip(rules: Rules, table: CellTable, ts: TransitionTable, blocks: Blocks, lo: nat, p: nat,
                  front: Result<Pending>)
    requires p < |History(blocks)| && WellFormed(History(blocks))
    requires RecordCells(rules.protocol, History(blocks), History(blocks)[p].tx) == []
    requires front.Ok? ==> PendingExact(rules, History(blocks), lo, p, table, ts, front.value)
    ensures var node := History(blocks);
            && Readable(rules, node[..p], node[p])
            && (front.Ok? ==> PendingExact(rules, node, lo, p + 1, table, ts, front.value))
  {
    hide WellFormed, History, Readable, PendingExact, RecordCells, Next;
    var node := History(blocks);
    UnreportedContributesNothing(rules, node, table, EMPTY, p);
    if front.Ok? {
      UnreportedContributesNothing(rules, node, table, front.value, p);
      NextExact(rules, node, lo, p, table, ts, front.value);
    }
  }

  lemma EmptyRange(rules: Rules, node: Txs, a: nat)
    ensures ReadableRange(rules, node, a, a)
  {
  }

  lemma LongerRange(rules: Rules, node: Txs, a: nat, p: nat)
    requires a <= p < |node|
    ensures ReadableRange(rules, node, a, p + 1) <==> ReadableRange(rules, node, a, p) && Readable(rules, node[..p], node[p])
  {
    hide Readable;
  }

  /** One more reported position. */
  lemma RangeStep(rules: Rules, table: CellTable, ts: TransitionTable, blocks: Blocks, lo: nat, p: nat,
                  records: seq<TxRecord>, front: Pending)
    requires p < |History(blocks)| && WellFormed(History(blocks)) && FaithfulTable(rules, History(blocks), table)
    requires ProcessAll(rules, table, History(blocks), blocks, records) == Ok(front)
    requires PendingExact(rules, History(blocks), lo, p, table, ts, front)
    ensures var node := History(blocks);
            var r := ProcessAll(rules, table, node, blocks, records + [RecordOf(rules.protocol, node, p)]);
            && (r.Ok? <==> Readable(rules, node[..p], node[p]))
            && (r.Ok? ==> PendingExact(rules, node, lo, p + 1, table, ts, r.value))
  {
    hide WellFormed, History, FaithfulTable, Readable, PendingExact, ProcessTransaction, Next;
    var node := History(blocks);
    var record := RecordOf(rules.protocol, node, p);
    ExactIsFaithful(rules, node, lo, p, table, ts, front);
    ProcessExact(rules, table, blocks, p, front);
    assert (records + [record])[..|records|] == records;
    if Readable(rules, node[..p], node[p]) {
      NextExact(rules, node, lo, p, table, ts, front);
    }
  }

  lemma ErrorStays(rules: Rules, table: CellTable, node: Txs, blocks: Blocks, records: seq<TxRecord>, record: TxRecord)
    requires ProcessAll(rules, table, node, blocks, records).Err?
    ensures ProcessAll(rules, table, node, blocks, records + [record]).Err?
  {
    hide ProcessTransaction;
    assert (records + [record])[..|records|] == records;
  }

  lemma ExactIsFaithful(rules: Rules, node: Txs, lo: nat, p: nat, table: CellTable, ts: TransitionTable,
                        pending: Pending)
    requires PendingExact(rules, node, lo, p, table, ts, pending)
    ensures FaithfulCells(rules, node, pending.cells)
  {
    hide IsIndex, FaithfulCell;
  }

  lemma StartsExact(rules: Rules, node: Txs, lo: nat, a: nat, table: CellTable, ts: TransitionTable)
    requires a <= |node| && IsIndex(rules, node[..a], lo, table, ts)
    ensures PendingExact(rules, node, lo, a, table, ts, EMPTY)
  {
    hide IsIndex;
  }

  /** The rows of an index are faithful to every chain that extends it. */
  lemma IndexIsFaithful(rules: Rules, node: Txs, a: nat, lo: nat, table: CellTable, ts: TransitionTable)
    requires WellFormed(node) && a <= |node| && IsIndex(rules, node[..a], lo, table, ts)
    ensures FaithfulTable(rules, node, table)
  {
    hide WellFormed, AllReadable, TransitionsExact, ReadOutput, BuildNewCell, Consumer;
    var h := node[..a];
    forall key | key in table
      ensures table[key].cell.key == key && FaithfulCell(rules, node, table[key].cell)
    {
      var i: nat, o: nat :| Names(h, key, i, o);
      assert RowExact(rules, h, lo, table, i, o);
      SourceIn(node, i, o);
      var output := ReadOutput(rules.protocol, h[i].tx, o).value;
      BuiltKey(rules, h[i].tx.hash, output, CreationAnchor(h, lo, i));
      assert Faithful(rules, node, OpAt(node, i, o), table[key].cell);
    }
  }
}
