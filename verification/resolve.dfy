/**
 Identifying a consumed cell: from the pending batch, from a stored row, or from the node
 (crates/indexer/src/resolve.rs, and `resolve_input` and its helpers in crates/indexer/src/scanner.rs).
 */
module Resolve {
  import opened Wrappers
  import opened ByteStrings
  import opened Ckb
  import opened Protocol
  import opened Rows
  import opened Chain
  import opened Extract

  const UNKNOWN_TX_INDEX := -1

  // ----- scripts through JSON

  function HashTypeFromName(name: string): Option<ScriptHashType> {
    if name == "data" then Some(Data)
    else if name == "type" then Some(Type)
    else if name == "data1" then Some(Data1)
    else if name == "data2" then Some(Data2)
    else None
  }

  function ScriptFromJson(json: ScriptJson): Result<Script> {
    if json.codeHash.None? then Err(Inconsistent("stored script has no code_hash"))
    else if json.hashType.None? then Err(Inconsistent("stored script has no hash_type"))
    else
      var args := if json.args.Some? then json.args.value else "0x";
      var codeHash :- Hex.FromHex(json.codeHash.value);
      if |codeHash| != 32 then Err(Length(32, |codeHash|))
      else if HashTypeFromName(json.hashType.value).None? then Err(Inconsistent("unknown hash_type"))
      else
        var argBytes :- Hex.FromHex(args);
        Ok(Script(codeHash, HashTypeFromName(json.hashType.value).value, argBytes))
  }

  lemma ScriptJsonRoundTrip(s: Script)
    ensures ScriptFromJson(ScriptToJson(s)) == Ok(s)
  {
    Hex.HexRoundTrip(s.codeHash);
    Hex.HexRoundTrip(s.args);
  }

  // ----- rebuilding from stored columns

  function TypeFromColumn(json: Option<ScriptJson>): Result<Option<Script>> {
    match json
    case None => Ok(None)
    case Some(j) => var s :- ScriptFromJson(j); Ok(Some(s))
  }

  /** The lock's code is not stored; the lock kind implies it. */
  function ImpliedLock(protocol: ProtocolScripts, cell: NewCell): Script {
    Script(protocol.Id(cell.lockKind).codeHash, protocol.Id(cell.lockKind).hashType, cell.lockArgs)
  }

  function CellOutputFromRow(rules: Rules, row: CellRow): Result<CellOutput> {
    var lock := ImpliedLock(rules.protocol, row.cell);
    if ScriptHash(rules.blake, lock) != row.cell.lockHash then Err(Inconsistent("indexed under a different deployment"))
    else
      var type_ :- TypeFromColumn(row.cell.typeScript);
      Ok(CellOutput(AsU64(row.cell.capacity), lock, type_))
  }

  function BindingFromRow(row: CellRow): Result<LockBinding> {
    ParseBinding(row.cell.lockKind, row.cell.lockArgs)
  }

  function ResolvedFromRow(rules: Rules, row: CellRow, op: OutPoint, inputIndex: nat): Result<ResolvedInput> {
    var binding :- BindingFromRow(row);
    var cell :- CellOutputFromRow(rules, row);
    Ok(ResolvedInput(inputIndex, op, binding, cell, row.cell.cellData))
  }

  function ResolvedFromNewCell(rules: Rules, cell: NewCell, op: OutPoint, inputIndex: nat): Result<ResolvedInput> {
    var type_ :- TypeFromColumn(cell.typeScript);
    var binding :- ParseBinding(cell.lockKind, cell.lockArgs);
    Ok(ResolvedInput(inputIndex, op, binding,
                     CellOutput(AsU64(cell.capacity), ImpliedLock(rules.protocol, cell), type_), cell.cellData))
  }

  /** What the node says about a consumed cell: the input, and the row that backfills it. */
  datatype Backfill = Backfill(input: ResolvedInput, cell: NewCell)

  function FromNode(rules: Rules, h: Txs, op: OutPoint, inputIndex: nat): Result<Option<Backfill>> {
    match FindTx(h, op.txHash)
    case None => Ok(None)
    case Some(i) =>
      var tx := h[i].tx;
      if op.index >= |tx.outputs| then Ok(None)
      else
        var cell := tx.outputs[op.index];
        var data := DataAt(tx, op.index);
        match rules.protocol.Classify(cell.lock)
        case None => Ok(None)
        case Some(kind) =>
          var binding :- ParseBinding(kind, cell.lock.args);
          var created := Anchor(h[i].number, h[i].blockHash, UNKNOWN_TX_INDEX);
          var output := RgbppOutput(op.index, binding, cell, data);
          Ok(Some(Backfill(ResolvedInput(inputIndex, op, binding, cell, data),
                           BuildNewCell(rules, op.txHash, output, created))))
  }

  // ----- the three ways agree

  /** The RGB++ output that a chain position names, when it is readable. */
  function OutputAt(rules: Rules, h: Txs, op: OutPoint): Option<RgbppOutput> {
    match Source(h, op)
    case None => None
    case Some(i) => ReadOutput(rules.protocol, h[i].tx, op.index)
  }

  function InputFor(output: RgbppOutput, op: OutPoint, inputIndex: nat): ResolvedInput {
    ResolvedInput(inputIndex, op, output.binding, output.cell, output.data)
  }

  /** A stored cell is faithful to the chain if it is the row some anchor builds from the output it names. */
  ghost predicate Faithful(rules: Rules, h: Txs, op: OutPoint, cell: NewCell) {
    OutputAt(rules, h, op).Some?
    && cell == BuildNewCell(rules, op.txHash, OutputAt(rules, h, op).value, cell.created)
  }

  lemma ReadOutputGenuine(protocol: ProtocolScripts, tx: Tx, i: nat)
    requires i < |tx.outputs| && ReadOutput(protocol, tx, i).Some?
    ensures Genuine(protocol, ReadOutput(protocol, tx, i).value)
  {
    hide ParseRgbpp, ParseBtcTime;
    var kind := protocol.Classify(tx.outputs[i].lock).value;
    assert ParseBinding(kind, tx.outputs[i].lock.args).value.Kind() == kind;
  }

  /** Rebuilding from the columns of a row inverts building the row. */
  lemma RebuildInvertsBuild(rules: Rules, txHash: H256, output: RgbppOutput, created: Anchor, inputIndex: nat)
    requires Genuine(rules.protocol, output)
    ensures var op, cell := OutPoint(txHash, output.index), BuildNewCell(rules, txHash, output, created);
            && ResolvedFromNewCell(rules, cell, op, inputIndex) == Ok(InputFor(output, op, inputIndex))
            && forall consumed :: ResolvedFromRow(rules, CellRow(cell, consumed), op, inputIndex)
                               == Ok(InputFor(output, op, inputIndex))
  {
    hide ParseBinding, ScriptFromJson, ScriptToJson, FungibleAmount;
    if output.cell.type_.Some? {
      ScriptJsonRoundTrip(output.cell.type_.value);
    }
    var cell := BuildNewCell(rules, txHash, output, created);
    assert ImpliedLock(rules.protocol, cell) == output.cell.lock;
    assert AsU64(cell.capacity) == output.cell.capacity;
  }

  /**
   The three ways to resolve a consumed cell return the same out point, binding, cell and data:
   from a faithful pending row, from a faithful stored row (spent or not), and from the node.
   */
  lemma ThreeWaysAgree(rules: Rules, h: Txs, op: OutPoint, cell: NewCell, inputIndex: nat)
    requires Faithful(rules, h, op, cell)
    ensures var input := InputFor(OutputAt(rules, h, op).value, op, inputIndex);
            && ResolvedFromNewCell(rules, cell, op, inputIndex) == Ok(input)
            && (forall consumed :: ResolvedFromRow(rules, CellRow(cell, consumed), op, inputIndex) == Ok(input))
            && FromNode(rules, h, op, inputIndex).Ok?
            && FromNode(rules, h, op, inputIndex).value.Some?
            && FromNode(rules, h, op, inputIndex).value.value.input == input
  {
    hide ParseBinding, ResolvedFromNewCell, ResolvedFromRow, BuildNewCell;
    var tx := h[Source(h, op).value].tx;
    ReadOutputGenuine(rules.protocol, tx, op.index);
    RebuildInvertsBuild(rules, op.txHash, OutputAt(rules, h, op).value, cell.created, inputIndex);
  }

  /**
   A row indexed under another deployment never rebuilds into a wrong lock unnoticed: either the
   rebuilt lock is the original one, or two different scripts collide under the hash.
   */
  lemma DeploymentChangeIsNoticed(rules: Rules, old_: Rules, txHash: H256, output: RgbppOutput, row: CellRow)
    requires Genuine(old_.protocol, output) && old_.blake == rules.blake
    requires row.cell == BuildNewCell(old_, txHash, output, row.cell.created)
    requires CellOutputFromRow(rules, row).Ok?
    ensures var rebuilt := CellOutputFromRow(rules, row).value;
            rebuilt == output.cell
            || (rebuilt.lock != output.cell.lock
                && ScriptHash(rules.blake, rebuilt.lock) == ScriptHash(rules.blake, output.cell.lock))
  {
    hide ParseBinding, ScriptFromJson, ScriptToJson;
    if output.cell.type_.Some? {
      ScriptJsonRoundTrip(output.cell.type_.value);
    }
    assert AsU64(row.cell.capacity) == output.cell.capacity;
  }
}
