/** Row and batch types of the store (crates/store/src/models.rs, migrations/0001_init.sql). */
module Rows {
  import opened Wrappers
  import opened ByteStrings
  import opened Ckb
  import opened Protocol

  /** A script as the jsonb column holds it; a missing key reads as None. */
  datatype ScriptJson = ScriptJson(codeHash: Option<string>, hashType: Option<string>, args: Option<string>)

  datatype AssetKind = Xudt | Sudt | Spore | SporeCluster | Unrecognised | Plain {
    predicate IsFungible() {
      Xudt? || Sudt?
    }
  }

  /** Primary key of rgbpp_cells. */
  datatype CellKey = CellKey(txHash: H256, outputIndex: i32)

  function KeyOf(op: OutPoint): CellKey {
    CellKey(op.txHash, AsI32(op.index))
  }

  lemma KeyInjective(a: OutPoint, b: OutPoint)
    ensures KeyOf(a) == KeyOf(b) <==> a == b
  {
  }

  datatype Anchor = Anchor(number: nat, hash: H256, txIndex: int)

  datatype NewCell = NewCell(
    key: CellKey,
    lockKind: LockKind,
    btcTxid: H256,
    btcVout: Option<i32>,
    btcTimeAfter: Option<i32>,
    targetLockHash: Option<H256>,
    targetLock: Option<ScriptJson>,
    lockHash: H256,
    lockArgs: Bytes,
    typeHash: Option<H256>,
    typeScript: Option<ScriptJson>,
    assetKind: AssetKind,
    udtAmount: Option<nat>,
    capacity: i64,
    cellData: Bytes,
    created: Anchor)

  datatype Consumption = Consumption(at: Anchor, txHash: H256, inputIndex: nat)

  /** A row of rgbpp_cells: a cell and, once it is spent, where. */
  datatype CellRow = CellRow(cell: NewCell, consumed: Option<Consumption>)

  datatype CellSpend = CellSpend(key: CellKey, spentBy: Consumption)

  datatype TransitionKind = Issuance | Transfer | LeapToCkb | BtcTimeUnlock | Exit

  datatype NewTransition = NewTransition(
    ckbTxHash: H256,
    block: Anchor,
    timestamp: nat,
    kind: TransitionKind,
    btcTxid: Option<H256>,
    inputCellCount: nat,
    outputCellCount: nat,
    expectedCommitment: Option<H256>)

  datatype CommitmentStatus = Unchecked | Match | Mismatch | BtcUnknown | Missing | NotApplicable

  /** A row of rgbpp_transitions: the indexed part and the verifier's columns. */
  datatype TransitionRow = TransitionRow(
    fact: NewTransition,
    observedCommitment: Option<H256>,
    commitmentStatus: CommitmentStatus)

  datatype BlockRecord = BlockRecord(number: nat, hash: H256, parentHash: H256, timestamp: nat, active: bool)

  datatype IndexBatch = IndexBatch(
    blocks: seq<BlockRecord>,
    cells: seq<NewCell>,
    spends: seq<CellSpend>,
    transitions: seq<NewTransition>,
    checkpointNumber: nat,
    checkpointHash: Option<H256>,
    target: nat,
    chainTip: nat,
    reorgLag: nat)

  datatype StreamState = StreamState(
    lastBlockNumber: nat,
    lastBlockHash: Option<H256>,
    target: Option<nat>,
    chainTip: Option<nat>,
    reorgLag: nat,
    failed: bool)

  type CellTable = map<CellKey, CellRow>
  type TransitionTable = map<H256, TransitionRow>
  type BlockTable = map<nat, BlockRecord>
}
