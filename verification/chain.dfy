/**
 The CKB chain as the scanner's environment sees it: blocks of transactions, flattened into one
 history in (block, position) order. Everything the index is proved against is stated over histories.
 */
module Chain {
  import opened Wrappers
  import opened ByteStrings
  import opened Ckb

  /** Output positions are u32 on the wire. */
  type Outputs = s: seq<CellOutput> | |s| <= U32

  datatype Tx = Tx(hash: H256, inputs: seq<OutPoint>, outputs: Outputs, outputsData: seq<Bytes>)

  datatype Block = Block(hash: H256, parentHash: H256, timestamp: nat, txs: seq<Tx>)

  /** A transaction together with where in the chain it sits. */
  datatype TxAt = TxAt(tx: Tx, number: nat, blockHash: H256, timestamp: nat, txIndex: nat)

  type Blocks = seq<Block>
  type Txs = seq<TxAt>

  function BlockTxs(block: Block, number: nat): (r: Txs)
    ensures |r| == |block.txs|
  {
    seq(|block.txs|, i requires 0 <= i < |block.txs| =>
        TxAt(block.txs[i], number, block.hash, block.timestamp, i))
  }

  function History(blocks: Blocks): Txs {
    if blocks == [] then []
    else
      var n := |blocks| - 1;
      History(blocks[..n]) + BlockTxs(blocks[n], n)
  }

  /** The number of transactions in the first `n` blocks. */
  function Before(blocks: Blocks, n: nat): nat
    requires n <= |blocks|
  {
    |History(blocks[..n])|
  }

  lemma {:induction false} HistoryPrefix(blocks: Blocks, n: nat)
    requires n <= |blocks|
    ensures History(blocks[..n]) <= History(blocks)
    decreases |blocks|
  {
    if n == |blocks| {
      assert blocks[..n] == blocks;
    } else {
      var m := |blocks| - 1;
      HistoryPrefix(blocks[..m], n);
      assert blocks[..m][..n] == blocks[..n];
    }
  }

  lemma BeforeMonotone(blocks: Blocks, n: nat, m: nat)
    requires n <= m <= |blocks|
    ensures Before(blocks, n) <= Before(blocks, m)
  {
    HistoryPrefix(blocks[..m], n);
    assert blocks[..m][..n] == blocks[..n];
  }

  /** A transaction's block number says on which side of a block boundary it falls, and its anchor is real. */
  lemma {:induction false} HistoryPosition(blocks: Blocks, i: nat)
    requires i < |History(blocks)|
    ensures var t := History(blocks)[i];
            && t.number < |blocks| && t.blockHash == blocks[t.number].hash
            && t.timestamp == blocks[t.number].timestamp
            && t.txIndex < |blocks[t.number].txs| && t.tx == blocks[t.number].txs[t.txIndex]
            && i == Before(blocks, t.number) + t.txIndex
    decreases |blocks|
  {
    var n := |blocks| - 1;
    var front := History(blocks[..n]);
    if i < |front| {
      HistoryPosition(blocks[..n], i);
      var t := front[i];
      assert blocks[..n][..t.number] == blocks[..t.number];
    }
  }

  /** Positions are ordered like (block number, position in block). */
  lemma PositionOrder(blocks: Blocks, i: nat, j: nat)
    requires i < |History(blocks)| && j < |History(blocks)|
    ensures var s, t := History(blocks)[i], History(blocks)[j];
            i < j <==> s.number < t.number || (s.number == t.number && s.txIndex < t.txIndex)
  {
    HistoryPosition(blocks, i);
    HistoryPosition(blocks, j);
    var s, t := History(blocks)[i], History(blocks)[j];
    if s.number < t.number {
      NextBlock(blocks, s.number);
      BeforeMonotone(blocks, s.number + 1, t.number);
    } else if t.number < s.number {
      NextBlock(blocks, t.number);
      BeforeMonotone(blocks, t.number + 1, s.number);
    }
  }

  lemma NextBlock(blocks: Blocks, n: nat)
    requires n < |blocks|
    ensures Before(blocks, n + 1) == Before(blocks, n) + |blocks[n].txs|
  {
    assert blocks[..n + 1][..n] == blocks[..n];
  }

  lemma BlockSide(blocks: Blocks, i: nat, n: nat)
    requires i < |History(blocks)| && n <= |blocks|
    ensures History(blocks)[i].number < n <==> i < Before(blocks, n)
  {
    HistoryPosition(blocks, i);
    var t := History(blocks)[i];
    if t.number < n {
      NextBlock(blocks, t.number);
      BeforeMonotone(blocks, t.number + 1, n);
    } else {
      BeforeMonotone(blocks, n, t.number);
    }
  }

  // ----- what the chain guarantees

  predicate Creates(t: TxAt, op: OutPoint) {
    t.tx.hash == op.txHash && op.index < |t.tx.outputs|
  }

  ghost predicate DistinctHashes(h: Txs) {
    forall i, j :: 0 <= i < j < |h| ==> h[i].tx.hash != h[j].tx.hash
  }

  /** A cell is created strictly before it is consumed. */
  ghost predicate CreatedFirst(h: Txs) {
    forall i, j, k :: 0 <= i < |h| && 0 <= j < |h| && 0 <= k < |h[j].tx.inputs| && Creates(h[i], h[j].tx.inputs[k])
      ==> i < j
  }

  ghost predicate SameInput(h: Txs, j: nat, k: nat, j': nat, k': nat)
    requires j < |h| && j' < |h| && k < |h[j].tx.inputs| && k' < |h[j'].tx.inputs|
  {
    h[j].tx.inputs[k] == h[j'].tx.inputs[k']
  }

  /** A cell is consumed at most once. (Inputs that name no cell, as a cellbase has, are not restricted.) */
  ghost predicate ConsumedOnce(h: Txs) {
    forall i: nat, j: nat, k: nat, j': nat, k': nat ::
      i < |h| && j < |h| && j' < |h| && k < |h[j].tx.inputs| && k' < |h[j'].tx.inputs|
      && Creates(h[i], h[j].tx.inputs[k]) && SameInput(h, j, k, j', k')
      ==> j == j' && k == k'
  }

  ghost predicate WellFormed(h: Txs) {
    DistinctHashes(h) && CreatedFirst(h) && ConsumedOnce(h)
  }

  lemma CreatorFirst(h: Txs, i: nat, j: nat, k: nat)
    requires WellFormed(h) && i < |h| && j < |h| && k < |h[j].tx.inputs| && Creates(h[i], h[j].tx.inputs[k])
    ensures i < j
  {
  }

  lemma OneConsumer(h: Txs, i: nat, j: nat, k: nat, j': nat, k': nat)
    requires WellFormed(h) && i < |h| && j < |h| && j' < |h|
    requires k < |h[j].tx.inputs| && k' < |h[j'].tx.inputs|
    requires Creates(h[i], h[j].tx.inputs[k]) && h[j].tx.inputs[k] == h[j'].tx.inputs[k']
    ensures j == j' && k == k'
  {
    assert SameInput(h, j, k, j', k');
  }

  lemma OneCreator(h: Txs, i: nat, j: nat)
    requires WellFormed(h) && i < |h| && j < |h| && h[i].tx.hash == h[j].tx.hash
    ensures i == j
  {
  }

  lemma WellFormedPrefix(h: Txs, n: nat)
    requires WellFormed(h) && n <= |h|
    ensures WellFormed(h[..n])
  {
    var p := h[..n];
    forall i: nat, j: nat, k: nat, j': nat, k': nat |
      i < |p| && j < |p| && j' < |p| && k < |p[j].tx.inputs| && k' < |p[j'].tx.inputs|
      && Creates(p[i], p[j].tx.inputs[k]) && SameInput(p, j, k, j', k')
      ensures j == j' && k == k'
    {
      assert Creates(h[i], h[j].tx.inputs[k]) && SameInput(h, j, k, j', k');
    }
  }

  // ----- lookups

  /** The position of the transaction with this hash: the node's `get_transaction`. */
  function FindTx(h: Txs, hash: H256): (r: Option<nat>)
    ensures r.Some? ==> r.value < |h| && h[r.value].tx.hash == hash
    ensures r.None? ==> forall i :: 0 <= i < |h| ==> h[i].tx.hash != hash
  {
    if h == [] then None
    else if h[|h| - 1].tx.hash == hash then Some(|h| - 1)
    else FindTx(h[..|h| - 1], hash)
  }

  /** The position of the transaction that created this cell. */
  function Source(h: Txs, op: OutPoint): (r: Option<nat>)
    ensures r.Some? ==> r.value < |h| && Creates(h[r.value], op)
  {
    match FindTx(h, op.txHash)
    case None => None
    case Some(i) => if op.index < |h[i].tx.outputs| then Some(i) else None
  }

  lemma SourceExact(h: Txs, op: OutPoint, i: nat)
    requires DistinctHashes(h)
    ensures Source(h, op) == Some(i) <==> i < |h| && Creates(h[i], op)
  {
  }

  function OutputOf(h: Txs, op: OutPoint): CellOutput
    requires Source(h, op).Some?
  {
    h[Source(h, op).value].tx.outputs[op.index]
  }

  /** `outputs_data.get(i).cloned().unwrap_or_default()` */
  function DataAt(tx: Tx, i: nat): Bytes {
    if i < |tx.outputsData| then tx.outputsData[i] else []
  }

  /** What a transaction consumes was created before it, so looking back from it is enough. */
  lemma SourceBefore(h: Txs, p: nat, k: nat)
    requires WellFormed(h) && p < |h| && k < |h[p].tx.inputs|
    ensures Source(h[..p], h[p].tx.inputs[k]) == Source(h, h[p].tx.inputs[k])
  {
    var op := h[p].tx.inputs[k];
    WellFormedPrefix(h, p);
    if Source(h, op).Some? {
      var i := Source(h, op).value;
      assert i < p;
      SourceExact(h[..p], op, i);
    } else if Source(h[..p], op).Some? {
      SourceExact(h, op, Source(h[..p], op).value);
    }
  }

  function FindInput(inputs: seq<OutPoint>, op: OutPoint): (r: Option<nat>)
    ensures r.Some? ==> r.value < |inputs| && inputs[r.value] == op
    ensures r.None? ==> op !in inputs
  {
    if inputs == [] then None
    else if inputs[|inputs| - 1] == op then Some(|inputs| - 1)
    else FindInput(inputs[..|inputs| - 1], op)
  }

  datatype InputAt = InputAt(pos: nat, index: nat)

  /** Where, from position `lo` on, the cell is consumed. */
  function Consumer(h: Txs, lo: nat, op: OutPoint): (r: Option<InputAt>)
    ensures r.Some? ==> lo <= r.value.pos < |h| && r.value.index < |h[r.value.pos].tx.inputs|
                        && h[r.value.pos].tx.inputs[r.value.index] == op
    ensures r.None? ==> forall j :: lo <= j < |h| ==> op !in h[j].tx.inputs
  {
    if |h| <= lo then None
    else
      var n := |h| - 1;
      match FindInput(h[n].tx.inputs, op)
      case Some(k) => Some(InputAt(n, k))
      case None => Consumer(h[..n], lo, op)
  }
}
