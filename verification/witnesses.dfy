/**
 Chains on which the scanner falls short of what its comments promise: one transaction that creates cells
 under both locks, and one that consumes them, somewhere in an otherwise empty chain.
 */
module Witnesses {
  import opened Wrappers
  import opened ByteStrings
  import opened Ckb
  import opened Molecule
  import opened Protocol
  import opened Commitment
  import opened Chain
  import opened Matching
  import opened Extract
  import opened Resolve
  import opened Tables
  import opened Index
  import opened Rounds
  import opened Scan
  import opened Loss
  import opened InputOrder

  // ----- cells

  const TIME: BtcTimeLockArgs := BtcTimeLockArgs(Script(Zeros(32), Data, []), 0, Zeros(32))

  function TimeCell(protocol: ProtocolScripts): CellOutput {
    CellOutput(0, Script(protocol.btcTimeLock.codeHash, protocol.btcTimeLock.hashType, EncodeBtcTime(TIME)), None)
  }

  function RgbppCell(protocol: ProtocolScripts): CellOutput {
    SealCell(protocol.rgbppLock.codeHash, protocol.rgbppLock.hashType)
  }

  /** Under the RGB++ lock, with args that do not parse. */
  function BrokenCell(protocol: ProtocolScripts): CellOutput {
    CellOutput(0, Script(protocol.rgbppLock.codeHash, protocol.rgbppLock.hashType, []), None)
  }

  lemma TimeParses()
    ensures ParseBtcTime(EncodeBtcTime(TIME)) == Ok(TIME)
  {
    hide LeBytes, EncodeScript, ParseBtcTime;
    var fields := BtcTimeHead(TIME) + [ToInternalBytes(TIME.txid)];
    TableLength(fields);
    ScriptLength(TIME.targetLock);
    Totals(fields);
    BtcTimeArgsExact(EncodeBtcTime(TIME), TIME);
  }

  // ----- the two transactions

  const FIRST: H256 := Zeros(32)
  const SECOND: H256 := Zeros(31) + [1]

  /** Creates these cells. */
  function Creator(outputs: Outputs): Tx {
    Tx(FIRST, [], outputs, [])
  }

  /** Consumes them in order. */
  function Spender(n: nat): Tx
    requires n <= U32
  {
    Tx(SECOND, seq(n, i requires 0 <= i < n => OutPoint(FIRST, i)), [], [])
  }

  lemma TwoAreWellFormed(h: Txs, outputs: Outputs)
    requires |h| == 2 && h[0].tx == Creator(outputs) && h[1].tx == Spender(|outputs|)
    ensures WellFormed(h) && forall i :: 0 <= i < |outputs| ==> Source(h[..1], OutPoint(FIRST, i)) == Some(0)
  {
    assert FIRST[31] != SECOND[31];
    forall i: nat, j: nat, k: nat, j': nat, k': nat |
      i < |h| && j < |h| && j' < |h| && k < |h[j].tx.inputs| && k' < |h[j'].tx.inputs|
      && Creates(h[i], h[j].tx.inputs[k]) && SameInput(h, j, k, j', k')
      ensures j == j' && k == k'
    {
      assert j == 1 && j' == 1;
    }
  }

  lemma OneIsWellFormed(h: Txs, outputs: Outputs)
    requires |h| == 1 && h[0].tx == Creator(outputs)
    ensures WellFormed(h)
  {
  }

  // ----- out of order

  /**
   A transaction that consumes a BTC time cell and then an RGB++ cell, both readable: its recorded
   commitment covers them the other way round, and so is not the one promised.
   */
  lemma OutOfOrder(rules: Rules) returns (before: Txs, t: TxAt)
    requires rules.protocol.rgbppLock != rules.protocol.btcTimeLock
    ensures WellFormed(before + [t]) && Readable(rules, before, t) && InputsOf(rules, before, t) != []
    ensures MatchedInputs(rules.protocol, before, t.tx) == [1, 0] && !RgbppFirst(rules.protocol, before, t.tx)
    ensures var outputs := ReadableOutputs(rules.protocol, t.tx, |t.tx.outputs|);
            var recorded := ExpectedPreimage(InputsOf(rules, before, t), outputs);
            var promised := ExpectedPreimage(InTransactionOrder(rules, before, t), outputs);
            recorded.Some? && promised.Some? && Preimage(recorded.value) != Preimage(promised.value)
  {
    hide WellFormed, Source, ReadOutput, MatchedInputs, PositionsOf, EncodeBtcTime, Preimage,
         ExpectedPreimage, InTransactionOrder, ReadableOutputs;
    var outputs := [TimeCell(rules.protocol), RgbppCell(rules.protocol)];
    before := [TxAt(Creator(outputs), 0, Zeros(32), 0, 0)];
    t := TxAt(Spender(2), 0, Zeros(32), 0, 1);
    var h := before + [t];
    TwoAreWellFormed(h, outputs);
    assert h[..1] == before;
    BothReadable(rules, before[0].tx);
    assert InputKind(rules.protocol, before, t.tx.inputs[0]) == Some(BtcTime);
    assert InputKind(rules.protocol, before, t.tx.inputs[1]) == Some(Rgbpp);
    SearchOrder(rules.protocol, before, t.tx);
    TwoPositions(rules.protocol, before, t.tx);
    assert Readable(rules, before, t);
    assert |InputsOf(rules, before, t)| == 2;
    CommitsInOrderExactly(rules, before, t);
  }

  lemma BothReadable(rules: Rules, tx: Tx)
    requires rules.protocol.rgbppLock != rules.protocol.btcTimeLock
    requires tx == Creator([TimeCell(rules.protocol), RgbppCell(rules.protocol)])
    ensures ReadOutput(rules.protocol, tx, 0).Some? && ReadOutput(rules.protocol, tx, 1).Some?
  {
    hide ParseBtcTime, ParseRgbpp, EncodeBtcTime;
    TimeParses();
    SealArgs();
  }

  lemma TwoPositions(protocol: ProtocolScripts, h: Txs, tx: Tx)
    requires |tx.inputs| == 2
    requires InputKind(protocol, h, tx.inputs[0]) == Some(BtcTime) && InputKind(protocol, h, tx.inputs[1]) == Some(Rgbpp)
    ensures PositionsOf(protocol, {Rgbpp}, h, tx, 2) == [1] && PositionsOf(protocol, {BtcTime}, h, tx, 2) == [0]
    ensures PositionsOf(protocol, {Rgbpp, BtcTime}, h, tx, 2) == [0, 1]
  {
    hide InputKind;
    assert PositionsOf(protocol, {Rgbpp}, h, tx, 0) == [] && PositionsOf(protocol, {BtcTime}, h, tx, 0) == [];
    assert PositionsOf(protocol, {Rgbpp}, h, tx, 1) == [] && PositionsOf(protocol, {BtcTime}, h, tx, 1) == [0];
    assert PositionsOf(protocol, {Rgbpp, BtcTime}, h, tx, 0) == [];
    assert PositionsOf(protocol, {Rgbpp, BtcTime}, h, tx, 1) == [0];
  }

  // ----- one busy block in an otherwise empty chain

  function BlockAt(n: nat, txs: seq<Tx>): Block {
    Block(LeBytes(n, 32), LeBytes(n, 32), 0, txs)
  }

  function EmptyBlocks(n: nat): (blocks: Blocks)
    ensures |blocks| == n
  {
    seq(n, i requires 0 <= i < n => BlockAt(i, []))
  }

  /** `front` empty blocks, the busy one, and `back` more empty ones. */
  function BusyChain(front: nat, txs: seq<Tx>, back: nat): (blocks: Blocks)
    ensures |blocks| == front + 1 + back
  {
    seq(front + 1 + back, i requires 0 <= i < front + 1 + back => BlockAt(i, if i == front then txs else []))
  }

  lemma {:induction false} NoHistory(n: nat)
    ensures History(EmptyBlocks(n)) == []
  {
    hide LeBytes;
    if n > 0 {
      NoHistory(n - 1);
      assert EmptyBlocks(n)[..n - 1] == EmptyBlocks(n - 1);
    }
  }

  lemma BusyAt(front: nat, txs: seq<Tx>, back: nat, n: nat)
    requires n < front + 1 + back
    ensures BusyChain(front, txs, back)[n] == BlockAt(n, if n == front then txs else [])
  {
  }

  lemma NoTxs(block: Block, n: nat)
    requires block.txs == []
    ensures BlockTxs(block, n) == []
  {
  }

  lemma {:induction false} BusyHistory(front: nat, txs: seq<Tx>, back: nat)
    ensures History(BusyChain(front, txs, back)) == BlockTxs(BlockAt(front, txs), front)
    decreases back
  {
    hide LeBytes;
    var blocks := BusyChain(front, txs, back);
    var n := |blocks| - 1;
    if back == 0 {
      NoHistory(front);
      assert blocks[..n] == EmptyBlocks(front);
    } else {
      BusyHistory(front, txs, back - 1);
      assert blocks[..n] == BusyChain(front, txs, back - 1);
      BusyAt(front, txs, back, n);
      NoTxs(blocks[n], n);
    }
  }

  lemma BusyBefore(front: nat, txs: seq<Tx>, back: nat, n: nat)
    requires n <= front + 1 + back
    ensures Before(BusyChain(front, txs, back), n) == if n <= front then 0 else |txs|
  {
    hide LeBytes, History;
    var blocks := BusyChain(front, txs, back);
    if n <= front {
      NoHistory(n);
      assert blocks[..n] == EmptyBlocks(n);
    } else {
      BusyHistory(front, txs, n - front - 1);
      assert blocks[..n] == BusyChain(front, txs, n - front - 1);
    }
  }

  lemma CreatorIsLoud(rules: Rules, h: Txs)
    requires |h| == 1 && h[0].tx == Creator([RgbppCell(rules.protocol)])
    ensures !Silent(rules, h, 0)
  {
    hide MatchedInputs, ParseRgbpp;
    SealArgs();
    var tx := h[0].tx;
    assert ReadOutput(rules.protocol, tx, 0).Some?;
    ReadableOutputsExact(rules.protocol, tx, 1);
  }

  // ----- blocks the indexer had not populated

  /**
   Whatever the configuration: an indexer that reports no tip and has populated nothing, a block that
   creates a readable RGB++ cell, and a first round that commits past it. The cell is lost.
   */
  lemma LostToSilence(cfg: ScanConfig) returns (view: View)
    requires cfg.Valid()
    ensures view.Valid() && WellFormed(History(view.blocks)) && view.indexerTip.None?
    ensures Commits(cfg, FRESH, view)
    ensures var r := Round(cfg, FRESH, view);
            r.outcome.to < |view.blocks| && !IndexOf(cfg, view.blocks[..r.outcome.to + 1], r.committed)
  {
    hide LeBytes, Round, IsIndex, Silent, History, RightExactly, OnChain, Before;
    var first, txs := cfg.FirstBlock(), [Creator([RgbppCell(cfg.rules.protocol)])];
    var blocks := BusyChain(first, txs, cfg.reorgLag);
    view := View(blocks, None, 0);
    BusyHistory(first, txs, cfg.reorgLag);
    OneIsWellFormed(History(blocks), [RgbppCell(cfg.rules.protocol)]);
    SilentIndexerSkipsBlocks(cfg, FRESH, view);
    var r := Round(cfg, FRESH, view);
    CommitRange(cfg, FRESH, view);
    FreshOnChain(cfg, blocks);
    CommitIsRightExactly(cfg, FRESH, view, r);
    FirstRange(cfg, view, r);
    BusyBefore(first, txs, cfg.reorgLag, first);
    BusyBefore(first, txs, cfg.reorgLag, first + 1);
    CreatorIsLoud(cfg.rules, History(blocks));
    NotRight(cfg, view, r.committed, first, 0);
  }

  lemma FreshOnChain(cfg: ScanConfig, blocks: Blocks)
    ensures OnChain(cfg, FRESH, blocks) && Initialised(cfg, FRESH).state.value.lastBlockNumber == cfg.FirstBlock() - 1
  {
  }

  /** With a target at the first block, the first round covers that block alone. */
  lemma FirstRange(cfg: ScanConfig, view: View, r: RoundResult)
    requires cfg.Valid() && view.Valid() && r == Round(cfg, FRESH, view) && r.outcome.Committed?
    requires cfg.SafeTarget(view.SyncedTip()) == Some(cfg.FirstBlock())
    ensures r.outcome.from == r.outcome.to == cfg.FirstBlock()
  {
    hide Round, BuildBatch, CellsAfter, InsertTransitions;
    CommitRange(cfg, FRESH, view);
  }

  lemma NotRight(cfg: ScanConfig, view: View, db: Db, n: nat, p: nat)
    requires RightExactly(cfg, view, db, n, n) && n >= view.populated
    requires Before(view.blocks, n) <= p < Before(view.blocks, n + 1) && p < |History(view.blocks)|
    requires !Silent(cfg.rules, History(view.blocks), p)
    ensures !IndexOf(cfg, view.blocks[..n + 1], db)
  {
    hide Silent, IndexOf, History, AtEnd;
  }

  // ----- block 0

  /** A start of 0, and a block 0 that creates a readable RGB++ cell: the first round commits without it. */
  lemma BlockZeroIsMissed(cfg: ScanConfig) returns (view: View)
    requires cfg.Valid() && cfg.startBlock == 0
    ensures Serves(view) && Commits(cfg, FRESH, view)
    ensures var r := Round(cfg, FRESH, view);
            r.outcome.to < |view.blocks|
            && IndexOf(cfg, view.blocks[..r.outcome.to + 1], r.committed)
            && !IsIndex(cfg.rules, History(view.blocks[..r.outcome.to + 1]), 0, r.committed.cells, r.committed.transitions)
  {
    hide LeBytes, Round, IsIndex, Silent, History, OnChain, Before, Readable, ReadableRange, BuildBatch;
    var txs := [Creator([RgbppCell(cfg.rules.protocol)])];
    var blocks := BusyChain(0, txs, cfg.reorgLag + 1);
    view := View(blocks, None, |blocks|);
    BusyHistory(0, txs, cfg.reorgLag + 1);
    OneIsWellFormed(History(blocks), [RgbppCell(cfg.rules.protocol)]);
    FreshOnChain(cfg, blocks);
    BusyBefore(0, txs, cfg.reorgLag + 1, 1);
    BusyBefore(0, txs, cfg.reorgLag + 1, 2);
    NothingToRead(cfg.rules, History(blocks), 1);
    RoundCommits(cfg, FRESH, view);
    CommitExtends(cfg, FRESH, view);
    var r := Round(cfg, FRESH, view);
    FirstRange(cfg, view, r);
    var prefix := blocks[..2];
    assert prefix == BusyChain(0, txs, 1);
    BusyHistory(0, txs, 1);
    BusyBefore(0, txs, 1, 1);
    OneIsWellFormed(History(prefix), [RgbppCell(cfg.rules.protocol)]);
    CreatorIsLoud(cfg.rules, History(prefix));
    StartAtZeroExactly(cfg, prefix, r.committed);
  }

  lemma NothingToRead(rules: Rules, h: Txs, n: nat)
    ensures ReadableRange(rules, h, n, n)
  {
    hide Readable;
  }

  // ----- a consumed cell that cannot be read

  /** A cell under the RGB++ lock with empty args, and its consumption: the round over them fails. */
  lemma UnreadableFails(cfg: ScanConfig) returns (view: View)
    requires cfg.Valid()
    ensures Serves(view) && Round(cfg, FRESH, view).outcome.Failed?
  {
    hide LeBytes, Round, IsIndex, History, OnChain, Before, Readable, ReadableRange, BuildBatch;
    var first, outputs := cfg.FirstBlock(), [BrokenCell(cfg.rules.protocol)];
    var txs := [Creator(outputs), Spender(1)];
    var blocks := BusyChain(first, txs, cfg.reorgLag);
    view := View(blocks, None, |blocks|);
    BusyHistory(first, txs, cfg.reorgLag);
    var h := History(blocks);
    TwoAreWellFormed(h, outputs);
    FreshOnChain(cfg, blocks);
    BusyBefore(first, txs, cfg.reorgLag, first);
    BusyBefore(first, txs, cfg.reorgLag, first + 1);
    SpenderIsUnreadable(cfg.rules, h);
    UnreadableRange(cfg.rules, h, 0, 2, 1);
    RoundCommits(cfg, FRESH, view);
    NotIdle(cfg, view);
  }

  lemma SpenderIsUnreadable(rules: Rules, h: Txs)
    requires |h| == 2 && h[0].tx == Creator([BrokenCell(rules.protocol)]) && h[1].tx == Spender(1)
    requires Source(h[..1], OutPoint(FIRST, 0)) == Some(0)
    ensures !Readable(rules, h[..1], h[1])
  {
    hide MatchedInputs, Source;
    MatchedInputsExact(rules.protocol, h[..1], h[1].tx);
    assert h[1].tx.inputs[0] == OutPoint(FIRST, 0);
    assert 0 in MatchedInputs(rules.protocol, h[..1], h[1].tx);
    assert OutputAt(rules, h[..1], OutPoint(FIRST, 0)).None?;
  }

  lemma UnreadableRange(rules: Rules, h: Txs, a: nat, b: nat, p: nat)
    requires a <= p < b <= |h| && !Readable(rules, h[..p], h[p])
    ensures !ReadableRange(rules, h, a, b)
  {
    hide Readable;
  }

  lemma NotIdle(cfg: ScanConfig, view: View)
    requires cfg.Valid() && view.Valid() && !Commits(cfg, FRESH, view)
    requires cfg.SafeTarget(view.SyncedTip()) == Some(cfg.FirstBlock())
    ensures Round(cfg, FRESH, view).outcome.Failed?
  {
    hide BuildBatch, Applied, Pruned, CheckCanonical;
  }
}
