/**
 What the rows of the cell table say, column by column, over the blocks themselves and the byte layouts
 (crates/indexer/src/extract.rs `build_new_cell`, migrations/0001_init.sql). None of the functions that
 build or resolve rows appears in these statements.
 */
module Columns {
  import opened Wrappers
  import opened ByteStrings
  import opened Ckb
  import opened Layout
  import opened Molecule
  import opened Protocol
  import opened Rows
  import opened Chain
  import opened Extract
  import opened Tables
  import opened Index
  import opened Scan
  import opened Growth

  // ----- the protocol surface, read off the locks

  predicate IsSealLock(protocol: ProtocolScripts, lock: Script) {
    lock.codeHash == protocol.rgbppLock.codeHash && lock.hashType == protocol.rgbppLock.hashType
  }

  predicate IsTimeLock(protocol: ProtocolScripts, lock: Script) {
    && lock.codeHash == protocol.btcTimeLock.codeHash && lock.hashType == protocol.btcTimeLock.hashType
    && !IsSealLock(protocol, lock)
  }

  ghost predicate IsTimeArgs(args: Bytes) {
    |args| < 0x1_0000_0000 && exists target: Script, after: u32, txid: H256 :: args == TimeArgsBytes(target, after, txid)
  }

  /** An output the index keeps: under one of the two locks, with args of the lock's shape. */
  ghost predicate Kept(protocol: ProtocolScripts, lock: Script) {
    (IsSealLock(protocol, lock) && |lock.args| == 36) || (IsTimeLock(protocol, lock) && IsTimeArgs(lock.args))
  }

  lemma ClassifyIs(protocol: ProtocolScripts, lock: Script)
    ensures protocol.Classify(lock) == Some(Rgbpp) <==> IsSealLock(protocol, lock)
    ensures protocol.Classify(lock) == Some(BtcTime) <==> IsTimeLock(protocol, lock)
  {
  }

  lemma SealArgsIs(args: Bytes)
    ensures ParseRgbpp(args).Ok? <==> |args| == 36
    ensures ParseRgbpp(args).Ok? ==> args == SealArgsBytes(ParseRgbpp(args).value.outIndex, ParseRgbpp(args).value.txid)
  {
    if ParseRgbpp(args).Ok? {
      SealParsesExactly(args, ParseRgbpp(args).value);
    }
  }

  lemma TimeArgsIs(args: Bytes)
    ensures ParseBtcTime(args).Ok? <==> IsTimeArgs(args)
    ensures ParseBtcTime(args).Ok? ==>
              var a := ParseBtcTime(args).value; args == TimeArgsBytes(a.targetLock, a.after, a.txid)
  {
    hide ParseBtcTime, TimeArgsBytes;
    if ParseBtcTime(args).Ok? {
      TimeParsesExactly(args, ParseBtcTime(args).value);
    }
    if IsTimeArgs(args) {
      var target: Script, after: u32, txid: H256 :| args == TimeArgsBytes(target, after, txid);
      TimeParsesExactly(args, BtcTimeLockArgs(target, after, txid));
    }
  }

  /** Which outputs are kept, and how their bindings read. */
  lemma KeptExactly(protocol: ProtocolScripts, tx: Tx, o: nat)
    requires o < |tx.outputs|
    ensures ReadOutput(protocol, tx, o).Some? <==> Kept(protocol, tx.outputs[o].lock)
    ensures ReadOutput(protocol, tx, o).Some? ==>
              var output, args := ReadOutput(protocol, tx, o).value, tx.outputs[o].lock.args;
              && output.index == o && output.cell == tx.outputs[o]
              && output.data == (if o < |tx.outputsData| then tx.outputsData[o] else [])
              && (IsSealLock(protocol, tx.outputs[o].lock) ==>
                    output.binding.RgbppBinding?
                    && args == SealArgsBytes(output.binding.rgbpp.outIndex, output.binding.rgbpp.txid))
              && (IsTimeLock(protocol, tx.outputs[o].lock) ==>
                    output.binding.BtcTimeBinding?
                    && var a := output.binding.btcTime; args == TimeArgsBytes(a.targetLock, a.after, a.txid))
  {
    hide ParseRgbpp, ParseBtcTime, IsTimeArgs, SealArgsBytes, TimeArgsBytes;
    ClassifyIs(protocol, tx.outputs[o].lock);
    SealArgsIs(tx.outputs[o].lock.args);
    TimeArgsIs(tx.outputs[o].lock.args);
  }

  // ----- the columns of a cell

  function HashTypeText(t: ScriptHashType): string {
    if t == Data then "data" else if t == Type then "type" else if t == Data1 then "data1" else "data2"
  }

  function JsonOf(s: Script): ScriptJson {
    ScriptJson(Some(HexText(s.codeHash)), Some(HashTypeText(s.hashType)), Some(HexText(s.args)))
  }

  predicate SealColumns(cell: NewCell, args: Bytes) {
    && cell.lockKind == Rgbpp
    && cell.btcVout.Some? && args == SealArgsBytes(cell.btcVout.value % 0x1_0000_0000, cell.btcTxid)
    && cell.btcTimeAfter.None? && cell.targetLockHash.None? && cell.targetLock.None?
  }

  ghost predicate TimeColumns(blake: Hash, cell: NewCell, args: Bytes) {
    && cell.lockKind == BtcTime
    && cell.btcVout.None? && cell.btcTimeAfter.Some?
    && exists target: Script ::
         && args == TimeArgsBytes(target, cell.btcTimeAfter.value % 0x1_0000_0000, cell.btcTxid)
         && cell.targetLockHash == Some(blake(ScriptBytes(target))) && cell.targetLock == Some(JsonOf(target))
  }

  predicate Listed(ids: seq<ScriptId>, s: Script) {
    exists i :: 0 <= i < |ids| && ids[i].codeHash == s.codeHash && ids[i].hashType == s.hashType
  }

  predicate AssetColumns(assets: AssetScripts, blake: Hash, cell: NewCell, type_: Option<Script>) {
    && (type_.None? ==> cell.assetKind == Plain && cell.typeHash.None? && cell.typeScript.None?)
    && (type_.Some? ==>
          var t := type_.value;
          && cell.typeHash == Some(blake(ScriptBytes(t))) && cell.typeScript == Some(JsonOf(t))
          && (cell.assetKind == Xudt <==> Listed(assets.xudt, t))
          && (cell.assetKind == Sudt <==> Listed(assets.sudt, t) && !Listed(assets.xudt, t))
          && (cell.assetKind == Spore <==> Listed(assets.spore, t) && !Listed(assets.xudt, t) && !Listed(assets.sudt, t))
          && (cell.assetKind == SporeCluster <==>
                Listed(assets.sporeCluster, t) && !Listed(assets.xudt, t) && !Listed(assets.sudt, t) && !Listed(assets.spore, t))
          && cell.assetKind != Plain)
  }

  /** `n` in 16 bytes, its low half first. */
  predicate InHalves(s: Bytes, n: nat, low: u64, high: u64) {
    s == U64Bytes(low) + U64Bytes(high) && n == low + high * 0x1_0000_0000_0000_0000
  }

  /** The first 16 bytes of a fungible cell's data as one number. */
  ghost predicate AmountColumn(cell: NewCell, data: Bytes) {
    && (cell.udtAmount.Some? <==> (cell.assetKind == Xudt || cell.assetKind == Sudt) && |data| >= 16)
    && (cell.udtAmount.Some? ==>
          exists low: u64, high: u64 :: InHalves(data[..16], cell.udtAmount.value, low, high))
  }

  /** Every column that describes the cell, from the output and its data. */
  ghost predicate CellColumns(rules: Rules, cell: NewCell, output: CellOutput, data: Bytes) {
    && (IsSealLock(rules.protocol, output.lock) ==> SealColumns(cell, output.lock.args))
    && (IsTimeLock(rules.protocol, output.lock) ==> TimeColumns(rules.blake, cell, output.lock.args))
    && cell.lockHash == rules.blake(ScriptBytes(output.lock)) && cell.lockArgs == output.lock.args
    && AssetColumns(rules.assets, rules.blake, cell, output.type_)
    && AmountColumn(cell, data)
    && cell.capacity % 0x1_0000_0000_0000_0000 == output.capacity
    && cell.cellData == data
  }

  lemma JsonIs(s: Script)
    ensures ScriptToJson(s) == JsonOf(s)
  {
    HexIs(s.codeHash);
    HexIs(s.args);
  }

  lemma OneByteMore(a: Bytes)
    requires a != []
    ensures FromLe(a) == a[0] + 256 * FromLe(a[1..]) && Pow256(|a|) == 256 * Pow256(|a| - 1)
  {
  }

  lemma Times256(p: nat, x: nat)
    ensures 256 * (p * x) == 256 * p * x
  {
  }

  lemma {:induction false} FromLeSplits(a: Bytes, b: Bytes)
    ensures FromLe(a + b) == FromLe(a) + Pow256(|a|) * FromLe(b)
  {
    hide FromLe, Pow256;
    if a == [] {
      assert a + b == b;
      NoBytes();
    } else {
      assert (a + b)[1..] == a[1..] + b;
      OneByteMore(a);
      OneByteMore(a + b);
      FromLeSplits(a[1..], b);
      Times256(Pow256(|a| - 1), FromLe(b));
    }
  }

  lemma NoBytes()
    ensures FromLe([]) == 0 && Pow256(0) == 1
  {
  }

  lemma EightBytes(s: Bytes)
    requires |s| == 8
    ensures FromLe(s) < 0x1_0000_0000_0000_0000 && s == U64Bytes(FromLe(s))
  {
    hide FromLe, U64Bytes, LeBytes, Pow256;
    LeEncodes(s);
    Pow256Values();
    Le8(FromLe(s));
  }

  lemma Joined(a: Bytes, b: Bytes)
    requires |a| == 8
    ensures FromLe(a + b) == FromLe(a) + FromLe(b) * 0x1_0000_0000_0000_0000
  {
    hide FromLe, Pow256;
    FromLeSplits(a, b);
    Pow256Values();
  }

  lemma AmountIs(s: Bytes)
    requires |s| == 16
    ensures exists low: u64, high: u64 :: InHalves(s, FromLe(s), low, high)
  {
    hide FromLe, U64Bytes;
    var a, b := s[..8], s[8..];
    assert s == a + b;
    Joined(a, b);
    EightBytes(a);
    EightBytes(b);
    assert InHalves(s, FromLe(s), FromLe(a), FromLe(b));
  }

  lemma AmountColumnIs(kind: AssetKind, data: Bytes, cell: NewCell)
    requires cell.assetKind == kind && cell.udtAmount == FungibleAmount(kind, data)
    ensures AmountColumn(cell, data)
  {
    hide FromLe, InHalves;
    if |data| >= 16 {
      AmountIs(data[..16]);
      assert data[0..16] == data[..16];
    }
  }

  lemma AssetColumnsIs(rules: Rules, txHash: H256, output: RgbppOutput, created: Anchor)
    ensures AssetColumns(rules.assets, rules.blake, BuildNewCell(rules, txHash, output, created), output.cell.type_)
  {
    hide ScriptToJson, JsonOf, EncodeScript, ScriptBytes, FungibleAmount;
    if output.cell.type_.Some? {
      ScriptIs(output.cell.type_.value);
      JsonIs(output.cell.type_.value);
      var t := output.cell.type_.value;
      ListedIs(rules.assets.xudt, t);
      ListedIs(rules.assets.sudt, t);
      ListedIs(rules.assets.spore, t);
      ListedIs(rules.assets.sporeCluster, t);
    }
  }

  lemma ListedIs(ids: seq<ScriptId>, s: Script)
    ensures AnyMatches(ids, s) <==> Listed(ids, s)
  {
  }

  /** A row built from a kept output has the columns its output asks for. */
  lemma BuiltColumns(rules: Rules, tx: Tx, o: nat, created: Anchor)
    requires o < |tx.outputs| && ReadOutput(rules.protocol, tx, o).Some?
    ensures var cell := BuildNewCell(rules, tx.hash, ReadOutput(rules.protocol, tx, o).value, created);
            && CellColumns(rules, cell, tx.outputs[o], if o < |tx.outputsData| then tx.outputsData[o] else [])
            && cell.created == created
  {
    hide ScriptToJson, JsonOf, EncodeScript, ScriptBytes, FungibleAmount, AssetColumns, AmountColumn, SealArgsBytes, TimeArgsBytes,
         ReadOutput;
    var output := ReadOutput(rules.protocol, tx, o).value;
    var cell := BuildNewCell(rules, tx.hash, output, created);
    KeptExactly(rules.protocol, tx, o);
    ScriptIs(output.cell.lock);
    AssetColumnsIs(rules, tx.hash, output, created);
    AmountColumnIs(cell.assetKind, output.data, cell);
    if output.binding.BtcTimeBinding? {
      ScriptIs(output.binding.btcTime.targetLock);
      JsonIs(output.binding.btcTime.targetLock);
      assert cell.btcTimeAfter.value % 0x1_0000_0000 == output.binding.btcTime.after;
    } else {
      assert cell.btcVout.value % 0x1_0000_0000 == output.binding.rgbpp.outIndex;
    }
  }

  // ----- rows over blocks

  /** The scanner covers block `n`. */
  predicate InScope(cfg: ScanConfig, n: nat) {
    1 <= n && cfg.startBlock <= n
  }

  predicate IsTx(blocks: Blocks, n: nat, j: nat) {
    n < |blocks| && j < |blocks[n].txs|
  }

  predicate SpendsAt(blocks: Blocks, n: nat, j: nat, k: nat, op: OutPoint) {
    IsTx(blocks, n, j) && k < |blocks[n].txs[j].inputs| && blocks[n].txs[j].inputs[k] == op
  }

  /** A covered block consumes the cell. */
  ghost predicate SpentInRange(cfg: ScanConfig, blocks: Blocks, op: OutPoint) {
    exists n: nat, j: nat, k: nat :: InScope(cfg, n) && SpendsAt(blocks, n, j, k, op)
  }

  lemma {:induction false} PositionOf(blocks: Blocks, n: nat, j: nat) returns (i: nat)
    requires IsTx(blocks, n, j)
    ensures i == Before(blocks, n) + j && i < Before(blocks, n + 1) <= |History(blocks)|
    ensures History(blocks)[i] == TxAt(blocks[n].txs[j], n, blocks[n].hash, blocks[n].timestamp, j)
  {
    i := Before(blocks, n) + j;
    NextBlock(blocks, n);
    HistoryPrefix(blocks, n + 1);
    assert blocks[..n + 1][..n] == blocks[..n];
    assert History(blocks[..n + 1])[i] == BlockTxs(blocks[n], n)[j];
  }

  lemma CoveredSide(cfg: ScanConfig, blocks: Blocks, i: nat)
    requires i < |History(blocks)| && cfg.FirstBlock() <= |blocks|
    ensures Before(blocks, cfg.FirstBlock()) <= i <==> InScope(cfg, History(blocks)[i].number)
  {
    hide History, Before;
    BlockSide(blocks, i, cfg.FirstBlock());
  }

  /** The recorded consumption of a created cell is the covered input that names it. */
  lemma ConsumptionIs(cfg: ScanConfig, blocks: Blocks, i: nat, op: OutPoint)
    requires WellFormed(History(blocks)) && cfg.FirstBlock() <= |blocks|
    requires i < |History(blocks)| && Creates(History(blocks)[i], op)
    ensures Before(blocks, cfg.FirstBlock()) <= |History(blocks)|
    ensures var c := ConsumptionAt(History(blocks), Consumer(History(blocks), Before(blocks, cfg.FirstBlock()), op));
            && (c.Some? <==> SpentInRange(cfg, blocks, op))
            && forall n: nat, j: nat, k: nat :: InScope(cfg, n) && SpendsAt(blocks, n, j, k, op) ==>
                 c == Some(Consumption(Anchor(n, blocks[n].hash, j), blocks[n].txs[j].hash, k))
  {
    hide WellFormed, History, Before, Consumer;
    var h, lo := History(blocks), Before(blocks, cfg.FirstBlock());
    BeforeInPrefix(blocks, cfg.FirstBlock(), cfg.FirstBlock());
    var c := Consumer(h, lo, op);
    if c.Some? {
      var t := h[c.value.pos];
      HistoryPosition(blocks, c.value.pos);
      CoveredSide(cfg, blocks, c.value.pos);
      assert SpendsAt(blocks, t.number, t.txIndex, c.value.index, op);
    }
    forall n: nat, j: nat, k: nat | InScope(cfg, n) && SpendsAt(blocks, n, j, k, op)
      ensures c.Some? && ConsumptionAt(h, c) == Some(Consumption(Anchor(n, blocks[n].hash, j), blocks[n].txs[j].hash, k))
    {
      var p := PositionOf(blocks, n, j);
      CoveredSide(cfg, blocks, p);
      assert op in h[p].tx.inputs;
      OneConsumer(h, i, c.value.pos, c.value.index, p, k);
    }
  }

  /**
   There is a row for an output exactly when it is kept and a covered block creates or consumes it. Its
   columns are those of the output, its creation anchor that of its block, with position -1 if the block is
   not covered, and its consumption that of the covered input that names it.
   */
  ghost predicate RowReads(cfg: ScanConfig, blocks: Blocks, cells: CellTable, n: nat, j: nat, o: nat)
    requires IsTx(blocks, n, j) && o < |blocks[n].txs[j].outputs|
  {
    var tx := blocks[n].txs[j];
    var key := CellKey(tx.hash, if o < 0x8000_0000 then o else o - 0x1_0000_0000);
    var spent := SpentInRange(cfg, blocks, OutPoint(tx.hash, o));
    && (key in cells <==> Kept(cfg.rules.protocol, tx.outputs[o].lock) && (InScope(cfg, n) || spent))
    && (key in cells ==>
          && CellColumns(cfg.rules, cells[key].cell, tx.outputs[o], if o < |tx.outputsData| then tx.outputsData[o] else [])
          && cells[key].cell.created == Anchor(n, blocks[n].hash, if InScope(cfg, n) then j else -1)
          && (cells[key].consumed.Some? <==> spent)
          && forall m: nat, l: nat, k: nat :: InScope(cfg, m) && SpendsAt(blocks, m, l, k, OutPoint(tx.hash, o)) ==>
               cells[key].consumed == Some(Consumption(Anchor(m, blocks[m].hash, l), blocks[m].txs[l].hash, k)))
  }

  /** Every output of an indexed chain is in the table as its columns read. */
  lemma EveryRow(cfg: ScanConfig, blocks: Blocks, db: Db, n: nat, j: nat, o: nat)
    requires WellFormed(History(blocks)) && IndexOf(cfg, blocks, db)
    requires IsTx(blocks, n, j) && o < |blocks[n].txs[j].outputs|
    ensures RowReads(cfg, blocks, db.cells, n, j, o)
  {
    hide WellFormed, CellsExact, AllReadable, TransitionsExact, History, Before, ReadOutput, BuildNewCell, CellColumns, Kept,
         Consumer, SpentInRange, InScope;
    var i := PositionOf(blocks, n, j);
    var h, lo := History(blocks), Before(blocks, cfg.FirstBlock());
    var tx := blocks[n].txs[j];
    assert OpAt(h, i, o) == OutPoint(tx.hash, o);
    RowAt(cfg.rules, h, lo, db.cells, i, o);
    ConsumptionIs(cfg, blocks, i, OutPoint(tx.hash, o));
    CoveredSide(cfg, blocks, i);
    KeptExactly(cfg.rules.protocol, tx, o);
    if ReadOutput(cfg.rules.protocol, tx, o).Some? {
      BuiltColumns(cfg.rules, tx, o, CreationAnchor(h, lo, i));
    }
  }

  predicate IsKeyOf(blocks: Blocks, n: nat, j: nat, o: nat, key: CellKey) {
    && IsTx(blocks, n, j) && o < |blocks[n].txs[j].outputs|
    && key == CellKey(blocks[n].txs[j].hash, if o < 0x8000_0000 then o else o - 0x1_0000_0000)
  }

  /** And every row is the row of some output. */
  lemma EveryKey(cfg: ScanConfig, blocks: Blocks, db: Db, key: CellKey) returns (n: nat, j: nat, o: nat)
    requires WellFormed(History(blocks)) && IndexOf(cfg, blocks, db) && key in db.cells
    ensures IsKeyOf(blocks, n, j, o, key)
  {
    hide WellFormed, RowExact, AllReadable, TransitionsExact, History, Before;
    var h := History(blocks);
    var i: nat, p: nat :| Names(h, key, i, p);
    HistoryPosition(blocks, i);
    n, j, o := h[i].number, h[i].txIndex, p;
  }
}
