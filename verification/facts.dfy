/**
 What the rows of the transition table say, column by column, over the blocks themselves and the byte
 layouts (crates/indexer/src/extract.rs `extract`, migrations/0001_init.sql), without the functions that
 compute them.
 */
module Facts {
  import opened Wrappers
  import opened ByteStrings
  import opened Ckb
  import opened Layout
  import opened Protocol
  import opened Commitment
  import opened Rows
  import opened Chain
  import opened Matching
  import opened Extract
  import opened Resolve
  import opened Tables
  import opened Index
  import opened Scan
  import opened InputOrder
  import opened Columns
  import opened Loss

  // ----- what a transaction takes and keeps

  predicate MadeAt(blocks: Blocks, n: nat, j: nat, op: OutPoint) {
    IsTx(blocks, n, j) && blocks[n].txs[j].hash == op.txHash && op.index < |blocks[n].txs[j].outputs|
  }

  predicate SealAt(protocol: ProtocolScripts, blocks: Blocks, n: nat, j: nat, op: OutPoint) {
    MadeAt(blocks, n, j, op) && IsSealLock(protocol, blocks[n].txs[j].outputs[op.index].lock)
  }

  predicate TimeAt(protocol: ProtocolScripts, blocks: Blocks, n: nat, j: nat, op: OutPoint) {
    MadeAt(blocks, n, j, op) && IsTimeLock(protocol, blocks[n].txs[j].outputs[op.index].lock)
  }

  /** The input consumes a cell under the RGB++ lock. */
  ghost predicate TakesSeal(protocol: ProtocolScripts, blocks: Blocks, op: OutPoint) {
    exists n: nat, j: nat :: SealAt(protocol, blocks, n, j, op)
  }

  /** The input consumes a cell under the BTC time lock. */
  ghost predicate TakesTime(protocol: ProtocolScripts, blocks: Blocks, op: OutPoint) {
    exists n: nat, j: nat :: TimeAt(protocol, blocks, n, j, op)
  }

  /** The positions of RGB++ cells among the first `n` inputs, in transaction order. */
  ghost function SealsTaken(protocol: ProtocolScripts, blocks: Blocks, tx: Tx, n: nat): seq<nat>
    requires n <= |tx.inputs|
  {
    if n == 0 then []
    else SealsTaken(protocol, blocks, tx, n - 1) + (if TakesSeal(protocol, blocks, tx.inputs[n - 1]) then [n - 1] else [])
  }

  ghost function TimesTaken(protocol: ProtocolScripts, blocks: Blocks, tx: Tx, n: nat): seq<nat>
    requires n <= |tx.inputs|
  {
    if n == 0 then []
    else TimesTaken(protocol, blocks, tx, n - 1) + (if TakesTime(protocol, blocks, tx.inputs[n - 1]) then [n - 1] else [])
  }

  /** The positions of kept outputs among the first `n`, in transaction order. */
  ghost function OutputsKept(protocol: ProtocolScripts, tx: Tx, n: nat): seq<nat>
    requires n <= |tx.outputs|
  {
    if n == 0 then []
    else OutputsKept(protocol, tx, n - 1) + (if Kept(protocol, tx.outputs[n - 1].lock) then [n - 1] else [])
  }

  /** All positions in record order: RGB++ cells first. */
  ghost function Taken(protocol: ProtocolScripts, blocks: Blocks, tx: Tx): seq<nat> {
    SealsTaken(protocol, blocks, tx, |tx.inputs|) + TimesTaken(protocol, blocks, tx, |tx.inputs|)
  }

  lemma KindIs(protocol: ProtocolScripts, blocks: Blocks, p: nat, k: nat)
    requires WellFormed(History(blocks)) && p < |History(blocks)| && k < |History(blocks)[p].tx.inputs|
    ensures var h, op := History(blocks), History(blocks)[p].tx.inputs[k];
            && (InputKind(protocol, h[..p], op) == Some(Rgbpp) <==> TakesSeal(protocol, blocks, op))
            && (InputKind(protocol, h[..p], op) == Some(BtcTime) <==> TakesTime(protocol, blocks, op))
  {
    hide WellFormed, History, IsSealLock, IsTimeLock, ProtocolScripts.Classify;
    var h, op := History(blocks), History(blocks)[p].tx.inputs[k];
    SourceBefore(h, p, k);
    if Source(h, op).Some? {
      var i := Source(h, op).value;
      HistoryPosition(blocks, i);
      CreatorFirst(h, i, p, k);
      assert h[..p][i] == h[i];
      ClassifyIs(protocol, h[i].tx.outputs[op.index].lock);
      assert MadeAt(blocks, h[i].number, h[i].txIndex, op);
      assert SealAt(protocol, blocks, h[i].number, h[i].txIndex, op)
        <==> IsSealLock(protocol, h[i].tx.outputs[op.index].lock);
      assert TimeAt(protocol, blocks, h[i].number, h[i].txIndex, op)
        <==> IsTimeLock(protocol, h[i].tx.outputs[op.index].lock);
      SourceInPrefix(h, p, op);
    }
    forall n: nat, j: nat | MadeAt(blocks, n, j, op)
      ensures Source(h, op).Some? && h[Source(h, op).value].tx == blocks[n].txs[j]
    {
      var i := PositionOf(blocks, n, j);
      OnlySource(h, op, i);
    }
  }

  lemma SourceInPrefix(h: Txs, p: nat, op: OutPoint)
    requires WellFormed(h) && p <= |h| && Source(h[..p], op).Some?
    ensures Source(h, op).Some? && OutputOf(h[..p], op) == h[Source(h, op).value].tx.outputs[op.index]
  {
    SourceExact(h, op, Source(h[..p], op).value);
  }

  lemma OnlySource(h: Txs, op: OutPoint, i: nat)
    requires WellFormed(h) && i < |h| && Creates(h[i], op)
    ensures Source(h, op) == Some(i)
  {
    SourceExact(h, op, i);
  }

  lemma {:induction false} PositionsAre(protocol: ProtocolScripts, blocks: Blocks, p: nat, n: nat)
    requires WellFormed(History(blocks)) && p < |History(blocks)| && n <= |History(blocks)[p].tx.inputs|
    ensures var h, tx := History(blocks), History(blocks)[p].tx;
            && PositionsOf(protocol, {Rgbpp}, h[..p], tx, n) == SealsTaken(protocol, blocks, tx, n)
            && PositionsOf(protocol, {BtcTime}, h[..p], tx, n) == TimesTaken(protocol, blocks, tx, n)
  {
    hide WellFormed, History, InputKind, TakesSeal, TakesTime;
    if n > 0 {
      PositionsAre(protocol, blocks, p, n - 1);
      KindIs(protocol, blocks, p, n - 1);
    }
  }

  /** The matched inputs are the taken positions, RGB++ cells first. */
  lemma MatchedAreTaken(protocol: ProtocolScripts, blocks: Blocks, p: nat)
    requires WellFormed(History(blocks)) && p < |History(blocks)|
    ensures MatchedInputs(protocol, History(blocks)[..p], History(blocks)[p].tx)
         == Taken(protocol, blocks, History(blocks)[p].tx)
  {
    hide WellFormed, History, MatchedInputs, PositionsOf, SealsTaken, TimesTaken;
    var h := History(blocks);
    SearchOrder(protocol, h[..p], h[p].tx);
    PositionsAre(protocol, blocks, p, |h[p].tx.inputs|);
  }

  /** The readable outputs are the kept ones. */
  lemma {:induction false} OutputsAreKept(protocol: ProtocolScripts, tx: Tx, n: nat)
    requires n <= |tx.outputs|
    ensures var found, kept := ReadableOutputs(protocol, tx, n), OutputsKept(protocol, tx, n);
            && |found| == |kept|
            && forall i :: 0 <= i < |kept| ==>
                 kept[i] < |tx.outputs| && ReadOutput(protocol, tx, kept[i]) == Some(found[i])
  {
    hide ReadOutput, Kept;
    if n > 0 {
      OutputsAreKept(protocol, tx, n - 1);
      KeptExactly(protocol, tx, n - 1);
    }
  }

  /** Silent means what it says: nothing taken under either lock and nothing kept. */
  lemma SilentIs(rules: Rules, blocks: Blocks, p: nat)
    requires WellFormed(History(blocks)) && p < |History(blocks)|
    ensures var tx := History(blocks)[p].tx;
            Silent(rules, History(blocks), p)
            <==> Taken(rules.protocol, blocks, tx) == [] && OutputsKept(rules.protocol, tx, |tx.outputs|) == []
  {
    hide WellFormed, History, MatchedInputs, Taken, ReadableOutputs, OutputsKept;
    var tx := History(blocks)[p].tx;
    MatchedAreTaken(rules.protocol, blocks, p);
    OutputsAreKept(rules.protocol, tx, |tx.outputs|);
  }

  // ----- the columns of a transition

  /** The args end in this Bitcoin txid. */
  predicate BoundTo(args: Bytes, txid: H256) {
    |args| >= 32 && args[|args| - 32..] == Mirrored(txid)
  }

  /** The cell as a commitment covers it. */
  function CoveredOutput(tx: Tx, o: nat): Entry
    requires o < |tx.outputs|
  {
    var output := tx.outputs[o];
    Entry(CellOutput(output.capacity, Script(output.lock.codeHash, output.lock.hashType, BlankTail(output.lock.args)), output.type_),
          if o < |tx.outputsData| then tx.outputsData[o] else [])
  }

  ghost predicate Within(s: seq<nat>, n: nat) {
    forall i :: 0 <= i < |s| ==> s[i] < n
  }

  /** The bytes that a transaction with these taken and kept positions is committed to by. */
  function CoveredBytes(tx: Tx, taken: seq<nat>, kept: seq<nat>): Bytes
    requires Within(taken, |tx.inputs|) && Within(kept, |tx.outputs|)
  {
    LaidOut(0, seq(|taken|, i requires 0 <= i < |taken| => tx.inputs[taken[i]]),
            seq(|kept|, i requires 0 <= i < |kept| => CoveredOutput(tx, kept[i])))
  }

  predicate KeepsSeal(protocol: ProtocolScripts, tx: Tx, kept: seq<nat>)
    requires Within(kept, |tx.outputs|)
  {
    exists i :: 0 <= i < |kept| && IsSealLock(protocol, tx.outputs[kept[i]].lock)
  }

  /** The kind of a transition, by which cells go in and come out. */
  ghost predicate KindColumn(protocol: ProtocolScripts, blocks: Blocks, tx: Tx, kind: TransitionKind, kept: seq<nat>)
    requires Within(kept, |tx.outputs|)
  {
    var seals, times := SealsTaken(protocol, blocks, tx, |tx.inputs|), TimesTaken(protocol, blocks, tx, |tx.inputs|);
    && (kind == BtcTimeUnlock <==> times != [])
    && (kind == Issuance <==> seals == [] && times == [])
    && (kind == Transfer <==> seals != [] && times == [] && KeepsSeal(protocol, tx, kept))
    && (kind == LeapToCkb <==> seals != [] && times == [] && !KeepsSeal(protocol, tx, kept) && kept != [])
    && (kind == Exit <==> seals != [] && times == [] && kept == [])
  }

  predicate TxidColumn(tx: Tx, txid: Option<H256>, kept: seq<nat>)
    requires Within(kept, |tx.outputs|)
  {
    && (txid.Some? ==> kept != [] && forall i :: 0 <= i < |kept| ==> BoundTo(tx.outputs[kept[i]].lock.args, txid.value))
    && (txid.None? ==>
          kept == []
          || exists i, j :: 0 <= i < |kept| && 0 <= j < |kept|
               && TailOf(tx.outputs[kept[i]].lock.args) != TailOf(tx.outputs[kept[j]].lock.args))
  }

  function TailOf(args: Bytes): Bytes {
    if |args| < 32 then [] else args[|args| - 32..]
  }

  ghost predicate FactColumns(rules: Rules, blocks: Blocks, n: nat, j: nat, fact: NewTransition)
    requires IsTx(blocks, n, j)
  {
    var tx := blocks[n].txs[j];
    var taken, kept := Taken(rules.protocol, blocks, tx), OutputsKept(rules.protocol, tx, |tx.outputs|);
    && Within(taken, |tx.inputs|) && Within(kept, |tx.outputs|)
    && fact.ckbTxHash == tx.hash && fact.block == Anchor(n, blocks[n].hash, j) && fact.timestamp == blocks[n].timestamp
    && KindColumn(rules.protocol, blocks, tx, fact.kind, kept)
    && TxidColumn(tx, fact.btcTxid, kept)
    && fact.inputCellCount == |taken| && fact.outputCellCount == |kept|
    && fact.expectedCommitment == Some(rules.doubleSha(CoveredBytes(tx, taken, kept)))
  }

  lemma {:induction false} PositionsWithin(protocol: ProtocolScripts, blocks: Blocks, tx: Tx, n: nat)
    requires n <= |tx.inputs|
    ensures Within(SealsTaken(protocol, blocks, tx, n), n) && Within(TimesTaken(protocol, blocks, tx, n), n)
    ensures forall k :: k in SealsTaken(protocol, blocks, tx, n) ==> k < |tx.inputs| && TakesSeal(protocol, blocks, tx.inputs[k])
    ensures forall k :: k in TimesTaken(protocol, blocks, tx, n) ==> k < |tx.inputs| && TakesTime(protocol, blocks, tx.inputs[k])
  {
    hide TakesSeal, TakesTime;
    if n > 0 {
      PositionsWithin(protocol, blocks, tx, n - 1);
    }
  }

  lemma KeptWithin(protocol: ProtocolScripts, tx: Tx)
    ensures Within(OutputsKept(protocol, tx, |tx.outputs|), |tx.outputs|)
  {
    hide OutputsKept, ReadableOutputs;
    OutputsAreKept(protocol, tx, |tx.outputs|);
  }

  lemma TakenWithin(protocol: ProtocolScripts, blocks: Blocks, tx: Tx)
    ensures Within(Taken(protocol, blocks, tx), |tx.inputs|)
  {
    hide SealsTaken, TimesTaken, TakesSeal, TakesTime;
    PositionsWithin(protocol, blocks, tx, |tx.inputs|);
  }

  /** A resolved input is the input at its position, with the lock kind of the cell it consumes. */
  lemma InputIs(rules: Rules, before: Txs, t: TxAt, i: nat)
    requires Readable(rules, before, t) && i < |MatchedInputs(rules.protocol, before, t.tx)|
    ensures var k, input := MatchedInputs(rules.protocol, before, t.tx)[i], InputsOf(rules, before, t)[i];
            && k < |t.tx.inputs| && input.outPoint == t.tx.inputs[k]
            && InputKind(rules.protocol, before, t.tx.inputs[k]) == Some(input.binding.Kind())
  {
    hide MatchedInputs, Source;
    var k := MatchedInputs(rules.protocol, before, t.tx)[i];
    assert k in MatchedInputs(rules.protocol, before, t.tx);
    var op := t.tx.inputs[k];
    ReadOutputGenuine(rules.protocol, before[Source(before, op).value].tx, op.index);
  }

  lemma KindOfTaken(rules: Rules, blocks: Blocks, p: nat, i: nat)
    requires WellFormed(History(blocks)) && p < |History(blocks)| && Readable(rules, History(blocks)[..p], History(blocks)[p])
    requires i < |Taken(rules.protocol, blocks, History(blocks)[p].tx)|
    ensures var h, tx := History(blocks), History(blocks)[p].tx;
            var inputs, taken := InputsOf(rules, h[..p], h[p]), Taken(rules.protocol, blocks, tx);
            && |inputs| == |taken| && taken[i] < |tx.inputs| && inputs[i].outPoint == tx.inputs[taken[i]]
            && (inputs[i].binding.Kind() == Rgbpp <==> TakesSeal(rules.protocol, blocks, tx.inputs[taken[i]]))
            && (inputs[i].binding.Kind() == BtcTime <==> TakesTime(rules.protocol, blocks, tx.inputs[taken[i]]))
  {
    hide WellFormed, History, MatchedInputs, Taken, InputsOf, Readable, InputKind, TakesSeal, TakesTime;
    var h := History(blocks);
    MatchedAreTaken(rules.protocol, blocks, p);
    InputIs(rules, h[..p], h[p], i);
    KindIs(rules.protocol, blocks, p, Taken(rules.protocol, blocks, h[p].tx)[i]);
  }

  lemma TimesGoIn(rules: Rules, blocks: Blocks, p: nat)
    requires WellFormed(History(blocks)) && p < |History(blocks)| && Readable(rules, History(blocks)[..p], History(blocks)[p])
    ensures var h, tx := History(blocks), History(blocks)[p].tx;
            BtcTime in InputKinds(InputsOf(rules, h[..p], h[p])) <==> TimesTaken(rules.protocol, blocks, tx, |tx.inputs|) != []
  {
    hide WellFormed, History, MatchedInputs, InputsOf, Readable, TakesSeal, TakesTime, SealsTaken, TimesTaken;
    var h, tx := History(blocks), History(blocks)[p].tx;
    var inputs := InputsOf(rules, h[..p], h[p]);
    var seals, times := SealsTaken(rules.protocol, blocks, tx, |tx.inputs|), TimesTaken(rules.protocol, blocks, tx, |tx.inputs|);
    MatchedAreTaken(rules.protocol, blocks, p);
    PositionsWithin(rules.protocol, blocks, tx, |tx.inputs|);
    forall i | 0 <= i < |inputs|
      ensures InputKinds(inputs)[i] == BtcTime <==> i >= |seals|
    {
      KindOfTaken(rules, blocks, p, i);
      assert i < |seals| ==> seals[i] in seals;
      assert i >= |seals| ==> times[i - |seals|] in times;
    }
    if times != [] {
      assert InputKinds(inputs)[|seals|] == BtcTime;
    }
  }

  /** A kept output as the extraction holds it. */
  lemma KeptOutput(rules: Rules, tx: Tx, i: nat)
    requires i < |OutputsKept(rules.protocol, tx, |tx.outputs|)|
    ensures var outputs, kept := ReadableOutputs(rules.protocol, tx, |tx.outputs|), OutputsKept(rules.protocol, tx, |tx.outputs|);
            && |outputs| == |kept| && kept[i] < |tx.outputs|
            && (outputs[i].binding.Kind() == Rgbpp <==> IsSealLock(rules.protocol, tx.outputs[kept[i]].lock))
            && BoundTo(tx.outputs[kept[i]].lock.args, outputs[i].binding.Txid())
            && Blanked(outputs[i]) == CoveredOutput(tx, kept[i])
            && ParseBinding(outputs[i].binding.Kind(), outputs[i].cell.lock.args).Ok?
  {
    hide ReadableOutputs, OutputsKept, ReadOutput, ParseBinding, U32Bytes, ScriptBytes, Mirrored, BlankTail;
    OutputsAreKept(rules.protocol, tx, |tx.outputs|);
    var o := OutputsKept(rules.protocol, tx, |tx.outputs|)[i];
    KeptExactly(rules.protocol, tx, o);
    ReadOutputGenuine(rules.protocol, tx, o);
    ClassifyIs(rules.protocol, tx.outputs[o].lock);
  }

  lemma SealGoesOut(rules: Rules, tx: Tx)
    ensures var outputs, kept := ReadableOutputs(rules.protocol, tx, |tx.outputs|), OutputsKept(rules.protocol, tx, |tx.outputs|);
            && |outputs| == |kept| && Within(kept, |tx.outputs|)
            && (Rgbpp in OutputKinds(outputs) <==> KeepsSeal(rules.protocol, tx, kept))
            && (outputs != [] && Rgbpp !in OutputKinds(outputs) ==> BtcTime in OutputKinds(outputs))
  {
    hide ReadableOutputs, OutputsKept, IsSealLock;
    var outputs, kept := ReadableOutputs(rules.protocol, tx, |tx.outputs|), OutputsKept(rules.protocol, tx, |tx.outputs|);
    OutputsAreKept(rules.protocol, tx, |tx.outputs|);
    forall i | 0 <= i < |kept|
      ensures OutputKinds(outputs)[i] == Rgbpp <==> IsSealLock(rules.protocol, tx.outputs[kept[i]].lock)
    {
      KeptOutput(rules, tx, i);
    }
    if outputs != [] {
      assert OutputKinds(outputs)[0] in OutputKinds(outputs);
    }
  }

  lemma KindColumnIs(rules: Rules, blocks: Blocks, p: nat)
    requires WellFormed(History(blocks)) && p < |History(blocks)| && Readable(rules, History(blocks)[..p], History(blocks)[p])
    ensures var h, tx := History(blocks), History(blocks)[p].tx;
            var kept := OutputsKept(rules.protocol, tx, |tx.outputs|);
            && Within(kept, |tx.outputs|)
            && KindColumn(rules.protocol, blocks, tx,
                          ClassifyTransition(InputsOf(rules, h[..p], h[p]), ReadableOutputs(rules.protocol, tx, |tx.outputs|)), kept)
  {
    hide WellFormed, History, MatchedInputs, InputsOf, Readable, SealsTaken, TimesTaken, ClassifyTransition, ReadableOutputs,
         OutputsKept, KeepsSeal;
    var h, tx := History(blocks), History(blocks)[p].tx;
    MatchedAreTaken(rules.protocol, blocks, p);
    TimesGoIn(rules, blocks, p);
    SealGoesOut(rules, tx);
    TransitionKindMeaning(InputsOf(rules, h[..p], h[p]), ReadableOutputs(rules.protocol, tx, |tx.outputs|));
  }

  lemma TxidColumnIs(rules: Rules, tx: Tx)
    ensures Within(OutputsKept(rules.protocol, tx, |tx.outputs|), |tx.outputs|)
    ensures TxidColumn(tx, CommonTxid(ReadableOutputs(rules.protocol, tx, |tx.outputs|)),
                       OutputsKept(rules.protocol, tx, |tx.outputs|))
  {
    hide ReadableOutputs, OutputsKept, Mirrored;
    var outputs, kept := ReadableOutputs(rules.protocol, tx, |tx.outputs|), OutputsKept(rules.protocol, tx, |tx.outputs|);
    KeptWithin(rules.protocol, tx);
    OutputsAreKept(rules.protocol, tx, |tx.outputs|);
    forall i | 0 <= i < |kept|
      ensures BoundTo(tx.outputs[kept[i]].lock.args, outputs[i].binding.Txid())
    {
      KeptOutput(rules, tx, i);
    }
    if outputs != [] && CommonTxid(outputs).None? {
      var i :| 0 <= i < |outputs| && outputs[i].binding.Txid() != outputs[0].binding.Txid();
      MirrorsDiffer(outputs[i].binding.Txid(), outputs[0].binding.Txid());
      assert TailOf(tx.outputs[kept[i]].lock.args) != TailOf(tx.outputs[kept[0]].lock.args);
    }
  }

  lemma MirrorsDiffer(a: H256, b: H256)
    requires a != b
    ensures Mirrored(a) != Mirrored(b)
  {
    var i :| 0 <= i < 32 && a[i] != b[i];
    assert Mirrored(a)[31 - i] != Mirrored(b)[31 - i];
  }

  lemma CommitmentColumnIs(rules: Rules, blocks: Blocks, p: nat)
    requires WellFormed(History(blocks)) && p < |History(blocks)| && Readable(rules, History(blocks)[..p], History(blocks)[p])
    ensures var h, tx := History(blocks), History(blocks)[p].tx;
            var taken, kept := Taken(rules.protocol, blocks, tx), OutputsKept(rules.protocol, tx, |tx.outputs|);
            && Within(taken, |tx.inputs|) && Within(kept, |tx.outputs|)
            && (taken != [] || kept != [] ==>
                  ExpectedCommitment(rules.doubleSha, InputsOf(rules, h[..p], h[p]), ReadableOutputs(rules.protocol, tx, |tx.outputs|))
                  == Some(rules.doubleSha(CoveredBytes(tx, taken, kept))))
  {
    hide WellFormed, History, MatchedInputs, InputsOf, Readable, Taken, ExpectedCommitment, ReadableOutputs, OutputsKept, LaidOut,
         Blanked, CoveredOutput, ParseBinding;
    var h, tx := History(blocks), History(blocks)[p].tx;
    var inputs, outputs := InputsOf(rules, h[..p], h[p]), ReadableOutputs(rules.protocol, tx, |tx.outputs|);
    var taken, kept := Taken(rules.protocol, blocks, tx), OutputsKept(rules.protocol, tx, |tx.outputs|);
    TakenWithin(rules.protocol, blocks, tx);
    KeptWithin(rules.protocol, tx);
    MatchedAreTaken(rules.protocol, blocks, p);
    OutputsAreKept(rules.protocol, tx, |tx.outputs|);
    ExpectedCommitmentIs(rules.doubleSha, inputs, outputs);
    forall i | 0 <= i < |inputs|
      ensures inputs[i].outPoint == tx.inputs[taken[i]]
    {
      KindOfTaken(rules, blocks, p, i);
    }
    forall i | 0 <= i < |outputs|
      ensures Blanked(outputs[i]) == CoveredOutput(tx, kept[i])
      ensures ParseBinding(outputs[i].binding.Kind(), outputs[i].cell.lock.args).Ok?
    {
      KeptOutput(rules, tx, i);
    }
    assert seq(|inputs|, i requires 0 <= i < |inputs| => inputs[i].outPoint)
        == seq(|taken|, i requires 0 <= i < |taken| => tx.inputs[taken[i]]);
    assert seq(|outputs|, i requires 0 <= i < |outputs| => Blanked(outputs[i]))
        == seq(|kept|, i requires 0 <= i < |kept| => CoveredOutput(tx, kept[i]));
  }

  lemma FactIs(rules: Rules, before: Txs, t: TxAt, ts: TransitionTable)
    requires Readable(rules, before, t) && TransitionExact(rules, before, t, ts)
    ensures var inputs, outputs := InputsOf(rules, before, t), ReadableOutputs(rules.protocol, t.tx, |t.tx.outputs|);
            && (t.tx.hash in ts <==> inputs != [] || outputs != [])
            && (t.tx.hash in ts ==> ts[t.tx.hash].fact == TransitionOf(rules, t, inputs, outputs))
  {
    hide InputsOf, Readable, ReadableOutputs, ClassifyTransition, CommonTxid, ExpectedCommitment, NewCells, Spends;
  }

  /**
   A covered transaction has a row exactly when it takes or keeps a cell, and every indexed column of the
   row is the one its block, inputs and outputs ask for.
   */
  ghost predicate FactReads(cfg: ScanConfig, blocks: Blocks, ts: TransitionTable, n: nat, j: nat)
    requires IsTx(blocks, n, j)
  {
    var tx, protocol := blocks[n].txs[j], cfg.rules.protocol;
    && (tx.hash in ts <==> Taken(protocol, blocks, tx) != [] || OutputsKept(protocol, tx, |tx.outputs|) != [])
    && (tx.hash in ts ==> FactColumns(cfg.rules, blocks, n, j, ts[tx.hash].fact))
  }

  /** Every covered transaction of an indexed chain is in the table as its columns read. */
  lemma EveryTransition(cfg: ScanConfig, blocks: Blocks, db: Db, n: nat, j: nat)
    requires WellFormed(History(blocks)) && IndexOf(cfg, blocks, db) && IsTx(blocks, n, j) && InScope(cfg, n)
    ensures FactReads(cfg, blocks, db.transitions, n, j)
  {
    hide WellFormed, History, MatchedInputs, InputsOf, Readable, Taken, ExpectedCommitment, ReadableOutputs, OutputsKept,
         ClassifyTransition, CommonTxid, CellsExact, KindColumn, TxidColumn, CoveredBytes, TransitionExact, Before;
    var p := PositionOf(blocks, n, j);
    CoveredSide(cfg, blocks, p);
    var h, tx := History(blocks), blocks[n].txs[j];
    assert TransitionExact(cfg.rules, h[..p], h[p], db.transitions);
    FactIs(cfg.rules, h[..p], h[p], db.transitions);
    MatchedAreTaken(cfg.rules.protocol, blocks, p);
    OutputsAreKept(cfg.rules.protocol, tx, |tx.outputs|);
    KindColumnIs(cfg.rules, blocks, p);
    TxidColumnIs(cfg.rules, tx);
    CommitmentColumnIs(cfg.rules, blocks, p);
  }

  /** And every row is the row of a covered transaction. */
  lemma EveryHash(cfg: ScanConfig, blocks: Blocks, db: Db, x: H256) returns (n: nat, j: nat)
    requires WellFormed(History(blocks)) && IndexOf(cfg, blocks, db) && x in db.transitions
    ensures IsTx(blocks, n, j) && InScope(cfg, n) && blocks[n].txs[j].hash == x
  {
    hide WellFormed, History, CellsExact, TransitionExact, Readable, Before;
    var h := History(blocks);
    var p :| Before(blocks, cfg.FirstBlock()) <= p < |h| && h[p].tx.hash == x;
    HistoryPosition(blocks, p);
    CoveredSide(cfg, blocks, p);
    n, j := h[p].number, h[p].txIndex;
  }

  // ----- what can be processed

  /** Every cell under one of the two locks that the transaction consumes is a kept one. */
  ghost predicate TakesOnlyKept(protocol: ProtocolScripts, blocks: Blocks, tx: Tx) {
    forall n: nat, j: nat, k: nat :: k < |tx.inputs| && MadeAt(blocks, n, j, tx.inputs[k]) ==>
      var lock := blocks[n].txs[j].outputs[tx.inputs[k].index].lock;
      IsSealLock(protocol, lock) || IsTimeLock(protocol, lock) ==> Kept(protocol, lock)
  }

  lemma ReadableIs(rules: Rules, blocks: Blocks, p: nat)
    requires WellFormed(History(blocks)) && p < |History(blocks)|
    ensures Readable(rules, History(blocks)[..p], History(blocks)[p])
       <==> TakesOnlyKept(rules.protocol, blocks, History(blocks)[p].tx)
  {
    hide WellFormed, History, MatchedInputs, ReadOutput, IsSealLock, IsTimeLock, Kept, Source, ProtocolScripts.Classify;
    var h, tx := History(blocks), History(blocks)[p].tx;
    MatchedInputsExact(rules.protocol, h[..p], tx);
    forall n: nat, j: nat, k: nat | k < |tx.inputs| && MadeAt(blocks, n, j, tx.inputs[k])
      ensures Source(h[..p], tx.inputs[k]).Some? && h[..p][Source(h[..p], tx.inputs[k]).value].tx == blocks[n].txs[j]
    {
      var i := PositionOf(blocks, n, j);
      CreatorFirst(h, i, p, k);
      WellFormedPrefix(h, p);
      assert h[..p][i] == h[i];
      OnlySource(h[..p], tx.inputs[k], i);
    }
    forall k | 0 <= k < |tx.inputs| && Source(h[..p], tx.inputs[k]).Some?
      ensures var t := h[Source(h[..p], tx.inputs[k]).value];
              MadeAt(blocks, t.number, t.txIndex, tx.inputs[k]) && blocks[t.number].txs[t.txIndex] == t.tx
    {
      HistoryPosition(blocks, Source(h[..p], tx.inputs[k]).value);
    }
    forall k | 0 <= k < |tx.inputs| && Source(h[..p], tx.inputs[k]).Some?
      ensures var lock := OutputOf(h[..p], tx.inputs[k]).lock;
              && (OutputAt(rules, h[..p], tx.inputs[k]).Some? <==> Kept(rules.protocol, lock))
              && (rules.protocol.Classify(lock).Some? <==> IsSealLock(rules.protocol, lock) || IsTimeLock(rules.protocol, lock))
    {
      var op := tx.inputs[k];
      KeptExactly(rules.protocol, h[..p][Source(h[..p], op).value].tx, op.index);
      ClassifyIs(rules.protocol, OutputOf(h[..p], op).lock);
      EitherKind(rules.protocol.Classify(OutputOf(h[..p], op).lock));
    }
    if Readable(rules, h[..p], h[p]) {
      forall n: nat, j: nat, k: nat | k < |tx.inputs| && MadeAt(blocks, n, j, tx.inputs[k])
        ensures var lock := blocks[n].txs[j].outputs[tx.inputs[k].index].lock;
                IsSealLock(rules.protocol, lock) || IsTimeLock(rules.protocol, lock) ==> Kept(rules.protocol, lock)
      {
        var lock := blocks[n].txs[j].outputs[tx.inputs[k].index].lock;
        assert lock == OutputOf(h[..p], tx.inputs[k]).lock;
      }
    }
  }

  lemma EitherKind(kind: Option<LockKind>)
    ensures kind.Some? <==> kind == Some(Rgbpp) || kind == Some(BtcTime)
  {
    if kind.Some? {
      match kind.value
      case Rgbpp =>
      case BtcTime =>
    }
  }
}
