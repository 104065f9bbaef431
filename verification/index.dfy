/**
 What the index of a chain prefix is, stated directly over the chain: which cells it holds, with
 which creation and consumption anchors, and which transitions. This is the reference the scanner
 is proved against; it mentions neither rounds nor batches.
 */
module Index {
  import opened Wrappers
  import opened Ckb
  import opened Rows
  import opened Chain
  import opened Matching
  import opened Extract
  import opened Resolve
  import opened Tables

  // ----- one transaction's facts, from the chain before it

  /** Every RGB++ cell the transaction consumes has args that parse. */
  ghost predicate Readable(rules: Rules, before: Txs, t: TxAt) {
    forall k :: k in MatchedInputs(rules.protocol, before, t.tx) ==>
      k < |t.tx.inputs| && OutputAt(rules, before, t.tx.inputs[k]).Some?
  }

  /** The resolved inputs, in record order. */
  ghost function InputsOf(rules: Rules, before: Txs, t: TxAt): (r: seq<ResolvedInput>)
    requires Readable(rules, before, t)
    ensures |r| == |MatchedInputs(rules.protocol, before, t.tx)|
  {
    var m := MatchedInputs(rules.protocol, before, t.tx);
    seq(|m|, i requires 0 <= i < |m| =>
        assert m[i] in m;
        InputFor(OutputAt(rules, before, t.tx.inputs[m[i]]).value, t.tx.inputs[m[i]], m[i]))
  }

  ghost function ExpectedTransition(rules: Rules, before: Txs, t: TxAt): Option<NewTransition>
    requires Readable(rules, before, t)
  {
    match Extraction(rules, t, InputsOf(rules, before, t))
    case Ok(e) => Some(e.transition)
    case Err(_) => None
  }

  // ----- the index of a history from position `lo` on

  /** Cells created before the indexed range are recorded without a position in their block. */
  function CreationAnchor(h: Txs, lo: nat, i: nat): Anchor
    requires i < |h|
  {
    if lo <= i then AnchorOf(h[i]) else Anchor(h[i].number, h[i].blockHash, UNKNOWN_TX_INDEX)
  }

  function ConsumptionAt(h: Txs, c: Option<InputAt>): Option<Consumption>
    requires c.Some? ==> c.value.pos < |h|
  {
    match c
    case None => None
    case Some(at) => Some(Consumption(AnchorOf(h[at.pos]), h[at.pos].tx.hash, at.index))
  }

  function OpAt(h: Txs, i: nat, o: nat): OutPoint
    requires i < |h| && o < |h[i].tx.outputs|
  {
    OutPoint(h[i].tx.hash, o)
  }

  /**
   The row for output `o` of transaction `i`: there is one iff the output is a readable RGB++ cell
   that the indexed range creates or consumes.
   */
  function ExpectedRow(rules: Rules, h: Txs, lo: nat, i: nat, o: nat): Option<CellRow>
    requires i < |h| && o < |h[i].tx.outputs|
  {
    match ReadOutput(rules.protocol, h[i].tx, o)
    case None => None
    case Some(output) =>
      var c := Consumer(h, lo, OpAt(h, i, o));
      if i < lo && c.None? then None
      else Some(CellRow(BuildNewCell(rules, h[i].tx.hash, output, CreationAnchor(h, lo, i)), ConsumptionAt(h, c)))
  }

  predicate RowExact(rules: Rules, h: Txs, lo: nat, cells: CellTable, i: nat, o: nat)
    requires i < |h| && o < |h[i].tx.outputs|
  {
    var key := KeyOf(OpAt(h, i, o));
    match ExpectedRow(rules, h, lo, i, o)
    case None => key !in cells
    case Some(row) => key in cells && cells[key] == row
  }

  predicate Names(h: Txs, key: CellKey, i: nat, o: nat) {
    i < |h| && o < |h[i].tx.outputs| && key == KeyOf(OpAt(h, i, o))
  }

  ghost predicate CellsExact(rules: Rules, h: Txs, lo: nat, cells: CellTable) {
    && (forall i: nat, o: nat :: i < |h| && o < |h[i].tx.outputs| ==> RowExact(rules, h, lo, cells, i, o))
    && (forall key :: key in cells ==> exists i: nat, o: nat :: Names(h, key, i, o))
  }

  ghost predicate AllReadable(rules: Rules, h: Txs, lo: nat) {
    forall p :: lo <= p < |h| ==> Readable(rules, h[..p], h[p])
  }

  ghost predicate TransitionExact(rules: Rules, before: Txs, t: TxAt, ts: TransitionTable)
    requires Readable(rules, before, t)
  {
    match ExpectedTransition(rules, before, t)
    case None => t.tx.hash !in ts
    case Some(fact) => t.tx.hash in ts && ts[t.tx.hash].fact == fact
  }

  ghost predicate TransitionsExact(rules: Rules, h: Txs, lo: nat, ts: TransitionTable)
    requires AllReadable(rules, h, lo)
  {
    && (forall p :: lo <= p < |h| ==> TransitionExact(rules, h[..p], h[p], ts))
    && (forall key :: key in ts ==> exists p :: lo <= p < |h| && h[p].tx.hash == key)
  }

  /** The tables are exactly the index of the history from position `lo` to its end. */
  ghost predicate IsIndex(rules: Rules, h: Txs, lo: nat, cells: CellTable, ts: TransitionTable) {
    lo <= |h| && AllReadable(rules, h, lo) && CellsExact(rules, h, lo, cells) && TransitionsExact(rules, h, lo, ts)
  }

  /** Equal indexed parts; the verifier's columns may differ. */
  ghost predicate SameFacts(a: TransitionTable, b: TransitionTable) {
    a.Keys == b.Keys && forall key :: key in a ==> a[key].fact == b[key].fact
  }

  lemma CellsUnique(rules: Rules, h: Txs, lo: nat, a: CellTable, b: CellTable)
    requires CellsExact(rules, h, lo, a) && CellsExact(rules, h, lo, b)
    ensures a == b
  {
    hide ExpectedRow;
    forall key
      ensures key in a <==> key in b
      ensures key in a ==> a[key] == b[key]
    {
      if key in a {
        var i: nat, o: nat :| Names(h, key, i, o);
        assert RowExact(rules, h, lo, a, i, o) && RowExact(rules, h, lo, b, i, o);
      }
      if key in b {
        var i: nat, o: nat :| Names(h, key, i, o);
        assert RowExact(rules, h, lo, a, i, o) && RowExact(rules, h, lo, b, i, o);
      }
    }
  }

  /** A history has one index: the predicate pins the tables down completely. */
  lemma IndexUnique(rules: Rules, h: Txs, lo: nat, a: CellTable, ta: TransitionTable, b: CellTable, tb: TransitionTable)
    requires IsIndex(rules, h, lo, a, ta) && IsIndex(rules, h, lo, b, tb)
    ensures a == b && SameFacts(ta, tb)
  {
    hide CellsExact, Readable, ExpectedTransition;
    CellsUnique(rules, h, lo, a, b);
    forall key
      ensures key in ta <==> key in tb
      ensures key in ta ==> ta[key].fact == tb[key].fact
    {
      if key in ta {
        var p :| lo <= p < |h| && h[p].tx.hash == key;
        assert TransitionExact(rules, h[..p], h[p], ta) && TransitionExact(rules, h[..p], h[p], tb);
      }
      if key in tb {
        var p :| lo <= p < |h| && h[p].tx.hash == key;
        assert TransitionExact(rules, h[..p], h[p], ta) && TransitionExact(rules, h[..p], h[p], tb);
      }
    }
  }

  /** Nothing has been indexed yet. */
  lemma {:induction false} EmptyIndex(rules: Rules, h: Txs)
    ensures IsIndex(rules, h, |h|, map[], map[])
  {
    hide ReadOutput, BuildNewCell;
  }

  // ----- one more transaction

  /** The row that backfills a consumed cell the index does not hold. */
  ghost function BackfillCell(rules: Rules, h: Txs, op: OutPoint): NewCell
    requires OutputAt(rules, h, op).Some?
  {
    var i := Source(h, op).value;
    BuildNewCell(rules, op.txHash, OutputAt(rules, h, op).value, Anchor(h[i].number, h[i].blockHash, UNKNOWN_TX_INDEX))
  }

  ghost predicate BackfillOf(rules: Rules, h: Txs, b: NewCell, op: OutPoint) {
    OutputAt(rules, h, op).Some? && b == BackfillCell(rules, h, op)
  }

  ghost predicate BackfillOfInput(rules: Rules, h: Txs, inputs: seq<ResolvedInput>, b: NewCell) {
    exists i :: 0 <= i < |inputs| && BackfillOf(rules, h, b, inputs[i].outPoint)
  }

  /** `backs` backfills exactly the consumed cells that `cells` lacks, each once. */
  ghost predicate Backfills(rules: Rules, h: Txs, inputs: seq<ResolvedInput>, cells: CellTable, backs: seq<NewCell>) {
    && DistinctCells(backs)
    && (forall b :: 0 <= b < |backs| ==>
          backs[b].key !in cells && BackfillOfInput(rules, h, inputs, backs[b]))
    && (forall i :: 0 <= i < |inputs| ==> KeyOf(inputs[i].outPoint) in cells || AnyCell(backs, KeyOf(inputs[i].outPoint)))
  }

  lemma BackfilledInput(rules: Rules, h: Txs, inputs: seq<ResolvedInput>, cells: CellTable, backs: seq<NewCell>, b: nat)
    returns (i: nat)
    requires Backfills(rules, h, inputs, cells, backs) && b < |backs|
    ensures i < |inputs| && BackfillOf(rules, h, backs[b], inputs[i].outPoint)
  {
    hide BackfillOf;
    assert BackfillOfInput(rules, h, inputs, backs[b]);
    i :| 0 <= i < |inputs| && BackfillOf(rules, h, backs[b], inputs[i].outPoint);
  }

  function OutputCells(rules: Rules, t: TxAt): seq<NewCell> {
    NewCells(rules, t.tx.hash, ReadableOutputs(rules.protocol, t.tx, |t.tx.outputs|), AnchorOf(t))
  }

  ghost function SpendsOf(rules: Rules, h: Txs, t: TxAt): seq<CellSpend>
    requires Readable(rules, h, t)
  {
    Spends(InputsOf(rules, h, t), t.tx.hash, AnchorOf(t))
  }

  // facts about the transaction being added

  lemma InputsNameConsumedCells(rules: Rules, h: Txs, t: TxAt, q: nat)
    requires Readable(rules, h, t) && q < |InputsOf(rules, h, t)|
    ensures var k := InputsOf(rules, h, t)[q].inputIndex;
            k < |t.tx.inputs| && InputsOf(rules, h, t)[q].outPoint == t.tx.inputs[k]
            && OutputAt(rules, h, t.tx.inputs[k]).Some?
  {
    hide MatchedInputs, OutputAt;
    assert MatchedInputs(rules.protocol, h, t.tx)[q] in MatchedInputs(rules.protocol, h, t.tx);
  }

  /** Consuming a readable RGB++ cell puts it among the resolved inputs. */
  lemma ConsumedCellIsInput(rules: Rules, h: Txs, t: TxAt, k: nat) returns (q: nat)
    requires Readable(rules, h, t) && k < |t.tx.inputs| && OutputAt(rules, h, t.tx.inputs[k]).Some?
    ensures q < |InputsOf(rules, h, t)| && InputsOf(rules, h, t)[q].inputIndex == k
    ensures InputsOf(rules, h, t)[q].outPoint == t.tx.inputs[k]
  {
    hide MatchedInputs, Source;
    MatchedInputsExact(rules.protocol, h, t.tx);
    var m := MatchedInputs(rules.protocol, h, t.tx);
    assert k in m;
    q :| 0 <= q < |m| && m[q] == k;
  }

  lemma SpendsDistinct(rules: Rules, h: Txs, t: TxAt)
    requires Readable(rules, h, t) && WellFormed(h + [t])
    ensures DistinctSpends(SpendsOf(rules, h, t))
  {
    hide MatchedInputs, OutputAt, WellFormed;
    var ss, m := SpendsOf(rules, h, t), MatchedInputs(rules.protocol, h, t.tx);
    MatchedInputsExact(rules.protocol, h, t.tx);
    forall a, b | 0 <= a < b < |ss|
      ensures ss[a].key != ss[b].key
    {
      InputsNameConsumedCells(rules, h, t, a);
      InputsNameConsumedCells(rules, h, t, b);
      OncePerTransaction(rules, h, t, m[a], m[b]);
      KeyInjective(t.tx.inputs[m[a]], t.tx.inputs[m[b]]);
    }
  }

  lemma OncePerTransaction(rules: Rules, h: Txs, t: TxAt, k: nat, k': nat)
    requires WellFormed(h + [t]) && k < |t.tx.inputs| && k' < |t.tx.inputs| && k != k'
    requires OutputAt(rules, h, t.tx.inputs[k]).Some?
    ensures t.tx.inputs[k] != t.tx.inputs[k']
  {
    hide WellFormed, ReadOutput;
    var h', n := h + [t], |h|;
    var i := Source(h, t.tx.inputs[k]).value;
    assert h'[n] == t && h'[i] == h[i];
    if t.tx.inputs[k] == t.tx.inputs[k'] {
      OneConsumer(h', i, n, k, n, k');
    }
  }

  /** A cell `t` consumes was not consumed before. */
  lemma NotConsumedBefore(h: Txs, lo: nat, t: TxAt, i: nat, o: nat, k: nat)
    requires WellFormed(h + [t]) && i < |h| && o < |h[i].tx.outputs|
    requires k < |t.tx.inputs| && t.tx.inputs[k] == OpAt(h, i, o)
    ensures Consumer(h, lo, OpAt(h, i, o)) == None
  {
    hide WellFormed;
    var h', n, c := h + [t], |h|, Consumer(h, lo, OpAt(h, i, o));
    assert h'[n] == t && h'[i] == h[i];
    if c.Some? {
      assert h'[c.value.pos] == h[c.value.pos];
      OneConsumer(h', i, c.value.pos, c.value.index, n, k);
    }
  }

  /** A cell `t` creates is consumed neither before nor by `t`. */
  lemma NewCellUnconsumed(h: Txs, lo: nat, t: TxAt, o: nat)
    requires WellFormed(h + [t]) && o < |t.tx.outputs|
    ensures Consumer(h + [t], lo, OutPoint(t.tx.hash, o)) == None
  {
    hide WellFormed;
    var h', n := h + [t], |h|;
    var c := Consumer(h', lo, OutPoint(t.tx.hash, o));
    assert h'[n] == t;
    if c.Some? {
      CreatorFirst(h', n, c.value.pos, c.value.index);
    }
  }

  lemma ConsumerAfter(h: Txs, lo: nat, t: TxAt, op: OutPoint)
    requires lo <= |h|
    ensures Consumer(h + [t], lo, op)
         == match FindInput(t.tx.inputs, op) case Some(k) => Some(InputAt(|h|, k)) case None => Consumer(h, lo, op)
  {
    assert (h + [t])[..|h|] == h;
  }

  /** The new transaction's own cells are not in the index yet. */
  lemma NewKeysFresh(rules: Rules, h: Txs, lo: nat, cells: CellTable, t: TxAt, o: nat)
    requires WellFormed(h + [t]) && CellsExact(rules, h, lo, cells) && o < |t.tx.outputs|
    ensures KeyOf(OutPoint(t.tx.hash, o)) !in cells
  {
    hide WellFormed, RowExact;
    var key := KeyOf(OutPoint(t.tx.hash, o));
    if key in cells {
      var i: nat, o': nat :| Names(h, key, i, o');
      OldHash(h, t, i);
    }
  }

  lemma SourceOfPosition(h: Txs, i: nat, o: nat)
    requires DistinctHashes(h) && i < |h| && o < |h[i].tx.outputs|
    ensures Source(h, OpAt(h, i, o)) == Some(i)
  {
    SourceExact(h, OpAt(h, i, o), i);
  }

  /** What inserting the new transaction's cells and applying its spends leaves at one key. */
  ghost predicate Stepped(rules: Rules, h: Txs, t: TxAt, cells: CellTable, backs: seq<NewCell>, after: CellTable)
    requires Readable(rules, h, t)
  {
    && DistinctCells(backs + OutputCells(rules, t))
    && (forall c :: 0 <= c < |backs + OutputCells(rules, t)| ==> (backs + OutputCells(rules, t))[c].key !in cells)
    && (forall s :: 0 <= s < |SpendsOf(rules, h, t)| ==>
          SpendsOf(rules, h, t)[s].key in InsertCells(cells, backs + OutputCells(rules, t)))
    && after == ApplySpends(InsertCells(cells, backs + OutputCells(rules, t)), SpendsOf(rules, h, t))
  }

  predicate OwnKey(rules: Rules, t: TxAt, key: CellKey, o: nat) {
    o < |t.tx.outputs| && key == KeyOf(OutPoint(t.tx.hash, o)) && ReadOutput(rules.protocol, t.tx, o).Some?
  }

  ghost predicate HasOwnKey(rules: Rules, t: TxAt, key: CellKey) {
    exists o: nat :: OwnKey(rules, t, key, o)
  }

  lemma OutputCellKey(rules: Rules, t: TxAt, c: nat)
    requires c < |OutputCells(rules, t)|
    ensures HasOwnKey(rules, t, OutputCells(rules, t)[c].key)
  {
    hide ReadOutput, ReadableOutputs, BuildNewCell;
    var outputs := ReadableOutputs(rules.protocol, t.tx, |t.tx.outputs|);
    ReadableOutputsExact(rules.protocol, t.tx, |t.tx.outputs|);
    BuiltKey(rules, t.tx.hash, outputs[c], AnchorOf(t));
    assert OwnKey(rules, t, OutputCells(rules, t)[c].key, outputs[c].index);
  }

  lemma OutputCellsDistinct(rules: Rules, t: TxAt)
    ensures DistinctCells(OutputCells(rules, t))
    ensures forall c :: 0 <= c < |OutputCells(rules, t)| ==> HasOwnKey(rules, t, OutputCells(rules, t)[c].key)
  {
    hide ReadOutput, ReadableOutputs, BuildNewCell, HasOwnKey;
    var outputs := ReadableOutputs(rules.protocol, t.tx, |t.tx.outputs|);
    ReadableOutputsExact(rules.protocol, t.tx, |t.tx.outputs|);
    forall c | 0 <= c < |OutputCells(rules, t)|
      ensures HasOwnKey(rules, t, OutputCells(rules, t)[c].key)
    {
      OutputCellKey(rules, t, c);
    }
    forall a, b | 0 <= a < b < |outputs|
      ensures OutputCells(rules, t)[a].key != OutputCells(rules, t)[b].key
    {
      BuiltKey(rules, t.tx.hash, outputs[a], AnchorOf(t));
      BuiltKey(rules, t.tx.hash, outputs[b], AnchorOf(t));
      KeyInjective(OutPoint(t.tx.hash, outputs[a].index), OutPoint(t.tx.hash, outputs[b].index));
    }
  }

  lemma BackfillKeysOld(rules: Rules, h: Txs, t: TxAt, cells: CellTable, backs: seq<NewCell>, b: nat)
    requires Readable(rules, h, t) && WellFormed(h + [t])
    requires Backfills(rules, h, InputsOf(rules, h, t), cells, backs) && b < |backs|
    ensures backs[b].key.txHash != t.tx.hash
  {
    hide BackfillCell, OutputAt, InputsOf, Readable, WellFormed, DistinctCells, AnyCell;
    var inputs := InputsOf(rules, h, t);
    var i := BackfilledInput(rules, h, inputs, cells, backs, b);
    BackfillKey(rules, h, inputs[i].outPoint);
    InputIsOld(rules, h, t, i);
  }

  lemma BuiltKey(rules: Rules, txHash: H256, output: RgbppOutput, created: Anchor)
    ensures BuildNewCell(rules, txHash, output, created).key == KeyOf(OutPoint(txHash, output.index))
    ensures BuildNewCell(rules, txHash, output, created).created == created
  {
  }

  lemma StepIsDefined(rules: Rules, h: Txs, lo: nat, t: TxAt, cells: CellTable, backs: seq<NewCell>)
    requires lo <= |h| && WellFormed(h + [t]) && Readable(rules, h, t) && CellsExact(rules, h, lo, cells)
    requires Backfills(rules, h, InputsOf(rules, h, t), cells, backs)
    ensures Stepped(rules, h, t, cells, backs,
                    ApplySpends(InsertCells(cells, backs + OutputCells(rules, t)), SpendsOf(rules, h, t)))
  {
    hide OutputCells, InsertCells, ApplySpends, CellsExact, WellFormed, InputsOf, Readable, BackfillOfInput;
    var outs := OutputCells(rules, t);
    var cs := backs + outs;
    OutputCellsDistinct(rules, t);
    forall c | 0 <= c < |outs|
      ensures outs[c].key !in cells && outs[c].key.txHash == t.tx.hash
    {
      var o: nat :| OwnKey(rules, t, outs[c].key, o);
      NewKeysFresh(rules, h, lo, cells, t, o);
    }
    forall a, b | 0 <= a < b < |cs|
      ensures cs[a].key != cs[b].key
    {
      if a < |backs| <= b {
        BackfillKeysOld(rules, h, t, cells, backs, a);
        assert cs[b] == outs[b - |backs|];
      }
    }
    InsertFresh(cells, cs);
    var inputs := InputsOf(rules, h, t);
    forall s | 0 <= s < |inputs|
      ensures KeyOf(inputs[s].outPoint) in InsertCells(cells, cs)
    {
      if KeyOf(inputs[s].outPoint) !in cells {
        var b :| 0 <= b < |backs| && backs[b].key == KeyOf(inputs[s].outPoint);
        assert cs[b] == backs[b];
      }
    }
  }

  /** An RGB++ cell from before, consumed by `t`: its row, old or backfilled, gains the consumption. */
  lemma StepConsumed(rules: Rules, h: Txs, lo: nat, t: TxAt, cells: CellTable, backs: seq<NewCell>, after: CellTable,
                     i: nat, o: nat, k: nat)
    requires lo <= |h| && WellFormed(h + [t]) && Readable(rules, h, t) && CellsExact(rules, h, lo, cells)
    requires Backfills(rules, h, InputsOf(rules, h, t), cells, backs)
    requires Stepped(rules, h, t, cells, backs, after)
    requires i < |h| && o < |h[i].tx.outputs| && ReadOutput(rules.protocol, h[i].tx, o).Some?
    requires k < |t.tx.inputs| && t.tx.inputs[k] == OpAt(h, i, o)
    ensures var key, output := KeyOf(OpAt(h, i, o)), ReadOutput(rules.protocol, h[i].tx, o).value;
            key in after
            && after[key] == CellRow(BuildNewCell(rules, h[i].tx.hash, output, CreationAnchor(h, lo, i)),
                                     Some(Consumption(AnchorOf(t), t.tx.hash, k)))
  {
    hide OutputCells, InsertCells, ApplySpends, WellFormed, BuildNewCell, ReadOutput, MatchedInputs, Readable,
         BackfillOfInput;
    var op := OpAt(h, i, o);
    var key := KeyOf(op);
    var cs, ss := backs + OutputCells(rules, t), SpendsOf(rules, h, t);
    var inserted := InsertCells(cells, cs);
    WellFormedPrefix(h + [t], |h|);
    assert (h + [t])[..|h|] == h;
    SourceOfPosition(h, i, o);
    NotConsumedBefore(h, lo, t, i, o, k);
    var q := ConsumedCellIsInput(rules, h, t, k);
    SpendsDistinct(rules, h, t);
    InsertFresh(cells, cs);
    SpendDistinct(inserted, ss);
    assert ss[q] == CellSpend(key, Consumption(AnchorOf(t), t.tx.hash, k));
    assert RowExact(rules, h, lo, cells, i, o);
    if key in cells {
      assert after[key] == cells[key].(consumed := Some(ss[q].spentBy));
    } else {
      assert i < lo;
      var b :| 0 <= b < |backs| && backs[b].key == key;
      assert cs[b] == backs[b];
      BackfillIs(rules, h, InputsOf(rules, h, t), cells, backs, b, op);
      assert after[key] == CellRow(backs[b], Some(ss[q].spentBy));
    }
  }

  lemma BackfillIs(rules: Rules, h: Txs, inputs: seq<ResolvedInput>, cells: CellTable, backs: seq<NewCell>, b: nat,
                   op: OutPoint)
    requires Backfills(rules, h, inputs, cells, backs) && b < |backs| && backs[b].key == KeyOf(op)
    requires OutputAt(rules, h, op).Some?
    ensures backs[b] == BackfillCell(rules, h, op)
  {
    hide BackfillCell, OutputAt, DistinctCells, AnyCell;
    var i := BackfilledInput(rules, h, inputs, cells, backs, b);
    BackfillKey(rules, h, inputs[i].outPoint);
    KeyInjective(inputs[i].outPoint, op);
  }

  /** A key that `t` neither consumes nor creates keeps its row, or stays absent. */
  lemma StepUntouched(rules: Rules, h: Txs, lo: nat, t: TxAt, cells: CellTable, backs: seq<NewCell>, after: CellTable,
                      op: OutPoint)
    requires WellFormed(h + [t]) && Readable(rules, h, t)
    requires Backfills(rules, h, InputsOf(rules, h, t), cells, backs)
    requires Stepped(rules, h, t, cells, backs, after)
    requires op.txHash != t.tx.hash
    requires op !in t.tx.inputs || OutputAt(rules, h, op).None?
    ensures var key := KeyOf(op); (key in after <==> key in cells) && (key in cells ==> after[key] == cells[key])
  {
    hide OutputCells, InsertCells, ApplySpends, WellFormed, BuildNewCell, ReadOutput, MatchedInputs, Readable, Source,
         BackfillOfInput;
    var key := KeyOf(op);
    var outs, ss := OutputCells(rules, t), SpendsOf(rules, h, t);
    var cs := backs + outs;
    SpendsDistinct(rules, h, t);
    InsertFresh(cells, cs);
    SpendDistinct(InsertCells(cells, cs), ss);
    OutputCellsDistinct(rules, t);
    forall s | 0 <= s < |ss|
      ensures ss[s].key != key
    {
      InputsNameConsumedCells(rules, h, t, s);
      KeyInjective(InputsOf(rules, h, t)[s].outPoint, op);
    }
    forall c | 0 <= c < |cs|
      ensures cs[c].key != key
    {
      if c < |backs| {
        BackfillKeyConsumed(rules, h, t, cells, backs, c, op);
      } else {
        assert cs[c] == outs[c - |backs|];
      }
    }
    assert !AnySpend(ss, key) && !AnyCell(cs, key);
  }

  lemma BackfillKeyConsumed(rules: Rules, h: Txs, t: TxAt, cells: CellTable, backs: seq<NewCell>, b: nat, op: OutPoint)
    requires Readable(rules, h, t)
    requires Backfills(rules, h, InputsOf(rules, h, t), cells, backs) && b < |backs|
    requires op !in t.tx.inputs || OutputAt(rules, h, op).None?
    ensures backs[b].key != KeyOf(op)
  {
    hide BackfillCell, OutputAt, InputsOf, Readable, DistinctCells, AnyCell;
    var inputs := InputsOf(rules, h, t);
    var i := BackfilledInput(rules, h, inputs, cells, backs, b);
    InputsNameConsumedCells(rules, h, t, i);
    BackfillKey(rules, h, inputs[i].outPoint);
    KeyInjective(inputs[i].outPoint, op);
  }

  lemma BackfillKey(rules: Rules, h: Txs, op: OutPoint)
    requires OutputAt(rules, h, op).Some?
    ensures BackfillCell(rules, h, op).key == KeyOf(op)
  {
    hide ReadOutput;
  }

  lemma OwnCellsNotSpent(rules: Rules, h: Txs, t: TxAt, o: nat)
    requires WellFormed(h + [t]) && Readable(rules, h, t) && o < |t.tx.outputs|
    ensures !AnySpend(SpendsOf(rules, h, t), KeyOf(OutPoint(t.tx.hash, o)))
  {
    hide WellFormed, Readable, InputsOf;
    var ss, op := SpendsOf(rules, h, t), OutPoint(t.tx.hash, o);
    forall s | 0 <= s < |ss|
      ensures ss[s].key != KeyOf(op)
    {
      InputIsOld(rules, h, t, s);
      KeyInjective(InputsOf(rules, h, t)[s].outPoint, op);
    }
  }

  /** Among the inserted cells, the one for output `o` is there iff the output is readable. */
  lemma OwnCellInserted(rules: Rules, h: Txs, t: TxAt, cells: CellTable, backs: seq<NewCell>, o: nat)
    requires WellFormed(h + [t]) && Readable(rules, h, t) && o < |t.tx.outputs|
    requires Backfills(rules, h, InputsOf(rules, h, t), cells, backs)
    ensures var cs, key := backs + OutputCells(rules, t), KeyOf(OutPoint(t.tx.hash, o));
            match ReadOutput(rules.protocol, t.tx, o)
            case None => !AnyCell(cs, key)
            case Some(output) => BuildNewCell(rules, t.tx.hash, output, AnchorOf(t)) in cs
                                 && BuildNewCell(rules, t.tx.hash, output, AnchorOf(t)).key == key
  {
    hide WellFormed, Readable, InputsOf, BuildNewCell, ReadOutput, ReadableOutputs, Backfills;
    var outs := OutputCells(rules, t);
    var cs, op := backs + outs, OutPoint(t.tx.hash, o);
    var outputs := ReadableOutputs(rules.protocol, t.tx, |t.tx.outputs|);
    ReadableOutputsExact(rules.protocol, t.tx, |t.tx.outputs|);
    if ReadOutput(rules.protocol, t.tx, o).Some? {
      var x :| 0 <= x < |outputs| && outputs[x] == ReadOutput(rules.protocol, t.tx, o).value;
      assert cs[|backs| + x] == outs[x];
      BuiltKey(rules, t.tx.hash, outputs[x], AnchorOf(t));
    } else {
      forall c | 0 <= c < |cs|
        ensures cs[c].key != KeyOf(op)
      {
        if c < |backs| {
          BackfillKeysOld(rules, h, t, cells, backs, c);
        } else {
          var x := c - |backs|;
          assert cs[c] == outs[x];
          BuiltKey(rules, t.tx.hash, outputs[x], AnchorOf(t));
          KeyInjective(OutPoint(t.tx.hash, outputs[x].index), op);
        }
      }
    }
  }

  /** A cell `t` creates: its row is the one built from the output, unconsumed, iff the output is readable. */
  lemma StepCreated(rules: Rules, h: Txs, lo: nat, t: TxAt, cells: CellTable, backs: seq<NewCell>, after: CellTable,
                    o: nat)
    requires WellFormed(h + [t]) && Readable(rules, h, t) && CellsExact(rules, h, lo, cells)
    requires Backfills(rules, h, InputsOf(rules, h, t), cells, backs)
    requires Stepped(rules, h, t, cells, backs, after)
    requires o < |t.tx.outputs|
    ensures var key := KeyOf(OutPoint(t.tx.hash, o));
            match ReadOutput(rules.protocol, t.tx, o)
            case None => key !in after
            case Some(output) =>
              key in after && after[key] == CellRow(BuildNewCell(rules, t.tx.hash, output, AnchorOf(t)), None)
  {
    hide InsertCells, ApplySpends, WellFormed, BuildNewCell, ReadOutput, OutputCells, SpendsOf, CellsExact, Readable,
         Backfills, InputsOf;
    var cs, ss := backs + OutputCells(rules, t), SpendsOf(rules, h, t);
    SpendsDistinct(rules, h, t);
    InsertFresh(cells, cs);
    SpendDistinct(InsertCells(cells, cs), ss);
    NewKeysFresh(rules, h, lo, cells, t, o);
    OwnCellsNotSpent(rules, h, t, o);
    OwnCellInserted(rules, h, t, cells, backs, o);
  }

  lemma InputIsOld(rules: Rules, h: Txs, t: TxAt, q: nat)
    requires WellFormed(h + [t]) && Readable(rules, h, t) && q < |InputsOf(rules, h, t)|
    ensures InputsOf(rules, h, t)[q].outPoint.txHash != t.tx.hash
  {
    hide MatchedInputs, InputsOf, Readable;
    InputsNameConsumedCells(rules, h, t, q);
    var s := Source(h, InputsOf(rules, h, t)[q].outPoint).value;
    assert (h + [t])[s] == h[s] && (h + [t])[|h|] == t;
  }

  /** A row position of the longer history is exact after the step. */
  lemma StepRow(rules: Rules, h: Txs, lo: nat, t: TxAt, cells: CellTable, backs: seq<NewCell>, after: CellTable,
                i: nat, o: nat)
    requires lo <= |h| && WellFormed(h + [t]) && Readable(rules, h, t) && CellsExact(rules, h, lo, cells)
    requires Backfills(rules, h, InputsOf(rules, h, t), cells, backs)
    requires Stepped(rules, h, t, cells, backs, after)
    requires i < |h + [t]| && o < |(h + [t])[i].tx.outputs|
    ensures RowExact(rules, h + [t], lo, after, i, o)
  {
    hide Stepped, Backfills, CellsExact, WellFormed, BuildNewCell, ReadOutput, Readable, Consumer, FindInput;
    var h' := h + [t];
    var op := OpAt(h', i, o);
    ConsumerAfter(h, lo, t, op);
    if i == |h| {
      NewCellUnconsumed(h, lo, t, o);
      StepCreated(rules, h, lo, t, cells, backs, after, o);
    } else {
      assert h'[i] == h[i] && h'[|h|] == t;
      OldHash(h, t, i);
      WellFormedPrefix(h', |h|);
      assert h'[..|h|] == h;
      SourceIn(h, i, o);
      var output := ReadOutput(rules.protocol, h[i].tx, o);
      if output.Some? && op in t.tx.inputs {
        var k := FindInput(t.tx.inputs, op).value;
        StepConsumed(rules, h, lo, t, cells, backs, after, i, o, k);
      } else {
        StepUntouched(rules, h, lo, t, cells, backs, after, op);
        assert RowExact(rules, h, lo, cells, i, o) by {
          RowOf(rules, h, lo, cells, i, o);
        }
        if output.Some? {
          ConsumptionStable(h, t, lo, op);
        }
      }
    }
  }

  lemma OldHash(h: Txs, t: TxAt, i: nat)
    requires WellFormed(h + [t]) && i < |h|
    ensures h[i].tx.hash != t.tx.hash
  {
    hide WellFormed;
    assert (h + [t])[i] == h[i] && (h + [t])[|h|] == t;
    if h[i].tx.hash == t.tx.hash {
      OneCreator(h + [t], i, |h|);
    }
  }

  lemma SourceIn(h: Txs, i: nat, o: nat)
    requires WellFormed(h) && i < |h| && o < |h[i].tx.outputs|
    ensures Source(h, OpAt(h, i, o)) == Some(i)
  {
    SourceOfPosition(h, i, o);
  }

  lemma RowOf(rules: Rules, h: Txs, lo: nat, cells: CellTable, i: nat, o: nat)
    requires CellsExact(rules, h, lo, cells) && i < |h| && o < |h[i].tx.outputs|
    ensures RowExact(rules, h, lo, cells, i, o)
  {
  }

  lemma ConsumptionStable(h: Txs, t: TxAt, lo: nat, op: OutPoint)
    ensures ConsumptionAt(h + [t], Consumer(h, lo, op)) == ConsumptionAt(h, Consumer(h, lo, op))
  {
  }

  /** The cell table stays exact when one more transaction's facts are written. */
  lemma StepCells(rules: Rules, h: Txs, lo: nat, t: TxAt, cells: CellTable, backs: seq<NewCell>)
    requires lo <= |h| && WellFormed(h + [t]) && Readable(rules, h, t) && CellsExact(rules, h, lo, cells)
    requires Backfills(rules, h, InputsOf(rules, h, t), cells, backs)
    ensures CellsExact(rules, h + [t], lo,
                       ApplySpends(InsertCells(cells, backs + OutputCells(rules, t)), SpendsOf(rules, h, t)))
  {
    hide RowExact, WellFormed, Readable;
    var h' := h + [t];
    var cs := backs + OutputCells(rules, t);
    var after := ApplySpends(InsertCells(cells, cs), SpendsOf(rules, h, t));
    StepIsDefined(rules, h, lo, t, cells, backs);
    forall i: nat, o: nat | i < |h'| && o < |h'[i].tx.outputs|
      ensures RowExact(rules, h', lo, after, i, o)
    {
      StepRow(rules, h, lo, t, cells, backs, after, i, o);
    }
    forall key | key in after
      ensures exists i: nat, o: nat :: Names(h', key, i, o)
    {
      StepNames(rules, h, lo, t, cells, backs, after, key);
    }
  }

  lemma OwnKeyNames(rules: Rules, h: Txs, t: TxAt, key: CellKey, o: nat)
    requires OwnKey(rules, t, key, o)
    ensures Names(h + [t], key, |h|, o)
  {
    hide ReadOutput;
    assert (h + [t])[|h|] == t;
  }

  lemma BackfillNames(rules: Rules, h: Txs, op: OutPoint, t: TxAt)
    requires OutputAt(rules, h, op).Some?
    ensures Names(h + [t], BackfillCell(rules, h, op).key, Source(h, op).value, op.index)
  {
    hide ReadOutput, BackfillCell;
    BackfillKey(rules, h, op);
    assert (h + [t])[Source(h, op).value] == h[Source(h, op).value];
  }

  lemma BackNames(rules: Rules, h: Txs, t: TxAt, inputs: seq<ResolvedInput>, cells: CellTable, backs: seq<NewCell>,
                  b: nat)
    requires Backfills(rules, h, inputs, cells, backs) && b < |backs|
    ensures exists i: nat, o: nat :: Names(h + [t], backs[b].key, i, o)
  {
    hide BackfillCell, DistinctCells, AnyCell, ReadOutput;
    var x := BackfilledInput(rules, h, inputs, cells, backs, b);
    var op := inputs[x].outPoint;
    BackfillNames(rules, h, op, t);
    assert Names(h + [t], backs[b].key, Source(h, op).value, op.index);
  }

  lemma OutNames(rules: Rules, h: Txs, t: TxAt, c: nat)
    requires c < |OutputCells(rules, t)|
    ensures exists i: nat, o: nat :: Names(h + [t], OutputCells(rules, t)[c].key, i, o)
  {
    hide OutputCells, OwnKey, Names;
    OutputCellsDistinct(rules, t);
    var o: nat :| OwnKey(rules, t, OutputCells(rules, t)[c].key, o);
    OwnKeyNames(rules, h, t, OutputCells(rules, t)[c].key, o);
  }

  lemma StepNames(rules: Rules, h: Txs, lo: nat, t: TxAt, cells: CellTable, backs: seq<NewCell>, after: CellTable,
                  key: CellKey)
    requires Readable(rules, h, t) && CellsExact(rules, h, lo, cells)
    requires Backfills(rules, h, InputsOf(rules, h, t), cells, backs)
    requires Stepped(rules, h, t, cells, backs, after) && key in after
    ensures exists i: nat, o: nat :: Names(h + [t], key, i, o)
  {
    hide InsertCells, ApplySpends, OutputCells, RowExact, Readable, SpendsOf, Backfills, DistinctCells;
    var cs := backs + OutputCells(rules, t);
    SpendsKeepKeys(InsertCells(cells, cs), SpendsOf(rules, h, t));
    InsertFresh(cells, cs);
    if key in cells {
      var i: nat, o: nat :| Names(h, key, i, o);
      assert (h + [t])[i] == h[i];
      assert Names(h + [t], key, i, o);
    } else {
      assert AnyCell(cs, key);
      var c :| 0 <= c < |cs| && cs[c].key == key;
      if c < |backs| {
        BackNames(rules, h, t, InputsOf(rules, h, t), cells, backs, c);
      } else {
        OutNames(rules, h, t, c - |backs|);
      }
    }
  }

  /** The transitions one transaction contributes: none, or one. */
  ghost function TransitionFacts(rules: Rules, h: Txs, t: TxAt): seq<NewTransition>
    requires Readable(rules, h, t)
  {
    match ExpectedTransition(rules, h, t) case None => [] case Some(f) => [f]
  }

  lemma StepReadable(rules: Rules, h: Txs, lo: nat, t: TxAt)
    requires Readable(rules, h, t) && AllReadable(rules, h, lo)
    ensures AllReadable(rules, h + [t], lo)
  {
    hide Readable;
    var h' := h + [t];
    assert h'[|h|] == t && h'[..|h|] == h;
    forall p | lo <= p < |h'|
      ensures Readable(rules, h'[..p], h'[p])
    {
      if p < |h| {
        assert h'[..p] == h[..p] && h'[p] == h[p];
      }
    }
  }

  /** The table after a transaction's transition, if any, is inserted. */
  lemma InsertFacts(rules: Rules, h: Txs, lo: nat, t: TxAt, ts: TransitionTable)
    requires WellFormed(h + [t]) && Readable(rules, h, t)
    requires AllReadable(rules, h, lo) && TransitionsExact(rules, h, lo, ts)
    ensures t.tx.hash !in ts
    ensures var after := InsertTransitions(ts, TransitionFacts(rules, h, t));
            && TransitionExact(rules, h, t, after)
            && (forall key :: key != t.tx.hash ==> (key in after <==> key in ts) && (key in ts ==> after[key] == ts[key]))
  {
    hide Readable, ExpectedTransition, WellFormed, TransitionExact;
    if t.tx.hash in ts {
      var p :| lo <= p < |h| && h[p].tx.hash == t.tx.hash;
      OldHash(h, t, p);
    }
    InsertOwnFact(rules, h, t, ts);
  }

  lemma InsertOwnFact(rules: Rules, h: Txs, t: TxAt, ts: TransitionTable)
    requires Readable(rules, h, t) && t.tx.hash !in ts
    ensures var after := InsertTransitions(ts, TransitionFacts(rules, h, t));
            && TransitionExact(rules, h, t, after)
            && (forall key :: key != t.tx.hash ==> (key in after <==> key in ts) && (key in ts ==> after[key] == ts[key]))
  {
    hide Readable, ExpectedTransition;
    var facts := TransitionFacts(rules, h, t);
    ExtractionHash(rules, h, t);
    if facts != [] {
      assert facts[..0] == [] && InsertTransitions(ts, []) == ts;
      assert InsertTransitions(ts, facts) == InsertTransition(ts, facts[0]);
    }
  }

  lemma StepTransitions(rules: Rules, h: Txs, lo: nat, t: TxAt, ts: TransitionTable)
    requires lo <= |h| && WellFormed(h + [t]) && Readable(rules, h, t)
    requires AllReadable(rules, h, lo) && TransitionsExact(rules, h, lo, ts)
    ensures AllReadable(rules, h + [t], lo)
    ensures TransitionsExact(rules, h + [t], lo, InsertTransitions(ts, TransitionFacts(rules, h, t)))
  {
    hide Readable, ExpectedTransition, TransitionFacts, InsertTransitions, WellFormed;
    var h' := h + [t];
    var after := InsertTransitions(ts, TransitionFacts(rules, h, t));
    assert h'[|h|] == t && h'[..|h|] == h;
    StepReadable(rules, h, lo, t);
    InsertFacts(rules, h, lo, t, ts);
    forall p | lo <= p < |h'|
      ensures TransitionExact(rules, h'[..p], h'[p], after)
    {
      if p < |h| {
        assert h'[..p] == h[..p] && h'[p] == h[p];
        OldHash(h, t, p);
        assert TransitionExact(rules, h[..p], h[p], ts);
      }
    }
    forall key | key in after
      ensures exists p :: lo <= p < |h'| && h'[p].tx.hash == key
    {
      if key == t.tx.hash {
        assert h'[|h|].tx.hash == key;
      } else {
        var p :| lo <= p < |h| && h[p].tx.hash == key;
        assert h'[p].tx.hash == key;
      }
    }
  }

  lemma ExtractionHash(rules: Rules, h: Txs, t: TxAt)
    requires Readable(rules, h, t)
    ensures forall f :: f in TransitionFacts(rules, h, t) ==> f.ckbTxHash == t.tx.hash
  {
    hide ReadableOutputs, ClassifyTransition, CommonTxid, ExpectedCommitment, NewCells, Spends;
  }

  /** Writing one more transaction's facts turns the index of a history into the index of the longer one. */
  lemma StepIndex(rules: Rules, h: Txs, lo: nat, t: TxAt, cells: CellTable, ts: TransitionTable, backs: seq<NewCell>)
    requires IsIndex(rules, h, lo, cells, ts) && WellFormed(h + [t]) && Readable(rules, h, t)
    requires Backfills(rules, h, InputsOf(rules, h, t), cells, backs)
    ensures IsIndex(rules, h + [t], lo,
                    ApplySpends(InsertCells(cells, backs + OutputCells(rules, t)), SpendsOf(rules, h, t)),
                    InsertTransitions(ts, TransitionFacts(rules, h, t)))
  {
    hide CellsExact, TransitionsExact, AllReadable, Readable, WellFormed, Backfills;
    StepCells(rules, h, lo, t, cells, backs);
    StepTransitions(rules, h, lo, t, ts);
  }
}
