/**
 In which order a transaction's inputs reach the commitment pre-image (crates/indexer/src/scanner.rs
 `collect_range`, crates/indexer/src/extract.rs `expected_commitment`). The pre-image is meant to cover
 them in transaction order; they come in search order.
 */
module InputOrder {
  import opened Wrappers
  import opened Ckb
  import opened Protocol
  import opened Chain
  import opened Matching
  import opened Commitment
  import opened Extract
  import opened Resolve
  import opened Index
  import opened Integrity

  /** The lock kind of the cell an input consumes, if the chain has it and its lock is one of the two. */
  function InputKind(protocol: ProtocolScripts, h: Txs, op: OutPoint): Option<LockKind> {
    if Source(h, op).Some? then protocol.Classify(OutputOf(h, op).lock) else None
  }

  /** The positions among the first `n` inputs with one of these kinds, in transaction order. */
  function PositionsOf(protocol: ProtocolScripts, kinds: set<LockKind>, h: Txs, tx: Tx, n: nat): seq<nat>
    requires n <= |tx.inputs|
  {
    if n == 0 then []
    else
      var front := PositionsOf(protocol, kinds, h, tx, n - 1);
      var kind := InputKind(protocol, h, tx.inputs[n - 1]);
      if kind.Some? && kind.value in kinds then front + [n - 1] else front
  }

  predicate Ascending(s: seq<nat>) {
    forall i, j :: 0 <= i < j < |s| ==> s[i] < s[j]
  }

  lemma {:induction false} PositionsExact(protocol: ProtocolScripts, kinds: set<LockKind>, h: Txs, tx: Tx, n: nat)
    requires n <= |tx.inputs|
    ensures Ascending(PositionsOf(protocol, kinds, h, tx, n))
    ensures forall k: nat :: k in PositionsOf(protocol, kinds, h, tx, n) <==>
              k < n && InputKind(protocol, h, tx.inputs[k]).Some? && InputKind(protocol, h, tx.inputs[k]).value in kinds
  {
    hide InputKind;
    if n > 0 {
      PositionsExact(protocol, kinds, h, tx, n - 1);
      var front := PositionsOf(protocol, kinds, h, tx, n - 1);
      forall i | 0 <= i < |front|
        ensures front[i] < n - 1
      {
        assert front[i] in front;
      }
    }
  }

  // ----- search order is one kind after the other

  lemma {:induction false} IndexesAppend(a: seq<MatchedCell>, b: seq<MatchedCell>)
    ensures InputIndexes(a + b) == InputIndexes(a) + InputIndexes(b)
  {
    if b == [] {
      assert a + b == a;
    } else {
      var n := |b| - 1;
      assert (a + b)[..|a| + n] == a + b[..n];
      IndexesAppend(a, b[..n]);
    }
  }

  lemma {:induction false} OutsHaveNoIndexes(id: ScriptId, tx: Tx, n: nat)
    requires n <= |tx.outputs|
    ensures InputIndexes(MatchedOuts(id, tx, n)) == []
  {
    if n > 0 {
      OutsHaveNoIndexes(id, tx, n - 1);
      var front := MatchedOuts(id, tx, n - 1);
      assert (front + [MatchedCell(Output, n - 1)])[..|front|] == front;
    }
  }

  lemma {:induction false} RgbppIndexes(protocol: ProtocolScripts, h: Txs, tx: Tx, n: nat)
    requires n <= |tx.inputs|
    ensures InputIndexes(MatchedIns(protocol.rgbppLock, h, tx, n)) == PositionsOf(protocol, {Rgbpp}, h, tx, n)
  {
    hide Source;
    if n > 0 {
      RgbppIndexes(protocol, h, tx, n - 1);
      var front := MatchedIns(protocol.rgbppLock, h, tx, n - 1);
      assert (front + [MatchedCell(Input, n - 1)])[..|front|] == front;
    }
  }

  lemma MergeOneMore(a: seq<MatchedCell>, front: seq<MatchedCell>, c: MatchedCell)
    requires Distinct(a) && c !in front
    ensures MergeCells(a, front + [c])
         == if c in a then MergeCells(a, front) else MergeCells(a, front) + [c]
  {
    hide MergeCells;
    MergeCellsExact(a, front);
    MergeStep(a, front, c);
  }

  lemma MergeStep(a: seq<MatchedCell>, front: seq<MatchedCell>, c: MatchedCell)
    ensures MergeCells(a, front + [c])
         == if c in MergeCells(a, front) then MergeCells(a, front) else MergeCells(a, front) + [c]
  {
    assert (front + [c])[..|front|] == front;
  }

  /** Merging the second search's inputs adds the positions of BTC time cells, in order. */
  lemma {:induction false} MergedIndexes(protocol: ProtocolScripts, h: Txs, tx: Tx, a: seq<MatchedCell>, n: nat)
    requires n <= |tx.inputs| && a == KindCells(protocol.rgbppLock, h, tx)
    ensures InputIndexes(MergeCells(a, MatchedIns(protocol.btcTimeLock, h, tx, n)))
         == InputIndexes(a) + PositionsOf(protocol, {BtcTime}, h, tx, n)
  {
    hide Source, KindCells, MergeCells, InputIndexes;
    if n == 0 {
      MergeNothing(a);
    } else {
      var c, front := MatchedCell(Input, n - 1), MatchedIns(protocol.btcTimeLock, h, tx, n - 1);
      MergedIndexes(protocol, h, tx, a, n - 1);
      KindCellsExact(protocol.rgbppLock, h, tx);
      MatchedInsExact(protocol.btcTimeLock, h, tx, n - 1);
      if InputMatches(protocol.btcTimeLock, h, tx.inputs[n - 1]) {
        MergeOneMore(a, front, c);
        assert c in a <==> InputMatches(protocol.rgbppLock, h, tx.inputs[n - 1]);
        OneIndex(MergeCells(a, front), n - 1);
      }
    }
  }

  lemma OneIndex(cells: seq<MatchedCell>, k: nat)
    ensures InputIndexes(cells + [MatchedCell(Input, k)]) == InputIndexes(cells) + [k]
  {
    assert (cells + [MatchedCell(Input, k)])[..|cells|] == cells;
  }

  lemma {:induction false} MergedOuts(a: seq<MatchedCell>, ins: seq<MatchedCell>, id: ScriptId, tx: Tx, n: nat)
    requires n <= |tx.outputs|
    ensures InputIndexes(MergeCells(a, ins + MatchedOuts(id, tx, n))) == InputIndexes(MergeCells(a, ins))
  {
    hide MergeCells;
    if n == 0 {
      assert ins + MatchedOuts(id, tx, 0) == ins;
    } else {
      MergedOuts(a, ins, id, tx, n - 1);
      var front, c := ins + MatchedOuts(id, tx, n - 1), MatchedCell(Output, n - 1);
      MergeStep(a, front, c);
      assert ins + (MatchedOuts(id, tx, n - 1) + [c]) == front + [c];
      assert (MergeCells(a, front) + [c])[..|MergeCells(a, front)|] == MergeCells(a, front);
    }
  }

  /** The record lists the RGB++ inputs in transaction order, and then the BTC time inputs in transaction order. */
  lemma SearchOrder(protocol: ProtocolScripts, h: Txs, tx: Tx)
    ensures MatchedInputs(protocol, h, tx)
         == PositionsOf(protocol, {Rgbpp}, h, tx, |tx.inputs|) + PositionsOf(protocol, {BtcTime}, h, tx, |tx.inputs|)
  {
    hide MatchedIns, MatchedOuts, MergeCells, InputIndexes, PositionsOf;
    var n, a := |tx.inputs|, KindCells(protocol.rgbppLock, h, tx);
    RgbppIndexes(protocol, h, tx, n);
    OutsHaveNoIndexes(protocol.rgbppLock, tx, |tx.outputs|);
    IndexesAppend(MatchedIns(protocol.rgbppLock, h, tx, n), MatchedOuts(protocol.rgbppLock, tx, |tx.outputs|));
    MergedIndexes(protocol, h, tx, a, n);
    MergedOuts(a, MatchedIns(protocol.btcTimeLock, h, tx, n), protocol.btcTimeLock, tx, |tx.outputs|);
  }

  // ----- when that is transaction order

  /** No BTC time cell is consumed ahead of an RGB++ cell. */
  predicate RgbppFirst(protocol: ProtocolScripts, h: Txs, tx: Tx) {
    !exists i, j :: 0 <= i < j < |tx.inputs|
      && InputKind(protocol, h, tx.inputs[i]) == Some(BtcTime) && InputKind(protocol, h, tx.inputs[j]) == Some(Rgbpp)
  }

  /** The matched inputs are in transaction order exactly when no BTC time cell is consumed ahead of an RGB++ cell. */
  lemma OrderedExactly(protocol: ProtocolScripts, h: Txs, tx: Tx)
    ensures Ascending(MatchedInputs(protocol, h, tx)) <==> RgbppFirst(protocol, h, tx)
  {
    hide MatchedInputs, PositionsOf, InputKind;
    SearchOrder(protocol, h, tx);
    var n := |tx.inputs|;
    var first, second := PositionsOf(protocol, {Rgbpp}, h, tx, n), PositionsOf(protocol, {BtcTime}, h, tx, n);
    PositionsExact(protocol, {Rgbpp}, h, tx, n);
    PositionsExact(protocol, {BtcTime}, h, tx, n);
    if Ascending(first + second) {
      forall i, j | 0 <= i < j < n
        ensures !(InputKind(protocol, h, tx.inputs[i]) == Some(BtcTime) && InputKind(protocol, h, tx.inputs[j]) == Some(Rgbpp))
      {
        if InputKind(protocol, h, tx.inputs[i]) == Some(BtcTime) && InputKind(protocol, h, tx.inputs[j]) == Some(Rgbpp) {
          InBoth(first, second, j, i);
        }
      }
    }
    if RgbppFirst(protocol, h, tx) {
      forall x, y | 0 <= x < |first| && 0 <= y < |second|
        ensures first[x] < second[y]
      {
        assert first[x] in first && second[y] in second;
      }
      AscendingAppend(first, second);
    }
  }

  lemma InBoth(first: seq<nat>, second: seq<nat>, a: nat, b: nat)
    requires Ascending(first + second) && a in first && b in second
    ensures a < b
  {
    var x :| 0 <= x < |first| && first[x] == a;
    var y :| 0 <= y < |second| && second[y] == b;
    assert (first + second)[x] == a && (first + second)[|first| + y] == b;
  }

  lemma AscendingAppend(first: seq<nat>, second: seq<nat>)
    requires Ascending(first) && Ascending(second)
    requires forall x, y :: 0 <= x < |first| && 0 <= y < |second| ==> first[x] < second[y]
    ensures Ascending(first + second)
  {
  }

  // ----- what that means for the pre-image

  function AllMatched(protocol: ProtocolScripts, h: Txs, tx: Tx): seq<nat> {
    PositionsOf(protocol, {Rgbpp, BtcTime}, h, tx, |tx.inputs|)
  }

  lemma LastIsGreatest(a: seq<nat>, k: nat)
    requires Ascending(a) && k in a
    ensures k <= a[|a| - 1]
    ensures k in a[..|a| - 1] <==> k != a[|a| - 1]
  {
    var i :| 0 <= i < |a| && a[i] == k;
    assert k != a[|a| - 1] ==> a[..|a| - 1][i] == k;
  }

  lemma {:induction false} SortedOnce(a: seq<nat>, b: seq<nat>)
    requires Ascending(a) && Ascending(b) && forall k :: k in a <==> k in b
    ensures a == b
    decreases |a|
  {
    if a != [] {
      assert a[0] in b;
      var x, y := a[..|a| - 1], b[..|b| - 1];
      assert a[|a| - 1] in b && b[|b| - 1] in a;
      LastIsGreatest(a, b[|b| - 1]);
      LastIsGreatest(b, a[|a| - 1]);
      forall k
        ensures k in x <==> k in y
      {
        Front(a, k);
        Front(b, k);
      }
      SortedOnce(x, y);
      assert a == x + [a[|a| - 1]] && b == y + [b[|b| - 1]];
    } else if b != [] {
      HasElement(b);
    }
  }

  lemma HasElement(b: seq<nat>)
    requires b != []
    ensures exists k: nat :: k in b
  {
    assert b[0] in b;
  }

  lemma Front(a: seq<nat>, k: nat)
    requires Ascending(a) && a != []
    ensures k in a[..|a| - 1] <==> k in a && k != a[|a| - 1]
  {
    if k in a {
      LastIsGreatest(a, k);
    }
  }

  /** Search order and transaction order list the same inputs. */
  lemma SameOrder(protocol: ProtocolScripts, h: Txs, tx: Tx)
    ensures MatchedInputs(protocol, h, tx) == AllMatched(protocol, h, tx) <==> RgbppFirst(protocol, h, tx)
    ensures |MatchedInputs(protocol, h, tx)| == |AllMatched(protocol, h, tx)|
    ensures forall k: nat :: k in AllMatched(protocol, h, tx) <==> k in MatchedInputs(protocol, h, tx)
  {
    hide MatchedInputs, PositionsOf, Source, RgbppFirst;
    var m, all := MatchedInputs(protocol, h, tx), AllMatched(protocol, h, tx);
    OrderedExactly(protocol, h, tx);
    MatchedInputsExact(protocol, h, tx);
    PositionsExact(protocol, {Rgbpp, BtcTime}, h, tx, |tx.inputs|);
    forall k: nat
      ensures k in all <==> k in m
    {
    }
    if Ascending(m) {
      SortedOnce(m, all);
    }
    SameCount(m, all);
  }

  lemma SameElements(a: seq<nat>, b: seq<nat>)
    requires forall k :: k in a <==> k in b
    ensures (set k: nat | k in a) == (set k: nat | k in b)
  {
  }

  lemma SameCount(a: seq<nat>, b: seq<nat>)
    requires Distinct(a) && Ascending(b) && forall k :: k in a <==> k in b
    ensures |a| == |b|
  {
    assert Distinct(b);
    DistinctCount<nat>(a);
    DistinctCount<nat>(b);
    SameElements(a, b);
  }

  /** The same resolved inputs, in transaction order. */
  ghost function InTransactionOrder(rules: Rules, before: Txs, t: TxAt): (r: seq<ResolvedInput>)
    requires Readable(rules, before, t)
    ensures |r| == |AllMatched(rules.protocol, before, t.tx)|
  {
    SameOrder(rules.protocol, before, t.tx);
    var m := AllMatched(rules.protocol, before, t.tx);
    seq(|m|, i requires 0 <= i < |m| =>
        assert m[i] in m;
        InputFor(OutputAt(rules, before, t.tx.inputs[m[i]]).value, t.tx.inputs[m[i]], m[i]))
  }

  lemma PointsOfPositions(rules: Rules, before: Txs, t: TxAt, i: nat)
    requires Readable(rules, before, t)
    requires i < |MatchedInputs(rules.protocol, before, t.tx)| == |AllMatched(rules.protocol, before, t.tx)|
    ensures var m, all := MatchedInputs(rules.protocol, before, t.tx), AllMatched(rules.protocol, before, t.tx);
            && m[i] < |t.tx.inputs| && all[i] < |t.tx.inputs|
            && OutputAt(rules, before, t.tx.inputs[m[i]]).Some?
            && InputPoints(InputsOf(rules, before, t))[i] == t.tx.inputs[m[i]]
            && InputPoints(InTransactionOrder(rules, before, t))[i] == t.tx.inputs[all[i]]
  {
    hide MatchedInputs, AllMatched, OutputAt;
    SameOrder(rules.protocol, before, t.tx);
    assert MatchedInputs(rules.protocol, before, t.tx)[i] in MatchedInputs(rules.protocol, before, t.tx);
    assert AllMatched(rules.protocol, before, t.tx)[i] in AllMatched(rules.protocol, before, t.tx);
  }

  /** On a well-formed chain the out points are in transaction order exactly when the positions are. */
  lemma PointsInOrderExactly(rules: Rules, before: Txs, t: TxAt)
    requires WellFormed(before + [t]) && Readable(rules, before, t)
    ensures |InputsOf(rules, before, t)| == |InTransactionOrder(rules, before, t)|
    ensures InputPoints(InputsOf(rules, before, t)) == InputPoints(InTransactionOrder(rules, before, t))
       <==> RgbppFirst(rules.protocol, before, t.tx)
  {
    hide MatchedInputs, AllMatched, Readable, WellFormed, RgbppFirst, InputsOf, InTransactionOrder, OutputAt;
    SameOrder(rules.protocol, before, t.tx);
    var m, all := MatchedInputs(rules.protocol, before, t.tx), AllMatched(rules.protocol, before, t.tx);
    var found, ordered := InputPoints(InputsOf(rules, before, t)), InputPoints(InTransactionOrder(rules, before, t));
    forall i | 0 <= i < |m|
      ensures found[i] == ordered[i] <==> m[i] == all[i]
    {
      PointsOfPositions(rules, before, t, i);
      if m[i] != all[i] {
        OncePerTransaction(rules, before, t, m[i], all[i]);
      }
    }
    if found == ordered {
      assert forall i :: 0 <= i < |m| ==> found[i] == ordered[i];
      assert m == all;
    }
  }

  lemma OutputsCommit(protocol: ProtocolScripts, tx: Tx)
    ensures AllCommitted(ReadableOutputs(protocol, tx, |tx.outputs|))
  {
    hide ReadableOutputs, ReadOutput, Genuine, Committed;
    var outputs := ReadableOutputs(protocol, tx, |tx.outputs|);
    ReadableOutputsExact(protocol, tx, |tx.outputs|);
    forall i | 0 <= i < |outputs|
      ensures Genuine(protocol, outputs[i])
    {
      ReadOutputGenuine(protocol, tx, outputs[i].index);
    }
    EntriesExact(protocol, outputs, outputs);
  }

  lemma SamePreimage(a: seq<ResolvedInput>, b: seq<ResolvedInput>, outputs: seq<RgbppOutput>)
    requires AllCommitted(outputs) && |a| == |b| && (a != [] || outputs != [])
    ensures ExpectedPreimage(a, outputs).Some? && ExpectedPreimage(b, outputs).Some?
    ensures Preimage(ExpectedPreimage(a, outputs).value) == Preimage(ExpectedPreimage(b, outputs).value)
       <==> InputPoints(a) == InputPoints(b)
  {
    hide Preimage, Committed;
    var p, q := ExpectedPreimage(a, outputs).value, ExpectedPreimage(b, outputs).value;
    if Preimage(p) == Preimage(q) {
      PreimageParts(p, q);
      PointsInjective(p.inputs, q.inputs);
    }
  }

  /**
   The recorded commitment covers the inputs in transaction order, as it promises, exactly when the
   transaction consumes no BTC time cell ahead of an RGB++ cell. Otherwise its pre-image is another one.
   */
  lemma CommitsInOrderExactly(rules: Rules, before: Txs, t: TxAt)
    requires WellFormed(before + [t]) && Readable(rules, before, t)
    requires InputsOf(rules, before, t) != [] || ReadableOutputs(rules.protocol, t.tx, |t.tx.outputs|) != []
    ensures var outputs := ReadableOutputs(rules.protocol, t.tx, |t.tx.outputs|);
            var recorded := ExpectedPreimage(InputsOf(rules, before, t), outputs);
            var promised := ExpectedPreimage(InTransactionOrder(rules, before, t), outputs);
            && recorded.Some? && promised.Some?
            && (Preimage(recorded.value) == Preimage(promised.value) <==> RgbppFirst(rules.protocol, before, t.tx))
  {
    hide WellFormed, Readable, RgbppFirst, InputsOf, InTransactionOrder, ReadableOutputs, AllCommitted, ExpectedPreimage,
         Preimage, InputPoints;
    PointsInOrderExactly(rules, before, t);
    OutputsCommit(rules.protocol, t.tx);
    SamePreimage(InputsOf(rules, before, t), InTransactionOrder(rules, before, t),
                 ReadableOutputs(rules.protocol, t.tx, |t.tx.outputs|));
  }
}
