/**
 What a round makes of an answer with gaps (crates/indexer/src/scanner.rs `scan_once`): an indexer may leave
 out any of the range's transactions, not only those of blocks it has not reached.
 */
module Partial {
  import opened Wrappers
  import opened Ckb
  import opened Rows
  import opened Chain
  import opened Matching
  import opened Extract
  import opened Tables
  import opened Index
  import opened Rounds
  import opened Integrity
  import opened Loss

  /** The merged search result for positions `[a, b)`, without the positions in `gaps`. */
  function AnsweredIn(rules: Rules, h: Txs, a: nat, b: nat, gaps: set<nat>): seq<TxRecord>
    requires a <= b <= |h|
  {
    if a == b then []
    else
      var records := AnsweredIn(rules, h, a, b - 1, gaps);
      var record := RecordOf(rules.protocol, h, b - 1);
      if record.cells != [] && b - 1 !in gaps then records + [record] else records
  }

  lemma ProcessOneMore(rules: Rules, table: CellTable, node: Txs, blocks: Blocks, records: seq<TxRecord>, record: TxRecord)
    ensures ProcessAll(rules, table, node, blocks, records + [record])
         == (var front := ProcessAll(rules, table, node, blocks, records);
             if front.Err? then front else ProcessTransaction(rules, table, node, blocks, record, front.value))
  {
    hide ProcessTransaction;
    assert (records + [record])[..|records|] == records;
  }

  /** The record of a silent transaction, where there is one, does nothing. */
  lemma SilentRecord(rules: Rules, table: CellTable, ts: TransitionTable, blocks: Blocks, lo: nat, p: nat, pending: Pending)
    requires p < |History(blocks)| && WellFormed(History(blocks)) && FaithfulTable(rules, History(blocks), table)
    requires Silent(rules, History(blocks), p) && PendingExact(rules, History(blocks), lo, p, table, ts, pending)
    ensures ProcessTransaction(rules, table, History(blocks), blocks, RecordOf(rules.protocol, History(blocks), p), pending)
         == Ok(pending)
  {
    hide WellFormed, History, FaithfulTable, Readable, PendingExact, ProcessTransaction, Next, MatchedInputs, ReadableOutputs,
         RecordOf;
    var node := History(blocks);
    ExactIsFaithful(rules, node, lo, p, table, ts, pending);
    ProcessExact(rules, table, blocks, p, pending);
    InputsAtMatch(rules, node, p);
    NoneIsReadable(rules, node, p);
    NextUnchanged(rules, node, table, pending, p);
  }

  lemma NoneIsReadable(rules: Rules, h: Txs, p: nat)
    requires p < |h| && MatchedInputs(rules.protocol, h[..p], h[p].tx) == []
    ensures Readable(rules, h[..p], h[p])
  {
    hide MatchedInputs;
  }

  ghost predicate SilentGaps(rules: Rules, h: Txs, a: nat, b: nat, gaps: set<nat>)
    requires b <= |h|
  {
    forall p :: a <= p < b && p in gaps ==> Silent(rules, h, p)
  }

  /** Leaving out silent transactions does not change what the round builds. */
  lemma {:induction false} GapsUnnoticed(rules: Rules, table: CellTable, ts: TransitionTable, blocks: Blocks, lo: nat,
                                         a: nat, b: nat, gaps: set<nat>)
    requires a <= b <= |History(blocks)| && WellFormed(History(blocks))
    requires IsIndex(rules, History(blocks)[..a], lo, table, ts) && FaithfulTable(rules, History(blocks), table)
    requires SilentGaps(rules, History(blocks), a, b, gaps)
    ensures var node := History(blocks);
            ProcessAll(rules, table, node, blocks, AnsweredIn(rules, node, a, b, gaps))
            == ProcessAll(rules, table, node, blocks, RecordsIn(rules.protocol, node, a, b))
    decreases b
  {
    hide WellFormed, History, FaithfulTable, Silent, IsIndex, PendingExact, ProcessAll, ReadableRange, RecordOf,
         ProcessTransaction;
    var node := History(blocks);
    if a < b {
      var p, record := b - 1, RecordOf(rules.protocol, node, b - 1);
      GapsUnnoticed(rules, table, ts, blocks, lo, a, p, gaps);
      RangeExact(rules, table, ts, blocks, lo, a, p);
      var full := RecordsIn(rules.protocol, node, a, p);
      ProcessOneMore(rules, table, node, blocks, full, record);
      ProcessOneMore(rules, table, node, blocks, AnsweredIn(rules, node, a, p, gaps), record);
      var front := ProcessAll(rules, table, node, blocks, full);
      if p in gaps && front.Ok? {
        SilentRecord(rules, table, ts, blocks, lo, p, front.value);
      }
    }
  }

  // ----- a gap that is not silent

  predicate FromRecord(records: seq<TxRecord>, x: H256) {
    exists i :: 0 <= i < |records| && records[i].txHash == x
  }

  lemma NewTransitions(rules: Rules, table: CellTable, node: Txs, blocks: Blocks, record: TxRecord, pending: Pending)
    requires ProcessTransaction(rules, table, node, blocks, record, pending).Ok?
    ensures forall f :: f in ProcessTransaction(rules, table, node, blocks, record, pending).value.transitions ==>
              f in pending.transitions || f.ckbTxHash == record.txHash
  {
    hide ResolveAll, ReadableOutputs, ClassifyTransition, CommonTxid, ExpectedCommitment, NewCells, Spends;
  }

  lemma {:induction false} TransitionsFromRecords(rules: Rules, table: CellTable, node: Txs, blocks: Blocks, records: seq<TxRecord>)
    requires ProcessAll(rules, table, node, blocks, records).Ok?
    ensures forall f :: f in ProcessAll(rules, table, node, blocks, records).value.transitions ==>
              FromRecord(records, f.ckbTxHash)
  {
    hide ProcessTransaction;
    if records != [] {
      var n := |records| - 1;
      TransitionsFromRecords(rules, table, node, blocks, records[..n]);
      var front := ProcessAll(rules, table, node, blocks, records[..n]).value;
      NewTransitions(rules, table, node, blocks, records[n], front);
      forall f | f in ProcessAll(rules, table, node, blocks, records).value.transitions
        ensures FromRecord(records, f.ckbTxHash)
      {
        if f in front.transitions {
          var i :| 0 <= i < n && records[..n][i].txHash == f.ckbTxHash;
          assert records[i].txHash == f.ckbTxHash;
        }
      }
    }
  }

  lemma {:induction false} AnsweredPosition(rules: Rules, h: Txs, a: nat, b: nat, gaps: set<nat>, x: H256) returns (p: nat)
    requires a <= b <= |h| && FromRecord(AnsweredIn(rules, h, a, b, gaps), x)
    ensures a <= p < b && p !in gaps && h[p].tx.hash == x
    decreases b
  {
    hide RecordCells;
    var records := AnsweredIn(rules, h, a, b, gaps);
    var i :| 0 <= i < |records| && records[i].txHash == x;
    var front := AnsweredIn(rules, h, a, b - 1, gaps);
    if i < |front| {
      assert front[i].txHash == x;
      p := AnsweredPosition(rules, h, a, b - 1, gaps, x);
    } else {
      p := b - 1;
    }
  }

  lemma {:induction false} KeysAfter(ts: TransitionTable, more: seq<NewTransition>, x: H256)
    ensures x in InsertTransitions(ts, more) <==> x in ts || exists f :: f in more && f.ckbTxHash == x
  {
    if more != [] {
      var n := |more| - 1;
      assert more == more[..n] + [more[n]];
      KeysAfter(ts, more[..n], x);
    }
  }

  /** A transaction left out has no transition row afterwards. */
  lemma LeftOutIsMissing(rules: Rules, table: CellTable, ts: TransitionTable, blocks: Blocks, lo: nat, a: nat, b: nat,
                         gaps: set<nat>, p: nat)
    requires a <= p < b <= |History(blocks)| && WellFormed(History(blocks)) && p in gaps
    requires IsIndex(rules, History(blocks)[..a], lo, table, ts)
    requires ProcessAll(rules, table, History(blocks), blocks, AnsweredIn(rules, History(blocks), a, b, gaps)).Ok?
    ensures var node := History(blocks);
            var pending := ProcessAll(rules, table, node, blocks, AnsweredIn(rules, node, a, b, gaps)).value;
            node[p].tx.hash !in InsertTransitions(ts, pending.transitions)
  {
    hide WellFormed, History, CellsExact, AllReadable, TransitionExact, ProcessAll, AnsweredIn, InsertTransitions;
    var node := History(blocks);
    var x, records := node[p].tx.hash, AnsweredIn(rules, node, a, b, gaps);
    var pending := ProcessAll(rules, table, node, blocks, records).value;
    TransitionsFromRecords(rules, table, node, blocks, records);
    KeysAfter(ts, pending.transitions, x);
    if x in ts {
      var q :| lo <= q < a && node[..a][q].tx.hash == x;
      OneCreator(node, p, q);
    }
    if f :| f in pending.transitions && f.ckbTxHash == x {
      var q := AnsweredPosition(rules, node, a, b, gaps, x);
      OneCreator(node, p, q);
    }
  }

  lemma LoudNeedsTransition(rules: Rules, h: Txs, lo: nat, b: nat, cells: CellTable, ts: TransitionTable, p: nat)
    requires lo <= p < b <= |h| && !Silent(rules, h, p) && h[p].tx.hash !in ts
    ensures !IsIndex(rules, h[..b], lo, cells, ts)
  {
    hide Readable, CellsExact, TransitionExact, MatchedInputs, ReadableOutputs;
    assert h[..b][..p] == h[..p] && h[..b][p] == h[p];
    if IsIndex(rules, h[..b], lo, cells, ts) {
      assert TransitionExact(rules, h[..b][..p], h[..b][p], ts);
      FactOf(rules, h[..p], h[p], ts);
    }
  }

  /**
   Whatever part of a range's transactions the indexer answers with, the tables a round then writes are
   the index of the whole range if and only if every transaction left out is silent.
   */
  lemma AnyPartRightExactly(rules: Rules, table: CellTable, ts: TransitionTable, blocks: Blocks, lo: nat, a: nat, b: nat,
                            gaps: set<nat>)
    requires lo <= a <= b <= |History(blocks)| && WellFormed(History(blocks))
    requires IsIndex(rules, History(blocks)[..a], lo, table, ts)
    requires ProcessAll(rules, table, History(blocks), blocks, AnsweredIn(rules, History(blocks), a, b, gaps)).Ok?
    ensures var node := History(blocks);
            var pending := ProcessAll(rules, table, node, blocks, AnsweredIn(rules, node, a, b, gaps)).value;
            IsIndex(rules, node[..b], lo,
                    ApplySpends(InsertCells(table, pending.cells), pending.spends), InsertTransitions(ts, pending.transitions))
            <==> SilentGaps(rules, node, a, b, gaps)
  {
    hide WellFormed, History, IsIndex, ProcessAll, AnsweredIn, InsertTransitions, ApplySpends, InsertCells, Silent, FaithfulTable,
         ReadableRange, FaithfulCells;
    var node := History(blocks);
    var pending := ProcessAll(rules, table, node, blocks, AnsweredIn(rules, node, a, b, gaps)).value;
    IndexIsFaithful(rules, node, a, lo, table, ts);
    if SilentGaps(rules, node, a, b, gaps) {
      GapsUnnoticed(rules, table, ts, blocks, lo, a, b, gaps);
      RangeExact(rules, table, ts, blocks, lo, a, b);
    } else {
      var p :| a <= p < b && p in gaps && !Silent(rules, node, p);
      LeftOutIsMissing(rules, table, ts, blocks, lo, a, b, gaps, p);
      LoudNeedsTransition(rules, node, lo, b, ApplySpends(InsertCells(table, pending.cells), pending.spends),
                          InsertTransitions(ts, pending.transitions), p);
    }
  }
}
