/**
 When an indexer answers for less than the round asks (crates/ckb/src/client.rs `synced_tip`,
 crates/indexer/src/scanner.rs `scan_once`): exactly what the committed tables then miss.
 */
module Loss {
  import opened Ckb
  import opened Rows
  import opened Chain
  import opened Matching
  import opened Extract
  import opened Tables
  import opened Index
  import opened Rounds
  import opened Scan
  import opened Integrity

  /** The transaction at `p` neither consumes a cell under either lock nor creates a readable one. */
  ghost predicate Silent(rules: Rules, h: Txs, p: nat)
    requires p < |h|
  {
    && MatchedInputs(rules.protocol, h[..p], h[p].tx) == []
    && ReadableOutputs(rules.protocol, h[p].tx, |h[p].tx.outputs|) == []
  }

  ghost predicate SilentFrom(rules: Rules, h: Txs, a: nat, b: nat)
    requires b <= |h|
  {
    forall p :: a <= p < b ==> Silent(rules, h, p)
  }

  lemma SilentAddsNothing(rules: Rules, before: Txs, t: TxAt, ts: TransitionTable)
    requires MatchedInputs(rules.protocol, before, t.tx) == []
    requires ReadableOutputs(rules.protocol, t.tx, |t.tx.outputs|) == []
    ensures Readable(rules, before, t) && OutputCells(rules, t) == [] && SpendsOf(rules, before, t) == []
    ensures InsertTransitions(ts, TransitionFacts(rules, before, t)) == ts
  {
    hide MatchedInputs, ReadableOutputs;
  }

  /** A silent transaction leaves the index of a history the index of the longer one. */
  lemma SilentStep(rules: Rules, h: Txs, lo: nat, p: nat, cells: CellTable, ts: TransitionTable)
    requires WellFormed(h) && lo <= p < |h| && Silent(rules, h, p) && IsIndex(rules, h[..p], lo, cells, ts)
    ensures IsIndex(rules, h[..p + 1], lo, cells, ts)
  {
    hide IsIndex, WellFormed, Readable, OutputCells, SpendsOf, TransitionFacts, MatchedInputs, ReadableOutputs;
    assert h[..p] + [h[p]] == h[..p + 1];
    WellFormedPrefix(h, p + 1);
    SilentAddsNothing(rules, h[..p], h[p], ts);
    NothingToBackfill(rules, h[..p], h[p], cells);
    StepIndex(rules, h[..p], lo, h[p], cells, ts, []);
    var none: seq<NewCell> := [];
    assert none + OutputCells(rules, h[p]) == [];
  }

  lemma NothingToBackfill(rules: Rules, before: Txs, t: TxAt, cells: CellTable)
    requires MatchedInputs(rules.protocol, before, t.tx) == []
    ensures Readable(rules, before, t) && Backfills(rules, before, InputsOf(rules, before, t), cells, [])
  {
    hide MatchedInputs;
  }

  lemma {:induction false} SilentRange(rules: Rules, h: Txs, lo: nat, a: nat, b: nat,
                                       cells: CellTable, ts: TransitionTable)
    requires WellFormed(h) && lo <= a <= b <= |h| && SilentFrom(rules, h, a, b) && IsIndex(rules, h[..a], lo, cells, ts)
    ensures IsIndex(rules, h[..b], lo, cells, ts)
    decreases b
  {
    hide IsIndex, WellFormed, Silent;
    if a < b {
      SilentRange(rules, h, lo, a, b - 1, cells, ts);
      SilentStep(rules, h, lo, b - 1, cells, ts);
    }
  }

  /** Any other transaction is missed for good: the longer index would have its transition. */
  lemma MissedIsMissing(rules: Rules, h: Txs, lo: nat, a: nat, b: nat, cells: CellTable, ts: TransitionTable, p: nat)
    requires WellFormed(h) && lo <= a <= p < b <= |h| && !Silent(rules, h, p)
    requires IsIndex(rules, h[..a], lo, cells, ts)
    ensures !IsIndex(rules, h[..b], lo, cells, ts)
  {
    hide WellFormed, Readable, CellsExact, TransitionExact, MatchedInputs, ReadableOutputs;
    assert h[..b][..p] == h[..p] && h[..b][p] == h[p];
    if IsIndex(rules, h[..b], lo, cells, ts) {
      assert TransitionExact(rules, h[..b][..p], h[..b][p], ts);
      FactOf(rules, h[..p], h[p], ts);
      var q :| lo <= q < a && h[..a][q].tx.hash == h[p].tx.hash;
      OneCreator(h, p, q);
    }
  }

  lemma AnswerCovers(cfg: ScanConfig, db: Db, view: View, from: nat, to: nat, target: nat)
    requires view.Valid() && WellFormed(History(view.blocks)) && from <= to < |view.blocks|
    requires IndexOf(cfg, view.blocks[..from], db) && BuildBatch(cfg, db.cells, view, from, to, target).Ok?
    ensures var batch := BuildBatch(cfg, db.cells, view, from, to, target).value;
            IndexOf(cfg, view.blocks[..AnswerEnd(view, from, to)],
                    db.(cells := CellsAfter(db.cells, batch), transitions := InsertTransitions(db.transitions, batch.transitions)))
  {
    hide WellFormed, History, ProcessAll, Headers, RecordsIn, InsertTransitions, IsIndex, ReadableRange, InsertCells,
         ApplySpends, FaithfulCells, FaithfulTable;
    var blocks := view.blocks;
    var node, first, end := History(blocks), cfg.FirstBlock(), AnswerEnd(view, from, to);
    BeforeMonotone(blocks, from, end);
    BeforeInPrefix(blocks, from, first);
    BeforeInPrefix(blocks, end, first);
    IndexIsFaithful(cfg.rules, node, Before(blocks, from), Before(blocks, first), db.cells, db.transitions);
    RangeExact(cfg.rules, db.cells, db.transitions, blocks, Before(blocks, first), Before(blocks, from), Before(blocks, end));
  }

  /**
   Without assuming anything about the indexer: a committed round leaves the index of the prefix its
   checkpoint names if and only if the blocks of its range that the indexer had not populated are silent.
   */
  lemma CommitIsRightExactly(cfg: ScanConfig, db: Db, view: View, r: RoundResult)
    requires cfg.Valid() && view.Valid() && WellFormed(History(view.blocks)) && OnChain(cfg, db, view.blocks)
    requires r == Round(cfg, db, view) && r.outcome.Committed?
    ensures RightExactly(cfg, view, r.committed, r.outcome.from, r.outcome.to)
  {
    hide WellFormed, Round, BuildBatch, CellsAfter, InsertTransitions, IsIndex, Silent, History, OnChain;
    CommitRange(cfg, db, view);
    IndexAtCheckpoint(cfg, db, view.blocks);
    var from, to := r.outcome.from, r.outcome.to;
    AnswerCovers(cfg, db, view, from, to, cfg.SafeTarget(view.SyncedTip()).value);
    AnswerIsRightExactly(cfg, view, r.committed, from, to);
  }

  /** `db` ends at block `to`, and is the index of that prefix iff the unanswered part of `[from, to]` is silent. */
  ghost predicate RightExactly(cfg: ScanConfig, view: View, db: Db, from: nat, to: nat) {
    && from <= to < |view.blocks| && Before(view.blocks, to + 1) <= |History(view.blocks)|
    && AtEnd(db, view.blocks[..to + 1])
    && (IndexOf(cfg, view.blocks[..to + 1], db)
        <==> SilentFrom(cfg.rules, History(view.blocks), Before(view.blocks, AnswerEnd(view, from, to)),
                        Before(view.blocks, to + 1)))
  }

  lemma AnswerIsRightExactly(cfg: ScanConfig, view: View, db: Db, from: nat, to: nat)
    requires WellFormed(History(view.blocks)) && cfg.FirstBlock() <= from <= to < |view.blocks|
    requires AtEnd(db, view.blocks[..to + 1]) && IndexOf(cfg, view.blocks[..AnswerEnd(view, from, to)], db)
    ensures RightExactly(cfg, view, db, from, to)
  {
    hide WellFormed, IsIndex, Silent, History, AtEnd;
    var h, first, end := History(view.blocks), cfg.FirstBlock(), AnswerEnd(view, from, to);
    BeforeInPrefix(view.blocks, end, first);
    BeforeInPrefix(view.blocks, to + 1, first);
    BeforeMonotone(view.blocks, end, to + 1);
    BeforeMonotone(view.blocks, first, end);
    var lo, a, b := Before(view.blocks, first), Before(view.blocks, end), Before(view.blocks, to + 1);
    if SilentFrom(cfg.rules, h, a, b) {
      SilentRange(cfg.rules, h, lo, a, b, db.cells, db.transitions);
    } else {
      var p :| a <= p < b && !Silent(cfg.rules, h, p);
      MissedIsMissing(cfg.rules, h, lo, a, b, db.cells, db.transitions, p);
    }
  }

  // ----- a configured start of 0

  lemma LaterConsumer(h: Txs, lo: nat, i: nat, op: OutPoint)
    requires WellFormed(h) && lo <= i < |h| && Creates(h[i], op)
    ensures Consumer(h, 0, op) == Consumer(h, lo, op)
  {
    hide WellFormed;
    var c, d := Consumer(h, 0, op), Consumer(h, lo, op);
    if c.Some? {
      CreatorFirst(h, i, c.value.pos, c.value.index);
      assert op in h[c.value.pos].tx.inputs;
      OneConsumer(h, i, c.value.pos, c.value.index, d.value.pos, d.value.index);
    }
  }

  lemma SameRow(rules: Rules, h: Txs, lo: nat, cells: CellTable, i: nat, o: nat)
    requires WellFormed(h) && lo <= |h| && SilentFrom(rules, h, 0, lo) && i < |h| && o < |h[i].tx.outputs|
    ensures RowExact(rules, h, 0, cells, i, o) <==> RowExact(rules, h, lo, cells, i, o)
  {
    hide WellFormed, ReadOutput, BuildNewCell, MatchedInputs, ReadableOutputs, Consumer;
    if i < lo {
      assert Silent(rules, h, i);
      ReadableOutputsExact(rules.protocol, h[i].tx, |h[i].tx.outputs|);
    } else {
      LaterConsumer(h, lo, i, OpAt(h, i, o));
    }
  }

  lemma SilentTransition(rules: Rules, h: Txs, lo: nat, ts: TransitionTable, p: nat)
    requires WellFormed(h) && p < lo <= |h| && Silent(rules, h, p)
    requires forall key :: key in ts ==> exists q :: lo <= q < |h| && h[q].tx.hash == key
    ensures Readable(rules, h[..p], h[p]) && TransitionExact(rules, h[..p], h[p], ts)
  {
    hide WellFormed, MatchedInputs, ReadableOutputs;
    if h[p].tx.hash in ts {
      var q :| lo <= q < |h| && h[q].tx.hash == h[p].tx.hash;
      OneCreator(h, p, q);
    }
  }

  lemma SilentStart(rules: Rules, h: Txs, lo: nat, cells: CellTable, ts: TransitionTable)
    requires WellFormed(h) && IsIndex(rules, h, lo, cells, ts) && SilentFrom(rules, h, 0, lo)
    ensures IsIndex(rules, h, 0, cells, ts)
  {
    hide WellFormed, Readable, RowExact, TransitionExact, Silent;
    forall i: nat, o: nat | i < |h| && o < |h[i].tx.outputs|
      ensures RowExact(rules, h, 0, cells, i, o)
    {
      SameRow(rules, h, lo, cells, i, o);
    }
    forall p | 0 <= p < |h|
      ensures Readable(rules, h[..p], h[p]) && TransitionExact(rules, h[..p], h[p], ts)
    {
      if p < lo {
        SilentTransition(rules, h, lo, ts, p);
      }
    }
  }

  lemma MissedStart(rules: Rules, h: Txs, lo: nat, cells: CellTable, ts: TransitionTable, p: nat)
    requires WellFormed(h) && IsIndex(rules, h, lo, cells, ts) && p < lo && !Silent(rules, h, p)
    ensures !IsIndex(rules, h, 0, cells, ts)
  {
    hide WellFormed, Readable, CellsExact, TransitionExact, MatchedInputs, ReadableOutputs;
    if IsIndex(rules, h, 0, cells, ts) {
      assert TransitionExact(rules, h[..p], h[p], ts);
      FactOf(rules, h[..p], h[p], ts);
      var q :| lo <= q < |h| && h[q].tx.hash == h[p].tx.hash;
      OneCreator(h, p, q);
    }
  }

  /**
   A start block of 0 asks for the whole chain, and block 0 is never scanned. The tables are the index of
   the whole prefix all the same exactly when block 0 is silent.
   */
  lemma StartAtZeroExactly(cfg: ScanConfig, prefix: Blocks, db: Db)
    requires cfg.startBlock == 0 && IndexOf(cfg, prefix, db) && WellFormed(History(prefix))
    ensures Before(prefix, 1) <= |History(prefix)|
    ensures IsIndex(cfg.rules, History(prefix), 0, db.cells, db.transitions)
       <==> SilentFrom(cfg.rules, History(prefix), 0, Before(prefix, 1))
  {
    hide WellFormed, IsIndex, Silent, History;
    BeforeInPrefix(prefix, 1, 1);
    var h, lo := History(prefix), Before(prefix, 1);
    if SilentFrom(cfg.rules, h, 0, lo) {
      SilentStart(cfg.rules, h, lo, db.cells, db.transitions);
    } else {
      var p :| 0 <= p < lo && !Silent(cfg.rules, h, p);
      MissedStart(cfg.rules, h, lo, db.cells, db.transitions, p);
    }
  }
}
