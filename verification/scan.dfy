/**
 One scan round against one snapshot of the node (crates/indexer/src/scanner.rs `scan_once`), as a
 function of the database, and what a committed round does to the index.
 */
module Scan {
  import opened Wrappers
  import opened Protocol
  import opened Rows
  import opened Chain
  import opened Matching
  import opened Extract
  import opened Tables
  import opened Index
  import opened Rounds

  datatype ScanConfig = ScanConfig(
    rules: Rules,
    startBlock: nat,
    reorgLag: nat,
    batchBlocks: nat,
    headerRetention: nat)
  {
    predicate Valid() {
      batchBlocks > 0
    }

    /** The first block a fresh index covers: block 0 never is. */
    function FirstBlock(): nat {
      if startBlock == 0 then 1 else startBlock
    }

    function SafeTarget(tip: nat): Option<nat> {
      if tip < reorgLag || tip - reorgLag < startBlock then None else Some(tip - reorgLag)
    }
  }

  /** One consistent snapshot: the node's chain, the tip the indexer reports, and how many blocks it has populated. */
  datatype View = View(blocks: Blocks, indexerTip: Option<nat>, populated: nat) {
    predicate Valid() {
      blocks != []
    }

    function NodeTip(): nat
      requires Valid()
    {
      |blocks| - 1
    }

    function SyncedTip(): nat
      requires Valid()
    {
      match indexerTip
      case Some(n) => if n < NodeTip() then n else NodeTip()
      case None => NodeTip()
    }
  }

  const FRESH: Db := Db(map[], map[], map[], None)

  // ----- the stream's checkpoint row

  function Initialised(cfg: ScanConfig, db: Db): Db {
    if db.state.Some? then db
    else db.(state := Some(StreamState(if cfg.startBlock == 0 then 0 else cfg.startBlock - 1, None, None, None, 0, false)))
  }

  function Progressed(cfg: ScanConfig, db: Db, tip: nat, target: nat): Db {
    if db.state.None? then db
    else db.(state := Some(db.state.value.(chainTip := Some(tip), target := Some(target), reorgLag := cfg.reorgLag)))
  }

  function Pruned(bs: BlockTable, keepFrom: nat): BlockTable {
    map n | n in bs && n >= keepFrom :: bs[n]
  }

  /** The alarm: the node must still report our hash at the checkpoint. */
  function CheckCanonical(state: StreamState, blocks: Blocks): Result<()> {
    if state.lastBlockHash.None? || state.lastBlockNumber == 0 then Ok(())
    else if state.lastBlockNumber >= |blocks| then Err(Inconsistent("node has no header at our checkpoint"))
    else if blocks[state.lastBlockNumber].hash == state.lastBlockHash.value then Ok(())
    else Err(Reorg(state.lastBlockNumber))
  }

  // ----- a round

  /** Where the indexer's answer for `[from, to]` ends: it knows nothing beyond what it has populated. */
  function AnswerEnd(view: View, from: nat, to: nat): (end: nat)
    requires from <= to < |view.blocks|
    ensures from <= end <= to + 1
  {
    if to < view.populated then to + 1 else if from < view.populated then view.populated else from
  }

  /** What both searches, merged, return for `[from, to]`. */
  function Reported(protocol: ProtocolScripts, view: View, from: nat, to: nat): seq<TxRecord>
    requires from <= to < |view.blocks|
  {
    var end := AnswerEnd(view, from, to);
    BeforeMonotone(view.blocks, from, end);
    HistoryPrefix(view.blocks, end);
    RecordsIn(protocol, History(view.blocks), Before(view.blocks, from), Before(view.blocks, end))
  }

  predicate HasRecord(records: seq<TxRecord>, number: nat) {
    exists i :: 0 <= i < |records| && records[i].blockNumber == number
  }

  function HeaderOf(blocks: Blocks, n: nat, active: bool): BlockRecord
    requires n < |blocks|
  {
    BlockRecord(n, blocks[n].hash, blocks[n].parentHash, blocks[n].timestamp, active)
  }

  /** The headers of the blocks in `[from, end)` that hold a reported transaction, ascending. */
  function ActiveHeaders(blocks: Blocks, records: seq<TxRecord>, from: nat, end: nat): seq<BlockRecord>
    requires from <= end <= |blocks|
  {
    if from == end then []
    else
      var front := ActiveHeaders(blocks, records, from, end - 1);
      if HasRecord(records, end - 1) then front + [HeaderOf(blocks, end - 1, true)] else front
  }

  function Headers(blocks: Blocks, records: seq<TxRecord>, from: nat, to: nat): seq<BlockRecord>
    requires from <= to < |blocks|
  {
    ActiveHeaders(blocks, records, from, to + 1) + (if HasRecord(records, to) then [] else [HeaderOf(blocks, to, false)])
  }

  function BuildBatch(cfg: ScanConfig, table: CellTable, view: View, from: nat, to: nat,
                      target: nat): Result<IndexBatch>
    requires view.Valid() && from <= to < |view.blocks|
  {
    var records := Reported(cfg.rules.protocol, view, from, to);
    var pending :- ProcessAll(cfg.rules, table, History(view.blocks), view.blocks, records);
    Ok(IndexBatch(Headers(view.blocks, records, from, to), pending.cells, pending.spends, pending.transitions,
                  to, Some(view.blocks[to].hash), target, view.SyncedTip(), cfg.reorgLag))
  }

  datatype Outcome =
    | Idle
    | Committed(from: nat, to: nat, batch: IndexBatch)
    | Failed(error: Error)

  datatype RoundResult = RoundResult(progressed: Db, committed: Db, outcome: Outcome)

  function From(cfg: ScanConfig, last: nat): nat {
    if last + 1 < cfg.startBlock then cfg.startBlock else last + 1
  }

  function To(cfg: ScanConfig, from: nat, target: nat): nat
    requires cfg.Valid()
  {
    if target < from + cfg.batchBlocks - 1 then target else from + cfg.batchBlocks - 1
  }

  function KeepFrom(cfg: ScanConfig, to: nat): nat {
    if to < cfg.headerRetention then 0 else to - cfg.headerRetention
  }

  /** The whole round; `progressed` is the database just before the batch is applied, `committed` at the end. */
  function Round(cfg: ScanConfig, db: Db, view: View): RoundResult
    requires cfg.Valid() && view.Valid()
  {
    var ready := Initialised(cfg, db);
    var state := ready.state.value;
    match cfg.SafeTarget(view.SyncedTip())
    case None =>
      var idle := Progressed(cfg, ready, view.SyncedTip(), 0);
      RoundResult(idle, idle, Idle)
    case Some(target) =>
      var progressed := Progressed(cfg, ready, view.SyncedTip(), target);
      if target <= state.lastBlockNumber then RoundResult(progressed, progressed, Idle)
      else
        match CheckCanonical(state, view.blocks)
        case Err(e) => RoundResult(progressed, progressed, Failed(e))
        case Ok(_) =>
          var from := From(cfg, state.lastBlockNumber);
          var to := To(cfg, from, target);
          match BuildBatch(cfg, progressed.cells, view, from, to, target)
          case Err(e) => RoundResult(progressed, progressed, Failed(e))
          case Ok(batch) =>
            var applied := Applied(progressed, batch);
            RoundResult(progressed,
                        applied.(blocks := if KeepFrom(cfg, to) > 0 then Pruned(applied.blocks, KeepFrom(cfg, to)) else applied.blocks),
                        Committed(from, to, batch))
  }

  // ----- what the tables mean

  /** The tables are the index of exactly this chain prefix. */
  ghost predicate IndexOf(cfg: ScanConfig, prefix: Blocks, db: Db) {
    cfg.FirstBlock() <= |prefix|
    && IsIndex(cfg.rules, History(prefix), Before(prefix, cfg.FirstBlock()), db.cells, db.transitions)
  }

  predicate NoFacts(db: Db) {
    db.cells == map[] && db.transitions == map[]
  }

  /** The checkpoint row sits at the end of the prefix and carries its hash. */
  predicate AtEnd(db: Db, prefix: Blocks) {
    db.state.Some? && prefix != [] && db.state.value.lastBlockNumber == |prefix| - 1
    && db.state.value.lastBlockHash == Some(prefix[|prefix| - 1].hash)
  }

  /** Nothing indexed yet: no facts, no hash, checkpoint just below the first block. */
  predicate Untouched(cfg: ScanConfig, db: Db) {
    NoFacts(db)
    && (db.state.Some? ==> db.state.value.lastBlockHash.None? && db.state.value.lastBlockNumber == cfg.FirstBlock() - 1)
  }

  /** The indexer has populated the block it reports as its tip, or the whole chain. */
  predicate PopulatedTip(view: View) {
    |view.blocks| <= view.populated || (view.indexerTip.Some? && view.indexerTip.value < view.populated)
  }

  /** What a snapshot has to satisfy: a well-formed chain, and an indexer that has populated what it reports. */
  ghost predicate Serves(view: View) {
    view.Valid() && WellFormed(History(view.blocks)) && PopulatedTip(view)
  }

  // ----- how far a round may go

  /** Block `n` is at least the lag below the node's tip, and below the indexer's where it reports one. */
  predicate InReach(cfg: ScanConfig, view: View, n: nat) {
    n + cfg.reorgLag < |view.blocks|
    && (view.indexerTip.Some? ==> n + cfg.reorgLag <= view.indexerTip.value)
  }

  /** `n` is the highest block in reach. */
  ghost predicate Highest(cfg: ScanConfig, view: View, n: nat) {
    forall m: nat :: m <= n <==> InReach(cfg, view, m)
  }

  lemma TargetIsHighest(cfg: ScanConfig, view: View)
    requires view.Valid()
    ensures forall n: nat :: cfg.SafeTarget(view.SyncedTip()) == Some(n) <==> n >= cfg.startBlock && Highest(cfg, view, n)
    ensures cfg.SafeTarget(view.SyncedTip()).None? <==> forall n: nat :: InReach(cfg, view, n) ==> n < cfg.startBlock
    ensures PopulatedTip(view) ==> forall n: nat :: InReach(cfg, view, n) ==> n < view.populated
  {
    var tip := view.SyncedTip();
    assert forall m: nat :: InReach(cfg, view, m) <==> m + cfg.reorgLag <= tip;
    forall n: nat
      ensures cfg.SafeTarget(tip) == Some(n) <==> n >= cfg.startBlock && Highest(cfg, view, n)
    {
      if Highest(cfg, view, n) {
        assert InReach(cfg, view, n) && !InReach(cfg, view, n + 1);
      }
    }
    if tip >= cfg.reorgLag {
      assert InReach(cfg, view, tip - cfg.reorgLag);
    }
  }

  /** Before the round, the tables are untouched or the index of the node's own chain up to the checkpoint. */
  ghost predicate OnChain(cfg: ScanConfig, db: Db, blocks: Blocks) {
    Untouched(cfg, db)
    || (AtEnd(db, blocks[..Covered(db, blocks)]) && IndexOf(cfg, blocks[..Covered(db, blocks)], db))
  }

  function Covered(db: Db, blocks: Blocks): nat {
    if db.state.Some? && db.state.value.lastBlockNumber < |blocks| then db.state.value.lastBlockNumber + 1 else 0
  }

  lemma BeforeInPrefix(blocks: Blocks, n: nat, m: nat)
    requires m <= n <= |blocks|
    ensures Before(blocks[..n], m) == Before(blocks, m)
    ensures Before(blocks, n) <= |History(blocks)| && History(blocks)[..Before(blocks, n)] == History(blocks[..n])
  {
    assert blocks[..n][..m] == blocks[..m];
    HistoryPrefix(blocks, n);
  }

  /** An untouched database is the index of every chain cut just below the first block. */
  lemma UntouchedIsIndex(cfg: ScanConfig, db: Db, blocks: Blocks)
    requires Untouched(cfg, db) && cfg.FirstBlock() <= |blocks|
    ensures IndexOf(cfg, blocks[..cfg.FirstBlock()], db)
  {
    hide IsIndex;
    var prefix := blocks[..cfg.FirstBlock()];
    assert prefix[..cfg.FirstBlock()] == prefix;
    EmptyIndex(cfg.rules, History(prefix));
  }

  /** The batch a committed round applies. */
  predicate Commits(cfg: ScanConfig, db: Db, view: View)
    requires cfg.Valid() && view.Valid()
  {
    Round(cfg, db, view).outcome.Committed?
  }

  /** The shape of a committed round: it starts right after the checkpoint and ends at or below the target. */
  lemma CommitRange(cfg: ScanConfig, db: Db, view: View)
    requires cfg.Valid() && view.Valid() && Commits(cfg, db, view)
    ensures var o, state := Round(cfg, db, view).outcome, Initialised(cfg, db).state.value;
            && o.from == From(cfg, state.lastBlockNumber)
            && cfg.SafeTarget(view.SyncedTip()).Some?
            && state.lastBlockNumber < o.from <= o.to <= cfg.SafeTarget(view.SyncedTip()).value <= view.NodeTip()
            && CheckCanonical(state, view.blocks).Ok?
            && BuildBatch(cfg, db.cells, view, o.from, o.to, cfg.SafeTarget(view.SyncedTip()).value) == Ok(o.batch)
            && Round(cfg, db, view).committed.cells == CellsAfter(db.cells, o.batch)
            && Round(cfg, db, view).committed.transitions == InsertTransitions(db.transitions, o.batch.transitions)
            && Round(cfg, db, view).committed.state.Some?
            && Round(cfg, db, view).committed.state.value.lastBlockNumber == o.to
            && Round(cfg, db, view).committed.state.value.lastBlockHash == Some(view.blocks[o.to].hash)
  {
    hide ProcessAll, Reported, Headers, CellsAfter, InsertTransitions, UpsertBlocks, Pruned;
  }

  /** Of all the records the chain holds for the range, a populated indexer reports every one. */
  lemma ReportedAll(protocol: ProtocolScripts, view: View, from: nat, to: nat)
    requires from <= to < |view.blocks| && to < view.populated
    ensures Before(view.blocks, from) <= Before(view.blocks, to + 1) <= |History(view.blocks)|
    ensures Reported(protocol, view, from, to)
         == RecordsIn(protocol, History(view.blocks), Before(view.blocks, from), Before(view.blocks, to + 1))
  {
    BeforeMonotone(view.blocks, from, to + 1);
    HistoryPrefix(view.blocks, to + 1);
  }

  /** Building the batch succeeds iff the range is readable, and then applying it extends the index. */
  lemma BatchExtends(cfg: ScanConfig, db: Db, view: View, from: nat, to: nat, target: nat)
    requires Serves(view) && from <= to < |view.blocks| && to < view.populated
    requires IndexOf(cfg, view.blocks[..from], db)
    ensures var a, b := Before(view.blocks, from), Before(view.blocks, to + 1);
            var r := BuildBatch(cfg, db.cells, view, from, to, target);
            && (r.Ok? <==> ReadableRange(cfg.rules, History(view.blocks), a, b))
            && (r.Ok? ==>
                  && IndexOf(cfg, view.blocks[..to + 1],
                             db.(cells := CellsAfter(db.cells, r.value),
                                 transitions := InsertTransitions(db.transitions, r.value.transitions)))
                  && forall s :: 0 <= s < |r.value.spends| ==> r.value.spends[s].key in InsertCells(db.cells, r.value.cells))
  {
    hide WellFormed, History, ProcessAll, Reported, Headers, RecordsIn, InsertTransitions, IsIndex, ReadableRange, InsertCells,
         ApplySpends, FaithfulCells, FaithfulTable;
    var blocks := view.blocks;
    var node := History(blocks);
    var first := cfg.FirstBlock();
    ReportedAll(cfg.rules.protocol, view, from, to);
    BeforeInPrefix(blocks, from, first);
    BeforeInPrefix(blocks, to + 1, first);
    var a, b := Before(blocks, from), Before(blocks, to + 1);
    IndexIsFaithful(cfg.rules, node, a, Before(blocks, first), db.cells, db.transitions);
    RangeExact(cfg.rules, db.cells, db.transitions, blocks, Before(blocks, first), a, b);
  }

  /** A committed round turns the index of a prefix of the node's chain into the index of a longer one. */
  lemma CommitExtends(cfg: ScanConfig, db: Db, view: View)
    requires cfg.Valid() && Serves(view) && OnChain(cfg, db, view.blocks) && Commits(cfg, db, view)
    ensures var r := Round(cfg, db, view);
            && cfg.FirstBlock() <= r.outcome.to < |view.blocks|
            && AtEnd(r.committed, view.blocks[..r.outcome.to + 1])
            && IndexOf(cfg, view.blocks[..r.outcome.to + 1], r.committed)
  {
    hide WellFormed, Round, BuildBatch, CellsAfter, InsertTransitions, IsIndex, History, OnChain, CheckCanonical, Before;
    CommitRange(cfg, db, view);
    var o := Round(cfg, db, view).outcome;
    IndexAtCheckpoint(cfg, db, view.blocks);
    TargetIsHighest(cfg, view);
    assert InReach(cfg, view, o.to);
    BatchExtends(cfg, db, view, o.from, o.to, cfg.SafeTarget(view.SyncedTip()).value);
    var r := Round(cfg, db, view).committed;
    assert db.(cells := r.cells, transitions := r.transitions).cells == r.cells;
  }

  /** A round starts right after the blocks the index covers. */
  lemma IndexAtCheckpoint(cfg: ScanConfig, db: Db, blocks: Blocks)
    requires OnChain(cfg, db, blocks)
    ensures var last := Initialised(cfg, db).state.value.lastBlockNumber;
            && From(cfg, last) == last + 1 && cfg.FirstBlock() <= last + 1
            && (last + 1 <= |blocks| ==> IndexOf(cfg, blocks[..last + 1], db))
  {
    hide IsIndex;
    if Untouched(cfg, db) {
      if cfg.FirstBlock() <= |blocks| {
        UntouchedIsIndex(cfg, db, blocks);
      }
    }
  }

  lemma CanonicalOnChain(cfg: ScanConfig, db: Db, blocks: Blocks)
    requires OnChain(cfg, db, blocks)
    ensures CheckCanonical(Initialised(cfg, db).state.value, blocks).Ok?
  {
    hide IndexOf;
  }

  lemma RoundCommits(cfg: ScanConfig, db: Db, view: View)
    requires cfg.Valid() && Serves(view) && OnChain(cfg, db, view.blocks)
    requires var target := cfg.SafeTarget(view.SyncedTip());
             target.Some? && target.value > Initialised(cfg, db).state.value.lastBlockNumber
    ensures var last := Initialised(cfg, db).state.value.lastBlockNumber;
            var to := To(cfg, last + 1, cfg.SafeTarget(view.SyncedTip()).value);
            && last < to < |view.blocks|
            && (Commits(cfg, db, view) <==>
                  ReadableRange(cfg.rules, History(view.blocks), Before(view.blocks, last + 1), Before(view.blocks, to + 1)))
            && (Commits(cfg, db, view) ==> Round(cfg, db, view).outcome.to == to)
  {
    hide WellFormed, BuildBatch, Applied, ReadableRange, Before, Pruned, History, OnChain, CheckCanonical, IndexOf, CellsAfter,
         InsertTransitions, InsertCells;
    CanonicalOnChain(cfg, db, view.blocks);
    var last := Initialised(cfg, db).state.value.lastBlockNumber;
    var target := cfg.SafeTarget(view.SyncedTip()).value;
    var to := To(cfg, last + 1, target);
    IndexAtCheckpoint(cfg, db, view.blocks);
    TargetIsHighest(cfg, view);
    assert InReach(cfg, view, to);
    BatchExtends(cfg, db, view, last + 1, to, target);
  }

  /**
   If the checkpoint is still on the node's chain and the highest block in reach lies above it, a round
   succeeds iff all it consumes is readable, and then ends there or after a full batch.
   */
  lemma RoundSucceeds(cfg: ScanConfig, db: Db, view: View, target: nat)
    requires cfg.Valid() && Serves(view) && OnChain(cfg, db, view.blocks)
    requires Highest(cfg, view, target) && target >= cfg.startBlock && target > Initialised(cfg, db).state.value.lastBlockNumber
    ensures var last := Initialised(cfg, db).state.value.lastBlockNumber;
            var to := if target < last + cfg.batchBlocks then target else last + cfg.batchBlocks;
            && last < to < |view.blocks| && to < view.populated
            && (Commits(cfg, db, view) <==>
                  ReadableRange(cfg.rules, History(view.blocks), Before(view.blocks, last + 1), Before(view.blocks, to + 1)))
            && (Commits(cfg, db, view) ==> Round(cfg, db, view).outcome.to == to)
  {
    hide WellFormed, ReadableRange, Before, Round, History, OnChain;
    TargetIsHighest(cfg, view);
    RoundCommits(cfg, db, view);
    assert InReach(cfg, view, To(cfg, Initialised(cfg, db).state.value.lastBlockNumber + 1, target));
  }

  /** A round whose checkpoint the node no longer has, or has under another hash, changes no fact and no checkpoint. */
  lemma ForkIsRefused(cfg: ScanConfig, db: Db, view: View)
    requires cfg.Valid() && view.Valid() && db.state.Some?
    requires var s := db.state.value;
             s.lastBlockHash.Some? && s.lastBlockNumber > 0
             && (s.lastBlockNumber >= |view.blocks| || view.blocks[s.lastBlockNumber].hash != s.lastBlockHash.value)
    ensures var r := Round(cfg, db, view);
            && !r.outcome.Committed?
            && r.committed.cells == db.cells && r.committed.transitions == db.transitions && r.committed.blocks == db.blocks
            && r.committed.state.Some?
            && r.committed.state.value.lastBlockNumber == db.state.value.lastBlockNumber
            && r.committed.state.value.lastBlockHash == db.state.value.lastBlockHash
            && (r.outcome.Idle? <==>
                  forall n: nat :: InReach(cfg, view, n) ==> n < cfg.startBlock || n <= db.state.value.lastBlockNumber)
            && (r.outcome.Failed? ==>
                  if db.state.value.lastBlockNumber < |view.blocks| then r.outcome.error == Reorg(db.state.value.lastBlockNumber)
                  else r.outcome.error.Inconsistent?)
  {
    hide BuildBatch, Applied, Pruned, InReach;
    TargetIsHighest(cfg, view);
    var target := cfg.SafeTarget(view.SyncedTip());
    if target.Some? {
      assert Highest(cfg, view, target.value);
      assert InReach(cfg, view, target.value);
    }
  }

  // ----- where the indexer's silence loses data

  /**
   With no indexer tip reported, the node tip alone decides how far to scan; if the indexer has not
   populated those blocks, the round moves the checkpoint over them with no facts at all.
   */
  lemma SilentIndexerSkipsBlocks(cfg: ScanConfig, db: Db, view: View)
    requires cfg.Valid() && view.Valid() && Untouched(cfg, db)
    requires view.indexerTip.None? && view.populated == 0
    requires cfg.SafeTarget(view.NodeTip()).Some? && cfg.SafeTarget(view.NodeTip()).value >= cfg.FirstBlock()
    ensures var r := Round(cfg, db, view);
            r.outcome.Committed? && NoFacts(r.committed)
            && r.committed.state.value.lastBlockNumber >= cfg.FirstBlock()
  {
    hide Headers, UpsertBlocks, Pruned;
    var last := Initialised(cfg, db).state.value.lastBlockNumber;
    var target := cfg.SafeTarget(view.NodeTip()).value;
    var to := To(cfg, last + 1, target);
    assert Reported(cfg.rules.protocol, view, last + 1, to) == [];
  }
}
