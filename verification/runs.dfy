/**
 Whole runs of the scanner: any sequence of rounds against any snapshots, with the chain
 reorganising, the process dying and the verifier writing between and within rounds.
 */
module Runs {
  import opened Wrappers
  import opened Ckb
  import opened Rows
  import opened Chain
  import opened Extract
  import opened Tables
  import opened Index
  import opened Rounds
  import opened Scan

  /** Where a round is cut off by a crash, or that it is not. */
  datatype Stop = AtStart | AfterInit | BeforeCommit | BeforePrune | Never

  datatype Event =
    | Scanned(view: View, stop: Stop)
    | Verified(txHash: H256, observed: Option<H256>, status: CommitmentStatus)

  /** `set_commitment_result`: the verifier's columns of one transition, if it is there. */
  function SetVerdict(ts: TransitionTable, txHash: H256, observed: Option<H256>,
                      status: CommitmentStatus): TransitionTable {
    if txHash in ts
    then ts[txHash := ts[txHash].(observedCommitment := observed, commitmentStatus := status)]
    else ts
  }

  function SetFailed(db: Db): Db {
    if db.state.None? then db else db.(state := Some(db.state.value.(failed := true)))
  }

  /** The database after one event. */
  function Step(cfg: ScanConfig, db: Db, event: Event): Db
    requires cfg.Valid() && (event.Scanned? ==> event.view.Valid())
  {
    match event
    case Verified(txHash, observed, status) => db.(transitions := SetVerdict(db.transitions, txHash, observed, status))
    case Scanned(view, stop) =>
      var r := Round(cfg, db, view);
      match stop
      case AtStart => db
      case AfterInit => Initialised(cfg, db)
      case BeforeCommit => r.progressed
      case BeforePrune => if r.outcome.Committed? then Applied(r.progressed, r.outcome.batch) else r.progressed
      case Never => if r.outcome.Failed? then SetFailed(r.committed) else r.committed
  }

  ghost predicate ValidEvents(cfg: ScanConfig, events: seq<Event>) {
    cfg.Valid() && forall i :: 0 <= i < |events| ==> events[i].Scanned? ==> Serves(events[i].view)
  }

  /** The database after the first `n` events, starting from an empty one. */
  ghost function After(cfg: ScanConfig, events: seq<Event>, n: nat): Db
    requires ValidEvents(cfg, events) && n <= |events|
  {
    if n == 0 then FRESH else Step(cfg, After(cfg, events, n - 1), events[n - 1])
  }

  /** A block hash identifies its height and its whole prefix, across every two chains the node ever shows. */
  ghost predicate HashesIdentify(a: Blocks, b: Blocks) {
    forall i, j :: 0 <= i < |a| && 0 <= j < |b| && a[i].hash == b[j].hash ==> i == j && a[..i + 1] == b[..i + 1]
  }

  ghost predicate OneBlockPerHash(events: seq<Event>) {
    forall i, j :: 0 <= i < |events| && 0 <= j < |events| && events[i].Scanned? && events[j].Scanned?
      ==> HashesIdentify(events[i].view.blocks, events[j].view.blocks)
  }

  // ----- one step

  /** A prefix of the chain some scan among the first `n` events saw. */
  predicate Seen(events: seq<Event>, n: nat, prefix: Blocks) {
    exists i :: 0 <= i < n && i < |events| && SeenAt(events, i, prefix)
  }

  predicate SeenAt(events: seq<Event>, i: nat, prefix: Blocks)
    requires i < |events|
  {
    events[i].Scanned? && prefix <= events[i].view.blocks
  }

  /** Untouched, or the index of one chain prefix that was really seen and ends at the stored checkpoint hash. */
  ghost predicate Consistent(cfg: ScanConfig, events: seq<Event>, n: nat, db: Db) {
    Untouched(cfg, db) || exists prefix: Blocks :: IndexOn(cfg, events, n, db, prefix)
  }

  ghost predicate IndexOn(cfg: ScanConfig, events: seq<Event>, n: nat, db: Db, prefix: Blocks) {
    cfg.FirstBlock() < |prefix| && Seen(events, n, prefix) && AtEnd(db, prefix) && IndexOf(cfg, prefix, db)
  }

  /** Same facts and same checkpoint. */
  ghost predicate SameIndex(a: Db, b: Db) {
    && a.cells == b.cells && SameFacts(a.transitions, b.transitions)
    && (a.state.Some? && b.state.Some? ==>
          a.state.value.lastBlockNumber == b.state.value.lastBlockNumber
          && a.state.value.lastBlockHash == b.state.value.lastBlockHash)
  }

  /** The index predicate looks only at the indexed columns. */
  lemma IndexIgnoresVerdicts(rules: Rules, h: Txs, lo: nat, cells: CellTable, a: TransitionTable, b: TransitionTable)
    requires IsIndex(rules, h, lo, cells, a) && SameFacts(a, b)
    ensures IsIndex(rules, h, lo, cells, b)
  {
    hide CellsExact, Readable, ExpectedTransition;
    forall p | lo <= p < |h|
      ensures TransitionExact(rules, h[..p], h[p], b)
    {
      assert TransitionExact(rules, h[..p], h[p], a);
    }
  }

  lemma SameIndexKeeps(cfg: ScanConfig, events: seq<Event>, n: nat, a: Db, b: Db)
    requires Consistent(cfg, events, n, a) && SameIndex(a, b) && (a.state.Some? ==> b.state.Some?)
    requires b.state.Some? && a.state.None? ==>
               b.state.value.lastBlockHash.None? && b.state.value.lastBlockNumber == cfg.FirstBlock() - 1
    ensures Consistent(cfg, events, n, b)
  {
    hide IsIndex, Seen;
    if Untouched(cfg, a) {
      assert b.transitions == map[] by {
        assert b.transitions.Keys == {};
      }
      assert Untouched(cfg, b);
    } else {
      var prefix: Blocks :| IndexOn(cfg, events, n, a, prefix);
      IndexIgnoresVerdicts(cfg.rules, History(prefix), Before(prefix, cfg.FirstBlock()), a.cells, a.transitions, b.transitions);
      assert IndexOn(cfg, events, n, b, prefix);
    }
  }

  lemma SeenLater(cfg: ScanConfig, events: seq<Event>, n: nat, db: Db)
    requires Consistent(cfg, events, n, db)
    ensures Consistent(cfg, events, n + 1, db)
  {
    hide IsIndex, SeenAt, Untouched;
    if !Untouched(cfg, db) {
      var prefix: Blocks :| IndexOn(cfg, events, n, db, prefix);
      var i :| 0 <= i < n && i < |events| && SeenAt(events, i, prefix);
      assert Seen(events, n + 1, prefix);
      assert IndexOn(cfg, events, n + 1, db, prefix);
    }
  }

  lemma CheckedPrefix(db: Db, prefix: Blocks, blocks: Blocks)
    requires AtEnd(db, prefix) && |prefix| > 1 && CheckCanonical(db.state.value, blocks).Ok?
    ensures |prefix| <= |blocks| && blocks[|prefix| - 1].hash == prefix[|prefix| - 1].hash
  {
  }

  /** If the canonical check passes, the stored index is the index of the node's own chain up to the checkpoint. */
  lemma CheckedMeansOnChain(cfg: ScanConfig, events: seq<Event>, n: nat, db: Db)
    requires n < |events| && events[n].Scanned? && OneBlockPerHash(events)
    requires Consistent(cfg, events, n, db)
    requires CheckCanonical(Initialised(cfg, db).state.value, events[n].view.blocks).Ok?
    ensures OnChain(cfg, db, events[n].view.blocks)
  {
    hide IsIndex, History, CheckCanonical, Untouched, HashesIdentify, Before;
    var blocks := events[n].view.blocks;
    if !Untouched(cfg, db) {
      var prefix: Blocks :| IndexOn(cfg, events, n, db, prefix);
      var i :| 0 <= i < n && i < |events| && SeenAt(events, i, prefix);
      CheckedPrefix(db, prefix, blocks);
      SamePrefix(events[i].view.blocks, blocks, prefix, blocks[..|prefix|]);
      assert blocks[..Covered(db, blocks)] == prefix;
    }
  }

  lemma CommitStays(cfg: ScanConfig, events: seq<Event>, n: nat, db: Db)
    requires n < |events| && events[n].Scanned? && OneBlockPerHash(events) && ValidEvents(cfg, events)
    requires Consistent(cfg, events, n, db) && Commits(cfg, db, events[n].view)
    ensures Consistent(cfg, events, n + 1, Round(cfg, db, events[n].view).committed)
  {
    hide IsIndex, WellFormed, Round, OnChain, Consistent, BuildBatch, CellsAfter, InsertTransitions, History, IndexOf;
    var view := events[n].view;
    CommitRange(cfg, db, view);
    CheckedMeansOnChain(cfg, events, n, db);
    CommitExtends(cfg, db, view);
    var r := Round(cfg, db, view);
    var prefix := view.blocks[..r.outcome.to + 1];
    assert SeenAt(events, n, prefix);
    assert Seen(events, n + 1, prefix);
    ConsistentOn(cfg, events, n + 1, r.committed, prefix);
  }

  lemma ConsistentOn(cfg: ScanConfig, events: seq<Event>, n: nat, db: Db, prefix: Blocks)
    requires cfg.FirstBlock() < |prefix| && Seen(events, n, prefix) && AtEnd(db, prefix) && IndexOf(cfg, prefix, db)
    ensures Consistent(cfg, events, n, db)
  {
    hide IndexOf, Seen, AtEnd;
    assert IndexOn(cfg, events, n, db, prefix);
  }

  /** Every part of a round that is not the commit leaves facts and checkpoint alone. */
  lemma NoCommitNoChange(cfg: ScanConfig, db: Db, view: View)
    requires cfg.Valid() && view.Valid()
    ensures var r := Round(cfg, db, view);
            && SameIndex(db, Initialised(cfg, db)) && SameIndex(db, r.progressed)
            && Initialised(cfg, db).state.Some? && r.progressed.state.Some?
            && (db.state.None? ==>
                  Initialised(cfg, db).state.value.lastBlockHash.None?
                  && Initialised(cfg, db).state.value.lastBlockNumber == cfg.FirstBlock() - 1
                  && r.progressed.state.value.lastBlockHash.None?
                  && r.progressed.state.value.lastBlockNumber == cfg.FirstBlock() - 1)
            && (!r.outcome.Committed? ==> r.committed == r.progressed)
  {
    hide BuildBatch, Applied, Pruned, CheckCanonical;
  }

  /** Pruning headers after the commit does not matter to the index. */
  lemma AppliedIsCommitted(cfg: ScanConfig, db: Db, view: View)
    requires cfg.Valid() && view.Valid() && Commits(cfg, db, view)
    ensures var r := Round(cfg, db, view);
            var applied := Applied(r.progressed, r.outcome.batch);
            applied.cells == r.committed.cells && applied.transitions == r.committed.transitions
            && applied.state == r.committed.state
  {
    hide BuildBatch, Applied, Pruned, CheckCanonical;
  }

  lemma StepConsistent(cfg: ScanConfig, events: seq<Event>, n: nat, db: Db)
    requires n < |events| && OneBlockPerHash(events) && ValidEvents(cfg, events)
    requires Consistent(cfg, events, n, db)
    ensures Consistent(cfg, events, n + 1, Step(cfg, db, events[n]))
  {
    hide Round, Consistent, WellFormed, Initialised, Applied, OneBlockPerHash;
    SeenLater(cfg, events, n, db);
    match events[n]
    case Verified(txHash, observed, status) =>
      SameIndexKeeps(cfg, events, n + 1, db, Step(cfg, db, events[n]));
    case Scanned(view, stop) =>
      NoCommitNoChange(cfg, db, view);
      var r := Round(cfg, db, view);
      SameIndexKeeps(cfg, events, n + 1, db, Initialised(cfg, db));
      SameIndexKeeps(cfg, events, n + 1, db, r.progressed);
      SameIndexKeeps(cfg, events, n + 1, db, SetFailed(r.progressed));
      if r.outcome.Committed? {
        CommitStays(cfg, events, n, db);
        AppliedIsCommitted(cfg, db, view);
        SameIndexKeeps(cfg, events, n + 1, r.committed, Applied(r.progressed, r.outcome.batch));
      }
  }

  /**
   In every run, whatever the reorganisations, crashes and round boundaries, the tables are always
   untouched or exactly the index of one chain prefix ending at the stored checkpoint hash.
   */
  lemma {:induction false} AlwaysOneChain(cfg: ScanConfig, events: seq<Event>, n: nat)
    requires n <= |events| && OneBlockPerHash(events) && ValidEvents(cfg, events)
    ensures Consistent(cfg, events, n, After(cfg, events, n))
    decreases n
  {
    hide Step, OneBlockPerHash, IndexOf, Seen, AtEnd, ValidEvents;
    if n > 0 {
      AlwaysOneChain(cfg, events, n - 1);
      StepConsistent(cfg, events, n - 1, After(cfg, events, n - 1));
    }
  }

  // ----- round boundaries, crashes and history do not matter

  /** Two runs over the same universe of chains that reach the same checkpoint hash hold the same facts. */
  lemma SameCheckpointSameFacts(cfg: ScanConfig, a: seq<Event>, b: seq<Event>)
    requires ValidEvents(cfg, a) && ValidEvents(cfg, b) && OneBlockPerHash(a + b)
    requires var x, y := After(cfg, a, |a|), After(cfg, b, |b|);
             x.state.Some? && y.state.Some? && x.state.value.lastBlockHash.Some?
             && x.state.value.lastBlockHash == y.state.value.lastBlockHash
    ensures SameIndex(After(cfg, a, |a|), After(cfg, b, |b|))
  {
    hide Step, IsIndex, Serves, OneBlockPerHash, After, Seen, Before, History, Untouched;
    var x, y := After(cfg, a, |a|), After(cfg, b, |b|);
    Halves(a, b);
    AlwaysOneChain(cfg, a, |a|);
    AlwaysOneChain(cfg, b, |b|);
    HashedIsOn(cfg, a, |a|, x);
    HashedIsOn(cfg, b, |b|, y);
    var p: Blocks :| IndexOn(cfg, a, |a|, x, p);
    var q: Blocks :| IndexOn(cfg, b, |b|, y, q);
    SeenPrefixesAgree(a, b, p, q);
    IndexUnique(cfg.rules, History(p), Before(p, cfg.FirstBlock()), x.cells, x.transitions, y.cells, y.transitions);
  }

  lemma HashedIsOn(cfg: ScanConfig, events: seq<Event>, n: nat, db: Db)
    requires Consistent(cfg, events, n, db) && db.state.Some? && db.state.value.lastBlockHash.Some?
    ensures exists prefix: Blocks :: IndexOn(cfg, events, n, db, prefix)
  {
    hide IndexOn;
  }

  lemma SeenPrefixesAgree(a: seq<Event>, b: seq<Event>, p: Blocks, q: Blocks)
    requires OneBlockPerHash(a + b) && Seen(a, |a|, p) && Seen(b, |b|, q)
    requires p != [] && q != [] && p[|p| - 1].hash == q[|q| - 1].hash
    ensures p == q
  {
    hide HashesIdentify;
    var i :| 0 <= i < |a| && SeenAt(a, i, p);
    var j :| 0 <= j < |b| && SeenAt(b, j, q);
    assert (a + b)[i] == a[i] && (a + b)[|a| + j] == b[j];
    SamePrefix(a[i].view.blocks, b[j].view.blocks, p, q);
  }

  lemma Halves(a: seq<Event>, b: seq<Event>)
    requires OneBlockPerHash(a + b)
    ensures OneBlockPerHash(a) && OneBlockPerHash(b)
  {
    hide HashesIdentify;
    forall i, j | 0 <= i < |a| && 0 <= j < |a| && a[i].Scanned? && a[j].Scanned?
      ensures HashesIdentify(a[i].view.blocks, a[j].view.blocks)
    {
      assert (a + b)[i] == a[i] && (a + b)[j] == a[j];
    }
    forall i, j | 0 <= i < |b| && 0 <= j < |b| && b[i].Scanned? && b[j].Scanned?
      ensures HashesIdentify(b[i].view.blocks, b[j].view.blocks)
    {
      assert (a + b)[|a| + i] == b[i] && (a + b)[|a| + j] == b[j];
    }
  }

  lemma SamePrefix(a: Blocks, b: Blocks, p: Blocks, q: Blocks)
    requires HashesIdentify(a, b) && p <= a && q <= b && p != [] && q != [] && p[|p| - 1].hash == q[|q| - 1].hash
    ensures p == q
  {
    var n, m := |p| - 1, |q| - 1;
    assert a[n] == p[n] && b[m] == q[m];
    assert n == m && a[..n + 1] == b[..n + 1];
    assert a[..n + 1] == p && b[..m + 1] == q;
  }

  // ----- the checkpoint

  /** The checkpoint never moves back, and where it moves to is in reach of that round's node and indexer. */
  lemma CheckpointGrows(cfg: ScanConfig, db: Db, event: Event)
    requires cfg.Valid() && (event.Scanned? ==> event.view.Valid()) && db.state.Some?
    ensures var next := Step(cfg, db, event);
            && next.state.Some?
            && next.state.value.lastBlockNumber >= db.state.value.lastBlockNumber
            && (next.state.value.lastBlockNumber > db.state.value.lastBlockNumber ==>
                  event.Scanned? && InReach(cfg, event.view, next.state.value.lastBlockNumber))
  {
    hide Round, Applied, Initialised;
    match event
    case Verified(_, _, _) =>
    case Scanned(view, stop) =>
      NoCommitNoChange(cfg, db, view);
      if Commits(cfg, db, view) {
        CommitBounds(cfg, db, view);
        AppliedIsCommitted(cfg, db, view);
      }
      assert Initialised(cfg, db) == db by {
        AlreadyInitialised(cfg, db);
      }
  }

  lemma AlreadyInitialised(cfg: ScanConfig, db: Db)
    requires db.state.Some?
    ensures Initialised(cfg, db) == db
  {
  }

  lemma CommitBounds(cfg: ScanConfig, db: Db, view: View)
    requires cfg.Valid() && view.Valid() && Commits(cfg, db, view)
    ensures var r := Round(cfg, db, view);
            r.committed.state.Some?
            && Initialised(cfg, db).state.value.lastBlockNumber < r.committed.state.value.lastBlockNumber
            && InReach(cfg, view, r.committed.state.value.lastBlockNumber)
  {
    hide Round, BuildBatch, CellsAfter, InsertTransitions, CheckCanonical;
    CommitRange(cfg, db, view);
    TargetIsHighest(cfg, view);
  }

  // ----- catching up

  /** The database after `k` uninterrupted rounds against one unchanging snapshot. */
  ghost function Repeat(cfg: ScanConfig, db: Db, view: View, k: nat): Db
    requires cfg.Valid() && view.Valid()
  {
    if k == 0 then db else Step(cfg, Repeat(cfg, db, view, k - 1), Scanned(view, Never))
  }

  function Checkpoint(cfg: ScanConfig, db: Db): nat {
    Initialised(cfg, db).state.value.lastBlockNumber
  }

  lemma RoundAdvances(cfg: ScanConfig, db: Db, view: View)
    requires cfg.Valid() && Serves(view) && OnChain(cfg, db, view.blocks)
    requires ReadableRange(cfg.rules, History(view.blocks), 0, |History(view.blocks)|)
    ensures var next := Step(cfg, db, Scanned(view, Never));
            var target := cfg.SafeTarget(view.SyncedTip());
            && OnChain(cfg, next, view.blocks)
            && Checkpoint(cfg, next)
                 == if target.Some? && target.value > Checkpoint(cfg, db)
                    then To(cfg, Checkpoint(cfg, db) + 1, target.value) else Checkpoint(cfg, db)
  {
    hide Round, IsIndex, WellFormed, OnChain, BuildBatch, CellsAfter, InsertTransitions, Before, History,
         ReadableRange, CheckCanonical;
    NoCommitNoChange(cfg, db, view);
    var r := Round(cfg, db, view);
    var target := cfg.SafeTarget(view.SyncedTip());
    if target.Some? && target.value > Checkpoint(cfg, db) {
      RoundCommits(cfg, db, view);
      var to := To(cfg, Checkpoint(cfg, db) + 1, target.value);
      PartReadable(cfg, view, Checkpoint(cfg, db) + 1, to + 1);
      CommitRange(cfg, db, view);
      CommitExtends(cfg, db, view);
      OnOwnChain(cfg, r.committed, view.blocks, r.outcome.to);
    } else {
      IdleWhenDone(cfg, db, view);
      StaysOnChain(cfg, db, r.progressed, view.blocks);
    }
  }

  lemma PartReadable(cfg: ScanConfig, view: View, a: nat, b: nat)
    requires a <= |view.blocks| && b <= |view.blocks|
    requires ReadableRange(cfg.rules, History(view.blocks), 0, |History(view.blocks)|)
    ensures ReadableRange(cfg.rules, History(view.blocks), Before(view.blocks, a), Before(view.blocks, b))
  {
    hide Readable, Before, History;
  }

  lemma OnOwnChain(cfg: ScanConfig, db: Db, blocks: Blocks, to: nat)
    requires to < |blocks| && AtEnd(db, blocks[..to + 1]) && IndexOf(cfg, blocks[..to + 1], db)
    ensures OnChain(cfg, db, blocks)
  {
    hide IsIndex, History;
  }

  lemma IdleWhenDone(cfg: ScanConfig, db: Db, view: View)
    requires cfg.Valid() && view.Valid()
    requires var target := cfg.SafeTarget(view.SyncedTip()); target.None? || target.value <= Checkpoint(cfg, db)
    ensures Round(cfg, db, view).outcome.Idle?
  {
    hide BuildBatch, Applied, Pruned, CheckCanonical;
  }

  lemma StaysOnChain(cfg: ScanConfig, a: Db, b: Db, blocks: Blocks)
    requires OnChain(cfg, a, blocks) && SameIndex(a, b) && b.state.Some?
    requires a.state.None? ==> b.state.value.lastBlockHash.None? && b.state.value.lastBlockNumber == cfg.FirstBlock() - 1
    ensures OnChain(cfg, b, blocks)
  {
    hide IsIndex, History;
    if Untouched(cfg, a) {
      assert b.transitions.Keys == {};
      assert Untouched(cfg, b);
    } else {
      var prefix := blocks[..Covered(a, blocks)];
      IndexIgnoresVerdicts(cfg.rules, History(prefix), Before(prefix, cfg.FirstBlock()), a.cells, a.transitions, b.transitions);
    }
  }

  /**
   Against a chain that stands still and whose consumed cells are all readable, enough rounds of any
   batch size bring the checkpoint exactly to the highest block in reach, and the tables to the index of
   that prefix.
   */
  lemma {:induction false} CatchesUp(cfg: ScanConfig, db: Db, view: View, k: nat, target: nat)
    requires cfg.Valid() && Serves(view) && OnChain(cfg, db, view.blocks)
    requires ReadableRange(cfg.rules, History(view.blocks), 0, |History(view.blocks)|)
    requires Highest(cfg, view, target) && cfg.startBlock <= target && Checkpoint(cfg, db) <= target
    ensures var done := Repeat(cfg, db, view, k);
            && OnChain(cfg, done, view.blocks)
            && Checkpoint(cfg, done) <= target
            && (Checkpoint(cfg, done) == target || Checkpoint(cfg, done) >= Checkpoint(cfg, db) + k)
    decreases k
  {
    hide Step, OnChain, WellFormed, ReadableRange, Initialised, History;
    if k > 0 {
      CatchesUp(cfg, db, view, k - 1, target);
      TargetIsHighest(cfg, view);
      RoundAdvances(cfg, Repeat(cfg, db, view, k - 1), view);
    }
  }
}
