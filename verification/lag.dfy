/** The reorg lag as a defence: reorganisations shallower than the lag never reach what is indexed. */
module Lag {
  import opened Wrappers
  import opened Ckb
  import opened Rows
  import opened Chain
  import opened Extract
  import opened Tables
  import opened Index
  import opened Rounds
  import opened Scan
  import opened Runs

  /** The highest node tip any of the first `n` events saw. */
  function HighTip(events: seq<Event>, n: nat): nat
    requires n <= |events|
  {
    if n == 0 then 0
    else
      var rest := HighTip(events, n - 1);
      match events[n - 1]
      case Scanned(view, _) => if |view.blocks| > rest + 1 then |view.blocks| - 1 else rest
      case Verified(_, _, _) => rest
  }

  /** The chain the latest of the first `n` events saw; nothing if none scanned. */
  function Latest(events: seq<Event>, n: nat): Blocks
    requires n <= |events|
  {
    if n == 0 then []
    else
      match events[n - 1]
      case Scanned(view, _) => view.blocks
      case Verified(_, _, _) => Latest(events, n - 1)
  }

  /** Both chains reach past the settled height and agree up to it. */
  predicate KeepsSettled(older: Blocks, newer: Blocks, high: nat, lag: nat) {
    high >= lag ==>
      high - lag < |older| && high - lag < |newer| && older[..high - lag + 1] == newer[..high - lag + 1]
  }

  /** Between two successive scans, no block at or below (highest tip ever seen minus lag) is reorganised away. */
  predicate ShallowReorgs(cfg: ScanConfig, events: seq<Event>) {
    forall n :: 0 <= n < |events| && events[n].Scanned? && Latest(events, n) != [] ==>
      KeepsSettled(Latest(events, n), events[n].view.blocks, HighTip(events, n), cfg.reorgLag)
  }

  /** What is indexed is settled: it lies on the latest chain, at or below the settled height. */
  ghost predicate Settled(cfg: ScanConfig, db: Db, latest: Blocks, high: nat) {
    Untouched(cfg, db)
    || (latest != [] && OnChain(cfg, db, latest) && high >= cfg.reorgLag && Covered(db, latest) <= high - cfg.reorgLag + 1)
  }

  lemma SettledMoves(cfg: ScanConfig, db: Db, older: Blocks, newer: Blocks, high: nat)
    requires Settled(cfg, db, older, high) && newer != []
    requires older != [] ==> KeepsSettled(older, newer, high, cfg.reorgLag)
    ensures Untouched(cfg, db) || (high >= cfg.reorgLag && Covered(db, newer) <= high - cfg.reorgLag + 1)
    ensures OnChain(cfg, db, newer)
  {
    hide IndexOf, Untouched;
    if !Untouched(cfg, db) {
      var n := Covered(db, older);
      assert older[..n] == older[..high - cfg.reorgLag + 1][..n];
      assert newer[..n] == newer[..high - cfg.reorgLag + 1][..n];
    }
  }

  lemma StaysSettled(cfg: ScanConfig, a: Db, b: Db, latest: Blocks, high: nat)
    requires Settled(cfg, a, latest, high) && SameIndex(a, b) && b.state.Some?
    requires a.state.None? ==> b.state.value.lastBlockHash.None? && b.state.value.lastBlockNumber == cfg.FirstBlock() - 1
    ensures Settled(cfg, b, latest, high)
  {
    hide IndexOf;
    if Untouched(cfg, a) {
      assert b.transitions.Keys == {};
    } else {
      StaysOnChain(cfg, a, b, latest);
    }
  }

  lemma StepSettled(cfg: ScanConfig, events: seq<Event>, n: nat, db: Db)
    requires n < |events| && ValidEvents(cfg, events) && ShallowReorgs(cfg, events)
    requires Settled(cfg, db, Latest(events, n), HighTip(events, n))
    ensures Settled(cfg, Step(cfg, db, events[n]), Latest(events, n + 1), HighTip(events, n + 1))
  {
    hide Round, Settled, OnChain, WellFormed, Initialised, Applied, KeepsSettled, Untouched;
    var high := HighTip(events, n + 1);
    match events[n]
    case Verified(txHash, observed, status) =>
      VerdictStaysSettled(cfg, db, txHash, observed, status, Latest(events, n), HighTip(events, n));
    case Scanned(view, stop) =>
      SettledMoves(cfg, db, Latest(events, n), view.blocks, HighTip(events, n));
      SettledThere(cfg, db, view.blocks, HighTip(events, n), high);
      NoCommitNoChange(cfg, db, view);
      var r := Round(cfg, db, view);
      StaysSettled(cfg, db, Initialised(cfg, db), view.blocks, high);
      StaysSettled(cfg, db, r.progressed, view.blocks, high);
      StaysSettled(cfg, db, SetFailed(r.progressed), view.blocks, high);
      if r.outcome.Committed? {
        CommitSettled(cfg, db, view, high);
        AppliedIsCommitted(cfg, db, view);
        CommitBounds(cfg, db, view);
        StaysSettled(cfg, r.committed, Applied(r.progressed, r.outcome.batch), view.blocks, high);
      }
  }

  lemma VerdictStaysSettled(cfg: ScanConfig, db: Db, txHash: H256, observed: Option<H256>, status: CommitmentStatus,
                            latest: Blocks, high: nat)
    requires Settled(cfg, db, latest, high)
    ensures Settled(cfg, db.(transitions := SetVerdict(db.transitions, txHash, observed, status)), latest, high)
  {
    hide IndexOf;
    var next := db.(transitions := SetVerdict(db.transitions, txHash, observed, status));
    if !Untouched(cfg, db) {
      StaysSettled(cfg, db, next, latest, high);
    }
  }

  lemma SettledThere(cfg: ScanConfig, db: Db, blocks: Blocks, low: nat, high: nat)
    requires OnChain(cfg, db, blocks) && blocks != [] && low <= high
    requires Untouched(cfg, db) || (low >= cfg.reorgLag && Covered(db, blocks) <= low - cfg.reorgLag + 1)
    ensures Settled(cfg, db, blocks, high)
  {
    hide IndexOf;
  }

  lemma CommitSettled(cfg: ScanConfig, db: Db, view: View, high: nat)
    requires cfg.Valid() && Serves(view) && OnChain(cfg, db, view.blocks) && Commits(cfg, db, view)
    requires high >= view.NodeTip()
    ensures Settled(cfg, Round(cfg, db, view).committed, view.blocks, high)
  {
    hide Round, IndexOf, BuildBatch, CellsAfter, InsertTransitions, Untouched;
    CommitRange(cfg, db, view);
    CommitExtends(cfg, db, view);
    var r := Round(cfg, db, view);
    OnOwnChain(cfg, r.committed, view.blocks, r.outcome.to);
    assert r.outcome.to <= view.SyncedTip() - cfg.reorgLag;
  }

  lemma {:induction false} AlwaysSettled(cfg: ScanConfig, events: seq<Event>, n: nat)
    requires n <= |events| && ValidEvents(cfg, events) && ShallowReorgs(cfg, events)
    ensures Settled(cfg, After(cfg, events, n), Latest(events, n), HighTip(events, n))
    decreases n
  {
    hide Step, ShallowReorgs, OnChain;
    if n > 0 {
      AlwaysSettled(cfg, events, n - 1);
      StepSettled(cfg, events, n - 1, After(cfg, events, n - 1));
    }
  }

  /** Every anchor in the fact tables is the hash that this chain has at that height. */
  ghost predicate AnchorsOn(blocks: Blocks, db: Db) {
    && (forall key :: key in db.cells ==> AnchorOn(blocks, db.cells[key].cell.created))
    && (forall key :: key in db.cells && db.cells[key].consumed.Some? ==> AnchorOn(blocks, db.cells[key].consumed.value.at))
    && (forall key :: key in db.transitions ==> AnchorOn(blocks, db.transitions[key].fact.block))
  }

  predicate AnchorOn(blocks: Blocks, a: Anchor) {
    a.number < |blocks| && blocks[a.number].hash == a.hash
  }

  lemma RowAnchors(rules: Rules, prefix: Blocks, lo: nat, cells: CellTable, key: CellKey)
    requires CellsExact(rules, History(prefix), lo, cells) && key in cells
    ensures AnchorOn(prefix, cells[key].cell.created)
    ensures cells[key].consumed.Some? ==> AnchorOn(prefix, cells[key].consumed.value.at)
  {
    hide ReadOutput, BuildNewCell, History;
    var h := History(prefix);
    var i: nat, o: nat :| Names(h, key, i, o);
    assert RowExact(rules, h, lo, cells, i, o);
    HistoryPosition(prefix, i);
    BuiltKey(rules, h[i].tx.hash, ReadOutput(rules.protocol, h[i].tx, o).value, CreationAnchor(h, lo, i));
    var c := Consumer(h, lo, OpAt(h, i, o));
    if c.Some? {
      HistoryPosition(prefix, c.value.pos);
    }
  }

  lemma TransitionAnchors(rules: Rules, prefix: Blocks, lo: nat, ts: TransitionTable, key: H256)
    requires AllReadable(rules, History(prefix), lo) && TransitionsExact(rules, History(prefix), lo, ts) && key in ts
    ensures AnchorOn(prefix, ts[key].fact.block)
  {
    hide Readable, InputsOf, History, ReadableOutputs, ClassifyTransition, CommonTxid, ExpectedCommitment, NewCells,
         Spends;
    var h := History(prefix);
    var p :| lo <= p < |h| && h[p].tx.hash == key;
    assert TransitionExact(rules, h[..p], h[p], ts);
    HistoryPosition(prefix, p);
  }

  lemma IndexAnchors(cfg: ScanConfig, db: Db, blocks: Blocks)
    requires OnChain(cfg, db, blocks)
    ensures AnchorsOn(blocks, db)
  {
    hide CellsExact, AllReadable, TransitionsExact, History, Before;
    if !Untouched(cfg, db) {
      var prefix := blocks[..Covered(db, blocks)];
      var lo := Before(prefix, cfg.FirstBlock());
      forall key | key in db.cells
        ensures AnchorOn(blocks, db.cells[key].cell.created)
        ensures db.cells[key].consumed.Some? ==> AnchorOn(blocks, db.cells[key].consumed.value.at)
      {
        RowAnchors(cfg.rules, prefix, lo, db.cells, key);
      }
      forall key | key in db.transitions
        ensures AnchorOn(blocks, db.transitions[key].fact.block)
      {
        TransitionAnchors(cfg.rules, prefix, lo, db.transitions, key);
      }
    }
  }

  /**
   If reorganisations stay above (highest tip ever seen minus lag), then at every scan the checkpoint
   check passes, the tables are on the node's current chain, and every stored anchor is still canonical.
   */
  lemma LagIsEnough(cfg: ScanConfig, events: seq<Event>, n: nat)
    requires n < |events| && events[n].Scanned? && ValidEvents(cfg, events) && ShallowReorgs(cfg, events)
    ensures var db, blocks := After(cfg, events, n), events[n].view.blocks;
            && CheckCanonical(Initialised(cfg, db).state.value, blocks).Ok?
            && OnChain(cfg, db, blocks) && AnchorsOn(blocks, db)
  {
    hide Step, After, Settled, OnChain, WellFormed, KeepsSettled, AnchorsOn, CheckCanonical;
    var db := After(cfg, events, n);
    AlwaysSettled(cfg, events, n);
    SettledMoves(cfg, db, Latest(events, n), events[n].view.blocks, HighTip(events, n));
    CanonicalOnChain(cfg, db, events[n].view.blocks);
    IndexAnchors(cfg, db, events[n].view.blocks);
  }

  /** And if every RGB++ cell consumed on those chains is readable, no round ever fails. */
  lemma NoRoundFails(cfg: ScanConfig, events: seq<Event>, n: nat)
    requires n < |events| && events[n].Scanned? && ValidEvents(cfg, events) && ShallowReorgs(cfg, events)
    requires ReadableRange(cfg.rules, History(events[n].view.blocks), 0, |History(events[n].view.blocks)|)
    ensures !Round(cfg, After(cfg, events, n), events[n].view).outcome.Failed?
  {
    hide Step, After, OnChain, WellFormed, AnchorsOn, CheckCanonical, Round, ReadableRange, History;
    var db, view := After(cfg, events, n), events[n].view;
    LagIsEnough(cfg, events, n);
    var target := cfg.SafeTarget(view.SyncedTip());
    if target.Some? && target.value > Checkpoint(cfg, db) {
      RoundCommits(cfg, db, view);
      PartReadable(cfg, view, Checkpoint(cfg, db) + 1, To(cfg, Checkpoint(cfg, db) + 1, target.value) + 1);
    } else {
      IdleWhenDone(cfg, db, view);
    }
  }
}
