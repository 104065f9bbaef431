/** The chain prefix behind the tables only ever grows by extension, whatever the run. */
module Prefixes {
  import opened Chain
  import opened Tables
  import opened Index
  import opened Scan
  import opened Runs
  import opened Observation
  import opened CursorText
  import opened Activity

  /** `p` after the first `n` events, and a longer or equal prefix after one more. */
  ghost predicate ExtendsTo(cfg: ScanConfig, events: seq<Event>, n: nat, db: Db, p: Blocks, q: Blocks) {
    p <= q && IndexOn(cfg, events, n, db, q)
  }

  lemma SeenStays(events: seq<Event>, n: nat, p: Blocks)
    requires Seen(events, n, p)
    ensures Seen(events, n + 1, p)
  {
    hide SeenAt;
  }

  lemma SameIndexSamePrefix(cfg: ScanConfig, events: seq<Event>, n: nat, a: Db, b: Db, p: Blocks)
    requires IndexOn(cfg, events, n, a, p) && SameIndex(a, b) && b.state.Some?
    ensures IndexOn(cfg, events, n + 1, b, p)
  {
    hide IsIndex, Seen, History, Before;
    SeenStays(events, n, p);
    IndexIgnoresVerdicts(cfg.rules, History(p), Before(p, cfg.FirstBlock()), a.cells, a.transitions, b.transitions);
  }

  lemma CommitExtendsPrefix(cfg: ScanConfig, events: seq<Event>, n: nat, db: Db, p: Blocks)
    requires n < |events| && events[n].Scanned? && OneBlockPerHash(events) && ValidEvents(cfg, events)
    requires IndexOn(cfg, events, n, db, p) && Commits(cfg, db, events[n].view)
    ensures var r := Round(cfg, db, events[n].view);
            && r.outcome.to < |events[n].view.blocks|
            && ExtendsTo(cfg, events, n + 1, r.committed, p, events[n].view.blocks[..r.outcome.to + 1])
  {
    hide IsIndex, WellFormed, Round, OnChain, BuildBatch, CellsAfter, InsertTransitions, History, IndexOf, HashesIdentify, Before,
         CheckCanonical;
    var view := events[n].view;
    CommitRange(cfg, db, view);
    assert Consistent(cfg, events, n, db);
    CheckedMeansOnChain(cfg, events, n, db);
    CommitExtends(cfg, db, view);
    var q := view.blocks[..Round(cfg, db, view).outcome.to + 1];
    CheckedPrefix(db, p, view.blocks);
    var i :| 0 <= i < n && i < |events| && SeenAt(events, i, p);
    SamePrefix(events[i].view.blocks, view.blocks, p, view.blocks[..|p|]);
    assert SeenAt(events, n, q);
    assert q[..|p|] == p;
  }

  lemma SameThroughStep(cfg: ScanConfig, events: seq<Event>, n: nat, db: Db, p: Blocks)
    requires n < |events| && ValidEvents(cfg, events) && IndexOn(cfg, events, n, db, p)
    requires SameIndex(db, Step(cfg, db, events[n])) && Step(cfg, db, events[n]).state.Some?
    ensures ExtendsTo(cfg, events, n + 1, Step(cfg, db, events[n]), p, p)
  {
    hide Step, IndexOn, SameIndex;
    SameIndexSamePrefix(cfg, events, n, db, Step(cfg, db, events[n]), p);
  }

  /** One more event keeps the prefix or extends it. */
  lemma StepExtends(cfg: ScanConfig, events: seq<Event>, n: nat, db: Db, p: Blocks) returns (q: Blocks)
    requires n < |events| && OneBlockPerHash(events) && ValidEvents(cfg, events) && IndexOn(cfg, events, n, db, p)
    ensures ExtendsTo(cfg, events, n + 1, Step(cfg, db, events[n]), p, q)
  {
    hide Round, IndexOf, WellFormed, Initialised, Applied, OneBlockPerHash, Seen, ExtendsTo;
    q := p;
    match events[n]
    case Verified(_, _, _) =>
      SameThroughStep(cfg, events, n, db, p);
    case Scanned(view, stop) =>
      NoCommitNoChange(cfg, db, view);
      var r := Round(cfg, db, view);
      if r.outcome.Committed? && (stop.BeforePrune? || stop.Never?) {
        CommitExtendsPrefix(cfg, events, n, db, p);
        AppliedIsCommitted(cfg, db, view);
        q := view.blocks[..r.outcome.to + 1];
        SameTables(cfg, events, n + 1, r.committed, Step(cfg, db, events[n]), p, q);
      } else {
        SameThroughStep(cfg, events, n, db, p);
      }
  }

  lemma SameTables(cfg: ScanConfig, events: seq<Event>, n: nat, a: Db, b: Db, p: Blocks, q: Blocks)
    requires ExtendsTo(cfg, events, n, a, p, q)
    requires a.cells == b.cells && a.transitions == b.transitions && a.state == b.state
    ensures ExtendsTo(cfg, events, n, b, p, q)
  {
    hide IsIndex, Seen;
  }

  /** From any event on, the run stays on extensions of the prefix it is on. */
  lemma {:induction false} RunExtends(cfg: ScanConfig, events: seq<Event>, n: nat, m: nat,
                                      p: Blocks) returns (q: Blocks)
    requires n <= m <= |events| && OneBlockPerHash(events) && ValidEvents(cfg, events)
    requires IndexOn(cfg, events, n, After(cfg, events, n), p)
    ensures ExtendsTo(cfg, events, m, After(cfg, events, m), p, q)
    decreases m
  {
    hide Step, IndexOn, OneBlockPerHash, ValidEvents;
    if n == m {
      q := p;
    } else {
      var q' := RunExtends(cfg, events, n, m - 1, p);
      q := StepExtends(cfg, events, m - 1, After(cfg, events, m - 1), q');
    }
  }

  /** The prefix the tables are the index of after a later event extends the one after an earlier event. */
  lemma PrefixesExtend(cfg: ScanConfig, events: seq<Event>, n: nat, m: nat, p: Blocks, q: Blocks)
    requires n <= m <= |events| && OneBlockPerHash(events) && ValidEvents(cfg, events)
    requires IndexOn(cfg, events, n, After(cfg, events, n), p) && IndexOn(cfg, events, m, After(cfg, events, m), q)
    ensures p <= q
  {
    hide IndexOf, After, HashesIdentify, ValidEvents;
    var q' := RunExtends(cfg, events, n, m, p);
    var i :| 0 <= i < m && i < |events| && SeenAt(events, i, q);
    var j :| 0 <= j < m && j < |events| && SeenAt(events, j, q');
    SamePrefix(events[i].view.blocks, events[j].view.blocks, q, q');
  }

  // ----- what a reader of the tables sees meanwhile

  ghost predicate Grew(cfg: ScanConfig, a: Db, b: Db, blocks: Blocks, n: nat) {
    n <= |blocks| && WellFormed(History(blocks)) && IndexOf(cfg, blocks[..n], a) && IndexOf(cfg, blocks, b)
  }

  /** `a` is empty, or the index of a part of what `b` is the index of. */
  ghost predicate LaterIndex(cfg: ScanConfig, a: Db, b: Db) {
    NoFacts(a) || exists blocks: Blocks, n: nat :: Grew(cfg, a, b, blocks, n)
  }

  lemma PrefixWellFormed(blocks: Blocks, p: Blocks)
    requires WellFormed(History(blocks)) && p <= blocks
    ensures WellFormed(History(p))
  {
    hide WellFormed, History;
    HistoryPrefix(blocks, |p|);
    assert blocks[..|p|] == p;
    WellFormedPrefix(History(blocks), |History(p)|);
    assert History(blocks)[..|History(p)|] == History(p);
  }

  /** In every run, the tables after a later event are the index of an extension of what they were the index of. */
  lemma RunsGrow(cfg: ScanConfig, events: seq<Event>, n: nat, m: nat)
    requires n <= m <= |events| && OneBlockPerHash(events) && ValidEvents(cfg, events)
    ensures LaterIndex(cfg, After(cfg, events, n), After(cfg, events, m))
  {
    hide After, IndexOf, WellFormed, History, OneBlockPerHash, AtEnd;
    AlwaysOneChain(cfg, events, n);
    var a, b := After(cfg, events, n), After(cfg, events, m);
    if !Untouched(cfg, a) {
      var p: Blocks :| IndexOn(cfg, events, n, a, p);
      var q := RunExtends(cfg, events, n, m, p);
      var i :| 0 <= i < m && i < |events| && SeenAt(events, i, q);
      assert Serves(events[i].view);
      PrefixWellFormed(events[i].view.blocks, q);
      assert q[..|p|] == p;
      assert Grew(cfg, a, b, q, |p|);
    }
  }

  /** Then an address's history only gains newer entries. */
  lemma LaterAppends(cfg: ScanConfig, a: Db, b: Db, labels: ObservationTable, address: string)
    requires LaterIndex(cfg, a, b)
    ensures AppendsNewer(Entries(a, labels, address), Entries(b, labels, address))
  {
    hide IndexOf, WellFormed, History, Touched;
    if NoFacts(a) {
      assert Entries(a, labels, address) == {};
    } else {
      var blocks: Blocks, n: nat :| Grew(cfg, a, b, blocks, n);
      HistoryAppends(cfg, blocks, n, a, b, labels, address);
    }
  }

  /** The histories a reader sees who looks after `times(0)`, `times(1)`, … events of a run. */
  ghost function RunViews(cfg: ScanConfig, events: seq<Event>, times: nat -> nat, labels: ObservationTable,
                          address: string): nat -> set<Position>
    requires ValidEvents(cfg, events)
  {
    (k: nat) => if times(k) <= |events| then Entries(After(cfg, events, times(k)), labels, address) else {}
  }

  predicate NotBefore(times: nat -> nat, k: nat, end: nat) {
    times(k) <= times(k + 1) <= end
  }

  /**
   Whatever the scanner does between a reader's pages, reorganisations and crashes included: with fixed
   labels the histories the pages are read from only append, which is all the walk needs.
   */
  lemma RunOnlyAppends(cfg: ScanConfig, events: seq<Event>, times: nat -> nat, labels: ObservationTable,
                       address: string)
    requires ValidEvents(cfg, events) && OneBlockPerHash(events)
    requires forall k: nat :: NotBefore(times, k, |events|)
    ensures OnlyAppends(RunViews(cfg, events, times, labels, address))
  {
    hide ValidEvents, OneBlockPerHash, Entries, AppendsNewer, After, LaterIndex;
    var views := RunViews(cfg, events, times, labels, address);
    forall k: nat
      ensures AppendsNewer(views(k), views(k + 1))
    {
      assert NotBefore(times, k, |events|) && NotBefore(times, k + 1, |events|);
      RunsGrow(cfg, events, times(k), times(k + 1));
      LaterAppends(cfg, After(cfg, events, times(k)), After(cfg, events, times(k + 1)), labels, address);
    }
  }

  // ----- a fork

  lemma ForkStep(cfg: ScanConfig, db: Db, view: View, stop: Stop)
    requires cfg.Valid() && view.Valid() && db.state.Some? && CheckCanonical(db.state.value, view.blocks).Err?
    ensures var next := Step(cfg, db, Scanned(view, stop));
            && next.cells == db.cells && next.transitions == db.transitions && next.blocks == db.blocks
            && next.state.Some?
            && next.state.value.lastBlockNumber == db.state.value.lastBlockNumber
            && next.state.value.lastBlockHash == db.state.value.lastBlockHash
  {
    hide Round;
    ForkIsRefused(cfg, db, view);
    NoCommitNoChange(cfg, db, view);
    AlreadyInitialised(cfg, db);
  }

  /**
   Whenever a scan of any run starts, either the tables are the index of the very chain the node then has,
   or the scan leaves facts, headers and checkpoint alone, wherever it stops.
   */
  lemma OnChainOrRefused(cfg: ScanConfig, events: seq<Event>, n: nat)
    requires n < |events| && events[n].Scanned? && OneBlockPerHash(events) && ValidEvents(cfg, events)
    ensures var db, next := After(cfg, events, n), After(cfg, events, n + 1);
            OnChain(cfg, db, events[n].view.blocks)
            || (next.cells == db.cells && next.transitions == db.transitions && next.blocks == db.blocks
                && db.state.Some? && next.state.Some?
                && next.state.value.lastBlockNumber == db.state.value.lastBlockNumber
                && next.state.value.lastBlockHash == db.state.value.lastBlockHash)
  {
    hide Step, OnChain, OneBlockPerHash, Consistent, WellFormed, Round;
    AlwaysOneChain(cfg, events, n);
    var db := After(cfg, events, n);
    if CheckCanonical(Initialised(cfg, db).state.value, events[n].view.blocks).Ok? {
      CheckedMeansOnChain(cfg, events, n, db);
    } else {
      assert Serves(events[n].view);
      ForkStep(cfg, db, events[n].view, events[n].stop);
      assert events[n] == Scanned(events[n].view, events[n].stop);
    }
  }
}
