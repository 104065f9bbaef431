/** The sweep over every live binding (crates/indexer/src/sweeper.rs, crates/store/src/cells.rs). */
module Sweep {
  import opened Wrappers
  import opened ByteStrings
  import opened Protocol
  import opened Rows
  import opened Order
  import opened Keyset
  import opened Observation
  import opened Queue
  import opened Source
  import opened Reconcile

  /** `(btc_txid, btc_vout)` in SQL order: txids bytewise, outputs as signed integers. */
  predicate BindingLess(a: BtcOutPoint, b: BtcOutPoint) {
    LexLess(a.txid, b.txid) || (a.txid == b.txid && AsI32(a.vout) < AsI32(b.vout))
  }

  lemma BindingOrder()
    ensures StrictOrder(BindingLess)
  {
    hide LexLess;
    forall a: BtcOutPoint
      ensures !BindingLess(a, a)
    {
      LexIrreflexive(a.txid);
    }
    forall a, b, c | BindingLess(a, b) && BindingLess(b, c)
      ensures BindingLess(a, c)
    {
      if LexLess(a.txid, b.txid) && LexLess(b.txid, c.txid) {
        LexTransitive(a.txid, b.txid, c.txid);
      }
    }
    forall a, b
      ensures a == b || BindingLess(a, b) || BindingLess(b, a)
    {
      LexTotal(a.txid, b.txid);
    }
  }

  /** The outpoints that back unconsumed cells. BTC time cells have no output and are not among them. */
  function LiveBindings(cells: CellTable): set<BtcOutPoint> {
    set key | key in cells && cells[key].consumed.None? && cells[key].cell.btcVout.Some? ::
      BtcOutPoint(cells[key].cell.btcTxid, AsU32(cells[key].cell.btcVout.value))
  }

  /** The cell at `key` is unconsumed and bound to this outpoint. */
  predicate BackedBy(cells: CellTable, op: BtcOutPoint, key: CellKey) {
    && key in cells && cells[key].consumed.None? && cells[key].cell.btcVout.Some?
    && op.txid == cells[key].cell.btcTxid && op.vout == cells[key].cell.btcVout.value % 0x1_0000_0000
  }

  ghost predicate Backs(cells: CellTable, op: BtcOutPoint) {
    exists key :: BackedBy(cells, op, key)
  }

  lemma LiveIs(cells: CellTable, op: BtcOutPoint)
    ensures op in LiveBindings(cells) <==> Backs(cells, op)
  {
    if op in LiveBindings(cells) {
      var key :| key in cells && cells[key].consumed.None? && cells[key].cell.btcVout.Some?
        && op == BtcOutPoint(cells[key].cell.btcTxid, AsU32(cells[key].cell.btcVout.value));
      assert BackedBy(cells, op, key);
    }
    if key :| BackedBy(cells, op, key) {
      assert op == BtcOutPoint(cells[key].cell.btcTxid, AsU32(cells[key].cell.btcVout.value));
    }
  }

  lemma {:induction false} ThroughoutIs(tables: nat -> CellTable, n: nat, op: BtcOutPoint)
    ensures op in LiveThroughout(tables, n) <==> forall k: nat :: k <= n ==> Backs(tables(k), op)
  {
    hide Backs, LiveBindings;
    LiveIs(tables(n), op);
    if n > 0 {
      ThroughoutIs(tables, n - 1, op);
    }
  }

  /** Txids compare bytewise, and outputs as the signed integers they are stored as. */
  ghost predicate SortsAhead(a: BtcOutPoint, b: BtcOutPoint) {
    || (exists k: nat :: LessAt(a.txid, b.txid, k))
    || (a.txid == b.txid
        && (if a.vout < 0x8000_0000 then a.vout else a.vout - 0x1_0000_0000)
           < (if b.vout < 0x8000_0000 then b.vout else b.vout - 0x1_0000_0000))
  }

  lemma VisitsSorted(visited: seq<BtcOutPoint>)
    requires InOrder(BindingLess, visited)
    ensures forall i, j :: 0 <= i < j < |visited| ==> SortsAhead(visited[i], visited[j])
  {
    hide LexLess, LessAt;
    forall i, j | 0 <= i < j < |visited|
      ensures SortsAhead(visited[i], visited[j])
    {
      LexIs(visited[i].txid, visited[j].txid);
    }
  }

  /** Every visited outpoint was bound when some page was read, and every one bound at all of them was visited. */
  ghost predicate CoversBindings(tables: nat -> CellTable, pages: nat, visited: seq<BtcOutPoint>) {
    forall op :: (forall k: nat :: k <= pages ==> Backs(tables(k), op)) ==> op in visited
  }

  ghost predicate OnlyBindings(tables: nat -> CellTable, pages: nat, visited: seq<BtcOutPoint>) {
    forall op :: op in visited ==> exists k: nat :: k < pages && Backs(tables(k), op)
  }

  lemma VisitsAre(tables: nat -> CellTable, pages: nat, visited: seq<BtcOutPoint>)
    ensures LiveThroughout(tables, pages) <= Elements(visited) ==> CoversBindings(tables, pages, visited)
    ensures AllSeenLive(tables, pages, visited) ==> OnlyBindings(tables, pages, visited)
  {
    hide Backs, LiveBindings, LiveThroughout;
    if LiveThroughout(tables, pages) <= Elements(visited) {
      forall op | forall k: nat :: k <= pages ==> Backs(tables(k), op)
        ensures op in visited
      {
        ThroughoutIs(tables, pages, op);
      }
    }
    if AllSeenLive(tables, pages, visited) {
      forall op | op in visited
        ensures exists k: nat :: k < pages && Backs(tables(k), op)
      {
        assert LiveAtSomePage(tables, pages, op);
        var k: nat :| k < pages && op in LiveBindings(tables(k));
        LiveIs(tables(k), op);
      }
    }
  }

  /** Live when each of the first `n + 1` pages was read. */
  function LiveThroughout(tables: nat -> CellTable, n: nat): set<BtcOutPoint> {
    if n == 0 then LiveBindings(tables(0)) else LiveThroughout(tables, n - 1) * LiveBindings(tables(n))
  }

  ghost predicate LiveAtSomePage(tables: nat -> CellTable, pages: nat, op: BtcOutPoint) {
    exists n: nat :: n < pages && op in LiveBindings(tables(n))
  }

  ghost predicate AllSeenLive(tables: nat -> CellTable, pages: nat, visited: seq<BtcOutPoint>) {
    forall op :: op in visited ==> LiveAtSomePage(tables, pages, op)
  }

  /** Observed at one of the sweep's instants. */
  ghost predicate ObservedDuring(obs: ObservationTable, op: BtcOutPoint, clock: nat -> int, pages: nat) {
    op in obs && exists n: nat :: n < pages && obs[op].observedAt == clock(n)
  }

  /** What the sweep owes the outpoints it visited: an observation, or a place in the queue. */
  ghost predicate TakenCareOf(visited: seq<BtcOutPoint>, obs: ObservationTable, q: QueueTable, clock: nat -> int,
                              pages: nat) {
    forall op :: op in visited ==> ObservedDuring(obs, op, clock, pages) || op in q
  }

  /** From `settled` on, no page finds a different set. */
  ghost predicate SettledFrom(tables: nat -> CellTable, settled: nat) {
    forall n: nat :: n >= settled ==> LiveBindings(tables(n)) == LiveBindings(tables(settled))
  }

  lemma FewerThroughout(visited: seq<BtcOutPoint>, tables: nat -> CellTable, n: nat)
    requires Walked(BindingLess, visited, LiveThroughout(tables, n))
    ensures Walked(BindingLess, visited, LiveThroughout(tables, n + 1))
  {
  }

  lemma StillTakenCareOf(visited: seq<BtcOutPoint>, page: seq<BtcOutPoint>, source: DataSource, cap: nat,
                         clock: nat -> int, n: nat,
                         obs: ObservationTable, q: QueueTable, obs': ObservationTable, q': QueueTable,
                         done: map<BtcOutPoint, SpendStatus>)
    requires TakenCareOf(visited, obs, q, clock, n) && Recorded(obs, obs', done, clock(n))
    requires done.Keys == Answered(source, Prefix(page, cap))
    requires q' == Requeued(q, StillOwed(source, page, cap), clock(n))
    ensures TakenCareOf(visited + page, obs', q', clock, n + 1)
  {
    hide Enqueue, AnswerFor, Shared;
    forall op | op in visited + page
      ensures ObservedDuring(obs', op, clock, n + 1) || op in q'
    {
      if op in visited && op !in q && op !in done {
        var i: nat :| i < n && obs[op].observedAt == clock(i);
        assert obs'[op].observedAt == clock(i);
      }
      if op in page && op !in done {
        SplitsAtCap(page, cap, op);
      }
    }
  }

  lemma SplitsAtCap(ops: seq<BtcOutPoint>, cap: nat, op: BtcOutPoint)
    requires op in ops
    ensures op in Prefix(ops, cap) || op in Overflow(ops, cap)
  {
    if |ops| > cap {
      assert ops == ops[..cap] + ops[cap..];
    }
  }

  /**
   One sweep, page by page, while the scanner changes the cell table (`tables(n)` when page `n` is read).
   It terminates once the set settles. It visits in strictly ascending order, so no outpoint twice, and
   every binding live throughout is visited; each visited one is observed or left in the queue.
   */
  method SweepInner(rec: Reconciler, tables: nat -> CellTable, bound: nat -> set<BtcOutPoint>, clock: nat -> int,
                    batchSize: nat, ghost settled: nat)
      returns (r: Result<()>, visited: seq<BtcOutPoint>, pages: nat)
    requires SettledFrom(tables, settled)
    modifies rec
    ensures InOrder(BindingLess, visited)
    ensures forall i, j :: 0 <= i < j < |visited| ==> SortsAhead(visited[i], visited[j])
    ensures OnlyBindings(tables, pages, visited)
    ensures r.Ok? && batchSize > 0 ==> CoversBindings(tables, pages, visited)
    ensures r.Ok? ==> TakenCareOf(visited, rec.observations, rec.queue, clock, pages)
  {
    hide LexLess, BindingLess, IsPage, Walked, LiveBindings, LiveThroughout, AllSeenLive, TakenCareOf, Recorded, Requeued,
         AnswersOf, Lists, LiveAtSomePage, InOrder, SettledFrom, StrictOrder, Answered, StillOwed, Remaining, Cursor,
         SortsAhead, OnlyBindings, CoversBindings, QueuedOwed, WithinCap;
    BindingOrder();
    visited, pages := [], 0;
    StartWalk(tables, rec.observations, rec.queue, clock);
    while true
      invariant Walked(BindingLess, visited, LiveThroughout(tables, pages))
      invariant AllSeenLive(tables, pages, visited)
      invariant TakenCareOf(visited, rec.observations, rec.queue, clock, pages)
      decreases if pages < settled then settled - pages else 0,
                |Remaining(BindingLess, LiveBindings(tables(settled)), Cursor(visited))|
    {
      if pages >= settled {
        SettledSet(tables, settled, pages);
      }
      var rows := LiveBindings(tables(pages));
      var page := SelectPage(BindingLess, rows, Cursor(visited), batchSize);
      if page == [] {
        EndWalk(tables, pages, batchSize, visited);
        VisitsSorted(visited);
        VisitsAre(tables, pages, visited);
        return Ok(()), visited, pages;
      }
      ghost var obs0, q0, before := rec.observations, rec.queue, visited;
      VisitPage(tables, pages, batchSize, visited, page);
      visited := visited + page;
      var refreshed, done, again := rec.RefreshOutpoints(page, bound(pages), clock(pages));
      pages := pages + 1;
      if refreshed.Err? {
        VisitsSorted(visited);
        VisitsAre(tables, pages, visited);
        return Err(refreshed.error), visited, pages;
      }
      StillTakenCareOf(before, page, rec.source, rec.cap, clock, pages - 1, obs0, q0, rec.observations, rec.queue, done);
    }
  }

  lemma StartWalk(tables: nat -> CellTable, obs: ObservationTable, q: QueueTable, clock: nat -> int)
    ensures Walked(BindingLess, [], LiveThroughout(tables, 0)) && TakenCareOf([], obs, q, clock, 0) && AllSeenLive(tables, 0, [])
  {
  }

  lemma ThroughoutIsLive(tables: nat -> CellTable, n: nat)
    ensures LiveThroughout(tables, n) <= LiveBindings(tables(n))
  {
  }

  lemma EndWalk(tables: nat -> CellTable, n: nat, limit: nat, visited: seq<BtcOutPoint>)
    requires Walked(BindingLess, visited, LiveThroughout(tables, n))
    requires IsPage(BindingLess, LiveBindings(tables(n)), Cursor(visited), limit, [])
    ensures InOrder(BindingLess, visited)
    ensures limit > 0 ==> LiveThroughout(tables, n) <= Elements(visited)
  {
    hide BindingLess, LiveBindings, LiveThroughout;
    ThroughoutIsLive(tables, n);
    if limit > 0 {
      WalkEnds(BindingLess, LiveBindings(tables(n)), limit, visited, LiveThroughout(tables, n));
    }
  }

  /** Visiting a page: the walk goes on, the page was live, and less is left of what is there now. */
  lemma VisitPage(tables: nat -> CellTable, n: nat, limit: nat, visited: seq<BtcOutPoint>, page: seq<BtcOutPoint>)
    requires Walked(BindingLess, visited, LiveThroughout(tables, n)) && AllSeenLive(tables, n, visited) && page != []
    requires IsPage(BindingLess, LiveBindings(tables(n)), Cursor(visited), limit, page)
    ensures Walked(BindingLess, visited + page, LiveThroughout(tables, n + 1)) && InOrder(BindingLess, visited + page)
    ensures AllSeenLive(tables, n + 1, visited + page)
    ensures |Remaining(BindingLess, LiveBindings(tables(n)), Cursor(visited + page))|
          < |Remaining(BindingLess, LiveBindings(tables(n)), Cursor(visited))|
  {
    hide BindingLess, LiveBindings, LiveThroughout, Remaining;
    BindingOrder();
    ThroughoutIsLive(tables, n);
    WalkOn(BindingLess, LiveBindings(tables(n)), limit, visited, page, LiveThroughout(tables, n));
    LessLeft(BindingLess, LiveBindings(tables(n)), limit, visited, page);
    FewerThroughout(visited + page, tables, n);
    forall op | op in visited + page
      ensures LiveAtSomePage(tables, n + 1, op)
    {
      if op in page {
        assert op in LiveBindings(tables(n));
      }
    }
  }

  lemma SettledSet(tables: nat -> CellTable, settled: nat, n: nat)
    requires SettledFrom(tables, settled) && n >= settled
    ensures LiveBindings(tables(n)) == LiveBindings(tables(settled))
  {
    hide LiveBindings;
  }

  /** Strictly ascending means no outpoint twice. */
  lemma AscendingIsDistinct(visited: seq<BtcOutPoint>, i: nat, j: nat)
    requires InOrder(BindingLess, visited) && i < j < |visited|
    ensures visited[i] != visited[j]
  {
    BindingOrder();
  }
}
