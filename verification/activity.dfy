/** An address's history, page by page (crates/store/src/activity.rs, crates/api/src/dto.rs). */
module Activity {
  import opened Wrappers
  import opened ByteStrings
  import opened Ckb
  import opened Protocol
  import opened Observation
  import opened Rows
  import opened Chain
  import opened Extract
  import opened Tables
  import opened Index
  import opened Scan
  import opened Growth
  import opened CursorText
  import opened Keyset

  // ----- what an address owns and which transitions touch it

  /** The join of cells with labelled outpoints; a cell without an output has no owner. */
  predicate OwnedBy(cell: NewCell, labels: ObservationTable, address: string) {
    cell.btcVout.Some?
    && BtcOutPoint(cell.btcTxid, AsU32(cell.btcVout.value)) in labels
    && labels[BtcOutPoint(cell.btcTxid, AsU32(cell.btcVout.value))].address == Some(address)
  }

  function Owned(cells: CellTable, labels: ObservationTable, address: string): (keys: set<CellKey>)
    ensures keys <= cells.Keys
  {
    set key | key in cells && OwnedBy(cells[key].cell, labels, address)
  }

  /** The cell was created or consumed by this transaction. */
  predicate Involves(cells: CellTable, key: CellKey, x: H256)
    requires key in cells
  {
    key.txHash == x || (cells[key].consumed.Some? && cells[key].consumed.value.txHash == x)
  }

  predicate Touched(cells: CellTable, labels: ObservationTable, address: string, x: H256) {
    exists key :: key in Owned(cells, labels, address) && Involves(cells, key, x)
  }

  function PlaceOf(t: TransitionRow): Position {
    Position(t.fact.block.number, t.fact.block.txIndex)
  }

  /** The places of the recorded transitions that touch the address. */
  function Entries(db: Db, labels: ObservationTable, address: string): set<Position> {
    set x | x in db.transitions && Touched(db.cells, labels, address, x) :: PlaceOf(db.transitions[x])
  }

  /** The address owns this cell: it labels the output the cell is bound to. */
  predicate Owns(cell: NewCell, labels: ObservationTable, address: string, op: BtcOutPoint) {
    && op in labels && labels[op].address == Some(address)
    && cell.btcVout.Some? && op.txid == cell.btcTxid && op.vout == cell.btcVout.value % 0x1_0000_0000
  }

  /** `x` created or consumed the cell at `key`, which the address owns by `op`. */
  predicate Concerned(db: Db, labels: ObservationTable, address: string, x: H256, key: CellKey, op: BtcOutPoint) {
    && key in db.cells && Owns(db.cells[key].cell, labels, address, op)
    && (key.txHash == x || (db.cells[key].consumed.Some? && db.cells[key].consumed.value.txHash == x))
  }

  /** `x` is a recorded transition at this block and index. */
  predicate RecordedAt(db: Db, x: H256, block: int, index: int) {
    x in db.transitions && db.transitions[x].fact.block.number == block && db.transitions[x].fact.block.txIndex == index
  }

  /**
   The history of an address, from the columns: the block and index of each recorded transition that created
   or consumed a cell bound to an output labelled with it.
   */
  lemma EntriesAre(db: Db, labels: ObservationTable, address: string, block: int, index: int)
    ensures Position(block, index) in Entries(db, labels, address)
       <==> exists x, key, op :: RecordedAt(db, x, block, index) && Concerned(db, labels, address, x, key, op)
  {
    if Position(block, index) in Entries(db, labels, address) {
      var x :| x in db.transitions && Touched(db.cells, labels, address, x) && PlaceOf(db.transitions[x]) == Position(block, index);
      var key :| key in Owned(db.cells, labels, address) && Involves(db.cells, key, x);
      var cell := db.cells[key].cell;
      assert RecordedAt(db, x, block, index);
      assert Concerned(db, labels, address, x, key, BtcOutPoint(cell.btcTxid, AsU32(cell.btcVout.value)));
    }
    if x, key, op :| RecordedAt(db, x, block, index) && Concerned(db, labels, address, x, key, op) {
      var cell := db.cells[key].cell;
      assert op == BtcOutPoint(cell.btcTxid, AsU32(cell.btcVout.value));
      assert key in Owned(db.cells, labels, address) && Involves(db.cells, key, x);
      assert PlaceOf(db.transitions[x]) == Position(block, index);
    }
  }

  // ----- the history only grows at its new end

  predicate Newer(a: Position, b: Position) {
    a.block > b.block || (a.block == b.block && a.index > b.index)
  }

  lemma NewestFirst()
    ensures StrictOrder(Newer)
  {
  }

  /** Nothing disappears, and what appears is newer than everything there was. */
  ghost predicate AppendsNewer(before: set<Position>, after: set<Position>) {
    before <= after && forall p, q :: p in after && p !in before && q in before ==> Newer(p, q)
  }

  lemma TouchKept(cfg: ScanConfig, blocks: Blocks, n: nat, a: Db, b: Db, labels: ObservationTable, address: string,
                  p: nat)
    requires n <= |blocks| && WellFormed(History(blocks))
    requires IndexOf(cfg, blocks[..n], a) && IndexOf(cfg, blocks, b)
    requires Before(blocks, cfg.FirstBlock()) <= p < Before(blocks, n) <= |History(blocks)|
    ensures Touched(a.cells, labels, address, History(blocks)[p].tx.hash)
       <==> Touched(b.cells, labels, address, History(blocks)[p].tx.hash)
  {
    hide WellFormed, CellsExact, AllReadable, TransitionsExact, History;
    var h, m, lo := History(blocks), Before(blocks, n), Before(blocks, cfg.FirstBlock());
    BeforeInPrefix(blocks, n, cfg.FirstBlock());
    var x := h[p].tx.hash;
    if key :| key in Owned(a.cells, labels, address) && Involves(a.cells, key, x) {
      RowKept(cfg.rules, h, m, lo, a.cells, b.cells, key);
      assert key in Owned(b.cells, labels, address) && Involves(b.cells, key, x);
    }
    if key :| key in Owned(b.cells, labels, address) && Involves(b.cells, key, x) {
      RowOld(cfg.rules, h, m, lo, a.cells, b.cells, key, p);
      assert key in Owned(a.cells, labels, address) && Involves(a.cells, key, x);
    }
  }

  lemma EntryOrigin(cfg: ScanConfig, blocks: Blocks, db: Db, labels: ObservationTable, address: string, e: Position)
      returns (p: nat)
    requires IndexOf(cfg, blocks, db) && e in Entries(db, labels, address)
    ensures Before(blocks, cfg.FirstBlock()) <= p < |History(blocks)|
    ensures var t := History(blocks)[p];
            t.tx.hash in db.transitions && Touched(db.cells, labels, address, t.tx.hash)
            && e == Position(t.number, t.txIndex) && db.transitions[t.tx.hash].fact.block == AnchorOf(t)
  {
    hide CellsExact, AllReadable, TransitionsExact, Touched, History;
    var x :| x in db.transitions && Touched(db.cells, labels, address, x) && e == PlaceOf(db.transitions[x]);
    p := TransitionOrigin(cfg.rules, History(blocks), Before(blocks, cfg.FirstBlock()), db.transitions, x);
  }

  lemma EntryKept(cfg: ScanConfig, blocks: Blocks, n: nat, a: Db, b: Db, labels: ObservationTable, address: string,
                  p: nat)
    requires n <= |blocks| && WellFormed(History(blocks))
    requires IndexOf(cfg, blocks[..n], a) && IndexOf(cfg, blocks, b)
    requires Before(blocks, cfg.FirstBlock()) <= p < Before(blocks, n) <= |History(blocks)|
    ensures var x := History(blocks)[p].tx.hash;
            && (x in a.transitions && Touched(a.cells, labels, address, x)
                <==> x in b.transitions && Touched(b.cells, labels, address, x))
            && (x in a.transitions ==> x in b.transitions && PlaceOf(a.transitions[x]) == PlaceOf(b.transitions[x]))
  {
    hide WellFormed, CellsExact, AllReadable, TransitionsExact, Touched, History;
    BeforeInPrefix(blocks, n, cfg.FirstBlock());
    TouchKept(cfg, blocks, n, a, b, labels, address, p);
    TransitionKept(cfg.rules, History(blocks), Before(blocks, n), Before(blocks, cfg.FirstBlock()),
                   a.transitions, b.transitions, p);
  }

  /** While the scanner appends blocks and no label changes, an address's history only gains newer entries. */
  lemma HistoryAppends(cfg: ScanConfig, blocks: Blocks, n: nat, a: Db, b: Db, labels: ObservationTable, address: string)
    requires n <= |blocks| && WellFormed(History(blocks))
    requires IndexOf(cfg, blocks[..n], a) && IndexOf(cfg, blocks, b)
    ensures AppendsNewer(Entries(a, labels, address), Entries(b, labels, address))
  {
    hide WellFormed, IndexOf, Touched, History, Entries;
    StartInPrefix(cfg, blocks, n, a);
    var h, m := History(blocks), Before(blocks, n);
    forall e | e in Entries(a, labels, address)
      ensures e in Entries(b, labels, address)
    {
      var p := EntryOrigin(cfg, blocks[..n], a, labels, address, e);
      assert h[..m][p] == h[p];
      EntryKept(cfg, blocks, n, a, b, labels, address, p);
      EntryOf(b, labels, address, h[p].tx.hash);
    }
    forall e, q | e in Entries(b, labels, address) && e !in Entries(a, labels, address) && q in Entries(a, labels, address)
      ensures Newer(e, q)
    {
      var p := EntryOrigin(cfg, blocks, b, labels, address, e);
      var r := EntryOrigin(cfg, blocks[..n], a, labels, address, q);
      assert h[..m][r] == h[r];
      if p < m {
        EntryKept(cfg, blocks, n, a, b, labels, address, p);
        EntryOf(a, labels, address, h[p].tx.hash);
      }
      PositionOrder(blocks, r, p);
    }
  }

  lemma StartInPrefix(cfg: ScanConfig, blocks: Blocks, n: nat, a: Db)
    requires n <= |blocks| && IndexOf(cfg, blocks[..n], a)
    ensures cfg.FirstBlock() <= n && Before(blocks[..n], cfg.FirstBlock()) == Before(blocks, cfg.FirstBlock())
    ensures Before(blocks, n) <= |History(blocks)| && History(blocks)[..Before(blocks, n)] == History(blocks[..n])
  {
    hide IsIndex, History;
    BeforeInPrefix(blocks, n, cfg.FirstBlock());
  }

  lemma EntryOf(db: Db, labels: ObservationTable, address: string, x: H256)
    requires x in db.transitions && Touched(db.cells, labels, address, x)
    ensures PlaceOf(db.transitions[x]) in Entries(db, labels, address)
  {
    hide Touched;
  }

  // ----- following the cursors

  /** Between pages the history may only append. */
  ghost predicate OnlyAppends(views: nat -> set<Position>) {
    forall n: nat :: AppendsNewer(views(n), views(n + 1))
  }

  ghost predicate CursorsFit(entries: set<Position>) {
    forall p :: p in entries ==> p.Fits()
  }

  lemma {:induction false} AppendsSinceStart(views: nat -> set<Position>, n: nat)
    requires OnlyAppends(views)
    ensures AppendsNewer(views(0), views(n))
  {
    if n > 0 {
      AppendsSinceStart(views, n - 1);
      assert AppendsNewer(views(n - 1), views(n - 1 + 1));
    }
  }

  /** Below a cursor, a grown history shows what the original one would. */
  lemma PageOfOriginal(first: set<Position>, now: set<Position>, cursor: Option<Position>, limit: nat,
                       page: seq<Position>)
    requires AppendsNewer(first, now) && IsPage(Newer, now, cursor, limit, page)
    requires cursor.Some? ==> cursor.value in first
    requires cursor.None? ==> now == first
    ensures IsPage(Newer, first, cursor, limit, page)
  {
  }

  /**
   Reads the first page, then follows `next_cursor` as text until there is none. Whatever is appended
   meanwhile, the pages make up the history as it was at the first page: newest first, nothing missing,
   nothing twice.
   */
  method FollowCursors(views: nat -> set<Position>, limit: nat)
    returns (history: seq<Position>, ghost pages: seq<seq<Position>>)
    requires OnlyAppends(views) && CursorsFit(views(0)) && limit > 0
    ensures Flat(pages) == history && ReadFrom(views, pages, limit)
    ensures InOrder(Newer, history)
    ensures forall i, j :: 0 <= i < j < |history| ==>
              history[i].block > history[j].block || (history[i].block == history[j].block && history[i].index > history[j].index)
    ensures forall p :: p in history <==> p in views(0)
  {
    hide IsPage, Walked, AppendsNewer, OnlyAppends, Newer, PrintCursor, ParseCursor, Flat, ReadFrom, Remaining;
    NewestFirst();
    NothingRead(views, limit);
    history, pages := [], [];
    var cursor: Option<string>, n := None, 0;
    StartHistory(views(0));
    while true
      invariant Walked(Newer, history, views(0)) && (forall p :: p in history ==> p in views(0))
      invariant cursor == (if history == [] then None else Some(PrintCursor(history[|history| - 1])))
      invariant history == [] ==> n == 0
      invariant |pages| == n && Flat(pages) == history && ReadFrom(views, pages, limit)
      decreases |Remaining(Newer, views(0), Cursor(history))|
    {
      var after := if cursor.None? then None else ParseCursor(cursor.value);
      if history != [] {
        assert history[|history| - 1] in history;
        CursorRoundTrip(history[|history| - 1]);
      }
      var page := SelectPage(Newer, views(n), after, limit);
      AppendsSinceStart(views, n);
      PageOfOriginal(views(0), views(n), Cursor(history), limit, page);
      PageIsOfFirst(views(0), Cursor(history), limit, page);
      PageIsOfFirst(views(n), after, limit, page);
      FlatSnoc(pages, page);
      ReadSnoc(views, pages, page, limit);
      if |page| < limit {
        LastPage(views(0), limit, history, page);
        Descending(history + page);
        return history + page, pages + [page];
      }
      pages := pages + [page];
      WalkOn(Newer, views(0), limit, history, page, views(0));
      LessLeft(Newer, views(0), limit, history, page);
      history := history + page;
      cursor := Some(PrintCursor(page[|page| - 1]));
      n := n + 1;
    }
  }

  lemma StartHistory(first: set<Position>)
    ensures Walked(Newer, [], first)
  {
  }

  lemma PageIsOfFirst(first: set<Position>, cursor: Option<Position>, limit: nat, page: seq<Position>)
    requires IsPage(Newer, first, cursor, limit, page)
    ensures |page| <= limit && forall p :: p in page ==> p in first
  {
  }

  /** The pages, one after the other. */
  function Flat(pages: seq<seq<Position>>): seq<Position> {
    if pages == [] then [] else Flat(pages[..|pages| - 1]) + pages[|pages| - 1]
  }

  /** Page `n` has at most `limit` entries, all from the history at its moment. */
  ghost predicate ReadFrom(views: nat -> set<Position>, pages: seq<seq<Position>>, limit: nat) {
    forall n :: 0 <= n < |pages| ==> |pages[n]| <= limit && forall p :: p in pages[n] ==> p in views(n)
  }

  lemma ReadSnoc(views: nat -> set<Position>, pages: seq<seq<Position>>, page: seq<Position>, limit: nat)
    requires ReadFrom(views, pages, limit) && |page| <= limit && forall p :: p in page ==> p in views(|pages|)
    ensures ReadFrom(views, pages + [page], limit)
  {
  }

  lemma NothingRead(views: nat -> set<Position>, limit: nat)
    ensures Flat([]) == [] && ReadFrom(views, [], limit)
  {
  }

  lemma FlatSnoc(pages: seq<seq<Position>>, page: seq<Position>)
    ensures Flat(pages + [page]) == Flat(pages) + page
  {
    assert (pages + [page])[..|pages|] == pages;
  }

  lemma Descending(history: seq<Position>)
    requires InOrder(Newer, history)
    ensures forall i, j :: 0 <= i < j < |history| ==>
              history[i].block > history[j].block || (history[i].block == history[j].block && history[i].index > history[j].index)
  {
  }

  /** A short page is the last. */
  lemma LastPage(first: set<Position>, limit: nat, history: seq<Position>, page: seq<Position>)
    requires Walked(Newer, history, first) && IsPage(Newer, first, Cursor(history), limit, page) && |page| < limit
    ensures InOrder(Newer, history + page)
    ensures forall p :: p in first ==> p in history + page
  {
    NewestFirst();
    if page != [] {
      WalkOn(Newer, first, limit, history, page, first);
    } else {
      assert history + page == history;
    }
  }
}
