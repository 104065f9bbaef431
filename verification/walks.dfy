/**
 A whole walk through an address's history while the scanner appends: what the pages show adds up to
 (crates/store/src/activity.rs, crates/api/src/dto.rs).
 */
module Walks {
  import opened ByteStrings
  import opened Ckb
  import opened Observation
  import opened Rows
  import opened Chain
  import opened Tables
  import opened Index
  import opened Scan
  import opened Growth
  import opened CursorText
  import opened Keyset
  import opened Activity
  import opened Deltas
  import opened Runs
  import opened Prefixes

  ghost predicate IsAt(db: Db, place: Position, x: H256) {
    x in db.transitions && PlaceOf(db.transitions[x]) == place
  }

  /** The transition at a place. */
  ghost function HashAt(db: Db, place: Position): H256 {
    if exists x :: IsAt(db, place, x) then
      var x :| IsAt(db, place, x);
      x
    else Zeros(32)
  }

  /** The transitions of one page. */
  function OnPage(db: Db, page: seq<Position>): set<H256> {
    set x | x in db.transitions && PlaceOf(db.transitions[x]) in page
  }

  /** The deltas one page shows for an asset, added up over its entries. */
  ghost function PageTotal(db: Db, page: seq<Position>, rows: seq<ActivityCell>, asset: Asset): Delta {
    if page == [] then ZERO
    else
      var n := |page| - 1;
      PageTotal(db, page[..n], rows, asset).Plus(SumRows(rows, HashAt(db, page[n]), asset))
  }

  /** And over all pages; page `i` was read from `dbs(i)`. */
  ghost function WalkTotal(dbs: nat -> Db, pages: seq<seq<Position>>, rows: seq<seq<ActivityCell>>, asset: Asset): Delta
    requires |rows| == |pages|
  {
    if pages == [] then ZERO
    else
      var n := |pages| - 1;
      WalkTotal(dbs, pages[..n], rows[..n], asset).Plus(PageTotal(dbs(n), pages[n], rows[n], asset))
  }

  /** The transitions at a list of places. */
  ghost function HashesAt(db: Db, places: seq<Position>): seq<H256> {
    seq(|places|, i requires 0 <= i < |places| => HashAt(db, places[i]))
  }

  lemma OneAtPlace(cfg: ScanConfig, prefix: Blocks, db: Db, place: Position, x: H256)
    requires WellFormed(History(prefix)) && IndexOf(cfg, prefix, db) && IsAt(db, place, x)
    ensures HashAt(db, place) == x
  {
    hide WellFormed, IndexOf, History;
    PlacesDistinct(cfg, prefix, db, HashAt(db, place), x);
  }

  /** An entry of the first page's history is the same transition, with the same deltas, in every later index. */
  lemma EntryStays(cfg: ScanConfig, blocks: Blocks, n: nat, a: Db, b: Db, labels: ObservationTable, address: string,
                   asset: Asset, place: Position)
    requires Grew(cfg, a, b, blocks, n) && place in Entries(a, labels, address)
    ensures var x := HashAt(a, place);
            && HashAt(b, place) == x && IsAt(a, place, x) && IsAt(b, place, x) && Touched(a.cells, labels, address, x)
            && Net(a.cells, labels, address, asset, {x}) == Net(b.cells, labels, address, asset, {x})
  {
    hide WellFormed, IndexOf, History, Touched, Net;
    StartInPrefix(cfg, blocks, n, a);
    PrefixWellFormed(blocks, blocks[..n]);
    var p := EntryOrigin(cfg, blocks[..n], a, labels, address, place);
    var h, m := History(blocks), Before(blocks, n);
    assert h[..m][p] == h[p];
    var x := h[p].tx.hash;
    EntryKept(cfg, blocks, n, a, b, labels, address, p);
    NetKept(cfg, blocks, n, a, b, labels, address, asset, p);
    OneAtPlace(cfg, blocks[..n], a, place, x);
    OneAtPlace(cfg, blocks, b, place, x);
  }

  lemma EntryShown(cfg: ScanConfig, a: Db, b: Db, labels: ObservationTable, address: string, asset: Asset,
                   page: seq<Position>, rows: seq<ActivityCell>, place: Position)
    requires LaterIndex(cfg, a, b) && place in Entries(a, labels, address) && place in page
    requires CellsOfPage(rows, b.cells, labels, address, OnPage(b, page))
    ensures SumRows(rows, HashAt(b, place), asset) == Net(a.cells, labels, address, asset, {HashAt(a, place)})
  {
    hide Grew, SumRows, Net, Touched, CellsOfPage;
    var blocks: Blocks, n: nat :| Grew(cfg, a, b, blocks, n);
    EntryStays(cfg, blocks, n, a, b, labels, address, asset, place);
    PageShowsNet(rows, b.cells, labels, address, OnPage(b, page), HashAt(b, place), asset);
  }

  lemma {:induction false} PageTotalIsNet(cfg: ScanConfig, a: Db, b: Db, labels: ObservationTable, address: string,
                                          asset: Asset,
                                          page: seq<Position>, rows: seq<ActivityCell>, k: nat)
    requires LaterIndex(cfg, a, b) && CellsOfPage(rows, b.cells, labels, address, OnPage(b, page)) && k <= |page|
    requires forall place :: place in page ==> place in Entries(a, labels, address)
    ensures PageTotal(b, page[..k], rows, asset) == TotalNet(a.cells, labels, address, asset, HashesAt(a, page[..k]))
  {
    hide LaterIndex, SumRows, Net, CellsOfPage, HashAt, Entries;
    if k > 0 {
      PageTotalIsNet(cfg, a, b, labels, address, asset, page, rows, k - 1);
      assert page[..k][..k - 1] == page[..k - 1];
      assert page[k - 1] in page;
      EntryShown(cfg, a, b, labels, address, asset, page, rows, page[k - 1]);
      var hashes := HashesAt(a, page[..k]);
      assert hashes[..k - 1] == HashesAt(a, page[..k - 1]);
    }
  }

  lemma {:induction false} TotalAppends(cells: CellTable, labels: ObservationTable, address: string, asset: Asset,
                                        a: seq<H256>, b: seq<H256>)
    ensures TotalNet(cells, labels, address, asset, a + b)
         == TotalNet(cells, labels, address, asset, a).Plus(TotalNet(cells, labels, address, asset, b))
    decreases |b|
  {
    hide Net;
    if b == [] {
      assert a + b == a;
    } else {
      var n := |b| - 1;
      assert (a + b)[..|a| + n] == a + b[..n];
      TotalAppends(cells, labels, address, asset, a, b[..n]);
    }
  }

  /** What a page has to be for the walk: part of the first history, its cells read from a later index. */
  ghost predicate PageOf(cfg: ScanConfig, first: Db, db: Db, labels: ObservationTable, address: string,
                         page: seq<Position>, rows: seq<ActivityCell>) {
    && LaterIndex(cfg, first, db) && CellsOfPage(rows, db.cells, labels, address, OnPage(db, page))
    && forall place :: place in page ==> place in Entries(first, labels, address)
  }

  lemma {:induction false} WalkTotalIsNet(cfg: ScanConfig, dbs: nat -> Db, labels: ObservationTable, address: string,
                                          asset: Asset, pages: seq<seq<Position>>, rows: seq<seq<ActivityCell>>)
    requires |rows| == |pages|
    requires forall i :: 0 <= i < |pages| ==> PageOf(cfg, dbs(0), dbs(i), labels, address, pages[i], rows[i])
    ensures WalkTotal(dbs, pages, rows, asset)
         == TotalNet(dbs(0).cells, labels, address, asset, HashesAt(dbs(0), Flat(pages)))
  {
    hide LaterIndex, CellsOfPage, HashAt, Entries, PageTotal;
    if pages == [] {
    } else {
      var n, a := |pages| - 1, dbs(0);
      WalkTotalIsNet(cfg, dbs, labels, address, asset, pages[..n], rows[..n]);
      assert PageOf(cfg, a, dbs(n), labels, address, pages[n], rows[n]);
      PageTotalIsNet(cfg, a, dbs(n), labels, address, asset, pages[n], rows[n], |pages[n]|);
      assert pages[n][..|pages[n]|] == pages[n];
      assert HashesAt(a, Flat(pages)) == HashesAt(a, Flat(pages[..n])) + HashesAt(a, pages[n]);
      TotalAppends(a.cells, labels, address, asset, HashesAt(a, Flat(pages[..n])), HashesAt(a, pages[n]));
    }
  }

  /** The places of a history, each once, are its transitions, each once. */
  lemma PlacesAreHistory(cfg: ScanConfig, prefix: Blocks, db: Db, labels: ObservationTable, address: string,
                         places: seq<Position>)
    requires WellFormed(History(prefix)) && IndexOf(cfg, prefix, db)
    requires InOrder(Newer, places) && forall p :: p in places <==> p in Entries(db, labels, address)
    ensures IsHistory(HashesAt(db, places), db.cells, db.transitions, labels, address)
  {
    hide WellFormed, IndexOf, History, Touched, HashAt;
    var hashes := HashesAt(db, places);
    forall i | 0 <= i < |places|
      ensures IsAt(db, places[i], hashes[i]) && Touched(db.cells, labels, address, hashes[i])
    {
      assert places[i] in places;
      var x :| x in db.transitions && Touched(db.cells, labels, address, x) && places[i] == PlaceOf(db.transitions[x]);
      OneAtPlace(cfg, prefix, db, places[i], x);
    }
    forall x
      ensures x in hashes <==> x in db.transitions && Touched(db.cells, labels, address, x)
    {
      if x in db.transitions && Touched(db.cells, labels, address, x) {
        EntryOf(db, labels, address, x);
        var i :| 0 <= i < |places| && places[i] == PlaceOf(db.transitions[x]);
        OneAtPlace(cfg, prefix, db, places[i], x);
        assert hashes[i] == x;
      }
    }
    forall i, j | 0 <= i < j < |hashes|
      ensures hashes[i] != hashes[j]
    {
      assert Newer(places[i], places[j]);
    }
  }

  /**
   A reader who follows the cursors from the first page to the last and adds up the deltas shown for an
   asset gets the address's unconsumed cells less its backfilled ones, as of the first page, in amount,
   capacity and number, whatever the scanner appended in the meantime.
   */
  lemma WalkBalances(cfg: ScanConfig, dbs: nat -> Db, labels: ObservationTable, address: string, asset: Asset,
                     pages: seq<seq<Position>>, rows: seq<seq<ActivityCell>>)
    requires InOrder(Newer, Flat(pages)) && forall p :: p in Flat(pages) <==> p in Entries(dbs(0), labels, address)
    requires |rows| == |pages| && LaterIndex(cfg, dbs(0), dbs(0))
    requires forall i :: 0 <= i < |pages| ==> LaterIndex(cfg, dbs(0), dbs(i))
    requires forall i :: 0 <= i < |pages| ==> CellsOfPage(rows[i], dbs(i).cells, labels, address, OnPage(dbs(i), pages[i]))
    ensures var a := dbs(0);
            Balances(WalkTotal(dbs, pages, rows, asset), a.cells,
                     Unconsumed(a.cells, labels, address, asset), Backfilled(a.cells, a.transitions, labels, address, asset))
  {
    hide CellsOfPage, Entries, WalkTotal, TotalNet, Sum, Owned, Unconsumed, Backfilled, HashesAt, LaterIndex, InOrder,
         IsHistory, Balances;
    var a := dbs(0);
    forall i | 0 <= i < |pages|
      ensures PageOf(cfg, a, dbs(i), labels, address, pages[i], rows[i])
    {
      forall p | p in pages[i]
        ensures p in Entries(a, labels, address)
      {
        InFlat(pages, i, p);
      }
    }
    WalkTotalIsNet(cfg, dbs, labels, address, asset, pages, rows);
    HistoryOf(cfg, a, labels, address, asset, Flat(pages));
    DifferenceBalances(a.cells, Unconsumed(a.cells, labels, address, asset),
                       Backfilled(a.cells, a.transitions, labels, address, asset));
  }

  lemma {:induction false} InFlat(pages: seq<seq<Position>>, i: nat, p: Position)
    requires i < |pages| && p in pages[i]
    ensures p in Flat(pages)
  {
    if i < |pages| - 1 {
      InFlat(pages[..|pages| - 1], i, p);
    }
  }

  lemma HistoryOf(cfg: ScanConfig, a: Db, labels: ObservationTable, address: string, asset: Asset,
                  places: seq<Position>)
    requires LaterIndex(cfg, a, a) && InOrder(Newer, places)
    requires forall p :: p in places <==> p in Entries(a, labels, address)
    ensures TotalNet(a.cells, labels, address, asset, HashesAt(a, places))
         == Sum(a.cells, Unconsumed(a.cells, labels, address, asset))
            .Minus(Sum(a.cells, Backfilled(a.cells, a.transitions, labels, address, asset)))
  {
    hide Touched, WellFormed, IsIndex, Sum, TotalNet, Unconsumed, Backfilled, HashesAt, History, InOrder, IsHistory,
         Before;
    if NoFacts(a) {
      NothingOwned(a, labels, address, asset, places);
    } else {
      var blocks: Blocks, n: nat :| Grew(cfg, a, a, blocks, n);
      PlacesAreHistory(cfg, blocks, a, labels, address, places);
      HistoryNets(cfg.rules, History(blocks), Before(blocks, cfg.FirstBlock()), a.cells, a.transitions, labels, address, asset,
                  HashesAt(a, places));
    }
  }

  lemma NothingOwned(a: Db, labels: ObservationTable, address: string, asset: Asset, places: seq<Position>)
    requires NoFacts(a) && forall p :: p in places <==> p in Entries(a, labels, address)
    ensures TotalNet(a.cells, labels, address, asset, HashesAt(a, places)) == ZERO
    ensures Sum(a.cells, Unconsumed(a.cells, labels, address, asset))
            .Minus(Sum(a.cells, Backfilled(a.cells, a.transitions, labels, address, asset))) == ZERO
  {
    assert Entries(a, labels, address) == {};
    NoPlaces(places);
    assert Unconsumed(a.cells, labels, address, asset) == {} && Backfilled(a.cells, a.transitions, labels, address, asset) == {};
  }

  lemma NoPlaces(places: seq<Position>)
    requires forall p: Position :: p !in places
    ensures places == []
  {
    if |places| > 0 {
      HasPlace(places);
    }
  }

  lemma HasPlace(places: seq<Position>)
    requires places != []
    ensures exists p: Position :: p in places
  {
    assert places[0] in places;
  }

  // ----- in a run of the scanner

  /** The database after `times(k)` events. */
  ghost function RunDbs(cfg: ScanConfig, events: seq<Event>, times: nat -> nat): nat -> Db
    requires ValidEvents(cfg, events)
  {
    (k: nat) => if times(k) <= |events| then After(cfg, events, times(k)) else FRESH
  }

  lemma {:induction false} TimesGrow(times: nat -> nat, k: nat, end: nat)
    requires forall i: nat :: NotBefore(times, i, end)
    ensures times(0) <= times(k) <= end
  {
    assert NotBefore(times, k, end);
    if k > 0 {
      TimesGrow(times, k - 1, end);
      assert NotBefore(times, k - 1, end);
    }
  }

  /** The walk balances when the pages are read at any moments of any run of the scanner. */
  lemma RunWalkBalances(cfg: ScanConfig, events: seq<Event>, times: nat -> nat, labels: ObservationTable,
                        address: string,
                        asset: Asset, pages: seq<seq<Position>>, rows: seq<seq<ActivityCell>>)
    requires ValidEvents(cfg, events) && OneBlockPerHash(events) && forall k: nat :: NotBefore(times, k, |events|)
    requires InOrder(Newer, Flat(pages))
    requires forall p :: p in Flat(pages) <==> p in RunViews(cfg, events, times, labels, address)(0)
    requires var dbs := RunDbs(cfg, events, times);
             |rows| == |pages| && forall i :: 0 <= i < |pages| ==>
               CellsOfPage(rows[i], dbs(i).cells, labels, address, OnPage(dbs(i), pages[i]))
    ensures var dbs := RunDbs(cfg, events, times);
            Balances(WalkTotal(dbs, pages, rows, asset), dbs(0).cells,
                     Unconsumed(dbs(0).cells, labels, address, asset),
                     Backfilled(dbs(0).cells, dbs(0).transitions, labels, address, asset))
  {
    hide ValidEvents, OneBlockPerHash, After, LaterIndex, CellsOfPage, Entries, WalkTotal, Balances, Unconsumed,
         Backfilled, InOrder;
    var dbs := RunDbs(cfg, events, times);
    forall i: nat
      ensures LaterIndex(cfg, dbs(0), dbs(i))
    {
      TimesGrow(times, i, |events|);
      RunsGrow(cfg, events, times(0), times(i));
    }
    TimesGrow(times, 0, |events|);
    WalkBalances(cfg, dbs, labels, address, asset, pages, rows);
  }
}
