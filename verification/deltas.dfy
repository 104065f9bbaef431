/** Asset movements of a history (crates/api/src/dto.rs, crates/store/src/activity.rs). */
module Deltas {
  import opened Wrappers
  import opened Ckb
  import opened Observation
  import opened Rows
  import opened Chain
  import opened Tables
  import opened Index
  import opened Extract
  import opened Scan
  import opened Integrity
  import opened Growth
  import opened Activity

  datatype Asset = Asset(kind: AssetKind, typeHash: Option<H256>)

  function AssetOf(cell: NewCell): Asset {
    Asset(cell.assetKind, cell.typeHash)
  }

  /** One asset's signed movement: amount, capacity and number of cells. */
  datatype Delta = Delta(amount: int, capacity: int, cells: int) {
    function Plus(d: Delta): Delta {
      Delta(amount + d.amount, capacity + d.capacity, cells + d.cells)
    }

    function Minus(d: Delta): Delta {
      Delta(amount - d.amount, capacity - d.capacity, cells - d.cells)
    }
  }

  const ZERO := Delta(0, 0, 0)

  function Weight(cell: NewCell): Delta {
    Delta(if cell.udtAmount.Some? then cell.udtAmount.value else 0, cell.capacity, 1)
  }

  /** A cell an address gained or lost in a transition. */
  datatype ActivityCell = ActivityCell(tx: H256, received: bool, key: CellKey, cell: NewCell)

  type DeltaMap = map<H256, map<Asset, Delta>>

  function Movement(d: Delta, row: ActivityCell): Delta {
    if row.received then d.Plus(Weight(row.cell)) else d.Minus(Weight(row.cell))
  }

  predicate Concerns(row: ActivityCell, tx: H256, asset: Asset) {
    row.tx == tx && AssetOf(row.cell) == asset
  }

  function SumRows(rows: seq<ActivityCell>, tx: H256, asset: Asset): Delta {
    if rows == [] then ZERO
    else
      var front, last := SumRows(rows[..|rows| - 1], tx, asset), rows[|rows| - 1];
      if Concerns(last, tx, asset) then Movement(front, last) else front
  }

  function At(deltas: DeltaMap, tx: H256, asset: Asset): Delta {
    if tx in deltas && asset in deltas[tx] then deltas[tx][asset] else ZERO
  }

  predicate Listed(deltas: DeltaMap, tx: H256, asset: Asset) {
    tx in deltas && asset in deltas[tx]
  }

  predicate Moves(rows: seq<ActivityCell>, tx: H256, asset: Asset) {
    exists i :: 0 <= i < |rows| && Concerns(rows[i], tx, asset)
  }

  // ----- the same column by column

  /** One column, summed over a transition's rows of an asset: received cells count for it, sent ones against it. */
  function ColumnSum(rows: seq<ActivityCell>, tx: H256, asset: Asset, column: NewCell -> int): int {
    if rows == [] then 0
    else
      var front, row := ColumnSum(rows[..|rows| - 1], tx, asset, column), rows[|rows| - 1];
      if row.tx == tx && row.cell.assetKind == asset.kind && row.cell.typeHash == asset.typeHash
      then if row.received then front + column(row.cell) else front - column(row.cell)
      else front
  }

  /** A delta is the sums of the UDT amount, where there is one, of the capacity, and of ones. */
  ghost predicate SumsColumns(d: Delta, rows: seq<ActivityCell>, tx: H256, asset: Asset) {
    && d.amount == ColumnSum(rows, tx, asset, (c: NewCell) => if c.udtAmount.Some? then c.udtAmount.value else 0)
    && d.capacity == ColumnSum(rows, tx, asset, (c: NewCell) => c.capacity)
    && d.cells == ColumnSum(rows, tx, asset, (c: NewCell) => 1)
  }

  lemma {:induction false} SumRowsColumns(rows: seq<ActivityCell>, tx: H256, asset: Asset)
    ensures SumsColumns(SumRows(rows, tx, asset), rows, tx, asset)
  {
    if rows != [] {
      SumRowsColumns(rows[..|rows| - 1], tx, asset);
    }
  }

  /** A row of this transition is of this asset. */
  predicate HasRowOf(rows: seq<ActivityCell>, tx: H256, asset: Asset) {
    exists i :: 0 <= i < |rows| && rows[i].tx == tx
                && rows[i].cell.assetKind == asset.kind && rows[i].cell.typeHash == asset.typeHash
  }

  /** The per-transition, per-asset sums of a page. */
  method AssetDeltas(rows: seq<ActivityCell>) returns (deltas: DeltaMap)
    ensures forall tx, asset :: At(deltas, tx, asset) == SumRows(rows, tx, asset)
    ensures forall tx, asset :: SumsColumns(At(deltas, tx, asset), rows, tx, asset)
    ensures forall tx, asset :: Listed(deltas, tx, asset) <==> HasRowOf(rows, tx, asset)
  {
    hide SumsColumns;
    deltas := map[];
    for i := 0 to |rows|
      invariant forall tx, asset :: At(deltas, tx, asset) == SumRows(rows[..i], tx, asset)
      invariant forall tx, asset :: Listed(deltas, tx, asset) <==> Moves(rows[..i], tx, asset)
    {
      var row := rows[i];
      ghost var before := deltas;
      var ofTx := if row.tx in deltas then deltas[row.tx] else map[];
      var soFar := if AssetOf(row.cell) in ofTx then ofTx[AssetOf(row.cell)] else ZERO;
      deltas := deltas[row.tx := ofTx[AssetOf(row.cell) := Movement(soFar, row)]];
      forall tx, asset
        ensures At(deltas, tx, asset) == SumRows(rows[..i + 1], tx, asset)
        ensures Listed(deltas, tx, asset) <==> Moves(rows[..i + 1], tx, asset)
      {
        NextRow(rows, i, tx, asset);
        assert At(before, tx, asset) == SumRows(rows[..i], tx, asset);
      }
    }
    assert rows[..|rows|] == rows;
    forall tx, asset
      ensures SumsColumns(At(deltas, tx, asset), rows, tx, asset)
      ensures Listed(deltas, tx, asset) <==> HasRowOf(rows, tx, asset)
    {
      SumRowsColumns(rows, tx, asset);
      MovesIs(rows, tx, asset);
      assert Listed(deltas, tx, asset) <==> Moves(rows, tx, asset);
    }
  }

  lemma MovesIs(rows: seq<ActivityCell>, tx: H256, asset: Asset)
    ensures Moves(rows, tx, asset) <==> HasRowOf(rows, tx, asset)
  {
    if i :| 0 <= i < |rows| && rows[i].tx == tx && rows[i].cell.assetKind == asset.kind && rows[i].cell.typeHash == asset.typeHash {
      assert Concerns(rows[i], tx, asset);
    }
  }

  lemma NextRow(rows: seq<ActivityCell>, i: nat, tx: H256, asset: Asset)
    requires i < |rows|
    ensures SumRows(rows[..i + 1], tx, asset)
         == if Concerns(rows[i], tx, asset) then Movement(SumRows(rows[..i], tx, asset), rows[i])
            else SumRows(rows[..i], tx, asset)
    ensures Moves(rows[..i + 1], tx, asset) <==> Moves(rows[..i], tx, asset) || Concerns(rows[i], tx, asset)
  {
    var r := rows[..i + 1];
    assert r[..i] == rows[..i] && r[i] == rows[i];
    if Moves(rows[..i], tx, asset) {
      var k :| 0 <= k < i && Concerns(rows[..i][k], tx, asset);
      assert Concerns(r[k], tx, asset);
    }
    if Concerns(rows[i], tx, asset) {
      assert Concerns(r[i], tx, asset);
    }
    if Moves(r, tx, asset) {
      var k :| 0 <= k < |r| && Concerns(r[k], tx, asset);
      assert k < i ==> Concerns(rows[..i][k], tx, asset);
    }
  }

  // ----- sums over sets of cells

  ghost function Sum(cells: CellTable, keys: set<CellKey>): Delta
    requires keys <= cells.Keys
  {
    if keys == {} then ZERO
    else
      var key :| key in keys;
      Sum(cells, keys - {key}).Plus(Weight(cells[key].cell))
  }

  lemma PlusCommutes(d: Delta, a: Delta, b: Delta)
    ensures d.Plus(a).Plus(b) == d.Plus(b).Plus(a)
  {
  }

  lemma {:induction false} SumSplits(cells: CellTable, keys: set<CellKey>, key: CellKey)
    requires keys <= cells.Keys && key in keys
    ensures Sum(cells, keys) == Sum(cells, keys - {key}).Plus(Weight(cells[key].cell))
    decreases |keys|
  {
    hide Weight;
    var first :| first in keys && Sum(cells, keys) == Sum(cells, keys - {first}).Plus(Weight(cells[first].cell));
    if first != key {
      var rest := keys - {first} - {key};
      assert rest == keys - {key} - {first};
      SumSplits(cells, keys - {first}, key);
      SumSplits(cells, keys - {key}, first);
      var others := Sum(cells, rest);
      assert Sum(cells, keys - {first}) == others.Plus(Weight(cells[key].cell));
      assert Sum(cells, keys - {key}) == others.Plus(Weight(cells[first].cell));
      PlusCommutes(others, Weight(cells[key].cell), Weight(cells[first].cell));
    }
  }

  lemma PlusAssociates(d: Delta, a: Delta, b: Delta)
    ensures d.Plus(a).Plus(b) == d.Plus(a.Plus(b)) && d.Plus(ZERO) == d
  {
  }

  lemma SumOfNone(cells: CellTable)
    ensures Sum(cells, {}) == ZERO
  {
  }

  lemma TakeFromSecond(a: set<CellKey>, b: set<CellKey>, key: CellKey)
    requires key in b && a !! b
    ensures a + b - {key} == a + (b - {key}) && a !! b - {key}
  {
  }

  lemma {:induction false} SumDisjoint(cells: CellTable, a: set<CellKey>, b: set<CellKey>)
    requires a + b <= cells.Keys && a !! b
    ensures Sum(cells, a + b) == Sum(cells, a).Plus(Sum(cells, b))
    decreases |b|
  {
    hide Sum, Weight;
    if b == {} {
      assert a + b == a;
      SumOfNone(cells);
      PlusAssociates(Sum(cells, a), ZERO, ZERO);
    } else {
      var key :| key in b;
      SumSplits(cells, a + b, key);
      SumSplits(cells, b, key);
      TakeFromSecond(a, b, key);
      SumDisjoint(cells, a, b - {key});
      PlusAssociates(Sum(cells, a), Sum(cells, b - {key}), Weight(cells[key].cell));
    }
  }

  /** One column, summed over a set of cells. */
  ghost function ColumnTotal(cells: CellTable, keys: set<CellKey>, column: NewCell -> int): int
    requires keys <= cells.Keys
  {
    if keys == {} then 0
    else
      var key :| key in keys;
      ColumnTotal(cells, keys - {key}, column) + column(cells[key].cell)
  }

  lemma {:induction false} TotalSplits(cells: CellTable, keys: set<CellKey>, column: NewCell -> int, key: CellKey)
    requires keys <= cells.Keys && key in keys
    ensures ColumnTotal(cells, keys, column) == ColumnTotal(cells, keys - {key}, column) + column(cells[key].cell)
    decreases |keys|
  {
    var first :| first in keys
      && ColumnTotal(cells, keys, column) == ColumnTotal(cells, keys - {first}, column) + column(cells[first].cell);
    if first != key {
      TotalSplits(cells, keys - {first}, column, key);
      TotalSplits(cells, keys - {key}, column, first);
      assert keys - {first} - {key} == keys - {key} - {first};
    }
  }

  /** What is gained less what is lost: in UDT amount, where there is one, in capacity, and in number of cells. */
  ghost predicate Balances(d: Delta, cells: CellTable, gained: set<CellKey>, lost: set<CellKey>)
    requires gained <= cells.Keys && lost <= cells.Keys
  {
    var amount, capacity := (c: NewCell) => if c.udtAmount.Some? then c.udtAmount.value else 0, (c: NewCell) => c.capacity as int;
    && d.amount == ColumnTotal(cells, gained, amount) - ColumnTotal(cells, lost, amount)
    && d.capacity == ColumnTotal(cells, gained, capacity) - ColumnTotal(cells, lost, capacity)
    && d.cells == |gained| - |lost|
  }

  lemma {:induction false} SumColumns(cells: CellTable, keys: set<CellKey>)
    requires keys <= cells.Keys
    ensures Balances(Sum(cells, keys), cells, keys, {})
    decreases |keys|
  {
    if keys != {} {
      var key :| key in keys;
      SumSplits(cells, keys, key);
      SumColumns(cells, keys - {key});
      TotalSplits(cells, keys, (c: NewCell) => if c.udtAmount.Some? then c.udtAmount.value else 0, key);
      TotalSplits(cells, keys, (c: NewCell) => c.capacity as int, key);
    }
  }

  lemma DifferenceBalances(cells: CellTable, gained: set<CellKey>, lost: set<CellKey>)
    requires gained <= cells.Keys && lost <= cells.Keys
    ensures Balances(Sum(cells, gained).Minus(Sum(cells, lost)), cells, gained, lost)
  {
    hide Sum, ColumnTotal;
    SumColumns(cells, gained);
    SumColumns(cells, lost);
    NoTotal(cells, (c: NewCell) => if c.udtAmount.Some? then c.udtAmount.value else 0);
    NoTotal(cells, (c: NewCell) => c.capacity as int);
  }

  lemma NoTotal(cells: CellTable, column: NewCell -> int)
    ensures ColumnTotal(cells, {}, column) == 0
  {
  }

  // ----- what the rows of one transition add up to

  function Gained(cells: CellTable, labels: ObservationTable, address: string, asset: Asset,
                  txs: set<H256>): set<CellKey> {
    set key | key in Owned(cells, labels, address) && AssetOf(cells[key].cell) == asset && key.txHash in txs
  }

  function Lost(cells: CellTable, labels: ObservationTable, address: string, asset: Asset,
                txs: set<H256>): set<CellKey> {
    set key | key in Owned(cells, labels, address) && AssetOf(cells[key].cell) == asset
              && cells[key].consumed.Some? && cells[key].consumed.value.txHash in txs
  }

  /** What a set of transitions moved for the address: cells gained less cells lost. */
  ghost function Net(cells: CellTable, labels: ObservationTable, address: string, asset: Asset, txs: set<H256>): Delta {
    Sum(cells, Gained(cells, labels, address, asset, txs)).Minus(Sum(cells, Lost(cells, labels, address, asset, txs)))
  }

  predicate IsReceived(cells: CellTable, labels: ObservationTable, address: string, tx: H256, key: CellKey) {
    key in Owned(cells, labels, address) && key.txHash == tx
  }

  predicate IsSent(cells: CellTable, labels: ObservationTable, address: string, tx: H256, key: CellKey) {
    key in Owned(cells, labels, address) && cells[key].consumed.Some? && cells[key].consumed.value.txHash == tx
  }

  predicate HasRow(rows: seq<ActivityCell>, tx: H256, received: bool, key: CellKey) {
    exists i :: 0 <= i < |rows| && rows[i].tx == tx && rows[i].received == received && rows[i].key == key
  }

  /** The query for a page of transitions: each owned cell they created, and each they consumed, once. */
  ghost predicate CellsOfPage(rows: seq<ActivityCell>, cells: CellTable, labels: ObservationTable, address: string,
                              txs: set<H256>) {
    && (forall i, j :: 0 <= i < j < |rows| ==>
          !(rows[i].tx == rows[j].tx && rows[i].received == rows[j].received && rows[i].key == rows[j].key))
    && (forall i :: 0 <= i < |rows| ==> rows[i].key in cells && rows[i].cell == cells[rows[i].key].cell)
    && (forall i :: 0 <= i < |rows| ==> rows[i].tx in txs)
    && (forall tx, key :: tx in txs ==>
          (HasRow(rows, tx, true, key) <==> IsReceived(cells, labels, address, tx, key))
          && (HasRow(rows, tx, false, key) <==> IsSent(cells, labels, address, tx, key)))
  }

  function KeysIn(rows: seq<ActivityCell>, tx: H256, asset: Asset, received: bool): set<CellKey> {
    set i | 0 <= i < |rows| && Concerns(rows[i], tx, asset) && rows[i].received == received :: rows[i].key
  }

  lemma AddKey(cells: CellTable, keys: set<CellKey>, key: CellKey)
    requires keys <= cells.Keys && key in cells && key !in keys
    ensures Sum(cells, keys + {key}) == Sum(cells, keys).Plus(Weight(cells[key].cell))
  {
    hide Weight;
    SumSplits(cells, keys + {key}, key);
    assert keys + {key} - {key} == keys;
  }

  lemma {:induction false} SumRowsIsNet(rows: seq<ActivityCell>, cells: CellTable, tx: H256, asset: Asset)
    requires forall i :: 0 <= i < |rows| ==> rows[i].key in cells && rows[i].cell == cells[rows[i].key].cell
    requires forall i, j :: 0 <= i < j < |rows| ==>
               !(rows[i].tx == rows[j].tx && rows[i].received == rows[j].received && rows[i].key == rows[j].key)
    ensures KeysIn(rows, tx, asset, true) <= cells.Keys && KeysIn(rows, tx, asset, false) <= cells.Keys
    ensures SumRows(rows, tx, asset)
         == Sum(cells, KeysIn(rows, tx, asset, true)).Minus(Sum(cells, KeysIn(rows, tx, asset, false)))
  {
    hide Weight, Sum, KeysIn;
    if rows == [] {
      NoKeys(cells, tx, asset);
    } else {
      var n := |rows| - 1;
      var front, last := rows[..n], rows[n];
      SumRowsIsNet(front, cells, tx, asset);
      KeysStep(rows, tx, asset, true);
      KeysStep(rows, tx, asset, false);
      if Concerns(last, tx, asset) {
        AddKey(cells, KeysIn(front, tx, asset, last.received), last.key);
      }
    }
  }

  lemma NoKeys(cells: CellTable, tx: H256, asset: Asset)
    ensures KeysIn([], tx, asset, true) == {} && KeysIn([], tx, asset, false) == {} && Sum(cells, {}) == ZERO
  {
  }

  lemma KeysStep(rows: seq<ActivityCell>, tx: H256, asset: Asset, received: bool)
    requires rows != []
    requires forall i, j :: 0 <= i < j < |rows| ==>
               !(rows[i].tx == rows[j].tx && rows[i].received == rows[j].received && rows[i].key == rows[j].key)
    ensures var n := |rows| - 1;
            if Concerns(rows[n], tx, asset) && rows[n].received == received
            then KeysIn(rows, tx, asset, received) == KeysIn(rows[..n], tx, asset, received) + {rows[n].key}
                 && rows[n].key !in KeysIn(rows[..n], tx, asset, received)
            else KeysIn(rows, tx, asset, received) == KeysIn(rows[..n], tx, asset, received)
  {
    var n := |rows| - 1;
    forall i | 0 <= i < n && Concerns(rows[i], tx, asset) && rows[i].received == received
      ensures rows[i].key in KeysIn(rows[..n], tx, asset, received)
    {
      assert rows[..n][i] == rows[i];
    }
  }

  /** Whichever page shows a transition, its deltas are what that transition moved. */
  lemma PageShowsNet(rows: seq<ActivityCell>, cells: CellTable, labels: ObservationTable, address: string,
                     txs: set<H256>, tx: H256, asset: Asset)
    requires CellsOfPage(rows, cells, labels, address, txs) && tx in txs
    ensures SumRows(rows, tx, asset) == Net(cells, labels, address, asset, {tx})
  {
    hide SumRows, Sum, Owned;
    SumRowsIsNet(rows, cells, tx, asset);
    forall key
      ensures key in KeysIn(rows, tx, asset, true) <==> key in Gained(cells, labels, address, asset, {tx})
      ensures key in KeysIn(rows, tx, asset, false) <==> key in Lost(cells, labels, address, asset, {tx})
    {
      KeyShown(rows, cells, labels, address, txs, tx, asset, key);
    }
    assert KeysIn(rows, tx, asset, true) == Gained(cells, labels, address, asset, {tx});
    assert KeysIn(rows, tx, asset, false) == Lost(cells, labels, address, asset, {tx});
  }

  lemma KeyShown(rows: seq<ActivityCell>, cells: CellTable, labels: ObservationTable, address: string,
                 txs: set<H256>, tx: H256, asset: Asset, key: CellKey)
    requires CellsOfPage(rows, cells, labels, address, txs) && tx in txs
    ensures key in KeysIn(rows, tx, asset, true) <==> key in Gained(cells, labels, address, asset, {tx})
    ensures key in KeysIn(rows, tx, asset, false) <==> key in Lost(cells, labels, address, asset, {tx})
  {
    hide Owned;
    assert HasRow(rows, tx, true, key) <==> IsReceived(cells, labels, address, tx, key);
    assert HasRow(rows, tx, false, key) <==> IsSent(cells, labels, address, tx, key);
    if i :| 0 <= i < |rows| && rows[i].tx == tx && rows[i].key == key && AssetOf(rows[i].cell) == asset {
      assert Concerns(rows[i], tx, asset);
      assert HasRow(rows, tx, rows[i].received, key);
    }
    if HasRow(rows, tx, true, key) && AssetOf(cells[key].cell) == asset {
      RowInKeys(rows, cells, tx, asset, true, key);
    }
    if HasRow(rows, tx, false, key) && AssetOf(cells[key].cell) == asset {
      RowInKeys(rows, cells, tx, asset, false, key);
    }
  }

  lemma RowInKeys(rows: seq<ActivityCell>, cells: CellTable, tx: H256, asset: Asset, received: bool, key: CellKey)
    requires forall i :: 0 <= i < |rows| ==> rows[i].key in cells && rows[i].cell == cells[rows[i].key].cell
    requires HasRow(rows, tx, received, key) && key in cells && AssetOf(cells[key].cell) == asset
    ensures key in KeysIn(rows, tx, asset, received)
  {
    var i :| 0 <= i < |rows| && rows[i].tx == tx && rows[i].received == received && rows[i].key == key;
    assert Concerns(rows[i], tx, asset);
  }

  // ----- a whole history

  /** Deltas add up over disjoint sets of transitions, so pages may be cut anywhere. */
  lemma NetAddsUp(cells: CellTable, labels: ObservationTable, address: string, asset: Asset, a: set<H256>, b: set<H256>)
    requires a !! b
    ensures Net(cells, labels, address, asset, a + b)
         == Net(cells, labels, address, asset, a).Plus(Net(cells, labels, address, asset, b))
  {
    hide Owned, Sum, Weight;
    SumDisjoint(cells, Gained(cells, labels, address, asset, a), Gained(cells, labels, address, asset, b));
    SumDisjoint(cells, Lost(cells, labels, address, asset, a), Lost(cells, labels, address, asset, b));
    assert Gained(cells, labels, address, asset, a + b)
        == Gained(cells, labels, address, asset, a) + Gained(cells, labels, address, asset, b);
    assert Lost(cells, labels, address, asset, a + b)
        == Lost(cells, labels, address, asset, a) + Lost(cells, labels, address, asset, b);
  }

  /** The sum of what each transition in a list moved. */
  ghost function TotalNet(cells: CellTable, labels: ObservationTable, address: string, asset: Asset,
                          txs: seq<H256>): Delta {
    if txs == [] then ZERO
    else TotalNet(cells, labels, address, asset, txs[..|txs| - 1]).Plus(Net(cells, labels, address, asset, {txs[|txs| - 1]}))
  }

  function SetOf(txs: seq<H256>): set<H256> {
    set x | x in txs
  }

  lemma {:induction false} TotalIsNet(cells: CellTable, labels: ObservationTable, address: string, asset: Asset,
                                      txs: seq<H256>)
    requires forall i, j :: 0 <= i < j < |txs| ==> txs[i] != txs[j]
    ensures TotalNet(cells, labels, address, asset, txs) == Net(cells, labels, address, asset, SetOf(txs))
  {
    hide Net;
    if txs == [] {
      NothingMoved(cells, labels, address, asset);
      assert SetOf(txs) == {};
    } else {
      var n := |txs| - 1;
      TotalIsNet(cells, labels, address, asset, txs[..n]);
      NetAddsUp(cells, labels, address, asset, SetOf(txs[..n]), {txs[n]});
      assert txs == txs[..n] + [txs[n]];
      assert SetOf(txs) == SetOf(txs[..n]) + {txs[n]};
    }
  }

  lemma NothingMoved(cells: CellTable, labels: ObservationTable, address: string, asset: Asset)
    ensures Net(cells, labels, address, asset, {}) == ZERO
  {
    hide Owned, Weight;
    assert Gained(cells, labels, address, asset, {}) == {} && Lost(cells, labels, address, asset, {}) == {};
  }

  function OwnedAsset(cells: CellTable, labels: ObservationTable, address: string, asset: Asset): set<CellKey> {
    set key | key in Owned(cells, labels, address) && AssetOf(cells[key].cell) == asset
  }

  function Unconsumed(cells: CellTable, labels: ObservationTable, address: string, asset: Asset): (keys: set<CellKey>)
    ensures keys <= cells.Keys
  {
    set key | key in OwnedAsset(cells, labels, address, asset) && cells[key].consumed.None?
  }

  /** Owned cells whose creation is not an indexed transition. */
  function Backfilled(cells: CellTable, ts: TransitionTable, labels: ObservationTable, address: string,
                      asset: Asset): (keys: set<CellKey>)
    ensures keys <= cells.Keys
  {
    set key | key in OwnedAsset(cells, labels, address, asset) && key.txHash !in ts
  }

  /** A history: each recorded transition that touches the address, once. */
  ghost predicate IsHistory(txs: seq<H256>, cells: CellTable, ts: TransitionTable, labels: ObservationTable,
                            address: string) {
    && (forall i, j :: 0 <= i < j < |txs| ==> txs[i] != txs[j])
    && (forall x :: x in txs <==> x in ts && Touched(cells, labels, address, x))
  }

  lemma GainedInHistory(cells: CellTable, ts: TransitionTable, labels: ObservationTable, address: string,
                        asset: Asset, txs: seq<H256>)
    requires IsHistory(txs, cells, ts, labels, address)
    ensures Gained(cells, labels, address, asset, SetOf(txs))
         == OwnedAsset(cells, labels, address, asset) - Backfilled(cells, ts, labels, address, asset)
  {
    hide Owned;
    forall key | key in OwnedAsset(cells, labels, address, asset)
      ensures key.txHash in txs <==> key.txHash in ts
    {
      assert Involves(cells, key, key.txHash);
    }
  }

  lemma LostInHistory(rules: Rules, h: Txs, lo: nat, cells: CellTable, ts: TransitionTable, labels: ObservationTable,
                      address: string, asset: Asset, txs: seq<H256>)
    requires WellFormed(h) && IsIndex(rules, h, lo, cells, ts) && IsHistory(txs, cells, ts, labels, address)
    ensures Lost(cells, labels, address, asset, SetOf(txs))
         == OwnedAsset(cells, labels, address, asset) - Unconsumed(cells, labels, address, asset)
  {
    hide Owned, WellFormed, IsIndex;
    forall key | key in OwnedAsset(cells, labels, address, asset) && cells[key].consumed.Some?
      ensures cells[key].consumed.value.txHash in txs
    {
      ConsumerHasTransition(rules, h, lo, cells, ts, key);
      assert Involves(cells, key, cells[key].consumed.value.txHash);
    }
  }

  lemma HistoryIsNet(cells: CellTable, ts: TransitionTable, labels: ObservationTable, address: string, asset: Asset,
                     txs: seq<H256>)
    requires IsHistory(txs, cells, ts, labels, address)
    ensures TotalNet(cells, labels, address, asset, txs) == Net(cells, labels, address, asset, SetOf(txs))
  {
    hide TotalNet, Net, Touched;
    TotalIsNet(cells, labels, address, asset, txs);
  }

  lemma HistoryNets(rules: Rules, h: Txs, lo: nat, cells: CellTable, ts: TransitionTable, labels: ObservationTable,
                        address: string, asset: Asset, txs: seq<H256>)
    requires WellFormed(h) && IsIndex(rules, h, lo, cells, ts) && IsHistory(txs, cells, ts, labels, address)
    ensures TotalNet(cells, labels, address, asset, txs)
         == Sum(cells, Unconsumed(cells, labels, address, asset)).Minus(Sum(cells, Backfilled(cells, ts, labels, address, asset)))
  {
    hide WellFormed, IsIndex, IsHistory, Sum, TotalNet, Gained, Lost, Owned, Weight;
    HistoryIsNet(cells, ts, labels, address, asset, txs);
    GainedInHistory(cells, ts, labels, address, asset, txs);
    LostInHistory(rules, h, lo, cells, ts, labels, address, asset, txs);
    var all := OwnedAsset(cells, labels, address, asset);
    var live, back := Unconsumed(cells, labels, address, asset), Backfilled(cells, ts, labels, address, asset);
    SumDisjoint(cells, all - live, live);
    SumDisjoint(cells, all - back, back);
    assert all - live + live == all && all - back + back == all;
  }

  /** Whose cells count: of this asset, labelled with this address at the output they are bound to. */
  ghost predicate BelongsTo(cell: NewCell, labels: ObservationTable, address: string, asset: Asset) {
    && cell.assetKind == asset.kind && cell.typeHash == asset.typeHash && cell.btcVout.Some?
    && exists op :: op in labels && op.txid == cell.btcTxid && op.vout == cell.btcVout.value % 0x1_0000_0000
                    && labels[op].address == Some(address)
  }

  lemma WhoseCells(cells: CellTable, ts: TransitionTable, labels: ObservationTable, address: string, asset: Asset, key: CellKey)
    ensures key in Unconsumed(cells, labels, address, asset)
       <==> key in cells && BelongsTo(cells[key].cell, labels, address, asset) && cells[key].consumed.None?
    ensures key in Backfilled(cells, ts, labels, address, asset)
       <==> key in cells && BelongsTo(cells[key].cell, labels, address, asset) && key.txHash !in ts
  {
  }

  /**
   Over a whole history, an address's deltas of an asset add up to its unconsumed cells less its backfilled
   ones: in amount, in capacity and in number of cells.
   */
  lemma HistoryBalances(rules: Rules, h: Txs, lo: nat, cells: CellTable, ts: TransitionTable, labels: ObservationTable,
                        address: string, asset: Asset, txs: seq<H256>)
    requires WellFormed(h) && IsIndex(rules, h, lo, cells, ts) && IsHistory(txs, cells, ts, labels, address)
    ensures Balances(TotalNet(cells, labels, address, asset, txs), cells,
                     Unconsumed(cells, labels, address, asset), Backfilled(cells, ts, labels, address, asset))
  {
    hide WellFormed, IsIndex, IsHistory, Sum, TotalNet, Unconsumed, Backfilled, Balances;
    HistoryNets(rules, h, lo, cells, ts, labels, address, asset, txs);
    DifferenceBalances(cells, Unconsumed(cells, labels, address, asset), Backfilled(cells, ts, labels, address, asset));
  }

  // ----- while the scanner appends

  lemma {:induction false} SumSame(a: CellTable, b: CellTable, keys: set<CellKey>)
    requires keys <= a.Keys && keys <= b.Keys && forall key :: key in keys ==> a[key].cell == b[key].cell
    ensures Sum(a, keys) == Sum(b, keys)
    decreases |keys|
  {
    if keys != {} {
      var key :| key in keys;
      SumSplits(a, keys, key);
      SumSplits(b, keys, key);
      SumSame(a, b, keys - {key});
    }
  }

  lemma MovedKept(cfg: ScanConfig, blocks: Blocks, n: nat, a: Db, b: Db, labels: ObservationTable, address: string,
                  asset: Asset, p: nat)
    requires n <= |blocks| && WellFormed(History(blocks))
    requires IndexOf(cfg, blocks[..n], a) && IndexOf(cfg, blocks, b)
    requires Before(blocks, cfg.FirstBlock()) <= p < Before(blocks, n) <= |History(blocks)|
    ensures var x := {History(blocks)[p].tx.hash};
            && Gained(a.cells, labels, address, asset, x) == Gained(b.cells, labels, address, asset, x)
            && Lost(a.cells, labels, address, asset, x) == Lost(b.cells, labels, address, asset, x)
    ensures forall key :: key in b.cells && Involves(b.cells, key, History(blocks)[p].tx.hash) ==>
              key in a.cells && a.cells[key].cell == b.cells[key].cell
  {
    hide WellFormed, CellsExact, AllReadable, TransitionsExact, History;
    var h, m, lo := History(blocks), Before(blocks, n), Before(blocks, cfg.FirstBlock());
    BeforeInPrefix(blocks, n, cfg.FirstBlock());
    forall key | key in a.cells && Involves(a.cells, key, h[p].tx.hash)
      ensures key in b.cells && a.cells[key].cell == b.cells[key].cell
      ensures a.cells[key].consumed.Some? ==> b.cells[key].consumed == a.cells[key].consumed
    {
      RowKept(cfg.rules, h, m, lo, a.cells, b.cells, key);
    }
    forall key | key in b.cells && Involves(b.cells, key, h[p].tx.hash)
      ensures key in a.cells && a.cells[key].cell == b.cells[key].cell
      ensures b.cells[key].consumed.Some? && b.cells[key].consumed.value.txHash == h[p].tx.hash ==>
                a.cells[key].consumed == b.cells[key].consumed
    {
      RowOld(cfg.rules, h, m, lo, a.cells, b.cells, key, p);
    }
  }

  /** A transition's deltas stay what they are while blocks are appended. */
  lemma NetKept(cfg: ScanConfig, blocks: Blocks, n: nat, a: Db, b: Db, labels: ObservationTable, address: string,
                asset: Asset, p: nat)
    requires n <= |blocks| && WellFormed(History(blocks))
    requires IndexOf(cfg, blocks[..n], a) && IndexOf(cfg, blocks, b)
    requires Before(blocks, cfg.FirstBlock()) <= p < Before(blocks, n) <= |History(blocks)|
    ensures Net(a.cells, labels, address, asset, {History(blocks)[p].tx.hash})
         == Net(b.cells, labels, address, asset, {History(blocks)[p].tx.hash})
  {
    hide WellFormed, IndexOf, History, Sum, Owned;
    MovedKept(cfg, blocks, n, a, b, labels, address, asset, p);
    var x := {History(blocks)[p].tx.hash};
    SumSame(a.cells, b.cells, Gained(b.cells, labels, address, asset, x));
    SumSame(a.cells, b.cells, Lost(b.cells, labels, address, asset, x));
  }
}
