/**
 What the store's write statements do to its tables, as functions on maps: one statement, one
 update (crates/store/src/cells.rs, transitions.rs, blocks.rs, state.rs).
 */
module Tables {
  import opened Wrappers
  import opened Ckb
  import opened Rows

  /** The whole CKB side of the database. */
  datatype Db = Db(cells: CellTable, transitions: TransitionTable, blocks: BlockTable, state: Option<StreamState>)

  // ----- single statements

  /** A conflicting insert only moves the creation anchor. */
  function InsertCell(cells: CellTable, c: NewCell): CellTable {
    if c.key in cells
    then cells[c.key := cells[c.key].(cell := cells[c.key].cell.(created := c.created))]
    else cells[c.key := CellRow(c, None)]
  }

  /** Updates the row of the cell if there is one. */
  function ApplySpend(cells: CellTable, s: CellSpend): CellTable {
    if s.key in cells then cells[s.key := cells[s.key].(consumed := Some(s.spentBy))] else cells
  }

  /** A conflicting insert replaces the indexed columns and leaves the verifier's alone. */
  function InsertTransition(ts: TransitionTable, t: NewTransition): TransitionTable {
    ts[t.ckbTxHash := if t.ckbTxHash in ts then ts[t.ckbTxHash].(fact := t) else TransitionRow(t, None, Unchecked)]
  }

  /** The activity flag is never cleared. */
  function UpsertBlock(bs: BlockTable, b: BlockRecord): BlockTable {
    bs[b.number := if b.number in bs then b.(active := bs[b.number].active || b.active) else b]
  }

  // ----- a batch

  function InsertCells(cells: CellTable, cs: seq<NewCell>): CellTable {
    if cs == [] then cells else InsertCell(InsertCells(cells, cs[..|cs| - 1]), cs[|cs| - 1])
  }

  function ApplySpends(cells: CellTable, ss: seq<CellSpend>): CellTable {
    if ss == [] then cells else ApplySpend(ApplySpends(cells, ss[..|ss| - 1]), ss[|ss| - 1])
  }

  /** How many rows the spends update. */
  function SpendHits(cells: CellTable, ss: seq<CellSpend>): nat {
    if ss == [] then 0
    else
      var n := |ss| - 1;
      SpendHits(cells, ss[..n]) + (if ss[n].key in ApplySpends(cells, ss[..n]) then 1 else 0)
  }

  function InsertTransitions(ts: TransitionTable, new_: seq<NewTransition>): TransitionTable {
    if new_ == [] then ts else InsertTransition(InsertTransitions(ts, new_[..|new_| - 1]), new_[|new_| - 1])
  }

  function UpsertBlocks(bs: BlockTable, new_: seq<BlockRecord>): BlockTable {
    if new_ == [] then bs else UpsertBlock(UpsertBlocks(bs, new_[..|new_| - 1]), new_[|new_| - 1])
  }

  function MoveCheckpoint(state: Option<StreamState>, batch: IndexBatch): Option<StreamState> {
    if state.None? then None
    else Some(StreamState(batch.checkpointNumber, batch.checkpointHash, Some(batch.target), Some(batch.chainTip),
                          batch.reorgLag, false))
  }

  function CellsAfter(cells: CellTable, batch: IndexBatch): CellTable {
    ApplySpends(InsertCells(cells, batch.cells), batch.spends)
  }

  function Applied(db: Db, batch: IndexBatch): Db {
    Db(CellsAfter(db.cells, batch),
       InsertTransitions(db.transitions, batch.transitions),
       UpsertBlocks(db.blocks, batch.blocks),
       MoveCheckpoint(db.state, batch))
  }

  // ----- appending to a batch

  lemma {:induction false} InsertCellsAppend(cells: CellTable, a: seq<NewCell>, b: seq<NewCell>)
    ensures InsertCells(cells, a + b) == InsertCells(InsertCells(cells, a), b)
  {
    hide InsertCell;
    if b == [] {
      assert a + b == a;
    } else {
      var n := |b| - 1;
      assert (a + b)[..|a + b| - 1] == a + b[..n];
      InsertCellsAppend(cells, a, b[..n]);
    }
  }

  lemma {:induction false} ApplySpendsAppend(cells: CellTable, a: seq<CellSpend>, b: seq<CellSpend>)
    ensures ApplySpends(cells, a + b) == ApplySpends(ApplySpends(cells, a), b)
  {
    hide ApplySpend;
    if b == [] {
      assert a + b == a;
    } else {
      var n := |b| - 1;
      assert (a + b)[..|a + b| - 1] == a + b[..n];
      ApplySpendsAppend(cells, a, b[..n]);
    }
  }

  lemma InsertSpendCommute(cells: CellTable, c: NewCell, s: CellSpend)
    requires c.key != s.key
    ensures ApplySpend(InsertCell(cells, c), s) == InsertCell(ApplySpend(cells, s), c)
  {
  }

  lemma {:induction false} InsertSpendsCommute(cells: CellTable, c: NewCell, ss: seq<CellSpend>)
    requires forall i :: 0 <= i < |ss| ==> ss[i].key != c.key
    ensures ApplySpends(InsertCell(cells, c), ss) == InsertCell(ApplySpends(cells, ss), c)
  {
    hide InsertCell, ApplySpend;
    if ss != [] {
      var n := |ss| - 1;
      InsertSpendsCommute(cells, c, ss[..n]);
      InsertSpendCommute(ApplySpends(cells, ss[..n]), c, ss[n]);
    }
  }

  /** Cells the pending spends do not name can be inserted before or after those spends. */
  lemma {:induction false} InsertsSpendsCommute(cells: CellTable, cs: seq<NewCell>, ss: seq<CellSpend>)
    requires forall i, j :: 0 <= i < |ss| && 0 <= j < |cs| ==> ss[i].key != cs[j].key
    ensures ApplySpends(InsertCells(cells, cs), ss) == InsertCells(ApplySpends(cells, ss), cs)
  {
    hide InsertCell, ApplySpend;
    if cs != [] {
      var n := |cs| - 1;
      InsertsSpendsCommute(cells, cs[..n], ss);
      InsertSpendsCommute(InsertCells(cells, cs[..n]), cs[n], ss);
    }
  }

  /** Growing a batch by cells its spends do not name is the same as writing it first and the rest after. */
  lemma GrowBatch(cells: CellTable, cs: seq<NewCell>, ss: seq<CellSpend>, moreCells: seq<NewCell>,
                  moreSpends: seq<CellSpend>)
    requires forall i, j :: 0 <= i < |ss| && 0 <= j < |moreCells| ==> ss[i].key != moreCells[j].key
    ensures ApplySpends(InsertCells(cells, cs + moreCells), ss + moreSpends)
         == ApplySpends(InsertCells(ApplySpends(InsertCells(cells, cs), ss), moreCells), moreSpends)
  {
    hide InsertCells, ApplySpends;
    InsertCellsAppend(cells, cs, moreCells);
    ApplySpendsAppend(InsertCells(InsertCells(cells, cs), moreCells), ss, moreSpends);
    InsertsSpendsCommute(InsertCells(cells, cs), moreCells, ss);
  }

  lemma {:induction false} InsertTransitionsAppend(ts: TransitionTable, a: seq<NewTransition>, b: seq<NewTransition>)
    ensures InsertTransitions(ts, a + b) == InsertTransitions(InsertTransitions(ts, a), b)
  {
    hide InsertTransition;
    if b == [] {
      assert a + b == a;
    } else {
      var n := |b| - 1;
      assert (a + b)[..|a + b| - 1] == a + b[..n];
      InsertTransitionsAppend(ts, a, b[..n]);
    }
  }

  // ----- fresh cells, each spent at most once

  predicate DistinctCells(cs: seq<NewCell>) {
    forall i, j :: 0 <= i < j < |cs| ==> cs[i].key != cs[j].key
  }

  predicate DistinctSpends(ss: seq<CellSpend>) {
    forall i, j :: 0 <= i < j < |ss| ==> ss[i].key != ss[j].key
  }

  predicate AnyCell(cs: seq<NewCell>, key: CellKey) {
    exists i :: 0 <= i < |cs| && cs[i].key == key
  }

  predicate AnySpend(ss: seq<CellSpend>, key: CellKey) {
    exists i :: 0 <= i < |ss| && ss[i].key == key
  }

  lemma {:induction false} InsertFreshAt(cells: CellTable, cs: seq<NewCell>, i: nat)
    requires DistinctCells(cs) && i < |cs| && cs[i].key !in cells
    ensures cs[i].key in InsertCells(cells, cs) && InsertCells(cells, cs)[cs[i].key] == CellRow(cs[i], None)
  {
    hide AnyCell;
    var n := |cs| - 1;
    if i < n {
      InsertFreshAt(cells, cs[..n], i);
      assert cs[..n][i] == cs[i];
    } else {
      InsertCellsAt(cells, cs[..n], cs[n].key);
      NoEarlierCell(cs);
    }
  }

  lemma NoEarlierCell(cs: seq<NewCell>)
    requires cs != [] && DistinctCells(cs)
    ensures !AnyCell(cs[..|cs| - 1], cs[|cs| - 1].key)
  {
  }

  lemma InsertFresh(cells: CellTable, cs: seq<NewCell>)
    requires DistinctCells(cs) && forall i :: 0 <= i < |cs| ==> cs[i].key !in cells
    ensures var r := InsertCells(cells, cs);
            && (forall i :: 0 <= i < |cs| ==> cs[i].key in r && r[cs[i].key] == CellRow(cs[i], None))
            && (forall k :: k in cells ==> k in r && r[k] == cells[k])
            && (forall k :: k in r ==> k in cells || AnyCell(cs, k))
  {
    hide InsertCells, AnyCell, DistinctCells;
    forall i | 0 <= i < |cs|
      ensures cs[i].key in InsertCells(cells, cs) && InsertCells(cells, cs)[cs[i].key] == CellRow(cs[i], None)
    {
      InsertFreshAt(cells, cs, i);
    }
    forall k
      ensures k in cells ==> k in InsertCells(cells, cs) && InsertCells(cells, cs)[k] == cells[k]
      ensures k in InsertCells(cells, cs) ==> k in cells || AnyCell(cs, k)
    {
      InsertCellsAt(cells, cs, k);
      if k in cells {
        FreshMissesOld(cells, cs, k);
        LastAnchorOfNone(cs, k, cells[k].cell.created);
      }
    }
  }

  lemma FreshMissesOld(cells: CellTable, cs: seq<NewCell>, k: CellKey)
    requires k in cells && forall i :: 0 <= i < |cs| ==> cs[i].key !in cells
    ensures !AnyCell(cs, k)
  {
  }

  lemma AnySpendPrefix(ss: seq<CellSpend>, n: nat, key: CellKey)
    requires n <= |ss|
    ensures AnySpend(ss[..n], key) ==> AnySpend(ss, key)
  {
    if AnySpend(ss[..n], key) {
      var i :| 0 <= i < n && ss[..n][i].key == key;
      assert ss[i].key == key;
    }
  }

  lemma {:induction false} LastConsumptionDistinct(ss: seq<CellSpend>, i: nat, c: Option<Consumption>)
    requires DistinctSpends(ss) && i < |ss|
    ensures LastConsumption(ss, ss[i].key, c) == Some(ss[i].spentBy)
  {
    var n := |ss| - 1;
    if i < n {
      LastConsumptionDistinct(ss[..n], i, c);
      assert ss[..n][i] == ss[i];
    }
  }

  lemma SpendDistinct(cells: CellTable, ss: seq<CellSpend>)
    requires DistinctSpends(ss) && forall i :: 0 <= i < |ss| ==> ss[i].key in cells
    ensures var r := ApplySpends(cells, ss);
            && r.Keys == cells.Keys
            && (forall i :: 0 <= i < |ss| ==> r[ss[i].key] == cells[ss[i].key].(consumed := Some(ss[i].spentBy)))
            && (forall k :: k in cells && !AnySpend(ss, k) ==> r[k] == cells[k])
  {
    hide ApplySpends, AnySpend, DistinctSpends, LastConsumption;
    SpendsKeepKeys(cells, ss);
    forall i | 0 <= i < |ss|
      ensures ApplySpends(cells, ss)[ss[i].key] == cells[ss[i].key].(consumed := Some(ss[i].spentBy))
    {
      ApplySpendsAt(cells, ss, ss[i].key);
      LastConsumptionDistinct(ss, i, cells[ss[i].key].consumed);
    }
    forall k | k in cells && !AnySpend(ss, k)
      ensures ApplySpends(cells, ss)[k] == cells[k]
    {
      ApplySpendsAt(cells, ss, k);
      LastConsumptionTwice(ss, k, cells[k].consumed);
    }
  }

  lemma {:induction false} SpendsKeepKeys(cells: CellTable, ss: seq<CellSpend>)
    ensures ApplySpends(cells, ss).Keys == cells.Keys
    ensures forall k :: k in cells ==> ApplySpends(cells, ss)[k].cell == cells[k].cell
  {
    if ss != [] {
      SpendsKeepKeys(cells, ss[..|ss| - 1]);
    }
  }

  /** Spends of cells that are all there update one row each. */
  lemma {:induction false} EverySpendHits(cells: CellTable, ss: seq<CellSpend>)
    requires forall i :: 0 <= i < |ss| ==> ss[i].key in cells
    ensures SpendHits(cells, ss) == |ss|
  {
    if ss != [] {
      var n := |ss| - 1;
      EverySpendHits(cells, ss[..n]);
      SpendsKeepKeys(cells, ss[..n]);
    }
  }

  // ----- applying a batch again changes nothing

  function LastAnchor(cs: seq<NewCell>, key: CellKey, otherwise: Anchor): Anchor {
    if cs == [] then otherwise
    else if cs[|cs| - 1].key == key then cs[|cs| - 1].created
    else LastAnchor(cs[..|cs| - 1], key, otherwise)
  }

  function LastConsumption(ss: seq<CellSpend>, key: CellKey, otherwise: Option<Consumption>): Option<Consumption> {
    if ss == [] then otherwise
    else if ss[|ss| - 1].key == key then Some(ss[|ss| - 1].spentBy)
    else LastConsumption(ss[..|ss| - 1], key, otherwise)
  }

  /** What inserting cells does at one key: every cell of that key makes the key present and sets the anchor. */
  lemma {:induction false} InsertCellsAt(cells: CellTable, cs: seq<NewCell>, key: CellKey)
    ensures var r := InsertCells(cells, cs);
            && (key in r <==> key in cells || AnyCell(cs, key))
            && (key in cells ==> r[key] == cells[key].(cell := cells[key].cell.(created := LastAnchor(cs, key, cells[key].cell.created))))
            && (AnyCell(cs, key) ==> forall a :: r[key].cell.created == LastAnchor(cs, key, a))
  {
    if cs != [] {
      var n := |cs| - 1;
      InsertCellsAt(cells, cs[..n], key);
      if AnyCell(cs[..n], key) {
        var i :| 0 <= i < n && cs[..n][i].key == key;
        assert cs[i].key == key;
      }
      if AnyCell(cs, key) && cs[n].key != key {
        var i :| 0 <= i < |cs| && cs[i].key == key;
        assert cs[..n][i].key == key;
      }
    }
  }

  lemma {:induction false} ApplySpendsAt(cells: CellTable, ss: seq<CellSpend>, key: CellKey)
    ensures var r := ApplySpends(cells, ss);
            && (key in r <==> key in cells)
            && (key in cells ==> r[key] == cells[key].(consumed := LastConsumption(ss, key, cells[key].consumed)))
  {
    if ss != [] {
      ApplySpendsAt(cells, ss[..|ss| - 1], key);
    }
  }

  lemma {:induction false} LastConsumptionTwice(ss: seq<CellSpend>, key: CellKey, c: Option<Consumption>)
    ensures LastConsumption(ss, key, LastConsumption(ss, key, c)) == LastConsumption(ss, key, c)
    ensures !AnySpend(ss, key) ==> LastConsumption(ss, key, c) == c
    ensures AnySpend(ss, key) ==> forall d :: LastConsumption(ss, key, c) == LastConsumption(ss, key, d)
  {
    if ss != [] {
      var n := |ss| - 1;
      LastConsumptionTwice(ss[..n], key, c);
      LastConsumptionTwice(ss[..n], key, LastConsumption(ss, key, c));
      AnySpendPrefix(ss, n, key);
      if AnySpend(ss, key) && ss[n].key != key {
        var i :| 0 <= i < |ss| && ss[i].key == key;
        assert ss[..n][i].key == key;
      }
    }
  }

  lemma {:induction false} LastAnchorOfNone(cs: seq<NewCell>, key: CellKey, a: Anchor)
    ensures !AnyCell(cs, key) ==> LastAnchor(cs, key, a) == a
  {
    if cs != [] {
      var n := |cs| - 1;
      LastAnchorOfNone(cs[..n], key, a);
      if AnyCell(cs[..n], key) {
        var i :| 0 <= i < n && cs[..n][i].key == key;
        assert cs[i].key == key;
      }
      if cs[n].key == key {
        assert AnyCell(cs, key);
      }
    }
  }

  lemma CellsAfterTwice(cells: CellTable, batch: IndexBatch)
    ensures CellsAfter(CellsAfter(cells, batch), batch) == CellsAfter(cells, batch)
  {
    hide InsertCells, ApplySpends, LastAnchor, LastConsumption, AnyCell;
    var inserted := InsertCells(cells, batch.cells);
    var once := CellsAfter(cells, batch);
    var again := InsertCells(once, batch.cells);
    var twice := CellsAfter(once, batch);
    forall key
      ensures key in twice <==> key in once
      ensures key in once ==> twice[key] == once[key]
    {
      InsertCellsAt(cells, batch.cells, key);
      ApplySpendsAt(inserted, batch.spends, key);
      InsertCellsAt(once, batch.cells, key);
      ApplySpendsAt(again, batch.spends, key);
      if key in once {
        LastConsumptionTwice(batch.spends, key, inserted[key].consumed);
        LastAnchorOfNone(batch.cells, key, once[key].cell.created);
        assert once[key].cell.created == inserted[key].cell.created;
        assert again[key].cell.created == once[key].cell.created;
        assert again[key] == once[key];
      }
    }
  }

  predicate AnyTransition(ts: seq<NewTransition>, key: H256) {
    exists i :: 0 <= i < |ts| && ts[i].ckbTxHash == key
  }

  function LastFact(ts: seq<NewTransition>, key: H256, otherwise: NewTransition): NewTransition {
    if ts == [] then otherwise
    else if ts[|ts| - 1].ckbTxHash == key then ts[|ts| - 1]
    else LastFact(ts[..|ts| - 1], key, otherwise)
  }

  /** Inserting transitions sets the indexed part to the last one given and never touches the verifier's columns. */
  lemma {:induction false} InsertTransitionsAt(ts: TransitionTable, new_: seq<NewTransition>, key: H256)
    ensures var r := InsertTransitions(ts, new_);
            && (key in r <==> key in ts || AnyTransition(new_, key))
            && (key in ts ==> r[key] == ts[key].(fact := LastFact(new_, key, ts[key].fact)))
            && (key in r && key !in ts ==> r[key].observedCommitment.None? && r[key].commitmentStatus == Unchecked)
            && (AnyTransition(new_, key) ==> forall f :: r[key].fact == LastFact(new_, key, f))
            && (!AnyTransition(new_, key) ==> forall f :: LastFact(new_, key, f) == f)
  {
    if new_ != [] {
      var n := |new_| - 1;
      InsertTransitionsAt(ts, new_[..n], key);
      if AnyTransition(new_[..n], key) {
        var i :| 0 <= i < n && new_[..n][i].ckbTxHash == key;
        assert new_[i].ckbTxHash == key;
      }
      if AnyTransition(new_, key) && new_[n].ckbTxHash != key {
        var i :| 0 <= i < |new_| && new_[i].ckbTxHash == key;
        assert new_[..n][i].ckbTxHash == key;
      }
    }
  }

  lemma InsertTransitionsTwice(ts: TransitionTable, new_: seq<NewTransition>)
    ensures InsertTransitions(InsertTransitions(ts, new_), new_) == InsertTransitions(ts, new_)
  {
    hide InsertTransitions, AnyTransition, LastFact;
    var once := InsertTransitions(ts, new_);
    var twice := InsertTransitions(once, new_);
    forall key
      ensures key in twice <==> key in once
      ensures key in once ==> twice[key] == once[key]
    {
      InsertTransitionsAt(ts, new_, key);
      InsertTransitionsAt(once, new_, key);
    }
  }

  predicate AnyBlock(bs: seq<BlockRecord>, number: nat) {
    exists i :: 0 <= i < |bs| && bs[i].number == number
  }

  function LastBlock(bs: seq<BlockRecord>, number: nat, otherwise: BlockRecord): BlockRecord {
    if bs == [] then otherwise
    else if bs[|bs| - 1].number == number then bs[|bs| - 1]
    else LastBlock(bs[..|bs| - 1], number, otherwise)
  }

  predicate AnyActive(bs: seq<BlockRecord>, number: nat) {
    exists i :: 0 <= i < |bs| && bs[i].number == number && bs[i].active
  }

  /** A header is the last one given, and is marked active iff it was or any of the given ones is. */
  lemma {:induction false} UpsertBlocksAt(bs: BlockTable, new_: seq<BlockRecord>, number: nat)
    ensures var r := UpsertBlocks(bs, new_);
            && (number in r <==> number in bs || AnyBlock(new_, number))
            && (number in bs ==>
                  r[number] == LastBlock(new_, number, bs[number]).(active := bs[number].active || AnyActive(new_, number)))
            && (AnyBlock(new_, number) && number !in bs ==>
                  forall b :: r[number] == LastBlock(new_, number, b).(active := AnyActive(new_, number)))
  {
    if new_ != [] {
      var n := |new_| - 1;
      UpsertBlocksAt(bs, new_[..n], number);
      LastBlockOf(new_[..n], number, new_[n]);
      assert new_[n].number == number && number !in bs && AnyBlock(new_[..n], number) ==>
          UpsertBlocks(bs, new_[..n])[number]
            == LastBlock(new_[..n], number, new_[n]).(active := AnyActive(new_[..n], number));
      if AnyBlock(new_[..n], number) {
        var i :| 0 <= i < n && new_[..n][i].number == number;
        assert new_[i].number == number;
      }
      if AnyBlock(new_, number) && new_[n].number != number {
        var i :| 0 <= i < |new_| && new_[i].number == number;
        assert new_[..n][i].number == number;
      }
      if AnyActive(new_[..n], number) {
        var i :| 0 <= i < n && new_[..n][i].number == number && new_[..n][i].active;
        assert new_[i].number == number && new_[i].active;
      }
      if AnyActive(new_, number) && !(new_[n].number == number && new_[n].active) {
        var i :| 0 <= i < |new_| && new_[i].number == number && new_[i].active;
        assert new_[..n][i].number == number && new_[..n][i].active;
      }
    }
  }

  lemma {:induction false} LastBlockOf(bs: seq<BlockRecord>, number: nat, a: BlockRecord)
    ensures !AnyBlock(bs, number) ==> LastBlock(bs, number, a) == a && !AnyActive(bs, number)
    ensures AnyBlock(bs, number) ==> forall b :: LastBlock(bs, number, a) == LastBlock(bs, number, b)
  {
    if bs != [] {
      var n := |bs| - 1;
      LastBlockOf(bs[..n], number, a);
      if AnyBlock(bs[..n], number) {
        var i :| 0 <= i < n && bs[..n][i].number == number;
        assert bs[i].number == number;
      }
      if AnyBlock(bs, number) && bs[n].number != number {
        var i :| 0 <= i < |bs| && bs[i].number == number;
        assert bs[..n][i].number == number;
      }
    }
  }

  lemma UpsertBlocksTwice(bs: BlockTable, new_: seq<BlockRecord>)
    ensures UpsertBlocks(UpsertBlocks(bs, new_), new_) == UpsertBlocks(bs, new_)
  {
    hide UpsertBlocks, AnyBlock, AnyActive, LastBlock;
    var once := UpsertBlocks(bs, new_);
    var twice := UpsertBlocks(once, new_);
    forall number
      ensures number in twice <==> number in once
      ensures number in once ==> twice[number] == once[number]
    {
      UpsertBlocksAt(bs, new_, number);
      UpsertBlocksAt(once, new_, number);
      if number in once {
        LastBlockOf(new_, number, once[number]);
      }
    }
  }

  /** Applying any batch a second time changes nothing: a replayed round is harmless. */
  lemma AppliedTwice(db: Db, batch: IndexBatch)
    ensures Applied(Applied(db, batch), batch) == Applied(db, batch)
  {
    hide CellsAfter, InsertTransitions, UpsertBlocks;
    CellsAfterTwice(db.cells, batch);
    InsertTransitionsTwice(db.transitions, batch.transitions);
    UpsertBlocksTwice(db.blocks, batch.blocks);
  }

  /** No batch disturbs a recorded commitment result or clears an activity flag. */
  lemma BatchKeepsVerdictsAndFlags(db: Db, batch: IndexBatch)
    ensures forall key :: key in db.transitions ==>
              key in Applied(db, batch).transitions
              && Applied(db, batch).transitions[key].observedCommitment == db.transitions[key].observedCommitment
              && Applied(db, batch).transitions[key].commitmentStatus == db.transitions[key].commitmentStatus
    ensures forall number :: number in db.blocks && db.blocks[number].active ==>
              number in Applied(db, batch).blocks && Applied(db, batch).blocks[number].active
  {
    hide InsertTransitions, UpsertBlocks, CellsAfter;
    forall key | key in db.transitions
      ensures key in Applied(db, batch).transitions
      ensures Applied(db, batch).transitions[key].observedCommitment == db.transitions[key].observedCommitment
      ensures Applied(db, batch).transitions[key].commitmentStatus == db.transitions[key].commitmentStatus
    {
      InsertTransitionsAt(db.transitions, batch.transitions, key);
    }
    forall number | number in db.blocks && db.blocks[number].active
      ensures number in Applied(db, batch).blocks && Applied(db, batch).blocks[number].active
    {
      UpsertBlocksAt(db.blocks, batch.blocks, number);
    }
  }
}
