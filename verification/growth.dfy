/** How the index of a chain prefix relates to the index of a longer one: it only appends. */
module Growth {
  import opened Wrappers
  import opened Ckb
  import opened Rows
  import opened Chain
  import opened Extract
  import opened Tables
  import opened Index
  import opened Scan
  import opened Integrity

  /** A consumption found in a prefix is the one found in the whole history; a later one is not seen in the prefix. */
  lemma ConsumerInPrefix(h: Txs, n: nat, lo: nat, i: nat, op: OutPoint)
    requires WellFormed(h) && lo <= n <= |h| && i < |h| && Creates(h[i], op)
    ensures Consumer(h[..n], lo, op)
         == (if Consumer(h, lo, op).Some? && Consumer(h, lo, op).value.pos < n then Consumer(h, lo, op) else None)
  {
    hide WellFormed;
    var p, c, d := h[..n], Consumer(h, lo, op), Consumer(h[..n], lo, op);
    if d.Some? {
      assert p[d.value.pos] == h[d.value.pos];
      assert op in h[d.value.pos].tx.inputs;
      OneConsumer(h, i, c.value.pos, c.value.index, d.value.pos, d.value.index);
    }
  }

  /** A row of the shorter index is in the longer one with the same cell, and with its consumption if it had one. */
  lemma RowKept(rules: Rules, h: Txs, n: nat, lo: nat, a: CellTable, b: CellTable, key: CellKey)
    requires WellFormed(h) && lo <= n <= |h| && key in a
    requires CellsExact(rules, h[..n], lo, a) && CellsExact(rules, h, lo, b)
    ensures key in b && b[key].cell == a[key].cell
    ensures a[key].consumed.Some? ==> b[key].consumed == a[key].consumed
  {
    hide WellFormed, ReadOutput, BuildNewCell, Source, CellsExact, RowExact;
    WellFormedPrefix(h, n);
    var i, o := RowOrigin(rules, h[..n], lo, a, key);
    var op := OpAt(h[..n], i, o);
    assert h[..n][i] == h[i] && op == OpAt(h, i, o);
    ConsumerInPrefix(h, n, lo, i, op);
    RowAt(rules, h[..n], lo, a, i, o);
    RowAt(rules, h, lo, b, i, o);
  }

  lemma RowAt(rules: Rules, h: Txs, lo: nat, cells: CellTable, i: nat, o: nat)
    requires CellsExact(rules, h, lo, cells) && i < |h| && o < |h[i].tx.outputs|
    ensures var key, row := KeyOf(OpAt(h, i, o)), ExpectedRow(rules, h, lo, i, o);
            (key in cells <==> row.Some?) && (key in cells ==> cells[key] == row.value)
  {
    hide ExpectedRow;
    assert RowExact(rules, h, lo, cells, i, o);
  }

  /** A row of the longer index whose creation or consumption the shorter one covers is in it, the same. */
  lemma RowOld(rules: Rules, h: Txs, n: nat, lo: nat, a: CellTable, b: CellTable, key: CellKey, p: nat)
    requires WellFormed(h) && lo <= p < n <= |h| && key in b
    requires CellsExact(rules, h[..n], lo, a) && CellsExact(rules, h, lo, b)
    requires key.txHash == h[p].tx.hash || (b[key].consumed.Some? && b[key].consumed.value.txHash == h[p].tx.hash)
    ensures key in a && a[key].cell == b[key].cell
    ensures b[key].consumed.Some? && b[key].consumed.value.txHash == h[p].tx.hash ==> a[key].consumed == b[key].consumed
  {
    hide WellFormed, ReadOutput, BuildNewCell, Source, CellsExact, RowExact;
    var i, o := RowOrigin(rules, h, lo, b, key);
    var op, c := OpAt(h, i, o), Consumer(h, lo, OpAt(h, i, o));
    if b[key].consumed.Some? && b[key].consumed.value.txHash == h[p].tx.hash {
      OneCreator(h, c.value.pos, p);
      CreatorFirst(h, i, c.value.pos, c.value.index);
    } else {
      OneCreator(h, i, p);
    }
    assert h[..n][i] == h[i];
    ConsumerInPrefix(h, n, lo, i, op);
    RowAt(rules, h[..n], lo, a, i, o);
    RowAt(rules, h, lo, b, i, o);
  }

  /** The transitions of the shorter index are those of the longer one that it covers. */
  lemma TransitionKept(rules: Rules, h: Txs, n: nat, lo: nat, a: TransitionTable, b: TransitionTable, p: nat)
    requires lo <= p < n <= |h| && AllReadable(rules, h, lo) && AllReadable(rules, h[..n], lo)
    requires TransitionsExact(rules, h[..n], lo, a) && TransitionsExact(rules, h, lo, b)
    ensures h[p].tx.hash in a <==> h[p].tx.hash in b
    ensures h[p].tx.hash in a ==> a[h[p].tx.hash].fact == b[h[p].tx.hash].fact
  {
    hide Readable, ExpectedTransition;
    assert h[..n][..p] == h[..p] && h[..n][p] == h[p];
    assert TransitionExact(rules, h[..n][..p], h[..n][p], a);
    assert TransitionExact(rules, h[..p], h[p], b);
  }

  /** A recorded transition sits in the indexed range, anchored where its transaction is. */
  lemma TransitionOrigin(rules: Rules, h: Txs, lo: nat, ts: TransitionTable, x: H256) returns (p: nat)
    requires AllReadable(rules, h, lo) && TransitionsExact(rules, h, lo, ts) && x in ts
    ensures lo <= p < |h| && h[p].tx.hash == x && ts[x].fact.block == AnchorOf(h[p])
  {
    hide InputsOf, Readable, ReadableOutputs, ClassifyTransition, CommonTxid, ExpectedCommitment, NewCells, Spends;
    p :| lo <= p < |h| && h[p].tx.hash == x;
    assert TransitionExact(rules, h[..p], h[p], ts);
  }

  /** Two transitions never share a place in the chain, so a place identifies a row. */
  lemma PlacesDistinct(cfg: ScanConfig, prefix: Blocks, db: Db, x: H256, y: H256)
    requires WellFormed(History(prefix)) && IndexOf(cfg, prefix, db) && x in db.transitions && y in db.transitions
    requires db.transitions[x].fact.block.number == db.transitions[y].fact.block.number
    requires db.transitions[x].fact.block.txIndex == db.transitions[y].fact.block.txIndex
    ensures x == y
  {
    hide WellFormed, AllReadable, CellsExact, TransitionsExact, History;
    var h, lo := History(prefix), Before(prefix, cfg.FirstBlock());
    var p := TransitionOrigin(cfg.rules, h, lo, db.transitions, x);
    var q := TransitionOrigin(cfg.rules, h, lo, db.transitions, y);
    PositionOrder(prefix, p, q);
    PositionOrder(prefix, q, p);
  }
}
