/**
 The paged search and the merge of the two lock searches (crates/ckb/src/client.rs
 `collect_transactions_in_range`, crates/indexer/src/scanner.rs `collect_range`).
 */
module Search {
  import opened Wrappers
  import opened Protocol
  import opened Chain
  import opened Matching
  import opened Rounds
  import opened Scan
  import opened Order

  // ----- pages

  datatype Page = Page(objects: seq<TxRecord>, lastCursor: Option<nat>)

  /** The server's page after a cursor; an empty page has an empty cursor. */
  function ServePage(served: seq<TxRecord>, after: nat, limit: nat): Page
    requires after <= |served|
  {
    var end := if |served| - after < limit then |served| else after + limit;
    Page(served[after..end], if end == after then None else Some(end))
  }

  function InRange(records: seq<TxRecord>, from: nat, to: nat): seq<TxRecord> {
    if records == [] then []
    else
      var front := InRange(records[..|records| - 1], from, to);
      var last := records[|records| - 1];
      if from <= last.blockNumber <= to then front + [last] else front
  }

  lemma {:induction false} InRangeAppend(a: seq<TxRecord>, b: seq<TxRecord>, from: nat, to: nat)
    ensures InRange(a + b, from, to) == InRange(a, from, to) + InRange(b, from, to)
  {
    if b == [] {
      assert a + b == a;
    } else {
      assert (a + b)[..|a + b| - 1] == a + b[..|b| - 1];
      InRangeAppend(a, b[..|b| - 1], from, to);
    }
  }

  lemma {:induction false} InRangeExact(records: seq<TxRecord>, from: nat, to: nat)
    ensures forall r :: r in InRange(records, from, to) <==> r in records && from <= r.blockNumber <= to
  {
    if records != [] {
      InRangeExact(records[..|records| - 1], from, to);
      assert records == records[..|records| - 1] + [records[|records| - 1]];
    }
  }

  // ----- the stable sort by (block, position)

  predicate SortsBefore(a: TxRecord, b: TxRecord) {
    a.blockNumber < b.blockNumber || (a.blockNumber == b.blockNumber && a.txIndex < b.txIndex)
  }

  /** Put a record after everything that does not sort behind it. */
  function InsertSorted(sorted: seq<TxRecord>, r: TxRecord): seq<TxRecord> {
    if sorted == [] then [r]
    else
      var n := |sorted| - 1;
      if SortsBefore(r, sorted[n]) then InsertSorted(sorted[..n], r) + [sorted[n]] else sorted + [r]
  }

  function SortByPosition(records: seq<TxRecord>): seq<TxRecord> {
    if records == [] then []
    else InsertSorted(SortByPosition(records[..|records| - 1]), records[|records| - 1])
  }

  predicate Sorted(records: seq<TxRecord>) {
    forall i, j :: 0 <= i < j < |records| ==> !SortsBefore(records[j], records[i])
  }

  lemma {:induction false} InsertSortedKeeps(sorted: seq<TxRecord>, r: TxRecord)
    ensures multiset(InsertSorted(sorted, r)) == multiset(sorted) + multiset{r}
  {
    if sorted != [] {
      var n := |sorted| - 1;
      assert sorted == sorted[..n] + [sorted[n]];
      InsertSortedKeeps(sorted[..n], r);
    }
  }

  lemma {:induction false} InsertSortedSorts(sorted: seq<TxRecord>, r: TxRecord)
    requires Sorted(sorted)
    ensures Sorted(InsertSorted(sorted, r))
  {
    if sorted != [] {
      var n := |sorted| - 1;
      if SortsBefore(r, sorted[n]) {
        InsertSortedSorts(sorted[..n], r);
        InsertedIsOldOrNew(sorted[..n], r);
        var front := InsertSorted(sorted[..n], r);
        forall i | 0 <= i < |front|
          ensures !SortsBefore(sorted[n], front[i])
        {
          assert front[i] == r || front[i] in sorted[..n];
        }
      }
    }
  }

  lemma InsertedIsOldOrNew(sorted: seq<TxRecord>, r: TxRecord)
    ensures forall x :: x in InsertSorted(sorted, r) ==> x == r || x in sorted
  {
    hide InsertSorted;
    InsertSortedKeeps(sorted, r);
    forall x | x in InsertSorted(sorted, r)
      ensures x == r || x in sorted
    {
      assert x in multiset(InsertSorted(sorted, r));
    }
  }

  /** Sorting gives the same records in (block, position) order. */
  lemma {:induction false} SortByPositionSorts(records: seq<TxRecord>)
    ensures Sorted(SortByPosition(records)) && multiset(SortByPosition(records)) == multiset(records)
  {
    if records != [] {
      var n := |records| - 1;
      assert records == records[..n] + [records[n]];
      SortByPositionSorts(records[..n]);
      InsertSortedSorts(SortByPosition(records[..n]), records[n]);
      InsertSortedKeeps(SortByPosition(records[..n]), records[n]);
    }
  }

  lemma {:induction false} SortedIsFixed(records: seq<TxRecord>)
    requires Sorted(records)
    ensures SortByPosition(records) == records
  {
    if records != [] {
      var n := |records| - 1;
      SortedIsFixed(records[..n]);
      assert records == records[..n] + [records[n]];
      if n > 0 {
        assert !SortsBefore(records[n], records[n - 1]);
      }
    }
  }

  /** The records of one page that fall in the range, appended in page order. */
  method KeepInRange(start: seq<TxRecord>, objects: seq<TxRecord>, from: nat, to: nat) returns (out: seq<TxRecord>)
    ensures out == start + InRange(objects, from, to)
  {
    out := start;
    for i := 0 to |objects|
      invariant out == start + InRange(objects[..i], from, to)
    {
      var record := objects[i];
      assert objects[..i + 1][..i] == objects[..i];
      if record.blockNumber < from || record.blockNumber > to {
        continue;
      }
      out := out + [record];
    }
    assert objects[..|objects|] == objects;
  }

  lemma NextPage(served: seq<TxRecord>, after: nat, limit: nat, from: nat, to: nat)
    requires after <= |served| && limit > 0
    ensures var page := ServePage(served, after, limit);
            var next := after + |page.objects|;
            && next <= |served|
            && InRange(served[..after], from, to) + InRange(page.objects, from, to) == InRange(served[..next], from, to)
            && (|page.objects| < limit || page.lastCursor.None? ==> served[..next] == served)
            && (page.lastCursor.Some? ==> page.lastCursor.value == next > after)
  {
    var page := ServePage(served, after, limit);
    InRangeAppend(served[..after], page.objects, from, to);
    assert served[..after] + page.objects == served[..after + |page.objects|];
  }

  /** Filtering and sorting keep exactly the served records of the range. */
  lemma ExactlyInRange(served: seq<TxRecord>, from: nat, to: nat)
    ensures forall r :: r in SortByPosition(InRange(served, from, to)) <==> r in served && from <= r.blockNumber <= to
  {
    hide InRange, SortByPosition, Sorted;
    InRangeExact(served, from, to);
    var kept := InRange(served, from, to);
    SortByPositionSorts(kept);
    forall r
      ensures r in SortByPosition(kept) <==> r in kept
    {
      assert r in multiset(SortByPosition(kept)) <==> r in multiset(kept);
    }
  }

  lemma NothingServedYet(served: seq<TxRecord>, from: nat, to: nat)
    ensures InRange(served[..0], from, to) == []
  {
  }

  /**
   Whatever the page limit, and whatever order and surplus the server answers with, the result is the
   served records of `[from, to]`, each as often as served, in (block, position) order.
   */
  method CollectTransactionsInRange(served: seq<TxRecord>, limit: nat, from: nat, to: nat) returns (out: seq<TxRecord>)
    requires limit > 0
    ensures from <= to ==> out == SortByPosition(InRange(served, from, to))
    ensures from > to ==> out == []
    ensures forall r :: r in out <==> r in served && from <= r.blockNumber <= to
  {
    hide InRange, SortByPosition;
    if from > to {
      return [];
    }
    ExactlyInRange(served, from, to);
    out := [];
    var after := 0;
    NothingServedYet(served, from, to);
    while true
      invariant after <= |served|
      invariant out == InRange(served[..after], from, to)
      decreases |served| - after
    {
      NextPage(served, after, limit, from, to);
      var page := ServePage(served, after, limit);
      out := KeepInRange(out, page.objects, from, to);
      if |page.objects| < limit || page.lastCursor.None? {
        break;
      }
      after := page.lastCursor.value;
    }
    out := SortByPosition(out);
  }

  // ----- the merge: a BTreeMap keyed by (block, position, hash), as its ordered list of values

  predicate KeyLess(a: TxRecord, b: TxRecord) {
    SortsBefore(a, b) || (a.blockNumber == b.blockNumber && a.txIndex == b.txIndex && LexLess(a.txHash, b.txHash))
  }

  predicate SameKey(a: TxRecord, b: TxRecord) {
    a.blockNumber == b.blockNumber && a.txIndex == b.txIndex && a.txHash == b.txHash
  }

  function Upsert(merged: seq<TxRecord>, r: TxRecord): seq<TxRecord> {
    if merged == [] then [r]
    else if SameKey(merged[0], r) then [merged[0].(cells := MergeCells(merged[0].cells, r.cells))] + merged[1..]
    else if KeyLess(r, merged[0]) then [r] + merged
    else [merged[0]] + Upsert(merged[1..], r)
  }

  function UpsertAll(merged: seq<TxRecord>, records: seq<TxRecord>): seq<TxRecord> {
    if records == [] then merged
    else Upsert(UpsertAll(merged, records[..|records| - 1]), records[|records| - 1])
  }

  predicate AllBefore(records: seq<TxRecord>, r: TxRecord) {
    forall i :: 0 <= i < |records| ==> SortsBefore(records[i], r)
  }

  lemma {:induction false} UpsertLast(merged: seq<TxRecord>, r: TxRecord)
    requires AllBefore(merged, r)
    ensures Upsert(merged, r) == merged + [r]
  {
    hide MergeCells;
    if merged != [] {
      assert SortsBefore(merged[0], r);
      UpsertLast(merged[1..], r);
      assert merged == [merged[0]] + merged[1..];
    }
  }

  lemma {:induction false} UpsertOnLast(merged: seq<TxRecord>, last: TxRecord, r: TxRecord)
    requires AllBefore(merged, r) && SameKey(last, r)
    ensures Upsert(merged + [last], r) == merged + [last.(cells := MergeCells(last.cells, r.cells))]
  {
    hide MergeCells;
    if merged == [] {
      assert merged + [last] == [last];
      assert [last][1..] == [];
    } else {
      assert SortsBefore(merged[0], r);
      UpsertOnLast(merged[1..], last, r);
      assert (merged + [last])[1..] == merged[1..] + [last];
    }
  }

  lemma {:induction false} UpsertBeforeLast(merged: seq<TxRecord>, last: TxRecord, r: TxRecord)
    requires SortsBefore(r, last)
    ensures Upsert(merged + [last], r) == Upsert(merged, r) + [last]
  {
    hide MergeCells;
    if merged == [] {
      assert merged + [last] == [last];
    } else {
      assert (merged + [last])[1..] == merged[1..] + [last];
      UpsertBeforeLast(merged[1..], last, r);
      assert ([r] + merged) + [last] == [r] + (merged + [last]);
    }
  }

  lemma {:induction false} UpsertAllBeforeLast(merged: seq<TxRecord>, last: TxRecord, records: seq<TxRecord>)
    requires AllBefore(records, last)
    ensures UpsertAll(merged + [last], records) == UpsertAll(merged, records) + [last]
  {
    hide Upsert;
    if records != [] {
      var n := |records| - 1;
      UpsertAllBeforeLast(merged, last, records[..n]);
      UpsertBeforeLast(UpsertAll(merged, records[..n]), last, records[n]);
    }
  }

  // ----- the merge of any two answers, whatever they repeat

  /** The map's keys: strictly ascending, so no key twice. */
  predicate Keyed(merged: seq<TxRecord>) {
    forall i, j :: 0 <= i < j < |merged| ==> KeyLess(merged[i], merged[j])
  }

  predicate HasKey(records: seq<TxRecord>, q: TxRecord) {
    exists i :: 0 <= i < |records| && SameKey(records[i], q)
  }

  /** Some record of this transaction lists the cell. */
  predicate HasCell(records: seq<TxRecord>, q: TxRecord, c: MatchedCell) {
    exists i :: 0 <= i < |records| && SameKey(records[i], q) && c in records[i].cells
  }

  predicate CellsOnce(records: seq<TxRecord>) {
    forall i :: 0 <= i < |records| ==> Distinct(records[i].cells)
  }

  lemma KeyOrder(a: TxRecord, b: TxRecord, c: TxRecord)
    ensures SameKey(a, b) || KeyLess(a, b) || KeyLess(b, a)
    ensures KeyLess(a, b) && KeyLess(b, c) ==> KeyLess(a, c)
    ensures KeyLess(a, b) && SameKey(b, c) ==> KeyLess(a, c)
    ensures SameKey(a, b) && KeyLess(b, c) ==> KeyLess(a, c)
  {
    hide LexLess;
    LexTotal(a.txHash, b.txHash);
    if LexLess(a.txHash, b.txHash) && LexLess(b.txHash, c.txHash) {
      LexTransitive(a.txHash, b.txHash, c.txHash);
    }
  }

  lemma {:induction false} MergeHas(existing: seq<MatchedCell>, more: seq<MatchedCell>, c: MatchedCell)
    ensures c in MergeCells(existing, more) <==> c in existing || c in more
  {
    if more != [] {
      var n := |more| - 1;
      MergeHas(existing, more[..n], c);
      assert more == more[..n] + [more[n]];
    }
  }

  lemma HeadAndTail(records: seq<TxRecord>, q: TxRecord, c: MatchedCell)
    requires records != []
    ensures HasKey(records, q) <==> SameKey(records[0], q) || HasKey(records[1..], q)
    ensures HasCell(records, q, c) <==> (SameKey(records[0], q) && c in records[0].cells) || HasCell(records[1..], q, c)
  {
    if i :| 0 <= i < |records[1..]| && SameKey(records[1..][i], q) {
      assert SameKey(records[i + 1], q);
    }
    if i :| 0 <= i < |records[1..]| && SameKey(records[1..][i], q) && c in records[1..][i].cells {
      assert SameKey(records[i + 1], q) && c in records[i + 1].cells;
    }
    if i :| 0 < i < |records| && SameKey(records[i], q) {
      assert SameKey(records[1..][i - 1], q);
    }
    if i :| 0 < i < |records| && SameKey(records[i], q) && c in records[i].cells {
      assert SameKey(records[1..][i - 1], q) && c in records[1..][i - 1].cells;
    }
  }

  /** One upsert adds the record's key and cells, and nothing else. */
  lemma {:induction false} UpsertAdds(merged: seq<TxRecord>, r: TxRecord, q: TxRecord, c: MatchedCell)
    ensures HasKey(Upsert(merged, r), q) <==> HasKey(merged, q) || SameKey(r, q)
    ensures HasCell(Upsert(merged, r), q, c) <==> HasCell(merged, q, c) || (SameKey(r, q) && c in r.cells)
  {
    hide KeyLess, HasKey, HasCell, MergeCells;
    var after := Upsert(merged, r);
    HeadAndTail(after, q, c);
    if merged == [] {
      assert after[1..] == [];
      NoRecords(q, c);
    } else {
      HeadAndTail(merged, q, c);
      if SameKey(merged[0], r) {
        MergeHas(merged[0].cells, r.cells, c);
        assert after[1..] == merged[1..];
      } else if KeyLess(r, merged[0]) {
        assert after[1..] == merged;
      } else {
        UpsertAdds(merged[1..], r, q, c);
        assert after[1..] == Upsert(merged[1..], r);
      }
    }
  }

  lemma NoRecords(q: TxRecord, c: MatchedCell)
    ensures !HasKey([], q) && !HasCell([], q, c)
  {
  }

  lemma KeyedCons(first: TxRecord, rest: seq<TxRecord>)
    requires Keyed(rest) && forall q :: HasKey(rest, q) ==> KeyLess(first, q)
    ensures Keyed([first] + rest)
  {
    hide KeyLess, SameKey;
    var all := [first] + rest;
    forall i, j | 0 <= i < j < |all|
      ensures KeyLess(all[i], all[j])
    {
      assert all[j] == rest[j - 1];
      OwnKey(rest, j - 1);
      assert i > 0 ==> all[i] == rest[i - 1];
    }
  }

  lemma OwnKey(records: seq<TxRecord>, i: nat)
    requires i < |records|
    ensures HasKey(records, records[i])
  {
    assert SameKey(records[i], records[i]);
  }

  lemma FirstIsLess(merged: seq<TxRecord>, q: TxRecord)
    requires Keyed(merged) && merged != [] && HasKey(merged[1..], q)
    ensures KeyLess(merged[0], q)
  {
    hide KeyLess;
    var i :| 0 <= i < |merged[1..]| && SameKey(merged[1..][i], q);
    assert KeyLess(merged[0], merged[i + 1]);
    KeyOrder(merged[0], merged[i + 1], q);
  }

  lemma {:induction false} UpsertKeyed(merged: seq<TxRecord>, r: TxRecord)
    requires Keyed(merged)
    ensures Keyed(Upsert(merged, r))
  {
    hide KeyLess, SameKey, HasKey, MergeCells;
    if merged != [] {
      var first, rest := merged[0], merged[1..];
      if SameKey(first, r) {
        SameHead(merged, first.(cells := MergeCells(first.cells, r.cells)));
      } else if KeyLess(r, first) {
        forall q | HasKey(merged, q)
          ensures KeyLess(r, q)
        {
          HeadAndTail(merged, q, MatchedCell(Input, 0));
          KeyOrder(r, first, q);
          if HasKey(rest, q) {
            FirstIsLess(merged, q);
          }
        }
        KeyedCons(r, merged);
      } else {
        UpsertKeyed(rest, r);
        forall q | HasKey(Upsert(rest, r), q)
          ensures KeyLess(first, q)
        {
          UpsertAdds(rest, r, q, MatchedCell(Input, 0));
          KeyOrder(first, r, q);
          if HasKey(rest, q) {
            FirstIsLess(merged, q);
          }
        }
        KeyedCons(first, Upsert(rest, r));
      }
    }
  }

  lemma SameHead(merged: seq<TxRecord>, first: TxRecord)
    requires Keyed(merged) && merged != [] && first == merged[0].(cells := first.cells)
    ensures Keyed([first] + merged[1..])
  {
  }

  lemma {:induction false} UpsertOnce(merged: seq<TxRecord>, r: TxRecord)
    requires CellsOnce(merged) && Distinct(r.cells)
    ensures CellsOnce(Upsert(merged, r))
  {
    hide KeyLess, SameKey, Distinct, MergeCells;
    if merged != [] {
      UpsertOnce(merged[1..], r);
      MergeCellsExact(merged[0].cells, r.cells);
    }
  }

  /**
   Whatever is merged in, and in whatever order and however often: the keys stay strictly ascending, they
   are the keys there were and the keys of the records, and each key holds the union of its cells. Nothing
   is listed twice unless a single record lists it twice.
   */
  lemma {:induction false} MergeAny(merged: seq<TxRecord>, records: seq<TxRecord>)
    requires Keyed(merged)
    ensures var all := UpsertAll(merged, records);
            && Keyed(all)
            && (forall q :: HasKey(all, q) <==> HasKey(merged, q) || HasKey(records, q))
            && (forall q, c :: HasCell(all, q, c) <==> HasCell(merged, q, c) || HasCell(records, q, c))
            && (CellsOnce(merged) && CellsOnce(records) ==> CellsOnce(all))
  {
    hide Keyed, HasKey, HasCell, CellsOnce, Upsert;
    if records == [] {
      forall q, c
        ensures !HasKey(records, q) && !HasCell(records, q, c)
      {
        NoRecords(q, c);
      }
      NoKeys(records);
    } else {
      var n := |records| - 1;
      var front := UpsertAll(merged, records[..n]);
      MergeAny(merged, records[..n]);
      UpsertKeyed(front, records[n]);
      forall q, c
        ensures HasKey(UpsertAll(merged, records), q) <==> HasKey(merged, q) || HasKey(records, q)
        ensures HasCell(UpsertAll(merged, records), q, c) <==> HasCell(merged, q, c) || HasCell(records, q, c)
      {
        UpsertAdds(front, records[n], q, c);
        LastRecord(records, q, c);
      }
      forall q
        ensures HasKey(UpsertAll(merged, records), q) <==> HasKey(merged, q) || HasKey(records, q)
      {
        UpsertAdds(front, records[n], q, MatchedCell(Input, 0));
        LastRecord(records, q, MatchedCell(Input, 0));
      }
      LastOnce(records);
      if CellsOnce(merged) && CellsOnce(records) {
        UpsertOnce(front, records[n]);
      }
    }
  }

  lemma NoKeys(records: seq<TxRecord>)
    requires records == []
    ensures forall q :: !HasKey(records, q)
  {
  }

  lemma LastRecord(records: seq<TxRecord>, q: TxRecord, c: MatchedCell)
    requires records != []
    ensures var n := |records| - 1;
            && (HasKey(records, q) <==> HasKey(records[..n], q) || SameKey(records[n], q))
            && (HasCell(records, q, c) <==> HasCell(records[..n], q, c) || (SameKey(records[n], q) && c in records[n].cells))
  {
    var n := |records| - 1;
    if i :| 0 <= i < n && SameKey(records[..n][i], q) {
      assert SameKey(records[i], q);
    }
    if i :| 0 <= i < n && SameKey(records[..n][i], q) && c in records[..n][i].cells {
      assert SameKey(records[i], q) && c in records[i].cells;
    }
    if i :| 0 <= i < n && SameKey(records[i], q) {
      assert SameKey(records[..n][i], q);
    }
    if i :| 0 <= i < n && SameKey(records[i], q) && c in records[i].cells {
      assert SameKey(records[..n][i], q) && c in records[..n][i].cells;
    }
  }

  lemma LastOnce(records: seq<TxRecord>)
    requires records != []
    ensures CellsOnce(records) ==> CellsOnce(records[..|records| - 1]) && Distinct(records[|records| - 1].cells)
  {
    hide Distinct;
  }

  // ----- what each search answers on a chain

  /** The records of one search at positions `[a, b)`. */
  function KindRecords(id: ScriptId, h: Txs, a: nat, b: nat): seq<TxRecord>
    requires a <= b <= |h|
  {
    if a == b then []
    else
      var front := KindRecords(id, h, a, b - 1);
      var t := h[b - 1];
      var cells := KindCells(id, h, t.tx);
      if cells != [] then front + [TxRecord(t.tx.hash, t.number, t.txIndex, cells)] else front
  }

  /** Positions are strictly ordered by (block, position in block). */
  predicate Ordered(h: Txs) {
    forall i, j :: 0 <= i < j < |h| ==>
      h[i].number < h[j].number || (h[i].number == h[j].number && h[i].txIndex < h[j].txIndex)
  }

  lemma {:induction false} KindRecordsBefore(id: ScriptId, h: Txs, a: nat, b: nat, p: nat)
    requires a <= b <= p < |h| && Ordered(h)
    ensures forall i :: 0 <= i < |KindRecords(id, h, a, b)| ==>
              var r := KindRecords(id, h, a, b)[i];
              r.blockNumber < h[p].number || (r.blockNumber == h[p].number && r.txIndex < h[p].txIndex)
    decreases b
  {
    hide KindCells;
    if a < b {
      KindRecordsBefore(id, h, a, b - 1, p);
    }
  }

  lemma {:induction false} RecordsInBefore(protocol: ProtocolScripts, h: Txs, a: nat, b: nat, p: nat)
    requires a <= b <= p < |h| && Ordered(h)
    ensures forall i :: 0 <= i < |RecordsIn(protocol, h, a, b)| ==>
              var r := RecordsIn(protocol, h, a, b)[i];
              r.blockNumber < h[p].number || (r.blockNumber == h[p].number && r.txIndex < h[p].txIndex)
    decreases b
  {
    hide RecordCells;
    if a < b {
      RecordsInBefore(protocol, h, a, b - 1, p);
    }
  }

  lemma {:induction false} FirstSearchKept(id: ScriptId, h: Txs, a: nat, b: nat)
    requires a <= b <= |h| && Ordered(h)
    ensures UpsertAll([], KindRecords(id, h, a, b)) == KindRecords(id, h, a, b)
    decreases b
  {
    hide KindCells, Ordered, Upsert;
    if a < b {
      FirstSearchKept(id, h, a, b - 1);
      KindRecordsBefore(id, h, a, b - 1, b - 1);
      var front := KindRecords(id, h, a, b - 1);
      var r := TxRecord(h[b - 1].tx.hash, h[b - 1].number, h[b - 1].txIndex, KindCells(id, h, h[b - 1].tx));
      UpsertLast(front, r);
      assert (front + [r])[..|front|] == front;
    }
  }

  function ReportedIf(r: TxRecord): seq<TxRecord> {
    if r.cells == [] then [] else [r]
  }

  /** The two searches' records of one further transaction join the merged list as one record. */
  lemma MergeStep(front1: seq<TxRecord>, front2: seq<TxRecord>, done: seq<TxRecord>, r1: TxRecord, r2: TxRecord)
    requires UpsertAll(front1, front2) == done && SameKey(r1, r2) && Distinct(r1.cells) && Distinct(r2.cells)
    requires AllBefore(front2, r1) && AllBefore(done, r1) && AllBefore(done, r2)
    ensures UpsertAll(front1 + ReportedIf(r1), front2 + ReportedIf(r2))
         == done + ReportedIf(r1.(cells := MergeCells(r1.cells, r2.cells)))
  {
    hide Upsert, MergeCells, AllBefore, SameKey, SortsBefore;
    MergeNonEmpty(r1.cells, r2.cells);
    var start := front1 + ReportedIf(r1);
    if r1.cells == [] {
      assert start == front1;
    } else {
      UpsertAllBeforeLast(front1, r1, front2);
    }
    if r2.cells == [] {
      assert front2 + ReportedIf(r2) == front2;
      assert r1.(cells := r1.cells) == r1;
    } else {
      assert (front2 + [r2])[..|front2|] == front2;
      if r1.cells == [] {
        UpsertLast(done, r2);
        MergeIntoEmpty(r2.cells);
        SameButCells(r1, r2);
      } else {
        UpsertOnLast(done, r1, r2);
      }
    }
  }

  lemma SameButCells(a: TxRecord, b: TxRecord)
    requires SameKey(a, b)
    ensures a.(cells := b.cells) == b
  {
  }

  /** What one further transaction adds to each list. */
  lemma RecordsStep(protocol: ProtocolScripts, h: Txs, a: nat, b: nat, r1: TxRecord, r2: TxRecord)
    requires a < b <= |h|
    requires r1 == TxRecord(h[b - 1].tx.hash, h[b - 1].number, h[b - 1].txIndex, KindCells(protocol.rgbppLock, h, h[b - 1].tx))
    requires r2 == TxRecord(h[b - 1].tx.hash, h[b - 1].number, h[b - 1].txIndex, KindCells(protocol.btcTimeLock, h, h[b - 1].tx))
    ensures KindRecords(protocol.rgbppLock, h, a, b) == KindRecords(protocol.rgbppLock, h, a, b - 1) + ReportedIf(r1)
    ensures KindRecords(protocol.btcTimeLock, h, a, b) == KindRecords(protocol.btcTimeLock, h, a, b - 1) + ReportedIf(r2)
    ensures RecordsIn(protocol, h, a, b)
         == RecordsIn(protocol, h, a, b - 1) + ReportedIf(r1.(cells := MergeCells(r1.cells, r2.cells)))
  {
    hide KindCells, MergeCells;
    assert RecordOf(protocol, h, b - 1) == r1.(cells := MergeCells(r1.cells, r2.cells));
  }

  /** Merging the two searches gives one record per reported transaction, in chain order, with the union of its cells. */
  lemma {:induction false} MergeExact(protocol: ProtocolScripts, h: Txs, a: nat, b: nat)
    requires a <= b <= |h| && Ordered(h)
    ensures UpsertAll(KindRecords(protocol.rgbppLock, h, a, b), KindRecords(protocol.btcTimeLock, h, a, b))
         == RecordsIn(protocol, h, a, b)
    decreases b
  {
    hide KindCells, Ordered, Upsert, UpsertAll, MergeCells, ReportedIf, RecordCells, KindRecords, RecordsIn;
    if a < b {
      var t := h[b - 1];
      var front1, front2 := KindRecords(protocol.rgbppLock, h, a, b - 1), KindRecords(protocol.btcTimeLock, h, a, b - 1);
      var r1 := TxRecord(t.tx.hash, t.number, t.txIndex, KindCells(protocol.rgbppLock, h, t.tx));
      var r2 := TxRecord(t.tx.hash, t.number, t.txIndex, KindCells(protocol.btcTimeLock, h, t.tx));
      MergeExact(protocol, h, a, b - 1);
      KindRecordsBefore(protocol.btcTimeLock, h, a, b - 1, b - 1);
      RecordsInBefore(protocol, h, a, b - 1, b - 1);
      KindCellsExact(protocol.rgbppLock, h, t.tx);
      KindCellsExact(protocol.btcTimeLock, h, t.tx);
      MergeStep(front1, front2, RecordsIn(protocol, h, a, b - 1), r1, r2);
      RecordsStep(protocol, h, a, b, r1, r2);
    } else {
      NothingReported(protocol, h, a);
    }
  }

  lemma NothingReported(protocol: ProtocolScripts, h: Txs, a: nat)
    requires a <= |h|
    ensures UpsertAll(KindRecords(protocol.rgbppLock, h, a, a), KindRecords(protocol.btcTimeLock, h, a, a))
         == RecordsIn(protocol, h, a, a)
  {
  }

  lemma MergeNonEmpty(a: seq<MatchedCell>, b: seq<MatchedCell>)
    requires Distinct(a)
    ensures MergeCells(a, b) == [] <==> a == [] && b == []
    ensures b == [] ==> MergeCells(a, b) == a
  {
    hide MergeCells;
    MergeCellsExact(a, b);
    if b != [] {
      assert b[0] in MergeCells(a, b);
    } else {
      MergeNothing(a);
    }
  }

  lemma HistoryOrdered(blocks: Blocks)
    ensures Ordered(History(blocks))
  {
    hide History;
    var h := History(blocks);
    forall i, j | 0 <= i < j < |h|
      ensures h[i].number < h[j].number || (h[i].number == h[j].number && h[i].txIndex < h[j].txIndex)
    {
      PositionOrder(blocks, i, j);
    }
  }

  // ----- collect_range

  /** The rich indexer: for a lock and a block range, everything it serves, page by page. */
  type Server = (LockKind, nat, nat) -> seq<TxRecord>

  /**
   For every range the server serves exactly the matching transactions it has populated; it may add
   records outside the range and order the answer as it likes.
   */
  ghost predicate Answers(protocol: ProtocolScripts, view: View, server: Server) {
    forall kind, from: nat, to: nat :: from <= to < |view.blocks| ==> AnswersRange(protocol, view, server, kind, from, to)
  }

  ghost predicate AnswersRange(protocol: ProtocolScripts, view: View, server: Server, kind: LockKind, from: nat,
                               to: nat)
    requires from <= to < |view.blocks|
  {
    var end := AnswerEnd(view, from, to);
    BeforeMonotone(view.blocks, from, end);
    HistoryPrefix(view.blocks, end);
    SortByPosition(InRange(server(kind, from, to), from, to))
      == KindRecords(protocol.Id(kind), History(view.blocks), Before(view.blocks, from), Before(view.blocks, end))
  }

  /** The server that answers with exactly the populated matches, in chain order. */
  function Honest(protocol: ProtocolScripts, view: View): Server {
    (kind: LockKind, from: nat, to: nat) =>
      if from <= to < |view.blocks| then Matches(protocol, view, kind, from, to) else []
  }

  function Matches(protocol: ProtocolScripts, view: View, kind: LockKind, from: nat, to: nat): seq<TxRecord>
    requires from <= to < |view.blocks|
  {
    var end := AnswerEnd(view, from, to);
    BeforeMonotone(view.blocks, from, end);
    HistoryPrefix(view.blocks, end);
    KindRecords(protocol.Id(kind), History(view.blocks), Before(view.blocks, from), Before(view.blocks, end))
  }

  lemma {:induction false} KindRecordsOf(id: ScriptId, h: Txs, a: nat, b: nat, r: TxRecord) returns (p: nat)
    requires a <= b <= |h| && r in KindRecords(id, h, a, b)
    ensures a <= p < b && r.blockNumber == h[p].number
    decreases b
  {
    hide KindCells;
    if r in KindRecords(id, h, a, b - 1) {
      p := KindRecordsOf(id, h, a, b - 1, r);
    } else {
      p := b - 1;
    }
  }

  lemma {:induction false} KindRecordsSorted(id: ScriptId, h: Txs, a: nat, b: nat)
    requires a <= b <= |h| && Ordered(h)
    ensures Sorted(KindRecords(id, h, a, b))
    decreases b
  {
    hide KindCells, Ordered;
    if a < b {
      KindRecordsSorted(id, h, a, b - 1);
      KindRecordsBefore(id, h, a, b - 1, b - 1);
    }
  }

  lemma {:induction false} AllInRange(records: seq<TxRecord>, from: nat, to: nat)
    requires forall r :: r in records ==> from <= r.blockNumber <= to
    ensures InRange(records, from, to) == records
  {
    if records != [] {
      var n := |records| - 1;
      assert records == records[..n] + [records[n]];
      AllInRange(records[..n], from, to);
    }
  }

  /** Such an indexer exists for every snapshot: what the scanner is proved against can be met. */
  lemma HonestAnswers(protocol: ProtocolScripts, view: View)
    ensures Answers(protocol, view, Honest(protocol, view))
  {
    hide KindRecords, History, SortByPosition, InRange;
    forall kind, from: nat, to: nat | from <= to < |view.blocks|
      ensures AnswersRange(protocol, view, Honest(protocol, view), kind, from, to)
    {
      var end, h := AnswerEnd(view, from, to), History(view.blocks);
      BeforeMonotone(view.blocks, from, end);
      HistoryPrefix(view.blocks, end);
      HistoryOrdered(view.blocks);
      var records := Matches(protocol, view, kind, from, to);
      var a, b := Before(view.blocks, from), Before(view.blocks, end);
      assert records == KindRecords(protocol.Id(kind), h, a, b);
      forall r | r in records
        ensures from <= r.blockNumber <= to
      {
        var p := KindRecordsOf(protocol.Id(kind), h, a, b, r);
        BlockSide(view.blocks, p, from);
        BlockSide(view.blocks, p, end);
      }
      AllInRange(records, from, to);
      KindRecordsSorted(protocol.Id(kind), h, a, b);
      SortedIsFixed(records);
    }
  }

  method CollectRange(protocol: ProtocolScripts, ghost view: View, server: Server, limit: nat, from: nat, to: nat)
    returns (records: seq<TxRecord>)
    requires limit > 0 && from <= to < |view.blocks| && Answers(protocol, view, server)
    ensures records == Reported(protocol, view, from, to)
  {
    hide KindRecords, RecordsIn, Upsert, SortByPosition, InRange, History;
    var merged: seq<TxRecord> := [];
    var kinds := [Rgbpp, BtcTime];
    for k := 0 to 2
      invariant k == 0 ==> merged == []
      invariant k == 1 ==> merged == UpsertAll([], SortByPosition(InRange(server(Rgbpp, from, to), from, to)))
      invariant k == 2 ==>
                  merged == UpsertAll(UpsertAll([], SortByPosition(InRange(server(Rgbpp, from, to), from, to))),
                                      SortByPosition(InRange(server(BtcTime, from, to), from, to)))
    {
      var found := CollectTransactionsInRange(server(kinds[k], from, to), limit, from, to);
      ghost var start := merged;
      for i := 0 to |found|
        invariant merged == UpsertAll(start, found[..i])
      {
        assert found[..i + 1][..i] == found[..i];
        merged := Upsert(merged, found[i]);
      }
      assert found[..|found|] == found;
    }
    records := merged;
    assert AnswersRange(protocol, view, server, Rgbpp, from, to);
    assert AnswersRange(protocol, view, server, BtcTime, from, to);
    ghost var end := AnswerEnd(view, from, to);
    BeforeMonotone(view.blocks, from, end);
    HistoryPrefix(view.blocks, end);
    HistoryOrdered(view.blocks);
    FirstSearchKept(protocol.rgbppLock, History(view.blocks), Before(view.blocks, from), Before(view.blocks, end));
    MergeExact(protocol, History(view.blocks), Before(view.blocks, from), Before(view.blocks, end));
  }
}
