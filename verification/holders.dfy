/** Holder counts of an asset (crates/store/src/stats.rs, crates/store/src/btc.rs). */
module Holders {
  import opened Wrappers
  import opened ByteStrings
  import opened Ckb
  import opened Protocol
  import opened Observation
  import opened Rows
  import opened Keyset

  /** A seal as the query names it; the output is a nullable column. */
  datatype Seal = Seal(txid: H256, vout: Option<i32>)

  /** The seals of the asset's unconsumed RGB++ cells. */
  function LiveSeals(cells: CellTable, typeHash: H256): set<Seal> {
    set key | key in cells && cells[key].cell.typeHash == Some(typeHash) && cells[key].consumed.None?
              && cells[key].cell.lockKind.Rgbpp? :: Seal(cells[key].cell.btcTxid, cells[key].cell.btcVout)
  }

  /** The address the left join finds: none for a seal without an output, an observation or a label. */
  function LabelOf(labels: ObservationTable, seal: Seal): Option<string> {
    if seal.vout.Some? && BtcOutPoint(seal.txid, AsU32(seal.vout.value)) in labels
    then labels[BtcOutPoint(seal.txid, AsU32(seal.vout.value))].address
    else None
  }

  function LabelledOwners(seals: set<Seal>, labels: ObservationTable): set<string> {
    set seal | seal in seals && LabelOf(labels, seal).Some? :: LabelOf(labels, seal).value
  }

  function Unlabelled(seals: set<Seal>, labels: ObservationTable): set<Seal> {
    set seal | seal in seals && LabelOf(labels, seal).None?
  }

  /** `COUNT(DISTINCT o.address)` */
  function HolderCount(cells: CellTable, labels: ObservationTable, typeHash: H256): nat {
    |LabelledOwners(LiveSeals(cells, typeHash), labels)|
  }

  function UnlabelledSealCount(cells: CellTable, labels: ObservationTable, typeHash: H256): nat {
    |Unlabelled(LiveSeals(cells, typeHash), labels)|
  }

  // ----- the two counts, from the columns

  /** An unconsumed RGB++ cell of the asset. */
  predicate Circulates(cells: CellTable, typeHash: H256, key: CellKey) {
    && key in cells && cells[key].consumed.None?
    && cells[key].cell.lockKind == Rgbpp && cells[key].cell.typeHash == Some(typeHash)
  }

  /** The address labels the output such a cell is bound to. */
  predicate HeldBy(cells: CellTable, labels: ObservationTable, typeHash: H256, key: CellKey, op: BtcOutPoint, address: string) {
    && Circulates(cells, typeHash, key) && IsBoundTo(cells[key].cell, op)
    && op in labels && labels[op].address == Some(address)
  }

  predicate IsBoundTo(cell: NewCell, op: BtcOutPoint) {
    cell.btcVout.Some? && op.txid == cell.btcTxid && op.vout == cell.btcVout.value % 0x1_0000_0000
  }

  /** Nobody is recorded for the seal of such a cell. */
  ghost predicate Unclaimed(cells: CellTable, labels: ObservationTable, typeHash: H256, key: CellKey) {
    && Circulates(cells, typeHash, key)
    && forall op :: op in labels && IsBoundTo(cells[key].cell, op) ==> labels[op].address.None?
  }

  /** `holder_count` counts the addresses that hold the asset, each once. */
  lemma HolderCountIs(cells: CellTable, labels: ObservationTable, typeHash: H256, holders: set<string>)
    requires forall a :: a in holders <==> exists key, op :: HeldBy(cells, labels, typeHash, key, op, a)
    ensures HolderCount(cells, labels, typeHash) == |holders|
  {
    var counted := LabelledOwners(LiveSeals(cells, typeHash), labels);
    forall a
      ensures a in counted <==> a in holders
    {
      if a in counted {
        var seal :| seal in LiveSeals(cells, typeHash) && LabelOf(labels, seal) == Some(a);
        var key :| Circulates(cells, typeHash, key) && seal == Seal(cells[key].cell.btcTxid, cells[key].cell.btcVout);
        assert HeldBy(cells, labels, typeHash, key, BtcOutPoint(seal.txid, AsU32(seal.vout.value)), a);
      }
      if key, op :| HeldBy(cells, labels, typeHash, key, op, a) {
        var seal := Seal(cells[key].cell.btcTxid, cells[key].cell.btcVout);
        assert seal in LiveSeals(cells, typeHash);
        assert op == BtcOutPoint(seal.txid, AsU32(seal.vout.value));
        assert LabelOf(labels, seal) == Some(a);
      }
    }
    assert counted == holders;
  }

  /** `unlabelled_seal_count` counts the seals of such cells that nobody is recorded for, each once. */
  lemma UnlabelledCountIs(cells: CellTable, labels: ObservationTable, typeHash: H256, seals: set<(H256, Option<i32>)>)
    requires forall txid: H256, vout: Option<i32> :: (txid, vout) in seals <==>
               exists key :: Unclaimed(cells, labels, typeHash, key)
                             && cells[key].cell.btcTxid == txid && cells[key].cell.btcVout == vout
    ensures UnlabelledSealCount(cells, labels, typeHash) == |seals|
  {
    var counted := Unlabelled(LiveSeals(cells, typeHash), labels);
    forall txid: H256, vout: Option<i32>
      ensures Seal(txid, vout) in counted <==> (txid, vout) in seals
    {
      UnclaimedIs(cells, labels, typeHash, txid, vout);
    }
    SameSeals(counted, seals);
  }

  lemma UnclaimedIs(cells: CellTable, labels: ObservationTable, typeHash: H256, txid: H256, vout: Option<i32>)
    ensures Seal(txid, vout) in Unlabelled(LiveSeals(cells, typeHash), labels)
       <==> exists key :: Unclaimed(cells, labels, typeHash, key) && cells[key].cell.btcTxid == txid && cells[key].cell.btcVout == vout
  {
    if Seal(txid, vout) in Unlabelled(LiveSeals(cells, typeHash), labels) {
      var key :| key in cells && Circulates(cells, typeHash, key)
        && cells[key].cell.btcTxid == txid && cells[key].cell.btcVout == vout;
      var cell := cells[key].cell;
      forall op | op in labels && IsBoundTo(cell, op)
        ensures labels[op].address.None?
      {
        assert op == BtcOutPoint(txid, AsU32(vout.value));
      }
      assert Unclaimed(cells, labels, typeHash, key);
    }
    if key :| Unclaimed(cells, labels, typeHash, key) && cells[key].cell.btcTxid == txid && cells[key].cell.btcVout == vout {
      assert Seal(txid, vout) in LiveSeals(cells, typeHash);
      if vout.Some? {
        assert IsBoundTo(cells[key].cell, BtcOutPoint(txid, AsU32(vout.value)));
      }
    }
  }

  lemma {:induction false} SameSeals(counted: set<Seal>, seals: set<(H256, Option<i32>)>)
    requires forall txid: H256, vout: Option<i32> :: Seal(txid, vout) in counted <==> (txid, vout) in seals
    ensures |counted| == |seals|
    decreases |counted|
  {
    if counted == {} {
      forall pair: (H256, Option<i32>)
        ensures pair !in seals
      {
        assert (pair.0, pair.1) == pair;
        assert Seal(pair.0, pair.1) in counted <==> pair in seals;
      }
      assert seals == {};
    } else {
      var seal :| seal in counted;
      assert (seal.txid, seal.vout) in seals;
      SameSeals(counted - {seal}, seals - {(seal.txid, seal.vout)});
    }
  }

  /** The owners there really are. */
  function TrueOwners(seals: set<Seal>, owner: Seal -> string): set<string> {
    set seal | seal in seals :: owner(seal)
  }

  /** A label, where there is one, names the owner: the funding output pays it. */
  ghost predicate LabelsAreRight(seals: set<Seal>, labels: ObservationTable, owner: Seal -> string) {
    forall seal :: seal in seals && LabelOf(labels, seal).Some? ==> LabelOf(labels, seal).value == owner(seal)
  }

  lemma {:induction false} NoMoreOwnersThanSeals(seals: set<Seal>, owner: Seal -> string)
    ensures |TrueOwners(seals, owner)| <= |seals|
    decreases |seals|
  {
    if seals == {} {
      assert TrueOwners(seals, owner) == {};
    } else {
      var seal :| seal in seals;
      NoMoreOwnersThanSeals(seals - {seal}, owner);
      assert TrueOwners(seals, owner) == TrueOwners(seals - {seal}, owner) + {owner(seal)};
    }
  }

  lemma OwnersSplit(seals: set<Seal>, labels: ObservationTable, owner: Seal -> string)
    requires LabelsAreRight(seals, labels, owner)
    ensures TrueOwners(seals, owner) == LabelledOwners(seals, labels) + TrueOwners(Unlabelled(seals, labels), owner)
  {
    hide LabelOf;
    var known, unknown := LabelledOwners(seals, labels), TrueOwners(Unlabelled(seals, labels), owner);
    forall seal | seal in seals
      ensures owner(seal) in known + unknown
    {
      if LabelOf(labels, seal).Some? {
        assert LabelOf(labels, seal).value in known;
      } else {
        assert seal in Unlabelled(seals, labels);
      }
    }
  }

  /**
   The two published counts bracket the truth: at least `holder_count` owners, at most that many plus one
   per unlabelled seal.
   */
  lemma HoldersBracketed(cells: CellTable, labels: ObservationTable, typeHash: H256, owner: Seal -> string)
    requires LabelsAreRight(LiveSeals(cells, typeHash), labels, owner)
    ensures var seals := LiveSeals(cells, typeHash);
            HolderCount(cells, labels, typeHash) <= |TrueOwners(seals, owner)|
            <= HolderCount(cells, labels, typeHash) + UnlabelledSealCount(cells, labels, typeHash)
  {
    hide LiveSeals, LabelOf;
    var seals := LiveSeals(cells, typeHash);
    var known, unknown := LabelledOwners(seals, labels), TrueOwners(Unlabelled(seals, labels), owner);
    OwnersSplit(seals, labels, owner);
    SmallerSet(known, TrueOwners(seals, owner));
    SmallerSet(TrueOwners(seals, owner), known + unknown);
    NoMoreOwnersThanSeals(Unlabelled(seals, labels), owner);
  }

  /** The lower bound is reached exactly when every unlabelled seal belongs to an owner already counted. */
  lemma BracketIsTight(cells: CellTable, labels: ObservationTable, typeHash: H256, owner: Seal -> string)
    requires LabelsAreRight(LiveSeals(cells, typeHash), labels, owner)
    ensures var seals := LiveSeals(cells, typeHash);
            |TrueOwners(seals, owner)| == HolderCount(cells, labels, typeHash)
            <==> TrueOwners(Unlabelled(seals, labels), owner) <= LabelledOwners(seals, labels)
  {
    hide LiveSeals, LabelOf;
    var seals := LiveSeals(cells, typeHash);
    var known, unknown := LabelledOwners(seals, labels), TrueOwners(Unlabelled(seals, labels), owner);
    var all := TrueOwners(seals, owner);
    OwnersSplit(seals, labels, owner);
    assert known <= all && unknown <= all && all == known + unknown;
    if |all| == |known| {
      EqualCount(known, all);
    }
    if unknown <= known {
      assert all == known;
    }
  }

  lemma {:induction false} EqualCount<T>(a: set<T>, b: set<T>)
    requires a <= b && |a| == |b|
    ensures a == b
  {
    if x :| x in b && x !in a {
      SmallerSet(a, b - {x});
    }
  }

  predicate OwnersDiffer(seals: set<Seal>, owner: Seal -> string) {
    forall a, b :: a in seals && b in seals && a != b ==> owner(a) != owner(b)
  }

  lemma {:induction false} OwnerPerSeal(seals: set<Seal>, owner: Seal -> string)
    ensures |TrueOwners(seals, owner)| == |seals| <==> OwnersDiffer(seals, owner)
    decreases |seals|
  {
    if seals == {} {
      assert TrueOwners(seals, owner) == {};
    } else {
      var seal :| seal in seals;
      var rest := seals - {seal};
      OwnerPerSeal(rest, owner);
      NoMoreOwnersThanSeals(rest, owner);
      assert TrueOwners(seals, owner) == TrueOwners(rest, owner) + {owner(seal)};
      if owner(seal) in TrueOwners(rest, owner) {
        var other :| other in rest && owner(other) == owner(seal);
        assert !OwnersDiffer(seals, owner);
      } else {
        assert OwnersDiffer(seals, owner) <==> OwnersDiffer(rest, owner) by {
          Alone(seals, seal, owner);
        }
      }
    }
  }

  lemma Alone(seals: set<Seal>, seal: Seal, owner: Seal -> string)
    requires seal in seals && owner(seal) !in TrueOwners(seals - {seal}, owner)
    ensures OwnersDiffer(seals, owner) <==> OwnersDiffer(seals - {seal}, owner)
  {
    forall other | other in seals && other != seal
      ensures owner(other) != owner(seal)
    {
      assert other in seals - {seal};
    }
  }

  lemma {:induction false} UnionCount<T>(a: set<T>, b: set<T>)
    ensures |a + b| == |a| + |b| - |a * b|
    decreases |b|
  {
    if b == {} {
      assert a + b == a && a * b == {};
    } else {
      var x :| x in b;
      UnionCount(a, b - {x});
      if x in a {
        assert a + b == a + (b - {x}) && a * b == a * (b - {x}) + {x};
      } else {
        assert a + b == a + (b - {x}) + {x} && a * b == a * (b - {x});
      }
    }
  }

  lemma NoneInBoth<T>(a: set<T>, b: set<T>)
    ensures a !! b <==> |a * b| == 0
  {
    if a !! b {
      assert a * b == {};
    } else {
      var x :| x in a && x in b;
      assert x in a * b;
    }
  }

  /** The upper bound is reached exactly when the unlabelled seals have different owners, none of them counted. */
  lemma UpperBoundReached(cells: CellTable, labels: ObservationTable, typeHash: H256, owner: Seal -> string)
    requires LabelsAreRight(LiveSeals(cells, typeHash), labels, owner)
    ensures var seals := LiveSeals(cells, typeHash);
            |TrueOwners(seals, owner)| == HolderCount(cells, labels, typeHash) + UnlabelledSealCount(cells, labels, typeHash)
            <==> OwnersDiffer(Unlabelled(seals, labels), owner)
                 && TrueOwners(Unlabelled(seals, labels), owner) !! LabelledOwners(seals, labels)
  {
    hide LiveSeals, LabelOf, OwnersDiffer;
    var seals := LiveSeals(cells, typeHash);
    var known, unknown := LabelledOwners(seals, labels), TrueOwners(Unlabelled(seals, labels), owner);
    OwnersSplit(seals, labels, owner);
    UnionCount(known, unknown);
    NoMoreOwnersThanSeals(Unlabelled(seals, labels), owner);
    OwnerPerSeal(Unlabelled(seals, labels), owner);
    NoneInBoth(known, unknown);
  }
}
