/**
 What Bitcoin last said about an outpoint (crates/types/src/state.rs, the observation rows of
 crates/store/src/models.rs and btc.rs, and the status view of migrations/0001_init.sql).
 Instants are whole seconds.
 */
module Observation {
  import opened Wrappers
  import opened ByteStrings
  import opened Protocol

  datatype SpendStatus =
    | Unknown
    | Unspent
    | SpentUnconfirmed(spender: BtcTxid)
    | SpentConfirmed(confirmedSpender: BtcTxid, height: u32)
  {
    predicate IsSpent() {
      SpentUnconfirmed? || SpentConfirmed?
    }

    function Spender(): Option<BtcTxid> {
      match this
      case SpentUnconfirmed(s) => Some(s)
      case SpentConfirmed(s, _) => Some(s)
      case _ => None
    }

    function Label(): StatusLabel {
      match this
      case Unknown => UnknownLabel
      case Unspent => UnspentLabel
      case SpentUnconfirmed(_) => SpentUnconfirmedLabel
      case SpentConfirmed(_, _) => SpentConfirmedLabel
    }
  }

  /** The status column. */
  datatype StatusLabel = UnknownLabel | UnspentLabel | SpentUnconfirmedLabel | SpentConfirmedLabel

  datatype ObservationRow = ObservationRow(
    status: StatusLabel,
    spender: Option<BtcTxid>,
    spentHeight: Option<i32>,
    address: Option<string>,
    observedAt: int,
    invalidatedAt: Option<int>)
  {
    predicate IsFresh(ttl: int, now: int) {
      invalidatedAt.None? && now - observedAt < ttl
    }

    function Read(): SpendStatus {
      match status
      case UnspentLabel => Unspent
      case UnknownLabel => Unknown
      case SpentUnconfirmedLabel => if spender.Some? then SpentUnconfirmed(spender.value) else Unknown
      case SpentConfirmedLabel =>
        if spender.Some?
        then SpentConfirmed(spender.value, if spentHeight.Some? && spentHeight.value > 0 then spentHeight.value else 0)
        else Unknown
    }
  }

  type ObservationTable = map<BtcOutPoint, ObservationRow>

  /** An upsert replaces the observation, keeps a known address, and clears any invalidation. */
  function Record(obs: ObservationTable, op: BtcOutPoint, status: SpendStatus, now: int): ObservationTable {
    obs[op := ObservationRow(
                status.Label(),
                status.Spender(),
                if status.SpentConfirmed? then Some(AsI32(status.height)) else None,
                if op in obs then obs[op].address else None,
                now,
                None)]
  }

  /** A first observation counts as a change; otherwise only the label is compared. */
  predicate Changed(obs: ObservationTable, op: BtcOutPoint, status: SpendStatus) {
    op !in obs || obs[op].status != status.Label()
  }

  /** A recorded status reads back as recorded, except for confirmed heights from 2^31 on, which read as 0. */
  lemma RecordedReadsBack(obs: ObservationTable, op: BtcOutPoint, status: SpendStatus, now: int)
    ensures Record(obs, op, status, now)[op].Read() == status
       <==> !(status.SpentConfirmed? && status.height >= 0x8000_0000)
  {
  }

  // ----- the derived status

  datatype CellStatus = Live | PendingCkb | Spent

  /** `derive_cell_status` */
  function DeriveCellStatus(consumed: bool, btc: SpendStatus): CellStatus {
    if consumed then Spent else if btc.IsSpent() then PendingCkb else Live
  }

  /** The view's CASE over the left join. */
  function ViewStatus(consumed: bool, row: Option<ObservationRow>): CellStatus {
    if consumed then Spent
    else if row.Some? && row.value.invalidatedAt.None?
            && (row.value.status.SpentUnconfirmedLabel? || row.value.status.SpentConfirmedLabel?) then PendingCkb
    else Live
  }

  // ----- ownership labels (`record_binding_addresses`, `record_outpoint_addresses`)

  /** The outputs of a fetched transaction that name an address and carry an RGB++ cell. */
  function OutputLabels(txid: BtcTxid, outputs: seq<Option<string>>,
                        bound: set<BtcOutPoint>): map<BtcOutPoint, string> {
    map op | op in bound && op.txid == txid && op.vout < |outputs| && outputs[op.vout].Some? :: outputs[op.vout].value
  }

  /** Labelling sets the address alone, but has to create a row where there is none. */
  function Label(obs: ObservationTable, labels: map<BtcOutPoint, string>, now: int): ObservationTable {
    map op | op in obs.Keys + labels.Keys ::
      if op !in labels then obs[op]
      else if op in obs then obs[op].(address := Some(labels[op]))
      else ObservationRow(UnknownLabel, None, None, Some(labels[op]), now, None)
  }

  /** Labelling changes no status: every outpoint reads, and every cell shows, as before. */
  lemma LabelKeepsStatus(obs: ObservationTable, labels: map<BtcOutPoint, string>, now: int, op: BtcOutPoint,
                         consumed: bool)
    ensures op in obs ==> Label(obs, labels, now)[op].Read() == obs[op].Read()
    ensures op !in obs && op in labels ==> Label(obs, labels, now)[op].Read() == Unknown
    ensures var view := (o: ObservationTable) => ViewStatus(consumed, if op in o then Some(o[op]) else None);
            view(Label(obs, labels, now)) == view(obs)
  {
  }

  /**
   Labelling is meant to leave freshness alone. It does for outpoints with a row; one without a row counts
   as observed when it was labelled, and so as fresh for a whole TTL, though Bitcoin was never asked about it.
   */
  lemma LabelFreshness(obs: ObservationTable, labels: map<BtcOutPoint, string>, ttl: int, now: int, at: int,
                       op: BtcOutPoint)
    ensures (op in Label(obs, labels, now) && Label(obs, labels, now)[op].IsFresh(ttl, at))
        <==> (op in obs && obs[op].IsFresh(ttl, at)) || (op !in obs && op in labels && at - now < ttl)
  {
  }
}
