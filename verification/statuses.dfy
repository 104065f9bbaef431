/**
 What the observation table says after any run of answers and labels (crates/store/src/btc.rs, the status
 view of migrations/0001_init.sql): which answer an outpoint shows, for how long, and how fresh it counts.
 */
module Statuses {
  import opened Wrappers
  import opened Protocol
  import opened Observation

  datatype ObservationStep =
    | AnswerRecorded(op: BtcOutPoint, status: SpendStatus, at: int)
    | LabelsWritten(labels: map<BtcOutPoint, string>, when: int)

  function Observe(obs: ObservationTable, step: ObservationStep): ObservationTable {
    match step
    case AnswerRecorded(op, status, at) => Record(obs, op, status, at)
    case LabelsWritten(labels, at) => Label(obs, labels, at)
  }

  /** The table after the first `n` steps, from an empty one. */
  function ObservationsAfter(steps: seq<ObservationStep>, n: nat): ObservationTable
    requires n <= |steps|
  {
    if n == 0 then map[] else Observe(ObservationsAfter(steps, n - 1), steps[n - 1])
  }

  predicate Answers(step: ObservationStep, op: BtcOutPoint) {
    step.AnswerRecorded? && step.op == op
  }

  /** The last answer recorded for `op`. */
  function LastAnswer(steps: seq<ObservationStep>, n: nat, op: BtcOutPoint): Option<SpendStatus>
    requires n <= |steps|
  {
    if n == 0 then None
    else if Answers(steps[n - 1], op) then Some(steps[n - 1].status)
    else LastAnswer(steps, n - 1, op)
  }

  /** An outpoint nobody has been asked about counts as unknown. */
  function Known(answer: Option<SpendStatus>): SpendStatus {
    match answer
    case None => Unknown
    case Some(status) => status
  }

  /** Heights are stored signed, and a negative one reads as 0. */
  function AsStored(status: SpendStatus): SpendStatus {
    if status.SpentConfirmed? && status.height >= 0x8000_0000 then SpentConfirmed(status.confirmedSpender, 0) else status
  }

  function Reads(obs: ObservationTable, op: BtcOutPoint): SpendStatus {
    if op in obs then obs[op].Read() else Unknown
  }

  function Shows(obs: ObservationTable, op: BtcOutPoint, consumed: bool): CellStatus {
    ViewStatus(consumed, if op in obs then Some(obs[op]) else None)
  }

  /** After any run an outpoint reads as its last answer, a confirmed height of 2^31 or more as 0. */
  lemma {:induction false} ReadsLastAnswer(steps: seq<ObservationStep>, n: nat, op: BtcOutPoint)
    requires n <= |steps|
    ensures Reads(ObservationsAfter(steps, n), op) == AsStored(Known(LastAnswer(steps, n, op)))
    ensures op in ObservationsAfter(steps, n) ==> ObservationsAfter(steps, n)[op].invalidatedAt.None?
    ensures LastAnswer(steps, n, op).Some? ==> op in ObservationsAfter(steps, n)
  {
    hide Record, Label, AsStored;
    if n == 0 {
      UnknownAsStored();
    } else {
      ReadsLastAnswer(steps, n - 1, op);
      OneStepReads(ObservationsAfter(steps, n - 1), steps[n - 1], op);
    }
  }

  lemma UnknownAsStored()
    ensures AsStored(Unknown) == Unknown
  {
  }

  /** An answer is what its outpoint reads as from then on; everything else leaves the reading alone. */
  lemma OneStepReads(obs: ObservationTable, step: ObservationStep, op: BtcOutPoint)
    ensures var next := Observe(obs, step);
            && Reads(next, op) == (if Answers(step, op) then AsStored(step.status) else Reads(obs, op))
            && (op in next && (op in obs ==> obs[op].invalidatedAt.None?) ==> next[op].invalidatedAt.None?)
            && (op in obs || Answers(step, op) ==> op in next)
  {
    match step
    case AnswerRecorded(p, status, at) =>
      RecordedReadsBack(obs, p, status, at);
    case LabelsWritten(labels, at) =>
      LabelKeepsStatus(obs, labels, at, op, false);
  }

  lemma ShowsWhatReads(obs: ObservationTable, op: BtcOutPoint, consumed: bool)
    requires op in obs ==> obs[op].invalidatedAt.None?
    requires op in obs && (obs[op].status.SpentUnconfirmedLabel? || obs[op].status.SpentConfirmedLabel?) ==> obs[op].spender.Some?
    ensures Shows(obs, op, consumed) == DeriveCellStatus(consumed, Reads(obs, op))
  {
  }

  lemma {:induction false} SpentHasSpender(steps: seq<ObservationStep>, n: nat, op: BtcOutPoint)
    requires n <= |steps| && op in ObservationsAfter(steps, n)
    ensures var row := ObservationsAfter(steps, n)[op];
            row.status.SpentUnconfirmedLabel? || row.status.SpentConfirmedLabel? ==> row.spender.Some?
  {
    if op in ObservationsAfter(steps, n - 1) {
      SpentHasSpender(steps, n - 1, op);
    }
  }

  /**
   After any run the SQL view shows what the Rust derivation makes of the last answer. In particular an
   unconsumed cell is pending exactly when the last answer about its outpoint was that it is spent.
   */
  lemma ShowsLastAnswer(steps: seq<ObservationStep>, n: nat, op: BtcOutPoint, consumed: bool)
    requires n <= |steps|
    ensures Shows(ObservationsAfter(steps, n), op, consumed) == DeriveCellStatus(consumed, Known(LastAnswer(steps, n, op)))
    ensures Shows(ObservationsAfter(steps, n), op, false) == PendingCkb <==> Known(LastAnswer(steps, n, op)).IsSpent()
    ensures Shows(ObservationsAfter(steps, n), op, true) == Spent && Shows(ObservationsAfter(steps, n), op, false) != Spent
  {
    hide ObservationsAfter, LastAnswer, Shows, Reads;
    ReadsLastAnswer(steps, n, op);
    if op in ObservationsAfter(steps, n) {
      SpentHasSpender(steps, n, op);
    }
    ShowsWhatReads(ObservationsAfter(steps, n), op, consumed);
    ShowsWhatReads(ObservationsAfter(steps, n), op, false);
    ShowsWhatReads(ObservationsAfter(steps, n), op, true);
  }

  // ----- spent does not stay spent

  predicate PendingThroughout(steps: seq<ObservationStep>, n: nat, m: nat, op: BtcOutPoint)
    requires n <= m <= |steps|
  {
    forall k :: n <= k <= m ==> Shows(ObservationsAfter(steps, k), op, false) == PendingCkb
  }

  /**
   An unconsumed cell shown as pending stays so exactly as long as every further answer says spent: labels
   never end it, and any other answer does, an `Unknown` one included.
   */
  lemma {:induction false} PendingStaysExactly(steps: seq<ObservationStep>, n: nat, m: nat, op: BtcOutPoint)
    requires n <= m <= |steps| && Shows(ObservationsAfter(steps, n), op, false) == PendingCkb
    ensures PendingThroughout(steps, n, m, op)
       <==> forall k :: n <= k < m && Answers(steps[k], op) ==> steps[k].status.IsSpent()
    decreases m
  {
    hide Shows, ObservationsAfter;
    if n < m {
      PendingStaysExactly(steps, n, m - 1, op);
      ShowsLastAnswer(steps, m, op, false);
      ShowsLastAnswer(steps, m - 1, op, false);
      assert PendingThroughout(steps, n, m, op)
        <==> PendingThroughout(steps, n, m - 1, op) && Shows(ObservationsAfter(steps, m), op, false) == PendingCkb;
    }
  }

  /** Confirmed as spent, then not known to the source: the cell is shown pending and then live again. */
  lemma SpentThenUnknown(op: BtcOutPoint, spender: BtcTxid) returns (steps: seq<ObservationStep>)
    ensures steps == [AnswerRecorded(op, SpentConfirmed(spender, 1), 0), AnswerRecorded(op, Unknown, 1)]
    ensures Shows(ObservationsAfter(steps, 1), op, false) == PendingCkb
    ensures Shows(ObservationsAfter(steps, 2), op, false) == Live
  {
    hide Shows, ObservationsAfter;
    steps := [AnswerRecorded(op, SpentConfirmed(spender, 1), 0), AnswerRecorded(op, Unknown, 1)];
    ShowsLastAnswer(steps, 1, op, false);
    ShowsLastAnswer(steps, 2, op, false);
  }

  // ----- what counts as fresh

  /** When `op` was last answered or, if it never was, first labelled. */
  function Dated(steps: seq<ObservationStep>, n: nat, op: BtcOutPoint): Option<int>
    requires n <= |steps|
  {
    if n == 0 then None
    else
      match steps[n - 1]
      case AnswerRecorded(p, _, at) => if p == op then Some(at) else Dated(steps, n - 1, op)
      case LabelsWritten(labels, at) =>
        if op in labels && Dated(steps, n - 1, op).None? then Some(at) else Dated(steps, n - 1, op)
  }

  predicate CountsAsFresh(obs: ObservationTable, op: BtcOutPoint, ttl: int, now: int) {
    op in obs && obs[op].IsFresh(ttl, now)
  }

  /**
   After any run an outpoint counts as freshly observed exactly within a TTL of its last answer, or, if
   it was never asked about, of its first label.
   */
  lemma {:induction false} FreshExactly(steps: seq<ObservationStep>, n: nat, op: BtcOutPoint, ttl: int, now: int)
    requires n <= |steps|
    ensures CountsAsFresh(ObservationsAfter(steps, n), op, ttl, now)
       <==> Dated(steps, n, op).Some? && now - Dated(steps, n, op).value < ttl
    ensures op in ObservationsAfter(steps, n) <==> Dated(steps, n, op).Some?
    ensures op in ObservationsAfter(steps, n) ==> ObservationsAfter(steps, n)[op].invalidatedAt.None?
  {
    if n > 0 {
      FreshExactly(steps, n - 1, op, ttl, now);
    }
  }
}
