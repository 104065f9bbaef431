/**
 The reconciler (crates/indexer/src/reconcile.rs): re-observing outpoints on demand, and the worker that
 drains the refresh queue. A call sees one instant.
 */
module Reconcile {
  import opened Wrappers
  import opened ByteStrings
  import opened Protocol
  import opened Observation
  import opened Queue
  import opened Source
  import opened Order
  import opened Keyset

  datatype OutpointRefresh = OutpointRefresh(op: BtcOutPoint, status: SpendStatus, changed: bool)

  /** The output addresses of a transaction the source knows. */
  type FetchAddresses = BtcTxid -> Result<Option<seq<Option<string>>>>

  function Prefix(ops: seq<BtcOutPoint>, cap: nat): seq<BtcOutPoint> {
    if |ops| <= cap then ops else ops[..cap]
  }

  function Overflow(ops: seq<BtcOutPoint>, cap: nat): seq<BtcOutPoint> {
    if |ops| <= cap then [] else ops[cap..]
  }

  function Elements(ops: seq<BtcOutPoint>): set<BtcOutPoint> {
    set op | op in ops
  }

  // ----- what a refresh leaves in the queue

  /** `q` after every member of `again` was put in on demand. */
  function Requeued(q: QueueTable, again: set<BtcOutPoint>, now: int): QueueTable {
    map op | op in q.Keys + again :: if op in again then Enqueue(q, op, ON_DEMAND, now)[op] else q[op]
  }

  /** The outpoints of one request the source answers. */
  function Answered(source: DataSource, ops: seq<BtcOutPoint>): set<BtcOutPoint> {
    set op | op in ops && AnswerFor(source, Shared(ops, op), op).Ok?
  }

  /** A request leaves in the queue what it did not get to and what was not answered. */
  function StillOwed(source: DataSource, ops: seq<BtcOutPoint>, cap: nat): set<BtcOutPoint> {
    Elements(Overflow(ops, cap)) + (Elements(Prefix(ops, cap)) - Answered(source, Prefix(ops, cap)))
  }

  /** The request leaves `op` to the queue: it lies beyond the cap, or it was not answered. */
  predicate Owes(ops: seq<BtcOutPoint>, cap: nat, done: map<BtcOutPoint, SpendStatus>, op: BtcOutPoint) {
    exists i :: 0 <= i < |ops| && ops[i] == op && (i >= cap || op !in done)
  }

  /** Queued on demand: at priority 10 or better, due now or earlier, attempts kept. */
  predicate OnDemandRow(q: QueueTable, op: BtcOutPoint, now: int, row: QueueRow) {
    if op in q then
      row == QueueRow(if q[op].priority < 10 then q[op].priority else 10, q[op].attempts,
                      if q[op].nextAttemptAt < now then q[op].nextAttemptAt else now)
    else row == QueueRow(10, 0, now)
  }

  /** The queue after a completed request. */
  ghost predicate QueuedOwed(ops: seq<BtcOutPoint>, cap: nat, done: map<BtcOutPoint, SpendStatus>,
                             before: QueueTable, after: QueueTable, now: int) {
    forall op ::
      if Owes(ops, cap, done, op) then op in after && OnDemandRow(before, op, now, after[op])
      else (op in after <==> op in before) && (op in after ==> after[op] == before[op])
  }

  lemma OwedIs(ops: seq<BtcOutPoint>, cap: nat, done: map<BtcOutPoint, SpendStatus>, op: BtcOutPoint)
    ensures op in Elements(Overflow(ops, cap)) + (Elements(Prefix(ops, cap)) - done.Keys) <==> Owes(ops, cap, done, op)
  {
    if |ops| > cap {
      assert forall i :: cap <= i < |ops| ==> ops[cap..][i - cap] == ops[i];
      assert forall i :: 0 <= i < cap ==> ops[..cap][i] == ops[i];
    }
  }

  lemma QueueIs(source: DataSource, ops: seq<BtcOutPoint>, cap: nat, done: map<BtcOutPoint, SpendStatus>, q: QueueTable,
                now: int)
    requires done.Keys == Answered(source, Prefix(ops, cap))
    ensures QueuedOwed(ops, cap, done, q, Requeued(q, StillOwed(source, ops, cap), now), now)
  {
    hide Answered, Owes, Overflow, Prefix;
    forall op
      ensures op in StillOwed(source, ops, cap) <==> Owes(ops, cap, done, op)
    {
      OwedIs(ops, cap, done, op);
    }
  }

  /** Only the first `cap` outpoints are asked about. */
  ghost predicate WithinCap(ops: seq<BtcOutPoint>, cap: nat, done: map<BtcOutPoint, SpendStatus>) {
    forall op :: op in done ==> exists i :: 0 <= i < |ops| && i < cap && ops[i] == op
  }

  lemma AskedWithinCap(source: DataSource, ops: seq<BtcOutPoint>, cap: nat, done: map<BtcOutPoint, SpendStatus>)
    requires AnswersOf(source, Prefix(ops, cap), done)
    ensures WithinCap(ops, cap, done)
  {
    hide AnswerFor, Shared;
    forall op | op in done
      ensures exists i :: 0 <= i < |ops| && i < cap && ops[i] == op
    {
      var i :| 0 <= i < |Prefix(ops, cap)| && Prefix(ops, cap)[i] == op;
      assert ops[i] == op;
    }
  }

  lemma RequeueOne(q: QueueTable, again: set<BtcOutPoint>, op: BtcOutPoint, now: int)
    ensures Enqueue(Requeued(q, again, now), op, ON_DEMAND, now) == Requeued(q, again + {op}, now)
  {
  }

  lemma {:induction false} EnqueueManyIsRequeued(q: QueueTable, ops: seq<BtcOutPoint>, now: int)
    ensures EnqueueMany(q, ops, ON_DEMAND, now) == Requeued(q, Elements(ops), now)
  {
    if ops == [] {
      assert Requeued(q, {}, now) == q;
    } else {
      var n := |ops| - 1;
      assert ops == ops[..n] + [ops[n]];
      EnqueueManyIsRequeued(q, ops[..n], now);
      RequeueOne(q, Elements(ops[..n]), ops[n], now);
      assert Elements(ops) == Elements(ops[..n]) + {ops[n]};
    }
  }

  // ----- what a refresh leaves in the observations

  predicate RecordedAs(row: ObservationRow, status: SpendStatus, now: int) {
    && row.status == status.Label() && row.spender == status.Spender()
    && row.spentHeight == (if status.SpentConfirmed? then Some(AsI32(status.height)) else None)
    && row.observedAt == now && row.invalidatedAt == None
  }

  /** Outside `asked`, a row keeps everything but its address, and a new row says nothing about spending. */
  ghost predicate OnlyLabelled(before: ObservationTable, after: ObservationTable, asked: set<BtcOutPoint>) {
    && before.Keys <= after.Keys
    && (forall op :: op in before && op !in asked ==> after[op].(address := before[op].address) == before[op])
    && (forall op :: op in after && op !in before && op !in asked ==> after[op].status.UnknownLabel?)
  }

  /** Everything `done` was answered; what is recorded for each is its answer. */
  ghost predicate Recorded(before: ObservationTable, after: ObservationTable, done: map<BtcOutPoint, SpendStatus>,
                           now: int) {
    && OnlyLabelled(before, after, done.Keys)
    && (forall op :: op in done ==> op in after && RecordedAs(after[op], done[op], now))
  }

  lemma RecordStep(before: ObservationTable, obs: ObservationTable, done: map<BtcOutPoint, SpendStatus>,
                   op: BtcOutPoint, status: SpendStatus, now: int)
    requires Recorded(before, obs, done, now) && op !in done
    ensures Recorded(before, Record(obs, op, status, now), done[op := status], now)
    ensures status != Unknown ==> (Changed(obs, op, status) <==> Changed(before, op, status))
    ensures op in before ==> (Changed(obs, op, status) <==> Changed(before, op, status))
  {
  }

  lemma LabelStep(before: ObservationTable, obs: ObservationTable, done: map<BtcOutPoint, SpendStatus>,
                  labels: map<BtcOutPoint, string>, now: int)
    requires Recorded(before, obs, done, now)
    ensures Recorded(before, Label(obs, labels, now), done, now)
  {
  }

  // ----- following up what was newly spent

  /** Spent, where the row said otherwise, confirmation included, or was missing. */
  predicate NewlySpent(before: ObservationTable, op: BtcOutPoint, status: SpendStatus) {
    || (status.SpentUnconfirmed? && (op in before ==> before[op].status != SpentUnconfirmedLabel))
    || (status.SpentConfirmed? && (op in before ==> before[op].status != SpentConfirmedLabel))
  }

  lemma NewlySpentIs(before: ObservationTable, op: BtcOutPoint, status: SpendStatus)
    ensures NewlySpent(before, op, status) <==> status.IsSpent() && Changed(before, op, status)
  {
  }

  /** The bound outputs that a transaction pays, as far as the source knows it. */
  function FetchedLabels(fetch: FetchAddresses, txid: BtcTxid, bound: set<BtcOutPoint>): map<BtcOutPoint, string> {
    match fetch(txid)
    case Ok(Some(outputs)) => OutputLabels(txid, outputs, bound)
    case _ => map[]
  }

  /** What the source says about the address of an output: None if it does not know the transaction, or any address. */
  function PaidAddress(fetch: FetchAddresses, op: BtcOutPoint): Option<string> {
    if fetch(op.txid).Ok? && fetch(op.txid).value.Some? && op.vout < |fetch(op.txid).value.value|
    then fetch(op.txid).value.value[op.vout]
    else None
  }

  lemma FetchedLabelsAre(fetch: FetchAddresses, txid: BtcTxid, bound: set<BtcOutPoint>, op: BtcOutPoint)
    ensures op in FetchedLabels(fetch, txid, bound) <==> op in bound && op.txid == txid && PaidAddress(fetch, op).Some?
    ensures op in FetchedLabels(fetch, txid, bound) ==> Some(FetchedLabels(fetch, txid, bound)[op]) == PaidAddress(fetch, op)
  {
  }

  /** An address is an old one, or the one its funding transaction names. */
  ghost predicate AddressesFrom(fetch: FetchAddresses, bound: set<BtcOutPoint>, before: ObservationTable,
                                after: ObservationTable) {
    && before.Keys <= after.Keys
    && forall op :: op in after ==>
         after[op].address == (if op in before then before[op].address else None)
         || (op in bound && PaidAddress(fetch, op).Some? && after[op].address == PaidAddress(fetch, op))
  }

  /** The bound outputs of `spender` get the address the source names, and nothing else changes. */
  ghost predicate PaidOutputsLabelled(fetch: FetchAddresses, spender: BtcTxid, bound: set<BtcOutPoint>,
                                      before: ObservationTable, after: ObservationTable, now: int) {
    forall op ::
      if op in bound && op.txid == spender && PaidAddress(fetch, op).Some?
      then op in after
           && after[op] == if op in before then before[op].(address := PaidAddress(fetch, op))
                           else ObservationRow(UnknownLabel, None, None, PaidAddress(fetch, op), now, None)
      else (op in after <==> op in before) && (op in after ==> after[op] == before[op])
  }

  lemma PaidOutputsAre(fetch: FetchAddresses, spender: BtcTxid, bound: set<BtcOutPoint>, obs: ObservationTable, now: int)
    ensures PaidOutputsLabelled(fetch, spender, bound, obs, Label(obs, FetchedLabels(fetch, spender, bound), now), now)
  {
    hide FetchedLabels, PaidAddress;
    forall op
      ensures op in FetchedLabels(fetch, spender, bound) <==> op in bound && op.txid == spender && PaidAddress(fetch, op).Some?
      ensures op in FetchedLabels(fetch, spender, bound) ==> Some(FetchedLabels(fetch, spender, bound)[op]) == PaidAddress(fetch, op)
    {
      FetchedLabelsAre(fetch, spender, bound, op);
    }
  }

  ghost predicate Followed(fetch: FetchAddresses, bound: set<BtcOutPoint>, obs: ObservationTable, spender: BtcTxid) {
    && fetch(spender).Ok?
    && forall op :: op in bound && op.txid == spender && PaidAddress(fetch, op).Some? ==>
         op in obs && obs[op].address == PaidAddress(fetch, op)
  }

  /** Each newly spent outpoint's spender was fetched, and the bound outputs it pays are labelled. */
  ghost predicate AllFollowed(fetch: FetchAddresses, bound: set<BtcOutPoint>, before: ObservationTable,
                              done: map<BtcOutPoint, SpendStatus>, obs: ObservationTable) {
    forall op :: op in done && NewlySpent(before, op, done[op]) ==> Followed(fetch, bound, obs, done[op].Spender().value)
  }

  lemma LabelFollows(fetch: FetchAddresses, bound: set<BtcOutPoint>, before: ObservationTable, obs: ObservationTable,
                     txid: BtcTxid, spender: BtcTxid, now: int)
    ensures var obs' := Label(obs, FetchedLabels(fetch, txid, bound), now);
            && (AddressesFrom(fetch, bound, before, obs) ==> AddressesFrom(fetch, bound, before, obs'))
            && (Followed(fetch, bound, obs, spender) ==> Followed(fetch, bound, obs', spender))
            && (fetch(txid).Ok? ==> Followed(fetch, bound, obs', txid))
  {
    hide FetchedLabels, PaidAddress;
    forall op
      ensures op in FetchedLabels(fetch, txid, bound) <==> op in bound && op.txid == txid && PaidAddress(fetch, op).Some?
      ensures op in FetchedLabels(fetch, txid, bound) ==> Some(FetchedLabels(fetch, txid, bound)[op]) == PaidAddress(fetch, op)
    {
      FetchedLabelsAre(fetch, txid, bound, op);
    }
  }

  lemma RecordFollows(fetch: FetchAddresses, bound: set<BtcOutPoint>, before: ObservationTable, obs: ObservationTable,
                      op: BtcOutPoint, status: SpendStatus, now: int, spender: BtcTxid)
    ensures var obs' := Record(obs, op, status, now);
            && (AddressesFrom(fetch, bound, before, obs) ==> AddressesFrom(fetch, bound, before, obs'))
            && (Followed(fetch, bound, obs, spender) ==> Followed(fetch, bound, obs', spender))
  {
    hide FetchedLabels;
  }

  lemma FollowRecord(fetch: FetchAddresses, bound: set<BtcOutPoint>, before: ObservationTable,
                     done: map<BtcOutPoint, SpendStatus>, obs: ObservationTable, op: BtcOutPoint, status: SpendStatus, now: int)
    requires AddressesFrom(fetch, bound, before, obs) && AllFollowed(fetch, bound, before, done, obs) && op !in done
    ensures AddressesFrom(fetch, bound, before, Record(obs, op, status, now))
    ensures AllFollowed(fetch, bound, before, done, Record(obs, op, status, now))
    ensures !NewlySpent(before, op, status) ==>
              AllFollowed(fetch, bound, before, done[op := status], Record(obs, op, status, now))
  {
    hide AddressesFrom, Followed, Changed, Record;
    RecordFollows(fetch, bound, before, obs, op, status, now, op.txid);
    forall x | x in done && NewlySpent(before, x, done[x])
      ensures Followed(fetch, bound, Record(obs, op, status, now), done[x].Spender().value)
    {
      RecordFollows(fetch, bound, before, obs, op, status, now, done[x].Spender().value);
    }
  }

  lemma FollowLabel(fetch: FetchAddresses, bound: set<BtcOutPoint>, before: ObservationTable,
                    done: map<BtcOutPoint, SpendStatus>, obs: ObservationTable, op: BtcOutPoint, status: SpendStatus, now: int)
    requires status.IsSpent() && op !in done
    requires AddressesFrom(fetch, bound, before, obs) && AllFollowed(fetch, bound, before, done, obs)
    ensures var obs' := Label(obs, FetchedLabels(fetch, status.Spender().value, bound), now);
            && AddressesFrom(fetch, bound, before, obs')
            && (fetch(status.Spender().value).Ok? ==> AllFollowed(fetch, bound, before, done[op := status], obs'))
  {
    hide AddressesFrom, Followed, Changed, Label, FetchedLabels;
    var txid := status.Spender().value;
    LabelFollows(fetch, bound, before, obs, txid, txid, now);
    forall x | x in done && NewlySpent(before, x, done[x])
      ensures Followed(fetch, bound, Label(obs, FetchedLabels(fetch, txid, bound), now), done[x].Spender().value)
    {
      LabelFollows(fetch, bound, before, obs, txid, done[x].Spender().value, now);
    }
  }

  // ----- the list a refresh returns

  /** A missing row, or one of another status, says otherwise; spender and height are not compared. */
  predicate SaysOtherwise(before: ObservationTable, op: BtcOutPoint, status: SpendStatus) {
    op in before ==>
      match status
      case Unknown => before[op].status != UnknownLabel
      case Unspent => before[op].status != UnspentLabel
      case SpentUnconfirmed(_) => before[op].status != SpentUnconfirmedLabel
      case SpentConfirmed(_, _) => before[op].status != SpentConfirmedLabel
  }

  lemma ChangedIs(before: ObservationTable, op: BtcOutPoint, status: SpendStatus)
    ensures Changed(before, op, status) <==> SaysOtherwise(before, op, status)
  {
  }

  ghost predicate Lists(out: seq<OutpointRefresh>, before: ObservationTable, done: map<BtcOutPoint, SpendStatus>) {
    && (forall i, j :: 0 <= i < j < |out| ==> out[i].op != out[j].op)
    && (forall i :: 0 <= i < |out| ==> out[i].op in done && done[out[i].op] == out[i].status)
    && (forall i :: 0 <= i < |out| && (out[i].status != Unknown || out[i].op in before) ==>
          (out[i].changed <==> SaysOtherwise(before, out[i].op, out[i].status)))
    && (forall op :: op in done ==> Mentions(out, op))
  }

  predicate Mentions(out: seq<OutpointRefresh>, op: BtcOutPoint) {
    exists i :: 0 <= i < |out| && out[i].op == op
  }

  lemma ListStep(out: seq<OutpointRefresh>, before: ObservationTable, done: map<BtcOutPoint, SpendStatus>,
                 r: OutpointRefresh)
    requires Lists(out, before, done) && r.op !in done
    requires r.status != Unknown || r.op in before ==> (r.changed <==> Changed(before, r.op, r.status))
    ensures Lists(out + [r], before, done[r.op := r.status])
  {
    hide Changed, SaysOtherwise;
    ChangedIs(before, r.op, r.status);
    var out', done' := out + [r], done[r.op := r.status];
    forall op | op in done'
      ensures Mentions(out', op)
    {
      if op == r.op {
        assert out'[|out|].op == op;
      } else {
        var i :| 0 <= i < |out| && out[i].op == op;
        assert out'[i].op == op;
      }
    }
  }

  /** The list is as long as there are answers. */
  lemma {:induction false} ListedCount(out: seq<OutpointRefresh>, before: ObservationTable, done: map<BtcOutPoint, SpendStatus>)
    requires Lists(out, before, done)
    ensures |out| == |done|
    decreases |out|
  {
    hide SaysOtherwise;
    if out == [] {
      NoneMentioned();
      assert forall op :: op in done ==> Mentions([], op);
      assert done == map[];
    } else {
      var n := |out| - 1;
      var rest := done - {out[n].op};
      forall op | op in rest
        ensures Mentions(out[..n], op)
      {
        assert Mentions(out, op);
        var i :| 0 <= i < |out| && out[i].op == op;
        assert out[..n][i].op == op;
      }
      ListedCount(out[..n], before, rest);
      assert done.Keys == rest.Keys + {out[n].op};
    }
  }

  lemma NoneMentioned()
    ensures forall op :: !Mentions([], op)
  {
  }

  // ----- one pass over the answers

  /** The answers among the first `n`, and the outpoints among them that failed. */
  function AnswersTo(answers: seq<Answer>, n: nat): map<BtcOutPoint, SpendStatus>
    requires n <= |answers|
  {
    if n == 0 then map[]
    else if answers[n - 1].result.Ok? then AnswersTo(answers, n - 1)[answers[n - 1].op := answers[n - 1].result.value]
    else AnswersTo(answers, n - 1)
  }

  function FailuresTo(answers: seq<Answer>, n: nat): set<BtcOutPoint>
    requires n <= |answers|
  {
    if n == 0 then {}
    else if answers[n - 1].result.Ok? then FailuresTo(answers, n - 1)
    else FailuresTo(answers, n - 1) + {answers[n - 1].op}
  }

  lemma {:induction false} AnswersToExact(answers: seq<Answer>, n: nat, op: BtcOutPoint)
    requires n <= |answers| && DistinctOps(Asked(answers))
    ensures op in AnswersTo(answers, n)
       <==> exists k :: 0 <= k < n && answers[k].op == op && answers[k].result.Ok?
    ensures op in FailuresTo(answers, n)
       <==> exists k :: 0 <= k < n && answers[k].op == op && answers[k].result.Err?
    ensures op in AnswersTo(answers, n) ==>
              exists k :: 0 <= k < n && answers[k] == Answer(op, Ok(AnswersTo(answers, n)[op]))
  {
    if n > 0 {
      AnswersToExact(answers, n - 1, op);
    }
  }

  lemma AnswerAt(source: DataSource, ops: seq<BtcOutPoint>, answers: seq<Answer>, op: BtcOutPoint) returns (k: nat)
    requires Faithful(source, ops, answers) && op in Asked(answers)
    ensures k < |answers| && answers[k].op == op && answers[k].result == AnswerFor(source, Shared(ops, op), op)
  {
    hide AnswerFor, Shared;
    k :| 0 <= k < |answers| && Asked(answers)[k] == op;
  }

  lemma PassAt(source: DataSource, ops: seq<BtcOutPoint>, answers: seq<Answer>, n: nat, op: BtcOutPoint)
    requires n <= |answers| && DistinctOps(Asked(answers)) && Faithful(source, ops, answers)
    requires forall op :: op in Asked(answers) <==> op in ops
    ensures op in AnswersTo(answers, n) ==>
              op in ops && AnswerFor(source, Shared(ops, op), op) == Ok(AnswersTo(answers, n)[op])
    ensures op in FailuresTo(answers, n) ==> op in ops && AnswerFor(source, Shared(ops, op), op).Err?
    ensures n == |answers| && op in ops ==> op in AnswersTo(answers, n) || op in FailuresTo(answers, n)
  {
    hide AnswerFor, Shared, DistinctOps;
    AnswersToExact(answers, n, op);
    if op in ops {
      var k := AnswerAt(source, ops, answers, op);
    }
    if k :| 0 <= k < n && answers[k].op == op {
      assert Asked(answers)[k] == op;
    }
  }

  /** The pass answers and fails exactly what the source does. */
  lemma PassExact(source: DataSource, ops: seq<BtcOutPoint>, answers: seq<Answer>)
    requires DistinctOps(Asked(answers)) && Faithful(source, ops, answers)
    requires forall op :: op in Asked(answers) <==> op in ops
    ensures AnswersTo(answers, |answers|).Keys == Answered(source, ops)
    ensures FailuresTo(answers, |answers|) == Elements(ops) - Answered(source, ops)
  {
    hide AnswerFor, Shared, DistinctOps, Asked, Faithful, AnswersTo, FailuresTo;
    forall op
      ensures op in AnswersTo(answers, |answers|) <==> op in Answered(source, ops)
      ensures op in FailuresTo(answers, |answers|) <==> op in Elements(ops) - Answered(source, ops)
    {
      PassAt(source, ops, answers, |answers|, op);
    }
  }

  /** Every recorded answer is the source's. */
  ghost predicate AnswersOf(source: DataSource, ops: seq<BtcOutPoint>, done: map<BtcOutPoint, SpendStatus>) {
    forall op :: op in done ==> op in ops && AnswerFor(source, Shared(ops, op), op) == Ok(done[op])
  }

  /** A request breaks off when the transaction that newly spent an outpoint cannot be fetched. */
  ghost predicate FollowUpFailed(fetch: FetchAddresses, before: ObservationTable, done: map<BtcOutPoint, SpendStatus>) {
    exists op :: op in done && NewlySpent(before, op, done[op]) && fetch(done[op].Spender().value).Err?
  }

  lemma NothingYet(source: DataSource, ops: seq<BtcOutPoint>, cap: nat, obs: ObservationTable, q: QueueTable, now: int)
    ensures Recorded(obs, obs, map[], now) && Lists([], obs, map[]) && AnswersOf(source, Prefix(ops, cap), map[])
    ensures Requeued(q, {}, now) == q
    ensures ops == [] ==> Answered(source, Prefix(ops, cap)) == {} && StillOwed(source, ops, cap) == {}
  {
    assert Requeued(q, {}, now) == q;
    var none: set<BtcOutPoint> := {};
    assert none <= StillOwed(source, ops, cap);
  }

  lemma NothingFollowed(fetch: FetchAddresses, bound: set<BtcOutPoint>, obs: ObservationTable)
    ensures AddressesFrom(fetch, bound, obs, obs) && AllFollowed(fetch, bound, obs, map[], obs)
  {
  }

  lemma NotYetAnswered(answers: seq<Answer>, i: nat)
    requires i < |answers| && DistinctOps(Asked(answers))
    ensures answers[i].op !in AnswersTo(answers, i)
  {
    AnswersToExact(answers, i, answers[i].op);
    if k :| 0 <= k < i && answers[k].op == answers[i].op {
      assert Asked(answers)[k] == Asked(answers)[i];
    }
  }

  /** What part of the pass has done agrees with the source. */
  lemma PassPrefix(source: DataSource, ops: seq<BtcOutPoint>, cap: nat, answers: seq<Answer>, n: nat)
    requires n <= |answers| && DistinctOps(Asked(answers)) && Faithful(source, Prefix(ops, cap), answers)
    requires forall op :: op in Asked(answers) <==> op in Prefix(ops, cap)
    ensures AnswersOf(source, Prefix(ops, cap), AnswersTo(answers, n))
    ensures Elements(Overflow(ops, cap)) + FailuresTo(answers, n) <= StillOwed(source, ops, cap)
  {
    hide AnswerFor, Shared, DistinctOps, Requeued, Prefix, Overflow, Asked, Faithful, AnswersTo, FailuresTo;
    var capped := Prefix(ops, cap);
    forall op
      ensures op in AnswersTo(answers, n) ==>
                op in capped && AnswerFor(source, Shared(capped, op), op) == Ok(AnswersTo(answers, n)[op])
      ensures op in FailuresTo(answers, n) ==> op in Elements(capped) - Answered(source, capped)
    {
      PassAt(source, capped, answers, n, op);
    }
  }

  /** After the whole pass, what was queued is what the request still owes. */
  lemma OwedAfterPass(source: DataSource, ops: seq<BtcOutPoint>, cap: nat, answers: seq<Answer>)
    requires DistinctOps(Asked(answers)) && Faithful(source, Prefix(ops, cap), answers)
    requires forall op :: op in Asked(answers) <==> op in Prefix(ops, cap)
    ensures Elements(Overflow(ops, cap)) + FailuresTo(answers, |answers|) == StillOwed(source, ops, cap)
  {
    hide Faithful, Asked, DistinctOps, Prefix, Overflow, FailuresTo, AnswersTo, Answered;
    PassExact(source, Prefix(ops, cap), answers);
  }

  // ----- draining

  function Fresh(obs: ObservationTable, ops: seq<BtcOutPoint>, ttl: int, now: int): set<BtcOutPoint> {
    set op | op in ops && op in obs && obs[op].IsFresh(ttl, now)
  }

  function Without(ops: seq<BtcOutPoint>, skip: set<BtcOutPoint>): seq<BtcOutPoint> {
    if ops == [] then []
    else Without(ops[..|ops| - 1], skip) + (if ops[|ops| - 1] in skip then [] else [ops[|ops| - 1]])
  }

  lemma {:induction false} WithoutExact(ops: seq<BtcOutPoint>, skip: set<BtcOutPoint>)
    requires DistinctOps(ops)
    ensures DistinctOps(Without(ops, skip))
    ensures forall op :: op in Without(ops, skip) <==> op in ops && op !in skip
  {
    if ops != [] {
      var n := |ops| - 1;
      assert ops == ops[..n] + [ops[n]];
      WithoutExact(ops[..n], skip);
    }
  }

  /** The queue once `batch` was claimed from it. */
  function AfterClaim(q: QueueTable, batch: seq<BtcOutPoint>, maxAttempts: nat, now: int): QueueTable {
    Claim(DropExhausted(q, maxAttempts), Elements(batch), now)
  }

  /** The queue a completed drain leaves. */
  function Drained(q: QueueTable, batch: seq<BtcOutPoint>, maxAttempts: nat, now: int,
                   known: set<BtcOutPoint>, answered: set<BtcOutPoint>): QueueTable {
    Requeued(AfterClaim(q, batch, maxAttempts, now) - known, Elements(batch) - known - answered, now) - answered
  }

  /**
   An entry leaves the queue only because its attempts were used up, because it was claimed and found
   answered within the TTL, or because this drain recorded an answer for it.
   */
  lemma WhyEntriesLeave(q: QueueTable, batch: seq<BtcOutPoint>, maxAttempts: nat, limit: nat, now: int,
                        known: set<BtcOutPoint>, answered: set<BtcOutPoint>, op: BtcOutPoint)
    requires ValidClaim(DropExhausted(q, maxAttempts), Elements(batch), limit, now) && op in q
    ensures op !in Drained(q, batch, maxAttempts, now, known, answered)
       <==> q[op].attempts >= maxAttempts || op in known || op in answered
  {
    hide Backoff;
  }

  /**
   An entry that stays has used up one attempt if it was claimed, and none otherwise; nothing new appears.
   A claimed entry that stays is due again at once: after a completed drain, backoff spaces nothing.
   */
  lemma WhatEntriesKeep(q: QueueTable, batch: seq<BtcOutPoint>, maxAttempts: nat, limit: nat, now: int,
                        known: set<BtcOutPoint>, answered: set<BtcOutPoint>, op: BtcOutPoint)
    requires ValidClaim(DropExhausted(q, maxAttempts), Elements(batch), limit, now)
    requires op in Drained(q, batch, maxAttempts, now, known, answered)
    ensures op in q && q[op].attempts < maxAttempts
    ensures var row := Drained(q, batch, maxAttempts, now, known, answered)[op];
            && row.attempts == q[op].attempts + (if op in batch then 1 else 0)
            && row.priority == (if op in batch && q[op].priority > 10 then 10 else q[op].priority)
            && (op !in batch ==> row == q[op])
            && (op in batch ==> row.nextAttemptAt == now)
  {
    hide Backoff;
  }

  /**
   A drain that breaks off leaves every claimed entry that was not already answered. Such an entry keeps its
   backoff, as a worker that dies would leave it, exactly when it was not queued again before the break.
   */
  lemma WhatABreakLeaves(q: QueueTable, batch: seq<BtcOutPoint>, maxAttempts: nat, limit: nat, now: int,
                         known: set<BtcOutPoint>, again: set<BtcOutPoint>, op: BtcOutPoint)
    requires ValidClaim(DropExhausted(q, maxAttempts), Elements(batch), limit, now)
    requires again <= Elements(batch) - known && op in batch
    ensures var left := Requeued(AfterClaim(q, batch, maxAttempts, now) - known, again, now);
            && (op in left <==> op !in known)
            && (op in left ==>
                  && op in q && left[op].attempts == q[op].attempts + 1
                  && (left[op].nextAttemptAt == now + Backoff(q[op].attempts) <==> op !in again)
                  && (op in again ==> left[op].nextAttemptAt == now))
  {
    hide Power2;
    if op in q {
      PowerGrows(q[op].attempts + 1);
    }
  }

  /**
   A queued outpoint without an observation that merely gets labelled leaves the queue unasked: a drain that
   claims it clears it exactly while the label is younger than the TTL, and asks about it otherwise.
   */
  lemma LabelledEntryLeavesUnasked(q: QueueTable, obs: ObservationTable, labels: map<BtcOutPoint, string>,
                                   labelledAt: int,
                                   batch: seq<BtcOutPoint>, maxAttempts: nat, limit: nat, ttl: int, now: int,
                                   answered: set<BtcOutPoint>, op: BtcOutPoint)
    requires ValidClaim(DropExhausted(q, maxAttempts), Elements(batch), limit, now) && DistinctOps(batch)
    requires op in batch && op !in obs && op in labels && op !in answered
    ensures var known := Fresh(Label(obs, labels, labelledAt), batch, ttl, now);
            && (op in Without(batch, known) <==> now - labelledAt >= ttl)
            && (op !in Drained(q, batch, maxAttempts, now, known, answered) <==> now - labelledAt < ttl)
  {
    hide Backoff, Drained, ValidClaim, Without, Label;
    var known := Fresh(Label(obs, labels, labelledAt), batch, ttl, now);
    LabelFreshness(obs, labels, ttl, labelledAt, now, op);
    WithoutExact(batch, known);
    ClaimedIsQueued(q, batch, maxAttempts, limit, now, op);
    WhyEntriesLeave(q, batch, maxAttempts, limit, now, known, answered, op);
  }

  lemma ClaimedIsQueued(q: QueueTable, batch: seq<BtcOutPoint>, maxAttempts: nat, limit: nat, now: int, op: BtcOutPoint)
    requires ValidClaim(DropExhausted(q, maxAttempts), Elements(batch), limit, now) && op in batch
    ensures op in q && q[op].attempts < maxAttempts
  {
    assert op in Elements(batch);
  }

  /**
   A follow-up that fails is not retried. The outpoint's answer is already recorded: a drain within the TTL
   clears its entry without asking, and a later answer of the same kind is no longer news.
   */
  lemma FailedFollowUpIsForgotten(before: ObservationTable, obs: ObservationTable, done: map<BtcOutPoint, SpendStatus>, at: int,
                                  q: QueueTable, batch: seq<BtcOutPoint>, maxAttempts: nat, limit: nat, ttl: int, now: int,
                                  answered: set<BtcOutPoint>, op: BtcOutPoint, again: SpendStatus)
    requires Recorded(before, obs, done, at) && op in done && DistinctOps(batch)
    requires ValidClaim(DropExhausted(q, maxAttempts), Elements(batch), limit, now) && op in batch && op !in answered
    ensures var known := Fresh(obs, batch, ttl, now);
            && (op in Without(batch, known) <==> now - at >= ttl)
            && (op !in Drained(q, batch, maxAttempts, now, known, answered) <==> now - at < ttl)
    ensures again.Label() == done[op].Label() ==> !NewlySpent(obs, op, again)
  {
    hide Backoff, Drained, ValidClaim, Without;
    var known := Fresh(obs, batch, ttl, now);
    WithoutExact(batch, known);
    ClaimedIsQueued(q, batch, maxAttempts, limit, now, op);
    WhyEntriesLeave(q, batch, maxAttempts, limit, now, known, answered, op);
  }

  // ----- the reconciler

  class Reconciler {
    const source: DataSource
    const fetch: FetchAddresses
    const cap: nat
    const maxAttempts: nat
    const batchSize: nat
    const ttl: int
    var observations: ObservationTable
    var queue: QueueTable

    constructor (source: DataSource, fetch: FetchAddresses, cap: nat, maxAttempts: nat, batchSize: nat, ttl: int,
                 observations: ObservationTable, queue: QueueTable)
      ensures this.source == source && this.fetch == fetch && this.cap == cap && this.maxAttempts == maxAttempts
      ensures this.batchSize == batchSize && this.ttl == ttl && this.observations == observations && this.queue == queue
    {
      this.source, this.fetch, this.cap, this.maxAttempts := source, fetch, cap, maxAttempts;
      this.batchSize, this.ttl, this.observations, this.queue := batchSize, ttl, observations, queue;
    }

    /** Fetches the spending transaction and labels the bound outputs it pays. */
    method FollowUpSpend(spender: BtcTxid, bound: set<BtcOutPoint>, now: int) returns (r: Result<()>)
      modifies this`observations
      ensures r.Err? <==> fetch(spender).Err?
      ensures observations == Label(old(observations), FetchedLabels(fetch, spender, bound), now)
      ensures PaidOutputsLabelled(fetch, spender, bound, old(observations), observations, now)
    {
      PaidOutputsAre(fetch, spender, bound, observations, now);
      match fetch(spender)
      case Err(e) =>
        r := Err(e);
        assert Label(observations, map[], now) == observations;
      case Ok(None) =>
        r := Ok(());
        assert Label(observations, map[], now) == observations;
      case Ok(Some(outputs)) =>
        observations := Label(observations, OutputLabels(spender, outputs, bound), now);
        r := Ok(());
    }

    /**
     Re-observes a request. If it completes, each of the first `cap` outpoints has its answer recorded or is
     queued again, and everything beyond the cap is queued; a request that breaks off has done part of that.
     */
    method RefreshOutpoints(ops: seq<BtcOutPoint>, bound: set<BtcOutPoint>, now: int)
        returns (r: Result<seq<OutpointRefresh>>, ghost done: map<BtcOutPoint, SpendStatus>, ghost again: set<BtcOutPoint>)
      modifies this
      ensures Recorded(old(observations), observations, done, now)
      ensures AnswersOf(source, Prefix(ops, cap), done)
      ensures r.Ok? ==> done.Keys == Answered(source, Prefix(ops, cap)) && Lists(r.value, old(observations), done)
      ensures queue == Requeued(old(queue), again, now) && again <= StillOwed(source, ops, cap)
      ensures r.Ok? ==> again == StillOwed(source, ops, cap) && QueuedOwed(ops, cap, done, old(queue), queue, now)
      ensures WithinCap(ops, cap, done)
      ensures r.Err? && DistinctOps(Overflow(ops, cap)) ==> Elements(Overflow(ops, cap)) <= again
      ensures r.Err? ==> !DistinctOps(Overflow(ops, cap)) || FollowUpFailed(fetch, old(observations), done)
      ensures AddressesFrom(fetch, bound, old(observations), observations)
      ensures r.Ok? ==> AllFollowed(fetch, bound, old(observations), done, observations)
    {
      hide AddressesFrom, AllFollowed, FetchedLabels;
      hide Faithful, Asked, DistinctOps, AnswerFor, Shared, Recorded, Lists, Requeued, Record, Changed, Label, AnswersOf,
           StillOwed, Answered, QueuedOwed, WithinCap, AnswerIs;
      done, again := map[], {};
      NothingYet(source, ops, cap, observations, queue, now);
      AskedWithinCap(source, ops, cap, done);
      NothingFollowed(fetch, bound, observations);
      if ops == [] {
        QueueIs(source, ops, cap, done, queue, now);
        return Ok([]), done, again;
      }
      var capped, over := Prefix(ops, cap), Overflow(ops, cap);
      if over != [] {
        if !DistinctOps(over) {
          return Err(Inconsistent("refresh overflow")), done, again;
        }
        EnqueueManyIsRequeued(queue, over, now);
        queue := EnqueueMany(queue, over, ON_DEMAND, now);
      }
      ghost var q0 := old(queue);
      again := Elements(over);
      assert over == [] ==> again == {};
      var answers := ObserveMany(source, capped);
      var out := [];
      for i := 0 to |answers|
        invariant done == AnswersTo(answers, i) && again == Elements(over) + FailuresTo(answers, i)
        invariant Recorded(old(observations), observations, done, now) && Lists(out, old(observations), done)
        invariant queue == Requeued(q0, again, now)
        invariant AddressesFrom(fetch, bound, old(observations), observations)
        invariant AllFollowed(fetch, bound, old(observations), done, observations)
      {
        var op := answers[i].op;
        NotYetAnswered(answers, i);
        match answers[i].result
        case Ok(status) =>
          var changed := Changed(observations, op, status);
          RecordStep(old(observations), observations, done, op, status, now);
          NewlySpentIs(old(observations), op, status);
          assert status.IsSpent() ==> status != Unknown;
          FollowRecord(fetch, bound, old(observations), done, observations, op, status, now);
          observations := Record(observations, op, status, now);
          ListStep(out, old(observations), done, OutpointRefresh(op, status, changed));
          done := done[op := status];
          if changed && status.IsSpent() {
            var before := observations;
            var followed := FollowUpSpend(status.Spender().value, bound, now);
            FollowLabel(fetch, bound, old(observations), AnswersTo(answers, i), before, op, status, now);
            LabelStep(old(observations), before, done, FetchedLabels(fetch, status.Spender().value, bound), now);
            if followed.Err? {
              PassPrefix(source, ops, cap, answers, i + 1);
              AskedWithinCap(source, ops, cap, done);
              assert op in done && done[op] == status;
              return Err(followed.error), done, again;
            }
          }
          out := out + [OutpointRefresh(op, status, changed)];
        case Err(_) =>
          RequeueOne(q0, again, op, now);
          queue := Enqueue(queue, op, ON_DEMAND, now);
          again := again + {op};
      }
      PassExact(source, capped, answers);
      PassPrefix(source, ops, cap, answers, |answers|);
      OwedAfterPass(source, ops, cap, answers);
      AskedWithinCap(source, ops, cap, done);
      QueueIs(source, ops, cap, done, q0, now);
      r := Ok(out);
    }

    /** Removes the entries of a set, one statement each. */
    method CompleteAll(entries: set<BtcOutPoint>)
      modifies this`queue
      ensures queue == old(queue) - entries
    {
      var left := entries;
      while left != {}
        invariant left <= entries && queue == old(queue) - (entries - left)
        decreases |left|
      {
        var op :| op in left;
        queue := Complete(queue, op);
        left := left - {op};
      }
    }

    /** Clears the entries a refresh lists. */
    method CompleteMentioned(asked: seq<BtcOutPoint>, out: seq<OutpointRefresh>,
                             ghost before: ObservationTable, ghost done: map<BtcOutPoint, SpendStatus>)
      requires Lists(out, before, done)
      modifies this`queue
      ensures queue == old(queue) - Elements(asked) * done.Keys
    {
      hide Lists, Mentions;
      for i := 0 to |asked|
        invariant queue == old(queue) - Elements(asked[..i]) * done.Keys
      {
        var op := asked[i];
        assert asked[..i + 1] == asked[..i] + [op];
        MentionedIsDone(out, before, done, op);
        if Mentions(out, op) {
          queue := Complete(queue, op);
        }
      }
      assert asked[..|asked|] == asked;
    }

    /**
     One drain: drop what is exhausted, claim a batch, clear what is already known, refresh the rest, and
     clear what was answered. A drain whose refresh breaks off clears nothing it refreshed.
     */
    method DrainQueueOnce(batch: seq<BtcOutPoint>, bound: set<BtcOutPoint>, now: int)
        returns (r: Result<nat>, ghost done: map<BtcOutPoint, SpendStatus>, ghost again: set<BtcOutPoint>)
      requires DistinctOps(batch)
      requires ValidClaim(DropExhausted(queue, maxAttempts), Elements(batch), batchSize, now)
      modifies this
      ensures Recorded(old(observations), observations, done, now)
      ensures var known := Fresh(old(observations), batch, ttl, now);
              var asked := Without(batch, known);
              && AnswersOf(source, Prefix(asked, cap), done)
              && (r.Ok? ==> done.Keys == Answered(source, Prefix(asked, cap)))
              && (r.Ok? ==> r.value == |done| && queue == Drained(old(queue), batch, maxAttempts, now, known, done.Keys))
              && AddressesFrom(fetch, bound, old(observations), observations)
              && (r.Ok? ==> AllFollowed(fetch, bound, old(observations), done, observations))
              && (r.Err? ==> FollowUpFailed(fetch, old(observations), done))
              && (r.Err? ==> Elements(Overflow(asked, cap)) <= again <= Elements(asked) - done.Keys)
              && (r.Err? ==> queue == Requeued(AfterClaim(old(queue), batch, maxAttempts, now) - known, again, now))
    {
      hide Recorded, Lists, Requeued, AnswersOf, StillOwed, Answered, Claim, DropExhausted, ValidClaim,
           FollowUpFailed, AddressesFrom, AllFollowed, Drained, Fresh, Without, Prefix, Overflow, DistinctOps;
      ghost var q0, obs0 := queue, observations;
      queue := DropExhausted(queue, maxAttempts);
      queue := Claim(queue, Elements(batch), now);
      var known := Fresh(observations, batch, ttl, now);
      var asked := Without(batch, known);
      WithoutExact(batch, known);
      NothingYet(source, asked, cap, observations, queue, now);
      NothingFollowed(fetch, bound, observations);
      done, again := map[], {};
      CompleteAll(known);
      assert queue == AfterClaim(q0, batch, maxAttempts, now) - known;
      if asked == [] {
        DrainedNothing(q0, batch, maxAttempts, now, known);
        return Ok(0), done, again;
      }
      OwedIsUnanswered(source, asked, cap);
      var refreshed;
      refreshed, done, again := RefreshOutpoints(asked, bound, now);
      if refreshed.Err? {
        DoneIsAnswered(source, Prefix(asked, cap), done);
        return Err(refreshed.error), done, again;
      }
      CompleteMentioned(asked, refreshed.value, obs0, done);
      ListedCount(refreshed.value, obs0, done);
      DrainedAll(q0, batch, maxAttempts, now, known, asked, done.Keys);
      r := Ok(|refreshed.value|);
    }

    /**
     The address diff. `live` is the source's list of unspent outputs and `unspentCells` the bindings of
     unconsumed cells. What the list lacks, or contradicts, is asked about; nothing else changes status.
     */
    method ReconcileAddress(address: string, live: set<BtcOutPoint>, bound: set<BtcOutPoint>,
                            unspentCells: set<BtcOutPoint>, now: int)
        returns (r: Result<seq<OutpointRefresh>>, ghost asked: seq<BtcOutPoint>, ghost done: map<BtcOutPoint, SpendStatus>)
      modifies this
      ensures DistinctOps(asked) && InOrder(OutpointLess, asked)
      ensures forall op :: op in asked <==> InDoubt(old(observations), address, live, unspentCells, op)
      ensures OwnersNamed(fetch, address, live, bound, old(observations), observations)
      ensures Recorded(old(observations), observations, done, now) && AnswersOf(source, Prefix(asked, cap), done)
      ensures r.Ok? ==> forall op :: op in asked ==> op in done || op in queue
      ensures var seen := Label(old(observations), OwnLabels(address, live, bound), now);
              && AddressesFrom(fetch, bound, seen, observations)
              && (r.Ok? ==> Lists(r.value, seen, done))
              && (r.Ok? ==> AllFollowed(fetch, bound, seen, done, observations))
              && (r.Err? ==> FollowUpFailed(fetch, seen, done))
    {
      hide Recorded, AnswersOf, Lists, Requeued, Answered, StillOwed, FollowUpFailed, Label, Disappeared, Contradicted,
           AddressesFrom, AllFollowed, InDoubt, OwnersNamed, QueuedOwed, WithinCap;
      ghost var obs0 := observations;
      NothingYet(source, [], cap, observations, queue, now);
      LabelStep(obs0, observations, map[], OwnLabels(address, live, bound), now);
      observations := Label(observations, OwnLabels(address, live, bound), now);
      ghost var seen := observations;
      var toRefresh :=
        SortedOutpoints(Disappeared(observations, address, live, unspentCells) + Contradicted(observations, live));
      asked := toRefresh;
      forall op
        ensures op in asked <==> InDoubt(obs0, address, live, unspentCells, op)
      {
        InDoubtIs(obs0, address, live, bound, unspentCells, now, op);
        assert op in asked <==> op in Elements(asked);
      }
      OwedIsUnanswered(source, asked, cap);
      ghost var again;
      r, done, again := RefreshOutpoints(toRefresh, bound, now);
      RecordedAfterLabel(obs0, seen, observations, done, now);
      OwnersAre(fetch, address, live, bound, obs0, observations, now);
      if r.Ok? {
        RequeuedHolds(old(queue), StillOwed(source, asked, cap), now);
      }
    }
  }

  /** The labels an address lookup brings. */
  function OwnLabels(address: string, live: set<BtcOutPoint>, bound: set<BtcOutPoint>): map<BtcOutPoint, string> {
    map op | op in live && op in bound :: address
  }

  /** Believed live for the address, yet not listed by the source. */
  function Disappeared(obs: ObservationTable, address: string, live: set<BtcOutPoint>, unspentCells: set<BtcOutPoint>):
      set<BtcOutPoint> {
    set op | op in unspentCells && op in obs && obs[op].address == Some(address) && op !in live
  }

  /** Recorded as spent, yet listed by the source. */
  function Contradicted(obs: ObservationTable, live: set<BtcOutPoint>): set<BtcOutPoint> {
    set op | op in live && op in obs && obs[op].Read().IsSpent() && obs[op].invalidatedAt.None?
  }

  /**
   What an address lookup makes doubtful, in terms of the rows before it: a cell's binding recorded for the
   address that the source no longer lists, or one it lists whose row says spent.
   */
  predicate InDoubt(obs: ObservationTable, address: string, live: set<BtcOutPoint>, unspentCells: set<BtcOutPoint>,
                    op: BtcOutPoint) {
    && op in obs
    && (|| (op in unspentCells && op !in live && obs[op].address == Some(address))
        || (op in live && obs[op].invalidatedAt.None? && obs[op].spender.Some?
            && (obs[op].status == SpentUnconfirmedLabel || obs[op].status == SpentConfirmedLabel)))
  }

  lemma InDoubtIs(obs: ObservationTable, address: string, live: set<BtcOutPoint>, bound: set<BtcOutPoint>,
                  unspentCells: set<BtcOutPoint>, now: int, op: BtcOutPoint)
    ensures var seen := Label(obs, OwnLabels(address, live, bound), now);
            op in Disappeared(seen, address, live, unspentCells) + Contradicted(seen, live)
            <==> InDoubt(obs, address, live, unspentCells, op)
  {
  }

  /** Listed outpoints that carry a cell are labelled with the address; a spender's outputs with what it pays. */
  ghost predicate OwnersNamed(fetch: FetchAddresses, address: string, live: set<BtcOutPoint>, bound: set<BtcOutPoint>,
                              before: ObservationTable, after: ObservationTable) {
    forall op ::
      && (op in live && op in bound ==>
            op in after && (after[op].address == Some(address)
                            || (PaidAddress(fetch, op).Some? && after[op].address == PaidAddress(fetch, op))))
      && (op in after && !(op in live && op in bound) ==>
            || after[op].address == (if op in before then before[op].address else None)
            || (op in bound && PaidAddress(fetch, op).Some? && after[op].address == PaidAddress(fetch, op)))
  }

  lemma OwnersAre(fetch: FetchAddresses, address: string, live: set<BtcOutPoint>, bound: set<BtcOutPoint>,
                  obs: ObservationTable, after: ObservationTable, now: int)
    requires AddressesFrom(fetch, bound, Label(obs, OwnLabels(address, live, bound), now), after)
    ensures OwnersNamed(fetch, address, live, bound, obs, after)
  {
    hide PaidAddress;
  }

  /** How Rust orders outpoints: txids bytewise, then outputs. */
  predicate OutpointLess(a: BtcOutPoint, b: BtcOutPoint) {
    LexLess(a.txid, b.txid) || (a.txid == b.txid && a.vout < b.vout)
  }

  lemma OutpointOrder()
    ensures StrictOrder(OutpointLess)
  {
    hide LexLess;
    forall a: BtcOutPoint
      ensures !OutpointLess(a, a)
    {
      LexIrreflexive(a.txid);
    }
    forall a, b, c | OutpointLess(a, b) && OutpointLess(b, c)
      ensures OutpointLess(a, c)
    {
      if LexLess(a.txid, b.txid) && LexLess(b.txid, c.txid) {
        LexTransitive(a.txid, b.txid, c.txid);
      }
    }
    forall a, b
      ensures a == b || OutpointLess(a, b) || OutpointLess(b, a)
    {
      LexTotal(a.txid, b.txid);
    }
  }

  /** Sorted and without repetition: the first page of a set, as long as the set. */
  method SortedOutpoints(ops: set<BtcOutPoint>) returns (s: seq<BtcOutPoint>)
    ensures InOrder(OutpointLess, s) && DistinctOps(s) && Elements(s) == ops
  {
    hide OutpointLess, DistinctOps, InOrder, Past;
    OutpointOrder();
    s := SelectPage(OutpointLess, ops, None, |ops|);
    WholePage(ops, s);
  }

  lemma WholePage(ops: set<BtcOutPoint>, s: seq<BtcOutPoint>)
    requires StrictOrder(OutpointLess) && IsPage(OutpointLess, ops, None, |ops|, s)
    ensures InOrder(OutpointLess, s) && DistinctOps(s) && Elements(s) == ops
  {
    hide OutpointLess;
    ElementCount(s);
    assert Elements(s) <= ops;
    if op :| op in ops && op !in s {
      SmallerSet(Elements(s), ops - {op});
    }
  }

  lemma {:induction false} ElementCount(s: seq<BtcOutPoint>)
    requires DistinctOps(s)
    ensures |Elements(s)| == |s|
  {
    if s != [] {
      var n := |s| - 1;
      ElementCount(s[..n]);
      assert s == s[..n] + [s[n]];
      assert Elements(s) == Elements(s[..n]) + {s[n]};
    }
  }

  lemma RecordedAfterLabel(before: ObservationTable, labelled: ObservationTable, after: ObservationTable,
                           done: map<BtcOutPoint, SpendStatus>, now: int)
    requires Recorded(before, labelled, map[], now) && Recorded(labelled, after, done, now)
    ensures Recorded(before, after, done, now)
  {
    hide RecordedAs;
  }

  lemma RequeuedHolds(q: QueueTable, again: set<BtcOutPoint>, now: int)
    ensures again <= Requeued(q, again, now).Keys
  {
    hide Enqueue;
  }

  lemma DrainedNothing(q: QueueTable, batch: seq<BtcOutPoint>, maxAttempts: nat, now: int, known: set<BtcOutPoint>)
    requires DistinctOps(batch) && Without(batch, known) == []
    ensures Drained(q, batch, maxAttempts, now, known, {}) == AfterClaim(q, batch, maxAttempts, now) - known
  {
    hide AfterClaim;
    WithoutExact(batch, known);
    forall op
      ensures op !in Elements(batch) - known - {}
    {
      assert op in batch && op !in known ==> op in Without(batch, known);
    }
    assert Elements(batch) - known - {} == {};
  }

  lemma OwedIsUnanswered(source: DataSource, ops: seq<BtcOutPoint>, cap: nat)
    requires DistinctOps(ops)
    ensures StillOwed(source, ops, cap) == Elements(ops) - Answered(source, Prefix(ops, cap))
    ensures Answered(source, Prefix(ops, cap)) <= Elements(ops) && DistinctOps(Overflow(ops, cap))
  {
    hide AnswerFor, Shared;
    if |ops| > cap {
      assert ops == ops[..cap] + ops[cap..];
    }
  }

  lemma DoneIsAnswered(source: DataSource, ops: seq<BtcOutPoint>, done: map<BtcOutPoint, SpendStatus>)
    requires AnswersOf(source, ops, done)
    ensures done.Keys <= Answered(source, ops)
  {
    hide AnswerFor, Shared;
  }

  lemma MentionedIsDone(out: seq<OutpointRefresh>, before: ObservationTable, done: map<BtcOutPoint, SpendStatus>,
                        op: BtcOutPoint)
    requires Lists(out, before, done)
    ensures Mentions(out, op) <==> op in done
  {
    hide Changed;
  }

  lemma DrainedAll(q: QueueTable, batch: seq<BtcOutPoint>, maxAttempts: nat, now: int, known: set<BtcOutPoint>,
                   asked: seq<BtcOutPoint>, answered: set<BtcOutPoint>)
    requires DistinctOps(batch) && asked == Without(batch, known) && answered <= Elements(asked)
    ensures Requeued(AfterClaim(q, batch, maxAttempts, now) - known, Elements(asked) - answered, now) - Elements(asked) * answered
         == Drained(q, batch, maxAttempts, now, known, answered)
  {
    hide AfterClaim, Requeued;
    WithoutExact(batch, known);
    assert Elements(asked) == Elements(batch) - known;
    assert Elements(asked) * answered == answered;
  }
}
