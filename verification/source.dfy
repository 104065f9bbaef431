/** Observing many outpoints, grouped by transaction where that saves calls (crates/btc/src/source.rs). */
module Source {
  import opened Wrappers
  import opened ByteStrings
  import opened Protocol
  import opened Observation

  /** One answer per call: the whole transaction (None: not supported), or one outpoint. */
  datatype DataSource = DataSource(
    outspends: BtcTxid -> Result<Option<seq<SpendStatus>>>,
    status: BtcOutPoint -> Result<SpendStatus>)

  datatype Answer = Answer(op: BtcOutPoint, result: Result<SpendStatus>)

  // ----- sorted, duplicate-free outputs of one transaction

  predicate Ascending(s: seq<u32>) {
    forall i, j :: 0 <= i < j < |s| ==> s[i] < s[j]
  }

  /** One step of sorting and deduplicating. */
  function InsertVout(s: seq<u32>, v: u32): seq<u32> {
    if s == [] then [v]
    else
      var n := |s| - 1;
      if v == s[n] then s
      else if v < s[n] then InsertVout(s[..n], v) + [s[n]]
      else s + [v]
  }

  function SortDedup(s: seq<u32>): seq<u32> {
    if s == [] then [] else InsertVout(SortDedup(s[..|s| - 1]), s[|s| - 1])
  }

  lemma {:induction false} InsertVoutExact(s: seq<u32>, v: u32)
    requires Ascending(s)
    ensures Ascending(InsertVout(s, v))
    ensures forall x :: x in InsertVout(s, v) <==> x in s || x == v
  {
    if s != [] {
      var n := |s| - 1;
      assert s == s[..n] + [s[n]];
      if v < s[n] {
        InsertVoutExact(s[..n], v);
        var front := InsertVout(s[..n], v);
        forall i | 0 <= i < |front|
          ensures front[i] < s[n]
        {
          assert front[i] in front;
        }
      } else if v > s[n] {
        assert forall i :: 0 <= i < |s| ==> s[i] < v;
      }
    }
  }

  lemma {:induction false} SortDedupExact(s: seq<u32>)
    ensures Ascending(SortDedup(s))
    ensures forall x :: x in SortDedup(s) <==> x in s
  {
    if s != [] {
      var n := |s| - 1;
      assert s == s[..n] + [s[n]];
      SortDedupExact(s[..n]);
      InsertVoutExact(SortDedup(s[..n]), s[n]);
    }
  }

  // ----- the answer each outpoint gets

  /** Some other output of the same transaction is asked about in the same call. */
  predicate Shared(ops: seq<BtcOutPoint>, op: BtcOutPoint) {
    exists i :: 0 <= i < |ops| && ops[i].txid == op.txid && ops[i].vout != op.vout
  }

  function FromOutspends(statuses: seq<SpendStatus>, vout: u32): SpendStatus {
    if vout < |statuses| then statuses[vout] else Unknown
  }

  /** A shared transaction is asked as a whole if the source can; everything else outpoint by outpoint. */
  function AnswerFor(source: DataSource, shared: bool, op: BtcOutPoint): Result<SpendStatus> {
    if shared && source.outspends(op.txid).Ok? && source.outspends(op.txid).value.Some?
    then Ok(FromOutspends(source.outspends(op.txid).value.value, op.vout))
    else source.status(op)
  }

  /** The answers about one transaction, in output order. */
  function GroupAnswers(source: DataSource, txid: BtcTxid, vouts: seq<u32>): seq<Answer> {
    seq(|vouts|, i requires 0 <= i < |vouts| =>
        Answer(BtcOutPoint(txid, vouts[i]), AnswerFor(source, |vouts| > 1, BtcOutPoint(txid, vouts[i]))))
  }

  method ObserveGroup(source: DataSource, txid: BtcTxid, requested: seq<u32>) returns (out: seq<Answer>)
    ensures out == GroupAnswers(source, txid, SortDedup(requested))
  {
    var vouts := SortDedup(requested);
    var batched := if |vouts| > 1 then source.outspends(txid) else Ok(None);
    out := [];
    for i := 0 to |vouts|
      invariant |out| == i
      invariant forall k :: 0 <= k < i ==> out[k] == GroupAnswers(source, txid, vouts)[k]
    {
      var op := BtcOutPoint(txid, vouts[i]);
      if batched.Ok? && batched.value.Some? {
        out := out + [Answer(op, Ok(FromOutspends(batched.value.value, vouts[i])))];
      } else {
        out := out + [Answer(op, source.status(op))];
      }
    }
  }

  function Asked(answers: seq<Answer>): seq<BtcOutPoint> {
    seq(|answers|, i requires 0 <= i < |answers| => answers[i].op)
  }

  predicate DistinctOps(ops: seq<BtcOutPoint>) {
    forall i, j :: 0 <= i < j < |ops| ==> ops[i] != ops[j]
  }

  predicate Faithful(source: DataSource, ops: seq<BtcOutPoint>, answers: seq<Answer>) {
    forall i :: 0 <= i < |answers| ==> answers[i].result == AnswerFor(source, Shared(ops, answers[i].op), answers[i].op)
  }

  /** The outputs asked about per transaction. */
  ghost predicate Grouped(ops: seq<BtcOutPoint>, groups: map<BtcTxid, seq<u32>>) {
    && (forall op :: op in ops ==> op.txid in groups)
    && (forall t :: t in groups ==> groups[t] != [])
    && (forall t, v :: t in groups ==> (v in groups[t] <==> BtcOutPoint(t, v) in ops))
  }

  /** Whether the call is shared does not depend on which output of the group is looked at. */
  lemma SharedIsGroupSize(ops: seq<BtcOutPoint>, groups: map<BtcTxid, seq<u32>>, t: BtcTxid, v: u32)
    requires Grouped(ops, groups) && t in groups && v in groups[t]
    ensures |SortDedup(groups[t])| > 1 <==> Shared(ops, BtcOutPoint(t, v))
  {
    var vouts := SortDedup(groups[t]);
    SortDedupExact(groups[t]);
    if |vouts| > 1 {
      var other := if vouts[0] == v then vouts[1] else vouts[0];
      assert other in vouts && BtcOutPoint(t, other) in ops;
      var k :| 0 <= k < |ops| && ops[k] == BtcOutPoint(t, other);
      assert ops[k].txid == t && ops[k].vout != v;
    }
    if Shared(ops, BtcOutPoint(t, v)) {
      var k :| 0 <= k < |ops| && ops[k].txid == t && ops[k].vout != v;
      assert ops[k] in ops && ops[k] == BtcOutPoint(t, ops[k].vout);
      assert v in vouts && ops[k].vout in vouts;
    }
  }

  lemma GroupIsFaithful(source: DataSource, ops: seq<BtcOutPoint>, groups: map<BtcTxid, seq<u32>>, t: BtcTxid)
    requires Grouped(ops, groups) && t in groups
    ensures var answers := GroupAnswers(source, t, SortDedup(groups[t]));
            && Faithful(source, ops, answers) && DistinctOps(Asked(answers))
            && forall op :: op in Asked(answers) <==> op in ops && op.txid == t
  {
    hide AnswerFor, SortDedup, Grouped, Shared;
    SortDedupExact(groups[t]);
    var vouts := SortDedup(groups[t]);
    var answers := GroupAnswers(source, t, vouts);
    forall i | 0 <= i < |vouts|
      ensures |vouts| > 1 <==> Shared(ops, answers[i].op)
    {
      assert vouts[i] in vouts;
      SharedIsGroupSize(ops, groups, t, vouts[i]);
    }
    forall op
      ensures op in Asked(answers) <==> op in ops && op.txid == t
    {
      InGroup(ops, groups, t, op);
      if op in Asked(answers) {
        var i :| 0 <= i < |vouts| && Asked(answers)[i] == op;
        assert vouts[i] in vouts;
      }
      if op in ops && op.txid == t {
        var i :| 0 <= i < |vouts| && vouts[i] == op.vout;
        assert Asked(answers)[i] == op;
      }
    }
  }

  lemma InGroup(ops: seq<BtcOutPoint>, groups: map<BtcTxid, seq<u32>>, t: BtcTxid, op: BtcOutPoint)
    requires Grouped(ops, groups) && t in groups
    ensures op.txid == t ==> (op in ops <==> op.vout in groups[t])
  {
    assert op == BtcOutPoint(op.txid, op.vout);
  }

  lemma AppendGroup(source: DataSource, ops: seq<BtcOutPoint>, out: seq<Answer>, more: seq<Answer>, t: BtcTxid)
    requires Faithful(source, ops, out) && Faithful(source, ops, more)
    requires DistinctOps(Asked(out)) && DistinctOps(Asked(more))
    requires forall op :: op in Asked(out) ==> op.txid != t
    requires forall op :: op in Asked(more) ==> op.txid == t
    ensures Faithful(source, ops, out + more) && DistinctOps(Asked(out + more))
    ensures forall op :: op in Asked(out + more) <==> op in Asked(out) || op in Asked(more)
  {
    hide AnswerFor, Shared;
    assert Asked(out + more) == Asked(out) + Asked(more);
    forall i, j | 0 <= i < j < |Asked(out + more)|
      ensures Asked(out + more)[i] != Asked(out + more)[j]
    {
      if i < |out| <= j {
        assert Asked(out)[i] in Asked(out) && Asked(more)[j - |out|] in Asked(more);
      }
    }
  }

  method GroupByTxid(ops: seq<BtcOutPoint>) returns (groups: map<BtcTxid, seq<u32>>)
    ensures Grouped(ops, groups)
  {
    groups := map[];
    for i := 0 to |ops|
      invariant Grouped(ops[..i], groups)
    {
      var op := ops[i];
      assert ops[..i + 1] == ops[..i] + [op];
      groups := groups[op.txid := (if op.txid in groups then groups[op.txid] else []) + [op.vout]];
    }
    assert ops[..|ops|] == ops;
  }

  /**
   The answer for `op` in a request: its place in its transaction's list, if the source has one and another
   output of that transaction is asked about too, and unknown beyond the list's end; its own status otherwise.
   */
  ghost predicate AnswerIs(source: DataSource, ops: seq<BtcOutPoint>, op: BtcOutPoint, r: Result<SpendStatus>) {
    var whole := source.outspends(op.txid);
    if whole.Ok? && whole.value.Some? && exists v: u32 :: v != op.vout && BtcOutPoint(op.txid, v) in ops
    then r == Ok(if op.vout < |whole.value.value| then whole.value.value[op.vout] else Unknown)
    else r == source.status(op)
  }

  lemma AnswerForIs(source: DataSource, ops: seq<BtcOutPoint>, op: BtcOutPoint)
    ensures AnswerIs(source, ops, op, AnswerFor(source, Shared(ops, op), op))
  {
    if i :| 0 <= i < |ops| && ops[i].txid == op.txid && ops[i].vout != op.vout {
      assert BtcOutPoint(op.txid, ops[i].vout) in ops;
    }
    if v: u32 :| v != op.vout && BtcOutPoint(op.txid, v) in ops {
      var i :| 0 <= i < |ops| && ops[i] == BtcOutPoint(op.txid, v);
    }
  }

  /** Every distinct outpoint is answered exactly once, and as `AnswerIs` says. */
  method ObserveMany(source: DataSource, ops: seq<BtcOutPoint>) returns (out: seq<Answer>)
    ensures DistinctOps(Asked(out)) && Faithful(source, ops, out)
    ensures forall op :: op in Asked(out) <==> op in ops
    ensures forall i :: 0 <= i < |out| ==> AnswerIs(source, ops, out[i].op, out[i].result)
  {
    hide Faithful, Asked, DistinctOps, SortDedup, GroupAnswers;
    var groups := GroupByTxid(ops);
    out := [];
    NoAnswers(source, ops);
    var left := groups.Keys;
    while left != {}
      invariant left <= groups.Keys
      invariant DistinctOps(Asked(out)) && Faithful(source, ops, out)
      invariant forall op :: op in Asked(out) <==> op in ops && op.txid !in left
      decreases |left|
    {
      var t :| t in left;
      var answers := ObserveGroup(source, t, groups[t]);
      GroupIsFaithful(source, ops, groups, t);
      AppendGroup(source, ops, out, answers, t);
      out := out + answers;
      left := left - {t};
    }
    forall i | 0 <= i < |out|
      ensures AnswerIs(source, ops, out[i].op, out[i].result)
    {
      AnswerOf(source, ops, out, i);
    }
  }

  lemma AnswerOf(source: DataSource, ops: seq<BtcOutPoint>, out: seq<Answer>, i: nat)
    requires Faithful(source, ops, out) && i < |out|
    ensures AnswerIs(source, ops, out[i].op, out[i].result)
  {
    hide AnswerFor, Shared, AnswerIs;
    AnswerForIs(source, ops, out[i].op);
  }

  lemma NoAnswers(source: DataSource, ops: seq<BtcOutPoint>)
    ensures Asked([]) == [] && DistinctOps(Asked([])) && Faithful(source, ops, [])
  {
  }

  // ----- when grouping does not matter

  /** The source's two ways of answering agree: listed outputs have their own status, unlisted ones are unknown. */
  ghost predicate AnswersAgree(source: DataSource) {
    forall txid: BtcTxid, vout: u32 :: source.outspends(txid).Ok? && source.outspends(txid).value.Some? ==>
      source.status(BtcOutPoint(txid, vout)) == Ok(FromOutspends(source.outspends(txid).value.value, vout))
  }

  lemma OneAsItself(source: DataSource, shared: bool, op: BtcOutPoint)
    requires AnswersAgree(source)
    ensures AnswerFor(source, shared, op) == source.status(op)
  {
    assert op == BtcOutPoint(op.txid, op.vout);
  }

  /** Every answer to every request is what the outpoint's own query gives. */
  ghost predicate AnswersOwn(source: DataSource) {
    forall ops, op :: op in ops ==> AnswerFor(source, Shared(ops, op), op) == source.status(op)
  }

  /**
   What a request returns does not depend on what else it asks about, exactly when the source's two ways of
   answering agree.
   */
  lemma GroupingIsInvisible(source: DataSource)
    ensures AnswersAgree(source) <==> AnswersOwn(source)
  {
    hide AnswerFor;
    if AnswersOwn(source) {
      forall txid: BtcTxid, vout: u32 | source.outspends(txid).Ok? && source.outspends(txid).value.Some?
        ensures source.status(BtcOutPoint(txid, vout)) == Ok(FromOutspends(source.outspends(txid).value.value, vout))
      {
        var op, other := BtcOutPoint(txid, vout), BtcOutPoint(txid, if vout == 0 then 1 else 0);
        AskedTogether(op, other);
        assert op in [op, other];
        SharedAnswer(source, op);
      }
    }
    if AnswersAgree(source) {
      forall ops, op | op in ops
        ensures AnswerFor(source, Shared(ops, op), op) == source.status(op)
      {
        OneAsItself(source, Shared(ops, op), op);
      }
    }
  }

  lemma AskedTogether(op: BtcOutPoint, other: BtcOutPoint)
    requires op.txid == other.txid && op.vout != other.vout
    ensures Shared([op, other], op)
  {
    assert [op, other][1] == other;
  }

  lemma SharedAnswer(source: DataSource, op: BtcOutPoint)
    requires source.outspends(op.txid).Ok? && source.outspends(op.txid).value.Some?
    ensures AnswerFor(source, true, op) == Ok(FromOutspends(source.outspends(op.txid).value.value, op.vout))
  {
  }

  /** Then `ObserveMany` returns each outpoint's own status, whatever the request. */
  lemma ReturnsOwnStatus(source: DataSource, ops: seq<BtcOutPoint>, answers: seq<Answer>)
    requires AnswersAgree(source) && Faithful(source, ops, answers)
    ensures forall i :: 0 <= i < |answers| ==> answers[i].result == source.status(answers[i].op)
  {
    hide AnswerFor, AnswersAgree, Shared;
    forall i | 0 <= i < |answers|
      ensures answers[i].result == source.status(answers[i].op)
    {
      OneAsItself(source, Shared(ops, answers[i].op), answers[i].op);
    }
  }
}
