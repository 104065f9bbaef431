/**
 The refresh queue (crates/store/src/queue.rs): one statement, one update of the table. Which due rows
 a claim picks among equals is the database's choice; every choice is covered.
 */
module Queue {
  import opened Protocol

  const ON_DEMAND := 10

  datatype QueueRow = QueueRow(priority: int, attempts: nat, nextAttemptAt: int)

  type QueueTable = map<BtcOutPoint, QueueRow>

  function Min(a: int, b: int): int {
    if a <= b then a else b
  }

  /** Re-queuing promotes and makes eligible; it never resets the attempts. */
  function Enqueue(q: QueueTable, op: BtcOutPoint, priority: int, now: int): QueueTable {
    q[op := if op in q
            then q[op].(priority := Min(q[op].priority, priority), nextAttemptAt := Min(q[op].nextAttemptAt, now))
            else QueueRow(priority, 0, now)]
  }

  function EnqueueMany(q: QueueTable, ops: seq<BtcOutPoint>, priority: int, now: int): QueueTable {
    if ops == [] then q else Enqueue(EnqueueMany(q, ops[..|ops| - 1], priority, now), ops[|ops| - 1], priority, now)
  }

  function Power2(n: nat): nat {
    if n == 0 then 1 else 2 * Power2(n - 1)
  }

  function Backoff(attempts: nat): nat {
    Min(300, Power2(attempts + 1))
  }

  /** The claim counts the attempt and pushes the row back. */
  function Claim(q: QueueTable, picked: set<BtcOutPoint>, now: int): QueueTable {
    map op | op in q :: if op in picked
                        then q[op].(attempts := q[op].attempts + 1, nextAttemptAt := now + Backoff(q[op].attempts))
                        else q[op]
  }

  function DropExhausted(q: QueueTable, maxAttempts: nat): QueueTable {
    map op | op in q && q[op].attempts < maxAttempts :: q[op]
  }

  function Complete(q: QueueTable, op: BtcOutPoint): QueueTable {
    q - {op}
  }

  predicate MoreUrgent(a: QueueRow, b: QueueRow) {
    a.priority < b.priority || (a.priority == b.priority && a.nextAttemptAt < b.nextAttemptAt)
  }

  /** A claim may pick these: due rows, at most `limit`, none passed over for a less urgent one. */
  ghost predicate ValidClaim(q: QueueTable, picked: set<BtcOutPoint>, limit: nat, now: int) {
    && |picked| <= limit
    && (forall op :: op in picked ==> op in q && q[op].nextAttemptAt <= now)
    && (forall op :: op in q && op !in picked && q[op].nextAttemptAt <= now ==>
          |picked| == limit && forall p :: p in picked ==> !MoreUrgent(q[op], q[p]))
  }

  // ----- runs: any interleaving of the worker's statements with everybody else's

  datatype Statement =
    | Enqueued(op: BtcOutPoint, priority: int, now: int)
    | Dropped
    | Claimed(picked: set<BtcOutPoint>, at: int)
    | Completed(done: BtcOutPoint)

  function Execute(q: QueueTable, s: Statement, maxAttempts: nat): QueueTable {
    match s
    case Enqueued(op, priority, now) => Enqueue(q, op, priority, now)
    case Dropped => DropExhausted(q, maxAttempts)
    case Claimed(picked, at) => Claim(q, picked, at)
    case Completed(op) => Complete(q, op)
  }

  /** The table after the first `n` statements, from an empty one. */
  function TableAfter(run: seq<Statement>, n: nat, maxAttempts: nat): QueueTable
    requires n <= |run|
  {
    if n == 0 then map[] else Execute(TableAfter(run, n - 1, maxAttempts), run[n - 1], maxAttempts)
  }

  /** There is one worker: between two claims it always drops the exhausted rows again. */
  predicate DropsBeforeClaims(run: seq<Statement>) {
    forall n :: 0 <= n < |run| && run[n].Claimed? ==> DroppedSince(run, n)
  }

  /** Walking back from `n`, a drop comes before any claim. */
  predicate DroppedSince(run: seq<Statement>, n: nat)
    requires n <= |run|
  {
    n > 0 && (run[n - 1].Dropped? || (!run[n - 1].Claimed? && DroppedSince(run, n - 1)))
  }

  /** How often the entry for `op` has been claimed since it was inserted. */
  function Claims(run: seq<Statement>, n: nat, op: BtcOutPoint, maxAttempts: nat): nat
    requires n <= |run|
  {
    if n == 0 || op !in TableAfter(run, n - 1, maxAttempts) then 0
    else Claims(run, n - 1, op, maxAttempts) + (if run[n - 1].Claimed? && op in run[n - 1].picked then 1 else 0)
  }

  /** The attempts column counts exactly the claims since insertion, whatever was re-queued in between. */
  lemma {:induction false} AttemptsCountClaims(run: seq<Statement>, n: nat, op: BtcOutPoint, maxAttempts: nat)
    requires n <= |run| && op in TableAfter(run, n, maxAttempts)
    ensures TableAfter(run, n, maxAttempts)[op].attempts == Claims(run, n, op, maxAttempts)
    decreases n
  {
    hide Backoff;
    if op in TableAfter(run, n - 1, maxAttempts) {
      AttemptsCountClaims(run, n - 1, op, maxAttempts);
    }
  }

  /** The most claims an entry can see: with `max_attempts` 0, one queued between a drop and a claim is still claimed. */
  function MostClaims(maxAttempts: nat): nat {
    if maxAttempts == 0 then 1 else maxAttempts
  }

  /** Right after a drop, and until the next claim, every entry has an attempt left or was never claimed. */
  lemma {:induction false} AttemptsLeft(run: seq<Statement>, n: nat, maxAttempts: nat)
    requires n <= |run| && DroppedSince(run, n)
    ensures forall op :: op in TableAfter(run, n, maxAttempts) ==>
              TableAfter(run, n, maxAttempts)[op].attempts < MostClaims(maxAttempts)
    decreases n
  {
    if !run[n - 1].Dropped? {
      AttemptsLeft(run, n - 1, maxAttempts);
    }
  }

  lemma {:induction false} AttemptsBounded(run: seq<Statement>, n: nat, maxAttempts: nat)
    requires n <= |run| && DropsBeforeClaims(run)
    ensures forall op :: op in TableAfter(run, n, maxAttempts) ==>
              TableAfter(run, n, maxAttempts)[op].attempts <= MostClaims(maxAttempts)
    decreases n
  {
    hide Backoff, DroppedSince;
    if n > 0 {
      AttemptsBounded(run, n - 1, maxAttempts);
      if run[n - 1].Claimed? {
        assert DroppedSince(run, n - 1);
        AttemptsLeft(run, n - 1, maxAttempts);
      }
    }
  }

  /**
   In every run of the single worker, an entry is claimed at most `maxAttempts` times between insertion and
   removal, or once if that is 0.
   */
  lemma ClaimedAtMostMaxTimes(run: seq<Statement>, n: nat, op: BtcOutPoint, maxAttempts: nat)
    requires n <= |run| && DropsBeforeClaims(run) && op in TableAfter(run, n, maxAttempts)
    ensures Claims(run, n, op, maxAttempts) <= MostClaims(maxAttempts)
  {
    hide TableAfter, Claims, DropsBeforeClaims;
    AttemptsCountClaims(run, n, op, maxAttempts);
    AttemptsBounded(run, n, maxAttempts);
  }

  ghost predicate WithinLimit(maxAttempts: nat) {
    forall run: seq<Statement>, n: nat, op :: n <= |run| && DropsBeforeClaims(run) && op in TableAfter(run, n, maxAttempts) ==>
      Claims(run, n, op, maxAttempts) <= maxAttempts
  }

  /** With `maxAttempts` 0, an entry queued between a drop and a claim is claimed. */
  lemma ClaimedDespiteZero(op: BtcOutPoint) returns (run: seq<Statement>)
    ensures |run| == 3 && DropsBeforeClaims(run) && run[2] == Claimed({op}, 0)
    ensures ValidClaim(TableAfter(run, 2, 0), {op}, 1, 0)
    ensures op in TableAfter(run, 3, 0) && Claims(run, 3, op, 0) == 1
  {
    hide Backoff;
    run := [Dropped, Enqueued(op, ON_DEMAND, 0), Claimed({op}, 0)];
    assert TableAfter(run, 0, 0) == map[];
    assert TableAfter(run, 1, 0) == map[];
    assert TableAfter(run, 2, 0) == map[op := QueueRow(ON_DEMAND, 0, 0)];
    assert Claims(run, 2, op, 0) == 0;
    assert DroppedSince(run, 1) && DroppedSince(run, 2);
  }

  /** The limit is kept in all runs of the single worker, unless it is 0. */
  lemma LimitHoldsExactly(op: BtcOutPoint, maxAttempts: nat)
    ensures WithinLimit(maxAttempts) <==> maxAttempts > 0
  {
    hide TableAfter, Claims, DropsBeforeClaims;
    if maxAttempts == 0 {
      var run := ClaimedDespiteZero(op);
    } else {
      forall run: seq<Statement>, n: nat, op | n <= |run| && DropsBeforeClaims(run) && op in TableAfter(run, n, maxAttempts)
        ensures Claims(run, n, op, maxAttempts) <= maxAttempts
      {
        ClaimedAtMostMaxTimes(run, n, op, maxAttempts);
      }
    }
  }

  /** While an entry stays, no statement makes it less urgent or takes attempts back. */
  lemma EntriesOnlyGetMoreUrgent(q: QueueTable, s: Statement, op: BtcOutPoint, maxAttempts: nat)
    requires op in q && op in Execute(q, s, maxAttempts)
    ensures Execute(q, s, maxAttempts)[op].priority <= q[op].priority
    ensures Execute(q, s, maxAttempts)[op].attempts >= q[op].attempts
  {
    hide Backoff;
  }

  // ----- backoff: what it spaces, and what cancels it

  /** The entry for `op` is there throughout `[n, m]` and is not claimed in between. */
  predicate Waits(run: seq<Statement>, n: nat, m: nat, op: BtcOutPoint, maxAttempts: nat)
    requires n <= m <= |run|
  {
    && (forall k :: n <= k <= m ==> op in TableAfter(run, k, maxAttempts))
    && (forall k :: n <= k < m ==> !(run[k].Claimed? && op in run[k].picked))
  }

  /** Somebody queues `op` again at `run[k]`, before `due`. */
  predicate RequeuedEarly(run: seq<Statement>, k: nat, op: BtcOutPoint, due: int)
    requires k < |run|
  {
    run[k].Enqueued? && run[k].op == op && run[k].now < due
  }

  predicate RequeuedWithin(run: seq<Statement>, from: nat, to: nat, op: BtcOutPoint, due: int)
    requires from <= to <= |run|
  {
    exists k :: from <= k < to && RequeuedEarly(run, k, op, due)
  }

  lemma OneMoreRequeue(run: seq<Statement>, from: nat, to: nat, op: BtcOutPoint, due: int)
    requires from < to <= |run|
    ensures RequeuedWithin(run, from, to, op, due)
       <==> RequeuedWithin(run, from, to - 1, op, due) || RequeuedEarly(run, to - 1, op, due)
  {
    hide RequeuedEarly;
  }

  lemma {:induction false} DueWhileWaiting(run: seq<Statement>, n: nat, m: nat, op: BtcOutPoint, maxAttempts: nat)
    requires n <= m <= |run| && Waits(run, n, m, op, maxAttempts)
    ensures var due := TableAfter(run, n, maxAttempts)[op].nextAttemptAt;
            && TableAfter(run, m, maxAttempts)[op].nextAttemptAt <= due
            && (TableAfter(run, m, maxAttempts)[op].nextAttemptAt < due <==> RequeuedWithin(run, n, m, op, due))
    decreases m
  {
    hide Backoff, RequeuedWithin;
    if n == m {
      NoRequeue(run, n, op, TableAfter(run, n, maxAttempts)[op].nextAttemptAt);
    }
    if n < m {
      DueWhileWaiting(run, n, m - 1, op, maxAttempts);
      var due := TableAfter(run, n, maxAttempts)[op].nextAttemptAt;
      var last, row := TableAfter(run, m - 1, maxAttempts)[op], TableAfter(run, m, maxAttempts)[op];
      assert TableAfter(run, m, maxAttempts) == Execute(TableAfter(run, m - 1, maxAttempts), run[m - 1], maxAttempts);
      OneMoreRequeue(run, n, m, op, due);
      assert row.nextAttemptAt < due <==> last.nextAttemptAt < due || RequeuedEarly(run, m - 1, op, due);
    }
  }

  /**
   A claim promises `Backoff` before the next one. That holds, for as long as the entry waits, exactly when
   nobody queues it again before then: a worker that dies leaves it to wait, a failed refresh does not.
   */
  lemma BackoffHoldsExactly(run: seq<Statement>, n: nat, m: nat, op: BtcOutPoint, maxAttempts: nat)
    requires n < m <= |run| && run[n].Claimed? && op in run[n].picked && op in TableAfter(run, n, maxAttempts)
    requires Waits(run, n + 1, m, op, maxAttempts)
    ensures var due := run[n].at + Backoff(TableAfter(run, n, maxAttempts)[op].attempts);
            && due > run[n].at
            && (TableAfter(run, m, maxAttempts)[op].nextAttemptAt == due <==> !RequeuedWithin(run, n + 1, m, op, due))
  {
    hide Power2, RequeuedWithin, Waits;
    PowerGrows(TableAfter(run, n, maxAttempts)[op].attempts + 1);
    var due := run[n].at + Backoff(TableAfter(run, n, maxAttempts)[op].attempts);
    assert TableAfter(run, n + 1, maxAttempts) == Execute(TableAfter(run, n, maxAttempts), run[n], maxAttempts);
    assert TableAfter(run, n + 1, maxAttempts)[op].nextAttemptAt == due;
    DueWhileWaiting(run, n + 1, m, op, maxAttempts);
  }

  lemma NoRequeue(run: seq<Statement>, n: nat, op: BtcOutPoint, due: int)
    requires n <= |run|
    ensures !RequeuedWithin(run, n, n, op, due)
  {
  }

  lemma {:induction false} PowerGrows(n: nat)
    ensures Power2(n) >= 1
  {
    if n > 0 {
      PowerGrows(n - 1);
    }
  }

  /** The wait is two seconds after the first claim, doubles with every further one, and ends at five minutes. */
  lemma BackoffDoubles(n: nat)
    ensures Backoff(0) == 2
    ensures Backoff(n + 1) == if Backoff(n) < 150 then 2 * Backoff(n) else 300
  {
    assert Power2(1) == 2 * Power2(0);
    assert Power2(n + 2) == 2 * Power2(n + 1);
  }

  /** Whatever is picked, an entry that is due and comes before every other due one by priority, then by time, is. */
  lemma UrgentIsClaimed(q: QueueTable, picked: set<BtcOutPoint>, limit: nat, now: int, op: BtcOutPoint)
    requires ValidClaim(q, picked, limit, now) && limit > 0 && op in q && q[op].nextAttemptAt <= now
    requires forall p :: p in q && p != op && q[p].nextAttemptAt <= now ==>
               q[op].priority < q[p].priority || (q[op].priority == q[p].priority && q[op].nextAttemptAt < q[p].nextAttemptAt)
    ensures op in picked
  {
    if op !in picked {
      var p :| p in picked;
      assert MoreUrgent(q[op], q[p]);
    }
  }

  /** Claimed at 0 with a wait of two seconds, failed and queued again at 1: due at 1, and claimable at 1. */
  lemma BackoffCancelled(op: BtcOutPoint) returns (run: seq<Statement>)
    ensures |run| == 4 && run[2] == Claimed({op}, 0) && run[3] == Enqueued(op, ON_DEMAND, 1)
    ensures DropsBeforeClaims(run) && op in TableAfter(run, 2, 5) && op in TableAfter(run, 4, 5)
    ensures Backoff(TableAfter(run, 2, 5)[op].attempts) == 2 && TableAfter(run, 4, 5)[op].nextAttemptAt == 1
    ensures ValidClaim(TableAfter(run, 4, 5), {op}, 1, 1)
  {
    run := [Enqueued(op, ON_DEMAND, 0), Dropped, Claimed({op}, 0), Enqueued(op, ON_DEMAND, 1)];
    assert TableAfter(run, 0, 5) == map[];
    assert TableAfter(run, 1, 5) == map[op := QueueRow(ON_DEMAND, 0, 0)];
    assert TableAfter(run, 2, 5) == map[op := QueueRow(ON_DEMAND, 0, 0)];
    assert Power2(1) == 2 * Power2(0);
    assert TableAfter(run, 3, 5) == map[op := QueueRow(ON_DEMAND, 1, 2)];
    assert TableAfter(run, 4, 5) == map[op := QueueRow(ON_DEMAND, 1, 1)];
    assert DroppedSince(run, 2);
  }

  // ----- attempts left, summed over the entries

  function Left(row: QueueRow, maxAttempts: nat): nat {
    if row.attempts < maxAttempts then maxAttempts - row.attempts else 0
  }

  ghost function AttemptsLeftOver(q: QueueTable, maxAttempts: nat): nat
    decreases |q|
  {
    if q == map[] then 0
    else
      var op :| op in q;
      assert op !in q - {op} && (q - {op}).Keys == q.Keys - {op};
      Left(q[op], maxAttempts) + AttemptsLeftOver(q - {op}, maxAttempts)
  }

  /** The sum does not depend on the order of the entries. */
  lemma {:induction false} LeftOverSplits(q: QueueTable, op: BtcOutPoint, maxAttempts: nat)
    requires op in q
    ensures AttemptsLeftOver(q, maxAttempts) == Left(q[op], maxAttempts) + AttemptsLeftOver(q - {op}, maxAttempts)
    decreases |q|
  {
    var first :| first in q
      && AttemptsLeftOver(q, maxAttempts) == Left(q[first], maxAttempts) + AttemptsLeftOver(q - {first}, maxAttempts);
    assert (q - {first}).Keys == q.Keys - {first};
    if first != op {
      LeftOverSplits(q - {first}, op, maxAttempts);
      assert (q - {op}).Keys == q.Keys - {op};
      LeftOverSplits(q - {op}, first, maxAttempts);
      assert q - {first} - {op} == q - {op} - {first};
    }
  }

  /** If no entry has more left, and one named entry has less, the sum falls. */
  lemma {:induction false} LeftOverFalls(before: QueueTable, after: QueueTable, maxAttempts: nat)
    requires after.Keys <= before.Keys
    requires forall op :: op in after ==> Left(after[op], maxAttempts) <= Left(before[op], maxAttempts)
    ensures AttemptsLeftOver(after, maxAttempts) <= AttemptsLeftOver(before, maxAttempts)
    ensures (exists op :: op in before
               && (if op in after then Left(after[op], maxAttempts) else 0) < Left(before[op], maxAttempts))
            ==> AttemptsLeftOver(after, maxAttempts) < AttemptsLeftOver(before, maxAttempts)
    decreases |before|
  {
    if before == map[] {
      assert after == map[] by {
        assert after.Keys == {};
      }
    } else {
      var op :| op in before;
      var b, a := before - {op}, after - {op};
      assert b.Keys == before.Keys - {op} && a.Keys == after.Keys - {op};
      LeftOverSplits(before, op, maxAttempts);
      if op in after {
        LeftOverSplits(after, op, maxAttempts);
      } else {
        assert a == after;
      }
      LeftOverFalls(b, a, maxAttempts);
      if x :| x in before && (if x in after then Left(after[x], maxAttempts) else 0) < Left(before[x], maxAttempts) && x != op {
        assert x in b && (if x in a then Left(a[x], maxAttempts) else 0) < Left(b[x], maxAttempts);
      }
    }
  }

  /**
   Attempts left over all entries is a termination measure: every claim that follows a drop and picks
   anything lowers it, and no drop or completion raises it.
   */
  lemma ClaimsConsumeAttempts(q: QueueTable, picked: set<BtcOutPoint>, now: int, maxAttempts: nat)
    requires picked <= q.Keys && picked != {}
    requires forall op :: op in q ==> q[op].attempts < maxAttempts
    ensures AttemptsLeftOver(Claim(q, picked, now), maxAttempts) < AttemptsLeftOver(q, maxAttempts)
  {
    hide Backoff, AttemptsLeftOver;
    var op :| op in picked;
    var after := Claim(q, picked, now);
    assert op in q && op in after && Left(after[op], maxAttempts) < Left(q[op], maxAttempts);
    LeftOverFalls(q, after, maxAttempts);
  }

  lemma RemovalNeverRaises(q: QueueTable, op: BtcOutPoint, maxAttempts: nat)
    ensures AttemptsLeftOver(Complete(q, op), maxAttempts) <= AttemptsLeftOver(q, maxAttempts)
    ensures AttemptsLeftOver(DropExhausted(q, maxAttempts), maxAttempts) == AttemptsLeftOver(q, maxAttempts)
  {
    hide AttemptsLeftOver;
    LeftOverFalls(q, Complete(q, op), maxAttempts);
    DropKeepsSum(q, maxAttempts);
  }

  /** Exhausted entries have nothing left, so dropping them keeps the sum. */
  lemma {:induction false} DropKeepsSum(q: QueueTable, maxAttempts: nat)
    ensures AttemptsLeftOver(DropExhausted(q, maxAttempts), maxAttempts) == AttemptsLeftOver(q, maxAttempts)
    decreases |q|
  {
    if q == map[] {
      assert DropExhausted(q, maxAttempts) == map[];
    } else {
      var op :| op in q;
      LeftOverSplits(q, op, maxAttempts);
      DropAround(q, op, maxAttempts);
      DropKeepsSum(q - {op}, maxAttempts);
    }
  }

  lemma DropAround(q: QueueTable, op: BtcOutPoint, maxAttempts: nat)
    requires op in q
    ensures |q - {op}| < |q|
    ensures AttemptsLeftOver(DropExhausted(q, maxAttempts), maxAttempts)
         == Left(q[op], maxAttempts) + AttemptsLeftOver(DropExhausted(q - {op}, maxAttempts), maxAttempts)
  {
    hide AttemptsLeftOver;
    assert (q - {op}).Keys == q.Keys - {op};
    var dropped := DropExhausted(q, maxAttempts);
    if op in dropped {
      LeftOverSplits(dropped, op, maxAttempts);
      assert dropped - {op} == DropExhausted(q - {op}, maxAttempts);
    } else {
      assert dropped == DropExhausted(q - {op}, maxAttempts);
    }
  }
}
