/**
 The drain worker as a sequence of statements (crates/indexer/src/reconcile.rs `run_queue_worker`,
 `drain_queue_once`), with everybody else queueing in between.
 */
module Drains {
  import opened Protocol
  import opened Queue
  import opened Reconcile

  /** One drain, as far as it got: it may die before the claim or anywhere after it. */
  datatype Drain =
    | OnlyDropped
    | Claiming(picked: set<BtcOutPoint>, at: int, rest: seq<Statement>)
  {
    /** After its claim, a drain only completes and queues. */
    predicate Valid() {
      Claiming? ==> forall i :: 0 <= i < |rest| ==> rest[i].Completed? || rest[i].Enqueued?
    }

    function Statements(): seq<Statement> {
      match this
      case OnlyDropped => [Dropped]
      case Claiming(picked, at, rest) => [Dropped, Claimed(picked, at)] + rest
    }
  }

  /** The worker's statements: one drain after the other. */
  function Worker(drains: seq<Drain>): seq<Statement> {
    if drains == [] then [] else Worker(drains[..|drains| - 1]) + drains[|drains| - 1].Statements()
  }

  /** `run` is the worker's statements with other people's enqueues anywhere among them. */
  ghost predicate Interleaves(run: seq<Statement>, worker: seq<Statement>) {
    if run == [] then worker == []
    else
      var n, m := |run| - 1, |worker| - 1;
      || (run[n].Enqueued? && Interleaves(run[..n], worker))
      || (worker != [] && run[n] == worker[m] && Interleaves(run[..n], worker[..m]))
  }

  lemma {:induction false} PrefixDropped(run: seq<Statement>, k: nat, n: nat)
    requires n <= k <= |run|
    ensures DroppedSince(run[..k], n) <==> DroppedSince(run, n)
  {
    if n > 0 {
      PrefixDropped(run, k, n - 1);
    }
  }

  /** Between two claims the worker drops. */
  lemma {:induction false} InterleavedDrops(run: seq<Statement>, worker: seq<Statement>)
    requires Interleaves(run, worker) && DropsBeforeClaims(worker)
    ensures DropsBeforeClaims(run)
    ensures DroppedSince(worker, |worker|) ==> DroppedSince(run, |run|)
    decreases |run|
  {
    hide DropsBeforeClaims;
    if run == [] {
      NoClaims(run);
    } else {
      var n, m := |run| - 1, |worker| - 1;
      if run[n].Enqueued? && Interleaves(run[..n], worker) {
        InterleavedDrops(run[..n], worker);
        PrefixDropped(run, n, n);
      } else {
        DropsInFront(worker, m);
        InterleavedDrops(run[..n], worker[..m]);
        PrefixDropped(worker, m, m);
        PrefixDropped(run, n, n);
        ClaimNeedsDrop(worker);
      }
      OneMoreStatement(run);
    }
  }

  lemma NoClaims(run: seq<Statement>)
    requires run == []
    ensures DropsBeforeClaims(run)
  {
  }

  lemma DropsInFront(run: seq<Statement>, k: nat)
    requires DropsBeforeClaims(run) && k <= |run|
    ensures DropsBeforeClaims(run[..k])
  {
    hide DroppedSince;
    forall n | 0 <= n < k && run[..k][n].Claimed?
      ensures DroppedSince(run[..k], n)
    {
      PrefixDropped(run, k, n);
    }
  }

  lemma ClaimNeedsDrop(run: seq<Statement>)
    requires DropsBeforeClaims(run) && run != []
    ensures run[|run| - 1].Claimed? ==> DroppedSince(run, |run| - 1)
  {
  }

  lemma OneMoreStatement(run: seq<Statement>)
    requires run != [] && DropsBeforeClaims(run[..|run| - 1])
    requires run[|run| - 1].Claimed? ==> DroppedSince(run, |run| - 1)
    ensures DropsBeforeClaims(run)
  {
    hide DroppedSince;
    var m := |run| - 1;
    forall n | 0 <= n < |run| && run[n].Claimed?
      ensures DroppedSince(run, n)
    {
      if n < m {
        assert run[..m][n].Claimed?;
        PrefixDropped(run, m, n);
      }
    }
  }

  /** Appending statements that do not claim. */
  lemma {:induction false} AppendQuiet(run: seq<Statement>, more: seq<Statement>)
    requires DropsBeforeClaims(run) && forall i :: 0 <= i < |more| ==> !more[i].Claimed?
    ensures DropsBeforeClaims(run + more)
    decreases |more|
  {
    hide DropsBeforeClaims;
    if more == [] {
      assert run + more == run;
    } else {
      var n := |more| - 1;
      AppendQuiet(run, more[..n]);
      assert (run + more)[..|run| + n] == run + more[..n];
      OneMoreStatement(run + more);
    }
  }

  lemma OneDrainDrops(front: seq<Statement>, drain: Drain)
    requires DropsBeforeClaims(front) && drain.Valid()
    ensures DropsBeforeClaims(front + drain.Statements())
  {
    hide DropsBeforeClaims;
    AppendQuiet(front, [Dropped]);
    if drain.Claiming? {
      var dropped := front + [Dropped];
      AppendClaim(dropped, drain.picked, drain.at);
      AppendQuiet(dropped + [Claimed(drain.picked, drain.at)], drain.rest);
      assert dropped + [Claimed(drain.picked, drain.at)] + drain.rest == front + drain.Statements();
    }
  }

  lemma AppendClaim(run: seq<Statement>, picked: set<BtcOutPoint>, at: int)
    requires DropsBeforeClaims(run) && run != [] && run[|run| - 1] == Dropped
    ensures DropsBeforeClaims(run + [Claimed(picked, at)])
  {
    hide DropsBeforeClaims;
    var claimed := run + [Claimed(picked, at)];
    assert claimed[..|run|] == run;
    assert claimed[|run| - 1] == Dropped;
    OneMoreStatement(claimed);
  }

  lemma {:induction false} WorkerDrops(drains: seq<Drain>)
    requires forall i :: 0 <= i < |drains| ==> drains[i].Valid()
    ensures DropsBeforeClaims(Worker(drains))
  {
    hide DropsBeforeClaims, Drain.Statements, Drain.Valid;
    if drains == [] {
      NoClaims([]);
    } else {
      var n := |drains| - 1;
      WorkerDrops(drains[..n]);
      OneDrainDrops(Worker(drains[..n]), drains[n]);
    }
  }

  /**
   Whatever the worker's drains do after their claims, wherever they die, and whatever others queue in
   between: no entry is claimed more often than `max_attempts` allows.
   */
  lemma DrainsClaimAtMost(run: seq<Statement>, drains: seq<Drain>, n: nat, op: BtcOutPoint, maxAttempts: nat)
    requires forall i :: 0 <= i < |drains| ==> drains[i].Valid()
    requires Interleaves(run, Worker(drains)) && n <= |run| && op in TableAfter(run, n, maxAttempts)
    ensures Claims(run, n, op, maxAttempts) <= MostClaims(maxAttempts)
  {
    hide TableAfter, Claims, DropsBeforeClaims, Interleaves;
    WorkerDrops(drains);
    InterleavedDrops(run, Worker(drains));
    ClaimedAtMostMaxTimes(run, n, op, maxAttempts);
  }

  // ----- a drain method is such a sequence

  function Completes(ops: seq<BtcOutPoint>): seq<Statement> {
    seq(|ops|, i requires 0 <= i < |ops| => Completed(ops[i]))
  }

  function Requeues(ops: seq<BtcOutPoint>, now: int): seq<Statement> {
    seq(|ops|, i requires 0 <= i < |ops| => Enqueued(ops[i], ON_DEMAND, now))
  }

  /** The table after a list of statements. */
  function Run(q: QueueTable, statements: seq<Statement>, maxAttempts: nat): QueueTable {
    if statements == [] then q
    else
      var n := |statements| - 1;
      Execute(Run(q, statements[..n], maxAttempts), statements[n], maxAttempts)
  }

  lemma {:induction false} RunAppend(q: QueueTable, a: seq<Statement>, b: seq<Statement>, maxAttempts: nat)
    ensures Run(q, a + b, maxAttempts) == Run(Run(q, a, maxAttempts), b, maxAttempts)
    decreases |b|
  {
    hide Execute;
    if b == [] {
      assert a + b == a;
    } else {
      var n := |b| - 1;
      assert (a + b)[..|a| + n] == a + b[..n];
      RunAppend(q, a, b[..n], maxAttempts);
    }
  }

  lemma {:induction false} RunCompletes(q: QueueTable, ops: seq<BtcOutPoint>, maxAttempts: nat)
    ensures Run(q, Completes(ops), maxAttempts) == q - Elements(ops)
  {
    if ops == [] {
      assert q - Elements(ops) == q;
    } else {
      var n := |ops| - 1;
      assert Completes(ops)[..n] == Completes(ops[..n]);
      RunCompletes(q, ops[..n], maxAttempts);
      assert ops == ops[..n] + [ops[n]];
      assert Elements(ops) == Elements(ops[..n]) + {ops[n]};
      assert q - Elements(ops[..n]) - {ops[n]} == q - Elements(ops);
    }
  }

  lemma {:induction false} RunRequeues(q: QueueTable, ops: seq<BtcOutPoint>, maxAttempts: nat, now: int)
    ensures Run(q, Requeues(ops, now), maxAttempts) == Requeued(q, Elements(ops), now)
  {
    hide Enqueue;
    if ops == [] {
      assert Requeued(q, {}, now) == q;
    } else {
      var n := |ops| - 1;
      assert Requeues(ops, now)[..n] == Requeues(ops[..n], now);
      RunRequeues(q, ops[..n], maxAttempts, now);
      RequeueOne(q, Elements(ops[..n]), ops[n], now);
      assert ops == ops[..n] + [ops[n]];
      assert Elements(ops) == Elements(ops[..n]) + {ops[n]};
    }
  }

  /** What a drain does after its claim: clear what is known, queue what fails, and clear what was answered if it gets there. */
  function Tail(known: seq<BtcOutPoint>, again: seq<BtcOutPoint>, answered: seq<BtcOutPoint>, now: int): seq<Statement> {
    Completes(known) + Requeues(again, now) + Completes(answered)
  }

  /**
   Both queues `DrainQueueOnce` promises, the completed and the broken-off one, are what the statements of a
   valid drain leave. So the bound on claims covers its every call.
   */
  lemma DrainIsItsStatements(q: QueueTable, batch: seq<BtcOutPoint>, maxAttempts: nat, now: int,
                             known: seq<BtcOutPoint>, again: seq<BtcOutPoint>, answered: seq<BtcOutPoint>)
    ensures var drain := Claiming(Elements(batch), now, Tail(known, again, answered, now));
            && drain.Valid()
            && Run(q, drain.Statements(), maxAttempts)
               == Requeued(AfterClaim(q, batch, maxAttempts, now) - Elements(known), Elements(again), now) - Elements(answered)
            && (Elements(again) == Elements(batch) - Elements(known) - Elements(answered) ==>
                  Run(q, drain.Statements(), maxAttempts)
                  == Drained(q, batch, maxAttempts, now, Elements(known), Elements(answered)))
  {
    hide Requeued, Claim, DropExhausted, Run, Completes, Requeues;
    var first := [Dropped, Claimed(Elements(batch), now)];
    RunFirst(q, Elements(batch), maxAttempts, now);
    RunAppend(q, first, Tail(known, again, answered, now), maxAttempts);
    var claimed := AfterClaim(q, batch, maxAttempts, now);
    RunAppend(claimed, Completes(known) + Requeues(again, now), Completes(answered), maxAttempts);
    RunAppend(claimed, Completes(known), Requeues(again, now), maxAttempts);
    RunCompletes(claimed, known, maxAttempts);
    RunRequeues(claimed - Elements(known), again, maxAttempts, now);
    RunCompletes(Requeued(claimed - Elements(known), Elements(again), now), answered, maxAttempts);
    TailIsQuiet(known, again, answered, now);
  }

  lemma TailIsQuiet(known: seq<BtcOutPoint>, again: seq<BtcOutPoint>, answered: seq<BtcOutPoint>, now: int)
    ensures forall i :: 0 <= i < |Tail(known, again, answered, now)| ==>
              Tail(known, again, answered, now)[i].Completed? || Tail(known, again, answered, now)[i].Enqueued?
  {
  }

  lemma RunFirst(q: QueueTable, picked: set<BtcOutPoint>, maxAttempts: nat, now: int)
    ensures Run(q, [Dropped, Claimed(picked, now)], maxAttempts) == Claim(DropExhausted(q, maxAttempts), picked, now)
  {
    hide Claim, DropExhausted;
    var both := [Dropped, Claimed(picked, now)];
    assert both[..1] == [Dropped] && [Dropped][..0] == [];
    assert Run(q, [Dropped], maxAttempts) == Execute(Run(q, [], maxAttempts), Dropped, maxAttempts);
  }
}
