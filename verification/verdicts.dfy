/** The verifier's columns over whole runs (crates/store/src/transitions.rs `set_commitment_result`, `insert_transition_in`). */
module Verdicts {
  import opened Wrappers
  import opened Ckb
  import opened Rows
  import opened Tables
  import opened Scan
  import opened Runs

  /** What the verifier last said about `x` while it had a row. */
  ghost function LastVerdict(cfg: ScanConfig, events: seq<Event>, n: nat, x: H256): (Option<H256>, CommitmentStatus)
    requires ValidEvents(cfg, events) && n <= |events|
  {
    if n == 0 then (None, Unchecked)
    else
      match events[n - 1]
      case Verified(txHash, observed, status) =>
        if txHash == x && x in After(cfg, events, n - 1).transitions then (observed, status)
        else LastVerdict(cfg, events, n - 1, x)
      case Scanned(_, _) => LastVerdict(cfg, events, n - 1, x)
  }

  /** Rows stay, a row keeps its verdict, and a new one has none. */
  predicate KeepsVerdict(before: TransitionTable, after: TransitionTable, x: H256) {
    && (x in before ==> x in after && after[x].observedCommitment == before[x].observedCommitment
                        && after[x].commitmentStatus == before[x].commitmentStatus)
    && (x in after && x !in before ==> after[x].observedCommitment.None? && after[x].commitmentStatus == Unchecked)
  }

  lemma InsertsKeepVerdict(ts: TransitionTable, more: seq<NewTransition>, x: H256)
    ensures KeepsVerdict(ts, InsertTransitions(ts, more), x)
  {
    hide InsertTransitions;
    InsertTransitionsAt(ts, more, x);
  }

  lemma ScanKeepsVerdict(cfg: ScanConfig, db: Db, view: View, stop: Stop, x: H256)
    requires cfg.Valid() && view.Valid()
    ensures KeepsVerdict(db.transitions, Step(cfg, db, Scanned(view, stop)).transitions, x)
  {
    hide Round, InsertTransitions, KeepsVerdict, BuildBatch, CheckCanonical, CellsAfter, UpsertBlocks;
    NoCommitNoChange(cfg, db, view);
    InsertsKeepVerdict(db.transitions, [], x);
    NothingInserted(db.transitions);
    TransitionsAfter(cfg, db, view);
    if Commits(cfg, db, view) {
      CommitRange(cfg, db, view);
      AppliedIsCommitted(cfg, db, view);
      InsertsKeepVerdict(db.transitions, Round(cfg, db, view).outcome.batch.transitions, x);
    }
  }

  lemma NothingInserted(ts: TransitionTable)
    ensures InsertTransitions(ts, []) == ts
  {
  }

  lemma TransitionsAfter(cfg: ScanConfig, db: Db, view: View)
    requires cfg.Valid() && view.Valid()
    ensures Initialised(cfg, db).transitions == db.transitions && Round(cfg, db, view).progressed.transitions == db.transitions
  {
    hide BuildBatch, Applied, Pruned, CheckCanonical;
  }

  /**
   In every run a transition's verdict is what the verifier last said while the row was there, and unchecked if
   it said nothing: rounds, reorganisations refused, crashes and repeated inserts leave it alone.
   */
  lemma {:induction false} VerdictsAreTheVerifiers(cfg: ScanConfig, events: seq<Event>, n: nat, x: H256)
    requires ValidEvents(cfg, events) && n <= |events|
    ensures var ts := After(cfg, events, n).transitions;
            if x in ts then (ts[x].observedCommitment, ts[x].commitmentStatus) == LastVerdict(cfg, events, n, x)
            else LastVerdict(cfg, events, n, x) == (None, Unchecked)
  {
    hide ValidEvents, Round;
    if n > 0 {
      VerdictsAreTheVerifiers(cfg, events, n - 1, x);
      if events[n - 1].Scanned? {
        OneValidEvent(cfg, events, n - 1);
        ScanKeepsVerdict(cfg, After(cfg, events, n - 1), events[n - 1].view, events[n - 1].stop, x);
      }
    }
  }

  lemma OneValidEvent(cfg: ScanConfig, events: seq<Event>, i: nat)
    requires ValidEvents(cfg, events) && i < |events|
    ensures cfg.Valid() && (events[i].Scanned? ==> events[i].view.Valid())
  {
  }
}
