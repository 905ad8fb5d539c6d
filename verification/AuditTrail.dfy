// What the audit log and the status history say about a request, and that they say it all.

module AuditTrail {
  import opened Rows
  import opened StateMachine
  import opened Tables
  import opened Engine
  import opened Runs
  import opened Cases

  /** What a reader of the log alone can tell about a request. */
  datatype Replayed = Replayed(started: bool, steps: seq<(nat, Label)>, finished: Option<Label>)

  function Replay(entries: seq<AuditEntry>): Replayed {
    if entries == [] then Replayed(false, [], None)
    else
      var soFar := Replay(entries[..|entries| - 1]);
      match entries[|entries| - 1]
      case WorkflowStarted(_, _, _) => soFar.(started := true)
      case StepCompleted(_, _, _, step, outcome) => soFar.(steps := soFar.steps + [(step, outcome)])
      case WorkflowCompleted(_, _, outcome) => soFar.(finished := Some(outcome))
      case SlaBreachDetected(_, _, _) => soFar
  }

  function EntryOf(r: nat): AuditEntry -> bool {
    (a: AuditEntry) => a.requestId == r
  }

  /** The audit log of a request, SLA entries included. */
  function AuditLog(db: Database, r: nat): seq<AuditEntry> {
    Filter(db.audit, EntryOf(r))
  }

  function StepAndOutcome(): Execution -> (nat, Label) {
    (e: Execution) => (e.stepId, e.status)
  }

  lemma {:induction false} ReplaySkipsSla(audit: seq<AuditEntry>, r: nat)
    ensures Replay(Filter(audit, EntryOf(r))) == Replay(Filter(audit, LedgerOf(r)))
  {
    if audit != [] {
      ReplaySkipsSla(audit[..|audit| - 1], r);
    }
  }

  lemma ReplayAppend(entries: seq<AuditEntry>, a: AuditEntry)
    ensures (entries + [a])[..|entries|] == entries
  {
  }

  lemma {:induction false} ReplayClosings(q: Request, es: seq<Execution>)
    ensures Replay([StartEntry(q)] + ClosingEntries(es)) == Replayed(true, Map(es, StepAndOutcome()), None)
  {
    if es == [] {
      assert [StartEntry(q)] + ClosingEntries(es) == [StartEntry(q)];
      assert Replay([]) == Replayed(false, [], None);
    } else {
      var front, last := es[..|es| - 1], es[|es| - 1];
      ReplayClosings(q, front);
      var entries := [StartEntry(q)] + ClosingEntries(front);
      assert [StartEntry(q)] + ClosingEntries(es) == entries + [ClosingEntry(last)];
      ReplayAppend(entries, ClosingEntry(last));
      assert Map(es, StepAndOutcome()) == Map(front, StepAndOutcome()) + [StepAndOutcome()(last)];
    }
  }

  lemma ReplayFinished(q: Request, front: seq<Execution>, last: Execution)
    ensures Replay([StartEntry(q)] + ClosingEntries(front)
                   + [WorkflowCompleted(q.id, last.assignedTo, last.status), ClosingEntry(last)])
         == Replayed(true, Map(front + [last], StepAndOutcome()), Some(last.status))
  {
    var entries := [StartEntry(q)] + ClosingEntries(front);
    var completed := WorkflowCompleted(q.id, last.assignedTo, last.status);
    ReplayClosings(q, front);
    ReplayAppend(entries, completed);
    ReplayAppend(entries + [completed], ClosingEntry(last));
    assert entries + [completed, ClosingEntry(last)] == (entries + [completed]) + [ClosingEntry(last)];
    assert Map(front + [last], StepAndOutcome()) == Map(front, StepAndOutcome()) + [StepAndOutcome()(last)];
  }

  /** What `Replay` should find for a case. */
  function Summary(c: Case): Replayed {
    Replayed(
      true,
      Map(Decided(c), StepAndOutcome()),
      if c.request.status == Completed && c.executions != [] then Some(Last(c).status) else None)
  }

  lemma LedgerReplays(d: Definitions, c: Case)
    requires CaseInvariant(d, c)
    ensures Replay(c.ledger) == Summary(c)
  {
    var front := c.executions[..|c.executions| - 1];
    if IsOpen(c) {
      ReplayClosings(c.request, front);
    } else {
      ReplayFinished(c.request, front, Last(c));
      assert c.executions == front + [Last(c)];
    }
  }

  /** Folding the audit log of a request gives back the steps and outcomes that were decided, in order, whether the request is
      done, and with which outcome. */
  lemma ReplayRebuilds(db: Database, r: nat)
    requires Reachable(db) && r < |db.requests|
    ensures Replay(AuditLog(db, r)) == Summary(CaseOf(db, r))
  {
    ReachableInvariant(db);
    ReplaySkipsSla(db.audit, r);
    LedgerReplays(db.defs, CaseOf(db, r));
  }

  /** Without its SLA entries the log is STARTED STEP* while the request is open, and STARTED STEP* COMPLETED STEP once
      done. */
  lemma LedgerShape(db: Database, r: nat)
    requires Reachable(db) && r < |db.requests|
    ensures var log := CaseOf(db, r).ledger;
            var n := |Decided(CaseOf(db, r))|;
            var done := db.requests[r].status == Completed;
            && |log| == 1 + n + (if done then 1 else 0)
            && log[0].WorkflowStarted?
            && (forall i | 0 < i < |log| ::
                  if done && i == |log| - 2 then log[i].WorkflowCompleted? else log[i].StepCompleted?)
  {
    ReachableInvariant(db);
    assert CaseInvariant(db.defs, CaseOf(db, r));
  }

  // ---------------------------------------------------------------- history

  function ToStatus(): HistoryEntry -> Status {
    (h: HistoryEntry) => h.to
  }

  /** The statuses that a history records, from the first `from` on. */
  function Statuses(history: seq<HistoryEntry>): seq<Status>
    requires history != []
  {
    [history[0].from] + Map(history, ToStatus())
  }

  /** A path of the status machine with matching ends from Created to the current status. It has one entry while the request
      is open and three once it is done, and then it passes Approved exactly when the last decision was APPROVED, and
      Rejected otherwise. */
  ghost predicate HistoryFits(c: Case) {
    && c.history != []
    && (forall i | 0 < i < |c.history| :: c.history[i - 1].to == c.history[i].from)
    && var path := Statuses(c.history);
       && IsPath(path)
       && path[0] == Created
       && path[|path| - 1] == c.request.status
       && |c.history| == (if c.request.status == Completed then 3 else 1)
       && (c.request.status == Completed ==>
             && c.executions != []
             && (Approved in path <==> Last(c).status == APPROVED)
             && (Rejected in path <==> Last(c).status != APPROVED))
  }

  lemma CaseHistoryFits(d: Definitions, c: Case)
    requires CaseInvariant(d, c)
    ensures HistoryFits(c)
  {
    var path := Statuses(c.history);
    if IsOpen(c) {
      assert path == [Created, InProgress];
    } else {
      var final := FinalStatus(Last(c).status);
      assert path == [Created, InProgress, final, Completed];
      assert path[2] == final;
    }
  }

  lemma HistoryIsPath(db: Database, r: nat)
    requires Reachable(db) && r < |db.requests|
    ensures HistoryFits(CaseOf(db, r))
  {
    ReachableInvariant(db);
    CaseHistoryFits(db.defs, CaseOf(db, r));
  }
}
