// Which rows a start, a decision and a scan write, column by column, and that they write no others.

module Effects {
  import opened Rows
  import opened Json
  import opened StateMachine
  import opened Tables
  import opened Engine
  import opened Sla
  import opened Runs
  import opened Breaches

  /** A start stores one request at a step of order 1 of its workflow, one pending execution of it, which is due after the hours
      of that step, one history row and one audit entry. */
  lemma StartStores(db: Database, w: nat, requester: nat, data: Object, now: Time, enqueued: bool)
    returns (s: Step)
    requires Start(db, w, requester, data, now, enqueued).Ok?
    ensures s in db.defs.steps && s.workflowId == w && s.order == 1
    ensures Start(db, w, requester, data, now, enqueued).value
         == Database(
              db.defs,
              db.requests + [Request(|db.requests|, w, requester, Some(s.id), InProgress, data, None)],
              db.executions
              + [Execution(
                   |db.executions|, |db.requests|, s.id, PENDING, None, now, None, now + s.slaHours * 3_600_000_000, false,
                   Null, None)],
              db.history + [HistoryEntry(|db.requests|, Created, InProgress, Some(requester), Initiation)],
              db.audit + [WorkflowStarted(|db.requests|, Some(requester), w)],
              db.escalations)
  {
    s := FirstStep(db.defs, w).value;
  }

  /** The row of a closed execution: who decided, what, when, with which data, and the comment if there was one. */
  ghost predicate IsClosed(
    before: Execution, after: Execution, user: User, outcome: Label, decision: Option<Object>, now: Time)
  {
    && after.id == before.id
    && after.requestId == before.requestId
    && after.stepId == before.stepId
    && after.status == outcome
    && after.assignedTo == Some(user.id)
    && after.startedAt == before.startedAt
    && after.completedAt == Some(now)
    && after.deadline == before.deadline
    && after.breached == before.breached
    && after.decisionData == decision
    && (decision.Some? && "comment" in decision.value ==> after.comments == decision.value["comment"])
    && (decision == None || "comment" !in decision.value ==> after.comments == before.comments)
  }

  /** A decision closes one execution of the request, at its current step. If the request moves on, one pending execution of the
      next step is stored, which is due after the hours of that step. */
  lemma DecisionStores(db: Database, r: nat, user: User, outcome: Label, decision: Option<Object>, now: Time)
    returns (x: nat)
    requires Consistent(db) && Decide(db, r, user, outcome, decision, now).Ok?
    ensures x < |db.executions| && r < |db.requests|
    ensures var e, q := db.executions[x], db.requests[r];
            e.requestId == r && q.currentStep == Some(e.stepId) && e.completedAt.None?
    ensures var after := Decide(db, r, user, outcome, decision, now).value;
            && after.defs == db.defs
            && after.escalations == db.escalations
            && |after.requests| == |db.requests|
            && (forall i | 0 <= i < |db.requests| && i != r :: after.requests[i] == db.requests[i])
            && |after.executions| >= |db.executions|
            && (forall i | 0 <= i < |db.executions| && i != x :: after.executions[i] == db.executions[i])
            && IsClosed(db.executions[x], after.executions[x], user, outcome, decision, now)
            && var q, p := db.requests[r], after.requests[r];
               var verdict := if outcome == APPROVED then Approved else Rejected;
               var closing := StepCompleted(r, Some(user.id), x, db.executions[x].stepId, outcome);
               if p.currentStep.Some? then
                 && p == q.(currentStep := p.currentStep)
                 && p.currentStep.value < |db.defs.steps|
                 && after.executions[|db.executions|..]
                    == [Execution(
                          |db.executions|, r, p.currentStep.value, PENDING, None, now, None,
                          now + db.defs.steps[p.currentStep.value].slaHours * 3_600_000_000, false, Null, None)]
                 && after.history == db.history
                 && after.audit == db.audit + [closing]
               else
                 && p == q.(currentStep := None, status := Completed, completedAt := Some(now))
                 && |after.executions| == |db.executions|
                 && after.history
                    == db.history
                       + [HistoryEntry(r, q.status, verdict, Some(user.id), FinalOutcome(outcome)),
                          HistoryEntry(r, verdict, Completed, Some(user.id), Completion)]
                 && after.audit == db.audit + [WorkflowCompleted(r, Some(user.id), outcome), closing]
  {
    var e, next := DecideAdvances(db, r, user, outcome, decision, now);
    x := e.id;
  }

  ghost predicate IsOverdue(e: Execution, now: Time) {
    e.status in {PENDING, IN_PROGRESS} && e.deadline < now && !e.breached
  }

  /** An escalation of level 1 and a breach entry that belong to one overdue execution. */
  ghost predicate Escalates(db: Database, now: Time, x: Escalation, a: AuditEntry) {
    exists e <- db.executions ::
      && IsOverdue(e, now)
      && x == Escalation(e.id, 1, now)
      && a == SlaBreachDetected(e.requestId, e.id, e.deadline)
  }

  /** Some overdue execution has its e-mail enqueued. */
  ghost predicate Commits(db: Database, now: Time, failing: set<nat>) {
    exists e <- db.executions :: IsOverdue(e, now) && e.id !in failing
  }

  lemma ReportedIffCommits(db: Database, now: Time, failing: set<nat>)
    ensures Reported(db, now, failing) > 0 <==> Commits(db, now, failing)
  {
    var overdue := Filter(db.executions, Overdue(now));
    FilterMembers(db.executions, Overdue(now));
    FilterMembers(overdue, Delivered(failing));
    if Commits(db, now, failing) {
      var e :| e in db.executions && IsOverdue(e, now) && e.id !in failing;
      assert e in Filter(overdue, Delivered(failing));
    } else {
      FilterNone(overdue, Delivered(failing));
    }
  }

  /** A scan commits if and only if the e-mail of some overdue execution is enqueued. It then flags the overdue executions, all
      of them, and stores one escalation and one breach entry for each. */
  lemma ScanStores(db: Database, now: Time, failing: set<nat>)
    ensures var after := Scan(db, now, failing);
            if !Commits(db, now, failing) then after == db
            else
              && after.defs == db.defs
              && after.requests == db.requests
              && after.history == db.history
              && |after.executions| == |db.executions|
              && (forall i | 0 <= i < |db.executions| ::
                    var e := db.executions[i];
                    after.executions[i] == if IsOverdue(e, now) then e.(breached := true) else e)
              && db.escalations <= after.escalations
              && db.audit <= after.audit
              && var xs, entries := after.escalations[|db.escalations|..], after.audit[|db.audit|..];
                 && |xs| == |entries| == Count(db.executions, Overdue(now))
                 && forall k | 0 <= k < |xs| :: Escalates(db, now, xs[k], entries[k])
  {
    ReportedIffCommits(db, now, failing);
    if Commits(db, now, failing) {
      ScanRows(db, now, failing);
    }
  }

  lemma OverdueEscalates(db: Database, now: Time, k: nat)
    requires k < Count(db.executions, Overdue(now))
    ensures var e := Filter(db.executions, Overdue(now))[k]; Escalates(db, now, EscalationOf(now)(e), BreachEntry(e))
  {
    var overdue := Filter(db.executions, Overdue(now));
    FilterMembers(db.executions, Overdue(now));
    assert overdue[k] in overdue && IsOverdue(overdue[k], now);
  }

  lemma Appended<T>(xs: seq<T>, ys: seq<T>)
    ensures xs <= xs + ys && (xs + ys)[|xs|..] == ys
  {
  }

  lemma ScanRows(db: Database, now: Time, failing: set<nat>)
    requires Reported(db, now, failing) > 0
    ensures var after := Scan(db, now, failing);
            && db.escalations <= after.escalations
            && db.audit <= after.audit
            && var xs, entries := after.escalations[|db.escalations|..], after.audit[|db.audit|..];
               && |xs| == |entries| == Count(db.executions, Overdue(now))
               && forall k | 0 <= k < |xs| :: Escalates(db, now, xs[k], entries[k])
  {
    var overdue := Filter(db.executions, Overdue(now));
    var xs, entries := Map(overdue, EscalationOf(now)), Map(overdue, BreachEntry);
    Appended(db.escalations, xs);
    Appended(db.audit, entries);
    forall k | 0 <= k < |xs|
      ensures Escalates(db, now, xs[k], entries[k])
    {
      OverdueEscalates(db, now, k);
    }
  }

  /** In every reachable state each breach entry of the audit log names the request and the deadline of its execution. */
  lemma BreachEntriesTruthful(db: Database, a: AuditEntry)
    requires Reachable(db) && a in db.audit && a.SlaBreachDetected?
    ensures a.executionId < |db.executions|
    ensures a.requestId == db.executions[a.executionId].requestId
    ensures a.deadline == db.executions[a.executionId].deadline
  {
    ReachableCorresponds(db);
    FilterMembers(db.audit, IsBreachEntry());
    assert a in BreachEntries(db);
  }
}
