// The rows of one request, and the invariant they satisfy in every reachable state.

module Cases {
  import opened Rows
  import opened Json
  import opened StateMachine
  import opened Tables
  import opened Engine
  import opened Sla
  import opened Compiler
  import opened Runs

  /** One request seen on its own. The ledger is its audit log without the SLA entries. */
  datatype Case = Case(
    request: Request,
    executions: seq<Execution>,
    history: seq<HistoryEntry>,
    ledger: seq<AuditEntry>)

  function ExecutionOf(r: nat): Execution -> bool {
    (e: Execution) => e.requestId == r
  }

  function HistoryOf(r: nat): HistoryEntry -> bool {
    (h: HistoryEntry) => h.requestId == r
  }

  function LedgerOf(r: nat): AuditEntry -> bool {
    (a: AuditEntry) => a.requestId == r && !a.SlaBreachDetected?
  }

  function CaseOf(db: Database, r: nat): Case
    requires r < |db.requests|
  {
    Case(
      db.requests[r],
      Filter(db.executions, ExecutionOf(r)),
      Filter(db.history, HistoryOf(r)),
      Filter(db.audit, LedgerOf(r)))
  }

  function Last(c: Case): Execution
    requires c.executions != []
  {
    c.executions[|c.executions| - 1]
  }

  /** The executions that a decision has closed, in order. */
  function Decided(c: Case): seq<Execution> {
    if c.executions == [] then []
    else if Last(c).completedAt.Some? then c.executions
    else c.executions[..|c.executions| - 1]
  }

  // ------------------------------------------------- the walk of a request

  function Successor(d: Definitions, q: Request, e: Execution): Option<nat> {
    Next(d.transitions, e.stepId, e.status, EvalContext(q.data, e.decisionData))
  }

  /** `f` was opened when `e` closed, at the step that the decision on `e` leads to. */
  ghost predicate Follows(d: Definitions, q: Request, e: Execution, f: Execution) {
    && e.completedAt == Some(f.startedAt)
    && e.assignedTo.Some?
    && Successor(d, q, e) == Some(f.stepId)
  }

  ghost predicate Located(d: Definitions, q: Request, e: Execution) {
    && e.requestId == q.id
    && e.stepId < |d.steps|
    && d.steps[e.stepId].workflowId == q.workflowId
    && e.deadline == e.startedAt + d.steps[e.stepId].slaHours * HOUR
  }

  /** The executions start at an order-1 step, stay in the request's workflow and follow its transitions. */
  ghost predicate Walk(d: Definitions, q: Request, es: seq<Execution>) {
    && |es| > 0
    && FirstStep(d, q.workflowId).Some?
    && es[0].stepId == FirstStep(d, q.workflowId).value.id
    && (forall k | 0 <= k < |es| :: Located(d, q, es[k]))
    && (forall k | 0 < k < |es| :: Follows(d, q, es[k - 1], es[k]))
  }

  lemma EarlierClosed(d: Definitions, q: Request, es: seq<Execution>)
    requires Walk(d, q, es)
    ensures forall k | 0 <= k < |es| - 1 :: es[k].completedAt.Some? && es[k].assignedTo.Some?
  {
    forall k | 0 <= k < |es| - 1
      ensures es[k].completedAt.Some? && es[k].assignedTo.Some?
    {
      assert Follows(d, q, es[(k + 1) - 1], es[k + 1]);
    }
  }

  // ---------------------------------------------------------- the log books

  function StartEntry(q: Request): AuditEntry {
    WorkflowStarted(q.id, Some(q.requester), q.workflowId)
  }

  function StartHistory(q: Request): HistoryEntry {
    HistoryEntry(q.id, Created, InProgress, Some(q.requester), Initiation)
  }

  function ClosingEntries(es: seq<Execution>): seq<AuditEntry> {
    Map(es, ClosingEntry)
  }

  ghost predicate IsOpen(c: Case)
    requires c.executions != []
  {
    && c.request.status == InProgress
    && c.request.currentStep == Some(Last(c).stepId)
    && c.request.completedAt.None?
    && Last(c).completedAt.None?
    && Last(c).status == PENDING
    && c.history == [StartHistory(c.request)]
    && c.ledger == [StartEntry(c.request)] + ClosingEntries(c.executions[..|c.executions| - 1])
  }

  ghost predicate IsDone(d: Definitions, c: Case)
    requires c.executions != []
  {
    var last := Last(c);
    && c.request.status == Completed
    && c.request.currentStep.None?
    && last.completedAt.Some?
    && last.assignedTo.Some?
    && c.request.completedAt == last.completedAt
    && Successor(d, c.request, last) == None
    && c.history == [
         StartHistory(c.request),
         HistoryEntry(c.request.id, InProgress, FinalStatus(last.status), last.assignedTo, FinalOutcome(last.status)),
         HistoryEntry(c.request.id, FinalStatus(last.status), Completed, last.assignedTo, Completion)]
    && c.ledger
       == [StartEntry(c.request)] + ClosingEntries(c.executions[..|c.executions| - 1])
          + [WorkflowCompleted(c.request.id, last.assignedTo, last.status), ClosingEntry(last)]
  }

  ghost predicate CaseInvariant(d: Definitions, c: Case) {
    && Walk(d, c.request, c.executions)
    && (IsOpen(c) || IsDone(d, c))
  }

  ghost predicate Invariant(db: Database) {
    && Consistent(db)
    && forall r: nat | r < |db.requests| :: CaseInvariant(db.defs, CaseOf(db, r))
  }

  // ------------------------------------------------------- what is preserved

  /** `e` has everything that `d` has, and the steps of `d` have the same entry points and successors in both. */
  ghost predicate Extends(d: Definitions, e: Definitions) {
    && |d.workflows| <= |e.workflows|
    && d.steps <= e.steps
    && (forall w: nat | w < |d.workflows| :: FirstStep(e, w) == FirstStep(d, w))
    && (forall s: nat, outcome, context | s < |d.steps| ::
          Next(e.transitions, s, outcome, context) == Next(d.transitions, s, outcome, context))
  }

  lemma InstalledExtends(d: Definitions, spec: WorkflowSpec)
    requires DefinitionsConsistent(d)
    ensures Extends(d, Installed(d, spec))
  {
    var e := Installed(d, spec);
    var newSteps := StepRows(spec.steps, |d.workflows|, |d.steps|);
    var newRows := TransitionRows(spec.transitions, StepIds(spec.steps, |d.steps|));
    TransitionRowsWithin(spec.steps, |d.steps|, spec.transitions);
    forall w: nat | w < |d.workflows|
      ensures FirstStep(e, w) == FirstStep(d, w)
    {
      FirstWhereConcat(d.steps, newSteps, EntryStep(w));
    }
    forall s: nat, outcome, context | s < |d.steps|
      ensures Next(e.transitions, s, outcome, context) == Next(d.transitions, s, outcome, context)
    {
      FirstWhereConcat(d.transitions, newRows, Fires(s, outcome, context));
      assert FirstWhere(newRows, Fires(s, outcome, context)) == None;
    }
  }

  /** A walk through the definitions of `d` is a walk through those of `e`. */
  lemma WalkExtends(d: Definitions, e: Definitions, q: Request, es: seq<Execution>)
    requires DefinitionsConsistent(d) && Extends(d, e) && Walk(d, q, es)
    ensures q.workflowId < |d.workflows|
    ensures Walk(e, q, es)
  {
    forall k | 0 <= k < |es|
      ensures Located(e, q, es[k])
    {
      assert Located(d, q, es[k]);
      assert e.steps[es[k].stepId] == d.steps[es[k].stepId];
    }
    forall k | 0 < k < |es|
      ensures Follows(e, q, es[k - 1], es[k])
    {
      assert Located(d, q, es[k - 1]) && Follows(d, q, es[k - 1], es[k]);
    }
    assert Located(d, q, es[0]);
  }

  lemma CaseExtends(d: Definitions, e: Definitions, c: Case)
    requires DefinitionsConsistent(d) && Extends(d, e) && CaseInvariant(d, c)
    ensures CaseInvariant(e, c)
  {
    WalkExtends(d, e, c.request, c.executions);
    assert Located(d, c.request, Last(c));
  }

  lemma CreateKeeps(db: Database, spec: WorkflowSpec)
    requires Invariant(db) && Create(db, spec).Ok?
    ensures Invariant(Create(db, spec).value)
  {
    var after := Create(db, spec).value;
    InstalledConsistent(db.defs, spec);
    InstalledExtends(db.defs, spec);
    forall r: nat | r < |after.requests|
      ensures CaseInvariant(after.defs, CaseOf(after, r))
    {
      assert CaseOf(after, r) == CaseOf(db, r);
      CaseExtends(db.defs, after.defs, CaseOf(db, r));
    }
  }

  /** A start adds one case, made of one row in each table, and leaves every other case alone. */
  lemma StartedCases(db: Database, w: nat, requester: nat, data: Object, now: Time)
    requires Consistent(db) && Start(db, w, requester, data, now, true).Ok?
    ensures var after := Start(db, w, requester, data, now, true).value;
            var id := |db.requests|;
            && |after.requests| == id + 1
            && (forall r: nat | r < id :: CaseOf(after, r) == CaseOf(db, r))
            && CaseOf(after, id)
               == Case(
                 Request(id, w, requester, Some(FirstStep(db.defs, w).value.id), InProgress, data, None),
                 [Opened(|db.executions|, id, FirstStep(db.defs, w).value, now)],
                 [HistoryEntry(id, Created, InProgress, Some(requester), Initiation)],
                 [WorkflowStarted(id, Some(requester), w)])
  {
    var id := |db.requests|;
    var e := Opened(|db.executions|, id, FirstStep(db.defs, w).value, now);
    var h := HistoryEntry(id, Created, InProgress, Some(requester), Initiation);
    var a := WorkflowStarted(id, Some(requester), w);
    forall r: nat | r <= id
      ensures Filter(db.executions + [e], ExecutionOf(r))
           == Filter(db.executions, ExecutionOf(r)) + if r == id then [e] else []
      ensures Filter(db.history + [h], HistoryOf(r)) == Filter(db.history, HistoryOf(r)) + if r == id then [h] else []
      ensures Filter(db.audit + [a], LedgerOf(r)) == Filter(db.audit, LedgerOf(r)) + if r == id then [a] else []
    {
      FilterAppend(db.executions, e, ExecutionOf(r));
      FilterAppend(db.history, h, HistoryOf(r));
      FilterAppend(db.audit, a, LedgerOf(r));
    }
    FilterNone(db.executions, ExecutionOf(id));
    FilterNone(db.history, HistoryOf(id));
    FilterNone(db.audit, LedgerOf(id));
  }

  lemma StartKeeps(db: Database, w: nat, requester: nat, data: Object, now: Time)
    requires Invariant(db) && Start(db, w, requester, data, now, true).Ok?
    ensures Invariant(Start(db, w, requester, data, now, true).value)
  {
    var after := Start(db, w, requester, data, now, true).value;
    StartConsistent(db, w, requester, data, now, true);
    StartedCases(db, w, requester, data, now);
    forall r: nat | r < |after.requests|
      ensures CaseInvariant(after.defs, CaseOf(after, r))
    {
      if r < |db.requests| {
        assert CaseInvariant(db.defs, CaseOf(db, r));
      } else {
        NewCaseKeeps(after.defs, CaseOf(after, r), now);
      }
    }
  }

  lemma NewCaseKeeps(d: Definitions, c: Case, now: Time)
    requires DefinitionsConsistent(d)
    requires FirstStep(d, c.request.workflowId).Some?
    requires var first := FirstStep(d, c.request.workflowId).value;
             && c.request.status == InProgress
             && c.request.currentStep == Some(first.id)
             && c.request.completedAt.None?
             && |c.executions| == 1
             && c.executions[0] == Opened(c.executions[0].id, c.request.id, first, now)
             && c.history == [StartHistory(c.request)]
             && c.ledger == [StartEntry(c.request)]
    ensures CaseInvariant(d, c)
  {
    assert Located(d, c.request, c.executions[0]);
    assert ClosingEntries(c.executions[..0]) == [];
  }

  /** An execution that is still open belongs to a request in progress, and is the last one of that request. */
  lemma OpenIsLast(db: Database, e: Execution)
    requires Invariant(db) && e in db.executions && e.completedAt.None?
    ensures e.requestId < |db.requests|
    ensures var c := CaseOf(db, e.requestId);
            && c.executions != []
            && e == Last(c)
            && IsOpen(c)
  {
    var c := CaseOf(db, e.requestId);
    assert CaseInvariant(db.defs, c);
    FilterMembers(db.executions, ExecutionOf(e.requestId));
    var k :| 0 <= k < |c.executions| && c.executions[k] == e;
    EarlierClosed(db.defs, c.request, c.executions);
  }

  /** The query for the open execution finds one exactly for the requests in progress. */
  lemma CurrentIsLast(db: Database, r: nat)
    requires Invariant(db) && r < |db.requests|
    ensures CaseOf(db, r).executions != []
    ensures CurrentExecution(db, db.requests[r])
         == if db.requests[r].status == InProgress then Some(Last(CaseOf(db, r))) else None
  {
    var c := CaseOf(db, r);
    assert CaseInvariant(db.defs, c);
    FilterMembers(db.executions, ExecutionOf(r));
    assert Last(c) in c.executions;
    var found := CurrentExecution(db, db.requests[r]);
    if c.request.status == InProgress {
      assert Located(db.defs, c.request, Last(c));
      assert OpenAt(r, Last(c).stepId)(Last(c));
      assert found.Some?;
    }
    if found.Some? {
      OpenIsLast(db, found.value);
    }
  }

  /** In a reachable state only these errors can occur: the status machine never refuses, so nothing raises between the
      authority check and the flush, and with a storable outcome every authorised decision on a request in progress
      succeeds. */
  lemma DecisionVerdict(
      db: Database, r: nat, user: User, outcome: Label, decision: Option<Object>, now: Time)
    requires Invariant(db)
    ensures r < |db.requests| ==> CaseOf(db, r).executions != [] && Last(CaseOf(db, r)).stepId < |db.defs.steps|
    ensures var result := Decide(db, r, user, outcome, decision, now);
            if r >= |db.requests| then result == Err(RequestNotFound)
            else if db.requests[r].status != InProgress then result == Err(NoPendingStep)
            else if !MayAct(user, db.defs.steps[Last(CaseOf(db, r)).stepId]) then result == Err(PermissionDenied)
            else if outcome.OTHER? then result == Err(FlushFailed)
            else
              result.Ok?
  {
    if r < |db.requests| {
      CurrentIsLast(db, r);
      var c := CaseOf(db, r);
      assert CaseInvariant(db.defs, c);
      assert Located(db.defs, c.request, Last(c));
      assert IsValidTransition(InProgress, FinalStatus(outcome));
    }
  }

  function Replacing(before: Execution, after: Execution): Execution -> Execution {
    (e: Execution) => if e == before then after else e
  }

  /** Closing the open execution of one request rewrites the last row of that request and no row of another. */
  lemma ClosingRewritesLast(db: Database, e: Execution, closed: Execution, r: nat)
    requires Invariant(db) && r < |db.requests|
    requires e in db.executions && e.completedAt.None? && closed.id == e.id && closed.requestId == e.requestId
    ensures e.id < |db.executions|
    ensures var es := CaseOf(db, r).executions;
            Filter(db.executions[e.id := closed], ExecutionOf(r))
            == if r == e.requestId then es[..|es| - 1] + [closed] else es
  {
    var es := CaseOf(db, r).executions;
    assert CaseInvariant(db.defs, CaseOf(db, r));
    assert db.executions[e.id := closed] == Map(db.executions, Replacing(e, closed));
    FilterMap(db.executions, Replacing(e, closed), ExecutionOf(r), ExecutionOf(r));
    if r == e.requestId {
      OpenIsLast(db, e);
      EarlierClosed(db.defs, CaseOf(db, r).request, es);
      assert Map(es, Replacing(e, closed)) == es[..|es| - 1] + [closed];
    } else {
      assert Map(es, Replacing(e, closed)) == es;
    }
  }

  /** A case after its last execution was closed and the flow went on, or ended. */
  function Continued(c: Case, closed: Execution, opening: Option<Execution>, now: Time): Case
    requires c.executions != []
  {
    var front := c.executions[..|c.executions| - 1];
    if opening.Some? then
      Case(
        c.request.(currentStep := Some(opening.value.stepId)),
        front + [closed, opening.value],
        c.history,
        c.ledger + [ClosingEntry(closed)])
    else
      var q := c.request;
      var status := FinalStatus(closed.status);
      Case(
        q.(status := Completed, currentStep := None, completedAt := Some(now)),
        front + [closed],
        c.history
        + [HistoryEntry(q.id, q.status, status, closed.assignedTo, FinalOutcome(closed.status)),
           HistoryEntry(q.id, status, Completed, closed.assignedTo, Completion)],
        c.ledger + [WorkflowCompleted(q.id, closed.assignedTo, closed.status), ClosingEntry(closed)])
  }

  lemma BooksOnAdvance(db: Database, q: Request, closed: Execution, next: Option<Step>, now: Time, r: nat)
    requires q.id < |db.requests| && closed.id < |db.executions| && closed.requestId == q.id
    ensures var after := Advanced(db, q, closed, next, now);
            var completed := WorkflowCompleted(q.id, closed.assignedTo, closed.status);
            var status := FinalStatus(closed.status);
            && Filter(after.history, HistoryOf(r))
               == Filter(db.history, HistoryOf(r))
                  + (if r != q.id || next.Some? then []
                     else [HistoryEntry(q.id, q.status, status, closed.assignedTo, FinalOutcome(closed.status)),
                           HistoryEntry(q.id, status, Completed, closed.assignedTo, Completion)])
            && Filter(after.audit, LedgerOf(r))
               == Filter(db.audit, LedgerOf(r))
                  + (if r != q.id then []
                     else if next.Some? then [ClosingEntry(closed)]
                     else [completed, ClosingEntry(closed)])
  {
    var h1 := HistoryEntry(q.id, q.status, FinalStatus(closed.status), closed.assignedTo, FinalOutcome(closed.status));
    var h2 := HistoryEntry(q.id, FinalStatus(closed.status), Completed, closed.assignedTo, Completion);
    FilterAppend(db.audit, ClosingEntry(closed), LedgerOf(r));
    FilterAppendTwo(db.history, h1, h2, HistoryOf(r));
    FilterAppendTwo(
      db.audit, WorkflowCompleted(q.id, closed.assignedTo, closed.status), ClosingEntry(closed), LedgerOf(r));
  }

  lemma ExecutionsOnAdvance(db: Database, q: Request, closed: Execution, next: Option<Step>, now: Time, r: nat)
    requires q.id < |db.requests| && closed.id < |db.executions|
    ensures var kept := Filter(db.executions[closed.id := closed], ExecutionOf(r));
            Filter(Advanced(db, q, closed, next, now).executions, ExecutionOf(r))
            == if next.Some? && r == q.id then kept + [Opened(|db.executions|, q.id, next.value, now)] else kept
  {
    if next.Some? {
      FilterAppend(
        db.executions[closed.id := closed], Opened(|db.executions|, q.id, next.value, now), ExecutionOf(r));
    }
  }

  lemma AdvancedOther(db: Database, q: Request, closed: Execution, next: Option<Step>, now: Time, r: nat)
    requires r < |db.requests| && q.id < |db.requests| && r != q.id
    requires closed.id < |db.executions| && closed.requestId == q.id
    requires Filter(db.executions[closed.id := closed], ExecutionOf(r)) == CaseOf(db, r).executions
    ensures CaseOf(Advanced(db, q, closed, next, now), r) == CaseOf(db, r)
  {
    BooksOnAdvance(db, q, closed, next, now, r);
    ExecutionsOnAdvance(db, q, closed, next, now, r);
  }

  lemma AdvancedOwn(
      db: Database, q: Request, closed: Execution, next: Option<Step>, now: Time, front: seq<Execution>)
    requires q.id < |db.requests| && db.requests[q.id] == q
    requires closed.id < |db.executions| && closed.requestId == q.id
    requires CaseOf(db, q.id).executions != []
    requires front == CaseOf(db, q.id).executions[..|CaseOf(db, q.id).executions| - 1]
    requires Filter(db.executions[closed.id := closed], ExecutionOf(q.id)) == front + [closed]
    ensures var opening := if next.Some? then Some(Opened(|db.executions|, q.id, next.value, now)) else None;
            CaseOf(Advanced(db, q, closed, next, now), q.id) == Continued(CaseOf(db, q.id), closed, opening, now)
  {
    BooksOnAdvance(db, q, closed, next, now, q.id);
    ExecutionsOnAdvance(db, q, closed, next, now, q.id);
    if next.Some? {
      var e := Opened(|db.executions|, q.id, next.value, now);
      assert front + [closed] + [e] == front + [closed, e];
    }
  }

  /** A decision acts on the rows of its own request, as `Continued` says, and on no others. */
  lemma AdvancedCases(db: Database, q: Request, closed: Execution, next: Option<Step>, now: Time, r: nat)
    requires r < |db.requests| && q.id < |db.requests| && db.requests[q.id] == q
    requires closed.id < |db.executions| && closed.requestId == q.id
    requires CaseOf(db, r).executions != []
    requires var es := CaseOf(db, r).executions;
             Filter(db.executions[closed.id := closed], ExecutionOf(r))
             == if r == q.id then es[..|es| - 1] + [closed] else es
    ensures var opening := if next.Some? then Some(Opened(|db.executions|, q.id, next.value, now)) else None;
            CaseOf(Advanced(db, q, closed, next, now), r)
            == if r == q.id then Continued(CaseOf(db, r), closed, opening, now) else CaseOf(db, r)
  {
    if r == q.id {
      var es := CaseOf(db, r).executions;
      AdvancedOwn(db, q, closed, next, now, es[..|es| - 1]);
    } else {
      AdvancedOther(db, q, closed, next, now, r);
    }
  }

  lemma WalkContinued(d: Definitions, c: Case, closed: Execution, opening: Option<Execution>, now: Time)
    requires Walk(d, c.request, c.executions)
    requires closed.stepId == Last(c).stepId && closed.deadline == Last(c).deadline
    requires closed.startedAt == Last(c).startedAt && closed.requestId == Last(c).requestId
    requires closed.completedAt == Some(now) && closed.assignedTo.Some?
    requires opening.Some? ==>
               && Located(d, c.request, opening.value)
               && opening.value.startedAt == now
               && Successor(d, c.request, closed) == Some(opening.value.stepId)
    ensures Walk(d, Continued(c, closed, opening, now).request, Continued(c, closed, opening, now).executions)
  {
    var n := |c.executions|;
    var after := Continued(c, closed, opening, now);
    forall k | 0 <= k < |after.executions|
      ensures Located(d, after.request, after.executions[k])
    {
      if k < n {
        assert Located(d, c.request, c.executions[k]);
      }
    }
    forall k | 0 < k < |after.executions|
      ensures Follows(d, after.request, after.executions[k - 1], after.executions[k])
    {
      if k < n {
        assert Follows(d, c.request, c.executions[k - 1], c.executions[k]);
      }
    }
  }

  /** Continuing an open case by its own successor gives a case that is open or done. */
  lemma ContinuedKeeps(
      d: Definitions, c: Case, user: nat, outcome: Label, decision: Option<Object>, now: Time, id: nat)
    requires DefinitionsConsistent(d) && CaseInvariant(d, c) && IsOpen(c)
    ensures Last(c).stepId < |d.steps|
    ensures var closed := Closed(Last(c), user, outcome, decision, now);
            var next := Successor(d, c.request, closed);
            && (next.Some? ==> next.value < |d.steps|)
            && var opening := if next.Some? then Some(Opened(id, c.request.id, d.steps[next.value], now)) else None;
               CaseInvariant(d, Continued(c, closed, opening, now))
  {
    var closed := Closed(Last(c), user, outcome, decision, now);
    var next := Successor(d, c.request, closed);
    assert Located(d, c.request, Last(c));
    NextIsStep(d, closed.stepId, outcome, EvalContext(c.request.data, decision));
    var opening := if next.Some? then Some(Opened(id, c.request.id, d.steps[next.value], now)) else None;
    WalkContinued(d, c, closed, opening, now);
    var after := Continued(c, closed, opening, now);
    var front := c.executions[..|c.executions| - 1];
    if next.Some? {
      assert after.executions[..|after.executions| - 1] == front + [closed];
      assert ClosingEntries(front + [closed]) == ClosingEntries(front) + [ClosingEntry(closed)];
      assert IsOpen(after);
    } else {
      assert after.executions[..|after.executions| - 1] == front;
      assert IsDone(d, after);
    }
  }

  /** A successful decision keeps the invariant, continues its own case and leaves every other case alone. */
  lemma DecideKeeps(db: Database, r: nat, user: User, outcome: Label, decision: Option<Object>, now: Time)
    returns (closed: Execution, opening: Option<Execution>)
    requires Invariant(db) && Decide(db, r, user, outcome, decision, now).Ok?
    ensures r < |db.requests| && CaseOf(db, r).executions != [] && IsOpen(CaseOf(db, r)) && !outcome.OTHER?
    ensures closed == Closed(Last(CaseOf(db, r)), user.id, outcome, decision, now)
    ensures var next := Successor(db.defs, db.requests[r], closed);
            if next.Some? then
              next.value < |db.defs.steps| && opening == Some(Opened(|db.executions|, r, db.defs.steps[next.value], now))
            else
              opening == None
    ensures var after := Decide(db, r, user, outcome, decision, now).value;
            && Invariant(after)
            && after.defs == db.defs
            && |after.requests| == |db.requests|
            && CaseOf(after, r) == Continued(CaseOf(db, r), closed, opening, now)
            && (forall o: nat | o < |db.requests| && o != r :: CaseOf(after, o) == CaseOf(db, o))
  {
    var after := Decide(db, r, user, outcome, decision, now).value;
    var e, step := DecideAdvances(db, r, user, outcome, decision, now);
    DecideConsistent(db, r, user, outcome, decision, now);
    var c := CaseOf(db, r);
    assert CaseInvariant(db.defs, c);
    OpenIsLast(db, e);
    closed := Closed(e, user.id, outcome, decision, now);
    opening := if step.Some? then Some(Opened(|db.executions|, r, step.value, now)) else None;
    ContinuedKeeps(db.defs, c, user.id, outcome, decision, now, |db.executions|);
    forall o: nat | o < |db.requests|
      ensures CaseInvariant(after.defs, CaseOf(after, o))
      ensures o != r ==> CaseOf(after, o) == CaseOf(db, o)
    {
      assert CaseInvariant(db.defs, CaseOf(db, o));
      ClosingRewritesLast(db, e, closed, o);
      AdvancedCases(db, c.request, closed, step, now, o);
    }
    ClosingRewritesLast(db, e, closed, r);
    AdvancedCases(db, c.request, closed, step, now, r);
  }

  /** A scan changes no more than the breach flags of a case. */
  lemma ScanCases(db: Database, now: Time, failing: set<nat>, r: nat)
    requires Consistent(db) && r < |db.requests|
    requires Reported(db, now, failing) > 0
    ensures var after := Scan(db, now, failing);
            && |after.requests| == |db.requests|
            && CaseOf(after, r) == CaseOf(db, r).(executions := Map(CaseOf(db, r).executions, Flagged(now)))
  {
    FilterMap(db.executions, Flagged(now), ExecutionOf(r), ExecutionOf(r));
    var entries := Map(Filter(db.executions, Overdue(now)), BreachEntry);
    FilterConcat(db.audit, entries, LedgerOf(r));
    FilterNone(entries, LedgerOf(r));
  }

  lemma ScanKeeps(db: Database, now: Time, failing: set<nat>)
    requires Invariant(db)
    ensures Invariant(Scan(db, now, failing))
  {
    var after := Scan(db, now, failing);
    ScanConsistent(db, now, failing);
    if Reported(db, now, failing) > 0 {
      forall r: nat | r < |after.requests|
        ensures CaseInvariant(after.defs, CaseOf(after, r))
      {
        var c := CaseOf(db, r);
        assert CaseInvariant(db.defs, c);
        ScanCases(db, now, failing, r);
        FlaggingKeeps(db.defs, c, now);
      }
    }
  }

  lemma FlaggingKeeps(d: Definitions, c: Case, now: Time)
    requires CaseInvariant(d, c)
    ensures CaseInvariant(d, c.(executions := Map(c.executions, Flagged(now))))
  {
    var es := Map(c.executions, Flagged(now));
    forall k | 0 <= k < |es|
      ensures Located(d, c.request, es[k])
    {
      assert Located(d, c.request, c.executions[k]);
    }
    forall k | 0 < k < |es|
      ensures Follows(d, c.request, es[k - 1], es[k])
    {
      assert Follows(d, c.request, c.executions[k - 1], c.executions[k]);
    }
    assert ClosingEntries(es[..|es| - 1]) == ClosingEntries(c.executions[..|es| - 1]);
  }

  lemma ApplyKeeps(db: Database, e: Event)
    requires Invariant(db)
    ensures Invariant(Apply(db, e))
  {
    if Outcome(db, e).Ok? {
      match e
      case Creating(spec) => CreateKeeps(db, spec);
      case Starting(w, requester, data, now, enqueued) => StartKeeps(db, w, requester, data, now);
      case Deciding(r, user, outcome, decision, now) =>
        var closed, opening := DecideKeeps(db, r, user, outcome, decision, now);
      case Scanning(now, failing) => ScanKeeps(db, now, failing);
    }
  }

  lemma {:induction false} RunKeeps(db: Database, events: seq<Event>)
    requires Invariant(db)
    ensures Invariant(Run(db, events))
  {
    if events != [] {
      RunKeeps(db, events[..|events| - 1]);
      ApplyKeeps(Run(db, events[..|events| - 1]), events[|events| - 1]);
    }
  }

  /** The invariant holds in every reachable state. */
  lemma ReachableInvariant(db: Database)
    requires Reachable(db)
    ensures Invariant(db)
  {
    var start, events :| Initial(start) && Run(start, events) == db;
    RunKeeps(start, events);
  }

  // ------------------------------------------------------ in so many words

  function IsUnfinished(): Execution -> bool {
    (e: Execution) => e.completedAt.None?
  }

  /** A request in progress has exactly one unfinished execution, which is pending, is its last and is at its current step.
      Any other request is completed, has no unfinished execution and no current step, and was completed when its last
      execution was. */
  lemma OneUnfinished(db: Database, r: nat)
    requires Reachable(db) && r < |db.requests|
    ensures var q := db.requests[r];
            var c := CaseOf(db, r);
            var unfinished := Filter(c.executions, IsUnfinished());
            && c.executions != []
            && if q.status == InProgress then
                 && unfinished == [Last(c)]
                 && Last(c).status == PENDING
                 && q.currentStep == Some(Last(c).stepId)
                 && q.completedAt == None
               else
                 && q.status == Completed
                 && unfinished == []
                 && q.currentStep == None
                 && q.completedAt.Some?
                 && q.completedAt == Last(c).completedAt
  {
    ReachableInvariant(db);
    var c := CaseOf(db, r);
    assert CaseInvariant(db.defs, c);
    EarlierClosed(db.defs, c.request, c.executions);
    var front := c.executions[..|c.executions| - 1];
    assert c.executions == front + [Last(c)];
    FilterNone(front, IsUnfinished());
    FilterAppend(front, Last(c), IsUnfinished());
  }

  /** No event touches the rows of a request other than a decision on it, and a scan, which touches only breach flags. */
  lemma OthersUntouched(db: Database, e: Event, r: nat)
    requires Invariant(db) && r < |db.requests|
    requires e.Deciding? ==> e.requestId != r
    ensures r < |Apply(db, e).requests|
    ensures var before, after := CaseOf(db, r), CaseOf(Apply(db, e), r);
            if e.Scanning? && Reported(db, e.now, e.failing) > 0 then
              after == before.(executions := Map(before.executions, Flagged(e.now)))
            else
              after == before
  {
    if Outcome(db, e).Ok? {
      match e
      case Creating(spec) =>
      case Starting(w, requester, data, now, enqueued) => StartedCases(db, w, requester, data, now);
      case Deciding(o, user, outcome, decision, now) =>
        var closed, opening := DecideKeeps(db, o, user, outcome, decision, now);
      case Scanning(now, failing) =>
        if Reported(db, now, failing) > 0 {
          ScanCases(db, now, failing, r);
        }
    }
  }
}
