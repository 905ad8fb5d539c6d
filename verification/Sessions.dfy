// The services as they run: a database session in which rows are staged, flushed, and committed or rolled back.

module Sessions {
  import opened Rows
  import opened Json
  import opened Conditions
  import opened StateMachine
  import opened Tables
  import opened Engine
  import opened Sla
  import opened Compiler
  import opened Runs
  import opened Views
  import opened Breaches

  // ---------------------------------------------------- helpers for the proofs

  function PendingAndJoined(stepCount: nat): Execution -> bool {
    (e: Execution) => e.status == PENDING && e.completedAt.None? && e.stepId < stepCount
  }

  function FlaggingIn(chosen: seq<Execution>): Execution -> Execution {
    (e: Execution) => if e in chosen then e.(breached := true) else e
  }

  lemma MapFlaggingNone(xs: seq<Execution>)
    ensures Map(xs, FlaggingIn([])) == xs
  {
  }

  lemma FlaggingOneMore(xs: seq<Execution>, chosen: seq<Execution>, e: Execution)
    requires forall i | 0 <= i < |xs| :: xs[i].id == i
    requires e in xs
    ensures e.id < |xs|
    ensures var flagged := Map(xs, FlaggingIn(chosen));
            && flagged[e.id].(breached := e.breached) == e
            && flagged[e.id := flagged[e.id].(breached := true)] == Map(xs, FlaggingIn(chosen + [e]))
  {
  }

  lemma StorableAfterUpdate(db: Database, id: nat, e: Execution)
    requires Consistent(db) && id < |db.executions|
    ensures (forall x <- db.executions[id := e] :: !x.status.OTHER?) <==> !e.status.OTHER?
  {
    assert db.executions[id := e][id] == e;
  }

  lemma AdvancedTwice(db: Database, q: Request, closed: Execution, now: Time)
    requires q.id < |db.requests| && closed.id < |db.executions|
    ensures forall next ::
              Advanced(db.(executions := db.executions[closed.id := closed]), q, closed, next, now)
              == Advanced(db, q, closed, next, now)
  {
    assert db.executions[closed.id := closed][closed.id := closed] == db.executions[closed.id := closed];
  }

  lemma EventKeeps(db: Database, e: Event)
    requires Consistent(db)
    ensures Outcome(db, e).Ok? ==> Consistent(Outcome(db, e).value)
    ensures Reachable(db) ==> Reachable(Apply(db, e))
  {
    OutcomeConsistent(db, e);
    if Reachable(db) {
      ApplyReachable(db, e);
    }
  }

  /** What is staged after the chosen executions were escalated. */
  function EscalatedIn(db: Database, chosen: seq<Execution>, now: Time): Database {
    db.(
      executions := Map(db.executions, FlaggingIn(chosen)),
      escalations := db.escalations + Map(chosen, EscalationOf(now)),
      audit := db.audit + Map(chosen, BreachEntry))
  }

  lemma EscalatedOneMore(db: Database, chosen: seq<Execution>, e: Execution, now: Time)
    requires Consistent(db) && e in db.executions
    ensures var before := EscalatedIn(db, chosen, now);
            && e.id < |before.executions|
            && (forall x <- before.executions :: !x.status.OTHER?)
            && var x := before.executions[e.id];
               EscalatedIn(db, chosen + [e], now)
               == before.(
                  executions := before.executions[e.id := x.(breached := true)],
                  escalations := before.escalations + [Escalation(x.id, 1, now)],
                  audit := before.audit + [BreachEntry(x)])
  {
    var before := EscalatedIn(db, chosen, now);
    FlaggingOneMore(db.executions, chosen, e);
    assert Map(chosen + [e], EscalationOf(now)) == Map(chosen, EscalationOf(now)) + [EscalationOf(now)(e)];
    assert Map(chosen + [e], BreachEntry) == Map(chosen, BreachEntry) + [BreachEntry(e)];
    forall x <- before.executions
      ensures !x.status.OTHER?
    {
      var i :| 0 <= i < |db.executions| && before.executions[i] == x;
      assert db.executions[i].status == x.status;
    }
  }

  class Session {
    var workflows: seq<Workflow>
    var steps: seq<Step>
    var transitions: seq<Transition>
    var requests: seq<Request>
    var executions: seq<Execution>
    var history: seq<HistoryEntry>
    var audit: seq<AuditEntry>
    var escalations: seq<Escalation>

    /** What every other session sees. */
    var committed: Database

    function Staged(): Database
      reads this
    {
      Database(Definitions(workflows, steps, transitions), requests, executions, history, audit, escalations)
    }

    /** Nothing is staged. Each call gets a session in this state. */
    ghost predicate Clean()
      reads this
    {
      Staged() == committed && Consistent(committed)
    }

    constructor (db: Database)
      requires Consistent(db)
      ensures Clean() && committed == db
    {
      workflows, steps, transitions := db.defs.workflows, db.defs.steps, db.defs.transitions;
      requests, executions, history, audit := db.requests, db.executions, db.history, db.audit;
      escalations := db.escalations;
      committed := db;
    }

    method Commit()
      modifies this`committed
      ensures committed == Staged()
    {
      committed := Staged();
    }

    method Rollback()
      modifies this
      ensures committed == old(committed) && Staged() == committed
    {
      workflows, steps, transitions := committed.defs.workflows, committed.defs.steps, committed.defs.transitions;
      requests, executions, history, audit := committed.requests, committed.executions, committed.history, committed.audit;
      escalations := committed.escalations;
    }

    // ----------------------------------------------------------- audit log

    /** Appends an entry and flushes. The database refuses a step status that is none of its own, which rolls the session
        back. */
    method LogAction(entry: AuditEntry) returns (flushed: bool)
      modifies this
      ensures committed == old(committed)
      ensures flushed <==> forall e <- old(executions) :: !e.status.OTHER?
      ensures Staged() == if flushed then old(Staged()).(audit := old(audit) + [entry]) else committed
    {
      audit := audit + [entry];
      flushed := FirstWhere(executions, (e: Execution) => e.status.OTHER?).None?;
      if !flushed {
        Rollback();
      }
    }

    // ---------------------------------------------------------- the engine

    /** Opens an execution of a step and makes it the current step of the request. */
    method OpenExecution(requestId: nat, step: Step, now: Time)
      requires requestId < |requests| && requests[requestId].id == requestId
      modifies this`executions, this`requests
      ensures executions == old(executions) + [Opened(|old(executions)|, requestId, step, now)]
      ensures requests == old(requests)[requestId := old(requests[requestId]).(currentStep := Some(step.id))]
    {
      var deadline := now + step.slaHours * HOUR;
      executions := executions
      + [Execution(|executions|, requestId, step.id, PENDING, None, now, None, deadline, false, Null, None)];
      requests := requests[requestId := requests[requestId].(currentStep := Some(step.id))];
    }

    method StartWorkflow(workflowId: nat, requester: nat, data: Object, now: Time, enqueued: bool)
      returns (result: Result<nat, Failure>)
      requires Clean()
      modifies this
      ensures committed == old(committed)
      ensures var start := Start(committed, workflowId, requester, data, now, enqueued);
              match result
              case Ok(id) => start.Ok? && Staged() == start.value && id == |committed.requests|
              case Err(failure) => start == Err(failure)
    {
      if workflowId >= |workflows| || !workflows[workflowId].active {
        return Err(WorkflowUnavailable);
      }
      var id := |requests|;
      requests := requests + [Request(id, workflowId, requester, None, Created, data, None)];
      var initial := requests[id].status;
      if !IsValidTransition(initial, InProgress) {
        return Err(InvalidStateTransition);
      }
      requests := requests[id := requests[id].(status := InProgress)];
      history := history + [HistoryEntry(id, initial, InProgress, Some(requester), Initiation)];
      var first := FirstWhere(steps, EntryStep(workflowId));
      if first.None? {
        return Err(NoFirstStep);
      }
      OpenExecution(id, first.value, now);
      assert requests
          == committed.requests
             + [Request(id, workflowId, requester, Some(first.value.id), InProgress, data, None)];
      var flushed := LogAction(WorkflowStarted(id, Some(requester), workflowId));
      if !flushed {
        return Err(FlushFailed);
      }
      if !enqueued {
        return Err(EnqueueFailed);
      }
      return Ok(id);
    }

    /** The authority check of a decision. */
    method Authorise(user: User, step: Step) returns (allowed: bool)
      ensures allowed == MayAct(user, step)
    {
      if IsAdmin(user) {
        return true;
      }
      if step.requiredRole.Some? && !HasRole(user, step.requiredRole.value) {
        return false;
      }
      if step.requiredPermission.Some? {
        var permissions: set<nat> := {};
        for i := 0 to |user.roles|
          invariant forall p :: p in permissions <==> exists role <- user.roles[..i] :: p in role.permissions
        {
          var role := user.roles[i];
          assert user.roles[..i + 1] == user.roles[..i] + [role];
          permissions := permissions + set p | p in role.permissions;
        }
        assert user.roles[..|user.roles|] == user.roles;
        return step.requiredPermission.value in permissions;
      }
      return true;
    }

    /** The target of the first candidate whose condition is absent or true. */
    method ResolveNext(stepId: nat, outcome: Label, context: Object) returns (next: Option<nat>)
      ensures next == Next(transitions, stepId, outcome, context)
    {
      var candidates := Filter(transitions, Candidate(stepId, outcome));
      FirstWhereFiltered(
        transitions, Candidate(stepId, outcome), Enabled(context), Fires(stepId, outcome, context));
      for i := 0 to |candidates|
        invariant FirstWhere(candidates, Enabled(context)) == FirstWhere(candidates[i..], Enabled(context))
      {
        var transition := candidates[i];
        if transition.condition.None? || transition.condition.value == map[] {
          return transition.toStep;
        }
        var holds := Evaluate(transition.condition, context);
        if holds {
          return transition.toStep;
        }
      }
      return None;
    }

    /** Moves a request to its end through the status machine. */
    method Finalize(id: nat, outcome: Label, actor: nat, now: Time) returns (failure: Option<Failure>)
      requires id < |requests| && requests[id].id == id
      modifies this
      ensures committed == old(committed)
      ensures var q := old(requests[id]);
              var target := FinalStatus(outcome);
              if !IsValidTransition(q.status, target) then failure == Some(InvalidStateTransition)
              else if exists e <- old(executions) :: e.status.OTHER? then failure == Some(FlushFailed)
              else
                && failure == None
                && Staged()
                   == old(Staged()).(
                      requests := old(requests)[id := q.(status := Completed, currentStep := None, completedAt := Some(now))],
                      history := old(history)
                      + [HistoryEntry(id, q.status, target, Some(actor), FinalOutcome(outcome)),
                         HistoryEntry(id, target, Completed, Some(actor), Completion)],
                      audit := old(audit) + [WorkflowCompleted(id, Some(actor), outcome)])
    {
      var before := requests[id].status;
      var target := if outcome == APPROVED then Approved else Rejected;
      if !IsValidTransition(before, target) {
        return Some(InvalidStateTransition);
      }
      requests := requests[id := requests[id].(status := target)];
      history := history + [HistoryEntry(id, before, target, Some(actor), FinalOutcome(outcome))];
      if !IsValidTransition(requests[id].status, Completed) {
        return Some(InvalidStateTransition);
      }
      requests := requests[id := requests[id].(status := Completed)];
      requests := requests[id := requests[id].(currentStep := None)];
      requests := requests[id := requests[id].(completedAt := Some(now))];
      history := history + [HistoryEntry(id, target, Completed, Some(actor), Completion)];
      var flushed := LogAction(WorkflowCompleted(id, Some(actor), outcome));
      if !flushed {
        return Some(FlushFailed);
      }
      return None;
    }

    method CloseExecution(id: nat, user: User, outcome: Label, decision: Option<Object>, now: Time)
      requires id < |executions|
      modifies this`executions
      ensures executions == old(executions)[id := Closed(old(executions[id]), user.id, outcome, decision, now)]
    {
      executions := executions[id := executions[id].(assignedTo := Some(user.id))];
      executions := executions[id := executions[id].(status := outcome)];
      executions := executions[id := executions[id].(decisionData := decision)];
      if decision.Some? && "comment" in decision.value {
        executions := executions[id := executions[id].(comments := decision.value["comment"])];
      }
      executions := executions[id := executions[id].(completedAt := Some(now))];
    }

    /** The second half of a decision, once the open execution has been closed: on to the next step or to the end, then the
        audit entry. */
    method Proceed(id: nat, requestId: nat, user: User, outcome: Label, decision: Option<Object>, now: Time)
      returns (failure: Option<Failure>)
      requires DefinitionsConsistent(Staged().defs)
      requires requestId < |requests| && requests[requestId].id == requestId
      requires id < |executions| && executions[id].id == id && executions[id].requestId == requestId
      requires executions[id].status == outcome && executions[id].assignedTo == Some(user.id)
      requires requests[requestId].currentStep == Some(executions[id].stepId) && executions[id].stepId < |steps|
      requires (forall e <- executions :: !e.status.OTHER?) <==> !outcome.OTHER?
      modifies this
      ensures committed == old(committed)
      ensures var q, closed := old(requests[requestId]), old(executions[id]);
              var next := Next(old(transitions), closed.stepId, outcome, EvalContext(q.data, decision));
              if next.None? && !IsValidTransition(q.status, FinalStatus(outcome)) then
                failure == Some(InvalidStateTransition)
              else if outcome.OTHER? then failure == Some(FlushFailed)
              else
                && failure == None
                && (next.Some? ==> next.value < |old(steps)|)
                && Staged()
                   == Advanced(old(Staged()), q, closed, if next.Some? then Some(old(steps)[next.value]) else None, now)
    {
      var stepId := requests[requestId].currentStep.value;
      var context := EvalContext(requests[requestId].data, decision);
      var next := ResolveNext(stepId, outcome, context);
      NextIsStep(Staged().defs, stepId, outcome, context);
      assert executions[id := executions[id]] == executions;
      if next.Some? {
        OpenExecution(requestId, steps[next.value], now);
        assert forall e <- executions :: e in old(executions) || e.status == PENDING;
        assert executions[..|old(executions)|] == old(executions);
      } else {
        failure := Finalize(requestId, outcome, user.id, now);
        if failure.Some? {
          return;
        }
      }
      var flushed := LogAction(StepCompleted(requestId, Some(user.id), id, stepId, outcome));
      failure := if flushed then None else Some(FlushFailed);
    }

    /** A next assignment that cannot be enqueued is only logged, so enqueueing is no input of a decision. */
    method ProcessStep(
      requestId: nat, user: User, outcome: Label, decision: Option<Object>, now: Time)
      returns (result: Result<nat, Failure>)
      requires Clean()
      modifies this
      ensures committed == old(committed)
      ensures var decide := Decide(committed, requestId, user, outcome, decision, now);
              match result
              case Ok(id) => decide.Ok? && Staged() == decide.value && id == requestId
              case Err(failure) => decide == Err(failure)
    {
      if requestId >= |requests| {
        return Err(RequestNotFound);
      }
      var current := if requests[requestId].currentStep.None? then None
                     else FirstWhere(executions, OpenAt(requestId, requests[requestId].currentStep.value));
      if current.None? {
        return Err(NoPendingStep);
      }
      var allowed := Authorise(user, steps[current.value.stepId]);
      if !allowed {
        return Err(PermissionDenied);
      }
      var id := current.value.id;
      CloseExecution(id, user, outcome, decision, now);
      ghost var closed := Closed(current.value, user.id, outcome, decision, now);
      assert Staged() == committed.(executions := committed.executions[id := closed]);
      StorableAfterUpdate(committed, id, closed);
      AdvancedTwice(committed, committed.requests[requestId], closed, now);
      var failure := Proceed(id, requestId, user, outcome, decision, now);
      if failure.Some? {
        return Err(failure.value);
      }
      return Ok(requestId);
    }

    // ------------------------------------------------------- the endpoints

    /** A start either commits all its rows or none. */
    method PostStart(workflowId: nat, requester: nat, data: Option<Object>, now: Time, enqueued: bool)
      returns (result: Result<nat, Failure>)
      requires Clean()
      modifies this
      ensures Clean()
      ensures Reachable(old(committed)) ==> Reachable(committed)
      ensures var body := if data.Some? then data.value else map[];
              var start := Start(old(committed), workflowId, requester, body, now, enqueued);
              && committed == Apply(old(committed), Starting(workflowId, requester, body, now, enqueued))
              && (result.Ok? <==> start.Ok?)
              && (result.Err? ==> start == Err(result.error))
              && (result.Ok? ==> result.value == |old(committed).requests|)
      ensures var d := old(committed).defs;
              result.Ok?
              <==> && workflowId < |d.workflows|
                   && d.workflows[workflowId].active
                   && (exists s <- d.steps :: s.workflowId == workflowId && s.order == 1)
                   && enqueued
      ensures result.Err? ==> committed == old(committed)
    {
      var body := if data.Some? then data.value else map[];
      result := StartWorkflow(workflowId, requester, body, now, enqueued);
      EventKeeps(committed, Starting(workflowId, requester, body, now, enqueued));
      StartVerdict(committed, workflowId, requester, body, now, enqueued);
      if result.Ok? {
        Commit();
      } else {
        Rollback();
      }
    }

    /** A decision either commits all its rows or none. */
    method PostProcess(
      requestId: nat, user: User, outcome: Label, decision: Option<Object>, now: Time)
      returns (result: Result<nat, Failure>)
      requires Clean()
      modifies this
      ensures Clean()
      ensures Reachable(old(committed)) ==> Reachable(committed)
      ensures var decide := Decide(old(committed), requestId, user, outcome, decision, now);
              && committed == Apply(old(committed), Deciding(requestId, user, outcome, decision, now))
              && (result.Ok? <==> decide.Ok?)
              && (result.Err? ==> decide == Err(result.error) && committed == old(committed))
    {
      result := ProcessStep(requestId, user, outcome, decision, now);
      EventKeeps(committed, Deciding(requestId, user, outcome, decision, now));
      if result.Ok? {
        Commit();
      } else {
        Rollback();
      }
    }

    /** One pass over the roles of a user. */
    method CollectAuthority(user: User) returns (roleIds: set<nat>, permissionIds: set<nat>, isAdmin: bool)
      ensures forall id :: id in roleIds <==> HasRole(user, id)
      ensures forall id :: id in permissionIds <==> HasPermission(user, id)
      ensures isAdmin == IsAdmin(user)
    {
      roleIds, permissionIds, isAdmin := {}, {}, false;
      for i := 0 to |user.roles|
        invariant forall id :: id in roleIds <==> exists role <- user.roles[..i] :: role.id == id
        invariant forall p :: p in permissionIds <==> exists role <- user.roles[..i] :: p in role.permissions
        invariant isAdmin <==> exists role <- user.roles[..i] :: Lower(role.name) == "admin"
      {
        var role := user.roles[i];
        assert user.roles[..i + 1] == user.roles[..i] + [role];
        roleIds := roleIds + {role.id};
        if Lower(role.name) == "admin" {
          isAdmin := true;
        }
        permissionIds := permissionIds + set p | p in role.permissions;
      }
      assert user.roles[..|user.roles|] == user.roles;
    }

    /** The steps in the user's authority among the pending ones, in table order. */
    method GetMyTasks(user: User) returns (tasks: seq<Task>)
      requires Clean()
      ensures tasks == MyTasks(committed, user)
    {
      var roleIds, permissionIds, isAdmin := CollectAuthority(user);
      ghost var defs := committed.defs;
      var pending := Filter(executions, PendingAndJoined(|steps|));
      FilterMembers(executions, PendingAndJoined(|steps|));
      FilterNarrows(executions, PendingAndJoined(|steps|), Visible(defs, user));
      tasks := [];
      for i := 0 to |pending|
        invariant tasks == Map(Filter(pending[..i], Visible(defs, user)), TaskOf(defs))
      {
        var e := pending[i];
        assert e in pending;
        MapFilterNext(pending, i, Visible(defs, user), TaskOf(defs));
        var step := steps[e.stepId];
        if !isAdmin {
          if step.requiredRole.Some? && step.requiredRole.value !in roleIds {
            continue;
          }
          if step.requiredPermission.Some? && step.requiredPermission.value !in permissionIds {
            continue;
          }
        }
        tasks := tasks + [Task(e.requestId, e.id, step.name, e.deadline, e.breached)];
      }
      assert pending[..|pending|] == pending;
    }

    method GetDashboardStats() returns (stats: Stats)
      requires Clean()
      ensures stats == DashboardStats(committed)
      ensures Reachable(committed) ==>
                && stats.active + stats.completed == |committed.requests|
                && stats.active <= stats.pending
                && stats.overdue == |committed.escalations|
    {
      if Reachable(committed) {
        DashboardConserves(committed);
        ReachableCorresponds(committed);
      }
      var active := Count(requests, HasStatus(InProgress));
      var completed := Count(requests, HasStatus(Completed));
      var pending := Count(executions, IsPending());
      var overdue := Count(executions, IsBreached());
      return Stats(active, completed, pending, overdue);
    }

    // ------------------------------------------------------ the SLA monitor

    /** Flags one step and records the escalation. What was staged stays staged when enqueueing the e-mail raises. */
    method EscalateStep(id: nat, now: Time, enqueued: bool) returns (escalated: bool)
      requires id < |executions| && forall e <- executions :: !e.status.OTHER?
      modifies this
      ensures escalated == enqueued && committed == old(committed)
      ensures var e := old(executions[id]);
              Staged()
              == old(Staged()).(
                executions := old(executions)[id := e.(breached := true)],
                escalations := old(escalations) + [Escalation(e.id, 1, now)],
                audit := old(audit) + [BreachEntry(e)])
    {
      executions := executions[id := executions[id].(breached := true)];
      var e := executions[id];
      escalations := escalations + [Escalation(e.id, 1, now)];
      var flushed := LogAction(SlaBreachDetected(e.requestId, e.id, e.deadline));
      return flushed && enqueued;
    }

    /** Escalates the steps of a query one by one; a failure to enqueue is logged and the loop goes on. */
    method EscalateEach(overdue: seq<Execution>, now: Time, failing: set<nat>) returns (count: nat)
      requires Clean() && forall e <- overdue :: e in executions
      modifies this
      ensures committed == old(committed)
      ensures count == Count(overdue, Delivered(failing))
      ensures Staged() == EscalatedIn(committed, overdue, now)
    {
      count := 0;
      MapFlaggingNone(executions);
      assert Staged() == EscalatedIn(committed, overdue[..0], now);
      for i := 0 to |overdue|
        invariant committed == old(committed)
        invariant count == Count(overdue[..i], Delivered(failing))
        invariant Staged() == EscalatedIn(committed, overdue[..i], now)
      {
        var e := overdue[i];
        assert e in overdue;
        assert overdue[..i + 1] == overdue[..i] + [e];
        FilterAppend(overdue[..i], e, Delivered(failing));
        EscalatedOneMore(committed, overdue[..i], e, now);
        var escalated := EscalateStep(e.id, now, e.id !in failing);
        if escalated {
          count := count + 1;
        }
      }
      assert overdue[..|overdue|] == overdue;
    }

    method ScanForBreaches(now: Time, failing: set<nat>) returns (count: nat)
      requires Clean()
      modifies this
      ensures committed == Scan(old(committed), now, failing)
      ensures count == Reported(old(committed), now, failing)
    {
      var overdue := Filter(executions, Overdue(now));
      FilterMembers(executions, Overdue(now));
      count := EscalateEach(overdue, now, failing);
      if count > 0 {
        assert executions == Map(committed.executions, Flagged(now));
        Commit();
      }
    }

    /** The periodic job: one scan in a session of its own. */
    method CheckAllSlas(now: Time, failing: set<nat>) returns (count: nat)
      requires Clean()
      modifies this
      ensures Clean()
      ensures Reachable(old(committed)) ==> Reachable(committed)
      ensures committed == Apply(old(committed), Scanning(now, failing))
      ensures count == Reported(old(committed), now, failing)
    {
      EventKeeps(committed, Scanning(now, failing));
      count := ScanForBreaches(now, failing);
      Rollback();
    }

    // ------------------------------------------------------- the definitions

    /** Adds the step rows and records which id each order stands for. */
    method CreateSteps(specs: seq<StepSpec>, workflowId: nat) returns (stepsMap: map<int, nat>)
      modifies this`steps
      ensures steps == old(steps) + StepRows(specs, workflowId, |old(steps)|)
      ensures stepsMap == StepIds(specs, |old(steps)|)
    {
      ghost var base := |steps|;
      ghost var rows := StepRows(specs, workflowId, base);
      stepsMap := map[];
      for i := 0 to |specs|
        invariant steps == old(steps) + rows[..i]
        invariant stepsMap == StepIds(specs[..i], base)
      {
        var s := specs[i];
        assert specs[..i + 1][..i] == specs[..i];
        assert rows[..i + 1] == rows[..i] + [rows[i]];
        var row := Step(|steps|, workflowId, s.order, s.name, s.slaHours, s.requiredRole, s.requiredPermission);
        steps := steps + [row];
        stepsMap := stepsMap[row.order := row.id];
      }
      assert specs[..|specs|] == specs && rows[..|rows|] == rows;
    }

    /** Adds a row for each transition whose source is known. */
    method CreateTransitions(specs: seq<TransitionSpec>, stepsMap: map<int, nat>)
      modifies this`transitions
      ensures transitions == old(transitions) + TransitionRows(specs, stepsMap)
    {
      for i := 0 to |specs|
        invariant transitions == old(transitions) + TransitionRows(specs[..i], stepsMap)
      {
        var t := specs[i];
        assert specs[..i + 1][..i] == specs[..i];
        var from := if t.from in stepsMap then Some(stepsMap[t.from]) else None;
        var to := if t.to.Some? && t.to.value in stepsMap then Some(stepsMap[t.to.value]) else None;
        if from.None? {
          continue;
        }
        transitions := transitions + [Transition(from.value, to, t.outcome, t.condition)];
      }
      assert specs[..|specs|] == specs;
    }

    method CreateWorkflow(spec: WorkflowSpec) returns (result: Result<nat, Failure>)
      requires Clean()
      modifies this
      ensures Clean()
      ensures Reachable(old(committed)) ==> Reachable(committed)
      ensures committed == Apply(old(committed), Creating(spec))
      ensures match result
              case Ok(id) => !NameTaken(old(committed).defs, spec.name) && id == |old(committed).defs.workflows|
              case Err(failure) => failure == DuplicateName && NameTaken(old(committed).defs, spec.name)
    {
      EventKeeps(committed, Creating(spec));
      var id := |workflows|;
      if exists w <- workflows :: w.name == spec.name {
        return Err(DuplicateName);
      }
      workflows := workflows + [Workflow(id, spec.name, true)];
      var stepsMap := CreateSteps(spec.steps, id);
      CreateTransitions(spec.transitions, stepsMap);
      Commit();
      return Ok(id);
    }

    /** The endpoint: the request schema is checked before the role. */
    method PostWorkflow(user: User, payload: Option<WorkflowSpec>) returns (result: Result<nat, Failure>)
      requires Clean()
      modifies this
      ensures Clean()
      ensures Reachable(old(committed)) ==> Reachable(committed)
      ensures var posted := Posted(old(committed), user, payload);
              match result
              case Ok(id) => posted == Ok(committed) && id == |old(committed).defs.workflows|
              case Err(failure) => posted == Err(failure) && committed == old(committed)
    {
      if payload.None? || !Accepted(payload.value) {
        return Err(PayloadRefused);
      }
      if !MayDefine(user) {
        return Err(PermissionDenied);
      }
      result := CreateWorkflow(payload.value);
    }
  }
}
