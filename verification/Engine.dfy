// What a start and a decision do to the database.

module Engine {
  import opened Rows
  import opened Json
  import opened Conditions
  import opened StateMachine
  import opened Tables

  datatype Failure =
    | WorkflowUnavailable
    | NoFirstStep
    | RequestNotFound
    | NoPendingStep
    | PermissionDenied
    | InvalidStateTransition
    | FlushFailed
    | EnqueueFailed
    | DuplicateName
    | PayloadRefused

  // ------------------------------------------------------------- authority

  function LowerChar(c: char): char {
    if 'A' <= c <= 'Z' then (c as int + 32) as char else c
  }

  function Lower(s: string): string {
    seq(|s|, i requires 0 <= i < |s| => LowerChar(s[i]))
  }

  /** One is the capital of the other. */
  ghost predicate IsCapitalOf(c: char, d: char) {
    'A' <= c <= 'Z' && d as int == c as int + 32
  }

  /** The same text but for capitals. */
  ghost predicate SameLetters(s: string, t: string) {
    && |s| == |t|
    && forall i | 0 <= i < |s| :: s[i] == t[i] || IsCapitalOf(s[i], t[i]) || IsCapitalOf(t[i], s[i])
  }

  lemma LowerIgnoresCapitals(s: string, t: string)
    ensures Lower(s) == Lower(t) <==> SameLetters(s, t)
  {
    if |s| == |t| {
      forall i | 0 <= i < |s|
        ensures Lower(s)[i] == Lower(t)[i] <==> s[i] == t[i] || IsCapitalOf(s[i], t[i]) || IsCapitalOf(t[i], s[i])
      {
        LowerCharIgnoresCapitals(s[i], t[i]);
      }
    }
  }

  lemma LowerCharIgnoresCapitals(c: char, d: char)
    ensures LowerChar(c) == LowerChar(d) <==> c == d || IsCapitalOf(c, d) || IsCapitalOf(d, c)
  {
  }

  /** One of the user's roles has this name, in any capitalisation. */
  ghost predicate HasRoleNamed(user: User, name: string) {
    exists role <- user.roles :: SameLetters(role.name, name)
  }

  lemma AdminMeans(user: User)
    ensures IsAdmin(user) <==> HasRoleNamed(user, "admin")
    ensures MayDefine(user) <==> HasRoleNamed(user, "admin") || HasRoleNamed(user, "superadmin")
  {
    assert Lower("admin") == "admin" && Lower("superadmin") == "superadmin";
    forall role <- user.roles
      ensures Lower(role.name) == "admin" <==> SameLetters(role.name, "admin")
      ensures Lower(role.name) == "superadmin" <==> SameLetters(role.name, "superadmin")
    {
      LowerIgnoresCapitals(role.name, "admin");
      LowerIgnoresCapitals(role.name, "superadmin");
    }
  }

  predicate IsAdmin(user: User) {
    exists role <- user.roles :: Lower(role.name) == "admin"
  }

  /** Who may define workflows: also a super-administrator, who has no special rights over a step. */
  predicate MayDefine(user: User) {
    exists role <- user.roles :: Lower(role.name) == "admin" || Lower(role.name) == "superadmin"
  }

  predicate HasRole(user: User, roleId: nat) {
    exists role <- user.roles :: role.id == roleId
  }

  predicate HasPermission(user: User, permissionId: nat) {
    exists role <- user.roles :: permissionId in role.permissions
  }

  /** Who may decide a step: an administrator, or whoever holds all that the step requires. */
  predicate MayAct(user: User, step: Step) {
    || IsAdmin(user)
    || (&& (step.requiredRole.Some? ==> HasRole(user, step.requiredRole.value))
        && (step.requiredPermission.Some? ==> HasPermission(user, step.requiredPermission.value)))
  }

  /** No role of the user is an administrator's, and a role or a permission that is required is missing. */
  ghost predicate Lacks(user: User, role: Option<nat>, permission: Option<nat>) {
    && (forall held <- user.roles :: !SameLetters(held.name, "admin"))
    && (|| (role.Some? && forall held <- user.roles :: held.id != role.value)
        || (permission.Some? && forall held <- user.roles :: permission.value !in held.permissions))
  }

  /** Authority, role by role: who may not act is who lacks something. */
  lemma MayActMeans(user: User, step: Step)
    ensures !MayAct(user, step) <==> Lacks(user, step.requiredRole, step.requiredPermission)
  {
    AdminMeans(user);
  }

  // --------------------------------------------------------------- queries

  function EntryStep(w: nat): Step -> bool {
    (s: Step) => s.workflowId == w && s.order == 1
  }

  function FirstStep(d: Definitions, w: nat): (r: Option<Step>)
    ensures r.Some? ==> r.value in d.steps && r.value.workflowId == w && r.value.order == 1
  {
    FirstWhere(d.steps, EntryStep(w))
  }

  function OpenAt(requestId: nat, stepId: nat): Execution -> bool {
    (e: Execution) => e.requestId == requestId && e.stepId == stepId && e.completedAt.None?
  }

  /** The open execution at the request's current step; a null current step matches no row. */
  function CurrentExecution(db: Database, q: Request): (r: Option<Execution>)
    ensures r.Some? ==>
              && r.value in db.executions
              && r.value.requestId == q.id
              && r.value.completedAt.None?
              && q.currentStep == Some(r.value.stepId)
  {
    if q.currentStep.None? then None else FirstWhere(db.executions, OpenAt(q.id, q.currentStep.value))
  }

  function EvalContext(data: Object, decision: Option<Object>): Object {
    map[
      "request_data" := Obj(data),
      "decision_data" := Obj(if decision.Some? then decision.value else map[])
    ]
  }

  function Candidate(stepId: nat, outcome: Label): Transition -> bool {
    (t: Transition) => t.fromStep == stepId && t.outcome == outcome
  }

  function Enabled(context: Object): Transition -> bool {
    (t: Transition) => Holds(t.condition, context)
  }

  function Fires(stepId: nat, outcome: Label, context: Object): Transition -> bool {
    (t: Transition) => t.fromStep == stepId && t.outcome == outcome && Holds(t.condition, context)
  }

  /** The target of the first transition that fires. None both when that transition ends the flow and when none fires. */
  function Next(transitions: seq<Transition>, stepId: nat, outcome: Label, context: Object): Option<nat> {
    var t := FirstWhere(transitions, Fires(stepId, outcome, context));
    if t.Some? then t.value.toStep else None
  }

  lemma NextIsStep(d: Definitions, stepId: nat, outcome: Label, context: Object)
    requires DefinitionsConsistent(d) && stepId < |d.steps|
    ensures var n := Next(d.transitions, stepId, outcome, context);
            n.Some? ==> n.value < |d.steps| && d.steps[n.value].workflowId == d.steps[stepId].workflowId
  {
  }

  // ----------------------------------------------------------------- start

  function Opened(id: nat, requestId: nat, step: Step, now: Time): Execution {
    Execution(id, requestId, step.id, PENDING, None, now, None, now + step.slaHours * HOUR, false, Null, None)
  }

  function Start(db: Database, workflowId: nat, requester: nat, data: Object, now: Time, enqueued: bool)
    : Result<Database, Failure>
  {
    if workflowId >= |db.defs.workflows| || !db.defs.workflows[workflowId].active then Err(WorkflowUnavailable)
    else
      var first := FirstStep(db.defs, workflowId);
      if first.None? then Err(NoFirstStep)
      else if !enqueued then Err(EnqueueFailed)
      else
        var id := |db.requests|;
        Ok(db.(
           requests := db.requests
           + [Request(id, workflowId, requester, Some(first.value.id), InProgress, data, None)],
           executions := db.executions + [Opened(|db.executions|, id, first.value, now)],
           history := db.history + [HistoryEntry(id, Created, InProgress, Some(requester), Initiation)],
           audit := db.audit + [WorkflowStarted(id, Some(requester), workflowId)]))
  }

  predicate IsActive(d: Definitions, w: nat) {
    w < |d.workflows| && d.workflows[w].active
  }

  /** A start succeeds if and only if the workflow is active, it has a step of order 1 and the notification is enqueued. The
      failures are found in this order. */
  lemma StartVerdict(db: Database, w: nat, requester: nat, data: Object, now: Time, enqueued: bool)
    ensures var result := Start(db, w, requester, data, now, enqueued);
            var hasEntry := exists s <- db.defs.steps :: s.workflowId == w && s.order == 1;
            && (result.Ok? <==> IsActive(db.defs, w) && hasEntry && enqueued)
            && (result == Err(WorkflowUnavailable) <==> !IsActive(db.defs, w))
            && (result == Err(NoFirstStep) <==> IsActive(db.defs, w) && !hasEntry)
            && (result == Err(EnqueueFailed) <==> IsActive(db.defs, w) && hasEntry && !enqueued)
  {
    if s :| s in db.defs.steps && s.workflowId == w && s.order == 1 {
      assert EntryStep(w)(s);
    }
  }

  // -------------------------------------------------------------- decision

  function Closed(e: Execution, userId: nat, outcome: Label, decision: Option<Object>, now: Time): Execution {
    e.(
      assignedTo := Some(userId),
      status := outcome,
      decisionData := decision,
      comments := if decision.Some? && "comment" in decision.value then decision.value["comment"] else e.comments,
      completedAt := Some(now))
  }

  /** The audit entry of an execution that has been closed. */
  function ClosingEntry(e: Execution): AuditEntry {
    StepCompleted(e.requestId, e.assignedTo, e.id, e.stepId, e.status)
  }

  function FinalStatus(outcome: Label): Status {
    if outcome == APPROVED then Approved else Rejected
  }

  /** The database after `closed` replaced the open execution of `q` and the flow went on to `next`, or ended. */
  function Advanced(db: Database, q: Request, closed: Execution, next: Option<Step>, now: Time): Database
    requires q.id < |db.requests| && closed.id < |db.executions|
  {
    var executions := db.executions[closed.id := closed];
    if next.Some? then
      db.(
        requests := db.requests[q.id := q.(currentStep := Some(next.value.id))],
        executions := executions + [Opened(|executions|, q.id, next.value, now)],
        audit := db.audit + [ClosingEntry(closed)])
    else
      var status := FinalStatus(closed.status);
      db.(
        requests := db.requests[q.id := q.(status := Completed, currentStep := None, completedAt := Some(now))],
        executions := executions,
        history := db.history
        + [HistoryEntry(q.id, q.status, status, closed.assignedTo, FinalOutcome(closed.status)),
           HistoryEntry(q.id, status, Completed, closed.assignedTo, Completion)],
        audit := db.audit
        + [WorkflowCompleted(q.id, closed.assignedTo, closed.status), ClosingEntry(closed)])
  }

  /** A decision, with the checks in the order they are made. */
  function Decide(db: Database, requestId: nat, user: User, outcome: Label, decision: Option<Object>, now: Time)
    : Result<Database, Failure>
    requires Consistent(db)
  {
    if requestId >= |db.requests| then Err(RequestNotFound)
    else
      var q := db.requests[requestId];
      var e := CurrentExecution(db, q);
      if e.None? then Err(NoPendingStep)
      else if !MayAct(user, db.defs.steps[e.value.stepId]) then Err(PermissionDenied)
      else
        var closed := Closed(e.value, user.id, outcome, decision, now);
        var next := Next(db.defs.transitions, e.value.stepId, outcome, EvalContext(q.data, decision));
        if next.None? && !IsValidTransition(q.status, FinalStatus(outcome)) then Err(InvalidStateTransition)
        else if outcome.OTHER? then Err(FlushFailed)
        else
          NextIsStep(db.defs, e.value.stepId, outcome, EvalContext(q.data, decision));
          Ok(Advanced(db, q, closed, if next.Some? then Some(db.defs.steps[next.value]) else None, now))
  }
}
