// The rows of the database. A primary key is the position of its row: keys are fresh and rows are never deleted.

module Tables {
  import opened Rows
  import opened Json
  import opened StateMachine

  /** Clock readings, in microseconds. */
  type Time = int

  const HOUR: Time := 3_600_000_000

  /** The outcome of a decision. The named values are the ones the step-status column can store; OTHER is any other text. */
  datatype Label = PENDING | IN_PROGRESS | APPROVED | REJECTED | SKIPPED | OTHER(text: string)

  datatype Role = Role(id: nat, name: string, permissions: seq<nat>)

  datatype User = User(id: nat, roles: seq<Role>)

  datatype Workflow = Workflow(id: nat, name: string, active: bool)

  datatype Step = Step(
    id: nat,
    workflowId: nat,
    order: int,
    name: string,
    slaHours: int,
    requiredRole: Option<nat>,
    requiredPermission: Option<nat>)

  /** A missing target ends the flow. */
  datatype Transition = Transition(fromStep: nat, toStep: Option<nat>, outcome: Label, condition: Option<Object>)

  datatype Definitions = Definitions(workflows: seq<Workflow>, steps: seq<Step>, transitions: seq<Transition>)

  datatype Request = Request(
    id: nat,
    workflowId: nat,
    requester: nat,
    currentStep: Option<nat>,
    status: Status,
    data: Object,
    completedAt: Option<Time>)

  /** One execution of a step by a request (`request_steps`). */
  datatype Execution = Execution(
    id: nat,
    requestId: nat,
    stepId: nat,
    status: Label,
    assignedTo: Option<nat>,
    startedAt: Time,
    completedAt: Option<Time>,
    deadline: Time,
    breached: bool,
    comments: Value,
    decisionData: Option<Object>)

  datatype Reason = Initiation | FinalOutcome(outcome: Label) | Completion

  datatype HistoryEntry = HistoryEntry(requestId: nat, from: Status, to: Status, changedBy: Option<nat>, reason: Reason)

  datatype AuditEntry =
    | WorkflowStarted(requestId: nat, actor: Option<nat>, workflowId: nat)
    | StepCompleted(requestId: nat, actor: Option<nat>, executionId: nat, stepId: nat, outcome: Label)
    | WorkflowCompleted(requestId: nat, actor: Option<nat>, finalOutcome: Label)
    | SlaBreachDetected(requestId: nat, executionId: nat, deadline: Time)

  datatype Escalation = Escalation(executionId: nat, level: nat, escalatedAt: Time)

  datatype Database = Database(
    defs: Definitions,
    requests: seq<Request>,
    executions: seq<Execution>,
    history: seq<HistoryEntry>,
    audit: seq<AuditEntry>,
    escalations: seq<Escalation>)

  ghost predicate DefinitionsConsistent(d: Definitions) {
    && (forall i | 0 <= i < |d.workflows| :: d.workflows[i].id == i)
    && (forall i | 0 <= i < |d.steps| :: d.steps[i].id == i && d.steps[i].workflowId < |d.workflows|)
    && (forall t <- d.transitions ::
          && t.fromStep < |d.steps|
          && (t.toStep.Some? ==>
                && t.toStep.value < |d.steps|
                && d.steps[t.toStep.value].workflowId == d.steps[t.fromStep].workflowId))
  }

  /** Primary keys, foreign keys and the step-status column of the schema. */
  ghost predicate Consistent(db: Database) {
    && DefinitionsConsistent(db.defs)
    && (forall i | 0 <= i < |db.requests| :: db.requests[i].id == i)
    && (forall i | 0 <= i < |db.executions| ::
          var e := db.executions[i];
          && e.id == i
          && e.requestId < |db.requests|
          && e.stepId < |db.defs.steps|
          && !e.status.OTHER?)
    && (forall h <- db.history :: h.requestId < |db.requests|)
    && (forall a <- db.audit :: a.requestId < |db.requests|)
    && (forall x <- db.escalations :: x.executionId < |db.executions|)
  }
}
