// Compiling a workflow whose steps are named by their order into rows that refer to each other by id.

module Compiler {
  import opened Rows
  import opened Json
  import opened Tables
  import opened Engine

  datatype StepSpec = StepSpec(
    name: string,
    order: int,
    slaHours: int,
    requiredRole: Option<nat>,
    requiredPermission: Option<nat>)

  /** `to` is None both for an explicit null and for a missing key. */
  datatype TransitionSpec = TransitionSpec(from: int, to: Option<int>, outcome: Label, condition: Option<Object>)

  datatype WorkflowSpec = WorkflowSpec(name: string, steps: seq<StepSpec>, transitions: seq<TransitionSpec>)

  function StepRow(s: StepSpec, id: nat, workflowId: nat): Step {
    Step(id, workflowId, s.order, s.name, s.slaHours, s.requiredRole, s.requiredPermission)
  }

  function StepRows(steps: seq<StepSpec>, workflowId: nat, base: nat): (rows: seq<Step>)
    ensures |rows| == |steps| && forall i | 0 <= i < |steps| :: rows[i] == StepRow(steps[i], base + i, workflowId)
  {
    seq(|steps|, i requires 0 <= i < |steps| => StepRow(steps[i], base + i, workflowId))
  }

  /** The id that an order stands for: a later step takes over the order of an earlier one. */
  function StepIds(steps: seq<StepSpec>, base: nat): map<int, nat> {
    if steps == [] then map[] else StepIds(steps[..|steps| - 1], base)[steps[|steps| - 1].order := base + |steps| - 1]
  }

  /** An order stands for the last step that carries it. */
  ghost predicate LastWithOrder(steps: seq<StepSpec>, i: int, order: int) {
    && 0 <= i < |steps|
    && steps[i].order == order
    && forall j | i < j < |steps| :: steps[j].order != order
  }

  lemma {:induction false} StepIdsExact(steps: seq<StepSpec>, base: nat, order: int)
    ensures order in StepIds(steps, base) <==> exists s <- steps :: s.order == order
    ensures order in StepIds(steps, base) ==> LastWithOrder(steps, StepIds(steps, base)[order] - base, order)
  {
    if steps != [] {
      var front, last := steps[..|steps| - 1], steps[|steps| - 1];
      assert steps == front + [last];
      StepIdsExact(front, base, order);
    }
  }

  function IdOf(ids: map<int, nat>, order: Option<int>): Option<nat> {
    if order.Some? && order.value in ids then Some(ids[order.value]) else None
  }

  /** A transition from an order that no step has is dropped; one to such an order ends the flow. */
  function TransitionRows(transitions: seq<TransitionSpec>, ids: map<int, nat>): seq<Transition> {
    if transitions == [] then []
    else
      var n := |transitions| - 1;
      var t := transitions[n];
      var front := TransitionRows(transitions[..n], ids);
      if t.from in ids then front + [Transition(ids[t.from], IdOf(ids, t.to), t.outcome, t.condition)] else front
  }

  lemma {:induction false} TransitionRowsWithin(steps: seq<StepSpec>, base: nat, transitions: seq<TransitionSpec>)
    ensures forall t <- TransitionRows(transitions, StepIds(steps, base)) ::
              && base <= t.fromStep < base + |steps|
              && (t.toStep.Some? ==> base <= t.toStep.value < base + |steps|)
  {
    if transitions != [] {
      var n := |transitions| - 1;
      TransitionRowsWithin(steps, base, transitions[..n]);
      StepIdsExact(steps, base, transitions[n].from);
      if transitions[n].to.Some? {
        StepIdsExact(steps, base, transitions[n].to.value);
      }
    }
  }

  function Installed(d: Definitions, spec: WorkflowSpec): Definitions {
    var w := |d.workflows|;
    var ids := StepIds(spec.steps, |d.steps|);
    Definitions(
      d.workflows + [Workflow(w, spec.name, true)],
      d.steps + StepRows(spec.steps, w, |d.steps|),
      d.transitions + TransitionRows(spec.transitions, ids))
  }

  predicate NameTaken(d: Definitions, name: string) {
    exists w <- d.workflows :: w.name == name
  }

  function Create(db: Database, spec: WorkflowSpec): Result<Database, Failure> {
    if NameTaken(db.defs, spec.name) then Err(DuplicateName) else Ok(db.(defs := Installed(db.defs, spec)))
  }

  predicate IsWithin(name: string, limit: nat) {
    1 <= |name| <= limit
  }

  /** The bounds of the request schema. */
  predicate Accepted(spec: WorkflowSpec) {
    && IsWithin(spec.name, 255)
    && forall s <- spec.steps :: IsWithin(s.name, 100) && s.order >= 1 && s.slaHours >= 1
  }

  /** A payload sent to the endpoint. One that lacks a required field, as a transition without a source does, is None. */
  function Posted(db: Database, user: User, payload: Option<WorkflowSpec>): Result<Database, Failure> {
    if payload.None? || !Accepted(payload.value) then Err(PayloadRefused)
    else if !MayDefine(user) then Err(PermissionDenied)
    else Create(db, payload.value)
  }

  /** The endpoint, requirement by requirement: the bounds of the schema, then the role, then the name. */
  lemma PostVerdict(db: Database, user: User, payload: Option<WorkflowSpec>)
    ensures var result := Posted(db, user, payload);
            var fits := payload.Some?
                        && 1 <= |payload.value.name| <= 255
                        && forall s <- payload.value.steps :: 1 <= |s.name| <= 100 && s.order >= 1 && s.slaHours >= 1;
            var mayDefine := HasRoleNamed(user, "admin") || HasRoleNamed(user, "superadmin");
            && (result == Err(PayloadRefused) <==> !fits)
            && (result == Err(PermissionDenied) <==> fits && !mayDefine)
            && (result == Err(DuplicateName)
                <==> fits && mayDefine && exists w <- db.defs.workflows :: w.name == payload.value.name)
            && (result.Err? ==> result.error in {PayloadRefused, PermissionDenied, DuplicateName})
  {
    AdminMeans(user);
  }

  /** What the row of a step is made of. */
  lemma InstalledRow(d: Definitions, spec: WorkflowSpec, i: nat)
    requires i < |spec.steps|
    ensures |Installed(d, spec).steps| == |d.steps| + |spec.steps|
    ensures var row, s := Installed(d, spec).steps[|d.steps| + i], spec.steps[i];
            && row.id == |d.steps| + i
            && row.workflowId == |d.workflows|
            && row.order == s.order
            && row.name == s.name
            && row.slaHours == s.slaHours
            && row.requiredRole == s.requiredRole
            && row.requiredPermission == s.requiredPermission
  {
  }

  lemma InstalledWorkflow(d: Definitions, spec: WorkflowSpec)
    ensures var workflows := Installed(d, spec).workflows;
            && |workflows| == |d.workflows| + 1
            && workflows[..|d.workflows|] == d.workflows
            && workflows[|d.workflows|].id == |d.workflows|
            && workflows[|d.workflows|].name == spec.name
            && workflows[|d.workflows|].active
  {
  }

  ghost predicate UniqueNames(d: Definitions) {
    forall i, j | 0 <= i < j < |d.workflows| :: d.workflows[i].name != d.workflows[j].name
  }

  /** A workflow is created if and only if that keeps names unique. */
  lemma CreateKeepsNamesUnique(db: Database, spec: WorkflowSpec)
    requires UniqueNames(db.defs)
    ensures Create(db, spec).Ok? <==> UniqueNames(Installed(db.defs, spec))
  {
    var after := Installed(db.defs, spec);
    InstalledWorkflow(db.defs, spec);
    if w :| w in db.defs.workflows && w.name == spec.name {
      var i :| 0 <= i < |db.defs.workflows| && db.defs.workflows[i] == w;
      assert after.workflows[i].name == after.workflows[|db.defs.workflows|].name;
    }
  }

  lemma InstalledConsistent(d: Definitions, spec: WorkflowSpec)
    requires DefinitionsConsistent(d)
    ensures DefinitionsConsistent(Installed(d, spec))
  {
    TransitionRowsWithin(spec.steps, |d.steps|, spec.transitions);
  }
}
