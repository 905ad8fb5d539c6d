// Who may decide what, in terms of the roles a user holds and of the specification that a workflow was made from.

module Authority {
  import opened Rows
  import opened Json
  import opened StateMachine
  import opened Tables
  import opened Engine
  import opened Compiler
  import opened Runs
  import opened Cases
  import opened Views
  import opened Lockstep

  lemma LackingIsRefused(db: Database, r: nat, user: User, outcome: Label, decision: Option<Object>, now: Time)
    requires Invariant(db) && r < |db.requests| && db.requests[r].status == InProgress
    ensures db.requests[r].currentStep.Some? && db.requests[r].currentStep.value < |db.defs.steps|
    ensures var step := db.defs.steps[db.requests[r].currentStep.value];
            var lacking := Lacks(user, step.requiredRole, step.requiredPermission);
            && (Decide(db, r, user, outcome, decision, now) == Err(PermissionDenied) <==> lacking)
            && Count(MyTasks(db, user), TaskFor(r)) == (if lacking then 0 else 1)
  {
    assert CaseInvariant(db.defs, CaseOf(db, r));
    DecisionVerdict(db, r, user, outcome, decision, now);
    TasksOfRequest(db, user, r);
    MayActMeans(user, db.defs.steps[db.requests[r].currentStep.value]);
  }

  /** A decision on a request in progress is refused for authority, and the request is missing from the user's list, exactly for
      users that lack something its current step requires. */
  lemma RefusedIffLacking(db: Database, r: nat, user: User, outcome: Label, decision: Option<Object>, now: Time)
    requires Reachable(db) && r < |db.requests| && db.requests[r].status == InProgress
    ensures db.requests[r].currentStep.Some? && db.requests[r].currentStep.value < |db.defs.steps|
    ensures var step := db.defs.steps[db.requests[r].currentStep.value];
            var lacking := Lacks(user, step.requiredRole, step.requiredPermission);
            && (Decide(db, r, user, outcome, decision, now) == Err(PermissionDenied) <==> lacking)
            && Count(MyTasks(db, user), TaskFor(r)) == (if lacking then 0 else 1)
  {
    ReachableInvariant(db);
    LackingIsRefused(db, r, user, outcome, decision, now);
  }

  /** In a reachable state a decision succeeds if and only if its request is in progress, its outcome can be stored, and the user
      lacks nothing that the current step requires. */
  lemma DecisionSucceedsIff(db: Database, r: nat, user: User, outcome: Label, decision: Option<Object>, now: Time)
    requires Reachable(db)
    ensures Decide(db, r, user, outcome, decision, now).Ok?
       <==> && r < |db.requests|
            && db.requests[r].status == InProgress
            && outcome in {PENDING, IN_PROGRESS, APPROVED, REJECTED, SKIPPED}
            && exists step <- db.defs.steps ::
                 && db.requests[r].currentStep == Some(step.id)
                 && !Lacks(user, step.requiredRole, step.requiredPermission)
  {
    ReachableInvariant(db);
    DecisionVerdict(db, r, user, outcome, decision, now);
    if r < |db.requests| && db.requests[r].status == InProgress {
      LackingIsRefused(db, r, user, outcome, decision, now);
      CurrentStepUnique(db.defs, db.requests[r].currentStep.value);
    }
  }

  lemma CurrentStepUnique(d: Definitions, id: nat)
    requires DefinitionsConsistent(d) && id < |d.steps|
    ensures d.steps[id] in d.steps && forall step <- d.steps :: step.id == id <==> step == d.steps[id]
  {
  }

  /** Every step of a walk is a step of the specification. Past the entry, or when order 1 is unique, it is the last step of its
      order. */
  lemma WalkStays(d: Definitions, spec: WorkflowSpec, w: nat, base: nat, q: Request, es: seq<Execution>, k: nat)
    requires Placed(d, spec, w, base) && Walk(d, q, es) && q.workflowId == w && k < |es|
    ensures base <= es[k].stepId < base + |spec.steps|
    ensures UniqueEntry(spec) || k > 0 ==>
              LastWithOrder(spec.steps, es[k].stepId - base, spec.steps[es[k].stepId - base].order)
    decreases k
  {
    if k == 0 {
      EntryStays(d, spec, w, base);
    } else {
      WalkStays(d, spec, w, base, q, es, k - 1);
      assert Follows(d, q, es[k - 1], es[k]);
      SuccessorStays(d, spec, w, base, q, es[k - 1], es[k]);
    }
  }

  lemma EntryStays(d: Definitions, spec: WorkflowSpec, w: nat, base: nat)
    requires Placed(d, spec, w, base) && FirstStep(d, w).Some?
    ensures var id := FirstStep(d, w).value.id;
            && base <= id < base + |spec.steps|
            && (UniqueEntry(spec) ==> LastWithOrder(spec.steps, id - base, spec.steps[id - base].order))
  {
    var i := FirstWhereIsFirst(StepRows(spec.steps, w, base), EntryStep(w));
  }

  lemma SuccessorStays(
      d: Definitions, spec: WorkflowSpec, w: nat, base: nat, q: Request, e: Execution, f: Execution)
    requires Placed(d, spec, w, base) && Follows(d, q, e, f)
    requires base <= e.stepId < base + |spec.steps|
    ensures base <= f.stepId < base + |spec.steps|
    ensures LastWithOrder(spec.steps, f.stepId - base, spec.steps[f.stepId - base].order)
  {
    var rows := TransitionRows(spec.transitions, StepIds(spec.steps, base));
    var fires := Fires(e.stepId, e.status, EvalContext(q.data, e.decisionData));
    assert Next(rows, e.stepId, e.status, EvalContext(q.data, e.decisionData)) == Some(f.stepId);
    TargetsAreLast(spec.steps, base, spec.transitions);
    assert FirstWhere(rows, fires).value in rows;
  }

  lemma {:induction false} TargetsAreLast(steps: seq<StepSpec>, base: nat, transitions: seq<TransitionSpec>)
    ensures forall t <- TransitionRows(transitions, StepIds(steps, base)) | t.toStep.Some? ::
              && base <= t.toStep.value < base + |steps|
              && LastWithOrder(steps, t.toStep.value - base, steps[t.toStep.value - base].order)
  {
    if transitions != [] {
      var n := |transitions| - 1;
      TargetsAreLast(steps, base, transitions[..n]);
      if transitions[n].to.Some? {
        StepIdsExact(steps, base, transitions[n].to.value);
      }
    }
  }

  /** Request `r` is at the order of `s`. A decision on it is refused for authority exactly to who lacks what `s` demands, and its
      open execution is due after the hours of `s`. */
  ghost predicate HeldTo(
    db: Database, r: nat, s: StepSpec, user: User, outcome: Label, decision: Option<Object>, now: Time)
    requires Consistent(db) && r < |db.requests|
  {
    var es := CaseOf(db, r).executions;
    && EnginePosition(db.defs, CaseOf(db, r)) == Some(At(s.order))
    && (Decide(db, r, user, outcome, decision, now) == Err(PermissionDenied)
        <==> Lacks(user, s.requiredRole, s.requiredPermission))
    && es != []
    && es[|es| - 1].deadline == es[|es| - 1].startedAt + s.slaHours * 3_600_000_000
  }

  /** The request has gone on from the step it started at. */
  ghost predicate HasMoved(db: Database, r: nat)
    requires r < |db.requests|
  {
    |CaseOf(db, r).executions| > 1
  }

  /** In every later state of every interleaved run, a request in progress of a created workflow is held to a step of the
      specification. Past the entry, or when order 1 is unique, it is the last step of its order. */
  lemma CreatedDemands(
      db: Database, spec: WorkflowSpec, events: seq<Event>, r: nat, user: User, outcome: Label,
      decision: Option<Object>, now: Time)
    returns (i: nat)
    requires Reachable(db) && Create(db, spec).Ok? && Consistent(Create(db, spec).value)
    requires var after := Run(Create(db, spec).value, events);
             && r < |after.requests|
             && after.requests[r].workflowId == |db.defs.workflows|
             && after.requests[r].status == InProgress
    ensures i < |spec.steps|
    ensures var after := Run(Create(db, spec).value, events);
            && HeldTo(after, r, spec.steps[i], user, outcome, decision, now)
            && (UniqueEntry(spec) || HasMoved(after, r) ==> LastWithOrder(spec.steps, i, spec.steps[i].order))
  {
    CreatedPlaced(db, spec, events);
    i := PlacedDemands(
      Run(Create(db, spec).value, events), spec, |db.defs.workflows|, |db.defs.steps|, r, user, outcome, decision, now);
  }

  lemma CreatedPlaced(db: Database, spec: WorkflowSpec, events: seq<Event>)
    requires Reachable(db) && Create(db, spec).Ok? && Consistent(Create(db, spec).value)
    ensures Reachable(Run(Create(db, spec).value, events))
    ensures Placed(Run(Create(db, spec).value, events).defs, spec, |db.defs.workflows|, |db.defs.steps|)
  {
    CreateReachable(db, spec);
    InstalledPlaces(db.defs, spec);
    RunPlaces(Create(db, spec).value, events, spec, |db.defs.workflows|, |db.defs.steps|);
    ReachableOnward(Create(db, spec).value, events);
  }

  lemma CreateReachable(db: Database, spec: WorkflowSpec)
    requires Reachable(db) && Create(db, spec).Ok?
    ensures Consistent(db) && Consistent(Create(db, spec).value) && Reachable(Create(db, spec).value)
  {
    ReachableInvariant(db);
    ApplyReachable(db, Creating(spec));
  }

  /** Request `r` is at the row of the specification's `i`-th step. */
  ghost predicate Stands(db: Database, spec: WorkflowSpec, w: nat, base: nat, r: nat, i: nat)
    requires r < |db.requests|
  {
    && i < |spec.steps|
    && base + i < |db.defs.steps|
    && db.requests[r].currentStep == Some(base + i)
    && db.defs.steps[base + i] == StepRow(spec.steps[i], base + i, w)
    && (UniqueEntry(spec) || HasMoved(db, r) ==> LastWithOrder(spec.steps, i, spec.steps[i].order))
  }

  lemma CurrentIsLastStep(db: Database, r: nat)
    requires Invariant(db) && r < |db.requests| && db.requests[r].status == InProgress
    ensures var es := CaseOf(db, r).executions;
            && Walk(db.defs, db.requests[r], es)
            && db.requests[r].currentStep == Some(es[|es| - 1].stepId)
  {
    assert CaseInvariant(db.defs, CaseOf(db, r));
  }

  lemma WalkStands(d: Definitions, spec: WorkflowSpec, w: nat, base: nat, q: Request, es: seq<Execution>) returns (i: nat)
    requires Placed(d, spec, w, base) && Walk(d, q, es) && q.workflowId == w
    ensures i < |spec.steps| && base + i < |d.steps|
    ensures es[|es| - 1].stepId == base + i
    ensures d.steps[base + i] == StepRow(spec.steps[i], base + i, w)
    ensures UniqueEntry(spec) || |es| > 1 ==> LastWithOrder(spec.steps, i, spec.steps[i].order)
  {
    WalkStays(d, spec, w, base, q, es, |es| - 1);
    i := es[|es| - 1].stepId - base;
    PlacedRow(d, spec, w, base, i);
  }

  lemma StandsAt(db: Database, spec: WorkflowSpec, w: nat, base: nat, r: nat) returns (i: nat)
    requires Invariant(db) && Placed(db.defs, spec, w, base)
    requires r < |db.requests| && db.requests[r].workflowId == w && db.requests[r].status == InProgress
    ensures Stands(db, spec, w, base, r, i)
  {
    CurrentIsLastStep(db, r);
    i := WalkStands(db.defs, spec, w, base, db.requests[r], CaseOf(db, r).executions);
  }

  lemma PlacedRow(d: Definitions, spec: WorkflowSpec, w: nat, base: nat, i: nat)
    requires Placed(d, spec, w, base) && i < |spec.steps|
    ensures base + i < |d.steps| && d.steps[base + i] == StepRow(spec.steps[i], base + i, w)
  {
    assert d.steps[base + i] == StepRows(spec.steps, w, base)[i];
  }

  lemma PlacedDemands(
      db: Database, spec: WorkflowSpec, w: nat, base: nat, r: nat, user: User, outcome: Label,
      decision: Option<Object>, now: Time)
    returns (i: nat)
    requires Reachable(db) && Consistent(db) && Placed(db.defs, spec, w, base)
    requires r < |db.requests| && db.requests[r].workflowId == w && db.requests[r].status == InProgress
    ensures i < |spec.steps| && HeldTo(db, r, spec.steps[i], user, outcome, decision, now)
    ensures Stands(db, spec, w, base, r, i)
  {
    ReachableInvariant(db);
    i := StandsAt(db, spec, w, base, r);
    StandsHeld(db, spec, w, base, r, i, user, outcome, decision, now);
  }

  lemma StandsHeld(
      db: Database, spec: WorkflowSpec, w: nat, base: nat, r: nat, i: nat, user: User, outcome: Label,
      decision: Option<Object>, now: Time)
    requires Invariant(db) && r < |db.requests| && db.requests[r].status == InProgress
    requires Stands(db, spec, w, base, r, i)
    ensures HeldTo(db, r, spec.steps[i], user, outcome, decision, now)
  {
    HeldToRow(db, r, spec.steps[i], base + i, w, user, outcome, decision, now);
  }

  lemma HeldToRow(
      db: Database, r: nat, s: StepSpec, id: nat, w: nat, user: User, outcome: Label, decision: Option<Object>, now: Time)
    requires Invariant(db) && r < |db.requests| && db.requests[r].status == InProgress
    requires id < |db.defs.steps| && db.defs.steps[id] == StepRow(s, id, w) && db.requests[r].currentStep == Some(id)
    ensures HeldTo(db, r, s, user, outcome, decision, now)
  {
    DueAfterHours(db, r);
    LackingIsRefused(db, r, user, outcome, decision, now);
  }

  lemma DueAfterHours(db: Database, r: nat)
    requires Invariant(db) && r < |db.requests| && db.requests[r].status == InProgress
    ensures db.requests[r].currentStep.Some? && db.requests[r].currentStep.value < |db.defs.steps|
    ensures var es, step := CaseOf(db, r).executions, db.defs.steps[db.requests[r].currentStep.value];
            && EnginePosition(db.defs, CaseOf(db, r)) == Some(At(step.order))
            && es != []
            && es[|es| - 1].deadline == es[|es| - 1].startedAt + step.slaHours * 3_600_000_000
  {
    var c := CaseOf(db, r);
    assert CaseInvariant(db.defs, c);
    assert Located(db.defs, c.request, Last(c));
  }
}
