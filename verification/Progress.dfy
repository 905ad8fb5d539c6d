// How long a request can take: in decisions when transitions only go forward, and in time when deadlines are met.

module Progress {
  import opened Rows
  import opened Json
  import opened StateMachine
  import opened Tables
  import opened Engine
  import opened Compiler
  import opened Runs
  import opened Cases

  /** Every transition of the workflow that does not end the flow goes to a strictly higher order. */
  ghost predicate ForwardOnly(d: Definitions, w: nat)
    requires DefinitionsConsistent(d)
  {
    forall t <- d.transitions ::
      d.steps[t.fromStep].workflowId == w && t.toStep.Some? ==>
        d.steps[t.fromStep].order < d.steps[t.toStep.value].order
  }

  /** Its transitions name a higher order or none: such a specification makes a forward workflow. */
  ghost predicate ForwardSpec(spec: WorkflowSpec) {
    forall t <- spec.transitions :: t.to.Some? ==> t.from < t.to.value
  }

  lemma {:induction false} ForwardRows(steps: seq<StepSpec>, base: nat, transitions: seq<TransitionSpec>)
    requires forall t <- transitions :: t.to.Some? ==> t.from < t.to.value
    ensures forall t <- TransitionRows(transitions, StepIds(steps, base)) ::
              && base <= t.fromStep < base + |steps|
              && (t.toStep.Some? ==>
                    && base <= t.toStep.value < base + |steps|
                    && steps[t.fromStep - base].order < steps[t.toStep.value - base].order)
  {
    if transitions != [] {
      var front, last := transitions[..|transitions| - 1], transitions[|transitions| - 1];
      assert transitions == front + [last] && last in transitions;
      ForwardRows(steps, base, front);
      StepIdsExact(steps, base, last.from);
      if last.to.Some? {
        StepIdsExact(steps, base, last.to.value);
      }
    }
  }

  lemma NewRowsRise(d: Definitions, spec: WorkflowSpec)
    requires ForwardSpec(spec)
    ensures var steps := Installed(d, spec).steps;
            forall t <- TransitionRows(spec.transitions, StepIds(spec.steps, |d.steps|)) | t.toStep.Some? ::
              && t.fromStep < |steps| && t.toStep.value < |steps|
              && steps[t.fromStep].order < steps[t.toStep.value].order
  {
    ForwardRows(spec.steps, |d.steps|, spec.transitions);
  }

  lemma OldRowsElsewhere(d: Definitions, spec: WorkflowSpec)
    requires DefinitionsConsistent(d)
    ensures var steps := Installed(d, spec).steps;
            forall t <- d.transitions :: t.fromStep < |steps| && steps[t.fromStep].workflowId != |d.workflows|
  {
  }

  lemma InstalledForwardNew(d: Definitions, spec: WorkflowSpec)
    requires DefinitionsConsistent(d) && DefinitionsConsistent(Installed(d, spec)) && ForwardSpec(spec)
    ensures ForwardOnly(Installed(d, spec), |d.workflows|)
  {
    var e := Installed(d, spec);
    NewRowsRise(d, spec);
    OldRowsElsewhere(d, spec);
    forall t <- e.transitions | e.steps[t.fromStep].workflowId == |d.workflows| && t.toStep.Some?
      ensures e.steps[t.fromStep].order < e.steps[t.toStep.value].order
    {
      assert t in d.transitions || t in TransitionRows(spec.transitions, StepIds(spec.steps, |d.steps|));
    }
  }

  lemma InstalledForwardOld(d: Definitions, spec: WorkflowSpec, w: nat)
    requires DefinitionsConsistent(d) && DefinitionsConsistent(Installed(d, spec))
    requires w < |d.workflows| && ForwardOnly(d, w)
    ensures ForwardOnly(Installed(d, spec), w)
  {
    var e := Installed(d, spec);
    TransitionRowsWithin(spec.steps, |d.steps|, spec.transitions);
    forall t <- e.transitions | e.steps[t.fromStep].workflowId == w && t.toStep.Some?
      ensures e.steps[t.fromStep].order < e.steps[t.toStep.value].order
    {
      assert t in d.transitions;
    }
  }

  lemma InstalledForward(d: Definitions, spec: WorkflowSpec)
    requires DefinitionsConsistent(d)
    ensures DefinitionsConsistent(Installed(d, spec))
    ensures ForwardSpec(spec) ==> ForwardOnly(Installed(d, spec), |d.workflows|)
    ensures forall w: nat | w < |d.workflows| && ForwardOnly(d, w) :: ForwardOnly(Installed(d, spec), w)
  {
    InstalledConsistent(d, spec);
    if ForwardSpec(spec) {
      InstalledForwardNew(d, spec);
    }
    forall w: nat | w < |d.workflows| && ForwardOnly(d, w)
      ensures ForwardOnly(Installed(d, spec), w)
    {
      InstalledForwardOld(d, spec, w);
    }
  }

  function OrderOf(d: Definitions, e: Execution): int {
    if e.stepId < |d.steps| then d.steps[e.stepId].order else 0
  }

  lemma SuccessorIsHigher(d: Definitions, q: Request, e: Execution, f: Execution)
    requires DefinitionsConsistent(d) && ForwardOnly(d, q.workflowId)
    requires Located(d, q, e) && Follows(d, q, e, f)
    ensures OrderOf(d, e) < OrderOf(d, f)
  {
    var fires := Fires(e.stepId, e.status, EvalContext(q.data, e.decisionData));
    var t := FirstWhere(d.transitions, fires).value;
    assert t in d.transitions && fires(t);
  }

  /** Orders rise along the walk, so no step runs twice. */
  lemma {:induction false} OrdersRise(d: Definitions, q: Request, es: seq<Execution>, i: nat, j: nat)
    requires DefinitionsConsistent(d) && ForwardOnly(d, q.workflowId)
    requires Walk(d, q, es) && i < j < |es|
    ensures OrderOf(d, es[i]) < OrderOf(d, es[j])
  {
    assert Located(d, q, es[j - 1]) && Follows(d, q, es[j - 1], es[j]);
    SuccessorIsHigher(d, q, es[j - 1], es[j]);
    if i < j - 1 {
      OrdersRise(d, q, es, i, j - 1);
    }
  }

  // -------------------------------------------------------------- potentials

  /** The total weight of the steps of a workflow whose order is above `order`. */
  function WeightAbove(steps: seq<Step>, w: nat, order: int, weight: Step -> nat): nat {
    if steps == [] then 0
    else
      var last := steps[|steps| - 1];
      WeightAbove(steps[..|steps| - 1], w, order, weight)
      + if last.workflowId == w && last.order > order then weight(last) else 0
  }

  lemma {:induction false} WeightDrops(steps: seq<Step>, w: nat, order: int, weight: Step -> nat, s: Step)
    requires s in steps && s.workflowId == w && s.order > order
    ensures weight(s) + WeightAbove(steps, w, s.order, weight) <= WeightAbove(steps, w, order, weight)
  {
    var front, last := steps[..|steps| - 1], steps[|steps| - 1];
    if s in front {
      WeightDrops(front, w, order, weight, s);
    } else {
      WeightMonotone(front, w, order, s.order, weight);
    }
  }

  lemma {:induction false} WeightMonotone(steps: seq<Step>, w: nat, low: int, high: int, weight: Step -> nat)
    requires low <= high
    ensures WeightAbove(steps, w, high, weight) <= WeightAbove(steps, w, low, weight)
  {
    if steps != [] {
      WeightMonotone(steps[..|steps| - 1], w, low, high, weight);
    }
  }

  function WalkWeight(d: Definitions, es: seq<Execution>, weight: Step -> nat): nat {
    if es == [] then 0
    else
      var last := es[|es| - 1];
      WalkWeight(d, es[..|es| - 1], weight) + if last.stepId < |d.steps| then weight(d.steps[last.stepId]) else 0
  }

  /** What a forward walk has used and what is still above it fit in the workflow. */
  lemma {:induction false} WalkFits(d: Definitions, q: Request, es: seq<Execution>, weight: Step -> nat, k: nat)
    requires DefinitionsConsistent(d) && ForwardOnly(d, q.workflowId)
    requires Walk(d, q, es) && k < |es|
    ensures WalkWeight(d, es[..k + 1], weight) + WeightAbove(d.steps, q.workflowId, OrderOf(d, es[k]), weight)
         <= WeightAbove(d.steps, q.workflowId, 0, weight)
  {
    assert Located(d, q, es[k]);
    assert es[..k + 1][..k] == es[..k];
    if k == 0 {
      WeightDrops(d.steps, q.workflowId, 0, weight, d.steps[es[0].stepId]);
    } else {
      WalkFits(d, q, es, weight, k - 1);
      OrdersRise(d, q, es, k - 1, k);
      WeightDrops(d.steps, q.workflowId, OrderOf(d, es[k - 1]), weight, d.steps[es[k].stepId]);
    }
  }

  lemma WalkWithin(d: Definitions, q: Request, es: seq<Execution>, weight: Step -> nat)
    requires DefinitionsConsistent(d) && ForwardOnly(d, q.workflowId) && Walk(d, q, es)
    ensures WalkWeight(d, es, weight) <= WeightAbove(d.steps, q.workflowId, 0, weight)
  {
    assert es[..|es|] == es;
    WalkFits(d, q, es, weight, |es| - 1);
  }

  // -------------------------------------------------------------- decisions

  function One(): Step -> nat {
    (s: Step) => 1
  }

  function StepOf(w: nat): Step -> bool {
    (s: Step) => s.workflowId == w
  }

  lemma {:induction false} CountBound(steps: seq<Step>, w: nat, order: int)
    ensures WeightAbove(steps, w, order, One()) <= Count(steps, StepOf(w))
  {
    if steps != [] {
      CountBound(steps[..|steps| - 1], w, order);
    }
  }

  lemma {:induction false} WalkLength(d: Definitions, q: Request, es: seq<Execution>)
    requires forall k | 0 <= k < |es| :: Located(d, q, es[k])
    ensures WalkWeight(d, es, One()) == |es|
  {
    if es != [] {
      var front := es[..|es| - 1];
      forall k | 0 <= k < |front|
        ensures Located(d, q, front[k])
      {
        assert Located(d, q, es[k]);
      }
      WalkLength(d, q, front);
      assert Located(d, q, es[|es| - 1]);
    }
  }

  /** In a forward workflow of `n` steps no step runs twice and a request takes at most `n` decisions: one that is still open
      has taken fewer than `n`. */
  lemma FinishesWithin(db: Database, r: nat)
    requires Reachable(db) && r < |db.requests|
    requires ForwardOnly(db.defs, db.requests[r].workflowId)
    ensures var c := CaseOf(db, r);
            var n := Count(db.defs.steps, StepOf(c.request.workflowId));
            && (forall i, j | 0 <= i < j < |c.executions| :: c.executions[i].stepId != c.executions[j].stepId)
            && |Decided(c)| <= n
            && (c.request.status != Completed ==> |Decided(c)| < n)
  {
    ReachableInvariant(db);
    var c := CaseOf(db, r);
    var es := c.executions;
    assert CaseInvariant(db.defs, c);
    forall i, j | 0 <= i < j < |es|
      ensures es[i].stepId != es[j].stepId
    {
      OrdersRise(db.defs, c.request, es, i, j);
    }
    WalkWithin(db.defs, c.request, es, One());
    WalkLength(db.defs, c.request, es);
    CountBound(db.defs.steps, c.request.workflowId, 0);
  }

  /** The steps of the workflow above the last execution of the request. */
  function StepsAhead(d: Definitions, c: Case): nat
    requires c.executions != []
  {
    WeightAbove(d.steps, c.request.workflowId, OrderOf(d, Last(c)), One())
  }

  lemma LastStepDescends(d: Definitions, q: Request, es: seq<Execution>)
    requires DefinitionsConsistent(d) && ForwardOnly(d, q.workflowId) && Walk(d, q, es) && |es| >= 2
    ensures WeightAbove(d.steps, q.workflowId, OrderOf(d, es[|es| - 1]), One())
          < WeightAbove(d.steps, q.workflowId, OrderOf(d, es[|es| - 2]), One())
  {
    var e, f := es[|es| - 2], es[|es| - 1];
    OrdersRise(d, q, es, |es| - 2, |es| - 1);
    assert Located(d, q, f);
    WeightDrops(d.steps, q.workflowId, OrderOf(d, e), One(), d.steps[f.stepId]);
  }

  lemma ContinuedDescends(d: Definitions, c: Case, closed: Execution, opening: Option<Execution>, now: Time)
    requires c.executions != [] && closed.stepId == Last(c).stepId
    requires DefinitionsConsistent(d) && ForwardOnly(d, c.request.workflowId)
    requires CaseInvariant(d, Continued(c, closed, opening, now))
    ensures var after := Continued(c, closed, opening, now);
            && after.executions != []
            && (after.request.status != Completed ==> opening.Some? && StepsAhead(d, after) < StepsAhead(d, c))
  {
    var after := Continued(c, closed, opening, now);
    if opening.Some? {
      assert after.executions[|after.executions| - 2] == closed;
      LastStepDescends(d, after.request, after.executions);
    }
  }

  /** Each decision that does not finish the request leaves strictly fewer steps ahead. */
  lemma DecisionDescends(db: Database, r: nat, user: User, outcome: Label, decision: Option<Object>, now: Time)
    requires Reachable(db) && Decide(db, r, user, outcome, decision, now).Ok?
    requires r < |db.requests| && ForwardOnly(db.defs, db.requests[r].workflowId)
    ensures var after := Decide(db, r, user, outcome, decision, now).value;
            && after.defs == db.defs
            && |after.requests| == |db.requests|
            && CaseOf(db, r).executions != [] && CaseOf(after, r).executions != []
            && (after.requests[r].status != Completed ==>
                  StepsAhead(db.defs, CaseOf(after, r)) < StepsAhead(db.defs, CaseOf(db, r)))
  {
    ReachableInvariant(db);
    var closed, opening := DecideKeeps(db, r, user, outcome, decision, now);
    var after := Decide(db, r, user, outcome, decision, now).value;
    assert CaseInvariant(after.defs, CaseOf(after, r));
    ContinuedDescends(db.defs, CaseOf(db, r), closed, opening, now);
  }

  // ------------------------------------------------------------------- time

  function SlaOf(): Step -> nat {
    (s: Step) => if s.slaHours >= 0 then s.slaHours else 0
  }

  /** Every closed execution met its deadline. */
  ghost predicate OnTime(es: seq<Execution>) {
    forall k | 0 <= k < |es| :: es[k].completedAt.Some? ==> es[k].completedAt.value <= es[k].deadline
  }

  lemma {:induction false} TimeUsed(d: Definitions, q: Request, es: seq<Execution>, k: nat)
    requires Walk(d, q, es) && OnTime(es) && k < |es| && es[k].completedAt.Some?
    ensures es[k].completedAt.value - es[0].startedAt <= WalkWeight(d, es[..k + 1], SlaOf()) * HOUR
  {
    assert Located(d, q, es[k]);
    assert es[..k + 1][..k] == es[..k];
    if k > 0 {
      assert Follows(d, q, es[k - 1], es[k]);
      TimeUsed(d, q, es, k - 1);
    }
  }

  /** From the start of the first execution to the completion of the request. */
  function Elapsed(c: Case): Time
    requires c.executions != [] && c.request.completedAt.Some?
  {
    c.request.completedAt.value - c.executions[0].startedAt
  }

  lemma CaseTime(d: Definitions, c: Case)
    requires CaseInvariant(d, c) && IsDone(d, c) && OnTime(c.executions)
    ensures Elapsed(c) <= WalkWeight(d, c.executions, SlaOf()) * HOUR
  {
    assert c.executions[..|c.executions|] == c.executions;
    TimeUsed(d, c.request, c.executions, |c.executions| - 1);
  }

  /** A request whose decisions all met their deadlines is done within the SLA hours of the steps it visited, and in a forward
      workflow within the SLA hours of all its steps. */
  lemma CompletionBound(db: Database, r: nat)
    requires Reachable(db) && r < |db.requests| && db.requests[r].status == Completed
    requires OnTime(CaseOf(db, r).executions)
    ensures var c := CaseOf(db, r);
            && c.executions != []
            && c.request.completedAt.Some?
            && Elapsed(c) <= WalkWeight(db.defs, c.executions, SlaOf()) * HOUR
            && (ForwardOnly(db.defs, c.request.workflowId) ==>
                  Elapsed(c) <= WeightAbove(db.defs.steps, c.request.workflowId, 0, SlaOf()) * HOUR)
  {
    ReachableInvariant(db);
    var c := CaseOf(db, r);
    assert CaseInvariant(db.defs, c);
    CaseTime(db.defs, c);
    if ForwardOnly(db.defs, c.request.workflowId) {
      WalkWithin(db.defs, c.request, c.executions, SlaOf());
    }
  }
}
