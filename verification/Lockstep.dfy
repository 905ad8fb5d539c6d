// The engine runs a compiled workflow in lock-step with a direct interpreter of its order-indexed specification.

module Lockstep {
  import opened Rows
  import opened Json
  import opened Conditions
  import opened StateMachine
  import opened Tables
  import opened Engine
  import opened Compiler
  import opened Runs
  import opened Cases

  // --------------------------------------------------------- the interpreter

  datatype Decision = Decision(outcome: Label, data: Option<Object>)

  datatype Position = At(order: int) | Finished(outcome: Label)

  function SpecFires(order: int, outcome: Label, context: Object): TransitionSpec -> bool {
    (t: TransitionSpec) => t.from == order && t.outcome == outcome && Holds(t.condition, context)
  }

  predicate HasOrder(spec: WorkflowSpec, order: int) {
    exists s <- spec.steps :: s.order == order
  }

  /** The order that a decision leads to. None ends the flow: no transition fires, or the one that does names no step. */
  function SpecNext(spec: WorkflowSpec, order: int, outcome: Label, context: Object): Option<int> {
    var t := FirstWhere(spec.transitions, SpecFires(order, outcome, context));
    if t.Some? && t.value.to.Some? && HasOrder(spec, t.value.to.value) then t.value.to else None
  }

  function Interpret(spec: WorkflowSpec, data: Object, decisions: seq<Decision>): Position {
    if decisions == [] then At(1)
    else
      var last := decisions[|decisions| - 1];
      match Interpret(spec, data, decisions[..|decisions| - 1])
      case Finished(outcome) => Finished(outcome)
      case At(order) =>
        var next := SpecNext(spec, order, last.outcome, EvalContext(data, last.data));
        if next.Some? then At(next.value) else Finished(last.outcome)
  }

  // ------------------------------------------------------ compiled transitions

  lemma StepIdsInjective(steps: seq<StepSpec>, base: nat)
    ensures var ids := StepIds(steps, base); forall o, p | o in ids && p in ids && ids[o] == ids[p] :: o == p
  {
    var ids := StepIds(steps, base);
    forall o, p | o in ids && p in ids && ids[o] == ids[p]
      ensures o == p
    {
      StepIdsExact(steps, base, o);
      StepIdsExact(steps, base, p);
    }
  }

  lemma {:induction false} FirstRow(
      transitions: seq<TransitionSpec>, ids: map<int, nat>, order: int, outcome: Label, context: Object)
    requires forall o, p | o in ids && p in ids && ids[o] == ids[p] :: o == p
    requires order in ids
    ensures var t := FirstWhere(transitions, SpecFires(order, outcome, context));
            FirstWhere(TransitionRows(transitions, ids), Fires(ids[order], outcome, context))
            == if t.Some? then Some(Transition(ids[order], IdOf(ids, t.value.to), t.value.outcome, t.value.condition))
               else None
  {
    if transitions != [] {
      var front, last := transitions[..|transitions| - 1], transitions[|transitions| - 1];
      assert transitions == front + [last];
      FirstRow(front, ids, order, outcome, context);
      FirstWhereConcat(front, [last], SpecFires(order, outcome, context));
      if last.from in ids {
        FirstWhereConcat(
          TransitionRows(front, ids), [Transition(ids[last.from], IdOf(ids, last.to), last.outcome, last.condition)],
          Fires(ids[order], outcome, context));
      }
    }
  }

  /** The successor of a compiled step is the compiled successor of its order. */
  lemma NextCompiled(spec: WorkflowSpec, base: nat, order: int, outcome: Label, context: Object)
    requires order in StepIds(spec.steps, base)
    ensures var ids := StepIds(spec.steps, base);
            Next(TransitionRows(spec.transitions, ids), ids[order], outcome, context)
            == IdOf(ids, SpecNext(spec, order, outcome, context))
    ensures SpecNext(spec, order, outcome, context).Some?
            ==> SpecNext(spec, order, outcome, context).value in StepIds(spec.steps, base)
  {
    StepIdsInjective(spec.steps, base);
    FirstRow(spec.transitions, StepIds(spec.steps, base), order, outcome, context);
    var t := FirstWhere(spec.transitions, SpecFires(order, outcome, context));
    if t.Some? && t.value.to.Some? {
      StepIdsExact(spec.steps, base, t.value.to.value);
    }
  }

  // -------------------------------------------------------------- placement

  /** The table holds `rows` from `base` on. */
  ghost predicate Holding(steps: seq<Step>, rows: seq<Step>, base: nat) {
    base + |rows| <= |steps| && forall i | 0 <= i < |rows| :: steps[base + i] == rows[i]
  }

  /** The steps of `spec`, with ids from `base`, have the successors that their own transition rows give them. */
  ghost predicate OwnSuccessors(transitions: seq<Transition>, spec: WorkflowSpec, base: nat) {
    forall s: nat, outcome, context | base <= s < base + |spec.steps| ::
      Next(transitions, s, outcome, context)
      == Next(TransitionRows(spec.transitions, StepIds(spec.steps, base)), s, outcome, context)
  }

  /** `d` holds the rows of `spec` as workflow `w`, with step ids from `base`, and nothing that interferes with them. */
  ghost predicate Placed(d: Definitions, spec: WorkflowSpec, w: nat, base: nat) {
    var rows := StepRows(spec.steps, w, base);
    && w < |d.workflows|
    && Holding(d.steps, rows, base)
    && FirstStep(d, w) == FirstWhere(rows, EntryStep(w))
    && OwnSuccessors(d.transitions, spec, base)
  }

  lemma InstalledEntry(d: Definitions, spec: WorkflowSpec)
    requires DefinitionsConsistent(d)
    ensures FirstStep(Installed(d, spec), |d.workflows|)
         == FirstWhere(StepRows(spec.steps, |d.workflows|, |d.steps|), EntryStep(|d.workflows|))
  {
    var entry := EntryStep(|d.workflows|);
    FirstWhereConcat(d.steps, StepRows(spec.steps, |d.workflows|, |d.steps|), entry);
    assert FirstWhere(d.steps, entry) == None;
  }

  lemma InstalledNext(d: Definitions, spec: WorkflowSpec, s: nat, outcome: Label, context: Object)
    requires DefinitionsConsistent(d) && s >= |d.steps|
    ensures Next(Installed(d, spec).transitions, s, outcome, context)
         == Next(TransitionRows(spec.transitions, StepIds(spec.steps, |d.steps|)), s, outcome, context)
  {
    var rows := TransitionRows(spec.transitions, StepIds(spec.steps, |d.steps|));
    FirstWhereConcat(d.transitions, rows, Fires(s, outcome, context));
    assert FirstWhere(d.transitions, Fires(s, outcome, context)) == None;
  }

  lemma InstalledSuccessors(d: Definitions, spec: WorkflowSpec)
    requires DefinitionsConsistent(d)
    ensures OwnSuccessors(Installed(d, spec).transitions, spec, |d.steps|)
  {
    forall s: nat, outcome, context | |d.steps| <= s < |d.steps| + |spec.steps|
      ensures Next(Installed(d, spec).transitions, s, outcome, context)
           == Next(TransitionRows(spec.transitions, StepIds(spec.steps, |d.steps|)), s, outcome, context)
    {
      InstalledNext(d, spec, s, outcome, context);
    }
  }

  lemma AppendedHolds(steps: seq<Step>, rows: seq<Step>)
    ensures Holding(steps + rows, rows, |steps|)
  {
  }

  lemma InstalledPlaces(d: Definitions, spec: WorkflowSpec)
    requires DefinitionsConsistent(d)
    ensures Placed(Installed(d, spec), spec, |d.workflows|, |d.steps|)
  {
    AppendedHolds(d.steps, StepRows(spec.steps, |d.workflows|, |d.steps|));
    InstalledEntry(d, spec);
    InstalledSuccessors(d, spec);
  }

  lemma ExtendsPlaces(d: Definitions, e: Definitions, spec: WorkflowSpec, w: nat, base: nat)
    requires Extends(d, e) && Placed(d, spec, w, base)
    ensures Placed(e, spec, w, base)
  {
    var rows := StepRows(spec.steps, w, base);
    forall i | 0 <= i < |rows|
      ensures e.steps[base + i] == rows[i]
    {
      assert e.steps[base + i] == d.steps[base + i];
    }
  }

  lemma ApplyPlaces(db: Database, event: Event, spec: WorkflowSpec, w: nat, base: nat)
    requires Consistent(db) && Placed(db.defs, spec, w, base)
    ensures Placed(Apply(db, event).defs, spec, w, base)
  {
    if event.Creating? && Outcome(db, event).Ok? {
      InstalledExtends(db.defs, event.spec);
      ExtendsPlaces(db.defs, Apply(db, event).defs, spec, w, base);
    }
  }

  lemma {:induction false} RunPlaces(db: Database, events: seq<Event>, spec: WorkflowSpec, w: nat, base: nat)
    requires Consistent(db) && Placed(db.defs, spec, w, base)
    ensures Placed(Run(db, events).defs, spec, w, base)
  {
    if events != [] {
      RunPlaces(db, events[..|events| - 1], spec, w, base);
      ApplyPlaces(Run(db, events[..|events| - 1]), events[|events| - 1], spec, w, base);
    }
  }

  // --------------------------------------------------------------- lock-step

  /** At most one step has order 1. The other orders may repeat. */
  ghost predicate UniqueEntry(spec: WorkflowSpec) {
    forall i, j | 0 <= i < |spec.steps| && 0 <= j < |spec.steps| && spec.steps[i].order == spec.steps[j].order == 1 :: i == j
  }

  function DecisionOn(): Execution -> Decision {
    (e: Execution) => Decision(e.status, e.decisionData)
  }

  function Decisions(es: seq<Execution>): seq<Decision> {
    Map(es, DecisionOn())
  }

  lemma DecisionsPrefix(es: seq<Execution>, k: nat)
    requires 0 < k <= |es|
    ensures Decisions(es[..k])[..k - 1] == Decisions(es[..k - 1])
    ensures Decisions(es[..k])[k - 1] == DecisionOn()(es[k - 1])
  {
  }

  lemma InterpretUnfold(spec: WorkflowSpec, q: Request, es: seq<Execution>, k: nat)
    requires 0 < k <= |es|
    ensures var e := es[k - 1];
            Interpret(spec, q.data, Decisions(es[..k]))
            == match Interpret(spec, q.data, Decisions(es[..k - 1]))
               case Finished(outcome) => Finished(outcome)
               case At(order) =>
                 var next := SpecNext(spec, order, e.status, EvalContext(q.data, e.decisionData));
                 if next.Some? then At(next.value) else Finished(e.status)
  {
    DecisionsPrefix(es, k);
  }

  /** The entry step is the step that order 1 stands for. */
  lemma EntryIsOrderOne(d: Definitions, spec: WorkflowSpec, w: nat, base: nat)
    requires Placed(d, spec, w, base) && UniqueEntry(spec) && FirstStep(d, w).Some?
    ensures 1 in StepIds(spec.steps, base) && FirstStep(d, w).value.id == StepIds(spec.steps, base)[1]
  {
    var rows := StepRows(spec.steps, w, base);
    var i := FirstWhereIsFirst(rows, EntryStep(w));
    StepIdsExact(spec.steps, base, 1);
    assert spec.steps[i] in spec.steps;
  }

  lemma TrackStep(
      d: Definitions, spec: WorkflowSpec, w: nat, base: nat, q: Request, e: Execution, f: Execution, order: int)
    requires Placed(d, spec, w, base) && Follows(d, q, e, f)
    requires order in StepIds(spec.steps, base) && e.stepId == StepIds(spec.steps, base)[order]
    ensures var next := SpecNext(spec, order, e.status, EvalContext(q.data, e.decisionData));
            && next.Some?
            && next.value in StepIds(spec.steps, base)
            && f.stepId == StepIds(spec.steps, base)[next.value]
  {
    StepIdsExact(spec.steps, base, order);
    NextCompiled(spec, base, order, e.status, EvalContext(q.data, e.decisionData));
  }

  /** Every execution of a request is at the step that the interpreter's order stands for. */
  lemma {:induction false} WalkTracks(
      d: Definitions, spec: WorkflowSpec, w: nat, base: nat, q: Request, es: seq<Execution>, k: nat)
    requires Placed(d, spec, w, base) && UniqueEntry(spec)
    requires Walk(d, q, es) && q.workflowId == w && k < |es|
    ensures var p := Interpret(spec, q.data, Decisions(es[..k]));
            && p.At?
            && p.order in StepIds(spec.steps, base)
            && es[k].stepId == StepIds(spec.steps, base)[p.order]
  {
    if k == 0 {
      assert Decisions(es[..0]) == [];
      EntryIsOrderOne(d, spec, w, base);
    } else {
      WalkTracks(d, spec, w, base, q, es, k - 1);
      assert Follows(d, q, es[k - 1], es[k]);
      InterpretUnfold(spec, q, es, k);
      TrackStep(d, spec, w, base, q, es[k - 1], es[k], Interpret(spec, q.data, Decisions(es[..k - 1])).order);
    }
  }

  /** Where the engine has a request: at the order of its current step, or finished with its last outcome. */
  function EnginePosition(d: Definitions, c: Case): Option<Position> {
    if c.executions == [] then None
    else if c.request.status == Completed then Some(Finished(Last(c).status))
    else if c.request.currentStep.Some? && c.request.currentStep.value < |d.steps| then
      Some(At(d.steps[c.request.currentStep.value].order))
    else None
  }

  /** The interpreter is at an order that stands for the step of the last execution. */
  ghost predicate Tracked(spec: WorkflowSpec, base: nat, c: Case)
    requires c.executions != []
  {
    var p := Interpret(spec, c.request.data, Decisions(c.executions[..|c.executions| - 1]));
    && p.At?
    && p.order in StepIds(spec.steps, base)
    && Last(c).stepId == StepIds(spec.steps, base)[p.order]
  }

  lemma OpenInLockstep(d: Definitions, spec: WorkflowSpec, w: nat, base: nat, c: Case)
    requires Placed(d, spec, w, base)
    requires c.executions != [] && IsOpen(c) && Tracked(spec, base, c)
    ensures EnginePosition(d, c) == Some(Interpret(spec, c.request.data, Decisions(Decided(c))))
  {
    var order := Interpret(spec, c.request.data, Decisions(c.executions[..|c.executions| - 1])).order;
    StepIdsExact(spec.steps, base, order);
    var i := Last(c).stepId - base;
    assert d.steps[base + i] == StepRows(spec.steps, w, base)[i];
  }

  lemma DoneInLockstep(d: Definitions, spec: WorkflowSpec, w: nat, base: nat, c: Case)
    requires Placed(d, spec, w, base)
    requires c.executions != [] && IsDone(d, c) && Tracked(spec, base, c)
    ensures EnginePosition(d, c) == Some(Interpret(spec, c.request.data, Decisions(Decided(c))))
  {
    var n := |c.executions|;
    var order := Interpret(spec, c.request.data, Decisions(c.executions[..n - 1])).order;
    assert c.executions[..n] == c.executions;
    InterpretUnfold(spec, c.request, c.executions, n);
    StepIdsExact(spec.steps, base, order);
    var context := EvalContext(c.request.data, Last(c).decisionData);
    NextCompiled(spec, base, order, Last(c).status, context);
    assert Next(d.transitions, Last(c).stepId, Last(c).status, context) == None;
  }

  lemma CaseInLockstep(d: Definitions, spec: WorkflowSpec, w: nat, base: nat, c: Case)
    requires Placed(d, spec, w, base) && UniqueEntry(spec)
    requires CaseInvariant(d, c) && c.request.workflowId == w
    ensures EnginePosition(d, c) == Some(Interpret(spec, c.request.data, Decisions(Decided(c))))
  {
    WalkTracks(d, spec, w, base, c.request, c.executions, |c.executions| - 1);
    if IsOpen(c) {
      OpenInLockstep(d, spec, w, base, c);
    } else {
      DoneInLockstep(d, spec, w, base, c);
    }
  }

  /** Once a workflow has been created from a specification, every request of it is, in every later state of any interleaved
      run, where the interpreter is after the decisions made on that request. */
  lemma RunsInLockstep(db: Database, spec: WorkflowSpec, events: seq<Event>, r: nat)
    requires Reachable(db) && Create(db, spec).Ok? && UniqueEntry(spec)
    ensures Consistent(Create(db, spec).value)
    ensures var after := Run(Create(db, spec).value, events);
            r < |after.requests| && after.requests[r].workflowId == |db.defs.workflows| ==>
              EnginePosition(after.defs, CaseOf(after, r))
              == Some(Interpret(spec, after.requests[r].data, Decisions(Decided(CaseOf(after, r)))))
  {
    ReachableInvariant(db);
    CreateKeeps(db, spec);
    InstalledPlaces(db.defs, spec);
    var created := Create(db, spec).value;
    RunKeeps(created, events);
    RunPlaces(created, events, spec, |db.defs.workflows|, |db.defs.steps|);
    var after := Run(created, events);
    if r < |after.requests| && after.requests[r].workflowId == |db.defs.workflows| {
      CaseInLockstep(after.defs, spec, |db.defs.workflows|, |db.defs.steps|, CaseOf(after, r));
    }
  }

  lemma ContinuedDecided(c: Case, closed: Execution, opening: Option<Execution>, now: Time)
    requires c.executions != [] && Last(c).completedAt.None? && closed.completedAt.Some?
    requires opening.Some? ==> opening.value.completedAt.None?
    ensures Decided(Continued(c, closed, opening, now)) == Decided(c) + [closed]
    ensures Decisions(Decided(c) + [closed]) == Decisions(Decided(c)) + [DecisionOn()(closed)]
  {
    var after := Continued(c, closed, opening, now);
    if opening.Some? {
      assert after.executions[..|after.executions| - 1] == Decided(c) + [closed];
    }
  }

  /** A successful decision adds itself to the decisions of its request. */
  lemma DecisionAppends(db: Database, r: nat, user: User, outcome: Label, decision: Option<Object>, now: Time)
    requires Invariant(db) && Decide(db, r, user, outcome, decision, now).Ok?
    ensures var after := Decide(db, r, user, outcome, decision, now).value;
            && Invariant(after)
            && after.defs == db.defs
            && r < |db.requests| == |after.requests|
            && after.requests[r].data == db.requests[r].data
            && after.requests[r].workflowId == db.requests[r].workflowId
            && Decisions(Decided(CaseOf(after, r)))
               == Decisions(Decided(CaseOf(db, r))) + [Decision(outcome, decision)]
  {
    var closed, opening := DecideKeeps(db, r, user, outcome, decision, now);
    ContinuedDecided(CaseOf(db, r), closed, opening, now);
  }

  /** A decision that an administrator sends on request `r`, with a storable outcome. */
  function IsDirect(r: nat): Event -> bool {
    (e: Event) => e.Deciding? && e.requestId == r && IsAdmin(e.user) && !e.outcome.OTHER?
  }

  function Sent(): Event -> Decision {
    (e: Event) => if e.Deciding? then Decision(e.outcome, e.decision) else Decision(PENDING, None)
  }

  /** Request `r` belongs to workflow `w` and is where the interpreter is after `sent`. */
  ghost predicate InStep(db: Database, spec: WorkflowSpec, w: nat, r: nat, data: Object, sent: seq<Decision>) {
    && r < |db.requests|
    && db.requests[r].workflowId == w
    && db.requests[r].data == data
    && EnginePosition(db.defs, CaseOf(db, r)) == Some(Interpret(spec, data, sent))
  }

  lemma OpenStep(
      db: Database, spec: WorkflowSpec, w: nat, base: nat, r: nat, data: Object, sent: seq<Decision>, e: Event)
    requires Invariant(db) && Placed(db.defs, spec, w, base) && UniqueEntry(spec)
    requires InStep(db, spec, w, r, data, sent) && IsDirect(r)(e) && Outcome(db, e).Ok?
    ensures InStep(Apply(db, e), spec, w, r, data, sent + [Sent()(e)])
  {
    var c := CaseOf(db, r);
    assert CaseInvariant(db.defs, c);
    CaseInLockstep(db.defs, spec, w, base, c);
    InterpretAppend(spec, data, sent, Decisions(Decided(c)), Sent()(e));
    DecisionAppends(db, r, e.user, e.outcome, e.decision, e.now);
    var after := Apply(db, e);
    assert CaseInvariant(after.defs, CaseOf(after, r));
    CaseInLockstep(after.defs, spec, w, base, CaseOf(after, r));
  }

  lemma DirectStep(
      db: Database, spec: WorkflowSpec, w: nat, base: nat, r: nat, data: Object, sent: seq<Decision>, e: Event)
    requires Invariant(db) && Placed(db.defs, spec, w, base) && UniqueEntry(spec)
    requires InStep(db, spec, w, r, data, sent) && IsDirect(r)(e)
    ensures InStep(Apply(db, e), spec, w, r, data, sent + [Sent()(e)])
  {
    assert CaseInvariant(db.defs, CaseOf(db, r));
    DecisionVerdict(db, r, e.user, e.outcome, e.decision, e.now);
    if db.requests[r].status == InProgress {
      OpenStep(db, spec, w, base, r, data, sent, e);
    } else {
      InterpretAppend(spec, data, sent, sent, Sent()(e));
    }
  }

  /** The engine, sent any list of decisions on one request, ends where the interpreter ends on that list: the decisions that
      come after the end are refused by the one and ignored by the other. */
  lemma {:induction false} DirectRunInLockstep(
      db: Database, spec: WorkflowSpec, w: nat, base: nat, r: nat, data: Object, events: seq<Event>)
    requires Invariant(db) && Placed(db.defs, spec, w, base) && UniqueEntry(spec)
    requires InStep(db, spec, w, r, data, [])
    requires forall e <- events :: IsDirect(r)(e)
    ensures InStep(Run(db, events), spec, w, r, data, Map(events, Sent()))
  {
    if events == [] {
      assert Map(events, Sent()) == [];
    } else {
      var front, last := events[..|events| - 1], events[|events| - 1];
      assert events == front + [last] && last in events;
      MapAppend(front, last, Sent());
      RunAppend(db, front, last);
      DirectRunInLockstep(db, spec, w, base, r, data, front);
      RunKeeps(db, front);
      RunPlaces(db, front, spec, w, base);
      DirectStep(Run(db, front), spec, w, base, r, data, Map(front, Sent()), last);
    }
  }

  /** A request that was just started is where the interpreter starts. */
  lemma StartedInStep(
      db: Database, spec: WorkflowSpec, w: nat, base: nat, requester: nat, data: Object, now: Time)
    requires Invariant(db) && Placed(db.defs, spec, w, base) && UniqueEntry(spec)
    requires Start(db, w, requester, data, now, true).Ok?
    ensures var after := Start(db, w, requester, data, now, true).value;
            && Invariant(after)
            && after.defs == db.defs
            && InStep(after, spec, w, |db.requests|, data, [])
  {
    StartKeeps(db, w, requester, data, now);
    StartedCases(db, w, requester, data, now);
    var after := Start(db, w, requester, data, now, true).value;
    var c := CaseOf(after, |db.requests|);
    assert CaseInvariant(after.defs, c);
    CaseInLockstep(after.defs, spec, w, base, c);
    assert Decisions(Decided(c)) == [];
  }

  lemma InterpretAppend(spec: WorkflowSpec, data: Object, xs: seq<Decision>, ys: seq<Decision>, d: Decision)
    requires Interpret(spec, data, xs) == Interpret(spec, data, ys)
    ensures Interpret(spec, data, xs + [d]) == Interpret(spec, data, ys + [d])
    ensures Interpret(spec, data, xs).Finished? ==> Interpret(spec, data, xs + [d]) == Interpret(spec, data, xs)
  {
    assert (xs + [d])[..|xs|] == xs && (ys + [d])[..|ys|] == ys;
  }

  // --------------------------------------------- when order 1 is not unique

  /** Transitions leave only from the last step of each order. */
  lemma {:induction false} UnmappedHasNoRows(
      steps: seq<StepSpec>, base: nat, transitions: seq<TransitionSpec>, id: nat, outcome: Label, context: Object)
    requires base <= id < base + |steps|
    requires !LastWithOrder(steps, id - base, steps[id - base].order)
    ensures FirstWhere(TransitionRows(transitions, StepIds(steps, base)), Fires(id, outcome, context)) == None
  {
    if transitions != [] {
      var front, last := transitions[..|transitions| - 1], transitions[|transitions| - 1];
      var ids := StepIds(steps, base);
      UnmappedHasNoRows(steps, base, front, id, outcome, context);
      if last.from in ids {
        StepIdsExact(steps, base, last.from);
        FirstWhereConcat(
          TransitionRows(front, ids), [Transition(ids[last.from], IdOf(ids, last.to), last.outcome, last.condition)],
          Fires(id, outcome, context));
      }
    }
  }

  /** The specification leads nowhere from order 1, whatever decision is made on whatever request. */
  ghost predicate StopsAfterEntry(spec: WorkflowSpec) {
    forall outcome: Label, data, decision | !outcome.OTHER? ::
      SpecNext(spec, 1, outcome, EvalContext(data, decision)) == None
  }

  ghost predicate IsStuck(transitions: seq<Transition>, id: nat) {
    forall outcome, context :: Next(transitions, id, outcome, context) == None
  }

  /** A step of order 1 other than the last one has no transitions at all: a request that starts there is finished by its first
      decision. */
  lemma RepeatedEntryIsStuck(d: Definitions, spec: WorkflowSpec, w: nat, base: nat, id: nat)
    requires Placed(d, spec, w, base)
    requires base <= id < base + |spec.steps| && spec.steps[id - base].order == 1
    requires !LastWithOrder(spec.steps, id - base, 1)
    ensures IsStuck(d.transitions, id)
  {
    forall outcome, context
      ensures Next(d.transitions, id, outcome, context) == None
    {
      UnmappedHasNoRows(spec.steps, base, spec.transitions, id, outcome, context);
    }
  }

  /** Whichever step of order 1 a start picks: the first decision there does what the specification says, for every decision
      on every request, if and only if it is the last step of order 1 or the specification stops after order 1 anyway. */
  lemma EntryFollowsIff(d: Definitions, spec: WorkflowSpec, w: nat, base: nat, id: nat)
    requires Placed(d, spec, w, base)
    requires base <= id < base + |spec.steps| && spec.steps[id - base].order == 1
    ensures (forall outcome: Label, data, decision | !outcome.OTHER? ::
               Next(d.transitions, id, outcome, EvalContext(data, decision))
               == IdOf(StepIds(spec.steps, base), SpecNext(spec, 1, outcome, EvalContext(data, decision))))
       <==> LastWithOrder(spec.steps, id - base, 1) || StopsAfterEntry(spec)
  {
    var ids := StepIds(spec.steps, base);
    StepIdsExact(spec.steps, base, 1);
    if LastWithOrder(spec.steps, id - base, 1) {
      forall outcome, context
        ensures Next(d.transitions, id, outcome, context) == IdOf(ids, SpecNext(spec, 1, outcome, context))
      {
        NextCompiled(spec, base, 1, outcome, context);
      }
    } else {
      RepeatedEntryIsStuck(d, spec, w, base, id);
      forall outcome, context
        ensures IdOf(ids, SpecNext(spec, 1, outcome, context)) == None <==> SpecNext(spec, 1, outcome, context) == None
      {
        NextCompiled(spec, base, 1, outcome, context);
      }
    }
  }

  /** With a repeated order 1 the first of its rows is not the last. */
  lemma RepeatedEntry(spec: WorkflowSpec, w: nat, base: nat)
    requires !UniqueEntry(spec)
    ensures var first := FirstWhere(StepRows(spec.steps, w, base), EntryStep(w));
            && first.Some?
            && base <= first.value.id < base + |spec.steps|
            && spec.steps[first.value.id - base].order == 1
            && !LastWithOrder(spec.steps, first.value.id - base, 1)
  {
    var rows := StepRows(spec.steps, w, base);
    var i, j :|
      0 <= i < |spec.steps| && 0 <= j < |spec.steps| && spec.steps[i].order == spec.steps[j].order == 1 && i != j;
    assert EntryStep(w)(rows[i]) && EntryStep(w)(rows[j]) && rows[i] in rows;
    var k := FirstWhereIsFirst(rows, EntryStep(w));
    var later := if i < j then j else i;
    assert rows[k].id == base + k && k < later;
    assert !LastWithOrder(spec.steps, k, 1);
  }

  lemma EntryIsStuck(d: Definitions, spec: WorkflowSpec, w: nat, base: nat)
    requires Placed(d, spec, w, base) && !UniqueEntry(spec)
    ensures w < |d.workflows| && FirstStep(d, w).Some?
    ensures IsStuck(d.transitions, FirstStep(d, w).value.id)
  {
    RepeatedEntry(spec, w, base);
    RepeatedEntryIsStuck(d, spec, w, base, FirstStep(d, w).value.id);
  }

  ghost predicate InLockstep(db: Database, spec: WorkflowSpec, w: nat, r: nat) {
    r < |db.requests| && db.requests[r].workflowId == w ==>
      EnginePosition(db.defs, CaseOf(db, r))
      == Some(Interpret(spec, db.requests[r].data, Decisions(Decided(CaseOf(db, r)))))
  }

  lemma NothingFollows(d: Definitions, q: Request, e: Execution, f: Execution)
    requires IsStuck(d.transitions, e.stepId)
    ensures !Follows(d, q, e, f)
  {
  }

  lemma StuckRunsOnce(d: Definitions, q: Request, es: seq<Execution>)
    requires Walk(d, q, es) && IsStuck(d.transitions, FirstStep(d, q.workflowId).value.id)
    ensures |es| == 1
  {
    if |es| > 1 {
      NothingFollows(d, q, es[0], es[1]);
    }
  }

  /** A request that is stuck where it started has one execution, and is where the interpreter is if the specification stops
      there too. */
  lemma StuckInLockstep(d: Definitions, spec: WorkflowSpec, w: nat, base: nat, c: Case)
    requires Placed(d, spec, w, base) && !UniqueEntry(spec) && StopsAfterEntry(spec)
    requires CaseInvariant(d, c) && c.request.workflowId == w && !Last(c).status.OTHER?
    ensures EnginePosition(d, c) == Some(Interpret(spec, c.request.data, Decisions(Decided(c))))
  {
    EntryIsStuck(d, spec, w, base);
    StuckRunsOnce(d, c.request, c.executions);
    assert Located(d, c.request, Last(c));
    OnePosition(d, spec, c);
  }

  /** With one execution, at a step of order 1. */
  lemma OnePosition(d: Definitions, spec: WorkflowSpec, c: Case)
    requires StopsAfterEntry(spec) && |c.executions| == 1 && (IsOpen(c) || IsDone(d, c))
    requires Last(c).stepId < |d.steps| && d.steps[Last(c).stepId].order == 1 && !Last(c).status.OTHER?
    ensures EnginePosition(d, c) == Some(Interpret(spec, c.request.data, Decisions(Decided(c))))
  {
    assert Decisions(c.executions[..0]) == [];
    if IsDone(d, c) {
      InterpretUnfold(spec, c.request, c.executions, 1);
      assert c.executions[..1] == c.executions;
      assert SpecNext(spec, 1, Last(c).status, EvalContext(c.request.data, Last(c).decisionData)) == None;
    }
  }

  /** Lock-step in a state that satisfies the invariant, when the specification meets either condition. */
  lemma StateInLockstep(db: Database, spec: WorkflowSpec, w: nat, base: nat, r: nat)
    requires Invariant(db) && Placed(db.defs, spec, w, base)
    requires UniqueEntry(spec) || StopsAfterEntry(spec)
    ensures InLockstep(db, spec, w, r)
  {
    if r < |db.requests| && db.requests[r].workflowId == w {
      var c := CaseOf(db, r);
      assert CaseInvariant(db.defs, c);
      FilterMembers(db.executions, ExecutionOf(r));
      assert Last(c) in db.executions;
      if UniqueEntry(spec) {
        CaseInLockstep(db.defs, spec, w, base, c);
      } else {
        StuckInLockstep(db.defs, spec, w, base, c);
      }
    }
  }

  function Administrator(): User {
    User(0, [Role(0, "admin", [])])
  }

  /** A start and one decision by an administrator. */
  function StartAndDecide(w: nat, r: nat, outcome: Label, data: Object, decision: Option<Object>): seq<Event> {
    [Starting(w, 0, data, 0, true), Deciding(r, Administrator(), outcome, decision, 0)]
  }

  lemma AdministratorIsAdmin()
    ensures IsAdmin(Administrator())
  {
    assert Lower("admin") == "admin";
    assert Administrator().roles[0] in Administrator().roles;
  }

  lemma StuckDecisionFinishes(
      db: Database, r: nat, user: User, outcome: Label, decision: Option<Object>, now: Time)
    requires Invariant(db) && Decide(db, r, user, outcome, decision, now).Ok?
    requires r < |db.requests| && CaseOf(db, r).executions != [] && IsStuck(db.defs.transitions, Last(CaseOf(db, r)).stepId)
    ensures var after := Decide(db, r, user, outcome, decision, now).value;
            && r < |after.requests|
            && EnginePosition(after.defs, CaseOf(after, r)) == Some(Finished(outcome))
  {
    var closed, opening := DecideKeeps(db, r, user, outcome, decision, now);
    assert Successor(db.defs, db.requests[r], closed) == None;
  }

  lemma FirstDecisionFinishes(
      db: Database, r: nat, user: User, outcome: Label, decision: Option<Object>, now: Time)
    requires Invariant(db) && r < |db.requests| && db.requests[r].status == InProgress
    requires |CaseOf(db, r).executions| == 1 && Last(CaseOf(db, r)).completedAt.None?
    requires IsStuck(db.defs.transitions, Last(CaseOf(db, r)).stepId)
    requires IsAdmin(user) && !outcome.OTHER?
    ensures var after := Apply(db, Deciding(r, user, outcome, decision, now));
            && r < |after.requests|
            && after.requests[r].data == db.requests[r].data
            && after.requests[r].workflowId == db.requests[r].workflowId
            && EnginePosition(after.defs, CaseOf(after, r)) == Some(Finished(outcome))
            && Decisions(Decided(CaseOf(after, r))) == [Decision(outcome, decision)]
  {
    DecisionVerdict(db, r, user, outcome, decision, now);
    StuckDecisionFinishes(db, r, user, outcome, decision, now);
    DecisionAppends(db, r, user, outcome, decision, now);
    assert Decisions(Decided(CaseOf(db, r))) == [];
  }

  lemma InterpretOne(spec: WorkflowSpec, data: Object, d: Decision)
    requires SpecNext(spec, 1, d.outcome, EvalContext(data, d.data)).Some?
    ensures Interpret(spec, data, [d]).At?
  {
    assert [d][..0] == [];
  }

  lemma StartedOpen(db: Database, w: nat, data: Object)
    requires Invariant(db) && w < |db.defs.workflows| && db.defs.workflows[w].active && FirstStep(db.defs, w).Some?
    ensures var started := Apply(db, Starting(w, 0, data, 0, true));
            var r := |db.requests|;
            && Invariant(started)
            && started.defs == db.defs
            && r < |started.requests|
            && CaseOf(started, r).request == Request(r, w, 0, Some(FirstStep(db.defs, w).value.id), InProgress, data, None)
            && |CaseOf(started, r).executions| == 1
            && Last(CaseOf(started, r)).completedAt.None?
            && Last(CaseOf(started, r)).stepId == FirstStep(db.defs, w).value.id
  {
    var started := Start(db, w, 0, data, 0, true);
    assert started.Ok?;
    StartKeeps(db, w, 0, data, 0);
    StartedCases(db, w, 0, data, 0);
  }

  /** From a stuck entry step a start and one decision lead to the end. */
  lemma StuckRun(db: Database, w: nat, outcome: Label, data: Object, decision: Option<Object>)
    requires Invariant(db) && w < |db.defs.workflows| && db.defs.workflows[w].active
    requires FirstStep(db.defs, w).Some? && IsStuck(db.defs.transitions, FirstStep(db.defs, w).value.id)
    requires !outcome.OTHER?
    ensures var r := |db.requests|;
            var after := Run(db, StartAndDecide(w, r, outcome, data, decision));
            && r < |after.requests|
            && after.requests[r].data == data
            && after.requests[r].workflowId == w
            && EnginePosition(after.defs, CaseOf(after, r)) == Some(Finished(outcome))
            && Decisions(Decided(CaseOf(after, r))) == [Decision(outcome, decision)]
  {
    var r := |db.requests|;
    StartedOpen(db, w, data);
    AdministratorIsAdmin();
    var start, decide := Starting(w, 0, data, 0, true), Deciding(r, Administrator(), outcome, decision, 0);
    FirstDecisionFinishes(Apply(db, start), r, Administrator(), outcome, decision, 0);
    RunTwo(db, start, decide);
  }

  /** The run that leaves the specification behind: the engine finishes where the specification goes on. */
  lemma FailingRun(
      db: Database, spec: WorkflowSpec, w: nat, base: nat, outcome: Label, data: Object, decision: Option<Object>)
    requires Invariant(db) && Placed(db.defs, spec, w, base) && !UniqueEntry(spec)
    requires db.defs.workflows[w].active && !outcome.OTHER?
    requires SpecNext(spec, 1, outcome, EvalContext(data, decision)).Some?
    ensures !InLockstep(
              Run(db, StartAndDecide(w, |db.requests|, outcome, data, decision)), spec, w, |db.requests|)
  {
    EntryIsStuck(db.defs, spec, w, base);
    StuckRun(db, w, outcome, data, decision);
    InterpretOne(spec, data, Decision(outcome, decision));
  }

  /** A created workflow runs in lock-step with its specification, for every request in every later state of every interleaved
      run, if and only if order 1 is unique or the specification stops after order 1. Otherwise a start and one decision
      suffice to part them. */
  lemma RunsInLockstepIff(db: Database, spec: WorkflowSpec)
    requires Reachable(db) && Create(db, spec).Ok?
    ensures Consistent(Create(db, spec).value)
    ensures (forall events, r: nat :: InLockstep(Run(Create(db, spec).value, events), spec, |db.defs.workflows|, r))
       <==> UniqueEntry(spec) || StopsAfterEntry(spec)
  {
    ReachableInvariant(db);
    CreateKeeps(db, spec);
    InstalledPlaces(db.defs, spec);
    var created, w, base := Create(db, spec).value, |db.defs.workflows|, |db.defs.steps|;
    if UniqueEntry(spec) || StopsAfterEntry(spec) {
      forall events, r: nat
        ensures InLockstep(Run(created, events), spec, w, r)
      {
        RunKeeps(created, events);
        RunPlaces(created, events, spec, w, base);
        StateInLockstep(Run(created, events), spec, w, base, r);
      }
    } else {
      var outcome: Label, data, decision :|
        !outcome.OTHER? && SpecNext(spec, 1, outcome, EvalContext(data, decision)) != None;
      FailingRun(created, spec, w, base, outcome, data, decision);
    }
  }
}
