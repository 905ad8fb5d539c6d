// From an editing session to a finished request.

module EndToEnd {
  import opened Rows
  import opened Json
  import opened Conditions
  import opened StateMachine
  import opened Tables
  import opened Engine
  import opened Compiler
  import opened Runs
  import opened Cases
  import opened Lockstep
  import opened AuditTrail
  import opened Bisimulation
  import opened Builders

  // ------------------------------------------------ both builders are alike

  lemma TransitionRowsAppend(ts: seq<TransitionSpec>, t: TransitionSpec, ids: map<int, nat>)
    ensures TransitionRows(ts + [t], ids)
         == TransitionRows(ts, ids)
            + if t.from in ids then [Transition(ids[t.from], IdOf(ids, t.to), t.outcome, t.condition)] else []
  {
    assert (ts + [t])[..|ts|] == ts;
  }

  lemma FiresAppend(
      ts: seq<TransitionSpec>, t: TransitionSpec, ids: map<int, nat>, s: nat, outcome: Label, context: Object)
    ensures var before := FirstWhere(TransitionRows(ts, ids), Fires(s, outcome, context));
            FirstWhere(TransitionRows(ts + [t], ids), Fires(s, outcome, context))
            == if before.Some? then before
               else if t.from in ids && ids[t.from] == s && t.outcome == outcome && Holds(t.condition, context) then
                 Some(Transition(s, IdOf(ids, t.to), t.outcome, t.condition))
               else None
  {
    TransitionRowsAppend(ts, t, ids);
    if t.from in ids {
      FirstWhereConcat(
        TransitionRows(ts, ids), [Transition(ids[t.from], IdOf(ids, t.to), t.outcome, t.condition)],
        Fires(s, outcome, context));
    }
  }

  /** The edges of the two builders fire alike, except that an explicit rejection edge ends a flow that would end anyway. */
  lemma {:induction false} EdgesAlike(
      steps: seq<StepSpec>, k: nat, ids: map<int, nat>, s: nat, outcome: Label, context: Object)
    requires k <= |steps|
    ensures var approved := FirstWhere(TransitionRows(ApprovedEdges(steps, k), ids), Fires(s, outcome, context));
            var both := FirstWhere(TransitionRows(BothEdges(steps, k), ids), Fires(s, outcome, context));
            if outcome == APPROVED then approved == both
            else
              approved == None && (both.Some? ==> both.value.toStep == None)
  {
    if k > 0 {
      EdgesAlike(steps, k - 1, ids, s, outcome, context);
      var a, b := ApprovedEdges(steps, k - 1), BothEdges(steps, k - 1);
      var x, y := ApprovedEdge(steps, k - 1), RejectedEdge(steps, k - 1);
      FiresAppend(a, x, ids, s, outcome, context);
      FiresAppend(b, x, ids, s, outcome, context);
      FiresAppend(b + [x], y, ids, s, outcome, context);
      assert b + [x, y] == (b + [x]) + [y];
    }
  }

  lemma BuildersSameNext(d: Definitions, name: string, steps: seq<StepSpec>)
    requires DefinitionsConsistent(d)
    ensures SameNext(
              Installed(d, ApprovedSpec(name, steps)).transitions, Installed(d, BothSpec(name, steps)).transitions,
              |d.steps| + |steps|)
  {
    var approved, both := ApprovedSpec(name, steps), BothSpec(name, steps);
    InstalledExtends(d, approved);
    InstalledExtends(d, both);
    InstalledPlaces(d, approved);
    InstalledPlaces(d, both);
    forall s: nat, outcome, context | s < |d.steps| + |steps|
      ensures Next(Installed(d, approved).transitions, s, outcome, context)
           == Next(Installed(d, both).transitions, s, outcome, context)
    {
      if s >= |d.steps| {
        EdgesAlike(steps, |steps|, StepIds(steps, |d.steps|), s, outcome, context);
      }
    }
  }

  /** The two builders are interchangeable. For any list of steps, creating the workflow with approval edges only or with
      explicit rejection edges as well leads, over every later run, to databases that are equal but for the transition
      rows. */
  lemma BuildersBisimilar(db: Database, name: string, steps: seq<StepSpec>, events: seq<Event>)
    requires Consistent(db) && !NameTaken(db.defs, name)
    ensures var approved := Create(db, ApprovedSpec(name, steps)).value;
            var both := Create(db, BothSpec(name, steps)).value;
            && Consistent(approved) && Consistent(both)
            && Similar(Run(approved, events), Run(both, events))
  {
    var approved := Create(db, ApprovedSpec(name, steps)).value;
    var both := Create(db, BothSpec(name, steps)).value;
    InstalledConsistent(db.defs, ApprovedSpec(name, steps));
    InstalledConsistent(db.defs, BothSpec(name, steps));
    BuildersSameNext(db.defs, name, steps);
    RunSimilar(approved, both, events);
  }

  // -------------------------------------------------------- linear workflows

  /** Steps numbered 1 to n. */
  ghost predicate Numbered(steps: seq<StepSpec>) {
    forall i | 0 <= i < |steps| :: steps[i].order == i + 1
  }

  lemma {:induction false} LinearEdges(steps: seq<StepSpec>, k: nat, order: int, outcome: Label, context: Object)
    requires Numbered(steps) && k <= |steps|
    ensures FirstWhere(BothEdges(steps, k), SpecFires(order, outcome, context))
         == if !(1 <= order <= k) then None
            else if outcome == APPROVED then Some(ApprovedEdge(steps, order - 1))
            else if outcome == REJECTED then Some(RejectedEdge(steps, order - 1))
            else None
  {
    if k > 0 {
      LinearEdges(steps, k - 1, order, outcome, context);
      var x, y := ApprovedEdge(steps, k - 1), RejectedEdge(steps, k - 1);
      FirstWhereAppendTwo(BothEdges(steps, k - 1), x, y, SpecFires(order, outcome, context));
    }
  }

  /** Approval leads to the next order, until the last; any other outcome ends the flow. */
  lemma LinearNext(name: string, steps: seq<StepSpec>, order: int, outcome: Label, context: Object)
    requires Numbered(steps) && 1 <= order <= |steps|
    ensures SpecNext(BothSpec(name, steps), order, outcome, context)
         == if outcome == APPROVED && order < |steps| then Some(order + 1) else None
  {
    LinearEdges(steps, |steps|, order, outcome, context);
    if order < |steps| {
      assert steps[order] in steps;
    }
  }

  /** The number of leading approvals. */
  function Approvals(decisions: seq<Decision>): nat {
    if decisions == [] || decisions[0].outcome != APPROVED then 0 else 1 + Approvals(decisions[1..])
  }

  lemma {:induction false} ApprovalsAppend(decisions: seq<Decision>, d: Decision)
    ensures Approvals(decisions) <= |decisions|
    ensures Approvals(decisions + [d])
         == if Approvals(decisions) == |decisions| && d.outcome == APPROVED then |decisions| + 1 else Approvals(decisions)
  {
    if decisions != [] {
      assert (decisions + [d])[1..] == decisions[1..] + [d];
      ApprovalsAppend(decisions[1..], d);
    }
  }

  /** Where a linear workflow of `n` steps is after a list of decisions: finished as approved after `n` approvals, finished by
      the first decision that is not an approval, otherwise at the step after the approvals so far. */
  function LinearPosition(n: nat, decisions: seq<Decision>): Position {
    var k := Approvals(decisions);
    if k >= n then Finished(APPROVED)
    else if k < |decisions| then Finished(decisions[k].outcome)
    else At(k + 1)
  }

  lemma {:induction false} ApprovalsAreFirst(decisions: seq<Decision>)
    ensures Approvals(decisions) <= |decisions|
    ensures forall i | 0 <= i < Approvals(decisions) :: decisions[i].outcome == APPROVED
    ensures Approvals(decisions) < |decisions| ==> decisions[Approvals(decisions)].outcome != APPROVED
  {
    if decisions != [] && decisions[0].outcome == APPROVED {
      ApprovalsAreFirst(decisions[1..]);
    }
  }

  lemma LinearStep(n: nat, decisions: seq<Decision>, d: Decision)
    requires n > 0
    ensures LinearPosition(n, decisions + [d])
         == match LinearPosition(n, decisions)
            case Finished(outcome) => Finished(outcome)
            case At(order) => if d.outcome == APPROVED && order < n then At(order + 1) else Finished(d.outcome)
    ensures LinearPosition(n, decisions).At? ==> 1 <= LinearPosition(n, decisions).order <= n
  {
    ApprovalsAppend(decisions, d);
    ApprovalsAreFirst(decisions);
    var k := Approvals(decisions);
    if k < |decisions| {
      assert (decisions + [d])[k] == decisions[k];
    }
  }

  lemma {:induction false} LinearInterpretation(
      name: string, steps: seq<StepSpec>, data: Object, decisions: seq<Decision>)
    requires Numbered(steps) && |steps| > 0
    ensures Interpret(BothSpec(name, steps), data, decisions) == LinearPosition(|steps|, decisions)
  {
    if decisions != [] {
      var front, last := decisions[..|decisions| - 1], decisions[|decisions| - 1];
      assert decisions == front + [last];
      LinearInterpretation(name, steps, data, front);
      LinearStep(|steps|, front, last);
      var p := LinearPosition(|steps|, front);
      if p.At? {
        LinearNext(name, steps, p.order, last.outcome, EvalContext(data, last.data));
      }
    }
  }

  // -------------------------------------------------------------- end to end

  lemma NumberedUniqueEntry(name: string, steps: seq<StepSpec>)
    requires Numbered(steps)
    ensures UniqueEntry(BothSpec(name, steps))
  {
  }

  function SessionSpec(name: string, edits: seq<Edit>): WorkflowSpec
    requires StepsAfter(edits).Some?
  {
    BothSpec(name, Map(StepsAfter(edits).value, SpecOfStep()))
  }

  /** The endpoint takes what a session submits exactly when the names on the page are within bounds, the user may define
      workflows and the name is free. */
  lemma SessionPosted(db: Database, poster: User, name: string, edits: seq<Edit>)
    requires StepsAfter(edits).Some?
    ensures var posted := Posted(db, poster, WizardPayload(name, StepsAfter(edits).value));
            && (posted.Ok? <==> NamesFit(name, StepsAfter(edits).value) && MayDefine(poster) && !NameTaken(db.defs, name))
            && (posted.Ok? ==> posted == Create(db, SessionSpec(name, edits)))
  {
    SessionPayload(name, edits);
    SessionAccepted(name, edits);
  }

  /** A workflow that has been created with one step of order 1 can be started, and starts where the interpreter starts. */
  lemma CreatedStarts(db: Database, spec: WorkflowSpec, requester: nat, data: Object, now: Time)
    requires Reachable(db) && Create(db, spec).Ok? && UniqueEntry(spec)
    requires exists i | 0 <= i < |spec.steps| :: spec.steps[i].order == 1
    ensures var created := Create(db, spec).value;
            var w, base := |db.defs.workflows|, |db.defs.steps|;
            && Invariant(created)
            && created.requests == db.requests
            && Start(created, w, requester, data, now, true).Ok?
            && var started := Start(created, w, requester, data, now, true).value;
               && Invariant(started)
               && Placed(started.defs, spec, w, base)
               && InStep(started, spec, w, |db.requests|, data, [])
  {
    var w, base := |db.defs.workflows|, |db.defs.steps|;
    ReachableInvariant(db);
    CreateKeeps(db, spec);
    InstalledPlaces(db.defs, spec);
    EntryExists(spec, w, base);
    StartedInStep(Create(db, spec).value, spec, w, base, requester, data, now);
  }

  lemma EntryExists(spec: WorkflowSpec, w: nat, base: nat)
    requires exists i | 0 <= i < |spec.steps| :: spec.steps[i].order == 1
    ensures FirstWhere(StepRows(spec.steps, w, base), EntryStep(w)).Some?
  {
    var rows := StepRows(spec.steps, w, base);
    var i :| 0 <= i < |spec.steps| && spec.steps[i].order == 1;
    assert EntryStep(w)(rows[i]) && rows[i] in rows;
  }

  /** A workflow submitted by any editing session that leaves at least one step, taken by the endpoint and started in any
      reachable state, and sent any decisions by administrators, is where `LinearPosition` says. */
  lemma SessionToCompletion(
      db: Database, poster: User, name: string, edits: seq<Edit>, requester: nat, data: Object, now: Time,
      events: seq<Event>)
    requires Reachable(db) && StepsAfter(edits).Some? && StepsAfter(edits).value != []
    requires Posted(db, poster, WizardPayload(name, StepsAfter(edits).value)).Ok?
    requires forall e <- events :: IsDirect(|db.requests|)(e)
    ensures var created := Posted(db, poster, WizardPayload(name, StepsAfter(edits).value)).value;
            && Consistent(created)
            && var started := Start(created, |db.defs.workflows|, requester, data, now, true);
               && started.Ok?
               && Consistent(started.value)
               && var after := Run(started.value, events);
                  && Invariant(after)
                  && |db.requests| < |after.requests|
                  && EnginePosition(after.defs, CaseOf(after, |db.requests|))
                     == Some(LinearPosition(|StepsAfter(edits).value|, Map(events, Sent())))
  {
    var spec := SessionSpec(name, edits);
    var steps := Map(StepsAfter(edits).value, SpecOfStep());
    var w, base := |db.defs.workflows|, |db.defs.steps|;
    SessionPosted(db, poster, name, edits);
    SessionNumbers(edits);
    NumberedUniqueEntry(name, steps);
    assert spec.steps[0].order == 1;
    CreatedStarts(db, spec, requester, data, now);
    var started := Start(Create(db, spec).value, w, requester, data, now, true).value;
    DirectRunInLockstep(started, spec, w, base, |db.requests|, data, events);
    RunKeeps(started, events);
    LinearInterpretation(name, steps, data, Map(events, Sent()));
  }

  /** What a position says about the request and its recorded history. */
  lemma PositionMeans(db: Database, r: nat)
    requires Invariant(db) && r < |db.requests|
    ensures var c := CaseOf(db, r);
            var p := EnginePosition(db.defs, c);
            && p.Some?
            && c.history != []
            && match p.value
               case At(order) =>
                 && c.request.status == InProgress
                 && Statuses(c.history) == [Created, InProgress]
               case Finished(outcome) =>
                 && c.request.status == Completed
                 && Statuses(c.history) == [Created, InProgress, FinalStatus(outcome), Completed]
  {
    var c := CaseOf(db, r);
    assert CaseInvariant(db.defs, c);
    assert Located(db.defs, c.request, Last(c));
  }

  /** The same over any interleaving: in every state after the creation, each request of the workflow is where its own
      decisions put it. */
  lemma SessionInterleaved(db: Database, name: string, edits: seq<Edit>, events: seq<Event>, r: nat)
    requires Reachable(db) && !NameTaken(db.defs, name)
    requires StepsAfter(edits).Some? && StepsAfter(edits).value != []
    ensures Consistent(Create(db, SessionSpec(name, edits)).value)
    ensures var after := Run(Create(db, SessionSpec(name, edits)).value, events);
            r < |after.requests| && after.requests[r].workflowId == |db.defs.workflows| ==>
              var decisions := Decisions(Decided(CaseOf(after, r)));
              var n := |StepsAfter(edits).value|;
              && EnginePosition(after.defs, CaseOf(after, r)) == Some(LinearPosition(n, decisions))
              && Invariant(after)
  {
    var spec := SessionSpec(name, edits);
    var steps := Map(StepsAfter(edits).value, SpecOfStep());
    SessionNumbers(edits);
    NumberedUniqueEntry(name, steps);
    RunsInLockstep(db, spec, events, r);
    ReachableInvariant(db);
    CreateKeeps(db, spec);
    RunKeeps(Create(db, spec).value, events);
    var after := Run(Create(db, spec).value, events);
    if r < |after.requests| {
      LinearInterpretation(name, steps, after.requests[r].data, Decisions(Decided(CaseOf(after, r))));
    }
  }
}
