// Databases that differ only in transition rows the engine cannot tell apart.

module Bisimulation {
  import opened Rows
  import opened Json
  import opened Tables
  import opened Engine
  import opened Compiler
  import opened Runs
  import opened Cases
  import opened Lockstep

  /** Two transition tables with the same successors for the first `n` steps. */
  ghost predicate SameNext(x: seq<Transition>, y: seq<Transition>, n: nat) {
    forall s: nat, outcome, context | s < n :: Next(x, s, outcome, context) == Next(y, s, outcome, context)
  }

  /** The same rows in every table except transitions, and the same successor for every step, outcome and context. */
  ghost predicate Similar(a: Database, b: Database) {
    && a == b.(defs := b.defs.(transitions := a.defs.transitions))
    && SameNext(a.defs.transitions, b.defs.transitions, |a.defs.steps|)
  }

  /** Fail alike, or succeed with similar results. */
  ghost predicate SimilarResults(x: Result<Database, Failure>, y: Result<Database, Failure>) {
    match (x, y)
    case (Ok(a), Ok(b)) => Similar(a, b)
    case (Err(e), Err(f)) => e == f
    case _ => false
  }

  lemma InstalledSameNext(d: Definitions, e: Definitions, spec: WorkflowSpec)
    requires DefinitionsConsistent(d) && DefinitionsConsistent(e)
    requires |d.steps| == |e.steps| && |d.workflows| == |e.workflows|
    requires SameNext(d.transitions, e.transitions, |d.steps|)
    ensures SameNext(Installed(d, spec).transitions, Installed(e, spec).transitions, |d.steps| + |spec.steps|)
  {
    var x, y := Installed(d, spec).transitions, Installed(e, spec).transitions;
    InstalledExtends(d, spec);
    InstalledExtends(e, spec);
    InstalledPlaces(d, spec);
    InstalledPlaces(e, spec);
    forall s: nat, outcome, context | s < |d.steps| + |spec.steps|
      ensures Next(x, s, outcome, context) == Next(y, s, outcome, context)
    {
      if s < |d.steps| {
        assert Next(x, s, outcome, context) == Next(d.transitions, s, outcome, context);
        assert Next(y, s, outcome, context) == Next(e.transitions, s, outcome, context);
      }
    }
  }

  lemma CreateSimilar(a: Database, b: Database, spec: WorkflowSpec)
    requires Consistent(a) && Consistent(b) && Similar(a, b)
    ensures SimilarResults(Create(a, spec), Create(b, spec))
  {
    InstalledSameNext(a.defs, b.defs, spec);
  }

  lemma OutcomeSimilar(a: Database, b: Database, e: Event)
    requires Consistent(a) && Consistent(b) && Similar(a, b)
    ensures SimilarResults(Outcome(a, e), Outcome(b, e))
  {
    match e
    case Creating(spec) => CreateSimilar(a, b, spec);
    case Starting(w, requester, data, now, enqueued) =>
    case Deciding(r, user, outcome, decision, now) => DecideSimilar(a, b, r, user, outcome, decision, now);
    case Scanning(now, failing) =>
  }

  lemma DecideSimilar(
      a: Database, b: Database, r: nat, user: User, outcome: Label, decision: Option<Object>, now: Time)
    requires Consistent(a) && Consistent(b) && Similar(a, b)
    ensures SimilarResults(Decide(a, r, user, outcome, decision, now), Decide(b, r, user, outcome, decision, now))
  {
    var x, y := Decide(a, r, user, outcome, decision, now), Decide(b, r, user, outcome, decision, now);
    if r < |a.requests| {
      var e := CurrentExecution(a, a.requests[r]);
      assert e == CurrentExecution(b, b.requests[r]);
      if e.Some? {
        var context := EvalContext(a.requests[r].data, decision);
        assert Next(a.defs.transitions, e.value.stepId, outcome, context)
            == Next(b.defs.transitions, e.value.stepId, outcome, context);
        if x.Ok? {
          assert y == Ok(x.value.(defs := b.defs));
        }
      }
    }
  }

  /** Similar databases stay similar over every run. */
  lemma {:induction false} RunSimilar(a: Database, b: Database, events: seq<Event>)
    requires Consistent(a) && Consistent(b) && Similar(a, b)
    ensures Similar(Run(a, events), Run(b, events))
  {
    if events != [] {
      var front, last := events[..|events| - 1], events[|events| - 1];
      RunSimilar(a, b, front);
      OutcomeSimilar(Run(a, front), Run(b, front), last);
    }
  }
}
