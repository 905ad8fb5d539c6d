// Runs of the whole system: any interleaving of workflow creations, starts, decisions and scans.

module Runs {
  import opened Rows
  import opened Json
  import opened Tables
  import opened Engine
  import opened Sla
  import opened Compiler

  datatype Event =
    | Creating(spec: WorkflowSpec)
    | Starting(workflowId: nat, requester: nat, data: Object, now: Time, enqueued: bool)
    | Deciding(requestId: nat, user: User, outcome: Label, decision: Option<Object>, now: Time)
    | Scanning(now: Time, failing: set<nat>)

  function Outcome(db: Database, e: Event): Result<Database, Failure>
    requires Consistent(db)
  {
    match e
    case Creating(spec) => Create(db, spec)
    case Starting(w, requester, data, now, enqueued) => Start(db, w, requester, data, now, enqueued)
    case Deciding(r, user, outcome, decision, now) => Decide(db, r, user, outcome, decision, now)
    case Scanning(now, failing) => Ok(Scan(db, now, failing))
  }

  /** A call that fails leaves the committed state as it was. */
  function Apply(db: Database, e: Event): (r: Database)
    requires Consistent(db)
    ensures Consistent(r)
  {
    OutcomeConsistent(db, e);
    if Outcome(db, e).Ok? then Outcome(db, e).value else db
  }

  function Run(db: Database, events: seq<Event>): (r: Database)
    requires Consistent(db)
    ensures Consistent(r)
  {
    if events == [] then db else Apply(Run(db, events[..|events| - 1]), events[|events| - 1])
  }

  lemma RunStep(db: Database, events: seq<Event>, k: nat)
    requires Consistent(db) && k < |events|
    ensures Run(db, events[..k + 1]) == Apply(Run(db, events[..k]), events[k])
  {
    assert events[..k + 1][..k] == events[..k];
  }

  lemma RunAppend(db: Database, events: seq<Event>, e: Event)
    requires Consistent(db)
    ensures Run(db, events + [e]) == Apply(Run(db, events), e)
  {
    assert (events + [e])[..|events|] == events;
  }

  lemma RunOne(db: Database, e: Event)
    requires Consistent(db)
    ensures Run(db, [e]) == Apply(db, e)
  {
    RunAppend(db, [], e);
    assert [] + [e] == [e];
  }

  lemma RunTwo(db: Database, d: Event, e: Event)
    requires Consistent(db)
    ensures Run(db, [d, e]) == Apply(Apply(db, d), e)
  {
    RunOne(db, d);
    RunAppend(db, [d], e);
    assert [d] + [e] == [d, e];
  }

  /** A database with arbitrary definitions on which nothing has run yet. */
  ghost predicate Initial(db: Database) {
    && Consistent(db)
    && db.requests == [] && db.executions == [] && db.history == [] && db.audit == [] && db.escalations == []
  }

  ghost predicate Reachable(db: Database) {
    exists start, events | Initial(start) :: Run(start, events) == db
  }

  lemma {:induction false} RunConcat(db: Database, xs: seq<Event>, ys: seq<Event>)
    requires Consistent(db)
    ensures Run(db, xs + ys) == Run(Run(db, xs), ys)
  {
    if ys == [] {
      assert xs + ys == xs;
    } else {
      var front, last := ys[..|ys| - 1], ys[|ys| - 1];
      assert (xs + ys)[..|xs + ys| - 1] == xs + front;
      RunConcat(db, xs, front);
      assert Run(db, xs + ys) == Apply(Run(db, xs + front), last);
    }
  }

  /** What a reachable state can reach is reachable. */
  lemma ReachableOnward(db: Database, events: seq<Event>)
    requires Reachable(db) && Consistent(db)
    ensures Reachable(Run(db, events))
  {
    var start, before :| Initial(start) && Run(start, before) == db;
    RunConcat(start, before, events);
  }

  lemma ApplyReachable(db: Database, e: Event)
    requires Reachable(db) && Consistent(db)
    ensures Reachable(Apply(db, e))
  {
    ReachableOnward(db, [e]);
    RunOne(db, e);
  }

  lemma {:induction false} NamesStayUnique(db: Database, events: seq<Event>)
    requires Consistent(db) && UniqueNames(db.defs)
    ensures UniqueNames(Run(db, events).defs)
  {
    if events != [] {
      var before, e := Run(db, events[..|events| - 1]), events[|events| - 1];
      NamesStayUnique(db, events[..|events| - 1]);
      if e.Creating? {
        CreateKeepsNamesUnique(before, e.spec);
      }
    }
  }

  lemma OutcomeConsistent(db: Database, e: Event)
    requires Consistent(db)
    ensures Outcome(db, e).Ok? ==> Consistent(Outcome(db, e).value)
  {
    match e
    case Creating(spec) => InstalledConsistent(db.defs, spec);
    case Starting(w, requester, data, now, enqueued) => StartConsistent(db, w, requester, data, now, enqueued);
    case Deciding(r, user, outcome, decision, now) => DecideConsistent(db, r, user, outcome, decision, now);
    case Scanning(now, failing) => ScanConsistent(db, now, failing);
  }

  lemma StartConsistent(db: Database, w: nat, requester: nat, data: Object, now: Time, enqueued: bool)
    requires Consistent(db)
    ensures var s := Start(db, w, requester, data, now, enqueued); s.Ok? ==> Consistent(s.value)
  {
  }

  lemma AdvancedConsistent(db: Database, q: Request, closed: Execution, next: Option<Step>, now: Time)
    requires Consistent(db)
    requires q.id < |db.requests| && closed.id < |db.executions|
    requires closed.requestId == q.id && closed.stepId < |db.defs.steps| && !closed.status.OTHER?
    requires next.Some? ==> next.value.id < |db.defs.steps|
    ensures Consistent(Advanced(db, q, closed, next, now))
  {
    var after := Advanced(db, q, closed, next, now);
    assert |db.executions[closed.id := closed]| == |db.executions|;
    forall i | 0 <= i < |after.executions|
      ensures var e := after.executions[i];
              && e.id == i && e.requestId < |after.requests| && e.stepId < |after.defs.steps| && !e.status.OTHER?
    {
      if i < |db.executions| {
        assert after.executions[i] == if i == closed.id then closed else db.executions[i];
      }
    }
  }

  /** A successful decision found the open execution `e` and advanced the request to `next`. */
  lemma DecideAdvances(db: Database, r: nat, user: User, outcome: Label, decision: Option<Object>, now: Time)
    returns (e: Execution, next: Option<Step>)
    requires Consistent(db) && Decide(db, r, user, outcome, decision, now).Ok?
    ensures r < |db.requests| && CurrentExecution(db, db.requests[r]) == Some(e) && !outcome.OTHER?
    ensures e.requestId == r && e.completedAt.None? && e.id < |db.executions| && db.executions[e.id] == e
    ensures e.stepId < |db.defs.steps|
    ensures next.Some? ==> next.value.id < |db.defs.steps| && db.defs.steps[next.value.id] == next.value
    ensures Next(db.defs.transitions, e.stepId, outcome, EvalContext(db.requests[r].data, decision))
         == if next.Some? then Some(next.value.id) else None
    ensures Decide(db, r, user, outcome, decision, now).value
         == Advanced(db, db.requests[r], Closed(e, user.id, outcome, decision, now), next, now)
  {
    e := CurrentExecution(db, db.requests[r]).value;
    var id := Next(db.defs.transitions, e.stepId, outcome, EvalContext(db.requests[r].data, decision));
    NextIsStep(db.defs, e.stepId, outcome, EvalContext(db.requests[r].data, decision));
    next := if id.Some? then Some(db.defs.steps[id.value]) else None;
  }

  lemma DecideConsistent(db: Database, r: nat, user: User, outcome: Label, decision: Option<Object>, now: Time)
    requires Consistent(db)
    ensures var s := Decide(db, r, user, outcome, decision, now); s.Ok? ==> Consistent(s.value)
  {
    if Decide(db, r, user, outcome, decision, now).Ok? {
      var e, next := DecideAdvances(db, r, user, outcome, decision, now);
      AdvancedConsistent(db, db.requests[r], Closed(e, user.id, outcome, decision, now), next, now);
    }
  }

  lemma ScanConsistent(db: Database, now: Time, failing: set<nat>)
    requires Consistent(db)
    ensures Consistent(Scan(db, now, failing))
  {
    var overdue := Filter(db.executions, Overdue(now));
    FilterMembers(db.executions, Overdue(now));
    assert forall a <- Map(overdue, BreachEntry) :: exists e <- overdue :: a == BreachEntry(e);
    assert forall x <- Map(overdue, EscalationOf(now)) :: exists e <- overdue :: x == EscalationOf(now)(e);
  }
}
