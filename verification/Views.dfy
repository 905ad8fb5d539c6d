// The my-tasks view and the dashboard, and their agreement with the engine.

module Views {
  import opened Rows
  import opened Json
  import opened StateMachine
  import opened Tables
  import opened Engine
  import Sla
  import opened Runs
  import opened Cases

  datatype Task = Task(requestId: nat, executionId: nat, stepName: string, deadline: Time, breached: bool)

  /** The pending executions, joined with their steps, that a user may decide. */
  function Visible(d: Definitions, user: User): Execution -> bool {
    (e: Execution) =>
      && e.status == PENDING
      && e.completedAt.None?
      && e.stepId < |d.steps|
      && MayAct(user, d.steps[e.stepId])
  }

  function TaskOf(d: Definitions): Execution -> Task {
    (e: Execution) =>
      Task(e.requestId, e.id, if e.stepId < |d.steps| then d.steps[e.stepId].name else "", e.deadline, e.breached)
  }

  function MyTasks(db: Database, user: User): seq<Task> {
    Map(Filter(db.executions, Visible(db.defs, user)), TaskOf(db.defs))
  }

  function TaskFor(r: nat): Task -> bool {
    (t: Task) => t.requestId == r
  }

  /** A request contributes to a user's list the entry of its last execution, if that is open and within the user's authority,
      and nothing else. */
  lemma TasksOfRequest(db: Database, user: User, r: nat)
    requires Invariant(db) && r < |db.requests|
    ensures CaseOf(db, r).executions != []
    ensures var last := Last(CaseOf(db, r));
            && last.stepId < |db.defs.steps|
            && Filter(MyTasks(db, user), TaskFor(r))
               == if db.requests[r].status == InProgress && MayAct(user, db.defs.steps[last.stepId])
                  then [TaskOf(db.defs)(last)] else []
  {
    var c := CaseOf(db, r);
    var es, visible := c.executions, Visible(db.defs, user);
    assert CaseInvariant(db.defs, c);
    FilterMap(Filter(db.executions, visible), TaskOf(db.defs), TaskFor(r), ExecutionOf(r));
    FilterCommutes(db.executions, visible, ExecutionOf(r));
    EarlierClosed(db.defs, c.request, es);
    var front := es[..|es| - 1];
    assert es == front + [Last(c)];
    FilterNone(front, visible);
    FilterAppend(front, Last(c), visible);
    assert Located(db.defs, c.request, Last(c));
  }

  /** A request is in a user's list exactly when a decision by that user passes every check, and then exactly once. */
  lemma ListedIffDecidable(
      db: Database, user: User, r: nat, outcome: Label, decision: Option<Object>, now: Time)
    requires Reachable(db)
    ensures var listed := Count(MyTasks(db, user), TaskFor(r));
            var result := Decide(db, r, user, outcome, decision, now);
            && listed <= 1
            && (listed == 1 <==> result.Ok? || result == Err(FlushFailed))
            && (result == Err(FlushFailed) <==> listed == 1 && outcome.OTHER?)
            && result != Err(InvalidStateTransition)
  {
    ReachableInvariant(db);
    DecisionVerdict(db, r, user, outcome, decision, now);
    if r < |db.requests| {
      TasksOfRequest(db, user, r);
    } else {
      NoTasksBeyond(db, user, r);
    }
  }

  lemma NoTasksBeyond(db: Database, user: User, r: nat)
    requires Consistent(db) && r >= |db.requests|
    ensures Count(MyTasks(db, user), TaskFor(r)) == 0
  {
    var visible := Filter(db.executions, Visible(db.defs, user));
    FilterMembers(db.executions, Visible(db.defs, user));
    FilterMap(visible, TaskOf(db.defs), TaskFor(r), ExecutionOf(r));
    FilterNone(visible, ExecutionOf(r));
  }

  lemma ClosesExecution(db: Database, r: nat, user: User, outcome: Label, decision: Option<Object>, now: Time)
    requires Consistent(db) && Decide(db, r, user, outcome, decision, now).Ok?
    ensures CurrentExecution(db, db.requests[r]).Some?
    ensures var e := CurrentExecution(db, db.requests[r]).value;
            var after := Decide(db, r, user, outcome, decision, now).value;
            && e.id < |db.executions| <= |after.executions|
            && after.executions[..|db.executions|]
               == db.executions[e.id := Closed(e, user.id, outcome, decision, now)]
  {
  }

  /** A decision within the user's authority closes the open execution itself. */
  lemma OpenDecision(db: Database, e: Execution, user: User, outcome: Label, decision: Option<Object>, now: Time)
    requires Invariant(db) && e in db.executions && e.completedAt.None? && !outcome.OTHER?
    requires e.stepId < |db.defs.steps| && MayAct(user, db.defs.steps[e.stepId])
    ensures var result := Decide(db, e.requestId, user, outcome, decision, now);
            && result.Ok?
            && e.id < |db.executions| <= |result.value.executions|
            && result.value.executions[e.id] == Closed(e, user.id, outcome, decision, now)
            && db.executions[e.id] == e
  {
    OpenIsLast(db, e);
    CurrentIsLast(db, e.requestId);
    DecisionVerdict(db, e.requestId, user, outcome, decision, now);
    ClosesExecution(db, e.requestId, user, outcome, decision, now);
    var after := Decide(db, e.requestId, user, outcome, decision, now).value;
    assert after.executions[e.id] == after.executions[..|db.executions|][e.id];
  }

  /** A listed entry names the execution that a decision by that user closes, and describes it as it is. */
  lemma TaskIsWhatIsDecided(db: Database, user: User, t: Task, outcome: Label, decision: Option<Object>, now: Time)
    requires Reachable(db) && t in MyTasks(db, user) && !outcome.OTHER?
    ensures var result := Decide(db, t.requestId, user, outcome, decision, now);
            && result.Ok?
            && t.executionId < |db.executions|
            && result.value.executions[t.executionId]
               == Closed(db.executions[t.executionId], user.id, outcome, decision, now)
            && t == TaskOf(db.defs)(db.executions[t.executionId])
  {
    ReachableInvariant(db);
    var visible := Filter(db.executions, Visible(db.defs, user));
    FilterMembers(db.executions, Visible(db.defs, user));
    var i :| 0 <= i < |visible| && TaskOf(db.defs)(visible[i]) == t;
    var e := visible[i];
    assert e in db.executions;
    OpenDecision(db, e, user, outcome, decision, now);
  }

  /** A listed entry shows the request, the step's name, the deadline and the flag of one pending execution. */
  lemma TaskShows(db: Database, user: User, t: Task)
    requires Consistent(db) && t in MyTasks(db, user)
    ensures t.executionId < |db.executions|
    ensures var e := db.executions[t.executionId];
            && e.status == PENDING
            && e.completedAt == None
            && t == Task(e.requestId, e.id, db.defs.steps[e.stepId].name, e.deadline, e.breached)
  {
    var visible := Filter(db.executions, Visible(db.defs, user));
    FilterMembers(db.executions, Visible(db.defs, user));
    var i :| 0 <= i < |visible| && TaskOf(db.defs)(visible[i]) == t;
    assert visible[i] in db.executions;
  }

  // ------------------------------------------------------------- dashboard

  function HasStatus(s: Status): Request -> bool {
    (q: Request) => q.status == s
  }

  function IsPending(): Execution -> bool {
    (e: Execution) => e.status == PENDING
  }

  function IsBreached(): Execution -> bool {
    (e: Execution) => e.breached
  }

  datatype Stats = Stats(active: nat, completed: nat, pending: nat, overdue: nat)

  function DashboardStats(db: Database): Stats {
    Stats(
      Count(db.requests, HasStatus(InProgress)),
      Count(db.requests, HasStatus(Completed)),
      Count(db.executions, IsPending()),
      Count(db.executions, IsBreached()))
  }

  function IsClosedAsPending(): Execution -> bool {
    (e: Execution) => e.completedAt.Some? && e.status == PENDING
  }

  ghost predicate Balanced(db: Database) {
    Count(db.executions, IsUnfinished()) == Count(db.requests, HasStatus(InProgress))
  }

  lemma StartBalances(db: Database, w: nat, requester: nat, data: Object, now: Time)
    requires Balanced(db) && Start(db, w, requester, data, now, true).Ok?
    ensures Balanced(Start(db, w, requester, data, now, true).value)
  {
    var after := Start(db, w, requester, data, now, true).value;
    FilterAppend(db.executions, after.executions[|db.executions|], IsUnfinished());
    FilterAppend(db.requests, after.requests[|db.requests|], HasStatus(InProgress));
  }

  lemma AdvanceBalances(db: Database, e: Execution, closed: Execution, next: Option<Step>, now: Time)
    requires Balanced(db) && e.id < |db.executions| && e.requestId < |db.requests|
    requires db.executions[e.id] == e && db.requests[e.requestId].id == e.requestId
    requires e.completedAt.None? && closed.id == e.id && closed.completedAt.Some?
    requires db.requests[e.requestId].status == InProgress
    ensures Balanced(Advanced(db, db.requests[e.requestId], closed, next, now))
  {
    var q := db.requests[e.requestId];
    var after := Advanced(db, q, closed, next, now);
    CountUpdate(db.executions, e.id, closed, IsUnfinished());
    CountUpdate(db.requests, q.id, after.requests[q.id], HasStatus(InProgress));
    if next.Some? {
      var executions := db.executions[e.id := closed];
      FilterAppend(executions, Opened(|executions|, q.id, next.value, now), IsUnfinished());
    }
  }

  lemma ApplyBalances(db: Database, e: Event)
    requires Invariant(db) && Balanced(db)
    ensures Balanced(Apply(db, e))
  {
    if Outcome(db, e).Ok? {
      match e
      case Creating(spec) =>
      case Starting(w, requester, data, now, enqueued) => StartBalances(db, w, requester, data, now);
      case Deciding(r, user, outcome, decision, now) =>
        var x, next := DecideAdvances(db, r, user, outcome, decision, now);
        CurrentIsLast(db, r);
        AdvanceBalances(db, x, Closed(x, user.id, outcome, decision, now), next, now);
      case Scanning(now, failing) =>
        FilterMap(db.executions, Sla.Flagged(now), IsUnfinished(), IsUnfinished());
    }
  }

  lemma {:induction false} RunBalances(start: Database, events: seq<Event>)
    requires Initial(start)
    ensures Balanced(Run(start, events))
  {
    if events != [] {
      var before := Run(start, events[..|events| - 1]);
      RunBalances(start, events[..|events| - 1]);
      RunKeeps(start, events[..|events| - 1]);
      ApplyBalances(before, events[|events| - 1]);
    }
  }

  lemma StatusSplits(db: Database)
    requires Invariant(db)
    ensures Count(db.requests, HasStatus(InProgress)) + Count(db.requests, HasStatus(Completed)) == |db.requests|
    ensures Count(db.executions, IsPending())
         == Count(db.executions, IsUnfinished()) + Count(db.executions, IsClosedAsPending())
  {
    forall q <- db.requests
      ensures HasStatus(InProgress)(q) != HasStatus(Completed)(q)
    {
      assert CaseInvariant(db.defs, CaseOf(db, q.id));
    }
    CountSplit(db.requests, HasStatus(InProgress), HasStatus(Completed));
    forall e <- db.executions
      ensures IsPending()(e) == (IsUnfinished()(e) || IsClosedAsPending()(e))
    {
      if e.completedAt.None? {
        OpenIsLast(db, e);
      }
    }
    CountUnion(db.executions, IsUnfinished(), IsClosedAsPending(), IsPending());
  }

  /** Active and completed requests are all requests. Pending executions are the active requests, plus those that a decision
      closed with the outcome PENDING. */
  lemma DashboardConserves(db: Database)
    requires Reachable(db)
    ensures var s := DashboardStats(db);
            && s.active + s.completed == |db.requests|
            && s.pending == s.active + Count(db.executions, IsClosedAsPending())
            && (s.pending == s.active <==> forall e <- db.executions :: !(e.completedAt.Some? && e.status == PENDING))
  {
    var start, events :| Initial(start) && Run(start, events) == db;
    ReachableInvariant(db);
    RunBalances(start, events);
    StatusSplits(db);
    FilterMembers(db.executions, IsClosedAsPending());
    if forall e <- db.executions :: !(e.completedAt.Some? && e.status == PENDING) {
      FilterNone(db.executions, IsClosedAsPending());
    }
  }

  // ---------------------------------------- decisions with outcome PENDING

  /** A decision that succeeds with the outcome PENDING. */
  ghost predicate DecidesPending(db: Database, e: Event)
    requires Consistent(db)
  {
    e.Deciding? && e.outcome == PENDING && Outcome(db, e).Ok?
  }

  /** The `k`-th event of the run is such a decision. */
  ghost predicate PendingAt(start: Database, events: seq<Event>, k: nat)
    requires Consistent(start) && k < |events|
  {
    DecidesPending(Run(start, events[..k]), events[k])
  }

  /** How many there were. */
  ghost function PendingDecisions(start: Database, events: seq<Event>): nat
    requires Consistent(start)
  {
    if events == [] then 0
    else
      var front := events[..|events| - 1];
      PendingDecisions(start, front) + if DecidesPending(Run(start, front), events[|events| - 1]) then 1 else 0
  }

  lemma StartClosesNone(db: Database, w: nat, requester: nat, data: Object, now: Time)
    requires Start(db, w, requester, data, now, true).Ok?
    ensures Count(Start(db, w, requester, data, now, true).value.executions, IsClosedAsPending())
         == Count(db.executions, IsClosedAsPending())
  {
    var after := Start(db, w, requester, data, now, true).value;
    FilterAppend(db.executions, after.executions[|db.executions|], IsClosedAsPending());
  }

  lemma AdvanceCloses(db: Database, e: Execution, closed: Execution, next: Option<Step>, now: Time)
    requires e.id < |db.executions| && e.requestId < |db.requests|
    requires db.executions[e.id] == e && db.requests[e.requestId].id == e.requestId
    requires e.completedAt.None? && closed.id == e.id && closed.completedAt.Some?
    ensures Count(Advanced(db, db.requests[e.requestId], closed, next, now).executions, IsClosedAsPending())
         == Count(db.executions, IsClosedAsPending()) + if closed.status == PENDING then 1 else 0
  {
    CountUpdate(db.executions, e.id, closed, IsClosedAsPending());
    if next.Some? {
      var executions := db.executions[e.id := closed];
      FilterAppend(executions, Opened(|executions|, e.requestId, next.value, now), IsClosedAsPending());
    }
  }

  /** Only a decision with the outcome PENDING leaves an execution closed as pending, and it leaves exactly one. */
  lemma ApplyCloses(db: Database, e: Event)
    requires Consistent(db)
    ensures Count(Apply(db, e).executions, IsClosedAsPending())
         == Count(db.executions, IsClosedAsPending()) + if DecidesPending(db, e) then 1 else 0
  {
    if Outcome(db, e).Ok? {
      match e
      case Creating(spec) =>
      case Starting(w, requester, data, now, enqueued) => StartClosesNone(db, w, requester, data, now);
      case Deciding(r, user, outcome, decision, now) =>
        var x, next := DecideAdvances(db, r, user, outcome, decision, now);
        AdvanceCloses(db, x, Closed(x, user.id, outcome, decision, now), next, now);
      case Scanning(now, failing) =>
        FilterMap(db.executions, Sla.Flagged(now), IsClosedAsPending(), IsClosedAsPending());
    }
  }

  lemma {:induction false} RunCloses(start: Database, events: seq<Event>)
    requires Initial(start)
    ensures Count(Run(start, events).executions, IsClosedAsPending()) == PendingDecisions(start, events)
  {
    if events != [] {
      RunCloses(start, events[..|events| - 1]);
      ApplyCloses(Run(start, events[..|events| - 1]), events[|events| - 1]);
    }
  }

  lemma PendingPrefix(start: Database, events: seq<Event>, k: nat)
    requires Consistent(start) && k < |events| - 1
    ensures PendingAt(start, events, k) == PendingAt(start, events[..|events| - 1], k)
  {
    assert events[..|events| - 1][..k] == events[..k];
  }

  lemma {:induction false} PendingWitness(start: Database, events: seq<Event>) returns (k: nat)
    requires Consistent(start) && PendingDecisions(start, events) > 0
    ensures k < |events| && PendingAt(start, events, k)
  {
    var n := |events| - 1;
    if PendingAt(start, events, n) {
      k := n;
    } else {
      k := PendingWitness(start, events[..n]);
      PendingPrefix(start, events, k);
    }
  }

  lemma {:induction false} WitnessPending(start: Database, events: seq<Event>, k: nat)
    requires Consistent(start) && k < |events| && PendingAt(start, events, k)
    ensures PendingDecisions(start, events) > 0
  {
    if k < |events| - 1 {
      PendingPrefix(start, events, k);
      WitnessPending(start, events[..|events| - 1], k);
    }
  }

  /** Over any run the pending count exceeds the active count by the number of decisions that succeeded with the outcome
      PENDING: the two agree if and only if there was none. */
  lemma PendingIsActiveIff(start: Database, events: seq<Event>)
    requires Initial(start)
    ensures var s := DashboardStats(Run(start, events));
            && s.pending == s.active + PendingDecisions(start, events)
            && (s.pending == s.active <==> !exists k: nat | k < |events| :: PendingAt(start, events, k))
  {
    DashboardConserves(Run(start, events));
    RunCloses(start, events);
    if PendingDecisions(start, events) > 0 {
      var k := PendingWitness(start, events);
    }
    forall k: nat | k < |events| && PendingAt(start, events, k)
      ensures PendingDecisions(start, events) > 0
    {
      WitnessPending(start, events, k);
    }
  }

  lemma PendingRunShows(start: Database, before: seq<Event>, e: Event, events: seq<Event>)
    requires Initial(start) && DecidesPending(Run(start, before), e)
    ensures var s := DashboardStats(Run(Apply(Run(start, before), e), events)); s.pending > s.active
  {
    var whole := before + [e] + events;
    assert whole[..|before|] == before && whole[|before|] == e;
    assert PendingAt(start, whole, |before|);
    PendingIsActiveIff(start, whole);
    RunAppend(start, before, e);
    RunConcat(start, before + [e], events);
  }

  /** One such decision is enough: after it the dashboard shows more pending steps than active requests, in every later state
      too. */
  lemma PendingDecisionShows(db: Database, e: Event, events: seq<Event>)
    requires Reachable(db) && Consistent(db) && DecidesPending(db, e)
    ensures var later := Run(Apply(db, e), events);
            && Reachable(later)
            && DashboardStats(later).pending > DashboardStats(later).active
  {
    ApplyReachable(db, e);
    ReachableOnward(Apply(db, e), events);
    var start, before :| Initial(start) && Run(start, before) == db;
    PendingRunShows(start, before, e, events);
  }
}
