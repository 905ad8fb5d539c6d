// Breach flags, escalations and their audit entries, over whole runs.

module Breaches {
  import opened Rows
  import opened Json
  import opened Tables
  import opened Engine
  import opened Sla
  import opened Runs
  import opened Cases
  import opened Views

  // ------------------------------------------------------- correspondence

  function IsBreachEntry(): AuditEntry -> bool {
    (a: AuditEntry) => a.SlaBreachDetected?
  }

  function BreachedExecution(): AuditEntry -> nat {
    (a: AuditEntry) => if a.SlaBreachDetected? then a.executionId else 0
  }

  function EscalatedExecution(): Escalation -> nat {
    (x: Escalation) => x.executionId
  }

  function ExecutionId(): Execution -> nat {
    (e: Execution) => e.id
  }

  function BreachEntries(db: Database): seq<AuditEntry> {
    Filter(db.audit, IsBreachEntry())
  }

  function EscalatedIds(db: Database): seq<nat> {
    Map(db.escalations, EscalatedExecution())
  }

  ghost predicate Indexed(xs: seq<Execution>) {
    forall i | 0 <= i < |xs| :: xs[i].id == i
  }

  /** `ids` lists the flagged rows, each once. */
  ghost predicate Lists(xs: seq<Execution>, ids: seq<nat>) {
    && (forall i, j | 0 <= i < j < |ids| :: ids[i] != ids[j])
    && (forall i | 0 <= i < |xs| :: xs[i].breached <==> i in ids)
    && (forall i <- ids :: i < |xs|)
  }

  /** The breach entries carry what their executions say. */
  ghost predicate Describes(xs: seq<Execution>, entries: seq<AuditEntry>) {
    forall a <- entries :: BreachedExecution()(a) < |xs| && a == BreachEntry(xs[BreachedExecution()(a)])
  }

  /** The flagged executions, the escalation rows and the breach entries match one to one, the last two in the same order. */
  ghost predicate Corresponding(db: Database) {
    && Map(BreachEntries(db), BreachedExecution()) == EscalatedIds(db)
    && Lists(db.executions, EscalatedIds(db))
    && Count(db.executions, IsBreached()) == |db.escalations|
    && Describes(db.executions, BreachEntries(db))
  }

  ghost predicate Ascending(ids: seq<nat>) {
    forall i, j | 0 <= i < j < |ids| :: ids[i] < ids[j]
  }

  ghost predicate Select(xs: seq<Execution>, p: Execution -> bool, ids: seq<nat>) {
    forall k | 0 <= k < |ids| :: ids[k] < |xs| && p(xs[ids[k]])
  }

  lemma {:induction false} SelectedIdsAscend(xs: seq<Execution>, p: Execution -> bool)
    requires Indexed(xs)
    ensures Select(xs, p, Map(Filter(xs, p), ExecutionId()))
    ensures Ascending(Map(Filter(xs, p), ExecutionId()))
  {
    if xs != [] {
      var front, last := xs[..|xs| - 1], xs[|xs| - 1];
      SelectedIdsAscend(front, p);
      var ids, all := Map(Filter(front, p), ExecutionId()), Map(Filter(xs, p), ExecutionId());
      assert all == if p(last) then ids + [|xs| - 1] else ids;
      assert forall k | 0 <= k < |ids| :: front[ids[k]] == xs[ids[k]];
    }
  }

  lemma {:induction false} FlaggingCounts(xs: seq<Execution>, now: Time)
    ensures Count(Map(xs, Flagged(now)), IsBreached()) == Count(xs, IsBreached()) + Count(xs, Overdue(now))
  {
    if xs != [] {
      var front, last := xs[..|xs| - 1], xs[|xs| - 1];
      FlaggingCounts(front, now);
      assert xs == front + [last];
      assert Map(xs, Flagged(now)) == Map(front, Flagged(now)) + [Flagged(now)(last)];
      FilterAppend(Map(front, Flagged(now)), Flagged(now)(last), IsBreached());
    }
  }

  lemma ScanBooks(db: Database, now: Time, failing: set<nat>)
    requires Reported(db, now, failing) > 0
    ensures var after := Scan(db, now, failing);
            var overdue := Filter(db.executions, Overdue(now));
            && BreachEntries(after) == BreachEntries(db) + Map(overdue, BreachEntry)
            && EscalatedIds(after) == EscalatedIds(db) + Map(overdue, ExecutionId())
            && Map(BreachEntries(after), BreachedExecution())
               == Map(BreachEntries(db), BreachedExecution()) + Map(overdue, ExecutionId())
  {
    var overdue := Filter(db.executions, Overdue(now));
    FilterConcat(db.audit, Map(overdue, BreachEntry), IsBreachEntry());
    FilterAll(Map(overdue, BreachEntry), IsBreachEntry());
    assert Map(db.escalations + Map(overdue, EscalationOf(now)), EscalatedExecution())
        == EscalatedIds(db) + Map(overdue, ExecutionId());
    MapBreachedConcat(BreachEntries(db), overdue);
  }

  lemma MapBreachedConcat(entries: seq<AuditEntry>, overdue: seq<Execution>)
    ensures Map(entries + Map(overdue, BreachEntry), BreachedExecution())
         == Map(entries, BreachedExecution()) + Map(overdue, ExecutionId())
  {
  }

  lemma FlaggingLists(xs: seq<Execution>, ids: seq<nat>, now: Time)
    requires Indexed(xs) && Lists(xs, ids)
    ensures Lists(Map(xs, Flagged(now)), ids + Map(Filter(xs, Overdue(now)), ExecutionId()))
  {
    var overdue := Filter(xs, Overdue(now));
    var flagged := Map(overdue, ExecutionId());
    SelectedIdsAscend(xs, Overdue(now));
    FilterMembers(xs, Overdue(now));
    forall i | 0 <= i < |xs|
      ensures Overdue(now)(xs[i]) <==> i in flagged
    {
      if Overdue(now)(xs[i]) {
        assert xs[i] in overdue;
        var k :| 0 <= k < |overdue| && overdue[k] == xs[i];
        assert flagged[k] == i;
      }
    }
    var all := ids + flagged;
    forall i, j | 0 <= i < j < |all|
      ensures all[i] != all[j]
    {
      if i < |ids| <= j {
        assert all[i] in ids && all[j] in flagged;
        assert xs[all[i]].breached && Overdue(now)(xs[all[j]]);
      }
    }
  }

  lemma FlaggingDescribes(xs: seq<Execution>, entries: seq<AuditEntry>, now: Time)
    requires Indexed(xs) && Describes(xs, entries)
    ensures Describes(Map(xs, Flagged(now)), entries + Map(Filter(xs, Overdue(now)), BreachEntry))
  {
    var overdue := Filter(xs, Overdue(now));
    FilterMembers(xs, Overdue(now));
    forall a <- Map(overdue, BreachEntry)
      ensures BreachedExecution()(a) < |xs| && a == BreachEntry(xs[BreachedExecution()(a)])
    {
      var k :| 0 <= k < |overdue| && Map(overdue, BreachEntry)[k] == a;
      assert overdue[k] in xs;
    }
  }

  lemma ScanCorresponds(db: Database, now: Time, failing: set<nat>)
    requires Consistent(db) && Corresponding(db)
    ensures Corresponding(Scan(db, now, failing))
  {
    if Reported(db, now, failing) > 0 {
      ScanBooks(db, now, failing);
      FlaggingLists(db.executions, EscalatedIds(db), now);
      FlaggingDescribes(db.executions, BreachEntries(db), now);
      FlaggingCounts(db.executions, now);
    }
  }

  lemma StartCorresponds(db: Database, w: nat, requester: nat, data: Object, now: Time)
    requires Corresponding(db) && Start(db, w, requester, data, now, true).Ok?
    ensures Corresponding(Start(db, w, requester, data, now, true).value)
  {
    var after := Start(db, w, requester, data, now, true).value;
    FilterAppend(db.audit, after.audit[|db.audit|], IsBreachEntry());
    FilterAppend(db.executions, after.executions[|db.executions|], IsBreached());
    assert BreachEntries(after) == BreachEntries(db);
    assert EscalatedIds(after) == EscalatedIds(db);
  }

  lemma AdvanceBooks(db: Database, q: Request, closed: Execution, next: Option<Step>, now: Time)
    requires q.id < |db.requests| && closed.id < |db.executions|
    ensures var after := Advanced(db, q, closed, next, now);
            BreachEntries(after) == BreachEntries(db) && after.escalations == db.escalations
  {
    if next.Some? {
      FilterAppend(db.audit, ClosingEntry(closed), IsBreachEntry());
    } else {
      FilterAppendTwo(
        db.audit, WorkflowCompleted(q.id, closed.assignedTo, closed.status), ClosingEntry(closed), IsBreachEntry());
    }
  }

  lemma AdvanceCorresponds(db: Database, e: Execution, closed: Execution, next: Option<Step>, now: Time)
    requires Corresponding(db) && e.id < |db.executions| && e.requestId < |db.requests|
    requires db.executions[e.id] == e && db.requests[e.requestId].id == e.requestId
    requires closed.id == e.id && closed.breached == e.breached
    requires BreachEntry(closed) == BreachEntry(e)
    ensures Corresponding(Advanced(db, db.requests[e.requestId], closed, next, now))
  {
    var q := db.requests[e.requestId];
    var executions := db.executions[e.id := closed];
    AdvanceBooks(db, q, closed, next, now);
    CountUpdate(db.executions, e.id, closed, IsBreached());
    if next.Some? {
      FilterAppend(executions, Opened(|executions|, q.id, next.value, now), IsBreached());
    }
  }

  lemma ApplyCorresponds(db: Database, e: Event)
    requires Consistent(db) && Corresponding(db)
    ensures Corresponding(Apply(db, e))
  {
    if Outcome(db, e).Ok? {
      match e
      case Creating(spec) =>
      case Starting(w, requester, data, now, enqueued) => StartCorresponds(db, w, requester, data, now);
      case Deciding(r, user, outcome, decision, now) =>
        var x, next := DecideAdvances(db, r, user, outcome, decision, now);
        AdvanceCorresponds(db, x, Closed(x, user.id, outcome, decision, now), next, now);
      case Scanning(now, failing) => ScanCorresponds(db, now, failing);
    }
  }

  lemma {:induction false} RunCorresponds(start: Database, events: seq<Event>)
    requires Initial(start)
    ensures Corresponding(Run(start, events))
  {
    if events != [] {
      RunCorresponds(start, events[..|events| - 1]);
      ApplyCorresponds(Run(start, events[..|events| - 1]), events[|events| - 1]);
    }
  }

  /** In every reachable state, whatever e-mails failed: flags, escalations and breach entries match one to one. */
  lemma ReachableCorresponds(db: Database)
    requires Reachable(db)
    ensures Corresponding(db)
    ensures DashboardStats(db).overdue == |db.escalations| == |BreachEntries(db)|
  {
    var start, events :| Initial(start) && Run(start, events) == db;
    RunCorresponds(start, events);
    assert |Map(BreachEntries(db), BreachedExecution())| == |EscalatedIds(db)|;
  }

  // ------------------------------------------------- what one scan reports

  /** A scan reports as many breaches as it newly flags if and only if its e-mails were all enqueued or all failed. */
  lemma ScanReportExact(db: Database, now: Time, failing: set<nat>)
    ensures var overdue := Filter(db.executions, Overdue(now));
            var flagged := Count(Scan(db, now, failing).executions, IsBreached()) - Count(db.executions, IsBreached());
            && flagged == (if Reported(db, now, failing) == 0 then 0 else |overdue|)
            && (Reported(db, now, failing) == flagged
                <==> (forall e <- overdue :: e.id !in failing) || (forall e <- overdue :: e.id in failing))
  {
    var overdue := Filter(db.executions, Overdue(now));
    FlaggingCounts(db.executions, now);
    FilterMembers(overdue, Delivered(failing));
    if forall e <- overdue :: e.id !in failing {
      FilterAll(overdue, Delivered(failing));
    }
    if forall e <- overdue :: e.id in failing {
      FilterNone(overdue, Delivered(failing));
    }
    if |Filter(overdue, Delivered(failing))| == |overdue| {
      FilterFull(overdue, Delivered(failing));
    }
    if Filter(overdue, Delivered(failing)) == [] {
      assert forall e <- overdue :: !Delivered(failing)(e);
    }
  }

  lemma {:induction false} FilterFull<T>(xs: seq<T>, p: T -> bool)
    requires |Filter(xs, p)| == |xs|
    ensures forall x <- xs :: p(x)
  {
    if xs != [] {
      FilterMembers(xs[..|xs| - 1], p);
      FilterFull(xs[..|xs| - 1], p);
    }
  }

  /** After a scan that committed, no scan at the same or an earlier time finds anything; nor after any fault-free scan. */
  lemma SecondScanIdle(db: Database, now: Time, failing: set<nat>, again: Time, failingAgain: set<nat>)
    requires again <= now
    requires Reported(db, now, failing) > 0 || failing == {}
    ensures var after := Scan(db, now, failing);
            Reported(after, again, failingAgain) == 0 && Scan(after, again, failingAgain) == after
  {
    var after := Scan(db, now, failing);
    forall e <- after.executions
      ensures !Overdue(again)(e)
    {
      if Reported(db, now, failing) == 0 {
        var overdue := Filter(db.executions, Overdue(now));
        FilterAll(overdue, Delivered(failing));
        FilterMembers(db.executions, Overdue(now));
        assert overdue == [];
      } else {
        var i :| 0 <= i < |db.executions| && e == Flagged(now)(db.executions[i]);
      }
    }
    FilterNone(after.executions, Overdue(again));
  }

  /** A second, fault-free scan at the same time finds nothing and changes nothing if and only if the first one committed or
      had nothing to find. */
  lemma SecondScanIdleIff(db: Database, now: Time, failing: set<nat>)
    ensures var after := Scan(db, now, failing);
            var nothing := forall e <- db.executions :: !Overdue(now)(e);
            && (Reported(after, now, {}) == 0 <==> Reported(db, now, failing) > 0 || nothing)
            && (Scan(after, now, {}) == after <==> Reported(db, now, failing) > 0 || nothing)
  {
    var overdue := Filter(db.executions, Overdue(now));
    FilterMembers(db.executions, Overdue(now));
    if Reported(db, now, failing) > 0 {
      SecondScanIdle(db, now, failing, now, {});
    } else if forall e <- db.executions :: !Overdue(now)(e) {
      FilterNone(db.executions, Overdue(now));
    } else {
      FilterAll(overdue, Delivered({}));
      assert |Scan(db, now, {}).escalations| == |db.escalations| + |overdue|;
    }
  }

  // ------------------------------------------- which executions get flagged

  /** A scan that commits while an execution is pending or in progress and past its deadline. */
  ghost predicate Catches(db: Database, e: Event, x: nat) {
    && e.Scanning?
    && x < |db.executions|
    && (db.executions[x].status == PENDING || db.executions[x].status == IN_PROGRESS)
    && db.executions[x].deadline < e.now
    && Reported(db, e.now, e.failing) > 0
  }

  lemma ApplyFlags(db: Database, e: Event, x: nat)
    requires Consistent(db)
    ensures var after := Apply(db, e);
            && |db.executions| <= |after.executions|
            && (x < |after.executions| ==>
                  (after.executions[x].breached
                   <==> (x < |db.executions| && db.executions[x].breached) || Catches(db, e, x)))
  {
    if e.Deciding? && Outcome(db, e).Ok? {
      var o, next := DecideAdvances(db, e.requestId, e.user, e.outcome, e.decision, e.now);
    }
  }

  ghost predicate CaughtAt(start: Database, events: seq<Event>, k: nat, x: nat)
    requires Consistent(start) && k < |events|
  {
    Catches(Run(start, events[..k]), events[k], x)
  }

  /** Some event of the run caught `x`. */
  ghost predicate Caught(start: Database, events: seq<Event>, x: nat)
    requires Consistent(start)
  {
    events != [] && (Caught(start, events[..|events| - 1], x) || CaughtAt(start, events, |events| - 1, x))
  }

  lemma CaughtPrefix(start: Database, events: seq<Event>, k: nat, x: nat)
    requires Consistent(start) && k < |events| - 1
    ensures CaughtAt(start, events, k, x) == CaughtAt(start, events[..|events| - 1], k, x)
  {
    assert events[..|events| - 1][..k] == events[..k];
  }

  lemma {:induction false} CaughtWitness(start: Database, events: seq<Event>, x: nat) returns (k: nat)
    requires Consistent(start) && Caught(start, events, x)
    ensures k < |events| && CaughtAt(start, events, k, x)
  {
    if CaughtAt(start, events, |events| - 1, x) {
      k := |events| - 1;
    } else {
      k := CaughtWitness(start, events[..|events| - 1], x);
      CaughtPrefix(start, events, k, x);
    }
  }

  lemma {:induction false} WitnessCaught(start: Database, events: seq<Event>, k: nat, x: nat)
    requires Consistent(start) && k < |events| && CaughtAt(start, events, k, x)
    ensures Caught(start, events, x)
  {
    if k < |events| - 1 {
      CaughtPrefix(start, events, k, x);
      WitnessCaught(start, events[..|events| - 1], k, x);
    }
  }

  lemma {:induction false} CaughtExists(start: Database, events: seq<Event>, x: nat)
    requires Consistent(start) && Caught(start, events, x)
    ensures x < |Run(start, events).executions|
  {
    var n := |events| - 1;
    ApplyFlags(Run(start, events[..n]), events[n], x);
    if Caught(start, events[..n], x) {
      CaughtExists(start, events[..n], x);
    }
  }

  lemma {:induction false} FlaggedIffCaught(start: Database, events: seq<Event>, x: nat)
    requires Initial(start) && x < |Run(start, events).executions|
    ensures Run(start, events).executions[x].breached <==> Caught(start, events, x)
  {
    if events != [] {
      var n := |events| - 1;
      ApplyFlags(Run(start, events[..n]), events[n], x);
      if x < |Run(start, events[..n]).executions| {
        FlaggedIffCaught(start, events[..n], x);
      } else if Caught(start, events[..n], x) {
        CaughtExists(start, events[..n], x);
      }
    }
  }

  /** Over any run, whatever the outcomes and whatever e-mails fail: an execution is flagged if and only if a scan caught
      it. */
  lemma FlaggedExactly(start: Database, events: seq<Event>, x: nat)
    requires Initial(start) && x < |Run(start, events).executions|
    ensures Run(start, events).executions[x].breached <==> exists k: nat | k < |events| :: CaughtAt(start, events, k, x)
  {
    FlaggedIffCaught(start, events, x);
    if Caught(start, events, x) {
      var k := CaughtWitness(start, events, x);
    }
    forall k: nat | k < |events| && CaughtAt(start, events, k, x)
      ensures Caught(start, events, x)
    {
      WitnessCaught(start, events, k, x);
    }
  }

  /** A flag is never cleared. */
  lemma {:induction false} FlagStays(start: Database, events: seq<Event>, k: nat, x: nat)
    requires Consistent(start) && k <= |events|
    requires x < |Run(start, events[..k]).executions| && Run(start, events[..k]).executions[x].breached
    ensures x < |Run(start, events).executions| && Run(start, events).executions[x].breached
    decreases |events| - k
  {
    if k == |events| {
      assert events[..k] == events;
    } else {
      RunStep(start, events, k);
      ApplyFlags(Run(start, events[..k]), events[k], x);
      FlagStays(start, events, k + 1, x);
    }
  }

  // ------------------------------- decisive outcomes, no failing e-mails

  predicate IsDecisive(outcome: Label) {
    outcome == APPROVED || outcome == REJECTED || outcome == SKIPPED
  }

  predicate IsRegular(e: Event) {
    (e.Deciding? ==> IsDecisive(e.outcome)) && (e.Scanning? ==> e.failing == {})
  }

  ghost predicate ClosedDecisively(db: Database) {
    forall i | 0 <= i < |db.executions| ::
      db.executions[i].completedAt.Some? ==> IsDecisive(db.executions[i].status)
  }

  lemma AdvanceDecisive(db: Database, q: Request, closed: Execution, next: Option<Step>, now: Time)
    requires q.id < |db.requests| && closed.id < |db.executions|
    requires ClosedDecisively(db) && IsDecisive(closed.status)
    ensures ClosedDecisively(Advanced(db, q, closed, next, now))
  {
  }

  lemma ApplyDecisive(db: Database, e: Event)
    requires Consistent(db) && ClosedDecisively(db) && IsRegular(e)
    ensures ClosedDecisively(Apply(db, e))
  {
    if e.Deciding? && Outcome(db, e).Ok? {
      var x, next := DecideAdvances(db, e.requestId, e.user, e.outcome, e.decision, e.now);
      var closed := Closed(x, e.user.id, e.outcome, e.decision, e.now);
      AdvanceDecisive(db, db.requests[e.requestId], closed, next, e.now);
    }
  }

  lemma {:induction false} RunDecisive(start: Database, events: seq<Event>)
    requires Initial(start) && forall e <- events :: IsRegular(e)
    ensures ClosedDecisively(Run(start, events))
  {
    if events != [] {
      RunDecisive(start, events[..|events| - 1]);
      ApplyDecisive(Run(start, events[..|events| - 1]), events[|events| - 1]);
    }
  }

  /** A scan that runs strictly after the deadline of an execution that is still open. */
  ghost predicate RunsLate(db: Database, e: Event, x: nat) {
    e.Scanning? && x < |db.executions| && db.executions[x].completedAt.None? && db.executions[x].deadline < e.now
  }

  lemma LateScanFlags(db: Database, e: Event, x: nat)
    requires Invariant(db) && IsRegular(e) && RunsLate(db, e, x)
    ensures x < |Apply(db, e).executions| && Apply(db, e).executions[x].breached
  {
    OpenIsLast(db, db.executions[x]);
    if !db.executions[x].breached {
      var overdue := Filter(db.executions, Overdue(e.now));
      FilterMembers(db.executions, Overdue(e.now));
      FilterAll(overdue, Delivered(e.failing));
      assert db.executions[x] in overdue;
    }
    ApplyFlags(db, e, x);
  }

  /** The `k`-th event of the run is a scan that runs late for `x`. */
  ghost predicate LateAt(start: Database, events: seq<Event>, k: nat, x: nat)
    requires Consistent(start) && k < |events|
  {
    RunsLate(Run(start, events[..k]), events[k], x)
  }

  lemma CaughtIsLate(start: Database, events: seq<Event>, k: nat, x: nat)
    requires Initial(start) && k < |events| && CaughtAt(start, events, k, x)
    requires forall e <- events :: IsRegular(e)
    ensures LateAt(start, events, k, x)
  {
    RunDecisive(start, events[..k]);
  }

  /** With decisive outcomes and no failing e-mails, an execution is flagged if and only if some scan ran strictly after its
      deadline while it was still open. */
  lemma FlaggedIffLate(start: Database, events: seq<Event>, x: nat)
    requires Initial(start) && x < |Run(start, events).executions|
    requires forall e <- events :: IsRegular(e)
    ensures Run(start, events).executions[x].breached <==> exists k: nat | k < |events| :: LateAt(start, events, k, x)
  {
    FlaggedIffCaught(start, events, x);
    if Caught(start, events, x) {
      var k := CaughtWitness(start, events, x);
      CaughtIsLate(start, events, k, x);
    }
    forall k: nat | k < |events| && LateAt(start, events, k, x)
      ensures Run(start, events).executions[x].breached
    {
      LateFlagStays(start, events, k, x);
    }
  }

  lemma LateFlagStays(start: Database, events: seq<Event>, k: nat, x: nat)
    requires Initial(start) && k < |events| && IsRegular(events[k])
    requires LateAt(start, events, k, x)
    ensures x < |Run(start, events).executions| && Run(start, events).executions[x].breached
  {
    RunKeeps(start, events[..k]);
    LateScanFlags(Run(start, events[..k]), events[k], x);
    RunStep(start, events, k);
    FlagStays(start, events, k + 1, x);
  }

  /** What the restriction on outcomes is for: an execution that was closed unflagged is flagged by a later scan exactly when
      the decision that closed it wrote PENDING or IN_PROGRESS into its status. */
  lemma ClosedButFlagged(
      db: Database, r: nat, user: User, outcome: Label, decision: Option<Object>, now: Time, later: Time)
    requires Consistent(db) && Decide(db, r, user, outcome, decision, now).Ok?
    requires CurrentExecution(db, db.requests[r]).value.deadline < later
    requires !CurrentExecution(db, db.requests[r]).value.breached
    ensures var x := CurrentExecution(db, db.requests[r]).value.id;
            var after := Decide(db, r, user, outcome, decision, now).value;
            && x < |after.executions|
            && after.executions[x].completedAt == Some(now)
            && (Scan(after, later, {}).executions[x].breached <==> outcome == PENDING || outcome == IN_PROGRESS)
  {
    var x := CurrentExecution(db, db.requests[r]).value.id;
    var after := Decide(db, r, user, outcome, decision, now).value;
    ClosesExecution(db, r, user, outcome, decision, now);
    assert after.executions[x] == after.executions[..|db.executions|][x];
    var overdue := Filter(after.executions, Overdue(later));
    FilterMembers(after.executions, Overdue(later));
    FilterAll(overdue, Delivered({}));
    if outcome == PENDING || outcome == IN_PROGRESS {
      assert after.executions[x] in overdue;
    }
  }
}
