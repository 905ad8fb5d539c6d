// When the order of the transition rows, which the query leaves open, does not matter.

module Resolution {
  import opened Rows
  import opened Json
  import opened Conditions
  import opened Tables
  import opened Engine
  import opened Runs

  /** All transitions that fire go the same way. */
  ghost predicate Unanimous(ts: seq<Transition>, stepId: nat, outcome: Label, context: Object) {
    forall i, j | 0 <= i < |ts| && 0 <= j < |ts| ::
      Fires(stepId, outcome, context)(ts[i]) && Fires(stepId, outcome, context)(ts[j]) ==> ts[i].toStep == ts[j].toStep
  }

  ghost predicate IsReordering(ts: seq<Transition>, us: seq<Transition>) {
    multiset(ts) == multiset(us)
  }

  lemma ReorderingMembers(ts: seq<Transition>, us: seq<Transition>)
    requires IsReordering(ts, us)
    ensures forall t :: t in ts <==> t in us
  {
    assert forall t :: t in ts <==> t in multiset(ts);
    assert forall t :: t in us <==> t in multiset(us);
  }

  lemma UnanimousReorders(
      ts: seq<Transition>, us: seq<Transition>, stepId: nat, outcome: Label, context: Object)
    requires IsReordering(ts, us) && Unanimous(ts, stepId, outcome, context)
    ensures Next(us, stepId, outcome, context) == Next(ts, stepId, outcome, context)
  {
    ReorderingMembers(ts, us);
    var fires := Fires(stepId, outcome, context);
    var t, u := FirstWhere(ts, fires), FirstWhere(us, fires);
    if u.Some? {
      assert u.value in ts && fires(u.value);
    }
    if t.Some? {
      assert t.value in us && fires(t.value);
    }
  }

  /** Moving a row to the front keeps the rows. */
  lemma ToFront(ts: seq<Transition>, i: nat) returns (us: seq<Transition>)
    requires i < |ts|
    ensures IsReordering(ts, us) && us != [] && us[0] == ts[i]
  {
    us := [ts[i]] + ts[..i] + ts[i + 1..];
    assert ts == ts[..i] + [ts[i]] + ts[i + 1..];
  }

  /** Every order of the rows resolves alike if and only if the transitions that fire all go the same way; in particular when
      at most one fires. */
  lemma OrderIrrelevantIff(ts: seq<Transition>, stepId: nat, outcome: Label, context: Object)
    ensures (forall us | IsReordering(ts, us) :: Next(us, stepId, outcome, context) == Next(ts, stepId, outcome, context))
       <==> Unanimous(ts, stepId, outcome, context)
  {
    var fires := Fires(stepId, outcome, context);
    if Unanimous(ts, stepId, outcome, context) {
      forall us | IsReordering(ts, us)
        ensures Next(us, stepId, outcome, context) == Next(ts, stepId, outcome, context)
      {
        UnanimousReorders(ts, us, stepId, outcome, context);
      }
    } else {
      var i, j :| 0 <= i < |ts| && 0 <= j < |ts| && fires(ts[i]) && fires(ts[j]) && ts[i].toStep != ts[j].toStep;
      var k := if ts[i].toStep != Next(ts, stepId, outcome, context) then i else j;
      var us := ToFront(ts, k);
      assert Next(us, stepId, outcome, context) == ts[k].toStep;
    }
  }

  /** What is resolved, row by row: the target of the first row for this step and outcome whose condition is absent, empty or
      true. */
  lemma NextExact(ts: seq<Transition>, stepId: nat, outcome: Label, context: Object) returns (i: Option<nat>)
    ensures i.Some? ==>
              && i.value < |ts|
              && Applies(ts[i.value], stepId, outcome, context)
              && (forall j | 0 <= j < i.value :: !Applies(ts[j], stepId, outcome, context))
              && Next(ts, stepId, outcome, context) == ts[i.value].toStep
    ensures i.None? ==>
              && (forall t <- ts :: !Applies(t, stepId, outcome, context))
              && Next(ts, stepId, outcome, context) == None
  {
    var fires := Fires(stepId, outcome, context);
    assert forall t :: fires(t) == Applies(t, stepId, outcome, context);
    if FirstWhere(ts, fires).Some? {
      var k := FirstWhereIsFirst(ts, fires);
      i := Some(k);
    } else {
      i := None;
    }
  }

  ghost predicate Applies(t: Transition, stepId: nat, outcome: Label, context: Object) {
    && t.fromStep == stepId
    && t.outcome == outcome
    && (t.condition == None || t.condition == Some(map[]) || Holds(t.condition, context))
  }

  /** `t` and `u` are in the table, and every row for the step and outcome is one of them. */
  ghost predicate CandidatesAre(ts: seq<Transition>, t: Transition, u: Transition, stepId: nat, outcome: Label) {
    && t in ts && u in ts
    && forall x <- ts :: x.fromStep == stepId && x.outcome == outcome <==> x == t || x == u
  }

  /** Where a step and outcome have two candidates, guarded by `>` and `<=` on one field and value, every order of the
      transition table resolves to the one whose guard is true, and ends the flow if the two sides do not compare. */
  lemma ThresholdPairResolves(
      ts: seq<Transition>, t: Transition, u: Transition, field: string, target: Value, stepId: nat, outcome: Label,
      context: Object, us: seq<Transition>)
    requires field != "" && CandidatesAre(ts, t, u, stepId, outcome)
    requires t.condition == Some(Config(field, ">", target)) && u.condition == Some(Config(field, "<=", target))
    requires IsReordering(ts, us)
    ensures Next(us, stepId, outcome, context)
         == if Holds(t.condition, context) then t.toStep
            else if Comparable(field, target, context) then u.toStep
            else None
    ensures Next(us, stepId, outcome, context) == Next(ts, stepId, outcome, context)
  {
    ThresholdGuards(field, target, context);
    ReorderingMembers(ts, us);
    var fires := Fires(stepId, outcome, context);
    assert forall x <- ts | fires(x) :: x == t || x == u;
    OrderIrrelevantIff(ts, stepId, outcome, context);
  }

  // ------------------------------------------ guards on a request's data

  /** Paths under `request_data` lead into the data of the request, paths under `decision_data` into the data of the decision,
      and there is nothing else. */
  lemma ContextLookup(data: Object, decision: Option<Object>, path: seq<string>)
    ensures var context := Obj(EvalContext(data, decision));
            && Lookup(context, ["request_data"] + path) == Lookup(Obj(data), path)
            && Lookup(context, ["decision_data"] + path)
               == Lookup(Obj(if decision.Some? then decision.value else map[]), path)
            && forall name | name != "request_data" && name != "decision_data" ::
                 Lookup(context, [name] + path) == Null
  {
    var context := EvalContext(data, decision);
    assert forall name :: ([name] + path)[1..] == path;
    assert Get(context, "request_data") == Obj(data);
    LookupNull(path);
  }

  lemma FieldPath(name: string, path: seq<string>)
    requires name != "" && '.' !in name && forall part <- path :: '.' !in part
    ensures Join([name] + path) != "" && Split(Join([name] + path)) == [name] + path
  {
    SplitJoin([name] + path);
  }

  /** A condition on the request's data depends on that data alone, and one on the decision's data on that alone. */
  lemma GuardsSeparate(
      data: Object, decision: Option<Object>, otherData: Object, otherDecision: Option<Object>, path: seq<string>,
      operator: string, target: Value)
    requires forall part <- path :: '.' !in part
    ensures var onRequest := Some(Config(Join(["request_data"] + path), operator, target));
            Lookup(Obj(data), path) == Lookup(Obj(otherData), path) ==>
              Holds(onRequest, EvalContext(data, decision)) == Holds(onRequest, EvalContext(otherData, otherDecision))
    ensures var onDecision := Some(Config(Join(["decision_data"] + path), operator, target));
            decision == otherDecision ==>
              Holds(onDecision, EvalContext(data, decision)) == Holds(onDecision, EvalContext(otherData, otherDecision))
  {
    FieldPath("request_data", path);
    FieldPath("decision_data", path);
    ContextLookup(data, decision, path);
    ContextLookup(otherData, otherDecision, path);
    ConfigHolds(Join(["request_data"] + path), operator, target, EvalContext(data, decision));
    ConfigHolds(Join(["request_data"] + path), operator, target, EvalContext(otherData, otherDecision));
    ConfigHolds(Join(["decision_data"] + path), operator, target, EvalContext(data, decision));
    ConfigHolds(Join(["decision_data"] + path), operator, target, EvalContext(otherData, otherDecision));
  }

  /** The guards of a threshold pair on a value of the request's data. */
  ghost predicate ThresholdOn(t: Transition, u: Transition, path: seq<string>, target: Value) {
    && (forall part <- path :: '.' !in part)
    && t.condition == Some(Config(Join(["request_data"] + path), ">", target))
    && u.condition == Some(Config(Join(["request_data"] + path), "<=", target))
  }

  lemma RequestThreshold(
      t: Transition, u: Transition, path: seq<string>, target: Value, data: Object, decision: Option<Object>)
    requires ThresholdOn(t, u, path, target)
    ensures var v, context := Lookup(Obj(data), path), EvalContext(data, decision);
            && (forall x, y | ReadsAs(v, x) && ReadsAs(target, y) ::
                  (Holds(t.condition, context) <==> x > y) && (Holds(u.condition, context) <==> x <= y))
            && (Unreadable(v) || Unreadable(target) ==> !Holds(t.condition, context) && !Holds(u.condition, context))
  {
    var field := Join(["request_data"] + path);
    var context := EvalContext(data, decision);
    FieldPath("request_data", path);
    ContextLookup(data, decision, path);
    var v := Lookup(Obj(data), path);
    forall x, y | ReadsAs(v, x) && ReadsAs(target, y)
      ensures (Holds(t.condition, context) <==> x > y) && (Holds(u.condition, context) <==> x <= y)
    {
      OrderOnNumbers(field, target, context, x, y);
    }
    if Unreadable(v) || Unreadable(target) {
      UnreadableFails(field, ">", target, context);
      UnreadableFails(field, "<=", target, context);
    }
  }

  /** A pair of which at most one fires goes the way of the one that does. */
  lemma PairResolves(
      ts: seq<Transition>, t: Transition, u: Transition, stepId: nat, outcome: Label, context: Object)
    requires CandidatesAre(ts, t, u, stepId, outcome)
    requires !(Holds(t.condition, context) && Holds(u.condition, context))
    ensures Next(ts, stepId, outcome, context)
         == if Holds(t.condition, context) then t.toStep
            else if Holds(u.condition, context) then u.toStep
            else None
  {
    var fires := Fires(stepId, outcome, context);
    assert forall x <- ts | fires(x) :: x == t || x == u;
  }

  /** A decision where a threshold on the request's data has to be resolved: the request moves on as the number in its data
      says, whatever data comes with the decision, and ends when there is no number. */
  lemma AmountDecides(
      db: Database, r: nat, user: User, outcome: Label, decision: Option<Object>, now: Time, t: Transition,
      u: Transition, path: seq<string>, target: Value)
    requires Consistent(db) && Decide(db, r, user, outcome, decision, now).Ok?
    requires r < |db.requests| && db.requests[r].currentStep.Some?
    requires CandidatesAre(db.defs.transitions, t, u, db.requests[r].currentStep.value, outcome)
    requires ThresholdOn(t, u, path, target)
    ensures var after := Decide(db, r, user, outcome, decision, now).value;
            var v := Lookup(Obj(db.requests[r].data), path);
            && r < |after.requests|
            && (forall x, y | ReadsAs(v, x) && ReadsAs(target, y) ::
                  after.requests[r].currentStep == if x > y then t.toStep else u.toStep)
            && (Unreadable(v) || Unreadable(target) ==> after.requests[r].currentStep == None)
  {
    var e, next := DecideAdvances(db, r, user, outcome, decision, now);
    var data := db.requests[r].data;
    RequestThreshold(t, u, path, target, data, decision);
    ThresholdIsExclusive(t, u, path, target, EvalContext(data, decision));
    PairResolves(db.defs.transitions, t, u, e.stepId, outcome, EvalContext(data, decision));
  }

  lemma ThresholdIsExclusive(t: Transition, u: Transition, path: seq<string>, target: Value, context: Object)
    requires ThresholdOn(t, u, path, target)
    ensures !(Holds(t.condition, context) && Holds(u.condition, context))
  {
    FieldPath("request_data", path);
    ThresholdGuards(Join(["request_data"] + path), target, context);
  }
}
