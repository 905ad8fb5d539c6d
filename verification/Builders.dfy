// The two pages that build workflows: the wizard and the blueprint editor.

module Builders {
  import opened Rows
  import opened Tables
  import opened Engine
  import opened Compiler

  // ------------------------------------------------------------- the wizard

  datatype WizardStep = WizardStep(
    tempId: string,
    name: string,
    order: int,
    slaHours: int,
    requiredRole: Option<nat>,
    requiredPermission: Option<nat>)

  /** A transition between wizard steps, by their temporary ids. A missing target ends the flow. */
  datatype Draft = Draft(fromId: string, toId: Option<string>, outcome: Label)

  function Decimal(n: nat): string {
    var digit := (('0' as int) + n % 10) as char;
    if n < 10 then [digit] else Decimal(n / 10) + [digit]
  }

  function NewStep(tempId: string, position: nat): WizardStep {
    WizardStep(tempId, "Step " + Decimal(position), position, 24, None, None)
  }

  function Renumbered(steps: seq<WizardStep>): (r: seq<WizardStep>)
    ensures |r| == |steps| && forall i | 0 <= i < |steps| :: r[i] == steps[i].(order := i + 1)
  {
    seq(|steps|, i requires 0 <= i < |steps| => steps[i].(order := i + 1))
  }

  /** `splice(index, 1)`: past the end it removes nothing. */
  function Spliced(steps: seq<WizardStep>, index: nat): seq<WizardStep> {
    if index < |steps| then steps[..index] + steps[index + 1..] else steps
  }

  function Removed(steps: seq<WizardStep>, index: nat): seq<WizardStep> {
    Renumbered(Spliced(steps, index))
  }

  function DraftsAt(steps: seq<WizardStep>, i: nat): seq<Draft>
    requires i < |steps|
  {
    [Draft(steps[i].tempId, if i + 1 < |steps| then Some(steps[i + 1].tempId) else None, APPROVED),
     Draft(steps[i].tempId, None, REJECTED)]
  }

  /** The default transitions of the first `k` steps. */
  function Drafts(steps: seq<WizardStep>, k: nat): seq<Draft>
    requires k <= |steps|
  {
    if k == 0 then [] else Drafts(steps, k - 1) + DraftsAt(steps, k - 1)
  }

  function HasTempId(id: string): WizardStep -> bool {
    (s: WizardStep) => s.tempId == id
  }

  function OrderOfStep(s: Option<WizardStep>): Option<int> {
    if s.Some? then Some(s.value.order) else None
  }

  /** A draft in terms of orders. None is a transition without a source, which the endpoint refuses. */
  function Formatted(steps: seq<WizardStep>, d: Draft): Option<TransitionSpec> {
    var from := FirstWhere(steps, HasTempId(d.fromId));
    var to := if d.toId.Some? then FirstWhere(steps, HasTempId(d.toId.value)) else None;
    if from.Some? then Some(TransitionSpec(from.value.order, OrderOfStep(to), d.outcome, None)) else None
  }

  function AllFormatted(steps: seq<WizardStep>, drafts: seq<Draft>): Option<seq<TransitionSpec>> {
    if drafts == [] then Some([])
    else
      var front := AllFormatted(steps, drafts[..|drafts| - 1]);
      var last := Formatted(steps, drafts[|drafts| - 1]);
      if front.Some? && last.Some? then Some(front.value + [last.value]) else None
  }

  function SpecOfStep(): WizardStep -> StepSpec {
    (s: WizardStep) => StepSpec(s.name, s.order, s.slaHours, s.requiredRole, s.requiredPermission)
  }

  /** What the wizard posts once the default transitions have been generated. */
  function WizardPayload(name: string, steps: seq<WizardStep>): Option<WorkflowSpec> {
    var transitions := AllFormatted(steps, Drafts(steps, |steps|));
    if transitions.Some? then Some(WorkflowSpec(name, Map(steps, SpecOfStep()), transitions.value)) else None
  }

  // ---------------------------------------------------- the blueprint editor

  datatype BlueprintStep = BlueprintStep(name: string, role: string, order: int, sla: int)

  function NamesRole(name: string): Role -> bool {
    (r: Role) => Lower(r.name) == Lower(name)
  }

  /** An SLA of zero stands for the default of 24 hours; a role that is not found is no requirement. */
  function SpecOfBlueprint(roles: seq<Role>): BlueprintStep -> StepSpec {
    (s: BlueprintStep) =>
      var role := FirstWhere(roles, NamesRole(s.role));
      StepSpec(s.name, s.order, if s.sla == 0 then 24 else s.sla, if role.Some? then Some(role.value.id) else None, None)
  }

  function ApprovedEdge(steps: seq<StepSpec>, i: nat): TransitionSpec
    requires i < |steps|
  {
    TransitionSpec(steps[i].order, if i + 1 < |steps| then Some(steps[i + 1].order) else None, APPROVED, None)
  }

  function RejectedEdge(steps: seq<StepSpec>, i: nat): TransitionSpec
    requires i < |steps|
  {
    TransitionSpec(steps[i].order, None, REJECTED, None)
  }

  /** The transitions that the editor makes for the first `k` steps: approval leads on. */
  function ApprovedEdges(steps: seq<StepSpec>, k: nat): seq<TransitionSpec>
    requires k <= |steps|
  {
    if k == 0 then [] else ApprovedEdges(steps, k - 1) + [ApprovedEdge(steps, k - 1)]
  }

  /** The transitions that the wizard makes: approval leads on and rejection ends the flow. */
  function BothEdges(steps: seq<StepSpec>, k: nat): seq<TransitionSpec>
    requires k <= |steps|
  {
    if k == 0 then [] else BothEdges(steps, k - 1) + [ApprovedEdge(steps, k - 1), RejectedEdge(steps, k - 1)]
  }

  function ApprovedSpec(name: string, steps: seq<StepSpec>): WorkflowSpec {
    WorkflowSpec(name, steps, ApprovedEdges(steps, |steps|))
  }

  function BothSpec(name: string, steps: seq<StepSpec>): WorkflowSpec {
    WorkflowSpec(name, steps, BothEdges(steps, |steps|))
  }

  method BlueprintPayload(name: string, blueprint: seq<BlueprintStep>, roles: seq<Role>) returns (payload: WorkflowSpec)
    ensures payload == ApprovedSpec(name, Map(blueprint, SpecOfBlueprint(roles)))
  {
    var steps := Map(blueprint, SpecOfBlueprint(roles));
    var transitions: seq<TransitionSpec> := [];
    for i := 0 to |steps|
      invariant transitions == ApprovedEdges(steps, i)
    {
      var next := if i + 1 < |steps| then Some(steps[i + 1].order) else None;
      transitions := transitions + [TransitionSpec(steps[i].order, next, APPROVED, None)];
    }
    payload := WorkflowSpec(name, steps, transitions);
  }

  // ---------------------------------------------------------- wizard sessions

  datatype Edit =
    | Add(tempId: string)
    | Remove(index: nat)
    | Rename(index: nat, name: string)
    | Assign(index: nat, role: Option<nat>)

  /** A new temporary id is fresh, and only steps that are on the page are edited. */
  predicate IsPossible(steps: seq<WizardStep>, e: Edit) {
    match e
    case Add(id) => forall s <- steps :: s.tempId != id
    case Remove(_) => true
    case Rename(i, _) => i < |steps|
    case Assign(i, _) => i < |steps|
  }

  function Edited(steps: seq<WizardStep>, e: Edit): seq<WizardStep>
    requires IsPossible(steps, e)
  {
    match e
    case Add(id) => steps + [NewStep(id, |steps| + 1)]
    case Remove(i) => Removed(steps, i)
    case Rename(i, name) => steps[i := steps[i].(name := name)]
    case Assign(i, role) => steps[i := steps[i].(requiredRole := role)]
  }

  /** The steps after a session, or None when an edit of it was not possible. */
  function StepsAfter(edits: seq<Edit>): Option<seq<WizardStep>> {
    if edits == [] then Some([])
    else
      var before := StepsAfter(edits[..|edits| - 1]);
      var e := edits[|edits| - 1];
      if before.Some? && IsPossible(before.value, e) then Some(Edited(before.value, e)) else None
  }

  /** The steps are numbered 1 to n in order, and no two share a temporary id. */
  ghost predicate WellNumbered(steps: seq<WizardStep>) {
    && (forall i | 0 <= i < |steps| :: steps[i].order == i + 1)
    && (forall i, j | 0 <= i < j < |steps| :: steps[i].tempId != steps[j].tempId)
  }

  lemma RemoveNumbers(steps: seq<WizardStep>, index: nat)
    requires WellNumbered(steps)
    ensures WellNumbered(Removed(steps, index))
  {
    var after := Removed(steps, index);
    if index < |steps| {
      forall i, j | 0 <= i < j < |after|
        ensures after[i].tempId != after[j].tempId
      {
        var a, b := if i < index then i else i + 1, if j < index then j else j + 1;
        assert after[i].tempId == steps[a].tempId && after[j].tempId == steps[b].tempId;
      }
    }
  }

  lemma EditNumbers(steps: seq<WizardStep>, e: Edit)
    requires WellNumbered(steps) && IsPossible(steps, e)
    ensures WellNumbered(Edited(steps, e))
  {
    match e
    case Add(id) =>
    case Remove(i) => RemoveNumbers(steps, i);
    case Rename(i, name) =>
    case Assign(i, role) =>
  }

  lemma {:induction false} SessionNumbers(edits: seq<Edit>)
    requires StepsAfter(edits).Some?
    ensures WellNumbered(StepsAfter(edits).value)
  {
    if edits != [] {
      SessionNumbers(edits[..|edits| - 1]);
      EditNumbers(StepsAfter(edits[..|edits| - 1]).value, edits[|edits| - 1]);
    }
  }

  lemma {:induction false} FindsItself(steps: seq<WizardStep>, i: nat)
    requires i < |steps|
    requires forall a, b | 0 <= a < b < |steps| :: steps[a].tempId != steps[b].tempId
    ensures FirstWhere(steps, HasTempId(steps[i].tempId)) == Some(steps[i])
  {
    assert HasTempId(steps[i].tempId)(steps[i]) && steps[i] in steps;
    var k := FirstWhereIsFirst(steps, HasTempId(steps[i].tempId));
    assert k == i;
  }

  lemma AllFormattedAppend(steps: seq<WizardStep>, drafts: seq<Draft>, d: Draft)
    ensures AllFormatted(steps, drafts + [d])
         == if AllFormatted(steps, drafts).Some? && Formatted(steps, d).Some? then
              Some(AllFormatted(steps, drafts).value + [Formatted(steps, d).value])
            else None
  {
    assert (drafts + [d])[..|drafts|] == drafts;
  }

  lemma AllFormattedAppendTwo(
      steps: seq<WizardStep>, drafts: seq<Draft>, x: Draft, y: Draft, front: seq<TransitionSpec>, fx: TransitionSpec,
      fy: TransitionSpec)
    requires AllFormatted(steps, drafts) == Some(front)
    requires Formatted(steps, x) == Some(fx) && Formatted(steps, y) == Some(fy)
    ensures AllFormatted(steps, drafts + [x, y]) == Some(front + [fx, fy])
  {
    AllFormattedAppend(steps, drafts, x);
    AllFormattedAppend(steps, drafts + [x], y);
    assert drafts + [x, y] == (drafts + [x]) + [y];
    assert front + [fx, fy] == (front + [fx]) + [fy];
  }

  ghost predicate SameOrders(steps: seq<WizardStep>, specs: seq<StepSpec>) {
    |steps| == |specs| && forall i | 0 <= i < |steps| :: steps[i].order == specs[i].order
  }

  lemma FormattedDrafts(steps: seq<WizardStep>, specs: seq<StepSpec>, i: nat)
    requires WellNumbered(steps) && SameOrders(steps, specs) && i < |steps|
    ensures Formatted(steps, DraftsAt(steps, i)[0]) == Some(ApprovedEdge(specs, i))
    ensures Formatted(steps, DraftsAt(steps, i)[1]) == Some(RejectedEdge(specs, i))
  {
    FindsItself(steps, i);
    if i + 1 < |steps| {
      FindsItself(steps, i + 1);
    }
  }

  lemma {:induction false} DraftsFormat(steps: seq<WizardStep>, specs: seq<StepSpec>, k: nat)
    requires WellNumbered(steps) && SameOrders(steps, specs) && k <= |steps|
    ensures AllFormatted(steps, Drafts(steps, k)) == Some(BothEdges(specs, k))
  {
    if k > 0 {
      DraftsFormat(steps, specs, k - 1);
      FormattedDrafts(steps, specs, k - 1);
      var d := DraftsAt(steps, k - 1);
      AllFormattedAppendTwo(
        steps, Drafts(steps, k - 1), d[0], d[1], BothEdges(specs, k - 1), ApprovedEdge(specs, k - 1),
        RejectedEdge(specs, k - 1));
      assert [d[0], d[1]] == d;
    }
  }

  /** Whatever a session added, removed and edited, each transition of its payload finds its source: the payload has the steps
      in order, an approval edge from each to the next, and a rejection edge from each to the end. */
  lemma SessionPayload(name: string, edits: seq<Edit>)
    requires StepsAfter(edits).Some?
    ensures var steps := StepsAfter(edits).value;
            WizardPayload(name, steps) == Some(BothSpec(name, Map(steps, SpecOfStep())))
  {
    SessionNumbers(edits);
    var steps := StepsAfter(edits).value;
    DraftsFormat(steps, Map(steps, SpecOfStep()), |steps|);
  }

  /** No edit changes the hours of a step. */
  lemma {:induction false} SessionHours(edits: seq<Edit>)
    requires StepsAfter(edits).Some?
    ensures forall s <- StepsAfter(edits).value :: s.slaHours == 24
  {
    if edits != [] {
      SessionHours(edits[..|edits| - 1]);
    }
  }

  /** The names on the page are within the bounds of the request schema. */
  predicate NamesFit(name: string, steps: seq<WizardStep>) {
    1 <= |name| <= 255 && forall s <- steps :: 1 <= |s.name| <= 100
  }

  /** Only names can make the endpoint refuse what a session submits. */
  lemma SessionAccepted(name: string, edits: seq<Edit>)
    requires StepsAfter(edits).Some?
    ensures var steps := StepsAfter(edits).value;
            Accepted(BothSpec(name, Map(steps, SpecOfStep()))) <==> NamesFit(name, steps)
  {
    SessionNumbers(edits);
    SessionHours(edits);
    var steps := StepsAfter(edits).value;
    var specs := Map(steps, SpecOfStep());
    forall s <- specs
      ensures s.order >= 1 && s.slaHours >= 1
    {
      var i :| 0 <= i < |specs| && specs[i] == s;
      assert steps[i] in steps;
    }
    if forall s <- specs :: IsWithin(s.name, 100) {
      forall s <- steps
        ensures IsWithin(s.name, 100)
      {
        var i :| 0 <= i < |steps| && steps[i] == s;
        assert specs[i] in specs;
      }
    }
  }

  /** A session whose payload is refused, whatever the workflow is called: the name of its one step was cleared. */
  lemma ClearedNameRefused(db: Database, user: User, name: string, id: string)
    ensures var steps := StepsAfter([Add(id), Rename(0, "")]);
            && steps.Some?
            && |steps.value| == 1
            && Posted(db, user, WizardPayload(name, steps.value)) == Err(PayloadRefused)
  {
    var edits, added := [Add(id), Rename(0, "")], NewStep(id, 1);
    var cleared := added.(name := "");
    assert edits[..1] == [Add(id)] && edits[..1][..0] == [];
    assert Edited([], Add(id)) == [added] && Edited([added], Rename(0, "")) == [cleared];
    assert StepsAfter(edits[..1]) == Some([added]);
    SessionPayload(name, edits);
    SessionAccepted(name, edits);
    assert cleared in [cleared];
  }

  /** Removing a step takes that step away and no other, and changes nothing of the others but their order. */
  lemma RemovesExactly(steps: seq<WizardStep>, index: nat)
    ensures var after := Removed(steps, index);
            && |after| == (if index < |steps| then |steps| - 1 else |steps|)
            && forall j | 0 <= j < |after| ::
                 var s := steps[if j < index then j else j + 1];
                 after[j] == WizardStep(s.tempId, s.name, j + 1, s.slaHours, s.requiredRole, s.requiredPermission)
  {
  }

  function DecimalValue(digits: string): int {
    if digits == "" then 0 else 10 * DecimalValue(digits[..|digits| - 1]) + (digits[|digits| - 1] as int - '0' as int)
  }

  lemma DecimalValueAppend(digits: string, c: char)
    ensures DecimalValue(digits + [c]) == 10 * DecimalValue(digits) + (c as int - '0' as int)
  {
    assert (digits + [c])[..|digits|] == digits;
  }

  /** The numeral of a number reads as that number. It has no other characters than digits and no leading zero. */
  lemma {:induction false} DecimalReads(n: nat)
    ensures Decimal(n) != "" && DecimalValue(Decimal(n)) == n
    ensures forall c <- Decimal(n) :: '0' <= c <= '9'
    ensures n > 0 ==> Decimal(n)[0] != '0'
  {
    var front := if n < 10 then "" else Decimal(n / 10);
    var digit := (('0' as int) + n % 10) as char;
    assert Decimal(n) == front + [digit];
    if n >= 10 {
      DecimalReads(n / 10);
    }
    DecimalValueAppend(front, digit);
  }

  /** A step that is added is called after its number, has 24 hours and demands nothing. */
  lemma AddedStep(steps: seq<WizardStep>, id: string) returns (digits: string)
    requires IsPossible(steps, Add(id))
    ensures DecimalValue(digits) == |steps| + 1 && digits[0] != '0' && forall c <- digits :: '0' <= c <= '9'
    ensures Edited(steps, Add(id)) == steps + [WizardStep(id, "Step " + digits, |steps| + 1, 24, None, None)]
  {
    digits := Decimal(|steps| + 1);
    DecimalReads(|steps| + 1);
  }

  /** The payload has the steps of the page, column by column. */
  lemma PayloadShowsSteps(name: string, steps: seq<WizardStep>, i: nat)
    requires WizardPayload(name, steps).Some? && i < |steps|
    ensures var payload := WizardPayload(name, steps).value;
            && payload.name == name
            && |payload.steps| == |steps|
            && var s := steps[i];
               payload.steps[i] == StepSpec(s.name, s.order, s.slaHours, s.requiredRole, s.requiredPermission)
  {
  }

  /** The role that a step is given last is the role that the payload, and the row made from it, demands for that step. */
  lemma AssignmentArrives(d: Definitions, name: string, edits: seq<Edit>, i: nat, role: Option<nat>)
    requires StepsAfter(edits).Some? && i < |StepsAfter(edits).value|
    ensures var steps := StepsAfter(edits + [Assign(i, role)]);
            && steps.Some?
            && |steps.value| == |StepsAfter(edits).value|
            && var payload := WizardPayload(name, steps.value);
               && payload.Some?
               && |payload.value.steps| == |steps.value|
               && |Installed(d, payload.value).steps| == |d.steps| + |steps.value|
               && Installed(d, payload.value).steps[|d.steps| + i].requiredRole == role
  {
    var all := edits + [Assign(i, role)];
    assert all[..|edits|] == edits;
    SessionPayload(name, all);
    InstalledRow(d, WizardPayload(name, StepsAfter(all).value).value, i);
  }

  /** A blueprint step demands a role of that name, in any capitalisation, if there is one, and otherwise none. It has the hours
      that are given, or 24 if none are. */
  lemma BlueprintShowsStep(roles: seq<Role>, s: BlueprintStep)
    ensures var spec := SpecOfBlueprint(roles)(s);
            && spec.name == s.name
            && spec.order == s.order
            && (s.sla != 0 ==> spec.slaHours == s.sla)
            && (s.sla == 0 ==> spec.slaHours == 24)
            && spec.requiredPermission == None
            && (spec.requiredRole == None <==> forall role <- roles :: !SameLetters(role.name, s.role))
            && (spec.requiredRole.Some? ==>
                  exists role <- roles :: SameLetters(role.name, s.role) && spec.requiredRole == Some(role.id))
  {
    forall role <- roles
      ensures NamesRole(s.role)(role) <==> SameLetters(role.name, s.role)
    {
      LowerIgnoresCapitals(role.name, s.role);
    }
  }

  // --------------------------------------------------------- the page itself

  class WizardPage {
    var steps: seq<WizardStep>
    var transitions: seq<Draft>

    constructor ()
      ensures steps == [] && transitions == []
    {
      steps, transitions := [], [];
    }

    method AddStep(tempId: string)
      modifies this`steps
      ensures steps == old(steps) + [NewStep(tempId, |old(steps)| + 1)]
      ensures IsPossible(old(steps), Add(tempId)) ==> steps == Edited(old(steps), Add(tempId))
      ensures WellNumbered(old(steps)) && IsPossible(old(steps), Add(tempId)) ==> WellNumbered(steps)
    {
      steps := steps + [NewStep(tempId, |steps| + 1)];
    }

    method RemoveStep(index: nat)
      modifies this`steps
      ensures steps == Removed(old(steps), index) == Edited(old(steps), Remove(index))
      ensures WellNumbered(old(steps)) ==> WellNumbered(steps)
    {
      if WellNumbered(steps) {
        RemoveNumbers(steps, index);
      }
      var newSteps := Spliced(steps, index);
      ghost var spliced := newSteps;
      var i := 0;
      while i < |newSteps|
        invariant 0 <= i <= |newSteps| == |spliced|
        invariant forall k | 0 <= k < i :: newSteps[k] == spliced[k].(order := k + 1)
        invariant forall k | i <= k < |newSteps| :: newSteps[k] == spliced[k]
      {
        newSteps := newSteps[i := newSteps[i].(order := i + 1)];
        i := i + 1;
      }
      steps := newSteps;
    }

    method RenameStep(index: nat, name: string)
      requires index < |steps|
      modifies this`steps
      ensures steps == old(steps)[index := old(steps)[index].(name := name)] == Edited(old(steps), Rename(index, name))
      ensures WellNumbered(old(steps)) ==> WellNumbered(steps)
    {
      steps := steps[index := steps[index].(name := name)];
    }

    method AssignRole(index: nat, role: Option<nat>)
      requires index < |steps|
      modifies this`steps
      ensures steps == old(steps)[index := old(steps)[index].(requiredRole := role)] == Edited(old(steps), Assign(index, role))
      ensures WellNumbered(old(steps)) ==> WellNumbered(steps)
    {
      steps := steps[index := steps[index].(requiredRole := role)];
    }

    method GenerateDefaultTransitions()
      modifies this`transitions
      ensures transitions == Drafts(steps, |steps|)
    {
      var newTransitions: seq<Draft> := [];
      for i := 0 to |steps|
        invariant newTransitions == Drafts(steps, i)
      {
        var current := steps[i];
        var next := if i + 1 < |steps| then Some(steps[i + 1].tempId) else None;
        newTransitions := newTransitions + [Draft(current.tempId, next, APPROVED)];
        newTransitions := newTransitions + [Draft(current.tempId, None, REJECTED)];
      }
      transitions := newTransitions;
    }

    /** Leaving the step editor and submitting. */
    method Submit(name: string) returns (payload: Option<WorkflowSpec>)
      modifies this`transitions
      ensures payload == WizardPayload(name, steps)
      ensures WellNumbered(steps) ==> payload == Some(BothSpec(name, Map(steps, SpecOfStep())))
    {
      if WellNumbered(steps) {
        DraftsFormat(steps, Map(steps, SpecOfStep()), |steps|);
      }
      GenerateDefaultTransitions();
      var formatted: Option<seq<TransitionSpec>> := Some([]);
      for i := 0 to |transitions|
        invariant formatted == AllFormatted(steps, transitions[..i])
      {
        assert transitions[..i + 1][..i] == transitions[..i];
        var t := Formatted(steps, transitions[i]);
        formatted := if formatted.Some? && t.Some? then Some(formatted.value + [t.value]) else None;
      }
      assert transitions[..|transitions|] == transitions;
      payload :=
        if formatted.Some? then Some(WorkflowSpec(name, Map(steps, SpecOfStep()), formatted.value)) else None;
    }
  }
}
