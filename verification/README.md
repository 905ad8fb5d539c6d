# Workflow engine: a verified model

This project models the workflow automation backend as a state machine over its database, and the pages that feed it.

- `Tables`, `Rows`: the rows of the database and the queries over them.
- `Json`, `Conditions`: JSON values with Python's equality, and the condition language that guards transitions.
- `StateMachine`: the status table of a request.
- `Engine`, `Sla`, `Compiler`: what a start, a decision, an SLA scan and the creation of a workflow do to the database, as
  functions from database to database or to an error.
- `Sessions`: the same services as they run, statement by statement, on a session with staged rows, flush, commit and rollback.
  Every endpoint is proved to take the committed database where the functions say.
- `Builders`: the two pages that build workflows.
- `Runs`, `Cases`: runs of any interleaving of creations, starts, decisions and scans over any number of requests and workflows,
  and the invariant of each request's rows that all of them keep.
- `Views`, `Breaches`, `AuditTrail`, `Progress`: what the views, breach flags, logs and deadlines say in every reachable state.
- `Lockstep`, `Resolution`, `Bisimulation`, `EndToEnd`: the compiled workflow against a direct interpreter of its specification,
  the order of transition rows and the data their guards read, indistinguishable definitions, and the way from an editing
  session to a finished request.
- `Effects`, `Authority`: what each call writes, column by column, and who may decide what, in terms of roles and of the
  specification.

A primary key is the position of its row. A call is one atomic step. `Reachable` means: obtained from a database with arbitrary
consistent definitions and no requests by some run. A failed call leaves the database as it was. An outcome that is none of the
five step statuses is refused when the session is flushed (`Label.OTHER`), as the enumeration type of the column does.

## Where the code and what is said about it differ

- The architecture notes give the lifecycle as ending in COMPLETED or REJECTED; the code passes APPROVED or REJECTED and always
  ends in COMPLETED (`AuditTrail.HistoryIsPath`).
- A test expects that an administrator without the required role is refused; the code lets every administrator act, and so does
  the model.
- A scan is described as returning the number of new breaches. It returns the number of e-mails enqueued, and
  `Breaches.ScanReportExact` says exactly when the two agree.
- A scan is described as looking at active steps. It looks at the status column, so a step that was closed with the outcome
  PENDING or IN_PROGRESS can still be flagged (`Breaches.ClosedButFlagged`), and one closed with PENDING still counts as pending
  on the dashboard (`Views.PendingIsActiveIff`, `Views.PendingDecisionShows`).
- Step orders are not checked for uniqueness. A repeated order other than 1 does no harm. When order 1 repeats, every step of
  that order but the last is without transitions, so a request that starts there ends with its first decision
  (`Lockstep.RepeatedEntryIsStuck`); `Lockstep.RunsInLockstepIff` says exactly which specifications the engine follows.
- The wizard checks that a workflow name is not blank, but not that its steps have names. A session that clears a name is
  refused by the endpoint (`Builders.ClearedNameRefused`).

## Model

| member | source | states |
|---|---|---|
| Json.EqualIsCanonical | app/services/workflow_engine.py:82-85 | two JSON values are equal in Python if and only if they are the same once booleans are turned into the numbers they stand for, at every depth |
| Json.EqualSymmetric | app/services/workflow_engine.py:82-85 | with the next two rows: Python equality of JSON values is an equivalence |
| Json.EqualTransitive | app/services/workflow_engine.py:82-85 | transitivity through nested lists and objects |
| Json.EqualReflexive | app/services/workflow_engine.py:82-83 | every value equals itself |
| Json.FloatsInLine | app/services/workflow_engine.py:91-98 | floats other than NaN are in one line with the infinities at its ends; NaN compares with nothing |
| Conditions.Evaluate | app/services/workflow_engine.py:41-77 | the evaluator's break-out loop over the dotted path gives the recursive meaning of the condition, for every configuration and context; anything that raises is false |
| Conditions.SplitJoin | app/services/workflow_engine.py:59 | splitting a dot-join of dot-free parts gives the parts |
| Conditions.JoinSplit | app/services/workflow_engine.py:59 | joining what a field name splits into gives the field name |
| Conditions.LookupConcat | app/services/workflow_engine.py:58-64 | lookup composes over path concatenation |
| Conditions.LookupPut | app/services/workflow_engine.py:58-64 | the value stored at a path is the value read there |
| Conditions.LookupPutElsewhere | app/services/workflow_engine.py:58-64 | storing at a path changes no path that parts ways with it |
| Conditions.LookupExact | app/services/workflow_engine.py:58-64 | a lookup gives the value at the end of the path through keys that are there, and null exactly if there is no such path or it ends in null |
| Conditions.StoredValueMatches | app/services/workflow_engine.py:46-83 | a value stored under a dotted field name satisfies the equality condition on that name |
| Conditions.EqualityComplement | app/services/workflow_engine.py:66-85 | `==` and `!=` are complements if and only if the path does not give null against a non-null target, and then both are false |
| Conditions.EqualityWithText | app/services/workflow_engine.py:82-83 | `==` with a text holds if and only if the path leads to exactly that text |
| Conditions.EqualityWithNumber | app/services/workflow_engine.py:82-83 | `==` with a number holds of that number and of the boolean that stands for it, and of nothing else |
| Conditions.EqualityMeans | app/services/workflow_engine.py:82-83 | `==` with any value: the path leads to that value, but for booleans in the place of 0 and 1 |
| Conditions.NoFieldHolds | app/services/workflow_engine.py:46-55 | a condition that is absent, empty or without a field holds |
| Conditions.OtherFieldFails | app/services/workflow_engine.py:59 | a field that is neither text nor empty fails |
| Conditions.DefaultOperator | app/services/workflow_engine.py:51 | without an operator a condition asks for equality |
| Conditions.DefaultTarget | app/services/workflow_engine.py:52 | without a target a condition asks about null |
| Conditions.UnknownOperatorFails | app/services/workflow_engine.py:105 | an unknown operator fails |
| Conditions.OrderOnNumbers | app/services/workflow_engine.py:87-98 | the four order operators on numbers, booleans and texts that read as numbers are the order of the numbers |
| Conditions.UnreadableFails | app/services/workflow_engine.py:87-107 | they fail as soon as one side is null, a list, an object, an integer too large for a float, NaN or a text that is no number |
| Conditions.NumericOperators | app/services/workflow_engine.py:87-98 | on plain numbers the four order operators are the order of the numbers, and false once one is too large for a float |
| Conditions.MembershipOperators | app/services/workflow_engine.py:66-103 | `in` and `contains` look up opposite sides; a null value is in no list, not even one that has a null |
| Conditions.MembershipInText | app/services/workflow_engine.py:100-103 | `in` and `contains` on a text: the other side is a text that occurs in it |
| Conditions.MembershipInObject | app/services/workflow_engine.py:100-103 | `in` and `contains` on an object: the other side is one of its keys |
| Conditions.MembershipElsewhereFails | app/services/workflow_engine.py:100-107 | nothing is in a number, a boolean or null |
| Conditions.ThresholdGuards | app/services/workflow_engine.py:87-98 | a `>` and a `<=` guard are never both true, and one is true if and only if both sides convert to numbers other than NaN, which an integer too large for a float does not |
| StateMachine.TerminalMeansStuck | app/services/state_machine.py:66-70 | the terminal states are exactly those that no valid transition leaves |
| StateMachine.PathToCompletion | app/services/state_machine.py:11-35 | every valid path from CREATED to COMPLETED passes IN_PROGRESS and exactly one of APPROVED and REJECTED |
| StateMachine.CompletedAbsorbs | app/services/state_machine.py:21-35 | a path never leaves COMPLETED |
| StateMachine.EscalationIsDetour | app/services/state_machine.py:11-35 | escalation is entered only from IN_PROGRESS and left only to IN_PROGRESS |
| Engine.AdminMeans | app/services/workflow_engine.py:247 | an administrator holds a role called admin in any capitalisation; superadmin serves to define workflows and not to decide steps |
| Engine.MayActMeans | app/services/workflow_engine.py:246-272 | who may not act on a step is exactly who holds no administrator's role and lacks the required role or the required permission |
| Engine.StartVerdict | app/services/workflow_engine.py:129-207 | a start succeeds if and only if the workflow is active, it has a step of order 1 and the notification is enqueued; which failure comes first |
| Effects.StartStores | app/services/workflow_engine.py:138-198 | the rows of a start, column by column |
| Effects.DecisionStores | app/services/workflow_engine.py:276-338 | the rows of a decision, column by column: who, what, when, the comment, the next execution and its deadline, or the completion; no other row changes |
| Effects.ScanStores | app/services/sla_monitor.py:31-82 | a scan commits if and only if the e-mail of some overdue step is enqueued; it then flags all overdue steps and stores an escalation of level 1 and a breach entry for each |
| Effects.BreachEntriesTruthful | app/services/sla_monitor.py:75-82 | every breach entry of a reachable state names the request and the deadline of its execution |
| Sessions.Session.LogAction | app/services/audit_service.py:17-53 | appends the entry, or rolls the session back exactly when a staged status cannot be stored |
| Sessions.Session.StartWorkflow | app/services/workflow_engine.py:121-210 | stages the rows of a start, or fails with the same error as the specification, and commits nothing itself |
| Sessions.Session.Authorise | app/services/workflow_engine.py:247-272 | the role check and the permission loop decide whether the user may act on the step, administrators always |
| Sessions.Session.ResolveNext | app/services/workflow_engine.py:343-369 | the query and early-return loop give the target of the first transition that fires |
| Sessions.Session.Finalize | app/services/workflow_engine.py:372-421 | the exact rows of a completion, and the exact conditions under which it raises instead |
| Sessions.Session.CloseExecution | app/services/workflow_engine.py:277-284 | the row of a closed execution |
| Sessions.Session.ProcessStep | app/services/workflow_engine.py:213-340 | stages the rows of a decision, or fails with the same error as the specification, checks in the same order |
| Sessions.Session.PostStart | app/api/v1/endpoints/requests.py:143-157 | commits all rows of a start if and only if the workflow is active, it has a step of order 1 and the notification is enqueued; otherwise none, although rows are staged before it can fail |
| Sessions.Session.PostProcess | app/api/v1/endpoints/requests.py:161-175 | a decision commits all its rows or none, and keeps the state reachable |
| Sessions.Session.CollectAuthority | app/api/v1/endpoints/requests.py:68-76 | one pass over the roles collects role ids, permission ids and the administrator flag |
| Sessions.Session.GetMyTasks | app/api/v1/endpoints/requests.py:56-116 | the filtering loop lists exactly the visible pending executions, in order |
| Sessions.Session.GetDashboardStats | app/api/v1/endpoints/requests.py:120-139 | the four counts; in a reachable state active plus completed are all requests, pending are no fewer than active, and overdue are as many as the escalations |
| Sessions.Session.EscalateStep | app/services/sla_monitor.py:61-91 | flags the step and stages the escalation and the audit entry, also when enqueueing the e-mail raises |
| Sessions.Session.ScanForBreaches | app/services/sla_monitor.py:26-58 | one e-mail enqueued commits everything staged, none commits nothing; returns the number enqueued |
| Sessions.Session.CheckAllSlas | app/tasks/sla.py:15-32 | a scan in its own session |
| Sessions.Session.CreateSteps | app/services/workflow_service.py:37-54 | adds the step rows; an order stands for the last step that carries it |
| Sessions.Session.CreateTransitions | app/services/workflow_service.py:56-74 | keeps list order, drops unknown sources, turns unknown or missing targets into ends |
| Sessions.Session.CreateWorkflow | app/services/workflow_service.py:22-78 | commits the compiled workflow, or nothing when the name is taken |
| Sessions.Session.PostWorkflow | app/api/v1/endpoints/workflows.py:29-43 | the schema's bounds are checked before the role (`check_role` accepts a super-administrator), and a refusal changes nothing |
| Cases.ReachableInvariant | app/services/workflow_engine.py:137-421 | in every reachable state each request's executions start at the order-1 step, stay in its workflow, follow the first firing transition on the request data and that decision's data, and open when the previous one closed with the deadline of their step; status, current step, history and audit log are those of an open or a completed request |
| Cases.OneUnfinished | app/services/workflow_engine.py:179-187 | an IN_PROGRESS request has exactly one unfinished execution, pending and at its current step; a COMPLETED one has none, no current step and a completion time |
| Cases.OthersUntouched | app/services/workflow_engine.py:224-340 | no event changes another request's rows, except that scans set breach flags |
| Cases.DecisionVerdict | app/services/workflow_engine.py:227-272 | which error a decision gives in a reachable state; the status machine never refuses, so nothing raises between the authority check and the flush |
| Cases.DecideKeeps | app/services/workflow_engine.py:276-338 | a successful decision closes the request's last execution, opens the successor or completes the request, and keeps the invariant |
| Cases.InstalledExtends | app/services/workflow_service.py:40-74 | creating a workflow changes neither the entry step nor the successors of any step that was there |
| Compiler.InstalledRow | app/services/workflow_service.py:41-51 | the row of a step has the order, name, hours, required role and required permission of its specification |
| Compiler.CreateKeepsNamesUnique | app/services/workflow_service.py:27-34 | a workflow is created if and only if that keeps workflow names unique |
| Compiler.PostVerdict | app/api/v1/endpoints/workflows.py:29-43 | which requests to define a workflow are refused, and why: the bounds of the schema, then the role, then the name |
| Runs.NamesStayUnique | app/db/models/workflow.py:32 | workflow names stay unique over every run |
| Authority.RefusedIffLacking | app/services/workflow_engine.py:246-272 | in every reachable state a decision is refused for authority, and the request missing from the user's list, exactly for users that lack something the current step requires, role by role |
| Authority.DecisionSucceedsIff | app/services/workflow_engine.py:227-340 | in every reachable state a decision succeeds if and only if its request is in progress, its outcome is one of the five step statuses, and the user lacks nothing the current step requires |
| Authority.CreatedDemands | app/services/workflow_service.py:41-54 | in every later state of every interleaved run a request of a created workflow stands at a step of the specification, is refused exactly to who lacks what that step demands, and is due after the hours of that step |
| Views.ListedIffDecidable | app/api/v1/endpoints/requests.py:79-114 | in every reachable state a request is listed for a user, and then once, exactly when a decision by that user passes all checks |
| Views.TaskIsWhatIsDecided | app/api/v1/endpoints/requests.py:104-114 | the listed execution is the one the decision closes, described as it is |
| Views.TaskShows | app/api/v1/endpoints/requests.py:104-114 | a listed entry shows the request, the step's name, the deadline and the flag of a pending execution |
| Views.DashboardConserves | app/api/v1/endpoints/requests.py:129-139 | active plus completed are all requests; pending exceeds active by the executions that were closed as PENDING |
| Views.PendingIsActiveIff | app/api/v1/endpoints/requests.py:129-139 | over any run pending exceeds active by the number of decisions that succeeded with the outcome PENDING, so the two agree if and only if there was none |
| Views.PendingDecisionShows | app/services/workflow_engine.py:278 | one decision with the outcome PENDING leaves pending above active in every later state |
| Breaches.ReachableCorresponds | app/services/sla_monitor.py:47-82 | flagged executions, escalation rows and breach entries match one to one in every reachable state, whatever e-mails failed; overdue counts them |
| Breaches.ScanReportExact | app/services/sla_monitor.py:47-58 | how many executions a scan flags, and that it returns this number if and only if its e-mails were all enqueued or all failed |
| Breaches.SecondScanIdle | app/services/sla_monitor.py:37-58 | after a committed or fault-free scan another one at the same or an earlier time finds nothing and changes nothing |
| Breaches.SecondScanIdleIff | app/services/sla_monitor.py:37-58 | a second fault-free scan at the same time changes nothing if and only if the first committed or nothing was overdue |
| Breaches.FlaggedExactly | app/services/sla_monitor.py:37-65 | over any run an execution is flagged if and only if some committing scan ran past its deadline while its status was PENDING or IN_PROGRESS |
| Breaches.FlagStays | app/services/sla_monitor.py:65 | a flag is never cleared |
| Breaches.FlaggedIffLate | app/services/sla_monitor.py:31-58 | with decisive outcomes and no failing e-mails, flagged if and only if some scan ran strictly after the deadline while the execution was open |
| Breaches.ClosedButFlagged | app/services/sla_monitor.py:37-43 | a closed execution is flagged later exactly when its outcome was PENDING or IN_PROGRESS |
| AuditTrail.ReplayRebuilds | app/services/workflow_engine.py:330-338 | folding a request's audit log rebuilds the closed steps with their outcomes, the completion and the final outcome |
| AuditTrail.LedgerShape | app/services/workflow_engine.py:190-198 | without SLA entries the log is STARTED STEP* while open and STARTED STEP* COMPLETED STEP when done |
| AuditTrail.HistoryIsPath | app/services/workflow_engine.py:376-411 | the history is a path of the status machine from CREATED to the current status, of length 1 or 3, through APPROVED exactly for a last outcome APPROVED |
| Lockstep.NextCompiled | app/services/workflow_service.py:57-74 | the successor of a compiled step is the compiled successor of its order |
| Lockstep.RunsInLockstep | app/services/workflow_service.py:37-74 | if order 1 is unique, in every later state of any interleaved run each request is where the interpreter of the specification is after that request's decisions |
| Lockstep.DirectRunInLockstep | app/services/workflow_engine.py:213-340 | sent any list of decisions, the engine ends where the interpreter ends on the same list |
| Lockstep.RunsInLockstepIff | app/services/workflow_service.py:37-74 | every request of a created workflow is where the interpreter is, in every later state of every interleaved run, if and only if order 1 is unique or the specification leads nowhere from order 1 on any request and decision |
| Lockstep.FailingRun | app/services/workflow_engine.py:163-169 | otherwise a start and one decision by an administrator finish a request that the specification moves on |
| Lockstep.RepeatedEntryIsStuck | app/services/workflow_service.py:54-74 | no transition leaves a step of order 1 that is not the last of that order |
| Lockstep.EntryFollowsIff | app/services/workflow_service.py:54-74 | whichever step of order 1 a start picks, its first decision follows the specification for all outcomes, data and decisions if and only if it is the last of that order or the specification stops after order 1 |
| Resolution.OrderIrrelevantIff | app/services/workflow_engine.py:349-369 | all orders of the transition rows resolve alike if and only if the firing transitions agree on their target |
| Resolution.NextExact | app/services/workflow_engine.py:349-369 | the step that is resolved is the target of the first row for this step and outcome whose condition is absent, empty or true |
| Resolution.ContextLookup | app/services/workflow_engine.py:288-291 | paths under `request_data` lead into the request's data, paths under `decision_data` into the decision's, and there are no others |
| Resolution.GuardsSeparate | app/services/workflow_engine.py:288-291 | a condition on the request's data depends on that data alone, one on the decision's data on that alone |
| Resolution.ThresholdPairResolves | tests/integration/test_workflow_flow.py:64-84 | in any transition table where a `>` and a `<=` transition are the only candidates, every order of the rows takes the one whose guard is true, or ends the flow if the values do not compare |
| Resolution.AmountDecides | tests/integration/test_workflow_flow.py:64-84 | a decision where a `>` and a `<=` transition on a path of the request's data are the candidates moves the request as the number in its data says, whatever comes with the decision |
| Progress.FinishesWithin | app/services/workflow_engine.py:293-327 | with strictly forward transitions no step runs twice and a request takes at most as many decisions as its workflow has steps |
| Progress.DecisionDescends | app/services/workflow_engine.py:297-310 | each non-final decision leaves strictly fewer steps above the current order |
| Progress.InstalledForward | app/services/workflow_service.py:57-74 | a specification whose transitions rise compiles to a forward workflow, and later workflows keep it one |
| Progress.CompletionBound | app/services/workflow_engine.py:176-185 | if every decision met its deadline, a request is done within the SLA hours of the steps it visited, and with forward transitions within those of the whole workflow |
| Bisimulation.RunSimilar | app/services/workflow_engine.py:349-369 | databases that differ only in transition rows with the same successors stay so over every run |
| Builders.WizardPage.AddStep | frontend/src/app/admin/workflows/create/page.tsx:89-99 | appends a step with the next number, which keeps the steps numbered 1 to n |
| Builders.WizardPage.RemoveStep | frontend/src/app/admin/workflows/create/page.tsx:101-107 | splices one step out and renumbers the rest in a loop, which keeps the steps numbered 1 to n |
| Builders.WizardPage.RenameStep | frontend/src/app/admin/workflows/create/page.tsx:109-113 | changes one field of one step and keeps the numbering |
| Builders.WizardPage.AssignRole | frontend/src/app/admin/workflows/create/page.tsx:109-113 | changes one field of one step and keeps the numbering |
| Builders.WizardPage.GenerateDefaultTransitions | frontend/src/app/admin/workflows/create/page.tsx:118-139 | the push loop gives an approval and a rejection draft for every step |
| Builders.WizardPage.Submit | frontend/src/app/admin/workflows/create/page.tsx:186-211 | looks every temporary id up; from numbered steps every transition finds its source and the payload has exactly the approval and rejection edges |
| Builders.BlueprintPayload | frontend/src/app/workflows/page.tsx:70-100 | the payload of the blueprint editor: mapped steps and one approval edge each |
| Builders.SessionNumbers | frontend/src/app/admin/workflows/create/page.tsx:89-113 | after any session the steps are numbered 1 to n and temporary ids stay distinct |
| Builders.RemovesExactly | frontend/src/app/admin/workflows/create/page.tsx:101-107 | removing a step takes away that step and no other, and changes only the order of the rest |
| Builders.AddedStep | frontend/src/app/admin/workflows/create/page.tsx:89-99 | an added step is called after its number, has 24 hours and demands nothing |
| Builders.AssignmentArrives | frontend/src/app/admin/workflows/create/page.tsx:198-207 | the role that a step is given last is the role that the row made from it demands |
| Builders.BlueprintShowsStep | frontend/src/app/workflows/page.tsx:71-81 | a blueprint step demands a role of that name in any capitalisation, or none if there is none, and has 24 hours if none are given |
| Builders.SessionPayload | frontend/src/app/admin/workflows/create/page.tsx:118-211 | after any session the payload has the steps in order, an approval edge to the next and a rejection edge to the end |
| Builders.SessionAccepted | app/schemas/workflow.py:23-65 | the schema's bounds hold of what a session submits if and only if the workflow name and every step name are within them: orders and hours always are |
| Builders.ClearedNameRefused | frontend/src/app/admin/workflows/create/page.tsx:387 | a session that clears the name of its one step is refused |
| EndToEnd.SessionPosted | app/api/v1/endpoints/workflows.py:29-43 | a session's payload is taken if and only if its names are within bounds, the user may define workflows and the workflow name is free |
| EndToEnd.BuildersBisimilar | frontend/src/app/admin/workflows/create/page.tsx:118-176 | for any list of steps the two builders give databases that stay equal but for transition rows over every run |
| EndToEnd.LinearInterpretation | frontend/src/app/admin/workflows/create/page.tsx:118-139 | a linear workflow of n steps is at step k+1 after k approvals, ends approved after n, and ends at the first other outcome |
| EndToEnd.SessionToCompletion | frontend/src/app/admin/workflows/create/page.tsx:89-211 | any session that leaves n >= 1 steps and whose payload the endpoint takes, started and sent any decisions by administrators, ends where the row on LinearInterpretation says |
| EndToEnd.SessionInterleaved | frontend/src/app/admin/workflows/create/page.tsx:89-211 | the same position for every request of that workflow in every state of any interleaved run |
| EndToEnd.PositionMeans | app/services/workflow_engine.py:376-411 | what a position says about status and history: finished by APPROVED means completed through APPROVED, by anything else through REJECTED |

## Left out

- HTTP routing, tokens, logging, configuration, migrations, scripts: no properties of interest.
- Sessions.Session.LogAction: does not model a flush that fails for any other reason than an unstorable step status.
- Sessions.Session.CreateSteps: leaves out the description of a step and its conditional columns, which the engine does not read.
- Sessions.Session.CreateWorkflow: does not model foreign keys to roles and permissions, the length limit of the outcome column, or the description.
- Sessions.Session.GetMyTasks: a task carries neither the workflow's name and description nor the request's data and creation time, which the view copies from the joined rows.
- Sessions.Session.CheckAllSlas: does not model the handler that returns 0 when the database itself fails.
- Sessions.Session.StartWorkflow: takes the first matching row in insertion order where the query leaves the order open; only a repeated order 1 makes a difference.
- Sessions.Session.ResolveNext: takes the rows in insertion order where the query leaves the order open; `Resolution.OrderIrrelevantIff` says when that matters.
- Sessions.Session.CloseExecution: keeps the comment as a JSON value; the text column's coercion is not modelled.
- Conditions.Evaluate: numbers are reals, so the rounding that `float()` does to integers beyond 2 to the power of 53 and infinite numbers in a document are not modelled; that `float()` raises on an integer of about 2 to the power of 1024 or more is. How `float()` reads a string is left uninterpreted, and the recursion limit on deeply nested documents is not modelled.
- Conditions.NumericOperators: compares two integers exactly that rounding to a float could make equal.
- Builders.WizardPage.RemoveStep: steps are values, so renumbering does not also change the objects in the previous state array.
- Builders.WizardPage.Submit: leaves out descriptions; the bounds on names are those of `Compiler.Accepted`, checked by the endpoint and not by the page.
- Builders.BlueprintPayload: the blueprint arrives parsed, without descriptions, and every step names a role; the second JSON mode, which also accepts role ids, builds the same transitions.
- Builders.BlueprintShowsStep: capitals are those of the letters A to Z; the case of other letters in role names is not modelled.
- AuditTrail.HistoryIsPath: history is in insertion order; rows of one call share their timestamp in the database.
- Transaction isolation: no row is locked by the code, and concurrent decisions on one request are not modelled. A call is one atomic step.
- The clock is read once per call, as an integer; time zones and the range of the calendar are not modelled.
- E-mail delivery and notification text: enqueueing either succeeds or raises. During a decision a raise is only logged, so it is no input of a decision.
- The decision entry in `workflow_instances.py`, whose upper-cased actions are not step statuses.
- Deletion of workflows and the cascades of foreign keys; deactivation, for which there is no code.
- The name-based permission functions of `rbac.py`: the modelled entries compare identifiers, except for the role names that `Engine.IsAdmin` and `Engine.MayDefine` model.
- The numbering in `handleAddStep`: it edits the text of a blueprint, and `Builders.BlueprintPayload` takes any numbering.
- Temporary ids of the wizard are assumed fresh.
