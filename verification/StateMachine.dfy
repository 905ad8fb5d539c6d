// The status table of a request and what its paths look like.

module StateMachine {
  datatype Status = Created | InProgress | Approved | Rejected | Completed | Escalated

  const STATE_TRANSITIONS: map<Status, seq<Status>> := map[
    Created := [InProgress],
    InProgress := [Approved, Rejected, Escalated],
    Approved := [Completed],
    Rejected := [Completed],
    Escalated := [InProgress],
    Completed := []
  ]

  function AllowedNext(s: Status): seq<Status> {
    if s in STATE_TRANSITIONS then STATE_TRANSITIONS[s] else []
  }

  predicate IsValidTransition(from: Status, to: Status) {
    from == to || to in AllowedNext(from)
  }

  predicate IsTerminalState(s: Status) {
    |AllowedNext(s)| == 0
  }

  /** The terminal states are the ones that no valid transition leaves. */
  lemma TerminalMeansStuck(s: Status)
    ensures IsTerminalState(s) <==> forall t | IsValidTransition(s, t) :: t == s
  {
    if !IsTerminalState(s) {
      assert IsValidTransition(s, AllowedNext(s)[0]) && AllowedNext(s)[0] != s;
    }
  }

  ghost predicate IsPath(p: seq<Status>) {
    |p| > 0 && forall i | 0 < i < |p| :: IsValidTransition(p[i - 1], p[i])
  }

  /** What a path that began at Created has already been through, by the status it has reached. */
  ghost predicate Been(p: seq<Status>)
    requires |p| > 0
  {
    match p[|p| - 1]
    case Created => forall s <- p :: s == Created
    case InProgress => InProgress in p && Approved !in p && Rejected !in p && Completed !in p
    case Escalated => InProgress in p && Approved !in p && Rejected !in p && Completed !in p
    case Approved => InProgress in p && Approved in p && Rejected !in p && Completed !in p
    case Rejected => InProgress in p && Rejected in p && Approved !in p && Completed !in p
    case Completed => InProgress in p && (Approved in p) != (Rejected in p)
  }

  lemma BeenStep(front: seq<Status>, y: Status)
    requires |front| > 0 && Been(front) && IsValidTransition(front[|front| - 1], y)
    ensures Been(front + [y])
  {
    var p := front + [y];
    assert forall s :: s in p <==> s in front || s == y;
    assert front[|front| - 1] in front;
    assert p[|p| - 1] == y;
  }

  lemma {:induction false} BeenOnPath(p: seq<Status>)
    requires IsPath(p) && p[0] == Created
    ensures Been(p)
  {
    if |p| > 1 {
      var front := p[..|p| - 1];
      BeenOnPath(front);
      assert IsValidTransition(p[|p| - 2], p[|p| - 1]);
      BeenStep(front, p[|p| - 1]);
      assert p == front + [p[|p| - 1]];
    }
  }

  /** Every path from Created to Completed runs through InProgress and through exactly one of Approved and Rejected. */
  lemma PathToCompletion(p: seq<Status>)
    requires IsPath(p) && p[0] == Created && p[|p| - 1] == Completed
    ensures InProgress in p
    ensures (Approved in p) != (Rejected in p)
  {
    BeenOnPath(p);
  }

  lemma {:induction false} CompletedAbsorbs(p: seq<Status>, i: nat, j: nat)
    requires IsPath(p) && i <= j < |p| && p[i] == Completed
    ensures p[j] == Completed
  {
    if i < j {
      CompletedAbsorbs(p, i, j - 1);
      assert IsValidTransition(p[j - 1], p[j]);
    }
  }

  /** Escalation is a detour: it is entered only from InProgress and left only to InProgress. */
  lemma EscalationIsDetour(s: Status)
    ensures IsValidTransition(s, Escalated) <==> s == InProgress || s == Escalated
    ensures IsValidTransition(Escalated, s) <==> s == InProgress || s == Escalated
  {
  }
}
