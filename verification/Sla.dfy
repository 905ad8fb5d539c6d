// What an SLA scan does to the database.

module Sla {
  import opened Rows
  import opened Tables

  /** The scan looks at the status column and the deadline, not at whether the execution is closed. */
  function Overdue(now: Time): Execution -> bool {
    (e: Execution) => (e.status == PENDING || e.status == IN_PROGRESS) && e.deadline < now && !e.breached
  }

  function Delivered(failing: set<nat>): Execution -> bool {
    (e: Execution) => e.id !in failing
  }

  function Flagged(now: Time): Execution -> Execution {
    (e: Execution) => if Overdue(now)(e) then e.(breached := true) else e
  }

  function EscalationOf(now: Time): Execution -> Escalation {
    (e: Execution) => Escalation(e.id, 1, now)
  }

  function BreachEntry(e: Execution): AuditEntry {
    SlaBreachDetected(e.requestId, e.id, e.deadline)
  }

  /** How many overdue executions have their e-mail enqueued; `failing` are those for which enqueueing raises. */
  function Reported(db: Database, now: Time, failing: set<nat>): nat {
    Count(Filter(db.executions, Overdue(now)), Delivered(failing))
  }

  /** A scan that enqueues at least one e-mail commits every row it staged, a scan that enqueues none commits nothing. */
  function Scan(db: Database, now: Time, failing: set<nat>): Database {
    if Reported(db, now, failing) == 0 then db
    else
      var overdue := Filter(db.executions, Overdue(now));
      db.(
        executions := Map(db.executions, Flagged(now)),
        escalations := db.escalations + Map(overdue, EscalationOf(now)),
        audit := db.audit + Map(overdue, BreachEntry))
  }
}
