/**
 * One task's durable audit log as both ends of the event stream see it: the rows of the audit
 * table, the public events they become, and the status a reader of the whole log would report.
 */
module TaskFacts {
  import opened Prelude

  datatype TaskStatus =
    | Created | Queued | Running | WaitingApproval | RetryScheduled
    | Reconciling | NeedsAttention | Succeeded | Failed | Cancelled

  /** The audit row's event type, split where the server's mapping splits it. */
  datatype AuditType = TaskLifecycle | ApprovalRequested | ApprovalExpired | Verbatim(name: EventName)

  /** Public event names; a verbatim audit type never starts with `task.`. */
  datatype EventName =
    | StatusChanged | StepLifecycle | ApprovalRequired | ApprovalResolved | OtherListened | Unlistened

  /**
   * An audit row. `status` is the payload status when it is one of the ten known ones;
   * `step` says that the payload names a step completely enough to be shown.
   */
  datatype Fact = Fact(id: nat, audit: AuditType, status: Option<TaskStatus>, step: bool)

  /** A REST or gap snapshot: the task row's status and the largest audit id of the same read. */
  datatype Snapshot = Snapshot(cursor: nat, status: TaskStatus)

  /** What travels on the stream. A gap snapshot carries its own sequence beside the payload. */
  datatype Message =
    | EventMessage(sequence: nat, event: EventName, status: Option<TaskStatus>, step: bool)
    | SnapshotMessage(sequence: nat, snapshot: Snapshot)

  predicate ValidAudit(audit: AuditType) { audit.Verbatim? ==> audit.name != StatusChanged }

  /** `_public_event_type`. */
  function PublicEventType(audit: AuditType): EventName {
    match audit
    case TaskLifecycle => StatusChanged
    case ApprovalRequested => ApprovalRequired
    case ApprovalExpired => ApprovalResolved
    case Verbatim(name) => name
  }

  /** `_event`. */
  function Published(fact: Fact): Message {
    EventMessage(fact.id, PublicEventType(fact.audit), fact.status, fact.step)
  }

  /** The status this row reports to a client, if any. */
  function ReportedStatus(fact: Fact): Option<TaskStatus> {
    if PublicEventType(fact.audit) == StatusChanged then fact.status else None
  }

  // ---------------------------------------------------------------- the log and its fold

  ghost predicate ValidLog(log: seq<Fact>) {
    && (forall i :: 0 <= i < |log| ==> log[i].id > 0 && ValidAudit(log[i].audit))
    && (forall i, j :: 0 <= i < j < |log| ==> log[i].id < log[j].id)
  }

  function Max(a: nat, b: nat): nat { if a < b then b else a }

  function LastId(log: seq<Fact>): nat {
    if log == [] then 0 else log[|log| - 1].id
  }

  /** The status reported by the newest row at or below `cursor`, or the task's first status. */
  function FoldStatus(log: seq<Fact>, cursor: nat, first: TaskStatus): TaskStatus {
    if log == [] then first
    else
      var newest := log[|log| - 1];
      if newest.id <= cursor && ReportedStatus(newest).Some?
      then ReportedStatus(newest).value
      else FoldStatus(log[..|log| - 1], cursor, first)
  }

  /** No row in `(low, high]` reports a status. */
  ghost predicate Quiet(log: seq<Fact>, low: nat, high: nat) {
    forall i :: 0 <= i < |log| && low < log[i].id <= high ==> ReportedStatus(log[i]).None?
  }

  lemma {:induction false} QuietKeepsFold(log: seq<Fact>, low: nat, high: nat, first: TaskStatus)
    requires low <= high && Quiet(log, low, high)
    ensures FoldStatus(log, high, first) == FoldStatus(log, low, first)
  {
    if log != [] {
      QuietKeepsFold(log[..|log| - 1], low, high, first);
    }
  }

  lemma {:induction false} FoldAtRow(log: seq<Fact>, row: nat, first: TaskStatus)
    requires ValidLog(log) && row < |log| && ReportedStatus(log[row]).Some?
    ensures FoldStatus(log, log[row].id, first) == ReportedStatus(log[row]).value
  {
    if row < |log| - 1 {
      FoldAtRow(log[..|log| - 1], row, first);
    }
  }

  lemma FoldIgnoresLaterRow(log: seq<Fact>, fact: Fact, cursor: nat, first: TaskStatus)
    requires cursor < fact.id
    ensures FoldStatus(log + [fact], cursor, first) == FoldStatus(log, cursor, first)
  {
    assert (log + [fact])[..|log|] == log;
  }
}
