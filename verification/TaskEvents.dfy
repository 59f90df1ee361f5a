/**
 * frontend/src/composables/useTaskEvents.ts: the browser's side of one task's event stream. Each
 * EventSource keeps its own captured variables; callbacks of a replaced source may still arrive.
 */
module TaskEvents {
  import opened Prelude
  import opened TaskFacts
  import opened TasksStore

  type SourceId = nat

  /** The variables `open` captures for one EventSource, and the sequence observed by its last request. */
  datatype Captured = Captured(task: string, snapshotPending: bool, snapshotAgain: bool, notifyRecovery: bool,
    observed: Option<nat>)

  /**
   * What reaches the listener. An unparsed message, such as a heartbeat, still carries the browser's
   * last event id; `wantsRead` says that the event is one of those whose full row must be read.
   */
  datatype Incoming = Unparsed(lastEventId: Option<nat>) | Parsed(task: string, message: Message, wantsRead: bool)

  class Subscription {
    const tasks: Store
    var source: Option<SourceId>
    var openedTaskId: Option<string>
    var captured: seq<Captured>
    var recoveries: nat

    // History: when each source last asked for a read because of an event, and last sent a request.
    ghost var now: nat
    ghost var askedAt: seq<nat>
    ghost var requestedAt: seq<nat>

    constructor (tasks: Store)
      ensures Valid() && this.tasks == tasks && source.None?
    {
      this.tasks := tasks;
      source, openedTaskId, captured, recoveries := None, None, [], 0;
      now, askedAt, requestedAt := 0, [], [];
    }

    /** A read asked for by an event is under way, will be repeated, or was requested afterwards. */
    ghost predicate Answered(i: SourceId)
      requires |captured| == |askedAt| == |requestedAt| && i < |captured|
      reads this
    {
      askedAt[i] <= requestedAt[i] || (captured[i].snapshotPending && captured[i].snapshotAgain)
    }

    ghost predicate Valid()
      reads this
    {
      && |captured| == |askedAt| == |requestedAt|
      && (forall i :: 0 <= i < |captured| ==> askedAt[i] <= now && requestedAt[i] <= now)
      && (source.None? <==> openedTaskId.None?)
      && (source.Some? ==>
            source.value < |captured| && openedTaskId == Some(captured[source.value].task) && Answered(source.value))
    }

    /** Only this source's captured variables and history may have changed. */
    twostate predicate OnlyFor(i: SourceId)
      requires old(|captured| == |askedAt| == |requestedAt| && i < |captured|)
      reads this
    {
      && |captured| == |askedAt| == |requestedAt| == old(|captured|)
      && captured[i].task == old(captured[i].task)
      && forall j :: 0 <= j < |captured| && j != i ==>
        captured[j] == old(captured[j]) && askedAt[j] == old(askedAt[j]) && requestedAt[j] == old(requestedAt[j])
    }

    /** `close`. */
    method Close()
      requires Valid()
      modifies this
      ensures Valid() && source.None? && captured == old(captured)
    {
      source, openedTaskId := None, None;
    }

    /** `open`: the new source resumes at the highest sequence the store knows. */
    method Open(task: string) returns (cursor: Option<nat>)
      requires Valid() && source.None?
      modifies this
      ensures Valid() && source == Some(|old(captured)|) && openedTaskId == Some(task)
      ensures captured == old(captured) + [Captured(task, false, false, false, None)]
      ensures cursor == tasks.View(task).latest
    {
      cursor := Store.Lookup(tasks.latestSequences, task);
      source, openedTaskId := Some(|captured|), Some(task);
      captured := captured + [Captured(task, false, false, false, None)];
      askedAt, requestedAt := askedAt + [now], requestedAt + [now];
    }

    /** `refreshSnapshot`: one request at a time; a change while it runs asks for one more. */
    method RefreshSnapshot(i: SourceId, recovery: bool, changed: bool)
      requires |captured| == |askedAt| == |requestedAt| && i < |captured|
      requires (captured[i].snapshotPending ==> Answered(i)) && askedAt[i] <= now && requestedAt[i] <= now
      modifies this`captured, this`askedAt, this`requestedAt
      ensures OnlyFor(i) && Answered(i) && captured[i].snapshotPending && requestedAt[i] <= now
      ensures askedAt[i] == if changed then now else old(askedAt[i])
      ensures captured[i].notifyRecovery == (old(captured[i].notifyRecovery) || recovery)
      ensures !old(captured[i].snapshotPending) ==>
        requestedAt[i] == now && captured[i].observed == tasks.View(captured[i].task).latest
      ensures captured[i].snapshotAgain ==
        (old(captured[i].snapshotAgain) || (old(captured[i].snapshotPending) && changed))
      ensures old(captured[i].snapshotPending) ==>
        requestedAt[i] == old(requestedAt[i]) && captured[i].observed == old(captured[i].observed)
    {
      var c := captured[i];
      c := c.(notifyRecovery := c.notifyRecovery || recovery);
      askedAt := askedAt[i := if changed then now else askedAt[i]];
      if c.snapshotPending {
        captured := captured[i := c.(snapshotAgain := c.snapshotAgain || changed)];
        return;
      }
      captured := captured[i := c.(snapshotPending := true, observed := Store.Lookup(tasks.latestSequences, c.task))];
      requestedAt := requestedAt[i := now];
    }

    /** The answer to this source's request was written to this task, and rightly so. */
    twostate predicate Written(i: SourceId, answer: Option<(string, Snapshot)>, id: string)
      requires old(i < |captured|)
      reads this, tasks
    {
      && old(source) == Some(i) && answer.Some? && answer.value.0 == id == old(captured[i].task)
      && old(tasks.View(id)).latest == old(captured[i].observed)
      && tasks.View(id) == old(tasks.View(id)).SetTask(answer.value.1)
    }

    /** The answer must be written: its source is current, it is for the task, and nothing newer has arrived. */
    twostate predicate MustWrite(i: SourceId, answer: Option<(string, Snapshot)>)
      requires old(i < |captured|)
    {
      && old(source) == Some(i) && answer.Some? && answer.value.0 == old(captured[i].task)
      && old(tasks.View(captured[i].task)).latest == old(captured[i].observed)
    }

    /** The `then` of one request. */
    method Receive(i: SourceId, answer: Option<(string, Snapshot)>)
      requires i < |captured|
      modifies tasks
      ensures forall id :: tasks.View(id) == old(tasks.View(id)) || Written(i, answer, id)
      ensures MustWrite(i, answer) ==> Written(i, answer, captured[i].task)
    {
      var c := captured[i];
      if answer.Some? && source == Some(i) && answer.value.0 == c.task {
        var written := tasks.SetTaskIfUnchangedSince(c.task, answer.value.1, c.observed);
      }
    }

    /**
     * The `then` and `finally` of one request. Its answer is written only while its source is the
     * current one, for its own task, and with no durable event since the request.
     */
    method Settle(i: SourceId, answer: Option<(string, Snapshot)>)
      requires Valid() && i < |captured| && captured[i].snapshotPending
      modifies this, tasks
      ensures Valid() && source == old(source) && OnlyFor(i)
      ensures forall id :: tasks.View(id) == old(tasks.View(id)) || Written(i, answer, id)
      ensures MustWrite(i, answer) ==> Written(i, answer, captured[i].task)
      ensures captured[i].snapshotPending ==>
        requestedAt[i] == now && captured[i].observed == tasks.View(captured[i].task).latest
      ensures recoveries == old(recoveries) + if source == Some(i) && old(captured[i].notifyRecovery) then 1 else 0
      ensures captured[i].snapshotPending == (source == Some(i) && old(captured[i].snapshotAgain))
    {
      Receive(i, answer);
      now := now + 1;
      var c := captured[i];
      captured := captured[i := c.(snapshotPending := false)];
      if source != Some(i) {
        return;
      }
      if c.notifyRecovery {
        captured := captured[i := captured[i].(notifyRecovery := false)];
        recoveries := recoveries + 1;
      }
      if c.snapshotAgain {
        captured := captured[i := captured[i].(snapshotAgain := false)];
        RefreshSnapshot(i, false, false);
      }
    }

    /**
     * `handleEvent`. A replaced source changes nothing. An event of the task is merged into the store,
     * and a new one that needs the full row is answered by a request sent after it.
     */
    method HandleEvent(i: SourceId, incoming: Incoming)
      requires Valid() && i < |captured|
      modifies this, tasks
      ensures Valid() && source == old(source) && OnlyFor(i)
      ensures source != Some(i) || (incoming.Parsed? && incoming.task != captured[i].task) ==>
        captured == old(captured) && forall id :: tasks.View(id) == old(tasks.View(id))
      ensures source == Some(i) && incoming.Parsed? && incoming.task == captured[i].task ==>
        tasks.View(incoming.task) == old(tasks.View(incoming.task)).ApplyEvent(incoming.message)
      ensures forall id :: (incoming.Parsed? ==> id != incoming.task) ==> tasks.View(id) == old(tasks.View(id))
      ensures source == Some(i) ==>
        || NeedsRead(old(tasks.View(captured[i].task)), captured[i].task, incoming)
        || MissedSomething(old(tasks.View(captured[i].task)), incoming)
        || captured == old(captured)
      ensures source == Some(i) && NeedsRead(old(tasks.View(captured[i].task)), captured[i].task, incoming) ==>
        askedAt[i] == now && captured[i].snapshotPending &&
          captured[i].notifyRecovery == old(captured[i].notifyRecovery)
      ensures source == Some(i) && MissedSomething(old(tasks.View(captured[i].task)), incoming) ==>
        captured[i].snapshotPending && captured[i].notifyRecovery
    {
      now := now + 1;
      if source != Some(i) {
        return;
      }
      var task := captured[i].task;
      match incoming
      case Unparsed(lastEventId) =>
        var snapshotCursor := if task in tasks.snapshotCursors then tasks.snapshotCursors[task] else 0;
        if lastEventId.Some? && lastEventId.value > snapshotCursor {
          RefreshSnapshot(i, true, false);
        }
      case Parsed(eventTask, message, wantsRead) =>
        if eventTask != task {
          return;
        }
        var previous := Store.Lookup(tasks.latestSequences, task);
        tasks.ApplyEvent(task, message);
        var isNew := previous.None? || message.sequence > previous.value;
        if isNew && wantsRead {
          RefreshSnapshot(i, false, true);
        }
    }

    /** The heartbeat timer: a silent current source is replaced by one that resumes at the known cursor. */
    method HeartbeatTimeout(i: SourceId)
      requires Valid() && i < |captured|
      modifies this
      ensures Valid()
      ensures if old(source) == Some(i)
        then source == Some(|old(captured)|) && openedTaskId == old(openedTaskId) && |captured| == |old(captured)| + 1
        else source == old(source) && captured == old(captured)
    {
      if source != Some(i) {
        return;
      }
      var task := captured[i].task;
      source, openedTaskId := None, None;
      var cursor := Open(task);
    }
  }

  /** A new durable event of the task whose full row must be read. */
  predicate NeedsRead(before: Projection, task: string, incoming: Incoming) {
    && incoming.Parsed? && incoming.task == task && incoming.wantsRead
    && (before.latest.None? || incoming.message.sequence > before.latest.value)
  }

  /** The stream has passed the last accepted snapshot with an event nobody could parse. */
  predicate MissedSomething(before: Projection, incoming: Incoming) {
    && incoming.Unparsed? && incoming.lastEventId.Some?
    && incoming.lastEventId.value > (if before.snapshotCursor.Some? then before.snapshotCursor.value else 0)
  }
}
