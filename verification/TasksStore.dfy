/**
 * frontend/src/stores/tasks.ts. `Projection` is what the store knows about one task; the class
 * below keeps those facts in the store's own maps and updates them in place.
 */
module TasksStore {
  import opened Prelude
  import opened TaskFacts

  datatype Projection = Projection(
    status: Option<TaskStatus>,
    snapshotCursor: Option<nat>,
    seen: set<nat>,
    latest: Option<nat>,
    projectedStatus: Option<nat>)
  {
    function LatestOrZero(): nat {
      if latest.Some? then latest.value else 0
    }

    function SetTask(s: Snapshot): Projection {
      if latest.Some? && s.cursor < latest.value then this
      else Projection(Some(s.status), Some(s.cursor), {s.cursor}, Some(s.cursor), Some(s.cursor))
    }

    function SetTaskIfUnchangedSince(s: Snapshot, observed: Option<nat>): (Projection, bool) {
      if latest != observed then (this, false) else (SetTask(s), true)
    }

    function ApplySnapshot(sequence: nat, s: Snapshot): Projection {
      if latest.Some? && sequence <= latest.value then this
      else
        SetTask(s).(snapshotCursor := Some(sequence), seen := {sequence},
                    latest := Some(sequence), projectedStatus := Some(sequence))
    }

    predicate AlreadyApplied(sequence: nat) {
      (snapshotCursor.Some? && sequence <= snapshotCursor.value) || sequence in seen
    }

    function ApplyStatus(sequence: nat, reported: Option<TaskStatus>): Projection {
      if projectedStatus.Some? && sequence < projectedStatus.value then this
      else if reported.None? then this
      else this.(status := reported, projectedStatus := Some(sequence))
    }

    /** A showable step of an unknown task creates a placeholder that guesses `running`. */
    function ApplyStep(step: bool): Projection {
      if step && status.None? then this.(status := Some(Running)) else this
    }

    /** A fresh durable event is remembered, and the known sequence never falls. */
    function Note(sequence: nat): Projection {
      var newest := if latest.None? || sequence > latest.value then sequence else latest.value;
      this.(seen := seen + {sequence}, latest := Some(newest))
    }

    function ApplyEvent(m: Message): Projection {
      if m.SnapshotMessage? then ApplySnapshot(m.sequence, m.snapshot)
      else if AlreadyApplied(m.sequence) then this
      else
        var noted := Note(m.sequence);
        match m.event
        case StatusChanged => noted.ApplyStatus(m.sequence, m.status)
        case StepLifecycle => noted.ApplyStep(m.step)
        case _ => noted
    }

    function ApplyAll(messages: seq<Message>): Projection {
      if messages == [] then this
      else ApplyAll(messages[..|messages| - 1]).ApplyEvent(messages[|messages| - 1])
    }
  }

  const EMPTY := Projection(None, None, {}, None, None)

  /** The known cursor never moves backwards, whatever is applied. */
  lemma LatestNeverDecreases(p: Projection, m: Message, s: Snapshot, observed: Option<nat>)
    ensures p.latest.Some? ==> p.ApplyEvent(m).latest.Some? && p.ApplyEvent(m).latest.value >= p.latest.value
    ensures p.latest.Some? ==> p.SetTask(s).latest.Some? && p.SetTask(s).latest.value >= p.latest.value
    ensures p.SetTaskIfUnchangedSince(s, observed).0.latest in {p.latest, p.SetTask(s).latest}
  {
  }

  /** A guarded answer is dropped exactly when the known sequence has moved since it was asked for. */
  lemma GuardedAnswer(p: Projection, s: Snapshot, observed: Option<nat>)
    ensures var (q, written) := p.SetTaskIfUnchangedSince(s, observed);
      && (written <==> p.latest == observed) && (!written ==> q == p)
      && (written && (p.latest.None? || p.latest.value <= s.cursor) ==>
            q.status == Some(s.status) && q.latest == q.snapshotCursor == q.projectedStatus == Some(s.cursor))
      && (written && p.latest.Some? && s.cursor < p.latest.value ==> q == p)
  {
  }

  /** A step event shows a task that was unknown as running, and changes the status of no other. */
  lemma StepOnlyIntroduces(p: Projection, m: Message)
    requires m.EventMessage? && m.event == StepLifecycle
    ensures p.ApplyEvent(m).status ==
      if p.status.None? && m.step && !p.AlreadyApplied(m.sequence) then Some(Running) else p.status
    ensures p.ApplyEvent(m).projectedStatus == p.projectedStatus
  {
  }

  // ---------------------------------------------------------------- order and multiplicity

  /** Deliveries of durable events above `cursor`; one sequence always carries one event. */
  ghost predicate Deliveries(messages: seq<Message>, cursor: nat) {
    && (forall i :: 0 <= i < |messages| ==> messages[i].EventMessage? && messages[i].sequence > cursor)
    && (forall i, j :: 0 <= i < |messages| && 0 <= j < |messages| && messages[i].sequence == messages[j].sequence
          ==> messages[i] == messages[j])
  }

  predicate Reports(m: Message) {
    m.EventMessage? && m.event == StatusChanged && m.status.Some?
  }

  /** `m` is the highest delivery that reports a status. */
  ghost predicate HighestReport(messages: seq<Message>, m: Message) {
    && m in messages && Reports(m)
    && forall n :: n in messages && Reports(n) ==> n.sequence <= m.sequence
  }

  /** What the store knows once exactly `messages` were delivered after the snapshot. */
  ghost predicate Settled(q: Projection, s: Snapshot, messages: seq<Message>) {
    && q.snapshotCursor == Some(s.cursor)
    && (forall n :: n in q.seen && n != s.cursor ==> exists m :: m in messages && m.sequence == n)
    && (forall m :: m in messages ==> m.sequence in q.seen)
    && q.projectedStatus.Some? && q.projectedStatus.value >= s.cursor
    && (forall m :: m in messages && Reports(m) ==>
          && m.sequence <= q.projectedStatus.value
          && (m.sequence == q.projectedStatus.value ==> q.status == m.status))
    && (if q.projectedStatus.value == s.cursor then q.status == Some(s.status)
        else exists m :: m in messages && Reports(m) && m.sequence == q.projectedStatus.value)
  }

  lemma SettledStep(q: Projection, s: Snapshot, front: seq<Message>, last: Message)
    requires Deliveries(front + [last], s.cursor) && Settled(q, s, front)
    ensures Settled(q.ApplyEvent(last), s, front + [last])
  {
    var all := front + [last];
    assert all[|front|] == last && last in all;
    assert forall m :: m in all <==> m in front || m == last;
    if last.sequence in q.seen {
      var twin :| twin in front && twin.sequence == last.sequence;
      var i :| 0 <= i < |front| && front[i] == twin;
      assert all[i] == all[|front|];
    } else {
      hide Deliveries;
      assert forall m :: m in front ==> m.sequence != last.sequence;
      FreshDeliverySettles(q, s, front, all, last);
    }
  }

  lemma FreshDeliverySettles(q: Projection, s: Snapshot, front: seq<Message>, all: seq<Message>, last: Message)
    requires Settled(q, s, front) && forall m :: m in all <==> m in front || m == last
    requires last.EventMessage? && last.sequence > s.cursor && last.sequence !in q.seen
    requires forall m :: m in front ==> m.sequence != last.sequence
    ensures Settled(q.ApplyEvent(last), s, all)
  {
    var r := q.ApplyEvent(last);
    assert r.seen == q.seen + {last.sequence};
    if Reports(last) && q.projectedStatus.value <= last.sequence {
      assert r.status == last.status && r.projectedStatus == Some(last.sequence);
    } else {
      assert r.projectedStatus == q.projectedStatus;
    }
  }

  lemma {:induction false} DeliveriesSettle(p: Projection, s: Snapshot, messages: seq<Message>)
    requires p.latest.Some? ==> p.latest.value <= s.cursor
    requires Deliveries(messages, s.cursor)
    ensures Settled(p.SetTask(s).ApplyAll(messages), s, messages)
  {
    if messages != [] {
      var front, last := messages[..|messages| - 1], messages[|messages| - 1];
      DeliveriesSettle(p, s, front);
      assert messages == front + [last];
      SettledStep(p.SetTask(s).ApplyAll(front), s, front, last);
    }
  }

  /**
   * Whatever the order and multiplicity of the deliveries above an accepted snapshot, the status
   * is that of the highest recognised report, and the snapshot's own when there is none.
   */
  lemma FinalStatusIsHighestReport(p: Projection, s: Snapshot, messages: seq<Message>)
    requires p.latest.Some? ==> p.latest.value <= s.cursor
    requires Deliveries(messages, s.cursor)
    ensures var status := p.SetTask(s).ApplyAll(messages).status;
      && (forall m :: HighestReport(messages, m) ==> status == m.status)
      && ((forall m :: m in messages ==> !Reports(m)) ==> status == Some(s.status))
  {
    DeliveriesSettle(p, s, messages);
    var q := p.SetTask(s).ApplyAll(messages);
    forall m | HighestReport(messages, m)
      ensures q.status == m.status
    {
      assert m.sequence > s.cursor;
      var n :| n in messages && Reports(n) && n.sequence == q.projectedStatus.value;
    }
  }

  /** Two deliveries of the same set of events leave the same status, however each was ordered. */
  lemma DeliveryOrderIsIrrelevant(p: Projection, s: Snapshot, left: seq<Message>, right: seq<Message>)
    requires p.latest.Some? ==> p.latest.value <= s.cursor
    requires Deliveries(left, s.cursor) && Deliveries(right, s.cursor)
    requires forall m :: m in left <==> m in right
    ensures p.SetTask(s).ApplyAll(left).status == p.SetTask(s).ApplyAll(right).status
  {
    DeliveriesSettle(p, s, left);
    DeliveriesSettle(p, s, right);
    var l, r := p.SetTask(s).ApplyAll(left), p.SetTask(s).ApplyAll(right);
    if l.projectedStatus.value > s.cursor {
      var m :| m in left && Reports(m) && m.sequence == l.projectedStatus.value;
      assert m in right;
    }
    if r.projectedStatus.value > s.cursor {
      var n :| n in right && Reports(n) && n.sequence == r.projectedStatus.value;
      assert n in left;
    }
  }

  // ---------------------------------------------------------------- the store

  class Store {
    var tasks: map<string, TaskStatus>
    var seenSequences: map<string, set<nat>>
    var snapshotCursors: map<string, nat>
    var latestSequences: map<string, nat>
    var projectedStatusSequences: map<string, nat>

    /** What the maps say about one task. */
    ghost function View(id: string): Projection
      reads this
    {
      Projection(
        Lookup(tasks, id),
        Lookup(snapshotCursors, id),
        if id in seenSequences then seenSequences[id] else {},
        Lookup(latestSequences, id),
        Lookup(projectedStatusSequences, id))
    }

    static function Lookup<V>(m: map<string, V>, id: string): Option<V> {
      if id in m then Some(m[id]) else None
    }

    constructor ()
      ensures forall id :: View(id) == EMPTY
    {
      tasks, seenSequences, snapshotCursors := map[], map[], map[];
      latestSequences, projectedStatusSequences := map[], map[];
    }

    method SetTask(id: string, s: Snapshot)
      modifies this
      ensures View(id) == old(View(id)).SetTask(s)
      ensures forall other :: other != id ==> View(other) == old(View(other))
    {
      if id in latestSequences && s.cursor < latestSequences[id] {
        return;
      }
      tasks := tasks[id := s.status];
      snapshotCursors := snapshotCursors[id := s.cursor];
      latestSequences := latestSequences[id := s.cursor];
      seenSequences := seenSequences[id := {s.cursor}];
      projectedStatusSequences := projectedStatusSequences[id := s.cursor];
    }

    method SetTaskIfUnchangedSince(id: string, s: Snapshot, observed: Option<nat>) returns (written: bool)
      modifies this
      ensures (View(id), written) == old(View(id)).SetTaskIfUnchangedSince(s, observed)
      ensures forall other :: other != id ==> View(other) == old(View(other))
    {
      if Lookup(latestSequences, id) != observed {
        return false;
      }
      SetTask(id, s);
      return true;
    }

    method ApplyEvent(id: string, m: Message)
      modifies this
      ensures View(id) == old(View(id)).ApplyEvent(m)
      ensures forall other :: other != id ==> View(other) == old(View(other))
    {
      if m.SnapshotMessage? {
        ApplySnapshotEvent(id, m.sequence, m.snapshot);
        return;
      }
      if (id in snapshotCursors && m.sequence <= snapshotCursors[id]) ||
         (id in seenSequences && m.sequence in seenSequences[id]) {
        return;
      }
      Note(id, m.sequence);
      if m.event == StatusChanged {
        ApplyStatusEvent(id, m.sequence, m.status);
      }
      if m.event == StepLifecycle {
        ApplyStepEvent(id, m.step);
      }
    }

    method Note(id: string, sequence: nat)
      modifies this
      ensures View(id) == old(View(id)).Note(sequence)
      ensures forall other :: other != id ==> View(other) == old(View(other))
    {
      var seen := if id in seenSequences then seenSequences[id] else {};
      seenSequences := seenSequences[id := seen + {sequence}];
      if id !in latestSequences || sequence > latestSequences[id] {
        latestSequences := latestSequences[id := sequence];
      }
    }

    method ApplySnapshotEvent(id: string, sequence: nat, s: Snapshot)
      modifies this
      ensures View(id) == old(View(id)).ApplySnapshot(sequence, s)
      ensures forall other :: other != id ==> View(other) == old(View(other))
    {
      if id in latestSequences && sequence <= latestSequences[id] {
        return;
      }
      SetTask(id, s);
      snapshotCursors := snapshotCursors[id := sequence];
      seenSequences := seenSequences[id := {sequence}];
      latestSequences := latestSequences[id := sequence];
      projectedStatusSequences := projectedStatusSequences[id := sequence];
    }

    method ApplyStatusEvent(id: string, sequence: nat, status: Option<TaskStatus>)
      modifies this
      ensures View(id) == old(View(id)).ApplyStatus(sequence, status)
      ensures forall other :: other != id ==> View(other) == old(View(other))
    {
      if id in projectedStatusSequences && sequence < projectedStatusSequences[id] {
        return;
      }
      if status.None? {
        return;
      }
      tasks := tasks[id := status.value];
      projectedStatusSequences := projectedStatusSequences[id := sequence];
    }

    method ApplyStepEvent(id: string, step: bool)
      modifies this
      ensures View(id) == old(View(id)).ApplyStep(step)
      ensures forall other :: other != id ==> View(other) == old(View(other))
    {
      if step && id !in tasks {
        tasks := tasks[id := Running];
      }
    }
  }
}
