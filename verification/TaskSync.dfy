/**
 * The whole path of one task's status: audit log, retention, event stream, browser reconnects,
 * REST reads and the client store, as a step system. Retention may remove any rows at any time. The
 * result is that a projected status is always the fold of the log up to the client's own cursor, in
 * every run that opens no hole.
 */
module TaskSync {
  import opened Prelude
  import opened TaskFacts
  import opened TasksStore
  import opened TaskEventStream

  /** Where the server's generator stands; `Opening` has not read the oldest row yet. */
  datatype Server = Opening(lastEventId: Option<nat>) | Gap | Live

  datatype Connection = Connection(server: Server, cursor: nat, wire: seq<Message>)

  datatype System = System(
    first: TaskStatus,            // the status of the task row before any reported change
    log: seq<Fact>,               // every row ever appended
    removed: set<nat>,            // the ids of the rows that retention has removed
    store: Projection,
    stream: Option<Connection>,
    query: Option<nat>,           // the cursor in the open EventSource's URL
    header: Option<nat>,          // the EventSource's last event id
    replies: set<Snapshot>,       // REST responses that have not arrived
    floor: nat)                   // history: every row up to here was gone when a replay last began

  datatype Step =
    | Append(fact: Fact)
    | Trim(ids: set<nat>)
    | Open
    | Reconnect
    | ReadOldest
    | SendSnapshot
    | Poll
    | Deliver(again: bool)
    | Disconnect
    | Request
    | Reply(snapshot: Snapshot, observed: Option<Option<nat>>)
    | LoseReply(snapshot: Snapshot)

  function Initial(first: TaskStatus): System {
    System(first, [], {}, EMPTY, None, None, None, {}, 0)
  }

  function Without(log: seq<Fact>, removed: set<nat>): seq<Fact> {
    if log == [] then []
    else
      var newest := log[|log| - 1];
      Without(log[..|log| - 1], removed) + if newest.id in removed then [] else [newest]
  }

  /** The audit table as the server reads it. */
  function Retained(s: System): seq<Fact> { Without(s.log, s.removed) }

  /** The task row and the largest retained audit id, or zero, from one read. */
  function CurrentSnapshot(s: System): Snapshot {
    Snapshot(LastId(Retained(s)), FoldStatus(s.log, LastId(s.log), s.first))
  }

  /** Everything up to here is gone from the table. */
  function NewFloor(s: System): nat {
    var retained := Retained(s);
    if retained == [] then LastId(s.log) else if retained[0].id == 0 then 0 else retained[0].id - 1
  }

  function Decision(s: System): Opening
    requires s.stream.Some? && s.stream.value.server.Opening?
  {
    DecideOpening(OldestEventId(Retained(s)), s.stream.value.server.lastEventId)
  }

  predicate Enabled(s: System, step: Step) {
    match step
    case Append(fact) => fact.id > LastId(s.log) && ValidAudit(fact.audit)
    case Trim(ids) => forall id :: id in ids ==> id <= LastId(s.log)
    case Open => true
    case Reconnect => s.stream.None?
    case ReadOldest => s.stream.Some? && s.stream.value.server.Opening?
    case SendSnapshot => s.stream.Some? && s.stream.value.server.Gap?
    case Poll => s.stream.Some? && s.stream.value.server.Live?
    case Deliver(_) => s.stream.Some? && s.stream.value.wire != []
    case Disconnect => s.stream.Some?
    case Request => true
    case Reply(snapshot, _) => snapshot in s.replies
    case LoseReply(snapshot) => snapshot in s.replies
  }

  function Next(s: System, step: Step): System
    requires Enabled(s, step)
  {
    match step
    case Append(fact) => s.(log := s.log + [fact])
    case Trim(ids) => s.(removed := s.removed + ids)
    case Open =>
      s.(stream := Some(Connection(Opening(s.store.latest), 0, [])), query := s.store.latest, header := None)
    case Reconnect =>
      s.(stream := Some(Connection(Opening(if s.header.Some? then s.header else s.query), 0, [])))
    case ReadOldest =>
      var decision := Decision(s);
      if decision.SendGapSnapshot? then s.(stream := Some(Connection(Gap, 0, [])))
      else s.(floor := NewFloor(s), stream := Some(Connection(Live, decision.cursor, [])))
    case SendSnapshot =>
      var snapshot := CurrentSnapshot(s);
      s.(stream := Some(Connection(Live, snapshot.cursor, [SnapshotMessage(snapshot.cursor, snapshot)])))
    case Poll =>
      var c := s.stream.value;
      var rows := EventsAfter(Retained(s), c.cursor);
      s.(stream := Some(Connection(Live, if rows == [] then c.cursor else LastId(rows),
                                   c.wire + PublishedAll(rows))))
    case Deliver(again) =>
      var c := s.stream.value;
      var m := c.wire[0];
      s.(store := if Heard(m) then s.store.ApplyEvent(m) else s.store,
         header := Some(m.sequence),
         stream := Some(if again then c else c.(wire := c.wire[1..])))
    case Disconnect => s.(stream := None)
    case Request => s.(replies := s.replies + {CurrentSnapshot(s)})
    case Reply(snapshot, observed) =>
      s.(replies := s.replies - {snapshot},
         store := if observed.None? then s.store.SetTask(snapshot)
                  else s.store.SetTaskIfUnchangedSince(snapshot, observed.value).0)
    case LoseReply(snapshot) => s.(replies := s.replies - {snapshot})
  }

  /** The browser drops a named event nobody listens to, but still remembers its id. */
  predicate Heard(m: Message) { m.SnapshotMessage? || m.event != Unlistened }

  /** No removed row above the mark reports a status. */
  ghost predicate NothingMissing(s: System, mark: nat) {
    forall i :: 0 <= i < |s.log| && s.log[i].id > mark && s.log[i].id in s.removed ==> ReportedStatus(s.log[i]).None?
  }

  /** The store would still take this REST response. */
  predicate Acceptable(p: Projection, r: Snapshot) { p.LatestOrZero() <= r.cursor }

  /**
   * A step that opens no hole. Retention leaves the reports that a live stream has not read. A replay
   * begins only where no report is missing above its own start, above what the client has projected,
   * and above a REST response that the client may still take. A snapshot is read only where no report
   * is missing above the newest row of the table. All four are conditions on removed rows: where
   * nothing that reports a status is removed, every step meets them.
   */
  ghost predicate HoleFree(s: System, step: Step) {
    match step
    case Trim(ids) =>
      s.stream.Some? && s.stream.value.server.Live? ==>
        forall i :: 0 <= i < |s.log| && s.log[i].id > s.stream.value.cursor && s.log[i].id in ids ==>
          ReportedStatus(s.log[i]).None?
    case ReadOldest =>
      s.stream.Some? && s.stream.value.server.Opening? && Decision(s).ReplayAfter? ==>
        && NothingMissing(s, Max(Decision(s).cursor, NewFloor(s)))
        && (s.store.projectedStatus.Some? ==> NothingMissing(s, s.store.LatestOrZero()))
        && (forall r :: r in s.replies && Acceptable(s.store, r) ==> NothingMissing(s, r.cursor))
    case SendSnapshot => NothingMissing(s, LastId(Retained(s)))
    case Request => NothingMissing(s, LastId(Retained(s)))
    case _ => true
  }

  predicate Executes(s: System, steps: seq<Step>)
    decreases |steps|
  {
    steps == [] || (Enabled(s, steps[0]) && Executes(Next(s, steps[0]), steps[1..]))
  }

  function After(s: System, steps: seq<Step>): System
    requires Executes(s, steps)
    decreases |steps|
  {
    if steps == [] then s else After(Next(s, steps[0]), steps[1..])
  }

  /** A run that opens no hole. */
  ghost predicate Runs(s: System, steps: seq<Step>)
    ensures Runs(s, steps) ==> Executes(s, steps)
    decreases |steps|
  {
    steps == [] || (Enabled(s, steps[0]) && HoleFree(s, steps[0]) && Runs(Next(s, steps[0]), steps[1..]))
  }

  // ---------------------------------------------------------------- the invariant

  /** Up to here a client has accounted for every reported status. */
  function BaseOf(p: Projection, floor: nat): nat { Max(p.LatestOrZero(), floor) }

  function Base(s: System): nat { BaseOf(s.store, s.floor) }

  ghost predicate FromLog(log: seq<Fact>, m: Message) {
    exists i :: 0 <= i < |log| && m == Published(log[i])
  }

  /** Every status between `base` and `reach` is on the wire, in order, or covered by a snapshot there. */
  ghost predicate Covered(s: System, base: nat, wire: seq<Message>, reach: nat)
    decreases |wire|
  {
    if wire == [] then Quiet(s.log, base, reach)
    else
      var m := wire[0];
      && Covered(s, Max(base, m.sequence), wire[1..], reach)
      && match m
         case EventMessage(sequence, _, _, _) =>
           FromLog(s.log, m) && s.floor < sequence && Quiet(s.log, base, sequence - 1)
         case SnapshotMessage(sequence, snapshot) =>
           && sequence == snapshot.cursor && sequence <= LastId(s.log) && Quiet(s.log, sequence, s.floor)
           && snapshot.status == FoldStatus(s.log, sequence, s.first)
  }

  ghost predicate ProjectionInv(log: seq<Fact>, first: TaskStatus, floor: nat, p: Projection) {
    && p.LatestOrZero() <= LastId(log)
    && (p.snapshotCursor.Some? ==> p.projectedStatus.Some? && p.snapshotCursor.value <= p.projectedStatus.value)
    && (forall n :: n in p.seen ==> n <= p.LatestOrZero())
    && (p.projectedStatus.Some? ==>
          && p.latest.Some? && p.projectedStatus.value <= p.latest.value
          && p.status == Some(FoldStatus(log, p.projectedStatus.value, first)))
    && Quiet(log, if p.projectedStatus.Some? then p.projectedStatus.value else floor, BaseOf(p, floor))
  }

  ghost predicate StoreInv(s: System) { ProjectionInv(s.log, s.first, s.floor, s.store) }

  ghost predicate CursorInv(s: System, cursor: Option<nat>) {
    cursor.Some? ==> cursor.value <= LastId(s.log) && Quiet(s.log, Base(s), cursor.value)
  }

  ghost predicate ReplyInv(s: System, r: Snapshot) {
    && r.cursor <= LastId(s.log) && r.status == FoldStatus(s.log, r.cursor, s.first)
    && (Acceptable(s.store, r) ==> Quiet(s.log, r.cursor, s.floor))
  }

  ghost predicate StreamInv(s: System) {
    s.stream.Some? ==>
      var c := s.stream.value;
      match c.server
      case Opening(lastEventId) => c.wire == [] && CursorInv(s, lastEventId)
      case Gap => c.wire == []
      case Live =>
        var reach := Max(c.cursor, s.floor);
        reach <= LastId(s.log) && NothingMissing(s, reach) && Covered(s, Base(s), c.wire, reach)
  }

  /** The log is in order, and everything up to the floor is gone. */
  ghost predicate TableInv(s: System) {
    && ValidLog(s.log) && s.floor <= LastId(s.log)
    && (forall id :: id in s.removed ==> id <= LastId(s.log))
    && (forall i :: 0 <= i < |s.log| && s.log[i].id <= s.floor ==> s.log[i].id in s.removed)
  }

  ghost predicate Inv(s: System) {
    && TableInv(s) && StoreInv(s)
    && CursorInv(s, s.query) && CursorInv(s, s.header)
    && (forall r :: r in s.replies ==> ReplyInv(s, r))
    && StreamInv(s)
  }

  // ---------------------------------------------------------------- the table

  lemma {:induction false} WithoutMembers(log: seq<Fact>, removed: set<nat>)
    ensures forall f :: f in Without(log, removed) <==> f in log && f.id !in removed
  {
    if log != [] {
      WithoutMembers(log[..|log| - 1], removed);
      assert log == log[..|log| - 1] + [log[|log| - 1]];
    }
  }

  lemma {:induction false} WithoutIsExact(log: seq<Fact>, removed: set<nat>)
    requires ValidLog(log)
    ensures ValidLog(Without(log, removed))
    ensures forall f :: f in Without(log, removed) <==> f in log && f.id !in removed
  {
    WithoutMembers(log, removed);
    if log != [] {
      var front, newest := log[..|log| - 1], log[|log| - 1];
      assert ValidLog(front);
      WithoutIsExact(front, removed);
      assert Without(log, removed) == Without(front, removed) + if newest.id in removed then [] else [newest];
      hide ValidLog, Without;
      KeptIsValid(log, Without(front, removed));
      assert Without(front, removed) + [] == Without(front, removed);
    }
  }

  /** Rows below the oldest retained one are gone, and all rows are when none is retained. */
  lemma BelowTheOldest(log: seq<Fact>, removed: set<nat>, i: nat)
    requires ValidLog(log) && i < |log|
    requires var retained := Without(log, removed); retained == [] || log[i].id < retained[0].id
    ensures log[i].id in removed
  {
    WithoutIsExact(log, removed);
    var retained := Without(log, removed);
    hide Without;
    assert log[i] in log;
    assert forall j :: 0 <= j < |retained| ==> retained[0].id <= retained[j].id;
  }

  lemma OldestIsRetained(s: System)
    requires ValidLog(s.log) && Retained(s) != []
    ensures 0 < Retained(s)[0].id <= LastId(s.log) && Retained(s)[0].id !in s.removed && Retained(s)[0] in s.log
  {
    WithoutIsExact(s.log, s.removed);
    assert Retained(s)[0] in Retained(s);
  }

  /** Every row up to the new floor is gone, and it is no lower than the last one. */
  lemma NewFloorIsExact(s: System)
    requires TableInv(s)
    ensures s.floor <= NewFloor(s) <= LastId(s.log)
    ensures forall i :: 0 <= i < |s.log| && s.log[i].id <= NewFloor(s) ==> s.log[i].id in s.removed
  {
    if Retained(s) != [] {
      OldestIsRetained(s);
    }
    hide Without, ValidLog;
    forall i | 0 <= i < |s.log| && s.log[i].id <= NewFloor(s)
      ensures s.log[i].id in s.removed
    {
      BelowTheOldest(s.log, s.removed, i);
    }
  }

  // ---------------------------------------------------------------- coverage

  lemma {:induction false} CoveredAbove(s: System, base: nat, higher: nat, wire: seq<Message>, reach: nat)
    requires base <= higher && Covered(s, base, wire, reach)
    ensures Covered(s, higher, wire, reach)
    decreases |wire|
  {
    if wire != [] {
      CoveredAbove(s, Max(base, wire[0].sequence), Max(higher, wire[0].sequence), wire[1..], reach);
    }
  }

  lemma {:induction false} CoveredBelow(s: System, base: nat, higher: nat, wire: seq<Message>, reach: nat)
    requires base <= higher && Quiet(s.log, base, higher) && Covered(s, higher, wire, reach)
    ensures Covered(s, base, wire, reach)
    decreases |wire|
  {
    if wire != [] {
      CoveredBelow(s, Max(base, wire[0].sequence), Max(higher, wire[0].sequence), wire[1..], reach);
    }
  }

  /** Coverage reads only the log, its fold and the floor. */
  lemma {:induction false} CoveredTransfers(s: System, t: System, base: nat, wire: seq<Message>, reach: nat)
    requires s.log == t.log && s.first == t.first && s.floor == t.floor && Covered(s, base, wire, reach)
    ensures Covered(t, base, wire, reach)
    decreases |wire|
  {
    if wire != [] {
      CoveredTransfers(s, t, Max(base, wire[0].sequence), wire[1..], reach);
    }
  }

  lemma {:induction false} CoveredSurvivesAppend(s: System, fact: Fact, base: nat, wire: seq<Message>, reach: nat)
    requires ValidLog(s.log) && LastId(s.log) < fact.id && reach <= LastId(s.log) && s.floor <= LastId(s.log)
    requires Covered(s, base, wire, reach)
    ensures Covered(s.(log := s.log + [fact]), base, wire, reach)
    decreases |wire|
  {
    if wire != [] {
      var m, t := wire[0], s.(log := s.log + [fact]);
      CoveredSurvivesAppend(s, fact, Max(base, m.sequence), wire[1..], reach);
      if m.EventMessage? {
        var i :| 0 <= i < |s.log| && m == Published(s.log[i]);
        assert m == Published(t.log[i]) && m.sequence <= LastId(s.log);
      } else {
        FoldIgnoresLaterRow(s.log, fact, m.sequence, s.first);
      }
    }
  }

  /** Putting the next row on the wire extends the reach to it. */
  lemma {:induction false} CoveredExtends(s: System, base: nat, wire: seq<Message>, reach: nat, fact: Fact)
    requires Covered(s, base, wire, reach) && fact in s.log
    requires reach < fact.id && s.floor < fact.id && Quiet(s.log, reach, fact.id - 1)
    ensures Covered(s, base, wire + [Published(fact)], fact.id)
    decreases |wire|
  {
    var longer := wire + [Published(fact)];
    assert Published(fact).sequence == fact.id;
    if wire == [] {
      assert longer[1..] == [];
    } else {
      assert longer[0] == wire[0] && longer[1..] == wire[1..] + [Published(fact)];
      CoveredExtends(s, Max(base, wire[0].sequence), wire[1..], reach, fact);
    }
  }

  /** A whole replay: `rows` lie above the reach and lack no report there. */
  lemma {:induction false} CoveredExtendsAll(s: System, base: nat, wire: seq<Message>, reach: nat, rows: seq<Fact>,
    k: nat)
    requires Covered(s, base, wire, reach) && s.floor <= reach && k <= |rows| && ValidLog(rows)
    requires forall f :: f in rows ==> f in s.log && f.id > reach
    requires forall f :: f in s.log && f.id > reach && ReportedStatus(f).Some? ==> f in rows
    ensures Covered(s, base, wire + PublishedAll(rows[..k]), if k == 0 then reach else rows[k - 1].id)
  {
    hide Quiet, ValidLog;
    if k == 0 {
      assert wire + PublishedAll(rows[..0]) == wire;
    } else {
      hide Covered;
      CoveredExtendsAll(s, base, wire, reach, rows, k - 1);
      var fact := rows[k - 1];
      assert fact in rows;
      var before := if k == 1 then reach else rows[k - 2].id;
      NoReportBetween(s.log, reach, rows, k);
      CoveredExtends(s, base, wire + PublishedAll(rows[..k - 1]), before, fact);
      PublishedNext(wire, rows, k);
    }
  }

  lemma PublishedNext(wire: seq<Message>, rows: seq<Fact>, k: nat)
    requires 0 < k <= |rows|
    ensures wire + PublishedAll(rows[..k]) == (wire + PublishedAll(rows[..k - 1])) + [Published(rows[k - 1])]
  {
    assert PublishedAll(rows[..k]) == PublishedAll(rows[..k - 1]) + [Published(rows[k - 1])];
  }

  /** Between two neighbours of the rows read no row of the log reports a status. */
  lemma NoReportBetween(log: seq<Fact>, reach: nat, rows: seq<Fact>, k: nat)
    requires 0 < k <= |rows| && ValidLog(rows) && forall f :: f in rows ==> f.id > reach
    requires forall f :: f in log && f.id > reach && ReportedStatus(f).Some? ==> f in rows
    ensures Quiet(log, if k == 1 then reach else rows[k - 2].id, rows[k - 1].id - 1)
    ensures (if k == 1 then reach else rows[k - 2].id) < rows[k - 1].id
  {
    var before := if k == 1 then reach else rows[k - 2].id;
    assert rows[k - 1] in rows;
    assert k > 1 ==> rows[k - 2] in rows;
    assert forall j :: 0 <= j < |rows| ==> rows[j].id <= before || rows[j].id >= rows[k - 1].id;
    forall i | 0 <= i < |log| && before < log[i].id <= rows[k - 1].id - 1
      ensures ReportedStatus(log[i]).None?
    {
      assert log[i] in log;
    }
  }

  // ---------------------------------------------------------------- every step keeps the invariant

  /** A client that moved on keeps everything said about remembered cursors, replies and the wire. */
  lemma RisingBaseKeeps(s: System, t: System)
    requires Inv(s) && t == s.(store := t.store) && StoreInv(t) && s.store.LatestOrZero() <= t.store.LatestOrZero()
    ensures Inv(t)
  {
    assert Base(s) <= Base(t);
    RemovedFactsTransfer(s, t);
    forall r | r in t.replies
      ensures ReplyInv(t, r)
    {
      assert ReplyInv(s, r);
    }
    assert StreamInv(t) by {
      if s.stream.Some? && s.stream.value.server.Live? {
        var c := s.stream.value;
        CoveredAbove(s, Base(s), Base(t), c.wire, Max(c.cursor, s.floor));
        CoveredTransfers(s, t, Base(t), c.wire, Max(c.cursor, s.floor));
      }
    }
  }

  lemma RemovedFactsTransfer(s: System, t: System)
    requires s.log == t.log && s.removed == t.removed
    ensures forall mark :: NothingMissing(s, mark) <==> NothingMissing(t, mark)
  {
  }

  lemma AppendKeepsReply(s: System, fact: Fact, r: Snapshot)
    requires TableInv(s) && LastId(s.log) < fact.id && ReplyInv(s, r)
    ensures ReplyInv(s.(log := s.log + [fact]), r)
  {
    FoldIgnoresLaterRow(s.log, fact, r.cursor, s.first);
  }

  lemma AppendKeepsStore(s: System, fact: Fact)
    requires TableInv(s) && LastId(s.log) < fact.id && StoreInv(s)
    ensures StoreInv(s.(log := s.log + [fact]))
  {
    var log := s.log + [fact];
    assert LastId(log) == fact.id;
    if s.store.projectedStatus.Some? {
      FoldIgnoresLaterRow(s.log, fact, s.store.projectedStatus.value, s.first);
    }
  }

  lemma AppendKeepsTable(s: System, fact: Fact)
    requires TableInv(s) && Enabled(s, Append(fact))
    ensures TableInv(Next(s, Append(fact)))
    ensures forall mark :: NothingMissing(s, mark) ==> NothingMissing(Next(s, Append(fact)), mark)
  {
  }

  lemma AppendKeeps(s: System, fact: Fact)
    requires Inv(s) && Enabled(s, Append(fact))
    ensures Inv(Next(s, Append(fact)))
  {
    var t := Next(s, Append(fact));
    AppendKeepsTable(s, fact);
    AppendKeepsStore(s, fact);
    assert s.floor <= LastId(s.log) && ValidLog(s.log);
    hide ProjectionInv, TableInv, NothingMissing;
    assert LastId(t.log) == fact.id && Base(t) == Base(s);
    forall r | r in s.replies
      ensures ReplyInv(t, r)
    {
      AppendKeepsReply(s, fact, r);
    }
    AppendKeepsCursor(s, fact, s.query);
    AppendKeepsCursor(s, fact, s.header);
    if s.stream.Some? && s.stream.value.server.Opening? {
      AppendKeepsCursor(s, fact, s.stream.value.server.lastEventId);
    }
    assert StreamInv(t) by {
      if s.stream.Some? && s.stream.value.server.Live? {
        var c := s.stream.value;
        CoveredSurvivesAppend(s, fact, Base(s), c.wire, Max(c.cursor, s.floor));
      }
    }
  }

  lemma AppendKeepsCursor(s: System, fact: Fact, cursor: Option<nat>)
    requires TableInv(s) && LastId(s.log) < fact.id && CursorInv(s, cursor)
    ensures CursorInv(s.(log := s.log + [fact]), cursor)
  {
  }

  lemma TrimKeeps(s: System, ids: set<nat>)
    requires Inv(s) && Enabled(s, Trim(ids)) && HoleFree(s, Trim(ids))
    ensures Inv(Next(s, Trim(ids)))
  {
    var t := Next(s, Trim(ids));
    assert forall r :: r in s.replies ==> ReplyInv(s, r) && ReplyInv(t, r);
    if s.stream.Some? && s.stream.value.server.Live? {
      var c := s.stream.value;
      CoveredTransfers(s, t, Base(s), c.wire, Max(c.cursor, s.floor));
    }
  }

  lemma ConnectKeeps(s: System, step: Step)
    requires Inv(s) && Enabled(s, step) && (step.Open? || step.Reconnect? || step.Disconnect?)
    ensures Inv(Next(s, step))
  {
    hide Quiet;
    var t := Next(s, step);
    assert Base(t) == Base(s);
    assert forall r :: r in s.replies ==> ReplyInv(s, r) && ReplyInv(t, r);
    if step.Open? && s.store.latest.Some? {
      NothingBelow(s.log, Base(s), s.store.latest.value);
    }
  }

  lemma NothingBelow(log: seq<Fact>, low: nat, high: nat)
    requires high <= low
    ensures Quiet(log, low, high)
  {
  }

  /** A replay that begins without a hole leaves the client accountable from the new floor on. */
  lemma NewFloorKeepsStore(s: System, floor: nat)
    requires Inv(s) && s.floor <= floor && (s.store.projectedStatus.Some? ==> NothingMissing(s, s.store.LatestOrZero()))
    requires forall i :: 0 <= i < |s.log| && s.log[i].id <= floor ==> s.log[i].id in s.removed
    ensures ProjectionInv(s.log, s.first, floor, s.store)
  {
  }

  lemma NewFloorKeepsReply(s: System, floor: nat, r: Snapshot)
    requires ReplyInv(s, r) && (Acceptable(s.store, r) ==> NothingMissing(s, r.cursor))
    requires forall i :: 0 <= i < |s.log| && s.log[i].id <= floor ==> s.log[i].id in s.removed
    ensures ReplyInv(s.(floor := floor), r)
  {
  }

  lemma NewFloorKeepsCursor(s: System, floor: nat, cursor: Option<nat>)
    requires CursorInv(s, cursor) && s.floor <= floor
    ensures CursorInv(s.(floor := floor), cursor)
  {
    assert Base(s) <= Base(s.(floor := floor));
  }

  lemma ReadOldestKeeps(s: System)
    requires Inv(s) && Enabled(s, ReadOldest) && HoleFree(s, ReadOldest)
    ensures Inv(Next(s, ReadOldest))
  {
    hide Retained, ProjectionInv, CursorInv, ReplyInv;
    var t, floor := Next(s, ReadOldest), NewFloor(s);
    NewFloorIsExact(s);
    hide NewFloor;
    if Decision(s).ReplayAfter? {
      NewFloorKeepsStore(s, floor);
      var moved := s.(floor := floor);
      NewFloorKeepsCursor(s, floor, s.query);
      NewFloorKeepsCursor(s, floor, s.header);
      NewFloorKeepsCursor(s, floor, s.stream.value.server.lastEventId);
      ReplayStarts(moved, s.stream.value.server.lastEventId);
      RemovedFactsTransfer(s, t);
      forall r | r in s.replies
        ensures ReplyInv(t, r)
      {
        NewFloorKeepsReply(s, floor, r);
        ReplyReadsStore(moved, t, r);
      }
      CursorReadsStore(moved, t, s.query);
      CursorReadsStore(moved, t, s.header);
    } else {
      GapKeeps(s, t);
    }
  }

  lemma ReplyReadsStore(s: System, t: System, r: Snapshot)
    requires t == s.(stream := t.stream) && ReplyInv(s, r)
    ensures ReplyInv(t, r)
  {
  }

  lemma CursorReadsStore(s: System, t: System, cursor: Option<nat>)
    requires t == s.(stream := t.stream) && CursorInv(s, cursor)
    ensures CursorInv(t, cursor)
  {
  }

  lemma GapKeeps(s: System, t: System)
    requires Inv(s) && t == s.(stream := Some(Connection(Gap, 0, [])))
    ensures Inv(t)
  {
    assert forall r :: r in s.replies ==> ReplyInv(s, r) && ReplyInv(t, r);
  }

  /** With nothing read yet, what lies up to the start is quiet above the base. */
  lemma ReplayStarts(s: System, lastEventId: Option<nat>)
    requires CursorInv(s, lastEventId)
    ensures Quiet(s.log, Base(s), Max(StartCursor(lastEventId), s.floor))
    ensures StartCursor(lastEventId) <= LastId(s.log)
  {
  }

  /** A snapshot read where no report is missing stands for the fold at its own cursor. */
  lemma SnapshotIsFold(s: System)
    requires TableInv(s) && NothingMissing(s, LastId(Retained(s)))
    ensures var c := LastId(Retained(s));
      c <= LastId(s.log) && Quiet(s.log, c, LastId(s.log)) && Quiet(s.log, c, s.floor)
    ensures CurrentSnapshot(s).status == FoldStatus(s.log, LastId(Retained(s)), s.first)
  {
    var retained := Retained(s);
    WithoutIsExact(s.log, s.removed);
    assert retained != [] ==> retained[|retained| - 1] in retained;
    assert forall j :: 0 <= j < |retained| ==> retained[j].id <= LastId(retained);
    forall i | 0 <= i < |s.log| && LastId(retained) < s.log[i].id
      ensures s.log[i].id in s.removed
    {
      assert s.log[i] in s.log;
    }
    QuietKeepsFold(s.log, LastId(retained), LastId(s.log), s.first);
  }

  lemma SendSnapshotKeeps(s: System)
    requires Inv(s) && Enabled(s, SendSnapshot) && HoleFree(s, SendSnapshot)
    ensures Inv(Next(s, SendSnapshot))
  {
    SnapshotIsFold(s);
    hide Retained, ProjectionInv, NothingMissing;
    var t, snapshot := Next(s, SendSnapshot), CurrentSnapshot(s);
    var wire := t.stream.value.wire;
    assert wire == [SnapshotMessage(snapshot.cursor, snapshot)] && wire[1..] == [];
    RemovedFactsTransfer(s, t);
    NothingMissingAbove(s, snapshot.cursor, Max(snapshot.cursor, s.floor));
    assert Quiet(t.log, Max(Base(t), snapshot.cursor), Max(snapshot.cursor, s.floor));
    assert Covered(t, Max(Base(t), snapshot.cursor), [], Max(snapshot.cursor, s.floor));
    assert Covered(t, Base(t), wire, Max(snapshot.cursor, s.floor));
    assert forall r :: r in s.replies ==> ReplyInv(s, r) && ReplyInv(t, r);
  }

  lemma NothingMissingAbove(s: System, mark: nat, higher: nat)
    requires mark <= higher && NothingMissing(s, mark)
    ensures NothingMissing(s, higher)
  {
  }

  /** What one poll reads: rows above the reach, with every report there. */
  lemma PollReadsReports(s: System, cursor: nat)
    requires TableInv(s) && NothingMissing(s, Max(cursor, s.floor))
    ensures var rows, reach := EventsAfter(Retained(s), cursor), Max(cursor, s.floor);
      && ValidLog(rows) && (forall f :: f in rows ==> f in s.log && f.id > reach)
      && (forall f :: f in s.log && f.id > reach && ReportedStatus(f).Some? ==> f in rows)
  {
    WithoutIsExact(s.log, s.removed);
    EventsAfterIsExact(Retained(s), cursor);
  }

  /** The rows one poll adds, and how far they carry the reach. */
  lemma PollExtendsCoverage(s: System, base: nat, c: Connection)
    requires TableInv(s) && NothingMissing(s, Max(c.cursor, s.floor)) && Max(c.cursor, s.floor) <= LastId(s.log)
    requires Covered(s, base, c.wire, Max(c.cursor, s.floor))
    ensures var rows := EventsAfter(Retained(s), c.cursor);
      var reach := if rows == [] then Max(c.cursor, s.floor) else LastId(rows);
      && Max(c.cursor, s.floor) <= reach <= LastId(s.log)
      && Covered(s, base, c.wire + PublishedAll(rows), reach)
  {
    var reach := Max(c.cursor, s.floor);
    var rows := EventsAfter(Retained(s), c.cursor);
    PollReadsReports(s, c.cursor);
    hide EventsAfter, Retained, Covered, NothingMissing, ValidLog;
    CoveredExtendsAll(s, base, c.wire, reach, rows, |rows|);
    assert rows[..|rows|] == rows;
    if rows != [] {
      assert rows[|rows| - 1] in rows;
      LastIsHighest(s.log, rows[|rows| - 1]);
    }
  }

  lemma LastIsHighest(log: seq<Fact>, fact: Fact)
    requires ValidLog(log) && fact in log
    ensures fact.id <= LastId(log)
  {
  }

  lemma PollKeeps(s: System)
    requires Inv(s) && Enabled(s, Poll)
    ensures Inv(Next(s, Poll))
  {
    var t, c := Next(s, Poll), s.stream.value;
    PollExtendsCoverage(s, Base(s), c);
    hide Retained, EventsAfter, Covered, ProjectionInv, TableInv, NothingMissing, Quiet;
    var rows := EventsAfter(Retained(s), c.cursor);
    var reach := if rows == [] then Max(c.cursor, s.floor) else LastId(rows);
    assert t.stream.value.wire == c.wire + PublishedAll(rows);
    CoveredTransfers(s, t, Base(s), t.stream.value.wire, reach);
    assert Base(t) == Base(s) && Max(t.stream.value.cursor, t.floor) == reach;
    RemovedFactsTransfer(s, t);
    NothingMissingAbove(s, Max(c.cursor, s.floor), reach);
    TableReadsLog(s, t);
    assert forall r :: r in s.replies ==> ReplyInv(s, r) && ReplyInv(t, r);
  }

  lemma TableReadsLog(s: System, t: System)
    requires s.log == t.log && s.removed == t.removed && s.floor == t.floor && TableInv(s)
    ensures TableInv(t)
  {
  }

  lemma QuietThrough(log: seq<Fact>, low: nat, row: nat)
    requires ValidLog(log) && row < |log| && ReportedStatus(log[row]).None?
    requires log[row].id <= low || Quiet(log, low, log[row].id - 1)
    ensures Quiet(log, low, log[row].id)
  {
  }

  /** An event that reports no status only moves the cursor. */
  lemma QuietEventKeeps(log: seq<Fact>, first: TaskStatus, floor: nat, p: Projection, row: nat)
    requires ValidLog(log) && ProjectionInv(log, first, floor, p) && row < |log|
    requires floor < log[row].id && Quiet(log, BaseOf(p, floor), log[row].id - 1)
    requires !p.AlreadyApplied(log[row].id) && ReportedStatus(log[row]).None?
    ensures var q := p.ApplyEvent(Published(log[row]));
      ProjectionInv(log, first, floor, q) && BaseOf(q, floor) == Max(BaseOf(p, floor), log[row].id)
  {
    var q, low := p.ApplyEvent(Published(log[row])), if p.projectedStatus.Some? then p.projectedStatus.value else floor;
    assert log[row].id <= LastId(log);
    assert q.projectedStatus == p.projectedStatus && (p.status.Some? ==> q.status == p.status);
    QuietThrough(log, BaseOf(p, floor), row);
    assert q.LatestOrZero() == Max(p.LatestOrZero(), log[row].id);
    assert Quiet(log, low, q.LatestOrZero());
  }

  lemma ReportedEventKeeps(log: seq<Fact>, first: TaskStatus, floor: nat, p: Projection, row: nat)
    requires ValidLog(log) && ProjectionInv(log, first, floor, p) && row < |log|
    requires floor < log[row].id && Quiet(log, BaseOf(p, floor), log[row].id - 1)
    requires !p.AlreadyApplied(log[row].id) && ReportedStatus(log[row]).Some?
    ensures var q := p.ApplyEvent(Published(log[row]));
      ProjectionInv(log, first, floor, q) && BaseOf(q, floor) == Max(BaseOf(p, floor), log[row].id)
  {
    var q := p.ApplyEvent(Published(log[row]));
    assert log[row].id <= LastId(log);
    assert q.LatestOrZero() == Max(p.LatestOrZero(), log[row].id);
    if p.projectedStatus.None? || log[row].id >= p.projectedStatus.value {
      FoldAtRow(log, row, first);
      assert q.projectedStatus == Some(log[row].id) && q.status == ReportedStatus(log[row]);
    } else {
      assert q.projectedStatus == p.projectedStatus && q.status == p.status;
    }
  }

  /** One heard event: the store moves exactly to it, never past an unseen status. */
  lemma HeardEventKeeps(log: seq<Fact>, first: TaskStatus, floor: nat, p: Projection, row: nat)
    requires ValidLog(log) && ProjectionInv(log, first, floor, p) && row < |log|
    requires floor < log[row].id && Quiet(log, BaseOf(p, floor), log[row].id - 1)
    ensures var q := p.ApplyEvent(Published(log[row]));
      ProjectionInv(log, first, floor, q) && BaseOf(q, floor) == Max(BaseOf(p, floor), log[row].id)
  {
    if !p.AlreadyApplied(log[row].id) {
      if ReportedStatus(log[row]).Some? {
        ReportedEventKeeps(log, first, floor, p, row);
      } else {
        QuietEventKeeps(log, first, floor, p, row);
      }
    }
  }

  lemma HeardSnapshotKeeps(log: seq<Fact>, first: TaskStatus, floor: nat, p: Projection, snapshot: Snapshot)
    requires ProjectionInv(log, first, floor, p) && snapshot.cursor <= LastId(log) && Quiet(log, snapshot.cursor, floor)
    requires snapshot.status == FoldStatus(log, snapshot.cursor, first)
    ensures var q := p.ApplyEvent(SnapshotMessage(snapshot.cursor, snapshot));
      ProjectionInv(log, first, floor, q) && BaseOf(q, floor) == Max(BaseOf(p, floor), snapshot.cursor)
  {
  }

  lemma AcceptedReplyKeeps(log: seq<Fact>, first: TaskStatus, floor: nat, p: Projection, snapshot: Snapshot)
    requires ProjectionInv(log, first, floor, p) && snapshot.cursor <= LastId(log)
    requires Acceptable(p, snapshot) ==> Quiet(log, snapshot.cursor, floor)
    requires snapshot.status == FoldStatus(log, snapshot.cursor, first)
    ensures var q := p.SetTask(snapshot);
      ProjectionInv(log, first, floor, q) && p.LatestOrZero() <= q.LatestOrZero()
  {
  }

  /** What delivering the head of the wire does to the store and to the covered remainder. */
  lemma DeliveryMoves(s: System, m: Message, rest: seq<Message>, reach: nat)
    requires ValidLog(s.log) && StoreInv(s) && Covered(s, Base(s), [m] + rest, reach)
    ensures var q := if Heard(m) then s.store.ApplyEvent(m) else s.store;
      && ProjectionInv(s.log, s.first, s.floor, q)
      && s.store.LatestOrZero() <= q.LatestOrZero()
      && m.sequence <= LastId(s.log) && Quiet(s.log, BaseOf(q, s.floor), m.sequence)
      && Covered(s, BaseOf(q, s.floor), rest, reach)
  {
    assert ([m] + rest)[1..] == rest;
    LatestNeverDecreases(s.store, m, CurrentSnapshot(s), None);
    hide FoldStatus, ProjectionInv, Projection.ApplyEvent;
    if m.SnapshotMessage? {
      HeardSnapshotKeeps(s.log, s.first, s.floor, s.store, m.snapshot);
    } else {
      var i :| 0 <= i < |s.log| && m == Published(s.log[i]);
      if Heard(m) {
        HeardEventKeeps(s.log, s.first, s.floor, s.store, i);
      } else {
        UnheardIsQuiet(s.log, Base(s), i);
        CoveredBelow(s, Base(s), Max(Base(s), m.sequence), rest, reach);
      }
    }
  }

  /** A row that nobody listens to reports no status. */
  lemma UnheardIsQuiet(log: seq<Fact>, low: nat, row: nat)
    requires ValidLog(log) && row < |log| && !Heard(Published(log[row])) && Quiet(log, low, log[row].id - 1)
    ensures Quiet(log, low, log[row].id) && log[row].id <= LastId(log)
  {
    assert forall j :: 0 <= j < |log| && log[j].id == log[row].id ==> j == row;
  }

  lemma DeliverKeeps(s: System, again: bool)
    requires Inv(s) && Enabled(s, Deliver(again))
    ensures Inv(Next(s, Deliver(again)))
  {
    var t, c := Next(s, Deliver(again)), s.stream.value;
    var m, rest, reach := c.wire[0], c.wire[1..], Max(c.cursor, s.floor);
    assert c.wire == [m] + rest;
    DeliveryMoves(s, m, rest, reach);
    var moved := s.(store := t.store);
    hide Covered, ProjectionInv, TableInv, NothingMissing, Quiet, Projection.ApplyEvent;
    RisingBaseKeeps(s, moved);
    CoveredTransfers(s, t, Base(t), rest, reach);
    CoveredTransfers(moved, t, Base(t), c.wire, reach);
    RemovedFactsTransfer(s, t);
    TableReadsLog(s, t);
    assert t == moved.(header := Some(m.sequence), stream := t.stream);
    forall r | r in t.replies
      ensures ReplyInv(t, r)
    {
      assert ReplyInv(moved, r);
    }
  }

  lemma NewRepliesKeep(s: System, replies: set<Snapshot>)
    requires Inv(s) && forall r :: r in replies ==> ReplyInv(s, r)
    ensures Inv(s.(replies := replies))
  {
    var t := s.(replies := replies);
    assert forall r :: r in t.replies ==> ReplyInv(t, r);
    if s.stream.Some? && s.stream.value.server.Live? {
      var c := s.stream.value;
      CoveredTransfers(s, t, Base(t), c.wire, Max(c.cursor, s.floor));
    }
  }

  lemma RequestKeeps(s: System)
    requires Inv(s) && HoleFree(s, Request)
    ensures Inv(Next(s, Request))
  {
    SnapshotIsFold(s);
    assert ReplyInv(s, CurrentSnapshot(s));
    NewRepliesKeep(s, s.replies + {CurrentSnapshot(s)});
  }

  lemma ReplyKeeps(s: System, step: Step)
    requires Inv(s) && Enabled(s, step) && (step.Reply? || step.LoseReply?)
    ensures Inv(Next(s, step))
  {
    var t, snapshot := Next(s, step), step.snapshot;
    assert ReplyInv(s, snapshot);
    NewRepliesKeep(s, t.replies);
    if t.store == s.store.SetTask(snapshot) {
      AcceptedReplyKeeps(s.log, s.first, s.floor, s.store, snapshot);
      RisingBaseKeeps(s.(replies := t.replies), s.(replies := t.replies, store := t.store));
    } else {
      assert t.store == s.store;
    }
    assert t == s.(replies := t.replies, store := t.store);
  }

  lemma StepKeeps(s: System, step: Step)
    requires Inv(s) && Enabled(s, step) && HoleFree(s, step)
    ensures Inv(Next(s, step))
  {
    match step
    case Append(fact) => AppendKeeps(s, fact);
    case Trim(ids) => TrimKeeps(s, ids);
    case Open => ConnectKeeps(s, step);
    case Reconnect => ConnectKeeps(s, step);
    case Disconnect => ConnectKeeps(s, step);
    case ReadOldest => ReadOldestKeeps(s);
    case SendSnapshot => SendSnapshotKeeps(s);
    case Poll => PollKeeps(s);
    case Deliver(again) => DeliverKeeps(s, again);
    case Request => RequestKeeps(s);
    case Reply(_, _) => ReplyKeeps(s, step);
    case LoseReply(_) => ReplyKeeps(s, step);
  }

  lemma {:induction false} RunsKeepInvariant(s: System, steps: seq<Step>)
    requires Inv(s) && Runs(s, steps)
    ensures Inv(After(s, steps))
    decreases |steps|
  {
    if steps != [] {
      StepKeeps(s, steps[0]);
      RunsKeepInvariant(Next(s, steps[0]), steps[1..]);
    }
  }

  // ---------------------------------------------------------------- main results

  /**
   * In every run of appends, removals, connects, disconnects, duplicate deliveries, gap snapshots and
   * REST replies that opens no hole, a status the client has projected is the fold of the audit log up
   * to the client's own cursor.
   */
  lemma ProjectedStatusIsLogFold(first: TaskStatus, steps: seq<Step>)
    requires Runs(Initial(first), steps)
    ensures var s := After(Initial(first), steps);
      s.store.projectedStatus.Some? ==>
        s.store.latest.Some? && s.store.status == Some(FoldStatus(s.log, s.store.latest.value, first))
  {
    RunsKeepInvariant(Initial(first), steps);
    var s := After(Initial(first), steps);
    FirstStatusIsFixed(Initial(first), steps);
    if s.store.projectedStatus.Some? {
      QuietKeepsFold(s.log, s.store.projectedStatus.value, s.store.latest.value, first);
    }
  }

  lemma {:induction false} FirstStatusIsFixed(s: System, steps: seq<Step>)
    requires Runs(s, steps)
    ensures After(s, steps).first == s.first
    decreases |steps|
  {
    if steps != [] {
      FirstStatusIsFixed(Next(s, steps[0]), steps[1..]);
    }
  }

  /** The client's cursor never decreases, with or without holes. */
  lemma CursorNeverDecreases(s: System, step: Step)
    requires Enabled(s, step)
    ensures s.store.latest.Some? ==>
      Next(s, step).store.latest.Some? && s.store.latest.value <= Next(s, step).store.latest.value
  {
    if step.Deliver? {
      LatestNeverDecreases(s.store, s.stream.value.wire[0], CurrentSnapshot(s), None);
    }
  }

  /** A live stream whose wire is empty and whose next read would find nothing. */
  ghost predicate Drained(s: System) {
    && s.stream.Some? && s.stream.value.server.Live? && s.stream.value.wire == []
    && EventsAfter(Retained(s), s.stream.value.cursor) == []
  }

  /**
   * A live stream with nothing on the wire and nothing left to read leaves the client with the status of
   * the whole log.
   */
  lemma DrainedStreamIsCaughtUp(first: TaskStatus, steps: seq<Step>)
    requires Runs(Initial(first), steps)
    requires var s := After(Initial(first), steps); Drained(s) && s.store.projectedStatus.Some?
    ensures var s := After(Initial(first), steps);
      s.store.status == Some(FoldStatus(s.log, LastId(s.log), first))
  {
    RunsKeepInvariant(Initial(first), steps);
    FirstStatusIsFixed(Initial(first), steps);
    DrainedIsCaughtUp(After(Initial(first), steps));
  }

  /** With nothing to read above the cursor, no report lies above what the client has seen. */
  lemma NothingIsLeftToRead(s: System, cursor: nat)
    requires TableInv(s) && NothingMissing(s, Max(cursor, s.floor)) && EventsAfter(Retained(s), cursor) == []
    requires StoreInv(s) && s.store.projectedStatus.Some? && Quiet(s.log, Base(s), Max(cursor, s.floor))
    ensures Quiet(s.log, s.store.latest.value, LastId(s.log)) && s.store.latest.value <= LastId(s.log)
  {
    PollReadsReports(s, cursor);
    hide EventsAfter, Retained;
    assert forall i :: 0 <= i < |s.log| ==> s.log[i] in s.log;
  }

  // ---------------------------------------------------------------- where a connection resumes

  /** A new `EventSource` starts at the store's cursor, and starts there again until something was delivered. */
  lemma OpensAtTheStore(s: System)
    ensures var t := Next(s, Open);
      && t.stream == Some(Connection(Opening(s.store.latest), 0, []))
      && Next(Next(t, Disconnect), Reconnect).stream == t.stream
  {
  }

  /** A connection that breaks after a delivery resumes right after what was delivered, heard or not. */
  lemma ResumesAfterDelivery(s: System, again: bool)
    requires Enabled(s, Deliver(again))
    ensures var t := Next(Next(Next(s, Deliver(again)), Disconnect), Reconnect);
      t.stream == Some(Connection(Opening(Some(s.stream.value.wire[0].sequence)), 0, []))
  {
  }

  // ---------------------------------------------------------------- a client left alone catches up

  lemma NothingAfterLast(rows: seq<Fact>, cursor: nat)
    requires ValidLog(rows)
    ensures var newer := EventsAfter(rows, cursor);
      EventsAfter(rows, if newer == [] then cursor else LastId(newer)) == []
  {
    var newer := EventsAfter(rows, cursor);
    EventsAfterIsExact(rows, cursor);
    if newer != [] {
      var last := LastId(newer);
      EventsAfterIsExact(rows, last);
      var beyond := EventsAfter(rows, last);
      hide EventsAfter;
      assert newer[|newer| - 1] in newer;
      if beyond != [] {
        assert beyond[0] in beyond;
        LastIsHighest(newer, beyond[0]);
      }
    }
  }

  /** Delivering everything on the wire empties it and changes neither the table nor the server's cursor. */
  lemma {:induction false} WireDrains(s: System) returns (steps: seq<Step>)
    requires s.stream.Some? && s.stream.value.server.Live?
    ensures Runs(s, steps)
    ensures var t := After(s, steps);
      t.log == s.log && t.removed == s.removed && t.first == s.first &&
      t.stream == Some(s.stream.value.(wire := []))
    decreases |s.stream.value.wire|
  {
    if s.stream.value.wire == [] {
      steps := [];
    } else {
      var rest := WireDrains(Next(s, Deliver(false)));
      steps := [Deliver(false)] + rest;
      assert steps[1..] == rest;
    }
  }

  /**
   * From every state that a hole-free run can reach with a live stream, one read and the deliveries that
   * follow bring the client to the status of the whole log, if it has projected one by then.
   */
  lemma LiveClientCatchesUp(s: System) returns (steps: seq<Step>)
    requires Inv(s) && s.stream.Some? && s.stream.value.server.Live?
    ensures Runs(s, steps)
    ensures var t := After(s, steps);
      && t.log == s.log && Drained(t)
      && (t.store.projectedStatus.Some? ==> t.store.status == Some(FoldStatus(s.log, LastId(s.log), s.first)))
  {
    var polled := Next(s, Poll);
    var rest := WireDrains(polled);
    steps := [Poll] + rest;
    assert steps[1..] == rest && After(s, steps) == After(polled, rest);
    assert ValidLog(Retained(s)) by { WithoutIsExact(s.log, s.removed); }
    NothingAfterLast(Retained(s), s.stream.value.cursor);
    PollKeeps(s);
    RunsKeepInvariant(polled, rest);
    DrainedIsCaughtUp(After(polled, rest));
  }

  lemma DrainedIsCaughtUp(s: System)
    requires Inv(s) && Drained(s)
    ensures s.store.projectedStatus.Some? ==> s.store.status == Some(FoldStatus(s.log, LastId(s.log), s.first))
  {
    if s.store.projectedStatus.Some? {
      NothingIsLeftToRead(s, s.stream.value.cursor);
      QuietKeepsFold(s.log, s.store.projectedStatus.value, s.store.latest.value, s.first);
      QuietKeepsFold(s.log, s.store.latest.value, LastId(s.log), s.first);
    }
  }

  // ---------------------------------------------------------------- runs that open no hole

  /**
   * Where retention removes a beginning of the log and the opening has a cursor and a retained row, the
   * gap check leaves no hole of its own: only a REST response in flight can still be overtaken.
   */
  lemma CursorAndRowLeaveNoHole(s: System)
    requires Inv(s) && s.stream.Some? && s.stream.value.server.Opening? && s.stream.value.server.lastEventId.Some?
    requires Retained(s) != []
    requires forall i, j :: 0 <= i < j < |s.log| && s.log[j].id in s.removed ==> s.log[i].id in s.removed
    requires forall r :: r in s.replies && Acceptable(s.store, r) ==> NothingMissing(s, r.cursor)
    ensures HoleFree(s, ReadOldest)
  {
    var retained := Retained(s);
    OldestIsRetained(s);
    hide Retained, Without;
    if Decision(s).ReplayAfter? {
      var k :| 0 <= k < |s.log| && s.log[k] == retained[0];
      forall i | 0 <= i < |s.log| && s.log[i].id in s.removed
        ensures s.log[i].id < retained[0].id
      {
        assert i < k;
      }
    }
  }

  // ---------------------------------------------------------------- one losing run for each kind of hole

  /** A replay found nothing to send; then a row that reports no status is appended, read and delivered. */
  function AfterBlindOpening(s: System, fact: Fact): System
    requires Enabled(s, ReadOldest) && Decision(s).ReplayAfter? && Enabled(s, Append(fact))
  {
    var read := Next(Next(Next(s, ReadOldest), Append(fact)), Poll);
    if Enabled(read, Deliver(false)) then Next(read, Deliver(false)) else read
  }

  lemma BlindOpeningReads(s: System, fact: Fact)
    requires Inv(s) && Enabled(s, ReadOldest) && Decision(s).ReplayAfter? && Enabled(s, Append(fact))
    requires EventsAfter(Retained(s), Decision(s).cursor) == []
    ensures Next(Next(Next(s, ReadOldest), Append(fact)), Poll) == s.(log := s.log + [fact], floor := NewFloor(s),
      stream := Some(Connection(Live, fact.id, [Published(fact)])))
  {
    var t, cursor := Next(Next(s, ReadOldest), Append(fact)), Decision(s).cursor;
    assert CursorInv(s, s.stream.value.server.lastEventId);
    assert cursor < fact.id && fact.id !in s.removed;
    assert t == s.(log := s.log + [fact], floor := NewFloor(s), stream := Some(Connection(Live, cursor, [])));
    OnlyNewRowIsRead(s.log, s.removed, cursor, fact);
    hide EventsAfter, Without, NewFloor, Inv, Decision;
    assert [] + PublishedAll([fact]) == [Published(fact)];
  }

  lemma OnlyNewRowIsRead(log: seq<Fact>, removed: set<nat>, cursor: nat, fact: Fact)
    requires EventsAfter(Without(log, removed), cursor) == [] && cursor < fact.id && fact.id !in removed
    ensures EventsAfter(Without(log + [fact], removed), cursor) == [fact]
  {
    var rows := Without(log, removed);
    assert (log + [fact])[..|log|] == log && (rows + [fact])[..|rows|] == rows;
    assert Without(log + [fact], removed) == rows + [fact];
  }

  /**
   * Where an opening that sends no gap snapshot finds nothing to replay, the next row that reports
   * nothing moves the client's cursor past everything, and the client is right then if and only if it
   * already showed the status of the whole log before it opened.
   */
  lemma BlindOpeningDecides(s: System, fact: Fact)
    requires Inv(s) && Enabled(s, ReadOldest) && Decision(s).ReplayAfter? && Enabled(s, Append(fact))
    requires EventsAfter(Retained(s), Decision(s).cursor) == [] && s.store.projectedStatus.Some?
    requires Heard(Published(fact)) && ReportedStatus(fact).None?
    ensures var t := AfterBlindOpening(s, fact);
      && t.store.latest == Some(fact.id) && t.log == s.log + [fact]
      && (t.store.status == Some(FoldStatus(t.log, fact.id, t.first)) <==>
          s.store.status == Some(FoldStatus(s.log, LastId(s.log), s.first)))
  {
    BlindOpeningReads(s, fact);
    FreshRowIsNoted(s, fact);
    QuietRowKeepsFold(s.log, fact, s.first);
    hide EventsAfter, Retained, Without, NewFloor, Inv, FoldStatus, Projection.ApplyEvent, Decision, LastId;
  }

  lemma FreshRowIsNoted(s: System, fact: Fact)
    requires Inv(s) && Enabled(s, Append(fact)) && ReportedStatus(fact).None?
    requires Heard(Published(fact)) && s.store.projectedStatus.Some?
    ensures s.store.ApplyEvent(Published(fact)) == s.store.Note(fact.id)
    ensures s.store.Note(fact.id).latest == Some(fact.id) && s.store.Note(fact.id).status == s.store.status
  {
    hide FoldStatus, ValidLog, Quiet;
    assert s.store.LatestOrZero() < fact.id && !s.store.AlreadyApplied(fact.id);
  }

  lemma QuietRowKeepsFold(log: seq<Fact>, fact: Fact, first: TaskStatus)
    requires ValidLog(log) && LastId(log) < fact.id && ReportedStatus(fact).None?
    ensures FoldStatus(log + [fact], fact.id, first) == FoldStatus(log, LastId(log), first)
  {
    assert (log + [fact])[..|log|] == log;
    QuietKeepsFold(log, LastId(log), fact.id, first);
  }

  lemma {:induction false} Continues(s: System, front: seq<Step>, back: seq<Step>)
    requires Executes(s, front) && Executes(After(s, front), back)
    ensures Executes(s, front + back) && After(s, front + back) == After(After(s, front), back)
    decreases |front|
  {
    if front == [] {
      assert front + back == back;
    } else {
      assert (front + back)[1..] == front[1..] + back;
      Continues(Next(s, front[0]), front[1..], back);
    }
  }

  lemma OneStep(s: System, front: seq<Step>, step: Step)
    requires Executes(s, front) && Enabled(After(s, front), step)
    ensures Executes(s, front + [step]) && After(s, front + [step]) == Next(After(s, front), step)
  {
    assert [step][1..] == [];
    Continues(s, front, [step]);
  }

  const STARTED := Fact(1, TaskLifecycle, Some(Running), false)
  const FINISHED := Fact(2, TaskLifecycle, Some(Succeeded), false)
  const NOTICE := Fact(3, Verbatim(OtherListened), None, false)

  ghost predicate LosesStatus(first: TaskStatus, steps: seq<Step>) {
    Executes(Initial(first), steps) &&
    var s := After(Initial(first), steps);
    s.store.latest.Some? && s.store.projectedStatus.Some? &&
    s.store.status != Some(FoldStatus(s.log, s.store.latest.value, first))
  }

  /** The table of three rows once FINISHED, or both reports, are gone. */
  lemma NoticeIsLeft(s: System, cursor: nat)
    requires s.log == [STARTED, FINISHED, NOTICE] && cursor <= 2
    requires s.removed == {1, 2} || (s.removed == {2} && cursor >= 1)
    ensures EventsAfter(Retained(s), cursor) == [NOTICE]
  {
    assert s.log[..2] == [STARTED, FINISHED] && [STARTED, FINISHED][..1] == [STARTED] && [STARTED][..0] == [];
    assert Without([STARTED], s.removed) == if 1 in s.removed then [] else [STARTED];
    assert Without([STARTED, FINISHED], s.removed) == Without([STARTED], s.removed);
    assert Retained(s) == Without([STARTED], s.removed) + [NOTICE];
    var front := Without([STARTED], s.removed);
    assert (front + [NOTICE])[..|front|] == front;
    assert EventsAfter(front, cursor) == [];
  }

  /** A read that finds NOTICE but not FINISHED shows it on top of STARTED. */
  lemma NoticeHidesFinish(first: TaskStatus, steps: seq<Step>)
    requires Executes(Initial(first), steps)
    requires var s := After(Initial(first), steps);
      && s.store.(snapshotCursor := None) == Projection(Some(Running), None, {1}, Some(1), Some(1))
      && (s.store.snapshotCursor.Some? ==> s.store.snapshotCursor.value == 1)
      && s.log == [STARTED, FINISHED, NOTICE] && s.stream.Some? && s.stream.value.server.Live?
      && s.stream.value.cursor <= 2 && s.stream.value.wire == []
      && (s.removed == {1, 2} || (s.removed == {2} && s.stream.value.cursor >= 1))
    ensures LosesStatus(first, steps + [Poll] + [Deliver(false)])
  {
    var s := After(Initial(first), steps);
    NoticeIsDelivered(s);
    OneStep(Initial(first), steps, Poll);
    OneStep(Initial(first), steps + [Poll], Deliver(false));
    FinishedIsTheFold(s.log, first);
  }

  lemma NoticeIsDelivered(s: System)
    requires s.log == [STARTED, FINISHED, NOTICE] && s.stream.Some? && s.stream.value.server.Live?
    requires s.stream.value.cursor <= 2 && s.stream.value.wire == []
    requires s.removed == {1, 2} || (s.removed == {2} && s.stream.value.cursor >= 1)
    requires !s.store.AlreadyApplied(3) && s.store.latest == Some(1)
    ensures Next(s, Poll) == s.(stream := Some(Connection(Live, 3, [Published(NOTICE)])))
    ensures Next(Next(s, Poll), Deliver(false)) ==
      s.(store := s.store.Note(3), header := Some(3), stream := Some(Connection(Live, 3, [])))
  {
    hide EventsAfter, Without, Retained;
    NoticeIsLeft(s, s.stream.value.cursor);
    assert PublishedAll([NOTICE]) == [Published(NOTICE)] && [Published(NOTICE)][1..] == [];
    assert s.stream.value.wire + [Published(NOTICE)] == [Published(NOTICE)];
  }

  lemma FinishedIsTheFold(log: seq<Fact>, first: TaskStatus)
    requires log == [STARTED, FINISHED, NOTICE]
    ensures FoldStatus(log, 3, first) == Succeeded
  {
    assert log[..2] == [STARTED, FINISHED];
  }

  lemma OnlyStartedIsLeft(s: System)
    requires s.log == [STARTED] && s.removed == {}
    ensures Retained(s) == [STARTED] && EventsAfter([STARTED], 0) == [STARTED]
    ensures CurrentSnapshot(s) == Snapshot(1, Running)
  {
    assert [STARTED][..0] == [];
    assert Without([], {}) == [] && EventsAfter([], 0) == [];
  }

  lemma StartedIsOnTheWire(first: TaskStatus) returns (steps: seq<Step>)
    ensures Executes(Initial(first), steps)
    ensures After(Initial(first), steps) ==
      System(first, [STARTED], {}, EMPTY, Some(Connection(Live, 1, [Published(STARTED)])), None, None, {}, 0)
  {
    var s := Initial(first);
    steps := [];
    OneStep(s, steps, Append(STARTED));
    steps := steps + [Append(STARTED)];
    assert After(s, steps) == s.(log := [STARTED]);
    OneStep(s, steps, Open);
    steps := steps + [Open];
    assert After(s, steps) == s.(log := [STARTED], stream := Some(Connection(Opening(None), 0, [])));
    OnlyStartedIsLeft(After(s, steps));
    OneStep(s, steps, ReadOldest);
    steps := steps + [ReadOldest];
    assert After(s, steps) == s.(log := [STARTED], stream := Some(Connection(Live, 0, [])));
    OnlyStartedIsLeft(After(s, steps));
    OneStep(s, steps, Poll);
    steps := steps + [Poll];
    assert [] + PublishedAll([STARTED]) == [Published(STARTED)];
  }

  const AFTER_STARTED := Projection(Some(Running), None, {1}, Some(1), Some(1))

  /** The client sees STARTED on a live stream. */
  lemma StartedIsSeen(first: TaskStatus) returns (steps: seq<Step>)
    ensures Executes(Initial(first), steps)
    ensures After(Initial(first), steps) ==
      System(first, [STARTED], {}, AFTER_STARTED, Some(Connection(Live, 1, [])), None, Some(1), {}, 0)
  {
    var s := Initial(first);
    steps := StartedIsOnTheWire(first);
    assert EMPTY.ApplyEvent(Published(STARTED)) == AFTER_STARTED && [Published(STARTED)][1..] == [];
    OneStep(s, steps, Deliver(false));
    steps := steps + [Deliver(false)];
  }

  /** A live stream loses a report that retention removes before it was read. */
  lemma LiveTrimLosesStatus(first: TaskStatus) returns (steps: seq<Step>)
    ensures LosesStatus(first, steps)
  {
    var s := Initial(first);
    steps := StartedIsSeen(first);
    OneStep(s, steps, Append(FINISHED));
    steps := steps + [Append(FINISHED)];
    OneStep(s, steps, Append(NOTICE));
    steps := steps + [Append(NOTICE)];
    OneStep(s, steps, Trim({2}));
    steps := steps + [Trim({2})];
    NoticeHidesFinish(first, steps);
    steps := steps + [Poll] + [Deliver(false)];
  }

  /**
   * The table of a disconnected task is emptied, so there is no oldest row and no gap snapshot, and a
   * later notice moves the cursor past a lost status.
   */
  lemma EmptiedLogLosesStatus(first: TaskStatus) returns (steps: seq<Step>)
    ensures LosesStatus(first, steps)
  {
    var s := Initial(first);
    steps := StartedIsSeen(first);
    OneStep(s, steps, Disconnect);
    steps := steps + [Disconnect];
    OneStep(s, steps, Append(FINISHED));
    steps := steps + [Append(FINISHED)];
    OneStep(s, steps, Trim({1, 2}));
    steps := steps + [Trim({1, 2})];
    OneStep(s, steps, Reconnect);
    steps := steps + [Reconnect];
    NothingIsLeft(After(s, steps));
    OneStep(s, steps, ReadOldest);
    steps := steps + [ReadOldest];
    OneStep(s, steps, Append(NOTICE));
    steps := steps + [Append(NOTICE)];
    NoticeHidesFinish(first, steps);
    steps := steps + [Poll] + [Deliver(false)];
  }

  lemma NothingIsLeft(s: System)
    requires s.log == [STARTED, FINISHED] && s.removed == {1, 2}
    ensures Retained(s) == []
  {
    assert s.log[..1] == [STARTED] && [STARTED][..0] == [];
    assert Without([STARTED], s.removed) == Without([], s.removed) == [];
  }

  /** STARTED is in the table, and a REST read of it is on its way. */
  lemma StartedIsRequested(first: TaskStatus) returns (steps: seq<Step>)
    ensures Executes(Initial(first), steps)
    ensures After(Initial(first), steps) ==
      Initial(first).(log := [STARTED], replies := {Snapshot(1, Running)})
  {
    var s := Initial(first);
    steps := [];
    OneStep(s, steps, Append(STARTED));
    steps := steps + [Append(STARTED)];
    OnlyStartedIsLeft(After(s, steps));
    hide CurrentSnapshot;
    OneStep(s, steps, Request);
    steps := steps + [Request];
  }

  /** Both later rows are appended, and the two reports are removed. */
  lemma ReportsAreRemoved(first: TaskStatus, front: seq<Step>) returns (steps: seq<Step>)
    requires Executes(Initial(first), front) && After(Initial(first), front).log == [STARTED]
    ensures Executes(Initial(first), steps)
    ensures After(Initial(first), steps) ==
      After(Initial(first), front).(log := [STARTED, FINISHED, NOTICE],
        removed := After(Initial(first), front).removed + {1, 2})
  {
    var s := Initial(first);
    steps := front;
    OneStep(s, steps, Append(FINISHED));
    steps := steps + [Append(FINISHED)];
    OneStep(s, steps, Append(NOTICE));
    steps := steps + [Append(NOTICE)];
    OneStep(s, steps, Trim({1, 2}));
    steps := steps + [Trim({1, 2})];
  }

  /** A cursorless replay of what is left begins live at zero. */
  lemma CursorlessReplay(s: System)
    requires s.log == [STARTED, FINISHED, NOTICE] && s.removed == {1, 2}
    requires s.stream == Some(Connection(Opening(None), 0, []))
    ensures Next(s, ReadOldest).stream == Some(Connection(Live, 0, []))
    ensures Next(s, ReadOldest) == s.(floor := NewFloor(s), stream := Some(Connection(Live, 0, [])))
  {
  }

  /**
   * A REST reply projects a status before the first event, retention moves on while the stream is down,
   * and the browser resumes with neither header nor query, so the gap check is skipped.
   */
  lemma CursorlessResumeLosesStatus(first: TaskStatus) returns (steps: seq<Step>)
    ensures LosesStatus(first, steps)
  {
    var s, reply := Initial(first), Snapshot(1, Running);
    steps := StartedIsRequested(first);
    OneStep(s, steps, Open);
    steps := steps + [Open];
    OneStep(s, steps, Reply(reply, None));
    steps := steps + [Reply(reply, None)];
    OneStep(s, steps, Disconnect);
    steps := steps + [Disconnect];
    steps := ReportsAreRemoved(first, steps);
    OneStep(s, steps, Reconnect);
    steps := steps + [Reconnect];
    CursorlessReplay(After(s, steps));
    OneStep(s, steps, ReadOldest);
    steps := steps + [ReadOldest];
    NoticeHidesFinish(first, steps);
    steps := steps + [Poll] + [Deliver(false)];
  }

  /**
   * A REST reply read before the reports were removed arrives after a first connection has begun to
   * replay what is left, and the store, which knows nothing newer, takes it.
   */
  lemma ReplyInFlightLosesStatus(first: TaskStatus) returns (steps: seq<Step>)
    ensures LosesStatus(first, steps)
  {
    var s, reply := Initial(first), Snapshot(1, Running);
    steps := StartedIsRequested(first);
    steps := ReportsAreRemoved(first, steps);
    OneStep(s, steps, Open);
    steps := steps + [Open];
    CursorlessReplay(After(s, steps));
    OneStep(s, steps, ReadOldest);
    steps := steps + [ReadOldest];
    OneStep(s, steps, Reply(reply, None));
    steps := steps + [Reply(reply, None)];
    NoticeHidesFinish(first, steps);
    steps := steps + [Poll] + [Deliver(false)];
  }

  /** A snapshot read without the newest report names an older cursor than its status has. */
  lemma SnapshotBehindItsStatus(first: TaskStatus) returns (steps: seq<Step>)
    ensures LosesStatus(first, steps)
  {
    var s, reply := Initial(first), Snapshot(1, Succeeded);
    steps := [];
    OneStep(s, steps, Append(STARTED));
    steps := steps + [Append(STARTED)];
    OneStep(s, steps, Append(FINISHED));
    steps := steps + [Append(FINISHED)];
    OneStep(s, steps, Trim({2}));
    steps := steps + [Trim({2})];
    var t := After(s, steps);
    assert t.log == [STARTED, FINISHED] && t.log[..1] == [STARTED] && [STARTED][..0] == [];
    assert Without([], t.removed) == [] && Without([STARTED], t.removed) == [STARTED];
    assert Retained(t) == [STARTED];
    OneStep(s, steps, Request);
    steps := steps + [Request];
    OneStep(s, steps, Reply(reply, None));
    steps := steps + [Reply(reply, None)];
  }
}
