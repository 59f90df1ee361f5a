/** The replaying generator of backend/src/ai_employee/api/sse.py, one database read at a time. */
module TaskEventStream {
  import opened Prelude
  import opened TaskFacts

  /** What the first retention check decides before anything is replayed. */
  datatype Opening = SendGapSnapshot | ReplayAfter(cursor: nat)

  function StartCursor(lastEventId: Option<int>): nat {
    if lastEventId.Some? && lastEventId.value > 0 then lastEventId.value else 0
  }

  function DecideOpening(oldest: Option<nat>, lastEventId: Option<int>): Opening {
    if oldest.Some? && lastEventId.Some? && lastEventId.value < oldest.value - 1
    then SendGapSnapshot
    else ReplayAfter(StartCursor(lastEventId))
  }

  /** `events_after`: the retained rows above the cursor, in id order. */
  function EventsAfter(rows: seq<Fact>, cursor: nat): seq<Fact> {
    if rows == [] then []
    else
      var newest := rows[|rows| - 1];
      EventsAfter(rows[..|rows| - 1], cursor) + (if newest.id > cursor then [newest] else [])
  }

  function PublishedAll(rows: seq<Fact>): seq<Message> {
    seq(|rows|, i requires 0 <= i < |rows| => Published(rows[i]))
  }

  /** `oldest_event_id`. */
  function OldestEventId(rows: seq<Fact>): Option<nat> {
    if rows == [] then None else Some(rows[0].id)
  }

  /**
   * The exact gap-check guarantee: replay starts above a trimmed row the cursor has not reached if
   * and only if such a row exists and the caller sent no cursor or nothing at all is retained.
   */
  lemma ReplayHoleExactlyWithoutCursorOrRows(log: seq<Fact>, trimmed: nat, lastEventId: Option<nat>)
    requires ValidLog(log) && trimmed <= |log|
    ensures var opening := DecideOpening(OldestEventId(log[trimmed..]), lastEventId);
      (opening.ReplayAfter? && exists i :: 0 <= i < trimmed && log[i].id > opening.cursor)
      <==>
      (trimmed > 0 && log[trimmed - 1].id > StartCursor(lastEventId) && (lastEventId.None? || trimmed == |log|))
  {
    if trimmed < |log| {
      assert log[trimmed..][0] == log[trimmed];
    }
    if trimmed > 0 {
      assert forall i :: 0 <= i < trimmed ==> log[i].id <= log[trimmed - 1].id;
    }
  }

  lemma {:induction false} EventsAfterMembers(rows: seq<Fact>, cursor: nat)
    ensures forall f :: f in EventsAfter(rows, cursor) <==> f in rows && f.id > cursor
  {
    if rows != [] {
      EventsAfterMembers(rows[..|rows| - 1], cursor);
      assert rows == rows[..|rows| - 1] + [rows[|rows| - 1]];
    }
  }

  lemma {:induction false} EventsAfterIsExact(rows: seq<Fact>, cursor: nat)
    requires ValidLog(rows)
    ensures ValidLog(EventsAfter(rows, cursor))
    ensures forall f :: f in EventsAfter(rows, cursor) <==> f in rows && f.id > cursor
  {
    EventsAfterMembers(rows, cursor);
    if rows != [] {
      var front, newest := rows[..|rows| - 1], rows[|rows| - 1];
      assert ValidLog(front);
      EventsAfterIsExact(front, cursor);
      hide ValidLog;
      KeptIsValid(rows, EventsAfter(front, cursor));
    }
  }

  lemma KeptIsValid(rows: seq<Fact>, kept: seq<Fact>)
    requires rows != [] && ValidLog(rows) && ValidLog(kept) && forall f :: f in kept ==> f in rows[..|rows| - 1]
    ensures ValidLog(kept + [rows[|rows| - 1]])
  {
    var longer := kept + [rows[|rows| - 1]];
    forall i | 0 <= i < |kept|
      ensures longer[i].id < rows[|rows| - 1].id
    {
      assert kept[i] in kept;
      var j :| 0 <= j < |rows| - 1 && rows[j] == kept[i];
    }
  }

  /** The generator's own state: its cursor and what it has yielded so far. */
  class Stream {
    var cursor: nat
    var yielded: seq<Message>

    constructor (lastEventId: Option<int>)
      ensures cursor == StartCursor(lastEventId) && yielded == []
    {
      cursor := if lastEventId.Some? && lastEventId.value > 0 then lastEventId.value else 0;
      yielded := [];
    }

    /** The gap branch: `snapshot` is the task and its largest audit id from one read. */
    method YieldGapSnapshot(snapshot: Snapshot)
      modifies this
      ensures cursor == snapshot.cursor
      ensures yielded == old(yielded) + [SnapshotMessage(snapshot.cursor, snapshot)]
    {
      cursor := snapshot.cursor;
      yielded := yielded + [SnapshotMessage(cursor, snapshot)];
    }

    /** One replay: initial, woken or timed out. Every row above the cursor leaves exactly once. */
    method Replay(rows: seq<Fact>)
      requires ValidLog(rows) && forall i :: 0 <= i < |rows| ==> rows[i].id > cursor
      modifies this
      ensures yielded == old(yielded) + PublishedAll(rows)
      ensures cursor == if rows == [] then old(cursor) else LastId(rows)
    {
      for i := 0 to |rows|
        invariant yielded == old(yielded) + PublishedAll(rows[..i])
        invariant cursor == if i == 0 then old(cursor) else rows[i - 1].id
      {
        var row := rows[i];
        if row.id > cursor {
          cursor := row.id;
          yielded := yielded + [Published(row)];
        }
        assert PublishedAll(rows[..i + 1]) == PublishedAll(rows[..i]) + [Published(row)];
      }
      assert rows[..|rows|] == rows;
    }
  }

  // ---------------------------------------------------------------- a whole connection

  /** The rows with `low < id <= high`, in order. */
  function Between(rows: seq<Fact>, low: nat, high: nat): seq<Fact> {
    if rows == [] then []
    else
      var newest := rows[|rows| - 1];
      Between(rows[..|rows| - 1], low, high) + (if low < newest.id <= high then [newest] else [])
  }

  /** The audit table of one task, shared with writers and retention. */
  class AuditLog {
    /** Every row ever appended, and how many of the oldest ones retention has removed. */
    var rows: seq<Fact>
    var trimmed: nat
    /** Whether the task row still exists. */
    var present: bool

    ghost predicate Valid()
      reads this
    {
      ValidLog(rows) && trimmed <= |rows|
    }

    /** Others append rows or delete the task, and retention removes old rows, but none above the live cursor. */
    method Elapse(cursor: nat)
      requires Valid()
      modifies this
      ensures Valid() && old(rows) <= rows && old(trimmed) <= trimmed
      ensures forall i :: old(trimmed) <= i < trimmed ==> rows[i].id <= cursor
    {
    }

    method ReadOldest() returns (oldest: Option<nat>)
      requires Valid()
      ensures oldest == OldestEventId(rows[trimmed..])
    {
      oldest := if trimmed < |rows| then Some(rows[trimmed].id) else None;
    }

    /** The task row and the largest audit id from one read; the task may be gone. */
    method ReadSnapshot() returns (snapshot: Option<Snapshot>)
      requires Valid()
      ensures snapshot.Some? <==> present
      ensures snapshot.Some? ==> snapshot.value.cursor == LastId(rows)
    {
      var status: TaskStatus := *;
      snapshot := if present then Some(Snapshot(LastId(rows), status)) else None;
    }

    method ReadAfter(cursor: nat) returns (newer: seq<Fact>)
      requires Valid()
      ensures newer == EventsAfter(rows[trimmed..], cursor)
    {
      newer := EventsAfter(rows[trimmed..], cursor);
    }
  }

  /** What one connection has yielded: at most one gap snapshot, then every row above `low` up to the cursor, once. */
  ghost predicate Delivered(rows: seq<Fact>, yielded: seq<Message>, cursor: nat, prefix: seq<Message>, low: nat) {
    && yielded == prefix + PublishedAll(Between(rows, low, cursor))
    && (prefix == [] || (|prefix| == 1 && prefix[0].SnapshotMessage? && prefix[0].sequence == low))
  }

  /** Retention has removed only rows at or below the mark or the cursor, and none in between is retained. */
  ghost predicate Aligned(rows: seq<Fact>, trimmed: nat, cursor: nat, low: nat) {
    && ValidLog(rows) && trimmed <= |rows|
    && (cursor <= low || cursor <= LastId(rows)) && (low <= cursor || low <= LastId(rows))
    && (forall i :: 0 <= i < trimmed ==> rows[i].id <= Max(low, cursor))
    && (forall i :: trimmed <= i < |rows| && rows[i].id > cursor ==> rows[i].id > low)
  }

  lemma {:induction false} NothingBetween(rows: seq<Fact>, low: nat, high: nat)
    requires high <= low
    ensures Between(rows, low, high) == []
  {
    if rows != [] {
      NothingBetween(rows[..|rows| - 1], low, high);
    }
  }

  /** Appending rows above the cursor adds nothing below it. */
  lemma {:induction false} BetweenIgnoresNewRows(rows: seq<Fact>, more: seq<Fact>, low: nat, high: nat)
    requires rows <= more && ValidLog(more) && (high <= low || high <= LastId(rows))
    ensures Between(more, low, high) == Between(rows, low, high)
  {
    if high <= low {
      NothingBetween(rows, low, high);
      NothingBetween(more, low, high);
    } else if more == rows {
    } else {
      var newest := more[|more| - 1];
      assert rows != [] && LastId(rows) == more[|rows| - 1].id < newest.id;
      BetweenIgnoresNewRows(rows, more[..|more| - 1], low, high);
    }
  }

  lemma {:induction false} NothingAbove(rows: seq<Fact>, mark: nat, high: nat)
    requires forall i :: 0 <= i < |rows| ==> rows[i].id <= mark
    ensures Between(rows, mark, high) == []
  {
    if rows != [] {
      NothingAbove(rows[..|rows| - 1], mark, high);
    }
  }

  lemma BetweenStep(rows: seq<Fact>, newest: Fact, low: nat, high: nat)
    ensures Between(rows + [newest], low, high) ==
      Between(rows, low, high) + if low < newest.id <= high then [newest] else []
  {
    assert (rows + [newest])[..|rows|] == rows;
  }

  lemma {:induction false} BetweenSplits(rows: seq<Fact>, low: nat, middle: nat, high: nat)
    requires ValidLog(rows) && low <= middle <= high
    ensures Between(rows, low, high) == Between(rows, low, middle) + Between(rows, middle, high)
  {
    if rows == [] {
    } else {
      var front, newest := rows[..|rows| - 1], rows[|rows| - 1];
      assert ValidLog(front) && forall i :: 0 <= i < |front| ==> front[i].id < newest.id;
      hide Between, ValidLog;
      BetweenSplits(front, low, middle, high);
      assert rows == front + [newest];
      NewestSplits(front, newest, low, middle, high);
    }
  }

  lemma NewestSplits(rows: seq<Fact>, newest: Fact, low: nat, middle: nat, high: nat)
    requires low <= middle <= high && forall i :: 0 <= i < |rows| ==> rows[i].id < newest.id
    requires Between(rows, low, high) == Between(rows, low, middle) + Between(rows, middle, high)
    ensures Between(rows + [newest], low, high) ==
      Between(rows + [newest], low, middle) + Between(rows + [newest], middle, high)
  {
    hide Between;
    BetweenStep(rows, newest, low, high);
    BetweenStep(rows, newest, low, middle);
    BetweenStep(rows, newest, middle, high);
    if newest.id <= middle {
      NothingAbove(rows, middle, high);
    }
  }

  /** What a read above the cursor finds among the retained rows is what the whole log holds above the mark. */
  lemma {:induction false} RetainedIsEnough(rows: seq<Fact>, trimmed: nat, cursor: nat, mark: nat, high: nat)
    requires trimmed <= |rows| && forall i :: 0 <= i < |rows| ==> rows[i].id <= high
    requires forall i :: 0 <= i < trimmed ==> rows[i].id <= mark
    requires forall i :: trimmed <= i < |rows| ==> (rows[i].id > cursor <==> rows[i].id > mark)
    ensures EventsAfter(rows[trimmed..], cursor) == Between(rows, mark, high)
  {
    var retained := rows[trimmed..];
    if trimmed == |rows| {
      NothingAbove(rows, mark, high);
    } else {
      var front := rows[..|rows| - 1];
      assert retained[..|retained| - 1] == front[trimmed..] && retained[|retained| - 1] == rows[|rows| - 1];
      RetainedIsEnough(front, trimmed, cursor, mark, high);
    }
  }

  /** One round: exactly the rows that the connection had not accounted for, and then it has. */
  lemma RoundDelivers(rows: seq<Fact>, trimmed: nat, cursor: nat, low: nat)
    requires Aligned(rows, trimmed, cursor, low)
    ensures var newer := EventsAfter(rows[trimmed..], cursor);
      var reached := if newer == [] then cursor else LastId(newer);
      Between(rows, low, reached) == Between(rows, low, cursor) + newer && Aligned(rows, trimmed, reached, low)
    ensures var newer := EventsAfter(rows[trimmed..], cursor);
      LastId(rows) <= Max(low, if newer == [] then cursor else LastId(newer))
  {
    var newer, mark := EventsAfter(rows[trimmed..], cursor), Max(low, cursor);
    RetainedIsEnough(rows, trimmed, cursor, mark, LastId(rows));
    if newer != [] {
      if LastId(rows) <= mark {
        NothingAbove(rows, mark, LastId(rows));
      } else {
        BetweenSplits(rows, low, mark, LastId(rows));
        if cursor <= low {
          NothingBetween(rows, low, mark);
          NothingBetween(rows, low, cursor);
        }
        assert newer[|newer| - 1] == rows[|rows| - 1];
      }
    }
  }

  lemma PublishedAllJoins(a: seq<Fact>, b: seq<Fact>)
    ensures PublishedAll(a + b) == PublishedAll(a) + PublishedAll(b)
  {
  }

  /** Time passing loses nothing: what was delivered stays so, and the cursor stays aligned. */
  lemma ElapsingKeeps(rows: seq<Fact>, trimmed: nat, rows': seq<Fact>, trimmed': nat, cursor: nat, low: nat)
    requires Aligned(rows, trimmed, cursor, low)
    requires rows <= rows' && trimmed <= trimmed' <= |rows'| && ValidLog(rows')
    requires forall i :: trimmed <= i < trimmed' ==> rows'[i].id <= cursor
    ensures Aligned(rows', trimmed', cursor, low) && Between(rows', low, cursor) == Between(rows, low, cursor)
  {
    BetweenIgnoresNewRows(rows, rows', low, cursor);
    forall i | trimmed' <= i < |rows'| && rows'[i].id > cursor
      ensures rows'[i].id > low
    {
      if i >= |rows| && rows != [] {
        assert rows'[i].id > rows'[|rows| - 1].id;
      }
    }
  }

  datatype LogView = LogView(rows: seq<Fact>, trimmed: nat)

  /** A row is retained, and the gap check lets the replay begin without reading the task. */
  ghost predicate HasReplay(retained: seq<Fact>, lastEventId: Option<int>) {
    retained != [] && DecideOpening(OldestEventId(retained), lastEventId).ReplayAfter?
  }

  /**
   * The opening of `events`, before its first replay: nothing, or the gap snapshot. A task that is gone
   * ends the connection with nothing yielded.
   */
  method Open(db: AuditLog, s: Stream, lastEventId: Option<int>)
    returns (live: bool, ghost prefix: seq<Message>, ghost low: nat)
    requires db.Valid() && s.cursor == StartCursor(lastEventId) && s.yielded == []
    modifies db, s
    ensures db.Valid() && old(db.rows) <= db.rows
    ensures Aligned(db.rows, db.trimmed, s.cursor, low) && Delivered(db.rows, s.yielded, s.cursor, prefix, low)
    ensures live <==> db.present || HasReplay(old(db.rows[db.trimmed..]), lastEventId)
    ensures !live ==> s.yielded == []
    ensures live ==> (prefix == [] <==>
      DecideOpening(OldestEventId(old(db.rows[db.trimmed..])), lastEventId) == ReplayAfter(StartCursor(lastEventId)))
    ensures prefix == [] ==> low == Max(StartCursor(lastEventId), LastId(old(db.rows[..db.trimmed])))
  {
    ghost var rows, trimmed := db.rows, db.trimmed;
    prefix, low := [], Max(s.cursor, LastId(rows[..trimmed]));
    UntouchedIsAligned(rows, trimmed, s.cursor);
    var oldest := db.ReadOldest();
    db.Elapse(s.cursor);
    ElapsingKeeps(rows, trimmed, db.rows, db.trimmed, s.cursor, low);
    live := true;
    if oldest.None? {
      var snapshot := db.ReadSnapshot();
      live := snapshot.Some?;
    } else if lastEventId.Some? && lastEventId.value < oldest.value - 1 {
      var snapshot := db.ReadSnapshot();
      live := snapshot.Some?;
      if live {
        s.YieldGapSnapshot(snapshot.value);
        prefix, low := [SnapshotMessage(snapshot.value.cursor, snapshot.value)], snapshot.value.cursor;
        SnapshotIsAligned(db.rows, db.trimmed);
      }
    }
  }

  /** Before anything is yielded, the mark is the cursor or the newest trimmed row. */
  lemma UntouchedIsAligned(rows: seq<Fact>, trimmed: nat, cursor: nat)
    requires ValidLog(rows) && trimmed <= |rows|
    ensures var low := Max(cursor, LastId(rows[..trimmed]));
      Aligned(rows, trimmed, cursor, low) && Between(rows, low, cursor) == []
  {
    NothingBetween(rows, Max(cursor, LastId(rows[..trimmed])), cursor);
    assert trimmed > 0 ==> LastId(rows[..trimmed]) == rows[trimmed - 1].id;
  }

  lemma SnapshotIsAligned(rows: seq<Fact>, trimmed: nat)
    requires ValidLog(rows) && trimmed <= |rows|
    ensures Aligned(rows, trimmed, LastId(rows), LastId(rows)) && Between(rows, LastId(rows), LastId(rows)) == []
  {
    NothingBetween(rows, LastId(rows), LastId(rows));
  }

  /**
   * `events`, until the client leaves after some rounds of waiting. Whatever is appended meanwhile, and
   * trimmed at or below its cursor, the connection yields the log's rows above `low` once each and in
   * order, up to its cursor, and at the end of each round that is all of them; and `low` is the caller's
   * own cursor unless a gap snapshot stands for everything up to it, the caller sent no cursor, or no row
   * was retained when the connection opened.
   * It ends at once, with nothing yielded, only when the task is gone and nothing can be replayed.
   */
  method Events(db: AuditLog, lastEventId: Option<int>, rounds: nat)
    returns (s: Stream, live: bool, ghost prefix: seq<Message>, ghost low: nat, ghost first: LogView)
    requires db.Valid()
    modifies db
    ensures db.Valid() && Delivered(db.rows, s.yielded, s.cursor, prefix, low)
    ensures first == LogView(old(db.rows), old(db.trimmed)) && first.rows <= db.rows
    ensures live ==> LastId(db.rows) <= Max(low, s.cursor)
    ensures live ==> (prefix == [] <==>
      DecideOpening(OldestEventId(first.rows[first.trimmed..]), lastEventId) == ReplayAfter(StartCursor(lastEventId)))
    ensures !live ==> s.yielded == [] && !HasReplay(first.rows[first.trimmed..], lastEventId) && !db.present
    ensures prefix == [] ==> low == Max(StartCursor(lastEventId), LastId(first.rows[..first.trimmed]))
  {
    hide Aligned, Delivered, OldestEventId, LastId, Max;
    s := new Stream(lastEventId);
    first := LogView(db.rows, db.trimmed);
    live, prefix, low := Open(db, s, lastEventId);
    if !live {
      return;
    }
    for round := 0 to rounds + 1
      invariant db.Valid() && first.rows <= db.rows
      invariant round > 0 ==> LastId(db.rows) <= Max(low, s.cursor)
      invariant Aligned(db.rows, db.trimmed, s.cursor, low) && Delivered(db.rows, s.yielded, s.cursor, prefix, low)
    {
      Round(db, s, prefix, low);
    }
  }

  /** One read, the initial one or one after a notification or a heartbeat, and what it yields. */
  method Round(db: AuditLog, s: Stream, ghost prefix: seq<Message>, ghost low: nat)
    requires db.Valid()
    requires Aligned(db.rows, db.trimmed, s.cursor, low) && Delivered(db.rows, s.yielded, s.cursor, prefix, low)
    modifies db, s
    ensures db.Valid() && old(db.rows) <= db.rows && old(s.cursor) <= s.cursor
    ensures LastId(db.rows) <= Max(low, s.cursor)
    ensures Aligned(db.rows, db.trimmed, s.cursor, low) && Delivered(db.rows, s.yielded, s.cursor, prefix, low)
  {
    ghost var rows, trimmed, yielded := db.rows, db.trimmed, s.yielded;
    hide Aligned, Between, Delivered, PublishedAll, EventsAfter;
    db.Elapse(s.cursor);
    ElapsingKeeps(rows, trimmed, db.rows, db.trimmed, s.cursor, low);
    DeliveredDependsOnBetween(rows, db.rows, yielded, s.cursor, prefix, low);
    RoundDelivers(db.rows, db.trimmed, s.cursor, low);
    ReadIsAboveCursor(db.rows, db.trimmed, s.cursor);
    var newer := db.ReadAfter(s.cursor);
    ghost var before := s.cursor;
    s.Replay(newer);
    DeliveredGrows(db.rows, yielded, before, newer, s.cursor, prefix, low);
  }

  lemma DeliveredDependsOnBetween(rows: seq<Fact>, rows': seq<Fact>, yielded: seq<Message>, cursor: nat,
                                  prefix: seq<Message>, low: nat)
    requires Between(rows, low, cursor) == Between(rows', low, cursor)
    ensures Delivered(rows, yielded, cursor, prefix, low) ==> Delivered(rows', yielded, cursor, prefix, low)
  {
  }

  lemma DeliveredGrows(rows: seq<Fact>, yielded: seq<Message>, cursor: nat, newer: seq<Fact>, reached: nat,
                       prefix: seq<Message>, low: nat)
    requires Delivered(rows, yielded, cursor, prefix, low)
    requires Between(rows, low, reached) == Between(rows, low, cursor) + newer
    ensures Delivered(rows, yielded + PublishedAll(newer), reached, prefix, low)
  {
    PublishedAllJoins(Between(rows, low, cursor), newer);
  }

  lemma ReadIsAboveCursor(rows: seq<Fact>, trimmed: nat, cursor: nat)
    requires ValidLog(rows) && trimmed <= |rows|
    ensures var newer := EventsAfter(rows[trimmed..], cursor);
      ValidLog(newer) && forall i :: 0 <= i < |newer| ==> newer[i].id > cursor
  {
    EventsAfterIsExact(rows[trimmed..], cursor);
    var newer := EventsAfter(rows[trimmed..], cursor);
    assert forall i :: 0 <= i < |newer| ==> newer[i] in newer;
  }

  /** With a cursor sent and a row retained, a connection without a gap snapshot leaves no hole. */
  lemma NoHoleWithCursorAndRows(first: LogView, lastEventId: Option<int>)
    requires ValidLog(first.rows) && first.trimmed < |first.rows| && lastEventId.Some?
    requires DecideOpening(OldestEventId(first.rows[first.trimmed..]), lastEventId).ReplayAfter?
    ensures Max(StartCursor(lastEventId), LastId(first.rows[..first.trimmed])) == StartCursor(lastEventId)
  {
    assert first.rows[first.trimmed..][0] == first.rows[first.trimmed];
    if first.trimmed > 0 {
      assert first.rows[..first.trimmed][first.trimmed - 1] == first.rows[first.trimmed - 1];
    }
  }
}
