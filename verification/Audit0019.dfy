/**
 * The three-phase audit comparison of backend/src/ai_employee/cli/calendar_aad_audit_0019.py. Digests
 * are opaque; what a passing phase says about two snapshots is proved row by row, and the three
 * phases are chained.
 */
module Audit0019 {
  import opened Prelude

  type Digest = nat

  datatype Phase = PreMigration | PostMigration | PostResync

  datatype Event = Event(identity: Digest, nonAad: Digest, description: Option<Digest>, location: Option<Digest>,
                         descriptionVersion: Option<int>, locationVersion: Option<int>)

  datatype Cursor = Cursor(identity: Digest, pair: Option<Digest>, immutable: Digest, cursor: Option<Digest>,
                           lastSuccess: Option<int>, lastAttempt: Option<int>, error: Option<Digest>, marked: bool)

  datatype Snapshot = Snapshot(events: seq<Event>, cursors: seq<Cursor>, directory: Digest, credential: Digest) {
    /** What the artifact model enforces: identities ascend strictly, and versions are 1 or 2. */
    ghost predicate Valid() {
      && (forall i, j :: 0 <= i < j < |events| ==> events[i].identity < events[j].identity)
      && (forall i, j :: 0 <= i < j < |cursors| ==> cursors[i].identity < cursors[j].identity)
      && (forall e :: e in events ==> LegalVersion(e.descriptionVersion) && LegalVersion(e.locationVersion))
    }
  }

  predicate LegalVersion(v: Option<int>) { v == None || v == Some(1) || v == Some(2) }

  datatype Artifact = Artifact(phase: Phase, snapshot: Snapshot)

  // ---------------------------------------------------------------- what one phase promises

  function EventIdentities(s: Snapshot): set<Digest> { set e | e in s.events :: e.identity }

  function CursorIdentities(s: Snapshot): set<Digest> { set c | c in s.cursors :: c.identity }

  /** Right after the migration a field is untouched and carries version 1 exactly when it has a ciphertext. */
  predicate MigratedEvent(before: Event, now: Event) {
    && now.nonAad == before.nonAad && now.description == before.description && now.location == before.location
    && now.descriptionVersion == (if now.description.Some? then Some(1) else None)
    && now.locationVersion == (if now.location.Some? then Some(1) else None)
  }

  /** After the resync a field without ciphertext has no version, and a changed ciphertext has version 2. */
  predicate ResyncedField(before: Option<Digest>, digest: Option<Digest>, version: Option<int>) {
    match digest
    case Some(_) => (version == Some(1) || version == Some(2)) && (digest != before ==> version == Some(2))
    case None => version == None
  }

  /** A cursor of an affected pair that the migration has reset and marked. */
  predicate MarkedCursor(before: Cursor, now: Cursor) {
    && now.pair == before.pair && now.immutable == before.immutable
    && now.cursor.None? && now.lastSuccess.None? && now.lastAttempt == before.lastAttempt && now.marked
  }

  /** A cursor of an affected pair that a full sync has recovered. */
  predicate RecoveredCursor(before: Cursor, now: Cursor) {
    && now.pair == before.pair && now.immutable == before.immutable
    && now.cursor.Some? && now.lastSuccess.Some? && now.lastAttempt == now.lastSuccess && !now.marked && now.error.None?
  }

  predicate IsAffected(affected: set<Digest>, c: Cursor) { c.pair.Some? && c.pair.value in affected }

  predicate CursorPasses(phase: Phase, affected: set<Digest>, before: Cursor, now: Cursor) {
    if !IsAffected(affected, now) then now == before
    else if phase == PostMigration then MarkedCursor(before, now)
    else RecoveredCursor(before, now)
  }

  ghost predicate EventsPass(phase: Phase, old_: Snapshot, now: Snapshot) {
    if phase == PostMigration then
      && EventIdentities(old_) == EventIdentities(now)
      && forall e, b :: e in now.events && b in old_.events && b.identity == e.identity ==> MigratedEvent(b, e)
    else
      forall e :: e in now.events ==>
        && ResyncedField(FormerDigest(old_, e.identity, true), e.description, e.descriptionVersion)
        && ResyncedField(FormerDigest(old_, e.identity, false), e.location, e.locationVersion)
  }

  ghost predicate CursorsPass(phase: Phase, affected: set<Digest>, old_: Snapshot, now: Snapshot) {
    && CursorIdentities(old_) == CursorIdentities(now)
    && (forall c, b :: c in now.cursors && b in old_.cursors && b.identity == c.identity ==>
      CursorPasses(phase, affected, b, c))
    && (forall p :: p in affected ==> exists c :: c in now.cursors && c.pair == Some(p))
  }

  /** `dict.get` by identity, then the digest of one field. */
  function FormerDigest(s: Snapshot, identity: Digest, description: bool): Option<Digest> {
    var i := Find(s.events, identity);
    if i == |s.events| then None
    else if description then s.events[i].description else s.events[i].location
  }

  function Find(events: seq<Event>, identity: Digest): (i: nat)
    ensures i <= |events| && (i < |events| ==> events[i].identity == identity)
    ensures i == |events| ==> forall e :: e in events ==> e.identity != identity
  {
    if events == [] then 0
    else if events[0].identity == identity then 0
    else 1 + Find(events[1..], identity)
  }

  function FindCursor(cursors: seq<Cursor>, identity: Digest): (i: nat)
    ensures i <= |cursors| && (i < |cursors| ==> cursors[i].identity == identity)
    ensures i == |cursors| ==> forall c :: c in cursors ==> c.identity != identity
  {
    if cursors == [] then 0
    else if cursors[0].identity == identity then 0
    else 1 + FindCursor(cursors[1..], identity)
  }

  // ---------------------------------------------------------------- the comparison

  datatype Failure = Failure

  /** `_compare`: it passes exactly when the promised relation to the predecessor holds. */
  method Compare(phase: Phase, current: Snapshot, previous: Option<Artifact>, affected: set<Digest>)
    returns (r: Result<(), Failure>)
    requires current.Valid() && (previous.Some? ==> previous.value.snapshot.Valid())
    ensures r.Ok? <==> Passes(phase, current, previous, affected)
  {
    if phase == PreMigration {
      return Ok(());
    }
    if previous.None? || previous.value.phase != Predecessor(phase) {
      return Err(Failure);
    }
    var old_ := previous.value.snapshot;
    if current.directory != old_.directory {
      return Err(Failure);
    }
    if phase == PostMigration && current.credential != old_.credential {
      return Err(Failure);
    }
    var events := CompareEvents(phase, old_, current);
    if !events {
      return Err(Failure);
    }
    var cursors := CompareCursors(phase, affected, old_, current);
    r := if cursors then Ok(()) else Err(Failure);
  }

  function Predecessor(phase: Phase): Phase
    requires phase != PreMigration
  {
    if phase == PostMigration then PreMigration else PostMigration
  }

  ghost predicate Passes(phase: Phase, current: Snapshot, previous: Option<Artifact>, affected: set<Digest>) {
    phase == PreMigration ||
    (previous.Some? && previous.value.phase == Predecessor(phase) &&
     var old_ := previous.value.snapshot;
     && current.directory == old_.directory
     && (phase == PostMigration ==> current.credential == old_.credential)
     && EventsPass(phase, old_, current)
     && CursorsPass(phase, affected, old_, current))
  }

  method CompareEvents(phase: Phase, old_: Snapshot, current: Snapshot) returns (ok: bool)
    requires phase != PreMigration && current.Valid() && old_.Valid()
    ensures ok <==> EventsPass(phase, old_, current)
  {
    if phase == PostMigration {
      if EventIdentities(old_) != EventIdentities(current) {
        return false;
      }
      for i := 0 to |current.events|
        invariant forall e, b :: e in current.events[..i] && b in old_.events && b.identity == e.identity ==>
          MigratedEvent(b, e)
      {
        var event := current.events[i];
        assert event in current.events && event.identity in EventIdentities(current);
        var k := Find(old_.events, event.identity);
        EventOf(old_, event.identity);
        OnlyOneEvent(old_, k);
        assert old_.events[k] in old_.events;
        if !MigratedEvent(old_.events[k], event) {
          return false;
        }
        assert current.events[..i + 1] == current.events[..i] + [event];
      }
      assert current.events[..|current.events|] == current.events;
      return true;
    }
    for i := 0 to |current.events|
      invariant forall e :: e in current.events[..i] ==>
        ResyncedField(FormerDigest(old_, e.identity, true), e.description, e.descriptionVersion)
      invariant forall e :: e in current.events[..i] ==>
        ResyncedField(FormerDigest(old_, e.identity, false), e.location, e.locationVersion)
    {
      var event := current.events[i];
      assert event in current.events;
      if !ResyncedField(FormerDigest(old_, event.identity, true), event.description, event.descriptionVersion) {
        return false;
      }
      if !ResyncedField(FormerDigest(old_, event.identity, false), event.location, event.locationVersion) {
        return false;
      }
      assert current.events[..i + 1] == current.events[..i] + [event];
    }
    assert current.events[..|current.events|] == current.events;
    ok := true;
  }

  lemma EventOf(s: Snapshot, identity: Digest)
    ensures identity in EventIdentities(s) <==> exists e :: e in s.events && e.identity == identity
  {
  }

  lemma CursorOf(s: Snapshot, identity: Digest)
    ensures identity in CursorIdentities(s) <==> exists c :: c in s.cursors && c.identity == identity
  {
  }

  lemma OnlyOneEvent(s: Snapshot, k: nat)
    requires s.Valid() && k < |s.events|
    ensures forall e :: e in s.events && e.identity == s.events[k].identity ==> e == s.events[k]
  {
  }

  lemma OnlyOneCursor(s: Snapshot, k: nat)
    requires s.Valid() && k < |s.cursors|
    ensures forall c :: c in s.cursors && c.identity == s.cursors[k].identity ==> c == s.cursors[k]
  {
  }

  method CompareCursors(phase: Phase, affected: set<Digest>, old_: Snapshot, current: Snapshot) returns (ok: bool)
    requires phase != PreMigration && current.Valid() && old_.Valid()
    ensures ok <==> CursorsPass(phase, affected, old_, current)
  {
    if CursorIdentities(old_) != CursorIdentities(current) {
      return false;
    }
    var seen: set<Digest> := {};
    for i := 0 to |current.cursors|
      invariant forall c, b :: c in current.cursors[..i] && b in old_.cursors && b.identity == c.identity ==>
        CursorPasses(phase, affected, b, c)
      invariant forall p :: p in seen <==> p in affected && exists c :: c in current.cursors[..i] && c.pair == Some(p)
    {
      var cursor := current.cursors[i];
      assert cursor in current.cursors;
      var k := FindCursor(old_.cursors, cursor.identity);
      assert cursor.identity in CursorIdentities(current);
      CursorOf(old_, cursor.identity);
      var before := old_.cursors[k];
      OnlyOneCursor(old_, k);
      assert before in old_.cursors;
      if !CursorPasses(phase, affected, before, cursor) {
        return false;
      }
      if IsAffected(affected, cursor) {
        seen := seen + {cursor.pair.value};
      }
      assert current.cursors[..i + 1] == current.cursors[..i] + [cursor];
    }
    assert current.cursors[..|current.cursors|] == current.cursors;
    ok := seen == affected;
  }

  // ---------------------------------------------------------------- three phases in order

  ghost predicate AllPass(pre: Snapshot, post: Snapshot, resync: Snapshot, affected: set<Digest>) {
    && pre.Valid() && post.Valid() && resync.Valid()
    && Passes(PostMigration, post, Some(Artifact(PreMigration, pre)), affected)
    && Passes(PostResync, resync, Some(Artifact(PostMigration, post)), affected)
  }

  /** No cursor row appears or disappears, and outside the affected pairs none has changed at all. */
  lemma UnaffectedCursorsAreUnchanged(pre: Snapshot, post: Snapshot, resync: Snapshot, affected: set<Digest>)
    requires AllPass(pre, post, resync, affected)
    ensures CursorIdentities(pre) == CursorIdentities(resync)
    ensures forall a, c :: a in pre.cursors && c in resync.cursors && a.identity == c.identity ==>
      (IsAffected(affected, a) <==> IsAffected(affected, c)) && (!IsAffected(affected, a) ==> a == c)
  {
    forall a, c | a in pre.cursors && c in resync.cursors && a.identity == c.identity
      ensures (IsAffected(affected, a) <==> IsAffected(affected, c)) && (!IsAffected(affected, a) ==> a == c)
    {
      assert a.identity in CursorIdentities(pre);
      CursorOf(post, a.identity);
      var b :| b in post.cursors && b.identity == a.identity;
      assert CursorPasses(PostMigration, affected, a, b);
      assert CursorPasses(PostResync, affected, b, c);
    }
  }

  /** Every affected pair has a cursor that kept its identity, pair and immutable columns, and was recovered. */
  lemma AffectedPairsAreRecovered(pre: Snapshot, post: Snapshot, resync: Snapshot, affected: set<Digest>, pair: Digest)
    returns (before: Cursor, after: Cursor)
    requires AllPass(pre, post, resync, affected) && pair in affected
    ensures before in pre.cursors && after in resync.cursors && before.identity == after.identity
    ensures before.pair == after.pair == Some(pair) && before.immutable == after.immutable
    ensures after.cursor.Some? && after.lastSuccess.Some? && after.lastAttempt == after.lastSuccess
    ensures !after.marked && after.error.None?
  {
    after :| after in resync.cursors && after.pair == Some(pair);
    assert after.identity in CursorIdentities(resync);
    CursorOf(post, after.identity);
    var middle :| middle in post.cursors && middle.identity == after.identity;
    CursorOf(pre, after.identity);
    before :| before in pre.cursors && before.identity == middle.identity;
    assert CursorPasses(PostResync, affected, middle, after);
    assert CursorPasses(PostMigration, affected, before, middle);
  }

  /** Between the phases an affected cursor is reset and marked, with its last attempt kept. */
  lemma AffectedCursorsAreReset(pre: Snapshot, post: Snapshot, affected: set<Digest>, a: Cursor, b: Cursor)
    requires Passes(PostMigration, post, Some(Artifact(PreMigration, pre)), affected)
    requires a in pre.cursors && b in post.cursors && a.identity == b.identity && IsAffected(affected, b)
    ensures a.pair == b.pair && a.immutable == b.immutable && a.lastAttempt == b.lastAttempt
    ensures b.cursor.None? && b.lastSuccess.None? && b.marked
  {
    assert CursorPasses(PostMigration, affected, a, b);
  }

  /** The migration changes nothing of an event but its versions. */
  lemma MigrationKeepsEvents(pre: Snapshot, post: Snapshot, affected: set<Digest>, a: Event, b: Event)
    requires Passes(PostMigration, post, Some(Artifact(PreMigration, pre)), affected)
    requires a in pre.events && b in post.events && a.identity == b.identity
    ensures b == a.(descriptionVersion := if a.description.Some? then Some(1) else None,
                    locationVersion := if a.location.Some? then Some(1) else None)
  {
    assert MigratedEvent(a, b);
  }

  /**
   * A field still at version 1 at the end has the ciphertext digest its row had before the migration;
   * every other ciphertext is at version 2, and no field without ciphertext has a version.
   */
  lemma OldCiphertextsAreOriginal(pre: Snapshot, post: Snapshot, resync: Snapshot, affected: set<Digest>, e: Event)
    requires AllPass(pre, post, resync, affected) && e in resync.events
    ensures e.descriptionVersion == Some(1) ==>
      exists a :: a in pre.events && a.identity == e.identity && a.description == e.description && e.description.Some?
    ensures e.locationVersion == Some(1) ==>
      exists a :: a in pre.events && a.identity == e.identity && a.location == e.location && e.location.Some?
    ensures e.descriptionVersion == Some(2) || e.descriptionVersion == Some(1) <==> e.description.Some?
    ensures e.locationVersion == Some(2) || e.locationVersion == Some(1) <==> e.location.Some?
  {
    if e.descriptionVersion == Some(1) || e.locationVersion == Some(1) {
      var k := Find(post.events, e.identity);
      if k < |post.events| {
        var b := post.events[k];
        assert b in post.events && b.identity in EventIdentities(post);
        EventOf(pre, b.identity);
        var a :| a in pre.events && a.identity == b.identity;
        assert MigratedEvent(a, b);
      }
    }
  }

  // ---------------------------------------------------------------- a rollout that did its work passes

  /** The migration gives each existing ciphertext version 1, and resets and marks the affected cursors. */
  function Migrate(s: Snapshot, affected: set<Digest>, marker: Digest): Snapshot {
    s.(events := seq(|s.events|, i requires 0 <= i < |s.events| => MigrateEvent(s.events[i])),
       cursors := seq(|s.cursors|, i requires 0 <= i < |s.cursors| => MigrateCursor(affected, marker, s.cursors[i])))
  }

  function MigrateEvent(e: Event): Event {
    e.(descriptionVersion := if e.description.None? then None else Some(1),
       locationVersion := if e.location.None? then None else Some(1))
  }

  function MigrateCursor(affected: set<Digest>, marker: Digest, c: Cursor): Cursor {
    if !IsAffected(affected, c) then c
    else c.(cursor := None, lastSuccess := None, error := Some(marker), marked := true)
  }

  lemma MigrationPasses(s: Snapshot, affected: set<Digest>, marker: Digest)
    requires s.Valid() && forall p :: p in affected ==> exists c :: c in s.cursors && c.pair == Some(p)
    ensures var t := Migrate(s, affected, marker);
      t.Valid() && Passes(PostMigration, t, Some(Artifact(PreMigration, s)), affected)
  {
    var t := Migrate(s, affected, marker);
    assert EventsPass(PostMigration, s, t) by {
      SameEventIdentities(s, t);
      forall e, b | e in t.events && b in s.events && b.identity == e.identity
        ensures MigratedEvent(b, e)
      {
        var i :| 0 <= i < |t.events| && t.events[i] == e;
        OnlyOneEvent(s, i);
      }
    }
    assert CursorsPass(PostMigration, affected, s, t) by {
      CursorsByCursor(s, t, affected);
      forall c, b | c in t.cursors && b in s.cursors && b.identity == c.identity
        ensures CursorPasses(PostMigration, affected, b, c)
      {
        var i :| 0 <= i < |t.cursors| && t.cursors[i] == c;
        OnlyOneCursor(s, i);
      }
    }
  }

  lemma SameEventIdentities(s: Snapshot, t: Snapshot)
    requires |s.events| == |t.events|
    requires forall i :: 0 <= i < |s.events| ==> t.events[i].identity == s.events[i].identity
    ensures EventIdentities(s) == EventIdentities(t)
  {
    forall x
      ensures x in EventIdentities(s) <==> x in EventIdentities(t)
    {
      if x in EventIdentities(s) {
        var i :| 0 <= i < |s.events| && s.events[i].identity == x;
        assert t.events[i] in t.events;
      }
      if x in EventIdentities(t) {
        var i :| 0 <= i < |t.events| && t.events[i].identity == x;
        assert s.events[i] in s.events;
      }
    }
  }

  /** Cursors changed one by one, with identity and pair kept, stay the same rows of the same pairs. */
  lemma CursorsByCursor(s: Snapshot, t: Snapshot, affected: set<Digest>)
    requires |s.cursors| == |t.cursors|
    requires forall i :: 0 <= i < |s.cursors| ==>
      t.cursors[i].identity == s.cursors[i].identity && t.cursors[i].pair == s.cursors[i].pair
    requires forall p :: p in affected ==> exists c :: c in s.cursors && c.pair == Some(p)
    ensures CursorIdentities(s) == CursorIdentities(t)
    ensures forall p :: p in affected ==> exists c :: c in t.cursors && c.pair == Some(p)
  {
    forall x
      ensures x in CursorIdentities(s) <==> x in CursorIdentities(t)
    {
      if x in CursorIdentities(s) {
        var i :| 0 <= i < |s.cursors| && s.cursors[i].identity == x;
        assert t.cursors[i] in t.cursors;
      }
      if x in CursorIdentities(t) {
        var i :| 0 <= i < |t.cursors| && t.cursors[i].identity == x;
        assert s.cursors[i] in s.cursors;
      }
    }
    forall p | p in affected
      ensures exists c :: c in t.cursors && c.pair == Some(p)
    {
      var c :| c in s.cursors && c.pair == Some(p);
      var i :| 0 <= i < |s.cursors| && s.cursors[i] == c;
      assert t.cursors[i] in t.cursors;
    }
  }

  /** A field after the resync: as the row had it before, rewritten at version 2, or gone. */
  predicate FieldKept(before: Option<Digest>, beforeVersion: Option<int>, digest: Option<Digest>, version: Option<int>)
  {
    digest == before && version == beforeVersion
  }

  predicate FieldRewritten(digest: Option<Digest>, version: Option<int>) {
    version == if digest.Some? then Some(2) else None
  }

  /** Rows may come and go in a resync; every field of a row is either kept from the row before or rewritten. */
  ghost predicate ResyncedEvents(before: Snapshot, now: Snapshot) {
    forall e :: e in now.events ==>
      && (FieldRewritten(e.description, e.descriptionVersion) ||
          exists b :: b in before.events && b.identity == e.identity
            && FieldKept(b.description, b.descriptionVersion, e.description, e.descriptionVersion))
      && (FieldRewritten(e.location, e.locationVersion) ||
          exists b :: b in before.events && b.identity == e.identity
            && FieldKept(b.location, b.locationVersion, e.location, e.locationVersion))
  }

  /** A full sync of an affected pair leaves a cursor from one successful attempt and no error. */
  function Recover(affected: set<Digest>, cursorOf: Digest -> Digest, at: int, c: Cursor): Cursor {
    if IsAffected(affected, c)
    then c.(cursor := Some(cursorOf(c.identity)), lastSuccess := Some(at), lastAttempt := Some(at), error := None,
            marked := false)
    else c
  }

  lemma ResyncPasses(s: Snapshot, affected: set<Digest>, marker: Digest, now: Snapshot,
                     cursorOf: Digest -> Digest, at: int)
    requires s.Valid() && forall p :: p in affected ==> exists c :: c in s.cursors && c.pair == Some(p)
    requires var t := Migrate(s, affected, marker);
      && now.Valid() && now.directory == t.directory && ResyncedEvents(t, now) && |now.cursors| == |t.cursors|
      && forall i :: 0 <= i < |t.cursors| ==> now.cursors[i] == Recover(affected, cursorOf, at, t.cursors[i])
    ensures Passes(PostResync, now, Some(Artifact(PostMigration, Migrate(s, affected, marker))), affected)
  {
    var t := Migrate(s, affected, marker);
    MigrationPasses(s, affected, marker);
    assert EventsPass(PostResync, t, now) by { ResyncedEventsPass(s, affected, marker, now); }
    assert CursorsPass(PostResync, affected, t, now) by {
      CursorsByCursor(t, now, affected);
      forall c, b | c in now.cursors && b in t.cursors && b.identity == c.identity
        ensures CursorPasses(PostResync, affected, b, c)
      {
        var i :| 0 <= i < |now.cursors| && now.cursors[i] == c;
        OnlyOneCursor(t, i);
      }
    }
  }

  lemma ResyncedEventsPass(s: Snapshot, affected: set<Digest>, marker: Digest, now: Snapshot)
    requires s.Valid() && Migrate(s, affected, marker).Valid() && ResyncedEvents(Migrate(s, affected, marker), now)
    ensures EventsPass(PostResync, Migrate(s, affected, marker), now)
  {
    var t := Migrate(s, affected, marker);
    forall e | e in now.events
      ensures ResyncedField(FormerDigest(t, e.identity, true), e.description, e.descriptionVersion)
      ensures ResyncedField(FormerDigest(t, e.identity, false), e.location, e.locationVersion)
    {
      var k := Find(t.events, e.identity);
      if k < |t.events| {
        OnlyOneEvent(t, k);
        assert t.events[k] == MigrateEvent(s.events[k]);
      }
    }
  }
}
