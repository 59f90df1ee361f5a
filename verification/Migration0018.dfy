/**
 * The crash-resumable swap of the calendar event identity, revision 0018
 * (backend/migrations/versions/20260809_0018_calendar_event_calendar_identity.py). The catalog is
 * the pair of named objects the code inspects; other sessions may write rows between any two
 * commits, within what the committed objects enforce, and the process may die at any point.
 */
module Migration0018 {
  import opened Prelude

  datatype Row = Row(connection: nat, calendar: nat, event: nat)

  /** The legacy identity. */
  predicate PairUnique(rows: seq<Row>) {
    forall i, j :: 0 <= i < j < |rows| ==> rows[i].connection != rows[j].connection || rows[i].event != rows[j].event
  }

  /** The new identity. */
  predicate TripleUnique(rows: seq<Row>) {
    forall i, j :: 0 <= i < j < |rows| ==> rows[i] != rows[j]
  }

  /** No connection has the same provider event in two calendars. */
  predicate NoCrossCalendar(rows: seq<Row>) {
    forall i, j :: 0 <= i < j < |rows| && rows[i].connection == rows[j].connection && rows[i].event == rows[j].event ==>
      rows[i].calendar == rows[j].calendar
  }

  /**
   * What the catalog holds under one of the two fixed names. `exact` means the expected definition;
   * a constraint is exact only with a valid index behind it.
   */
  datatype Named = Absent | Index(exact: bool, valid: bool) | Constraint(exact: bool) {
    predicate Expected() { Absent? || exact }
    predicate Enforces() { Expected() && (Constraint? || (Index? && valid)) }
  }

  datatype State = State(rows: seq<Row>, legacy: Named, triple: Named) {
    /** The rows obey every enforced object. */
    ghost predicate Consistent() {
      (legacy.Enforces() ==> PairUnique(rows)) && (triple.Enforces() ==> TripleUnique(rows))
    }

    predicate Expected() { legacy.Expected() && triple.Expected() }

    predicate Protected() { legacy.Enforces() || triple.Enforces() }

    predicate Migrated() { legacy == Absent && triple == Constraint(true) }
  }

  /** What one commit may change: a writer's rows, one stage of the index, the upgrade's switch, or the downgrade's. */
  ghost predicate CommitStep(s: State, t: State) {
    && t.Consistent()
    && (|| (t.legacy == s.legacy && t.triple == s.triple)
        || (t == s.(triple := Absent) && s.triple == Index(true, false))
        || (t == s.(triple := Index(true, false)) && s.triple == Absent)
        || (t == s.(triple := Index(true, true)) && s.triple == Index(true, false))
        || (t == State(s.rows, Absent, Constraint(true)) && s.triple.Enforces() && s.Expected())
        || (t == State(s.rows, Constraint(true), Absent) && s.Expected()))
  }

  ghost predicate CommitRun(states: seq<State>) {
    states != [] && forall i :: 0 <= i < |states| - 1 ==> CommitStep(states[i], states[i + 1])
  }

  datatype Outcome = Finished | Raised | Crashed

  class Database {
    /** The last committed state. */
    var state: State
    /** Every committed state, oldest first. */
    ghost var history: seq<State>
    /** No other session, no crash and no failing statement. */
    const calm: bool

    constructor (initial: State, calm: bool)
      requires initial.Consistent()
      ensures Valid() && state == initial && history == [initial] && this.calm == calm
    {
      state := initial;
      history := [initial];
      this.calm := calm;
    }

    ghost predicate Valid()
      reads this
    {
      CommitRun(history) && history[|history| - 1] == state && state.Consistent()
    }

    /** The catalog is untouched; other sessions may have committed rows. */
    twostate predicate OnlyRowsChanged()
      reads this
    {
      && old(history) <= history
      && state.legacy == old(state.legacy) && state.triple == old(state.triple)
      && (calm ==> state == old(state))
    }

    /** Other sessions write rows; nothing is promised but what the committed catalog enforces. */
    method Others()
      requires Valid()
      modifies this
      ensures Valid() && OnlyRowsChanged()
    {
    }

    /** Time passes before the next statement, and the process may die. */
    method Hazard() returns (crashed: bool)
      requires Valid()
      modifies this
      ensures Valid() && OnlyRowsChanged() && (crashed ==> !calm)
    {
      Others();
      var dies: bool := *;
      crashed := dies && !calm;
    }

    method Commit(next: State)
      requires Valid() && CommitStep(state, next)
      modifies this
      ensures Valid() && state == next && history == old(history) + [next]
    {
      state := next;
      history := history + [next];
    }

    /** `_prepare_new_index`: each index statement commits on its own, and a failed build leaves an invalid index. */
    method PrepareNewIndex() returns (outcome: Outcome)
      requires Valid()
      modifies this
      ensures Valid() && old(history) <= history && state.legacy == old(state.legacy)
      ensures outcome == Finished ==> state.triple.Enforces()
      ensures !old(state.triple).Expected() ==> outcome == Raised && state == old(state)
      ensures old(state.triple).Expected() ==> state.triple.Expected()
      ensures calm ==> state.rows == old(state.rows) && outcome != Crashed
      ensures calm && old(state).Expected() && TripleUnique(state.rows) ==> outcome == Finished
    {
      if !state.triple.Expected() {
        return Raised;
      }
      if state.triple.Enforces() {
        return Finished;
      }
      if state.triple == Index(true, false) {
        Commit(state.(triple := Absent));
        var crashed := Hazard();
        if crashed {
          return Crashed;
        }
      }
      Commit(state.(triple := Index(true, false)));
      var crashed := Hazard();
      if crashed {
        return Crashed;
      }
      var fails: bool := *;
      if !TripleUnique(state.rows) || (fails && !calm) {
        return Raised;
      }
      Commit(state.(triple := Index(true, true)));
      outcome := Finished;
    }

    /** `_attach_new_identity` and `_drop_legacy_identity_after_attach`, in one transaction. */
    method SwitchIdentity() returns (outcome: Outcome)
      requires Valid()
      modifies this
      ensures Valid() && old(history) <= history
      ensures outcome == Finished ==> state.Migrated() && state.rows == old(state.rows)
      ensures outcome != Finished ==> state == old(state) || state.Migrated()
      ensures outcome == Raised ==> state == old(state)
      ensures calm ==> outcome == if old(state).Expected() && old(state).triple.Enforces() then Finished else Raised
    {
      if !state.triple.Expected() || !state.triple.Enforces() {
        return Raised;
      }
      var pending := state.(triple := Constraint(true));
      if !pending.legacy.Expected() {
        return Raised;
      }
      pending := pending.(legacy := Absent);
      var diesBefore: bool := *;
      if diesBefore && !calm {
        return Crashed;
      }
      Commit(pending);
      var diesAfter: bool := *;
      outcome := if diesAfter && !calm then Crashed else Finished;
    }

    /**
     * `upgrade`: it ends in the final catalog or keeps the legacy object, and undisturbed it finishes
     * exactly when both objects are as expected and no pair of rows shares a legacy identity.
     */
    method Upgrade() returns (outcome: Outcome)
      requires Valid()
      modifies this
      ensures Valid() && old(history) <= history
      ensures outcome == Finished ==> state.Migrated()
      ensures outcome != Finished ==> state.legacy == old(state.legacy) || state.Migrated()
      ensures !old(state).Expected() ==>
        outcome != Finished && state.legacy == old(state.legacy) && state.triple == old(state.triple)
      ensures calm ==> outcome == if UpgradeOf(old(state)).Some? then Finished else Raised
      ensures calm && outcome == Finished ==> state == UpgradeOf(old(state)).value
    {
      var crashed := Hazard();
      if crashed {
        return Crashed;
      }
      if !state.legacy.Expected() || !state.triple.Expected() {
        return Raised;
      }
      if !PairUnique(state.rows) {
        return Raised;
      }
      crashed := Hazard();
      if crashed {
        return Crashed;
      }
      PairImpliesTriple(state.rows);
      outcome := PrepareNewIndex();
      if outcome != Finished {
        return;
      }
      crashed := Hazard();
      if crashed {
        return Crashed;
      }
      outcome := SwitchIdentity();
    }

    /**
     * `downgrade`, one transaction: it restores the legacy constraint or changes nothing, and
     * undisturbed it succeeds exactly when `DowngradeOf` does.
     */
    method Downgrade() returns (outcome: Outcome)
      requires Valid()
      modifies this
      ensures Valid() && old(history) <= history
      ensures outcome == Finished ==> state.legacy == Constraint(true) && state.triple == Absent
      ensures outcome == Raised ==> state.legacy == old(state.legacy) && state.triple == old(state.triple)
      ensures calm ==> outcome == if DowngradeOf(old(state)).Some? then Finished else Raised
      ensures calm && outcome == Finished ==> state == DowngradeOf(old(state)).value
    {
      var crashed := Hazard();
      if crashed {
        return Crashed;
      }
      if !NoCrossCalendar(state.rows) {
        return Raised;
      }
      crashed := Hazard();
      if crashed {
        return Crashed;
      }
      if !state.triple.Expected() || state.triple == Index(true, false) {
        return Raised;
      }
      if !state.legacy.Expected() || state.legacy == Index(true, false) {
        return Raised;
      }
      // A missing legacy object is rebuilt, which fails on rows that repeat a legacy identity.
      if state.legacy == Absent && !PairUnique(state.rows) {
        return Raised;
      }
      Commit(State(state.rows, Constraint(true), Absent));
      var dies: bool := *;
      outcome := if dies && !calm then Crashed else Finished;
    }
  }

  // ---------------------------------------------------------------- undisturbed runs

  /** The result of an undisturbed upgrade; `None` when it raises. */
  function UpgradeOf(s: State): Option<State> {
    if s.Expected() && PairUnique(s.rows) then Some(State(s.rows, Absent, Constraint(true))) else None
  }

  function DowngradeOf(s: State): Option<State> {
    if s.Expected() && s.triple != Index(true, false) && s.legacy != Index(true, false)
       && NoCrossCalendar(s.rows) && (s.legacy == Absent ==> PairUnique(s.rows))
    then Some(State(s.rows, Constraint(true), Absent)) else None
  }

  lemma PairImpliesTriple(rows: seq<Row>)
    ensures PairUnique(rows) ==> TripleUnique(rows)
  {
  }

  /** The downgrade's check and the triple identity together give the legacy identity back, and nothing less does. */
  lemma DowngradeCheckIsExact(rows: seq<Row>)
    ensures PairUnique(rows) <==> NoCrossCalendar(rows) && TripleUnique(rows)
  {
    if NoCrossCalendar(rows) && TripleUnique(rows) {
      forall i, j | 0 <= i < j < |rows|
        ensures rows[i].connection != rows[j].connection || rows[i].event != rows[j].event
      {
        assert rows[i] != rows[j];
      }
    }
  }

  /** From the migrated catalog the downgrade succeeds exactly when its own check does. */
  lemma DowngradeOfMigrated(s: State)
    requires s.Consistent() && s.Migrated()
    ensures DowngradeOf(s).Some? <==> NoCrossCalendar(s.rows)
  {
    DowngradeCheckIsExact(s.rows);
  }

  /** Undisturbed, the downgrade undoes the upgrade. */
  lemma DowngradeUndoesUpgrade(s: State)
    requires s.Consistent() && s.legacy == Constraint(true) && s.triple == Absent
    ensures UpgradeOf(s).Some? && DowngradeOf(UpgradeOf(s).value) == Some(s)
  {
    DowngradeCheckIsExact(s.rows);
  }

  // ---------------------------------------------------------------- every committed state

  ghost predicate StillLegacyOrMigrated(s: State) {
    s.Consistent() && s.Expected() && (s.legacy.Enforces() || s.Migrated())
  }

  /** From a valid legacy identity, every committed state enforces one of the two identities. */
  lemma {:induction false} EveryCommittedStateIsProtected(states: seq<State>, i: nat)
    requires CommitRun(states) && i < |states| && StillLegacyOrMigrated(states[0])
    ensures StillLegacyOrMigrated(states[i]) && states[i].Protected()
    ensures PairUnique(states[i].rows) || TripleUnique(states[i].rows)
  {
    if i > 0 {
      EveryCommittedStateIsProtected(states, i - 1);
      assert CommitStep(states[i - 1], states[i - 1 + 1]);
    }
  }

  /**
   * Rerunning the upgrade from any committed state reaches the same final catalog over the same rows,
   * except from the migrated catalog itself once another session has stored one provider event in two
   * calendars: there, and only there, it raises.
   */
  lemma RerunReachesFinal(states: seq<State>, i: nat)
    requires CommitRun(states) && i < |states| && StillLegacyOrMigrated(states[0])
    ensures UpgradeOf(states[i]).Some? <==> !states[i].Migrated() || NoCrossCalendar(states[i].rows)
    ensures UpgradeOf(states[i]).Some? ==>
      UpgradeOf(states[i]).value.Migrated() && UpgradeOf(states[i]).value.rows == states[i].rows
  {
    EveryCommittedStateIsProtected(states, i);
    DowngradeCheckIsExact(states[i].rows);
  }

  /** Such a state exists: the legal rows of the new identity stop a repeated upgrade. */
  lemma RepeatedUpgradeCanRaise() returns (states: seq<State>)
    ensures CommitRun(states) && StillLegacyOrMigrated(states[0]) && states[0].legacy == Constraint(true)
    ensures states[|states| - 1].Migrated() && UpgradeOf(states[|states| - 1]).None?
  {
    var row, other := Row(1, 1, 1), Row(1, 2, 1);
    var start := State([row], Constraint(true), Absent);
    states := [
      start,
      start.(triple := Index(true, false)),
      start.(triple := Index(true, true)),
      State([row], Absent, Constraint(true)),
      State([row, other], Absent, Constraint(true))
    ];
    var rows := states[4].rows;
    assert rows[0].connection == rows[1].connection && rows[0].event == rows[1].event;
  }
}
