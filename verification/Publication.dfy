/**
 * Withdrawing a published file while others may replace, remove or recreate its public name
 * (backend/src/ai_employee/infrastructure/calendar_aad_publication.py). Every system call may fail,
 * with or without having taken effect, and the public directory may change before every call.
 */
module Publication {
  import opened Prelude

  /** What `stat` reports and `_same_publication` compares; `regular` is part of the mode. */
  datatype Stat = Stat(inode: nat, mode: nat, regular: bool, modified: int, size: nat)

  /** A system call's report. `Missing` is ENOENT, `Fault` any other error. */
  datatype Report<+T> = Done(value: T) | Missing | Fault

  /**
   * What one withdrawal has done to directory entries so far, and what it saw at the public name:
   * the entries it created, captured, destroyed (unlinked or overwrote) and put back; and whether a
   * foreign entry stood in its way: a directory at the name, or the name taken again on the way back.
   */
  datatype History = History(
    created: set<Stat>, captured: set<Stat>, destroyed: set<Stat>, returned: set<Stat>, saw: set<Option<Stat>>,
    obstructed: bool)

  const NOTHING_YET := History({}, {}, {}, {}, {}, false)

  /** `_same_publication`. */
  predicate SamePublication(current: Stat, identity: Stat) {
    identity.regular && current == identity
  }

  /**
   * The public directory, which anyone may change, and the private custody directory, which only
   * this process changes. A live private inode has no second name and its number is not reused.
   */
  class FileSystem {
    /** No call fails but for a foreign entry in its way; nobody else acts on the public directory. */
    const reliable: bool
    const quiet: bool
    var public: map<string, Stat>
    var custody: map<string, Stat>
    var custodyExists: bool
    ghost var placeholder: Option<Stat>
    ghost var history: History

    ghost predicate Valid()
      reads this
    {
      && (!custodyExists ==> custody == map[])
      && (placeholder.Some? ==> forall name :: name in public ==> public[name].inode != placeholder.value.inode)
    }

    /** A custody directory that kept something stays as it is; the next withdrawal makes its own. */
    method LeaveCustodyBehind()
      requires Valid()
      modifies this`custody, this`custodyExists, this`placeholder
      ensures Valid() && !custodyExists && custody == map[] && placeholder.None?
    {
      custody, custodyExists, placeholder := map[], false, None;
    }

    /** Others act on the public directory, unless it is quiet; nothing is promised about what they leave there. */
    method Interfere()
      requires Valid()
      modifies this`public
      ensures Valid() && (quiet ==> public == old(public))
    {
    }

    method Lstat(name: string) returns (r: Report<Stat>)
      requires Valid()
      modifies this`public, this`history
      ensures Valid() && (reliable ==> !r.Fault?)
      ensures quiet ==> public == old(public)
      ensures quiet && r.Done? ==> name in public && r.value == public[name]
      ensures quiet && r.Missing? ==> name !in public
      ensures r.Done? ==> history == old(history).(saw := old(history).saw + {Some(r.value)})
      ensures r.Missing? ==> history == old(history).(saw := old(history).saw + {None})
      ensures r.Fault? ==> history == old(history)
    {
      Interfere();
      var fails: bool := *;
      fails := fails && !reliable;
      if fails {
        r := Fault;
      } else if name in public {
        r := Done(public[name]);
        history := history.(saw := history.saw + {Some(public[name])});
      } else {
        r := Missing;
        history := history.(saw := history.saw + {None});
      }
    }

    /** Opening, closing and syncing the two directories touch no entry. */
    method Touch() returns (r: Report<()>)
      requires Valid()
      modifies this`public
      ensures Valid() && !r.Missing? && (reliable ==> r.Done?) && (quiet ==> public == old(public))
    {
      Interfere();
      var fails: bool := *;
      fails := fails && !reliable;
      r := if fails then Fault else Done(());
    }

    method MakeCustody() returns (r: Report<()>)
      requires Valid() && !custodyExists
      modifies this`public, this`custodyExists
      ensures Valid() && !r.Missing? && (r.Done? ==> custodyExists)
      ensures (reliable ==> r.Done?) && (quiet ==> public == old(public))
    {
      Interfere();
      var fails: bool := *;
      fails := fails && !reliable;
      var made: bool := *;
      custodyExists := made || !fails;
      r := if fails then Fault else Done(());
    }

    /** Exclusive creation of a private regular file; a failing call may have created it. */
    method CreatePlaceholder(name: string, attributes: Stat) returns (r: Report<Stat>)
      requires Valid() && custodyExists && custody == map[] && placeholder.None? && attributes.regular
      modifies this
      ensures Valid() && custodyExists && !r.Missing?
      ensures (reliable ==> r.Done?) && (quiet ==> public == old(public))
      ensures placeholder.Some? && (custody == map[] || custody == map[name := placeholder.value])
      ensures r.Done? ==> r.value == placeholder.value && placeholder.value.regular && name in custody
      ensures history == old(history).(created := old(history).created + {placeholder.value})
    {
      Interfere();
      var inodes := set n | n in public :: public[n].inode;
      var inode := UnusedInode(inodes);
      var entry := attributes.(inode := inode);
      placeholder := Some(entry);
      history := history.(created := history.created + {entry});
      var before: bool := *;
      if before && !reliable {
        r := Fault;
        return;
      }
      custody := custody[name := entry];
      var after: bool := *;
      r := if after && !reliable then Fault else Done(entry);
    }

    /**
     * `rename` of the public name onto the placeholder: it captures whatever is there and destroys
     * the placeholder. Even a reported failure may have taken effect. A directory is refused.
     */
    method Capture(name: string) returns (r: Report<()>)
      requires Valid() && placeholder.Some? && custodyExists && custody == map[name := placeholder.value]
      modifies this
      ensures Valid() && custodyExists && placeholder == old(placeholder)
      ensures reliable && r.Fault? ==> history.obstructed
      ensures quiet ==> if name in old(public) && custody != old(custody)
        then public == old(public) - {name} && custody == map[name := old(public)[name]]
        else public == old(public) && custody == old(custody)
      ensures quiet && name in old(public) && old(public)[name].regular ==>
        !history.obstructed || old(history).obstructed
      ensures quiet && name in old(public) && (r.Done? || r.Missing?) ==> custody != old(custody)
      ensures reliable && custody != old(custody) ==> r.Done?
      ensures (custody == old(custody) && history == old(history).(obstructed := history.obstructed) && r.Fault?)
        || (custody == old(custody) && r.Missing? && history == old(history).(saw := old(history).saw + {None}))
        || (name in custody && custody == map[name := custody[name]] && custody[name].inode != placeholder.value.inode
            && history == old(history).(captured := old(history).captured + {custody[name]},
                                        destroyed := old(history).destroyed + {placeholder.value}))
    {
      Interfere();
      var before: bool := *;
      if (before && !reliable) || (name in public && !public[name].regular && before) {
        history := history.(obstructed := history.obstructed || reliable);
        r := Fault;
        return;
      }
      if name !in public {
        history := history.(saw := history.saw + {None});
        r := Missing;
        return;
      }
      var captured := public[name];
      assert custody[name] == placeholder.value && captured != placeholder.value;
      public := public - {name};
      custody := map[name := captured];
      assert custody[name] == captured;
      history := history.(captured := history.captured + {captured},
        destroyed := history.destroyed + {placeholder.value});
      var after: bool := *;
      var missing: bool := *;
      r := if reliable then Done(()) else if missing then Missing else if after then Fault else Done(());
    }

    method StatPrivate(name: string) returns (r: Report<Stat>)
      requires Valid() && name in custody
      modifies this`public
      ensures Valid() && !r.Missing? && (r.Done? ==> r.value == custody[name])
      ensures (reliable ==> r.Done?) && (quiet ==> public == old(public))
    {
      Interfere();
      var fails: bool := *;
      fails := fails && !reliable;
      r := if fails then Fault else Done(custody[name]);
    }

    method UnlinkPrivate(name: string) returns (r: Report<()>)
      requires Valid() && custody.Keys == {name}
      modifies this
      ensures Valid() && custodyExists == old(custodyExists) && placeholder == old(placeholder) && !r.Missing?
      ensures (reliable ==> r.Done?) && (quiet ==> public == old(public)) && (r.Done? ==> custody == map[])
      ensures (custody == old(custody) && history == old(history) && r.Fault?)
        || (custody == map[] && history == old(history).(destroyed := old(history).destroyed + {old(custody[name])}))
    {
      Interfere();
      var before: bool := *;
      if before && !reliable {
        r := Fault;
        return;
      }
      history := history.(destroyed := history.destroyed + {custody[name]});
      custody := map[];
      var after: bool := *;
      r := if after && !reliable then Fault else Done(());
    }

    /** `RENAME_NOREPLACE` back to the public name: an occupied name refuses it. */
    method ReturnWithoutReplacement(name: string) returns (r: Report<()>)
      requires Valid() && custody.Keys == {name}
      requires placeholder.Some? ==> custody[name].inode != placeholder.value.inode
      modifies this
      ensures Valid() && custodyExists == old(custodyExists) && placeholder == old(placeholder) && !r.Missing?
      ensures (reliable && r.Fault? ==> history.obstructed) && (r.Done? ==> custody == map[])
      ensures quiet && name !in old(public) ==> history.obstructed == old(history).obstructed
      ensures (custody == old(custody) && history == old(history).(obstructed := history.obstructed) && r.Fault?)
        || (custody == map[] && name in public && public[name] == old(custody[name])
            && history == old(history).(returned := old(history).returned + {old(custody[name])}))
    {
      Interfere();
      var before: bool := *;
      if (before && !reliable) || name in public {
        history := history.(obstructed := history.obstructed || name in public);
        r := Fault;
        return;
      }
      public := public[name := custody[name]];
      history := history.(returned := history.returned + {custody[name]});
      custody := map[];
      var after: bool := *;
      r := if after && !reliable then Fault else Done(());
    }

    /** `rmdir` of the custody directory; an entry left inside refuses it. */
    method RemoveCustody() returns (r: Report<()>)
      requires Valid() && custodyExists
      modifies this`public, this`custodyExists
      ensures Valid() && !r.Missing? && (quiet ==> public == old(public))
      ensures reliable && custody == map[] ==> r.Done?
      ensures r.Done? ==> !custodyExists && custody == map[]
      ensures custody != map[] ==> custodyExists
    {
      Interfere();
      var before: bool := *;
      if (before && !reliable) || custody != map[] {
        r := Fault;
        return;
      }
      custodyExists := false;
      var after: bool := *;
      r := if after && !reliable then Fault else Done(());
    }
  }

  /** The file system's choice of an inode number that no listed file has. */
  method UnusedInode(used: set<nat>) returns (n: nat)
    ensures n !in used
  {
    n := 0;
    var rest := used;
    while rest != {}
      invariant rest <= used && forall k :: k in used && k !in rest ==> k < n
      decreases rest
    {
      var k :| k in rest;
      rest := rest - {k};
      if k >= n {
        n := k + 1;
      }
    }
  }

  // ---------------------------------------------------------------- what a withdrawal may do

  /** The publication is at its name. */
  predicate Holds(public: map<string, Stat>, name: string, identity: Stat) {
    name in public && SamePublication(public[name], identity)
  }

  /** Only the publication itself and this process's own placeholder are ever destroyed. */
  ghost predicate DestroysOnlyOwn(h: History, identity: Stat) {
    h.destroyed <= h.created + {identity}
  }

  /** Whatever was captured was destroyed as the publication, put back, or is still in custody. */
  ghost predicate AccountsForCaptured(h: History, identity: Stat, custody: map<string, Stat>, name: string) {
    forall entry :: entry in h.captured ==>
      || (entry == identity && identity in h.destroyed)
      || entry in h.returned
      || (name in custody && custody[name] == entry)
  }

  /** Why a withdrawal may report success: it destroyed the publication or found the name without it. */
  ghost predicate Withdrawn(h: History, identity: Stat) {
    || identity in h.destroyed
    || None in h.saw
    || (exists found :: Some(found) in h.saw && !SamePublication(found, identity))
    || (exists found :: found in h.captured && !SamePublication(found, identity))
  }

  ghost predicate Honest(h: History, identity: Stat, custody: map<string, Stat>, name: string) {
    DestroysOnlyOwn(h, identity) && AccountsForCaptured(h, identity, custody, name)
  }

  datatype Outcome = Succeeded | Failed

  /** Without a failing call and with nothing foreign in the way, what was captured is settled. */
  ghost predicate Settled(h: History, identity: Stat) {
    forall entry :: entry in h.captured ==> (entry == identity && identity in h.destroyed) || entry in h.returned
  }

  /** The two directory syncs. */
  method SyncBoth(fs: FileSystem) returns (outcome: Outcome)
    requires fs.Valid()
    modifies fs`public
    ensures fs.Valid() && (fs.reliable ==> outcome.Succeeded?) && (fs.quiet ==> fs.public == old(fs.public))
  {
    var custody := fs.Touch();
    if custody.Fault? {
      return Failed;
    }
    var parent := fs.Touch();
    return if parent.Fault? then Failed else Succeeded;
  }

  /** The handler of a failed capture: only a placeholder still proven to be there is unlinked. */
  method AfterFailedCapture(fs: FileSystem, name: string, identity: Stat, placeholder: Stat, missing: bool)
    returns (outcome: Outcome)
    requires fs.Valid() && placeholder.regular && fs.custody.Keys == {name} && placeholder in fs.history.created
    requires Honest(fs.history, identity, fs.custody, name)
    requires placeholder !in fs.history.captured
    modifies fs
    ensures fs.Valid() && fs.custodyExists == old(fs.custodyExists)
    ensures Honest(fs.history, identity, fs.custody, name)
    ensures outcome.Succeeded? ==> missing && fs.custody == map[] && old(fs.custody[name]) == placeholder
    ensures fs.history == old(fs.history).(destroyed := fs.history.destroyed)
    ensures fs.quiet ==> fs.public == old(fs.public)
    ensures fs.reliable && missing && old(fs.custody[name]) == placeholder ==> outcome.Succeeded?
  {
    var current := fs.StatPrivate(name);
    if current.Done? && SamePublication(current.value, placeholder) {
      var unlinked := fs.UnlinkPrivate(name);
      if unlinked.Done? && missing {
        return Succeeded;
      }
    }
    return Failed;
  }

  /** `_discard_captured`. */
  method DiscardCaptured(fs: FileSystem, name: string, identity: Stat, attributes: Stat) returns (outcome: Outcome)
    requires fs.Valid() && fs.custodyExists && fs.custody == map[] && fs.placeholder.None?
    requires identity.regular && attributes.regular
    requires fs.history == NOTHING_YET.(saw := fs.history.saw)
    modifies fs
    ensures fs.Valid() && fs.custodyExists
    ensures Honest(fs.history, identity, fs.custody, name)
    ensures outcome.Succeeded? ==> fs.custody == map[] && Withdrawn(fs.history, identity)
    ensures fs.reliable && !fs.history.obstructed ==> outcome.Succeeded? && Settled(fs.history, identity)
    ensures fs.quiet && name in old(fs.public) && old(fs.public)[name] == identity ==>
      && !fs.history.obstructed
      && (fs.reliable ==> fs.public == old(fs.public) - {name} && identity in fs.history.destroyed)
  {
    var created := fs.CreatePlaceholder(name, attributes);
    if !created.Done? {
      return Failed;
    }
    var renamed := fs.Capture(name);
    if !renamed.Done? {
      outcome := AfterFailedCapture(fs, name, identity, created.value, renamed.Missing?);
      return;
    }
    var synced := SyncBoth(fs);
    if synced.Failed? {
      return Failed;
    }
    var current := fs.StatPrivate(name);
    if current.Fault? {
      return Failed;
    }
    var settled: Report<()>;
    if SamePublication(current.value, identity) {
      settled := fs.UnlinkPrivate(name);
    } else {
      settled := fs.ReturnWithoutReplacement(name);
    }
    if settled.Fault? {
      return Failed;
    }
    outcome := SyncBoth(fs);
  }

  /** The custody directory's life around one captured withdrawal. */
  method DiscardThroughCustody(fs: FileSystem, name: string, identity: Stat,
    attributes: Stat) returns (outcome: Outcome)
    requires fs.Valid() && !fs.custodyExists && fs.placeholder.None?
    requires identity.regular && attributes.regular
    requires fs.history == NOTHING_YET.(saw := fs.history.saw)
    modifies fs
    ensures fs.Valid()
    ensures Honest(fs.history, identity, fs.custody, name)
    ensures fs.custody != map[] ==> fs.custodyExists && outcome.Failed?
    ensures outcome.Succeeded? ==> !fs.custodyExists && Withdrawn(fs.history, identity)
    ensures fs.reliable && !fs.history.obstructed ==>
      outcome.Succeeded? && !fs.custodyExists && Settled(fs.history, identity)
    ensures fs.quiet && name in old(fs.public) && old(fs.public)[name] == identity ==>
      && !fs.history.obstructed
      && (fs.reliable ==> fs.public == old(fs.public) - {name} && identity in fs.history.destroyed)
  {
    var made := fs.MakeCustody();
    if made.Fault? {
      return Failed;
    }
    var handle := fs.Touch();
    outcome := Failed;
    if handle.Done? {
      outcome := DiscardCaptured(fs, name, identity, attributes);
      var closed := fs.Touch();
      if closed.Fault? {
        outcome := Failed;
      }
    }
    // An unknown or foreign entry left in custody makes this fail; it is never emptied by force.
    var removed := fs.RemoveCustody();
    if removed.Fault? {
      return Failed;
    }
    if outcome.Succeeded? {
      var synced := fs.Touch();
      if synced.Fault? {
        return Failed;
      }
    }
  }

  /**
   * `discard_calendar_aad_publication`. Whatever others do to the public name and whatever call
   * fails: nothing but the publication and this call's own placeholder is destroyed, every captured
   * entry was put back or is still in custody, and success means the publication is gone from the
   * name or was not there. Where no call fails and nothing foreign stands in the way it succeeds with
   * every captured entry destroyed as the publication or put back, and where nobody interferes either,
   * the publication is removed if it was there and the directory is otherwise as it was.
   */
  method Discard(fs: FileSystem, name: string, identity: Stat, attributes: Stat) returns (outcome: Outcome)
    requires fs.Valid() && !fs.custodyExists && attributes.regular
    modifies fs
    ensures fs.Valid()
    ensures Honest(fs.history, identity, fs.custody, name)
    ensures fs.custody != map[] ==> fs.custodyExists && outcome.Failed?
    ensures outcome.Succeeded? ==> !fs.custodyExists && Withdrawn(fs.history, identity)
    ensures fs.reliable && !fs.history.obstructed ==>
      outcome.Succeeded? && !fs.custodyExists && Settled(fs.history, identity)
    ensures fs.quiet && fs.reliable ==>
      && outcome.Succeeded? && !fs.custodyExists
      && (if Holds(old(fs.public), name, identity)
          then fs.public == old(fs.public) - {name} && identity in fs.history.destroyed
          else fs.public == old(fs.public))
  {
    fs.history := NOTHING_YET;
    fs.placeholder := None;
    var current := fs.Lstat(name);
    if current.Missing? {
      return Succeeded;
    }
    if current.Fault? {
      return Failed;
    }
    if !SamePublication(current.value, identity) {
      return Succeeded;
    }
    var handle := fs.Touch();
    if handle.Fault? {
      return Failed;
    }
    outcome := DiscardThroughCustody(fs, name, identity, attributes);
    var closed := fs.Touch();
    if closed.Fault? {
      outcome := Failed;
    }
  }

  datatype Member = Member(name: string, identity: Stat)

  /** What one member's withdrawal did, and what its custody directory still holds. */
  datatype MemberResult = MemberResult(outcome: Outcome, history: History, kept: map<string, Stat>)

  ghost predicate HonestMember(m: Member, r: MemberResult) {
    && Honest(r.history, m.identity, r.kept, m.name)
    && (r.kept != map[] ==> r.outcome.Failed?)
    && (r.outcome.Succeeded? ==> Withdrawn(r.history, m.identity))
  }

  /** The public directory without the first `k` members that were at their names. */
  function WithoutMembers(public: map<string, Stat>, members: seq<Member>, k: nat): map<string, Stat>
    requires k <= |members|
  {
    map n | n in public && !(exists i :: 0 <= i < k && members[i].name == n && Holds(public, n, members[i].identity))
      :: public[n]
  }

  lemma OneMoreMember(public: map<string, Stat>, members: seq<Member>, k: nat)
    requires k < |members|
    ensures var before, m := WithoutMembers(public, members, k), members[k];
      WithoutMembers(public, members, k + 1) == if Holds(before, m.name, m.identity) then before - {m.name} else before
  {
  }

  /** `_discard_backup_members`: every member is withdrawn, whatever happened to the others. */
  method DiscardMembers(fs: FileSystem, members: seq<Member>, attributes: Stat)
    returns (outcome: Outcome, ghost results: seq<MemberResult>)
    requires fs.Valid() && attributes.regular
    modifies fs
    ensures fs.Valid() && |results| == |members|
    ensures forall i :: 0 <= i < |members| ==> HonestMember(members[i], results[i])
    ensures outcome.Succeeded? <==> forall i :: 0 <= i < |members| ==> results[i].outcome.Succeeded?
    ensures fs.quiet && fs.reliable ==>
      outcome.Succeeded? && fs.public == WithoutMembers(old(fs.public), members, |members|)
  {
    outcome, results := Succeeded, [];
    assert fs.public == WithoutMembers(fs.public, members, 0);
    for i := 0 to |members|
      invariant fs.Valid() && |results| == i
      invariant forall k :: 0 <= k < i ==> HonestMember(members[k], results[k])
      invariant outcome.Succeeded? <==> forall k :: 0 <= k < i ==> results[k].outcome.Succeeded?
      invariant fs.quiet && fs.reliable ==>
        outcome.Succeeded? && fs.public == WithoutMembers(old(fs.public), members, i)
    {
      OneMoreMember(old(fs.public), members, i);
      fs.LeaveCustodyBehind();
      var one := Discard(fs, members[i].name, members[i].identity, attributes);
      results := results + [MemberResult(one, fs.history, fs.custody)];
      if one.Failed? {
        outcome := Failed;
      }
    }
  }
}
