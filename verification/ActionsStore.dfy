/**
 * frontend/src/stores/actions.ts in place: the store's refs, maps and counters as fields, one
 * method for each stretch between awaits. Every method is proved to be a step of ActionProtocol.
 */
module ActionsStore {
  import opened Prelude
  import opened TaskFacts
  import opened ActionProtocol

  datatype Suspended = Suspended(
    lists: map<RequestId, ListRead>, loaders: map<RequestId, Loader>, resolvers: map<RequestId, Resolver>,
    nextId: RequestId)

  datatype History = History(now: nat, lastProjection: nat, lastAcceptedList: nat)

  class Actions {
    var items: seq<Item>
    var filters: int
    var loading: bool
    var loaded: bool
    var listError: bool
    var snapshots: map<TaskId, ActionSnapshot>
    var snapshotLoading: set<TaskId>
    var snapshotErrors: set<TaskId>
    var mutating: set<TaskId>
    var latestSequences: map<TaskId, nat>
    var pendingSnapshots: map<TaskId, RequestId>
    var refreshAgain: set<TaskId>
    var epoch: nat
    var listGeneration: nat
    var projectionGeneration: nat
    var acceptedListGeneration: nat

    /** The suspended closures, and the next identity for one. */
    var running: Suspended

    /** Never read by a branch. */
    var history: History

    ghost function View(): State
      reads this
    {
      State(Store(items, filters, loading, loaded, listError, snapshots, snapshotLoading, snapshotErrors,
                  mutating, latestSequences, pendingSnapshots, refreshAgain,
                  epoch, listGeneration, projectionGeneration, acceptedListGeneration),
            running.lists, running.loaders, running.resolvers, running.nextId,
            history.now, history.lastProjection, history.lastAcceptedList)
    }

    constructor ()
      ensures View() == Initial()
    {
      items, filters, loading, loaded, listError := [], 0, false, false, false;
      snapshots, snapshotLoading, snapshotErrors, mutating := map[], {}, {}, {};
      latestSequences, pendingSnapshots, refreshAgain := map[], map[], {};
      epoch, listGeneration, projectionGeneration, acceptedListGeneration := 0, 0, 0, 0;
      running, history := Suspended(map[], map[], map[], 0), History(0, 0, 0);
    }

    /** `refreshList` up to its await. */
    method RefreshList(nextFilters: int)
      modifies this
      ensures View() == old(View()).RefreshList(nextFilters)
    {
      filters := nextFilters;
      listGeneration := listGeneration + 1;
      var read := ListRead(epoch, listGeneration, projectionGeneration, history.now);
      running := running.(lists := running.lists[running.nextId := read], nextId := running.nextId + 1);
      loading := true;
      listError := false;
    }

    /** `refreshList` after `listActions` resolved. */
    method ListReply(id: RequestId, page: seq<Item>)
      requires id in running.lists
      modifies this
      ensures View() == old(View()).ListReply(id, page)
    {
      var read := running.lists[id];
      running := running.(lists := running.lists - {id});
      if read.owner != epoch || read.generation != listGeneration {
        return;
      }
      if read.observedProjection != projectionGeneration {
        RefreshList(filters);
        return;
      }
      InstallPage(page);
    }

    method InstallPage(page: seq<Item>)
      modifies this`acceptedListGeneration, this`history, this`items, this`loaded, this`loading
      ensures acceptedListGeneration == old(acceptedListGeneration) + 1
      ensures history == old(history).(lastAcceptedList := old(history.now))
      ensures items == page && loaded && !loading
    {
      acceptedListGeneration := acceptedListGeneration + 1;
      history := history.(lastAcceptedList := history.now);
      items := page;
      loaded := true;
      loading := false;
    }

    /** `refreshList` after `listActions` rejected. */
    method ListFailure(id: RequestId)
      requires id in running.lists
      modifies this
      ensures View() == old(View()).ListFailure(id)
    {
      var read := running.lists[id];
      running := running.(lists := running.lists - {id});
      if read.owner == epoch && read.generation == listGeneration {
        listError := true;
        loading := false;
      }
    }

    /** The head of the `do` loop, up to `getAction`. */
    method ReadAgain(id: RequestId, loader: Loader)
      modifies this
      ensures View() == old(View()).ReadAgain(id, loader)
    {
      refreshAgain := refreshAgain - {loader.task};
      snapshotLoading := snapshotLoading + {loader.task};
      snapshotErrors := snapshotErrors - {loader.task};
      var reading := loader.(observedList := acceptedListGeneration, requestedAt := history.now,
                             readCount := loader.readCount + 1);
      running := running.(loaders := running.loaders[id := reading]);
    }

    method LoadSnapshot(task: TaskId, minimum: Option<nat>)
      modifies this
      ensures View() == old(View()).LoadSnapshot(task, minimum)
    {
      if minimum.Some? && (task !in latestSequences || minimum.value > latestSequences[task]) {
        latestSequences := latestSequences[task := minimum.value];
      }
      if task in pendingSnapshots {
        if minimum.Some? {
          refreshAgain := refreshAgain + {task};
        }
        return;
      }
      var id := running.nextId;
      running := running.(nextId := id + 1);
      pendingSnapshots := pendingSnapshots[task := id];
      ReadAgain(id, Loader(task, epoch, minimum, false, 0, history.now, 0, 0));
    }

    /** A call of `loadSnapshot` with the version it must reach, if any. */
    method Request(task: TaskId, minimum: Option<nat>)
      modifies this
      ensures View() == old(View()).Request(task, minimum)
    {
      if minimum.Some? {
        Nudge(task);
      }
      LoadSnapshot(task, minimum);
    }

    /** The loop condition and, when it is false, the `finally` of the whole load. */
    method EndIteration(id: RequestId, loader: Loader)
      modifies this
      ensures View() == old(View()).EndIteration(id, loader)
    {
      if loader.owner == epoch && loader.task in refreshAgain {
        ReadAgain(id, loader);
        return;
      }
      running := running.(loaders := running.loaders - {id});
      if loader.task in pendingSnapshots && pendingSnapshots[loader.task] == id {
        pendingSnapshots := pendingSnapshots - {loader.task};
      }
      if loader.owner == epoch {
        snapshotLoading := snapshotLoading - {loader.task};
      }
    }

    /** Lists requested before now can no longer be accepted. */
    method AdvanceProjection()
      modifies this`projectionGeneration, this`history
      ensures projectionGeneration == old(projectionGeneration) + 1
      ensures history == old(history).(lastProjection := old(history.now))
    {
      projectionGeneration := projectionGeneration + 1;
      history := history.(lastProjection := history.now);
    }

    /** Stores an accepted response; the list follows only its status. */
    method Accept(task: TaskId, snapshot: ActionSnapshot)
      modifies this
      ensures View() == old(View()).Accept(task, snapshot)
    {
      hide WithStatus;
      if task !in snapshots || snapshot.cursor > snapshots[task].cursor {
        AdvanceProjection();
      }
      Keep(task, snapshot);
    }

    method Keep(task: TaskId, snapshot: ActionSnapshot)
      modifies this`snapshots, this`latestSequences, this`items
      ensures snapshots == old(snapshots)[task := snapshot]
      ensures latestSequences == old(latestSequences)[task := snapshot.cursor]
      ensures items == WithStatus(old(items), task, snapshot.status)
    {
      snapshots := snapshots[task := snapshot];
      latestSequences := latestSequences[task := snapshot.cursor];
      items := WithStatus(items, task, snapshot.status);
    }

    /** The loop body after `getAction` resolved. */
    method SnapshotReply(id: RequestId, snapshot: ActionSnapshot)
      requires id in running.loaders
      modifies this
      ensures View() == old(View()).SnapshotReply(id, snapshot)
    {
      var loader := running.loaders[id];
      var task := loader.task;
      if loader.owner != epoch {
      } else if loader.observedList != acceptedListGeneration {
        if !loader.retriedAfterList {
          loader := loader.(retriedAfterList := true);
          refreshAgain := refreshAgain + {task};
        } else if task !in refreshAgain {
          snapshotErrors := snapshotErrors + {task};
        }
      } else if (task in latestSequences && snapshot.cursor < latestSequences[task]) ||
                (loader.minimum.Some? && snapshot.cursor < loader.minimum.value) {
        if task !in refreshAgain {
          snapshotErrors := snapshotErrors + {task};
        }
      } else {
        Accept(task, snapshot);
      }
      EndIteration(id, loader);
    }

    /** The loop body after `getAction` rejected. */
    method SnapshotFailure(id: RequestId)
      requires id in running.loaders
      modifies this
      ensures View() == old(View()).SnapshotFailure(id)
    {
      var loader := running.loaders[id];
      if loader.owner == epoch {
        snapshotErrors := snapshotErrors + {loader.task};
      }
      EndIteration(id, loader);
    }

    /** The content-free part of `applyEvent`: cursor, generation, status and attempt fields. */
    method ProjectEvent(task: TaskId, event: ActionEvent)
      requires !event.Ignored?
      modifies this
      ensures View() == old(View()).Projected(task, event)
    {
      hide Project;
      latestSequences := latestSequences[task := event.sequence];
      AdvanceProjection();
      ProjectContent(task, event);
    }

    /** The stored snapshot and the list items follow the event's own fields. */
    method ProjectContent(task: TaskId, event: ActionEvent)
      requires !event.Ignored?
      modifies this`snapshots, this`items
      ensures View() == old(View()).(store := Project(old(View()).store, task, event))
    {
      hide WithStatus, WithReport, WithExecution, WithTool;
      var known := task in snapshots;
      if event.StatusEvent? && event.status.Some? {
        if known {
          snapshots := snapshots[task := WithReport(snapshots[task], event.status.value, event.error)];
        }
        items := WithStatus(items, task, event.status.value);
      } else if known && snapshots[task].execution.Some? && event.ToolEvent? {
        var execution := WithTool(snapshots[task].execution.value, event.update);
        snapshots := snapshots[task := WithExecution(snapshots[task], execution)];
      }
    }

    method ApplyEvent(task: TaskId, event: ActionEvent)
      modifies this
      ensures View() == old(View()).ApplyEvent(task, event)
    {
      hide State.Projected, State.LoadSnapshot, State.Nudge;
      if event.Ignored? || (task in latestSequences && event.sequence <= latestSequences[task]) {
        return;
      }
      var known := task in snapshots;
      ProjectEvent(task, event);
      var terminal := event.StatusEvent? && event.status.Some? &&
        event.status.value in {Succeeded, Failed, Cancelled, NeedsAttention};
      if !known || terminal || (!event.StatusEvent? && !event.StepEvent?) {
        Nudge(task);
        if task in pendingSnapshots {
          refreshAgain := refreshAgain + {task};
        }
        LoadSnapshot(task, None);
      }
    }

    /** `resolveManually` up to its first await. */
    method ResolveManually(task: TaskId)
      modifies this
      ensures View() == old(View()).ResolveManually(task)
    {
      if task in mutating {
        return;
      }
      var id, owner := running.nextId, epoch;
      running := running.(nextId := id + 1);
      mutating := mutating + {task};
      LoadSnapshot(task, None);
      Wait(id, Resolver(task, owner, FirstLoad(Running(task))));
    }

    function Running(task: TaskId): RequestId
      reads this
    {
      if task in pendingSnapshots then pendingSnapshots[task] else 0
    }

    method Wait(id: RequestId, resolver: Resolver)
      modifies this`running
      ensures running == old(running).(resolvers := old(running.resolvers)[id := resolver])
    {
      running := running.(resolvers := running.resolvers[id := resolver]);
    }

    /** The `finally` of `resolveManually`. */
    method Finish(id: RequestId, resolver: Resolver)
      modifies this
      ensures View() == old(View()).Finish(id, resolver)
    {
      running := running.(resolvers := running.resolvers - {id});
      if resolver.owner == epoch {
        mutating := mutating - {resolver.task};
      }
    }

    /** The `catch` of `resolveManually`, up to the recovery read. */
    method Recover(id: RequestId, resolver: Resolver)
      modifies this
      ensures View() == old(View()).Recover(id, resolver)
    {
      if resolver.owner != epoch {
        Finish(id, resolver);
        return;
      }
      LoadSnapshot(resolver.task, None);
      Wait(id, resolver.(waiting := Recovery(Running(resolver.task))));
    }

    /** `resolveManually` after a load it awaited has ended. */
    method ResolveLoaded(id: RequestId)
      requires id in running.resolvers && !running.resolvers[id].waiting.Mutation?
      modifies this
      ensures View() == old(View()).ResolveLoaded(id)
    {
      var resolver := running.resolvers[id];
      var task := resolver.task;
      match resolver.waiting {
        case FirstLoad(_) =>
          if resolver.owner != epoch {
            Finish(id, resolver);
          } else if task !in snapshots || task in snapshotErrors {
            Recover(id, resolver);
          } else {
            Wait(id, resolver.(waiting := Mutation));
          }
        case SecondLoad(_) =>
          Finish(id, resolver);
        case Recovery(_) =>
          if resolver.owner == epoch {
            snapshotErrors := snapshotErrors + {task};
          }
          Finish(id, resolver);
      }
    }

    /** `resolveManually` after `resolveAction` settled with a new version or an error. */
    method MutationReply(id: RequestId, version: Option<nat>)
      requires id in running.resolvers && running.resolvers[id].waiting.Mutation?
      modifies this
      ensures View() == old(View()).MutationReply(id, version)
    {
      var resolver := running.resolvers[id];
      if version.None? {
        Recover(id, resolver);
      } else if resolver.owner != epoch {
        Finish(id, resolver);
      } else {
        Request(resolver.task, version);
        Wait(id, resolver.(waiting := SecondLoad(Running(resolver.task))));
      }
    }

    /** History only: counts an arrival for a task that is being loaded. */
    method Nudge(task: TaskId)
      modifies this`running
      ensures View() == old(View()).Nudge(task)
    {
      if task in pendingSnapshots && pendingSnapshots[task] in running.loaders {
        var id := pendingSnapshots[task];
        var nudged := running.loaders[id].(nudges := running.loaders[id].nudges + 1);
        running := running.(loaders := running.loaders[id := nudged]);
      }
    }

    method Clear()
      modifies this
      ensures View() == old(View()).Clear()
    {
      ClearList();
      ClearSnapshots();
      epoch := epoch + 1;
      mutating := {};
    }

    method ClearList()
      modifies this`listGeneration, this`items, this`filters, this`loading, this`loaded, this`listError
      ensures listGeneration == old(listGeneration) + 1
      ensures items == [] && filters == 0 && !loading && !loaded && !listError
    {
      listGeneration := listGeneration + 1;
      items, filters, loading, loaded, listError := [], 0, false, false, false;
    }

    method ClearSnapshots()
      modifies this`snapshots, this`snapshotLoading, this`snapshotErrors
      modifies this`latestSequences, this`pendingSnapshots, this`refreshAgain
      ensures snapshots == map[] && snapshotLoading == {} && snapshotErrors == {}
      ensures latestSequences == map[] && pendingSnapshots == map[] && refreshAgain == {}
    {
      snapshots, snapshotLoading, snapshotErrors := map[], {}, {};
      latestSequences, pendingSnapshots, refreshAgain := map[], map[], {};
    }

    // ---------------------------------------------------------------- one turn of the event loop

    /** Every result about the protocol holds of the fields. */
    ghost predicate Valid()
      reads this
    {
      Inv(View())
    }

    /** What an accepted list, an accepted snapshot and a late continuation may do to the fields. */
    twostate predicate Respects(step: Step)
      requires Enabled(old(View()), step)
      reads this
    {
      && (!step.ClearStep? ==> epoch == old(epoch) && forall task :: task in old(snapshots) ==>
            task in snapshots && old(snapshots)[task].cursor <= snapshots[task].cursor)
      && (FromEarlierEpoch(old(View()), step) ==> View().store == old(View().store))
      && (acceptedListGeneration != old(acceptedListGeneration) ==>
            step.ListReplyStep? && items == step.page && old(running.lists)[step.id].owner == epoch
            && old(history.lastProjection) < old(running.lists)[step.id].requestedAt)
      && (step.SnapshotReplyStep? && snapshots != old(snapshots) ==>
            old(running.loaders)[step.id].owner == epoch
            && old(history.lastAcceptedList) < old(running.loaders)[step.id].requestedAt)
    }

    /**
     * Runs whatever continues next: a caller, a reply, an event or a clearing. The fields follow the
     * protocol's step, stay valid, and accept only what is current.
     */
    method Turn(step: Step)
      requires Valid() && Enabled(View(), step)
      modifies this
      ensures Valid() && View() == Next(old(View()), step) && Respects(step)
    {
      hide Inv, Act, Respects, FromEarlierEpoch;
      Tick();
      Continue(step);
      StepKeeps(old(View()), step);
      StepRespects(step);
    }

    method Tick()
      modifies this`history
      ensures View() == old(View()).(now := old(View()).now + 1)
    {
      history := history.(now := history.now + 1);
    }

    method Continue(step: Step)
      requires Enabled(View(), step)
      modifies this
      ensures View() == Act(old(View()), step)
    {
      hide State.RefreshList, State.ListReply, State.ListFailure, State.Request, State.SnapshotReply,
        State.SnapshotFailure, State.ApplyEvent, State.ResolveManually, State.ResolveLoaded, State.MutationReply,
          State.Clear;
      match step {
        case RefreshListStep(next) => RefreshList(next);
        case ListReplyStep(id, page) => ListReply(id, page);
        case ListFailureStep(id) => ListFailure(id);
        case LoadSnapshotStep(task, minimum) => Request(task, minimum);
        case SnapshotReplyStep(id, snapshot) => SnapshotReply(id, snapshot);
        case SnapshotFailureStep(id) => SnapshotFailure(id);
        case EventStep(task, event) => ApplyEvent(task, event);
        case ResolveStep(task) => ResolveManually(task);
        case ResolveLoadedStep(id) => ResolveLoaded(id);
        case MutationReplyStep(id, version) => MutationReply(id, version);
        case ClearStep => Clear();
      }
    }

    twostate lemma StepRespects(step: Step)
      requires old(Valid()) && Enabled(old(View()), step) && View() == Next(old(View()), step)
      ensures Respects(step)
    {
      hide Inv, Next;
      var s := old(View());
      if !step.ClearStep? {
        EpochOnlyRises(s, step);
        forall task | task in old(snapshots)
          ensures task in snapshots && old(snapshots)[task].cursor <= snapshots[task].cursor
        {
          StoredCursorNeverFalls(s, step, task);
        }
      }
      if FromEarlierEpoch(s, step) {
        EarlierEpochWritesNothing(s, step);
      }
      if acceptedListGeneration != old(acceptedListGeneration) {
        AcceptedListIsCurrent(s, step);
        EpochOnlyRises(s, step);
      }
      if step.SnapshotReplyStep? && snapshots != old(snapshots) {
        AcceptedSnapshotIsCurrent(s, step.id, step.snapshot);
      }
    }
  }
}
