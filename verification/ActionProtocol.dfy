/**
 * The action-centre store of frontend/src/stores/actions.ts as an asynchronous protocol. Every
 * stretch of code between two awaits is one step; the requests in flight are part of the state.
 */
module ActionProtocol {
  import opened Prelude
  import opened TaskFacts

  type TaskId = string

  type RequestId = nat

  datatype ActionSnapshot = ActionSnapshot(
    cursor: nat, version: nat, status: TaskStatus, errorCode: Option<string>, reconciliationAttempts: nat,
    execution: Option<Execution>)

  datatype Execution = Execution(
    status: string, writeAttempts: nat, reconciliationAttempts: nat, errorCode: Option<string>)

  datatype Item = LocalDraft(id: string) | TrustedTask(task: TaskId, status: TaskStatus)

  /** One `listActions` call and what its closure captured. */
  datatype ListRead = ListRead(owner: nat, generation: nat, observedProjection: nat, requestedAt: nat)

  /**
   * One running `loadSnapshot` loop, waiting for `getAction`. `readCount` and `nudges` are history: the
   * requests it has made, and how often its task was asked to be read again meanwhile, by a fresh event
   * that needs the snapshot, by a mutation result or by a caller with a minimum cursor.
   */
  datatype Loader = Loader(
    task: TaskId, owner: nat, minimum: Option<nat>, retriedAfterList: bool,
    observedList: nat, requestedAt: nat, readCount: nat, nudges: nat)

  /** Where a running `resolveManually` waits. */
  datatype Waiting =
    | FirstLoad(loader: RequestId) | Mutation | SecondLoad(loader: RequestId) | Recovery(loader: RequestId)

  datatype Resolver = Resolver(task: TaskId, owner: nat, waiting: Waiting)

  /** The `error_code` of an event: absent or of another type, or a text or null that replaces the old one. */
  datatype ErrorUpdate = KeepError | SetError(code: Option<string>) {
    function Over(old_: Option<string>): Option<string> { if SetError? then code else old_ }
  }

  datatype ToolUpdate = ToolUpdate(
    status: Option<string>, writeAttempts: Option<nat>, reconciliationAttempts: Option<nat>, error: ErrorUpdate)

  /** Persistent events by what the reducer does with them; `ignored` are deltas and heartbeats. */
  datatype ActionEvent =
    | Ignored
    | StatusEvent(sequence: nat, status: Option<TaskStatus>, error: ErrorUpdate)
    | StepEvent(sequence: nat)
    | ToolEvent(sequence: nat, update: ToolUpdate)
    | OtherEvent(sequence: nat)

  /** The store's own data, everything a stale response must leave alone. */
  datatype Store = Store(
    items: seq<Item>, filters: int, loading: bool, loaded: bool, listError: bool,
    snapshots: map<TaskId, ActionSnapshot>, snapshotLoading: set<TaskId>, snapshotErrors: set<TaskId>,
    mutating: set<TaskId>, latest: map<TaskId, nat>,
    pending: map<TaskId, RequestId>, refreshAgain: set<TaskId>,
    epoch: nat, listGeneration: nat, projectionGeneration: nat, acceptedListGeneration: nat)

  /** `now`, `lastProjection` and `lastAcceptedList` are history: step counters, read by no step. */
  datatype State = State(
    store: Store,
    lists: map<RequestId, ListRead>, loaders: map<RequestId, Loader>, resolvers: map<RequestId, Resolver>,
    nextId: RequestId, now: nat, lastProjection: nat, lastAcceptedList: nat)
  {
    // -------------------------------------------------------------- lists

    function RefreshList(filters: int): State {
      var read := ListRead(store.epoch, store.listGeneration + 1, store.projectionGeneration, now);
      this.(store := store.(filters := filters, listGeneration := store.listGeneration + 1,
                            loading := true, listError := false),
            lists := lists[nextId := read], nextId := nextId + 1)
    }

    predicate CurrentList(id: RequestId)
      requires id in lists
    {
      lists[id].owner == store.epoch && lists[id].generation == store.listGeneration
    }

    predicate AcceptsList(id: RequestId)
      requires id in lists
    {
      CurrentList(id) && lists[id].observedProjection == store.projectionGeneration
    }

    function ListReply(id: RequestId, page: seq<Item>): State
      requires id in lists
    {
      var done := this.(lists := lists - {id});
      if !CurrentList(id) then done
      else if !AcceptsList(id) then done.RefreshList(store.filters)
      else
        done.(store := store.(items := page, loaded := true, loading := false,
                              acceptedListGeneration := store.acceptedListGeneration + 1),
              lastAcceptedList := now)
    }

    function ListFailure(id: RequestId): State
      requires id in lists
    {
      var done := this.(lists := lists - {id});
      if !CurrentList(id) then done else done.(store := store.(listError := true, loading := false))
    }

    // -------------------------------------------------------------- snapshots

    /** The top of the `do` loop, up to the await. */
    function ReadAgain(id: RequestId, loader: Loader): State {
      this.(store := store.(refreshAgain := store.refreshAgain - {loader.task},
                            snapshotLoading := store.snapshotLoading + {loader.task},
                            snapshotErrors := store.snapshotErrors - {loader.task}),
            loaders := loaders[id := loader.(observedList := store.acceptedListGeneration,
                                             requestedAt := now, readCount := loader.readCount + 1)])
    }

    function RaiseWatermark(task: TaskId, minimum: Option<nat>): State {
      if minimum.Some? && (task !in store.latest || minimum.value > store.latest[task])
      then this.(store := store.(latest := store.latest[task := minimum.value]))
      else this
    }

    /** History: one more reason to read a task that is being loaded. */
    function Nudge(task: TaskId): State {
      if task in store.pending && store.pending[task] in loaders then
        var id := store.pending[task];
        this.(loaders := loaders[id := loaders[id].(nudges := loaders[id].nudges + 1)])
      else this
    }

    /** Joins the running loop or starts one. */
    function LoadSnapshot(task: TaskId, minimum: Option<nat>): State {
      var s := RaiseWatermark(task, minimum);
      if task in store.pending then
        if minimum.Some? then s.(store := s.store.(refreshAgain := s.store.refreshAgain + {task})) else s
      else s.Start(task, minimum)
    }

    /** An outside call of `loadSnapshot`. */
    function Request(task: TaskId, minimum: Option<nat>): State {
      (if minimum.Some? then Nudge(task) else this).LoadSnapshot(task, minimum)
    }

    function Start(task: TaskId, minimum: Option<nat>): State {
      this.(nextId := nextId + 1, store := store.(pending := store.pending[task := nextId]))
          .ReadAgain(nextId, Loader(task, store.epoch, minimum, false, 0, now, 0, 0))
    }

    /** The loop condition, and `.finally` when the loop ends. */
    function EndIteration(id: RequestId, loader: Loader): State {
      if loader.owner == store.epoch && loader.task in store.refreshAgain then ReadAgain(id, loader)
      else EndLoop(id, loader)
    }

    function EndLoop(id: RequestId, loader: Loader): State {
      var mine := loader.task in store.pending && store.pending[loader.task] == id;
      this.(loaders := loaders - {id},
            store := store.(
              pending := if mine then store.pending - {loader.task} else store.pending,
              snapshotLoading := if loader.owner == store.epoch then store.snapshotLoading - {loader.task}
                                 else store.snapshotLoading))
    }

    function Fails(task: TaskId): State {
      this.(store := store.(snapshotErrors := store.snapshotErrors + {task}))
    }

    predicate CrossedList(id: RequestId)
      requires id in loaders
    {
      loaders[id].observedList != store.acceptedListGeneration
    }

    predicate Outdated(id: RequestId, cursor: nat)
      requires id in loaders
    {
      var l := loaders[id];
      (l.task in store.latest && cursor < store.latest[l.task]) || (l.minimum.Some? && cursor < l.minimum.value)
    }

    predicate AcceptsSnapshot(id: RequestId, cursor: nat)
      requires id in loaders
    {
      loaders[id].owner == store.epoch && !CrossedList(id) && !Outdated(id, cursor)
    }

    predicate Advances(task: TaskId, cursor: nat) {
      task !in store.snapshots || cursor > store.snapshots[task].cursor
    }

    function Accept(task: TaskId, snapshot: ActionSnapshot): State {
      var s := if Advances(task, snapshot.cursor)
               then this.(store := store.(projectionGeneration := store.projectionGeneration + 1),
                 lastProjection := now)
               else this;
      s.(store := s.store.(snapshots := s.store.snapshots[task := snapshot],
                           latest := s.store.latest[task := snapshot.cursor],
                           items := WithStatus(s.store.items, task, snapshot.status)))
    }

    function SnapshotReply(id: RequestId, snapshot: ActionSnapshot): State
      requires id in loaders
    {
      var l := loaders[id];
      if l.owner != store.epoch then EndIteration(id, l)
      else if CrossedList(id) then
        if !l.retriedAfterList then
          this.(store := store.(refreshAgain := store.refreshAgain + {l.task}))
              .EndIteration(id, l.(retriedAfterList := true))
        else if l.task !in store.refreshAgain then Fails(l.task).EndIteration(id, l)
        else EndIteration(id, l)
      else if Outdated(id, snapshot.cursor) then
        if l.task !in store.refreshAgain then Fails(l.task).EndIteration(id, l) else EndIteration(id, l)
      else Accept(l.task, snapshot).EndIteration(id, l)
    }

    function SnapshotFailure(id: RequestId): State
      requires id in loaders
    {
      var l := loaders[id];
      (if l.owner == store.epoch then Fails(l.task) else this).EndIteration(id, l)
    }

    // -------------------------------------------------------------- events

    /** The reducer's part of `applyEvent`: cursor, generation and content-free projection. */
    function Projected(task: TaskId, event: ActionEvent): State
      requires !event.Ignored?
    {
      this.(store := Project(
              store.(latest := store.latest[task := event.sequence],
                     projectionGeneration := store.projectionGeneration + 1), task, event),
            lastProjection := now)
    }

    function AskAgain(task: TaskId): State {
      if task in store.pending then this.(store := store.(refreshAgain := store.refreshAgain + {task})) else this
    }

    predicate Stale(task: TaskId, event: ActionEvent) {
      event.Ignored? || (task in store.latest && event.sequence <= store.latest[task])
    }

    function ApplyEvent(task: TaskId, event: ActionEvent): State {
      if Stale(task, event) then this
      else if !NeedsSnapshot(task, event) then Projected(task, event)
      else Projected(task, event).Nudge(task).AskAgain(task).LoadSnapshot(task, None)
    }

    predicate NeedsSnapshot(task: TaskId, event: ActionEvent) {
      || task !in store.snapshots
      || (event.StatusEvent? && event.status.Some? &&
        event.status.value in {Succeeded, Failed, Cancelled, NeedsAttention})
      || event.ToolEvent? || event.OtherEvent?
    }

    // -------------------------------------------------------------- manual resolution

    function Wait(id: RequestId, r: Resolver, waiting: Waiting): State {
      this.(resolvers := resolvers[id := r.(waiting := waiting)])
    }

    /** The identity of the loop a `loadSnapshot` call now waits for. */
    function Running(task: TaskId): RequestId {
      if task in store.pending then store.pending[task] else 0
    }

    function ResolveManually(task: TaskId): State {
      if task in store.mutating then this
      else
        var s := this.(store := store.(mutating := store.mutating + {task}), nextId := nextId + 1)
                     .LoadSnapshot(task, None);
        s.Wait(nextId, Resolver(task, store.epoch, Mutation), FirstLoad(s.Running(task)))
    }

    function Finish(id: RequestId, r: Resolver): State {
      this.(resolvers := resolvers - {id},
            store := if r.owner == store.epoch then store.(mutating := store.mutating - {r.task}) else store)
    }

    function Recover(id: RequestId, r: Resolver): State {
      if r.owner != store.epoch then Finish(id, r)
      else
        var s := LoadSnapshot(r.task, None);
        s.Wait(id, r, Recovery(s.Running(r.task)))
    }

    /** Continues after the loop the resolver waited for has ended. */
    function ResolveLoaded(id: RequestId): State
      requires id in resolvers && !resolvers[id].waiting.Mutation?
    {
      var r := resolvers[id];
      match r.waiting
      case FirstLoad(_) =>
        if r.owner != store.epoch then Finish(id, r)
        else if r.task !in store.snapshots || r.task in store.snapshotErrors then Recover(id, r)
        else Wait(id, r, Mutation)
      case SecondLoad(_) => Finish(id, r)
      case Recovery(_) =>
        (if r.owner == store.epoch then Fails(r.task) else this).Finish(id, r)
    }

    function MutationReply(id: RequestId, version: Option<nat>): State
      requires id in resolvers && resolvers[id].waiting.Mutation?
    {
      var r := resolvers[id];
      if version.None? then Recover(id, r)
      else if r.owner != store.epoch then Finish(id, r)
      else
        var s := Request(r.task, version);
        s.Wait(id, r, SecondLoad(s.Running(r.task)))
    }

    // -------------------------------------------------------------- clearing

    function Clear(): State {
      this.(store := Store([], 0, false, false, false, map[], {}, {}, {}, map[], map[], {},
                           store.epoch + 1, store.listGeneration + 1,
                           store.projectionGeneration, store.acceptedListGeneration))
    }
  }

  function WithStatus(items: seq<Item>, task: TaskId, status: TaskStatus): seq<Item> {
    seq(|items|, i requires 0 <= i < |items| =>
      if items[i].TrustedTask? && items[i].task == task then items[i].(status := status) else items[i])
  }

  function WithTool(e: Execution, u: ToolUpdate): Execution {
    Execution(
      if u.status.Some? then u.status.value else e.status,
      if u.writeAttempts.Some? then u.writeAttempts.value else e.writeAttempts,
      if u.reconciliationAttempts.Some? then u.reconciliationAttempts.value else e.reconciliationAttempts,
      u.error.Over(e.errorCode))
  }

  /** The content-free projection of one event; it never touches a snapshot's cursor. */
  function Project(store: Store, task: TaskId, event: ActionEvent): Store
    requires !event.Ignored?
  {
    if event.StatusEvent? && event.status.Some? then
      store.(snapshots := if task in store.snapshots
                          then store.snapshots[
                            task := WithReport(store.snapshots[task], event.status.value, event.error)]
                          else store.snapshots,
             items := WithStatus(store.items, task, event.status.value))
    else if event.ToolEvent? && task in store.snapshots && store.snapshots[task].execution.Some? then
      var execution := WithTool(store.snapshots[task].execution.value, event.update);
      store.(snapshots := store.snapshots[task := WithExecution(store.snapshots[task], execution)])
    else store
  }

  function WithReport(snapshot: ActionSnapshot, status: TaskStatus, error: ErrorUpdate): ActionSnapshot {
    snapshot.(status := status, errorCode := error.Over(snapshot.errorCode))
  }

  function WithExecution(snapshot: ActionSnapshot, e: Execution): ActionSnapshot {
    snapshot.(execution := Some(e), reconciliationAttempts := e.reconciliationAttempts)
  }

  // ---------------------------------------------------------------- runs

  datatype Step =
    | RefreshListStep(filters: int)
    | ListReplyStep(id: RequestId, page: seq<Item>)
    | ListFailureStep(id: RequestId)
    | LoadSnapshotStep(task: TaskId, minimum: Option<nat>)
    | SnapshotReplyStep(id: RequestId, snapshot: ActionSnapshot)
    | SnapshotFailureStep(id: RequestId)
    | EventStep(task: TaskId, event: ActionEvent)
    | ResolveStep(task: TaskId)
    | ResolveLoadedStep(id: RequestId)
    | MutationReplyStep(id: RequestId, version: Option<nat>)
    | ClearStep

  predicate Enabled(s: State, step: Step) {
    match step
    case ListReplyStep(id, _) => id in s.lists
    case ListFailureStep(id) => id in s.lists
    case SnapshotReplyStep(id, _) => id in s.loaders
    case SnapshotFailureStep(id) => id in s.loaders
    case ResolveLoadedStep(id) =>
      id in s.resolvers && !s.resolvers[id].waiting.Mutation? && s.resolvers[id].waiting.loader !in s.loaders
    case MutationReplyStep(id, _) => id in s.resolvers && s.resolvers[id].waiting.Mutation?
    case _ => true
  }

  /** The continuation a step runs, once time has moved on. */
  function Act(t: State, step: Step): State
    requires Enabled(t, step)
  {
    match step
    case RefreshListStep(filters) => t.RefreshList(filters)
    case ListReplyStep(id, page) => t.ListReply(id, page)
    case ListFailureStep(id) => t.ListFailure(id)
    case LoadSnapshotStep(task, minimum) => t.Request(task, minimum)
    case SnapshotReplyStep(id, snapshot) => t.SnapshotReply(id, snapshot)
    case SnapshotFailureStep(id) => t.SnapshotFailure(id)
    case EventStep(task, event) => t.ApplyEvent(task, event)
    case ResolveStep(task) => t.ResolveManually(task)
    case ResolveLoadedStep(id) => t.ResolveLoaded(id)
    case MutationReplyStep(id, version) => t.MutationReply(id, version)
    case ClearStep => t.Clear()
  }

  function Next(s: State, step: Step): State
    requires Enabled(s, step)
  {
    Act(s.(now := s.now + 1), step)
  }

  function Initial(): State {
    State(Store([], 0, false, false, false, map[], {}, {}, {}, map[], map[], {}, 0, 0, 0, 0),
          map[], map[], map[], 0, 0, 0, 0)
  }

  predicate Executes(s: State, steps: seq<Step>)
    decreases |steps|
  {
    steps == [] || (Enabled(s, steps[0]) && Executes(Next(s, steps[0]), steps[1..]))
  }

  function After(s: State, steps: seq<Step>): State
    requires Executes(s, steps)
    decreases |steps|
  {
    if steps == [] then s else After(Next(s, steps[0]), steps[1..])
  }

  // ---------------------------------------------------------------- the invariant

  ghost predicate ListInv(s: State, r: ListRead) {
    && r.observedProjection <= s.store.projectionGeneration
    && (r.observedProjection == s.store.projectionGeneration ==> s.lastProjection < r.requestedAt)
  }

  ghost predicate LoaderInv(s: State, id: RequestId, l: Loader) {
    && l.owner <= s.store.epoch
    && l.observedList <= s.store.acceptedListGeneration
    && (l.observedList == s.store.acceptedListGeneration ==> s.lastAcceptedList < l.requestedAt)
    && l.readCount <= 2 + l.nudges
    && (l.owner == s.store.epoch ==>
          && l.task in s.store.pending && s.store.pending[l.task] == id
          && (l.minimum.Some? ==> l.task in s.store.latest && l.minimum.value <= s.store.latest[l.task])
          && l.readCount + (if l.task in s.store.refreshAgain then 1 else 0)
             <= 1 + (if l.retriedAfterList then 1 else 0) + l.nudges)
  }

  ghost predicate StoreInv(s: State) {
    && (forall t :: t in s.store.snapshots ==> t in s.store.latest && s.store.snapshots[t].cursor <= s.store.latest[t])
    && (forall t :: t in s.store.refreshAgain ==> t in s.store.pending)
    && (forall t :: t in s.store.pending ==>
          && s.store.pending[t] in s.loaders
          && s.loaders[s.store.pending[t]].task == t && s.loaders[s.store.pending[t]].owner == s.store.epoch)
  }

  ghost predicate Inv(s: State) {
    && StoreInv(s)
    && s.lastProjection <= s.now && s.lastAcceptedList <= s.now
    && (forall id :: id in s.lists ==> id < s.nextId && ListInv(s, s.lists[id]))
    && (forall id :: id in s.loaders ==> id < s.nextId && LoaderInv(s, id, s.loaders[id]))
    && (forall id :: id in s.resolvers ==> id < s.nextId)
  }

  /** Inside a step the clock has already moved past every earlier list acceptance. */
  ghost predicate CanLoad(s: State) { Inv(s) && s.lastAcceptedList < s.now }

  lemma RefreshListKeeps(s: State, filters: int)
    requires Inv(s) && s.lastProjection < s.now
    ensures Inv(s.RefreshList(filters))
  {
    var t := s.RefreshList(filters);
    assert forall id :: id in t.loaders ==> LoaderInv(s, id, s.loaders[id]);
    assert forall id :: id in t.lists && id != s.nextId ==> ListInv(s, s.lists[id]);
  }

  lemma ListDoneKeeps(s: State, id: RequestId)
    requires Inv(s) && id in s.lists
    ensures Inv(s.(lists := s.lists - {id}))
  {
    var t := s.(lists := s.lists - {id});
    assert forall i :: i in t.loaders ==> LoaderInv(s, i, s.loaders[i]);
    assert forall i :: i in t.lists ==> ListInv(s, s.lists[i]);
  }

  lemma ListReplyKeeps(s: State, id: RequestId, page: seq<Item>)
    requires Inv(s) && s.lastProjection < s.now && id in s.lists
    ensures Inv(s.ListReply(id, page))
  {
    ListDoneKeeps(s, id);
    var done := s.(lists := s.lists - {id});
    if s.CurrentList(id) {
      if s.AcceptsList(id) {
        var t := s.ListReply(id, page);
        assert forall i :: i in t.lists ==> ListInv(done, done.lists[i]);
        assert forall i :: i in t.loaders ==> LoaderInv(done, i, done.loaders[i]);
      } else {
        RefreshListKeeps(done, s.store.filters);
      }
    }
  }

  lemma ListFailureKeeps(s: State, id: RequestId)
    requires Inv(s) && id in s.lists
    ensures Inv(s.ListFailure(id))
  {
    ListDoneKeeps(s, id);
    var done, t := s.(lists := s.lists - {id}), s.ListFailure(id);
    assert forall i :: i in t.lists ==> ListInv(done, done.lists[i]);
    assert forall i :: i in t.loaders ==> LoaderInv(done, i, done.loaders[i]);
  }

  /** One more nudge pays for one more read. */
  ghost predicate Paid(s: State, task: TaskId) {
    task in s.store.pending && s.store.pending[task] in s.loaders ==>
      var l := s.loaders[s.store.pending[task]];
      l.readCount <= (if l.retriedAfterList then 1 else 0) + l.nudges
  }

  lemma NudgeKeeps(s: State, task: TaskId)
    requires Inv(s)
    ensures Inv(s.Nudge(task)) && Paid(s.Nudge(task), task)
  {
    var t := s.Nudge(task);
    assert forall i :: i in s.loaders ==> LoaderInv(s, i, s.loaders[i]);
    assert forall i :: i in t.lists ==> ListInv(s, s.lists[i]);
  }

  /** Raising watermarks keeps everything that is bounded by them. */
  lemma RaisingKeeps(s: State, latest: map<TaskId, nat>)
    requires Inv(s) && forall t :: t in s.store.latest ==> t in latest && s.store.latest[t] <= latest[t]
    ensures Inv(s.(store := s.store.(latest := latest)))
  {
    assert forall i :: i in s.loaders ==> LoaderInv(s, i, s.loaders[i]);
    assert forall i :: i in s.lists ==> ListInv(s, s.lists[i]);
  }

  lemma RaiseWatermarkKeeps(s: State, task: TaskId, minimum: Option<nat>)
    requires Inv(s)
    ensures Inv(s.RaiseWatermark(task, minimum))
    ensures minimum.Some? ==> var t := s.RaiseWatermark(task, minimum);
      task in t.store.latest && minimum.value <= t.store.latest[task]
  {
    hide Inv;
    if minimum.Some? && (task !in s.store.latest || minimum.value > s.store.latest[task]) {
      RaisingKeeps(s, s.store.latest[task := minimum.value]);
    }
  }

  lemma AskAgainKeeps(s: State, task: TaskId)
    requires Inv(s) && Paid(s, task) && task in s.store.pending
    ensures Inv(s.(store := s.store.(refreshAgain := s.store.refreshAgain + {task})))
  {
    assert forall i :: i in s.loaders ==> LoaderInv(s, i, s.loaders[i]);
    assert forall i :: i in s.lists ==> ListInv(s, s.lists[i]);
  }

  /** `Inv` for a state whose loop `id` is about to continue as `l`. */
  ghost predicate InvWith(s: State, id: RequestId, l: Loader) {
    Inv(s.(loaders := s.loaders[id := l]))
  }

  lemma ReadAgainKeeps(s: State, id: RequestId, l: Loader)
    requires InvWith(s, id, l) && s.lastAcceptedList < s.now && l.owner == s.store.epoch
    requires l.readCount <= (if l.retriedAfterList then 1 else 0) + l.nudges
    ensures Inv(s.ReadAgain(id, l))
  {
    var u, t := s.(loaders := s.loaders[id := l]), s.ReadAgain(id, l);
    assert forall i :: i in u.loaders ==> LoaderInv(u, i, u.loaders[i]);
    assert forall i :: i in u.lists ==> ListInv(u, u.lists[i]);
    assert forall i :: i in t.loaders && i != id ==> t.loaders[i] == u.loaders[i];
    assert id in u.loaders && u.loaders[id] == l && LoaderInv(u, id, l);
    assert LoaderInv(t, id, t.loaders[id]);
  }

  /** A loop that has not read yet fits beside the running ones. */
  lemma NewLoaderKeeps(s: State, l: Loader)
    requires Inv(s) && l.task !in s.store.pending && l.owner == s.store.epoch && s.lastAcceptedList < l.requestedAt
    requires l.minimum.Some? ==> l.task in s.store.latest && l.minimum.value <= s.store.latest[l.task]
    requires l.observedList == s.store.acceptedListGeneration && l.readCount == l.nudges == 0
    ensures InvWith(s.(nextId := s.nextId + 1, store := s.store.(pending := s.store.pending[l.task := s.nextId])),
      s.nextId, l)
  {
    assert forall i :: i in s.loaders ==> LoaderInv(s, i, s.loaders[i]);
    assert forall i :: i in s.lists ==> ListInv(s, s.lists[i]);
  }

  lemma StartKeeps(s: State, task: TaskId, minimum: Option<nat>)
    requires CanLoad(s) && task !in s.store.pending
    requires minimum.Some? ==> task in s.store.latest && minimum.value <= s.store.latest[task]
    ensures CanLoad(s.Start(task, minimum))
  {
    hide Inv, InvWith;
    var l := Loader(task, s.store.epoch, minimum, false, s.store.acceptedListGeneration, s.now, 0, 0);
    var u := s.(nextId := s.nextId + 1, store := s.store.(pending := s.store.pending[task := s.nextId]));
    NewLoaderKeeps(s, l);
    ReadAgainKeeps(u, s.nextId, l);
    assert u.ReadAgain(s.nextId, l) == s.Start(task, minimum);
  }

  lemma LoadSnapshotKeeps(s: State, task: TaskId, minimum: Option<nat>)
    requires CanLoad(s) && (minimum.Some? ==> Paid(s, task))
    ensures CanLoad(s.LoadSnapshot(task, minimum))
  {
    var u := s.RaiseWatermark(task, minimum);
    RaiseWatermarkKeeps(s, task, minimum);
    if task !in s.store.pending {
      StartKeeps(u, task, minimum);
    } else if minimum.Some? {
      AskAgainKeeps(u, task);
    }
  }

  lemma FailsKeeps(s: State, task: TaskId)
    requires Inv(s)
    ensures Inv(s.Fails(task))
  {
    assert forall i :: i in s.loaders ==> LoaderInv(s, i, s.loaders[i]);
    assert forall i :: i in s.lists ==> ListInv(s, s.lists[i]);
  }

  lemma EndLoopKeeps(s: State, id: RequestId, l: Loader)
    requires id in s.loaders && InvWith(s, id, l)
    requires l.owner == s.store.epoch ==> l.task !in s.store.refreshAgain
    ensures Inv(s.EndLoop(id, l))
  {
    var u, t := s.(loaders := s.loaders[id := l]), s.EndLoop(id, l);
    assert id in u.loaders && u.loaders[id] == l && LoaderInv(u, id, l);
    forall i | i in t.loaders
      ensures i < t.nextId && LoaderInv(t, i, t.loaders[i])
    {
      assert i in u.loaders && t.loaders[i] == u.loaders[i] && LoaderInv(u, i, u.loaders[i]);
    }
    forall i | i in t.lists
      ensures i < t.nextId && ListInv(t, t.lists[i])
    {
      assert ListInv(u, u.lists[i]);
    }
  }

  lemma EndIterationKeeps(s: State, id: RequestId, l: Loader)
    requires id in s.loaders && InvWith(s, id, l) && s.lastAcceptedList < s.now
    ensures Inv(s.EndIteration(id, l))
  {
    var u := s.(loaders := s.loaders[id := l]);
    assert id in u.loaders && u.loaders[id] == l && LoaderInv(u, id, l);
    if l.owner == s.store.epoch && l.task in s.store.refreshAgain {
      ReadAgainKeeps(s, id, l);
    } else {
      EndLoopKeeps(s, id, l);
    }
  }

  lemma AcceptKeeps(s: State, id: RequestId, snapshot: ActionSnapshot)
    requires Inv(s) && id in s.loaders && s.AcceptsSnapshot(id, snapshot.cursor)
    ensures Inv(s.Accept(s.loaders[id].task, snapshot))
  {
    hide Inv, WithStatus;
    var task := s.loaders[id].task;
    var u := s.(store := s.store.(latest := s.store.latest[task := snapshot.cursor]));
    RaisingKeeps(s, s.store.latest[task := snapshot.cursor]);
    StoringKeeps(u, task, snapshot, s.Accept(task, snapshot).store.items, s.Advances(task, snapshot.cursor));
  }

  /** Storing a snapshot at its watermark; an advancing one invalidates the lists read so far. */
  lemma StoringKeeps(s: State, task: TaskId, snapshot: ActionSnapshot, items: seq<Item>, advances: bool)
    requires Inv(s) && task in s.store.latest && s.store.latest[task] == snapshot.cursor
    ensures var store := s.store.(snapshots := s.store.snapshots[task := snapshot], items := items);
      Inv(if advances
          then s.(store := store.(projectionGeneration := s.store.projectionGeneration + 1), lastProjection := s.now)
          else s.(store := store))
  {
    assert forall i :: i in s.loaders ==> LoaderInv(s, i, s.loaders[i]);
    assert forall i :: i in s.lists ==> ListInv(s, s.lists[i]);
  }

  lemma SnapshotReplyKeeps(s: State, id: RequestId, snapshot: ActionSnapshot)
    requires CanLoad(s) && id in s.loaders
    ensures Inv(s.SnapshotReply(id, snapshot))
  {
    var l := s.loaders[id];
    assert LoaderInv(s, id, l);
    assert s.(loaders := s.loaders[id := l]) == s;
    if l.owner != s.store.epoch {
      EndIterationKeeps(s, id, l);
    } else if s.CrossedList(id) {
      if !l.retriedAfterList {
        var u := s.(store := s.store.(refreshAgain := s.store.refreshAgain + {l.task}));
        assert forall i :: i in s.loaders ==> LoaderInv(s, i, s.loaders[i]);
        assert forall i :: i in s.lists ==> ListInv(s, s.lists[i]);
        assert InvWith(u, id, l.(retriedAfterList := true));
        EndIterationKeeps(u, id, l.(retriedAfterList := true));
      } else {
        FailsKeeps(s, l.task);
        EndIterationKeeps(s.Fails(l.task), id, l);
        EndIterationKeeps(s, id, l);
      }
    } else if s.Outdated(id, snapshot.cursor) {
      FailsKeeps(s, l.task);
      EndIterationKeeps(s.Fails(l.task), id, l);
      EndIterationKeeps(s, id, l);
    } else {
      AcceptKeeps(s, id, snapshot);
      EndIterationKeeps(s.Accept(l.task, snapshot), id, l);
    }
  }

  lemma SnapshotFailureKeeps(s: State, id: RequestId)
    requires CanLoad(s) && id in s.loaders
    ensures Inv(s.SnapshotFailure(id))
  {
    var l := s.loaders[id];
    assert s.(loaders := s.loaders[id := l]) == s;
    FailsKeeps(s, l.task);
    EndIterationKeeps(s.Fails(l.task), id, l);
    EndIterationKeeps(s, id, l);
  }

  /** Only the status and execution of a stored snapshot change; cursors and bookkeeping do not. */
  lemma ProjectKeepsCursors(store: Store, task: TaskId, event: ActionEvent)
    requires !event.Ignored?
    ensures var t := Project(store, task, event);
      && t == store.(snapshots := t.snapshots, items := t.items)
      && t.snapshots.Keys == store.snapshots.Keys
      && forall k :: k in t.snapshots ==> t.snapshots[k].cursor == store.snapshots[k].cursor
  {
  }

  /** Contents may change freely while cursors and bookkeeping stay. */
  lemma ContentKeeps(s: State, store: Store)
    requires Inv(s) && store == s.store.(snapshots := store.snapshots, items := store.items)
    requires store.snapshots.Keys == s.store.snapshots.Keys
    requires forall k :: k in store.snapshots ==> store.snapshots[k].cursor == s.store.snapshots[k].cursor
    ensures Inv(s.(store := store))
  {
    var t := s.(store := store);
    assert forall i :: i in s.loaders ==> LoaderInv(s, i, s.loaders[i]);
    assert forall i :: i in s.lists ==> ListInv(s, s.lists[i]);
    assert forall k :: k in store.snapshots ==> k in s.store.snapshots;
  }

  lemma AdvanceKeeps(s: State, task: TaskId, sequence: nat)
    requires CanLoad(s) && (task in s.store.latest ==> sequence > s.store.latest[task])
    ensures CanLoad(s.(store := s.store.(latest := s.store.latest[task := sequence],
                                         projectionGeneration := s.store.projectionGeneration + 1),
                       lastProjection := s.now))
  {
    assert forall i :: i in s.loaders ==> LoaderInv(s, i, s.loaders[i]);
    assert forall i :: i in s.lists ==> ListInv(s, s.lists[i]);
  }

  lemma ProjectedKeeps(s: State, task: TaskId, event: ActionEvent)
    requires CanLoad(s) && !s.Stale(task, event)
    ensures CanLoad(s.Projected(task, event))
    ensures s.Projected(task, event).store.pending == s.store.pending && s.Projected(task, event).loaders == s.loaders
  {
    hide Inv, Project;
    var store := s.store.(latest := s.store.latest[task := event.sequence],
                          projectionGeneration := s.store.projectionGeneration + 1);
    AdvanceKeeps(s, task, event.sequence);
    ProjectKeepsCursors(store, task, event);
    ContentKeeps(s.(store := store, lastProjection := s.now), Project(store, task, event));
  }

  lemma ApplyEventKeeps(s: State, task: TaskId, event: ActionEvent)
    requires CanLoad(s)
    ensures CanLoad(s.ApplyEvent(task, event))
  {
    hide Inv, Paid, State.LoadSnapshot, State.Nudge, State.Projected;
    if !s.Stale(task, event) {
      ProjectedKeeps(s, task, event);
      var t := s.Projected(task, event);
      NudgeKeeps(t, task);
      NudgeTouchesNothing(t, task);
      if task in t.store.pending {
        AskAgainKeeps(t.Nudge(task), task);
      }
      LoadSnapshotKeeps(t.Nudge(task).AskAgain(task), task, None);
    }
  }

  lemma RequestKeeps(s: State, task: TaskId, minimum: Option<nat>)
    requires CanLoad(s)
    ensures CanLoad(s.Request(task, minimum))
  {
    hide Inv, Paid, State.LoadSnapshot, State.Nudge;
    NudgeKeeps(s, task);
    NudgeTouchesNothing(s, task);
    LoadSnapshotKeeps(if minimum.Some? then s.Nudge(task) else s, task, minimum);
  }

  lemma SideKeeps(s: State, mutating: set<TaskId>, resolvers: map<RequestId, Resolver>, nextId: RequestId)
    requires Inv(s) && s.nextId <= nextId && forall id :: id in resolvers ==> id < nextId
    ensures Inv(s.(store := s.store.(mutating := mutating), resolvers := resolvers, nextId := nextId))
  {
    var t := s.(store := s.store.(mutating := mutating), resolvers := resolvers, nextId := nextId);
    assert forall i :: i in s.loaders ==> LoaderInv(s, i, s.loaders[i]);
    assert forall i :: i in s.lists ==> ListInv(s, s.lists[i]);
  }

  lemma WaitKeeps(s: State, id: RequestId, r: Resolver, waiting: Waiting)
    requires Inv(s) && id < s.nextId
    ensures Inv(s.Wait(id, r, waiting))
  {
    SideKeeps(s, s.store.mutating, s.resolvers[id := r.(waiting := waiting)], s.nextId);
  }

  lemma FinishKeeps(s: State, id: RequestId, r: Resolver)
    requires Inv(s)
    ensures Inv(s.Finish(id, r))
  {
    SideKeeps(s, s.Finish(id, r).store.mutating, s.resolvers - {id}, s.nextId);
  }

  lemma LoadKeepsIds(s: State, task: TaskId, minimum: Option<nat>)
    ensures s.nextId <= s.LoadSnapshot(task, minimum).nextId
    ensures s.LoadSnapshot(task, minimum).resolvers == s.resolvers
  {
  }

  lemma RecoverKeeps(s: State, id: RequestId, r: Resolver)
    requires CanLoad(s) && id < s.nextId
    ensures Inv(s.Recover(id, r))
  {
    FinishKeeps(s, id, r);
    LoadSnapshotKeeps(s, r.task, None);
    LoadKeepsIds(s, r.task, None);
    var t := s.LoadSnapshot(r.task, None);
    WaitKeeps(t, id, r, Recovery(t.Running(r.task)));
  }

  lemma ResolveManuallyKeeps(s: State, task: TaskId)
    requires CanLoad(s)
    ensures Inv(s.ResolveManually(task))
  {
    hide State.LoadSnapshot, LoaderInv, ListInv, StoreInv;
    if task !in s.store.mutating {
      SideKeeps(s, s.store.mutating + {task}, s.resolvers, s.nextId + 1);
      var u := s.(store := s.store.(mutating := s.store.mutating + {task}), nextId := s.nextId + 1);
      LoadSnapshotKeeps(u, task, None);
      LoadKeepsIds(u, task, None);
      var t := u.LoadSnapshot(task, None);
      WaitKeeps(t, s.nextId, Resolver(task, s.store.epoch, Mutation), FirstLoad(t.Running(task)));
    }
  }

  lemma ResolveLoadedKeeps(s: State, id: RequestId)
    requires CanLoad(s) && id in s.resolvers && !s.resolvers[id].waiting.Mutation?
    ensures Inv(s.ResolveLoaded(id))
  {
    var r := s.resolvers[id];
    FinishKeeps(s, id, r);
    RecoverKeeps(s, id, r);
    WaitKeeps(s, id, r, Mutation);
    FailsKeeps(s, r.task);
    FinishKeeps(s.Fails(r.task), id, r);
  }

  lemma MutationReplyKeeps(s: State, id: RequestId, version: Option<nat>)
    requires CanLoad(s) && id in s.resolvers && s.resolvers[id].waiting.Mutation?
    ensures Inv(s.MutationReply(id, version))
  {
    var r := s.resolvers[id];
    RecoverKeeps(s, id, r);
    FinishKeeps(s, id, r);
    RequestKeeps(s, r.task, version);
    NudgeTouchesNothing(s, r.task);
    LoadKeepsIds(if version.Some? then s.Nudge(r.task) else s, r.task, version);
    var t := s.Request(r.task, version);
    WaitKeeps(t, id, r, SecondLoad(t.Running(r.task)));
  }

  lemma ClearKeeps(s: State)
    requires Inv(s)
    ensures Inv(s.Clear())
  {
    assert forall i :: i in s.loaders ==> LoaderInv(s, i, s.loaders[i]);
    assert forall i :: i in s.lists ==> ListInv(s, s.lists[i]);
  }

  lemma TickKeeps(s: State)
    requires Inv(s)
    ensures CanLoad(s.(now := s.now + 1)) && s.lastProjection < s.now + 1
  {
    assert forall i :: i in s.loaders ==> LoaderInv(s, i, s.loaders[i]);
    assert forall i :: i in s.lists ==> ListInv(s, s.lists[i]);
  }

  lemma StepKeeps(s: State, step: Step)
    requires Inv(s) && Enabled(s, step)
    ensures Inv(Next(s, step))
  {
    hide Inv, State.RefreshList, State.ListReply, State.ListFailure, State.LoadSnapshot, State.SnapshotReply,
      State.SnapshotFailure, State.Nudge, State.ApplyEvent, State.ResolveManually, State.ResolveLoaded,
      State.MutationReply, State.Clear;
    var t := s.(now := s.now + 1);
    TickKeeps(s);
    if step.RefreshListStep? {
      RefreshListKeeps(t, step.filters);
    } else if step.ListReplyStep? {
      ListReplyKeeps(t, step.id, step.page);
    } else if step.ListFailureStep? {
      ListFailureKeeps(t, step.id);
    } else if step.LoadSnapshotStep? {
      RequestKeeps(t, step.task, step.minimum);
    } else if step.SnapshotReplyStep? {
      SnapshotReplyKeeps(t, step.id, step.snapshot);
    } else if step.SnapshotFailureStep? {
      SnapshotFailureKeeps(t, step.id);
    } else if step.EventStep? {
      ApplyEventKeeps(t, step.task, step.event);
    } else if step.ResolveStep? {
      ResolveManuallyKeeps(t, step.task);
    } else if step.ResolveLoadedStep? {
      ResolveLoadedKeeps(t, step.id);
    } else if step.MutationReplyStep? {
      MutationReplyKeeps(t, step.id, step.version);
    } else {
      ClearKeeps(t);
    }
  }

  lemma {:induction false} ReachableKeeps(s: State, steps: seq<Step>)
    requires Inv(s) && Executes(s, steps)
    ensures Inv(After(s, steps))
    decreases |steps|
  {
    if steps != [] {
      StepKeeps(s, steps[0]);
      ReachableKeeps(Next(s, steps[0]), steps[1..]);
    }
  }

  // ---------------------------------------------------------------- main results

  /** Everything that follows holds in every state reached by any interleaving. */
  lemma EveryInterleavingKeepsInvariant(steps: seq<Step>)
    requires Executes(Initial(), steps)
    ensures Inv(After(Initial(), steps))
  {
    ReachableKeeps(Initial(), steps);
  }

  /** Neither the stored data nor the acceptance history moved, and every running loop still runs. */
  ghost predicate Untouched(s: State, t: State) {
    && t.store.snapshots == s.store.snapshots && t.store.items == s.store.items
    && t.store.epoch == s.store.epoch
    && t.store.acceptedListGeneration == s.store.acceptedListGeneration
    && t.store.projectionGeneration == s.store.projectionGeneration
    && t.lastProjection == s.lastProjection && t.lastAcceptedList == s.lastAcceptedList && t.now == s.now
    && s.loaders.Keys <= t.loaders.Keys
  }

  lemma LoadTouchesNothing(s: State, task: TaskId, minimum: Option<nat>)
    ensures Untouched(s, s.LoadSnapshot(task, minimum))
    ensures minimum.None? ==> s.LoadSnapshot(task, minimum).store.latest == s.store.latest
  {
  }

  lemma RequestTouchesNothing(s: State, task: TaskId, minimum: Option<nat>)
    ensures Untouched(s, s.Request(task, minimum))
  {
    hide State.LoadSnapshot, State.Nudge;
    NudgeTouchesNothing(s, task);
    LoadTouchesNothing(if minimum.Some? then s.Nudge(task) else s, task, minimum);
  }

  lemma RecoverTouchesNothing(s: State, id: RequestId, r: Resolver)
    ensures Untouched(s, s.Recover(id, r))
  {
    hide State.LoadSnapshot;
    LoadTouchesNothing(s, r.task, None);
  }

  lemma MutationTouchesNothing(s: State, id: RequestId, version: Option<nat>)
    requires id in s.resolvers && s.resolvers[id].waiting.Mutation?
    ensures Untouched(s, s.MutationReply(id, version))
  {
    hide State.Request, State.Recover;
    RecoverTouchesNothing(s, id, s.resolvers[id]);
    RequestTouchesNothing(s, s.resolvers[id].task, version);
  }

  lemma ResolveTouchesNothing(s: State, task: TaskId)
    ensures Untouched(s, s.ResolveManually(task))
  {
    hide State.LoadSnapshot;
    LoadTouchesNothing(s.(store := s.store.(mutating := s.store.mutating + {task}), nextId := s.nextId + 1), task,
      None);
  }

  lemma FinishTouchesNothing(s: State, id: RequestId, r: Resolver)
    ensures Untouched(s, s.Finish(id, r)) && Untouched(s, s.Fails(r.task).Finish(id, r))
  {
  }

  lemma LoadedTouchesNothing(s: State, id: RequestId)
    requires id in s.resolvers && !s.resolvers[id].waiting.Mutation?
    ensures Untouched(s, s.ResolveLoaded(id))
  {
    hide State.Recover, State.Finish, Untouched;
    var r := s.resolvers[id];
    RecoverTouchesNothing(s, id, r);
    FinishTouchesNothing(s, id, r);
    assert Untouched(s, s.Wait(id, r, Mutation)) by {
      WaitTouchesNothing(s, id, r, Mutation);
    }
  }

  lemma WaitTouchesNothing(s: State, id: RequestId, r: Resolver, waiting: Waiting)
    ensures Untouched(s, s.Wait(id, r, waiting))
  {
  }

  lemma ResolutionTouchesNothing(s: State, step: Step)
    requires Enabled(s, step) && (step.ResolveStep? || step.ResolveLoadedStep? || step.MutationReplyStep?)
    ensures Untouched(s.(now := s.now + 1), Next(s, step))
  {
    hide State.ResolveManually, State.ResolveLoaded, State.MutationReply;
    var t := s.(now := s.now + 1);
    if step.ResolveStep? {
      ResolveTouchesNothing(t, step.task);
    } else if step.MutationReplyStep? {
      MutationTouchesNothing(t, step.id, step.version);
    } else {
      LoadedTouchesNothing(t, step.id);
    }
  }

  lemma EndTouchesNothing(s: State, id: RequestId, l: Loader)
    requires id in s.loaders
    ensures var t := s.EndIteration(id, l);
      && Untouched(s.(loaders := s.loaders - {id}), t) && t.store.latest == s.store.latest
      && (id !in t.loaders ==> t.store.snapshotErrors == s.store.snapshotErrors)
      && (l.owner != s.store.epoch ==> id !in t.loaders)
  {
  }

  lemma ProjectedTouches(s: State, task: TaskId, event: ActionEvent)
    requires !event.Ignored?
    ensures var t := s.Projected(task, event);
      && t == s.(store := t.store, lastProjection := s.now)
      && t.store == s.store.(latest := s.store.latest[task := event.sequence],
                             projectionGeneration := s.store.projectionGeneration + 1,
                             snapshots := t.store.snapshots, items := t.store.items)
      && t.store.snapshots.Keys == s.store.snapshots.Keys
      && (forall k :: k in t.store.snapshots ==> t.store.snapshots[k].cursor == s.store.snapshots[k].cursor)
  {
    hide Project;
    ProjectKeepsCursors(s.store.(latest := s.store.latest[task := event.sequence],
                                 projectionGeneration := s.store.projectionGeneration + 1), task, event);
  }

  lemma NudgeTouchesNothing(s: State, task: TaskId)
    ensures s.Nudge(task) == s.(loaders := s.Nudge(task).loaders) && s.Nudge(task).loaders.Keys == s.loaders.Keys
  {
  }

  lemma EventTouches(s: State, task: TaskId, event: ActionEvent)
    ensures var t := s.ApplyEvent(task, event);
      if s.Stale(task, event) then Untouched(s, t) && t.store == s.store
      else
        && t.lastProjection == s.now && t.now == s.now && t.lastAcceptedList == s.lastAcceptedList
        && t.store.projectionGeneration == s.store.projectionGeneration + 1
        && t.store.acceptedListGeneration == s.store.acceptedListGeneration
        && t.store.epoch == s.store.epoch
        && t.store.latest == s.store.latest[task := event.sequence]
        && t.store.snapshots.Keys == s.store.snapshots.Keys
        && (forall k :: k in t.store.snapshots ==> t.store.snapshots[k].cursor == s.store.snapshots[k].cursor)
        && s.loaders.Keys <= t.loaders.Keys
  {
    hide State.Nudge, State.LoadSnapshot, State.Projected;
    if !s.Stale(task, event) {
      ProjectedTouches(s, task, event);
      var u := s.Projected(task, event);
      NudgeTouchesNothing(u, task);
      LoadTouchesNothing(u.Nudge(task).AskAgain(task), task, None);
    }
  }

  /** What one snapshot response does, by the branch it takes. */
  lemma ReplyTouches(s: State, id: RequestId, snapshot: ActionSnapshot)
    requires id in s.loaders
    ensures var t, l := s.SnapshotReply(id, snapshot), s.loaders[id];
      if s.AcceptsSnapshot(id, snapshot.cursor) then
        && Untouched(s.Accept(l.task, snapshot).(loaders := s.loaders - {id}), t)
        && t.store.latest == s.store.latest[l.task := snapshot.cursor]
      else
        && Untouched(s.(loaders := s.loaders - {id}), t) && t.store.latest == s.store.latest
        && (id !in t.loaders && l.owner == s.store.epoch ==> l.task in t.store.snapshotErrors)
  {
    var l := s.loaders[id];
    if l.owner != s.store.epoch {
      EndTouchesNothing(s, id, l);
    } else if s.CrossedList(id) {
      if !l.retriedAfterList {
        var u := s.(store := s.store.(refreshAgain := s.store.refreshAgain + {l.task}));
        EndTouchesNothing(u, id, l.(retriedAfterList := true));
      } else {
        EndTouchesNothing(s, id, l);
        EndTouchesNothing(s.Fails(l.task), id, l);
      }
    } else if s.Outdated(id, snapshot.cursor) {
      EndTouchesNothing(s, id, l);
      EndTouchesNothing(s.Fails(l.task), id, l);
    } else {
      EndTouchesNothing(s.Accept(l.task, snapshot), id, l);
    }
  }

  lemma FailureTouches(s: State, id: RequestId)
    requires id in s.loaders
    ensures var t, l := s.SnapshotFailure(id), s.loaders[id];
      && Untouched(s.(loaders := s.loaders - {id}), t) && t.store.latest == s.store.latest
      && (id !in t.loaders && l.owner == s.store.epoch ==> l.task in t.store.snapshotErrors)
  {
    EndTouchesNothing(s, id, s.loaders[id]);
    EndTouchesNothing(s.Fails(s.loaders[id].task), id, s.loaders[id]);
  }

  /** Everything but list replies, snapshot replies, events and clearing leaves the data alone. */
  lemma OtherStepsTouchNothing(s: State, step: Step)
    requires Enabled(s, step)
    requires !step.ListReplyStep? && !step.SnapshotReplyStep? && !step.SnapshotFailureStep? && !step.EventStep? &&
      !step.ClearStep?
    ensures Untouched(s.(now := s.now + 1), Next(s, step))
  {
    hide State.Request, State.LoadSnapshot, State.EndIteration, State.SnapshotReply, State.SnapshotFailure,
      State.ApplyEvent, State.Nudge, State.ResolveManually, State.ResolveLoaded, State.MutationReply;
    if step.LoadSnapshotStep? {
      RequestTouchesNothing(s.(now := s.now + 1), step.task, step.minimum);
    } else if !step.RefreshListStep? && !step.ListFailureStep? {
      ResolutionTouchesNothing(s, step);
    }
  }

  /** An accepted reply stores nothing below what was stored. */
  lemma ReplyKeepsCursors(s: State, id: RequestId, snapshot: ActionSnapshot, task: TaskId)
    requires StoreInv(s) && id in s.loaders && task in s.store.snapshots
    ensures var t := s.SnapshotReply(id, snapshot);
      task in t.store.snapshots && s.store.snapshots[task].cursor <= t.store.snapshots[task].cursor
  {
    ReplyTouches(s, id, snapshot);
    hide State.SnapshotReply;
  }

  /** Within an epoch a stored snapshot is never dropped and its cursor never falls. */
  lemma StoredCursorNeverFalls(s: State, step: Step, task: TaskId)
    requires Inv(s) && Enabled(s, step) && !step.ClearStep? && task in s.store.snapshots
    ensures var t := Next(s, step);
      task in t.store.snapshots && s.store.snapshots[task].cursor <= t.store.snapshots[task].cursor
  {
    hide State.Request, State.LoadSnapshot, State.EndIteration, State.SnapshotReply, State.SnapshotFailure,
      State.ApplyEvent, State.Nudge, State.ResolveManually, State.ResolveLoaded, State.MutationReply, StoreInv,
      LoaderInv, ListInv;
    var u := s.(now := s.now + 1);
    if step.EventStep? {
      EventTouches(u, step.task, step.event);
    } else if step.SnapshotReplyStep? {
      assert StoreInv(u) by { TickKeeps(s); }
      ReplyKeepsCursors(u, step.id, step.snapshot, task);
    } else if step.SnapshotFailureStep? {
      FailureTouches(u, step.id);
    } else if !step.ListReplyStep? {
      OtherStepsTouchNothing(s, step);
    }
  }

  /** A step keeps the epoch, and only clearing starts the next one. */
  lemma EpochOnlyRises(s: State, step: Step)
    requires Enabled(s, step)
    ensures Next(s, step).store.epoch == s.store.epoch + (if step.ClearStep? then 1 else 0)
  {
    hide State.Request, State.LoadSnapshot, State.EndIteration, State.SnapshotReply, State.SnapshotFailure,
      State.ApplyEvent, State.Nudge, State.ResolveManually, State.ResolveLoaded, State.MutationReply;
    var u := s.(now := s.now + 1);
    if step.EventStep? {
      EventTouches(u, step.task, step.event);
    } else if step.SnapshotReplyStep? {
      ReplyTouches(u, step.id, step.snapshot);
    } else if step.SnapshotFailureStep? {
      FailureTouches(u, step.id);
    } else if !step.ListReplyStep? && !step.ClearStep? {
      OtherStepsTouchNothing(s, step);
    }
  }

  lemma {:induction false} EpochNeverFalls(s: State, steps: seq<Step>)
    requires Executes(s, steps)
    ensures s.store.epoch <= After(s, steps).store.epoch
    decreases |steps|
  {
    if steps != [] {
      EpochOnlyRises(s, steps[0]);
      EpochNeverFalls(Next(s, steps[0]), steps[1..]);
    }
  }

  /** Between any two moments of one epoch, with every interleaving in between, a stored cursor has not fallen. */
  lemma {:induction false} CursorIsMonotoneWithinEpoch(s: State, steps: seq<Step>, task: TaskId)
    requires Inv(s) && Executes(s, steps) && task in s.store.snapshots
    requires After(s, steps).store.epoch == s.store.epoch
    ensures var t := After(s, steps);
      task in t.store.snapshots && s.store.snapshots[task].cursor <= t.store.snapshots[task].cursor
    decreases |steps|
  {
    hide Inv, Next;
    if steps != [] {
      EpochOnlyRises(s, steps[0]);
      EpochNeverFalls(Next(s, steps[0]), steps[1..]);
      StoredCursorNeverFalls(s, steps[0], task);
      StepKeeps(s, steps[0]);
      CursorIsMonotoneWithinEpoch(Next(s, steps[0]), steps[1..], task);
    }
  }

  predicate FromEarlierEpoch(s: State, step: Step)
    requires Enabled(s, step)
  {
    match step
    case ListReplyStep(id, _) => s.lists[id].owner != s.store.epoch
    case ListFailureStep(id) => s.lists[id].owner != s.store.epoch
    case SnapshotReplyStep(id, _) => s.loaders[id].owner != s.store.epoch
    case SnapshotFailureStep(id) => s.loaders[id].owner != s.store.epoch
    case ResolveLoadedStep(id) => s.resolvers[id].owner != s.store.epoch
    case MutationReplyStep(id, _) => s.resolvers[id].owner != s.store.epoch
    case _ => false
  }

  /** A response or continuation that belongs to an earlier epoch leaves the whole store as it was. */
  lemma EarlierEpochWritesNothing(s: State, step: Step)
    requires Inv(s) && Enabled(s, step) && FromEarlierEpoch(s, step)
    ensures Next(s, step).store == s.store
  {
    if step.SnapshotReplyStep? || step.SnapshotFailureStep? {
      var l := s.loaders[step.id];
      if l.task in s.store.pending {
        assert s.loaders[s.store.pending[l.task]].owner == s.store.epoch;
      }
    }
  }

  /** The page a list step installs was requested after the last cursor-advancing projection. */
  lemma AcceptedListIsCurrent(s: State, step: Step)
    requires Inv(s) && Enabled(s, step)
    requires Next(s, step).store.acceptedListGeneration != s.store.acceptedListGeneration
    ensures step.ListReplyStep? && Next(s, step).store.items == step.page
    ensures s.lists[step.id].owner == s.store.epoch && s.lastProjection < s.lists[step.id].requestedAt
    ensures Next(s, step).lastAcceptedList == Next(s, step).now
  {
    hide State.Request, State.LoadSnapshot, State.EndIteration, State.SnapshotReply, State.SnapshotFailure,
      State.ApplyEvent, State.Nudge, State.ResolveManually, State.ResolveLoaded, State.MutationReply,
      LoaderInv, StoreInv;
    var u := s.(now := s.now + 1);
    if step.EventStep? {
      EventTouches(u, step.task, step.event);
    } else if step.SnapshotReplyStep? {
      ReplyTouches(u, step.id, step.snapshot);
    } else if step.SnapshotFailureStep? {
      FailureTouches(u, step.id);
    } else if step.ListReplyStep? {
      assert ListInv(s, s.lists[step.id]);
    } else if !step.ClearStep? {
      OtherStepsTouchNothing(s, step);
    }
  }

  /** A snapshot response that stores anything was requested after the last accepted list. */
  lemma AcceptedSnapshotIsCurrent(s: State, id: RequestId, snapshot: ActionSnapshot)
    requires Inv(s) && id in s.loaders
    requires Next(s, SnapshotReplyStep(id, snapshot)).store.snapshots != s.store.snapshots
    ensures var t, l := Next(s, SnapshotReplyStep(id, snapshot)), s.loaders[id];
      && l.owner == s.store.epoch && s.lastAcceptedList < l.requestedAt
      && t.store.snapshots == s.store.snapshots[l.task := snapshot]
      && (l.task in s.store.latest ==> s.store.latest[l.task] <= snapshot.cursor)
      && (s.Advances(l.task, snapshot.cursor) ==> t.lastProjection == t.now)
  {
    hide State.Request, State.LoadSnapshot, State.EndIteration, State.SnapshotReply, State.SnapshotFailure,
      State.ApplyEvent, State.Nudge, State.ResolveManually, State.ResolveLoaded, State.MutationReply, ListInv;
    assert LoaderInv(s, id, s.loaders[id]);
    ReplyTouches(s.(now := s.now + 1), id, snapshot);
  }

  /** The history counters record what they claim: an event either advances the cursor or does nothing. */
  lemma EventProjectionIsRecorded(s: State, task: TaskId, event: ActionEvent)
    ensures var t := Next(s, EventStep(task, event));
      if s.Stale(task, event) then t.store == s.store && t.lastProjection == s.lastProjection
      else
        && t.lastProjection == t.now && t.store.projectionGeneration == s.store.projectionGeneration + 1
        && t.store.latest == s.store.latest[task := event.sequence]
  {
    hide State.Request, State.LoadSnapshot, State.EndIteration, State.SnapshotReply, State.SnapshotFailure,
      State.ApplyEvent, State.Nudge, State.ResolveManually, State.ResolveLoaded, State.MutationReply;
    EventTouches(s.(now := s.now + 1), task, event);
  }

  lemma LoopEndsOnlyByItsOwnRead(s: State, step: Step, id: RequestId)
    requires Enabled(s, step) && id in s.loaders && id !in Next(s, step).loaders
    ensures (step.SnapshotReplyStep? || step.SnapshotFailureStep?) && step.id == id
  {
    hide State.Request, State.LoadSnapshot, State.EndIteration, State.SnapshotReply, State.SnapshotFailure,
      State.ApplyEvent, State.Nudge, State.ResolveManually, State.ResolveLoaded, State.MutationReply;
    var u := s.(now := s.now + 1);
    if step.EventStep? {
      EventTouches(u, step.task, step.event);
    } else if step.SnapshotReplyStep? {
      ReplyTouches(u, step.id, step.snapshot);
    } else if step.SnapshotFailureStep? {
      FailureTouches(u, step.id);
    } else if !step.ListReplyStep? && !step.ClearStep? {
      OtherStepsTouchNothing(s, step);
    }
  }

  /**
   * When a loop ends in its own epoch, either this last response was stored and is the task's
   * watermark, or the task shows an error; and the loop made at most two reads more than there were
   * fresh events needing the snapshot, mutation results and minimum cursors for its task meanwhile.
   */
  lemma LoopEndsAcceptedOrFailed(s: State, step: Step, id: RequestId)
    requires Inv(s) && Enabled(s, step) && id in s.loaders && id !in Next(s, step).loaders
    requires s.loaders[id].owner == s.store.epoch
    ensures var t, task := Next(s, step), s.loaders[id].task;
      || task in t.store.snapshotErrors
      || (step.SnapshotReplyStep? && task in t.store.snapshots && task in t.store.latest &&
          t.store.snapshots[task] == step.snapshot && t.store.snapshots[task].cursor == t.store.latest[task])
    ensures s.loaders[id].readCount <= 2 + s.loaders[id].nudges
  {
    hide State.Request, State.LoadSnapshot, State.EndIteration, State.SnapshotReply, State.SnapshotFailure,
      State.ApplyEvent, State.Nudge, State.ResolveManually, State.ResolveLoaded, State.MutationReply, ListInv;
    LoopEndsOnlyByItsOwnRead(s, step, id);
    assert LoaderInv(s, id, s.loaders[id]);
    var u := s.(now := s.now + 1);
    if step.SnapshotReplyStep? {
      ReplyTouches(u, id, step.snapshot);
    } else {
      FailureTouches(u, id);
    }
  }
}
