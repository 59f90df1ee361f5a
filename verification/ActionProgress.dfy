/**
 * What the action-centre store does not forget: which requests are in flight whenever it says that it is
 * loading or mutating, and which replies it takes. Everything here holds beside the invariant of
 * `ActionProtocol`, after every interleaving.
 */
module ActionProgress {
  import opened Prelude
  import opened TaskFacts
  import opened ActionProtocol

  // ---------------------------------------------------------------- the invariant

  ghost predicate ListFine(s: State, r: ListRead) {
    && r.generation <= s.store.listGeneration && r.requestedAt <= s.now
    && (r.observedProjection != s.store.projectionGeneration ==> r.requestedAt <= s.lastProjection)
  }

  ghost predicate ListsOrdered(s: State) {
    && (forall id :: id in s.lists ==> ListFine(s, s.lists[id]))
    && (forall i, j :: i in s.lists && j in s.lists && s.lists[i].generation == s.lists[j].generation ==> i == j)
  }

  /** The list is loading exactly while a request of this epoch and the newest generation is in flight. */
  ghost predicate ListsFine(s: State) {
    && ListsOrdered(s)
    && (s.store.loading <==> exists id :: id in s.lists && s.CurrentList(id))
  }

  ghost predicate LoaderFine(s: State, l: Loader) {
    && l.requestedAt <= s.now
    && (l.observedList != s.store.acceptedListGeneration ==> l.requestedAt <= s.lastAcceptedList)
  }

  /** A snapshot is loading exactly while its loop runs. */
  ghost predicate LoadersFine(s: State) {
    && (forall id :: id in s.loaders ==> LoaderFine(s, s.loaders[id]))
    && s.store.snapshotLoading == s.store.pending.Keys
  }

  predicate Resolves(s: State, id: RequestId, task: TaskId) {
    id in s.resolvers && s.resolvers[id].task == task && s.resolvers[id].owner == s.store.epoch
  }

  /** A task is mutating exactly while one resolution of this epoch runs for it. */
  ghost predicate ResolversFine(s: State) {
    && (forall id :: id in s.resolvers ==> s.resolvers[id].owner <= s.store.epoch)
    && (forall task :: task in s.store.mutating <==> exists id :: Resolves(s, id, task))
    && (forall task, i, j :: Resolves(s, i, task) && Resolves(s, j, task) ==> i == j)
  }

  ghost predicate RestFine(s: State) {
    LoadersFine(s) && ResolversFine(s) && s.lastProjection <= s.now && s.lastAcceptedList <= s.now
  }

  ghost predicate Fine(s: State) { ListsFine(s) && RestFine(s) }

  // ---------------------------------------------------------------- frames

  /** The list half is as it was, but for projections that happened just now. */
  ghost predicate SameLists(s: State, t: State) {
    && t.lists == s.lists && t.store.loading == s.store.loading && t.store.listGeneration == s.store.listGeneration
    && t.store.epoch == s.store.epoch && s.now == t.now && s.nextId <= t.nextId
    && s.store.filters == t.store.filters && s.store.listError == t.store.listError
    && if t.store.projectionGeneration == s.store.projectionGeneration then t.lastProjection == s.lastProjection
       else t.store.projectionGeneration > s.store.projectionGeneration && t.lastProjection == t.now
  }

  ghost predicate SameResolvers(s: State, t: State) {
    t.resolvers == s.resolvers && t.store.mutating == s.store.mutating && t.store.epoch == s.store.epoch
  }

  /** The snapshot half: loops start or read again at this very moment, and stop only with their flags. */
  ghost predicate LoadersMove(s: State, t: State) {
    && t.store.acceptedListGeneration == s.store.acceptedListGeneration && t.lastAcceptedList == s.lastAcceptedList
    && t.now == s.now
    && (forall id :: id in t.loaders ==> LoaderMoves(s, t, id))
    && (s.store.snapshotLoading == s.store.pending.Keys ==> t.store.snapshotLoading == t.store.pending.Keys)
  }

  ghost predicate LoaderMoves(s: State, t: State, id: RequestId)
    requires id in t.loaders
  {
    var l := t.loaders[id];
    || (l.requestedAt == s.now && l.observedList == s.store.acceptedListGeneration)
    || (id in s.loaders && l.requestedAt == s.loaders[id].requestedAt && l.observedList == s.loaders[id].observedList)
  }

  ghost predicate Moves(s: State, t: State) { SameLists(s, t) && SameResolvers(s, t) && LoadersMove(s, t) }

  lemma MovesJoin(s: State, t: State, u: State)
    requires Moves(s, t) && Moves(t, u)
    ensures Moves(s, u)
  {
    assert forall id :: id in u.loaders ==> LoaderMoves(t, u, id);
    forall id | id in u.loaders
      ensures LoaderMoves(s, u, id)
    {
      if id in t.loaders {
        assert LoaderMoves(s, t, id);
      }
    }
  }

  /** One loop reads now, and its task is marked as loading. */
  lemma ReadMoves(s: State, t: State)
    requires t.store.acceptedListGeneration == s.store.acceptedListGeneration
    requires t.lastAcceptedList == s.lastAcceptedList && t.now == s.now
    requires exists id :: id in t.loaders && ReadsNow(s, t, id)
    ensures LoadersMove(s, t)
  {
    var id :| id in t.loaders && ReadsNow(s, t, id);
    forall i | i in t.loaders
      ensures LoaderMoves(s, t, i)
    {
    }
  }

  ghost predicate ReadsNow(s: State, t: State, id: RequestId)
    requires id in t.loaders
  {
    var l := t.loaders[id];
    && l.requestedAt == s.now && l.observedList == s.store.acceptedListGeneration
    && t.loaders == s.loaders[id := l]
    && t.store.snapshotLoading == s.store.snapshotLoading + {l.task}
    && t.store.pending.Keys == s.store.pending.Keys + {l.task}
  }

  lemma StartMoves(s: State, task: TaskId, minimum: Option<nat>)
    ensures Moves(s, s.Start(task, minimum)) && task in s.Start(task, minimum).store.pending
  {
    var t := s.Start(task, minimum);
    assert ReadsNow(s, t, s.nextId);
    hide LoadersMove, ReadsNow;
    ReadMoves(s, t);
  }

  lemma RaiseMoves(s: State, task: TaskId, minimum: Option<nat>)
    ensures Moves(s, s.RaiseWatermark(task, minimum))
    ensures s.RaiseWatermark(task, minimum).store.pending == s.store.pending
  {
  }

  lemma AskMoves(s: State, task: TaskId)
    ensures Moves(s, s.(store := s.store.(refreshAgain := s.store.refreshAgain + {task})))
  {
  }

  lemma LoadMoves(s: State, task: TaskId, minimum: Option<nat>)
    ensures Moves(s, s.LoadSnapshot(task, minimum)) && task in s.LoadSnapshot(task, minimum).store.pending
  {
    hide Moves, State.RaiseWatermark, State.Start;
    var u := s.RaiseWatermark(task, minimum);
    RaiseMoves(s, task, minimum);
    if task !in s.store.pending {
      StartMoves(u, task, minimum);
      MovesJoin(s, u, s.LoadSnapshot(task, minimum));
    } else if minimum.Some? {
      AskMoves(u, task);
      MovesJoin(s, u, s.LoadSnapshot(task, minimum));
    }
  }

  lemma NudgeMoves(s: State, task: TaskId)
    ensures Moves(s, s.Nudge(task))
  {
  }

  lemma RequestMoves(s: State, task: TaskId, minimum: Option<nat>)
    ensures Moves(s, s.Request(task, minimum)) && task in s.Request(task, minimum).store.pending
  {
    hide State.LoadSnapshot, State.Nudge, Moves;
    NudgeMoves(s, task);
    LoadMoves(s, task, minimum);
    LoadMoves(s.Nudge(task), task, minimum);
    if minimum.Some? {
      MovesJoin(s, s.Nudge(task), s.Request(task, minimum));
    }
  }

  lemma FailsMoves(s: State, task: TaskId)
    ensures Moves(s, s.Fails(task))
  {
  }

  lemma AcceptMoves(s: State, task: TaskId, snapshot: ActionSnapshot)
    ensures Moves(s, s.Accept(task, snapshot))
  {
  }

  /** The facts about the replying loop that the end of its iteration needs survive what precedes it. */
  ghost predicate SameLoops(s: State, t: State) {
    t.loaders == s.loaders && t.store.pending == s.store.pending && t.store.epoch == s.store.epoch
  }

  lemma EndMovesAfter(s: State, t: State, id: RequestId, l: Loader)
    requires Inv(s) && id in s.loaders && Moves(s, t) && SameLoops(s, t)
    requires l.task == s.loaders[id].task && l.owner == s.loaders[id].owner
    requires l.requestedAt == s.loaders[id].requestedAt && l.observedList == s.loaders[id].observedList
    ensures Moves(s, t.EndIteration(id, l))
  {
    assert LoaderInv(s, id, s.loaders[id]);
    LoopIsOwn(s, id);
    EndMovesOwn(t, id, l);
    hide State.EndIteration, Moves;
    MovesJoin(s, t, t.EndIteration(id, l));
  }

  /** Only the loop of this epoch is the pending one. */
  lemma LoopIsOwn(s: State, id: RequestId)
    requires Inv(s) && id in s.loaders
    ensures var l := s.loaders[id];
      l.owner == s.store.epoch <==> l.task in s.store.pending && s.store.pending[l.task] == id
  {
    assert LoaderInv(s, id, s.loaders[id]);
  }

  lemma EndMovesOwn(s: State, id: RequestId, l: Loader)
    requires id in s.loaders
    requires l.owner == s.store.epoch <==> l.task in s.store.pending && s.store.pending[l.task] == id
    requires l.requestedAt == s.loaders[id].requestedAt && l.observedList == s.loaders[id].observedList
    ensures Moves(s, s.EndIteration(id, l))
  {
    var t := s.EndIteration(id, l);
    if l.owner == s.store.epoch && l.task in s.store.refreshAgain {
      assert ReadsNow(s, t, id);
      hide LoadersMove, ReadsNow;
      ReadMoves(s, t);
    } else {
      assert t.loaders == s.loaders - {id};
      EndLoopMoves(s, id, l);
    }
  }

  lemma EndLoopMoves(s: State, id: RequestId, l: Loader)
    requires l.owner == s.store.epoch <==> l.task in s.store.pending && s.store.pending[l.task] == id
    ensures Moves(s, s.EndLoop(id, l))
  {
    var t := s.EndLoop(id, l);
    assert t.store.pending.Keys ==
      if l.owner == s.store.epoch then s.store.pending.Keys - {l.task} else s.store.pending.Keys;
    assert forall i :: i in t.loaders ==> i in s.loaders && t.loaders[i] == s.loaders[i];
  }

  lemma SnapshotReplyMoves(s: State, id: RequestId, snapshot: ActionSnapshot)
    requires Inv(s) && id in s.loaders
    ensures Moves(s, s.SnapshotReply(id, snapshot))
  {
    hide Inv, Moves, State.EndIteration, State.Accept;
    var l := s.loaders[id];
    NothingMoves(s);
    FailsMoves(s, l.task);
    AskMoves(s, l.task);
    AcceptMoves(s, l.task, snapshot);
    EndMovesAfter(s, s, id, l);
    EndMovesAfter(s, s.Fails(l.task), id, l);
    EndMovesAfter(s, s.(store := s.store.(refreshAgain := s.store.refreshAgain + {l.task})), id,
                  l.(retriedAfterList := true));
    assert SameLoops(s, s.Accept(l.task, snapshot)) by { AcceptKeepsLoops(s, l.task, snapshot); }
    EndMovesAfter(s, s.Accept(l.task, snapshot), id, l);
  }

  lemma AcceptKeepsLoops(s: State, task: TaskId, snapshot: ActionSnapshot)
    ensures SameLoops(s, s.Accept(task, snapshot))
  {
  }

  lemma NothingMoves(s: State)
    ensures Moves(s, s)
  {
  }

  lemma SnapshotFailureMoves(s: State, id: RequestId)
    requires Inv(s) && id in s.loaders
    ensures Moves(s, s.SnapshotFailure(id))
  {
    hide Inv, Moves, State.EndIteration;
    var l := s.loaders[id];
    NothingMoves(s);
    FailsMoves(s, l.task);
    EndMovesAfter(s, s, id, l);
    EndMovesAfter(s, s.Fails(l.task), id, l);
  }

  lemma ProjectedMoves(s: State, task: TaskId, event: ActionEvent)
    requires !event.Ignored?
    ensures Moves(s, s.Projected(task, event))
  {
    ProjectedTouches(s, task, event);
    ProjectedKeepsRest(s, task, event);
    hide State.Projected, Project;
  }

  lemma ProjectedKeepsRest(s: State, task: TaskId, event: ActionEvent)
    requires !event.Ignored?
    ensures var t := s.Projected(task, event);
      && t.store.loading == s.store.loading && t.store.pending == s.store.pending
      && t.store.snapshotLoading == s.store.snapshotLoading && t.store.mutating == s.store.mutating
      && t.store.refreshAgain == s.store.refreshAgain
  {
  }

  lemma AskAgainMoves(s: State, task: TaskId)
    ensures Moves(s, s.AskAgain(task))
  {
    hide Moves;
    NothingMoves(s);
    AskMoves(s, task);
  }

  lemma ApplyEventMoves(s: State, task: TaskId, event: ActionEvent)
    ensures Moves(s, s.ApplyEvent(task, event))
  {
    hide Moves, State.Projected, State.Nudge, State.AskAgain, State.LoadSnapshot;
    NothingMoves(s);
    if !s.Stale(task, event) {
      var a := s.Projected(task, event);
      ProjectedMoves(s, task, event);
      NudgeMoves(a, task);
      AskAgainMoves(a.Nudge(task), task);
      LoadMoves(a.Nudge(task).AskAgain(task), task, None);
      MovesJoin(s, a, a.Nudge(task));
      MovesJoin(s, a.Nudge(task), a.Nudge(task).AskAgain(task));
      MovesJoin(s, a.Nudge(task).AskAgain(task), a.Nudge(task).AskAgain(task).LoadSnapshot(task, None));
    }
  }

  // ---------------------------------------------------------------- every step keeps it

  lemma MovesKeepFine(s: State, t: State)
    requires Fine(s) && Moves(s, t)
    ensures Fine(t)
  {
    hide ResolversFine;
    assert ListsFine(t) by { SameListsKeep(s, t); }
    assert LoadersFine(t) by { LoadersMoveKeeps(s, t); }
    assert ResolversFine(t) by { SameResolversKeep(s, t); }
  }

  lemma SameListsKeep(s: State, t: State)
    requires ListsFine(s) && SameLists(s, t) && s.lastProjection <= s.now
    ensures ListsFine(t) && t.lastProjection <= t.now
  {
    assert forall id :: id in s.lists ==> ListFine(s, s.lists[id]) && s.CurrentList(id) == t.CurrentList(id);
  }

  lemma LoadersMoveKeeps(s: State, t: State)
    requires LoadersFine(s) && LoadersMove(s, t)
    ensures LoadersFine(t)
  {
    forall id | id in t.loaders
      ensures LoaderFine(t, t.loaders[id])
    {
      assert LoaderMoves(s, t, id);
    }
  }

  lemma SameResolversKeep(s: State, t: State)
    requires ResolversFine(s) && SameResolvers(s, t)
    ensures ResolversFine(t)
  {
    assert forall id, task :: Resolves(t, id, task) == Resolves(s, id, task);
  }

  lemma RefreshFine(s: State, filters: int)
    requires ListsOrdered(s) && RestFine(s) && forall id :: id in s.lists ==> id < s.nextId
    ensures Fine(s.RefreshList(filters))
  {
    var t := s.RefreshList(filters);
    hide ResolversFine;
    SameResolversKeep(s, t);
    assert t.CurrentList(s.nextId);
    forall id | id in t.lists
      ensures ListFine(t, t.lists[id])
    {
      assert id != s.nextId ==> ListFine(s, s.lists[id]);
    }
    assert forall id :: id in t.loaders ==> LoaderFine(s, t.loaders[id]);
  }

  /** With its list half changed and nothing else, a state stays fine. */
  lemma ListDoneFine(s: State, id: RequestId)
    requires Fine(s) && id in s.lists
    ensures var done := s.(lists := s.lists - {id});
      && ListsOrdered(done) && RestFine(done)
      && (s.CurrentList(id) ==> forall i :: i in done.lists ==> !done.CurrentList(i))
    ensures !s.CurrentList(id) ==> Fine(s.(lists := s.lists - {id}))
  {
    var done := s.(lists := s.lists - {id});
    SameResolversKeep(s, done);
    hide ResolversFine;
    assert forall i :: i in done.lists ==> ListFine(s, done.lists[i]) && done.CurrentList(i) == s.CurrentList(i);
    assert forall i :: i in done.loaders ==> LoaderFine(s, done.loaders[i]);
  }

  lemma AcceptedFine(s: State, page: seq<Item>)
    requires ListsOrdered(s) && RestFine(s) && s.lastAcceptedList < s.now
    requires forall i :: i in s.lists ==> !s.CurrentList(i)
    ensures Fine(s.(store := s.store.(items := page, loaded := true, loading := false,
                                      acceptedListGeneration := s.store.acceptedListGeneration + 1),
                    lastAcceptedList := s.now))
  {
    var t := s.(store := s.store.(items := page, loaded := true, loading := false,
                                  acceptedListGeneration := s.store.acceptedListGeneration + 1),
                lastAcceptedList := s.now);
    SameResolversKeep(s, t);
    hide ResolversFine;
    assert forall i :: i in t.lists ==> ListFine(s, t.lists[i]) && t.CurrentList(i) == s.CurrentList(i);
    assert forall i :: i in t.loaders ==> LoaderFine(s, t.loaders[i]);
  }

  lemma ListReplyFine(s: State, id: RequestId, page: seq<Item>)
    requires Inv(s) && Fine(s) && id in s.lists && s.lastAcceptedList < s.now
    ensures Fine(s.ListReply(id, page))
  {
    var done := s.(lists := s.lists - {id});
    ListDoneFine(s, id);
    assert forall i :: i in done.lists ==> i < done.nextId;
    hide Inv, Fine, ListsOrdered, RestFine;
    if s.CurrentList(id) {
      if s.AcceptsList(id) {
        AcceptedFine(done, page);
      } else {
        RefreshFine(done, s.store.filters);
      }
    }
  }

  lemma ListFailureFine(s: State, id: RequestId)
    requires Fine(s) && id in s.lists
    ensures Fine(s.ListFailure(id))
  {
    ListDoneFine(s, id);
    if s.CurrentList(id) {
      var done, t := s.(lists := s.lists - {id}), s.ListFailure(id);
      SameResolversKeep(done, t);
      hide ResolversFine;
      assert forall i :: i in t.lists ==> ListFine(done, t.lists[i]) && t.CurrentList(i) == done.CurrentList(i);
      assert forall i :: i in t.loaders ==> LoaderFine(done, t.loaders[i]);
    }
  }

  lemma TickFine(s: State)
    requires Fine(s)
    ensures Fine(s.(now := s.now + 1))
  {
    var t := s.(now := s.now + 1);
    SameResolversKeep(s, t);
    hide ResolversFine;
    assert forall i :: i in t.lists ==> ListFine(s, t.lists[i]) && t.CurrentList(i) == s.CurrentList(i);
    assert forall i :: i in t.loaders ==> LoaderFine(s, t.loaders[i]);
  }

  lemma ClearFine(s: State)
    requires Inv(s) && Fine(s)
    ensures Fine(s.Clear())
  {
    var t := s.Clear();
    assert forall i :: i in t.lists ==> ListFine(s, t.lists[i]);
    assert forall i :: i in t.loaders ==> LoaderFine(s, t.loaders[i]);
    assert t.store.pending.Keys == {};
  }

  /** A change of the resolvers alone. */
  lemma ResolversChangeFine(s: State, t: State)
    requires Fine(s) && ResolversFine(t)
    requires t == s.(resolvers := t.resolvers, nextId := t.nextId, store := s.store.(mutating := t.store.mutating))
    ensures Fine(t)
  {
    hide ResolversFine;
    assert forall i :: i in t.lists ==> ListFine(s, t.lists[i]) && t.CurrentList(i) == s.CurrentList(i);
    assert forall i :: i in t.loaders ==> LoaderFine(s, t.loaders[i]);
  }

  lemma WaitFine(s: State, id: RequestId, r: Resolver, waiting: Waiting)
    requires Fine(s) && id in s.resolvers && s.resolvers[id].task == r.task && s.resolvers[id].owner == r.owner
    ensures Fine(s.Wait(id, r, waiting))
  {
    var t := s.Wait(id, r, waiting);
    assert forall i, task :: Resolves(t, i, task) == Resolves(s, i, task);
    ResolversChangeFine(s, t);
  }

  lemma FinishFine(s: State, id: RequestId, r: Resolver)
    requires Fine(s) && id in s.resolvers && s.resolvers[id].task == r.task && s.resolvers[id].owner == r.owner
    ensures Fine(s.Finish(id, r))
  {
    var t := s.Finish(id, r);
    assert forall i, task :: Resolves(t, i, task) <==> Resolves(s, i, task) && i != id;
    assert r.owner == s.store.epoch ==> Resolves(s, id, r.task);
    ResolversChangeFine(s, t);
  }

  lemma RecoverFine(s: State, id: RequestId, r: Resolver)
    requires Fine(s) && id in s.resolvers && s.resolvers[id].task == r.task && s.resolvers[id].owner == r.owner
    ensures Fine(s.Recover(id, r))
  {
    hide Fine, State.LoadSnapshot, State.Finish;
    if r.owner != s.store.epoch {
      FinishFine(s, id, r);
    } else {
      var u := s.LoadSnapshot(r.task, None);
      LoadMoves(s, r.task, None);
      MovesKeepFine(s, u);
      WaitFine(u, id, r, Recovery(u.Running(r.task)));
    }
  }

  lemma ResolveLoadedFine(s: State, id: RequestId)
    requires Fine(s) && id in s.resolvers && !s.resolvers[id].waiting.Mutation?
    ensures Fine(s.ResolveLoaded(id))
  {
    hide Fine, Moves, State.Recover, State.Finish, State.Wait;
    var r := s.resolvers[id];
    FinishFine(s, id, r);
    RecoverFine(s, id, r);
    WaitFine(s, id, r, Mutation);
    FailsMoves(s, r.task);
    MovesKeepFine(s, s.Fails(r.task));
    FinishFine(s.Fails(r.task), id, r);
  }

  lemma MutationReplyFine(s: State, id: RequestId, version: Option<nat>)
    requires Fine(s) && id in s.resolvers && s.resolvers[id].waiting.Mutation?
    ensures Fine(s.MutationReply(id, version))
  {
    hide Fine, State.Recover, State.Finish, State.Request, State.Wait;
    var r := s.resolvers[id];
    FinishFine(s, id, r);
    RecoverFine(s, id, r);
    var u := s.Request(r.task, version);
    RequestMoves(s, r.task, version);
    MovesKeepFine(s, u);
    WaitFine(u, id, r, SecondLoad(u.Running(r.task)));
  }

  /** A new resolution takes the free flag of its task. */
  lemma BeginFine(s: State, task: TaskId)
    requires Inv(s) && Fine(s) && task !in s.store.mutating
    ensures var r := Resolver(task, s.store.epoch, Mutation);
      Fine(s.(store := s.store.(mutating := s.store.mutating + {task}), nextId := s.nextId + 1,
              resolvers := s.resolvers[s.nextId := r]))
  {
    var r := Resolver(task, s.store.epoch, Mutation);
    var t := s.(store := s.store.(mutating := s.store.mutating + {task}), nextId := s.nextId + 1,
                resolvers := s.resolvers[s.nextId := r]);
    assert s.nextId !in s.resolvers;
    assert forall i :: !Resolves(s, i, task);
    assert forall i, k :: Resolves(t, i, k) <==> Resolves(s, i, k) || (i == s.nextId && k == task);
    assert ResolversFine(t) by {
      assert Resolves(t, s.nextId, task);
      forall k
        ensures k in t.store.mutating <==> exists id :: Resolves(t, id, k)
      {
        if k in s.store.mutating {
          var id :| Resolves(s, id, k);
          assert Resolves(t, id, k);
        }
      }
    }
    ResolversChangeFine(s, t);
  }

  lemma ResolveManuallyFine(s: State, task: TaskId)
    requires Inv(s) && Fine(s)
    ensures Fine(s.ResolveManually(task))
  {
    if task !in s.store.mutating {
      hide Fine, Inv, Moves, State.LoadSnapshot;
      var id, r := s.nextId, Resolver(task, s.store.epoch, Mutation);
      var a := s.(store := s.store.(mutating := s.store.mutating + {task}), nextId := s.nextId + 1);
      var b := a.(resolvers := a.resolvers[id := r]);
      BeginFine(s, task);
      LoadMoves(b, task, None);
      var u := b.LoadSnapshot(task, None);
      MovesKeepFine(b, u);
      LoadIgnoresResolvers(a, task, b.resolvers);
      WaitFine(u, id, r, FirstLoad(u.Running(task)));
      WaitOverwrites(a.LoadSnapshot(task, None), id, r, FirstLoad(u.Running(task)));
    }
  }

  lemma WaitOverwrites(s: State, id: RequestId, r: Resolver, waiting: Waiting)
    ensures s.(resolvers := s.resolvers[id := r]).Wait(id, r, waiting) == s.Wait(id, r, waiting)
  {
    assert s.resolvers[id := r][id := r.(waiting := waiting)] == s.resolvers[id := r.(waiting := waiting)];
  }

  /** Starting or joining a loop does not look at the resolutions. */
  lemma LoadIgnoresResolvers(s: State, task: TaskId, resolvers: map<RequestId, Resolver>)
    ensures s.(resolvers := resolvers).LoadSnapshot(task, None) == s.LoadSnapshot(task, None).(resolvers := resolvers)
    ensures s.LoadSnapshot(task, None).resolvers == s.resolvers
  {
  }

  lemma StepFine(s: State, step: Step)
    requires Inv(s) && Fine(s) && Enabled(s, step)
    ensures Fine(Next(s, step))
  {
    hide Inv, Fine, Moves, State.RefreshList, State.ListReply, State.ListFailure, State.Request, State.SnapshotReply,
      State.SnapshotFailure, State.ApplyEvent, State.ResolveManually, State.ResolveLoaded,
      State.MutationReply, State.Clear;
    var t := s.(now := s.now + 1);
    TickKeeps(s);
    TickFine(s);
    match step
    case RefreshListStep(filters) => RefreshStepFine(t, filters);
    case ListReplyStep(id, page) => ListReplyFine(t, id, page);
    case ListFailureStep(id) => ListFailureFine(t, id);
    case LoadSnapshotStep(task, minimum) =>
      RequestMoves(t, task, minimum);
      MovesKeepFine(t, t.Request(task, minimum));
    case SnapshotReplyStep(id, snapshot) =>
      SnapshotReplyMoves(t, id, snapshot);
      MovesKeepFine(t, t.SnapshotReply(id, snapshot));
    case SnapshotFailureStep(id) =>
      SnapshotFailureMoves(t, id);
      MovesKeepFine(t, t.SnapshotFailure(id));
    case EventStep(task, event) =>
      ApplyEventMoves(t, task, event);
      MovesKeepFine(t, t.ApplyEvent(task, event));
    case ResolveStep(task) => ResolveManuallyFine(t, task);
    case ResolveLoadedStep(id) => ResolveLoadedFine(t, id);
    case MutationReplyStep(id, version) => MutationReplyFine(t, id, version);
    case ClearStep => ClearFine(t);
  }

  lemma RefreshStepFine(s: State, filters: int)
    requires Inv(s) && Fine(s)
    ensures Fine(s.RefreshList(filters))
  {
    RefreshFine(s, filters);
  }

  lemma {:induction false} ReachableFine(s: State, steps: seq<Step>)
    requires Inv(s) && Fine(s) && Executes(s, steps)
    ensures Inv(After(s, steps)) && Fine(After(s, steps))
    decreases |steps|
  {
    hide Inv, Fine, Next;
    if steps != [] {
      StepKeeps(s, steps[0]);
      StepFine(s, steps[0]);
      ReachableFine(Next(s, steps[0]), steps[1..]);
    }
  }

  // ---------------------------------------------------------------- what the flags mean

  /**
   * After every interleaving the list says that it is loading exactly while its newest request is in
   * flight, a snapshot exactly while its loop runs, and a task that it is mutating exactly while a
   * resolution of it runs.
   */
  lemma FlagsMeanWork(steps: seq<Step>)
    requires Executes(Initial(), steps)
    ensures var s := After(Initial(), steps);
      && (s.store.loading <==> exists id :: id in s.lists && s.CurrentList(id))
      && (forall task :: task in s.store.snapshotLoading <==>
            exists id :: id in s.loaders && s.loaders[id].task == task && s.loaders[id].owner == s.store.epoch)
      && (forall task :: task in s.store.mutating <==> exists id :: Resolves(s, id, task))
  {
    ReachableFine(Initial(), steps);
    var s := After(Initial(), steps);
    forall task
      ensures task in s.store.snapshotLoading <==>
        exists id :: id in s.loaders && s.loaders[id].task == task && s.loaders[id].owner == s.store.epoch
    {
      if id :| id in s.loaders && s.loaders[id].task == task && s.loaders[id].owner == s.store.epoch {
        assert LoaderInv(s, id, s.loaders[id]);
      }
    }
  }

  // ---------------------------------------------------------------- lists

  /**
   * What the reply to the newest list request does. Asked for after the last projection, its page is
   * installed; otherwise the list is asked for again at once, with the same filters, and keeps loading.
   */
  lemma ListReplyDecides(s: State, id: RequestId, page: seq<Item>)
    requires Inv(s) && Fine(s) && id in s.lists && s.CurrentList(id)
    ensures var t := Next(s, ListReplyStep(id, page));
      if s.lastProjection < s.lists[id].requestedAt then
        t.store.items == page && t.store.loaded && !t.store.loading && t.lists == s.lists - {id}
      else
        && t.store.items == s.store.items && t.store.loaded == s.store.loaded && t.store.loading
        && s.nextId in t.lists && t.CurrentList(s.nextId) && t.store.filters == s.store.filters
        && t.lists[s.nextId].requestedAt == t.now
        && t.lists[s.nextId].observedProjection == t.store.projectionGeneration
  {
    assert ListInv(s, s.lists[id]) && ListFine(s, s.lists[id]);
  }

  /** Every refresh sends a request of its own, which makes all earlier ones old. */
  lemma RefreshRequests(s: State, filters: int)
    requires Inv(s) && Fine(s)
    ensures var t := Next(s, RefreshListStep(filters));
      && t.store.loading && !t.store.listError && t.store.filters == filters
      && s.nextId in t.lists && t.lists[s.nextId].requestedAt == t.now
      && forall id :: id in t.lists && t.CurrentList(id) <==> id == s.nextId
  {
    assert forall id :: id in s.lists ==> id < s.nextId && ListFine(s, s.lists[id]);
  }

  /** A reply to any other list request changes nothing, and a failure of the newest one is shown. */
  lemma OtherListReplies(s: State, id: RequestId, page: seq<Item>)
    requires id in s.lists
    ensures !s.CurrentList(id) ==> Next(s, ListReplyStep(id, page)).store == s.store
    ensures !s.CurrentList(id) ==> Next(s, ListFailureStep(id)).store == s.store
    ensures s.CurrentList(id) ==>
      var t := Next(s, ListFailureStep(id)); t.store.listError && !t.store.loading && t.store.items == s.store.items
  {
  }

  // ---------------------------------------------------------------- snapshots

  /** The items after `task` took on `status`. */
  ghost predicate Shows(before: seq<Item>, after: seq<Item>, task: TaskId, status: TaskStatus) {
    && |after| == |before|
    && forall i :: 0 <= i < |before| ==>
         after[i] == if before[i].TrustedTask? && before[i].task == task then TrustedTask(task, status) else before[i]
  }

  /**
   * A snapshot reply is stored if and only if its loop belongs to this epoch, it was asked for after the
   * last accepted list, and it is not below the watermark of its task.
   */
  lemma SnapshotReplyDecides(s: State, id: RequestId, snapshot: ActionSnapshot)
    requires Inv(s) && Fine(s) && id in s.loaders
    ensures var t, l := Next(s, SnapshotReplyStep(id, snapshot)), s.loaders[id];
      if l.owner == s.store.epoch && s.lastAcceptedList < l.requestedAt
         && (l.task in s.store.latest ==> s.store.latest[l.task] <= snapshot.cursor)
      then
        && t.store.snapshots == s.store.snapshots[l.task := snapshot]
        && t.store.latest == s.store.latest[l.task := snapshot.cursor]
        && Shows(s.store.items, t.store.items, l.task, snapshot.status)
      else
        && t.store.snapshots == s.store.snapshots && t.store.latest == s.store.latest
        && t.store.items == s.store.items
  {
    hide State.SnapshotReply;
    var l := s.loaders[id];
    assert LoaderInv(s, id, l) && LoaderFine(s, l);
    ReplyTouches(s.(now := s.now + 1), id, snapshot);
  }

  /** A read crossed by an accepted list is made again, once, before the loop gives up. */
  lemma CrossedReadIsRetried(s: State, id: RequestId, snapshot: ActionSnapshot)
    requires Inv(s) && Fine(s) && id in s.loaders && s.loaders[id].owner == s.store.epoch
    requires s.loaders[id].requestedAt <= s.lastAcceptedList && !s.loaders[id].retriedAfterList
    ensures var t := Next(s, SnapshotReplyStep(id, snapshot));
      && id in t.loaders && t.loaders[id].requestedAt == t.now && t.loaders[id].retriedAfterList
      && s.loaders[id].task !in t.store.snapshotErrors
  {
    assert LoaderInv(s, id, s.loaders[id]) && LoaderFine(s, s.loaders[id]);
  }

  /** The steps after which the task must be read again: what was read before no longer suffices. */
  ghost predicate AsksFor(s: State, step: Step, task: TaskId)
    requires Enabled(s, step)
  {
    match step
    case LoadSnapshotStep(t, minimum) => t == task && minimum.Some?
    case MutationReplyStep(id, version) =>
      version.Some? && s.resolvers[id].task == task && s.resolvers[id].owner == s.store.epoch
    case EventStep(t, event) =>
      && t == task && !event.Ignored? && (t in s.store.latest ==> s.store.latest[t] < event.sequence)
      && (|| task !in s.store.snapshots || event.ToolEvent? || event.OtherEvent?
          || (event.StatusEvent? && event.status.Some?
              && event.status.value in {Succeeded, Failed, Cancelled, NeedsAttention}))
    case _ => false
  }

  /** The running loop of the task, if there is one, reads since then or will read again. */
  ghost predicate Served(s: State, task: TaskId, since: nat) {
    task in s.store.pending && s.store.pending[task] in s.loaders ==>
      task in s.store.refreshAgain || s.loaders[s.store.pending[task]].requestedAt >= since
  }

  lemma LoadServes(s: State, task: TaskId, minimum: Option<nat>)
    ensures var t := s.LoadSnapshot(task, minimum);
      && task in t.store.pending && t.now == s.now
      && (minimum.Some? || task in s.store.refreshAgain ==> Served(t, task, s.now))
      && (task !in s.store.pending ==> Served(t, task, s.now))
  {
  }

  lemma RequestServes(s: State, task: TaskId, minimum: Option<nat>)
    ensures var t := s.Request(task, minimum);
      task in t.store.pending && t.now == s.now && (minimum.Some? ==> Served(t, task, s.now))
  {
    hide State.LoadSnapshot, State.Nudge;
    LoadServes(s, task, minimum);
    NudgeTouchesNothing(s, task);
    LoadServes(s.Nudge(task), task, minimum);
  }

  lemma EventServes(s: State, task: TaskId, event: ActionEvent)
    requires AsksFor(s, EventStep(task, event), task)
    ensures var t := s.ApplyEvent(task, event); task in t.store.pending && t.now == s.now && Served(t, task, s.now)
  {
    hide State.LoadSnapshot, State.Nudge, State.Projected;
    var a := s.Projected(task, event);
    ProjectedKeepsRest(s, task, event);
    ProjectedTouches(s, task, event);
    NudgeTouchesNothing(a, task);
    LoadServes(a.Nudge(task).AskAgain(task), task, None);
  }

  /** After any `loadSnapshot` a loop runs for the task. */
  lemma LoadRuns(s: State, task: TaskId, minimum: Option<nat>)
    ensures task in Next(s, LoadSnapshotStep(task, minimum)).store.pending
  {
    hide State.Request;
    RequestServes(s.(now := s.now + 1), task, minimum);
  }

  /** Whoever asks finds a loop running, and that loop reads after being asked. */
  lemma AskIsServed(s: State, step: Step, task: TaskId)
    requires Inv(s) && Enabled(s, step) && AsksFor(s, step, task)
    ensures var t := Next(s, step); task in t.store.pending && Served(t, task, t.now)
  {
    hide Inv, State.Request, State.ApplyEvent;
    var t := s.(now := s.now + 1);
    match step
    case LoadSnapshotStep(_, minimum) => RequestServes(t, task, minimum);
    case MutationReplyStep(_, version) => RequestServes(t, task, version);
    case EventStep(_, event) => EventServes(t, task, event);
  }

  // ---------------------------------------------------------------- an ask is never forgotten

  /** The loop of the task is left alone, reads now, or ends. */
  ghost predicate LoopMoves(s: State, t: State, task: TaskId) {
    && t.now == s.now
    && (task in t.store.pending && t.store.pending[task] in t.loaders ==>
          var id := t.store.pending[task];
          || t.loaders[id].requestedAt == s.now
          || (task in s.store.pending && s.store.pending[task] == id && id in s.loaders
              && t.loaders[id].requestedAt == s.loaders[id].requestedAt
              && (task in s.store.refreshAgain ==> task in t.store.refreshAgain)))
  }

  lemma LoopMovesJoin(s: State, t: State, u: State, task: TaskId)
    requires LoopMoves(s, t, task) && LoopMoves(t, u, task)
    ensures LoopMoves(s, u, task)
  {
  }

  lemma LoadMovesLoop(s: State, other: TaskId, minimum: Option<nat>, task: TaskId)
    ensures LoopMoves(s, s.LoadSnapshot(other, minimum), task)
  {
  }

  lemma NudgeMovesLoop(s: State, other: TaskId, task: TaskId)
    ensures LoopMoves(s, s.Nudge(other), task)
  {
  }

  lemma RequestMovesLoop(s: State, other: TaskId, minimum: Option<nat>, task: TaskId)
    ensures LoopMoves(s, s.Request(other, minimum), task)
  {
    hide State.LoadSnapshot, State.Nudge, LoopMoves;
    LoadMovesLoop(s, other, minimum, task);
    NudgeMovesLoop(s, other, task);
    LoadMovesLoop(s.Nudge(other), other, minimum, task);
    if minimum.Some? {
      LoopMovesJoin(s, s.Nudge(other), s.Request(other, minimum), task);
    }
  }

  /** Only more tasks are to be read again; the loops are untouched. */
  ghost predicate AsksMore(s: State, t: State) {
    t.now == s.now && t.loaders == s.loaders && t.store.pending == s.store.pending && t.store.epoch == s.store.epoch
    && s.store.refreshAgain <= t.store.refreshAgain
  }

  lemma EndMovesLoop(s: State, t: State, id: RequestId, l: Loader, task: TaskId)
    requires Inv(s) && id in s.loaders && AsksMore(s, t)
    requires l.task == s.loaders[id].task && l.owner == s.loaders[id].owner
    ensures LoopMoves(s, t.EndIteration(id, l), task)
  {
    LoopIsOwn(s, id);
    hide Inv;
  }

  lemma ReplyMovesLoop(s: State, id: RequestId, snapshot: ActionSnapshot, task: TaskId)
    requires Inv(s) && id in s.loaders
    ensures LoopMoves(s, s.SnapshotReply(id, snapshot), task)
  {
    hide Inv, LoopMoves, State.EndIteration;
    var l := s.loaders[id];
    EndMovesLoop(s, s, id, l, task);
    EndMovesLoop(s, s.Fails(l.task), id, l, task);
    EndMovesLoop(s, s.(store := s.store.(refreshAgain := s.store.refreshAgain + {l.task})), id,
                 l.(retriedAfterList := true), task);
    EndMovesLoop(s, s.Accept(l.task, snapshot), id, l, task);
  }

  lemma FailureMovesLoop(s: State, id: RequestId, task: TaskId)
    requires Inv(s) && id in s.loaders
    ensures LoopMoves(s, s.SnapshotFailure(id), task)
  {
    hide Inv, LoopMoves, State.EndIteration;
    EndMovesLoop(s, s, id, s.loaders[id], task);
    EndMovesLoop(s, s.Fails(s.loaders[id].task), id, s.loaders[id], task);
  }

  lemma EventMovesLoop(s: State, other: TaskId, event: ActionEvent, task: TaskId)
    ensures LoopMoves(s, s.ApplyEvent(other, event), task)
  {
    hide State.LoadSnapshot, State.Nudge, State.Projected;
    if !s.Stale(other, event) {
      var a := s.Projected(other, event);
      ProjectedKeepsRest(s, other, event);
      ProjectedTouches(s, other, event);
      assert LoopMoves(s, a, task);
      NudgeMovesLoop(a, other, task);
      var b := a.Nudge(other);
      NudgeTouchesNothing(a, other);
      assert LoopMoves(b, b.AskAgain(other), task);
      LoadMovesLoop(b.AskAgain(other), other, None, task);
      hide LoopMoves;
      LoopMovesJoin(s, a, b, task);
      LoopMovesJoin(s, b, b.AskAgain(other), task);
      LoopMovesJoin(s, b.AskAgain(other), b.AskAgain(other).LoadSnapshot(other, None), task);
    }
  }

  /** The resolution steps reach the loops through `loadSnapshot` alone. */
  lemma RestMovesLoop(s: State, t: State, u: State, task: TaskId)
    requires LoopMoves(s, t, task) && u == t.(resolvers := u.resolvers, store := u.store)
    requires u.store == t.store.(mutating := u.store.mutating, snapshotErrors := u.store.snapshotErrors)
    ensures LoopMoves(s, u, task)
  {
  }

  lemma RecoverMovesLoop(s: State, id: RequestId, r: Resolver, task: TaskId)
    ensures LoopMoves(s, s.Recover(id, r), task)
  {
    hide State.LoadSnapshot;
    LoadMovesLoop(s, r.task, None, task);
    RestMovesLoop(s, s, s.Finish(id, r), task);
  }

  lemma ResolveMovesLoop(s: State, other: TaskId, task: TaskId)
    ensures LoopMoves(s, s.ResolveManually(other), task)
  {
    hide State.LoadSnapshot;
    var a := s.(store := s.store.(mutating := s.store.mutating + {other}), nextId := s.nextId + 1);
    LoadMovesLoop(a, other, None, task);
  }

  lemma LoadedMovesLoop(s: State, id: RequestId, task: TaskId)
    requires id in s.resolvers && !s.resolvers[id].waiting.Mutation?
    ensures LoopMoves(s, s.ResolveLoaded(id), task)
  {
    hide State.LoadSnapshot, State.Recover;
    RecoverMovesLoop(s, id, s.resolvers[id], task);
  }

  lemma MutationMovesLoop(s: State, id: RequestId, version: Option<nat>, task: TaskId)
    requires id in s.resolvers && s.resolvers[id].waiting.Mutation?
    ensures LoopMoves(s, s.MutationReply(id, version), task)
  {
    hide State.LoadSnapshot, State.Request, State.Recover;
    RecoverMovesLoop(s, id, s.resolvers[id], task);
    RequestMovesLoop(s, s.resolvers[id].task, version, task);
  }

  lemma ServedStays(s: State, step: Step, task: TaskId, since: nat)
    requires Inv(s) && Enabled(s, step) && !step.ClearStep? && since <= s.now && Served(s, task, since)
    ensures Served(Next(s, step), task, since) && since <= Next(s, step).now
  {
    hide Inv, State.LoadSnapshot, State.Request, State.ApplyEvent, State.SnapshotReply, State.SnapshotFailure,
      State.ResolveManually, State.ResolveLoaded, State.MutationReply;
    var t := s.(now := s.now + 1);
    TickKeeps(s);
    assert LoopMoves(t, Next(s, step), task) by {
      match step
      case LoadSnapshotStep(other, minimum) => RequestMovesLoop(t, other, minimum, task);
      case SnapshotReplyStep(id, snapshot) => ReplyMovesLoop(t, id, snapshot, task);
      case SnapshotFailureStep(id) => FailureMovesLoop(t, id, task);
      case EventStep(other, event) => EventMovesLoop(t, other, event, task);
      case ResolveStep(other) => ResolveMovesLoop(t, other, task);
      case ResolveLoadedStep(id) => LoadedMovesLoop(t, id, task);
      case MutationReplyStep(id, version) => MutationMovesLoop(t, id, version, task);
      case _ =>
    }
  }

  lemma {:induction false} ServedThroughout(s: State, steps: seq<Step>, task: TaskId, since: nat)
    requires Inv(s) && Executes(s, steps) && since <= s.now && Served(s, task, since)
    requires After(s, steps).store.epoch == s.store.epoch
    ensures Inv(After(s, steps)) && Served(After(s, steps), task, since)
    decreases |steps|
  {
    hide Inv, Next, Served;
    if steps != [] {
      EpochOnlyRises(s, steps[0]);
      EpochNeverFalls(Next(s, steps[0]), steps[1..]);
      StepKeeps(s, steps[0]);
      ServedStays(s, steps[0], task, since);
      ServedThroughout(Next(s, steps[0]), steps[1..], task, since);
    }
  }

  /** A loop of this epoch that ends was not to be read again. */
  lemma LoopEndsUnasked(s: State, step: Step, id: RequestId)
    requires Inv(s) && Enabled(s, step) && id in s.loaders && id !in Next(s, step).loaders
    requires s.loaders[id].owner == s.store.epoch
    ensures s.loaders[id].task !in s.store.refreshAgain && s.store.pending[s.loaders[id].task] == id
  {
    hide State.Request, State.LoadSnapshot, State.EndIteration, State.SnapshotReply, State.SnapshotFailure,
      State.ApplyEvent, State.Nudge, State.ResolveManually, State.ResolveLoaded, State.MutationReply,
      State.ListReply, State.ListFailure, State.Clear;
    LoopEndsOnlyByItsOwnRead(s, step, id);
    LoopIsOwn(s, id);
    hide Inv;
    match step
    case SnapshotReplyStep(_, snapshot) => AskedReplyGoesOn(s.(now := s.now + 1), id, snapshot);
    case SnapshotFailureStep(_) => AskedLoopGoesOn(s.(now := s.now + 1), id);
    case _ =>
  }

  /** A loop whose task is to be read again does not end, whatever was changed beside it. */
  lemma AskedLoopGoesOn(s: State, id: RequestId)
    requires id in s.loaders && s.loaders[id].owner == s.store.epoch
    ensures s.loaders[id].task in s.store.refreshAgain ==> id in s.SnapshotFailure(id).loaders
  {
  }

  lemma AskedReplyGoesOn(s: State, id: RequestId, snapshot: ActionSnapshot)
    requires id in s.loaders && s.loaders[id].owner == s.store.epoch
    ensures s.loaders[id].task in s.store.refreshAgain ==> id in s.SnapshotReply(id, snapshot).loaders
  {
    hide State.Accept;
    AcceptAsksMore(s, s.loaders[id].task, snapshot);
  }

  lemma AcceptAsksMore(s: State, task: TaskId, snapshot: ActionSnapshot)
    ensures AsksMore(s, s.Accept(task, snapshot))
  {
  }

  /**
   * Whatever happens after a task was asked to be read again, in the same epoch: the loop for it that ends
   * ended with a read that was requested no earlier than the ask.
   */
  lemma AskLeadsToRead(s: State, ask: Step, steps: seq<Step>, last: Step, task: TaskId, id: RequestId)
    requires Inv(s) && Enabled(s, ask) && AsksFor(s, ask, task)
    requires Executes(Next(s, ask), steps)
    requires var t := After(Next(s, ask), steps);
      && t.store.epoch == Next(s, ask).store.epoch && Enabled(t, last)
      && id in t.loaders && t.loaders[id].task == task && t.loaders[id].owner == t.store.epoch
      && id !in Next(t, last).loaders
    ensures task in Next(s, ask).store.pending
    ensures After(Next(s, ask), steps).loaders[id].requestedAt >= Next(s, ask).now
  {
    AskIsServed(s, ask, task);
    StepKeeps(s, ask);
    hide Inv, Next, AsksFor;
    ServedThroughout(Next(s, ask), steps, task, Next(s, ask).now);
    LoopEndsUnasked(After(Next(s, ask), steps), last, id);
  }

  /** Clearing forgets everything that was shown, and nothing that is still in flight belongs to the new epoch. */
  lemma ClearForgets(s: State)
    requires Inv(s) && Fine(s)
    ensures var t := Next(s, ClearStep);
      && t.store.items == [] && t.store.snapshots == map[] && t.store.latest == map[]
      && t.store.snapshotErrors == {} && !t.store.loading && !t.store.loaded && !t.store.listError
      && (forall id :: id in t.lists ==> !t.CurrentList(id))
      && (forall id :: id in t.loaders ==> t.loaders[id].owner < t.store.epoch)
      && (forall id :: id in t.resolvers ==> t.resolvers[id].owner < t.store.epoch)
  {
    assert forall id :: id in s.lists ==> ListFine(s, s.lists[id]);
    assert forall id :: id in s.loaders ==> LoaderInv(s, id, s.loaders[id]);
  }

  // ---------------------------------------------------------------- events

  /** What an event leaves of the snapshot of its task. */
  function AfterEvent(before: ActionSnapshot, event: ActionEvent): ActionSnapshot
    requires !event.Ignored?
  {
    match event
    case StatusEvent(_, Some(status), error) => before.(status := status, errorCode := error.Over(before.errorCode))
    case ToolEvent(_, update) =>
      if before.execution.None? then before
      else
        var e := WithTool(before.execution.value, update);
        before.(execution := Some(e), reconciliationAttempts := e.reconciliationAttempts)
    case _ => before
  }

  /**
   * A fresh event is projected onto the stored snapshot of its task and, when it reports a status, onto
   * every item of the task; nothing else that the client sees changes.
   */
  lemma EventIsShown(s: State, task: TaskId, event: ActionEvent)
    requires !s.Stale(task, event)
    ensures var t := Next(s, EventStep(task, event));
      && t.store.snapshots.Keys == s.store.snapshots.Keys
      && (forall k :: k in s.store.snapshots ==>
            t.store.snapshots[k] == if k == task then AfterEvent(s.store.snapshots[k], event) else s.store.snapshots[k])
      && (if event.StatusEvent? && event.status.Some? then Shows(s.store.items, t.store.items, task, event.status.value)
          else t.store.items == s.store.items)
  {
    hide State.Projected, State.Nudge, State.LoadSnapshot;
    var u := s.(now := s.now + 1);
    var a := u.Projected(task, event);
    NudgeTouchesNothing(a, task);
    LoadTouchesNothing(a.Nudge(task).AskAgain(task), task, None);
    ProjectionIsShown(u, task, event);
  }

  lemma ProjectionIsShown(s: State, task: TaskId, event: ActionEvent)
    requires !event.Ignored?
    ensures var t := s.Projected(task, event);
      && t.store.snapshots.Keys == s.store.snapshots.Keys
      && (forall k :: k in s.store.snapshots ==>
            t.store.snapshots[k] == if k == task then AfterEvent(s.store.snapshots[k], event) else s.store.snapshots[k])
      && (if event.StatusEvent? && event.status.Some? then Shows(s.store.items, t.store.items, task, event.status.value)
          else t.store.items == s.store.items)
  {
  }

  // ---------------------------------------------------------------- manual resolutions

  /** The resolution waits for the loop that runs for its task. */
  predicate WaitsForLoop(s: State, task: TaskId, loader: RequestId) {
    task in s.store.pending && s.store.pending[task] == loader
  }

  /** Only a task that is not being resolved starts: the flag is taken and a read awaited. */
  lemma ResolutionStarts(s: State, task: TaskId)
    ensures var t := Next(s, ResolveStep(task));
      if task in s.store.mutating then t.store == s.store && t.resolvers == s.resolvers
      else
        && s.nextId in t.resolvers && task in t.store.mutating && Resolves(t, s.nextId, task)
        && t.resolvers[s.nextId].waiting.FirstLoad?
        && WaitsForLoop(t, task, t.resolvers[s.nextId].waiting.loader)
  {
    hide State.LoadSnapshot;
    var u := s.(now := s.now + 1);
    var a := u.(store := u.store.(mutating := u.store.mutating + {task}), nextId := u.nextId + 1);
    LoadMoves(a, task, None);
  }

  /** The last stage of a resolution frees its task. */
  lemma LastStageFrees(s: State, id: RequestId, r: Resolver)
    requires Fine(s) && id in s.resolvers && s.resolvers[id].task == r.task && s.resolvers[id].owner == r.owner
    ensures var t := s.Finish(id, r);
      && t.resolvers == s.resolvers - {id} && t.store.snapshotErrors == s.store.snapshotErrors
      && (r.owner == s.store.epoch ==> r.task !in t.store.mutating)
      && (r.owner != s.store.epoch ==> t.store == s.store)
  {
  }

  lemma RecoveryIsAwaited(s: State, id: RequestId, r: Resolver)
    requires id in s.resolvers
    ensures r.owner != s.store.epoch ==> s.Recover(id, r) == s.Finish(id, r)
    ensures r.owner == s.store.epoch ==> var t := s.Recover(id, r);
      id in t.resolvers && t.resolvers[id].waiting.Recovery? && WaitsForLoop(t, r.task, t.resolvers[id].waiting.loader)
  {
    hide State.LoadSnapshot;
    LoadMoves(s, r.task, None);
  }

  /**
   * After the first read the mutation is sent if the read left a usable snapshot, and otherwise one
   * recovery read is awaited; after the recovery read an error is shown; after either of the last reads
   * the task is free. In a later epoch a continuation only ends.
   */
  lemma ReadsLeadOn(s: State, id: RequestId)
    requires Fine(s) && Enabled(s, ResolveLoadedStep(id))
    ensures var t, r := Next(s, ResolveLoadedStep(id)), s.resolvers[id];
      if r.owner != s.store.epoch then id !in t.resolvers && t.store == s.store
      else if r.waiting.FirstLoad? then
        && id in t.resolvers
        && (if r.task in s.store.snapshots && r.task !in s.store.snapshotErrors then t.resolvers[id].waiting == Mutation
            else t.resolvers[id].waiting.Recovery? && WaitsForLoop(t, r.task, t.resolvers[id].waiting.loader))
      else
        && id !in t.resolvers && r.task !in t.store.mutating
        && (r.waiting.Recovery? ==> r.task in t.store.snapshotErrors)
  {
    hide Fine, State.Recover, State.Finish;
    var u, r := s.(now := s.now + 1), s.resolvers[id];
    TickFine(s);
    LastStageFrees(u, id, r);
    if r.owner == s.store.epoch {
      RecoveryIsAwaited(u, id, r);
      FailsMoves(u, r.task);
      MovesKeepFine(u, u.Fails(r.task));
      LastStageFrees(u.Fails(r.task), id, r);
    }
  }

  /**
   * After a successful mutation a read of at least the returned version is awaited, and after a failed
   * one the recovery read. In a later epoch the continuation only ends.
   */
  lemma MutationLeadsOn(s: State, id: RequestId, version: Option<nat>)
    requires Fine(s) && Enabled(s, MutationReplyStep(id, version))
    ensures var t, r := Next(s, MutationReplyStep(id, version)), s.resolvers[id];
      if r.owner != s.store.epoch then id !in t.resolvers && t.store == s.store
      else
        && id in t.resolvers && !t.resolvers[id].waiting.Mutation?
        && WaitsForLoop(t, r.task, t.resolvers[id].waiting.loader)
        && (if version.None? then t.resolvers[id].waiting.Recovery?
            else
              && t.resolvers[id].waiting.SecondLoad?
              && r.task in t.store.latest && version.value <= t.store.latest[r.task])
  {
    hide Fine, Moves, State.Recover, State.Finish, State.LoadSnapshot, State.Nudge;
    var u, r := s.(now := s.now + 1), s.resolvers[id];
    TickFine(s);
    LastStageFrees(u, id, r);
    RecoveryIsAwaited(u, id, r);
    if r.owner == s.store.epoch {
      RequestMoves(u, r.task, version);
      NudgeTouchesNothing(u, r.task);
      LoadRaises(u.Nudge(r.task), r.task, version);
    }
  }

  lemma LoadRaises(s: State, task: TaskId, minimum: Option<nat>)
    ensures var t := s.LoadSnapshot(task, minimum);
      && t.resolvers == s.resolvers && task in t.store.pending
      && (minimum.Some? ==> task in t.store.latest && minimum.value <= t.store.latest[task])
  {
  }
}
