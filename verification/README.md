# Verified model of the assistant's hard protocols

A Dafny model of the parts of the repository whose correctness spans several functions, steps or
processes, with proofs of what they promise. `dafny verify dfyconfig.toml` checks all of it.

| modules | what they model |
|---|---|
| `TaskFacts`, `TasksStore`, `TaskEvents`, `TaskEventStream`, `TaskSync`, `Cursors` | replayable task events, from the audit log through the event stream to the browser store |
| `ActionProtocol`, `ActionProgress`, `ActionsStore` | the action-centre store as an asynchronous protocol, split at its awaits |
| `Publication`, `Resources`, `BackupRun` | withdrawing a published file while others act on its name, waiting for an owned task, and the backup flow that must compensate each receipt |
| `Zones`, `DayStart`, `Settings`, `BusyTime`, `Availability`, `Conflicts`, `Sorting` | civil time, meeting suggestions and calendar conflicts |
| `Utf8`, `IdentityKey`, `JsonText`, `CanonicalJson`, `JsonCopy`, `Graphs`, `Capabilities`, `Frames`, `Decimals` | canonical encodings, the graph-safe copy and the dependency closure |
| `Migration0018`, `Audit0019` | the crash-resumable constraint swap and the three-phase audit |

Code that changes state is a class or a method with loops, proved against a specification function
or relation; the properties are then proved of that specification. Where other parties act (the
network, other processes, other database sessions, a failing call), the model gives them a method
whose contract promises nothing but what the platform guarantees, so callers are proved against
every behaviour of theirs. A constant of the world (`calm`, `reliable`, `quiet`) strengthens these
contracts to no failing call or no interference; with it the results also say what must happen in an
undisturbed run.

## Assumptions

- Audit ids become visible in ascending order per task, the status of the task row is the status fold
  of every row appended so far, and the `event_cursor` of a gap snapshot is its sequence.
- `TaskSync` lets retention remove any rows and states its theorem of the runs that open no hole
  (`TaskSync.HoleFree`). Nothing in the repository enforces that condition: audit retention
  (`backend/src/ai_employee/workers/retention.py:225-273`) deletes by age and event type, keeps no
  newest row and looks at no connection. A run for each kind of hole shows what is lost without it.
  That the removed rows are a beginning of the log is assumed only in
  `TaskSync.CursorAndRowLeaveNoHole` and in `TaskEventStream`, where removals during a connection
  also stay at or below its cursor.
- Only this process changes the private custody directory, and nobody rewrites a published file in
  place. A file is identified with its `lstat` result, so a foreign file that reuses the inode number
  of the publication with equal mode, times and size counts as the publication.
- In `BackupRun` nothing but a cancellation is thrown at a waiting coroutine; `Resources` says what
  another exception would do.
- A zone is a sorted list of offset changes whose wall-clock jumps do not interleave
  (`Zones.Zone.Valid`); instants are microseconds and dates are days since 1970-01-01.
- The exit of the snapshot loop and its `finally` are one step
  (`frontend/src/stores/actions.ts:166-171`).
- Which characters are white space or control characters, and case folding of calendar status
  words, are parameters; digests, hashes and encryption are not modelled, only the bytes they get.

## Where the code does less than a first reading promises

- Gap detection needs both a cursor and a retained row (`backend/src/ai_employee/api/sse.py:406-417`).
  `TaskEventStream.ReplayHoleExactlyWithoutCursorOrRows` is the exact condition;
  `TaskSync.EmptiedLogLosesStatus` and `TaskSync.CursorlessResumeLosesStatus` are two losing runs,
  and `TaskSync.ReplyInFlightLosesStatus` is a third, in which the hole opens below a REST reply.
- A step event for an unknown task creates a placeholder with status `running`
  (`frontend/src/stores/tasks.ts:182-207`); the fold theorem therefore speaks of projected statuses.
- One compensation attempt does not always withdraw: when the lock check inside
  `_Publisher.discard` fails, neither the local nor the remote half is removed
  (`backend/src/ai_employee/cli/postgres_backup.py:432-457`). `BackupRun` counts attempts and says
  exactly when each half was withdrawn.
- Repeating the 0018 upgrade after it has succeeded can raise, because it still checks the legacy
  identity first (`Migration0018.RerunReachesFinal`, `Migration0018.RepeatedUpgradeCanRaise`).
- `find_conflicts` is documented to compare absolute instants; Python compares two values that share
  one zone object by wall clock (`backend/src/ai_employee/domain/calendar.py:35-37`). The model
  compares as Python does. `Conflicts.FoldedEventIsRefused` and `Conflicts.EventsApartAreReported`
  are two inputs on which the documentation fails, and `Conflicts.DocumentedExactlyWhenAlike` is the
  exact condition under which it holds.
- `await_calendar_aad_resource` raises at once, with the task still running, when something other
  than a cancellation is thrown at its waiter (`Resources.AwaitResource`).

## Model

| member | source | states |
|---|---|---|
| `TaskSync.ProjectedStatusIsLogFold` | backend/src/ai_employee/api/sse.py:390-446 | With any rows removed at any time, in every run of appends, connects, disconnects, duplicated deliveries, gap snapshots and REST replies that opens no hole, a status the client has projected is the status fold of the whole audit log up to the client's own cursor. |
| `TaskSync.StepKeeps` | frontend/src/composables/useTaskEvents.ts:73-185 | Each single step of server, network, retention and browser that opens no hole keeps the system invariant from which the previous row follows. |
| `TaskSync.CursorNeverDecreases` | frontend/src/stores/tasks.ts:42-175 | No step at all, with holes or without, moves the client cursor backwards. |
| `TaskSync.DrainedStreamIsCaughtUp` | backend/src/ai_employee/api/sse.py:419-446 | When a live stream has nothing left to deliver and the table nothing left to read, the client shows the status of the whole log. |
| `TaskSync.LiveClientCatchesUp` | backend/src/ai_employee/api/sse.py:434-444 | From every state that a hole-free run reaches with a live stream, one read and the deliveries that follow bring the client to the status of the whole log, if it has projected one by then. |
| `TaskSync.ResumesAfterDelivery` | frontend/src/composables/useTaskEvents.ts:73-87 | A connection that breaks after a delivery resumes right after what was delivered, heard or not. |
| `TaskSync.OpensAtTheStore` | frontend/src/composables/useTaskEvents.ts:73-87 | A new source starts at the cursor of the store, and starts there again until something was delivered. |
| `TaskSync.CursorAndRowLeaveNoHole` | backend/src/ai_employee/api/sse.py:406-417 | Where the removed rows are a beginning of the log, an opening with a cursor and a retained row is hole-free as far as the client goes: the gap check does its work. |
| `TaskSync.BlindOpeningDecides` | backend/src/ai_employee/api/sse.py:406-421 | When an opening without a gap snapshot finds nothing to replay, the next row that reports nothing leaves the client right if and only if it already showed the status of the whole log when it opened. |
| `TaskSync.EmptiedLogLosesStatus` | backend/src/ai_employee/api/sse.py:406-410 | A concrete run: the table of a disconnected task is emptied, no gap snapshot is sent, and a status is lost. |
| `TaskSync.CursorlessResumeLosesStatus` | backend/src/ai_employee/api/sse.py:411-417 | A concrete run: REST has projected a status, no event has been seen, retention moves on, and the reconnect without a cursor skips the gap check. |
| `TaskSync.ReplyInFlightLosesStatus` | frontend/src/stores/tasks.ts:42-61 | A concrete run: a REST reply older than the removed rows is accepted after a first connection has begun to replay what is left. |
| `TaskSync.LiveTrimLosesStatus` | backend/src/ai_employee/api/sse.py:434-444 | A concrete run: a report is removed before the live stream has read it. |
| `TaskSync.SnapshotBehindItsStatus` | backend/src/ai_employee/api/sse.py:255-277 | A concrete run: with the newest report removed, the snapshot names the newest remaining row beside a newer status. |
| `TaskEventStream.Events` | backend/src/ai_employee/api/sse.py:390-450 | One whole connection against a log that others append to and, at or below its cursor, trim: after at most one gap snapshot it yields exactly the log rows above a mark, once each and in order, and by the end of each round all of them. Without a gap snapshot the mark is the caller's cursor or the newest row already trimmed. It ends without yielding only when the task is gone and no replay is possible. |
| `TaskEventStream.Open` | backend/src/ai_employee/api/sse.py:406-417 | The opening yields nothing or the gap snapshot, the latter exactly when the gap check asks for it; the connection ends exactly when the task is gone and no replay is possible. |
| `TaskEventStream.Round` | backend/src/ai_employee/api/sse.py:419-446 | Each read adds exactly the rows not yet accounted for, and leaves none unread. |
| `TaskEventStream.RoundDelivers` | backend/src/ai_employee/api/sse.py:437-444 | A read above the cursor among the retained rows is what the whole log holds above the mark. |
| `TaskEventStream.NoHoleWithCursorAndRows` | backend/src/ai_employee/api/sse.py:406-417 | With a cursor sent and a row retained, a connection without a gap snapshot starts at the caller's cursor. |
| `TaskEventStream.ReplayHoleExactlyWithoutCursorOrRows` | backend/src/ai_employee/api/sse.py:394-417 | Replay begins above a trimmed row that the caller has not seen if and only if such a row exists and the caller sent no cursor or no row is retained. |
| `TaskEventStream.EventsAfterIsExact` | backend/src/ai_employee/api/sse.py:222-253 | The query returns exactly the rows above the cursor, in ascending order. |
| `TaskEventStream.Stream.YieldGapSnapshot` | backend/src/ai_employee/api/sse.py:411-417 | The gap branch yields one snapshot whose sequence is its own cursor and jumps there. |
| `TaskEventStream.Stream.Replay` | backend/src/ai_employee/api/sse.py:419-444 | A replay yields every row above the cursor once, in order, and ends at the last one. |
| `TaskEvents.Subscription.HandleEvent` | frontend/src/composables/useTaskEvents.ts:146-185 | A callback of a replaced source changes nothing; an event of the task is merged and no other task's view changes; an unparsed message leaves the store alone; a new one that needs the full row is answered by a request sent after it; an unparsed message past the last snapshot starts a recovering read. |
| `TaskEvents.Subscription.Settle` | frontend/src/composables/useTaskEvents.ts:104-121 | An answer is written exactly for the current source, its own task, and when no durable event arrived since the request; a change meanwhile starts the next request and recovery is reported once. |
| `TaskEvents.Subscription.RefreshSnapshot` | frontend/src/composables/useTaskEvents.ts:93-108 | At most one request per source; a change while it runs is remembered. |
| `TaskEvents.Subscription.Open` | frontend/src/composables/useTaskEvents.ts:73-87 | The new source resumes at the highest sequence the store knows. |
| `TaskEvents.Subscription.HeartbeatTimeout` | frontend/src/composables/useTaskEvents.ts:127-138 | A silent current source is replaced for the same task; a stale timer does nothing. |
| `TasksStore.FinalStatusIsHighestReport` | frontend/src/stores/tasks.ts:94-175 | For any order and multiplicity of deliveries above an accepted snapshot, the final status is that of the highest recognised report, and the snapshot's own when there is none. |
| `TasksStore.DeliveryOrderIsIrrelevant` | frontend/src/stores/tasks.ts:94-124 | Two delivery orders of the same set of events leave the same status. |
| `TasksStore.LatestNeverDecreases` | frontend/src/stores/tasks.ts:42-77 | Snapshots, guarded snapshots and events never lower the known sequence. |
| `TasksStore.GuardedAnswer` | frontend/src/stores/tasks.ts:69-77 | A guarded answer is dropped exactly when the known sequence has moved since it was asked for, and otherwise becomes the projection unless it is older. |
| `TasksStore.StepOnlyIntroduces` | frontend/src/stores/tasks.ts:182-207 | A fresh showable step shows an unknown task as running and changes no other status. |
| `TasksStore.Store.SetTask` | frontend/src/stores/tasks.ts:42-61 | The maps of this task become what the projection's reducer says and no other task changes. |
| `TasksStore.Store.SetTaskIfUnchangedSince` | frontend/src/stores/tasks.ts:69-77 | Writes only when the sequence observed before the request is still current, and reports whether it did. |
| `TasksStore.Store.ApplyEvent` | frontend/src/stores/tasks.ts:94-125 | In-place merge refines the event reducer; other tasks keep their view. |
| `TasksStore.Store.ApplySnapshotEvent` | frontend/src/stores/tasks.ts:132-153 | In-place gap snapshot refines the snapshot reducer. |
| `TasksStore.Store.ApplyStatusEvent` | frontend/src/stores/tasks.ts:160-175 | In-place status projection refines the status reducer. |
| `TasksStore.Store.ApplyStepEvent` | frontend/src/stores/tasks.ts:182-207 | A step event can only create the placeholder task; it never changes a known status. |
| `Cursors.ComparisonIsNumeric` | frontend/src/api/types.ts:145-160 | Comparing canonical decimal cursors by length and then characters is numeric comparison, and ties only for the same text. |
| `Decimals.ValueRoundTrip` | frontend/src/api/types.ts:145-149 | Every canonical decimal text is the rendering of its value. |
| `ActionProtocol.EveryInterleavingKeepsInvariant` | frontend/src/stores/actions.ts:57-315 | The store invariant (generations, watermarks, one loader per task, request order, read budget) holds after every interleaving of list and snapshot requests (with or without a minimum cursor), replies, failures, events, mutations and clearing. |
| `ActionProtocol.StepKeeps` | frontend/src/stores/actions.ts:57-315 | Each stretch between two awaits keeps the invariant. |
| `ActionProtocol.StoredCursorNeverFalls` | frontend/src/stores/actions.ts:132-157 | Within an epoch a stored snapshot is never dropped and its cursor never falls. |
| `ActionProtocol.CursorIsMonotoneWithinEpoch` | frontend/src/stores/actions.ts:57-315 | Between any two moments of one epoch, whatever interleaving lies between them, a stored snapshot is still there and its cursor has not fallen. |
| `ActionProtocol.EarlierEpochWritesNothing` | frontend/src/stores/actions.ts:67-83 | A reply, failure or continuation from an earlier epoch leaves the whole store unchanged. |
| `ActionProtocol.AcceptedListIsCurrent` | frontend/src/stores/actions.ts:66-77 | An accepted list belongs to the current epoch and was requested after the last cursor-advancing projection. |
| `ActionProtocol.AcceptedSnapshotIsCurrent` | frontend/src/stores/actions.ts:117-162 | A snapshot reply that stores anything belongs to the current epoch, was requested after the last accepted list, changes only its own task and is not below the watermark. |
| `ActionProtocol.EventProjectionIsRecorded` | frontend/src/stores/actions.ts:181-191 | An event either is stale and changes nothing, or advances watermark and projection generation together. |
| `ActionProtocol.LoopEndsOnlyByItsOwnRead` | frontend/src/stores/actions.ts:111-171 | A load ends only with the settling of its own current read. |
| `ActionProtocol.LoopEndsAcceptedOrFailed` | frontend/src/stores/actions.ts:94-174 | A load that ends in its own epoch leaves this reply stored as the task's watermark or an error on the task, after at most two reads more than the fresh events that ask for a read, mutation results and minimum cursors that arrived for the task meanwhile. |
| `ActionProgress.FlagsMeanWork` | frontend/src/stores/actions.ts:57-315 | After every interleaving the list is loading exactly while its newest request is in flight, a snapshot exactly while its loop runs, and a task is mutating exactly while a resolution of it runs. |
| `ActionProgress.StepFine` | frontend/src/stores/actions.ts:57-315 | Each stretch between two awaits keeps the invariant behind the previous row. |
| `ActionProgress.RefreshRequests` | frontend/src/stores/actions.ts:57-67 | Every refresh sends a request of its own, which makes all earlier ones old. |
| `ActionProgress.ListReplyDecides` | frontend/src/stores/actions.ts:66-83 | The reply to the newest list request is installed if it was asked for after the last projection; otherwise the list is asked for again at once, with the same filters, and keeps loading. |
| `ActionProgress.OtherListReplies` | frontend/src/stores/actions.ts:66-83 | A reply or failure of any other list request changes nothing; a failure of the newest one is shown. |
| `ActionProgress.SnapshotReplyDecides` | frontend/src/stores/actions.ts:117-162 | A snapshot reply is stored if and only if its loop belongs to this epoch, it was asked for after the last accepted list, and it is not below the watermark; then items show its status, and otherwise nothing changes. |
| `ActionProgress.CrossedReadIsRetried` | frontend/src/stores/actions.ts:121-131 | A read crossed by an accepted list is made again, once, without an error. |
| `ActionProgress.AskIsServed` | frontend/src/stores/actions.ts:94-119 | A fresh event that needs the snapshot, a mutation result or a minimum cursor finds a loop running that reads after it. |
| `ActionProgress.AskLeadsToRead` | frontend/src/stores/actions.ts:94-174 | Whatever happens after such an ask in the same epoch, the loop of the task that ends has ended with a read requested no earlier than the ask. |
| `ActionProgress.EventIsShown` | frontend/src/stores/actions.ts:190-241 | A fresh event is projected onto the snapshot of its task and, when it reports a status, onto every item of the task, and onto nothing else. |
| `ActionProgress.ResolutionStarts` | frontend/src/stores/actions.ts:264-276 | Only a task that is not being resolved starts: its flag is taken and a read of it awaited. |
| `ActionProgress.ReadsLeadOn` | frontend/src/stores/actions.ts:276-299 | After the first read the mutation is sent if a usable snapshot is there and a recovery read otherwise; after the last reads the task is free, with an error shown after a recovery; in a later epoch a continuation only ends. |
| `ActionProgress.MutationLeadsOn` | frontend/src/stores/actions.ts:281-296 | After a successful mutation a read of at least the returned version is awaited, after a failed one the recovery read. |
| `ActionProgress.ClearForgets` | frontend/src/stores/actions.ts:300-315 | Clearing forgets everything shown, and nothing still in flight belongs to the new epoch. |
| `ActionsStore.Actions.RefreshList` | frontend/src/stores/actions.ts:57-67 | The stretch before the request, on the mutable fields, is exactly the corresponding step of the protocol on the whole state. |
| `ActionsStore.Actions.ListReply` | frontend/src/stores/actions.ts:67-77 | The accepting, retrying and stale branches of a list reply, on the mutable fields, is exactly the corresponding step of the protocol on the whole state. |
| `ActionsStore.Actions.ListFailure` | frontend/src/stores/actions.ts:78-84 | The rejected list, on the mutable fields, is exactly the corresponding step of the protocol on the whole state. |
| `ActionsStore.Actions.LoadSnapshot` | frontend/src/stores/actions.ts:94-119 | Watermark merge, coalescing and the start of a load, on the mutable fields, is exactly the corresponding step of the protocol on the whole state. |
| `ActionsStore.Actions.ReadAgain` | frontend/src/stores/actions.ts:113-119 | The head of the loop, on the mutable fields, is exactly the corresponding step of the protocol on the whole state. |
| `ActionsStore.Actions.Accept` | frontend/src/stores/actions.ts:144-162 | Storing an accepted reply, on the mutable fields, is exactly the corresponding step of the protocol on the whole state. |
| `ActionsStore.Actions.SnapshotReply` | frontend/src/stores/actions.ts:119-162 | All branches after a snapshot reply, on the mutable fields, is exactly the corresponding step of the protocol on the whole state. |
| `ActionsStore.Actions.SnapshotFailure` | frontend/src/stores/actions.ts:163-165 | The rejected read, on the mutable fields, is exactly the corresponding step of the protocol on the whole state. |
| `ActionsStore.Actions.EndIteration` | frontend/src/stores/actions.ts:166-171 | Loop condition and final clean-up, on the mutable fields, is exactly the corresponding step of the protocol on the whole state. |
| `ActionsStore.Actions.ProjectEvent` | frontend/src/stores/actions.ts:190-241 | The content-free projection of an event, error codes and reconciliation counts included, on the mutable fields, is exactly the corresponding step of the protocol on the whole state. |
| `ActionsStore.Actions.ApplyEvent` | frontend/src/stores/actions.ts:181-259 | Staleness, projection and the decision to read again, on the mutable fields, is exactly the corresponding step of the protocol on the whole state. |
| `ActionsStore.Actions.ResolveManually` | frontend/src/stores/actions.ts:268-276 | The stretch up to the first load, on the mutable fields, is exactly the corresponding step of the protocol on the whole state. |
| `ActionsStore.Actions.ResolveLoaded` | frontend/src/stores/actions.ts:277-296 | The continuations after an awaited load, on the mutable fields, is exactly the corresponding step of the protocol on the whole state. |
| `ActionsStore.Actions.MutationReply` | frontend/src/stores/actions.ts:281-296 | The continuation after the mutation, on the mutable fields, is exactly the corresponding step of the protocol on the whole state. |
| `ActionsStore.Actions.Recover` | frontend/src/stores/actions.ts:287-293 | The recovery read, on the mutable fields, is exactly the corresponding step of the protocol on the whole state. |
| `ActionsStore.Actions.Finish` | frontend/src/stores/actions.ts:294-296 | The final clean-up of a resolution, on the mutable fields, is exactly the corresponding step of the protocol on the whole state. |
| `ActionsStore.Actions.Clear` | frontend/src/stores/actions.ts:300-315 | The reset, on the mutable fields, is exactly the corresponding step of the protocol on the whole state. |
| `ActionsStore.Actions.Turn` | frontend/src/stores/actions.ts:57-315 | Any one step on the mutable fields keeps the store valid, is the protocol's step, never drops a stored snapshot or lowers its cursor within an epoch, and accepts only current lists and snapshots. |
| `Publication.Discard` | backend/src/ai_employee/infrastructure/calendar_aad_publication.py:84-128 | Whatever others do to the public name and whichever system call fails, with or without effect: only the publication and this call's own placeholder are ever destroyed, each captured entry was put back or is in custody, and success means the publication is gone from the name or was not there. Where no call fails and nothing foreign stands in the way, it succeeds with every captured entry destroyed as the publication or put back; where nobody interferes either, the publication is removed if it was there and the directory is otherwise unchanged. |
| `Publication.DiscardCaptured` | backend/src/ai_employee/infrastructure/calendar_aad_publication.py:49-81 | The same for the capture inside the custody directory, where an unexpected rename failure still distinguishes the placeholder from a captured entry. |
| `Publication.DiscardThroughCustody` | backend/src/ai_employee/infrastructure/calendar_aad_publication.py:107-126 | The same across the life of the custody directory: an entry left inside keeps the directory and fails the call. |
| `Publication.DiscardMembers` | backend/src/ai_employee/cli/calendar_aad_backup_0019.py:178-189 | Every member of a group is withdrawn honestly whatever happened to the others, and the whole succeeds exactly when each did; undisturbed, exactly the members at their names are removed. |
| `BackupRun.RunBackup` | backend/src/ai_employee/cli/postgres_backup.py:526-648 | A failed run that published a group has kept it locally exactly if an ordinary upload failed with an ordinary error and left no remote copy, and otherwise started its compensation exactly once; a successful run has compensated nothing, has uploaded if asked to and holds the receipt; a run in which no call fails and no cancellation arrives succeeds. |
| `BackupRun.Publisher.Discard` | backend/src/ai_employee/cli/postgres_backup.py:432-457 | One compensation attempt: with the locks held each half is withdrawn once, and a lost lock withdraws neither. |
| `BackupRun.Publisher.Publish` | backend/src/ai_employee/cli/postgres_backup.py:340-430 | Publication delivers the receipt, or keeps or compensates the group as its upload failure decides, and raises that failure; a cancellation never leads to the deliberate keep. |
| `BackupRun.Publisher.Upload` | backend/src/ai_employee/cli/postgres_backup.py:369-428 | The local group is to be kept exactly after an ordinary upload failure of an ordinary backup with no remote receipt, and an upload without failure has one. |
| `BackupRun.Publisher.RunGroupGuarded` | backend/src/ai_employee/cli/calendar_aad_backup_0019.py:323-394 | The guarded flow hands over the receipt or settles it. |
| `BackupRun.Publisher.RunLocked` | backend/src/ai_employee/cli/postgres_backup.py:480-523 | The sealed or ordinary flow with its final clean-up either settles or leaves the receipt to the caller's handler. |
| `Resources.AwaitResource` | backend/src/ai_employee/infrastructure/calendar_aad_resources.py:10-43 | Through any number of cancellations the wait goes on until the task has ended, its result is taken once, and the caller gets the first cancellation or else the task's own outcome; the only way to leave a task running is another exception thrown at the waiter. |
| `BackupRun.Publisher.Await` | backend/src/ai_employee/infrastructure/calendar_aad_resources.py:27-43 | With cancellations alone the task has ended after the wait, so its result can be fetched; only the waiter may see a cancellation instead. |
| `Zones.ResolveIsEarliest` | backend/src/ai_employee/domain/calendar_availability.py:302-311 | Fold-0 resolution with gap rejection returns the earliest instant that shows the wall time, and nothing exactly when no instant shows it. |
| `Zones.ResolveIsStrictlyIncreasing` | backend/src/ai_employee/domain/calendar_availability.py:302-311 | Later wall times resolve to later instants. |
| `DayStart.LocalDayStart` | backend/src/ai_employee/application/task_history_dates.py:11-49 | The result is the least microsecond whose local date is at or after the day, for ordinary, repeated, skipped and wholly skipped midnights; the search ends. |
| `DayStart.DayStartExistsOnce` | backend/src/ai_employee/application/task_history_dates.py:11-49 | Every date of every zone has a start, and only one. |
| `DayStart.ShownMidnight` | backend/src/ai_employee/application/task_history_dates.py:28-36 | A midnight that is shown is answered by its first showing, whatever the other fold reads. |
| `DayStart.SkippedMidnight` | backend/src/ai_employee/application/task_history_dates.py:37-46 | A skipped midnight is bracketed by the two readings, and one jump separates the earlier dates from the rest. |
| `DayStart.StartsAreMonotone` | backend/src/ai_employee/application/task_history_dates.py:11-49 | Starts never go backwards, and a day's range is empty exactly when its whole date is jumped over. |
| `DayStart.RangesTile` | backend/src/ai_employee/application/task_history_dates.py:11-49 | Every instant between the first and the last of consecutive starts lies in exactly one range. |
| `DayStart.RangeIsHighestDateShown` | backend/src/ai_employee/application/task_history_dates.py:11-49 | A range holds exactly the instants up to which that date and no later one has been shown. |
| `BusyTime.MergeBuffered` | backend/src/ai_employee/domain/calendar_availability.py:240-272 | Merged intervals are proper, have gaps between neighbours, and cover exactly the instants that the buffered busy events cover. |
| `BusyTime.BufferedIsExact` | backend/src/ai_employee/domain/calendar_availability.py:250-262 | A slot overlaps the buffered intervals exactly when some busy event, widened by the buffer on both sides, meets it. |
| `BusyTime.PointerDecides` | backend/src/ai_employee/domain/calendar_availability.py:205-210 | Looking at the one pointed merged interval is the naive overlap test against every buffered event. |
| `BusyTime.OverlapByCover` | backend/src/ai_employee/domain/calendar_availability.py:313-319 | Overlap with a set of intervals depends only on the instants covered. |
| `Availability.SuggestMeetingTimes` | backend/src/ai_employee/domain/calendar_availability.py:88-224 | Accepts exactly the documented arguments, and returns exactly the first `limit`, by start, of the meetings that begin at a grid start of a working interval of the days searched, begin and end when the clock first shows the wall times asked for, last exactly the duration, end by the close, do not begin too early, and stay the buffer away from every busy event. |
| `Availability.Sweep` | backend/src/ai_employee/domain/calendar_availability.py:177-224 | The day loop with early return yields the first `limit` free slots. |
| `Availability.Consider` | backend/src/ai_employee/domain/calendar_availability.py:184-217 | One grid point keeps candidates equal to the naive list and the pointer valid. |
| `Availability.Offer` | backend/src/ai_employee/domain/calendar_availability.py:185-203 | The checks in the order of the code find the slot of the point. |
| `Availability.SlotIsExact` | backend/src/ai_employee/domain/calendar_availability.py:185-203 | A point has the slot exactly when both its ends are the earliest instants that show the wall times, its length is the duration, it ends by the close and does not begin before the bound. |
| `Availability.StartsAreExact` | backend/src/ai_employee/domain/calendar_availability.py:177-188 | The points considered are exactly the multiples of the grid inside the working intervals of the days searched. |
| `Availability.FreeSlotsAreSuggestible` | backend/src/ai_employee/domain/calendar_availability.py:168-218 | The naive list holds exactly the meetings that some grid start offers and no buffered event blocks. |
| `Availability.SweptAdvances` | backend/src/ai_employee/domain/calendar_availability.py:203-211 | A new slot was never seen before and joins exactly when it overlaps no buffered event. |
| `Availability.SlotIsReal` | backend/src/ai_employee/domain/calendar_availability.py:192-202 | An offered slot shows both wall times asked for, lasts exactly the duration, ends by the close of its interval and starts no earlier than the bound. |
| `Availability.FreeSlotsAreExact` | backend/src/ai_employee/domain/calendar_availability.py:168-218 | The naive list holds exactly the free slots, strictly ascending. |
| `Availability.AllPointsAreExact` | backend/src/ai_employee/domain/calendar_availability.py:179-188 | The grid points considered are exactly those of the working days searched, in ascending order. |
| `Settings.FromMapping` | backend/src/ai_employee/domain/settings.py:125-166 | Accepts exactly the seven weekdays whose intervals parse and do not overlap in any order, and returns each day sorted and valid. |
| `Settings.ParsesExactlyFormatted` | backend/src/ai_employee/domain/settings.py:202-206 | The accepted endpoint texts are exactly the zero-padded texts of the minutes of a day. |
| `Settings.ParseDay` | backend/src/ai_employee/domain/settings.py:110-165 | One day passes exactly on parsing, pairwise disjoint intervals. |
| `Settings.NeighboursDecide` | backend/src/ai_employee/domain/settings.py:119-123 | On sorted intervals the check of neighbours decides the overlap of all pairs. |
| `Settings.StoredHoursComeBack` | backend/src/ai_employee/domain/settings.py:191-206 | Working hours stored and parsed again are accepted and unchanged. |
| `Availability.DayPointsAreExact` | backend/src/ai_employee/domain/settings.py:99-123 | Sorted disjoint working intervals give ascending points inside their day, and exactly the points of those intervals. |
| `Availability.GridPointsAreExact` | backend/src/ai_employee/domain/calendar_availability.py:282-299 | A working interval offers exactly the multiples of the grid from its start up to before its end. |
| `Conflicts.FindConflicts` | backend/src/ai_employee/domain/calendar.py:32-68 | With Python's comparison of times: raises exactly when a busy first-occurrence event has an invalid interval, reports only overlapping pairs, and, where the comparison is one linear order or at most two events take part, each of them once and in start order. Where the times of one zone are ordered alike by wall and by instant, all of this holds of instants, as documented. |
| `Conflicts.DocumentedExactlyWhenAlike` | backend/src/ai_employee/domain/calendar.py:35-37 | Over a set of times, every event list is handled as documented if and only if every two of these times that share a zone are ordered alike by wall and by instant. |
| `Conflicts.AlikeMeansDocumented` | backend/src/ai_employee/domain/calendar.py:35-46 | On such a list each run raises and reports exactly as documented in terms of instants. |
| `Conflicts.OneEventDecides` | backend/src/ai_employee/domain/calendar.py:90-99 | The converse on one event: it is handled as documented only if its two times are ordered alike. |
| `Conflicts.FixedOffsetsAreAlike` | backend/src/ai_employee/domain/calendar.py:35-37 | UTC and every fixed offset meet the condition. |
| `Conflicts.FoldedEventIsRefused` | backend/src/ai_employee/domain/calendar.py:96-98 | A concrete input: an event of thirty minutes across the end of daylight saving time raises. |
| `Conflicts.EventsApartAreReported` | backend/src/ai_employee/domain/calendar.py:62-67 | A concrete input: two events forty minutes apart on either side of that change are reported as a conflict. |
| `Conflicts.BusyEvents` | backend/src/ai_employee/domain/calendar.py:50-53 | Keeps exactly the participating first occurrences, one per identity. |
| `Conflicts.StoppingLosesNothing` | backend/src/ai_employee/domain/calendar.py:60-64 | Once every later start is past the end, stopping loses no overlapping event. |
| `Conflicts.RankedStops` | backend/src/ai_employee/domain/calendar.py:54-64 | On one linear order of the times the first start past the end is followed by such starts only, and the sorted starts ascend. |
| `Conflicts.RowsAreOrdered` | backend/src/ai_employee/domain/calendar.py:44-68 | The reported pairs are in the order of their earlier event's start and, for one earlier event, of the later one's. |
| `Conflicts.RowsReportExactly` | backend/src/ai_employee/domain/calendar.py:57-67 | The naive pairs of events with ordered starts are the unordered overlap relation, each pair once. |
| `IdentityKey.BuildExample` | backend/src/ai_employee/domain/connections.py:110-159 | A concrete identity and its key. |
| `IdentityKey.ParseOfBuild` | backend/src/ai_employee/domain/connections.py:110-203 | Parsing undoes building for every accepted identity. |
| `IdentityKey.BuildOfParse` | backend/src/ai_employee/domain/connections.py:162-203 | Only canonical keys are accepted: building from the parsed triple gives the key back. |
| `IdentityKey.KeysAreInjective` | backend/src/ai_employee/domain/connections.py:110-159 | Distinct identities never share a key. |
| `IdentityKey.BuildAcceptsExactly` | backend/src/ai_employee/domain/connections.py:133-158 | The identities with a key, characterised without any encoding. |
| `IdentityKey.EncodedLimitIsNeverReached` | backend/src/ai_employee/domain/connections.py:39-42 | A raw part within 255 characters never exceeds the encoded bound. |
| `IdentityKey.DecodeOfEncodePart` | backend/src/ai_employee/domain/connections.py:61-107 | A segment decodes to the part it came from and holds no colon. |
| `IdentityKey.UnquoteOfQuote` | backend/src/ai_employee/domain/connections.py:82-101 | Percent-decoding undoes percent-encoding on every byte string (sections 2.1 and 2.3 of RFC 3986). |
| `Utf8.DecodeOfEncode` | backend/src/ai_employee/domain/connections.py:82-101 | Strict UTF-8 decoding undoes encoding (section 3 of RFC 3629). |
| `Utf8.EncodeOfDecode` | backend/src/ai_employee/domain/connections.py:98-106 | The strict decoder accepts nothing but encodings, each of one surrogate-free text. |
| `JsonText.WriteExample` | backend/src/ai_employee/domain/tasks.py:228-235 | A concrete value and its compact text. |
| `JsonText.ReadOfWrite` | backend/src/ai_employee/domain/tasks.py:262-270 | Reading a written JSON text gives the same value back, whatever follows it (strings as in section 7 of RFC 8259). |
| `CanonicalJson.CanonicalIffEquivalent` | backend/src/ai_employee/domain/tasks.py:215-235 | Two trees have the same canonical text if and only if they are equal up to object key order. |
| `CanonicalJson.ReadOfCanonical` | backend/src/ai_employee/domain/tasks.py:262-270 | Reading a canonical text gives the tree back up to key order. |
| `CanonicalJson.SortedIffEquivalent` | backend/src/ai_employee/domain/tasks.py:228-235 | Sorting keys at every level identifies exactly the trees equal up to key order. |
| `CanonicalJson.SortedKeysAscend` | backend/src/ai_employee/domain/tasks.py:228-235 | The keys of a canonical object ascend by their first differing character. |
| `CanonicalJson.ProposalBindsCommand` | backend/src/ai_employee/domain/tasks.py:272-303 | Two proposals give the hash the same bytes if and only if action and payload agree up to key order. |
| `CanonicalJson.ProposalKeepsPayload` | backend/src/ai_employee/domain/tasks.py:262-303 | The stored text of a proposal reads back as the approved payload. |
| `JsonCopy.Copier.Copy` | backend/src/ai_employee/application/commands.py:373-434 | Fails exactly when some walk from the value meets an illegal value or a container that is its own ancestor; otherwise yields the unfolded tree; the active set is as before in every case. |
| `JsonCopy.Copier.CopyItems` | backend/src/ai_employee/application/commands.py:425-433 | The list branch: shared children are copied each time, the first failure ends it, and the path is restored. |
| `JsonCopy.Copier.CopyEntries` | backend/src/ai_employee/application/commands.py:407-424 | The mapping branch with its key checks. |
| `JsonCopy.EncodeCommand` | backend/src/ai_employee/application/commands.py:356-364 | Copying and serialising fails exactly when an illegal value or a self-containing container is reachable, and the bytes carry the whole tree. |
| `JsonCopy.UnfoldingIsUnique` | backend/src/ai_employee/application/commands.py:407-433 | An object graph unfolds to at most one tree. |
| `JsonCopy.CopiesEncode` | backend/src/ai_employee/application/commands.py:359-364 | A copied tree always encodes as UTF-8. |
| `Graphs.StuckIffCycle` | backend/src/ai_employee/application/commands.py:397-410 | Depth-first search with a path set gets stuck exactly when a bad node or a cycle is reachable. |
| `Capabilities.DependencyClosure` | backend/src/ai_employee/domain/connections.py:278-304 | Terminates for every dependency table, fails exactly when a walk returns to its path, and otherwise collects exactly what is reachable by at least one dependency. |
| `Capabilities.ClosureExistsIffNoCycleAhead` | backend/src/ai_employee/domain/connections.py:278-304 | From the top it fails exactly when a cycle is reachable. |
| `Capabilities.ValidateGraph` | backend/src/ai_employee/domain/connections.py:259-275 | Accepts exactly the acyclic tables over known capabilities. |
| `Capabilities.ValidateEnabled` | backend/src/ai_employee/domain/connections.py:307-339 | Accepts exactly the closed sets of known capabilities. |
| `Capabilities.Enable` | backend/src/ai_employee/domain/connections.py:342-362 | Succeeds exactly on valid input and returns the current set with the request and everything it needs, which is the least closed superset. |
| `Capabilities.Disable` | backend/src/ai_employee/domain/connections.py:365-391 | Succeeds exactly when nothing that remains needs the request, and returns just what remains, which is closed. |
| `Capabilities.UnneededIffClosed` | backend/src/ai_employee/domain/connections.py:385-391 | Nothing that remains needs the request exactly when what remains is closed. |
| `Capabilities.Serve` | backend/src/ai_employee/domain/connections.py:342-391 | A list of requests served by the two operations, refusals keeping the set: every state is a closed set of known capabilities, and the states are the exact history of the requests. |
| `Capabilities.EveryStateIsClosed` | backend/src/ai_employee/domain/connections.py:342-391 | In every such history, where each set is only computed and nothing about closure is assumed, every state is closed. |
| `Capabilities.EnabledIffServed` | backend/src/ai_employee/domain/connections.py:342-391 | A capability is enabled exactly when an accepted request for it, or for something that needs it, has not been followed by an accepted request to disable it. |
| `Frames.SnapshotDeterminesRows` | backend/src/ai_employee/application/calendar_aad_digests.py:101-111 | The snapshot bytes determine all nine fields of both rows. |
| `Frames.RefreshSnapshotDeterminesRow` | backend/src/ai_employee/application/calendar_aad_digests.py:114-118 | The refresh-only bytes determine the row. |
| `Frames.SnapshotDomainsNeverCollide` | backend/src/ai_employee/application/calendar_aad_digests.py:107-118 | Full and refresh-only bytes are never equal. |
| `Frames.FramesDetermineFields` | backend/src/ai_employee/application/calendar_aad_digests.py:38-51 | Equally many frames are read back exactly, NULL and empty apart, whatever follows. |
| `Frames.FrameLayout` | backend/src/ai_employee/application/calendar_aad_digests.py:38-51 | A present field is a one, its length with the highest byte first, and the field itself. |
| `Frames.FixedIsDecimal` | backend/src/ai_employee/application/calendar_aad_digests.py:68-76 | Each character of a fixed-width number is the decimal digit of its place. |
| `Frames.UtcTextIsInjective` | backend/src/ai_employee/application/calendar_aad_digests.py:68-76 | Distinct UTC instants have distinct texts. |
| `Frames.UuidTextIsInjective` | backend/src/ai_employee/application/calendar_aad_digests.py:54-58 | Distinct UUIDs have distinct texts. |
| `Decimals.RenderRoundTrip` | backend/src/ai_employee/application/calendar_aad_digests.py:61-65 | Rendering a natural number is canonical and loses nothing. |
| `Frames.FieldAadDeterminesIdentity` | backend/src/ai_employee/application/calendar_event_aad.py:94-131 | The version 2 context bytes determine all five identity fields. |
| `Frames.FieldAadAcceptsExactly` | backend/src/ai_employee/application/calendar_event_aad.py:56-131 | Every well-formed identity is accepted; no frame can overflow within the scalar limits. |
| `Migration0018.EveryCommittedStateIsProtected` | backend/migrations/versions/20260809_0018_calendar_event_calendar_identity.py:245-253 | From a valid legacy identity, with other writers and a crash between any two commits, every committed state enforces the pair or the triple identity. |
| `Migration0018.RerunReachesFinal` | backend/migrations/versions/20260809_0018_calendar_event_calendar_identity.py:245-253 | A rerun from any committed state reaches the same final catalog over the same rows, except exactly from the migrated catalog once one provider event lies in two calendars. |
| `Migration0018.RepeatedUpgradeCanRaise` | backend/migrations/versions/20260809_0018_calendar_event_calendar_identity.py:177-191 | Such a state is reachable: a concrete run after which a repeated upgrade raises. |
| `Migration0018.DowngradeCheckIsExact` | backend/migrations/versions/20260809_0018_calendar_event_calendar_identity.py:256-270 | The cross-calendar check together with triple uniqueness is exactly pair uniqueness. |
| `Migration0018.DowngradeOfMigrated` | backend/migrations/versions/20260809_0018_calendar_event_calendar_identity.py:293-306 | From the migrated catalog an undisturbed downgrade succeeds exactly when its own check does. |
| `Migration0018.DowngradeUndoesUpgrade` | backend/migrations/versions/20260809_0018_calendar_event_calendar_identity.py:245-306 | An undisturbed downgrade gives the state before the upgrade back. |
| `Migration0018.Database.Upgrade` | backend/migrations/versions/20260809_0018_calendar_event_calendar_identity.py:245-253 | Finishes only in the final catalog, otherwise keeps the legacy object, and undisturbed finishes exactly on expected objects without legacy duplicates. |
| `Migration0018.Database.PrepareNewIndex` | backend/migrations/versions/20260809_0018_calendar_event_calendar_identity.py:194-212 | Each index statement commits alone; finishing means the triple identity is enforced; unexpected objects are left alone. |
| `Migration0018.Database.SwitchIdentity` | backend/migrations/versions/20260809_0018_calendar_event_calendar_identity.py:215-242 | Attach and drop commit together or not at all. |
| `Migration0018.Database.Downgrade` | backend/migrations/versions/20260809_0018_calendar_event_calendar_identity.py:293-306 | Restores the legacy constraint or leaves the catalog as it was. |
| `Audit0019.Compare` | backend/src/ai_employee/cli/calendar_aad_audit_0019.py:314-401 | A phase passes exactly when its promised relation to the predecessor holds. |
| `Audit0019.CompareEvents` | backend/src/ai_employee/cli/calendar_aad_audit_0019.py:333-370 | The loop over events decides the relation between the two sets of rows. |
| `Audit0019.CompareCursors` | backend/src/ai_employee/cli/calendar_aad_audit_0019.py:371-401 | The loop over cursors, with the pairs seen, decides the relation between the two sets of cursors. |
| `Audit0019.UnaffectedCursorsAreUnchanged` | backend/src/ai_employee/cli/calendar_aad_audit_0019.py:371-399 | After three passing phases no cursor appeared or vanished, and those outside the affected pairs are unchanged. |
| `Audit0019.AffectedPairsAreRecovered` | backend/src/ai_employee/cli/calendar_aad_audit_0019.py:375-401 | Every affected pair has a cursor that kept identity, pair and immutable columns from the first phase and was recovered. |
| `Audit0019.MigrationPasses` | backend/src/ai_employee/cli/calendar_aad_audit_0019.py:338-401 | What an honest migration makes of any valid snapshot passes its phase. |
| `Audit0019.ResyncPasses` | backend/src/ai_employee/cli/calendar_aad_audit_0019.py:355-401 | What an honest resync then makes of it passes too: fields kept or rewritten at version 2, affected cursors recovered. |
| `Audit0019.AffectedCursorsAreReset` | backend/src/ai_employee/cli/calendar_aad_audit_0019.py:375-391 | After a passing migration phase an affected cursor is reset and marked, with its last attempt kept. |
| `Audit0019.MigrationKeepsEvents` | backend/src/ai_employee/cli/calendar_aad_audit_0019.py:338-354 | A passing migration phase changed nothing of an event but its versions. |
| `Audit0019.OldCiphertextsAreOriginal` | backend/src/ai_employee/cli/calendar_aad_audit_0019.py:336-370 | A field still at version 1 has the ciphertext digest its row had before the migration; every ciphertext has version 1 or 2 and no empty field has one. |

## Left out

- Task steps, error codes and step timestamps in the tasks store: they depend on arrival order by design; the model keeps only whether a step event may create a placeholder.
- Heartbeat messages of the event stream carry no id and are not in its yielded list; connection state labels of the browser are not modelled.
- Conflicts.FindConflicts: which pairs are missed where Python's comparison is not one linear order depends on the sorting algorithm and is not stated.
- TaskSync lets REST reads start and end at any time, which allows every schedule that `TaskEvents` produces; the two are not composed.
- Page contents, limits, offsets and filter fields in the actions store: a page is its list of items and a filter is opaque.
- The non-group path of `run_guarded_backup` and the linking steps inside `_publish_backup`: the model follows the group path that `run_backup` uses.
- Staging-file checks, inventories and retention in `run_backup`: each is one call that may fail.
- BackupRun.RunBackup: failures while the outer locks are released after staging clean-up are outside the statement.
- Rewriting a published inode in place, and a third party inside the custody directory.
- Missing-connection ids and the completeness flag of availability results: they are passed through.
- Settings.FromMapping: type checks of dynamic values, and the other user settings.
- Unknown time zones and dates outside the calendar range: the model has a valid zone and unbounded integers.
- IdentityKey.Build: type checks of dynamic arguments are not modelled; every argument is a text.
- JsonText.Read: insignificant white space and escaped surrogate pairs are not read, because the writer never produces them.
- JsonText.Write: floats are opaque number tokens, and the limit on digits of very large integers is not modelled.
- CanonicalJson.Create: the object graph is already the tree it unfolds to; the graph walk is `JsonCopy`, whose recursion the payload validation shares except that it admits surrogates until the final encoding.
- JsonCopy.Copier.Copy: which of several errors is raised first is not distinguished, and the interpreter's recursion limit is not modelled.
- Capabilities.DependencyClosure: the sorted iteration order is not fixed, since no result depends on it.
- The rollout digest and the calendar pair digest: they use the same frames or fixed-width prefixes.
- Migration0018: rows have no null columns, an invalid index enforces nothing, and the catalog queries are the predicate `exact`.
- Audit0019: the order in which failing checks are reported, reading the database, and the audit files themselves.
- Status tables, Redis, SQL, schema validation and everything in the user interface.
