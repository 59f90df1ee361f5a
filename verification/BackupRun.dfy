/**
 * Who compensates a published backup, whatever fails: the control flow and receipts of
 * backend/src/ai_employee/cli/postgres_backup.py and of the group-guarded path of
 * cli/calendar_aad_backup_0019.py. Every external call may raise; a cancellation may arrive at
 * every await. Exceptions are values here, and each except or finally block is a branch.
 */
module BackupRun {
  import opened Prelude
  import opened Resources

  /** A published local group and, once uploaded, its remote copy. */
  datatype Receipt = Receipt(group: nat, remote: bool)

  datatype Request = Request(isSealed: bool, uploads: bool)

  /**
   * `_Publisher` with a ledger beside it. The ledger is history: which receipts the threads really
   * produced, which compensations were started, what they reached, and the deliberate keep.
   */
  class Publisher {
    const request: Request
    /** In a calm run no call outside the flow fails and no cancellation arrives. */
    const calm: bool
    var publication: Option<Receipt>

    ghost var group: Option<nat>
    ghost var uploaded: bool
    ghost var uploadFailure: Option<Failure>
    ghost var attempts: seq<Receipt>
    ghost var locked: bool
    ghost var localWithdrawals: nat
    ghost var remoteWithdrawals: nat
    ghost var kept: bool

    constructor (request: Request, calm: bool)
      ensures this.request == request && this.calm == calm && Untouched()
    {
      this.request, this.calm := request, calm;
      publication, group, uploaded, uploadFailure, attempts := None, None, false, None, [];
      locked, localWithdrawals, remoteWithdrawals, kept := true, 0, 0, false;
    }

    /** Nothing published yet. */
    ghost predicate Untouched()
      reads this
    {
      && publication.None? && group.None? && !uploaded && uploadFailure.None? && attempts == [] && !kept
      && localWithdrawals == 0 && remoteWithdrawals == 0
    }

    ghost predicate Issued(receipt: Receipt)
      reads this
    {
      group == Some(receipt.group) && uploaded == receipt.remote && (uploaded ==> request.uploads)
    }

    /** A receipt exists and no compensation has been started. */
    ghost predicate Outstanding(receipt: Receipt)
      reads this
    {
      Issued(receipt) && attempts == [] && !kept && localWithdrawals == 0 && remoteWithdrawals == 0
    }

    /** The compensation of the issued receipt was started exactly once, and it did all it could. */
    ghost predicate CompensatedOnce()
      reads this
    {
      && group.Some? && !kept && attempts == [Receipt(group.value, uploaded)]
      && (uploaded ==> request.uploads)
      && localWithdrawals == (if locked then 1 else 0)
      && remoteWithdrawals == (if locked && uploaded then 1 else 0)
    }

    /** The deliberate keep: an ordinary backup whose upload failed without a remote receipt. */
    ghost predicate KeptLocally()
      reads this
    {
      && group.Some? && kept && attempts == [] && localWithdrawals == 0 && remoteWithdrawals == 0
      && !request.isSealed && request.uploads && !uploaded
    }

    /** An ordinary failure of the upload of an ordinary backup that left no remote copy. */
    ghost predicate MustKeep()
      reads this
    {
      && group.Some? && !request.isSealed && request.uploads && !uploaded
      && uploadFailure.Some? && uploadFailure.value.Ordinary?
    }

    /** Every end of a failed run: with a published group, kept exactly when it must be and compensated otherwise. */
    ghost predicate Settled()
      reads this
    {
      && publication.None?
      && if group.None? then Untouched() else if MustKeep() then KeptLocally() else CompensatedOnce()
    }

    /** A successful end: the group is where it was asked for, its receipt is handed on, nothing was withdrawn. */
    ghost predicate Delivered()
      reads this
    {
      publication.Some? && Outstanding(publication.value) && uploaded == request.uploads && uploadFailure.None?
    }

    /** Any call into code outside this flow: it returns or, in a run that is not calm, may raise. */
    method External() returns (outcome: Outcome<()>)
      ensures calm ==> outcome.Returned?
    {
      var fails: bool := *;
      var id: nat := *;
      outcome := if calm || !fails then Returned(()) else Raised(Ordinary(id));
    }

    /**
     * A wait with any number of cancellations and nothing else thrown at the waiter: the task has ended, so
     * its result can be fetched, and only the waiter may see a cancellation in its place.
     */
    method Await<T>(task: Task<T>) returns (seen: Outcome<T>)
      requires !task.done
      modifies task
      ensures task.done && task.consumed == old(task.consumed) + 1
      ensures seen == task.outcome || (!calm && seen.Raised? && seen.failure.Cancelled?)
    {
      var cancellations: seq<nat> := *;
      var simultaneous: Option<nat> := *;
      if calm {
        cancellations, simultaneous := [], None;
      }
      var last := if simultaneous.Some? then Cancel(simultaneous.value, true) else Ended;
      var wakes :=
        seq(|cancellations|, i requires 0 <= i < |cancellations| => Cancel(cancellations[i], false)) + [last];
      assert StopsAt(wakes, |cancellations|);
      seen := AwaitResource(task, wakes);
    }

    method AwaitExternal() returns (outcome: Outcome<()>)
      ensures calm ==> outcome.Returned?
    {
      var result := External();
      var task := new Task(result);
      outcome := Await(task);
    }

    /** Consecutive awaits; the first that raises ends them. */
    method AwaitAll(count: nat) returns (outcome: Outcome<()>)
      ensures calm ==> outcome.Returned?
    {
      outcome := Returned(());
      for i := 0 to count
        invariant outcome.Returned?
      {
        outcome := AwaitExternal();
        if outcome.Raised? {
          return;
        }
      }
    }

    /** `discard`: both halves are always tried once the locks are known to be held. */
    method Discard(receipt: Receipt) returns (outcome: Outcome<()>)
      requires Outstanding(receipt)
      modifies this
      ensures CompensatedOnce()
      ensures group == old(group) && uploaded == old(uploaded) && uploadFailure == old(uploadFailure)
      ensures calm ==> outcome.Returned? && locked
      ensures publication == if old(publication) == Some(receipt) then None else old(publication)
    {
      attempts := attempts + [receipt];
      var live := External();
      locked := live.Returned?;
      var result := live;
      if live.Returned? {
        if receipt.remote && request.uploads {
          remoteWithdrawals := remoteWithdrawals + 1;
          result := External();
        }
        localWithdrawals := localWithdrawals + 1;
        var local := External();
        if result.Returned? {
          result := local;
        }
      }
      var task := new Task(result);
      outcome := Await(task);
      if publication == Some(receipt) {
        publication := None;
      }
    }

    /** `publish_backup_group` in its thread: it reports a receipt or cleans up after itself. */
    method PublishGroup() returns (task: Task<Receipt>)
      requires Untouched()
      modifies this`group
      ensures fresh(task) && !task.done
      ensures task.outcome.Returned? ==> Outstanding(task.outcome.value) && !task.outcome.value.remote
      ensures task.outcome.Raised? ==> Untouched()
      ensures calm ==> task.outcome.Returned?
    {
      var result := External();
      if result.Raised? {
        task := new Task(Raised(result.failure));
        return;
      }
      var id: nat := *;
      group := Some(id);
      task := new Task(Returned(Receipt(id, false)));
    }

    /** `publish_remote_backup` in its thread. */
    method UploadGroup(receipt: Receipt) returns (task: Task<()>)
      requires Outstanding(receipt) && !receipt.remote && request.uploads
      modifies this`uploaded
      ensures fresh(task) && !task.done
      ensures Outstanding(receipt.(remote := task.outcome.Returned?))
      ensures calm ==> task.outcome.Returned?
    {
      var result := External();
      uploaded := result.Returned?;
      task := new Task(result);
    }

    /** The upload of a published group: what the caller sees, and the receipt it is left with. */
    method Upload(published: Receipt) returns (failure: Option<Failure>, receipt: Receipt, preserve: bool)
      requires Outstanding(published) && !published.remote && request.uploads
      modifies this`uploaded, this`uploadFailure
      ensures Outstanding(receipt) && uploadFailure == failure
      ensures failure.None? ==> receipt.remote
      ensures preserve <==> failure.Some? && failure.value.Ordinary? && !request.isSealed && !receipt.remote
      ensures calm ==> failure.None?
    {
      receipt, preserve := published, false;
      var checked := AwaitExternal();
      if checked.Raised? {
        failure := Some(checked.failure);
      } else {
        var task := UploadGroup(published);
        var seen := Await(task);
        receipt := receipt.(remote := task.Result().Returned?);
        failure := if seen.Raised? then Some(seen.failure) else None;
      }
      if failure.Some? {
        preserve := !request.isSealed && !failure.value.Cancelled? && !receipt.remote;
      }
      uploadFailure := failure;
    }

    /** The checks and retention clean-up between a complete publication and its delivery. */
    method Finalize() returns (outcome: Outcome<()>)
      ensures calm ==> outcome.Returned?
    {
      outcome := AwaitAll(if request.uploads then 6 else 5);
    }

    /** `publish`. */
    method Publish() returns (outcome: Outcome<Receipt>)
      requires Untouched()
      modifies this
      ensures outcome.Returned? ==> Delivered() && publication == Some(outcome.value)
      ensures outcome.Raised? ==> Settled()
      ensures outcome.Raised? && uploadFailure.Some? ==> outcome.failure == uploadFailure.value
      ensures outcome.Raised? && outcome.failure.Cancelled? ==> !kept
      ensures calm ==> outcome.Returned?
    {
      var ready := AwaitAll(3);
      if ready.Raised? {
        return Raised(ready.failure);
      }
      var task := PublishGroup();
      var seen := Await(task);
      var failure: Option<Failure> := None;
      var receipt: Option<Receipt> := None;
      var preserve := false;
      if seen.Raised? {
        failure := Some(seen.failure);
      } else {
        receipt := Some(seen.value);
        if request.uploads {
          var left: Receipt;
          failure, left, preserve := Upload(seen.value);
          receipt := Some(left);
        }
        if failure.None? {
          var final := Finalize();
          if final.Returned? {
            publication := receipt;
            return Returned(receipt.value);
          }
          failure := Some(final.failure);
        }
      }
      // except BaseException: the thread may have published although this wait was cancelled.
      if receipt.None? && task.Result().Returned? {
        receipt := Some(task.Result().value);
      }
      if receipt.Some? && !preserve {
        var discarded := Discard(receipt.value);
      } else if receipt.Some? {
        kept := true;
      }
      return Raised(failure.value);
    }

    /** `_run_group_guarded_backup`. */
    method RunGroupGuarded() returns (outcome: Outcome<()>)
      requires Untouched()
      modifies this
      ensures outcome.Returned? ==> Delivered()
      ensures outcome.Raised? ==> Settled()
      ensures calm ==> outcome.Returned?
    {
      var entered := AwaitAll(2);
      if entered.Raised? {
        return entered;
      }
      var produced := AwaitAll(3);
      var failure: Option<Failure> := if produced.Raised? then Some(produced.failure) else None;
      var task: Option<Task<Receipt>> := None;
      if produced.Returned? {
        var published := Publish();
        var publishing := new Task(published);
        task := Some(publishing);
        var seen := Await(publishing);
        if seen.Raised? {
          failure := Some(seen.failure);
        } else {
          var verified := AwaitExternal();
          failure := if verified.Raised? then Some(verified.failure) else None;
        }
      }
      if failure.Some? {
        // Inside the lease: a publication that was delivered is withdrawn before the lease ends.
        if task.Some? && task.value.Result().Returned? {
          var discarded := Discard(task.value.Result().value);
        }
        return Raised(failure.value);
      }
      var left := AwaitExternal();
      if left.Raised? {
        var discarded := Discard(task.value.Result().value);
        return left;
      }
      return Returned(());
    }

    /** `_run_locked`: the sealed or the ordinary flow, then the `finally`. */
    method RunLocked() returns (outcome: Outcome<()>)
      requires Untouched()
      modifies this
      ensures outcome.Returned? ==> Delivered()
      ensures outcome.Raised? ==> Settled() || Delivered()
      ensures calm ==> outcome.Returned?
    {
      var started := External();
      if started.Raised? {
        return started;
      }
      if request.isSealed {
        outcome := RunGroupGuarded();
      } else {
        outcome := AwaitExternal();
        if outcome.Returned? {
          var published := Publish();
          outcome := if published.Returned? then Returned(()) else Raised(published.failure);
        }
      }
      var disposed := AwaitExternal();
      if disposed.Raised? {
        outcome := disposed;
      }
    }
  }

  /**
   * `run_backup` from the opened locks to the end of staging clean-up. A failed run that published a
   * group has kept it if an ordinary upload failed without leaving a remote copy, and otherwise started
   * its compensation exactly once; a successful run has started none, holds its receipt and has uploaded
   * if it was asked to. A run in which nothing goes wrong succeeds.
   */
  method RunBackup(request: Request, calm: bool) returns (outcome: Outcome<()>, publisher: Publisher)
    ensures fresh(publisher) && publisher.request == request && publisher.calm == calm
    ensures calm ==> outcome.Returned?
    ensures outcome.Returned? ==> publisher.Delivered()
    ensures outcome.Raised? ==> publisher.Settled()
  {
    publisher := new Publisher(request, calm);
    var locks := publisher.External();
    if locks.Raised? {
      return locks, publisher;
    }
    var schema := publisher.External();
    if schema.Returned? {
      outcome := publisher.RunLocked();
      var closed := publisher.External();
      if closed.Raised? {
        outcome := closed;
      }
    } else {
      outcome := schema;
    }
    if outcome.Raised? && publisher.publication.Some? {
      var discarded := publisher.Discard(publisher.publication.value);
    }
    var cleaned := publisher.External();
    if cleaned.Raised? && outcome.Returned? {
      if publisher.publication.Some? {
        var discarded := publisher.Discard(publisher.publication.value);
      }
      outcome := cleaned;
    }
  }
}
