/**
 * `await_calendar_aad_resource` of backend/src/ai_employee/infrastructure/calendar_aad_resources.py: waiting
 * for an owned task through any number of cancellations. What happens to the waiter is a list of wakes.
 */
module Resources {
  import opened Prelude

  /** An exception, with its identity. */
  datatype Failure = Cancelled(id: nat) | Ordinary(id: nat)

  datatype Outcome<+T> = Returned(value: T) | Raised(failure: Failure)

  /** An owned task: what it will end with, whether it has, and how often that was taken from it. */
  class Task<T> {
    const outcome: Outcome<T>
    var done: bool
    ghost var consumed: nat

    constructor (outcome: Outcome<T>)
      ensures this.outcome == outcome && !done && consumed == 0
    {
      this.outcome, done, consumed := outcome, false, 0;
    }

    /** `result()` or `exception()`, which a running task refuses. */
    function Result(): Outcome<T>
      requires done
      reads this
    {
      outcome
    }
  }

  /**
   * One return from the shielded wait: the task ended, the waiter was cancelled, or something else was
   * thrown at it; the last two may find the task already done.
   */
  datatype Wake = Ended | Cancel(id: nat, done: bool) | Throw(id: nat, done: bool)
  {
    /** A cancellation of a task still at work: the wait goes on. */
    predicate Absorbed() { Cancel? && !done }

    /** The one way to leave the task running. */
    predicate Interrupts() { Throw? && !done }
  }

  ghost predicate StopsAt(wakes: seq<Wake>, n: nat) {
    n < |wakes| && !wakes[n].Absorbed() && forall j :: 0 <= j < n ==> wakes[j].Absorbed()
  }

  /** The cancellation that one wake brings: a task that was itself cancelled brings its own. */
  function CancellationOf<T>(wake: Wake, outcome: Outcome<T>): Option<Failure> {
    match wake
    case Cancel(id, _) => Some(Cancelled(id))
    case Throw(_, _) => None
    case Ended => if outcome.Raised? && outcome.failure.Cancelled? then Some(outcome.failure) else None
  }

  /**
   * The wait ends with the task ended and its result taken once, unless something other than a
   * cancellation was thrown at a waiter whose task still ran. What the waiter gets is the first
   * cancellation it received, however many followed, and otherwise the task's own outcome.
   */
  method AwaitResource<T>(task: Task<T>, wakes: seq<Wake>) returns (seen: Outcome<T>)
    requires task.done || exists n: nat :: StopsAt(wakes, n)
    modifies task
    ensures old(task.done) ==> task.done && task.consumed == old(task.consumed) + 1 && seen == task.outcome
    ensures !old(task.done) ==> forall n: nat :: StopsAt(wakes, n) ==>
      && task.done == !wakes[n].Interrupts()
      && task.consumed == old(task.consumed) + (if task.done then 1 else 0)
      && seen == (if !task.done then Raised(Ordinary(wakes[n].id))
                  else if wakes[0].Cancel? then Raised(Cancelled(wakes[0].id))
                  else task.outcome)
  {
    var cancellation: Option<Failure> := None;
    var woken := 0;
    while !task.done
      invariant old(task.done) ==> task.done && woken == 0
      invariant task.consumed == old(task.consumed) && woken <= |wakes|
      invariant !task.done ==> forall j :: 0 <= j < woken ==> wakes[j].Absorbed()
      invariant task.done && woken > 0 ==> StopsAt(wakes, woken - 1) && !wakes[woken - 1].Interrupts()
      invariant task.done && woken == 0 ==> old(task.done)
      invariant cancellation == if woken == 0 then None else CancellationOf(wakes[0], task.outcome)
      decreases |wakes| - woken, !task.done
    {
      assert woken < |wakes|;
      var wake := wakes[woken];
      woken := woken + 1;
      task.done := wake.Ended? || wake.done;
      match wake {
        case Cancel(id, _) =>
          if cancellation.None? {
            cancellation := Some(Cancelled(id));
          }
        case Throw(id, _) =>
          if !task.done {
            assert StopsAt(wakes, woken - 1);
            return Raised(Ordinary(id));
          }
        case Ended =>
          if task.outcome.Raised? && task.outcome.failure.Cancelled? && cancellation.None? {
            cancellation := Some(task.outcome.failure);
          }
      }
    }
    task.consumed := task.consumed + 1;
    seen := if cancellation.Some? then Raised(cancellation.value) else task.Result();
  }
}
