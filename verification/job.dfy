/**
  One job of the job system: its dependency counter, its barrier field and
  its reference count, and the atomic steps that change them.

  The dependency counter is a 32-bit unsigned word that holds either the
  number of dependencies still outstanding or one of two sentinels meaning
  "executing" and "done". The barrier field holds no barrier, the identity
  of the one barrier the job belongs to, or a sentinel meaning "the job
  has finished, no barrier may attach any more".

  Every compare-and-swap of the source is one call of `CompareExchange`,
  an indivisible step. The job function itself is opaque: running it only
  bumps `invocations`, which counts how often it has been called.
 */
module Jobs {

  /** An unsigned 32-bit word. */
  type UInt32 = x: int | 0 <= x < 0x1_0000_0000

  /** The identity of a barrier object. */
  type BarrierId = nat

  /** Counter value while the job function runs. */
  const ExecutingState: UInt32 := 0xe0e0e0e0

  /** Counter value once the job has finished. */
  const DoneState: UInt32 := 0xd0d0d0d0

  datatype BarrierField =
    | NoBarrier
    | Attached(id: BarrierId)
    | BarrierDone

  datatype Job = Job(
    numDependencies: UInt32,
    barrier: BarrierField,
    referenceCount: UInt32,
    invocations: nat)

  /**
    The ways a caller can break the job's rules. Some are debug assertions
    in the source, some are rules its doc comments state without a check,
    and some are rules this model adds where the source leaves the
    behaviour open; the comment on each says which.
   */
  datatype Violation =
    | InOtherBarrier        // assertion: the job already belongs to another barrier
    | BarrierAlreadyDone    // assertion: the barrier field was swapped to "done" twice
    | NotExecuting          // assertion: the counter left the executing state while the job ran
    | DependencyAfterZero   // doc comment: add/remove after the counter reached zero
    | RemovedBeyondZero     // model's rule: removing more dependencies than are outstanding
    | DependencyOverflow    // model's rule: adding dependencies up into the sentinel range
    | NullDereference       // unchecked: a dependency call through an empty handle

  /** The outcome of an operation that a caller can misuse. */
  datatype Checked<T> = Ok(value: T) | Violated(violation: Violation)

  datatype Option<T> = None | Some(value: T)

  /** The result of `compare_exchange_strong` on an atomic word. */
  datatype Cas<T> = Cas(success: bool, stored: T, observed: T)

  /**
    Atomically: if the word holds `expected`, store `desired`; either way
    report the value the word held before.
   */
  function CompareExchange<T(==)>(current: T, expected: T, desired: T): (r: Cas<T>)
    ensures r.success <==> current == expected
    ensures r.observed == current
    ensures r.success ==> r.stored == desired
    ensures !r.success ==> r.stored == current
  {
    if current == expected then Cas(true, desired, current) else Cas(false, current, current)
  }

  /** The job may run: its counter is zero, so no dependency is pending. */
  predicate CanBeExecuted(j: Job)
    ensures CanBeExecuted(j) ==> !IsPending(j) && j.numDependencies != ExecutingState
  {
    j.numDependencies == 0
  }

  /**
    The job function has run to completion; a done job can neither run
    again nor take dependencies.
   */
  predicate IsDone(j: Job)
    ensures IsDone(j) ==> !CanBeExecuted(j) && !IsPending(j) && j.numDependencies != ExecutingState
  {
    j.numDependencies == DoneState
  }

  /**
    The counter still holds a positive dependency count, so dependencies
    may still be added or removed. Counts stay below the lower sentinel.
   */
  predicate IsPending(j: Job) {
    0 < j.numDependencies < DoneState
  }

  /** A job as its constructor leaves it. */
  function NewJob(numDependencies: UInt32): (j: Job)
    ensures j.referenceCount == 0 && j.invocations == 0
    ensures j.barrier == NoBarrier
    ensures j.numDependencies == numDependencies
    ensures CanBeExecuted(j) <==> numDependencies == 0
    ensures IsPending(j) <==> 0 < numDependencies < DoneState
    ensures IsDone(j) <==> numDependencies == DoneState
  {
    Job(numDependencies, NoBarrier, 0, 0)
  }

  /**
    The two sentinels are distinct, nonzero and above every pending count,
    so the predicates on the counter exclude one another.
   */
  lemma StatesAreExclusive(j: Job)
    ensures ExecutingState != DoneState && ExecutingState != 0 && DoneState != 0
    ensures !(CanBeExecuted(j) && IsDone(j))
    ensures IsPending(j) ==> !CanBeExecuted(j) && !IsDone(j) && j.numDependencies != ExecutingState
  {
  }

  // ---------------------------------------------------------------------
  // Reference counting

  datatype Released = Released(job: Job, freeJob: bool)

  /** Increment the 32-bit reference count (wrapping like the atomic does). */
  function AddRef(j: Job): (r: Job)
    ensures r.referenceCount == (j.referenceCount + 1) % 0x1_0000_0000
    ensures r.(referenceCount := j.referenceCount) == j
  {
    j.(referenceCount := if j.referenceCount == 0xFFFF_FFFF then 0 else j.referenceCount + 1)
  }

  /**
    Decrement the 32-bit reference count; the job is handed back to the
    job system for freeing exactly when this decrement reaches zero.
   */
  function Release(j: Job): (r: Released)
    ensures r.freeJob <==> j.referenceCount == 1
    ensures (r.job.referenceCount + 1) % 0x1_0000_0000 == j.referenceCount
    ensures r.job.(referenceCount := j.referenceCount) == j
  {
    var count := if j.referenceCount == 0 then 0xFFFF_FFFF else j.referenceCount - 1;
    Released(j.(referenceCount := count), count == 0)
  }

  /** Taking a reference and dropping it again restores the job. */
  lemma ReleaseUndoesAddRef(j: Job)
    ensures Release(AddRef(j)).job == j
    ensures Release(AddRef(j)).freeJob <==> j.referenceCount == 0
  {
  }

  /** Dropping a reference and taking it again restores the job. */
  lemma AddRefUndoesRelease(j: Job)
    ensures AddRef(Release(j).job) == j
  {
  }

  // ---------------------------------------------------------------------
  // Dependencies

  datatype Removal = Removal(job: Job, reachedZero: bool)

  /**
    Add `count` dependencies. Only legal while dependencies are pending;
    the new count must stay a dependency count.
   */
  function AddDependency(j: Job, count: nat): (r: Checked<Job>)
    ensures !IsPending(j) ==> r == Violated(DependencyAfterZero)
    ensures IsPending(j) && j.numDependencies + count >= DoneState ==> r == Violated(DependencyOverflow)
    ensures IsPending(j) && j.numDependencies + count < DoneState ==>
              r == Ok(j.(numDependencies := j.numDependencies + count))
    ensures r.Ok? ==> IsPending(r.value) && r.value.numDependencies == j.numDependencies + count
    ensures r.Ok? ==> r.value.(numDependencies := j.numDependencies) == j
  {
    if !IsPending(j) then Violated(DependencyAfterZero)
    else if j.numDependencies + count >= DoneState then Violated(DependencyOverflow)
    else Ok(j.(numDependencies := j.numDependencies + count))
  }

  /**
    Remove `count` dependencies; reports whether the counter reached zero.
    Only legal while dependencies are pending, and never below zero.
   */
  function RemoveDependency(j: Job, count: nat): (r: Checked<Removal>)
    ensures !IsPending(j) ==> r == Violated(DependencyAfterZero)
    ensures IsPending(j) && count > j.numDependencies ==> r == Violated(RemovedBeyondZero)
    ensures IsPending(j) && count <= j.numDependencies ==> r.Ok?
    ensures r.Ok? ==> r.value.job.numDependencies + count == j.numDependencies
    ensures r.Ok? ==> r.value.job.(numDependencies := j.numDependencies) == j
    ensures r.Ok? ==> (r.value.reachedZero <==> CanBeExecuted(r.value.job))
    ensures r.Ok? && !r.value.reachedZero ==> IsPending(r.value.job)
  {
    if !IsPending(j) then Violated(DependencyAfterZero)
    else if count > j.numDependencies then Violated(RemovedBeyondZero)
    else
      var left := j.numDependencies - count;
      Ok(Removal(j.(numDependencies := left), left == 0))
  }

  /** Adding dependencies and removing as many again is a round trip. */
  lemma RemoveUndoesAdd(j: Job, count: nat)
    requires AddDependency(j, count).Ok?
    ensures RemoveDependency(AddDependency(j, count).value, count) == Ok(Removal(j, false))
  {
  }

  /** Once the counter has reached zero no dependency may be added or removed. */
  lemma NoDependencyChangeAfterZero(j: Job, count: nat, more: nat)
    requires RemoveDependency(j, count).Ok? && RemoveDependency(j, count).value.reachedZero
    ensures AddDependency(RemoveDependency(j, count).value.job, more) == Violated(DependencyAfterZero)
    ensures RemoveDependency(RemoveDependency(j, count).value.job, more) == Violated(DependencyAfterZero)
  {
  }

  /**
    The job after `k` successive single-dependency removals, and how many
    of those removals reported reaching zero.
   */
  function RemoveOneTimes(j: Job, k: nat): Checked<(Job, nat)>
  {
    if k == 0 then Ok((j, 0))
    else
      match RemoveOneTimes(j, k - 1)
      case Violated(v) => Violated(v)
      case Ok((before, zeros)) =>
        match RemoveDependency(before, 1)
        case Violated(v) => Violated(v)
        case Ok(removal) => Ok((removal.job, zeros + if removal.reachedZero then 1 else 0))
  }

  /**
    Removing one dependency at a time from a job with n pending: after k <= n
    removals n - k remain, and exactly the n-th removal reports reaching
    zero, so the job is queued exactly once; a further removal is refused.
   */
  lemma {:induction false} CountdownReachesZeroOnce(j: Job, k: nat)
    requires IsPending(j)
    ensures k <= j.numDependencies ==>
      RemoveOneTimes(j, k) == Ok((j.(numDependencies := j.numDependencies - k), if k == j.numDependencies then 1 else 0))
    ensures k > j.numDependencies ==> RemoveOneTimes(j, k).Violated?
  {
    if k > 0 {
      CountdownReachesZeroOnce(j, k - 1);
    }
  }

  // ---------------------------------------------------------------------
  // Execution, one atomic step at a time

  datatype Claim = Claim(job: Job, claimed: bool, observed: UInt32)

  /** First step of Execute: move the counter from 0 to the executing state. */
  function TryClaim(j: Job): (r: Claim)
    ensures r.claimed <==> CanBeExecuted(j)
    ensures r.observed == j.numDependencies
    ensures r.claimed ==> r.job == j.(numDependencies := ExecutingState)
    ensures !r.claimed ==> r.job == j
  {
    var cas := CompareExchange(j.numDependencies, 0, ExecutingState);
    Claim(j.(numDependencies := cas.stored), cas.success, cas.observed)
  }

  /** Call the (opaque) job function once; the job's own words are untouched. */
  function RunFunction(j: Job): (r: Job)
    ensures r.invocations == j.invocations + 1
    ensures r.(invocations := j.invocations) == j
  {
    j.(invocations := j.invocations + 1)
  }

  datatype Taken = Taken(job: Job, barrier: BarrierField)

  /**
    Swap the barrier field for the "done" sentinel, keeping what it held,
    so that no barrier can attach once the job is about to finish. The
    source retries a compare-and-swap until it succeeds; here that loop is
    one atomic exchange.
   */
  function TakeBarrier(j: Job): (r: Taken)
    ensures r.barrier == j.barrier
    ensures r.job == j.(barrier := BarrierDone)
  {
    var cas := CompareExchange(j.barrier, j.barrier, BarrierDone);
    Taken(j.(barrier := cas.stored), cas.observed)
  }

  /** Move the counter from the executing state to the done state. */
  function MarkDone(j: Job): (r: Claim)
    ensures r.claimed <==> j.numDependencies == ExecutingState
    ensures r.observed == j.numDependencies
    ensures r.claimed ==> r.job == j.(numDependencies := DoneState) && IsDone(r.job)
    ensures !r.claimed ==> r.job == j
  {
    var cas := CompareExchange(j.numDependencies, ExecutingState, DoneState);
    Claim(j.(numDependencies := cas.stored), cas.success, cas.observed)
  }

  /** One completion callback: which barrier is told, and the job as it sees it. */
  datatype Notification = Notification(barrier: BarrierId, observed: Job)

  /** The completion callback, made only when a barrier was taken. */
  function Notify(taken: BarrierField, j: Job): (r: Option<Notification>)
    ensures r.Some? <==> taken.Attached?
    ensures r.Some? ==> r.value.barrier == taken.id && r.value.observed == j
  {
    match taken
    case Attached(b) => Some(Notification(b, j))
    case _ => None
  }

  datatype ExecuteResult = ExecuteResult(job: Job, returned: UInt32, notified: Option<Notification>)

  /**
    Associate the job with a barrier. Succeeds only if no barrier is set;
    answers false once the job has finished; a job already belonging to a
    barrier is a usage error.
   */
  function SetBarrier(j: Job, b: BarrierId): (r: Checked<(Job, bool)>)
    ensures j.barrier == NoBarrier ==> r == Ok((j.(barrier := Attached(b)), true))
    ensures j.barrier == BarrierDone ==> r == Ok((j, false))
    ensures j.barrier.Attached? ==> r == Violated(InOtherBarrier)
  {
    var cas := CompareExchange(j.barrier, NoBarrier, Attached(b));
    if cas.success then Ok((j.(barrier := cas.stored), true))
    else if cas.observed == BarrierDone then Ok((j, false))
    else Violated(InOtherBarrier)
  }

  /**
    Run the job if its counter is zero, all its steps in one go: claim it,
    call the function, take the barrier, mark the job done, then notify the
    taken barrier. Returns the counter value seen when the job did not run,
    and the done state when it did.
   */
  function Execute(j: Job): (r: Checked<ExecuteResult>)
    ensures !CanBeExecuted(j) ==> r == Ok(ExecuteResult(j, j.numDependencies, None))
    ensures CanBeExecuted(j) && j.barrier == BarrierDone ==> r == Violated(BarrierAlreadyDone)
    ensures CanBeExecuted(j) && j.barrier != BarrierDone ==>
      && r.Ok?
      && r.value.returned == DoneState
      && IsDone(r.value.job)
      && r.value.job.barrier == BarrierDone
      && r.value.job.invocations == j.invocations + 1
      && r.value.job.referenceCount == j.referenceCount
      && (r.value.notified.Some? <==> j.barrier.Attached?)
      && (r.value.notified.Some? ==> r.value.notified.value == Notification(j.barrier.id, r.value.job))
  {
    var claim := TryClaim(j);
    if !claim.claimed then Ok(ExecuteResult(j, claim.observed, None))
    else
      var taken := TakeBarrier(RunFunction(claim.job));
      if taken.barrier == BarrierDone then Violated(BarrierAlreadyDone)
      else
        var done := MarkDone(taken.job);
        if !done.claimed then Violated(NotExecuting)
        else Ok(ExecuteResult(done.job, DoneState, Notify(taken.barrier, done.job)))
  }

  /**
    A job runs at most once: executing it again after a successful run
    calls nothing and returns the done state, and a barrier can no longer
    attach to it.
   */
  lemma ExecuteAtMostOnce(j: Job, b: BarrierId)
    requires Execute(j).Ok? && CanBeExecuted(j)
    ensures Execute(Execute(j).value.job) == Ok(ExecuteResult(Execute(j).value.job, DoneState, None))
    ensures SetBarrier(Execute(j).value.job, b) == Ok((Execute(j).value.job, false))
    ensures Execute(j).value.job.invocations == j.invocations + 1
  {
  }

  /** The barrier callback only ever sees the job in its done state. */
  lemma NotifiedJobIsDone(j: Job)
    requires Execute(j).Ok? && Execute(j).value.notified.Some?
    ensures IsDone(Execute(j).value.notified.value.observed)
    ensures j.barrier == Attached(Execute(j).value.notified.value.barrier)
  {
  }
}
