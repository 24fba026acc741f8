/**
  Job handles: shared references to jobs held by client code.

  Jobs live in a pool keyed by identity; a handle is either empty or the
  identity of a job in the pool. Copying a handle takes a reference and
  dropping one releases it; the job system frees the job (removes it from
  the pool) when the last reference goes. Dependency calls through a
  handle forward to the job; a removal that reaches zero queues the job,
  which is recorded as the list of jobs handed to the queue.
 */
module JobHandles {
  import opened Jobs

  type JobId = nat

  /** The live jobs, by identity. */
  type Pool = map<JobId, Job>

  datatype JobHandle = Empty | Handle(id: JobId)

  /** A handle is usable against a pool when it is empty or names a live job. */
  predicate Live(pool: Pool, h: JobHandle) {
    h.Empty? || h.id in pool
  }

  predicate AllLive(pool: Pool, handles: seq<JobHandle>) {
    forall i :: 0 <= i < |handles| ==> Live(pool, handles[i])
  }

  /** The handle refers to a job. */
  predicate IsValid(h: JobHandle)
    ensures IsValid(h) <==> h != Empty
  {
    h.Handle?
  }

  /** The handle refers to a job and that job has finished. */
  predicate IsDone(pool: Pool, h: JobHandle)
    requires Live(pool, h)
    ensures IsDone(pool, h) ==> IsValid(h) && !CanBeExecuted(pool[h.id]) && !IsPending(pool[h.id])
  {
    h.Handle? && Jobs.IsDone(pool[h.id])
  }

  /**
    The queries on a handle are null-safe: an empty handle is neither valid
    nor done, and a valid handle is done exactly when its job is.
   */
  lemma HandleQueries(pool: Pool, h: JobHandle)
    requires Live(pool, h)
    ensures IsValid(h) <==> h != Empty
    ensures !IsValid(h) ==> !IsDone(pool, h)
    ensures IsValid(h) ==> (IsDone(pool, h) <==> pool[h.id].numDependencies == DoneState)
    ensures IsDone(pool, h) ==> !CanBeExecuted(pool[h.id])
  {
  }

  // ---------------------------------------------------------------------
  // Reference counting through handles

  /** Copy a handle: the job it names gains a reference. */
  function CopyHandle(pool: Pool, h: JobHandle): (r: Pool)
    requires Live(pool, h)
    ensures r.Keys == pool.Keys
    ensures h.Handle? ==> r[h.id].referenceCount == (pool[h.id].referenceCount + 1) % 0x1_0000_0000
    ensures h.Handle? ==> r[h.id].(referenceCount := pool[h.id].referenceCount) == pool[h.id]
    ensures forall id :: id in pool && (h.Empty? || id != h.id) ==> r[id] == pool[id]
  {
    if h.Empty? then pool else pool[h.id := AddRef(pool[h.id])]
  }

  datatype Dropped = Dropped(pool: Pool, freed: seq<JobId>)

  /**
    Drop a handle: the job it names loses a reference and is freed, that
    is removed from the pool and reported, exactly when that was its last
    reference.
   */
  function DropHandle(pool: Pool, h: JobHandle): (r: Dropped)
    requires Live(pool, h)
    ensures h.Empty? ==> r == Dropped(pool, [])
    ensures h.Handle? ==> (h.id !in r.pool <==> pool[h.id].referenceCount == 1)
    ensures h.Handle? ==> (r.freed == [h.id] <==> pool[h.id].referenceCount == 1)
    ensures h.Handle? && pool[h.id].referenceCount != 1 ==> r.freed == []
    ensures h.Handle? && pool[h.id].referenceCount != 1 ==>
              (r.pool[h.id].referenceCount + 1) % 0x1_0000_0000 == pool[h.id].referenceCount
              && r.pool[h.id].(referenceCount := pool[h.id].referenceCount) == pool[h.id]
    ensures r.pool.Keys <= pool.Keys
    ensures forall id :: id in pool && (h.Empty? || id != h.id) ==> id in r.pool && r.pool[id] == pool[id]
  {
    if h.Empty? then Dropped(pool, [])
    else
      var released := Release(pool[h.id]);
      if released.freeJob then Dropped(pool - {h.id}, [h.id])
      else Dropped(pool[h.id := released.job], [])
  }

  /** Copying a handle and dropping the copy leaves the pool as it was. */
  lemma DropUndoesCopy(pool: Pool, h: JobHandle)
    requires Live(pool, h)
    requires h.Handle? ==> pool[h.id].referenceCount != 0
    ensures DropHandle(CopyHandle(pool, h), h) == Dropped(pool, [])
  {
  }

  // ---------------------------------------------------------------------
  // Dependencies through handles

  /** Add dependencies to the job a handle names; an empty handle is an error. */
  function AddDependency(pool: Pool, h: JobHandle, count: nat): (r: Checked<Pool>)
    requires Live(pool, h)
    ensures h.Empty? ==> r == Violated(NullDereference)
    ensures h.Handle? ==> (r.Ok? <==> Jobs.AddDependency(pool[h.id], count).Ok?)
    ensures r.Ok? ==> r.value == pool[h.id := Jobs.AddDependency(pool[h.id], count).value]
  {
    if h.Empty? then Violated(NullDereference)
    else
      match Jobs.AddDependency(pool[h.id], count)
      case Violated(v) => Violated(v)
      case Ok(job) => Ok(pool[h.id := job])
  }

  /** A pool after dependency removals, and the jobs handed to the queue, in order. */
  datatype Removed = Removed(pool: Pool, queued: seq<JobId>)

  /**
    Remove dependencies from the job a handle names, and queue the job if
    its counter reached zero; an empty handle is an error.
   */
  function RemoveDependency(pool: Pool, h: JobHandle, count: nat): (r: Checked<Removed>)
    requires Live(pool, h)
    ensures h.Empty? ==> r == Violated(NullDereference)
    ensures h.Handle? ==> (r.Ok? <==> Jobs.RemoveDependency(pool[h.id], count).Ok?)
    ensures r.Ok? ==> r.value.pool.Keys == pool.Keys
    ensures r.Ok? ==> r.value.pool == pool[h.id := Jobs.RemoveDependency(pool[h.id], count).value.job]
    ensures r.Ok? ==> (r.value.queued == [h.id] <==> CanBeExecuted(r.value.pool[h.id]))
    ensures r.Ok? && !CanBeExecuted(r.value.pool[h.id]) ==> r.value.queued == []
  {
    if h.Empty? then Violated(NullDereference)
    else
      match Jobs.RemoveDependency(pool[h.id], count)
      case Violated(v) => Violated(v)
      case Ok(removal) => Ok(Removed(pool[h.id := removal.job], if removal.reachedZero then [h.id] else []))
  }

  /** One more handle's removal after earlier ones; its queued job joins the list. */
  function Extend(before: Removed, h: JobHandle, count: nat): (r: Checked<Removed>)
    requires Live(before.pool, h)
    ensures r.Ok? ==> r.value.pool.Keys == before.pool.Keys
  {
    match RemoveDependency(before.pool, h, count)
    case Violated(v) => Violated(v)
    case Ok(step) => Ok(Removed(step.pool, before.queued + step.queued))
  }

  /**
    The reference behaviour of a batch removal: the handles' removals one
    after another, the first usage error ending the batch.
   */
  function RemoveEach(pool: Pool, handles: seq<JobHandle>, count: nat): (r: Checked<Removed>)
    requires AllLive(pool, handles)
    ensures r.Ok? ==> r.value.pool.Keys == pool.Keys
  {
    if |handles| == 0 then Ok(Removed(pool, []))
    else
      match RemoveEach(pool, handles[..|handles| - 1], count)
      case Violated(v) => Violated(v)
      case Ok(before) => Extend(before, handles[|handles| - 1], count)
  }

  /** The sequential removals over one more handle. */
  lemma RemoveEachExtend(pool: Pool, handles: seq<JobHandle>, i: nat, count: nat)
    requires AllLive(pool, handles) && i < |handles|
    requires RemoveEach(pool, handles[..i], count).Ok?
    ensures Live(RemoveEach(pool, handles[..i], count).value.pool, handles[i])
    ensures RemoveEach(pool, handles[..i + 1], count) == Extend(RemoveEach(pool, handles[..i], count).value, handles[i], count)
  {
    assert handles[..i + 1][..i] == handles[..i];
  }

  /** A usage error ends the batch: handles after it change nothing. */
  lemma {:induction false} RemoveEachStopsAtViolation(pool: Pool, handles: seq<JobHandle>, k: nat, count: nat)
    requires AllLive(pool, handles) && k <= |handles|
    requires RemoveEach(pool, handles[..k], count).Violated?
    ensures RemoveEach(pool, handles, count) == RemoveEach(pool, handles[..k], count)
  {
    if k < |handles| {
      var prefix := handles[..|handles| - 1];
      assert prefix[..k] == handles[..k];
      RemoveEachStopsAtViolation(pool, prefix, k, count);
    } else {
      assert handles[..k] == handles;
    }
  }

  /**
    What a successful batch of removals did: exactly the jobs whose counter
    went from nonzero to zero are queued, each once; a job no handle names
    is untouched, and every job a handle names still had pending
    dependencies before the batch.
   */
  ghost predicate QueuedExactlyReached(pool: Pool, handles: seq<JobHandle>, result: Removed) {
    && result.pool.Keys == pool.Keys
    && (forall i, j :: 0 <= i < j < |result.queued| ==> result.queued[i] != result.queued[j])
    && (forall id :: id in result.queued ==>
          id in pool && pool[id].numDependencies != 0 && CanBeExecuted(result.pool[id]))
    && (forall id :: id in pool && pool[id].numDependencies != 0 && CanBeExecuted(result.pool[id]) ==>
          id in result.queued)
    && (forall id :: id in pool && Handle(id) !in handles ==> result.pool[id] == pool[id])
    && (forall id :: id in pool && Handle(id) in handles ==> IsPending(pool[id]))
  }

  /** One more successful removal keeps the batch's bookkeeping exact. */
  lemma ExtendKeepsQueuedExactlyReached(pool: Pool, prefix: seq<JobHandle>, before: Removed, last: JobHandle, count: nat)
    requires QueuedExactlyReached(pool, prefix, before)
    requires Live(before.pool, last)
    requires Extend(before, last, count).Ok?
    ensures QueuedExactlyReached(pool, prefix + [last], Extend(before, last, count).value)
  {
  }

  /**
    A batch of removals that trips no usage error queues exactly the jobs
    whose counter it brought to zero, each exactly once, touches no job
    that no handle names, and only touched jobs that still had pending
    dependencies.
   */
  lemma {:induction false} RemoveEachQueuesOncePerJob(pool: Pool, handles: seq<JobHandle>, count: nat)
    requires AllLive(pool, handles)
    requires RemoveEach(pool, handles, count).Ok?
    ensures QueuedExactlyReached(pool, handles, RemoveEach(pool, handles, count).value)
  {
    if |handles| > 0 {
      var prefix := handles[..|handles| - 1];
      assert handles == prefix + [handles[|handles| - 1]];
      RemoveEachQueuesOncePerJob(pool, prefix, count);
      ExtendKeepsQueuedExactlyReached(pool, prefix, RemoveEach(pool, prefix, count).value, handles[|handles| - 1], count);
    }
  }

  /**
    Remove dependencies from a batch of jobs at once: every counter is
    decremented in turn, the jobs whose counter reached zero are collected,
    and the collection is handed to the queue in one go at the end. Behaves
    exactly as removing from each handle in turn.
   */
  method RemoveDependencies(pool: Pool, handles: seq<JobHandle>, count: nat) returns (r: Checked<Removed>)
    requires AllLive(pool, handles)
    ensures r == RemoveEach(pool, handles, count)
  {
    var current := pool;
    var ready: seq<JobId> := [];
    var i := 0;
    while i < |handles|
      invariant 0 <= i <= |handles|
      invariant RemoveEach(pool, handles[..i], count) == Ok(Removed(current, ready))
      invariant current.Keys == pool.Keys
    {
      RemoveEachExtend(pool, handles, i, count);
      var h := handles[i];
      if h.Empty? {
        RemoveEachStopsAtViolation(pool, handles, i + 1, count);
        return Violated(NullDereference);
      }
      var removal := Jobs.RemoveDependency(current[h.id], count);
      if removal.Violated? {
        RemoveEachStopsAtViolation(pool, handles, i + 1, count);
        return Violated(removal.violation);
      }
      ghost var step := Removed(current[h.id := removal.value.job], if removal.value.reachedZero then [h.id] else []);
      assert RemoveDependency(current, h, count) == Ok(step);
      current := current[h.id := removal.value.job];
      if removal.value.reachedZero {
        ready := ready + [h.id];
      } else {
        assert ready + [] == ready;
      }
      assert Ok(Removed(current, ready)) == Extend(RemoveEach(pool, handles[..i], count).value, h, count);
      i := i + 1;
    }
    assert handles[..|handles|] == handles;
    // the collected jobs are queued together
    r := Ok(Removed(current, ready));
  }
}
