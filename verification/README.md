# Job lifecycle and distinct colours of the Jolt Physics core, in Dafny

This project models two small, self-contained parts of the Jolt Physics
engine's core library and proves properties of them.

**The per-job protocol of the job system** (`Jolt/Core/JobSystem.h`). A job
keeps its whole lifecycle in two atomic words. The first is the dependency
counter. It holds the number of outstanding dependencies, or the sentinel
`0xe0e0e0e0` (executing), or the sentinel `0xd0d0d0d0` (done). The second is
the barrier field. It holds no barrier, the one barrier the job belongs to,
or a "barrier done" sentinel. A third word, the reference count, decides
when the job system frees the job.

- `job.dfy` (module `Jobs`) defines the job record and each atomic step as a
  pure function. Every `compare_exchange_strong` is one call of
  `CompareExchange`. It also gives the all-in-one-go `Execute`, `SetBarrier`,
  the reference count and the dependency operations.
- `job_handle.dfy` (module `JobHandles`) defines handles over a pool of jobs
  keyed by identity. It covers the null-safe queries, taking and dropping
  references, dependency calls through a handle, and batch removal of
  dependencies.
- `job_protocol.dfy` (module `JobProtocol`) lets any number of threads
  interleave the atomic steps of `Execute` with `SetBarrier` and dependency
  calls. An invariant over every reachable state yields the headline
  properties:
  - the job function runs at most once;
  - no barrier attaches after completion;
  - the barrier callback happens exactly once and only after the job reads
    as done;
  - the job is queued once;
  - the debug assertions inside `Execute` never fire.

**The distinct-colour palette** (`Jolt/Core/Color.cpp`). `color.dfy`
(module `Colors`) holds the predefined colour constants, the 36-entry
palette and the wrap-around lookup `GetDistinctColor`.

Outside effects are recorded, not performed:
- the job function is opaque and only counted (`invocations`);
- `OnJobFinished` is a `Notification` that records the barrier and the job
  as the barrier sees it;
- `QueueJob`/`QueueJobs` are lists of queued job identities, or a count;
- `FreeJob` removes the job from the pool.

A call that breaks the job's rules ends in the value `Violated(...)`
instead of a result. The rules come from three places:
- debug assertions in the source: joining a second barrier, and the two
  assertions inside `Execute`;
- the doc comments: adding or removing dependencies after the counter
  reached zero;
- the model itself, where the source leaves the behaviour open: removing
  below zero, adding up into the sentinel range, and a dependency call
  through an empty handle. The source dereferences such a handle without
  a check (`Jolt/Core/JobSystem.h:71`, `:75`).

The palette lookup's assertion on a non-negative index is a precondition
of `GetDistinctColor`, not a `Violated` value.

Notes on the model:
- `JobSystem.inl`, which holds the bodies of `AddDependency`,
  `RemoveDependency`, `RemoveDependencyAndQueue` and `sRemoveDependencies`,
  is not part of this model. These operations follow their doc comments:
  - a removal reports reaching zero exactly when the counter becomes 0;
  - after that, adding or removing is a usage error.
  The two rules this model adds on top of them are listed under "Left out".
- The job constructor accepts any 32-bit count. `NewJob`'s contract shows
  that a job created with `0xd0d0d0d0` dependencies reads as done at once,
  because nothing guards against it.
- `Release` frees the job whenever the count drops from 1 to 0, whatever
  the job's state; it never checks that the job is done. The documented
  promise that a queued or running job is not deleted
  (`Jolt/Core/JobSystem.h:47-48`) rests on the queue holding its own
  reference, and the queue is outside the model. The model follows the
  code.
- `Reference.h` is not part of this model. Copying a handle is modelled as
  `AddRef` on its job and dropping one as `Release`, as the doc comment of
  `JobHandle` describes.

## Model

| member | source | states |
|---|---|---|
| `Colors.GetDistinctColor` | Jolt/Core/Color.cpp:30-35 | needs a non-negative index; the result is always one of the palette's colours, and for an index below 36 it is the entry at that index |
| `Colors.PaletteShape` | Jolt/Core/Color.cpp:28-34 | the palette has 36 entries and index 0 gives pure red (255, 0, 0) |
| `Colors.DistinctColorsAreDistinct` | Jolt/Core/Color.cpp:27-28 | no colour occurs twice in the palette |
| `Colors.DistinctColorPeriodic` | Jolt/Core/Color.cpp:34 | index i and index i + 36 give the same colour |
| `Colors.DistinctColorPeriodicMultiple` | Jolt/Core/Color.cpp:34 | index i and index i + 36k give the same colour, for every k |
| `Colors.SameDistinctColorIffCongruent` | Jolt/Core/Color.cpp:28-34 | two indices give the same colour if and only if they are congruent modulo 36 |
| `Colors.PredefinedColors` | Jolt/Core/Color.cpp:11-25 | the 15 predefined colours are pairwise distinct; black, grey, light grey and white are exactly the grey ones among them, from 0 through 128 and 192 to 255; red is the first palette colour |
| `Jobs.CompareExchange` | Jolt/Core/JobSystem.h:176 | a compare-and-swap succeeds exactly when the word holds the expected value; it then stores the desired value, otherwise leaves the word unchanged, and in both cases reports the old value |
| `Jobs.NewJob` | Jolt/Core/JobSystem.h:142-152 | a fresh job has reference count 0, the requested counter, no barrier and no run; it can be executed exactly when it was created with 0 dependencies, and it reads as done exactly when the count equals the done sentinel |
| `Jobs.CanBeExecuted` | Jolt/Core/JobSystem.h:218-219 | a job that can be executed has no pending dependency and is not executing |
| `Jobs.IsDone` | Jolt/Core/JobSystem.h:221-222 | a done job can neither be executed nor take dependencies, and is not executing |
| `Jobs.StatesAreExclusive` | Jolt/Core/JobSystem.h:219-225 | the two sentinels are distinct and nonzero, so no job is both executable and done, and a pending job is neither |
| `Jobs.AddRef` | Jolt/Core/JobSystem.h:158 | the reference count goes up by one modulo 2^32 and nothing else changes |
| `Jobs.Release` | Jolt/Core/JobSystem.h:159 | the reference count goes down by one modulo 2^32; the job is handed back for freeing if and only if the count was 1 |
| `Jobs.ReleaseUndoesAddRef` | Jolt/Core/JobSystem.h:158-159 | releasing right after taking a reference restores the job; that release frees it only if the count had been 0 |
| `Jobs.AddRefUndoesRelease` | Jolt/Core/JobSystem.h:158-159 | taking a reference right after releasing one restores the job |
| `Jobs.AddDependency` | Jolt/Core/JobSystem.h:161-162 | adding is a usage error once the counter has left the pending range; an addition to a pending job that stays below the sentinels succeeds, the counter grows by the count and nothing else changes |
| `Jobs.RemoveDependency` | Jolt/Core/JobSystem.h:164-166 | removing is a usage error once the counter has left the pending range or would go below zero; otherwise the counter shrinks by the count, and the call reports reaching zero if and only if the job became executable |
| `Jobs.RemoveUndoesAdd` | Jolt/Core/JobSystem.h:161-166 | removing as many dependencies as were just added restores the job and does not report reaching zero |
| `Jobs.NoDependencyChangeAfterZero` | Jolt/Core/JobSystem.h:164-165 | after a removal that reached zero, every further add or remove is refused |
| `Jobs.CountdownReachesZeroOnce` | Jolt/Core/JobSystem.h:73-75 | removing single dependencies n times from a job with n pending: exactly the n-th removal reports zero, so the job is queued exactly once; a further removal is refused |
| `Jobs.TryClaim` | Jolt/Core/JobSystem.h:185-188 | the claiming compare-and-swap succeeds if and only if the counter is 0, and then moves it to the executing sentinel; when it fails, the job is unchanged and the observed counter is reported |
| `Jobs.RunFunction` | Jolt/Core/JobSystem.h:190-194 | running the job function counts one more call and leaves the job's counter, barrier field and reference count as they were |
| `Jobs.TakeBarrier` | Jolt/Core/JobSystem.h:196-203 | the barrier field is exchanged for the done sentinel, and its old value is handed back |
| `Jobs.MarkDone` | Jolt/Core/JobSystem.h:206-209 | the second compare-and-swap succeeds if and only if the counter is in the executing state, and then the job reads as done |
| `Jobs.Notify` | Jolt/Core/JobSystem.h:211-213 | a completion callback is made if and only if a barrier was taken, and it goes to that barrier |
| `Jobs.SetBarrier` | Jolt/Core/JobSystem.h:172-180 | with no barrier set, the barrier is stored and true returned; once the barrier field holds the done sentinel, false is returned and nothing changes; a job already in a barrier is a usage error |
| `Jobs.Execute` | Jolt/Core/JobSystem.h:182-216 | a job whose counter is not 0 is left unchanged and the counter is returned; otherwise the function runs once, the counter ends at the done sentinel, the barrier field ends at the barrier-done sentinel, the done sentinel is returned, and the barrier set before (only that one) is notified with the job already done |
| `Jobs.ExecuteAtMostOnce` | Jolt/Core/JobSystem.h:186-188 | after a successful run, executing again returns the done sentinel and runs nothing, and `SetBarrier` answers false without change |
| `Jobs.NotifiedJobIsDone` | Jolt/Core/JobSystem.h:206-213 | a barrier callback sees the job done, and goes to the barrier that was set |
| `JobHandles.HandleQueries` | Jolt/Core/JobSystem.h:64-68 | a handle is valid if and only if it is non-empty; an empty handle is never done; a valid handle is done exactly when its job's counter is the done sentinel, and then the job is not executable |
| `JobHandles.IsValid` | Jolt/Core/JobSystem.h:64-65 | a handle is valid exactly when it is not empty |
| `JobHandles.IsDone` | Jolt/Core/JobSystem.h:67-68 | a handle that reads as done is valid, and its job can neither be executed nor take dependencies |
| `JobHandles.CopyHandle` | Jolt/Core/JobSystem.h:47-54 | copying a handle raises its job's reference count by one modulo 2^32 and changes nothing else about that job, and leaves every other job and the set of live jobs alone |
| `JobHandles.DropHandle` | Jolt/Core/JobSystem.h:47-48 | dropping a handle frees its job, removing it from the pool and reporting it, if and only if that was the last reference; a job that survives has its reference count lowered by one modulo 2^32 and nothing else changed; no other job changes |
| `JobHandles.DropUndoesCopy` | Jolt/Core/JobSystem.h:47-48 | copying a handle that holds a reference and dropping the copy leaves the pool as it was, with nothing freed |
| `JobHandles.AddDependency` | Jolt/Core/JobSystem.h:70-71 | adding through an empty handle is an error; otherwise it succeeds exactly when the job accepts it, and only that job changes |
| `JobHandles.RemoveDependency` | Jolt/Core/JobSystem.h:73-75 | removing through an empty handle is an error; otherwise only the named job changes, and it is queued if and only if its counter reached zero |
| `JobHandles.RemoveEachStopsAtViolation` | Jolt/Core/JobSystem.h:77-78 | once a removal in the batch trips a usage error, later handles change nothing |
| `JobHandles.RemoveEachQueuesOncePerJob` | Jolt/Core/JobSystem.h:73-78 | a batch of removals queues exactly the jobs whose counter it brought from nonzero to zero, each exactly once; it leaves jobs no handle names untouched and touches only jobs that still had pending dependencies |
| `JobHandles.RemoveDependencies` | Jolt/Core/JobSystem.h:77-78 | the batch removal decrements each named job's counter directly, collects the jobs that reached zero and hands them over once at the end; it ends exactly as removing through each handle in turn: the same jobs, the same jobs queued in the same order, and the same usage error if one trips |
| `JobProtocol.Init` | Jolt/Core/JobSystem.h:123-125 | a job created with n dependencies starts as the constructor leaves it, with no thread inside Execute, no barrier accepted, no callback and no return value; it is queued once straight away if n is 0 and not at all otherwise |
| `JobProtocol.ExecuteStepOf` | Jolt/Core/JobSystem.h:183-216 | one atomic step of `Execute` by one thread: the claim moves the counter to the executing sentinel exactly when it is 0, and otherwise changes nothing and records the counter it saw; the next step runs the function once; the barrier step stores the done sentinel in the barrier field; the done step stores the done sentinel in the counter; the last step calls back the taken barrier, if any, with the job as it is, and returns the done sentinel; the barrier step trips its assertion exactly when the field already holds the done sentinel, and the done step exactly when the counter is no longer executing; no other thread moves, no barrier is accepted, nothing is queued |
| `JobProtocol.Next` | Jolt/Core/JobSystem.h:161-180 | one action: an execute step is that thread's step; a client call moves no thread, runs nothing and makes no callback; `SetBarrier` is accepted and recorded with no barrier set, refused unchanged once the field holds the done sentinel, and an error when another barrier is set; an add succeeds exactly when the job accepts it; a removal succeeds exactly when the job accepts it, lowers the counter by the count, queues the job exactly when the counter reached zero, and changes nothing else (in particular not the barrier field) |
| `JobProtocol.RunPreservesInv` | Jolt/Core/JobSystem.h:173-216 | every interleaving of execute steps, barrier attachment and dependency calls keeps the protocol invariant |
| `JobProtocol.ExecuteNeverViolates` | Jolt/Core/JobSystem.h:204-209 | in every reachable state, each execute step succeeds: the barrier is never found already done and the counter is always executing when it is marked done |
| `JobProtocol.ExecutesAtMostOnce` | Jolt/Core/JobSystem.h:183-216 | in every interleaving: the function runs at most once, and only after the job was queued; the job is queued at most once; at most one barrier is accepted; at most one callback is made, and it sees the job done |
| `JobProtocol.NothingAfterDone` | Jolt/Core/JobSystem.h:186-188 | once the job is done and its callback made, later actions keep it done; they run nothing, attach no barrier and make no callback, and every later execute returns the done sentinel |
| `JobProtocol.CompletionNotifiesAttachedBarrier` | Jolt/Core/JobSystem.h:196-213 | when the job is done and no thread is inside execute, the function ran exactly once; a barrier accepted before completion got exactly one callback, and with no barrier there is none |
| `JobProtocol.LosingExecuteChangesNothing` | Jolt/Core/JobSystem.h:186-188 | an execute call that finds the counter nonzero changes nothing and returns the counter it saw |
| `JobProtocol.NoBarrierAttachesAfterDone` | Jolt/Core/JobSystem.h:172-180 | in a reachable state, `SetBarrier` is refused (and changes nothing) if and only if the barrier field holds the done sentinel; this holds whenever the job is done, and a refusal means the function has run and the job is done or its finishing thread has taken the barrier but not yet marked the counter |
| `JobProtocol.SetBarrierRefusedOnlyAfterRun` | Jolt/Core/JobSystem.h:172 | in every trace from a fresh job, a refused `SetBarrier` means the job function already ran, and the job is done or about to be marked done |
| `JobProtocol.BarrierRefusedBeforeDone` | Jolt/Core/JobSystem.h:196-208 | the window is reachable: after one thread claims a ready job, runs it and takes the barrier, `SetBarrier` is refused while the job does not yet read as done |
| `JobProtocol.SoloExecuteAgreesWithExecute` | Jolt/Core/JobSystem.h:183-216 | five atomic steps of one thread on a ready job end in the same job, return value and callback as the all-in-one-go `Execute` |

## Left out

- `JobSystem`'s pure virtual operations have no body in the source, so they
  are not modelled: `GetMaxConcurrency`, `CreateJob`, `CreateBarrier`,
  `DestroyBarrier`, `WaitForJobs`, `QueueJob`, `QueueJobs`, `FreeJob`.
  Queueing and freeing appear only as recorded events. `CreateJob`'s
  doc-commented rule (queue at once when there are no dependencies) appears
  in `JobProtocol.Init`.
- The `Barrier` class (`AddJob`, `AddJobs`, `OnJobFinished`) is pure
  virtual. A barrier is an identity, and `OnJobFinished` is a recorded
  `Notification`.
- Memory ordering and thread scheduling are outside the model. Each atomic
  read-modify-write is one indivisible step. The retry loop that swaps the
  barrier field is one atomic exchange, so its liveness is not modelled.
- Profiling name and colour, `GetJobSystem`, and the job function's own
  effects are left out. The function is opaque and only counted.
- `Jolt/Physics/PhysicsSystem.h` is left out. It forwards to managers
  declared in other headers, and its state is floating-point.
- `Colors.GetDistinctColor`: the palette length is fixed at the 36 listed
  entries. The source computes it as the table size over 4 bytes, which is
  36 only for a 4-byte colour; `Color.h` is not part of this model. The
  colour's alpha channel is left out for the same reason.
- `Jobs.AddDependency`: counts at or above the lower sentinel (`DoneState`)
  are not dependency counts here, so an addition that would reach them is
  refused as `DependencyOverflow`. The doc comments say nothing about this
  case; the source's own behaviour there is not modelled.
- `Jobs.AddDependency`: takes a non-negative count. The source's `int`
  parameter could be negative, and its doc comment says nothing about that
  case.
- `Jobs.RemoveDependency`: a removal that would take the counter below zero
  is refused as `RemovedBeyondZero`. The doc comments say nothing about
  this case; the source's own behaviour there is not modelled.
- `Jobs.RemoveDependency`: takes a non-negative count, for the same reason
  as `Jobs.AddDependency`.
- `JobProtocol.Init`: the interleaving model starts only from jobs created
  with fewer than `0xd0d0d0d0` dependencies. A job created with a count in
  the sentinel range reads as done or executing from the start, and the
  protocol properties are not claimed for it.
- `Jobs.SetBarrier`: a barrier is always a real identity. Passing a null
  barrier pointer is not modelled.
