/**
  One job under concurrent use, at the granularity of its atomic steps.

  Any number of threads may call Execute on the job; each call is a
  sequence of atomic steps (claim the counter, run the function, take the
  barrier, mark the job done, notify the barrier) and a thread's position
  in that sequence is its `Pc`. Between any two steps other threads may
  execute, attach a barrier, or add or remove dependencies. A trace is a
  sequence of such actions; the first usage error ends it.

  The state also records what the job has told the outside world: the
  barriers that `SetBarrier` accepted, the completion callbacks made, how
  often the job was handed to the queue, and the values Execute calls
  returned.
 */
module JobProtocol {
  import opened Jobs

  type ThreadId = nat

  /** Where a thread is inside Execute. */
  datatype Pc =
    | Idle                                  // not inside Execute
    | Claimed                               // counter moved to the executing state
    | FunctionRan                           // the job function returned
    | BarrierTaken(taken: BarrierField)     // barrier field swapped for the done sentinel
    | DoneMarked(taken: BarrierField)       // counter moved to the done state

  datatype Action =
    | ExecuteStep(thread: ThreadId)
    | SetBarrierCall(barrier: BarrierId)
    | AddDependencyCall(count: nat)
    | RemoveDependencyCall(count: nat)

  datatype State = State(
    job: Job,
    threads: map<ThreadId, Pc>,
    attached: seq<BarrierId>,        // barriers SetBarrier accepted, in order
    notified: seq<Notification>,     // completion callbacks, in order
    queued: nat,                     // times the job was handed to the queue
    returned: seq<UInt32>)           // values returned by finished Execute calls

  function PcOf(s: State, t: ThreadId): Pc {
    if t in s.threads then s.threads[t] else Idle
  }

  /**
    The job as created with `n` dependencies, no thread inside Execute;
    a job created without dependencies is queued straight away.
   */
  function Init(n: UInt32): (s: State)
    requires n < DoneState
    ensures s.job == NewJob(n)
    ensures s.queued == 1 <==> CanBeExecuted(s.job)
    ensures s.queued == (if n == 0 then 1 else 0)
    ensures forall t :: PcOf(s, t).Idle?
    ensures s.attached == [] && s.notified == [] && s.returned == []
  {
    State(NewJob(n), map[], [], [], if n == 0 then 1 else 0, [])
  }

  /**
    One atomic step of thread `t` inside Execute. Only the steps that take
    the barrier and mark the job done can trip an assertion. A step moves
    only `t` along Execute, accepts no barrier and queues nothing; the
    function runs only in the step after the claim, a callback is made only
    in the last step, and a value is returned only by a losing claim or by
    the last step.
   */
  function ExecuteStepOf(s: State, t: ThreadId): (r: Checked<State>)
    ensures r.Violated? ==> PcOf(s, t).FunctionRan? || PcOf(s, t).BarrierTaken?
    ensures PcOf(s, t).FunctionRan? ==> (r.Violated? <==> s.job.barrier == BarrierDone)
    ensures PcOf(s, t).BarrierTaken? ==> (r.Violated? <==> s.job.numDependencies != ExecutingState)
    ensures PcOf(s, t).Idle? && !CanBeExecuted(s.job) ==> r == Ok(s.(returned := s.returned + [s.job.numDependencies]))
    ensures r.Ok? ==> forall u :: u != t ==> PcOf(r.value, u) == PcOf(s, u)
    ensures r.Ok? ==> r.value.attached == s.attached && r.value.queued == s.queued
    ensures r.Ok? ==> r.value.job.referenceCount == s.job.referenceCount
    ensures r.Ok? ==> r.value.job.invocations == s.job.invocations + (if PcOf(s, t).Claimed? then 1 else 0)
    ensures r.Ok? && !PcOf(s, t).DoneMarked? ==> r.value.notified == s.notified
    ensures PcOf(s, t).Idle? ==>
              r.Ok? && (PcOf(r.value, t) == Claimed <==> CanBeExecuted(s.job))
              && (!CanBeExecuted(s.job) ==> r.value.returned == s.returned + [s.job.numDependencies])
    ensures PcOf(s, t).Claimed? ==> r.Ok? && PcOf(r.value, t) == FunctionRan
    ensures PcOf(s, t).FunctionRan? && r.Ok? ==> PcOf(r.value, t) == BarrierTaken(s.job.barrier)
    ensures PcOf(s, t).BarrierTaken? && r.Ok? ==> PcOf(r.value, t) == DoneMarked(PcOf(s, t).taken) && IsDone(r.value.job)
    ensures PcOf(s, t).DoneMarked? ==> r.Ok? && PcOf(r.value, t) == Idle && r.value.returned == s.returned + [DoneState]
    ensures r.Ok? && !PcOf(s, t).DoneMarked? && (!PcOf(s, t).Idle? || CanBeExecuted(s.job)) ==> r.value.returned == s.returned
    ensures PcOf(s, t).Idle? ==>
              r.value.job == (if CanBeExecuted(s.job) then s.job.(numDependencies := ExecutingState) else s.job)
    ensures PcOf(s, t).Claimed? ==> r.value.job == s.job.(invocations := s.job.invocations + 1)
    ensures PcOf(s, t).FunctionRan? && r.Ok? ==> r.value.job == s.job.(barrier := BarrierDone)
    ensures PcOf(s, t).BarrierTaken? && r.Ok? ==> r.value.job == s.job.(numDependencies := DoneState)
    ensures PcOf(s, t).DoneMarked? ==>
              && r.value.job == s.job
              && r.value.notified == s.notified + (if PcOf(s, t).taken.Attached? then [Notification(PcOf(s, t).taken.id, s.job)] else [])
  {
    match PcOf(s, t)
    case Idle =>
      var claim := TryClaim(s.job);
      if claim.claimed then Ok(s.(job := claim.job, threads := s.threads[t := Claimed]))
      else Ok(s.(returned := s.returned + [claim.observed]))
    case Claimed =>
      Ok(s.(job := RunFunction(s.job), threads := s.threads[t := FunctionRan]))
    case FunctionRan =>
      var taken := TakeBarrier(s.job);
      if taken.barrier == BarrierDone then Violated(BarrierAlreadyDone)
      else Ok(s.(job := taken.job, threads := s.threads[t := BarrierTaken(taken.barrier)]))
    case BarrierTaken(taken) =>
      var done := MarkDone(s.job);
      if !done.claimed then Violated(NotExecuting)
      else Ok(s.(job := done.job, threads := s.threads[t := DoneMarked(taken)]))
    case DoneMarked(taken) =>
      var note := Notify(taken, s.job);
      Ok(s.(threads := s.threads[t := Idle],
            notified := s.notified + (if note.Some? then [note.value] else []),
            returned := s.returned + [DoneState]))
  }

  /**
    One atomic action on the job: a step of Execute by some thread, or a
    client's call of SetBarrier, AddDependency or RemoveDependencyAndQueue.
    A client call moves no thread and runs nothing; an accepted barrier is
    recorded, and a removal that reaches zero queues the job.
   */
  function Next(s: State, a: Action): (r: Checked<State>)
    ensures a.ExecuteStep? ==> r == ExecuteStepOf(s, a.thread)
    ensures !a.ExecuteStep? && r.Ok? ==>
              && r.value.threads == s.threads && r.value.notified == s.notified && r.value.returned == s.returned
              && r.value.job.invocations == s.job.invocations && r.value.job.referenceCount == s.job.referenceCount
    ensures a.SetBarrierCall? ==>
              (r.Ok? <==> !s.job.barrier.Attached?)
              && (s.job.barrier.NoBarrier? ==> r == Ok(s.(job := s.job.(barrier := Attached(a.barrier)), attached := s.attached + [a.barrier])))
              && (s.job.barrier == BarrierDone ==> r == Ok(s))
    ensures a.AddDependencyCall? ==> (r.Ok? <==> AddDependency(s.job, a.count).Ok?)
    ensures a.AddDependencyCall? && r.Ok? ==> r.value == s.(job := AddDependency(s.job, a.count).value)
    ensures a.RemoveDependencyCall? ==> (r.Ok? <==> RemoveDependency(s.job, a.count).Ok?)
    ensures a.RemoveDependencyCall? && r.Ok? ==>
              && r.value.job.numDependencies + a.count == s.job.numDependencies
              && r.value.attached == s.attached
              && r.value.queued == s.queued + (if CanBeExecuted(r.value.job) then 1 else 0)
    ensures a.RemoveDependencyCall? && r.Ok? ==>
              r.value == s.(job := RemoveDependency(s.job, a.count).value.job,
                            queued := s.queued + (if RemoveDependency(s.job, a.count).value.reachedZero then 1 else 0))
  {
    match a
    case ExecuteStep(t) => ExecuteStepOf(s, t)
    case SetBarrierCall(b) =>
      (match SetBarrier(s.job, b)
       case Violated(v) => Violated(v)
       case Ok((job, accepted)) => Ok(s.(job := job, attached := if accepted then s.attached + [b] else s.attached)))
    case AddDependencyCall(k) =>
      (match AddDependency(s.job, k)
       case Violated(v) => Violated(v)
       case Ok(job) => Ok(s.(job := job)))
    case RemoveDependencyCall(k) =>
      (match RemoveDependency(s.job, k)
       case Violated(v) => Violated(v)
       case Ok(removal) => Ok(s.(job := removal.job, queued := s.queued + if removal.reachedZero then 1 else 0)))
  }

  /** The actions in order; the first usage error ends the trace. */
  function Run(s: State, actions: seq<Action>): Checked<State>
    decreases |actions|
  {
    if |actions| == 0 then Ok(s)
    else
      match Next(s, actions[0])
      case Violated(v) => Violated(v)
      case Ok(s') => Run(s', actions[1..])
  }

  // ---------------------------------------------------------------------
  // The invariant

  /** The thread is inside Execute past the claiming step. */
  predicate Owns(pc: Pc) {
    !pc.Idle?
  }

  /** What the thread carrying a taken barrier knows about the accepted barriers. */
  predicate TakenAgrees(taken: BarrierField, attached: seq<BarrierId>) {
    || (taken.NoBarrier? && attached == [])
    || (taken.Attached? && attached == [taken.id])
  }

  /** The callbacks made are exactly one per accepted barrier, in order. */
  predicate NotifiedMatches(notified: seq<Notification>, attached: seq<BarrierId>) {
    |notified| == |attached| && forall i :: 0 <= i < |notified| ==> notified[i].barrier == attached[i]
  }

  /** What a thread's position tells about the job. */
  predicate PcAgrees(s: State, pc: Pc) {
    match pc
    case Idle => true
    case Claimed =>
      s.job.numDependencies == ExecutingState && s.job.invocations == 0 && s.job.barrier != BarrierDone
    case FunctionRan =>
      s.job.numDependencies == ExecutingState && s.job.invocations == 1 && s.job.barrier != BarrierDone
    case BarrierTaken(taken) =>
      && s.job.numDependencies == ExecutingState && s.job.invocations == 1 && s.job.barrier == BarrierDone
      && TakenAgrees(taken, s.attached)
    case DoneMarked(taken) =>
      && s.job.numDependencies == DoneState && s.job.invocations == 1 && s.job.barrier == BarrierDone
      && TakenAgrees(taken, s.attached) && s.notified == []
  }

  ghost predicate Inv(s: State) {
    var c := s.job.numDependencies;
    // the counter holds a dependency count or a sentinel
    && (c < DoneState || c == ExecutingState || c == DoneState)
    // at most one thread is past the claiming step
    && (forall t1, t2 :: Owns(PcOf(s, t1)) && Owns(PcOf(s, t2)) ==> t1 == t2)
    && (forall t :: PcAgrees(s, PcOf(s, t)))
    // before the claim nothing has run
    && (c < DoneState ==> s.job.invocations == 0 && s.job.barrier != BarrierDone && s.notified == [])
    && (c == ExecutingState ==> s.job.invocations <= 1 && s.notified == [])
    // after completion the function has run once and every accepted barrier
    // is notified, unless the finishing thread has yet to make the callback
    && (c == DoneState ==>
          && s.job.invocations == 1 && s.job.barrier == BarrierDone
          && (NotifiedMatches(s.notified, s.attached) || exists t :: PcOf(s, t).DoneMarked?))
    // the barrier field reads "done" only after the function has run, and
    // before the counter is marked done the thread that swapped it is still
    // on its way
    && (s.job.barrier == BarrierDone ==> s.job.invocations == 1)
    && (s.job.barrier == BarrierDone && c == ExecutingState ==> exists t :: PcOf(s, t).BarrierTaken?)
    // the barrier field agrees with the accepted barriers
    && |s.attached| <= 1
    && (s.job.barrier.NoBarrier? ==> s.attached == [])
    && (s.job.barrier.Attached? ==> s.attached == [s.job.barrier.id])
    // the job is queued once, when its counter leaves the pending range
    && s.queued == (if IsPending(s.job) then 0 else 1)
    // callbacks see the job done
    && |s.notified| <= 1
    && (forall i :: 0 <= i < |s.notified| ==> IsDone(s.notified[i].observed))
  }

  lemma InitSatisfiesInv(n: UInt32)
    requires n < DoneState
    ensures Inv(Init(n))
  {
  }

  lemma {:induction false} ExecuteStepPreservesInv(s: State, t: ThreadId)
    requires Inv(s)
    requires ExecuteStepOf(s, t).Ok?
    ensures Inv(ExecuteStepOf(s, t).value)
  {
    var s' := ExecuteStepOf(s, t).value;
    match PcOf(s, t)
    case Idle =>
      if CanBeExecuted(s.job) {
        // nobody owned the job while its counter was zero
        forall u ensures !Owns(PcOf(s, u)) {
          assert PcAgrees(s, PcOf(s, u));
        }
        forall u | u != t ensures PcOf(s', u) == Idle {
          assert PcOf(s', u) == PcOf(s, u);
        }
      } else {
        assert s'.threads == s.threads;
        assert forall u :: PcOf(s', u) == PcOf(s, u);
        if IsDone(s.job) && !NotifiedMatches(s.notified, s.attached) {
          var w :| PcOf(s, w).DoneMarked?;
          assert PcOf(s', w).DoneMarked?;
        }
      }
    case Claimed =>
      assert PcAgrees(s, PcOf(s, t));
      OwnerStepFrame(s, t, s', FunctionRan);
    case FunctionRan =>
      assert PcAgrees(s, PcOf(s, t));
      OwnerStepFrame(s, t, s', BarrierTaken(s.job.barrier));
    case BarrierTaken(taken) =>
      assert PcAgrees(s, PcOf(s, t));
      OwnerStepFrame(s, t, s', DoneMarked(taken));
      assert PcOf(s', t).DoneMarked?;
    case DoneMarked(taken) =>
      assert PcAgrees(s, PcOf(s, t));
      OwnerStepFrame(s, t, s', Idle);
  }

  /**
    When the owning thread moves on, every other thread is still idle and
    the thread map changed only at the owner.
   */
  lemma OwnerStepFrame(s: State, t: ThreadId, s': State, pc': Pc)
    requires Inv(s) && Owns(PcOf(s, t))
    requires s'.threads == s.threads[t := pc']
    ensures forall u :: u != t ==> PcOf(s', u) == Idle
    ensures PcOf(s', t) == pc'
    ensures forall t1, t2 :: Owns(PcOf(s', t1)) && Owns(PcOf(s', t2)) ==> t1 == t2
  {
    forall u | u != t ensures PcOf(s', u) == Idle {
      assert PcOf(s', u) == PcOf(s, u);
    }
  }

  /** A step by a thread other than the one inside Execute leaves every thread where it was. */
  lemma {:induction false} ClientStepPreservesInv(s: State, a: Action)
    requires Inv(s) && !a.ExecuteStep?
    requires Next(s, a).Ok?
    ensures Inv(Next(s, a).value)
  {
    var s' := Next(s, a).value;
    assert s'.threads == s.threads;
    assert forall u :: PcOf(s', u) == PcOf(s, u);
    forall u ensures PcAgrees(s', PcOf(s', u)) {
      assert PcAgrees(s, PcOf(s, u));
    }
    if IsDone(s'.job) && !NotifiedMatches(s'.notified, s'.attached) {
      var w :| PcOf(s, w).DoneMarked?;
      assert PcOf(s', w).DoneMarked?;
    }
  }

  lemma NextPreservesInv(s: State, a: Action)
    requires Inv(s)
    requires Next(s, a).Ok?
    ensures Inv(Next(s, a).value)
  {
    if a.ExecuteStep? {
      ExecuteStepPreservesInv(s, a.thread);
    } else {
      ClientStepPreservesInv(s, a);
    }
  }

  lemma {:induction false} RunPreservesInv(s: State, actions: seq<Action>)
    requires Inv(s)
    requires Run(s, actions).Ok?
    ensures Inv(Run(s, actions).value)
    decreases |actions|
  {
    if |actions| > 0 {
      NextPreservesInv(s, actions[0]);
      RunPreservesInv(Next(s, actions[0]).value, actions[1..]);
    }
  }

  // ---------------------------------------------------------------------
  // Properties of every trace

  /**
    The assertions inside Execute never fire: in every reachable state
    each thread's next step of Execute succeeds.
   */
  lemma ExecuteNeverViolates(s: State, t: ThreadId)
    requires Inv(s)
    ensures ExecuteStepOf(s, t).Ok?
  {
    assert PcAgrees(s, PcOf(s, t));
  }

  /**
    In every trace from a fresh job: the job function runs at most once,
    and only after the job was queued; at most one barrier is accepted and
    at most one callback is made, and the callback sees the job done.
   */
  lemma ExecutesAtMostOnce(n: UInt32, actions: seq<Action>)
    requires n < DoneState
    requires Run(Init(n), actions).Ok?
    ensures Run(Init(n), actions).value.job.invocations <= 1
    ensures Run(Init(n), actions).value.job.invocations == 1 ==> Run(Init(n), actions).value.queued == 1
    ensures Run(Init(n), actions).value.queued <= 1
    ensures |Run(Init(n), actions).value.attached| <= 1
    ensures |Run(Init(n), actions).value.notified| <= 1
    ensures forall note :: note in Run(Init(n), actions).value.notified ==> IsDone(note.observed)
  {
    InitSatisfiesInv(n);
    RunPreservesInv(Init(n), actions);
    var s := Run(Init(n), actions).value;
    forall t ensures PcAgrees(s, PcOf(s, t)) {}
  }

  /**
    Once the job reads as done it stays done: no later action runs the
    function again, attaches a barrier or makes a callback beyond the
    pending one, and every later Execute call returns the done state.
   */
  lemma {:induction false} NothingAfterDone(s: State, actions: seq<Action>)
    requires Inv(s) && IsDone(s.job)
    requires forall t :: !PcOf(s, t).DoneMarked?
    requires Run(s, actions).Ok?
    ensures IsDone(Run(s, actions).value.job)
    ensures Run(s, actions).value.job.invocations == s.job.invocations
    ensures Run(s, actions).value.attached == s.attached
    ensures Run(s, actions).value.notified == s.notified
    ensures |s.returned| <= |Run(s, actions).value.returned|
    ensures Run(s, actions).value.returned[..|s.returned|] == s.returned
    ensures forall i :: |s.returned| <= i < |Run(s, actions).value.returned| ==>
              Run(s, actions).value.returned[i] == DoneState
    decreases |actions|
  {
    if |actions| > 0 {
      var a := actions[0];
      assert Next(s, a).Ok?;
      var s' := Next(s, a).value;
      if a.ExecuteStep? {
        assert PcAgrees(s, PcOf(s, a.thread));
        assert PcOf(s, a.thread).Idle?;
        assert s' == s.(returned := s.returned + [DoneState]);
      } else {
        assert s' == s;
      }
      NextPreservesInv(s, a);
      assert forall t :: PcOf(s', t) == PcOf(s, t);
      NothingAfterDone(s', actions[1..]);
      var final := Run(s, actions).value;
      assert final == Run(s', actions[1..]).value;
      assert final.returned[..|s'.returned|] == s'.returned;
      assert s'.returned[..|s.returned|] == s.returned;
    }
  }

  /**
    When the job is done and no thread is inside Execute, the function ran
    exactly once and the barrier accepted before completion, if any, got
    exactly one callback; without an accepted barrier there is none.
   */
  lemma CompletionNotifiesAttachedBarrier(n: UInt32, actions: seq<Action>)
    requires n < DoneState
    requires Run(Init(n), actions).Ok?
    requires IsDone(Run(Init(n), actions).value.job)
    requires forall t :: PcOf(Run(Init(n), actions).value, t).Idle?
    ensures Run(Init(n), actions).value.job.invocations == 1
    ensures Run(Init(n), actions).value.attached == [] ==> Run(Init(n), actions).value.notified == []
    ensures forall b :: Run(Init(n), actions).value.attached == [b] ==>
              |Run(Init(n), actions).value.notified| == 1 && Run(Init(n), actions).value.notified[0].barrier == b
  {
    InitSatisfiesInv(n);
    RunPreservesInv(Init(n), actions);
    var s := Run(Init(n), actions).value;
    assert forall t :: !PcOf(s, t).DoneMarked?;
  }

  /**
    A thread that calls Execute while the counter is not zero loses the
    race: it changes nothing and returns the counter it saw.
   */
  lemma LosingExecuteChangesNothing(s: State, t: ThreadId)
    requires PcOf(s, t).Idle? && !CanBeExecuted(s.job)
    ensures ExecuteStepOf(s, t) == Ok(s.(returned := s.returned + [s.job.numDependencies]))
  {
  }

  /**
    `SetBarrier` is refused, changing nothing, exactly when the barrier
    field holds the done sentinel, and then the job function has already
    run. That happens once the job is done, but also in the window between
    the finishing thread taking the barrier and marking the counter done:
    there the counter still reads as executing.
   */
  lemma NoBarrierAttachesAfterDone(s: State, b: BarrierId)
    requires Inv(s)
    ensures IsDone(s.job) ==> Next(s, SetBarrierCall(b)) == Ok(s)
    ensures Next(s, SetBarrierCall(b)) == Ok(s) <==> s.job.barrier == BarrierDone
    ensures Next(s, SetBarrierCall(b)) == Ok(s) ==> s.job.invocations == 1
    ensures Next(s, SetBarrierCall(b)) == Ok(s) && !IsDone(s.job) ==>
              s.job.numDependencies == ExecutingState && exists t :: PcOf(s, t).BarrierTaken?
  {
    assert s.attached + [] == s.attached;
    if s.job.barrier.NoBarrier? {
      assert |(s.attached + [b])| != |s.attached|;
    }
  }

  /**
    In every trace from a fresh job, a refused `SetBarrier` means the job
    function has run, and the job is done or its finishing thread sits
    between taking the barrier and marking the counter done.
   */
  lemma SetBarrierRefusedOnlyAfterRun(n: UInt32, actions: seq<Action>, b: BarrierId)
    requires n < DoneState
    requires Run(Init(n), actions).Ok?
    ensures var s := Run(Init(n), actions).value;
              Next(s, SetBarrierCall(b)) == Ok(s) ==>
                s.job.invocations == 1
                && (IsDone(s.job) || exists t :: PcOf(s, t).BarrierTaken?)
  {
    InitSatisfiesInv(n);
    RunPreservesInv(Init(n), actions);
    NoBarrierAttachesAfterDone(Run(Init(n), actions).value, b);
  }

  /** Three steps of Execute by one thread: claim, run, take the barrier. */
  function UpToBarrierTaken(t: ThreadId): seq<Action> {
    [ExecuteStep(t), ExecuteStep(t), ExecuteStep(t)]
  }

  /**
    The refusal window is reachable: after one thread has claimed a ready
    job, run it and taken the barrier, `SetBarrier` is refused although the
    job does not read as done yet.
   */
  lemma BarrierRefusedBeforeDone(t: ThreadId, b: BarrierId)
    ensures Run(Init(0), UpToBarrierTaken(t)).Ok?
    ensures var s := Run(Init(0), UpToBarrierTaken(t)).value;
              && !IsDone(s.job) && s.job.numDependencies == ExecutingState
              && s.attached == [] && s.job.invocations == 1
              && Next(s, SetBarrierCall(b)) == Ok(s)
  {
    var s0 := Init(0);
    var s1 := ExecuteStepOf(s0, t).value;
    var s2 := ExecuteStepOf(s1, t).value;
    var s3 := ExecuteStepOf(s2, t).value;
    var one := [ExecuteStep(t)];
    assert Run(s2, one) == Ok(s3);
    assert ([ExecuteStep(t)] + one)[1..] == one;
    assert Run(s1, [ExecuteStep(t)] + one) == Ok(s3);
    assert UpToBarrierTaken(t)[1..] == [ExecuteStep(t)] + one;
    assert Run(s0, UpToBarrierTaken(t)) == Ok(s3);
    assert s3.attached + [] == s3.attached;
  }

  /** Five steps of Execute by a thread. */
  function SoloExecute(t: ThreadId): seq<Action> {
    [ExecuteStep(t), ExecuteStep(t), ExecuteStep(t), ExecuteStep(t), ExecuteStep(t)]
  }

  /**
    A thread running Execute alone on a ready job takes five steps and
    ends exactly where the all-in-one-go Execute does: same job, same
    return value, same callback.
   */
  lemma SoloExecuteAgreesWithExecute(s: State, t: ThreadId)
    requires Inv(s) && CanBeExecuted(s.job)
    ensures Execute(s.job).Ok?
    ensures Run(s, SoloExecute(t)).Ok?
    ensures Run(s, SoloExecute(t)).value.job == Execute(s.job).value.job
    ensures Run(s, SoloExecute(t)).value.returned == s.returned + [Execute(s.job).value.returned]
    ensures Execute(s.job).value.notified.None? ==> Run(s, SoloExecute(t)).value.notified == s.notified
    ensures Execute(s.job).value.notified.Some? ==>
              Run(s, SoloExecute(t)).value.notified == s.notified + [Execute(s.job).value.notified.value]
    ensures PcOf(Run(s, SoloExecute(t)).value, t).Idle?
  {
    assert PcAgrees(s, PcOf(s, t));
    var acts := SoloExecute(t);
    var s1 := ExecuteStepOf(s, t).value;
    assert PcOf(s1, t) == Claimed;
    var s2 := ExecuteStepOf(s1, t).value;
    assert PcOf(s2, t) == FunctionRan;
    var s3 := ExecuteStepOf(s2, t).value;
    assert PcOf(s3, t) == BarrierTaken(s.job.barrier);
    var s4 := ExecuteStepOf(s3, t).value;
    assert PcOf(s4, t) == DoneMarked(s.job.barrier);
    var s5 := ExecuteStepOf(s4, t).value;
    var one := [ExecuteStep(t)];
    assert Run(s4, one) == Ok(s5);
    assert ([ExecuteStep(t)] + one)[1..] == one;
    assert Run(s3, [ExecuteStep(t)] + one) == Ok(s5);
    assert ([ExecuteStep(t), ExecuteStep(t)] + one)[1..] == [ExecuteStep(t)] + one;
    assert Run(s2, [ExecuteStep(t), ExecuteStep(t)] + one) == Ok(s5);
    assert ([ExecuteStep(t), ExecuteStep(t), ExecuteStep(t)] + one)[1..] == [ExecuteStep(t), ExecuteStep(t)] + one;
    assert Run(s1, [ExecuteStep(t), ExecuteStep(t), ExecuteStep(t)] + one) == Ok(s5);
    assert acts[1..] == [ExecuteStep(t), ExecuteStep(t), ExecuteStep(t)] + one;
    assert Run(s, acts) == Ok(s5);
  }
}
