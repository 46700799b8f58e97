/** vpcWorker as the Go code runs it, when no other goroutine interferes with the call. */
module VpcCleanupWorker {
  import opened Common
  import opened WorkQueue
  import opened VpcCleanup
  import opened VpcCleanupInvariant
  import opened VpcCleanupSafety

  /** The atomic actions of the part of vpcWorker that ends a VPC, from mu.Lock() on. */
  function ConcludeTrace(w: nat, err: Option<Error>): seq<Step> {
    [Lock(w)] + (if err.Some? then [SendError(w)] else [])
    + [Insert(w), CompareAndShutDown(w), Unlock(w), Forget(w), Done(w)]
  }

  /** The atomic actions of one call of vpcWorker whose clean-up attempt ends with err. */
  function WorkerTrace(s: State, w: nat, err: Option<Error>): seq<Step> {
    if s.cancelled then [CheckContext(w)]
    else if s.queue.fifo == [] then [CheckContext(w), GetShutdown(w)]
    else
      [CheckContext(w), GetPath(w), Cleanup(w, err)]
      + if err.Some? && Retriable(err.value) && s.queue.NumRequeues(s.queue.fifo[0]) < MAX_RETRIES
        then [AddRateLimited(w), Done(w)]
        else ConcludeTrace(w, err)
  }

  /** The attempt on the first VPC of q has failed, no cause of the error is a cancellation, a missed deadline or an
    * NSX Status error, and the VPC has been requeued less than 12 times. */
  predicate Retried(q: Queue<Path>, err: Option<Error>) {
    err.Some? && (forall c :: c in err.value.chain ==> c.Other?) && q.fifo != [] && q.NumRequeues(q.fifo[0]) < 12
  }

  class CleanupRun {
    const potentialVPCs: set<Path>
    var queue: Queue<Path>
    var completedVPCs: set<Path>
    var finalErrors: seq<(Path, Error)>
    var mu: Option<nat>
    var ctxDone: bool
    // the same data together with the positions of all goroutines
    ghost var model: State

    ghost predicate Valid()
      reads this
    {
      && model.potential == potentialVPCs && model.queue == queue && model.completed == completedVPCs
      && model.errors == finalErrors && model.lock == mu && model.cancelled == ctxDone
    }

    /** The queue, shut down when all VPCs are completed. */
    function Closed(q: Queue<Path>, completed: set<Path>): Queue<Path> {
      if completed == potentialVPCs then q.ShutDown() else q
    }

    constructor (paths: set<Path>)
      ensures Valid() && model == Init(paths)
    {
      potentialVPCs := paths;
      queue := Empty<Path>();
      completedVPCs, finalErrors, mu, ctxDone := {}, [], None, false;
      model := Init(paths);
    }

    /** One call by worker w. The preconditions say that the call does not block in Get or on
      * the mutex. The call is exactly the run of its atomic actions. */
    method VpcWorker(w: nat, err: Option<Error>) returns (again: bool)
      requires Valid() && Inv(model) && w < |model.workers| && model.workers[w].Top? && mu.None?
      requires !ctxDone ==> queue.fifo != [] || queue.shuttingDown
      modifies this
      ensures Valid() && ValidRun(old(model), WorkerTrace(old(model), w, err))
      ensures model == Run(old(model), WorkerTrace(old(model), w, err))
      ensures again <==> !old(ctxDone) && old(queue.fifo) != []
      ensures !again ==> completedVPCs == old(completedVPCs) && finalErrors == old(finalErrors)
      ensures !again ==> queue.shuttingDown
      ensures again && Retried(old(queue), err) ==>
                completedVPCs == old(completedVPCs) && finalErrors == old(finalErrors)
                && queue == old(queue).Get().1.AddRateLimited(old(queue.fifo[0])).Done(old(queue.fifo[0]))
      ensures again && !Retried(old(queue), err) ==>
                completedVPCs == old(completedVPCs) + {old(queue.fifo[0])}
                && finalErrors == old(finalErrors) + (if err.Some? then [(old(queue.fifo[0]), err.value)] else [])
                && queue
                   == Closed(old(queue).Get().1, completedVPCs).Forget(old(queue.fifo[0])).Done(old(queue.fifo[0]))
    {
      if ctxDone {
        queue := queue.ShutDown();
        again := false;
        Stop(model, w, err);
        model := Run(model, WorkerTrace(model, w, err));
        return;
      }
      if queue.fifo == [] {
        again := false;
        Stop(model, w, err);
        model := Run(model, WorkerTrace(model, w, err));
        return;
      }
      var fetched := queue.Get();
      var vpcPath := fetched.0;
      queue := fetched.1;
      Fetch(model, w, err);
      if err.Some? {
        RetriableMeaning(err.value);
      }
      ghost var start, prefix := model, [CheckContext(w), GetPath(w), Cleanup(w, err)];
      model := Run(start, prefix);
      if err.Some? && Retriable(err.value) && queue.NumRequeues(vpcPath) < MAX_RETRIES {
        queue := queue.AddRateLimited(vpcPath);
        queue := queue.Done(vpcPath);
        Requeue(model, w);
        model := Run(model, [AddRateLimited(w), Done(w)]);
        RunConcat(start, prefix, [AddRateLimited(w), Done(w)]);
      } else {
        RoomForError(start, prefix, w);
        Conclude(w, vpcPath, err);
        RunConcat(start, prefix, ConcludeTrace(w, err));
      }
      again := true;
    }

    /** The end of a VPC: under the mutex its error is sent, the VPC is marked, and the last one
      * shuts the queue down; the deferred calls then run in reverse order. */
    method Conclude(w: nat, vpcPath: Path, err: Option<Error>)
      requires Valid() && w < |model.workers| && model.workers[w] == Locking(vpcPath, err) && mu.None?
      requires err.Some? ==> |finalErrors| < |potentialVPCs|
      modifies this
      ensures Valid() && ValidRun(old(model), ConcludeTrace(w, err))
      ensures model == Run(old(model), ConcludeTrace(w, err))
      ensures completedVPCs == old(completedVPCs) + {vpcPath}
      ensures finalErrors == old(finalErrors) + (if err.Some? then [(vpcPath, err.value)] else [])
      ensures queue == Closed(old(queue), completedVPCs).Forget(vpcPath).Done(vpcPath)
    {
      Mark(w, vpcPath, err);
      mu := None;
      queue := queue.Forget(vpcPath);
      queue := queue.Done(vpcPath);
      LockMarkReturn(model, w);
      model := Run(model, ConcludeTrace(w, err));
    }

    /** The part under the mutex. */
    method Mark(w: nat, vpcPath: Path, err: Option<Error>)
      modifies this
      ensures mu == Some(w) && ctxDone == old(ctxDone) && model == old(model)
      ensures finalErrors == old(finalErrors) + (if err.Some? then [(vpcPath, err.value)] else [])
      ensures completedVPCs == old(completedVPCs) + {vpcPath}
      ensures queue == Closed(old(queue), completedVPCs)
    {
      mu := Some(w);
      if err.Some? {
        finalErrors := finalErrors + [(vpcPath, err.value)];
      }
      completedVPCs := completedVPCs + {vpcPath};
      if potentialVPCs == completedVPCs {
        queue := queue.ShutDown();
      }
    }
  }

  /** The shared data that two states have in common, apart from the queue. */
  predicate SameShared(s: State, t: State) {
    && t.potential == s.potential && t.completed == s.completed && t.errors == s.errors
    && t.lock == s.lock && t.cancelled == s.cancelled && |t.workers| == |s.workers|
  }

  lemma Stop(s: State, w: nat, err: Option<Error>)
    requires w < |s.workers| && s.workers[w].Top? && (s.cancelled || (s.queue.fifo == [] && s.queue.shuttingDown))
    ensures var steps := WorkerTrace(s, w, err);
            && ValidRun(s, steps) && SameShared(s, Run(s, steps))
            && Run(s, steps).queue == if s.cancelled then s.queue.ShutDown() else s.queue
  {
    if s.cancelled {
      Prepend(s, CheckContext(w), []);
    } else {
      Prepend(Apply(s, CheckContext(w)), GetShutdown(w), []);
      Prepend(s, CheckContext(w), [GetShutdown(w)]);
      assert [CheckContext(w)] + [GetShutdown(w)] == [CheckContext(w), GetShutdown(w)];
    }
  }

  lemma Fetch(s: State, w: nat, err: Option<Error>)
    requires w < |s.workers| && s.workers[w].Top? && !s.cancelled && s.queue.fifo != []
    ensures var steps := [CheckContext(w), GetPath(w), Cleanup(w, err)];
            && ValidRun(s, steps) && SameShared(s, Run(s, steps))
            && Run(s, steps).queue == s.queue.Get().1
            && Run(s, steps).workers[w] == AfterAttempt(s.queue, err)
  {
    GetAndTry(Apply(s, CheckContext(w)), w, err);
    Prepend(s, CheckContext(w), [GetPath(w), Cleanup(w, err)]);
    assert [CheckContext(w)] + [GetPath(w), Cleanup(w, err)] == [CheckContext(w), GetPath(w), Cleanup(w, err)];
  }

  /** Where a worker stands when its attempt on the first key of q has ended with err. */
  function AfterAttempt(q: Queue<Path>, err: Option<Error>): Worker
    requires q.fifo != []
  {
    if err.Some? && Retriable(err.value) && q.NumRequeues(q.fifo[0]) < MAX_RETRIES
    then Requeuing(q.fifo[0])
    else Locking(q.fifo[0], err)
  }

  lemma GetAndTry(s: State, w: nat, err: Option<Error>)
    requires w < |s.workers| && s.workers[w].Getting? && s.queue.fifo != []
    ensures var steps := [GetPath(w), Cleanup(w, err)];
            && ValidRun(s, steps) && SameShared(s, Run(s, steps))
            && Run(s, steps).queue == s.queue.Get().1
            && Run(s, steps).workers[w] == AfterAttempt(s.queue, err)
  {
    Prepend(Apply(s, GetPath(w)), Cleanup(w, err), []);
    Prepend(s, GetPath(w), [Cleanup(w, err)]);
    assert [GetPath(w)] + [Cleanup(w, err)] == [GetPath(w), Cleanup(w, err)];
  }

  lemma Requeue(s: State, w: nat)
    requires w < |s.workers| && s.workers[w].Requeuing?
    ensures var steps := [AddRateLimited(w), Done(w)];
            var p := s.workers[w].path;
            && ValidRun(s, steps) && SameShared(s, Run(s, steps))
            && Run(s, steps).queue == s.queue.AddRateLimited(p).Done(p)
  {
    Prepend(Apply(s, AddRateLimited(w)), Done(w), []);
    Prepend(s, AddRateLimited(w), [Done(w)]);
    assert [AddRateLimited(w)] + [Done(w)] == [AddRateLimited(w), Done(w)];
  }

  lemma LockMarkReturn(s: State, w: nat)
    requires w < |s.workers| && s.workers[w].Locking? && s.lock.None?
    requires s.workers[w].err.Some? ==> |s.errors| < |s.potential|
    ensures var Locking(p, err) := s.workers[w];
            var t := s.(errors := if err.Some? then s.errors + [(p, err.value)] else s.errors,
                        completed := s.completed + {p});
            var closed := if s.potential == t.completed then s.queue.ShutDown() else s.queue;
            && ValidRun(s, ConcludeTrace(w, err)) && SameShared(t, Run(s, ConcludeTrace(w, err)))
            && Run(s, ConcludeTrace(w, err)).queue == closed.Forget(p).Done(p)
  {
    var err := s.workers[w].err;
    var s1 := Apply(s, Lock(w));
    var s2 := if err.Some? then Apply(s1, SendError(w)) else s1;
    MarkReturn(s2, w);
    var tail := [Insert(w), CompareAndShutDown(w), Unlock(w), Forget(w), Done(w)];
    if err.Some? {
      Prepend(s1, SendError(w), tail);
      Prepend(s, Lock(w), [SendError(w)] + tail);
      assert [Lock(w)] + ([SendError(w)] + tail) == ConcludeTrace(w, err);
    } else {
      Prepend(s, Lock(w), tail);
      assert [Lock(w)] + tail == ConcludeTrace(w, err);
    }
  }

  lemma MarkReturn(s: State, w: nat)
    requires w < |s.workers| && s.workers[w].Inserting?
    ensures var p := s.workers[w].path;
            var steps := [Insert(w), CompareAndShutDown(w), Unlock(w), Forget(w), Done(w)];
            var t := s.(lock := None, completed := s.completed + {p});
            var closed := if s.potential == t.completed then s.queue.ShutDown() else s.queue;
            && ValidRun(s, steps) && SameShared(t, Run(s, steps))
            && Run(s, steps).queue == closed.Forget(p).Done(p)
  {
    var s1 := Apply(s, Insert(w));
    var s2 := Apply(s1, CompareAndShutDown(w));
    UnlockReturn(s2, w);
    Prepend(s1, CompareAndShutDown(w), [Unlock(w), Forget(w), Done(w)]);
    Prepend(s, Insert(w), [CompareAndShutDown(w)] + [Unlock(w), Forget(w), Done(w)]);
    assert [Insert(w)] + ([CompareAndShutDown(w)] + [Unlock(w), Forget(w), Done(w)])
        == [Insert(w), CompareAndShutDown(w), Unlock(w), Forget(w), Done(w)];
  }

  lemma UnlockReturn(s: State, w: nat)
    requires w < |s.workers| && s.workers[w].Unlocking?
    ensures var p := s.workers[w].path;
            var steps := [Unlock(w), Forget(w), Done(w)];
            && ValidRun(s, steps) && SameShared(s.(lock := None), Run(s, steps))
            && Run(s, steps).queue == s.queue.Forget(p).Done(p)
  {
    var s1 := Apply(s, Unlock(w));
    Prepend(Apply(s1, Forget(w)), Done(w), []);
    Prepend(s1, Forget(w), [Done(w)]);
    Prepend(s, Unlock(w), [Forget(w)] + [Done(w)]);
    assert [Unlock(w)] + ([Forget(w)] + [Done(w)]) == [Unlock(w), Forget(w), Done(w)];
  }

  /** The invariant leaves room in the channel for the error of a worker about to lock. */
  lemma RoomForError(s: State, steps: seq<Step>, w: nat)
    requires Inv(s) && ValidRun(s, steps)
    requires w < |Run(s, steps).workers| && Run(s, steps).workers[w].Locking? && Run(s, steps).lock.None?
    ensures Run(s, steps).workers[w].err.Some? ==> |Run(s, steps).errors| < |Run(s, steps).potential|
  {
    var t := Run(s, steps);
    RunInv(s, steps);
    if t.workers[w].err.Some? {
      StepInv(t, Lock(w));
      SenderNeverBlocks(Apply(t, Lock(w)), w);
    }
  }
}
