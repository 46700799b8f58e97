/** Progress, termination and the result of the VPC clean-up. */
module VpcCleanupTermination {
  import opened Common
  import opened VpcCleanup
  import opened VpcCleanupInvariant
  import opened VpcCleanupSafety

  // ---- Progress ----

  /** As long as some goroutine has not returned, something other than a cancellation can happen. */
  lemma Progress(s: State)
    requires Inv(s) && !Terminal(s)
    ensures exists step :: Enabled(s, step) && !step.IsCancel()
  {
    forall w: nat | w < |s.workers|
      ensures WorkerOk(s, w)
    {
    }
    if p :| p in s.toAdd {
      assert Enabled(s, AddPath(p));
    } else if s.lock.Some? && s.workers[s.lock.value].InLock() {
      LockHolderMoves(s, s.lock.value);
    } else if w :| 0 <= w < |s.workers| && s.workers[w].Busy() {
      BusyWorkerMoves(s, w);
    } else if w :| 0 <= w < |s.workers| && s.workers[w].Top? {
      assert Enabled(s, CheckContext(w));
    } else {
      IdleWorkersMove(s);
    }
  }

  lemma LockHolderMoves(s: State, w: nat)
    requires Inv(s) && w < |s.workers| && s.workers[w].InLock()
    ensures exists step :: Enabled(s, step) && !step.IsCancel()
  {
    match s.workers[w]
    case Sending(_, _) =>
      SenderNeverBlocks(s, w);
      assert Enabled(s, SendError(w));
    case Inserting(_, _) => assert Enabled(s, Insert(w));
    case Checking(_) => assert Enabled(s, CompareAndShutDown(w));
    case Unlocking(_) => assert Enabled(s, Unlock(w));
  }

  lemma BusyWorkerMoves(s: State, w: nat)
    requires Inv(s) && w < |s.workers| && s.workers[w].Busy()
    requires s.lock.Some? ==> !s.workers[s.lock.value].InLock()
    ensures exists step :: Enabled(s, step) && !step.IsCancel()
  {
    assert WorkerOk(s, w);
    assert s.lock.Some? ==> WorkerOk(s, s.lock.value);
    match s.workers[w]
    case Cleaning(_) => assert Enabled(s, Cleanup(w, None));
    case Requeuing(_) => assert Enabled(s, AddRateLimited(w));
    case Locking(_, _) => assert Enabled(s, Lock(w));
    case Forgetting(_) => assert Enabled(s, Forget(w));
    case Finishing(_) => assert Enabled(s, Done(w));
  }

  /** All workers wait in Get: a key is queued, a delay is pending, or the queue is closed. */
  lemma IdleWorkersMove(s: State)
    requires Inv(s) && !Terminal(s) && s.toAdd == {}
    requires forall v :: 0 <= v < |s.workers| ==> !s.workers[v].Busy() && !s.workers[v].Top?
    ensures exists step :: Enabled(s, step) && !step.IsCancel()
  {
    var w :| 0 <= w < |s.workers| && !s.workers[w].Exited?;
    if s.queue.fifo != [] {
      assert Enabled(s, GetPath(w));
    } else if s.queue.shuttingDown {
      assert Enabled(s, GetShutdown(w));
    } else {
      assert !CheckingNow(s);
      assert s.completed <= s.potential by {
        forall p | p in s.completed
          ensures p in s.potential
        {
          assert PathOk(s, p);
        }
      }
      assert s.potential == s.completed + (s.potential - s.completed);
      var p :| p in s.potential - s.completed;
      assert PathOk(s, p);
      assert p !in s.queue.dirty by {
        assert p in s.queue.dirty ==> p in s.queue.processing || p in s.queue.fifo;
      }
      assert Enabled(s, FireDelayed(p));
    }
  }

  // ---- Termination ----

  /** The attempts made so far on the VPCs in ps. */
  ghost function Spent(attempts: map<Path, nat>, ps: set<Path>): nat {
    if ps == {} then 0
    else
      var p :| p in ps;
      (if p in attempts then attempts[p] else 0) + Spent(attempts, ps - {p})
  }

  lemma {:induction false} SpentRemove(attempts: map<Path, nat>, ps: set<Path>, p: Path)
    requires p in ps
    ensures Spent(attempts, ps) == (if p in attempts then attempts[p] else 0) + Spent(attempts, ps - {p})
  {
    var q :| q in ps && Spent(attempts, ps) == (if q in attempts then attempts[q] else 0) + Spent(attempts, ps - {q});
    if q != p {
      SpentRemove(attempts, ps - {q}, p);
      SpentRemove(attempts, ps - {p}, q);
      assert ps - {q} - {p} == ps - {p} - {q};
    }
  }

  lemma {:induction false} SpentSame(a: map<Path, nat>, b: map<Path, nat>, ps: set<Path>)
    requires forall p :: p in ps ==> (p in a <==> p in b) && (p in a ==> a[p] == b[p])
    ensures Spent(a, ps) == Spent(b, ps)
  {
    if p :| p in ps {
      SpentRemove(a, ps, p);
      SpentRemove(b, ps, p);
      SpentSame(a, b, ps - {p});
    }
  }

  lemma SpentMore(s: State, p: Path)
    requires p in s.potential
    ensures Spent(s.attempts[p := s.Attempts(p) + 1], s.potential) == Spent(s.attempts, s.potential) + 1
  {
    var b := s.attempts[p := s.Attempts(p) + 1];
    SpentRemove(s.attempts, s.potential, p);
    SpentRemove(b, s.potential, p);
    SpentSame(s.attempts, b, s.potential - {p});
  }

  lemma {:induction false} SpentBound(attempts: map<Path, nat>, ps: set<Path>, most: nat)
    requires forall p :: p in ps && p in attempts ==> attempts[p] <= most
    ensures Spent(attempts, ps) <= most * |ps|
  {
    if p :| p in ps {
      SpentRemove(attempts, ps, p);
      SpentBound(attempts, ps - {p}, most);
      assert |ps| == |ps - {p}| + 1;
      assert most * |ps| == most * |ps - {p}| + most;
    }
  }

  function WorkerRank(worker: Worker): nat {
    match worker
    case Requeuing(_) => 19
    case Cleaning(_) => 13
    case Locking(_, _) => 11
    case Sending(_, _) => 10
    case Inserting(_, _) => 9
    case Checking(_) => 8
    case Unlocking(_) => 7
    case Forgetting(_) => 6
    case Finishing(_) => 4
    case Top => 3
    case Getting => 2
    case Exited => 0
  }

  function RankSum(workers: seq<Worker>): nat {
    if workers == [] then 0 else WorkerRank(workers[0]) + RankSum(workers[1..])
  }

  lemma {:induction false} RankUpdate(workers: seq<Worker>, w: nat, to: Worker)
    requires w < |workers|
    ensures RankSum(workers[w := to]) == RankSum(workers) - WorkerRank(workers[w]) + WorkerRank(to)
  {
    if w == 0 {
      assert workers[w := to][1..] == workers[1..];
    } else {
      assert workers[w := to][1..] == workers[1..][w - 1 := to];
      RankUpdate(workers[1..], w - 1, to);
    }
  }

  /** Remaining attempts, where the tokens are, where the workers are, and the context. */
  ghost function Measure(s: State): int {
    20 * ((MAX_RETRIES + 1) * |s.potential| - Spent(s.attempts, s.potential))
    + 13 * |s.toAdd| + 13 * |s.queue.delayed| + 12 * |s.queue.dirty|
    + RankSum(s.workers)
    + (if s.cancelled then 0 else 1)
  }

  lemma MeasureNonNegative(s: State)
    requires Inv(s)
    ensures Measure(s) >= 0
  {
    forall p | p in s.potential && p in s.attempts
      ensures s.attempts[p] <= MAX_RETRIES + 1
    {
      assert PathOk(s, p);
    }
    SpentBound(s.attempts, s.potential, MAX_RETRIES + 1);
  }

  lemma FetchingDecreases(s: State, step: Step)
    requires Grounded(s, step) && step.ByWorker() && step.IsDelivery() && !step.Cleanup?
    ensures Measure(Apply(s, step)) < Measure(s)
  {
    var t := Apply(s, step);
    assert t.potential == s.potential && t.attempts == s.attempts && t.cancelled == s.cancelled;
    RankUpdate(s.workers, step.w, t.workers[step.w]);
  }

  lemma CleanupDecreases(s: State, w: nat, err: Option<Error>)
    requires Grounded(s, Cleanup(w, err))
    ensures Measure(Apply(s, Cleanup(w, err))) < Measure(s)
  {
    RankUpdate(s.workers, w, Apply(s, Cleanup(w, err)).workers[w]);
    SpentMore(s, s.workers[w].path);
  }

  lemma ReturningRank(s: State, step: Step)
    requires Grounded(s, step) && step.IsReturn()
    ensures var t := Apply(s, step);
            && step.w < |s.workers| && t.workers == s.workers[step.w := t.workers[step.w]]
            && t.potential == s.potential && t.attempts == s.attempts && t.cancelled == s.cancelled
  {
  }

  lemma DelayedOnce(delayed: set<Path>, p: Path)
    ensures |delayed + {p}| <= |delayed| + 1
  {
  }

  lemma ReturningQueue(s: State, step: Step)
    requires Enabled(s, step) && step.IsReturn()
    ensures var t := Apply(s, step);
            && t.toAdd == s.toAdd && t.queue.dirty == s.queue.dirty
            && |t.queue.delayed| <= |s.queue.delayed| + if step.AddRateLimited? then 1 else 0
  {
    DelayedOnce(s.queue.delayed, s.workers[step.w].path);
  }

  /** A token that is delayed costs less than the place it leaves. */
  lemma ReturningPays(s: State, step: Step)
    requires Enabled(s, step) && step.IsReturn()
    ensures step.w < |s.workers| && step.w < |Apply(s, step).workers|
    ensures WorkerRank(Apply(s, step).workers[step.w]) + (if step.AddRateLimited? then 14 else 1)
            <= WorkerRank(s.workers[step.w])
  {
  }

  lemma ReturningDecreases(s: State, step: Step)
    requires Grounded(s, step) && step.IsReturn()
    ensures Measure(Apply(s, step)) < Measure(s)
  {
    ReturningRank(s, step);
    ReturningQueue(s, step);
    ReturningPays(s, step);
    RankUpdate(s.workers, step.w, Apply(s, step).workers[step.w]);
  }

  /** A step in the lock only moves the worker down, and may close the queue. */
  lemma LockingMoves(s: State, step: Step)
    requires Grounded(s, step) && !step.IsDelivery() && !step.IsReturn()
    ensures var t := Apply(s, step);
            && t.potential == s.potential && t.attempts == s.attempts && t.cancelled == s.cancelled
            && t.toAdd == s.toAdd && t.queue.dirty == s.queue.dirty
            && (t.queue.delayed == s.queue.delayed || t.queue.delayed == {})
  {
  }

  lemma LockingRank(s: State, step: Step)
    requires Grounded(s, step) && !step.IsDelivery() && !step.IsReturn()
    ensures var t := Apply(s, step);
            && step.w < |s.workers| && t.workers == s.workers[step.w := t.workers[step.w]]
            && WorkerRank(t.workers[step.w]) < WorkerRank(s.workers[step.w])
  {
  }

  lemma LockingDecreases(s: State, step: Step)
    requires Grounded(s, step) && !step.IsDelivery() && !step.IsReturn()
    ensures Measure(Apply(s, step)) < Measure(s)
  {
    LockingMoves(s, step);
    LockingRank(s, step);
    RankUpdate(s.workers, step.w, Apply(s, step).workers[step.w]);
  }

  /** A worker's step pays with its own rank, with the key it takes, or with an attempt. */
  lemma StepDecreases(s: State, step: Step)
    requires Grounded(s, step)
    ensures Measure(Apply(s, step)) < Measure(s)
  {
    if step.IsReturn() {
      ReturningDecreases(s, step);
    } else if !step.IsDelivery() {
      LockingDecreases(s, step);
    } else if step.Cleanup? {
      CleanupDecreases(s, step.w, step.err);
    } else if step.ByWorker() {
      FetchingDecreases(s, step);
    }
  }

  lemma {:induction false} RunDecreases(s: State, steps: seq<Step>)
    requires Inv(s) && ValidRun(s, steps)
    ensures Measure(Run(s, steps)) + |steps| <= Measure(s)
    decreases |steps|
  {
    if steps != [] {
      InvGrounds(s, steps[0]);
      StepInv(s, steps[0]);
      StepDecreases(s, steps[0]);
      RunDecreases(Apply(s, steps[0]), steps[1..]);
    }
  }

  lemma {:induction false} RankSumTop(n: nat)
    ensures RankSum(seq(n, _ => Top)) == 3 * n
  {
    if n > 0 {
      assert seq(n, _ => Top)[1..] == seq(n - 1, _ => Top);
      RankSumTop(n - 1);
    }
  }

  /** No schedule keeps the workers busy forever: a run over n VPCs has at most 273 n + 25 steps. */
  lemma RunsAreBounded(potential: set<Path>, steps: seq<Step>)
    requires potential != {} && ValidRun(Init(potential), steps)
    ensures |steps| <= 273 * |potential| + 25
  {
    var s := Init(potential);
    InitInv(potential);
    RunInv(s, steps);
    RunDecreases(s, steps);
    MeasureNonNegative(Run(s, steps));
    RankSumTop(WORKERS);
  }

  // ---- The result ----

  /** The last attempt on p has ended with e, and e has a cause that is a cancellation, a missed deadline or an NSX
    * Status error, or p was tried 13 times. */
  ghost predicate FinalError(s: State, steps: seq<Step>, p: Path, e: Error)
    requires ValidRun(s, steps)
  {
    && p in Run(s, steps).last && Run(s, steps).last[p] == Some(e)
    && ((exists c :: c in e.chain && !c.Other?) || CleanupsOf(s, steps, p) == 13)
  }

  /** A run that cannot go on has ended all goroutines. Without a cancellation every VPC is
    * then completed, the call succeeds exactly when the last attempt on each VPC did, and an
    * error it returns is the last one of some VPC: one with a cause that forbids a retry, or its 13th. */
  lemma FinalOutcome(potential: set<Path>, steps: seq<Step>)
    requires potential != {} && ValidRun(Init(potential), steps)
    requires forall step :: Enabled(Run(Init(potential), steps), step) ==> step.IsCancel()
    ensures var s := Run(Init(potential), steps);
            && Terminal(s)
            && (s.cancelled <==> Returned(s) == ContextError)
            && (!s.cancelled ==>
                  && s.completed == potential
                  && (Returned(s) == Success <==> forall p :: p in potential ==> p in s.last && s.last[p] == None)
                  && (Returned(s).VpcError? ==>
                        exists p :: p in potential && FinalError(Init(potential), steps, p, Returned(s).error)))
  {
    InitInv(potential);
    RunInv(Init(potential), steps);
    RunPotential(Init(potential), steps);
    var s := Run(Init(potential), steps);
    if !Terminal(s) {
      Progress(s);
      assert false;
    }
    if !s.cancelled {
      UncancelledOutcome(s);
      if Returned(s).VpcError? {
        var p :| p in s.potential && Settled(s, p, Some(Returned(s).error));
        CountsAlongRun(Init(potential), steps, p);
        RetriableMeaning(Returned(s).error);
        assert FinalError(Init(potential), steps, p, Returned(s).error);
      }
    }
  }

  lemma UncancelledOutcome(s: State)
    requires Inv(s) && Terminal(s) && !s.cancelled
    ensures s.completed == s.potential
    ensures Returned(s) == Success <==> forall p :: p in s.potential ==> p in s.last && s.last[p] == None
    ensures Returned(s).VpcError? ==> exists p :: p in s.potential && Settled(s, p, Some(Returned(s).error))
  {
    assert WorkerOk(s, 0);
    forall p
      ensures PathOk(s, p)
    {
    }
    if |s.errors| > 0 {
      assert ErrorOk(s, 0);
      assert s.lock.Some? ==> WorkerOk(s, s.lock.value);
      var p := s.errors[0].0;
      assert PathOk(s, p);
      assert p in s.potential && Settled(s, p, Some(s.errors[0].1));
    } else {
      forall p | p in s.potential
        ensures p in s.last && s.last[p] == None
      {
        assert PathOk(s, p);
      }
    }
  }
}
