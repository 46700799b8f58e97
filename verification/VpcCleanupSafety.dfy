/** Safety over all runs of the VPC clean-up: tokens, the error channel, attempts, completions. */
module VpcCleanupSafety {
  import opened Common
  import opened VpcCleanup
  import opened VpcCleanupInvariant

  // ---- One token per VPC ----

  datatype Place = Waiting | Delayed | Queued | InHandsOf(w: nat) | Completed

  /** Every place that holds the token of p. */
  ghost function Places(s: State, p: Path): set<Place> {
    (if p in s.toAdd then {Waiting} else {})
    + (if p in s.queue.delayed then {Delayed} else {})
    + (if p in s.queue.dirty then {Queued} else {})
    + (if p in s.completed then {Completed} else {})
    + (set w: nat | w < |s.workers| && Holds(s, w, p) :: InHandsOf(w))
  }

  /** Whatever the scheduler and the context do, each VPC has exactly one token; it has
    * none only when a cancelled context closed the queue before the VPC was completed. */
  lemma OneToken(potential: set<Path>, steps: seq<Step>, p: Path)
    requires potential != {} && p in potential
    requires ValidRun(Init(potential), steps)
    ensures var s := Run(Init(potential), steps);
            && |Places(s, p)| <= 1
            && (Places(s, p) == {} ==> s.cancelled && s.queue.shuttingDown)
  {
    InitInv(potential);
    RunInv(Init(potential), steps);
    RunPotential(Init(potential), steps);
    OnePlace(Run(Init(potential), steps), p);
  }

  lemma OnePlace(s: State, p: Path)
    requires Inv(s) && p in s.potential
    ensures |Places(s, p)| <= 1
    ensures Places(s, p) == {} ==> s.cancelled && s.queue.shuttingDown
  {
    assert PathOk(s, p);
    forall w: nat | Holds(s, w, p)
      ensures OnlyHeld(s, p) && p in s.owner && s.owner[p] == w
    {
      assert WorkerOk(s, w);
    }
    forall a, b | a in Places(s, p) && b in Places(s, p)
      ensures a == b
    {
    }
    AllEqual(Places(s, p));
    if Places(s, p) == {} {
      NoPlace(s, p);
    }
  }

  lemma AllEqual<T>(s: set<T>)
    requires forall a, b :: a in s && b in s ==> a == b
    ensures |s| <= 1
  {
    if a :| a in s {
      assert s == {a};
    }
  }

  lemma NoPlace(s: State, p: Path)
    requires Places(s, p) == {} && PathOk(s, p) && p in s.potential && ShutdownOk(s)
    ensures s.cancelled && s.queue.shuttingDown
  {
    assert Waiting !in Places(s, p) && Delayed !in Places(s, p) && Queued !in Places(s, p)
           && Completed !in Places(s, p);
    assert forall w: nat :: w < |s.workers| && Holds(s, w, p) ==> InHandsOf(w) in Places(s, p);
  }

  lemma {:induction false} RunPotential(s: State, steps: seq<Step>)
    requires ValidRun(s, steps)
    ensures Run(s, steps).potential == s.potential
    decreases |steps|
  {
    if steps != [] {
      RunPotential(Apply(s, steps[0]), steps[1..]);
    }
  }

  // ---- The error channel ----

  /** A worker that is about to send an error holds the mutex and finds room in the channel. */
  lemma SenderNeverBlocks(s: State, w: nat)
    requires Inv(s) && w < |s.workers| && s.workers[w].Sending?
    ensures s.lock == Some(w) && Enabled(s, SendError(w))
  {
    assert WorkerOk(s, w);
    var p := s.workers[w].path;
    assert PathOk(s, p);
    var paths := seq(|s.errors|, i requires 0 <= i < |s.errors| => s.errors[i].0);
    forall q | q in paths
      ensures q in s.potential - {p}
    {
      var i :| 0 <= i < |paths| && paths[i] == q;
      assert ErrorOk(s, i) && PathOk(s, q);
    }
    DistinctBound(paths, s.potential - {p});
  }

  /** In no run does a worker block on the channel while it holds the mutex. */
  lemma ErrorChannelNeverFull(potential: set<Path>, steps: seq<Step>)
    requires potential != {} && ValidRun(Init(potential), steps)
    ensures var s := Run(Init(potential), steps);
            forall w: nat :: w < |s.workers| && s.workers[w].Sending?
                             ==> s.lock == Some(w) && |s.errors| < |potential|
  {
    InitInv(potential);
    RunInv(Init(potential), steps);
    RunPotential(Init(potential), steps);
    var s := Run(Init(potential), steps);
    forall w: nat | w < |s.workers| && s.workers[w].Sending?
      ensures s.lock == Some(w) && |s.errors| < |potential|
    {
      SenderNeverBlocks(s, w);
    }
  }

  // ---- Retries and completions, counted along the run ----

  function CleanupsOf(s: State, steps: seq<Step>, p: Path): nat
    requires ValidRun(s, steps)
    decreases |steps|
  {
    if steps == [] then 0
    else
      (if steps[0].Cleanup? && s.workers[steps[0].w].path == p then 1 else 0)
      + CleanupsOf(Apply(s, steps[0]), steps[1..], p)
  }

  function CompletionsOf(s: State, steps: seq<Step>, p: Path): nat
    requires ValidRun(s, steps)
    decreases |steps|
  {
    if steps == [] then 0
    else
      (if steps[0].Insert? && s.workers[steps[0].w].path == p then 1 else 0)
      + CompletionsOf(Apply(s, steps[0]), steps[1..], p)
  }

  lemma StepCounts(s: State, step: Step, p: Path)
    requires Inv(s) && Enabled(s, step)
    ensures Apply(s, step).Attempts(p)
         == s.Attempts(p) + if step.Cleanup? && s.workers[step.w].path == p then 1 else 0
    ensures p in Apply(s, step).completed <==> p in s.completed || (step.Insert? && s.workers[step.w].path == p)
    ensures step.Insert? ==> s.workers[step.w].path !in s.completed
  {
    assert step.ByWorker() ==> WorkerOk(s, step.w);
  }

  lemma {:induction false} CountsAlongRun(s: State, steps: seq<Step>, p: Path)
    requires Inv(s) && ValidRun(s, steps)
    ensures CleanupsOf(s, steps, p) == Run(s, steps).Attempts(p) - s.Attempts(p)
    ensures CompletionsOf(s, steps, p)
         == (if p in Run(s, steps).completed then 1 else 0) - (if p in s.completed then 1 else 0)
    decreases |steps|
  {
    if steps != [] {
      StepInv(s, steps[0]);
      StepCounts(s, steps[0], p);
      CountsAlongRun(Apply(s, steps[0]), steps[1..], p);
    }
  }

  /** In any run a VPC is cleaned at most maxRetries + 1 times and completed at most once;
    * it is completed exactly when it is in the completed set. */
  lemma BoundedAttempts(potential: set<Path>, steps: seq<Step>, p: Path)
    requires potential != {} && ValidRun(Init(potential), steps)
    ensures CleanupsOf(Init(potential), steps, p) <= MAX_RETRIES + 1
    ensures CompletionsOf(Init(potential), steps, p)
         == if p in Run(Init(potential), steps).completed then 1 else 0
  {
    InitInv(potential);
    RunInv(Init(potential), steps);
    CountsAlongRun(Init(potential), steps, p);
    assert PathOk(Run(Init(potential), steps), p);
  }
}
