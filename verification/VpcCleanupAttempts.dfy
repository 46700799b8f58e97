/** Which clean-up attempts are the last ones, told from the causes of the errors. */
module VpcCleanupAttempts {
  import opened Common
  import opened VpcCleanup
  import opened VpcCleanupInvariant
  import opened VpcCleanupSafety

  /** A VPC that is completed, or on the way to it in the hands of its worker. */
  predicate Final(s: State, p: Path) {
    p in s.completed
    || (Held(s, p) && !s.workers[s.owner[p]].Cleaning? && !s.workers[s.owner[p]].Requeuing?)
  }

  lemma FinalNotQueued(s: State, p: Path)
    requires Inv(s) && Final(s, p)
    ensures p !in s.toAdd && p !in s.queue.delayed && p !in s.queue.dirty
    ensures forall w: nat :: Holds(s, w, p) ==> !s.workers[w].Cleaning? && !s.workers[w].Requeuing?
  {
    assert PathOk(s, p);
    if Held(s, p) {
      assert WorkerOk(s, s.owner[p]);
    }
    forall w: nat | Holds(s, w, p)
      ensures !s.workers[w].Cleaning? && !s.workers[w].Requeuing?
    {
      assert WorkerOk(s, w);
    }
  }

  lemma FinalFrame(s: State, step: Step, p: Path)
    requires Grounded(s, step) && Final(s, p) && Subject(s, step) != Some(p)
    ensures Final(Apply(s, step), p)
  {
    OthersKeepStanding(s, step, p);
    StepGrows(s, step);
  }

  lemma FinalOwn(s: State, step: Step, p: Path)
    requires Grounded(s, step) && Final(s, p) && Subject(s, step) == Some(p)
    requires p !in s.toAdd && p !in s.queue.delayed && p !in s.queue.dirty
    requires forall w: nat :: Holds(s, w, p) ==> !s.workers[w].Cleaning? && !s.workers[w].Requeuing?
    ensures !step.Cleanup? && Final(Apply(s, step), p)
  {
    if step.ByWorker() {
      assert WorkerOk(s, step.w);
    }
  }

  lemma FinalStays(s: State, step: Step, p: Path)
    requires Inv(s) && Enabled(s, step) && Final(s, p)
    ensures Final(Apply(s, step), p)
    ensures step.Cleanup? ==> s.workers[step.w].path != p
  {
    InvGrounds(s, step);
    FinalNotQueued(s, p);
    if Subject(s, step) == Some(p) {
      FinalOwn(s, step, p);
    } else {
      FinalFrame(s, step, p);
    }
  }

  lemma {:induction false} FinalRun(s: State, steps: seq<Step>, p: Path)
    requires Inv(s) && ValidRun(s, steps) && Final(s, p)
    ensures CleanupsOf(s, steps, p) == 0
    decreases |steps|
  {
    if steps != [] {
      StepInv(s, steps[0]);
      FinalStays(s, steps[0], p);
      FinalRun(Apply(s, steps[0]), steps[1..], p);
    }
  }

  /** Where an attempt leads: it is final if it succeeds, if some cause forbids a retry, or as the 13th one;
    * otherwise the VPC goes back to the queue. */
  lemma AttemptLeads(s: State, w: nat, err: Option<Error>)
    requires Inv(s) && Enabled(s, Cleanup(w, err))
    ensures var p, t := s.workers[w].path, Apply(s, Cleanup(w, err));
            && w < |t.workers| && t.last[p] == err
            && if err.None? || (exists c :: c in err.value.chain && !c.Other?) || t.Attempts(p) == 13
               then Final(t, p) && t.workers[w] == Locking(p, err)
               else t.workers[w] == Requeuing(p)
  {
    var p := s.workers[w].path;
    assert WorkerOk(s, w) && PathOk(s, p);
    if err.Some? {
      RetriableMeaning(err.value);
    }
    assert Apply(s, Cleanup(w, err)).Attempts(p) == s.queue.NumRequeues(p) + 1;
  }

  /** An attempt that succeeds, or whose error has a cause that is a cancellation, a missed deadline or an NSX Status
    * error, is the last one on its VPC in every continuation of every run. */
  lemma NoRetry(potential: set<Path>, before: seq<Step>, w: nat, err: Option<Error>, after: seq<Step>)
    requires potential != {} && ValidRun(Init(potential), before)
    requires Enabled(Run(Init(potential), before), Cleanup(w, err))
    requires ValidRun(Apply(Run(Init(potential), before), Cleanup(w, err)), after)
    requires err.None? || exists c :: c in err.value.chain && !c.Other?
    ensures var s := Run(Init(potential), before);
            CleanupsOf(Apply(s, Cleanup(w, err)), after, s.workers[w].path) == 0
  {
    var s := Run(Init(potential), before);
    InitInv(potential);
    RunInv(Init(potential), before);
    AttemptLeads(s, w, err);
    StepInv(s, Cleanup(w, err));
    FinalRun(Apply(s, Cleanup(w, err)), after, s.workers[w].path);
  }

  /** A VPC that is completed although its last error has no such cause was tried exactly 13 times. */
  lemma TriedThirteenTimes(potential: set<Path>, steps: seq<Step>, p: Path)
    requires potential != {} && ValidRun(Init(potential), steps) && p in Run(Init(potential), steps).completed
    ensures var s := Run(Init(potential), steps);
            && p in s.last
            && (s.last[p].Some? && (forall c :: c in s.last[p].value.chain ==> c.Other?) ==>
                  CleanupsOf(Init(potential), steps, p) == 13)
  {
    var s := Run(Init(potential), steps);
    InitInv(potential);
    RunInv(Init(potential), steps);
    CountsAlongRun(Init(potential), steps, p);
    assert PathOk(s, p);
    if s.last[p].Some? {
      RetriableMeaning(s.last[p].value);
    }
  }
}
