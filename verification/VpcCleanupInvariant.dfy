/** What every step of the VPC clean-up keeps. The invariant is stated for one VPC, one worker
  * and one queued error at a time; a step moves at most one VPC and one worker, and frame
  * lemmas carry the rest over. */
module VpcCleanupInvariant {
  import opened Common
  import opened VpcCleanup

  /** Worker w has fetched p and has not called Done for it. */
  predicate Works(s: State, w: nat, p: Path) {
    At(s, w) && s.workers[w].Busy() && s.workers[w].path == p
  }

  /** Worker w has the token of p in its hands. */
  predicate Holds(s: State, w: nat, p: Path) {
    At(s, w) && s.workers[w].HoldsToken() && s.workers[w].path == p
  }

  predicate Held(s: State, p: Path) {
    p in s.owner && Holds(s, s.owner[p], p)
  }

  predicate Located(s: State, p: Path) {
    p in s.toAdd || p in s.queue.delayed || p in s.queue.dirty || p in s.completed || Held(s, p)
  }

  /** The VPC is in no place but the hands of a worker. */
  predicate OnlyHeld(s: State, p: Path) {
    p in s.potential && p !in s.toAdd && p !in s.queue.dirty && p !in s.queue.delayed && p !in s.completed
  }

  /** The last attempt on p ended with outcome err, and no retry is due. */
  predicate Settled(s: State, p: Path, err: Option<Error>) {
    && p in s.last && s.last[p] == err
    && (err.Some? ==> !Retriable(err.value) || s.Attempts(p) == MAX_RETRIES + 1)
  }

  predicate PathOk(s: State, p: Path) {
    && (p in s.toAdd ==> p in s.potential && p !in s.queue.delayed && p !in s.queue.dirty
                         && p !in s.completed && p !in s.queue.processing)
    && (p in s.queue.delayed ==> p in s.potential && p !in s.queue.dirty && p !in s.completed)
    && (p in s.queue.dirty ==> p in s.potential && p !in s.completed)
    && (p in s.completed ==> p in s.potential && p in s.last && Settled(s, p, s.last[p])
                             && (s.last[p].Some? ==> (p, s.last[p].value) in s.errors))
    && (p in s.queue.processing ==> p in s.potential && p in s.owner && Works(s, s.owner[p], p))
    && (p in s.potential && !s.queue.shuttingDown ==> Located(s, p))
    && s.Attempts(p) <= MAX_RETRIES + 1
    && s.queue.NumRequeues(p) <= MAX_RETRIES
    && (p in s.toAdd || p in s.queue.delayed || p in s.queue.dirty ==> s.Attempts(p) == s.queue.NumRequeues(p))
  }

  predicate ItemOk(s: State, worker: Worker) {
    match worker
    case Top | Getting => true
    case Exited => s.queue.shuttingDown
    case Cleaning(p) => OnlyHeld(s, p) && s.Attempts(p) == s.queue.NumRequeues(p)
    case Requeuing(p) => OnlyHeld(s, p) && s.Attempts(p) == s.queue.NumRequeues(p) + 1 <= MAX_RETRIES
    case Locking(p, err) => OnlyHeld(s, p) && Settled(s, p, err)
    case Sending(p, e) => OnlyHeld(s, p) && Settled(s, p, Some(e))
    case Inserting(p, err) =>
      OnlyHeld(s, p) && Settled(s, p, err) && (err.Some? ==> (p, err.value) in s.errors)
    case Checking(p) => p in s.completed
    case Unlocking(p) => p in s.completed
    case Forgetting(p) => p in s.completed
    case Finishing(p) => true
  }

  predicate WorkerOk(s: State, w: nat) {
    && At(s, w)
    && ItemOk(s, s.workers[w])
    && (s.workers[w].Busy() ==> var p := s.workers[w].path; p in s.owner && s.owner[p] == w && p in s.queue.processing)
    && (s.workers[w].InLock() <==> s.lock == Some(w))
  }

  predicate InsertingNow(s: State, p: Path) {
    s.lock.Some? && At(s, s.lock.value) && s.workers[s.lock.value].Inserting? && s.workers[s.lock.value].path == p
  }

  /** The i-th error in the channel is the last outcome of a VPC that is, or is being, completed. */
  predicate ErrorOk(s: State, i: nat)
    requires i < |s.errors|
  {
    var (p, e) := s.errors[i];
    p in s.last && s.last[p] == Some(e) && (p in s.completed || InsertingNow(s, p))
  }

  ghost predicate ErrorsOk(s: State) {
    && (forall i :: 0 <= i < |s.errors| ==> ErrorOk(s, i))
    && (forall i, j :: 0 <= i < j < |s.errors| ==> s.errors[i].0 != s.errors[j].0)
  }

  predicate CheckingNow(s: State) {
    s.lock.Some? && At(s, s.lock.value) && s.workers[s.lock.value].Checking?
  }

  predicate ShutdownOk(s: State) {
    && (s.completed == s.potential ==> s.queue.shuttingDown || CheckingNow(s))
    && (s.queue.shuttingDown ==> s.cancelled || s.completed == s.potential)
  }

  ghost predicate Inv(s: State) {
    && s.potential != {}
    && |s.workers| == WORKERS
    && s.queue.Valid()
    && (forall p :: PathOk(s, p))
    && (forall w: nat :: w < WORKERS ==> WorkerOk(s, w))
    && (s.lock.Some? ==> At(s, s.lock.value))
    && ErrorsOk(s)
    && ShutdownOk(s)
  }

  lemma InitInv(potential: set<Path>)
    requires potential != {}
    ensures Inv(Init(potential))
  {
    forall p
      ensures PathOk(Init(potential), p)
    {
    }
  }

  /** What Get hands out. */
  predicate HeadOk(s: State) {
    s.queue.fifo != [] ==> s.queue.fifo[0] in s.queue.dirty && s.queue.fifo[0] !in s.queue.processing
  }

  lemma StepQueue(s: State, step: Step)
    requires Inv(s) && Enabled(s, step)
    ensures HeadOk(s) && Apply(s, step).queue.Valid()
  {
    if s.queue.fifo != [] {
      assert s.queue.fifo[0] in s.queue.fifo;
    }
    if step.Done? {
      assert WorkerOk(s, step.w);
    }
  }

  /** The VPC that a step moves. */
  function Subject(s: State, step: Step): Option<Path>
    requires Enabled(s, step)
  {
    match step
    case AddPath(p) => Some(p)
    case Cancel => None
    case FireDelayed(p) => Some(p)
    case GetPath(w) => Some(s.queue.fifo[0])
    case CheckContext(_) => None
    case GetShutdown(_) => None
    case _ => Some(s.workers[step.w].path)
  }

  /** The queue says the same about p in both states; closing the queue drops delays. */
  predicate SameInQueue(s: State, t: State, p: Path) {
    && (p in s.queue.dirty <==> p in t.queue.dirty)
    && (p in s.queue.processing <==> p in t.queue.processing)
    && (p in t.queue.delayed ==> p in s.queue.delayed)
    && (p in s.queue.delayed && !t.queue.shuttingDown ==> p in t.queue.delayed)
    && t.queue.NumRequeues(p) == s.queue.NumRequeues(p)
  }

  /** And so do the records of the clean-up. */
  predicate SameInRecords(s: State, t: State, p: Path) {
    && t.potential == s.potential
    && (p in s.toAdd <==> p in t.toAdd)
    && (p in s.completed <==> p in t.completed)
    && t.Attempts(p) == s.Attempts(p)
    && (p in s.last <==> p in t.last) && (p in s.last ==> t.last[p] == s.last[p])
    && (p in s.owner <==> p in t.owner) && (p in s.owner ==> t.owner[p] == s.owner[p])
  }

  predicate SameStanding(s: State, t: State, p: Path) {
    SameInQueue(s, t, p) && SameInRecords(s, t, p)
  }

  /** A step changes the standing of its subject only. */
  lemma OthersKeepQueueDelivery(s: State, step: Step, p: Path)
    requires step.IsDelivery() && Enabled(s, step) && Subject(s, step) != Some(p)
    requires s.queue.shuttingDown ==> s.queue.delayed == {}
    ensures SameInQueue(s, Apply(s, step), p)
  {
  }

  lemma OthersKeepRecordsDelivery(s: State, step: Step, p: Path)
    requires step.IsDelivery() && Enabled(s, step) && Subject(s, step) != Some(p)
    ensures SameInRecords(s, Apply(s, step), p)
  {
  }

  lemma OthersKeepQueueReturn(s: State, step: Step, p: Path)
    requires step.IsReturn() && Enabled(s, step) && Subject(s, step) != Some(p)
    requires s.queue.shuttingDown ==> s.queue.delayed == {}
    ensures SameInQueue(s, Apply(s, step), p)
  {
  }

  lemma OthersKeepRecordsReturn(s: State, step: Step, p: Path)
    requires step.IsReturn() && Enabled(s, step) && Subject(s, step) != Some(p)
    ensures SameInRecords(s, Apply(s, step), p)
  {
  }

  lemma OthersKeepQueueInLock(s: State, step: Step, p: Path)
    requires !step.IsDelivery() && !step.IsReturn() && Enabled(s, step) && Subject(s, step) != Some(p)
    requires s.queue.shuttingDown ==> s.queue.delayed == {}
    ensures SameInQueue(s, Apply(s, step), p)
  {
  }

  lemma OthersKeepRecordsInLock(s: State, step: Step, p: Path)
    requires !step.IsDelivery() && !step.IsReturn() && Enabled(s, step) && Subject(s, step) != Some(p)
    ensures SameInRecords(s, Apply(s, step), p)
  {
  }

  lemma OthersKeepStanding(s: State, step: Step, p: Path)
    requires Enabled(s, step) && Subject(s, step) != Some(p)
    requires s.queue.shuttingDown ==> s.queue.delayed == {}
    ensures SameStanding(s, Apply(s, step), p)
  {
    if step.IsDelivery() {
      OthersKeepQueueDelivery(s, step, p);
      OthersKeepRecordsDelivery(s, step, p);
    } else if step.IsReturn() {
      OthersKeepQueueReturn(s, step, p);
      OthersKeepRecordsReturn(s, step, p);
    } else {
      OthersKeepQueueInLock(s, step, p);
      OthersKeepRecordsInLock(s, step, p);
    }
  }

  predicate Grows(s: State, t: State) {
    && |t.workers| == |s.workers|
    && (s.queue.shuttingDown ==> t.queue.shuttingDown)
    && s.errors <= t.errors
  }

  lemma PathFrame(s: State, t: State, p: Path)
    requires PathOk(s, p) && SameStanding(s, t, p) && Grows(s, t)
    requires p in s.owner && Works(s, s.owner[p], p) ==> t.workers[s.owner[p]] == s.workers[s.owner[p]]
    ensures PathOk(t, p)
  {
  }

  lemma WorkerFrame(s: State, t: State, v: nat)
    requires WorkerOk(s, v) && Grows(s, t) && t.workers[v] == s.workers[v]
    requires s.workers[v].Busy() ==> SameStanding(s, t, s.workers[v].path)
    requires s.lock == Some(v) <==> t.lock == Some(v)
    ensures WorkerOk(t, v)
  {
  }

  lemma ActorStepDelivery(s: State, step: Step)
    requires step.IsDelivery() && Enabled(s, step) && HeadOk(s) && step.ByWorker() && WorkerOk(s, step.w)
    requires Subject(s, step).Some? ==> PathOk(s, Subject(s, step).value)
    ensures WorkerOk(Apply(s, step), step.w)
  {
  }

  lemma ActorStepReturn(s: State, step: Step)
    requires step.IsReturn() && Enabled(s, step) && HeadOk(s) && step.ByWorker() && WorkerOk(s, step.w)
    requires Subject(s, step).Some? ==> PathOk(s, Subject(s, step).value)
    ensures WorkerOk(Apply(s, step), step.w)
  {
  }

  lemma ActorStepInLock(s: State, step: Step)
    requires !step.IsDelivery() && !step.IsReturn() && Enabled(s, step) && HeadOk(s) && step.ByWorker()
             && WorkerOk(s, step.w)
    requires Subject(s, step).Some? ==> PathOk(s, Subject(s, step).value)
    ensures WorkerOk(Apply(s, step), step.w)
  {
  }

  lemma ActorStep(s: State, step: Step)
    requires Enabled(s, step) && HeadOk(s) && step.ByWorker() && WorkerOk(s, step.w)
    requires Subject(s, step).Some? ==> PathOk(s, Subject(s, step).value)
    ensures WorkerOk(Apply(s, step), step.w)
  {
    if step.IsDelivery() {
      ActorStepDelivery(s, step);
    } else if step.IsReturn() {
      ActorStepReturn(s, step);
    } else {
      ActorStepInLock(s, step);
    }
  }

  lemma SubjectStepDelivery(s: State, step: Step)
    requires step.IsDelivery() && Enabled(s, step) && HeadOk(s) && Subject(s, step).Some?
             && PathOk(s, Subject(s, step).value)
    requires step.ByWorker() ==> WorkerOk(s, step.w)
    ensures PathOk(Apply(s, step), Subject(s, step).value)
  {
  }

  lemma SubjectStepReturn(s: State, step: Step)
    requires step.IsReturn() && Enabled(s, step) && HeadOk(s) && Subject(s, step).Some?
             && PathOk(s, Subject(s, step).value)
    requires step.ByWorker() ==> WorkerOk(s, step.w)
    ensures PathOk(Apply(s, step), Subject(s, step).value)
  {
  }

  lemma SubjectStepInLock(s: State, step: Step)
    requires !step.IsDelivery() && !step.IsReturn() && Enabled(s, step) && HeadOk(s) && Subject(s, step).Some?
             && PathOk(s, Subject(s, step).value)
    requires step.ByWorker() ==> WorkerOk(s, step.w)
    ensures PathOk(Apply(s, step), Subject(s, step).value)
  {
  }

  lemma SubjectStep(s: State, step: Step)
    requires Enabled(s, step) && HeadOk(s) && Subject(s, step).Some? && PathOk(s, Subject(s, step).value)
    requires step.ByWorker() ==> WorkerOk(s, step.w)
    ensures PathOk(Apply(s, step), Subject(s, step).value)
  {
    if step.IsDelivery() {
      SubjectStepDelivery(s, step);
    } else if step.IsReturn() {
      SubjectStepReturn(s, step);
    } else {
      SubjectStepInLock(s, step);
    }
  }

  /** What a step may rely on, for the worker and the VPC it concerns. */
  predicate Grounded(s: State, step: Step) {
    && Enabled(s, step) && HeadOk(s)
    && (s.queue.shuttingDown ==> s.queue.delayed == {})
    && (step.ByWorker() ==> WorkerOk(s, step.w))
    && (Subject(s, step).Some? ==> PathOk(s, Subject(s, step).value))
  }

  lemma StepPath(s: State, step: Step, p: Path)
    requires Grounded(s, step) && PathOk(s, p)
    requires p in s.owner && Works(s, s.owner[p], p) ==> WorkerOk(s, s.owner[p])
    ensures PathOk(Apply(s, step), p)
  {
    if Subject(s, step) == Some(p) {
      SubjectStep(s, step);
    } else {
      OthersKeepStanding(s, step, p);
      StepGrows(s, step);
      PathFrame(s, Apply(s, step), p);
    }
  }

  lemma StepGrows(s: State, step: Step)
    requires Enabled(s, step)
    ensures Grows(s, Apply(s, step))
    ensures forall v: nat :: v < |s.workers| && !(step.ByWorker() && step.w == v)
                             ==> Apply(s, step).workers[v] == s.workers[v]
  {
  }

  lemma StepWorker(s: State, step: Step, v: nat)
    requires Grounded(s, step) && WorkerOk(s, v)
    requires s.workers[v].Busy() ==> PathOk(s, s.workers[v].path)
    ensures WorkerOk(Apply(s, step), v)
  {
    if step.ByWorker() && step.w == v {
      ActorStep(s, step);
    } else if s.workers[v].Busy() && Subject(s, step) == Some(s.workers[v].path) {
      assert step.AddPath? || step.FireDelayed?;
    } else {
      if s.workers[v].Busy() {
        OthersKeepStanding(s, step, s.workers[v].path);
      }
      StepGrows(s, step);
      StepLock(s, step, v);
      WorkerFrame(s, Apply(s, step), v);
    }
  }

  /** The mutex passes to a worker, or from it, only by that worker's own step. */
  lemma StepLock(s: State, step: Step, v: nat)
    requires Enabled(s, step) && (step.ByWorker() ==> WorkerOk(s, step.w) && step.w != v)
    ensures s.lock == Some(v) <==> Apply(s, step).lock == Some(v)
  {
  }

  lemma StepErrors(s: State, step: Step)
    requires Grounded(s, step) && ErrorsOk(s)
    requires s.lock.Some? ==> At(s, s.lock.value) && WorkerOk(s, s.lock.value)
    ensures ErrorsOk(Apply(s, step))
  {
    var t := Apply(s, step);
    forall i | 0 <= i < |t.errors|
      ensures ErrorOk(t, i)
      ensures forall j :: 0 <= j < i ==> t.errors[j].0 != t.errors[i].0
    {
      if i < |s.errors| {
        StepError(s, step, i);
      } else {
        forall j | 0 <= j < i
          ensures t.errors[j].0 != t.errors[i].0
        {
          assert ErrorOk(s, j) && t.errors[j] == s.errors[j];
        }
      }
    }
  }

  lemma StepErrorDelivery(s: State, step: Step, i: nat)
    requires step.IsDelivery() && Grounded(s, step) && i < |s.errors| && ErrorOk(s, i)
    requires s.lock.Some? ==> At(s, s.lock.value) && WorkerOk(s, s.lock.value)
    ensures i < |Apply(s, step).errors| && ErrorOk(Apply(s, step), i)
    ensures Apply(s, step).errors[i] == s.errors[i]
  {
  }

  lemma StepErrorReturn(s: State, step: Step, i: nat)
    requires step.IsReturn() && Grounded(s, step) && i < |s.errors| && ErrorOk(s, i)
    requires s.lock.Some? ==> At(s, s.lock.value) && WorkerOk(s, s.lock.value)
    ensures i < |Apply(s, step).errors| && ErrorOk(Apply(s, step), i)
    ensures Apply(s, step).errors[i] == s.errors[i]
  {
  }

  lemma StepErrorInLock(s: State, step: Step, i: nat)
    requires !step.IsDelivery() && !step.IsReturn() && Grounded(s, step) && i < |s.errors| && ErrorOk(s, i)
    requires s.lock.Some? ==> At(s, s.lock.value) && WorkerOk(s, s.lock.value)
    ensures i < |Apply(s, step).errors| && ErrorOk(Apply(s, step), i)
    ensures Apply(s, step).errors[i] == s.errors[i]
  {
  }

  lemma StepError(s: State, step: Step, i: nat)
    requires Grounded(s, step) && i < |s.errors| && ErrorOk(s, i)
    requires s.lock.Some? ==> At(s, s.lock.value) && WorkerOk(s, s.lock.value)
    ensures i < |Apply(s, step).errors| && ErrorOk(Apply(s, step), i)
    ensures Apply(s, step).errors[i] == s.errors[i]
  {
    if step.IsDelivery() {
      StepErrorDelivery(s, step, i);
    } else if step.IsReturn() {
      StepErrorReturn(s, step, i);
    } else {
      StepErrorInLock(s, step, i);
    }
  }

  lemma StepShutdown(s: State, step: Step)
    requires Inv(s) && Enabled(s, step)
    ensures ShutdownOk(Apply(s, step))
    ensures Apply(s, step).lock.Some? ==> At(Apply(s, step), Apply(s, step).lock.value)
  {
    assert step.ByWorker() ==> WorkerOk(s, step.w);
    if step.Insert? {
      assert PathOk(s, s.workers[step.w].path);
    }
  }

  lemma InvGrounds(s: State, step: Step)
    requires Inv(s) && Enabled(s, step)
    ensures Grounded(s, step)
  {
    StepQueue(s, step);
    assert step.ByWorker() ==> WorkerOk(s, step.w);
    assert Subject(s, step).Some? ==> PathOk(s, Subject(s, step).value);
  }

  lemma StepPathsAndWorkers(s: State, step: Step)
    requires Inv(s) && Enabled(s, step)
    ensures forall p :: PathOk(Apply(s, step), p)
    ensures forall v: nat :: v < WORKERS ==> WorkerOk(Apply(s, step), v)
  {
    InvGrounds(s, step);
    forall p
      ensures PathOk(Apply(s, step), p)
    {
      assert PathOk(s, p);
      assert p in s.owner && Works(s, s.owner[p], p) ==> WorkerOk(s, s.owner[p]);
      StepPath(s, step, p);
    }
    forall v: nat | v < WORKERS
      ensures WorkerOk(Apply(s, step), v)
    {
      assert WorkerOk(s, v);
      assert s.workers[v].Busy() ==> PathOk(s, s.workers[v].path);
      StepWorker(s, step, v);
    }
  }

  lemma StepInv(s: State, step: Step)
    requires Inv(s) && Enabled(s, step)
    ensures Inv(Apply(s, step))
  {
    StepQueue(s, step);
    StepGrows(s, step);
    StepPathsAndWorkers(s, step);
    InvGrounds(s, step);
    assert s.lock.Some? ==> WorkerOk(s, s.lock.value);
    StepErrors(s, step);
    StepShutdown(s, step);
  }

  lemma {:induction false} RunInv(s: State, steps: seq<Step>)
    requires Inv(s) && ValidRun(s, steps)
    ensures Inv(Run(s, steps))
    decreases |steps|
  {
    if steps != [] {
      StepInv(s, steps[0]);
      RunInv(Apply(s, steps[0]), steps[1..]);
    }
  }
}
