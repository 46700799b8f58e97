/** Parallel clean-up of the auto-created VPCs: eight workers share a rate-limited work
  * queue, a mutex-guarded set of completed VPCs and a bounded error channel. A state is
  * everything the goroutines share plus where each of them stands; a step is one atomic
  * action of one goroutine, of the queue's timer or of the context. */
module VpcCleanup {
  import opened Common
  import opened WorkQueue

  type Path = string

  const WORKERS := 8
  const MAX_RETRIES := 12

  /** What the chain of a Go error holds. */
  datatype Cause = Canceled | DeadlineExceeded | StatusError(code: nat) | Other(text: string)

  datatype Error = Error(chain: seq<Cause>)

  /** errors.As compares types, so every NSX Status error in the chain stops the retries. */
  predicate Retriable(e: Error) {
    OnlyOther(e.chain)
  }

  predicate OnlyOther(chain: seq<Cause>) {
    chain == [] || (chain[0].Other? && OnlyOther(chain[1..]))
  }

  lemma {:induction false} OnlyOtherMeaning(chain: seq<Cause>)
    ensures OnlyOther(chain) <==> forall c :: c in chain ==> c.Other?
  {
    if chain != [] {
      OnlyOtherMeaning(chain[1..]);
      assert chain == [chain[0]] + chain[1..];
    }
  }

  /** An error is retried if and only if no cause is a cancellation, a missed deadline or an NSX Status error. */
  lemma RetriableMeaning(e: Error)
    ensures Retriable(e) <==> forall c :: c in e.chain ==> c.Other?
  {
    OnlyOtherMeaning(e.chain);
  }

  /** Where a worker stands in vpcWorker, and the VPC it works on. */
  datatype Worker =
    | Top
    | Getting
    | Cleaning(path: Path)
    | Requeuing(path: Path)
    | Locking(path: Path, err: Option<Error>)
    | Sending(path: Path, failure: Error)
    | Inserting(path: Path, err: Option<Error>)
    | Checking(path: Path)
    | Unlocking(path: Path)
    | Forgetting(path: Path)
    | Finishing(path: Path)
    | Exited
  {
    predicate Busy() {
      !Top? && !Getting? && !Exited?
    }

    /** The VPC's only token is in this worker's hands. */
    predicate HoldsToken() {
      Cleaning? || Requeuing? || Locking? || Sending? || Inserting?
    }

    predicate InLock() {
      Sending? || Inserting? || Checking? || Unlocking?
    }
  }

  /** The last three fields are history: the worker that last fetched each VPC, how often
    * each VPC was tried, and the outcome of its last attempt. */
  datatype State = State(
    potential: set<Path>,
    queue: Queue<Path>,
    toAdd: set<Path>,
    completed: set<Path>,
    errors: seq<(Path, Error)>,
    lock: Option<nat>,
    cancelled: bool,
    workers: seq<Worker>,
    owner: map<Path, nat>,
    attempts: map<Path, nat>,
    last: map<Path, Option<Error>>)
  {
    function Attempts(p: Path): nat {
      if p in attempts then attempts[p] else 0
    }

    function Move(w: nat, to: Worker): State
      requires w < |workers|
    {
      this.(workers := workers[w := to])
    }
  }

  function Init(potential: set<Path>): State {
    State(potential, Empty<Path>(), potential, {}, [], None, false, seq(WORKERS, _ => Top), map[], map[], map[])
  }

  datatype Step =
    // the main goroutine, the context and the queue's timer
    | AddPath(p: Path)
    | Cancel
    | FireDelayed(p: Path)
    // worker w
    | CheckContext(w: nat)
    | GetPath(w: nat)
    | GetShutdown(w: nat)
    | Cleanup(w: nat, err: Option<Error>)
    | AddRateLimited(w: nat)
    | Lock(w: nat)
    | SendError(w: nat)
    | Insert(w: nat)
    | CompareAndShutDown(w: nat)
    | Unlock(w: nat)
    | Forget(w: nat)
    | Done(w: nat)
  {
    predicate IsCancel() { Cancel? }

    /** Main, the timer, and the workers up to the end of the clean-up call. */
    predicate IsDelivery() {
      AddPath? || Cancel? || FireDelayed? || CheckContext? || GetPath? || GetShutdown? || Cleanup?
    }

    /** A busy worker hands its VPC back to the queue. */
    predicate IsReturn() {
      AddRateLimited? || Forget? || Done?
    }

    /** A worker takes the step. */
    predicate ByWorker() {
      !AddPath? && !Cancel? && !FireDelayed?
    }
  }

  predicate At(s: State, w: nat) {
    w < |s.workers|
  }

  predicate Enabled(s: State, step: Step) {
    match step
    case AddPath(p) => p in s.toAdd
    case Cancel => !s.cancelled
    case FireDelayed(p) => p in s.queue.delayed
    case CheckContext(w) => At(s, w) && s.workers[w].Top?
    case GetPath(w) => At(s, w) && s.workers[w].Getting? && s.queue.fifo != []
    case GetShutdown(w) => At(s, w) && s.workers[w].Getting? && s.queue.fifo == [] && s.queue.shuttingDown
    case Cleanup(w, _) => At(s, w) && s.workers[w].Cleaning?
    case AddRateLimited(w) => At(s, w) && s.workers[w].Requeuing?
    case Lock(w) => At(s, w) && s.workers[w].Locking? && s.lock.None?
    case SendError(w) => At(s, w) && s.workers[w].Sending? && |s.errors| < |s.potential|
    case Insert(w) => At(s, w) && s.workers[w].Inserting?
    case CompareAndShutDown(w) => At(s, w) && s.workers[w].Checking?
    case Unlock(w) => At(s, w) && s.workers[w].Unlocking?
    case Forget(w) => At(s, w) && s.workers[w].Forgetting?
    case Done(w) => At(s, w) && s.workers[w].Finishing?
  }

  function Apply(s: State, step: Step): State
    requires Enabled(s, step)
  {
    match step
    case AddPath(p) => s.(toAdd := s.toAdd - {p}, queue := s.queue.Add(p))
    case Cancel => s.(cancelled := true)
    case FireDelayed(p) => s.(queue := s.queue.Fire(p))
    case CheckContext(w) =>
      if s.cancelled then s.(queue := s.queue.ShutDown()).Move(w, Exited) else s.Move(w, Getting)
    case GetPath(w) =>
      var (p, q) := s.queue.Get();
      s.(queue := q, owner := s.owner[p := w]).Move(w, Cleaning(p))
    case GetShutdown(w) => s.Move(w, Exited)
    case Cleanup(w, err) =>
      var p := s.workers[w].path;
      var tried := s.(attempts := s.attempts[p := s.Attempts(p) + 1], last := s.last[p := err]);
      if err.Some? && Retriable(err.value) && s.queue.NumRequeues(p) < MAX_RETRIES
      then tried.Move(w, Requeuing(p))
      else tried.Move(w, Locking(p, err))
    case AddRateLimited(w) =>
      var p := s.workers[w].path;
      s.(queue := s.queue.AddRateLimited(p)).Move(w, Finishing(p))
    case Lock(w) =>
      var Locking(p, err) := s.workers[w];
      s.(lock := Some(w)).Move(w, if err.Some? then Sending(p, err.value) else Inserting(p, None))
    case SendError(w) =>
      var Sending(p, e) := s.workers[w];
      s.(errors := s.errors + [(p, e)]).Move(w, Inserting(p, Some(e)))
    case Insert(w) =>
      var p := s.workers[w].path;
      s.(completed := s.completed + {p}).Move(w, Checking(p))
    case CompareAndShutDown(w) =>
      var compared := if s.potential == s.completed then s.(queue := s.queue.ShutDown()) else s;
      compared.Move(w, Unlocking(s.workers[w].path))
    case Unlock(w) => s.(lock := None).Move(w, Forgetting(s.workers[w].path))
    case Forget(w) =>
      var p := s.workers[w].path;
      s.(queue := s.queue.Forget(p)).Move(w, Finishing(p))
    case Done(w) => s.(queue := s.queue.Done(s.workers[w].path)).Move(w, Top)
  }

  /** All goroutines have returned: wg.Wait() no longer blocks. */
  predicate Terminal(s: State) {
    s.toAdd == {} && forall w :: 0 <= w < |s.workers| ==> s.workers[w].Exited?
  }

  datatype Outcome = Success | ContextError | VpcError(error: Error)

  /** What cleanupAutoCreatedVPCs returns after wg.Wait(). */
  function Returned(s: State): Outcome {
    if s.cancelled then ContextError
    else if |s.errors| > 0 then VpcError(s.errors[0].1)
    else Success
  }

  // ---- Runs ----

  predicate ValidRun(s: State, steps: seq<Step>)
    decreases |steps|
  {
    steps == [] || (Enabled(s, steps[0]) && ValidRun(Apply(s, steps[0]), steps[1..]))
  }

  function Run(s: State, steps: seq<Step>): State
    requires ValidRun(s, steps)
    decreases |steps|
  {
    if steps == [] then s else Run(Apply(s, steps[0]), steps[1..])
  }

  /** A run of one step more, at its front. */
  lemma Prepend(s: State, step: Step, rest: seq<Step>)
    requires Enabled(s, step) && ValidRun(Apply(s, step), rest)
    ensures ValidRun(s, [step] + rest) && Run(s, [step] + rest) == Run(Apply(s, step), rest)
  {
    assert ([step] + rest)[1..] == rest;
  }

  /** A run followed by a run. */
  lemma {:induction false} RunConcat(s: State, first: seq<Step>, second: seq<Step>)
    requires ValidRun(s, first) && ValidRun(Run(s, first), second)
    ensures ValidRun(s, first + second) && Run(s, first + second) == Run(Run(s, first), second)
    decreases |first|
  {
    if first == [] {
      assert [] + second == second;
    } else {
      assert (first + second)[1..] == first[1..] + second;
      RunConcat(Apply(s, first[0]), first[1..], second);
    }
  }
}
