/** Batching of inventory keys: a worker that fetches keys into a buffer and flushes it when it is
  * full, a timer that flushes it, and garbage collection, serialised by one mutex, while events
  * and back-off timers put keys on the queue at any time. */
module InventoryBatch {
  import opened WorkQueue

  type Key = string

  datatype Holder = Nobody | Worker | Timer | Collector

  /** The worker: in Get, waiting for the mutex with a key, holding it with a key not inserted yet,
    * or in a flush. */
  datatype WorkerPlace = InGet | Fetched(key: Key) | Inserting(key: Key) | Flushing

  /** A flush: calling NSX, putting failed keys back and forgetting the others, reporting Done. */
  datatype Flush = NoFlush | Calling | Requeueing(todo: set<Key>, retry: set<Key>) | Finishing(todo: set<Key>)

  /** Besides the source's state, how often each key was fetched and reported done, and the keys
    * with an event after which no flush has begun for them, or whose last flush failed. */
  datatype State = State(
    queue: Queue<Key>, buffer: set<Key>, mutex: Holder, worker: WorkerPlace, flush: Flush,
    gets: map<Key, nat>, dones: map<Key, nat>, unsynced: set<Key>)

  function Init(): State {
    State(Empty(), {}, Nobody, InGet, NoFlush, map[], map[], {})
  }

  datatype Step =
    | Event(k: Key)                // an informer handler adds the key
    | FireDelay(k: Key)            // a back-off ends
    | GetKey
    | WorkerLock
    | Insert
    | TimerLock
    | TimerCheck
    | CollectorLock
    | CollectorUnlock
    | CallReturns(retry: set<Key>) // SyncInventoryObject; on an error every key of the buffer is to be retried
    | Requeue(k: Key)
    | ReportDone(k: Key)
    | EndFlush

  predicate Enabled(s: State, step: Step) {
    match step
    case Event(_) => true
    case FireDelay(k) => k in s.queue.delayed
    case GetKey => s.worker.InGet? && s.queue.fifo != []
    case WorkerLock => s.worker.Fetched? && s.mutex.Nobody?
    case Insert => s.worker.Inserting?
    case TimerLock => s.mutex.Nobody?
    case TimerCheck => s.mutex.Timer? && s.flush.NoFlush?
    case CollectorLock => s.mutex.Nobody?
    case CollectorUnlock => s.mutex.Collector?
    case CallReturns(_) => s.flush.Calling?
    case Requeue(k) => s.flush.Requeueing? && k in s.flush.todo
    case ReportDone(k) => (s.flush.Finishing? && k in s.flush.todo)
    case EndFlush => s.flush == Finishing({})
  }

  function Count(m: map<Key, nat>, k: Key): nat {
    if k in m then m[k] else 0
  }

  function Bump(m: map<Key, nat>, k: Key): map<Key, nat> {
    m[k := Count(m, k) + 1]
  }

  function NextRequeue(todo: set<Key>, retry: set<Key>, buffer: set<Key>): Flush {
    if todo == {} then Finishing(buffer) else Requeueing(todo, retry)
  }

  function Next(batch: nat, s: State, step: Step): State {
    if !Enabled(s, step) then s
    else match step
      case Event(k) => s.(queue := s.queue.Add(k), unsynced := s.unsynced + {k})
      case FireDelay(k) => s.(queue := s.queue.Fire(k))
      case GetKey =>
        var (k, q) := s.queue.Get();
        s.(queue := q, worker := Fetched(k), gets := Bump(s.gets, k))
      case WorkerLock => s.(mutex := Worker, worker := Inserting(s.worker.key))
      case Insert =>
        var buffer := s.buffer + {s.worker.key};
        if |buffer| >= batch then
          s.(buffer := buffer, worker := Flushing, flush := Calling, unsynced := s.unsynced - buffer)
        else s.(buffer := buffer, worker := InGet, mutex := Nobody)
      case TimerLock => s.(mutex := Timer)
      case TimerCheck =>
        if |s.buffer| > 0 then s.(flush := Calling, unsynced := s.unsynced - s.buffer)
        else s.(mutex := Nobody)
      case CollectorLock => s.(mutex := Collector)
      case CollectorUnlock => s.(mutex := Nobody)
      case CallReturns(retry) =>
        s.(flush := NextRequeue(s.buffer, retry, s.buffer), unsynced := s.unsynced + s.buffer * retry)
      case Requeue(k) =>
        s.(queue := if k in s.flush.retry then s.queue.AddRateLimited(k) else s.queue.Forget(k),
           flush := NextRequeue(s.flush.todo - {k}, s.flush.retry, s.buffer))
      case ReportDone(k) =>
        s.(queue := s.queue.Done(k), flush := Finishing(s.flush.todo - {k}), dones := Bump(s.dones, k))
      case EndFlush =>
        s.(buffer := {}, mutex := Nobody, flush := NoFlush, worker := if s.worker.Flushing? then InGet else s.worker)
  }

  function Run(batch: nat, steps: seq<Step>): State {
    if steps == [] then Init() else Next(batch, Run(batch, steps[..|steps| - 1]), steps[|steps| - 1])
  }

  // ---- The invariant ----

  /** The keys that have been fetched and not reported done. */
  predicate Held(s: State, k: Key) {
    || (if s.flush.Finishing? then k in s.flush.todo else k in s.buffer)
    || ((s.worker.Fetched? || s.worker.Inserting?) && s.worker.key == k)
  }

  /** The key is queued, delayed, held before a flush, or about to be put back after one. */
  predicate Scheduled(s: State, k: Key) {
    || k in s.queue.dirty || k in s.queue.delayed
    || ((s.worker.Fetched? || s.worker.Inserting?) && s.worker.key == k)
    || match s.flush {
         case NoFlush => k in s.buffer
         case Calling => false
         case Requeueing(todo, retry) => k in todo && k in retry
         case Finishing(_) => false
       }
  }

  predicate KeyOk(s: State, k: Key) {
    && (k in s.queue.processing <==> Held(s, k))
    && Count(s.gets, k) == Count(s.dones, k) + (if k in s.queue.processing then 1 else 0)
    && (k in s.unsynced ==> Scheduled(s, k))
  }

  predicate LocksOk(s: State) {
    && !s.queue.shuttingDown
    && (s.mutex.Worker? <==> s.worker.Inserting? || s.worker.Flushing?)
    && (s.worker.Flushing? ==> !s.flush.NoFlush?)
    && (!s.flush.NoFlush? ==> s.worker.Flushing? || s.mutex.Timer?)
  }

  predicate BufferOk(batch: nat, s: State) {
    && (s.flush.NoFlush? && batch > 0 ==> |s.buffer| < batch)
    && (s.flush.Requeueing? ==> s.flush.todo <= s.buffer && s.flush.todo != {})
    && (s.flush.Finishing? ==> s.flush.todo <= s.buffer)
    && (s.worker.Fetched? || s.worker.Inserting? ==>
          s.worker.key !in if s.flush.Finishing? then s.flush.todo else s.buffer)
  }

  ghost predicate Inv(batch: nat, s: State) {
    s.queue.Valid() && LocksOk(s) && BufferOk(batch, s) && forall k :: KeyOk(s, k)
  }

  lemma StepQueue(batch: nat, s: State, step: Step)
    requires Inv(batch, s)
    ensures Next(batch, s, step).queue.Valid()
  {
    if step.ReportDone? {
      assert KeyOk(s, step.k);
    }
  }

  lemma StepLocks(batch: nat, s: State, step: Step)
    requires Inv(batch, s)
    ensures LocksOk(Next(batch, s, step))
  {
  }

  lemma StepBuffer(batch: nat, s: State, step: Step)
    requires Inv(batch, s)
    ensures BufferOk(batch, Next(batch, s, step))
  {
    if step.GetKey? && Enabled(s, step) {
      var k := s.queue.fifo[0];
      assert k in s.queue.fifo && KeyOk(s, k);
      assert k !in s.queue.processing && !Held(s, k);
    }
  }

  lemma StepKey(batch: nat, s: State, step: Step, k: Key)
    requires Inv(batch, s)
    ensures KeyOk(Next(batch, s, step), k)
  {
    assert KeyOk(s, k);
    if k in Next(batch, s, step).unsynced {
      StepScheduled(batch, s, step, k);
    }
  }

  lemma StepScheduled(batch: nat, s: State, step: Step, k: Key)
    requires Inv(batch, s) && k in Next(batch, s, step).unsynced
    ensures Scheduled(Next(batch, s, step), k)
  {
    assert KeyOk(s, k);
    if step.Requeue? && s.flush.Requeueing? && k in s.flush.todo {
      assert k == step.k || k in s.flush.todo - {step.k};
    } else if step.CallReturns? && k in s.buffer {
      assert s.buffer != {};
    }
  }

  lemma {:induction false} RunInv(batch: nat, steps: seq<Step>)
    ensures Inv(batch, Run(batch, steps))
  {
    if steps != [] {
      var s, step := Run(batch, steps[..|steps| - 1]), steps[|steps| - 1];
      RunInv(batch, steps[..|steps| - 1]);
      StepQueue(batch, s, step);
      StepLocks(batch, s, step);
      StepBuffer(batch, s, step);
      forall k ensures KeyOk(Next(batch, s, step), k) { StepKey(batch, s, step, k); }
    }
  }

  // ---- What it gives ----

  /** Whenever nobody holds the mutex, the keys in processing are the buffer and the key just
    * fetched, which is not in the buffer, and the buffer is smaller than a batch. */
  lemma FreeMutex(batch: nat, steps: seq<Step>)
    requires Run(batch, steps).mutex.Nobody?
    ensures var s := Run(batch, steps);
            && s.flush.NoFlush? && (s.worker.InGet? || s.worker.Fetched?)
            && s.queue.processing == s.buffer + (if s.worker.Fetched? then {s.worker.key} else {})
            && (s.worker.Fetched? ==> s.worker.key !in s.buffer)
            && (batch >= 1 ==> |s.buffer| < batch)
  {
    RunInv(batch, steps);
    var s := Run(batch, steps);
    forall k
      ensures k in s.queue.processing <==> k in s.buffer || (s.worker.Fetched? && k == s.worker.key)
    {
      assert KeyOk(s, k);
    }
  }

  /** Only the holder of the mutex flushes: garbage collection never overlaps a flush. */
  lemma CollectorAlone(batch: nat, steps: seq<Step>)
    requires Run(batch, steps).mutex.Collector?
    ensures Run(batch, steps).flush.NoFlush? && !Run(batch, steps).worker.Flushing?
  {
    RunInv(batch, steps);
  }

  /** Every Get is matched by exactly one Done: a key in processing has one outstanding, any
    * other none. */
  lemma GetsMatchDones(batch: nat, steps: seq<Step>, k: Key)
    ensures var s := Run(batch, steps);
            Count(s.gets, k) - Count(s.dones, k) == if k in s.queue.processing then 1 else 0
  {
    RunInv(batch, steps);
    assert KeyOk(Run(batch, steps), k);
  }

  /** No event is lost: a key whose event no flush has covered, or whose flush failed, is queued,
    * delayed, or held for a coming flush or re-add. */
  lemma NoEventLost(batch: nat, steps: seq<Step>, k: Key)
    requires k in Run(batch, steps).unsynced
    ensures Scheduled(Run(batch, steps), k)
  {
    RunInv(batch, steps);
    assert KeyOk(Run(batch, steps), k);
  }

  /** A key that gets an event while it is being flushed is queued again by its Done. */
  lemma RequeuedByDone(batch: nat, steps: seq<Step>, k: Key)
    requires var s := Run(batch, steps);
             Enabled(s, ReportDone(k)) && k in s.queue.dirty
    ensures k in Run(batch, steps + [ReportDone(k)]).queue.fifo
  {
    assert (steps + [ReportDone(k)])[..|steps|] == steps;
  }

  /** Keys to be retried are put back before any key of the flush is reported done. */
  lemma RetriedBeforeDone(batch: nat, steps: seq<Step>, k: Key)
    requires var s := Run(batch, steps);
             s.flush.Finishing? && k in s.unsynced && k in s.buffer
    ensures var s := Run(batch, steps);
            k in s.queue.dirty || k in s.queue.delayed || (s.worker.Fetched? && s.worker.key == k)
  {
    RunInv(batch, steps);
    assert KeyOk(Run(batch, steps), k);
  }

  /** The steps of whoever holds the mutex. */
  predicate ByHolder(step: Step) {
    step.Insert? || step.TimerCheck? || step.CollectorUnlock? || step.CallReturns? || step.Requeue?
    || step.ReportDone? || step.EndFlush?
  }

  /** A bound on the steps the holder needs to release the mutex. */
  function StepsToRelease(s: State): nat {
    match s.mutex
    case Nobody => 0
    case Collector => 1
    case _ =>
      match s.flush
      case NoFlush => 2 * |s.buffer| + 6
      case Calling => 2 * |s.buffer| + 3
      case Requeueing(todo, _) => |todo| + |s.buffer| + 2
      case Finishing(todo) => |todo| + 1
  }

  /** The mutex is always released: its holder can always step, every such step brings the release
    * nearer, and no other step moves it. */
  lemma MutexReleased(batch: nat, steps: seq<Step>)
    requires !Run(batch, steps).mutex.Nobody?
    ensures exists step: Step :: ByHolder(step) && Enabled(Run(batch, steps), step)
    ensures forall step: Step :: Enabled(Run(batch, steps), step) ==>
              if ByHolder(step)
              then StepsToRelease(Next(batch, Run(batch, steps), step)) < StepsToRelease(Run(batch, steps))
              else StepsToRelease(Next(batch, Run(batch, steps), step)) == StepsToRelease(Run(batch, steps))
  {
    RunInv(batch, steps);
    var s := Run(batch, steps);
    HolderCanStep(batch, s);
    forall step: Step | Enabled(s, step)
      ensures if ByHolder(step) then StepsToRelease(Next(batch, s, step)) < StepsToRelease(s)
              else StepsToRelease(Next(batch, s, step)) == StepsToRelease(s)
    {
      if ByHolder(step) {
        HolderStepNearer(batch, s, step);
      } else {
        OtherStepNeutral(batch, s, step);
      }
    }
  }

  lemma HolderStepNearer(batch: nat, s: State, step: Step)
    requires Inv(batch, s) && ByHolder(step) && Enabled(s, step)
    ensures StepsToRelease(Next(batch, s, step)) < StepsToRelease(s)
  {
    if step.Insert? {
      assert |s.buffer + {s.worker.key}| <= |s.buffer| + 1;
    }
  }

  lemma OtherStepNeutral(batch: nat, s: State, step: Step)
    requires Inv(batch, s) && !ByHolder(step) && Enabled(s, step) && !s.mutex.Nobody?
    ensures StepsToRelease(Next(batch, s, step)) == StepsToRelease(s)
  {
  }

  lemma HolderCanStep(batch: nat, s: State)
    requires Inv(batch, s) && !s.mutex.Nobody?
    ensures exists step: Step :: ByHolder(step) && Enabled(s, step)
  {
    if s.mutex.Collector? {
      assert Enabled(s, CollectorUnlock) && ByHolder(CollectorUnlock);
    } else if s.worker.Inserting? {
      assert Enabled(s, Insert) && ByHolder(Insert);
    } else {
      match s.flush {
        case NoFlush => assert Enabled(s, TimerCheck) && ByHolder(TimerCheck);
        case Calling => assert Enabled(s, CallReturns({})) && ByHolder(CallReturns({}));
        case Requeueing(todo, _) =>
          var x :| x in todo;
          assert Enabled(s, Requeue(x)) && ByHolder(Requeue(x));
        case Finishing(todo) =>
          if todo == {} {
            assert Enabled(s, EndFlush) && ByHolder(EndFlush);
          } else {
            var x :| x in todo;
            assert Enabled(s, ReportDone(x)) && ByHolder(ReportDone(x));
          }
      }
    }
  }
}
