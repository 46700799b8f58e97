/** Inventory batching once no new events arrive and the calls to NSX succeed: all work is done after
  * boundedly many steps, idle ticks aside, and then nothing is left unsynced. */
module InventoryProgress {
  import opened InventoryBatch

  /** No new event, and no key to retry. */
  predicate Quiet(step: Step) {
    !step.Event? && (step.CallReturns? ==> step.retry == {})
  }

  /** Garbage collection, and a tick of the timer that finds the buffer empty. */
  predicate IdleStep(s: State, step: Step) {
    step.CollectorLock? || step.CollectorUnlock? || ((step.TimerLock? || step.TimerCheck?) && s.buffer == {})
  }

  function FlushWork(s: State): nat {
    var b := |s.buffer|;
    match s.flush
    case NoFlush => if b == 0 then 0 else if s.mutex.Timer? then 4 * b + 2 else 4 * b + 3
    case Calling => 3 * b + 2
    case Requeueing(todo, retry) => b + |todo| + 2 + 13 * |todo * retry|
    case Finishing(todo) => |todo| + 1
  }

  function WorkerWork(w: WorkerPlace): nat {
    if w.Fetched? then 9 else if w.Inserting? then 8 else 0
  }

  /** What is left to do: delays to fire, keys to fetch, to insert, to flush and to report. */
  function Work(s: State): nat {
    12 * |s.queue.delayed| + 11 * |s.queue.dirty| + WorkerWork(s.worker) + FlushWork(s)
  }

  lemma QueueStepsWork(batch: nat, s: State, step: Step)
    requires Inv(batch, s) && Enabled(s, step) && (step.FireDelay? || step.GetKey? || step.WorkerLock?)
    ensures Work(Next(batch, s, step)) < Work(s)
  {
    if step.FireDelay? {
      assert |s.queue.delayed - {step.k}| == |s.queue.delayed| - 1;
      assert |s.queue.dirty + {step.k}| <= |s.queue.dirty| + 1;
    } else if step.GetKey? {
      var k := s.queue.fifo[0];
      assert k in s.queue.fifo;
      assert |s.queue.dirty - {k}| == |s.queue.dirty| - 1;
    }
  }

  lemma InsertWork(batch: nat, s: State)
    requires Inv(batch, s) && s.worker.Inserting?
    ensures Work(Next(batch, s, Insert)) < Work(s)
  {
    assert |s.buffer + {s.worker.key}| == |s.buffer| + 1;
  }

  lemma RequeueWork(batch: nat, s: State, k: Key)
    requires Inv(batch, s) && Enabled(s, Requeue(k))
    ensures Work(Next(batch, s, Requeue(k))) < Work(s)
  {
    OneLessToRetry(s.flush.todo, s.flush.retry, k);
    assert |s.queue.delayed + {k}| <= |s.queue.delayed| + 1;
  }

  lemma OneLessToRetry(todo: set<Key>, retry: set<Key>, k: Key)
    requires k in todo
    ensures |todo - {k}| == |todo| - 1
    ensures |(todo - {k}) * retry| == |todo * retry| - if k in retry then 1 else 0
  {
    if k in retry {
      assert (todo - {k}) * retry == todo * retry - {k};
    } else {
      assert (todo - {k}) * retry == todo * retry;
    }
  }

  lemma TimerStepsWork(batch: nat, s: State, step: Step)
    requires Inv(batch, s) && Enabled(s, step) && Quiet(step) && !IdleStep(s, step)
    requires step.TimerLock? || step.TimerCheck? || step.CallReturns?
    ensures Work(Next(batch, s, step)) < Work(s)
  {
    if step.CallReturns? {
      assert s.buffer * {} == {};
    }
  }

  lemma ReportStepsWork(batch: nat, s: State, step: Step)
    requires Inv(batch, s) && Enabled(s, step) && (step.ReportDone? || step.EndFlush?)
    ensures Work(Next(batch, s, step)) < Work(s)
  {
  }

  lemma QuietStepFrom(batch: nat, s: State, step: Step)
    requires Inv(batch, s) && Enabled(s, step) && Quiet(step) && !IdleStep(s, step)
    ensures Work(Next(batch, s, step)) < Work(s)
  {
    if step.FireDelay? || step.GetKey? || step.WorkerLock? {
      QueueStepsWork(batch, s, step);
    } else if step.Insert? {
      InsertWork(batch, s);
    } else if step.Requeue? {
      RequeueWork(batch, s, step.k);
    } else if step.ReportDone? || step.EndFlush? {
      ReportStepsWork(batch, s, step);
    } else {
      TimerStepsWork(batch, s, step);
    }
  }

  lemma IdleStepFrom(batch: nat, s: State, step: Step)
    requires Inv(batch, s) && Enabled(s, step) && IdleStep(s, step)
    ensures Work(Next(batch, s, step)) == Work(s)
  {
  }

  /** In quiet times every step but an idle one does some of the work, and none adds to it. */
  lemma QuietStep(batch: nat, steps: seq<Step>, step: Step)
    requires Enabled(Run(batch, steps), step) && Quiet(step)
    ensures var s := Run(batch, steps);
            if IdleStep(s, step) then Work(Next(batch, s, step)) == Work(s) else Work(Next(batch, s, step)) < Work(s)
  {
    RunInv(batch, steps);
    var s := Run(batch, steps);
    if IdleStep(s, step) {
      IdleStepFrom(batch, s, step);
    } else {
      QuietStepFrom(batch, s, step);
    }
  }

  /** The steps of more, taken after steps, are enabled and quiet. */
  predicate QuietRun(batch: nat, steps: seq<Step>, more: seq<Step>) {
    more == []
    || (var n := |more| - 1;
        && QuietRun(batch, steps, more[..n])
        && Enabled(Run(batch, steps + more[..n]), more[n]) && Quiet(more[n]))
  }

  function WorkingSteps(batch: nat, steps: seq<Step>, more: seq<Step>): nat {
    if more == [] then 0
    else
      var n := |more| - 1;
      WorkingSteps(batch, steps, more[..n]) + if IdleStep(Run(batch, steps + more[..n]), more[n]) then 0 else 1
  }

  /** From any reachable state, a quiet continuation takes at most Work many steps besides idle ones. */
  lemma {:induction false} BoundedWork(batch: nat, steps: seq<Step>, more: seq<Step>)
    requires QuietRun(batch, steps, more)
    ensures WorkingSteps(batch, steps, more) + Work(Run(batch, steps + more)) <= Work(Run(batch, steps))
  {
    if more == [] {
      assert steps + more == steps;
    } else {
      var n := |more| - 1;
      BoundedWork(batch, steps, more[..n]);
      QuietStep(batch, steps + more[..n], more[n]);
      assert (steps + more)[..|steps + more| - 1] == steps + more[..n];
    }
  }

  /** As long as some event is unsynced, there is work. */
  lemma UnsyncedIsWork(batch: nat, steps: seq<Step>, k: Key)
    requires k in Run(batch, steps).unsynced
    ensures Work(Run(batch, steps)) > 0
  {
    NoEventLost(batch, steps, k);
    var s := Run(batch, steps);
    assert k in s.queue.dirty ==> |s.queue.dirty| > 0;
    assert k in s.queue.delayed ==> |s.queue.delayed| > 0;
    assert k in s.buffer ==> |s.buffer| > 0;
  }

  /** As long as there is work and the mutex is free, some of it can be done at once; when the mutex is
    * held, MutexReleased says that its holder can go on. */
  lemma WorkCanBeDone(batch: nat, steps: seq<Step>)
    requires Run(batch, steps).mutex.Nobody? && Work(Run(batch, steps)) > 0
    ensures exists step: Step ::
              Enabled(Run(batch, steps), step) && Quiet(step) && !IdleStep(Run(batch, steps), step)
  {
    RunInv(batch, steps);
    FreeMutex(batch, steps);
    SomethingLeft(Run(batch, steps));
    SomethingToDo(batch, Run(batch, steps));
  }

  lemma SomethingLeft(s: State)
    requires s.flush.NoFlush? && (s.worker.InGet? || s.worker.Fetched?) && Work(s) > 0
    ensures s.queue.delayed != {} || s.worker.Fetched? || s.buffer != {} || s.queue.dirty != {}
  {
  }

  lemma SomethingToDo(batch: nat, s: State)
    requires Inv(batch, s) && s.mutex.Nobody? && s.flush.NoFlush?
    requires s.queue.delayed != {} || s.worker.Fetched? || s.buffer != {} || s.queue.dirty != {}
    ensures exists step: Step :: Enabled(s, step) && Quiet(step) && !IdleStep(s, step)
  {
    if s.worker.Fetched? {
      assert Enabled(s, WorkerLock) && Quiet(WorkerLock) && !IdleStep(s, WorkerLock);
    } else if s.buffer != {} {
      assert Enabled(s, TimerLock) && Quiet(TimerLock) && !IdleStep(s, TimerLock);
    } else if s.queue.delayed != {} {
      var k :| k in s.queue.delayed;
      assert Enabled(s, FireDelay(k)) && Quiet(FireDelay(k)) && !IdleStep(s, FireDelay(k));
    } else {
      var k :| k in s.queue.dirty;
      assert KeyOk(s, k);
      assert k in s.queue.fifo;
      assert Enabled(s, GetKey) && Quiet(GetKey) && !IdleStep(s, GetKey);
    }
  }
}
