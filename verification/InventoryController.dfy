/** The goroutines' code for one item and one timer tick, on the queue and the buffer. Every method
  * takes the steps of InventoryBatch that its trace says. */
module InventoryController {
  import opened Common
  import opened WorkQueue
  import opened InventoryBatch

  /** What one key's failure counter becomes in a flush. */
  function FailuresAfter(before: map<Key, nat>, k: Key, retry: set<Key>): Option<nat> {
    if k in retry then Some(Count(before, k) + 1) else None
  }

  /** The failure counters after the keys in handled were put back or forgotten. */
  ghost predicate Counted(before: map<Key, nat>, after: map<Key, nat>, handled: set<Key>, retry: set<Key>) {
    && (forall k :: k in handled ==> (if k in after then Some(after[k]) else None) == FailuresAfter(before, k, retry))
    && (forall k :: k !in handled ==> Count(after, k) == Count(before, k))
  }

  lemma CountedStep(before: map<Key, nat>, q: Queue<Key>, handled: set<Key>, k: Key, retry: set<Key>)
    requires Counted(before, q.failures, handled, retry) && k !in handled
    ensures Counted(before, (if k in retry then q.AddRateLimited(k) else q.Forget(k)).failures, handled + {k}, retry)
  {
  }

  class InventoryController {
    const batch: nat
    var queue: Queue<Key>
    var keyBuffer: set<Key>
    ghost var trace: seq<Step>

    ghost function Now(): State
      reads this
    {
      Run(batch, trace)
    }

    ghost predicate Valid()
      reads this
    {
      queue == Now().queue && keyBuffer == Now().buffer
    }

    constructor (batch: nat)
      ensures Valid() && this.batch == batch && trace == []
    {
      this.batch := batch;
      queue, keyBuffer, trace := Empty(), {}, [];
    }

    ghost method Took(step: Step)
      requires queue == Next(batch, Now(), step).queue && keyBuffer == Next(batch, Now(), step).buffer
      modifies this`trace
      ensures Valid() && Now() == Next(batch, old(Now()), step) && trace == old(trace) + [step]
    {
      trace := trace + [step];
      assert trace[..|trace| - 1] == old(trace);
    }

    /** The loop that puts failed keys back and forgets the others. */
    method RequeueKeys(retryKeys: set<Key>)
      requires Valid() && Now().flush == NextRequeue(keyBuffer, retryKeys, keyBuffer)
      modifies this
      ensures Valid() && Now().flush == Finishing(keyBuffer)
      ensures keyBuffer == old(keyBuffer)
      ensures Now() == old(Now()).(queue := queue, flush := Finishing(keyBuffer))
      ensures queue == old(queue).(delayed := old(queue).delayed + keyBuffer * retryKeys, failures := queue.failures)
      ensures Counted(old(queue).failures, queue.failures, keyBuffer, retryKeys)
    {
      RunInv(batch, trace);
      var todo := keyBuffer;
      while todo != {}
        invariant Valid() && keyBuffer == old(keyBuffer) && todo <= keyBuffer
        invariant Now() == old(Now()).(queue := queue, flush := NextRequeue(todo, retryKeys, keyBuffer))
        invariant queue == old(queue).(delayed := old(queue).delayed + (keyBuffer - todo) * retryKeys,
                                             failures := queue.failures)
        invariant Counted(old(queue).failures, queue.failures, keyBuffer - todo, retryKeys)
      {
        var k :| k in todo;
        CountedStep(old(queue).failures, queue, keyBuffer - todo, k, retryKeys);
        queue := if k in retryKeys then queue.AddRateLimited(k) else queue.Forget(k);
        assert keyBuffer - (todo - {k}) == (keyBuffer - todo) + {k};
        todo := todo - {k};
        Took(Step.Requeue(k));
      }
      assert keyBuffer - todo == keyBuffer;
    }

    method ReportKey(k: Key, ghost todo: set<Key>)
      requires Valid() && Now().flush == Finishing(todo) && k in todo
      modifies this
      ensures Valid() && Now() == old(Now()).(queue := queue, flush := Finishing(todo - {k}), dones := Now().dones)
      ensures keyBuffer == old(keyBuffer)
      ensures queue.processing == old(queue).processing - {k} && queue.dirty == old(queue).dirty
      ensures queue.delayed == old(queue).delayed && queue.failures == old(queue).failures
    {
      queue := queue.Done(k);
      Took(Step.ReportDone(k));
    }

    /** The deferred loop that reports every key done. */
    method ReportKeys()
      requires Valid() && Now().flush == Finishing(keyBuffer)
      modifies this
      ensures Valid() && Now().flush.NoFlush? && Now().mutex.Nobody? && !Now().worker.Flushing?
      ensures old(Now()).worker.Flushing? ==> Now().worker.InGet?
      ensures keyBuffer == {}
      ensures queue.processing == old(queue).processing - old(keyBuffer)
      ensures queue.dirty == old(queue).dirty && queue.delayed == old(queue).delayed
      ensures queue.failures == old(queue).failures
      ensures forall k :: k in old(keyBuffer) && k in queue.dirty ==> k in queue.fifo
    {
      ghost var now := Now();
      var todo := keyBuffer;
      while todo != {}
        invariant Valid() && keyBuffer == old(keyBuffer) && todo <= keyBuffer
        invariant Now() == now.(queue := queue, flush := Finishing(todo), dones := Now().dones)
        invariant queue.processing == old(queue).processing - (keyBuffer - todo)
        invariant queue.dirty == old(queue).dirty && queue.delayed == old(queue).delayed
        invariant queue.failures == old(queue).failures
      {
        var k :| k in todo;
        ReportKey(k, todo);
        assert keyBuffer - (todo - {k}) == (keyBuffer - todo) + {k};
        todo := todo - {k};
      }
      keyBuffer := {};
      Took(Step.EndFlush);
      RunInv(batch, trace);
    }

    /** syncInventoryKeys with the given result of SyncInventoryObject. On an error every key is
      * retried. Nothing stays in processing, and every key that failed, or got an event
      * meanwhile, waits in the queue or for its back-off. */
    method SyncInventoryKeys(result: Result<set<Key>, string>)
      requires Valid() && Now().flush.Calling?
      modifies this
      ensures Valid() && Now().mutex.Nobody? && Now().flush.NoFlush? && !Now().worker.Flushing?
      ensures old(Now()).worker.Flushing? ==> Now().worker.InGet?
      ensures keyBuffer == {}
      ensures queue.processing == old(queue).processing - old(keyBuffer)
      ensures queue.dirty == old(queue).dirty
      ensures queue.delayed
              == old(queue).delayed + (if result.Err? then old(keyBuffer) else old(keyBuffer) * result.value)
      ensures Counted(old(queue).failures, queue.failures, old(keyBuffer),
                      if result.Err? then old(keyBuffer) else result.value)
      ensures forall k :: k in old(keyBuffer) && k in queue.dirty ==> k in queue.fifo
    {
      var retryKeys := if result.Err? then keyBuffer else result.value;
      assert result.Err? ==> keyBuffer * retryKeys == keyBuffer;
      Took(Step.CallReturns(retryKeys));
      RequeueKeys(retryKeys);
      ReportKeys();
    }

    /** processNextInventoryWorkItem, when the queue has a key and the mutex is free. */
    method ProcessNextInventoryWorkItem(result: Result<set<Key>, string>)
      requires Valid() && Now().worker.InGet? && Now().mutex.Nobody? && queue.fifo != []
      modifies this
      ensures Valid() && Now().worker.InGet? && Now().mutex.Nobody?
      ensures var b := old(keyBuffer) + {old(queue).fifo[0]};
              if |b| < batch then
                keyBuffer == b && queue == old(queue).Get().1
              else
                keyBuffer == {} && queue.processing == old(queue).processing - b
                && queue.delayed == old(queue).delayed + (if result.Err? then b else b * result.value)
                && queue.dirty == old(queue).dirty - {old(queue).fifo[0]}
                && Counted(old(queue).failures, queue.failures, b, if result.Err? then b else result.value)
    {
      RunInv(batch, trace);
      var (key, q) := queue.Get();
      queue := q;
      Took(Step.GetKey);
      Took(Step.WorkerLock);
      keyBuffer := keyBuffer + {key};
      ghost var before := old(queue).processing;
      Took(Step.Insert);
      if |keyBuffer| >= batch {
        assert queue.processing - keyBuffer == before - keyBuffer;
        SyncInventoryKeys(result);
      }
    }

    /** inventoryTimeWorker, when the mutex is free. */
    method InventoryTimeWorker(result: Result<set<Key>, string>)
      requires Valid() && Now().mutex.Nobody?
      modifies this
      ensures Valid() && Now().mutex.Nobody? && keyBuffer == {}
      ensures queue.processing == old(queue).processing - old(keyBuffer) && queue.dirty == old(queue).dirty
      ensures queue.delayed
              == old(queue).delayed + (if result.Err? then old(keyBuffer) else old(keyBuffer) * result.value)
      ensures Counted(old(queue).failures, queue.failures, old(keyBuffer),
                      if result.Err? then old(keyBuffer) else result.value)
    {
      RunInv(batch, trace);
      Took(Step.TimerLock);
      var flush := |keyBuffer| > 0;
      Took(Step.TimerCheck);
      if flush {
        SyncInventoryKeys(result);
      } else {
        assert keyBuffer == {};
      }
    }
  }
}
