/** The rate-limited work queue of client-go, as its callers rely on it: a queue, the
  * keys waiting to be processed (dirty), the keys being processed, the keys waiting for
  * a back-off delay, and one failure counter per key. Delays have no length here:
  * a delayed key may fire at any later step.
  */
module WorkQueue {
  import opened Common

  datatype Queue<T(==, !new)> = Queue(
    fifo: seq<T>,
    dirty: set<T>,
    processing: set<T>,
    delayed: set<T>,
    failures: map<T, nat>,
    shuttingDown: bool)
  {
    ghost predicate Valid() {
      && Distinct(fifo)
      && (forall x :: x in fifo <==> x in dirty && x !in processing)
      && (shuttingDown ==> delayed == {})
    }

    /** A dirty key is not queued twice; a key in processing waits for its Done. */
    function Add(x: T): (q: Queue<T>)
      ensures Valid() ==> q.Valid()
    {
      if shuttingDown || x in dirty then this
      else if x in processing then this.(dirty := dirty + {x})
      else this.(dirty := dirty + {x}, fifo := fifo + [x])
    }

    function Get(): (r: (T, Queue<T>))
      requires fifo != []
      ensures Valid() ==> r.1.Valid() && r.0 in dirty && r.0 !in processing
    {
      (fifo[0], this.(fifo := fifo[1..], dirty := dirty - {fifo[0]}, processing := processing + {fifo[0]}))
    }

    /** A key that became dirty while it was processed is queued again. */
    function Done(x: T): (q: Queue<T>)
      ensures Valid() && x in processing ==> q.Valid()
    {
      var rest := this.(processing := processing - {x});
      if x in dirty then rest.(fifo := fifo + [x]) else rest
    }

    function NumRequeues(x: T): nat {
      if x in failures then failures[x] else 0
    }

    /** The failure is counted even when the queue is shutting down and drops the key. */
    function AddRateLimited(x: T): (q: Queue<T>)
      ensures Valid() ==> q.Valid()
    {
      var counted := this.(failures := failures[x := NumRequeues(x) + 1]);
      if shuttingDown then counted else counted.(delayed := delayed + {x})
    }

    function Fire(x: T): (q: Queue<T>)
      ensures Valid() ==> q.Valid()
    {
      this.(delayed := delayed - {x}).Add(x)
    }

    function Forget(x: T): (q: Queue<T>)
      ensures Valid() ==> q.Valid()
    {
      this.(failures := failures - {x})
    }

    /** Queued keys can still be fetched; delayed ones are lost. */
    function ShutDown(): (q: Queue<T>)
      ensures Valid() ==> q.Valid()
    {
      this.(shuttingDown := true, delayed := {})
    }
  }

  function Empty<T(==, !new)>(): (q: Queue<T>)
    ensures q.Valid()
  {
    Queue([], {}, {}, {}, map[], false)
  }
}
