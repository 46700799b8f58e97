/** What it means that a key is unsynced, told from the run alone. */
module InventoryNews {
  import opened InventoryBatch

  /** An event for the key, or the answer that its flush has failed. */
  predicate News(s: State, step: Step, k: Key) {
    step == Step.Event(k) || (step.CallReturns? && s.flush.Calling? && k in s.buffer && k in step.retry)
  }

  /** A flush of a buffer with the key begins. */
  predicate Covers(batch: nat, s: State, step: Step, k: Key) {
    !s.flush.Calling? && Next(batch, s, step).flush.Calling? && k in Next(batch, s, step).buffer
  }

  /** There has been news of the key that no later flush has covered. */
  predicate NewsPending(batch: nat, steps: seq<Step>, k: Key) {
    exists i :: 0 <= i < |steps| && NewsAt(batch, steps, i, k) && NotCoveredSince(batch, steps, i, k)
  }

  predicate NewsAt(batch: nat, steps: seq<Step>, i: nat, k: Key)
    requires i < |steps|
  {
    News(Run(batch, steps[..i]), steps[i], k)
  }

  predicate NotCoveredSince(batch: nat, steps: seq<Step>, i: nat, k: Key) {
    forall j :: i < j < |steps| ==> !CoversAt(batch, steps, j, k)
  }

  predicate CoversAt(batch: nat, steps: seq<Step>, j: nat, k: Key)
    requires j < |steps|
  {
    Covers(batch, Run(batch, steps[..j]), steps[j], k)
  }

  lemma UnsyncedStep(batch: nat, s: State, step: Step, k: Key)
    requires LocksOk(s)
    ensures k in Next(batch, s, step).unsynced
            <==> News(s, step, k) || (k in s.unsynced && !Covers(batch, s, step, k))
  {
  }

  lemma NewsPendingStep(batch: nat, before: seq<Step>, step: Step, k: Key)
    ensures var s := Run(batch, before);
            NewsPending(batch, before + [step], k)
            <==> News(s, step, k) || (NewsPending(batch, before, k) && !Covers(batch, s, step, k))
  {
    var n, steps := |before|, before + [step];
    assert steps[..n] == before;
    assert NewsAt(batch, steps, n, k) <==> News(Run(batch, before), step, k);
    assert CoversAt(batch, steps, n, k) <==> Covers(batch, Run(batch, before), step, k);
    forall i | 0 <= i < n
      ensures NewsAt(batch, steps, i, k) <==> NewsAt(batch, before, i, k)
      ensures CoversAt(batch, steps, i, k) <==> CoversAt(batch, before, i, k)
    {
      assert steps[..i] == before[..i];
    }
    forall i | 0 <= i < n
      ensures NotCoveredSince(batch, steps, i, k)
              <==> NotCoveredSince(batch, before, i, k) && !CoversAt(batch, steps, n, k)
    {
      assert NotCoveredSince(batch, steps, i, k) ==> !CoversAt(batch, steps, n, k);
    }
    assert NotCoveredSince(batch, steps, n, k);
  }

  /** After any run a key is unsynced exactly if there has been an event or a failed flush of it, and no later flush
    * has begun with it in the buffer. */
  lemma {:induction false} UnsyncedExactly(batch: nat, steps: seq<Step>, k: Key)
    ensures k in Run(batch, steps).unsynced <==> NewsPending(batch, steps, k)
  {
    if steps != [] {
      var n := |steps| - 1;
      UnsyncedExactly(batch, steps[..n], k);
      RunInv(batch, steps[..n]);
      UnsyncedStep(batch, Run(batch, steps[..n]), steps[n], k);
      NewsPendingStep(batch, steps[..n], steps[n], k);
      assert steps == steps[..n] + [steps[n]];
    }
  }
}
