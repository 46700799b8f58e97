/** Releasing the ports of StatefulSet Pods that dropped out of the desired window. The Pods are looked up
  * one by one through a cached client, and may change between two lookups. */
module StatefulSetRelease {
  import opened Common
  import opened StatefulSetOrdinals

  type PortId = string

  /** A Pod as the reconciler sees it. */
  datatype Pod = Pod(uid: string, phase: string, deleting: bool)

  /** The answer to a Get of a Pod; Ok(None) stands for not found. */
  type PodLookup = Result<Option<Pod>, string>

  /** PodIsDeleted */
  predicate IsDeleted(pod: Pod) {
    pod.phase == "Succeeded" || pod.phase == "Failed"
  }

  /** isPodTerminatingOrDeleted */
  predicate IsTerminatingOrDeleted(pod: Pod) {
    IsDeleted(pod) || pod.deleting
  }

  /** The lookup shows a Pod with the port's UID that has neither ended nor is being deleted. */
  predicate Alive(pod: Option<Pod>, p: Port) {
    pod.Some? && pod.value.uid == p.podUid && Running(pod.value)
  }

  predicate Running(pod: Pod) {
    pod.phase != "Succeeded" && pod.phase != "Failed" && !pod.deleting
  }

  predicate OfPod(p: Port, namespace: string, podName: string) {
    p.namespace == namespace && p.podName == podName
  }

  /** A port of the StatefulSet with an ordinal outside its window. */
  predicate Surplus(d: Desired, stsUid: string, namespace: string, p: Port) {
    && p.stsUid == stsUid && p.namespace == namespace && p.podName != ""
    && PortOrdinal(p) != -1 && !InWindow(d, PortOrdinal(p))
  }

  datatype Outcome = Noop | Released | SkippedRunningPod

  /** The port store of the SubnetPort service. NSX may refuse a deletion, and then nothing changes. */
  class PortStore {
    var ports: map<PortId, Port>

    constructor (ports: map<PortId, Port>)
      ensures this.ports == ports
    {
      this.ports := ports;
    }

    method DeleteSubnetPort(id: PortId, refused: bool) returns (failed: bool)
      modifies this
      ensures failed == refused && ports == if refused then old(ports) else old(ports) - {id}
    {
      failed := refused;
      if !failed {
        ports := ports - {id};
      }
    }
  }

  predicate Shrunk(before: map<PortId, Port>, after: map<PortId, Port>) {
    forall id :: id in after ==> id in before && after[id] == before[id]
  }

  /** The loop body of releaseSubnetPortForPod: the port of a live Pod with its UID stays, and the others
    * are deleted. */
  method ReleaseOne(store: PortStore, pod: Option<Pod>, id: PortId, refused: bool) returns (failed: bool, kept: bool)
    requires id in store.ports
    modifies store
    ensures kept <==> Alive(pod, old(store.ports)[id])
    ensures store.ports == if kept || failed then old(store.ports) else old(store.ports) - {id}
    ensures failed <==> !kept && refused
  {
    if pod.Some? {
      if pod.value.uid == store.ports[id].podUid && !IsTerminatingOrDeleted(pod.value) {
        return false, true;
      }
    }
    failed := store.DeleteSubnetPort(id, refused);
    kept := false;
  }

  /** A port of the Pod that has to go is one whose deletion NSX refuses. */
  predicate Stuck(before: map<PortId, Port>, pod: Option<Pod>, namespace: string, podName: string,
                  refuses: PortId -> bool) {
    exists id :: id in before && OfPod(before[id], namespace, podName) && !Alive(pod, before[id]) && refuses(id)
  }

  /** releaseSubnetPortForPod, with the answer to its lookup of the Pod, and the deletions that NSX refuses. */
  method ReleaseSubnetPortForPod(store: PortStore, pod: PodLookup, namespace: string, podName: string,
                                 refuses: PortId -> bool)
    returns (r: Result<Outcome, string>)
    modifies store
    ensures Shrunk(old(store.ports), store.ports)
    ensures forall id :: id in old(store.ports) && id !in store.ports ==>
              pod.Ok? && OfPod(old(store.ports)[id], namespace, podName) && !Alive(pod.value, old(store.ports)[id])
    ensures r.Ok? <==> pod.Ok? && !Stuck(old(store.ports), pod.value, namespace, podName, refuses)
    ensures r.Ok? ==> forall id :: id in store.ports && OfPod(store.ports[id], namespace, podName) ==>
                                   Alive(pod.value, store.ports[id]) && r.value == SkippedRunningPod
    ensures r == Ok(SkippedRunningPod) ==> pod.value.Some? && Running(pod.value.value)
    ensures pod == Ok(None) && r.Ok? ==> r.value != SkippedRunningPod
    ensures r == Ok(Released) ==> store.ports != old(store.ports)
    ensures r == Ok(Noop) ==> store.ports == old(store.ports)
  {
    if pod.Err? {
      return Err(pod.error);
    }
    var targets := set id | id in store.ports && OfPod(store.ports[id], namespace, podName);
    assert forall id :: id in store.ports && OfPod(store.ports[id], namespace, podName) ==> id in targets;
    if targets == {} {
      if pod.value.Some? && !IsTerminatingOrDeleted(pod.value.value) {
        return Ok(SkippedRunningPod);
      }
      return Ok(Noop);
    }
    var pendingRunningPod, releasedAny := false, false;
    ghost var before := store.ports;
    var todo := targets;
    while todo != {}
      invariant todo <= targets && Shrunk(before, store.ports) && todo <= store.ports.Keys
      invariant forall id :: id in before && id !in store.ports ==> id in targets && !Alive(pod.value, before[id])
      invariant forall id :: id in targets && id !in todo && id in store.ports ==>
                               Alive(pod.value, store.ports[id]) && pendingRunningPod
      invariant forall id :: id in before && id !in store.ports ==> !refuses(id)
      invariant pendingRunningPod ==> pod.value.Some? && Running(pod.value.value)
      invariant if releasedAny then |store.ports| < |before| else store.ports == before
    {
      var id :| id in todo;
      todo := todo - {id};
      var failed, kept := ReleaseOne(store, pod.value, id, refuses(id));
      if failed {
        return Err("failed to delete subnet port");
      }
      if kept {
        pendingRunningPod := true;
      } else {
        releasedAny := true;
      }
    }
    r := Ok(if pendingRunningPod then SkippedRunningPod else if releasedAny then Released else Noop);
  }

  /** One port in the loop of handleReplicaChange: released with all ports of its Pod if its ordinal can
    * be read and lies outside the window. */
  method ReleaseIfOutside(store: PortStore, pod: PodLookup, d: Desired, namespace: string, p: Port,
                          refuses: PortId -> bool)
    returns (r: Result<Outcome, string>)
    modifies store
    ensures Shrunk(old(store.ports), store.ports)
    ensures !Surplus(d, p.stsUid, p.namespace, p) ==> r == Ok(Noop) && store.ports == old(store.ports)
    ensures forall id :: id in old(store.ports) && id !in store.ports ==>
              pod.Ok? && OfPod(old(store.ports)[id], namespace, p.podName) && !Alive(pod.value, old(store.ports)[id])
    ensures r.Err? ==> pod.Err? || Stuck(old(store.ports), pod.value, namespace, p.podName, refuses)
    ensures r == Ok(SkippedRunningPod) ==>
              Surplus(d, p.stsUid, p.namespace, p) && pod.Ok? && pod.value.Some? && Running(pod.value.value)
    ensures r.Ok? && Surplus(d, p.stsUid, p.namespace, p) ==>
              pod.Ok? && forall id :: id in store.ports && OfPod(store.ports[id], namespace, p.podName) ==>
                                      Alive(pod.value, store.ports[id]) && r.value == SkippedRunningPod
  {
    var (start, end) := OrdinalRange(d);
    if p.podName == "" {
      return Ok(Noop);
    }
    var idx := PortOrdinal(p);
    if idx == -1 {
      return Ok(Noop);
    }
    OutOfRangeMeaning(d, idx);
    if idx < start || idx > end {
      r := ReleaseSubnetPortForPod(store, pod, namespace, p.podName, refuses);
    } else {
      r := Ok(Noop);
    }
  }

  // ---- What the lookups of a call showed ----

  /** The answers to the lookups of a call: by their number, and the name of the Pod. */
  type Lookups = (nat, string) -> PodLookup

  /** Whether NSX refuses to delete a port, after a lookup with this number. */
  type Refusals = (nat, PortId) -> bool

  /** The i-th lookup shows a Pod with the port's UID, neither ended nor being deleted. */
  predicate ShowsAlive(lookup: Lookups, i: nat, p: Port) {
    match lookup(i, p.podName)
    case Err(_) => false
    case Ok(None) => false
    case Ok(Some(Pod(uid, phase, deleting))) =>
      uid == p.podUid && phase != "Succeeded" && phase != "Failed" && !deleting
  }

  /** It shows no Pod, one with another UID, or one that has ended or is being deleted. */
  predicate ShowsGone(lookup: Lookups, i: nat, p: Port) {
    match lookup(i, p.podName)
    case Err(_) => false
    case Ok(None) => true
    case Ok(Some(Pod(uid, phase, deleting))) =>
      uid != p.podUid || phase == "Succeeded" || phase == "Failed" || deleting
  }

  predicate SeenAlive(lookup: Lookups, n: nat, p: Port) {
    exists i :: 0 <= i < n && ShowsAlive(lookup, i, p)
  }

  predicate SeenGone(lookup: Lookups, n: nat, p: Port) {
    exists i :: 0 <= i < n && ShowsGone(lookup, i, p)
  }

  /** A port of the namespace that shares its Pod's name with a surplus port of the StatefulSet. */
  predicate WithSurplus(d: Desired, stsUid: string, namespace: string, before: map<PortId, Port>, p: Port) {
    exists other :: other in before && Surplus(d, stsUid, namespace, before[other])
                    && OfPod(p, namespace, before[other].podName)
  }

  /** The port was lost for a reason. */
  predicate Justified(lookup: Lookups, n: nat, d: Desired, stsUid: string, namespace: string,
                      before: map<PortId, Port>, p: Port) {
    SeenGone(lookup, n, p) && WithSurplus(d, stsUid, namespace, before, p)
  }

  predicate AllJustified(lookup: Lookups, n: nat, d: Desired, stsUid: string, namespace: string,
                         before: map<PortId, Port>, after: map<PortId, Port>) {
    forall id :: id in before && id !in after ==> Justified(lookup, n, d, stsUid, namespace, before, before[id])
  }

  /** The surplus ports that remain, but those still to do, have been seen alive: one that every lookup of its Pod
    * shows gone does not remain. */
  predicate Handled(lookup: Lookups, n: nat, d: Desired, stsUid: string, namespace: string,
                    ports: map<PortId, Port>, todo: set<PortId>, requeue: bool) {
    forall id :: id in ports && id !in todo && Surplus(d, stsUid, namespace, ports[id]) ==>
      SeenAlive(lookup, n, ports[id]) && requeue
  }

  /** The i-th lookup shows a Pod that has not ended and is not being deleted, with any UID. */
  predicate ShowsRunning(lookup: Lookups, i: nat, podName: string) {
    match lookup(i, podName)
    case Err(_) => false
    case Ok(None) => false
    case Ok(Some(Pod(_, phase, deleting))) => phase != "Succeeded" && phase != "Failed" && !deleting
  }

  /** Some lookup has shown a surplus port's Pod running. */
  predicate Waits(lookup: Lookups, n: nat, d: Desired, stsUid: string, namespace: string,
                  before: map<PortId, Port>) {
    exists i, id :: 0 <= i < n && id in before && Surplus(d, stsUid, namespace, before[id])
                    && ShowsRunning(lookup, i, before[id].podName)
  }

  lemma StillWaits(lookup: Lookups, n: nat, d: Desired, stsUid: string, namespace: string,
                   before: map<PortId, Port>, id: PortId, requeue: bool, skipped: bool)
    requires requeue ==> Waits(lookup, n, d, stsUid, namespace, before)
    requires skipped ==> id in before && Surplus(d, stsUid, namespace, before[id])
                         && ShowsRunning(lookup, n, before[id].podName)
    ensures requeue || skipped ==> Waits(lookup, n + 1, d, stsUid, namespace, before)
  {
    if requeue {
      var i, other :| 0 <= i < n && other in before && Surplus(d, stsUid, namespace, before[other])
                      && ShowsRunning(lookup, i, before[other].podName);
      assert 0 <= i < n + 1;
    }
  }

  /** The k-th lookup of a surplus port's Pod fails, or NSX then refuses to delete a port that it shows gone. */
  predicate Blocked(lookup: Lookups, refuses: Refusals, k: nat, d: Desired, stsUid: string, namespace: string,
                    before: map<PortId, Port>) {
    exists id :: id in before && Surplus(d, stsUid, namespace, before[id])
                 && (lookup(k, before[id].podName).Err?
                     || RefusesOne(lookup, refuses, k, namespace, before[id].podName, before))
  }

  predicate RefusesOne(lookup: Lookups, refuses: Refusals, k: nat, namespace: string, podName: string,
                       before: map<PortId, Port>) {
    exists x :: x in before && OfPod(before[x], namespace, podName) && ShowsGone(lookup, k, before[x]) && refuses(k, x)
  }

  lemma StuckRefuses(lookup: Lookups, refuses: Refusals, k: nat, namespace: string, podName: string,
                     before: map<PortId, Port>, middle: map<PortId, Port>)
    requires Shrunk(before, middle) && lookup(k, podName).Ok?
    requires Stuck(middle, lookup(k, podName).value, namespace, podName, x => refuses(k, x))
    ensures RefusesOne(lookup, refuses, k, namespace, podName, before)
  {
    var x :| x in middle && OfPod(middle[x], namespace, podName) && !Alive(lookup(k, podName).value, middle[x])
             && refuses(k, x);
    assert ShowsGone(lookup, k, before[x]);
  }

  /** What holds after n lookups, with these ports of the StatefulSet still to do. */
  predicate SoFar(lookup: Lookups, n: nat, d: Desired, stsUid: string, namespace: string,
                  before: map<PortId, Port>, ports: map<PortId, Port>, todo: set<PortId>, requeue: bool) {
    && Shrunk(before, ports) && AllJustified(lookup, n, d, stsUid, namespace, before, ports)
    && Handled(lookup, n, d, stsUid, namespace, ports, todo, requeue)
    && (requeue ==> Waits(lookup, n, d, stsUid, namespace, before))
  }

  /** The loop body of handleReplicaChange, with the i-th lookup. */
  method HandlePort(store: PortStore, lookup: Lookups, refuses: Refusals, i: nat, d: Desired, stsUid: string,
                    namespace: string, id: PortId, p: Port, requeue: bool, ghost before: map<PortId, Port>,
                    ghost todo: set<PortId>)
    returns (r: Result<bool, string>)
    requires id in before && before[id] == p && p.stsUid == stsUid && p.namespace == namespace
    requires SoFar(lookup, i, d, stsUid, namespace, before, store.ports, todo, requeue)
    modifies store
    ensures Shrunk(before, store.ports)
    ensures AllJustified(lookup, i + 1, d, stsUid, namespace, before, store.ports)
    ensures r.Ok? ==> SoFar(lookup, i + 1, d, stsUid, namespace, before, store.ports, todo - {id}, r.value)
    ensures r.Err? ==> Blocked(lookup, refuses, i, d, stsUid, namespace, before)
  {
    ghost var middle := store.ports;
    var outcome := ReleaseIfOutside(store, lookup(i, p.podName), d, namespace, p, x => refuses(i, x));
    StillJustified(lookup, i + 1, d, stsUid, namespace, before, middle, store.ports, id);
    if outcome.Err? {
      if lookup(i, p.podName).Ok? {
        StuckRefuses(lookup, refuses, i, namespace, p.podName, before, middle);
      }
      return Err(outcome.error);
    }
    StillHandled(lookup, i + 1, d, stsUid, namespace, middle, store.ports, todo, id, requeue, outcome.value);
    StillWaits(lookup, i, d, stsUid, namespace, before, id, requeue, outcome.value == SkippedRunningPod);
    return Ok(requeue || outcome.value == SkippedRunningPod);
  }

  /** ListSubnetPortByStsUid */
  function OfStatefulSet(ports: map<PortId, Port>, stsUid: string, namespace: string): map<PortId, Port> {
    map id | id in ports && ports[id].stsUid == stsUid && ports[id].namespace == namespace :: ports[id]
  }

  lemma AtFirst(lookup: Lookups, d: Desired, stsUid: string, namespace: string, ports: map<PortId, Port>)
    ensures SoFar(lookup, 0, d, stsUid, namespace, ports, ports, OfStatefulSet(ports, stsUid, namespace).Keys, false)
  {
  }

  /** handleReplicaChange. Whatever the lookups show, a port is deleted only after one of them, in this call,
    * has not shown the live Pod with its UID, and only together with a surplus port of that Pod. Without an
    * error, every surplus port is gone, or its live Pod has been seen and a requeue is asked for; one is asked for
    * only then, or when a surplus port's Pod has been seen running with another UID. An error is that of the last
    * lookup or of a deletion that NSX refused after it. */
  method HandleReplicaChange(store: PortStore, lookup: Lookups, refuses: Refusals, d: Desired, stsUid: string,
                             namespace: string)
    returns (requeue: bool, err: Option<string>, ghost n: nat)
    modifies store
    ensures Shrunk(old(store.ports), store.ports)
    ensures AllJustified(lookup, n, d, stsUid, namespace, old(store.ports), store.ports)
    ensures err.None? ==> Handled(lookup, n, d, stsUid, namespace, store.ports, {}, requeue)
    ensures err.Some? ==> n > 0 && Blocked(lookup, refuses, n - 1, d, stsUid, namespace, old(store.ports))
    ensures requeue ==> err.None? && Waits(lookup, n, d, stsUid, namespace, old(store.ports))
  {
    ghost var before := store.ports;
    var existing := OfStatefulSet(store.ports, stsUid, namespace);
    AtFirst(lookup, d, stsUid, namespace, before);
    var todo := existing.Keys;
    var i := 0;
    requeue, err, n := false, None, 0;
    while todo != {}
      invariant todo <= existing.Keys && n == i && err.None?
      invariant SoFar(lookup, i, d, stsUid, namespace, before, store.ports, todo, requeue)
    {
      var id :| id in todo;
      var r := HandlePort(store, lookup, refuses, i, d, stsUid, namespace, id, existing[id], requeue, before, todo);
      i, n, todo := i + 1, i + 1, todo - {id};
      if r.Err? {
        return false, Some(r.error), i;
      }
      requeue := r.value;
    }
  }

  /** One more step of the loop, with its lookup: what it deletes is justified. */
  lemma StillJustified(lookup: Lookups, n: nat, d: Desired, stsUid: string, namespace: string,
                       before: map<PortId, Port>, middle: map<PortId, Port>, after: map<PortId, Port>, id: PortId)
    requires n > 0 && id in before && Shrunk(before, middle)
    requires AllJustified(lookup, n - 1, d, stsUid, namespace, before, middle)
    requires var pod := lookup(n - 1, before[id].podName);
             forall x :: x in middle && x !in after ==>
               pod.Ok? && OfPod(middle[x], namespace, before[id].podName) && !Alive(pod.value, middle[x])
    requires (exists x :: x in middle && x !in after) ==> Surplus(d, stsUid, namespace, before[id])
    ensures AllJustified(lookup, n, d, stsUid, namespace, before, after)
  {
    forall x | x in before && x !in after
      ensures Justified(lookup, n, d, stsUid, namespace, before, before[x])
    {
      if x in middle {
        assert ShowsGone(lookup, n - 1, before[x]);
      } else {
        var k :| 0 <= k < n - 1 && ShowsGone(lookup, k, before[x]);
      }
    }
  }

  /** And a surplus port that it keeps has been seen alive. */
  lemma StillHandled(lookup: Lookups, n: nat, d: Desired, stsUid: string, namespace: string,
                     middle: map<PortId, Port>, after: map<PortId, Port>, todo: set<PortId>, id: PortId,
                     requeue: bool, outcome: Outcome)
    requires n > 0 && Shrunk(middle, after)
    requires Handled(lookup, n - 1, d, stsUid, namespace, middle, todo, requeue)
    requires id in after && Surplus(d, stsUid, namespace, after[id]) ==>
               lookup(n - 1, after[id].podName).Ok? && Alive(lookup(n - 1, after[id].podName).value, after[id])
               && outcome == SkippedRunningPod
    ensures Handled(lookup, n, d, stsUid, namespace, after, todo - {id}, requeue || outcome == SkippedRunningPod)
  {
    forall x | x in after && x !in todo - {id} && Surplus(d, stsUid, namespace, after[x])
      ensures SeenAlive(lookup, n, after[x]) && (requeue || outcome == SkippedRunningPod)
    {
      if x != id {
        var k :| 0 <= k < n - 1 && ShowsAlive(lookup, k, after[x]);
      } else {
        assert ShowsAlive(lookup, n - 1, after[x]);
      }
    }
  }
}
