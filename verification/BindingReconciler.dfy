/** The reconcile of one binding: the lookups, the comparison with what is stored, and the update, which
  * NSX may refuse, or realise part by part. Other reconciles, deletions and garbage collection act
  * between any two accesses to the store. */
module BindingReconciler {
  import opened Common
  import opened BindingTopology
  import opened BindingRuns

  const NSXT_REALIZE_RETRY := 50

  /** A listing of NSX: an error of its API, any other error, or bindings that are found. */
  datatype Listing = ApiError | OtherError | Lists(found: set<Id>)

  /** How one change goes: whether the VLAN allocation or the patch fails, and what each listing after it answers. */
  datatype Nsx = Nsx(patchFails: bool, listings: nat -> Listing)

  predicate FoundBefore(listings: nat -> Listing, n: nat, id: Id) {
    exists k :: 0 <= k < n && listings(k).Lists? && id in listings(k).found
  }

  /** The n-th listing does not fail, no API error has come before it, and by then every binding was found. */
  predicate RealizedBy(ids: set<Id>, listings: nat -> Listing, n: nat) {
    && listings(n).Lists? && (forall k :: 0 <= k < n ==> !listings(k).ApiError?)
    && forall id :: id in ids ==> FoundBefore(listings, n + 1, id)
  }

  /** One of the 50 listings ends the wait for the bindings. */
  predicate RealizedInTime(ids: set<Id>, listings: nat -> Listing) {
    exists n :: 0 <= n < 50 && RealizedBy(ids, listings, n)
  }

  lemma FoundOneMore(listings: nat -> Listing, n: nat, id: Id)
    ensures FoundBefore(listings, n + 1, id)
            <==> FoundBefore(listings, n, id) || (listings(n).Lists? && id in listings(n).found)
  {
    if FoundBefore(listings, n, id) {
      var k :| 0 <= k < n && listings(k).Lists? && id in listings(k).found;
      assert 0 <= k < n + 1;
    }
  }

  /** These are the bindings that no listing before the n-th has shown. */
  predicate StillMissing(ids: set<Id>, listings: nat -> Listing, n: nat, missing: set<Id>) {
    missing <= ids && forall id :: id in ids ==> (id in missing <==> !FoundBefore(listings, n, id))
  }

  /** None of the listings before the n-th has ended the wait. */
  predicate NotYet(ids: set<Id>, listings: nat -> Listing, n: nat) {
    forall k :: 0 <= k < n ==> !listings(k).ApiError? && !RealizedBy(ids, listings, k)
  }

  lemma OneMoreListing(ids: set<Id>, listings: nat -> Listing, n: nat, missing: set<Id>)
    requires NotYet(ids, listings, n) && StillMissing(ids, listings, n, missing)
    ensures var left := if listings(n).Lists? then missing - listings(n).found else missing;
            && StillMissing(ids, listings, n + 1, left)
            && (listings(n).Lists? && left == {} ==> RealizedBy(ids, listings, n))
            && (!listings(n).ApiError? && !(listings(n).Lists? && left == {}) ==> NotYet(ids, listings, n + 1))
  {
    forall id | id in ids
      ensures FoundBefore(listings, n + 1, id)
              <==> FoundBefore(listings, n, id) || (listings(n).Lists? && id in listings(n).found)
    {
      FoundOneMore(listings, n, id);
    }
    var left := if listings(n).Lists? then missing - listings(n).found else missing;
    if listings(n).Lists? && left != {} {
      var id :| id in left;
      assert !FoundBefore(listings, n + 1, id);
    }
  }

  lemma NeverInTime(ids: set<Id>, listings: nat -> Listing, n: nat)
    requires NotYet(ids, listings, n) && (n == 50 || (n < 50 && listings(n).ApiError?))
    ensures !RealizedInTime(ids, listings)
  {
  }

  datatype Outcome = NotReady(retry: bool) | ConfigureFailed | Ready

  /** The ids generated for one binding differ. They end in a short hash, so this is not certain. */
  ghost predicate DistinctIds(targets: seq<Path>, newId: (Store, Path) -> Id) {
    forall s: Store, p, q :: p in targets && q in targets && newId(s, p) == newId(s, q) ==> p == q
  }

  /** A step of this worker's own reconcile. */
  predicate Own(step: Step, w: Worker) {
    match step
    case Remove(_) => false
    case _ => step.w == w
  }

  /** From place n, the lookups are those of the paths. */
  predicate Ahead(checks: seq<Lookup>, n: nat, paths: seq<Path>, isParent: bool) {
    n + |paths| <= |checks| && forall i :: 0 <= i < |paths| ==> checks[n + i] == Lookup(paths[i], isParent)
  }

  // ---- What happened since the i-th step ----

  /** The worker has started no other binding. */
  predicate Begins(trace: seq<Step>, i: nat, w: Worker, b: Binding) {
    forall k :: i <= k < |trace| && Own(trace[k], w) && trace[k].Begin? ==> trace[k].b == b
  }

  predicate PartOf(step: Step, deletes: set<Id>, updates: Store) {
    && step.Realize? && step.gone <= deletes
    && forall id :: id in step.added ==> id in updates && updates[id] == step.added[id]
  }

  /** The worker has only taken parts of one change. */
  predicate OnlyParts(trace: seq<Step>, i: nat, w: Worker, deletes: set<Id>, updates: Store) {
    forall k :: i <= k < |trace| && Own(trace[k], w) ==> PartOf(trace[k], deletes, updates)
  }

  predicate Was(trace: seq<Step>, k: nat, id: Id, e: Edge)
    requires k <= |trace|
  {
    var s := Run(trace[..k]).store;
    id in s && s[id] == e
  }

  /** The binding was in the store at some time. */
  predicate Stored(trace: seq<Step>, i: nat, id: Id, e: Edge) {
    exists k :: i <= k <= |trace| && Was(trace, k, id, e)
  }

  /** A part of the worker's change has taken the binding away. */
  predicate TakenAway(trace: seq<Step>, i: nat, w: Worker, id: Id) {
    exists k :: i <= k < |trace| && Own(trace[k], w) && trace[k].Realize? && id in trace[k].gone
  }

  predicate AllTaken(trace: seq<Step>, i: nat, w: Worker, ids: set<Id>) {
    forall id :: id in ids ==> TakenAway(trace, i, w, id)
  }

  lemma AllTakenLonger(trace: seq<Step>, more: seq<Step>, i: nat, w: Worker, ids: set<Id>)
    requires trace <= more && AllTaken(trace, i, w, ids)
    ensures AllTaken(more, i, w, ids)
  {
    forall id | id in ids
      ensures TakenAway(more, i, w, id)
    {
      var k :| i <= k < |trace| && Own(trace[k], w) && trace[k].Realize? && id in trace[k].gone;
      assert more[k] == trace[k];
    }
  }

  predicate AllStored(trace: seq<Step>, i: nat, updates: Store, ids: set<Id>) {
    forall id :: id in ids && id in updates ==> Stored(trace, i, id, updates[id])
  }

  predicate Undoes(step: Step, w: Worker, id: Id, p: Path) {
    Own(step, w) && step.Realize? && (id in step.gone || (id in step.added && step.added[id].target != p))
  }

  predicate KeptSince(trace: seq<Step>, k: nat, w: Worker, id: Id, p: Path) {
    forall j :: k <= j < |trace| ==> !Undoes(trace[j], w, id, p)
  }

  /** At some time a binding of the CR to p was in the store, and the worker has not taken it away since. */
  ghost predicate Established(trace: seq<Step>, i: nat, w: Worker, cr: Uid, p: Path) {
    exists k, id, e :: i <= k <= |trace| && Was(trace, k, id, e) && e.cr == cr && e.target == p
                       && KeptSince(trace, k, w, id, p)
  }

  lemma WasLonger(trace: seq<Step>, more: seq<Step>, k: nat, id: Id, e: Edge)
    requires trace <= more && k <= |trace|
    ensures Was(more, k, id, e) <==> Was(trace, k, id, e)
  {
    assert more[..k] == trace[..k];
  }

  lemma StoredLonger(trace: seq<Step>, more: seq<Step>, i: nat, id: Id, e: Edge)
    requires trace <= more && Stored(trace, i, id, e)
    ensures Stored(more, i, id, e)
  {
    var k :| i <= k <= |trace| && Was(trace, k, id, e);
    WasLonger(trace, more, k, id, e);
  }

  lemma AllStoredLonger(trace: seq<Step>, more: seq<Step>, i: nat, updates: Store, ids: set<Id>)
    requires trace <= more && AllStored(trace, i, updates, ids)
    ensures AllStored(more, i, updates, ids)
  {
    forall id | id in ids && id in updates
      ensures Stored(more, i, id, updates[id])
    {
      StoredLonger(trace, more, i, id, updates[id]);
    }
  }

  lemma AllStoredSince(trace: seq<Step>, i: nat, j: nat, updates: Store, ids: set<Id>)
    requires i <= j && AllStored(trace, j, updates, ids)
    ensures AllStored(trace, i, updates, ids)
  {
    forall id | id in ids && id in updates
      ensures Stored(trace, i, id, updates[id])
    {
      var k :| j <= k <= |trace| && Was(trace, k, id, updates[id]);
    }
  }

  lemma Establish(trace: seq<Step>, i: nat, w: Worker, p: Path, id: Id, e: Edge, deletes: set<Id>, updates: Store)
    requires OnlyParts(trace, i, w, deletes, updates) && Stored(trace, i, id, e) && e.target == p
    requires id !in deletes && (id in updates ==> updates[id].target == p)
    ensures Established(trace, i, w, e.cr, p)
  {
    var k :| i <= k <= |trace| && Was(trace, k, id, e);
    forall j | k <= j < |trace|
      ensures !Undoes(trace[j], w, id, p)
    {
      assert Own(trace[j], w) ==> PartOf(trace[j], deletes, updates);
    }
  }

  lemma EstablishedLonger(trace: seq<Step>, step: Step, i: nat, w: Worker, cr: Uid, p: Path)
    requires Established(trace, i, w, cr, p) && !step.Realize?
    ensures Established(trace + [step], i, w, cr, p)
  {
    var k, id, e :| i <= k <= |trace| && Was(trace, k, id, e) && e.cr == cr && e.target == p
                    && KeptSince(trace, k, w, id, p);
    WasLonger(trace, trace + [step], k, id, e);
  }

  /** What a change under this store may send for a target: the new id, or that of the CR's binding to it. */
  ghost predicate MaySend(store: Store, b: Binding, newId: (Store, Path) -> Id, id: Id) {
    exists p :: p in TargetPaths(b)
                && (id == newId(store, p) || (id in store && store[id].cr == b.cr && store[id].target == p))
  }

  /** NSX refuses a change that was made at some time since the i-th step, or does not show its bindings in time. */
  ghost predicate Fails(trace: seq<Step>, i: nat, b: Binding, newId: (Store, Path) -> Id, nsx: Nsx) {
    exists k, ids :: i <= k <= |trace| && SentAt(trace, k, b, newId, ids) && FailsWith(nsx, ids)
  }

  ghost predicate SentAt(trace: seq<Step>, k: nat, b: Binding, newId: (Store, Path) -> Id, ids: set<Id>)
    requires k <= |trace|
  {
    forall id :: id in ids ==> MaySend(Run(trace[..k]).store, b, newId, id)
  }

  predicate FailsWith(nsx: Nsx, ids: set<Id>) {
    nsx.patchFails || !RealizedInTime(ids, nsx.listings)
  }

  lemma FailsLonger(trace: seq<Step>, more: seq<Step>, i: nat, j: nat, b: Binding, newId: (Store, Path) -> Id, nsx: Nsx)
    requires trace <= more && i <= j && Fails(trace, j, b, newId, nsx)
    ensures Fails(more, i, b, newId, nsx)
  {
    var k, ids :| j <= k <= |trace| && SentAt(trace, k, b, newId, ids) && FailsWith(nsx, ids);
    assert more[..k] == trace[..k];
    assert SentAt(more, k, b, newId, ids);
  }

  lemma EstablishedSince(trace: seq<Step>, i: nat, j: nat, w: Worker, cr: Uid, p: Path)
    requires i <= j && Established(trace, j, w, cr, p)
    ensures Established(trace, i, w, cr, p)
  {
    var k, id, e :| j <= k <= |trace| && Was(trace, k, id, e) && e.cr == cr && e.target == p
                    && KeptSince(trace, k, w, id, p);
  }

  /** One of the CR's bindings in s to p has been taken away since the i-th step. */
  ghost predicate TakenFor(s: Store, trace: seq<Step>, i: nat, w: Worker, cr: Uid, p: Path) {
    exists id :: id in s && s[id].cr == cr && s[id].target == p && TakenAway(trace, i, w, id)
  }

  /** So has one for every target that the CR's bindings in s have and that is not wanted. */
  ghost predicate CleanedIn(s: Store, trace: seq<Step>, i: nat, w: Worker, b: Binding) {
    forall p :: p !in TargetPaths(b) && Targeted(s, b.cr, p) ==> TakenFor(s, trace, i, w, b.cr, p)
  }

  /** A stored binding of the CR has this target. */
  predicate Targeted(s: Store, cr: Uid, p: Path) {
    exists id :: id in s && s[id].cr == cr && s[id].target == p
  }

  ghost predicate Cleaned(trace: seq<Step>, i: nat, w: Worker, b: Binding)
    requires i <= |trace|
  {
    CleanedIn(Run(trace[..i]).store, trace, i, w, b)
  }

  lemma AllTakenSince(trace: seq<Step>, i: nat, j: nat, w: Worker, ids: set<Id>)
    requires i <= j && AllTaken(trace, j, w, ids)
    ensures AllTaken(trace, i, w, ids)
  {
    forall id | id in ids
      ensures TakenAway(trace, i, w, id)
    {
      var k :| j <= k < |trace| && Own(trace[k], w) && trace[k].Realize? && id in trace[k].gone;
    }
  }

  lemma TakenForLonger(s: Store, trace: seq<Step>, more: seq<Step>, i: nat, w: Worker, cr: Uid, p: Path)
    requires trace <= more && TakenFor(s, trace, i, w, cr, p)
    ensures TakenFor(s, more, i, w, cr, p)
  {
    var id :| id in s && s[id].cr == cr && s[id].target == p && TakenAway(trace, i, w, id);
    AllTakenLonger(trace, more, i, w, {id});
    assert id in {id};
  }

  lemma CleanedLonger(trace: seq<Step>, more: seq<Step>, i: nat, w: Worker, b: Binding)
    requires trace <= more && i <= |trace| && Cleaned(trace, i, w, b)
    ensures Cleaned(more, i, w, b)
  {
    assert more[..i] == trace[..i];
    var s := Run(trace[..i]).store;
    forall p | p !in TargetPaths(b) && Targeted(s, b.cr, p)
      ensures TakenFor(s, more, i, w, b.cr, p)
    {
      TakenForLonger(s, trace, more, i, w, b.cr, p);
    }
  }

  /** A change has succeeded since the i-th step: every target got a binding, and the others were cleaned. */
  ghost predicate Succeeded(trace: seq<Step>, i: nat, w: Worker, b: Binding, newId: (Store, Path) -> Id) {
    && (DistinctIds(TargetPaths(b), newId) ==>
          forall p :: p in TargetPaths(b) ==> Established(trace, i, w, b.cr, p))
    && exists k :: i <= k <= |trace| && Cleaned(trace, k, w, b)
  }

  lemma SucceededLonger(trace: seq<Step>, step: Step, i: nat, j: nat, w: Worker, b: Binding,
                        newId: (Store, Path) -> Id)
    requires i <= j && !step.Realize? && Succeeded(trace, j, w, b, newId)
    ensures Succeeded(trace + [step], i, w, b, newId)
  {
    var k :| j <= k <= |trace| && Cleaned(trace, k, w, b);
    CleanedLonger(trace, trace + [step], k, w, b);
    forall p | p in TargetPaths(b) && DistinctIds(TargetPaths(b), newId)
      ensures Established(trace + [step], i, w, b.cr, p)
    {
      EstablishedLonger(trace, step, j, w, b.cr, p);
      EstablishedSince(trace + [step], i, j, w, b.cr, p);
    }
  }

  lemma SucceededSince(trace: seq<Step>, i: nat, j: nat, w: Worker, b: Binding, newId: (Store, Path) -> Id)
    requires i <= j && Succeeded(trace, j, w, b, newId)
    ensures Succeeded(trace, i, w, b, newId)
  {
    var k :| j <= k <= |trace| && Cleaned(trace, k, w, b);
    forall p | p in TargetPaths(b) && DistinctIds(TargetPaths(b), newId)
      ensures Established(trace, i, w, b.cr, p)
    {
      EstablishedSince(trace, i, j, w, b.cr, p);
    }
  }

  class BindingReconciler {
    var store: Store
    var pending: map<Worker, Pending>
    ghost var trace: seq<Step>

    function Memory(): State
      reads this
    {
      State(store, pending)
    }

    ghost predicate Valid()
      reads this
    {
      Memory() == Run(trace)
    }

    /** The worker has made all lookups of its binding. */
    ghost predicate Ready(w: Worker, b: Binding)
      reads this
    {
      Valid() && w in pending && pending[w].b == b && Checked(pending[w])
    }

    constructor ()
      ensures Valid() && trace == []
    {
      store, pending, trace := map[], map[], [];
    }

    ghost method Took(step: Step)
      requires Memory() == Next(Run(trace), step)
      modifies this`trace
      ensures Valid() && trace == old(trace) + [step]
    {
      trace := trace + [step];
      assert trace[..|trace| - 1] == old(trace);
    }

    /** Any steps of others. */
    method Others(w: Worker)
      requires Valid()
      modifies this
      ensures Valid() && old(trace) <= trace
      ensures w in pending <==> w in old(pending)
      ensures w in pending ==> pending[w] == old(pending)[w]
      ensures forall k :: |old(trace)| <= k < |trace| ==> !Own(trace[k], w)
    {
      var steps: seq<Step> := *;
      for i := 0 to |steps|
        invariant Valid() && old(trace) <= trace
        invariant w in pending <==> w in old(pending)
        invariant w in pending ==> pending[w] == old(pending)[w]
        invariant forall k :: |old(trace)| <= k < |trace| ==> !Own(trace[k], w)
      {
        if !Own(steps[i], w) {
          var s := Next(Memory(), steps[i]);
          store, pending := s.store, s.pending;
          Took(steps[i]);
        }
      }
    }

    /** The reconcile is over. */
    method Stop(w: Worker)
      requires Valid() && w in pending
      modifies this
      ensures Valid() && trace == old(trace) + [Step.End(w)] && w !in pending && store == old(store)
    {
      pending := pending - {w};
      Took(Step.End(w));
    }

    // ---- The lookups ----

    /** GetSubnetConnectionBindingMapsByChildSubnet, or ByParentSubnet, with the answer to the next lookup. */
    method Find(w: Worker, path: Path, isParent: bool) returns (found: bool)
      requires Valid() && w in pending && |pending[w].seen| < |Checks(pending[w].b)|
      requires Checks(pending[w].b)[|pending[w].seen|] == Lookup(path, isParent)
      modifies this
      ensures Valid() && trace == old(trace) + [Step.Check(w)] && store == old(store)
      ensures found <==> !Passes(store, Lookup(path, isParent))
      ensures found ==> w !in pending
      ensures !found ==> w in pending && pending[w] == Pending(old(pending)[w].b, old(pending)[w].seen + [store])
    {
      var bindings := set id | id in store && (if isParent then store[id].Child() else store[id].Parent()) == path;
      assert forall id :: id in store && Clash(store[id], Lookup(path, isParent)) ==> id in bindings;
      found := |bindings| > 0;
      if found {
        assert exists id :: id in bindings;
        pending := pending - {w};
      } else {
        pending := pending[w := Pending(pending[w].b, pending[w].seen + [store])];
      }
      Took(Step.Check(w));
    }

    /** The checks of validateVpcSubnetsBySubnetCR before the lookups. */
    method RealizedPaths(subnet: Option<SubnetCr>, isParent: bool) returns (r: Option<seq<Path>>)
      ensures r == Realized(subnet, isParent)
    {
      if subnet.None? {
        return None;
      }
      var subnetPaths: seq<Path> := [];
      if subnet.value.shared.Some? {
        if isParent {
          return None;
        }
        if !subnet.value.ready {
          return None;
        }
        if subnet.value.shared.value.Err? {
          return None;
        }
        subnetPaths := [subnet.value.shared.value.value];
      } else {
        for i := 0 to |subnet.value.created|
          invariant subnetPaths == subnet.value.created[..i]
        {
          subnetPaths := subnetPaths + [subnet.value.created[i]];
        }
        assert subnet.value.created[..|subnet.value.created|] == subnet.value.created;
      }
      if |subnetPaths| == 0 {
        return None;
      }
      return Some(subnetPaths);
    }

    /** The lookups of validateVpcSubnetsBySubnetCR, with any steps of others before each. */
    method LookUp(w: Worker, subnetPaths: seq<Path>, isParent: bool) returns (clash: bool)
      requires Valid() && w in pending
      requires Ahead(Checks(pending[w].b), |pending[w].seen|, subnetPaths, isParent)
      modifies this
      ensures Valid() && old(trace) <= trace && Begins(trace, |old(trace)|, w, old(pending)[w].b)
      ensures !clash ==> w in pending && pending[w].b == old(pending)[w].b
                         && |pending[w].seen| == |old(pending)[w].seen| + |subnetPaths|
      ensures clash ==> w !in pending && exists p :: p in subnetPaths && !Passes(store, Lookup(p, isParent))
    {
      ghost var first := pending[w];
      for i := 0 to |subnetPaths|
        invariant Valid() && old(trace) <= trace && Begins(trace, |old(trace)|, w, first.b)
        invariant w in pending && pending[w].b == first.b && |pending[w].seen| == |first.seen| + i
      {
        Others(w);
        clash := Find(w, subnetPaths[i], isParent);
        if clash {
          assert subnetPaths[i] in subnetPaths;
          return;
        }
      }
      return false;
    }

    /** validateVpcSubnetsBySubnetCR. Only a clash with a binding that is stored at the time is worth a retry. */
    method ValidateSubnet(w: Worker, subnet: Option<SubnetCr>, isParent: bool) returns (r: Result<seq<Path>, Refusal>)
      requires Valid() && w in pending
      requires Realized(subnet, isParent).Some? ==>
                 Ahead(Checks(pending[w].b), |pending[w].seen|, Realized(subnet, isParent).value, isParent)
      modifies this
      ensures Valid() && old(trace) <= trace && Begins(trace, |old(trace)|, w, old(pending)[w].b)
      ensures r.Ok? ==> Realized(subnet, isParent) == Some(r.value) && w in pending
      ensures r.Ok? ==> pending[w].b == old(pending)[w].b && |pending[w].seen| == |old(pending)[w].seen| + |r.value|
      ensures r.Err? ==> w !in pending && (r.error.retry <==> Realized(subnet, isParent).Some?)
      ensures r.Err? && r.error.retry ==>
                exists p :: p in Realized(subnet, isParent).value && !Passes(store, Lookup(p, isParent))
    {
      var paths := RealizedPaths(subnet, isParent);
      if paths.None? {
        Stop(w);
        return Err(Refusal(false));
      }
      var clash := LookUp(w, paths.value, isParent);
      if clash {
        return Err(Refusal(true));
      }
      return Ok(paths.value);
    }

    /** The target side of validateDependency, when the lookups of the host are made. */
    method ValidateTarget(w: Worker, b: Binding) returns (r: Result<seq<Path>, Refusal>)
      requires Valid() && w in pending && pending[w].b == b
      requires HostPaths(b) != [] && |pending[w].seen| == |HostPaths(b)|
      modifies this
      ensures Valid() && old(trace) <= trace && Begins(trace, |old(trace)|, w, b)
      ensures r.Ok? ==> Ready(w, b) && r.value == TargetPaths(b)
      ensures r.Err? ==> w !in pending
      ensures r.Err? && r.error.retry ==> exists c :: c in Checks(b) && !Passes(store, c)
      ensures r.Err? && !r.error.retry ==> !Admissible(b)
    {
      match b.target {
        case TargetSubnet(t) =>
          TargetChecks(b);
          r := ValidateSubnet(w, t, !b.branch);
        case TargetSet(created) =>
          if created.None? || |created.value| == 0 {
            Stop(w);
            return Err(Refusal(false));
          }
          return Ok(created.value);
      }
    }

    /** validateDependency. A retry is asked for when a lookup clashes with a binding stored at the time, and
      * otherwise a refused binding has a side that cannot be used. */
    method ValidateDependency(w: Worker, b: Binding) returns (r: Result<(Path, seq<Path>), Refusal>)
      requires Valid() && w !in pending
      modifies this
      ensures Valid() && old(trace) <= trace && Begins(trace, |old(trace)|, w, b)
      ensures r.Ok? ==> Ready(w, b) && r.value == (HostPaths(b)[0], TargetPaths(b))
      ensures r.Err? ==> w !in pending
      ensures r.Err? && r.error.retry ==> exists c :: c in Checks(b) && !Passes(store, c)
      ensures r.Err? && !r.error.retry ==> !Admissible(b)
    {
      pending := pending[w := Pending(b, [])];
      Took(Step.Begin(w, b));
      HostChecks(b);
      var paths := ValidateSubnet(w, b.subnet, b.branch);
      if paths.Err? {
        return Err(paths.error);
      }
      var targets := ValidateTarget(w, b);
      if targets.Err? {
        return Err(targets.error);
      }
      return Ok((paths.value[0], targets.value));
    }

    // ---- The comparison ----

    /** The map from targets to stored bindings of the CR. */
    ghost predicate IsExisting(cr: Uid, existing: map<Path, Id>)
      reads this
    {
      && (forall p :: p in existing ==>
            existing[p] in store && store[existing[p]].cr == cr && store[existing[p]].target == p)
      && (forall id :: id in store && store[id].cr == cr ==> store[id].target in existing)
    }

    /** The stored bindings of a CR, by target. */
    method ExistingByTarget(cr: Uid) returns (existing: map<Path, Id>)
      ensures IsExisting(cr, existing)
    {
      existing := map[];
      var todo := set id | id in store && store[id].cr == cr;
      assert forall id :: id in store && store[id].cr == cr ==> id in todo;
      while todo != {}
        invariant forall id :: id in todo ==> id in store && store[id].cr == cr
        invariant forall p :: p in existing ==>
                    existing[p] in store && store[existing[p]].cr == cr && store[existing[p]].target == p
        invariant forall id :: id in store && store[id].cr == cr && id !in todo ==> store[id].target in existing
      {
        var id :| id in todo;
        existing := existing[store[id].target := id];
        todo := todo - {id};
      }
    }

    /** A target without a binding gets one under the new id, one with a changed binding gets it sent again, and
      * nothing else is sent. */
    predicate SendsFor(updates: Store, cr: Uid, p: Path, changed: Path -> bool, newId: (Store, Path) -> Id)
      reads this
    {
      if !Targeted(store, cr, p) then newId(store, p) in updates
      else changed(p) <==> exists id :: id in updates && id in store && updates[id].target == p
    }

    /** A binding of the CR to p is stored and stays, or is among the updates. */
    ghost predicate Provided(updates: Store, deletes: set<Id>, cr: Uid, p: Path)
      reads this
    {
      exists id ::
        && id !in deletes && (id in updates ==> updates[id].target == p && updates[id].cr == cr)
        && (id in updates || (id in store && store[id].cr == cr && store[id].target == p))
    }

    ghost predicate UpdateOk(b: Binding, newId: (Store, Path) -> Id, id: Id, e: Edge)
      reads this
    {
      Desired(b, e) && if id in store then store[id].target == e.target && store[id].cr == b.cr
                       else id == newId(store, e.target)
    }

    /** What the loop over the targets has chosen so far, when it has seen those in done. */
    ghost predicate Chosen(b: Binding, newId: (Store, Path) -> Id, changed: Path -> bool, updates: Store,
                           done: seq<Path>)
      reads this
    {
      && (forall id :: id in updates ==> UpdateOk(b, newId, id, updates[id]) && updates[id].target in done)
      && (forall p :: p in done ==> SendsFor(updates, b.cr, p, changed, newId))
    }

    /** The new bindings have kept their ids to themselves so far. */
    ghost predicate OwnIds(newId: (Store, Path) -> Id, existing: map<Path, Id>, updates: Store, done: seq<Path>)
      reads this
    {
      forall p :: p in done ==> p in existing || (newId(store, p) in updates && updates[newId(store, p)].target == p)
    }

    /** The body of the loop over the targets. */
    method Choose(b: Binding, host: Path, p: Path, existing: map<Path, Id>, changed: Path -> bool,
                  newId: (Store, Path) -> Id, updates: Store, ghost done: seq<Path>)
      returns (more: Store)
      requires Admissible(b) && host == HostPaths(b)[0] && p in TargetPaths(b)
      requires IsExisting(b.cr, existing) && newId(store, p) !in store
      requires Chosen(b, newId, changed, updates, done)
      ensures Chosen(b, newId, changed, more, done + [p])
      ensures OwnIds(newId, existing, updates, done)
              && (forall q :: q in done && newId(store, q) == newId(store, p) ==> q == p) ==>
                OwnIds(newId, existing, more, done + [p])
    {
      more := updates;
      var e := Edge(b.cr, host, p, b.branch);
      if p !in existing {
        more := more[newId(store, p) := e];
      } else if changed(p) {
        more := more[existing[p] := e];
      }
      ChosenAfter(b, newId, changed, existing, updates, more, done, p, e);
    }

    lemma ChosenAfter(b: Binding, newId: (Store, Path) -> Id, changed: Path -> bool, existing: map<Path, Id>,
                      updates: Store, more: Store, done: seq<Path>, p: Path, e: Edge)
      requires Desired(b, e) && e.target == p && IsExisting(b.cr, existing) && newId(store, p) !in store
      requires Chosen(b, newId, changed, updates, done)
      requires more == if p !in existing then updates[newId(store, p) := e]
                       else if changed(p) then updates[existing[p] := e] else updates
      ensures Chosen(b, newId, changed, more, done + [p])
    {
      assert p in existing <==> Targeted(store, b.cr, p);
      forall id | id in more
        ensures UpdateOk(b, newId, id, more[id]) && more[id].target in done + [p]
      {
        assert id in updates ==> UpdateOk(b, newId, id, updates[id]) && updates[id].target in done;
      }
      forall q | q in done + [p]
        ensures SendsFor(more, b.cr, q, changed, newId)
      {
        if q == p {
          SendsForThis(b, newId, changed, existing, updates, more, done, p, e);
        } else {
          SendsForOther(b, newId, changed, existing, updates, more, p, q, e);
        }
      }
    }

    lemma SendsForThis(b: Binding, newId: (Store, Path) -> Id, changed: Path -> bool, existing: map<Path, Id>,
                       updates: Store, more: Store, done: seq<Path>, p: Path, e: Edge)
      requires e.target == p && IsExisting(b.cr, existing)
      requires Chosen(b, newId, changed, updates, done)
      requires more == if p !in existing then updates[newId(store, p) := e]
                       else if changed(p) then updates[existing[p] := e] else updates
      ensures SendsFor(more, b.cr, p, changed, newId)
    {
      if p in existing {
        assert Targeted(store, b.cr, p);
        if changed(p) {
          assert existing[p] in more && existing[p] in store && more[existing[p]].target == p;
        } else if id :| id in more && id in store && more[id].target == p {
          assert updates[id].target in done && SendsFor(updates, b.cr, p, changed, newId);
        }
      }
    }

    lemma SendsForOther(b: Binding, newId: (Store, Path) -> Id, changed: Path -> bool, existing: map<Path, Id>,
                        updates: Store, more: Store, p: Path, q: Path, e: Edge)
      requires e.target == p != q && IsExisting(b.cr, existing) && newId(store, p) !in store
      requires SendsFor(updates, b.cr, q, changed, newId)
      requires forall id :: id in updates ==> UpdateOk(b, newId, id, updates[id])
      requires more == if p !in existing then updates[newId(store, p) := e]
                       else if changed(p) then updates[existing[p] := e] else updates
      ensures SendsFor(more, b.cr, q, changed, newId)
    {
      if Targeted(store, b.cr, q) {
        if id :| id in updates && id in store && updates[id].target == q {
          assert UpdateOk(b, newId, id, updates[id]) && store[id].target == q;
          assert more[id] == updates[id];
        }
        if id :| id in more && id in store && more[id].target == q {
          assert id in updates && updates[id] == more[id];
        }
      }
    }

    /** What createOrUpdateBindingMapInternal sends: new and changed bindings, and those to delete. */
    method Compare(b: Binding, host: Path, targets: seq<Path>, changed: Path -> bool, newId: (Store, Path) -> Id)
      returns (updates: Store, deletes: set<Id>)
      requires Admissible(b) && host == HostPaths(b)[0] && targets == TargetPaths(b)
      requires forall p :: p in targets ==> newId(store, p) !in store
      ensures Chosen(b, newId, changed, updates, targets)
      ensures forall id :: id in deletes ==> id in store && store[id].cr == b.cr && store[id].target !in targets
      ensures forall p :: p !in targets && Targeted(store, b.cr, p) ==>
                            exists id :: id in deletes && store[id].target == p
      ensures DistinctIds(targets, newId) ==> forall p :: p in targets ==> Provided(updates, deletes, b.cr, p)
    {
      var existing := ExistingByTarget(b.cr);
      updates := map[];
      for i := 0 to |targets|
        invariant Chosen(b, newId, changed, updates, targets[..i])
        invariant DistinctIds(targets, newId) ==> OwnIds(newId, existing, updates, targets[..i])
      {
        assert targets[i] in targets;
        assert targets[..i + 1] == targets[..i] + [targets[i]];
        updates := Choose(b, host, targets[i], existing, changed, newId, updates, targets[..i]);
      }
      assert targets[..|targets|] == targets;
      deletes := set p | p in existing && p !in targets :: existing[p];
      forall p | p !in targets && Targeted(store, b.cr, p)
        ensures exists id :: id in deletes && store[id].target == p
      {
        assert p in existing && existing[p] in deletes;
      }
      forall p | p in targets && DistinctIds(targets, newId)
        ensures Provided(updates, deletes, b.cr, p)
      {
        var id := if p in existing then existing[p] else newId(store, p);
        assert id !in deletes;
        assert id in updates ==> UpdateOk(b, newId, id, updates[id]);
      }
    }

    /** What is sent may be sent. */
    lemma ChosenMaySend(b: Binding, newId: (Store, Path) -> Id, id: Id, e: Edge)
      requires UpdateOk(b, newId, id, e)
      ensures MaySend(store, b, newId, id)
    {
      assert e.target in TargetPaths(b);
    }

    // ---- The change ----

    /** BindingStore.Apply: one binding goes, or one comes. */
    method Change(w: Worker, b: Binding, gone: set<Id>, added: Store)
      requires Ready(w, b) && forall id :: id in added ==> Desired(b, added[id])
      modifies this
      ensures Ready(w, b) && trace == old(trace) + [Step.Realize(w, gone, added)]
      ensures store == (old(store) - gone) + added
    {
      assert Kept(store, gone, added) + added == (store - gone) + added;
      store := (store - gone) + added;
      Took(Step.Realize(w, gone, added));
    }

    /** The deleted bindings leave the store one by one. */
    method DeleteAll(w: Worker, b: Binding, deletes: set<Id>)
      requires Ready(w, b)
      modifies this
      ensures Ready(w, b) && old(trace) <= trace && OnlyParts(trace, |old(trace)|, w, deletes, map[])
      ensures AllTaken(trace, |old(trace)|, w, deletes)
    {
      var todo := deletes;
      while todo != {}
        invariant todo <= deletes && Ready(w, b) && old(trace) <= trace
        invariant OnlyParts(trace, |old(trace)|, w, deletes, map[])
        invariant AllTaken(trace, |old(trace)|, w, deletes - todo)
      {
        var id :| id in todo;
        ghost var before := trace;
        Change(w, b, {id}, map[]);
        assert trace[|before|] == Step.Realize(w, {id}, map[]);
        Others(w);
        AllTakenLonger(before, trace, |old(trace)|, w, deletes - todo);
        assert trace[|before|] == Step.Realize(w, {id}, map[]);
        todo := todo - {id};
      }
    }

    /** One binding that NSX lists enters the store, and others go on. */
    method StoreOne(w: Worker, b: Binding, updates: Store, id: Id)
      requires Ready(w, b) && id in updates && Desired(b, updates[id])
      modifies this
      ensures Ready(w, b) && old(trace) <= trace && OnlyParts(trace, |old(trace)|, w, {}, updates)
      ensures AllStored(trace, |old(trace)|, updates, {id})
    {
      Change(w, b, {}, map[id := updates[id]]);
      ghost var after := trace;
      assert trace[..|trace|] == trace && Was(trace, |trace|, id, updates[id]);
      Others(w);
      StoredLonger(after, trace, |old(trace)|, id, updates[id]);
    }

    /** The bindings that NSX lists enter the store one by one. */
    method StoreFound(w: Worker, b: Binding, updates: Store, found: set<Id>)
      requires Ready(w, b) && found <= updates.Keys && forall id :: id in updates ==> Desired(b, updates[id])
      modifies this
      ensures Ready(w, b) && old(trace) <= trace && OnlyParts(trace, |old(trace)|, w, {}, updates)
      ensures AllStored(trace, |old(trace)|, updates, found)
    {
      var todo := found;
      while todo != {}
        invariant todo <= found && Ready(w, b) && old(trace) <= trace
        invariant OnlyParts(trace, |old(trace)|, w, {}, updates)
        invariant AllStored(trace, |old(trace)|, updates, found - todo)
      {
        var id :| id in todo;
        ghost var before := trace;
        StoreOne(w, b, updates, id);
        AllStoredLonger(before, trace, |old(trace)|, updates, found - todo);
        AllStoredSince(trace, |old(trace)|, |before|, updates, {id});
        todo := todo - {id};
      }
    }

    /** One listing of NSX: the missing bindings that it shows are stored. */
    method StoreListed(w: Worker, b: Binding, updates: Store, missing: set<Id>, listing: Listing)
      returns (left: set<Id>)
      requires Ready(w, b) && missing <= updates.Keys && forall id :: id in updates ==> Desired(b, updates[id])
      modifies this
      ensures Ready(w, b) && old(trace) <= trace && OnlyParts(trace, |old(trace)|, w, {}, updates)
      ensures left == if listing.Lists? then missing - listing.found else missing
      ensures AllStored(trace, |old(trace)|, updates, missing - left)
    {
      Others(w);
      left := missing;
      if listing.Lists? {
        ghost var before := trace;
        var found := missing * listing.found;
        StoreFound(w, b, updates, found);
        AllStoredSince(trace, |old(trace)|, |before|, updates, found);
        left := missing - found;
        assert missing - left == found;
      }
    }

    /** The listing of NSX, retried until all bindings are found. */
    method StoreAll(w: Worker, b: Binding, updates: Store, listings: nat -> Listing) returns (failed: bool)
      requires Ready(w, b) && forall id :: id in updates ==> Desired(b, updates[id])
      modifies this
      ensures Ready(w, b) && old(trace) <= trace && OnlyParts(trace, |old(trace)|, w, {}, updates)
      ensures !failed ==> AllStored(trace, |old(trace)|, updates, updates.Keys)
      ensures failed <==> !RealizedInTime(updates.Keys, listings)
    {
      var missing := updates.Keys;
      for attempt := 0 to NSXT_REALIZE_RETRY
        invariant missing <= updates.Keys && Ready(w, b) && old(trace) <= trace
        invariant OnlyParts(trace, |old(trace)|, w, {}, updates)
        invariant AllStored(trace, |old(trace)|, updates, updates.Keys - missing)
        invariant StillMissing(updates.Keys, listings, attempt, missing) && NotYet(updates.Keys, listings, attempt)
      {
        ghost var before := trace;
        var left := StoreListed(w, b, updates, missing, listings(attempt));
        if listings(attempt).ApiError? {
          NeverInTime(updates.Keys, listings, attempt);
          return true;
        }
        OneMoreListing(updates.Keys, listings, attempt, missing);
        AllStoredLonger(before, trace, |old(trace)|, updates, updates.Keys - missing);
        AllStoredSince(trace, |old(trace)|, |before|, updates, missing - left);
        missing := left;
        if listings(attempt).Lists? && missing == {} {
          return false;
        }
      }
      NeverInTime(updates.Keys, listings, 50);
      return true;
    }

    /** Apply: the patch, the deletions from the store, and the listings. */
    method Apply(w: Worker, b: Binding, updates: Store, deletes: set<Id>, nsx: Nsx) returns (failed: bool)
      requires Ready(w, b) && forall id :: id in updates ==> Desired(b, updates[id])
      modifies this
      ensures Ready(w, b) && old(trace) <= trace && OnlyParts(trace, |old(trace)|, w, deletes, updates)
      ensures failed <==> FailsWith(nsx, updates.Keys)
      ensures !failed ==> AllStored(trace, |old(trace)|, updates, updates.Keys)
      ensures !failed ==> AllTaken(trace, |old(trace)|, w, deletes)
    {
      Others(w);
      if nsx.patchFails {
        return true;
      }
      ghost var i := |trace|;
      DeleteAll(w, b, deletes);
      ghost var middle := trace;
      failed := StoreAll(w, b, updates, nsx.listings);
      if !failed {
        AllStoredSince(trace, |old(trace)|, |middle|, updates, updates.Keys);
        AllTakenLonger(middle, trace, i, w, deletes);
        AllTakenSince(trace, |old(trace)|, i, w, deletes);
      }
    }

    /** createOrUpdateBindingMapInternal: the comparison and the change. */
    method CreateOrUpdate(w: Worker, b: Binding, host: Path, targets: seq<Path>, changed: Path -> bool,
                          newId: (Store, Path) -> Id, nsx: Nsx)
      returns (failed: bool)
      requires Ready(w, b) && host == HostPaths(b)[0] && targets == TargetPaths(b)
      requires forall s: Store, p: Path :: newId(s, p) !in s
      modifies this
      ensures Ready(w, b) && old(trace) <= trace && Begins(trace, |old(trace)|, w, b)
      ensures !failed ==> Succeeded(trace, |old(trace)|, w, b, newId)
      ensures failed ==> Fails(trace, |old(trace)|, b, newId, nsx)
      ensures nsx.patchFails ==> failed
    {
      var updates, deletes := Compare(b, host, targets, changed, newId);
      ghost var compared := store;
      forall id | id in updates
        ensures Desired(b, updates[id]) && MaySend(store, b, newId, id)
      {
        ChosenMaySend(b, newId, id, updates[id]);
      }
      failed := Apply(w, b, updates, deletes, nsx);
      assert trace[..|old(trace)|] == old(trace);
      if failed {
        assert SentAt(trace, |old(trace)|, b, newId, updates.Keys) && FailsWith(nsx, updates.Keys);
        return;
      }
      forall p | p in targets && DistinctIds(targets, newId)
        ensures Established(trace, |old(trace)|, w, b.cr, p)
      {
        var id :| id !in deletes && (id in updates ==> updates[id].target == p && updates[id].cr == b.cr)
                  && (id in updates || (id in compared && compared[id].cr == b.cr && compared[id].target == p));
        assert id !in updates ==> Was(trace, |old(trace)|, id, compared[id]);
        Establish(trace, |old(trace)|, w, p, id, if id in updates then updates[id] else compared[id], deletes, updates);
      }
      forall p | p !in targets && Targeted(compared, b.cr, p)
        ensures TakenFor(compared, trace, |old(trace)|, w, b.cr, p)
      {
        var id :| id in deletes && compared[id].target == p;
        assert TakenAway(trace, |old(trace)|, w, id);
      }
      assert Cleaned(trace, |old(trace)|, w, b);
    }

    /** CreateOrUpdateSubnetConnectionBindingMap: a failure for overlapping VLANs is followed by a second change. */
    method CreateOrUpdateTwice(w: Worker, b: Binding, host: Path, targets: seq<Path>, changed: Path -> bool,
                               newId: (Store, Path) -> Id, first: Nsx, vlanOverlap: bool, second: Nsx)
      returns (failed: bool)
      requires Ready(w, b) && host == HostPaths(b)[0] && targets == TargetPaths(b)
      requires forall s: Store, p: Path :: newId(s, p) !in s
      modifies this
      ensures Ready(w, b) && old(trace) <= trace && Begins(trace, |old(trace)|, w, b)
      ensures !failed ==> Succeeded(trace, |old(trace)|, w, b, newId)
      ensures failed ==> Fails(trace, |old(trace)|, b, newId, first)
                         && (vlanOverlap ==> Fails(trace, |old(trace)|, b, newId, second))
      ensures !failed ==> !first.patchFails || (vlanOverlap && !second.patchFails)
    {
      failed := CreateOrUpdate(w, b, host, targets, changed, newId, first);
      if failed && vlanOverlap {
        ghost var tried := trace;
        failed := CreateOrUpdate(w, b, host, targets, changed, newId, second);
        if failed {
          FailsLonger(tried, trace, |old(trace)|, |old(trace)|, b, newId, first);
          FailsLonger(trace, trace, |old(trace)|, |tried|, b, newId, second);
        } else {
          SucceededSince(trace, |old(trace)|, |tried|, w, b, newId);
        }
      }
    }

    /** Reconcile of a live binding, with any steps of others between any two accesses to the store. All steps
      * are those of a run, so FlatRunIff says when the store stays flat; and Ready is reported only when every
      * target got a binding of this CR, which this reconcile has not taken away again, and bindings to other targets
      * were deleted. Configuring fails only when NSX refuses a change or does not show its bindings in time. */
    method Reconcile(w: Worker, b: Binding, changed: Path -> bool, newId: (Store, Path) -> Id, first: Nsx,
                     vlanOverlap: bool, second: Nsx)
      returns (r: Outcome)
      requires Valid() && w !in pending
      requires forall s: Store, p: Path :: newId(s, p) !in s
      modifies this
      ensures Valid() && old(trace) <= trace && w !in pending && Begins(trace, |old(trace)|, w, b)
      ensures r == NotReady(true) ==> exists c :: c in Checks(b) && !Passes(store, c)
      ensures r == NotReady(false) ==> !Admissible(b)
      ensures !r.NotReady? ==> Admissible(b)
      ensures r.Ready? ==> Succeeded(trace, |old(trace)|, w, b, newId)
      ensures r.ConfigureFailed? ==>
                Fails(trace, |old(trace)|, b, newId, first)
                && (vlanOverlap ==> Fails(trace, |old(trace)|, b, newId, second))
      ensures r.Ready? ==> !first.patchFails || (vlanOverlap && !second.patchFails)
    {
      var paths := ValidateDependency(w, b);
      if paths.Err? {
        return NotReady(paths.error.retry);
      }
      Others(w);
      ghost var i := |trace|;
      var failed := CreateOrUpdateTwice(w, b, paths.value.0, paths.value.1, changed, newId, first, vlanOverlap, second);
      ghost var before := trace;
      Stop(w);
      if failed {
        FailsLonger(before, trace, |old(trace)|, i, b, newId, first);
        if vlanOverlap {
          FailsLonger(before, trace, |old(trace)|, i, b, newId, second);
        }
        return ConfigureFailed;
      }
      SucceededLonger(before, Step.End(w), |old(trace)|, i, w, b, newId);
      return Outcome.Ready;
    }

    /** Deletion of bindings, by CR, by parent Subnet, or by garbage collection. NSX works in
      * batches, and a failed batch keeps its bindings: those that it accepts are gone. */
    method Remove(ids: set<Id>, accepted: set<Id>) returns (failed: bool)
      requires Valid()
      modifies this
      ensures Valid() && old(trace) <= trace && pending == old(pending)
      ensures store == old(store) - (ids * accepted)
      ensures failed <==> exists id :: id in ids && id !in accepted
    {
      var done := ids * accepted;
      store := store - done;
      Took(Step.Remove(done));
      failed := done != ids;
      assert (forall id :: id in ids ==> id in accepted) ==> done == ids;
    }
  }

  lemma HostChecks(b: Binding)
    ensures forall p :: p in HostPaths(b) ==> Lookup(p, b.branch) in Checks(b)
  {
    forall p | p in HostPaths(b)
      ensures Lookup(p, b.branch) in Checks(b)
    {
      var i :| 0 <= i < |HostPaths(b)| && HostPaths(b)[i] == p;
      assert Checks(b)[i] == Lookup(p, b.branch);
    }
  }

  lemma TargetChecks(b: Binding)
    requires b.target.TargetSubnet?
    ensures forall p :: p in TargetPaths(b) ==> Lookup(p, !b.branch) in Checks(b)
  {
    forall p | p in TargetPaths(b)
      ensures Lookup(p, !b.branch) in Checks(b)
    {
      var i :| 0 <= i < |TargetPaths(b)| && TargetPaths(b)[i] == p;
      assert Checks(b)[|HostPaths(b)| + i] == Lookup(p, !b.branch);
    }
  }
}
