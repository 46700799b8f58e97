/** Runs of concurrent binding reconciles. A reconcile looks up the paths of its binding in the store,
  * one after the other, and then changes the store part by part; other reconciles, deletions and
  * garbage collection act in between. */
module BindingRuns {
  import opened BindingTopology

  type Worker = nat

  /** A binding under reconcile, and the store at each of its lookups so far. */
  datatype Pending = Pending(b: Binding, seen: seq<Store>)

  datatype State = State(store: Store, pending: map<Worker, Pending>)

  const INIT := State(map[], map[])

  datatype Step =
    | Begin(w: Worker, b: Binding)
    | Check(w: Worker)                                 // one lookup; a clash ends the reconcile
    | Realize(w: Worker, gone: set<Id>, added: Store)  // any part of the change reaches the store
    | End(w: Worker)                                   // done, refused by NSX, or out of retries
    | Remove(gone: set<Id>)                            // deletions and garbage collection

  /** All lookups are made. */
  predicate Checked(p: Pending) {
    Admissible(p.b) && |p.seen| == |Checks(p.b)|
  }

  predicate Enabled(s: State, step: Step) {
    match step
    case Begin(w, _) => w !in s.pending
    case Check(w) => w in s.pending && |s.pending[w].seen| < |Checks(s.pending[w].b)|
    case Realize(w, _, added) =>
      w in s.pending && Checked(s.pending[w]) && forall i :: i in added ==> Desired(s.pending[w].b, added[i])
    case End(w) => w in s.pending
    case Remove(_) => true
  }

  /** The bindings that a change leaves as they are. */
  function Kept(s: Store, gone: set<Id>, added: Store): Store {
    s - gone - added.Keys
  }

  function Look(s: State, w: Worker): State
    requires Enabled(s, Check(w))
  {
    var p := s.pending[w];
    if Passes(s.store, Checks(p.b)[|p.seen|]) then s.(pending := s.pending[w := Pending(p.b, p.seen + [s.store])])
    else s.(pending := s.pending - {w})
  }

  function Next(s: State, step: Step): State {
    if !Enabled(s, step) then s
    else match step
      case Begin(w, b) => s.(pending := s.pending[w := Pending(b, [])])
      case Check(w) => Look(s, w)
      case Realize(w, gone, added) => s.(store := Kept(s.store, gone, added) + added)
      case End(w) => s.(pending := s.pending - {w})
      case Remove(gone) => s.(store := s.store - gone)
  }

  function Run(steps: seq<Step>): State {
    if steps == [] then INIT else Next(Run(steps[..|steps| - 1]), steps[|steps| - 1])
  }

  /** The two sides of every binding are apart. */
  predicate SidesApart(steps: seq<Step>) {
    forall k :: 0 <= k < |steps| && steps[k].Begin? ==> Apart(steps[k].b)
  }

  /** Every lookup so far found no clash. */
  predicate SeenOk(p: Pending) {
    |p.seen| <= |Checks(p.b)| && forall k :: 0 <= k < |p.seen| ==> Passes(p.seen[k], Checks(p.b)[k])
  }

  predicate PendingOk(s: State, w: Worker)
    requires w in s.pending
  {
    SeenOk(s.pending[w]) && Apart(s.pending[w].b)
  }

  lemma NextPendingOk(s: State, step: Step, w: Worker)
    requires w in Next(s, step).pending && (w in s.pending ==> PendingOk(s, w))
    requires step.Begin? ==> Apart(step.b)
    ensures PendingOk(Next(s, step), w)
  {
  }

  lemma {:induction false} AllPendingOk(steps: seq<Step>, w: Worker)
    requires SidesApart(steps) && w in Run(steps).pending
    ensures PendingOk(Run(steps), w)
  {
    var before, step := steps[..|steps| - 1], steps[|steps| - 1];
    assert SidesApart(before);
    if w in Run(before).pending {
      AllPendingOk(before, w);
    }
    NextPendingOk(Run(before), step, w);
  }

  // ---- When a change breaks the topology ----

  /** The binding was stored, or changed, after the store had been seen. */
  predicate Late(seen: Store, s: Store, id: Id)
    requires id in s
  {
    id !in seen || seen[id] != s[id]
  }

  /** A stored binding meets an end of one that is added now, and was stored since the lookup of that end. */
  predicate LateMeeting(s: State, step: Step) {
    step.Realize? && Enabled(s, step)
    && var p, kept := s.pending[step.w], Kept(s.store, step.gone, step.added);
       exists id, i, k :: id in kept && i in step.added && 0 <= k < |p.seen| && LateAt(p, kept, step.added[i], id, k)
  }

  predicate LateAt(p: Pending, s: Store, e: Edge, id: Id, k: nat)
    requires id in s && k < |p.seen| == |Checks(p.b)|
  {
    var c := Checks(p.b)[k];
    EndOf(e, c) && Clash(s[id], c) && Late(p.seen[k], s, id)
  }

  /** A target of a SubnetSet, which is not looked up, meets a stored binding. */
  predicate UncheckedMeeting(s: State, step: Step) {
    step.Realize? && Enabled(s, step) && s.pending[step.w].b.target.TargetSet?
    && var kept := Kept(s.store, step.gone, step.added);
       exists id, i :: id in kept && i in step.added && MeetAtTarget(kept[id], step.added[i])
  }

  lemma FlatPair(s: Store, i: Id, j: Id)
    requires Flat(s) && i in s && j in s
    ensures s[i].Child() != s[j].Parent()
  {
    assert HasChild(s, s[i].Child()) && HasParent(s, s[j].Parent());
  }

  lemma FlatFromPairs(s: Store)
    requires forall i, j :: i in s && j in s ==> s[i].Child() != s[j].Parent()
    ensures Flat(s)
  {
  }

  predicate Meet(f: Edge, e: Edge) {
    MeetAtHost(f, e) || MeetAtTarget(f, e)
  }

  /** Adding bindings that do not meet each other to a flat store. */
  lemma AddedIsFlat(kept: Store, added: Store)
    requires Flat(kept) && kept.Keys !! added.Keys
    requires forall i, j :: i in added && j in added ==> added[i].Child() != added[j].Parent()
    ensures Flat(kept + added) <==> forall id, i :: id in kept && i in added ==> !Meet(kept[id], added[i])
  {
    var t := kept + added;
    if id, i :| id in kept && i in added && Meet(kept[id], added[i]) {
      if Flat(t) {
        assert t[id] == kept[id] && t[i] == added[i];
        FlatPair(t, id, i);
        FlatPair(t, i, id);
      }
    } else {
      forall i, j | i in t && j in t
        ensures t[i].Child() != t[j].Parent()
      {
        if i in kept && j in kept {
          FlatPair(kept, i, j);
        } else if i in kept {
          assert !Meet(kept[i], added[j]);
        } else if j in kept {
          assert !Meet(kept[j], added[i]);
        }
      }
      FlatFromPairs(t);
    }
  }

  lemma SubStoreFlat(s: Store, t: Store)
    requires Flat(s) && forall id :: id in t ==> id in s && t[id] == s[id]
    ensures Flat(t)
  {
    forall i, j | i in t && j in t
      ensures t[i].Child() != t[j].Parent()
    {
      FlatPair(s, i, j);
    }
    FlatFromPairs(t);
  }

  /** A stored binding that meets a wanted one at an end that was looked up is late there. */
  lemma MeetsLate(p: Pending, s: Store, id: Id, e: Edge)
    requires Checked(p) && SeenOk(p) && id in s && Desired(p.b, e) && Meet(s[id], e)
    ensures (exists k :: 0 <= k < |p.seen| && LateAt(p, s, e, id, k))
            || (p.b.target.TargetSet? && MeetAtTarget(s[id], e))
  {
    EndsChecked(p.b, e);
    if MeetAtHost(s[id], e) || p.b.target.TargetSubnet? {
      var c := if MeetAtHost(s[id], e) then Lookup(e.host, e.branch) else Lookup(e.target, !e.branch);
      var k :| 0 <= k < |Checks(p.b)| && Checks(p.b)[k] == c;
      assert Passes(p.seen[k], c);
      assert LateAt(p, s, e, id, k);
    }
  }

  /** So some stored binding meets some added one exactly in the two ways. */
  lemma SomeMeeting(s: State, w: Worker, gone: set<Id>, added: Store)
    requires Enabled(s, Realize(w, gone, added)) && SeenOk(s.pending[w])
    ensures (exists id, i :: id in Kept(s.store, gone, added) && i in added
                             && Meet(Kept(s.store, gone, added)[id], added[i]))
            <==> LateMeeting(s, Realize(w, gone, added)) || UncheckedMeeting(s, Realize(w, gone, added))
  {
    var p, kept := s.pending[w], Kept(s.store, gone, added);
    if id, i :| id in kept && i in added && Meet(kept[id], added[i]) {
      MeetsLate(p, kept, id, added[i]);
    }
    if LateMeeting(s, Realize(w, gone, added)) {
      var id, i, k :| id in kept && i in added && 0 <= k < |p.seen| && LateAt(p, kept, added[i], id, k);
      assert Meet(kept[id], added[i]);
    }
    if UncheckedMeeting(s, Realize(w, gone, added)) {
      var id, i :| id in kept && i in added && MeetAtTarget(kept[id], added[i]);
      assert Meet(kept[id], added[i]);
    }
  }

  lemma RealizeBreaks(s: State, w: Worker, gone: set<Id>, added: Store)
    requires Enabled(s, Realize(w, gone, added)) && PendingOk(s, w) && Flat(s.store)
    ensures !Flat(Next(s, Realize(w, gone, added)).store)
            <==> LateMeeting(s, Realize(w, gone, added)) || UncheckedMeeting(s, Realize(w, gone, added))
  {
    SubStoreFlat(s.store, Kept(s.store, gone, added));
    forall i, j | i in added && j in added
      ensures added[i].Child() != added[j].Parent()
    {
      DesiredApart(s.pending[w].b, added[i], added[j]);
    }
    AddedIsFlat(Kept(s.store, gone, added), added);
    SomeMeeting(s, w, gone, added);
  }

  /** A step breaks a flat topology if and only if it stores a binding with an end that meets one stored since
    * the lookup of that end, or with a target of a SubnetSet that meets a stored one. */
  lemma BreaksIff(steps: seq<Step>, step: Step)
    requires SidesApart(steps) && Flat(Run(steps).store)
    ensures !Flat(Run(steps + [step]).store) <==> LateMeeting(Run(steps), step) || UncheckedMeeting(Run(steps), step)
  {
    assert (steps + [step])[..|steps|] == steps;
    var s := Run(steps);
    if step.Realize? && Enabled(s, step) {
      AllPendingOk(steps, step.w);
      RealizeBreaks(s, step.w, step.gone, step.added);
    } else {
      SubStoreFlat(s.store, Next(s, step).store);
    }
  }

  /** Nothing has been stored since the first lookup but parts of this very change. */
  predicate Undisturbed(s: State, w: Worker)
    requires w in s.pending
  {
    var p := s.pending[w];
    forall id, k :: id in s.store && 0 <= k < |p.seen| && Late(p.seen[k], s.store, id) ==> Desired(p.b, s.store[id])
  }

  lemma UndisturbedNotLate(s: State, step: Step)
    requires step.Realize? && Enabled(s, step) && PendingOk(s, step.w) && Undisturbed(s, step.w)
    ensures !LateMeeting(s, step)
  {
    var p, kept := s.pending[step.w], Kept(s.store, step.gone, step.added);
    forall id, i, k | id in kept && i in step.added && 0 <= k < |p.seen|
      ensures !LateAt(p, kept, step.added[i], id, k)
    {
      if LateAt(p, kept, step.added[i], id, k) {
        assert Late(p.seen[k], s.store, id);
        DesiredApart(p.b, step.added[i], s.store[id]);
      }
    }
  }

  /** With an undisturbed sync only the unchecked target of a SubnetSet can break it, and it does exactly
    * when the set's Subnet is stored in the other role. */
  lemma AtomicBreaksIff(steps: seq<Step>, step: Step)
    requires SidesApart(steps) && Flat(Run(steps).store) && step.Realize? && Enabled(Run(steps), step)
    requires Undisturbed(Run(steps), step.w)
    ensures !Flat(Run(steps + [step]).store) <==> UncheckedMeeting(Run(steps), step)
  {
    AllPendingOk(steps, step.w);
    UndisturbedNotLate(Run(steps), step);
    BreaksIff(steps, step);
  }

  // ---- Whole runs ----

  ghost predicate FlatThroughout(steps: seq<Step>) {
    Flat(Run(steps).store) && (steps != [] ==> FlatThroughout(steps[..|steps| - 1]))
  }

  predicate NoMeeting(steps: seq<Step>) {
    steps == []
    || (var before, step := steps[..|steps| - 1], steps[|steps| - 1];
        NoMeeting(before) && !LateMeeting(Run(before), step) && !UncheckedMeeting(Run(before), step))
  }

  /** A run is flat throughout if and only if none of its steps is such a meeting. */
  lemma {:induction false} FlatRunIff(steps: seq<Step>)
    requires SidesApart(steps)
    ensures FlatThroughout(steps) <==> NoMeeting(steps)
  {
    if steps != [] {
      var before, step := steps[..|steps| - 1], steps[|steps| - 1];
      assert SidesApart(before);
      FlatRunIff(before);
      assert steps == before + [step];
      if FlatThroughout(before) {
        BreaksIff(before, step);
      }
    }
  }

  // ---- SubnetSets in Trunk association, and undisturbed syncs ----

  /** SubnetSets are targets in Trunk association only, and their paths are not those of Subnets. */
  predicate SetsInTrunk(b: Binding, ofSet: Path -> bool) {
    && (b.target.TargetSet? ==> !b.branch && forall p :: p in TargetPaths(b) ==> ofSet(p))
    && (b.target.TargetSubnet? ==> forall p :: p in TargetPaths(b) ==> !ofSet(p))
    && forall p :: p in HostPaths(b) ==> !ofSet(p)
  }

  predicate AllSetsInTrunk(steps: seq<Step>, ofSet: Path -> bool) {
    forall k :: 0 <= k < |steps| && steps[k].Begin? ==> SetsInTrunk(steps[k].b, ofSet)
  }

  ghost predicate ChildrenOutsideSets(s: State, ofSet: Path -> bool) {
    && (forall id :: id in s.store ==> !ofSet(s.store[id].Child()))
    && (forall w :: w in s.pending ==> SetsInTrunk(s.pending[w].b, ofSet))
  }

  lemma ChildOutsideSets(b: Binding, e: Edge, ofSet: Path -> bool)
    requires SetsInTrunk(b, ofSet) && Desired(b, e)
    ensures !ofSet(e.Child())
  {
    assert e.host in HostPaths(b);
  }

  lemma {:induction false} SetsNeverChildren(steps: seq<Step>, ofSet: Path -> bool)
    requires AllSetsInTrunk(steps, ofSet)
    ensures ChildrenOutsideSets(Run(steps), ofSet)
  {
    if steps != [] {
      var s, step := Run(steps[..|steps| - 1]), steps[|steps| - 1];
      assert AllSetsInTrunk(steps[..|steps| - 1], ofSet);
      SetsNeverChildren(steps[..|steps| - 1], ofSet);
      if step.Realize? && Enabled(s, step) {
        forall i | i in step.added
          ensures !ofSet(step.added[i].Child())
        {
          ChildOutsideSets(s.pending[step.w].b, step.added[i], ofSet);
        }
      }
    }
  }

  /** Then the only meetings are late ones. */
  lemma NoUncheckedMeeting(steps: seq<Step>, step: Step, ofSet: Path -> bool)
    requires AllSetsInTrunk(steps, ofSet)
    ensures !UncheckedMeeting(Run(steps), step)
  {
    SetsNeverChildren(steps, ofSet);
    var s := Run(steps);
    if step.Realize? && Enabled(s, step) && s.pending[step.w].b.target.TargetSet? {
      forall i | i in step.added
        ensures ofSet(step.added[i].target) && !step.added[i].branch
      {
        assert Desired(s.pending[step.w].b, step.added[i]);
      }
    }
  }

  /** No sync is disturbed between its first lookup and its last part. */
  predicate AtomicSyncs(steps: seq<Step>) {
    steps == []
    || (var before, step := steps[..|steps| - 1], steps[|steps| - 1];
        AtomicSyncs(before) && (step.Realize? && Enabled(Run(before), step) ==> Undisturbed(Run(before), step.w)))
  }

  /** Every run of undisturbed syncs with SubnetSets in Trunk association, partial changes and removals
    * included, is flat throughout. */
  lemma AlwaysFlat(steps: seq<Step>, ofSet: Path -> bool)
    requires SidesApart(steps) && AllSetsInTrunk(steps, ofSet) && AtomicSyncs(steps)
    ensures FlatThroughout(steps)
  {
    NoMeetings(steps, ofSet);
    FlatRunIff(steps);
  }

  lemma {:induction false} NoMeetings(steps: seq<Step>, ofSet: Path -> bool)
    requires SidesApart(steps) && AllSetsInTrunk(steps, ofSet) && AtomicSyncs(steps)
    ensures NoMeeting(steps)
  {
    if steps != [] {
      var before, step := steps[..|steps| - 1], steps[|steps| - 1];
      assert SidesApart(before) && AllSetsInTrunk(before, ofSet);
      NoMeetings(before, ofSet);
      NoUncheckedMeeting(before, step, ofSet);
      if step.Realize? && Enabled(Run(before), step) {
        AllPendingOk(before, step.w);
        UndisturbedNotLate(Run(before), step);
      }
    }
  }
}
