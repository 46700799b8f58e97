/** Runs of binding reconciles that end with a path that is both parent and child. */
module BindingExamples {
  import opened Common
  import opened BindingTopology
  import opened BindingRuns

  /** A binding in Trunk association between two Subnets with one path each. */
  function Plain(cr: Uid, host: Path, target: Path): Binding {
    Binding(cr, false, Some(SubnetCr(None, true, [host])), TargetSubnet(Some(SubnetCr(None, true, [target]))))
  }

  function PlainEdge(cr: Uid, host: Path, target: Path): Edge {
    Edge(cr, host, target, false)
  }

  lemma PlainChecks(cr: Uid, host: Path, target: Path)
    ensures var b := Plain(cr, host, target);
            && HostPaths(b) == [host] && TargetPaths(b) == [target] && Admissible(b)
            && Checks(b) == [Lookup(host, false), Lookup(target, true)]
            && Desired(b, PlainEdge(cr, host, target))
    ensures host != target ==> Apart(Plain(cr, host, target))
  {
  }

  function Checking(w: Worker, cr: Uid, host: Path, target: Path): seq<Step> {
    [Begin(w, Plain(cr, host, target)), Check(w), Check(w)]
  }

  function Storing(w: Worker, cr: Uid, host: Path, target: Path, id: Id): seq<Step> {
    Checking(w, cr, host, target) + [Realize(w, {}, map[id := PlainEdge(cr, host, target)]), End(w)]
  }

  predicate Sane(steps: seq<Step>, more: seq<Step>) {
    SidesApart(more) && (AtomicSyncs(steps) ==> AtomicSyncs(more))
  }

  lemma RunAppend(steps: seq<Step>, step: Step)
    requires SidesApart(steps) && (step.Begin? ==> Apart(step.b))
    ensures Run(steps + [step]) == Next(Run(steps), step) && SidesApart(steps + [step])
    ensures (step.Realize? && Enabled(Run(steps), step) ==> Undisturbed(Run(steps), step.w)) ==>
            Sane(steps, steps + [step])
  {
    assert (steps + [step])[..|steps|] == steps;
  }

  lemma Begins(steps: seq<Step>, w: Worker, b: Binding)
    requires SidesApart(steps) && w !in Run(steps).pending && Apart(b)
    ensures var s, more := Run(steps), steps + [Begin(w, b)];
            Run(more) == State(s.store, s.pending[w := Pending(b, [])]) && Sane(steps, more)
  {
    RunAppend(steps, Begin(w, b));
  }

  lemma Looks(steps: seq<Step>, w: Worker, b: Binding, seen: seq<Store>)
    requires SidesApart(steps) && w in Run(steps).pending && Run(steps).pending[w] == Pending(b, seen)
    requires |seen| < |Checks(b)| && Passes(Run(steps).store, Checks(b)[|seen|])
    ensures var s, more := Run(steps), steps + [Check(w)];
            Run(more) == State(s.store, s.pending[w := Pending(b, seen + [s.store])]) && Sane(steps, more)
  {
    RunAppend(steps, Check(w));
  }

  lemma Realizes(steps: seq<Step>, w: Worker, p: Pending, id: Id, e: Edge)
    requires SidesApart(steps) && w in Run(steps).pending && Run(steps).pending[w] == p && Checked(p) && Desired(p.b, e)
    ensures var s, more := Run(steps), steps + [Realize(w, {}, map[id := e])];
            Run(more) == State(s.store[id := e], s.pending) && SidesApart(more)
            && (Undisturbed(s, w) ==> Sane(steps, more))
  {
    RunAppend(steps, Realize(w, {}, map[id := e]));
    var s := Run(steps).store;
    assert Kept(s, {}, map[id := e]) + map[id := e] == s[id := e];
  }

  lemma Twice<K, V>(m: map<K, V>, k: K, v: V, w: V)
    ensures m[k := v][k := w] == m[k := w]
    ensures k !in m ==> m[k := v] - {k} == m
  {
  }

  lemma Checked2(steps: seq<Step>, w: Worker, cr: Uid, host: Path, target: Path)
    requires SidesApart(steps) && w !in Run(steps).pending && host != target
    requires !HasParent(Run(steps).store, host) && !HasChild(Run(steps).store, target)
    ensures var s, more := Run(steps), steps + Checking(w, cr, host, target);
            && Run(more) == State(s.store, s.pending[w := Pending(Plain(cr, host, target), [s.store, s.store])])
            && Sane(steps, more)
  {
    var s, b := Run(steps), Plain(cr, host, target);
    PlainChecks(cr, host, target);
    Begins(steps, w, b);
    Looks(steps + [Begin(w, b)], w, b, []);
    Twice(s.pending, w, Pending(b, []), Pending(b, [s.store]));
    Looks(steps + [Begin(w, b)] + [Check(w)], w, b, [s.store]);
    Twice(s.pending, w, Pending(b, [s.store]), Pending(b, [s.store, s.store]));
    assert [s.store] + [s.store] == [s.store, s.store];
    assert steps + Checking(w, cr, host, target) == steps + [Begin(w, b)] + [Check(w)] + [Check(w)];
  }

  lemma Stored(steps: seq<Step>, w: Worker, cr: Uid, host: Path, target: Path, id: Id)
    requires SidesApart(steps) && w !in Run(steps).pending && host != target
    requires !HasParent(Run(steps).store, host) && !HasChild(Run(steps).store, target)
    ensures var s, more := Run(steps), steps + Storing(w, cr, host, target, id);
            && Run(more) == State(s.store[id := PlainEdge(cr, host, target)], s.pending)
            && Sane(steps, more)
  {
    var s, e := Run(steps), PlainEdge(cr, host, target);
    var p, checked := Pending(Plain(cr, host, target), [s.store, s.store]), steps + Checking(w, cr, host, target);
    Checked2(steps, w, cr, host, target);
    PlainChecks(cr, host, target);
    Realizes(checked, w, p, id, e);
    RunAppend(checked + [Realize(w, {}, map[id := e])], End(w));
    Twice(s.pending, w, p, p);
    assert steps + Storing(w, cr, host, target, id) == checked + [Realize(w, {}, map[id := e])] + [End(w)];
  }

  lemma NotFlatAt(s: Store, i: Id, j: Id)
    requires i in s && j in s && s[i].Child() == s[j].Parent()
    ensures !Flat(s)
  {
    assert HasChild(s, s[i].Child()) && HasParent(s, s[j].Parent());
  }

  /** Two reconciles make all their lookups before either stores its binding: a under b, and b under c. */
  lemma LateRun(a: Path, b: Path, c: Path)
    requires a != b && b != c
    ensures var steps := Checking(1, "1", a, b) + Checking(2, "2", b, c)
                         + [Realize(1, {}, map["x" := PlainEdge("1", a, b)])]
                         + [Realize(2, {}, map["y" := PlainEdge("2", b, c)])];
            SidesApart(steps) && !Flat(Run(steps).store)
  {
    var both := Checking(1, "1", a, b) + Checking(2, "2", b, c);
    var p1, p2 := Pending(Plain("1", a, b), [map[], map[]]), Pending(Plain("2", b, c), [map[], map[]]);
    assert [] + Checking(1, "1", a, b) == Checking(1, "1", a, b);
    Checked2([], 1, "1", a, b);
    Checked2(Checking(1, "1", a, b), 2, "2", b, c);
    PlainChecks("1", a, b);
    PlainChecks("2", b, c);
    Realizes(both, 1, p1, "x", PlainEdge("1", a, b));
    Realizes(both + [Realize(1, {}, map["x" := PlainEdge("1", a, b)])], 2, p2, "y", PlainEdge("2", b, c));
    NotFlatAt(map["x" := PlainEdge("1", a, b)]["y" := PlainEdge("2", b, c)], "y", "x");
  }

  function ToSet(cr: Uid, host: Path, target: Path): Binding {
    Binding(cr, true, Some(SubnetCr(None, true, [host])), TargetSet(Some([target])))
  }

  lemma SetChecks(cr: Uid, host: Path, target: Path)
    ensures var b := ToSet(cr, host, target);
            && HostPaths(b) == [host] && TargetPaths(b) == [target] && Admissible(b)
            && Checks(b) == [Lookup(host, true)] && Desired(b, Edge(cr, host, target, true))
    ensures host != target ==> Apart(ToSet(cr, host, target))
  {
  }

  /** One reconcile after the other, with the SubnetSet's Subnet b a trunk of a before it becomes a branch of c. */
  lemma UncheckedRun(a: Path, b: Path, c: Path)
    requires a != b && b != c && a != c
    ensures var steps := Storing(1, "1", a, b, "x") + [Begin(2, ToSet("2", c, b))] + [Check(2)]
                         + [Realize(2, {}, map["y" := Edge("2", c, b, true)])];
            SidesApart(steps) && AtomicSyncs(steps) && !Flat(Run(steps).store)
  {
    var first, s, toSet := Storing(1, "1", a, b, "x"), map["x" := PlainEdge("1", a, b)], ToSet("2", c, b);
    assert [] + first == first;
    Stored([], 1, "1", a, b, "x");
    SetChecks("2", c, b);
    Begins(first, 2, toSet);
    Looks(first + [Begin(2, toSet)], 2, toSet, []);
    Realizes(first + [Begin(2, toSet)] + [Check(2)], 2, Pending(toSet, [s]), "y", Edge("2", c, b, true));
    NotFlatAt(s["y" := Edge("2", c, b, true)], "y", "x");
  }

  /** The two lookups of one reconcile see different stores, of which neither passes both: a is looked up while b is
    * under d, and b is looked up after that binding has gone and c has come under a. */
  lemma SplitRun(a: Path, b: Path, c: Path, d: Path)
    requires a != b && b != d && a != d && a != c && b != c
    ensures var steps := Storing(3, "3", b, d, "y") + [Begin(1, Plain("1", a, b))] + [Check(1)] + [Remove({"y"})]
                         + Storing(2, "2", c, a, "x") + [Check(1)]
                         + [Realize(1, {}, map["z" := PlainEdge("1", a, b)])];
            SidesApart(steps) && !Flat(Run(steps).store)
    ensures !Passes(map["y" := PlainEdge("3", b, d)], Lookup(b, true))
    ensures !Passes(map["x" := PlainEdge("2", c, a)], Lookup(a, false))
  {
    var s1, s2 := map["y" := PlainEdge("3", b, d)], map["x" := PlainEdge("2", c, a)];
    var p := Plain("1", a, b);
    var half := Storing(3, "3", b, d, "y") + [Begin(1, p)] + [Check(1)] + [Remove({"y"})];
    HalfChecked(a, b, d);
    Stored(half, 2, "2", c, a, "x");
    PlainChecks("1", a, b);
    var later := half + Storing(2, "2", c, a, "x");
    Looks(later, 1, p, [s1]);
    assert [s1] + [s2] == [s1, s2];
    Realizes(later + [Check(1)], 1, Pending(p, [s1, s2]), "z", PlainEdge("1", a, b));
    NotFlatAt(s2["z" := PlainEdge("1", a, b)], "z", "x");
    NeitherPasses(a, b, c, d);
  }

  lemma NeitherPasses(a: Path, b: Path, c: Path, d: Path)
    ensures !Passes(map["y" := PlainEdge("3", b, d)], Lookup(b, true))
    ensures !Passes(map["x" := PlainEdge("2", c, a)], Lookup(a, false))
  {
    var s1, s2 := map["y" := PlainEdge("3", b, d)], map["x" := PlainEdge("2", c, a)];
    assert Clash(s1["y"], Lookup(b, true)) && Clash(s2["x"], Lookup(a, false));
  }

  lemma HalfChecked(a: Path, b: Path, d: Path)
    requires a != b && b != d && a != d
    ensures var half := Storing(3, "3", b, d, "y") + [Begin(1, Plain("1", a, b))] + [Check(1)] + [Remove({"y"})];
            && SidesApart(half)
            && Run(half) == State(map[], map[1 := Pending(Plain("1", a, b), [map["y" := PlainEdge("3", b, d)]])])
  {
    var first, s, p := Storing(3, "3", b, d, "y"), map["y" := PlainEdge("3", b, d)], Plain("1", a, b);
    assert [] + first == first;
    Stored([], 3, "3", b, d, "y");
    PlainChecks("1", a, b);
    Begins(first, 1, p);
    Looks(first + [Begin(1, p)], 1, p, []);
    RunAppend(first + [Begin(1, p)] + [Check(1)], Remove({"y"}));
    Twice(map[], 1, Pending(p, []), Pending(p, [s]));
    assert s - {"y"} == map[] && [] + [s] == [s];
  }
}
