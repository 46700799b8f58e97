/** Concurrent calls of put and delete. A call holds the lock of its shard from the entry write
  * to the end, and takes the index lock in between for one update. */
module GatewayConcurrency {
  import opened Common
  import opened GatewayIpCache
  import opened GatewayIndex

  const SHARDS := 16

  function Shard(hash: string -> nat, gw: NamespacedName): nat {
    hash(Key(gw)) % SHARDS
  }

  /** A call that has written its entry and not yet updated the index. */
  datatype Pending = Pending(op: Op, before: Option<Entry>)

  datatype State = State(cache: Cache, pending: map<NamespacedName, Pending>)

  const INIT := State(EMPTY, map[])

  datatype Step = WriteEntry(op: Op) | UpdateIndex(gw: NamespacedName)

  function Before(c: Cache, gw: NamespacedName): Option<Entry> {
    if gw in c.entries then Some(c.entries[gw]) else None
  }

  predicate Enabled(hash: string -> nat, s: State, step: Step) {
    match step
    case WriteEntry(op) => forall g :: g in s.pending ==> Shard(hash, g) != Shard(hash, op.gw)
    case UpdateIndex(gw) => gw in s.pending
  }

  function Next(s: State, step: Step): State {
    match step
    case WriteEntry(op) =>
      var entries := if op.Put? then s.cache.entries[op.gw := op.entry] else s.cache.entries - {op.gw};
      State(Cache(entries, s.cache.index),
            if Changes(s.cache, op) then s.pending[op.gw := Pending(op, Before(s.cache, op.gw))] else s.pending)
    case UpdateIndex(gw) =>
      if gw !in s.pending then s
      else
        var p := s.pending[gw];
        var prev := if p.before.Some? then ListenerSets(p.before.value.rows) else {};
        State(Cache(s.cache.entries, ReconcileIndex(s.cache.index, gw, prev, Claims(p.op))), s.pending - {gw})
  }

  function Final(steps: seq<Step>): State {
    if steps == [] then INIT else Next(Final(steps[..|steps| - 1]), steps[|steps| - 1])
  }

  predicate ValidRun(hash: string -> nat, steps: seq<Step>) {
    steps == []
    || (ValidRun(hash, steps[..|steps| - 1]) && Enabled(hash, Final(steps[..|steps| - 1]), steps[|steps| - 1]))
  }

  /** The cache with the entries of unfinished calls put back. */
  function Settled(s: State): Cache {
    Cache(map g | g in s.cache.entries.Keys + s.pending.Keys && Standing(s, g).Some? :: Standing(s, g).value,
          s.cache.index)
  }

  function Standing(s: State, g: NamespacedName): Option<Entry> {
    if g in s.pending then s.pending[g].before else Before(s.cache, g)
  }

  /** Every unfinished call has written its entry, and reports a change. */
  ghost predicate Inv(s: State) {
    forall g :: g in s.pending ==> PendingOk(s, g)
  }

  predicate PendingOk(s: State, g: NamespacedName)
    requires g in s.pending
  {
    var p := s.pending[g];
    && p.op.gw == g
    && match p.op {
         case Put(_, e) => Before(s.cache, g) == Some(e) && (p.before.None? || !EntryEqual(p.before.value, e))
         case Delete(_) => Before(s.cache, g) == None && p.before.Some?
       }
  }

  lemma StepInv(hash: string -> nat, s: State, step: Step)
    requires Inv(s) && Enabled(hash, s, step)
    ensures Inv(Next(s, step))
  {
    var t := Next(s, step);
    forall g | g in t.pending
      ensures PendingOk(t, g)
    {
      assert g in s.pending ==> PendingOk(s, g);
    }
  }

  /** The operations of a run, in the order in which they take effect: at the index update, or at
    * the entry write when nothing changes. */
  function Order(steps: seq<Step>): seq<Op> {
    if steps == [] then []
    else Order(steps[..|steps| - 1]) + Effect(Final(steps[..|steps| - 1]), steps[|steps| - 1])
  }

  function Effect(s: State, step: Step): seq<Op> {
    match step
    case WriteEntry(op) => if Changes(s.cache, op) then [] else [op]
    case UpdateIndex(gw) => if gw in s.pending then [s.pending[gw].op] else []
  }

  lemma SettledEntry(s: State, g: NamespacedName)
    ensures Before(Settled(s), g) == Standing(s, g)
  {
  }

  lemma SameCache(c: Cache, d: Cache)
    requires c.index == d.index && forall g :: Before(c, g) == Before(d, g)
    ensures c == d
  {
    forall g
      ensures g in c.entries <==> g in d.entries
      ensures g in c.entries ==> c.entries[g] == d.entries[g]
    {
      assert Before(c, g) == Before(d, g);
    }
    assert c.entries == d.entries;
  }

  lemma WriteRefines(hash: string -> nat, s: State, op: Op)
    requires Inv(s) && Enabled(hash, s, WriteEntry(op))
    ensures Settled(Next(s, WriteEntry(op)))
            == if Changes(s.cache, op) then Settled(s) else Apply(Settled(s), op)
  {
    var t := Next(s, WriteEntry(op));
    assert op.gw !in s.pending;
    SettledEntry(s, op.gw);
    var target := if Changes(s.cache, op) then Settled(s) else Apply(Settled(s), op);
    forall g
      ensures Before(Settled(t), g) == Before(target, g)
    {
      SettledEntry(s, g);
      SettledEntry(t, g);
    }
    SameCache(Settled(t), target);
  }

  lemma UpdateRefines(s: State, gw: NamespacedName)
    requires Inv(s) && gw in s.pending
    ensures Settled(Next(s, UpdateIndex(gw))) == Apply(Settled(s), s.pending[gw].op)
  {
    var t, op := Next(s, UpdateIndex(gw)), s.pending[gw].op;
    assert PendingOk(s, gw);
    SettledEntry(s, gw);
    assert Changes(Settled(s), op);
    forall g
      ensures Before(Settled(t), g) == Before(Apply(Settled(s), op), g)
    {
      SettledEntry(s, g);
      SettledEntry(t, g);
    }
    SameCache(Settled(t), Apply(Settled(s), op));
  }

  lemma RunAppend(c: Cache, ops: seq<Op>, op: Op)
    ensures Run(c, ops + [op]) == Apply(Run(c, ops), op)
  {
    assert (ops + [op])[..|ops|] == ops;
  }

  /** Every interleaving has the effect of its calls one after another. */
  lemma {:induction false} RunRefines(hash: string -> nat, steps: seq<Step>)
    requires ValidRun(hash, steps)
    ensures Inv(Final(steps)) && Settled(Final(steps)) == Run(EMPTY, Order(steps))
  {
    if steps == [] {
      SameCache(Settled(INIT), EMPTY);
    } else {
      var before, step := steps[..|steps| - 1], steps[|steps| - 1];
      var s := Final(before);
      RunRefines(hash, before);
      StepInv(hash, s, step);
      match step {
        case WriteEntry(op) => WriteRefines(hash, s, op);
        case UpdateIndex(gw) => UpdateRefines(s, gw);
      }
      if Effect(s, step) == [] {
        assert Order(steps) == Order(before);
      } else {
        RunAppend(EMPTY, Order(before), Effect(s, step)[0]);
      }
    }
  }

  /** Once no call is unfinished, the cache is what the calls leave behind one after another, and
    * all that holds of runs of calls holds of it. Before, it holds of the settled cache. */
  lemma Linearizable(hash: string -> nat, steps: seq<Step>)
    requires ValidRun(hash, steps)
    ensures var s := Final(steps);
            && Settled(s) == Run(EMPTY, Order(steps))
            && Sound(Settled(s))
            && (s.pending == map[] ==> s.cache == Settled(s))
  {
    var s := Final(steps);
    RunRefines(hash, steps);
    IndexSound(Order(steps));
    if s.pending == map[] {
      forall g
        ensures Before(Settled(s), g) == Before(s.cache, g)
      {
        SettledEntry(s, g);
      }
      SameCache(s.cache, Settled(s));
    }
  }

  // ---- Inside a call ----

  /** The index says something true about the ListenerSet key a. */
  predicate SoundFor(c: Cache, a: string)
    requires a in c.index
  {
    c.index[a] in c.entries && a in Names(c, c.index[a])
  }

  /** An unfinished call of the indexed Gateway, if there is one, names the ListenerSet. */
  predicate StillClaimed(s: State, a: string)
    requires a in s.cache.index
  {
    var g := s.cache.index[a];
    g in s.pending ==> a in Claims(s.pending[g].op)
  }

  lemma SoundForExactly(s: State, a: string)
    requires Inv(s) && Sound(Settled(s)) && a in s.cache.index
    ensures SoundFor(s.cache, a) <==> StillClaimed(s, a)
  {
    var g := s.cache.index[a];
    assert SoundFor(Settled(s), a);
    SettledEntry(s, g);
    if g in s.pending {
      assert PendingOk(s, g);
    }
  }

  /** In every state of every interleaving, the index is sound if and only if no unfinished call gives up a
    * ListenerSet that is indexed under its Gateway. */
  lemma SoundExactly(hash: string -> nat, steps: seq<Step>)
    requires ValidRun(hash, steps)
    ensures var s := Final(steps);
            Sound(s.cache) <==> forall a :: a in s.cache.index ==> StillClaimed(s, a)
  {
    var s := Final(steps);
    RunRefines(hash, steps);
    IndexSound(Order(steps));
    forall a | a in s.cache.index
      ensures SoundFor(s.cache, a) <==> StillClaimed(s, a)
    {
      SoundForExactly(s, a);
    }
    assert Sound(s.cache) <==> forall a :: a in s.cache.index ==> SoundFor(s.cache, a);
  }

  lemma FinalAppend(steps: seq<Step>, step: Step)
    ensures Final(steps + [step]) == Next(Final(steps), step)
  {
    assert (steps + [step])[..|steps|] == steps;
  }

  lemma ValidAppend(hash: string -> nat, steps: seq<Step>, step: Step)
    requires ValidRun(hash, steps) && Enabled(hash, Final(steps), step)
    ensures ValidRun(hash, steps + [step])
  {
    assert (steps + [step])[..|steps|] == steps;
  }

  /** A deletion that has removed the entry and not yet updated the index leaves the ListenerSet indexed under
    * a Gateway that is not cached. */
  lemma MidCallUnsound(hash: string -> nat, g: NamespacedName, ls: NamespacedName)
    ensures var steps := [WriteEntry(Put(g, Entry([], [Row(true, ls, "", "")], g))), UpdateIndex(g),
                          WriteEntry(Delete(g))];
            ValidRun(hash, steps) && !Sound(Final(steps).cache)
  {
    var put := Put(g, Entry([], [Row(true, ls, "", "")], g));
    var one, two := [WriteEntry(put)], [WriteEntry(put), UpdateIndex(g)];
    assert put.entry.rows[0].listenerSet == ls && Key(ls) in Claims(put);
    assert Final([]) == INIT && [] + [WriteEntry(put)] == one;
    ValidAppend(hash, [], WriteEntry(put));
    FinalAppend([], WriteEntry(put));
    ValidAppend(hash, one, UpdateIndex(g));
    FinalAppend(one, UpdateIndex(g));
    assert one + [UpdateIndex(g)] == two;
    assert Key(ls) in Final(two).cache.index && Final(two).cache.index[Key(ls)] == g;
    ValidAppend(hash, two, WriteEntry(Delete(g)));
    FinalAppend(two, WriteEntry(Delete(g)));
    assert two + [WriteEntry(Delete(g))] == [WriteEntry(put), UpdateIndex(g), WriteEntry(Delete(g))];
  }
}
