/** The ListenerSet index over whole runs of the cache. */
module GatewayIndex {
  import opened Common
  import opened GatewayIpCache

  function Run(c: Cache, ops: seq<Op>): Cache {
    if ops == [] then c else Apply(Run(c, ops[..|ops| - 1]), ops[|ops| - 1])
  }

  /** The Gateway whose call was the last one that reported a change and named the ListenerSet. */
  function LastClaimer(ops: seq<Op>, a: string): Option<NamespacedName> {
    if ops == [] then None
    else
      var before, op := ops[..|ops| - 1], ops[|ops| - 1];
      if Changes(Run(EMPTY, before), op) && a in Claims(op) then Some(op.gw) else LastClaimer(before, a)
  }

  /** A call that reports no change leaves its Gateway naming what it named before. */
  lemma UnchangedNames(c: Cache, op: Op)
    requires !Changes(c, op)
    ensures Claims(op) == Names(c, op.gw) && Apply(c, op).index == c.index
  {
    if op.Put? {
      EqualNames(c.entries[op.gw], op.entry);
    }
  }

  /** A ListenerSet is indexed exactly while the Gateway that claimed it last still names it, and
    * then under that Gateway. */
  lemma {:induction false} IndexIsLastClaimer(ops: seq<Op>, a: string)
    ensures var c, claimer := Run(EMPTY, ops), LastClaimer(ops, a);
            && (a in c.index <==> claimer.Some? && a in Names(c, claimer.value))
            && (a in c.index ==> c.index[a] == claimer.value)
  {
    if ops != [] {
      var before, op := ops[..|ops| - 1], ops[|ops| - 1];
      var c := Run(EMPTY, before);
      IndexIsLastClaimer(before, a);
      if !Changes(c, op) {
        UnchangedNames(c, op);
      }
    }
  }

  ghost predicate Sound(c: Cache) {
    forall a :: a in c.index ==> c.index[a] in c.entries && a in Names(c, c.index[a])
  }

  /** Between calls, an indexed Gateway is cached and its rows name the ListenerSet. */
  lemma IndexSound(ops: seq<Op>)
    ensures Sound(Run(EMPTY, ops))
  {
    forall a | a in Run(EMPTY, ops).index
      ensures Run(EMPTY, ops).index[a] in Run(EMPTY, ops).entries
      ensures a in Names(Run(EMPTY, ops), Run(EMPTY, ops).index[a])
    {
      IndexIsLastClaimer(ops, a);
    }
  }

  /** A Gateway that gives up, or never named, a ListenerSet leaves its owner alone. */
  lemma OwnerKept(ops: seq<Op>, op: Op, a: string)
    requires a !in Claims(op)
    ensures var c := Run(EMPTY, ops);
            var d := Run(EMPTY, ops + [op]);
            a in c.index && c.index[a] != op.gw <==> a in d.index
    ensures a in Run(EMPTY, ops + [op]).index ==> Run(EMPTY, ops + [op]).index[a] == Run(EMPTY, ops).index[a]
  {
    assert (ops + [op])[..|ops|] == ops;
    IndexIsLastClaimer(ops, a);
    IndexIsLastClaimer(ops + [op], a);
  }

  /** No ListenerSet is named by two cached Gateways. */
  ghost predicate Exclusive(c: Cache) {
    forall g, h, a :: a in Names(c, g) && a in Names(c, h) ==> g == h
  }

  ghost predicate AlwaysExclusive(ops: seq<Op>) {
    Exclusive(Run(EMPTY, ops)) && (ops != [] ==> AlwaysExclusive(ops[..|ops| - 1]))
  }

  /** If that holds all along, the index is exactly the inverse of the entries. */
  lemma {:induction false} ExactInverse(ops: seq<Op>, g: NamespacedName, a: string)
    requires AlwaysExclusive(ops)
    ensures var c := Run(EMPTY, ops);
            a in Names(c, g) <==> a in c.index && c.index[a] == g
  {
    IndexIsLastClaimer(ops, a);
    if ops != [] {
      var before, op := ops[..|ops| - 1], ops[|ops| - 1];
      var c := Run(EMPTY, before);
      ExactInverse(before, g, a);
      if !Changes(c, op) {
        UnchangedNames(c, op);
      }
      NamesAfter(c, op, g);
      NamesAfter(c, op, op.gw);
    }
  }

  /** Without exclusivity a ListenerSet can drop out of the index while a cached Gateway names
    * it: the second claimer takes it and gives it up. */
  lemma OrphanedListenerSet(g: NamespacedName, h: NamespacedName, ls: NamespacedName)
    requires g != h
    ensures var rows := [Row(true, ls, "", "")];
            var c := Run(EMPTY, [Put(g, Entry([], rows, g)), Put(h, Entry([], rows, h)), Put(h, Entry([], [], h))]);
            Key(ls) in Names(c, g) && Key(ls) !in c.index
  {
    var rows := [Row(true, ls, "", "")];
    var first, second := Put(g, Entry([], rows, g)), Put(h, Entry([], rows, h));
    var third := Put(h, Entry([], [], h));
    var ops := [first, second, third];
    assert ops[..2] == [first, second] && ops[..2][..1] == [first] && [first][..0] == [];
    assert Key(rows[0].listenerSet) in ListenerSets(rows);
    var c := Run(EMPTY, ops[..2]);
    NamesAfter(Run(EMPTY, [first]), second, g);
    NamesAfter(c, third, g);
    EntryEqualMeaning(second.entry, third.entry);
    assert Changes(c, third) by {
      assert |multiset(rows)| == 1;
    }
    assert LastClaimer(ops, Key(ls)) == LastClaimer(ops[..2], Key(ls)) == Some(h);
    IndexIsLastClaimer(ops, Key(ls));
    NamesAfter(c, third, h);
  }
}
