/** The sharded cache: sixteen maps and the ListenerSet index, changed in place. */
module GatewayIpCacheStore {
  import opened Common
  import opened GatewayIpCache
  import opened GatewayConcurrency
  import opened GatewayIndex

  lemma ReleaseNext(index: map<string, NamespacedName>, gw: NamespacedName, prev: set<string>,
                    next: set<string>, k: string)
    ensures var r := Released(index, gw, prev, next);
            Released(index, gw, prev + {k}, next) == if k !in next && k in r && r[k] == gw then r - {k} else r
  {
  }

  lemma ClaimNext(index: map<string, NamespacedName>, gw: NamespacedName, next: set<string>, k: string)
    ensures Claimed(index, gw, next + {k}) == Claimed(index, gw, next)[k := gw]
  {
  }

  lemma KeySetNext(names: seq<NamespacedName>, i: nat)
    requires i < |names|
    ensures KeySet(names[..i + 1]) == KeySet(names[..i]) + {Key(names[i])}
  {
    KeySetAppend(names[..i], names[i]);
    assert names[..i + 1] == names[..i] + [names[i]];
  }

  class ShardedCache {
    const hash: string -> nat
    const shards: array<map<string, Entry>>
    var lsToRootGw: map<string, NamespacedName>
    ghost var flat: map<NamespacedName, Entry>
    ghost var ops: seq<Op>

    function ShardIdx(key: string): (i: nat)
      ensures i < SHARDS
    {
      hash(key) % SHARDS
    }

    /** The entry of nn is in the shard of its key. */
    ghost predicate Stored(nn: NamespacedName)
      requires shards.Length == SHARDS && nn in flat
      reads this, shards
    {
      var m := shards[ShardIdx(Key(nn))];
      Key(nn) in m && m[Key(nn)] == flat[nn]
    }

    /** A key in shard i hashes to i and belongs to a cached Gateway. */
    ghost predicate Placed(i: nat, key: string)
      reads this
    {
      ShardIdx(key) == i && exists nn :: nn in flat && Key(nn) == key
    }

    /** The shards together hold the flat map, each key only in its own shard. */
    ghost predicate Sharded()
      reads this, shards
    {
      && shards.Length == SHARDS
      && (forall nn :: nn in flat ==> Stored(nn))
      && (forall i, key :: 0 <= i < SHARDS && key in shards[i] ==> Placed(i, key))
    }

    ghost function Contents(): Cache
      reads this
    {
      Cache(flat, lsToRootGw)
    }

    /** And the cache is what the calls so far leave behind. */
    ghost predicate Valid()
      reads this, shards
    {
      Sharded() && Contents() == Run(EMPTY, ops)
    }

    constructor (hash: string -> nat)
      ensures Valid() && fresh(shards) && this.hash == hash && ops == []
    {
      this.hash := hash;
      shards := new map<string, Entry>[SHARDS](_ => map[]);
      lsToRootGw := map[];
      flat := map[];
      ops := [];
    }

    /** A key is cached, in the one of 16 shards that its hash picks, exactly when the flat map has its Gateway. */
    lemma Lookup(nn: NamespacedName)
      requires Sharded()
      ensures shards.Length == 16
      ensures Key(nn) in shards[hash(Key(nn)) % 16] <==> nn in flat
      ensures nn in flat ==> shards[hash(Key(nn)) % 16][Key(nn)] == flat[nn]
    {
      if nn in flat {
        assert Stored(nn);
      }
      if Key(nn) in shards[ShardIdx(Key(nn))] {
        assert Placed(ShardIdx(Key(nn)), Key(nn));
        var other :| other in flat && Key(other) == Key(nn);
        KeyInjective(other, nn);
      }
    }

    /** reconcileListenerSetRootIndexLocked */
    method ReconcileListenerSetRootIndex(gw: NamespacedName, prev: seq<NamespacedName>,
                                         next: seq<NamespacedName>, hadPrev: bool)
      modifies this`lsToRootGw
      ensures lsToRootGw == ReconcileIndex(old(lsToRootGw), gw, if hadPrev then KeySet(prev) else {}, KeySet(next))
    {
      var nextKeep: set<string> := {};
      for i := 0 to |next|
        invariant nextKeep == KeySet(next[..i]) && lsToRootGw == old(lsToRootGw)
      {
        KeySetNext(next, i);
        nextKeep := nextKeep + {Key(next[i])};
      }
      assert next[..|next|] == next;
      ghost var index := lsToRootGw;
      if hadPrev {
        for i := 0 to |prev|
          invariant lsToRootGw == Released(index, gw, KeySet(prev[..i]), nextKeep)
        {
          KeySetNext(prev, i);
          ReleaseNext(index, gw, KeySet(prev[..i]), nextKeep, Key(prev[i]));
          if Key(prev[i]) in nextKeep {
            continue;
          }
          if Key(prev[i]) in lsToRootGw && lsToRootGw[Key(prev[i])] == gw {
            lsToRootGw := lsToRootGw - {Key(prev[i])};
          }
        }
        assert prev[..|prev|] == prev;
      }
      ghost var released := lsToRootGw;
      assert released == Released(index, gw, if hadPrev then KeySet(prev) else {}, nextKeep);
      for i := 0 to |next|
        invariant lsToRootGw == Claimed(released, gw, KeySet(next[..i]))
      {
        KeySetNext(next, i);
        ClaimNext(released, gw, KeySet(next[..i]), Key(next[i]));
        lsToRootGw := lsToRootGw[Key(next[i]) := gw];
      }
    }

    method Put(nn: NamespacedName, e: Entry) returns (changed: bool)
      requires Valid()
      modifies this`lsToRootGw, this`flat, this`ops, shards
      ensures Valid() && ops == old(ops) + [Op.Put(nn, e)]
      ensures Contents() == Apply(old(Contents()), Op.Put(nn, e))
      ensures changed == Changes(old(Contents()), Op.Put(nn, e))
    {
      Lookup(nn);
      RunAppend(EMPTY, ops, Op.Put(nn, e));
      ops := ops + [Op.Put(nn, e)];
      var key := Key(nn);
      var s := ShardIdx(key);
      var had := key in shards[s];
      changed := !had || !EntryEqual(shards[s][key], e);
      if changed {
        var prevKeys: seq<NamespacedName> := [];
        if had {
          prevKeys := ListenerSetKeys(shards[s][key].rows);
        }
        var nextKeys := ListenerSetKeys(e.rows);
        Store(nn, e);
        ReconcileListenerSetRootIndex(nn, prevKeys, nextKeys, had);
      } else {
        Store(nn, e);
      }
    }

    method Store(nn: NamespacedName, e: Entry)
      requires Sharded()
      modifies this`flat, shards
      ensures Sharded() && flat == old(flat)[nn := e]
    {
      var s := ShardIdx(Key(nn));
      shards[s] := shards[s][Key(nn) := e];
      flat := flat[nn := e];
      forall n | n in flat
        ensures Stored(n)
      {
        if n != nn {
          assert old(Stored(n));
          if Key(n) == Key(nn) {
            KeyInjective(n, nn);
          }
        }
      }
      forall i, key | 0 <= i < SHARDS && key in shards[i]
        ensures Placed(i, key)
      {
        if key == Key(nn) && i == s {
          assert nn in flat;
        } else {
          assert old(Placed(i, key));
          var n :| n in old(flat) && Key(n) == key;
          assert n in flat;
        }
      }
    }

    method Delete(nn: NamespacedName) returns (existed: bool)
      requires Valid()
      modifies this`lsToRootGw, this`flat, this`ops, shards
      ensures Valid() && ops == old(ops) + [Op.Delete(nn)]
      ensures Contents() == Apply(old(Contents()), Op.Delete(nn))
      ensures existed == Changes(old(Contents()), Op.Delete(nn))
    {
      Lookup(nn);
      RunAppend(EMPTY, ops, Op.Delete(nn));
      ops := ops + [Op.Delete(nn)];
      var key := Key(nn);
      var s := ShardIdx(key);
      existed := key in shards[s];
      if existed {
        var prevKeys := ListenerSetKeys(shards[s][key].rows);
        RemoveListed(nn, prevKeys);
      } else {
        assert flat - {nn} == flat;
      }
    }

    /** The part of Delete for a cached Gateway. */
    method RemoveListed(nn: NamespacedName, prevKeys: seq<NamespacedName>)
      requires Sharded() && nn in flat && KeySet(prevKeys) == Names(Contents(), nn)
      modifies this`lsToRootGw, this`flat, shards
      ensures Sharded() && Contents() == Apply(old(Contents()), Op.Delete(nn))
    {
      assert KeySet([]) == {};
      Remove(nn);
      ReconcileListenerSetRootIndex(nn, prevKeys, [], true);
    }

    method Remove(nn: NamespacedName)
      requires Sharded()
      modifies this`flat, shards
      ensures Sharded() && flat == old(flat) - {nn}
    {
      var s := ShardIdx(Key(nn));
      shards[s] := shards[s] - {Key(nn)};
      flat := flat - {nn};
      forall n | n in flat
        ensures Stored(n)
      {
        assert old(Stored(n));
        if Key(n) == Key(nn) {
          KeyInjective(n, nn);
        }
      }
      forall i, key | 0 <= i < SHARDS && key in shards[i]
        ensures Placed(i, key)
      {
        assert old(Placed(i, key));
        var n :| n in old(flat) && Key(n) == key;
        assert n in flat;
      }
    }

    method Get(nn: NamespacedName) returns (e: Option<Entry>)
      requires Valid()
      ensures e == Before(Contents(), nn)
    {
      Lookup(nn);
      var key := Key(nn);
      var s := ShardIdx(key);
      e := if key in shards[s] then Some(shards[s][key]) else None;
    }

    /** rootGatewayForCachedListenerSet: the Gateway that claimed the ListenerSet last, if it still
      * names it. */
    method RootGateway(ls: NamespacedName) returns (gw: Option<NamespacedName>)
      requires Valid()
      ensures var claimer := LastClaimer(ops, Key(ls));
              gw == if claimer.Some? && Key(ls) in Names(Contents(), claimer.value) then claimer else None
    {
      IndexIsLastClaimer(ops, Key(ls));
      gw := if Key(ls) in lsToRootGw then Some(lsToRootGw[Key(ls)]) else None;
    }
  }
}
