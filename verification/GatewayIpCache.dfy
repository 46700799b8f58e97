/** The cache from Gateway to listener targets, and its index from ListenerSet to root Gateway:
  * what an entry is, when two entries are equal, and what put and delete do. */
module GatewayIpCache {
  import opened Common
  import opened Ordering

  datatype RawName = Name(namespace: string, name: string)

  /** A namespace is a DNS label and holds no slash. */
  type NamespacedName = n: RawName | '/' !in n.namespace witness Name("", "")

  /** NamespacedName.String() */
  function Key(n: NamespacedName): string {
    n.namespace + "/" + n.name
  }

  /** Different names have different keys. */
  lemma {:induction false} KeyInjective(a: NamespacedName, b: NamespacedName)
    requires Key(a) == Key(b)
    ensures a == b
  {
    var i, j := |a.namespace|, |b.namespace|;
    assert Key(a)[i] == '/' && Key(b)[j] == '/';
    assert Key(a)[..i] == a.namespace && Key(b)[..j] == b.namespace;
    assert forall k :: 0 <= k < i ==> Key(a)[k] in a.namespace;
    assert forall k :: 0 <= k < j ==> Key(b)[k] in b.namespace;
    assert i == j;
    assert Key(a)[i + 1..] == a.name && Key(b)[j + 1..] == b.name;
  }

  datatype Row = Row(fromListenerSet: bool, listenerSet: NamespacedName, section: string, filter: string)

  datatype Entry = Entry(ips: seq<string>, rows: seq<Row>, gatewayResource: NamespacedName)

  // ---- Equality of entries ----

  /** cmp.Compare on strings. */
  function Compare(a: string, b: string): int {
    if StringLess(a, b) then -1 else if a == b then 0 else 1
  }

  /** The comparison of sortAdmissionRowsForCompare. */
  function RowCompare(a: Row, b: Row): int {
    if a.fromListenerSet != b.fromListenerSet then (if a.fromListenerSet then 1 else -1)
    else if Compare(Key(a.listenerSet), Key(b.listenerSet)) != 0 then Compare(Key(a.listenerSet), Key(b.listenerSet))
    else if Compare(a.section, b.section) != 0 then Compare(a.section, b.section)
    else Compare(a.filter, b.filter)
  }

  predicate RowLess(a: Row, b: Row) {
    RowCompare(a, b) < 0
  }

  lemma RowLessTransitive(a: Row, b: Row, c: Row)
    requires RowLess(a, b) && RowLess(b, c)
    ensures RowLess(a, c)
  {
    StringOrder();
  }

  /** The comparison leaves no ties between different rows, so the sorted copy is unique. */
  lemma RowOrder()
    ensures StrictTotal(RowLess)
  {
    StringOrder();
    forall a: Row, b: Row, c: Row | RowLess(a, b) && RowLess(b, c)
      ensures RowLess(a, c)
    {
      RowLessTransitive(a, b, c);
    }
    forall a: Row, b: Row
      ensures (a == b || RowLess(a, b) || RowLess(b, a)) && !RowLess(a, a)
    {
      if Key(a.listenerSet) == Key(b.listenerSet) {
        KeyInjective(a.listenerSet, b.listenerSet);
      }
    }
  }

  /** gatewayDNSCacheEntryEqual */
  predicate EntryEqual(a: Entry, b: Entry) {
    && a.gatewayResource == b.gatewayResource
    && SortBy(StringLess, a.ips) == SortBy(StringLess, b.ips)
    && SortBy(RowLess, a.rows) == SortBy(RowLess, b.rows)
  }

  /** Entries are equal when they hold the same addresses and rows, as often, in any order. */
  lemma EntryEqualMeaning(a: Entry, b: Entry)
    ensures EntryEqual(a, b) <==>
            a.gatewayResource == b.gatewayResource
            && multiset(a.ips) == multiset(b.ips) && multiset(a.rows) == multiset(b.rows)
  {
    StringOrder();
    RowOrder();
    SortedCopies(StringLess, a.ips, b.ips);
    SortedCopies(RowLess, a.rows, b.rows);
  }

  // ---- The ListenerSets of an entry ----

  predicate NameLess(a: NamespacedName, b: NamespacedName) {
    StringLess(a.namespace, b.namespace) || (a.namespace == b.namespace && StringLess(a.name, b.name))
  }

  lemma NameOrder()
    ensures StrictTotal(NameLess)
  {
    StringOrder();
  }

  predicate NamedBy(rows: seq<Row>, n: NamespacedName) {
    exists i :: 0 <= i < |rows| && rows[i].fromListenerSet && rows[i].listenerSet == n
  }

  /** The keys of the ListenerSets that the rows name. */
  function ListenerSets(rows: seq<Row>): set<string> {
    set i | 0 <= i < |rows| && rows[i].fromListenerSet :: Key(rows[i].listenerSet)
  }

  /** listenerSetKeysFromAdmissionRows: every named ListenerSet once, in order. */
  method ListenerSetKeys(rows: seq<Row>) returns (out: seq<NamespacedName>)
    ensures SortedBy(NameLess, out) && Distinct(out)
    ensures forall n :: n in out <==> NamedBy(rows, n)
    ensures KeySet(out) == ListenerSets(rows)
  {
    var seen: set<string> := {};
    var found: seq<NamespacedName> := [];
    for i := 0 to |rows|
      invariant seen == KeySet(found) && Distinct(found)
      invariant forall n :: n in found <==> NamedBy(rows[..i], n)
    {
      NamedByNext(rows, i);
      var row := rows[i];
      if row.fromListenerSet {
        var k := Key(row.listenerSet);
        KeySetMember(found, row.listenerSet);
        if k !in seen {
          seen := seen + {k};
          KeySetAppend(found, row.listenerSet);
          found := found + [row.listenerSet];
        }
      }
    }
    assert rows[..|rows|] == rows;
    NameOrder();
    SortByCorrect(NameLess, found);
    out := SortBy(NameLess, found);
    SameElements(found, out);
    KeySetIsListenerSets(rows, out);
  }

  function KeySet(names: seq<NamespacedName>): set<string> {
    set i | 0 <= i < |names| :: Key(names[i])
  }

  lemma KeySetMember(names: seq<NamespacedName>, n: NamespacedName)
    ensures Key(n) in KeySet(names) <==> n in names
  {
    if Key(n) in KeySet(names) {
      var i :| 0 <= i < |names| && Key(names[i]) == Key(n);
      KeyInjective(names[i], n);
    }
    if n in names {
      var i :| 0 <= i < |names| && names[i] == n;
      assert Key(names[i]) in KeySet(names);
    }
  }

  lemma KeySetAppend(names: seq<NamespacedName>, n: NamespacedName)
    ensures KeySet(names + [n]) == KeySet(names) + {Key(n)}
  {
    var more := names + [n];
    assert forall i :: 0 <= i < |names| ==> more[i] == names[i];
    assert more[|names|] == n;
  }

  lemma NamedByNext(rows: seq<Row>, i: nat)
    requires i < |rows|
    ensures forall n :: NamedBy(rows[..i + 1], n)
                        <==> NamedBy(rows[..i], n) || (rows[i].fromListenerSet && rows[i].listenerSet == n)
  {
    forall n | NamedBy(rows[..i], n)
      ensures NamedBy(rows[..i + 1], n)
    {
      var j :| 0 <= j < i && rows[..i][j].fromListenerSet && rows[..i][j].listenerSet == n;
      assert rows[..i + 1][j].listenerSet == n;
    }
    if rows[i].fromListenerSet {
      assert rows[..i + 1][i].listenerSet == rows[i].listenerSet;
    }
    forall n | NamedBy(rows[..i + 1], n) && !(rows[i].fromListenerSet && rows[i].listenerSet == n)
      ensures NamedBy(rows[..i], n)
    {
      var j :| 0 <= j <= i && rows[..i + 1][j].fromListenerSet && rows[..i + 1][j].listenerSet == n;
      assert rows[..i][j].listenerSet == n;
    }
  }

  lemma KeySetIsListenerSets(rows: seq<Row>, names: seq<NamespacedName>)
    requires forall n :: n in names <==> NamedBy(rows, n)
    ensures KeySet(names) == ListenerSets(rows)
  {
    forall k | k in KeySet(names)
      ensures k in ListenerSets(rows)
    {
      var i :| 0 <= i < |names| && Key(names[i]) == k;
      assert names[i] in names;
      var j :| 0 <= j < |rows| && rows[j].fromListenerSet && rows[j].listenerSet == names[i];
      assert Key(rows[j].listenerSet) in ListenerSets(rows);
    }
    forall k | k in ListenerSets(rows)
      ensures k in KeySet(names)
    {
      var j :| 0 <= j < |rows| && rows[j].fromListenerSet && Key(rows[j].listenerSet) == k;
      assert NamedBy(rows, rows[j].listenerSet);
      KeySetMember(names, rows[j].listenerSet);
    }
  }

  // ---- put and delete, on values ----

  datatype Cache = Cache(entries: map<NamespacedName, Entry>, index: map<string, NamespacedName>)

  const EMPTY := Cache(map[], map[])

  /** The index without what gw named in prev, no longer names and still owns. */
  function Released(index: map<string, NamespacedName>, gw: NamespacedName, prev: set<string>, next: set<string>)
    : map<string, NamespacedName>
  {
    map a | a in index && !(a in prev && a !in next && index[a] == gw) :: index[a]
  }

  function Claimed(index: map<string, NamespacedName>, gw: NamespacedName, next: set<string>)
    : map<string, NamespacedName>
  {
    index + (map a | a in next :: gw)
  }

  /** The index after gw went from naming prev to naming next: it lets go of what it named before
    * and still owns, and takes over what it names now. */
  function ReconcileIndex(index: map<string, NamespacedName>, gw: NamespacedName, prev: set<string>, next: set<string>)
    : map<string, NamespacedName>
  {
    Claimed(Released(index, gw, prev, next), gw, next)
  }

  /** What gw names in the cache. */
  function Names(c: Cache, gw: NamespacedName): set<string> {
    if gw in c.entries then ListenerSets(c.entries[gw].rows) else {}
  }

  datatype Op = Put(gw: NamespacedName, entry: Entry) | Delete(gw: NamespacedName)

  /** Whether the call reports a change. */
  predicate Changes(c: Cache, op: Op) {
    match op
    case Put(gw, e) => gw !in c.entries || !EntryEqual(c.entries[gw], e)
    case Delete(gw) => gw in c.entries
  }

  function Apply(c: Cache, op: Op): Cache {
    match op
    case Put(gw, e) =>
      Cache(c.entries[gw := e],
            if Changes(c, op) then ReconcileIndex(c.index, gw, Names(c, gw), ListenerSets(e.rows)) else c.index)
    case Delete(gw) =>
      Cache(c.entries - {gw}, if Changes(c, op) then ReconcileIndex(c.index, gw, Names(c, gw), {}) else c.index)
  }

  /** What the operation leaves its Gateway naming. */
  function Claims(op: Op): set<string> {
    if op.Put? then ListenerSets(op.entry.rows) else {}
  }

  /** Entries that compare equal name the same ListenerSets. */
  lemma EqualNames(a: Entry, b: Entry)
    requires EntryEqual(a, b)
    ensures ListenerSets(a.rows) == ListenerSets(b.rows)
  {
    EntryEqualMeaning(a, b);
    SameElements(a.rows, b.rows);
    SubNames(a.rows, b.rows);
    SubNames(b.rows, a.rows);
  }

  lemma SubNames(a: seq<Row>, b: seq<Row>)
    requires forall r :: r in a ==> r in b
    ensures forall k :: k in ListenerSets(a) ==> k in ListenerSets(b)
  {
    forall k | k in ListenerSets(a)
      ensures k in ListenerSets(b)
    {
      var i :| 0 <= i < |a| && a[i].fromListenerSet && Key(a[i].listenerSet) == k;
      assert a[i] in b;
      var j :| 0 <= j < |b| && b[j] == a[i];
      assert Key(b[j].listenerSet) in ListenerSets(b);
    }
  }

  /** The names of a Gateway after an operation. */
  lemma NamesAfter(c: Cache, op: Op, g: NamespacedName)
    ensures Names(Apply(c, op), g) == if g == op.gw then Claims(op) else Names(c, g)
  {
  }

  /** When put reports no change, rebuilding the index would leave it as it is exactly when the
    * Gateway still owns everything it names. */
  lemma SkipRebuild(c: Cache, gw: NamespacedName, e: Entry)
    requires !Changes(c, Put(gw, e))
    ensures ReconcileIndex(c.index, gw, Names(c, gw), ListenerSets(e.rows)) == c.index
            <==> forall a :: a in Names(c, gw) ==> a in c.index && c.index[a] == gw
  {
    EqualNames(c.entries[gw], e);
    var rebuilt := ReconcileIndex(c.index, gw, Names(c, gw), ListenerSets(e.rows));
    if forall a :: a in Names(c, gw) ==> a in c.index && c.index[a] == gw {
      assert forall a :: a in rebuilt <==> a in c.index;
    } else {
      var a :| a in Names(c, gw) && !(a in c.index && c.index[a] == gw);
      assert a in rebuilt && rebuilt[a] == gw;
    }
  }
}
