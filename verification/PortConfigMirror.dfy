/** The SubnetPortSetting CRs that mirror the NSX port settings of a shared Subnet: which CRs are
  * a Subnet's mirrors, which NSX id each one stands for, and what converged means. */
module PortConfigMirror {
  import opened Common

  datatype Condition = Condition(kind: string, status: string, reason: string, message: string)

  datatype OwnerRef = OwnerRef(apiVersion: string, kind: string, name: string, uid: string)

  /** A SubnetPortSetting; a missing annotation is the empty string. */
  datatype PortConfig = PortConfig(
    subnetName: string, owners: seq<OwnerRef>, annotation: string, deleting: bool, conditions: seq<Condition>,
    version: nat)

  datatype Subnet = Subnet(name: string, uid: string, annotation: string)

  const GROUP_VERSION := "crd.nsx.vmware.com/v1alpha1"
  const READY := "Ready"

  type Store = map<string, PortConfig>

  // ---- Identity ----

  /** strings.SplitN(s, ":", n) for n > 0. */
  function SplitN(s: string, n: nat): (parts: seq<string>)
    requires n > 0
    ensures 1 <= |parts| <= n
    decreases n
  {
    if n == 1 || ':' !in s then [s]
    else
      var i := IndexOf(s, ':');
      [s[..i]] + SplitN(s[i + 1..], n - 1)
  }

  function IndexOf(s: string, c: char): (i: nat)
    requires c in s
    ensures i < |s| && s[i] == c && c !in s[..i]
  {
    if s[0] == c then 0 else
      assert s == [s[0]] + s[1..];
      var j := IndexOf(s[1..], c);
      assert s[..j + 1] == [s[0]] + s[1..][..j];
      j + 1
  }

  function Colons(s: string): nat {
    if s == [] then 0 else (if s[0] == ':' then 1 else 0) + Colons(s[1..])
  }

  /** getPortSettingIDFromCR */
  function PortSettingId(name: string, cr: PortConfig): string {
    var parts := SplitN(cr.annotation, 4);
    if |parts| == 4 then parts[3] else name
  }

  predicate Belongs(cr: PortConfig, subnet: Subnet) {
    subnet.uid != "" && OwnerRef(GROUP_VERSION, "Subnet", subnet.name, subnet.uid) in cr.owners
  }

  /** The filter of listPortConfigs. */
  predicate Mine(subnet: Subnet, source: string, cr: PortConfig) {
    && cr.subnetName == subnet.name && !cr.deleting && Belongs(cr, subnet)
    && source + ":" <= cr.annotation && |cr.annotation| != |source| + 1
  }

  function MineOf(subnet: Subnet, source: string, store: Store): Store {
    map n | n in store && Mine(subnet, source, store[n]) :: store[n]
  }

  lemma {:induction false} ColonsConcat(a: string, b: string)
    ensures Colons(a + b) == Colons(a) + Colons(b)
  {
    if a == [] {
      assert a + b == b;
    } else {
      assert (a + b)[1..] == a[1..] + b;
      ColonsConcat(a[1..], b);
    }
  }

  lemma {:induction false} NoColons(s: string)
    ensures Colons(s) == 0 <==> ':' !in s
  {
    if s != [] {
      NoColons(s[1..]);
      assert s == [s[0]] + s[1..];
    }
  }

  lemma ColonsCut(s: string)
    requires ':' in s
    ensures Colons(s) == 1 + Colons(s[IndexOf(s, ':') + 1..])
  {
    var j := IndexOf(s, ':');
    var rest := s[j + 1..];
    assert s == s[..j] + ([':'] + rest);
    NoColons(s[..j]);
    ColonsConcat(s[..j], [':'] + rest);
    assert ([':'] + rest)[1..] == rest;
  }

  lemma IndexUnique(s: string, c: char, i: nat)
    requires i < |s| && s[i] == c && c !in s[..i]
    ensures IndexOf(s, c) == i
  {
    var j := IndexOf(s, c);
    assert forall k :: 0 <= k < i ==> s[k] in s[..i];
    assert forall k :: 0 <= k < j ==> s[k] in s[..j];
  }

  lemma FirstCut(source: string, id: string)
    ensures var s := source + ":" + id;
            ':' in s && IndexOf(s, ':') == if ':' in source then IndexOf(source, ':') else |source|
  {
    var s := source + ":" + id;
    assert s[|source|] == ':';
    var j := if ':' in source then IndexOf(source, ':') else |source|;
    assert s[..j] == source[..j];
    IndexUnique(s, ':', j);
  }

  lemma SplitStep(source: string, id: string, n: nat)
    requires n > 1
    ensures SplitN(source + ":" + id, n)
            == if ':' in source
               then [source[..IndexOf(source, ':')]] + SplitN(source[IndexOf(source, ':') + 1..] + ":" + id, n - 1)
               else [source] + SplitN(id, n - 1)
  {
    var s := source + ":" + id;
    FirstCut(source, id);
    var i := IndexOf(s, ':');
    assert s[..i] == if ':' in source then source[..i] else source;
    assert s[i + 1..] == if ':' in source then source[i + 1..] + ":" + id else id;
  }

  /** SplitN with room to spare cuts at every colon, so the last part starts after colon n - 1. */
  lemma {:induction false} SplitLast(source: string, id: string, n: nat)
    requires n > 0
    ensures var parts := SplitN(source + ":" + id, n + 1);
            && (Colons(source) == n - 1 ==> |parts| == n + 1 && parts[n] == id)
            && (Colons(source) > n - 1 ==> |parts| == n + 1 && |parts[n]| > |id|)
            && (Colons(source) < n - 1 && |parts| == n + 1 ==> |parts[n]| < |id|)
    decreases n
  {
    SplitStep(source, id, n + 1);
    if ':' !in source {
      NoColons(source);
      if n > 1 && |SplitN(id, n)| == n {
        SplitShorter(id, n);
      }
    } else {
      ColonsCut(source);
      if n > 1 {
        SplitLast(source[IndexOf(source, ':') + 1..], id, n - 1);
      }
    }
  }

  lemma {:induction false} SplitShorter(s: string, n: nat)
    requires n > 1 && |SplitN(s, n)| == n
    ensures |SplitN(s, n)[n - 1]| < |s|
    decreases n
  {
    var i := IndexOf(s, ':');
    if n > 2 {
      SplitShorter(s[i + 1..], n - 1);
    }
  }

  /** The id read back from an annotation is the id written into it, and not the CR's name, for a
    * source of three parts and only for such a source. */
  lemma IdReadBack(source: string, id: string, cr: PortConfig)
    requires cr.annotation == source + ":" + id
    ensures Colons(source) == 2 ==> forall name :: PortSettingId(name, cr) == id
    ensures (forall name :: PortSettingId(name, cr) == id) ==> Colons(source) == 2
  {
    SplitLast(source, id, 3);
    var parts := SplitN(cr.annotation, 4);
    if |parts| != 4 {
      assert PortSettingId(id + "x", cr) == id + "x" != id;
    } else {
      assert PortSettingId("", cr) == parts[3];
    }
  }

  // ---- Readiness ----

  function FirstReady(cs: seq<Condition>): Option<Condition> {
    if cs == [] then None else if cs[0].kind == READY then Some(cs[0]) else FirstReady(cs[1..])
  }

  /** The conditions after updatePortConfigReady: the first Ready condition replaced, or one appended. */
  function WithReady(cs: seq<Condition>, c: Condition): seq<Condition> {
    if cs == [] then [c] else if cs[0].kind == READY then [c] + cs[1..] else [cs[0]] + WithReady(cs[1..], c)
  }

  lemma {:induction false} WithReadyFirst(cs: seq<Condition>, c: Condition)
    requires c.kind == READY
    ensures FirstReady(WithReady(cs, c)) == Some(c)
    ensures FirstReady(cs) == Some(c) ==> WithReady(cs, c) == cs
  {
    if cs != [] {
      if cs[0].kind != READY {
        WithReadyFirst(cs[1..], c);
        assert WithReady(cs, c)[1..] == WithReady(cs[1..], c);
      }
      assert cs == [cs[0]] + cs[1..];
    }
  }

  function Realized(id: string): Condition {
    Condition(READY, "True", "PortSettingRealized", "PortSetting " + id + " is realized on NSX")
  }

  predicate IsReady(cr: PortConfig, id: string) {
    FirstReady(cr.conditions) == Some(Realized(id))
  }

  // ---- Converged ----

  predicate MirrorOk(name: string, cr: PortConfig, ids: seq<string>) {
    PortSettingId(name, cr) in ids && IsReady(cr, PortSettingId(name, cr))
  }

  predicate Mirrored(subnet: Subnet, source: string, store: Store, id: string) {
    exists n :: n in store && Mine(subnet, source, store[n]) && PortSettingId(n, store[n]) == id
  }

  /** The Subnet's mirrors stand for exactly the non-empty ids, and all are Ready. */
  ghost predicate Converged(subnet: Subnet, source: string, store: Store, ids: seq<string>) {
    && (forall n :: n in store && Mine(subnet, source, store[n]) ==> MirrorOk(n, store[n], ids))
    && (forall id :: id in ids && id != "" ==> Mirrored(subnet, source, store, id))
  }

  /** All CRs that are not this Subnet's mirrors are as they were. */
  ghost predicate OthersKept(subnet: Subnet, source: string, before: Store, after: Store) {
    forall n :: n in before && !Mine(subnet, source, before[n]) ==> n in after && after[n] == before[n]
  }

  lemma WrittenId(source: string, id: string, name: string, cr: PortConfig)
    requires cr.annotation == source + ":" + id && Colons(source) == 2
    ensures PortSettingId(name, cr) == id
  {
    IdReadBack(source, id, cr);
  }

  lemma AnnotationCut(annotation: string, prefix: string)
    requires prefix <= annotation
    ensures annotation == prefix + annotation[|prefix|..]
  {
  }

  /** The id of a mirror, for a source of three parts. */
  lemma MirrorId(subnet: Subnet, source: string, name: string, cr: PortConfig)
    requires Mine(subnet, source, cr) && Colons(source) == 2
    ensures PortSettingId(name, cr) == cr.annotation[|source| + 1..] != ""
  {
    var k := |source| + 1;
    AnnotationCut(cr.annotation, source + ":");
    assert (source + ":") + cr.annotation[k..] == source + ":" + cr.annotation[k..];
    WrittenId(source, cr.annotation[k..], name, cr);
  }

  /** In a converged store the mirrored ids are the non-empty ones of the snapshot. */
  lemma ConvergedIds(subnet: Subnet, source: string, store: Store, ids: seq<string>, id: string)
    requires Converged(subnet, source, store, ids) && Colons(source) == 2
    ensures Mirrored(subnet, source, store, id) <==> id in ids && id != ""
  {
    if Mirrored(subnet, source, store, id) {
      var n :| n in store && Mine(subnet, source, store[n]) && PortSettingId(n, store[n]) == id;
      assert MirrorOk(n, store[n], ids);
      MirrorId(subnet, source, n, store[n]);
    }
  }

  // ---- The same, read off the fields ----

  /** A live CR that the Subnet owns, for the NSX id, with the id behind the source in its annotation. */
  ghost predicate MirrorOf(cr: PortConfig, subnet: Subnet, source: string, id: string) {
    && cr.subnetName == subnet.name && !cr.deleting
    && (exists o :: o in cr.owners && o.apiVersion == "crd.nsx.vmware.com/v1alpha1" && o.kind == "Subnet"
                    && o.name == subnet.name && o.uid == subnet.uid && o.uid != "")
    && id != "" && cr.annotation == source + ":" + id
  }

  /** The first condition of type Ready is true, and names the id. */
  predicate ShowsReady(cr: PortConfig, id: string) {
    exists i :: 0 <= i < |cr.conditions| && ReadyAt(cr.conditions, i, id)
  }

  predicate ReadyAt(cs: seq<Condition>, i: nat, id: string)
    requires i < |cs|
  {
    && cs[i].kind == "Ready" && (forall j :: 0 <= j < i ==> cs[j].kind != "Ready")
    && cs[i].status == "True" && cs[i].reason == "PortSettingRealized"
    && cs[i].message == "PortSetting " + id + " is realized on NSX"
  }

  /** The Subnet's mirrors in the store are Ready and stand for exactly the non-empty ids. */
  ghost predicate InSync(subnet: Subnet, source: string, store: Store, ids: seq<string>) {
    && (forall n, id :: n in store && MirrorOf(store[n], subnet, source, id) ==>
          id in ids && ShowsReady(store[n], id))
    && (forall id :: id in ids && id != "" ==> exists n :: n in store && MirrorOf(store[n], subnet, source, id))
  }

  /** What is no mirror of the Subnet for the source is as it was. */
  ghost predicate ForeignKept(subnet: Subnet, source: string, before: Store, after: Store) {
    forall n :: n in before && (forall id :: !MirrorOf(before[n], subnet, source, id)) ==>
      n in after && after[n] == before[n]
  }

  lemma MineIsMirror(cr: PortConfig, subnet: Subnet, source: string, id: string)
    requires cr.annotation == source + ":" + id
    ensures Mine(subnet, source, cr) <==> MirrorOf(cr, subnet, source, id)
  {
    var owner := OwnerRef("crd.nsx.vmware.com/v1alpha1", "Subnet", subnet.name, subnet.uid);
    assert MirrorOf(cr, subnet, source, id) ==> owner in cr.owners;
  }

  lemma MineHasId(cr: PortConfig, subnet: Subnet, source: string)
    requires Mine(subnet, source, cr)
    ensures cr.annotation == source + ":" + cr.annotation[|source| + 1..]
  {
    AnnotationCut(cr.annotation, source + ":");
  }

  lemma {:induction false} FirstReadyAt(cs: seq<Condition>, id: string)
    ensures FirstReady(cs) == Some(Realized(id)) <==> exists i :: 0 <= i < |cs| && ReadyAt(cs, i, id)
  {
    if cs != [] && cs[0].kind != "Ready" {
      FirstReadyAt(cs[1..], id);
      if i :| 0 <= i < |cs[1..]| && ReadyAt(cs[1..], i, id) {
        assert ReadyAt(cs, i + 1, id);
      }
      if i :| 0 <= i < |cs| && ReadyAt(cs, i, id) {
        assert cs[1..][i - 1] == cs[i] && forall j :: 0 <= j < i - 1 ==> cs[1..][j] == cs[j + 1];
        assert ReadyAt(cs[1..], i - 1, id);
      }
    } else if cs != [] {
      assert cs[0] == Realized(id) <==> ReadyAt(cs, 0, id);
      if i :| 0 <= i < |cs| && ReadyAt(cs, i, id) {
        assert i == 0;
      }
    }
  }

  lemma ReadyShown(cr: PortConfig, id: string)
    ensures IsReady(cr, id) <==> ShowsReady(cr, id)
  {
    FirstReadyAt(cr.conditions, id);
  }

  lemma MirroredShown(subnet: Subnet, source: string, store: Store, id: string)
    requires Colons(source) == 2
    ensures Mirrored(subnet, source, store, id) <==> exists n :: n in store && MirrorOf(store[n], subnet, source, id)
  {
    if n :| n in store && Mine(subnet, source, store[n]) && PortSettingId(n, store[n]) == id {
      MirrorId(subnet, source, n, store[n]);
      MineHasId(store[n], subnet, source);
      MineIsMirror(store[n], subnet, source, id);
    }
    if n :| n in store && MirrorOf(store[n], subnet, source, id) {
      MineIsMirror(store[n], subnet, source, id);
      WrittenId(source, id, n, store[n]);
    }
  }

  lemma MirrorShown(subnet: Subnet, source: string, n: string, cr: PortConfig, ids: seq<string>, id: string)
    requires Colons(source) == 2 && MirrorOf(cr, subnet, source, id)
    ensures Mine(subnet, source, cr)
    ensures MirrorOk(n, cr, ids) <==> id in ids && ShowsReady(cr, id)
  {
    MineIsMirror(cr, subnet, source, id);
    WrittenId(source, id, n, cr);
    ReadyShown(cr, id);
  }

  lemma SomeId(subnet: Subnet, source: string, cr: PortConfig)
    requires Mine(subnet, source, cr)
    ensures MirrorOf(cr, subnet, source, cr.annotation[|source| + 1..])
  {
    MineHasId(cr, subnet, source);
    MineIsMirror(cr, subnet, source, cr.annotation[|source| + 1..]);
  }

  lemma ConvergedShows(subnet: Subnet, source: string, store: Store, ids: seq<string>)
    requires Colons(source) == 2 && Converged(subnet, source, store, ids)
    ensures InSync(subnet, source, store, ids)
  {
    forall n, id | n in store && MirrorOf(store[n], subnet, source, id)
      ensures id in ids && ShowsReady(store[n], id)
    {
      MirrorShown(subnet, source, n, store[n], ids, id);
    }
    forall id | id in ids && id != ""
      ensures exists n :: n in store && MirrorOf(store[n], subnet, source, id)
    {
      MirroredShown(subnet, source, store, id);
    }
  }

  lemma ShownConverged(subnet: Subnet, source: string, store: Store, ids: seq<string>)
    requires Colons(source) == 2 && InSync(subnet, source, store, ids)
    ensures Converged(subnet, source, store, ids)
  {
    forall n | n in store && Mine(subnet, source, store[n])
      ensures MirrorOk(n, store[n], ids)
    {
      var id := store[n].annotation[|source| + 1..];
      SomeId(subnet, source, store[n]);
      MirrorShown(subnet, source, n, store[n], ids, id);
    }
    forall id | id in ids && id != ""
      ensures Mirrored(subnet, source, store, id)
    {
      MirroredShown(subnet, source, store, id);
    }
  }

  /** Converged, for a source of three parts, is what the fields show. */
  lemma ConvergedInFields(subnet: Subnet, source: string, store: Store, ids: seq<string>)
    requires Colons(source) == 2
    ensures Converged(subnet, source, store, ids) <==> InSync(subnet, source, store, ids)
  {
    if Converged(subnet, source, store, ids) {
      ConvergedShows(subnet, source, store, ids);
    } else if InSync(subnet, source, store, ids) {
      ShownConverged(subnet, source, store, ids);
    }
  }

  lemma KeptInFields(subnet: Subnet, source: string, before: Store, after: Store)
    requires OthersKept(subnet, source, before, after)
    ensures ForeignKept(subnet, source, before, after)
  {
    forall n | n in before && (forall id :: !MirrorOf(before[n], subnet, source, id))
      ensures n in after && after[n] == before[n]
    {
      if Mine(subnet, source, before[n]) {
        MineHasId(before[n], subnet, source);
        MineIsMirror(before[n], subnet, source, before[n].annotation[|source| + 1..]);
      }
    }
  }
}
