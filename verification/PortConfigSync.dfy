/** The mirror sync of one shared Subnet against the API server. Any request may fail; nobody
  * else writes while it runs. */
module PortConfigSync {
  import opened Common
  import opened PortConfigMirror

  datatype ApiError = AlreadyExists | NotFound | Conflict | OtherError | EmptySource | BeingDeleted

  function Failure<T>(r: Result<T, ApiError>): Option<ApiError> {
    if r.Ok? then None else Some(r.error)
  }

  /** The SubnetPortSettings of one namespace on the API server. A failed request changes nothing. */
  class ApiServer {
    var store: Store
    var requests: nat  // write requests received
    var refused: nat   // requests that failed, reads included
    var last: Option<ApiError>  // how the last request failed
    var generateName: string    // of the last creation that asked for a generated name

    constructor (store: Store)
      ensures this.store == store && requests == 0 && refused == 0 && last == None
    {
      this.store, requests, refused, last, generateName := store, 0, 0, None, "";
    }

    /** The request is answered. */
    method Answer(err: Option<ApiError>)
      modifies this`refused, this`last
      ensures last == err && refused == old(refused) + if err.Some? then 1 else 0
    {
      last := err;
      refused := if err.Some? then refused + 1 else refused;
    }

    method List() returns (r: Result<Store, ApiError>)
      modifies this`refused, this`last
      ensures r.Ok? ==> r.value == store
      ensures last == Failure(r) && refused == old(refused) + if r.Err? then 1 else 0
    {
      var fails := *;
      r := if fails then Err(OtherError) else Ok(store);
      Answer(Failure(r));
    }

    method Get(name: string) returns (r: Result<PortConfig, ApiError>)
      modifies this`refused, this`last
      ensures r.Ok? ==> name in store && r.value == store[name]
      ensures last == Failure(r) && refused == old(refused) + if r.Err? then 1 else 0
    {
      var fails := *;
      r := if fails then Err(OtherError) else if name in store then Ok(store[name]) else Err(NotFound);
      Answer(Failure(r));
    }

    method Create(name: string, cr: PortConfig) returns (r: Result<PortConfig, ApiError>)
      modifies this
      ensures generateName == old(generateName)
      ensures requests == old(requests) + 1
      ensures r.Err? ==> store == old(store)
      ensures r.Ok? ==> name !in old(store) && store == old(store)[name := r.value]
                        && r.value == cr.(version := r.value.version)
      ensures last == Failure(r) && refused == old(refused) + if r.Err? then 1 else 0
    {
      requests := requests + 1;
      var fails := *;
      if fails {
        r := Err(OtherError);
      } else if name in store {
        r := Err(AlreadyExists);
      } else {
        r := Ok(cr.(version := requests));
        store := store[name := r.value];
      }
      Answer(Failure(r));
    }

    /** Create with generateName: the server makes a name from the prefix, which it may cut. */
    method CreateGenerated(prefix: string, cr: PortConfig) returns (name: string, r: Result<PortConfig, ApiError>)
      modifies this
      ensures requests == old(requests) + 1 && generateName == prefix
      ensures r.Err? ==> store == old(store)
      ensures r.Ok? ==> name !in old(store) && store == old(store)[name := r.value]
                        && r.value == cr.(version := r.value.version)
      ensures last == Failure(r) && refused == old(refused) + if r.Err? then 1 else 0
    {
      generateName := prefix;
      name := *;
      r := Create(name, cr);
    }

    /** Update of the status subresource: only the conditions are taken over. */
    method UpdateStatus(name: string, cr: PortConfig) returns (r: Result<PortConfig, ApiError>)
      modifies this
      ensures requests == old(requests) + 1
      ensures r.Err? ==> store == old(store)
      ensures r.Ok? ==> name in old(store) && old(store)[name].version == cr.version
                        && r.value == old(store)[name].(conditions := cr.conditions, version := r.value.version)
                        && store == old(store)[name := r.value]
      ensures last == Failure(r) && refused == old(refused) + if r.Err? then 1 else 0
    {
      requests := requests + 1;
      var fails := *;
      if fails {
        r := Err(OtherError);
      } else if name !in store {
        r := Err(NotFound);
      } else if store[name].version != cr.version {
        r := Err(Conflict);
      } else {
        r := Ok(store[name].(conditions := cr.conditions, version := requests));
        store := store[name := r.value];
      }
      Answer(Failure(r));
    }

    /** Delete with a precondition on the version. */
    method Delete(name: string, version: nat) returns (err: Option<ApiError>)
      modifies this
      ensures requests == old(requests) + 1
      ensures err.Some? ==> store == old(store)
      ensures err == Some(NotFound) ==> name !in store
      ensures err.None? ==> name in old(store) && store == old(store) - {name}
      ensures last == err && refused == old(refused) + if err.Some? then 1 else 0
    {
      requests := requests + 1;
      var fails := *;
      if fails {
        err := Some(OtherError);
      } else if name !in store {
        err := Some(NotFound);
      } else if store[name].version != version {
        err := Some(Conflict);
      } else {
        store := store - {name};
        err := None;
      }
      Answer(err);
    }
  }

  // ---- The local view ----

  /** The pointers of existingCRsByPsID: the mirrors as this run knows them, and their names by id. */
  datatype View = View(copies: Store, byId: map<string, seq<string>>)

  predicate AllListed(v: View) {
    forall id, n :: id in v.byId && n in v.byId[id] ==> n in v.copies
  }

  predicate ByIdOk(v: View, n: string)
    requires n in v.copies
  {
    var id := PortSettingId(n, v.copies[n]);
    id in v.byId && n in v.byId[id]
  }

  predicate IdOk(v: View, id: string)
    requires id in v.byId
  {
    v.byId[id] != [] && forall n :: n in v.byId[id] ==> n in v.copies && PortSettingId(n, v.copies[n]) == id
  }

  /** The copies are the mirrors in the store, filed under the ids they stand for. */
  ghost predicate Exact(subnet: Subnet, source: string, store: Store, v: View) {
    && v.copies == MineOf(subnet, source, store)
    && (forall n :: n in v.copies ==> ByIdOk(v, n))
    && (forall id :: id in v.byId ==> IdOk(v, id))
  }

  /** Some mirror stands for the id, and all that do are Ready. */
  predicate Done(v: View, id: string) {
    id in v.byId && v.byId[id] != [] && forall n :: n in v.byId[id] ==> n in v.copies && IsReady(v.copies[n], id)
  }

  /** Nothing but this Subnet's mirrors was touched since the store was s0. */
  ghost predicate Safe(subnet: Subnet, source: string, s0: Store, store: Store, v: View) {
    && OthersKept(subnet, source, s0, store)
    && (forall n :: n in v.copies && n in s0 ==> Mine(subnet, source, s0[n]))
    && AllListed(v)
  }

  // ---- Steps ----

  /** listPortConfigs */
  method ListPortConfigs(api: ApiServer, subnet: Subnet, source: string) returns (r: Result<Store, ApiError>)
    modifies api`refused, api`last
    ensures source == "" ==> r == Err(EmptySource)
    ensures source != "" ==> api.last == Failure(r) && api.refused == old(api.refused) + if r.Err? then 1 else 0
    ensures r.Ok? ==> r.value == MineOf(subnet, source, api.store)
  {
    if source == "" {
      return Err(EmptySource);
    }
    var list := api.List();
    if list.Err? {
      return Err(list.error);
    }
    var settings: Store := map[];
    var todo := list.value.Keys;
    while todo != {}
      invariant todo <= list.value.Keys
      invariant settings == map n | n in list.value && n !in todo && Mine(subnet, source, list.value[n])
                              :: list.value[n]
    {
      var n :| n in todo;
      if Mine(subnet, source, list.value[n]) {
        settings := settings[n := list.value[n]];
      }
      todo := todo - {n};
    }
    r := Ok(settings);
  }

  /** The loop of updatePortConfigReady over the conditions. */
  method SetReady(cs: seq<Condition>, c: Condition) returns (updated: seq<Condition>, changed: bool)
    requires c.kind == READY
    ensures updated == WithReady(cs, c)
    ensures changed <==> FirstReady(cs) != Some(c)
  {
    for i := 0 to |cs|
      invariant forall k :: 0 <= k < i ==> cs[k].kind != READY
    {
      if cs[i].kind == READY {
        ReadyFrom(cs, i, c);
        if cs[i] == c {
          WithReadyFirst(cs, c);
          return cs, false;
        }
        return cs[..i] + [c] + cs[i + 1..], true;
      }
    }
    ReadyFrom(cs, |cs|, c);
    return cs + [c], true;
  }

  lemma {:induction false} ReadyFrom(cs: seq<Condition>, i: nat, c: Condition)
    requires i <= |cs| && forall k :: 0 <= k < i ==> cs[k].kind != READY
    requires i < |cs| ==> cs[i].kind == READY
    ensures FirstReady(cs) == if i < |cs| then Some(cs[i]) else None
    ensures WithReady(cs, c) == cs[..i] + [c] + if i < |cs| then cs[i + 1..] else []
  {
    if i > 0 {
      ReadyFrom(cs[1..], i - 1, c);
      assert cs[..i] == [cs[0]] + cs[1..][..i - 1];
    }
  }

  /** updatePortConfigReady, on the local copy and on the server. */
  method UpdatePortConfigReady(api: ApiServer, name: string, cr: PortConfig, c: Condition)
    returns (copy: PortConfig, err: Option<ApiError>)
    requires c.kind == READY
    modifies api
    ensures FirstReady(cr.conditions) == Some(c) ==>
              copy == cr && err.None? && api.store == old(api.store) && api.requests == old(api.requests)
    ensures FirstReady(cr.conditions) != Some(c) ==> api.requests == old(api.requests) + 1
    ensures FirstReady(copy.conditions) == Some(c)
    ensures api.refused == old(api.refused) + if err.Some? then 1 else 0
    ensures err.Some? ==> api.store == old(api.store) && copy == cr.(conditions := WithReady(cr.conditions, c))
    ensures err.None? && FirstReady(cr.conditions) != Some(c) ==>
              name in old(api.store) && api.store == old(api.store)[name := copy]
              && copy == old(api.store)[name].(conditions := WithReady(cr.conditions, c), version := copy.version)
  {
    WithReadyFirst(cr.conditions, c);
    var updated, changed := SetReady(cr.conditions, c);
    if !changed {
      return cr, None;
    }
    copy := cr.(conditions := updated);
    var r := api.UpdateStatus(name, copy);
    if r.Err? {
      return copy, Some(r.error);
    }
    return r.value, None;
  }

  /** createPortConfig; validName stands for generateValidPortSettingName. */
  method CreatePortConfig(api: ApiServer, subnet: Subnet, id: string, source: string, validName: string -> string)
    returns (name: string, r: Result<PortConfig, ApiError>)
    requires subnet.uid != "" && id != ""
    modifies api
    ensures api.requests > old(api.requests) && api.refused >= old(api.refused)
    ensures r.Err? ==> api.store == old(api.store) && api.refused > old(api.refused)
    ensures r.Err? && r.error != BeingDeleted ==> api.last == Some(r.error)
    ensures r.Ok? ==> api.last.None?
    ensures r == Err(BeingDeleted) && api.last.None? ==>
              validName(id) in api.store && api.store[validName(id)].deleting
              && MirrorOf(api.store[validName(id)].(deleting := false), subnet, source, id)
    ensures r.Ok? ==> name in api.store && api.store[name] == r.value && MirrorOf(r.value, subnet, source, id)
    ensures r.Ok? && name !in old(api.store) ==> r.value.conditions == [] && |r.value.owners| == 1
    ensures r.Ok? ==> name == validName(id)
                      || (api.generateName == validName(id) + "-" && validName(id) in old(api.store))
    ensures r.Ok? ==> (name in old(api.store) && api.store == old(api.store))
                      || (name !in old(api.store) && api.store == old(api.store)[name := r.value])
  {
    var owner := OwnerRef(GROUP_VERSION, "Subnet", subnet.name, subnet.uid);
    var newCR := PortConfig(subnet.name, [owner], source + ":" + id, false, [], 0);
    assert owner in newCR.owners;
    name := validName(id);
    r := api.Create(name, newCR);
    if r == Err(AlreadyExists) {
      var existing := api.Get(name);
      if existing.Err? {
        return name, existing;
      }
      if existing.value.subnetName == subnet.name && existing.value.annotation == source + ":" + id
         && Belongs(existing.value, subnet) {
        if existing.value.deleting {
          return name, Err(BeingDeleted);
        }
        return name, existing;
      }
      name, r := api.CreateGenerated(name + "-", newCR);
    }
  }

  // ---- One id ----

  lemma MineUpdate(subnet: Subnet, source: string, store: Store, n: string, copy: PortConfig)
    requires n in store && Mine(subnet, source, store[n])
    requires copy == store[n].(conditions := copy.conditions, version := copy.version)
    ensures MineOf(subnet, source, store[n := copy]) == MineOf(subnet, source, store)[n := copy]
  {
  }

  lemma SafeUpdate(subnet: Subnet, source: string, s0: Store, store: Store, v: View, n: string, copy: PortConfig)
    requires Safe(subnet, source, s0, store, v) && n in v.copies
    ensures OthersKept(subnet, source, s0, store[n := copy])
  {
  }

  /** The copies are the mirrors in the store, and stand for the ids that v filed them under. */
  ghost predicate Current(subnet: Subnet, source: string, store: Store, v: View, w: View) {
    && w.copies == MineOf(subnet, source, store)
    && w.copies.Keys == v.copies.Keys
    && forall n :: n in v.copies ==> w.copies[n].annotation == v.copies[n].annotation
  }

  method UpdateMirror(api: ApiServer, subnet: Subnet, source: string, v: View, n: string, id: string, ghost s0: Store)
    returns (w: View, err: Option<ApiError>)
    requires n in v.copies && Safe(subnet, source, s0, api.store, v)
    modifies api
    ensures Safe(subnet, source, s0, api.store, w)
    ensures n in w.copies && w.byId == v.byId && w.copies == v.copies[n := w.copies[n]] && IsReady(w.copies[n], id)
    ensures err.None? && v.copies == MineOf(subnet, source, old(api.store)) ==>
              Current(subnet, source, api.store, v, w)
    ensures IsReady(v.copies[n], id) ==>
              err.None? && w == v && api.store == old(api.store) && api.requests == old(api.requests)
    ensures api.requests >= old(api.requests)
    ensures api.requests == old(api.requests) ==> api.store == old(api.store)
    ensures api.refused == old(api.refused) + if err.Some? then 1 else 0
  {
    ghost var store := api.store;
    var copy;
    copy, err := UpdatePortConfigReady(api, n, v.copies[n], Realized(id));
    w := v.(copies := v.copies[n := copy]);
    SafeUpdate(subnet, source, s0, store, v, n, copy);
    if err.None? && v.copies == MineOf(subnet, source, store) && !IsReady(v.copies[n], id) {
      MineUpdate(subnet, source, store, n, copy);
    }
  }

  lemma ExactAfter(subnet: Subnet, source: string, before: Store, store: Store, v: View, w: View)
    requires Exact(subnet, source, before, v) && w.byId == v.byId && Current(subnet, source, store, v, w)
    ensures Exact(subnet, source, store, w)
  {
    forall n | n in w.copies
      ensures ByIdOk(w, n)
    {
      assert ByIdOk(v, n);
    }
    forall id | id in w.byId
      ensures IdOk(w, id)
    {
      assert IdOk(v, id);
    }
  }

  /** The inner loop over the mirrors of an id. */
  method UpdateMirrors(api: ApiServer, subnet: Subnet, source: string, v: View, id: string, ghost s0: Store)
    returns (w: View, errs: seq<ApiError>)
    requires id in v.byId && v.byId[id] != [] && Safe(subnet, source, s0, api.store, v)
    modifies api
    ensures Safe(subnet, source, s0, api.store, w)
    ensures w.byId == v.byId && w.copies.Keys == v.copies.Keys
    ensures forall n :: n in v.copies && n !in v.byId[id] ==> w.copies[n] == v.copies[n]
    ensures errs == [] && Exact(subnet, source, old(api.store), v) ==>
              Exact(subnet, source, api.store, w) && Done(w, id)
    ensures forall n :: n in v.byId[id] ==> n in w.copies && ShowsReady(w.copies[n], id)
    ensures Done(v, id) ==> errs == [] && w == v && api.store == old(api.store) && api.requests == old(api.requests)
    ensures api.requests >= old(api.requests)
    ensures api.requests == old(api.requests) ==> api.store == old(api.store)
    ensures api.refused == old(api.refused) + |errs|
  {
    var names := v.byId[id];
    ghost var clean := Exact(subnet, source, api.store, v);
    w, errs := v, [];
    for i := 0 to |names|
      invariant Safe(subnet, source, s0, api.store, w)
      invariant w.byId == v.byId && w.copies.Keys == v.copies.Keys
      invariant forall n :: n in v.copies && n !in names ==> w.copies[n] == v.copies[n]
      invariant errs == [] && clean ==> Current(subnet, source, api.store, v, w)
      invariant forall k :: 0 <= k < i ==> names[k] in w.copies && IsReady(w.copies[names[k]], id)
      invariant Done(v, id) ==>
                  errs == [] && w == v && api.store == old(api.store) && api.requests == old(api.requests)
      invariant api.requests >= old(api.requests)
      invariant api.requests == old(api.requests) ==> api.store == old(api.store)
      invariant api.refused == old(api.refused) + |errs|
    {
      var err;
      w, err := UpdateMirror(api, subnet, source, w, names[i], id, s0);
      errs := if err.Some? then errs + [err.value] else errs;
    }
    forall n | n in names
      ensures n in w.copies && ShowsReady(w.copies[n], id)
    {
      ReadyShown(w.copies[n], id);
    }
    if errs == [] && clean {
      ExactAfter(subnet, source, old(api.store), api.store, v, w);
    }
  }

  // ---- The whole sync ----

  /** An id without mirrors in an exact view has none in the store. */
  lemma NoMirrorYet(subnet: Subnet, source: string, store: Store, v: View, id: string, name: string)
    requires Exact(subnet, source, store, v) && (id !in v.byId || v.byId[id] == [])
    ensures id !in v.byId
    ensures name in v.copies ==> PortSettingId(name, v.copies[name]) != id
  {
    assert id in v.byId ==> IdOk(v, id);
    assert name in v.copies ==> ByIdOk(v, name);
  }

  lemma MineCreate(subnet: Subnet, source: string, store: Store, name: string, cr: PortConfig)
    requires name !in store && Mine(subnet, source, cr)
    ensures MineOf(subnet, source, store[name := cr]) == MineOf(subnet, source, store)[name := cr]
  {
  }

  /** The creation of a mirror keeps the view exact. */
  lemma CreateExact(subnet: Subnet, source: string, store: Store, v: View, id: string, name: string, cr: PortConfig)
    requires Exact(subnet, source, store, v) && id !in v.byId
    requires name !in store && Mine(subnet, source, cr) && PortSettingId(name, cr) == id
    ensures Exact(subnet, source, store[name := cr], View(v.copies[name := cr], v.byId[id := [name]]))
  {
    var w := View(v.copies[name := cr], v.byId[id := [name]]);
    MineCreate(subnet, source, store, name, cr);
    forall n | n in w.copies
      ensures ByIdOk(w, n)
    {
      assert n != name ==> ByIdOk(v, n);
    }
    forall k | k in w.byId
      ensures IdOk(w, k)
    {
      assert k != id ==> IdOk(v, k);
    }
  }

  /** And it touches nothing else. */
  lemma SafeCreate(subnet: Subnet, source: string, s0: Store, before: Store, after: Store, v: View, id: string,
                   name: string, cr: PortConfig)
    requires Safe(subnet, source, s0, before, v) && Mine(subnet, source, cr)
    requires (name in before && before[name] == cr && after == before)
             || (name !in before && after == before[name := cr])
    ensures Safe(subnet, source, s0, after, View(v.copies[name := cr], v.byId[id := [name]]))
  {
    forall n | n in s0 && !Mine(subnet, source, s0[n])
      ensures n in after && after[n] == s0[n]
    {
      assert n in before && before[n] == s0[n];
    }
  }

  lemma DoneAfterCreate(v: View, id: string, name: string, cr: PortConfig)
    requires name !in v.copies && id !in v.byId
    ensures forall other :: other != id && Done(v, other) ==>
            Done(View(v.copies[name := cr], v.byId[id := [name]]), other)
  {
  }

  /** Creating a mirror for an id that has none, in an exact view. */
  lemma Created(subnet: Subnet, source: string, before: Store, after: Store, v: View, id: string, name: string,
                cr: PortConfig)
    requires Exact(subnet, source, before, v) && Colons(source) == 2 && (id !in v.byId || v.byId[id] == [])
    requires Mine(subnet, source, cr) && cr.annotation == source + ":" + id
    requires (name in before && before[name] == cr && after == before)
             || (name !in before && after == before[name := cr])
    ensures name !in v.copies && id !in v.byId
    ensures Exact(subnet, source, after, View(v.copies[name := cr], v.byId[id := [name]]))
  {
    WrittenId(source, id, name, cr);
    assert name in before ==> name in v.copies && v.copies[name] == cr;
    NoMirrorYet(subnet, source, before, v, id, name);
    CreateExact(subnet, source, before, v, id, name, cr);
  }

  /** Updating the mirrors of one id leaves those of the others. */
  lemma OthersDone(subnet: Subnet, source: string, store: Store, v: View, w: View, id: string)
    requires Exact(subnet, source, store, v) && id in v.byId
    requires w.byId == v.byId && w.copies.Keys == v.copies.Keys
    requires forall n :: n in v.copies && n !in v.byId[id] ==> w.copies[n] == v.copies[n]
    ensures forall other :: other != id && Done(v, other) ==> Done(w, other)
  {
    forall other | other != id && Done(v, other)
      ensures Done(w, other)
    {
      assert IdOk(v, id) && IdOk(v, other);
    }
  }

  /** Whether every non-empty id among the first i is done. */
  predicate DoneUpTo(v: View, ids: seq<string>, i: nat)
    requires i <= |ids|
  {
    forall j :: 0 <= j < i && ids[j] != "" ==> Done(v, ids[j])
  }

  /** The view with a mirror for the id, created if there is none. */
  method EnsureMirror(api: ApiServer, subnet: Subnet, source: string, v: View, id: string,
                      validName: string -> string, ghost s0: Store)
    returns (u: View, err: Option<ApiError>)
    requires subnet.uid != "" && id != "" && Safe(subnet, source, s0, api.store, v)
    modifies api
    ensures Safe(subnet, source, s0, api.store, u)
    ensures err.Some? ==> u == v && api.requests > old(api.requests)
    ensures err.None? ==> id in u.byId && u.byId[id] != []
    ensures err.None? && Colons(source) == 2 && Exact(subnet, source, old(api.store), v) ==>
              Exact(subnet, source, api.store, u) && forall other :: other != id && Done(v, other) ==> Done(u, other)
    ensures id in v.byId && v.byId[id] != [] ==>
              err.None? && u == v && api.store == old(api.store) && api.requests == old(api.requests)
    ensures api.requests >= old(api.requests)
    ensures api.requests == old(api.requests) ==> api.store == old(api.store)
    ensures api.refused >= old(api.refused) && (err.Some? ==> api.refused > old(api.refused))
  {
    if id in v.byId && v.byId[id] != [] {
      return v, None;
    }
    ghost var before := api.store;
    var name, created := CreatePortConfig(api, subnet, id, source, validName);
    if created.Err? {
      return v, Some(created.error);
    }
    u, err := View(v.copies[name := created.value], v.byId[id := [name]]), None;
    MineIsMirror(created.value, subnet, source, id);
    SafeCreate(subnet, source, s0, before, api.store, v, id, name, created.value);
    if Colons(source) == 2 && Exact(subnet, source, before, v) {
      Created(subnet, source, before, api.store, v, id, name, created.value);
      DoneAfterCreate(v, id, name, created.value);
    }
  }

  /** The body of the loop over the snapshot. */
  method MirrorOne(api: ApiServer, subnet: Subnet, source: string, v: View, id: string, validName: string -> string,
                   ghost s0: Store)
    returns (w: View, errs: seq<ApiError>)
    requires subnet.uid != "" && id != "" && Safe(subnet, source, s0, api.store, v)
    modifies api
    ensures Safe(subnet, source, s0, api.store, w)
    ensures errs == [] ==> id in w.byId && w.byId[id] != []
                           && forall n :: n in w.byId[id] ==> n in w.copies && ShowsReady(w.copies[n], id)
    ensures errs == [] && Colons(source) == 2 && Exact(subnet, source, old(api.store), v) ==>
              && Exact(subnet, source, api.store, w) && Done(w, id)
              && forall other :: other != id && Done(v, other) ==> Done(w, other)
    ensures Done(v, id) ==> errs == [] && w == v && api.store == old(api.store) && api.requests == old(api.requests)
    ensures api.requests >= old(api.requests)
    ensures api.requests == old(api.requests) ==> api.store == old(api.store)
    ensures api.refused >= old(api.refused) + |errs|
  {
    ghost var clean := Colons(source) == 2 && Exact(subnet, source, api.store, v);
    var u, err := EnsureMirror(api, subnet, source, v, id, validName, s0);
    if err.Some? {
      return u, [err.value];
    }
    ghost var middle := api.store;
    w, errs := UpdateMirrors(api, subnet, source, u, id, s0);
    if errs == [] && clean {
      OthersDone(subnet, source, middle, u, w, id);
    }
  }

  /** Filing the mirrors under the ids they stand for. */
  method Group(settings: Store) returns (byId: map<string, seq<string>>)
    ensures forall n :: n in settings ==> ByIdOk(View(settings, byId), n)
    ensures forall id :: id in byId ==> IdOk(View(settings, byId), id)
  {
    byId := map[];
    var todo := settings.Keys;
    while todo != {}
      invariant todo <= settings.Keys
      invariant forall n :: n in settings && n !in todo ==> ByIdOk(View(settings, byId), n)
      invariant forall id :: id in byId ==> IdOk(View(settings, byId), id)
    {
      var n :| n in todo;
      var id := PortSettingId(n, settings[n]);
      ghost var before := View(settings, byId);
      byId := byId[id := (if id in byId then byId[id] else []) + [n]];
      todo := todo - {n};
      forall m | m in settings && m !in todo
        ensures ByIdOk(View(settings, byId), m)
      {
        assert m != n ==> ByIdOk(before, m);
      }
      forall k | k in byId
        ensures IdOk(View(settings, byId), k)
      {
        assert k in before.byId ==> IdOk(before, k);
      }
    }
  }

  /** The mirrors whose id is not in the snapshot. */
  function Orphans(v: View, ids: seq<string>): set<string> {
    set n | n in v.copies && PortSettingId(n, v.copies[n]) !in ids
  }

  /** The last loop: mirrors whose id is not in the snapshot are deleted. */
  method DeleteOrphans(api: ApiServer, subnet: Subnet, source: string, v: View, ids: seq<string>, ghost s0: Store)
    returns (errs: seq<ApiError>)
    requires Safe(subnet, source, s0, api.store, v)
    modifies api
    ensures OthersKept(subnet, source, s0, api.store)
    ensures errs == [] && Exact(subnet, source, old(api.store), v) ==> api.store == old(api.store) - Orphans(v, ids)
    ensures (forall id :: id in v.byId ==> id in ids) ==>
              errs == [] && api.store == old(api.store) && api.requests == old(api.requests)
    ensures api.requests >= old(api.requests)
    ensures api.requests == old(api.requests) ==> api.store == old(api.store)
    ensures api.refused >= old(api.refused) + |errs| && NotFound !in errs
  {
    ghost var clean := Exact(subnet, source, api.store, v);
    ghost var gone: set<string> := {};
    errs := [];
    var todo := v.byId.Keys;
    while todo != {}
      invariant todo <= v.byId.Keys
      invariant Safe(subnet, source, s0, api.store, v)
      invariant errs == [] && clean ==> api.store == old(api.store) - gone && gone <= Orphans(v, ids)
      invariant forall id, n :: id in v.byId && id !in todo && id !in ids && n in v.byId[id] ==> n in gone
      invariant (forall id :: id in v.byId ==> id in ids) ==>
                  errs == [] && api.store == old(api.store) && api.requests == old(api.requests)
      invariant api.requests >= old(api.requests)
      invariant api.requests == old(api.requests) ==> api.store == old(api.store)
      invariant api.refused >= old(api.refused) + |errs| && NotFound !in errs
    {
      var id :| id in todo;
      todo := todo - {id};
      if id in ids {
        continue;
      }
      assert clean ==> IdOk(v, id);
      var more := DeleteMirrors(api, subnet, source, v, v.byId[id], s0);
      errs := errs + more;
      gone := gone + Elements(v.byId[id]);
    }
    if errs == [] && clean {
      forall n | n in Orphans(v, ids)
        ensures n in gone
      {
        assert ByIdOk(v, n);
      }
    }
  }

  method DeleteMirrors(api: ApiServer, subnet: Subnet, source: string, v: View, names: seq<string>, ghost s0: Store)
    returns (errs: seq<ApiError>)
    requires Safe(subnet, source, s0, api.store, v) && forall n :: n in names ==> n in v.copies
    modifies api
    ensures Safe(subnet, source, s0, api.store, v)
    ensures errs == [] ==> api.store == old(api.store) - Elements(names)
    ensures api.requests == old(api.requests) + |names|
    ensures names == [] ==> api.store == old(api.store)
    ensures api.refused >= old(api.refused) + |errs| && NotFound !in errs
  {
    errs := [];
    for i := 0 to |names|
      invariant Safe(subnet, source, s0, api.store, v)
      invariant errs == [] ==> api.store == old(api.store) - Elements(names[..i])
      invariant api.requests == old(api.requests) + i
      invariant i == 0 ==> api.store == old(api.store)
      invariant api.refused >= old(api.refused) + |errs| && NotFound !in errs
    {
      var err := api.Delete(names[i], v.copies[names[i]].version);
      if err.Some? && err.value != NotFound {
        errs := errs + [err.value];
      }
      assert names[..i + 1] == names[..i] + [names[i]];
      assert Elements(names[..i + 1]) == Elements(names[..i]) + {names[i]};
    }
    assert names[..|names|] == names;
  }

  lemma InitialView(subnet: Subnet, source: string, store: Store, v: View, ids: seq<string>)
    requires Exact(subnet, source, store, v)
    ensures Safe(subnet, source, store, store, v)
    ensures Converged(subnet, source, store, ids) ==>
              (forall id :: id in ids && id != "" ==> Done(v, id)) && (forall id :: id in v.byId ==> id in ids)
  {
    forall id, n | id in v.byId && n in v.byId[id]
      ensures n in v.copies
    {
      assert IdOk(v, id);
    }
    if Converged(subnet, source, store, ids) {
      forall id | id in ids && id != ""
        ensures Done(v, id)
      {
        assert Mirrored(subnet, source, store, id);
        var n :| n in store && Mine(subnet, source, store[n]) && PortSettingId(n, store[n]) == id;
        assert ByIdOk(v, n) && IdOk(v, id);
        assert forall m :: m in v.byId[id] ==> m in store && MirrorOk(m, store[m], ids);
      }
      forall id | id in v.byId
        ensures id in ids
      {
        assert IdOk(v, id);
        var n := v.byId[id][0];
        assert n in v.byId[id] && n in store && MirrorOk(n, store[n], ids);
      }
    }
  }

  lemma FinalConverged(subnet: Subnet, source: string, store: Store, v: View, ids: seq<string>)
    requires Exact(subnet, source, store, v) && DoneUpTo(v, ids, |ids|) && Colons(source) == 2
    ensures Converged(subnet, source, store - Orphans(v, ids), ids)
  {
    var after := store - Orphans(v, ids);
    forall n | n in after && Mine(subnet, source, after[n])
      ensures MirrorOk(n, after[n], ids)
    {
      assert n in v.copies && ByIdOk(v, n);
      var id := PortSettingId(n, after[n]);
      MirrorId(subnet, source, n, after[n]);
      assert id in ids;
      var j :| 0 <= j < |ids| && ids[j] == id;
      assert Done(v, ids[j]);
    }
    forall id | id in ids && id != ""
      ensures Mirrored(subnet, source, after, id)
    {
      var j :| 0 <= j < |ids| && ids[j] == id;
      assert Done(v, ids[j]) && IdOk(v, id);
      var n := v.byId[id][0];
      assert n in v.byId[id] && n in after && Mine(subnet, source, after[n]);
    }
  }

  /** syncPortConfigsForNamespaceSubnet with the snapshot of ids. For a source of three parts an error-free run ends
    * with the store in sync, and sends no write request exactly when it was in sync before. No run touches what is
    * not a mirror of this Subnet for this source, and none has more errors than requests that failed. */
  method SyncPortConfigs(api: ApiServer, subnet: Subnet, ids: seq<string>, associatedResource: string,
                         validName: string -> string)
    returns (errs: seq<ApiError>)
    requires subnet.uid != ""
    modifies api
    ensures var source := if associatedResource == "" then subnet.annotation else associatedResource;
            && ForeignKept(subnet, source, old(api.store), api.store)
            && (errs == [] && Colons(source) == 2 ==> InSync(subnet, source, api.store, ids))
            && (Colons(source) == 2 && InSync(subnet, source, old(api.store), ids) ==>
                  api.store == old(api.store) && api.requests == old(api.requests))
            && (errs == [] && Colons(source) == 2 && api.requests == old(api.requests) ==>
                  InSync(subnet, source, old(api.store), ids))
            && (if source == "" then errs == [EmptySource] else |errs| <= api.refused - old(api.refused))
  {
    var source := if associatedResource == "" then subnet.annotation else associatedResource;
    ghost var s0 := api.store;
    var settings := ListPortConfigs(api, subnet, source);
    if settings.Err? {
      KeptInFields(subnet, source, s0, s0);
      return [settings.error];
    }
    var byId := Group(settings.value);
    var v := View(settings.value, byId);
    InitialView(subnet, source, s0, v, ids);
    ghost var v0 := v;
    ghost var converged := Converged(subnet, source, s0, ids);
    errs := [];
    for i := 0 to |ids|
      invariant Safe(subnet, source, s0, api.store, v)
      invariant errs == [] && Colons(source) == 2 ==> Exact(subnet, source, api.store, v) && DoneUpTo(v, ids, i)
      invariant converged ==> errs == [] && v == v0 && api.store == s0 && api.requests == old(api.requests)
      invariant api.requests >= old(api.requests)
      invariant api.requests == old(api.requests) ==> api.store == s0
      invariant source != "" && |errs| <= api.refused - old(api.refused)
    {
      if ids[i] == "" {
        continue;
      }
      var more;
      v, more := MirrorOne(api, subnet, source, v, ids[i], validName, s0);
      errs := errs + more;
    }
    ghost var mirrored := api.store;
    var more := DeleteOrphans(api, subnet, source, v, ids, s0);
    errs := errs + more;
    KeptInFields(subnet, source, s0, api.store);
    if Colons(source) == 2 {
      if errs == [] {
        FinalConverged(subnet, source, mirrored, v, ids);
      }
      ConvergedInFields(subnet, source, s0, ids);
      ConvergedInFields(subnet, source, api.store, ids);
    }
  }
}