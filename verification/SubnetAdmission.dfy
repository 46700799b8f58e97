/** Admission of Subnet updates by users: the four transition checks, and what they mean over
  * whole runs of updates. */
module SubnetAdmission {
  import opened Common

  datatype Family = V4 | V6

  datatype IpType = Unset | IPv4 | IPv6 | IPv4IPv6

  function Families(t: IpType): set<Family> {
    match t
    case Unset => {}
    case IPv4 => {V4}
    case IPv6 => {V6}
    case IPv4IPv6 => {V4, V6}
  }

  predicate Single(t: IpType) {
    t == IPv4 || t == IPv6
  }

  // ---- Intersection ----

  /** The families that all types share. */
  function Shared(types: seq<IpType>): set<Family> {
    set f | f in {V4, V6} && HasFamily(types, f)
  }

  predicate HasFamily(types: seq<IpType>, f: Family) {
    forall t :: t in types ==> f in Families(t)
  }

  /** The running result of the loop. */
  function Meet(types: seq<IpType>): Option<IpType>
    requires types != []
  {
    if |types| == 1 then Some(types[0])
    else
      var m, t := Meet(types[..|types| - 1]), types[|types| - 1];
      if m.None? then None
      else if m.value == t || t == IPv4IPv6 then m
      else if m.value == IPv4IPv6 then Some(t)
      else None
  }

  /** IntersectIPAddressTypes */
  method IntersectIPAddressTypes(types: seq<IpType>) returns (r: Result<IpType, string>)
    ensures types == [] ==> r.Err?
    ensures types != [] ==> (r.Ok? <==> Meet(types).Some?) && (r.Ok? ==> Meet(types) == Some(r.value))
  {
    if |types| == 0 {
      return Err("no IP address types provided");
    }
    var result := types[0];
    for i := 1 to |types|
      invariant Meet(types[..i]) == Some(result)
    {
      var t := types[i];
      assert types[..i + 1][..i] == types[..i];
      if result == t {
        continue;
      }
      if result == IPv4IPv6 {
        result := t;
      } else if t == IPv4IPv6 {
        continue;
      } else {
        MeetStaysNone(types, i + 1);
        return Err("no intersection");
      }
    }
    assert types[..|types|] == types;
    return Ok(result);
  }

  lemma {:induction false} MeetStaysNone(types: seq<IpType>, i: nat)
    requires 0 < i <= |types| && Meet(types[..i]).None?
    ensures Meet(types).None?
    decreases |types| - i
  {
    if i < |types| {
      assert types[..i + 1][..i] == types[..i];
      MeetStaysNone(types, i + 1);
    } else {
      assert types[..i] == types;
    }
  }

  /** In the order with IPv4IPv6 above all other types: m is in the list, and below all of it. */
  predicate Least(types: seq<IpType>, m: IpType) {
    m in types && forall t :: t in types ==> t == m || t == IPv4IPv6
  }

  lemma {:induction false} MeetMember(types: seq<IpType>)
    requires types != [] && Meet(types).Some?
    ensures Least(types, Meet(types).value)
  {
    var n := |types| - 1;
    if n > 0 {
      MeetMember(types[..n]);
      assert types == types[..n] + [types[n]];
    }
  }

  /** No meet: two different types, neither of them dual-stack. */
  lemma {:induction false} MeetNone(types: seq<IpType>) returns (t: IpType, u: IpType)
    requires types != [] && Meet(types).None?
    ensures t in types && u in types && t != u && t != IPv4IPv6 && u != IPv4IPv6
  {
    var n := |types| - 1;
    assert types == types[..n] + [types[n]];
    if Meet(types[..n]).None? {
      t, u := MeetNone(types[..n]);
    } else {
      MeetMember(types[..n]);
      t, u := Meet(types[..n]).value, types[n];
    }
  }

  /** The result is the least type of the list, and it exists when there is a least type. */
  lemma MeetIs(types: seq<IpType>, m: IpType)
    requires types != []
    ensures Meet(types) == Some(m) <==> Least(types, m)
  {
    if Meet(types).Some? {
      MeetMember(types);
    } else {
      var t, u := MeetNone(types);
    }
  }

  /** Neither order nor repetition matters. */
  lemma IntersectionOrder(a: seq<IpType>, b: seq<IpType>)
    requires a != [] && b != [] && forall t :: t in a <==> t in b
    ensures Meet(a) == Meet(b)
  {
    if Meet(a).Some? {
      MeetIs(a, Meet(a).value);
      MeetIs(b, Meet(a).value);
    } else if Meet(b).Some? {
      MeetIs(a, Meet(b).value);
      MeetIs(b, Meet(b).value);
    }
  }

  /** For types that are set, the result has exactly the shared families, and there is none exactly
    * when nothing is shared. */
  lemma IntersectionFamilies(types: seq<IpType>)
    requires types != [] && Unset !in types
    ensures Meet(types).None? <==> Shared(types) == {}
    ensures Meet(types).Some? ==> Families(Meet(types).value) == Shared(types)
  {
    if Meet(types).Some? {
      var m := Meet(types).value;
      MeetMember(types);
      assert forall f :: f in Families(m) <==> f in Shared(types);
      assert V4 in Families(m) || V6 in Families(m);
    } else {
      var t, u := MeetNone(types);
      assert forall f :: f in Shared(types) ==> f in Families(t) && f in Families(u);
    }
  }

  /** IsSupersetIPAddressTypes */
  predicate IsSuperset(base: IpType, target: IpType) {
    base == target || (base == IPv4IPv6 && (target == IPv4 || target == IPv6))
  }

  lemma SupersetFamilies(base: IpType, target: IpType)
    ensures target != Unset ==> (IsSuperset(base, target) <==> Families(target) <= Families(base))
    ensures target == Unset ==> (IsSuperset(base, target) <==> base == Unset)
  {
    assert V4 in Families(IPv4) && V6 in Families(IPv6);
    assert V4 in Families(IPv4IPv6) && V6 in Families(IPv4IPv6);
  }

  // ---- The transition checks ----

  datatype Subnet = Subnet(
    ipType: IpType, accessMode: string, ipAddresses: seq<string>, ipBlockNames: seq<string>,
    vpcName: string, vlanConnectionName: string, shared: bool)

  /** ValidateIPAddressTypeTransition */
  predicate TypeOk(before: IpType, after: IpType) {
    before == after || before == Unset || (after == IPv4IPv6 && Single(before))
  }

  /** ValidateAccessModeTransition */
  predicate AccessModeOk(before: string, after: string, beforeType: IpType, afterType: IpType) {
    before == after || before == "" || (afterType == IPv4IPv6 && beforeType == IPv6)
  }

  /** ValidateIPAddressesTransition */
  predicate AddressesOk(v6: string -> bool, before: seq<string>, after: seq<string>, beforeType: IpType,
                        afterType: IpType) {
    Elements(before) == Elements(after)
    || (Widens(beforeType, afterType) && Elements(before) <= Elements(after)
        && forall ip :: ip in after && ip !in before ==> (v6(ip) <==> beforeType == IPv4))
  }

  /** ValidateIPBlockNamesTransition */
  predicate BlockNamesOk(before: seq<string>, after: seq<string>, beforeType: IpType, afterType: IpType) {
    Elements(before) == Elements(after)
    || (Widens(beforeType, afterType) && Elements(before) <= Elements(after))
  }

  predicate Widens(before: IpType, after: IpType) {
    Single(before) && after == IPv4IPv6
  }

  /** The Update branch of SubnetValidator.Handle for a user other than the operator, with the
    * checks that look at the rest of the cluster as parameters. */
  predicate Admits(v6: string -> bool, before: Subnet, after: Subnet, accessModeAllowed: bool,
                   supervisor: Option<IpType>) {
    && !before.shared && !after.shared
    && before.vpcName == after.vpcName && before.vlanConnectionName == after.vlanConnectionName
    && TypeOk(before.ipType, after.ipType)
    && AccessModeOk(before.accessMode, after.accessMode, before.ipType, after.ipType)
    && AddressesOk(v6, before.ipAddresses, after.ipAddresses, before.ipType, after.ipType)
    && BlockNamesOk(before.ipBlockNames, after.ipBlockNames, before.ipType, after.ipType)
    && accessModeAllowed
    && (after.ipType != Unset && supervisor.Some? ==> Meet([after.ipType, supervisor.value]).Some?)
  }

  /** Nothing changes that is set, addresses and block names as sets. */
  ghost predicate Kept(before: Subnet, after: Subnet) {
    && (before.ipType == Unset || after.ipType == before.ipType)
    && (before.accessMode == "" || after.accessMode == before.accessMode)
    && (forall x :: x in before.ipAddresses <==> x in after.ipAddresses)
    && (forall x :: x in before.ipBlockNames <==> x in after.ipBlockNames)
  }

  /** The type grows from one family to both. Addresses of the other family and block names may be added, and
    * with them the access mode may change if IPv4 is the new family. */
  ghost predicate Widened(v6: string -> bool, before: Subnet, after: Subnet) {
    && (before.ipType == IPv4 || before.ipType == IPv6) && after.ipType == IPv4IPv6
    && (before.ipType == IPv6 || before.accessMode == "" || after.accessMode == before.accessMode)
    && (forall x :: x in before.ipAddresses ==> x in after.ipAddresses)
    && (forall x :: x in before.ipBlockNames ==> x in after.ipBlockNames)
    && (forall x :: x in after.ipAddresses && x !in before.ipAddresses ==> (v6(x) <==> before.ipType == IPv4))
  }

  /** A type and the supervisor's have a common meet. */
  predicate Compatible(t: IpType, supervisor: IpType) {
    t == supervisor || t == IPv4IPv6 || supervisor == IPv4IPv6
  }

  lemma MeetOfTwo(t: IpType, u: IpType)
    ensures Meet([t, u]).Some? <==> Compatible(t, u)
  {
    assert [t, u][..1] == [t];
  }

  lemma SameElementsOrNot(a: seq<string>, b: seq<string>)
    ensures Elements(a) == Elements(b) <==> forall x :: x in a <==> x in b
    ensures Elements(a) <= Elements(b) <==> forall x :: x in a ==> x in b
  {
    assert forall x :: x in Elements(a) <==> x in a;
    assert forall x :: x in Elements(b) <==> x in b;
  }

  /** An update is admitted exactly if it keeps what is set or widens the type, leaves the operator's fields alone,
    * and passes the checks against the rest of the cluster. */
  lemma AdmitsExactly(v6: string -> bool, before: Subnet, after: Subnet, allowed: bool, supervisor: Option<IpType>)
    ensures Admits(v6, before, after, allowed, supervisor)
            <==> && (Kept(before, after) || Widened(v6, before, after))
                 && !before.shared && !after.shared && before.vpcName == after.vpcName
                 && before.vlanConnectionName == after.vlanConnectionName && allowed
                 && (after.ipType == Unset || supervisor.None? || Compatible(after.ipType, supervisor.value))
  {
    SameElementsOrNot(before.ipAddresses, after.ipAddresses);
    SameElementsOrNot(before.ipBlockNames, after.ipBlockNames);
    if supervisor.Some? {
      MeetOfTwo(after.ipType, supervisor.value);
    }
  }

  // ---- Runs of updates ----

  /** The states of a Subnet under admitted user updates. */
  ghost predicate Run(v6: string -> bool, run: seq<Subnet>) {
    forall k :: 0 <= k < |run| - 1 ==> Step(v6, run[k], run[k + 1])
  }

  ghost predicate Step(v6: string -> bool, before: Subnet, after: Subnet) {
    exists allowed, supervisor :: Admits(v6, before, after, allowed, supervisor)
  }

  /** A type that is set stays, or grows once to dual-stack. */
  lemma {:induction false} TypeGrows(v6: string -> bool, run: seq<Subnet>, i: nat, j: nat)
    requires Run(v6, run) && i <= j < |run| && run[i].ipType != Unset
    ensures run[j].ipType == run[i].ipType || Widens(run[i].ipType, run[j].ipType)
    ensures Families(run[i].ipType) <= Families(run[j].ipType)
    decreases j - i
  {
    if i < j {
      assert Step(v6, run[i], run[i + 1]);
      TypeGrows(v6, run, i + 1, j);
    }
  }

  /** So it changes at most once. */
  lemma TypeChangesOnce(v6: string -> bool, run: seq<Subnet>, i: nat, j: nat)
    requires Run(v6, run) && i < j < |run| - 1 && run[i].ipType != Unset
    requires run[i].ipType != run[i + 1].ipType
    ensures run[j].ipType == run[j + 1].ipType == IPv4IPv6
  {
    assert Step(v6, run[i], run[i + 1]);
    TypeGrows(v6, run, i + 1, j);
    TypeGrows(v6, run, i + 1, j + 1);
  }

  /** Addresses and block names never leave. */
  lemma {:induction false} SetsGrow(v6: string -> bool, run: seq<Subnet>, i: nat, j: nat)
    requires Run(v6, run) && i <= j < |run|
    ensures Elements(run[i].ipAddresses) <= Elements(run[j].ipAddresses)
    ensures Elements(run[i].ipBlockNames) <= Elements(run[j].ipBlockNames)
    decreases j - i
  {
    if i < j {
      assert Step(v6, run[i], run[i + 1]);
      SetsGrow(v6, run, i + 1, j);
    }
  }

  lemma StepKeepsOrWidens(v6: string -> bool, before: Subnet, after: Subnet)
    requires Step(v6, before, after)
    ensures Kept(before, after) || Widened(v6, before, after)
  {
    var allowed, supervisor :| Admits(v6, before, after, allowed, supervisor);
    AdmitsExactly(v6, before, after, allowed, supervisor);
  }

  /** Type, access mode, addresses and block names that are set change in one and the same update, if at all: after
    * the first change there is none. */
  lemma ChangesOnce(v6: string -> bool, run: seq<Subnet>, i: nat, j: nat)
    requires Run(v6, run) && i < j < |run| - 1 && !Kept(run[i], run[i + 1])
    ensures Kept(run[j], run[j + 1])
  {
    StepKeepsOrWidens(v6, run[i], run[i + 1]);
    StepKeepsOrWidens(v6, run[j], run[j + 1]);
    TypeGrows(v6, run, i + 1, j);
  }

  /** Every address added while the type is set is of the family the Subnet did not have. */
  lemma {:induction false} AddedFamily(v6: string -> bool, run: seq<Subnet>, i: nat, j: nat, ip: string)
    requires Run(v6, run) && i <= j < |run| && run[i].ipType != Unset
    requires ip in run[j].ipAddresses && ip !in run[i].ipAddresses
    ensures Single(run[i].ipType) && run[j].ipType == IPv4IPv6 && (v6(ip) <==> run[i].ipType == IPv4)
    decreases j - i
  {
    if i < j {
      assert Step(v6, run[i], run[i + 1]);
      if ip in run[i + 1].ipAddresses {
        assert ip in Elements(run[i + 1].ipAddresses) && ip !in Elements(run[i].ipAddresses);
        TypeGrows(v6, run, i + 1, j);
      } else {
        AddedFamily(v6, run, i + 1, j, ip);
      }
    }
  }

  /** An access mode that is set changes only in an update that adds IPv4 to an IPv6 Subnet. */
  lemma {:induction false} AccessModeChange(v6: string -> bool, run: seq<Subnet>, i: nat, j: nat)
    requires Run(v6, run) && i <= j < |run|
    requires run[i].accessMode != "" && run[j].accessMode != run[i].accessMode
    ensures exists k :: i <= k < j && run[k].ipType == IPv6 && run[k + 1].ipType == IPv4IPv6
    ensures run[j].ipType == IPv4IPv6
    decreases j - i
  {
    assert Step(v6, run[i], run[i + 1]);
    if run[i + 1].accessMode == run[i].accessMode {
      AccessModeChange(v6, run, i + 1, j);
    } else {
      TypeGrows(v6, run, i + 1, j);
    }
  }

  /** While the type is unset nothing is added, and what only the operator sets never changes. */
  lemma {:induction false} UserCannot(v6: string -> bool, run: seq<Subnet>, i: nat, j: nat)
    requires Run(v6, run) && i <= j < |run|
    ensures run[j].vpcName == run[i].vpcName && run[j].vlanConnectionName == run[i].vlanConnectionName
    ensures run[j].ipType == Unset ==>
              run[i].ipType == Unset && Elements(run[j].ipAddresses) == Elements(run[i].ipAddresses)
              && Elements(run[j].ipBlockNames) == Elements(run[i].ipBlockNames)
    decreases j - i
  {
    if i < j {
      assert Step(v6, run[i], run[i + 1]);
      UserCannot(v6, run, i + 1, j);
    }
  }
}
