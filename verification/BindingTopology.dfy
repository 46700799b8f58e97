/** Trunk and branch bindings between Subnets. The store must stay flat: no Subnet path is the
  * child of one binding and the parent of another. */
module BindingTopology {
  import opened Common

  type Path = string
  type Uid = string
  type Id = string

  /** A realised binding under host, towards target. With Branch association the target is the
    * branch, otherwise the host is. */
  datatype Edge = Edge(cr: Uid, host: Path, target: Path, branch: bool)
  {
    function Child(): Path {
      if branch then target else host
    }

    function Parent(): Path {
      if branch then host else target
    }
  }

  type Store = map<Id, Edge>

  predicate HasChild(s: Store, p: Path) {
    exists id :: id in s && s[id].Child() == p
  }

  predicate HasParent(s: Store, p: Path) {
    exists id :: id in s && s[id].Parent() == p
  }

  ghost predicate Flat(s: Store) {
    forall p :: !(HasChild(s, p) && HasParent(s, p))
  }

  // ---- What a binding refers to ----

  /** A Subnet CR: the path in its associated-resource annotation, if it has one and the path can be
    * read, its Ready condition, and the paths of the NSX Subnets created for it. */
  datatype SubnetCr = SubnetCr(shared: Option<Result<Path, string>>, ready: bool, created: seq<Path>)

  datatype Target = TargetSubnet(subnet: Option<SubnetCr>) | TargetSet(paths: Option<seq<Path>>)

  /** A binding CR with the CRs it names; None stands for a CR that cannot be fetched. */
  datatype Binding = Binding(cr: Uid, branch: bool, subnet: Option<SubnetCr>, target: Target)

  datatype Refusal = Refusal(retry: bool)

  /** The paths of a Subnet that passes every check but the one against the store. */
  function Realized(subnet: Option<SubnetCr>, isParent: bool): (r: Option<seq<Path>>)
    ensures r.Some? ==> r.value != []
  {
    match subnet
    case None => None
    case Some(SubnetCr(Some(path), ready, _)) => if !isParent && ready && path.Ok? then Some([path.value]) else None
    case Some(SubnetCr(None, _, created)) => if created != [] then Some(created) else None
  }

  // ---- What is checked, and what is wanted ----

  /** The paths of the host side, and of the target side; none if the side cannot be used. */
  function HostPaths(b: Binding): seq<Path> {
    if Realized(b.subnet, b.branch).Some? then Realized(b.subnet, b.branch).value else []
  }

  function TargetPaths(b: Binding): seq<Path> {
    match b.target
    case TargetSubnet(t) => if Realized(t, !b.branch).Some? then Realized(t, !b.branch).value else []
    case TargetSet(paths) => if paths.Some? then paths.value else []
  }

  /** Both sides are realised; what else validateDependency asks is asked of the store. */
  predicate Admissible(b: Binding) {
    HostPaths(b) != [] && TargetPaths(b) != []
  }

  /** One read of the store: whether a path that is to be parent is a child, or the other way round. */
  datatype Lookup = Lookup(path: Path, isParent: bool)

  predicate Clash(f: Edge, c: Lookup) {
    (if c.isParent then f.Child() else f.Parent()) == c.path
  }

  predicate Passes(s: Store, c: Lookup) {
    forall id :: id in s ==> !Clash(s[id], c)
  }

  function Lookups(paths: seq<Path>, isParent: bool): seq<Lookup> {
    seq(|paths|, i requires 0 <= i < |paths| => Lookup(paths[i], isParent))
  }

  /** The reads that validateDependency makes, in order. The paths of a SubnetSet are not looked up. */
  function Checks(b: Binding): seq<Lookup> {
    Lookups(HostPaths(b), b.branch)
    + if b.target.TargetSubnet? then Lookups(TargetPaths(b), !b.branch) else []
  }

  /** The bindings wanted on NSX: under the first path of the host, one per target. */
  predicate Desired(b: Binding, e: Edge) {
    && e.cr == b.cr && e.branch == b.branch && e.target in TargetPaths(b)
    && HostPaths(b) != [] && e.host == HostPaths(b)[0]
  }

  /** A Subnet CR that can take the role offers this path: a pre-created Subnet is never a parent and has to be
    * ready, any other offers the paths of the NSX Subnets created for it. */
  predicate Offers(subnet: Option<SubnetCr>, isParent: bool, p: Path) {
    subnet.Some?
    && match subnet.value.shared
       case Some(path) => !isParent && subnet.value.ready && path == Ok(p)
       case None => p in subnet.value.created
  }

  /** The first path that it offers. */
  predicate OffersFirst(subnet: Option<SubnetCr>, isParent: bool, p: Path) {
    Offers(subnet, isParent, p) && (subnet.value.shared.None? ==> p == subnet.value.created[0])
  }

  /** What is wanted, on the CRs: the host's first path, every path of the target, and with Branch association the
    * host as parent, otherwise the target. */
  lemma DesiredExactly(b: Binding, e: Edge)
    ensures Desired(b, e)
            <==> && e.cr == b.cr && e.branch == b.branch && OffersFirst(b.subnet, b.branch, e.host)
                 && match b.target
                    case TargetSubnet(t) => Offers(t, !b.branch, e.target)
                    case TargetSet(paths) => paths.Some? && e.target in paths.value
  {
    RealizedOffers(b.subnet, b.branch, e.host);
    if b.target.TargetSubnet? {
      RealizedOffers(b.target.subnet, !b.branch, e.target);
    }
  }

  lemma RealizedOffers(subnet: Option<SubnetCr>, isParent: bool, p: Path)
    ensures Offers(subnet, isParent, p)
            <==> Realized(subnet, isParent).Some? && p in Realized(subnet, isParent).value
    ensures OffersFirst(subnet, isParent, p)
            <==> Realized(subnet, isParent).Some? && p == Realized(subnet, isParent).value[0]
  {
    if Realized(subnet, isParent).Some? {
      assert Realized(subnet, isParent).value[0] in Realized(subnet, isParent).value;
    }
  }

  /** No path is on both sides of the binding. */
  predicate Apart(b: Binding) {
    forall p, q :: p in HostPaths(b) && q in TargetPaths(b) ==> p != q
  }

  /** The end of e at its host, or at its target, is an end of the other kind of f. */
  predicate MeetAtHost(f: Edge, e: Edge) {
    Clash(f, Lookup(e.host, e.branch))
  }

  predicate MeetAtTarget(f: Edge, e: Edge) {
    Clash(f, Lookup(e.target, !e.branch))
  }

  /** The read is about an end of e. */
  predicate EndOf(e: Edge, c: Lookup) {
    c == Lookup(e.host, e.branch) || c == Lookup(e.target, !e.branch)
  }

  /** Two wanted edges of one binding do not meet. */
  lemma DesiredApart(b: Binding, e: Edge, f: Edge)
    requires Apart(b) && Desired(b, e) && Desired(b, f)
    ensures e.Child() != f.Parent() && !MeetAtHost(f, e) && !MeetAtTarget(f, e)
  {
    assert e.host in HostPaths(b);
  }

  /** Every end of a wanted edge is looked up, unless it is the target of a SubnetSet. */
  lemma EndsChecked(b: Binding, e: Edge)
    requires Desired(b, e)
    ensures Lookup(e.host, e.branch) in Checks(b)
    ensures b.target.TargetSubnet? ==> Lookup(e.target, !e.branch) in Checks(b)
  {
    assert Checks(b)[0] == Lookup(e.host, e.branch);
    if b.target.TargetSubnet? {
      var j :| 0 <= j < |TargetPaths(b)| && TargetPaths(b)[j] == e.target;
      assert Checks(b)[|HostPaths(b)| + j] == Lookup(e.target, !e.branch);
    }
  }
}
