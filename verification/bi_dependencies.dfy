/** Dependency sets of compiled BI nodes: `required_elements` and
    `services_of_host` (`cmk/utils/bi/bi_trees.py`). Both are related to
    `Leaves`, an independent left-to-right listing of a tree's leaves. */
module BiDependencies {
  import opened Wrappers
  import opened BiModel

  /** The leaves of a tree, left to right. */
  function Leaves(n: Node): (r: seq<Node>)
    ensures forall i :: 0 <= i < |r| ==> r[i].Leaf?
    decreases n, 1
  {
    match n
    case Leaf(_, _, _) => [n]
    case Rule(_, _, nodes, _, _, _, _) => LeavesOf(nodes)
    case Remaining(_) => []
  }

  function LeavesOf(ns: seq<Node>): (r: seq<Node>)
    ensures forall i :: 0 <= i < |r| ==> r[i].Leaf?
    decreases ns, 0
  {
    if |ns| == 0 then [] else Leaves(ns[0]) + LeavesOf(ns[1..])
  }

  lemma {:induction false} LeavesOfMembers(ns: seq<Node>, l: Node)
    ensures l in LeavesOf(ns) <==> exists i :: 0 <= i < |ns| && l in Leaves(ns[i])
  {
    if |ns| > 0 {
      LeavesOfMembers(ns[1..], l);
      if l in LeavesOf(ns[1..]) {
        var i :| 0 <= i < |ns[1..]| && l in Leaves(ns[1..][i]);
        assert l in Leaves(ns[i + 1]);
      }
      if exists i :: 0 <= i < |ns| && l in Leaves(ns[i]) {
        var i :| 0 <= i < |ns| && l in Leaves(ns[i]);
        if i > 0 {
          assert ns[1..][i - 1] == ns[i];
        }
      }
    }
  }

  /** The element a leaf stands for. */
  function ElementOf(l: Node): (e: RequiredElement)
    requires l.Leaf?
    ensures e.host == l.host && e.site == l.site && e.service == l.service
  {
    RequiredElement(l.site, l.host, l.service)
  }

  /** `required_elements`: a leaf requires itself, a rule the union of what its
      children require, a remaining node nothing. */
  function RequiredElements(n: Node): (r: set<RequiredElement>)
    ensures n.Leaf? ==> r == {ElementOf(n)}
    ensures n.Remaining? ==> r == {}
  {
    match n
    case Leaf(site, host, service) => {RequiredElement(site, host, service)}
    case Rule(_, _, nodes, _, _, _, _) =>
      set i, e | 0 <= i < |nodes| && e in RequiredElements(nodes[i]) :: e
    case Remaining(_) => {}
  }

  /** A rule requires exactly what one of its children requires. */
  lemma RuleRequiresUnionOfChildren(n: Node, e: RequiredElement)
    requires n.Rule?
    ensures e in RequiredElements(n) <==> exists i :: 0 <= i < |n.nodes| && e in RequiredElements(n.nodes[i])
  {
  }

  /** The dependency set is exactly the set of elements of the tree's leaves. */
  lemma {:induction false} RequiredElementsAreLeaves(n: Node, e: RequiredElement)
    ensures e in RequiredElements(n) <==> exists l :: l in Leaves(n) && ElementOf(l) == e
  {
    match n
    case Leaf(_, _, _) =>
    case Remaining(_) =>
    case Rule(_, _, nodes, _, _, _, _) =>
      if e in RequiredElements(n) {
        var i :| 0 <= i < |nodes| && e in RequiredElements(nodes[i]);
        RequiredElementsAreLeaves(nodes[i], e);
        var l :| l in Leaves(nodes[i]) && ElementOf(l) == e;
        LeavesOfMembers(nodes, l);
      }
      if exists l :: l in Leaves(n) && ElementOf(l) == e {
        var l :| l in Leaves(n) && ElementOf(l) == e;
        LeavesOfMembers(nodes, l);
        var i :| 0 <= i < |nodes| && l in Leaves(nodes[i]);
        RequiredElementsAreLeaves(nodes[i], e);
      }
  }

  /** `services_of_host(host_name)`: the non-empty service names the tree's
      leaves claim on that host. */
  function ServicesOfHost(n: Node, h: HostName): (r: set<ServiceName>)
    ensures n.Leaf? ==> (r != {} <==> n.host == h && n.service.Some? && n.service.value != "")
    ensures n.Remaining? ==> r == {}
  {
    match n
    case Leaf(_, host, service) =>
      if host == h && service.Some? && service.value != "" then {service.value} else {}
    case Rule(_, _, nodes, _, _, _, _) =>
      set i, s | 0 <= i < |nodes| && s in ServicesOfHost(nodes[i], h) :: s
    case Remaining(_) => {}
  }

  /** The services claimed on a host are exactly those of the leaves on that
      host whose service name is non-empty. */
  lemma {:induction false} ServicesOfHostAreLeaves(n: Node, h: HostName, s: ServiceName)
    ensures s in ServicesOfHost(n, h) <==>
      exists l :: l in Leaves(n) && l.host == h && l.service == Some(s) && s != ""
  {
    match n
    case Leaf(_, _, _) =>
    case Remaining(_) =>
    case Rule(_, _, nodes, _, _, _, _) =>
      if s in ServicesOfHost(n, h) {
        var i :| 0 <= i < |nodes| && s in ServicesOfHost(nodes[i], h);
        ServicesOfHostAreLeaves(nodes[i], h, s);
        var l :| l in Leaves(nodes[i]) && l.host == h && l.service == Some(s) && s != "";
        LeavesOfMembers(nodes, l);
      }
      if exists l :: l in Leaves(n) && l.host == h && l.service == Some(s) && s != "" {
        var l :| l in Leaves(n) && l.host == h && l.service == Some(s) && s != "";
        LeavesOfMembers(nodes, l);
        var i :| 0 <= i < |nodes| && l in Leaves(nodes[i]);
        ServicesOfHostAreLeaves(nodes[i], h, s);
      }
  }

  /** Every claimed service is also a required element of the tree, on some site. */
  lemma ClaimedServicesAreRequired(n: Node, h: HostName, s: ServiceName)
    requires s in ServicesOfHost(n, h)
    ensures exists site :: RequiredElement(site, h, Some(s)) in RequiredElements(n)
  {
    ServicesOfHostAreLeaves(n, h, s);
    var l :| l in Leaves(n) && l.host == h && l.service == Some(s) && s != "";
    RequiredElementsAreLeaves(n, ElementOf(l));
  }
}
