/** The compile post-pass of `cmk/utils/bi/bi_trees.py` (`compile_postprocess`):
    a flat-map over the tree that expands every `Remaining` wildcard into
    sorted leaves for the services nobody else in the branch claims. */
module BiCompile {
  import opened Wrappers
  import opened Strings
  import opened BiModel
  import opened BiDependencies

  /** One host as the inventory searcher knows it. */
  datatype SearcherHost = SearcherHost(siteId: SiteId, services: seq<ServiceName>)

  /** The part of `ABCBISearcher` the post-pass reads: `hosts`. */
  datatype Searcher = Searcher(hosts: map<HostName, SearcherHost>)

  /** `bi_searcher.hosts[host_name]` raises `KeyError` for an unknown host. */
  datatype CompileError = UnknownHost(host: HostName)

  /** `_get_comparable_name`: the sort key of a node. A leaf is keyed by
      `site:host:service` with an absent site or service written as "". */
  function ComparableName(n: Node): (k: string)
    ensures n.Remaining? ==> k == ""
    ensures n.Rule? ==> k == n.properties.title
  {
    match n
    case Leaf(site, host, service) => Join([site.GetOr(""), host, service.GetOr("")], ":")
    case Rule(_, _, _, _, properties, _, _) => properties.title
    case Remaining(_) => ""
  }

  predicate Sorted(s: seq<Node>) {
    forall i, j :: 0 <= i < j < |s| ==> LessEq(ComparableName(s[i]), ComparableName(s[j]))
  }

  /** Inserts `x` in front of the first element it sorts before or equal to. */
  function Insert(x: Node, s: seq<Node>): (r: seq<Node>)
    requires Sorted(s)
    ensures Sorted(r)
    ensures multiset(r) == multiset(s) + multiset{x}
  {
    if |s| == 0 then [x]
    else if LessEq(ComparableName(x), ComparableName(s[0])) then
      InsertFrontSorted(x, s);
      [x] + s
    else
      LessEqTotal(ComparableName(x), ComparableName(s[0]));
      var rest := Insert(x, s[1..]);
      assert s == [s[0]] + s[1..];
      HeadBelowAll(s[0], rest, s[1..], x);
      [s[0]] + rest
  }

  lemma InsertFrontSorted(x: Node, s: seq<Node>)
    requires Sorted(s) && |s| > 0
    requires LessEq(ComparableName(x), ComparableName(s[0]))
    ensures Sorted([x] + s)
  {
    forall j | 0 < j <= |s|
      ensures LessEq(ComparableName(x), ComparableName(([x] + s)[j]))
    {
      if j > 1 {
        LessEqTransitive(ComparableName(x), ComparableName(s[0]), ComparableName(s[j - 1]));
      }
    }
  }

  lemma HeadBelowAll(h: Node, rest: seq<Node>, tail: seq<Node>, x: Node)
    requires Sorted(rest) && Sorted([h] + tail)
    requires multiset(rest) == multiset(tail) + multiset{x}
    requires LessEq(ComparableName(h), ComparableName(x))
    ensures Sorted([h] + rest)
  {
    forall j | 0 <= j < |rest|
      ensures LessEq(ComparableName(h), ComparableName(rest[j]))
    {
      assert rest[j] in multiset(rest);
      if rest[j] != x {
        assert rest[j] in multiset(tail);
        var k :| 0 <= k < |tail| && tail[k] == rest[j];
        assert ([h] + tail)[k + 1] == tail[k];
        assert LessEq(ComparableName(([h] + tail)[0]), ComparableName(([h] + tail)[k + 1]));
      }
    }
  }

  /** The ordering `postprocessed_nodes.sort()` establishes (an insertion sort;
      any stable sort gives the same sequence). */
  function SortNodes(s: seq<Node>): (r: seq<Node>)
    ensures Sorted(r)
    ensures multiset(r) == multiset(s)
  {
    if |s| == 0 then []
    else
      assert s == [s[0]] + s[1..];
      Insert(s[0], SortNodes(s[1..]))
  }

  /** The services of `services` not in `excluded`, each once, in first-seen
      order: the iteration over `set(services) - used_services`. */
  function Unused(services: seq<ServiceName>, excluded: set<ServiceName>): (r: seq<ServiceName>)
    ensures forall s :: s in r <==> s in services && s !in excluded
    ensures forall i, j :: 0 <= i < j < |r| ==> r[i] != r[j]
    ensures forall i :: 0 <= i < |r| ==> r[i] !in excluded
  {
    if |services| == 0 then []
    else if services[0] in excluded then Unused(services[1..], excluded)
    else [services[0]] + Unused(services[1..], excluded + {services[0]})
  }

  /** `services_of_host.get(host_name, set())`. */
  function UsedServices(used: map<HostName, set<ServiceName>>, h: HostName): set<ServiceName> {
    if h in used then used[h] else {}
  }

  /** The leaves a `Remaining` node emits for one host, before sorting. */
  function HostLeaves(h: HostName, site: SiteId, services: seq<ServiceName>): (r: seq<Node>)
    ensures |r| == |services|
    ensures forall i :: 0 <= i < |r| ==> r[i] == Leaf(Some(site), h, Some(services[i]))
  {
    seq(|services|, i requires 0 <= i < |services| => Leaf(Some(site), h, Some(services[i])))
  }

  /** The unsorted output of `BIRemainingResult.compile_postprocess`, failing on
      the first host the searcher does not know. */
  function ExpandHosts(hosts: seq<HostName>, used: map<HostName, set<ServiceName>>, searcher: Searcher)
    : (r: Result<seq<Node>, CompileError>)
    ensures r.Success? <==> forall i :: 0 <= i < |hosts| ==> hosts[i] in searcher.hosts
    ensures r.Failure? ==> r.error.host in hosts && r.error.host !in searcher.hosts
  {
    if |hosts| == 0 then Success([])
    else if hosts[0] !in searcher.hosts then Failure(UnknownHost(hosts[0]))
    else
      var entry := searcher.hosts[hosts[0]];
      var here := HostLeaves(hosts[0], entry.siteId, Unused(entry.services, UsedServices(used, hosts[0])));
      match ExpandHosts(hosts[1..], used, searcher)
      case Failure(e) => Failure(e)
      case Success(rest) =>
        assert forall i :: 1 <= i < |hosts| ==> hosts[i] == hosts[1..][i - 1];
        Success(here + rest)
  }

  /** `compile_postprocess`: a leaf maps to itself, a rule to itself with its
      children flat-mapped in order, a remaining node to sorted leaves.
      Whatever comes out is free of `Remaining`. */
  function CompilePostprocess(n: Node, used: map<HostName, set<ServiceName>>, searcher: Searcher)
    : (r: Result<seq<Node>, CompileError>)
    ensures r.Success? ==> forall i :: 0 <= i < |r.value| ==> NoRemaining(r.value[i])
    ensures n.Leaf? ==> r == Success([n])
    ensures n.Rule? && r.Success? ==> |r.value| == 1 && r.value[0].Rule? && r.value[0] == n.(nodes := r.value[0].nodes)
    ensures n.Remaining? && r.Success? ==> Sorted(r.value)
    decreases n, 1
  {
    match n
    case Leaf(_, _, _) => Success([n])
    case Rule(_, _, nodes, _, _, _, _) =>
      (match CompileAll(nodes, used, searcher)
       case Failure(e) => Failure(e)
       case Success(children) => Success([n.(nodes := children)]))
    case Remaining(hosts) =>
      match ExpandHosts(hosts, used, searcher)
      case Failure(e) => Failure(e)
      case Success(leaves) =>
        var sorted := SortNodes(leaves);
        forall i | 0 <= i < |sorted| ensures NoRemaining(sorted[i]) {
          assert sorted[i] in multiset(leaves);
          ExpandedAreLeaves(hosts, used, searcher, sorted[i]);
        }
        Success(sorted)
  }

  /** The children's post-pass concatenated in order (the list comprehension of
      `BICompiledRule.compile_postprocess`). */
  function CompileAll(ns: seq<Node>, used: map<HostName, set<ServiceName>>, searcher: Searcher)
    : (r: Result<seq<Node>, CompileError>)
    ensures r.Success? ==> forall i :: 0 <= i < |r.value| ==> NoRemaining(r.value[i])
    decreases ns, 0
  {
    if |ns| == 0 then Success([])
    else
      match CompilePostprocess(ns[0], used, searcher)
      case Failure(e) => Failure(e)
      case Success(first) =>
        (match CompileAll(ns[1..], used, searcher)
         case Failure(e) => Failure(e)
         case Success(rest) => Success(first + rest))
  }

  /** A node's post-pass output, empty when the post-pass fails. */
  function CompiledOrEmpty(n: Node, used: map<HostName, set<ServiceName>>, searcher: Searcher): (r: seq<Node>)
    ensures CompilePostprocess(n, used, searcher).Success? ==> r == CompilePostprocess(n, used, searcher).value
    ensures CompilePostprocess(n, used, searcher).Failure? ==> r == []
  {
    match CompilePostprocess(n, used, searcher)
    case Success(v) => v
    case Failure(_) => []
  }

  /** The post-pass output of each node, in order. */
  function CompiledEach(ns: seq<Node>, used: map<HostName, set<ServiceName>>, searcher: Searcher)
    : (r: seq<seq<Node>>)
    ensures |r| == |ns|
    ensures forall i :: 0 <= i < |ns| ==> r[i] == CompiledOrEmpty(ns[i], used, searcher)
  {
    if |ns| == 0 then []
    else
      var rest := CompiledEach(ns[1..], used, searcher);
      assert forall i :: 1 <= i < |ns| ==> ns[i] == ns[1..][i - 1];
      [CompiledOrEmpty(ns[0], used, searcher)] + rest
  }

  /** `CompileAll` is the flat-map of the post-pass: it succeeds exactly when
      every child's post-pass succeeds, and then yields their outputs
      concatenated in child order. */
  lemma {:induction false} CompileAllFlatMap(ns: seq<Node>, used: map<HostName, set<ServiceName>>, searcher: Searcher)
    ensures CompileAll(ns, used, searcher).Success? <==>
      forall i :: 0 <= i < |ns| ==> CompilePostprocess(ns[i], used, searcher).Success?
    ensures CompileAll(ns, used, searcher).Success? ==>
      CompileAll(ns, used, searcher).value == Concat(CompiledEach(ns, used, searcher))
  {
    if |ns| > 0 {
      CompileAllFlatMap(ns[1..], used, searcher);
      assert forall i :: 1 <= i < |ns| ==> ns[i] == ns[1..][i - 1];
      assert CompiledEach(ns, used, searcher)[1..] == CompiledEach(ns[1..], used, searcher);
    }
  }

  /** A rule compiles to itself with its children's outputs concatenated in
      child order, and fails exactly when one of its children fails. */
  lemma RuleCompilesChildren(n: Node, used: map<HostName, set<ServiceName>>, searcher: Searcher)
    requires n.Rule?
    ensures CompilePostprocess(n, used, searcher).Success? <==>
      forall i :: 0 <= i < |n.nodes| ==> CompilePostprocess(n.nodes[i], used, searcher).Success?
    ensures CompilePostprocess(n, used, searcher).Success? ==>
      CompilePostprocess(n, used, searcher).value == [n.(nodes := Concat(CompiledEach(n.nodes, used, searcher)))]
  {
    CompileAllFlatMap(n.nodes, used, searcher);
  }

  /** What the post-pass of the child `c` contributes to its parent: a leaf
      itself, a rule its compiled form, a remaining node the leaves for the
      unclaimed services of its hosts. */
  ghost predicate Contributes(c: Node, x: Node, used: map<HostName, set<ServiceName>>, searcher: Searcher) {
    match c
    case Leaf(_, _, _) => x == c
    case Rule(_, _, _, _, _, _, _) =>
      CompilePostprocess(c, used, searcher).Success? && x == CompilePostprocess(c, used, searcher).value[0]
    case Remaining(hosts) => exists h, s :: h in hosts && h in searcher.hosts && ExpectedLeaf(h, s, used, searcher, x)
  }

  lemma ContributesIff(c: Node, x: Node, used: map<HostName, set<ServiceName>>, searcher: Searcher)
    requires CompilePostprocess(c, used, searcher).Success?
    ensures x in CompilePostprocess(c, used, searcher).value <==> Contributes(c, x, used, searcher)
  {
    if c.Remaining? {
      RemainingExpansion(c, used, searcher, x);
    }
  }

  /** The nodes a successful flat-map yields are exactly those its children
      contribute: every leaf child survives, every rule child appears compiled,
      and nothing else appears but the expected leaves of remaining children. */
  lemma CompileAllMembers(ns: seq<Node>, used: map<HostName, set<ServiceName>>, searcher: Searcher, x: Node)
    requires CompileAll(ns, used, searcher).Success?
    ensures x in CompileAll(ns, used, searcher).value <==>
      exists i :: 0 <= i < |ns| && Contributes(ns[i], x, used, searcher)
  {
    CompileAllFlatMap(ns, used, searcher);
    var each := CompiledEach(ns, used, searcher);
    ConcatMembers(each, x);
    forall i | 0 <= i < |ns| ensures x in each[i] <==> Contributes(ns[i], x, used, searcher) {
      ContributesIff(ns[i], x, used, searcher);
    }
  }

  /** Every node `ExpandHosts` emits is a leaf on a listed host, for a service
      the searcher lists and nobody claims, on the searcher's site; and every
      such service is emitted. */
  lemma {:induction false} ExpandedAreLeaves(hosts: seq<HostName>, used: map<HostName, set<ServiceName>>,
                                             searcher: Searcher, l: Node)
    requires ExpandHosts(hosts, used, searcher).Success?
    ensures l in ExpandHosts(hosts, used, searcher).value <==>
      exists h, s :: h in hosts && h in searcher.hosts && ExpectedLeaf(h, s, used, searcher, l)
  {
    if |hosts| > 0 {
      var entry := searcher.hosts[hosts[0]];
      var svcs := Unused(entry.services, UsedServices(used, hosts[0]));
      var here := HostLeaves(hosts[0], entry.siteId, svcs);
      ExpandedAreLeaves(hosts[1..], used, searcher, l);
      if l in here {
        var i :| 0 <= i < |here| && here[i] == l;
        assert ExpectedLeaf(hosts[0], svcs[i], used, searcher, l);
      }
      if exists h, s :: h in hosts && h in searcher.hosts && ExpectedLeaf(h, s, used, searcher, l) {
        var h, s :| h in hosts && h in searcher.hosts && ExpectedLeaf(h, s, used, searcher, l);
        if h == hosts[0] {
          var i :| 0 <= i < |svcs| && svcs[i] == s;
          assert here[i] == l;
        } else {
          assert h in hosts[1..];
        }
      }
    }
  }

  /** `l` is the leaf a `Remaining` node on host `h` emits for service `s`. */
  ghost predicate ExpectedLeaf(h: HostName, s: ServiceName, used: map<HostName, set<ServiceName>>,
                               searcher: Searcher, l: Node)
    requires h in searcher.hosts
  {
    && s in searcher.hosts[h].services
    && s !in UsedServices(used, h)
    && l == Leaf(Some(searcher.hosts[h].siteId), h, Some(s))
  }

  /** A `Remaining` node compiles to exactly the leaves for the unclaimed
      services of its hosts, sorted, and fails exactly when one of its hosts is
      unknown to the searcher. */
  lemma RemainingExpansion(n: Node, used: map<HostName, set<ServiceName>>, searcher: Searcher, l: Node)
    requires n.Remaining?
    ensures CompilePostprocess(n, used, searcher).Success? <==>
      forall i :: 0 <= i < |n.hostNames| ==> n.hostNames[i] in searcher.hosts
    ensures CompilePostprocess(n, used, searcher).Success? ==>
      && Sorted(CompilePostprocess(n, used, searcher).value)
      && (l in CompilePostprocess(n, used, searcher).value <==>
          exists h, s :: h in n.hostNames && h in searcher.hosts && ExpectedLeaf(h, s, used, searcher, l))
  {
    var r := CompilePostprocess(n, used, searcher);
    if r.Success? {
      var leaves := ExpandHosts(n.hostNames, used, searcher).value;
      assert multiset(r.value) == multiset(leaves);
      assert l in r.value <==> l in multiset(leaves);
      ExpandedAreLeaves(n.hostNames, used, searcher, l);
    }
  }

  /** Each unclaimed service of a host is emitted once per listing of the host. */
  lemma {:induction false} ExpandedDistinct(hosts: seq<HostName>, used: map<HostName, set<ServiceName>>, searcher: Searcher)
    requires ExpandHosts(hosts, used, searcher).Success?
    requires forall i, j :: 0 <= i < j < |hosts| ==> hosts[i] != hosts[j]
    ensures var r := ExpandHosts(hosts, used, searcher).value;
      forall i, j :: 0 <= i < j < |r| ==> r[i] != r[j]
  {
    if |hosts| > 0 {
      var entry := searcher.hosts[hosts[0]];
      var svcs := Unused(entry.services, UsedServices(used, hosts[0]));
      var here := HostLeaves(hosts[0], entry.siteId, svcs);
      var rest := ExpandHosts(hosts[1..], used, searcher).value;
      ExpandedDistinct(hosts[1..], used, searcher);
      var r := here + rest;
      assert ExpandHosts(hosts, used, searcher).value == r;
      forall i, j | 0 <= i < j < |r| ensures r[i] != r[j] {
        if i < |here| && j >= |here| {
          ExpandedAreLeaves(hosts[1..], used, searcher, r[j]);
          assert r[j] in rest;
          var h, s :| h in hosts[1..] && h in searcher.hosts && ExpectedLeaf(h, s, used, searcher, r[j]);
          assert h != hosts[0];
        }
      }
    }
  }

  /** A tree that has already been compiled is a fixed point of the post-pass. */
  lemma {:induction false} CompileFixesCompiled(n: Node, used: map<HostName, set<ServiceName>>, searcher: Searcher)
    requires NoRemaining(n)
    ensures CompilePostprocess(n, used, searcher) == Success([n])
    decreases n, 1
  {
    if n.Rule? {
      CompileAllFixesCompiled(n.nodes, used, searcher);
      assert n.(nodes := n.nodes) == n;
    }
  }

  lemma {:induction false} CompileAllFixesCompiled(ns: seq<Node>, used: map<HostName, set<ServiceName>>, searcher: Searcher)
    requires forall i :: 0 <= i < |ns| ==> NoRemaining(ns[i])
    ensures CompileAll(ns, used, searcher) == Success(ns)
    decreases ns, 0
  {
    if |ns| > 0 {
      CompileFixesCompiled(ns[0], used, searcher);
      CompileAllFixesCompiled(ns[1..], used, searcher);
      assert [ns[0]] + ns[1..] == ns;
    }
  }

  /** The example of a wildcard next to an explicit leaf: host H has CPU, Disk
      and Mem, a sibling leaf claims CPU, so the wildcard yields Disk and Mem in
      that order and never CPU again. */
  lemma WildcardExample()
    ensures
      var searcher := Searcher(map["H" := SearcherHost("s", ["CPU", "Disk", "Mem"])]);
      var used := map["H" := {"CPU"}];
      CompilePostprocess(Remaining(["H"]), used, searcher)
        == Success([Leaf(Some("s"), "H", Some("Disk")), Leaf(Some("s"), "H", Some("Mem"))])
  {
    var searcher := Searcher(map["H" := SearcherHost("s", ["CPU", "Disk", "Mem"])]);
    var used := map["H" := {"CPU"}];
    var disk := Leaf(Some("s"), "H", Some("Disk"));
    var mem := Leaf(Some("s"), "H", Some("Mem"));
    ExampleExpansion();
    ExampleOrder();
    assert [disk, mem][1..] == [mem];
    assert SortNodes([mem]) == [mem];
    assert Insert(disk, [mem]) == [disk, mem];
    assert SortNodes([disk, mem]) == [disk, mem];
    assert ExpandHosts(["H"], used, searcher).value == [disk, mem];
  }

  lemma ExampleExpansion()
    ensures ExpandHosts(["H"], map["H" := {"CPU"}], Searcher(map["H" := SearcherHost("s", ["CPU", "Disk", "Mem"])]))
      == Success([Leaf(Some("s"), "H", Some("Disk")), Leaf(Some("s"), "H", Some("Mem"))])
  {
    var searcher := Searcher(map["H" := SearcherHost("s", ["CPU", "Disk", "Mem"])]);
    var used := map["H" := {"CPU"}];
    assert Unused(["CPU", "Disk", "Mem"], {"CPU"}) == ["Disk", "Mem"] by {
      assert ["CPU", "Disk", "Mem"][1..] == ["Disk", "Mem"];
      assert ["Disk", "Mem"][1..] == ["Mem"];
    }
    var disk := Leaf(Some("s"), "H", Some("Disk"));
    var mem := Leaf(Some("s"), "H", Some("Mem"));
    assert ["H"][1..] == [];
    assert searcher.hosts["H"] == SearcherHost("s", ["CPU", "Disk", "Mem"]);
    assert UsedServices(used, "H") == {"CPU"};
    var here := HostLeaves("H", "s", Unused(["CPU", "Disk", "Mem"], {"CPU"}));
    assert here == [disk, mem];
    assert ExpandHosts([], used, searcher) == Success([]);
    assert ExpandHosts(["H"], used, searcher) == Success(here + []);
    assert here + [] == [disk, mem];
  }

  lemma ExampleOrder()
    ensures LessEq(ComparableName(Leaf(Some("s"), "H", Some("Disk"))), ComparableName(Leaf(Some("s"), "H", Some("Mem"))))
  {
    assert ComparableName(Leaf(Some("s"), "H", Some("Disk"))) == "s:H:Disk" by {
      assert ["s", "H", "Disk"][1..] == ["H", "Disk"] && ["H", "Disk"][1..] == ["Disk"];
    }
    assert ComparableName(Leaf(Some("s"), "H", Some("Mem"))) == "s:H:Mem" by {
      assert ["s", "H", "Mem"][1..] == ["H", "Mem"] && ["H", "Mem"][1..] == ["Mem"];
    }
    assert LessEq("s:H:Disk", "s:H:Mem") by {
      assert "s:H:Disk"[1..] == ":H:Disk" && "s:H:Mem"[1..] == ":H:Mem";
      assert ":H:Disk"[1..] == "H:Disk" && ":H:Mem"[1..] == "H:Mem";
      assert "H:Disk"[1..] == ":Disk" && "H:Mem"[1..] == ":Mem";
      assert ":Disk"[1..] == "Disk" && ":Mem"[1..] == "Mem";
    }
  }
}
