/** `BICompiledAggregation` of `cmk/utils/bi/bi_trees.py`: branch-level
    evaluation (`compute_branches`) and the pure transform into the legacy
    presentation record (`eval_result_node`, `create_aggr_tree`,
    `convert_result_to_legacy_format`). */
module BiAggregation {
  import opened Wrappers
  import opened Strings
  import opened Json
  import opened BiModel
  import opened BiDependencies
  import opened BiCompute

  /** Whether a branch is evaluated with assumed states: some element it
      requires has a what-if override. */
  function UseAssumed(branch: Node, snapshot: StatusSnapshot): (r: bool)
    ensures r <==> exists e :: e in RequiredElements(branch) && e in snapshot.assumedStates
  {
    var overridden := RequiredElements(branch) * snapshot.assumedStates.Keys;
    if overridden == {} then
      assert forall e :: e in RequiredElements(branch) && e in snapshot.assumedStates ==> e in overridden;
      false
    else HasMember(overridden); true
  }

  lemma HasMember<T>(s: set<T>)
    requires s != {}
    ensures exists e :: e in s
  {
    var e :| e in s;
  }

  /** Each branch's result under its own assumed-state decision, absent ones included. */
  function BranchResults(agg: CompiledAggregation, branches: seq<Node>, snapshot: StatusSnapshot, ev: Evaluator)
    : (r: seq<Option<NodeResultBundle>>)
    ensures |r| == |branches|
  {
    seq(|branches|, i requires 0 <= i < |branches| =>
      Compute(branches[i], agg.options, snapshot, UseAssumed(branches[i], snapshot), ev))
  }

  /** `compute_branches`: evaluates the branches in order, each with assumed
      states exactly when an override touches it, and keeps the results that
      are present, in branch order. */
  method ComputeBranches(agg: CompiledAggregation, branches: seq<Node>, snapshot: StatusSnapshot, ev: Evaluator)
    returns (results: seq<NodeResultBundle>)
    ensures results == Somes(BranchResults(agg, branches, snapshot, ev))
  {
    ghost var all := BranchResults(agg, branches, snapshot, ev);
    results := [];
    var i := 0;
    while i < |branches|
      invariant 0 <= i <= |branches|
      invariant results == Somes(all[..i])
    {
      var useAssumed := UseAssumed(branches[i], snapshot);
      var result := Compute(branches[i], agg.options, snapshot, useAssumed, ev);
      assert all[i] == result;
      assert all[..i + 1] == all[..i] + [result];
      SomesAppend(all[..i], result);
      if result.Some? {
        results := results + [result.value];
      }
      i := i + 1;
    }
    assert all[..i] == all;
  }

  /** Each kept result belongs to one branch, computed with assumed states
      exactly when the branch's dependencies meet an override; a rule branch
      so computed always carries an assumed result. */
  lemma BranchResultOrigin(agg: CompiledAggregation, branches: seq<Node>, snapshot: StatusSnapshot, ev: Evaluator,
                           b: NodeResultBundle)
    requires b in Somes(BranchResults(agg, branches, snapshot, ev))
    ensures exists i :: (0 <= i < |branches| && b.instance == branches[i] &&
      Compute(branches[i], agg.options, snapshot, UseAssumed(branches[i], snapshot), ev) == Some(b))
    ensures b.instance.Rule? ==> (b.assumed.Some? <==> UseAssumed(b.instance, snapshot))
  {
    var all := BranchResults(agg, branches, snapshot, ev);
    SomesMembers(all, b);
    var i :| 0 <= i < |all| && all[i] == Some(b);
  }

  /** The gate loses nothing: every result `compute_branches` keeps has the
      same actual result and the same effective (assumed-or-actual) result as
      evaluating its branch with assumed states unconditionally. */
  lemma GateIsSound(agg: CompiledAggregation, branch: Node, snapshot: StatusSnapshot, ev: Evaluator)
    ensures var gated := Compute(branch, agg.options, snapshot, UseAssumed(branch, snapshot), ev);
      var full := Compute(branch, agg.options, snapshot, true, ev);
      && (gated.Some? <==> full.Some?)
      && (gated.Some? ==>
            && gated.value.actual == full.value.actual
            && gated.value.assumed.GetOr(gated.value.actual) == full.value.assumed.GetOr(full.value.actual))
  {
    if !UseAssumed(branch, snapshot) {
      ActualIndependentOfAssumed(branch, agg.options, snapshot, ev);
      AssumedWithoutOverridesIsActual(branch, agg.options, snapshot, ev);
    }
  }

  /** A node as the legacy GUI sees it (`eval_result_node`); type 1 is a leaf,
      type 2 a rule. */
  datatype NodeDescriptor =
    | LeafDescriptor(host: HostSpec, service: Option<ServiceName>, reqhosts: seq<HostSpec>, title: string)
    | RuleDescriptor(title: string, ruleId: string, reqhosts: seq<HostSpec>, nodes: seq<NodeDescriptor>,
                     ruleLayoutStyle: Json, icon: Option<string>)
  {
    function TypeCode(): int {
      if LeafDescriptor? then 1 else 2
    }
  }

  /** The failures of the presentation transform: `NotImplementedError` for a
      node kind without a handler, `AttributeError` when a branch result does
      not belong to a rule. */
  datatype PresentationError = UnknownNodeType | NotARule

  /** `eval_result_node`. */
  function EvalResultNode(n: Node): (r: Result<NodeDescriptor, PresentationError>)
    ensures r.Success? <==> NoRemaining(n)
    ensures r.Success? && n.Leaf? ==>
      && r.value.LeafDescriptor?
      && r.value.host == HostSpec(n.site, n.host)
      && r.value.reqhosts == LeafRequiredHosts(n)
      && (r.value.service.Some? <==> n.service.Some? && n.service.value != "")
      && (r.value.service.Some? ==> r.value.service == n.service)
      && r.value.title == (if n.service.None? then n.host else n.host + " - " + n.service.value)
    ensures r.Success? && n.Rule? ==>
      && r.value.RuleDescriptor?
      && |r.value.nodes| == |n.nodes|
      && (forall i :: 0 <= i < |n.nodes| ==> r.value.nodes[i] == EvalResultNode(n.nodes[i]).value)
      && r.value.title == n.properties.title && r.value.ruleId == n.id
      && r.value.reqhosts == n.requiredHosts
      && r.value.ruleLayoutStyle == n.nodeVisualization
      && (r.value.icon.Some? <==> n.properties.icon != "")
      && (r.value.icon.Some? ==> r.value.icon.value == n.properties.icon)
    decreases n, 1
  {
    match n
    case Leaf(site, host, service) =>
      Success(LeafDescriptor(
        HostSpec(site, host),
        if service.Some? && service.value != "" then service else None,
        LeafRequiredHosts(n),
        if service.None? then host else host + " - " + service.value))
    case Rule(id, _, nodes, requiredHosts, properties, _, nodeVisualization) =>
      (match EvalAll(nodes)
       case Failure(e) => Failure(e)
       case Success(descriptors) =>
         Success(RuleDescriptor(properties.title, id, requiredHosts, descriptors, nodeVisualization,
                                if properties.icon != "" then Some(properties.icon) else None)))
    case Remaining(_) => Failure(UnknownNodeType)
  }

  /** `list(map(self.eval_result_node, nodes))`, failing at the first failure. */
  function EvalAll(ns: seq<Node>): (r: Result<seq<NodeDescriptor>, PresentationError>)
    ensures r.Success? <==> forall i :: 0 <= i < |ns| ==> NoRemaining(ns[i])
    ensures r.Success? ==> |r.value| == |ns|
    ensures r.Success? ==> forall i :: 0 <= i < |ns| ==> r.value[i] == EvalResultNode(ns[i]).value
    decreases ns, 0
  {
    if |ns| == 0 then Success([])
    else
      match EvalResultNode(ns[0])
      case Failure(e) => Failure(e)
      case Success(first) =>
        (match EvalAll(ns[1..])
         case Failure(e) => Failure(e)
         case Success(rest) =>
           assert forall i :: 1 <= i < |ns| ==> ns[i] == ns[1..][i - 1];
           Success([first] + rest))
  }

  /** `create_aggr_tree`: the branch's descriptor with the aggregation's group
      tree, id and options attached. */
  datatype AggrTree = AggrTree(
    root: NodeDescriptor,
    aggrGroupTree: seq<string>,
    aggrType: string,
    aggregationId: string,
    downtimeAggrWarn: bool,
    useHardStates: bool,
    nodeVisualization: Json)

  /** The group paths as the GUI lists them: each path joined by "/". */
  function JoinedPaths(paths: seq<seq<string>>): (r: seq<string>)
    ensures |r| == |paths| && forall i :: 0 <= i < |r| ==> r[i] == Join(paths[i], "/")
  {
    seq(|paths|, i requires 0 <= i < |paths| => Join(paths[i], "/"))
  }

  /** `create_aggr_tree` as written: the group tree starts as the very list
      `groups.names` and is extended in place, so the call leaves the
      aggregation with the joined paths appended to its group names. */
  function CreateAggrTreeAsWritten(agg: CompiledAggregation, branch: Node)
    : (r: Result<(AggrTree, CompiledAggregation), PresentationError>)
    ensures r.Success? <==> NoRemaining(branch)
    ensures r.Success? ==>
      && r.value.0.aggrGroupTree == agg.groups.names + JoinedPaths(agg.groups.paths)
      && r.value.1 == agg.(groups := agg.groups.(names := r.value.0.aggrGroupTree))
  {
    match EvalResultNode(branch)
    case Failure(e) => Failure(e)
    case Success(root) =>
      var shared := agg.groups.names + JoinedPaths(agg.groups.paths);
      Success((AggrTree(root, shared, "multi", agg.id, agg.options.escalateDowntimesAsWarn,
                        agg.options.useHardStates, agg.visualization),
               agg.(groups := agg.groups.(names := shared))))
  }

  /** `convert_result_to_legacy_format` calls `create_aggr_tree` twice on the
      same aggregation and both trees hold the one shared list: as written,
      every group path appears twice in the result, and the aggregation's own
      group names have grown by two copies of the paths. */
  lemma GroupTreeDuplicatedAsWritten(agg: CompiledAggregation, branch: Node)
    requires NoRemaining(branch)
    ensures var first := CreateAggrTreeAsWritten(agg, branch).value;
      var second := CreateAggrTreeAsWritten(first.1, branch).value;
      && second.0.aggrGroupTree == agg.groups.names + JoinedPaths(agg.groups.paths) + JoinedPaths(agg.groups.paths)
      && (|agg.groups.paths| > 0 ==> second.0.aggrGroupTree != agg.groups.names + JoinedPaths(agg.groups.paths))
  {
    var first := CreateAggrTreeAsWritten(agg, branch).value;
    var second := CreateAggrTreeAsWritten(first.1, branch).value;
    if |agg.groups.paths| > 0 {
      assert |second.0.aggrGroupTree| > |agg.groups.names + JoinedPaths(agg.groups.paths)|;
    }
  }

  /** The smallest instance: no group names, one group path `a/b`; after one
      conversion the group tree reads `["a/b", "a/b"]`. */
  lemma GroupTreeDuplicatedExample(agg: CompiledAggregation, branch: Node)
    requires NoRemaining(branch)
    requires agg.groups == Groups([], [["a", "b"]])
    ensures var first := CreateAggrTreeAsWritten(agg, branch).value;
      CreateAggrTreeAsWritten(first.1, branch).value.0.aggrGroupTree == ["a/b", "a/b"]
  {
    assert Join(["a", "b"], "/") == "a/b" by { assert ["a", "b"][1..] == ["b"]; }
    assert JoinedPaths([["a", "b"]]) == ["a/b"];
    GroupTreeDuplicatedAsWritten(agg, branch);
  }

  /** `create_aggr_tree` as intended: the group tree is the group names
      followed by each path joined by "/", each exactly once, and the
      aggregation is left as it was. */
  function CreateAggrTree(agg: CompiledAggregation, branch: Node): (r: Result<AggrTree, PresentationError>)
    ensures r.Success? <==> NoRemaining(branch)
    ensures r.Success? ==>
      && |r.value.aggrGroupTree| == |agg.groups.names| + |agg.groups.paths|
      && r.value.aggrGroupTree[..|agg.groups.names|] == agg.groups.names
      && (forall i :: 0 <= i < |agg.groups.paths| ==>
            r.value.aggrGroupTree[|agg.groups.names| + i] == Join(agg.groups.paths[i], "/"))
      && r.value.root == EvalResultNode(branch).value
      && r.value.aggregationId == agg.id && r.value.aggrType == "multi"
      && r.value.downtimeAggrWarn == agg.options.escalateDowntimesAsWarn
      && r.value.useHardStates == agg.options.useHardStates
      && r.value.nodeVisualization == agg.visualization
  {
    match EvalResultNode(branch)
    case Failure(e) => Failure(e)
    case Success(root) =>
      Success(AggrTree(root, agg.groups.names + JoinedPaths(agg.groups.paths), "multi", agg.id,
                       agg.options.escalateDowntimesAsWarn, agg.options.useHardStates, agg.visualization))
  }

  /** `generate_state`: the legacy view of one compute result. */
  datatype StateRecord = StateRecord(state: int, acknowledged: bool, inDowntime: bool, inServicePeriod: bool, output: string)

  function GenerateState(r: NodeComputeResult): (s: StateRecord)
    ensures s.inDowntime <==> r.downtimeState > 0
    ensures s.state == r.state && s.acknowledged == r.acknowledged
    ensures s.inServicePeriod == r.inServicePeriod && s.output == r.output
  {
    StateRecord(r.state, r.acknowledged, r.downtimeState > 0, r.inServicePeriod, r.output)
  }

  function GenerateOptionalState(r: Option<NodeComputeResult>): (s: Option<StateRecord>)
    ensures s.Some? <==> r.Some?
    ensures s.Some? ==> s.value == GenerateState(r.value)
  {
    if r.Some? then Some(GenerateState(r.value)) else None
  }

  /** The third element of a tree-state tuple: the aggregation tree at the top,
      a node descriptor below it. */
  datatype TreeNodeInfo = Top(tree: AggrTree) | Nested(descriptor: NodeDescriptor)

  /** `create_tree_state`: actual state, assumed state, node, and the subtree
      list. The source appends the subtree list as a fourth tuple element only
      when the bundle has nested results; an empty `nested` stands for the
      three-element tuple. */
  datatype TreeState = TreeState(
    actual: StateRecord,
    assumed: Option<StateRecord>,
    node: TreeNodeInfo,
    nested: seq<TreeState>)

  /** Number of bundles in a result tree. */
  function BundleCount(b: NodeResultBundle): nat {
    1 + BundlesCount(b.nested)
  }

  function BundlesCount(bs: seq<NodeResultBundle>): nat {
    if |bs| == 0 then 0 else BundleCount(bs[0]) + BundlesCount(bs[1..])
  }

  /** Number of entries in a tree state. */
  function TreeStateCount(t: TreeState): nat {
    1 + TreeStatesCount(t.nested)
  }

  function TreeStatesCount(ts: seq<TreeState>): nat {
    if |ts| == 0 then 0 else TreeStateCount(ts[0]) + TreeStatesCount(ts[1..])
  }

  /** Every node a result tree refers to can be presented. */
  ghost predicate Presentable(b: NodeResultBundle) {
    NoRemaining(b.instance) && forall k :: 0 <= k < |b.nested| ==> Presentable(b.nested[k])
  }

  /** `create_tree_state` below the top: mirrors the result tree entry by entry. */
  function CreateTreeState(b: NodeResultBundle): (r: Result<TreeState, PresentationError>)
    ensures r.Success? <==> Presentable(b)
    ensures r.Success? ==>
      && r.value.actual == GenerateState(b.actual)
      && r.value.assumed == GenerateOptionalState(b.assumed)
      && r.value.node == Nested(EvalResultNode(b.instance).value)
      && |r.value.nested| == |b.nested|
      && (forall k :: 0 <= k < |b.nested| ==> r.value.nested[k] == CreateTreeState(b.nested[k]).value)
      && TreeStateCount(r.value) == BundleCount(b)
    decreases b, 1
  {
    match EvalResultNode(b.instance)
    case Failure(e) => Failure(e)
    case Success(descriptor) =>
      (match CreateTreeStates(b.nested)
       case Failure(e) => Failure(e)
       case Success(children) =>
         Success(TreeState(GenerateState(b.actual), GenerateOptionalState(b.assumed), Nested(descriptor), children)))
  }

  function CreateTreeStates(bs: seq<NodeResultBundle>): (r: Result<seq<TreeState>, PresentationError>)
    ensures r.Success? <==> forall k :: 0 <= k < |bs| ==> Presentable(bs[k])
    ensures r.Success? ==> |r.value| == |bs| && TreeStatesCount(r.value) == BundlesCount(bs)
    ensures r.Success? ==> forall k :: 0 <= k < |bs| ==> r.value[k] == CreateTreeState(bs[k]).value
    decreases bs, 0
  {
    if |bs| == 0 then Success([])
    else
      match CreateTreeState(bs[0])
      case Failure(e) => Failure(e)
      case Success(first) =>
        (match CreateTreeStates(bs[1..])
         case Failure(e) => Failure(e)
         case Success(rest) =>
           assert forall k :: 1 <= k < |bs| ==> bs[k] == bs[1..][k - 1];
           assert ([first] + rest)[1..] == rest;
           Success([first] + rest))
  }

  /** The legacy presentation record of one branch result. `tree` is the same
      value as `aggrTree`. */
  datatype LegacyRecord = LegacyRecord(
    aggrTree: AggrTree,
    aggrTreestate: TreeState,
    aggrState: StateRecord,
    aggrAssumedState: Option<StateRecord>,
    aggrEffectiveState: StateRecord,
    aggrName: string,
    aggrOutput: string,
    aggrHosts: seq<HostSpec>,
    aggrType: string,
    aggrGroup: string,
    aggrCompiledAggregation: CompiledAggregation,
    aggrCompiledBranch: Node,
    tree: AggrTree)

  /** `convert_result_to_legacy_format`, with `create_aggr_tree` as intended. */
  function ConvertResultToLegacyFormat(agg: CompiledAggregation, b: NodeResultBundle)
    : (r: Result<LegacyRecord, PresentationError>)
    ensures r.Success? <==> Presentable(b) && b.instance.Rule?
    ensures r.Success? ==>
      && r.value.tree == r.value.aggrTree
      && r.value.aggrTree == CreateAggrTree(agg, b.instance).value
      && r.value.aggrTreestate.node == Top(r.value.aggrTree)
      && r.value.aggrTreestate.actual == GenerateState(b.actual)
      && r.value.aggrTreestate.assumed == GenerateOptionalState(b.assumed)
      && |r.value.aggrTreestate.nested| == |b.nested|
      && (forall k :: 0 <= k < |b.nested| ==> r.value.aggrTreestate.nested[k] == CreateTreeState(b.nested[k]).value)
      && r.value.aggrTree.root == EvalResultNode(b.instance).value
      && r.value.aggrState == GenerateState(b.actual)
      && r.value.aggrAssumedState == GenerateOptionalState(b.assumed)
      && r.value.aggrEffectiveState == GenerateState(b.assumed.GetOr(b.actual))
      && r.value.aggrName == b.instance.properties.title
      && r.value.aggrOutput == b.actual.output
      && r.value.aggrHosts == b.instance.requiredHosts
      && r.value.aggrCompiledBranch == b.instance
      && r.value.aggrType == "multi" && r.value.aggrGroup == "dummy"
      && r.value.aggrCompiledAggregation == agg
      && TreeStateCount(r.value.aggrTreestate) == BundleCount(b)
  {
    match CreateAggrTree(agg, b.instance)
    case Failure(e) => Failure(e)
    case Success(aggrTree) =>
      match CreateTreeStates(b.nested)
      case Failure(e) => Failure(e)
      case Success(children) =>
        if !b.instance.Rule? then Failure(NotARule)
        else
          var treeState := TreeState(GenerateState(b.actual), GenerateOptionalState(b.assumed), Top(aggrTree), children);
          Success(LegacyRecord(
            aggrTree,
            treeState,
            GenerateState(b.actual),
            GenerateOptionalState(b.assumed),
            GenerateState(if b.assumed.Some? then b.assumed.value else b.actual),
            b.instance.properties.title,
            b.actual.output,
            b.instance.requiredHosts,
            "multi",
            "dummy",
            agg,
            b.instance,
            aggrTree))
  }

  /** A tree state below the top mirrors a result tree: at every entry the
      states of the bundle, the description of its node, and one child entry
      per nested bundle, in order. */
  ghost predicate Mirrors(t: TreeState, b: NodeResultBundle) {
    && NoRemaining(b.instance)
    && t.actual == GenerateState(b.actual)
    && t.assumed == GenerateOptionalState(b.assumed)
    && t.node == Nested(EvalResultNode(b.instance).value)
    && |t.nested| == |b.nested|
    && forall k :: 0 <= k < |b.nested| ==> Mirrors(t.nested[k], b.nested[k])
  }

  lemma {:induction false} TreeStateMirrors(b: NodeResultBundle)
    requires Presentable(b)
    ensures Mirrors(CreateTreeState(b).value, b)
    decreases b
  {
    var t := CreateTreeState(b).value;
    forall k | 0 <= k < |b.nested| ensures Mirrors(t.nested[k], b.nested[k]) {
      TreeStateMirrors(b.nested[k]);
    }
  }

  /** The legacy record's tree state mirrors the whole branch result: the top
      entry holds the branch's states and its aggregation tree, and every
      entry below mirrors the corresponding nested bundle. */
  lemma ConvertMirrorsResult(agg: CompiledAggregation, b: NodeResultBundle)
    requires b.instance.Rule? && Presentable(b)
    ensures var t := ConvertResultToLegacyFormat(agg, b).value.aggrTreestate;
      && t.actual == GenerateState(b.actual)
      && t.assumed == GenerateOptionalState(b.assumed)
      && t.node == Top(CreateAggrTree(agg, b.instance).value)
      && |t.nested| == |b.nested|
      && forall k :: 0 <= k < |b.nested| ==> Mirrors(t.nested[k], b.nested[k])
  {
    forall k | 0 <= k < |b.nested| ensures Presentable(b.nested[k]) && Mirrors(CreateTreeState(b.nested[k]).value, b.nested[k]) {
      TreeStateMirrors(b.nested[k]);
    }
  }
}
