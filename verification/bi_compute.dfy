/** Evaluation of compiled BI trees against a status snapshot (`compute` of
    `BICompiledLeaf`, `BICompiledRule` and `BIRemainingResult` in
    `cmk/utils/bi/bi_trees.py`). */
module BiCompute {
  import opened Wrappers
  import opened Strings
  import opened BiModel
  import opened BiDependencies

  /** `_get_entity`: the host row for a host leaf, the service row for a
      service leaf, absent when either is missing. */
  function GetEntity(n: Node, snapshot: StatusSnapshot): (r: Option<EntityStatus>)
    requires n.Leaf?
    ensures r.Some? <==>
      && HostSpec(n.site, n.host) in snapshot.states
      && (n.service.Some? ==> n.service.value in snapshot.states[HostSpec(n.site, n.host)].servicesWithFullstate)
    ensures r.Some? && n.service.None? ==> r.value == snapshot.states[HostSpec(n.site, n.host)].entity
    ensures r.Some? && n.service.Some? ==>
      r.value == snapshot.states[HostSpec(n.site, n.host)].servicesWithFullstate[n.service.value]
  {
    var key := HostSpec(n.site, n.host);
    if key !in snapshot.states then None
    else if n.service.None? then Some(snapshot.states[key].entity)
    else if n.service.value in snapshot.states[key].servicesWithFullstate then
      Some(snapshot.states[key].servicesWithFullstate[n.service.value])
    else None
  }

  /** `_map_hoststate_to_bistate`: UP is OK, DOWN is CRIT, everything else UNKNOWN. */
  function MapHostStateToBiState(hostState: int, codes: StateCodes): (r: int)
    ensures r == codes.ok || r == codes.crit || r == codes.unknown
    ensures hostState == codes.hostUp ==> r == codes.ok
    ensures hostState != codes.hostUp && hostState == codes.hostDown ==> r == codes.crit
    ensures hostState != codes.hostUp && hostState != codes.hostDown ==> r == codes.unknown
  {
    if hostState == codes.hostUp then codes.ok
    else if hostState == codes.hostDown then codes.crit
    else if hostState == codes.hostUnreachable then codes.unknown
    else codes.unknown
  }

  /** The downtime code of a leaf: 0 outside downtime, else 1 when downtimes
      escalate as WARN and 2 otherwise. */
  function LeafDowntime(depth: int, options: ComputationOptions): (r: int)
    ensures r == 0 <==> depth == 0
    ensures r != 0 ==> (r == 1 <==> options.escalateDowntimesAsWarn)
    ensures 0 <= r <= 2
  {
    if depth != 0 then (if options.escalateDowntimesAsWarn then 1 else 2) else 0
  }

  /** The state of a leaf whose entity has a state: PENDING if never checked,
      else the hard or live state, mapped onto service states for a host leaf. */
  function LeafState(n: Node, e: EntityStatus, options: ComputationOptions, codes: StateCodes): (r: int)
    requires n.Leaf? && e.state.Some? && e.hardState.Some?
    ensures !e.hasBeenChecked ==> r == codes.pending
    ensures e.hasBeenChecked && n.service.Some? ==>
      r == (if options.useHardStates then e.hardState.value else e.state.value)
    ensures e.hasBeenChecked && n.service.None? ==>
      r == MapHostStateToBiState(if options.useHardStates then e.hardState.value else e.state.value, codes)
  {
    if e.hasBeenChecked then
      var s := if options.useHardStates then e.hardState.value else e.state.value;
      if n.service.None? then MapHostStateToBiState(s, codes) else s
    else codes.pending
  }

  /** `_get_state_name` picks service state names when the service name is non-empty. */
  predicate NamesServiceState(n: Node)
    requires n.Leaf?
  {
    n.service.Some? && n.service.value != ""
  }

  /** `BICompiledLeaf.compute`. */
  function ComputeLeaf(n: Node, options: ComputationOptions, snapshot: StatusSnapshot,
                       useAssumed: bool, ev: Evaluator): (r: Option<NodeResultBundle>)
    requires n.Leaf?
    ensures r.None? <==>
      GetEntity(n, snapshot).None? || GetEntity(n, snapshot).value.state.None? || GetEntity(n, snapshot).value.hardState.None?
    ensures r.Some? ==>
      var e := GetEntity(n, snapshot).value;
      && r.value.instance == n
      && r.value.nested == []
      && r.value.actual == NodeComputeResult(LeafState(n, e, options, ev.codes),
                                             LeafDowntime(e.scheduledDowntimeDepth, options),
                                             e.acknowledged, e.pluginOutput, e.inServicePeriod, [])
    ensures r.Some? ==> (r.value.assumed.Some? <==> useAssumed && ElementOf(n) in snapshot.assumedStates)
    ensures r.Some? && r.value.assumed.Some? ==>
      && r.value.assumed.value.state == snapshot.assumedStates[ElementOf(n)]
      && r.value.assumed.value.downtimeState == r.value.actual.downtimeState
      && r.value.assumed.value.acknowledged == r.value.actual.acknowledged
      && r.value.assumed.value.inServicePeriod == r.value.actual.inServicePeriod
      && r.value.assumed.value.output == ev.assumedText(NamesServiceState(n), snapshot.assumedStates[ElementOf(n)])
      && r.value.assumed.value.stateMessages == []
  {
    var entity := GetEntity(n, snapshot);
    if entity.None? || entity.value.state.None? || entity.value.hardState.None? then None
    else
      var e := entity.value;
      var downtime := LeafDowntime(e.scheduledDowntimeDepth, options);
      var state := LeafState(n, e, options, ev.codes);
      var key := RequiredElement(n.site, n.host, n.service);
      var assumed :=
        if useAssumed && key in snapshot.assumedStates then
          var forced := snapshot.assumedStates[key];
          Some(NodeComputeResult(forced, downtime, e.acknowledged,
                                 ev.assumedText(NamesServiceState(n), forced), e.inServicePeriod, []))
        else None;
      Some(NodeResultBundle(NodeComputeResult(state, downtime, e.acknowledged, e.pluginOutput, e.inServicePeriod, []),
                            assumed, [], n))
  }

  /** `state_messages.get(key, "")` on the rule's ordered message table. */
  function Message(messages: seq<(string, string)>, key: string): (r: string)
    ensures r != "" ==> (key, r) in messages
    ensures (forall i :: 0 <= i < |messages| ==> messages[i].0 != key) ==> r == ""
    ensures forall i :: 0 <= i < |messages| && messages[i].0 == key && (forall j :: 0 <= j < i ==> messages[j].0 != key) ==>
      r == messages[i].1
  {
    if |messages| == 0 then ""
    else if messages[0].0 == key then messages[0].1
    else
      var r := Message(messages[1..], key);
      assert forall i :: 1 <= i < |messages| ==> messages[i] == messages[1..][i - 1];
      r
  }

  function States(results: seq<NodeComputeResult>): (r: seq<int>)
    ensures |r| == |results| && forall i :: 0 <= i < |r| ==> r[i] == results[i].state
  {
    seq(|results|, i requires 0 <= i < |results| => results[i].state)
  }

  function DowntimeStates(results: seq<NodeComputeResult>): (r: seq<int>)
    ensures |r| == |results| && forall i :: 0 <= i < |r| ==> r[i] == results[i].downtimeState
  {
    seq(|results|, i requires 0 <= i < |results| => results[i].downtimeState)
  }

  /** `0 if acknowledged else state` per result. */
  function UnacknowledgedStates(results: seq<NodeComputeResult>): (r: seq<int>)
    ensures |r| == |results|
    ensures forall i :: 0 <= i < |r| ==> r[i] == (if results[i].acknowledged then 0 else results[i].state)
  {
    seq(|results|, i requires 0 <= i < |results| => if results[i].acknowledged then 0 else results[i].state)
  }

  /** `0 if in_service_period else 2` per result. */
  function ServicePeriodStates(results: seq<NodeComputeResult>): (r: seq<int>)
    ensures |r| == |results|
    ensures forall i :: 0 <= i < |r| ==> (r[i] == 0 <==> results[i].inServicePeriod) && (r[i] == 0 || r[i] == 2)
  {
    seq(|results|, i requires 0 <= i < |results| => if results[i].inServicePeriod then 0 else 2)
  }

  /** `_process_node_compute_result`: the rule's aggregation over its children's
      results. Note the downtime remap `2 if escalate else 1`, the reverse of a
      leaf's, and that a rule whose aggregated state is 0 is never acknowledged. */
  function ProcessResults(rule: Node, results: seq<NodeComputeResult>, options: ComputationOptions,
                          ev: Evaluator): (r: NodeComputeResult)
    requires rule.Rule?
    ensures r.state == ev.aggregate(rule.aggregationFunction, States(results))
    ensures ev.aggregate(rule.aggregationFunction, DowntimeStates(results)) > 0 ==>
      r.downtimeState == (if options.escalateDowntimesAsWarn then 2 else 1)
    ensures ev.aggregate(rule.aggregationFunction, DowntimeStates(results)) <= 0 ==>
      r.downtimeState == ev.aggregate(rule.aggregationFunction, DowntimeStates(results))
    ensures r.acknowledged <==>
      r.state != 0 && ev.aggregate(rule.aggregationFunction, UnacknowledgedStates(results)) == 0
    ensures r.inServicePeriod <==> ev.aggregate(rule.aggregationFunction, ServicePeriodStates(results)) == 0
    ensures r.output == Message(rule.properties.stateMessages, IntToString(r.state))
    ensures r.stateMessages == rule.properties.stateMessages
  {
    var af := rule.aggregationFunction;
    var state := ev.aggregate(af, States(results));
    var aggregatedDowntime := ev.aggregate(af, DowntimeStates(results));
    var downtime :=
      if aggregatedDowntime > 0 then (if options.escalateDowntimesAsWarn then 2 else 1) else aggregatedDowntime;
    var acknowledged := if state != 0 then ev.aggregate(af, UnacknowledgedStates(results)) == 0 else false;
    var inServicePeriod := ev.aggregate(af, ServicePeriodStates(results)) == 0;
    NodeComputeResult(state, downtime, acknowledged, Message(rule.properties.stateMessages, IntToString(state)),
                      inServicePeriod, rule.properties.stateMessages)
  }

  /** The shape every result tree has: a leaf's bundle has no children, a
      rule's bundle has between one and as many children as the rule, each the
      bundle of one of the rule's nodes. */
  ghost predicate WellShaped(b: NodeResultBundle) {
    match b.instance
    case Leaf(_, _, _) => b.nested == []
    case Rule(_, _, nodes, _, _, _, _) =>
      && 0 < |b.nested| <= |nodes|
      && forall k :: 0 <= k < |b.nested| ==> b.nested[k].instance in nodes && WellShaped(b.nested[k])
    case Remaining(_) => false
  }

  /** No bundle of the tree carries an assumed result. */
  ghost predicate NoAssumed(b: NodeResultBundle) {
    b.assumed.None? && forall k :: 0 <= k < |b.nested| ==> NoAssumed(b.nested[k])
  }

  function Actuals(bundles: seq<NodeResultBundle>): (r: seq<NodeComputeResult>)
    ensures |r| == |bundles| && forall i :: 0 <= i < |r| ==> r[i] == bundles[i].actual
  {
    seq(|bundles|, i requires 0 <= i < |bundles| => bundles[i].actual)
  }

  /** Each child's assumed result, falling back to its actual result. */
  function AssumedOrActuals(bundles: seq<NodeResultBundle>): (r: seq<NodeComputeResult>)
    ensures |r| == |bundles|
    ensures forall i :: 0 <= i < |r| ==> r[i] == bundles[i].assumed.GetOr(bundles[i].actual)
  {
    seq(|bundles|, i requires 0 <= i < |bundles| => bundles[i].assumed.GetOr(bundles[i].actual))
  }

  /** `compute` on any node: leaves look up the snapshot, rules aggregate the
      children that produced a result, and a `Remaining` node yields nothing. */
  function Compute(n: Node, options: ComputationOptions, snapshot: StatusSnapshot,
                   useAssumed: bool, ev: Evaluator): (r: Option<NodeResultBundle>)
    ensures n.Remaining? ==> r.None?
    ensures r.Some? ==> r.value.instance == n && WellShaped(r.value)
    ensures r.Some? && !useAssumed ==> NoAssumed(r.value)
    ensures r.Some? && n.Rule? ==> (r.value.assumed.Some? <==> useAssumed)
    ensures r.Some? && n.Rule? ==> r.value.actual == ProcessResults(n, Actuals(r.value.nested), options, ev)
    ensures r.Some? && n.Rule? && useAssumed ==>
      r.value.assumed == Some(ProcessResults(n, AssumedOrActuals(r.value.nested), options, ev))
    decreases n, 2
  {
    match n
    case Leaf(_, _, _) => ComputeLeaf(n, options, snapshot, useAssumed, ev)
    case Rule(_, _, nodes, _, _, _, _) =>
      var children := ChildBundles(nodes, options, snapshot, useAssumed, ev);
      if children == [] then None
      else
        var actual := ProcessResults(n, Actuals(children), options, ev);
        if !useAssumed then Some(NodeResultBundle(actual, None, children, n))
        else Some(NodeResultBundle(actual, Some(ProcessResults(n, AssumedOrActuals(children), options, ev)), children, n))
    case Remaining(_) => None
  }

  /** The children's results with the absent ones dropped, in child order. */
  function ChildBundles(nodes: seq<Node>, options: ComputationOptions, snapshot: StatusSnapshot,
                        useAssumed: bool, ev: Evaluator): (r: seq<NodeResultBundle>)
    ensures |r| <= |nodes|
    ensures forall k :: 0 <= k < |r| ==> r[k].instance in nodes && WellShaped(r[k])
    ensures !useAssumed ==> forall k :: 0 <= k < |r| ==> NoAssumed(r[k])
    decreases nodes, 1
  {
    var all := ChildResults(nodes, options, snapshot, useAssumed, ev);
    SomesFrom(all);
    Somes(all)
  }

  /** Every child's result, absent ones included. */
  function ChildResults(nodes: seq<Node>, options: ComputationOptions, snapshot: StatusSnapshot,
                        useAssumed: bool, ev: Evaluator): (r: seq<Option<NodeResultBundle>>)
    ensures |r| == |nodes|
    ensures forall i :: 0 <= i < |r| && r[i].Some? ==>
      r[i].value.instance == nodes[i] && WellShaped(r[i].value) && (!useAssumed ==> NoAssumed(r[i].value))
    decreases nodes, 0
  {
    seq(|nodes|, i requires 0 <= i < |nodes| => Compute(nodes[i], options, snapshot, useAssumed, ev))
  }

  /** A rule's child bundles are its children's results with the absent ones
      dropped, in child order; the rule yields nothing exactly when every child
      yields nothing. */
  lemma RuleChildren(n: Node, options: ComputationOptions, snapshot: StatusSnapshot, useAssumed: bool, ev: Evaluator)
    requires n.Rule?
    ensures var children := seq(|n.nodes|, i requires 0 <= i < |n.nodes| => Compute(n.nodes[i], options, snapshot, useAssumed, ev));
      && (Compute(n, options, snapshot, useAssumed, ev).None? <==> forall i :: 0 <= i < |children| ==> children[i].None?)
      && (Compute(n, options, snapshot, useAssumed, ev).Some? ==>
            Compute(n, options, snapshot, useAssumed, ev).value.nested == Somes(children))
  {
    SomesEmptyIff(ChildResults(n.nodes, options, snapshot, useAssumed, ev));
  }

  /** Where the bundle `b` among `ChildBundles` comes from: the result of one of the nodes. */
  lemma ChildBundleOrigin(nodes: seq<Node>, options: ComputationOptions, snapshot: StatusSnapshot,
                          useAssumed: bool, ev: Evaluator, b: NodeResultBundle)
    requires b in ChildBundles(nodes, options, snapshot, useAssumed, ev)
    ensures exists i :: 0 <= i < |nodes| && Compute(nodes[i], options, snapshot, useAssumed, ev) == Some(b)
  {
    var all := ChildResults(nodes, options, snapshot, useAssumed, ev);
    SomesMembers(all, b);
    var i :| 0 <= i < |all| && all[i] == Some(b);
  }

  /** Every rule bundle of the tree holds the aggregation of its children's
      results: the actual result over their actual results, the assumed result
      (when there is one) over their assumed-or-actual results. */
  ghost predicate Aggregated(b: NodeResultBundle, options: ComputationOptions, ev: Evaluator) {
    && (b.instance.Rule? ==>
          && b.actual == ProcessResults(b.instance, Actuals(b.nested), options, ev)
          && (b.assumed.Some? ==> b.assumed.value == ProcessResults(b.instance, AssumedOrActuals(b.nested), options, ev)))
    && forall k :: 0 <= k < |b.nested| ==> Aggregated(b.nested[k], options, ev)
  }

  /** Every result tree `compute` builds is aggregated at every rule, not only at its root. */
  lemma {:induction false} ComputeAggregated(n: Node, options: ComputationOptions, snapshot: StatusSnapshot,
                                             useAssumed: bool, ev: Evaluator)
    ensures var r := Compute(n, options, snapshot, useAssumed, ev);
      r.Some? ==> Aggregated(r.value, options, ev)
    decreases n
  {
    match n
    case Leaf(_, _, _) =>
    case Remaining(_) =>
    case Rule(_, _, nodes, _, _, _, _) =>
      var r := Compute(n, options, snapshot, useAssumed, ev);
      if r.Some? {
        var children := ChildBundles(nodes, options, snapshot, useAssumed, ev);
        forall k | 0 <= k < |children| ensures Aggregated(children[k], options, ev) {
          ChildBundleOrigin(nodes, options, snapshot, useAssumed, ev, children[k]);
          var i :| 0 <= i < |nodes| && Compute(nodes[i], options, snapshot, useAssumed, ev) == Some(children[k]);
          ComputeAggregated(nodes[i], options, snapshot, useAssumed, ev);
        }
      }
  }

  /** The bundle with every assumed result removed. */
  function StripAssumed(b: NodeResultBundle): (r: NodeResultBundle)
    ensures r.actual == b.actual && r.assumed.None? && r.instance == b.instance && |r.nested| == |b.nested|
  {
    NodeResultBundle(b.actual, None, seq(|b.nested|, k requires 0 <= k < |b.nested| => StripAssumed(b.nested[k])), b.instance)
  }

  function StripAll(bs: seq<NodeResultBundle>): (r: seq<NodeResultBundle>)
    ensures |r| == |bs| && forall k :: 0 <= k < |r| ==> r[k] == StripAssumed(bs[k])
  {
    seq(|bs|, k requires 0 <= k < |bs| => StripAssumed(bs[k]))
  }

  function StripOption(o: Option<NodeResultBundle>): Option<NodeResultBundle> {
    if o.Some? then Some(StripAssumed(o.value)) else None
  }

  lemma {:induction false} StripSomes(xs: seq<Option<NodeResultBundle>>)
    ensures StripAll(Somes(xs)) == Somes(seq(|xs|, i requires 0 <= i < |xs| => StripOption(xs[i])))
  {
    var ys := seq(|xs|, i requires 0 <= i < |xs| => StripOption(xs[i]));
    if |xs| > 0 {
      StripSomes(xs[1..]);
      assert ys[1..] == seq(|xs[1..]|, i requires 0 <= i < |xs[1..]| => StripOption(xs[1..][i]));
      if xs[0].Some? {
        assert StripAll(Somes(xs)) == [StripAssumed(xs[0].value)] + StripAll(Somes(xs[1..]));
      }
    }
  }

  /** What-if overrides never change actual results: evaluating with assumed
      states and then dropping the assumed results gives exactly the
      evaluation without them. */
  lemma {:induction false} ActualIndependentOfAssumed(n: Node, options: ComputationOptions,
                                                      snapshot: StatusSnapshot, ev: Evaluator)
    ensures StripOption(Compute(n, options, snapshot, true, ev)) == Compute(n, options, snapshot, false, ev)
    decreases n
  {
    match n
    case Leaf(_, _, _) =>
    case Remaining(_) =>
    case Rule(_, _, nodes, _, _, _, _) =>
      var withA := ChildResults(nodes, options, snapshot, true, ev);
      var without := ChildResults(nodes, options, snapshot, false, ev);
      forall i | 0 <= i < |nodes| ensures StripOption(withA[i]) == without[i] {
        ActualIndependentOfAssumed(nodes[i], options, snapshot, ev);
      }
      StripSomes(withA);
      assert seq(|withA|, i requires 0 <= i < |withA| => StripOption(withA[i])) == without;
      var ct := ChildBundles(nodes, options, snapshot, true, ev);
      var cf := ChildBundles(nodes, options, snapshot, false, ev);
      assert StripAll(ct) == cf;
      assert Actuals(ct) == Actuals(cf);
      if ct != [] {
        var b := Compute(n, options, snapshot, true, ev).value;
        assert StripAssumed(b).nested == StripAll(ct);
      }
  }

  /** With no what-if override on any element the subtree requires, every
      result's assumed-or-actual value is its actual value: evaluating the
      assumed states of such a branch is wasted work. */
  lemma {:induction false} AssumedWithoutOverridesIsActual(n: Node, options: ComputationOptions,
                                                           snapshot: StatusSnapshot, ev: Evaluator)
    requires RequiredElements(n) !! snapshot.assumedStates.Keys
    ensures var r := Compute(n, options, snapshot, true, ev);
      r.Some? ==> r.value.assumed.GetOr(r.value.actual) == r.value.actual
    decreases n
  {
    match n
    case Leaf(_, _, _) =>
    case Remaining(_) =>
    case Rule(_, _, nodes, _, _, _, _) =>
      var ct := ChildBundles(nodes, options, snapshot, true, ev);
      forall k | 0 <= k < |ct| ensures ct[k].assumed.GetOr(ct[k].actual) == ct[k].actual {
        ChildBundleOrigin(nodes, options, snapshot, true, ev, ct[k]);
        var i :| 0 <= i < |nodes| && Compute(nodes[i], options, snapshot, true, ev) == Some(ct[k]);
        assert RequiredElements(nodes[i]) <= RequiredElements(n);
        AssumedWithoutOverridesIsActual(nodes[i], options, snapshot, ev);
      }
      assert AssumedOrActuals(ct) == Actuals(ct);
  }

  /** Aggregation functions that always pick one of their inputs (worst, best,
      ...); the codes they can produce are the codes they are given. */
  ghost predicate Selective(ev: Evaluator) {
    forall af, xs :: |xs| > 0 ==> ev.aggregate(af, xs) in xs
  }

  predicate ValidDowntime(code: int) {
    0 <= code <= 2
  }

  /** Every actual and assumed result of the tree has a downtime code in {0, 1, 2}. */
  ghost predicate DowntimesValid(b: NodeResultBundle) {
    && ValidDowntime(b.actual.downtimeState)
    && (b.assumed.Some? ==> ValidDowntime(b.assumed.value.downtimeState))
    && forall k :: 0 <= k < |b.nested| ==> DowntimesValid(b.nested[k])
  }

  lemma RuleDowntimeValid(n: Node, results: seq<NodeComputeResult>, options: ComputationOptions, ev: Evaluator)
    requires n.Rule? && Selective(ev) && |results| > 0
    requires forall i :: 0 <= i < |results| ==> ValidDowntime(results[i].downtimeState)
    ensures ValidDowntime(ProcessResults(n, results, options, ev).downtimeState)
  {
    var codes := DowntimeStates(results);
    assert ev.aggregate(n.aggregationFunction, codes) in codes;
  }

  /** With aggregation functions that pick one of their inputs, downtime codes
      stay in {0, 1, 2} throughout the result tree. */
  lemma {:induction false} DowntimeCodesInRange(n: Node, options: ComputationOptions, snapshot: StatusSnapshot,
                                                useAssumed: bool, ev: Evaluator)
    requires Selective(ev)
    ensures var r := Compute(n, options, snapshot, useAssumed, ev);
      r.Some? ==> DowntimesValid(r.value)
    decreases n
  {
    match n
    case Leaf(_, _, _) =>
    case Remaining(_) =>
    case Rule(_, _, nodes, _, _, _, _) =>
      var cs := ChildBundles(nodes, options, snapshot, useAssumed, ev);
      forall k | 0 <= k < |cs| ensures DowntimesValid(cs[k]) {
        ChildBundleOrigin(nodes, options, snapshot, useAssumed, ev, cs[k]);
        var i :| 0 <= i < |nodes| && Compute(nodes[i], options, snapshot, useAssumed, ev) == Some(cs[k]);
        DowntimeCodesInRange(nodes[i], options, snapshot, useAssumed, ev);
      }
      if cs != [] {
        RuleDowntimeValid(n, Actuals(cs), options, ev);
        RuleDowntimeValid(n, AssumedOrActuals(cs), options, ev);
      }
  }

  /** The downtime escalation of a rule is the reverse of a leaf's: a leaf in
      downtime under a rule of its own reports 1 when downtimes escalate as
      WARN and 2 otherwise, while the rule above it reports 2 and 1. */
  lemma EscalationReversedAtRule(n: Node, options: ComputationOptions, snapshot: StatusSnapshot,
                                 useAssumed: bool, ev: Evaluator)
    requires n.Rule? && |n.nodes| == 1 && n.nodes[0].Leaf?
    requires Selective(ev)
    requires var leaf := Compute(n.nodes[0], options, snapshot, useAssumed, ev);
      leaf.Some? && GetEntity(n.nodes[0], snapshot).value.scheduledDowntimeDepth != 0
    ensures Compute(n.nodes[0], options, snapshot, useAssumed, ev).value.actual.downtimeState
      == (if options.escalateDowntimesAsWarn then 1 else 2)
    ensures Compute(n, options, snapshot, useAssumed, ev).Some?
    ensures Compute(n, options, snapshot, useAssumed, ev).value.actual.downtimeState
      == (if options.escalateDowntimesAsWarn then 2 else 1)
  {
    var leaf := Compute(n.nodes[0], options, snapshot, useAssumed, ev).value;
    var all := ChildResults(n.nodes, options, snapshot, useAssumed, ev);
    assert all == [Some(leaf)];
    assert Somes(all) == [leaf] by { assert all[1..] == []; }
    var codes := DowntimeStates(Actuals([leaf]));
    assert codes == [leaf.actual.downtimeState];
    assert ev.aggregate(n.aggregationFunction, codes) in codes;
  }
}
