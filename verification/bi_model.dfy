/** Data model of the BI (business intelligence) aggregation engine of
    `cmk/utils/bi/bi_trees.py`: compiled nodes, the live status snapshot
    they are evaluated against, and the result tree an evaluation returns. */
module BiModel {
  import opened Wrappers
  import opened Json

  type SiteId = string
  type HostName = string
  type ServiceName = string

  /** A `(site_id, host_name)` pair as found in `required_hosts` and as key of the status table. */
  datatype HostSpec = HostSpec(site: Option<SiteId>, host: HostName)

  /** `RequiredBIElement`: one monitored object a node depends on. */
  datatype RequiredElement = RequiredElement(site: Option<SiteId>, host: HostName, service: Option<ServiceName>)

  /** Configuration of an aggregation function (worst, best, count_ok, ...).
      Its behaviour is not part of this model: evaluation receives it as the
      `aggregate` parameter of an `Evaluator`. */
  datatype AggregationFunction = AggregationFunction(config: Json)

  /** `BIRuleProperties`: title, icon (empty for none) and the per-state
      messages keyed by the decimal state code, in insertion order. */
  datatype RuleProperties = RuleProperties(title: string, icon: string, stateMessages: seq<(string, string)>)

  /** A compiled BI node. `Remaining` is the wildcard for "all other services of
      these hosts"; compilation replaces it by leaves. */
  datatype Node =
    | Leaf(site: Option<SiteId>, host: HostName, service: Option<ServiceName>)
    | Rule(id: string, packId: string, nodes: seq<Node>, requiredHosts: seq<HostSpec>,
           properties: RuleProperties, aggregationFunction: AggregationFunction,
           nodeVisualization: Json)
    | Remaining(hostNames: seq<HostName>)

  /** A leaf's `required_hosts`: the single pair it refers to. */
  function LeafRequiredHosts(n: Node): (r: seq<HostSpec>)
    requires n.Leaf?
    ensures |r| == 1 && r[0].host == n.host && r[0].site == n.site
  {
    [HostSpec(n.site, n.host)]
  }

  /** True when no `Remaining` occurs anywhere in the tree. */
  predicate NoRemaining(n: Node) {
    match n
    case Leaf(_, _, _) => true
    case Rule(_, _, nodes, _, _, _, _) => forall i :: 0 <= i < |nodes| ==> NoRemaining(nodes[i])
    case Remaining(_) => false
  }

  /** `BIAggregationComputationOptions`. */
  datatype ComputationOptions = ComputationOptions(disabled: bool, useHardStates: bool, escalateDowntimesAsWarn: bool)

  /** The status fields of a host row or of a service with full state. */
  datatype EntityStatus = EntityStatus(
    state: Option<int>,
    hardState: Option<int>,
    hasBeenChecked: bool,
    acknowledged: bool,
    scheduledDowntimeDepth: int,
    inServicePeriod: bool,
    pluginOutput: string)

  /** `BIHostStatusInfoRow`: the host's own status and its services. */
  datatype HostStatus = HostStatus(entity: EntityStatus, servicesWithFullstate: map<ServiceName, EntityStatus>)

  /** What a status fetcher offers: live states per `(site, host)` and the
      what-if overrides keyed by required element. */
  datatype StatusSnapshot = StatusSnapshot(states: map<HostSpec, HostStatus>, assumedStates: map<RequiredElement, int>)

  /** `NodeComputeResult` (its always-empty `extra` dictionary is not modelled). */
  datatype NodeComputeResult = NodeComputeResult(
    state: int,
    downtimeState: int,
    acknowledged: bool,
    output: string,
    inServicePeriod: bool,
    stateMessages: seq<(string, string)>)

  /** `NodeResultBundle`: actual and assumed result of a node with the bundles of its children. */
  datatype NodeResultBundle = NodeResultBundle(
    actual: NodeComputeResult,
    assumed: Option<NodeComputeResult>,
    nested: seq<NodeResultBundle>,
    instance: Node)

  /** The numeric values of `BIStates`, defined outside this model. */
  datatype StateCodes = StateCodes(ok: int, crit: int, unknown: int, pending: int,
                                   hostUp: int, hostDown: int, hostUnreachable: int)

  /** Collaborators of an evaluation that live outside `bi_trees.py`: the
      aggregation functions, the state codes and the translated
      "Assumed to be <state name>" text (its first argument says whether the
      state is a service state). */
  datatype Evaluator = Evaluator(
    aggregate: (AggregationFunction, seq<int>) -> int,
    codes: StateCodes,
    assumedText: (bool, int) -> string)

  /** `BIAggregationGroups`. */
  datatype Groups = Groups(names: seq<string>, paths: seq<seq<string>>)

  /** `BICompiledAggregation`. */
  datatype CompiledAggregation = CompiledAggregation(
    id: string,
    branches: seq<Node>,
    options: ComputationOptions,
    visualization: Json,
    groups: Groups)
}
