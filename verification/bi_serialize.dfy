/** The serialized form of compiled BI trees (`serialize` of the node classes
    and of `BICompiledAggregation` in `cmk/utils/bi/bi_trees.py`) and a
    decoder for it that checks the node-type tag against the closed set
    {"leaf", "rule"}. */
module BiSerialize {
  import opened Wrappers
  import opened Json
  import opened BiModel

  /** Why a value is not a serialized tree. */
  datatype SchemaError =
    | NotAnObject(name: string)
    | MissingField(name: string)
    | WrongType(name: string)
    | UnknownType(tag: string)

  function OptionalString(o: Option<string>): (j: Json)
    ensures j == JNull || j.JStr?
  {
    if o.Some? then JStr(o.value) else JNull
  }

  function DecodeOptionalString(j: Json, name: string): (r: Result<Option<string>, SchemaError>)
    ensures r.Success? <==> j == JNull || j.JStr?
  {
    match j
    case JNull => Success(None)
    case JStr(s) => Success(Some(s))
    case _ => Failure(WrongType(name))
  }

  function Field(members: seq<(string, Json)>, name: string): (r: Result<Json, SchemaError>)
    ensures r.Success? ==> (name, r.value) in members
  {
    match Find(members, name)
    case None => Failure(MissingField(name))
    case Some(i) => Success(members[i].1)
  }

  /** `Find` returns the first position carrying the key. */
  lemma {:induction false} FindAt(members: seq<(string, Json)>, key: string, i: nat)
    requires i < |members| && members[i].0 == key
    requires forall j :: 0 <= j < i ==> members[j].0 != key
    ensures Find(members, key) == Some(i)
  {
    if i > 0 {
      FindAt(members[1..], key, i - 1);
    }
  }

  /** No key occurs twice. */
  predicate DistinctKeys(keys: seq<string>) {
    forall j, k :: 0 <= j < k < |keys| ==> keys[j] != keys[k]
  }

  /** The record's keys are `keys`, in order. */
  predicate HasKeys(members: seq<(string, Json)>, keys: seq<string>) {
    |members| == |keys| && forall j :: 0 <= j < |members| ==> members[j].0 == keys[j]
  }

  /** In a record whose keys are distinct, every field is found at its own position. */
  lemma FieldOfKey(members: seq<(string, Json)>, keys: seq<string>, i: nat)
    requires HasKeys(members, keys) && DistinctKeys(keys) && i < |keys|
    ensures Find(members, keys[i]) == Some(i)
    ensures Field(members, keys[i]) == Success(members[i].1)
  {
    FindAt(members, keys[i], i);
  }

  /** The keys of a serialized leaf, rule and aggregation, in order. */
  const LeafKeys: seq<string> := ["type", "required_hosts", "site_id", "host_name", "service_description"]
  const RuleKeys: seq<string> :=
    ["id", "pack_id", "type", "required_hosts", "nodes", "aggregation_function", "node_visualization", "properties"]
  const AggregationKeys: seq<string> :=
    ["id", "branches", "aggregation_visualization", "computation_options", "groups"]

  lemma RecordKeysDistinct()
    ensures DistinctKeys(LeafKeys) && DistinctKeys(RuleKeys) && DistinctKeys(AggregationKeys)
  {
  }

  function StringField(members: seq<(string, Json)>, name: string): Result<string, SchemaError> {
    var j :- Field(members, name);
    if j.JStr? then Success(j.s) else Failure(WrongType(name))
  }

  function BoolField(members: seq<(string, Json)>, name: string): Result<bool, SchemaError> {
    var j :- Field(members, name);
    if j.JBool? then Success(j.b) else Failure(WrongType(name))
  }

  function ArrayField(members: seq<(string, Json)>, name: string): Result<seq<Json>, SchemaError> {
    var j :- Field(members, name);
    if j.JArr? then Success(j.items) else Failure(WrongType(name))
  }

  /** `{"site_id": ..., "host_name": ...}`. */
  function SerializeHostSpec(h: HostSpec): Json {
    JObj([("site_id", OptionalString(h.site)), ("host_name", JStr(h.host))])
  }

  function DecodeHostSpec(j: Json): Result<HostSpec, SchemaError> {
    if !j.JObj? then Failure(NotAnObject("required_hosts"))
    else
      var siteJ :- Field(j.members, "site_id");
      var site :- DecodeOptionalString(siteJ, "site_id");
      var host :- StringField(j.members, "host_name");
      Success(HostSpec(site, host))
  }

  function SerializeHostSpecs(hs: seq<HostSpec>): (r: seq<Json>)
    ensures |r| == |hs|
  {
    seq(|hs|, i requires 0 <= i < |hs| => SerializeHostSpec(hs[i]))
  }

  function DecodeHostSpecs(js: seq<Json>): (r: Result<seq<HostSpec>, SchemaError>)
    ensures r.Success? ==> |r.value| == |js|
  {
    if |js| == 0 then Success([])
    else
      var first :- DecodeHostSpec(js[0]);
      var rest :- DecodeHostSpecs(js[1..]);
      Success([first] + rest)
  }

  lemma HostSpecRoundTrip(h: HostSpec)
    ensures DecodeHostSpec(SerializeHostSpec(h)) == Success(h)
  {
    var m := SerializeHostSpec(h).members;
    FindAt(m, "site_id", 0);
    FindAt(m, "host_name", 1);
  }

  lemma {:induction false} HostSpecsRoundTrip(hs: seq<HostSpec>)
    ensures DecodeHostSpecs(SerializeHostSpecs(hs)) == Success(hs)
  {
    if |hs| > 0 {
      HostSpecRoundTrip(hs[0]);
      assert SerializeHostSpecs(hs)[1..] == SerializeHostSpecs(hs[1..]);
      HostSpecsRoundTrip(hs[1..]);
      assert [hs[0]] + hs[1..] == hs;
    }
  }

  function SerializeMessages(ms: seq<(string, string)>): (r: seq<(string, Json)>)
    ensures |r| == |ms|
  {
    seq(|ms|, i requires 0 <= i < |ms| => (ms[i].0, JStr(ms[i].1)))
  }

  function DecodeMessages(members: seq<(string, Json)>): Result<seq<(string, string)>, SchemaError> {
    if |members| == 0 then Success([])
    else if !members[0].1.JStr? then Failure(WrongType("state_messages"))
    else
      var rest :- DecodeMessages(members[1..]);
      Success([(members[0].0, members[0].1.s)] + rest)
  }

  lemma {:induction false} MessagesRoundTrip(ms: seq<(string, string)>)
    ensures DecodeMessages(SerializeMessages(ms)) == Success(ms)
  {
    if |ms| > 0 {
      assert SerializeMessages(ms)[1..] == SerializeMessages(ms[1..]);
      MessagesRoundTrip(ms[1..]);
      assert [ms[0]] + ms[1..] == ms;
    }
  }

  /** The rule properties as the rule serializes them: title, icon and state messages. */
  function SerializeProperties(p: RuleProperties): Json {
    JObj([("title", JStr(p.title)), ("icon", JStr(p.icon)), ("state_messages", JObj(SerializeMessages(p.stateMessages)))])
  }

  function DecodeProperties(j: Json): Result<RuleProperties, SchemaError> {
    if !j.JObj? then Failure(NotAnObject("properties"))
    else
      var title :- StringField(j.members, "title");
      var icon :- StringField(j.members, "icon");
      var messagesJ :- Field(j.members, "state_messages");
      if !messagesJ.JObj? then Failure(NotAnObject("state_messages"))
      else
        var messages :- DecodeMessages(messagesJ.members);
        Success(RuleProperties(title, icon, messages))
  }

  lemma PropertiesRoundTrip(p: RuleProperties)
    ensures DecodeProperties(SerializeProperties(p)) == Success(p)
  {
    var m := SerializeProperties(p).members;
    FindAt(m, "title", 0);
    FindAt(m, "icon", 1);
    FindAt(m, "state_messages", 2);
    MessagesRoundTrip(p.stateMessages);
  }

  /** The members of a serialized leaf. */
  function LeafMembers(n: Node): seq<(string, Json)>
    requires n.Leaf?
  {
    [("type", JStr("leaf")),
     ("required_hosts", JArr(SerializeHostSpecs(LeafRequiredHosts(n)))),
     ("site_id", OptionalString(n.site)),
     ("host_name", JStr(n.host)),
     ("service_description", OptionalString(n.service))]
  }

  /** The members of a serialized rule, given its children already serialized. */
  function RuleMembers(n: Node, children: seq<Json>): seq<(string, Json)>
    requires n.Rule?
  {
    [("id", JStr(n.id)),
     ("pack_id", JStr(n.packId)),
     ("type", JStr("rule")),
     ("required_hosts", JArr(SerializeHostSpecs(n.requiredHosts))),
     ("nodes", JArr(children)),
     ("aggregation_function", n.aggregationFunction.config),
     ("node_visualization", n.nodeVisualization),
     ("properties", SerializeProperties(n.properties))]
  }

  /** `serialize`: a tagged record per node kind; a `Remaining` node serializes
      to the empty record. */
  function Serialize(n: Node): (j: Json)
    ensures j.JObj?
    ensures n.Remaining? <==> j == JObj([])
    decreases n, 1
  {
    match n
    case Leaf(_, _, _) => JObj(LeafMembers(n))
    case Rule(_, _, nodes, _, _, _, _) => JObj(RuleMembers(n, SerializeAll(nodes)))
    case Remaining(_) => JObj([])
  }

  function SerializeAll(ns: seq<Node>): (r: seq<Json>)
    ensures |r| == |ns|
    decreases ns, 0
  {
    if |ns| == 0 then [] else [Serialize(ns[0])] + SerializeAll(ns[1..])
  }

  /** The fields of a serialized leaf; its `required_hosts` must be a list
      but is derived from site and host. */
  function DecodeLeaf(members: seq<(string, Json)>): (r: Result<Node, SchemaError>)
    ensures r.Success? ==> r.value.Leaf?
  {
    var _ :- ArrayField(members, "required_hosts");
    var siteJ :- Field(members, "site_id");
    var site :- DecodeOptionalString(siteJ, "site_id");
    var host :- StringField(members, "host_name");
    var service :-
      match Find(members, "service_description")
      case None => Success(None)
      case Some(i) => DecodeOptionalString(members[i].1, "service_description");
    Success(Leaf(site, host, service))
  }

  /** The fields of a serialized rule other than its children. */
  function DecodeRule(members: seq<(string, Json)>, nodes: seq<Node>): (r: Result<Node, SchemaError>)
    ensures r.Success? ==> r.value.Rule? && r.value.nodes == nodes
  {
    var id :- StringField(members, "id");
    var packId :- StringField(members, "pack_id");
    var hostsJ :- ArrayField(members, "required_hosts");
    var hosts :- DecodeHostSpecs(hostsJ);
    var aggregationFunction :- Field(members, "aggregation_function");
    var nodeVisualization :- Field(members, "node_visualization");
    var propertiesJ :- Field(members, "properties");
    var properties :- DecodeProperties(propertiesJ);
    Success(Rule(id, packId, nodes, hosts, properties, AggregationFunction(aggregationFunction), nodeVisualization))
  }

  /** Reads a serialized node back: the `type` tag selects the variant and an
      unknown tag is rejected by name. */
  function Deserialize(j: Json): (r: Result<Node, SchemaError>)
    ensures r.Success? ==> !r.value.Remaining?
    decreases j, 2
  {
    if !j.JObj? then Failure(NotAnObject("node"))
    else
      var members := j.members;
      var tag :- StringField(members, "type");
      if tag == "leaf" then DecodeLeaf(members)
      else if tag == "rule" then
        var nodes :- DecodeChildren(j);
        DecodeRule(members, nodes)
      else Failure(UnknownType(tag))
  }

  /** The `nodes` list of a serialized rule, each child read back in turn. */
  function DecodeChildren(j: Json): (r: Result<seq<Node>, SchemaError>)
    requires j.JObj?
    decreases j, 1
  {
    match Find(j.members, "nodes")
    case None => Failure(MissingField("nodes"))
    case Some(i) =>
      assert j.members[i] in j.members;
      match j.members[i].1
      case JArr(items) => DeserializeAll(items)
      case _ => Failure(WrongType("nodes"))
  }

  function DeserializeAll(js: seq<Json>): (r: Result<seq<Node>, SchemaError>)
    ensures r.Success? ==> |r.value| == |js|
    decreases js, 0
  {
    if |js| == 0 then Success([])
    else
      var first :- Deserialize(js[0]);
      var rest :- DeserializeAll(js[1..]);
      Success([first] + rest)
  }

  /** Every compiled tree reads back as itself. */
  lemma {:induction false} RoundTrip(n: Node)
    requires NoRemaining(n)
    ensures Deserialize(Serialize(n)) == Success(n)
    decreases n, 1
  {
    match n
    case Leaf(_, _, _) =>
      LeafRoundTrip(n);
    case Rule(_, _, nodes, _, _, _, _) =>
      RoundTripAll(nodes);
      RuleRoundTrip(n, SerializeAll(nodes));
  }

  lemma {:induction false} RoundTripAll(ns: seq<Node>)
    requires forall i :: 0 <= i < |ns| ==> NoRemaining(ns[i])
    ensures DeserializeAll(SerializeAll(ns)) == Success(ns)
    decreases ns, 0
  {
    var js := SerializeAll(ns);
    SerializeAllAt(ns);
    forall i | 0 <= i < |ns| ensures Deserialize(js[i]) == Success(ns[i]) {
      RoundTrip(ns[i]);
    }
    DeserializeEach(js, ns);
  }

  /** `SerializeAll` serializes each node in place. */
  lemma {:induction false} SerializeAllAt(ns: seq<Node>)
    ensures forall i :: 0 <= i < |ns| ==> SerializeAll(ns)[i] == Serialize(ns[i])
  {
    if |ns| > 0 {
      SerializeAllAt(ns[1..]);
    }
  }

  /** A list whose every item reads back reads back as the list of them. */
  lemma {:induction false} DeserializeEach(js: seq<Json>, ns: seq<Node>)
    requires |js| == |ns|
    requires forall i {:trigger Deserialize(js[i])} :: 0 <= i < |js| ==> Deserialize(js[i]) == Success(ns[i])
    ensures DeserializeAll(js) == Success(ns)
  {
    if |js| > 0 {
      var rest, restNodes := js[1..], ns[1..];
      forall i | 0 <= i < |rest| ensures Deserialize(rest[i]) == Success(restNodes[i]) {
        assert rest[i] == js[i + 1];
        assert Deserialize(js[i + 1]) == Success(ns[i + 1]);
      }
      DeserializeEach(rest, restNodes);
      DeserializeAllCons(js[0], rest, ns[0], restNodes);
      assert [js[0]] + rest == js;
      assert [ns[0]] + restNodes == ns;
    }
  }

  lemma DeserializeAllCons(j: Json, js: seq<Json>, first: Node, rest: seq<Node>)
    requires Deserialize(j) == Success(first)
    requires DeserializeAll(js) == Success(rest)
    ensures DeserializeAll([j] + js) == Success([first] + rest)
  {
    assert ([j] + js)[1..] == js;
  }

  lemma LeafFieldsRoundTrip(n: Node)
    requires n.Leaf?
    ensures DecodeLeaf(LeafMembers(n)) == Success(n)
  {
    var m := LeafMembers(n);
    RecordKeysDistinct();
    assert HasKeys(m, LeafKeys);
    FieldOfKey(m, LeafKeys, 1);
    FieldOfKey(m, LeafKeys, 2);
    FieldOfKey(m, LeafKeys, 3);
    FieldOfKey(m, LeafKeys, 4);
  }

  lemma LeafRoundTrip(n: Node)
    requires n.Leaf?
    ensures Deserialize(Serialize(n)) == Success(n)
  {
    var m := LeafMembers(n);
    assert Serialize(n) == JObj(m);
    RecordKeysDistinct();
    assert HasKeys(m, LeafKeys);
    FieldOfKey(m, LeafKeys, 0);
    LeafFieldsRoundTrip(n);
  }

  lemma RuleFieldsRoundTrip(n: Node, children: seq<Json>)
    requires n.Rule?
    ensures DecodeRule(RuleMembers(n, children), n.nodes) == Success(n)
  {
    RuleMembersFields(n, children);
    DecodeRuleFields(RuleMembers(n, children), n);
  }

  /** Where each field of a serialized rule sits. */
  lemma RuleMembersFields(n: Node, children: seq<Json>)
    requires n.Rule?
    ensures var m := RuleMembers(n, children);
      && Field(m, "id") == Success(JStr(n.id))
      && Field(m, "pack_id") == Success(JStr(n.packId))
      && Field(m, "type") == Success(JStr("rule"))
      && Find(m, "nodes") == Some(4)
      && Field(m, "required_hosts") == Success(JArr(SerializeHostSpecs(n.requiredHosts)))
      && Field(m, "aggregation_function") == Success(n.aggregationFunction.config)
      && Field(m, "node_visualization") == Success(n.nodeVisualization)
      && Field(m, "properties") == Success(SerializeProperties(n.properties))
  {
    var m := RuleMembers(n, children);
    RecordKeysDistinct();
    assert HasKeys(m, RuleKeys);
    FieldOfKey(m, RuleKeys, 0);
    FieldOfKey(m, RuleKeys, 1);
    FieldOfKey(m, RuleKeys, 2);
    FieldOfKey(m, RuleKeys, 3);
    FieldOfKey(m, RuleKeys, 4);
    FieldOfKey(m, RuleKeys, 5);
    FieldOfKey(m, RuleKeys, 6);
    FieldOfKey(m, RuleKeys, 7);
  }

  /** Any record carrying a rule's fields decodes to that rule. */
  lemma DecodeRuleFields(m: seq<(string, Json)>, n: Node)
    requires n.Rule?
    requires Field(m, "id") == Success(JStr(n.id))
    requires Field(m, "pack_id") == Success(JStr(n.packId))
    requires Field(m, "required_hosts") == Success(JArr(SerializeHostSpecs(n.requiredHosts)))
    requires Field(m, "aggregation_function") == Success(n.aggregationFunction.config)
    requires Field(m, "node_visualization") == Success(n.nodeVisualization)
    requires Field(m, "properties") == Success(SerializeProperties(n.properties))
    ensures DecodeRule(m, n.nodes) == Success(n)
  {
    HostSpecsRoundTrip(n.requiredHosts);
    PropertiesRoundTrip(n.properties);
  }

  lemma RuleRoundTrip(n: Node, children: seq<Json>)
    requires n.Rule?
    requires DeserializeAll(children) == Success(n.nodes)
    ensures Deserialize(JObj(RuleMembers(n, children))) == Success(n)
  {
    var m := RuleMembers(n, children);
    RuleMembersFields(n, children);
    ChildrenAt(m, 4, children, n.nodes);
    RuleFieldsRoundTrip(n, children);
    DecodeRuleRecord(m, n);
  }

  /** The `nodes` list found in a record is read back item by item. */
  lemma ChildrenAt(m: seq<(string, Json)>, i: nat, children: seq<Json>, nodes: seq<Node>)
    requires Find(m, "nodes") == Some(i) && m[i].1 == JArr(children)
    requires DeserializeAll(children) == Success(nodes)
    ensures DecodeChildren(JObj(m)) == Success(nodes)
  {
  }

  /** A record tagged "rule" whose children and other fields read back
      reads back as the rule. */
  lemma DecodeRuleRecord(m: seq<(string, Json)>, n: Node)
    requires n.Rule?
    requires Field(m, "type") == Success(JStr("rule"))
    requires DecodeChildren(JObj(m)) == Success(n.nodes)
    requires DecodeRule(m, n.nodes) == Success(n)
    ensures Deserialize(JObj(m)) == Success(n)
  {
  }

  /** A record whose tag is neither "leaf" nor "rule" is refused, naming the tag. */
  lemma UnknownTagRejected(tag: string, rest: seq<(string, Json)>)
    requires tag != "leaf" && tag != "rule"
    ensures Deserialize(JObj([("type", JStr(tag))] + rest)) == Failure(UnknownType(tag))
  {
  }

  /** A wildcard that escaped compilation cannot be read back. */
  lemma RemainingNotReadable(hosts: seq<HostName>)
    ensures Deserialize(Serialize(Remaining(hosts))) == Failure(MissingField("type"))
  {
  }

  function SerializeStrings(xs: seq<string>): (r: seq<Json>)
    ensures |r| == |xs|
  {
    seq(|xs|, i requires 0 <= i < |xs| => JStr(xs[i]))
  }

  function DecodeStrings(js: seq<Json>, name: string): Result<seq<string>, SchemaError> {
    if |js| == 0 then Success([])
    else if !js[0].JStr? then Failure(WrongType(name))
    else
      var rest :- DecodeStrings(js[1..], name);
      Success([js[0].s] + rest)
  }

  lemma {:induction false} StringsRoundTrip(xs: seq<string>, name: string)
    ensures DecodeStrings(SerializeStrings(xs), name) == Success(xs)
  {
    if |xs| > 0 {
      assert SerializeStrings(xs)[1..] == SerializeStrings(xs[1..]);
      StringsRoundTrip(xs[1..], name);
      assert [xs[0]] + xs[1..] == xs;
    }
  }

  function SerializePaths(ps: seq<seq<string>>): (r: seq<Json>)
    ensures |r| == |ps|
  {
    seq(|ps|, i requires 0 <= i < |ps| => JArr(SerializeStrings(ps[i])))
  }

  function DecodePaths(js: seq<Json>): Result<seq<seq<string>>, SchemaError> {
    if |js| == 0 then Success([])
    else if !js[0].JArr? then Failure(WrongType("paths"))
    else
      var first :- DecodeStrings(js[0].items, "paths");
      var rest :- DecodePaths(js[1..]);
      Success([first] + rest)
  }

  lemma {:induction false} PathsRoundTrip(ps: seq<seq<string>>)
    ensures DecodePaths(SerializePaths(ps)) == Success(ps)
  {
    if |ps| > 0 {
      assert SerializePaths(ps)[1..] == SerializePaths(ps[1..]);
      StringsRoundTrip(ps[0], "paths");
      PathsRoundTrip(ps[1..]);
      assert [ps[0]] + ps[1..] == ps;
    }
  }

  /** `BICompiledAggregation.serialize`. */
  function SerializeAggregation(agg: CompiledAggregation): Json {
    JObj([("id", JStr(agg.id)),
          ("branches", JArr(SerializeAll(agg.branches))),
          ("aggregation_visualization", agg.visualization),
          ("computation_options", JObj([("disabled", JBool(agg.options.disabled)),
                                        ("use_hard_states", JBool(agg.options.useHardStates)),
                                        ("escalate_downtimes_as_warn", JBool(agg.options.escalateDowntimesAsWarn))])),
          ("groups", JObj([("names", JArr(SerializeStrings(agg.groups.names))),
                           ("paths", JArr(SerializePaths(agg.groups.paths)))]))])
  }

  function DecodeOptions(j: Json): Result<ComputationOptions, SchemaError> {
    if !j.JObj? then Failure(NotAnObject("computation_options"))
    else
      var disabled :- BoolField(j.members, "disabled");
      var useHardStates :- BoolField(j.members, "use_hard_states");
      var escalate :- BoolField(j.members, "escalate_downtimes_as_warn");
      Success(ComputationOptions(disabled, useHardStates, escalate))
  }

  function DecodeGroups(j: Json): Result<Groups, SchemaError> {
    if !j.JObj? then Failure(NotAnObject("groups"))
    else
      var namesJ :- ArrayField(j.members, "names");
      var names :- DecodeStrings(namesJ, "names");
      var pathsJ :- ArrayField(j.members, "paths");
      var paths :- DecodePaths(pathsJ);
      Success(Groups(names, paths))
  }

  predicate AllRules(ns: seq<Node>) {
    forall i :: 0 <= i < |ns| ==> ns[i].Rule?
  }

  /** Reads a serialized aggregation back; every branch must be a rule. */
  function DeserializeAggregation(j: Json): (r: Result<CompiledAggregation, SchemaError>)
    ensures r.Success? ==> AllRules(r.value.branches)
  {
    if !j.JObj? then Failure(NotAnObject("aggregation"))
    else
      var id :- StringField(j.members, "id");
      var branchesJ :- ArrayField(j.members, "branches");
      var branches :- DeserializeAll(branchesJ);
      if !AllRules(branches) then Failure(WrongType("branches"))
      else
        var visualization :- Field(j.members, "aggregation_visualization");
        var optionsJ :- Field(j.members, "computation_options");
        var options :- DecodeOptions(optionsJ);
        var groupsJ :- Field(j.members, "groups");
        var groups :- DecodeGroups(groupsJ);
        Success(CompiledAggregation(id, branches, options, visualization, groups))
  }

  /** Every compiled aggregation whose branches are compiled rules reads back as itself. */
  lemma AggregationRoundTrip(agg: CompiledAggregation)
    requires AllRules(agg.branches)
    requires forall i :: 0 <= i < |agg.branches| ==> NoRemaining(agg.branches[i])
    ensures DeserializeAggregation(SerializeAggregation(agg)) == Success(agg)
  {
    var m := SerializeAggregation(agg).members;
    RecordKeysDistinct();
    assert HasKeys(m, AggregationKeys);
    FieldOfKey(m, AggregationKeys, 0);
    FieldOfKey(m, AggregationKeys, 1);
    FieldOfKey(m, AggregationKeys, 2);
    FieldOfKey(m, AggregationKeys, 3);
    FieldOfKey(m, AggregationKeys, 4);
    RoundTripAll(agg.branches);
    OptionsRoundTrip(agg.options);
    GroupsRoundTrip(agg.groups);
  }

  lemma OptionsRoundTrip(o: ComputationOptions)
    ensures DecodeOptions(JObj([("disabled", JBool(o.disabled)),
                                ("use_hard_states", JBool(o.useHardStates)),
                                ("escalate_downtimes_as_warn", JBool(o.escalateDowntimesAsWarn))])) == Success(o)
  {
    var m := [("disabled", JBool(o.disabled)),
              ("use_hard_states", JBool(o.useHardStates)),
              ("escalate_downtimes_as_warn", JBool(o.escalateDowntimesAsWarn))];
    FindAt(m, "disabled", 0);
    FindAt(m, "use_hard_states", 1);
    FindAt(m, "escalate_downtimes_as_warn", 2);
  }

  lemma GroupsRoundTrip(g: Groups)
    ensures DecodeGroups(JObj([("names", JArr(SerializeStrings(g.names))),
                               ("paths", JArr(SerializePaths(g.paths)))])) == Success(g)
  {
    var m := [("names", JArr(SerializeStrings(g.names))), ("paths", JArr(SerializePaths(g.paths)))];
    FindAt(m, "names", 0);
    FindAt(m, "paths", 1);
    StringsRoundTrip(g.names, "names");
    PathsRoundTrip(g.paths);
  }
}
