# checkmk BI trees and a handful of special-agent helpers, in Dafny

This project models, in Dafny, a few parts of checkmk and proves properties of them.

The main part is the compiled Business Intelligence (BI) tree of
`cmk/utils/bi/bi_trees.py`. A compiled aggregation holds branches. Each branch
is a tree of rules over leaves. A leaf is a host, or a service of a host. A
`remaining` placeholder stands for "every service of these hosts that no other
leaf claims". The model covers:

- **Data model** (`bi_model.dfy`): nodes (`Leaf`, `Rule`, `Remaining`), required
  hosts and elements, computation options, the status snapshot the fetcher
  provides, node results and result bundles, and the compiled aggregation.
- **Dependencies** (`bi_dependencies.dfy`): which elements a tree needs, and which
  services of a host it claims.
- **Compilation post-processing** (`bi_compile.dfy`): `remaining` nodes expand into
  sorted leaves for the unclaimed services of their hosts. Rules rebuild their
  children. Leaves stay as they are.
- **Computation** (`bi_compute.dfy`): the state of a leaf from the status of its
  host or service, including downtime, pending and assumed states. The state of
  a rule combines its children's results through the rule's aggregation
  function.
- **Aggregation** (`bi_aggregation.dfy`): which branches are computed with assumed
  states, the presentation records (`eval_result_node`, `create_aggr_tree`), and
  the legacy result format.
- **Serialization** (`bi_serialize.dfy`): the JSON form of leaves, rules and
  aggregations, and a decoder that follows the type-tagged schemas. Every
  compiled tree round-trips.

Five smaller pieces come from elsewhere in the code base:

- the SNMP parse, discovery and check of the ATTO FibreBridge SAS ports
  (`atto_fibrebridge_sas.dfy`);
- the argument builders of the Siemens PLC and 3PAR special agents
  (`agent_siemens_plc.dfy`, `agent_3par.dfy`, with the shared argument type in
  `special_agent_args.dfy`);
- splitting RPN metric expressions and selecting graph templates
  (`graph_templates.dfy`);
- the description and plugin name of program data sources (`programs.dfy`).

`wrappers.dfy`, `strings.dfy` and `json.dfy` hold the shared `Option`/`Result`
types, string helpers (join, split, integer parsing and printing) and a JSON
value type.

Collaborators defined outside these files become parameters:

- the aggregation functions (`Evaluator.aggregate`);
- the numeric values of `BIStates` (`StateCodes`);
- the translated "Assumed to be ..." text (`Evaluator.assumedText`);
- the host searcher (`Searcher`);
- the status fetcher (`StatusSnapshot`);
- the password store (`Agent3Par.PasswordCmdline`);
- the graph template registry (the template list and `templateFor`).

Python dictionaries that keep insertion order become association lists.

A rule's downtime remap is the reverse of a leaf's. A leaf in downtime
reports 1 when downtimes escalate as WARN and 2 otherwise. A rule whose aggregated downtime is positive reports the opposite:
2 when escalating and 1 otherwise (`BiCompute.EscalationReversedAtRule`).
Likewise, a rule counts as acknowledged only when its aggregated state is
non-zero. A `remaining` node computes to nothing.

## Model

| member | source | states |
|---|---|---|
| BiModel.LeafRequiredHosts | cmk/utils/bi/bi_trees.py:68-77 | a leaf requires exactly one host: its own site and host |
| BiDependencies.Leaves | cmk/utils/bi/bi_trees.py:101-102 | the leaves collected from a tree are all leaves |
| BiDependencies.LeavesOf | cmk/utils/bi/bi_trees.py:282-283 | the leaves collected from a list of trees are all leaves |
| BiDependencies.LeavesOfMembers | cmk/utils/bi/bi_trees.py:282-283 | a leaf belongs to the leaves of a list exactly when it belongs to the leaves of one of its trees |
| BiDependencies.ElementOf | cmk/utils/bi/bi_trees.py:101-102 | the element a leaf requires carries the leaf's site, host and service |
| BiDependencies.RequiredElements | cmk/utils/bi/bi_trees.py:100-102 | a leaf requires exactly its own element; a remaining node requires nothing |
| BiDependencies.RequiredElementsAreLeaves | cmk/utils/bi/bi_trees.py:281-283 | an element is required by a tree exactly when it is the element of one of the tree's leaves |
| BiDependencies.ServicesOfHost | cmk/utils/bi/bi_trees.py:87-90 | a leaf claims a service of a host exactly when it is on that host with a non-empty service; a remaining node claims nothing |
| BiDependencies.ServicesOfHostAreLeaves | cmk/utils/bi/bi_trees.py:278-279 | a tree claims service s of host h exactly when one of its leaves is on h with service s and s is not empty |
| BiDependencies.ClaimedServicesAreRequired | cmk/utils/bi/bi_trees.py:278-283 | every claimed service is also a required element of the tree, on some site |
| BiCompile.ComparableName | cmk/utils/bi/bi_trees.py:266-267 | a rule sorts by its title; a remaining node sorts by the empty string |
| BiCompile.Insert | cmk/utils/bi/bi_trees.py:420 | inserting into a sorted list keeps it sorted and adds exactly one copy of the node |
| BiCompile.SortNodes | cmk/utils/bi/bi_trees.py:420 | the sorted result is ordered by comparable name and is a permutation of the input |
| BiCompile.Unused | cmk/utils/bi/bi_trees.py:414 | the unused services are exactly the host's services outside the used set, each once |
| BiCompile.HostLeaves | cmk/utils/bi/bi_trees.py:415-418 | one leaf per service, on the host's site and host, in the given order |
| BiCompile.ExpandHosts | cmk/utils/bi/bi_trees.py:412-413 | expansion succeeds exactly when every host is known to the searcher; a failure names an unknown host from the list |
| BiCompile.CompilePostprocess | cmk/utils/bi/bi_trees.py:269-276 | a result has no remaining nodes; a leaf compiles to itself; a rule compiles to one rule that differs only in its children; a remaining node compiles to a sorted list |
| BiCompile.CompileAll | cmk/utils/bi/bi_trees.py:271-274 | compiling a list of children leaves no remaining node |
| BiCompile.CompileAllFlatMap | cmk/utils/bi/bi_trees.py:271-274 | compiling a list of children succeeds iff every child's post-pass succeeds, and then yields the children's outputs concatenated in child order |
| BiCompile.RuleCompilesChildren | cmk/utils/bi/bi_trees.py:268-275 | a rule compiles iff each of its children does, to itself with its children replaced by their concatenated outputs |
| BiCompile.CompileAllMembers | cmk/utils/bi/bi_trees.py:271-274 | a node is in the compiled list iff some child contributes it: a leaf child itself, a rule child its compiled form, a remaining child one of its expected leaves |
| BiCompile.ContributesIff | cmk/utils/bi/bi_trees.py:268-275 | a node is in one child's post-pass output iff that child contributes it |
| BiCompile.ExpandedAreLeaves | cmk/utils/bi/bi_trees.py:409-422 | the expansion contains exactly the leaves for the known hosts' services that are not yet used |
| BiCompile.RemainingExpansion | cmk/utils/bi/bi_trees.py:409-422 | a remaining node compiles iff all its hosts are known, and then to exactly the expected leaves, sorted |
| BiCompile.ExpandedDistinct | cmk/utils/bi/bi_trees.py:409-422 | distinct hosts expand to distinct leaves |
| BiCompile.CompileFixesCompiled | cmk/utils/bi/bi_trees.py:269-276 | compiling a tree without remaining nodes returns it unchanged |
| BiCompile.CompileAllFixesCompiled | cmk/utils/bi/bi_trees.py:269-276 | compiling children without remaining nodes returns them unchanged |
| BiCompile.ExampleExpansion | cmk/utils/bi/bi_trees.py:409-422 | a host with services CPU, Disk and Mem, of which CPU is used, expands to leaves for Disk and Mem |
| BiCompile.ExampleOrder | cmk/utils/bi/bi_trees.py:79-80 | the leaf for Disk sorts before the leaf for Mem on the same host |
| BiCompile.WildcardExample | cmk/utils/bi/bi_trees.py:409-422 | a remaining node on a host with CPU, Disk and Mem, next to a leaf that claims CPU, compiles to the leaves for Disk and Mem, in that order |
| BiCompute.GetEntity | cmk/utils/bi/bi_trees.py:178-186 | the entity is found iff the host is known and, for a service leaf, the service is too; it is the host's status or the service's |
| BiCompute.MapHostStateToBiState | cmk/utils/bi/bi_trees.py:164-171 | UP maps to OK, DOWN to CRIT, anything else to UNKNOWN |
| BiCompute.LeafDowntime | cmk/utils/bi/bi_trees.py:119-122 | the code is 0 iff the downtime depth is 0; otherwise 1 when escalating as WARN and 2 otherwise |
| BiCompute.LeafState | cmk/utils/bi/bi_trees.py:124-131 | an unchecked entity is pending; a service gives its hard or soft state; a host gives its mapped state |
| BiCompute.ComputeLeaf | cmk/utils/bi/bi_trees.py:108-162 | no result iff the entity or either of its states is missing; the actual result's fields; an assumed result exactly when assumed states are in use and one exists for the leaf, sharing the actual result's downtime, acknowledgement and service period, with the output "Assumed to be" the state's name (a host or a service state name by whether the leaf names a service) and no state messages |
| BiCompute.Message | cmk/utils/bi/bi_trees.py:338 | the state message is the text of the first entry stored under the key, or empty when there is none |
| BiCompute.ProcessResults | cmk/utils/bi/bi_trees.py:316-343 | the aggregated state; positive downtime remapped 2/1 by escalation; acknowledged iff the state is non-zero and the unacknowledged states aggregate to 0; in service period iff the period codes aggregate to 0; the output is the message for the state |
| BiCompute.Compute | cmk/utils/bi/bi_trees.py:290-314 | a remaining node gives nothing; a result is about its node and well shaped; without assumed states no bundle holds one; a rule has an assumed result iff assumed states are in use; a rule's actual result aggregates its nested bundles' actual results, and its assumed result their assumed-or-actual results |
| BiCompute.ComputeAggregated | cmk/utils/bi/bi_trees.py:290-313 | at every rule of a computed result tree, the actual and assumed results are the aggregations of that rule's nested bundles |
| BiCompute.RuleChildren | cmk/utils/bi/bi_trees.py:294-301 | a rule gives nothing iff all its children give nothing; otherwise its nested results are the children's results in order |
| BiCompute.ChildBundleOrigin | cmk/utils/bi/bi_trees.py:294-299 | every nested bundle is the result of one of the rule's children |
| BiCompute.ActualIndependentOfAssumed | cmk/utils/bi/bi_trees.py:290-314 | the actual results do not depend on whether assumed states are used |
| BiCompute.AssumedWithoutOverridesIsActual | cmk/utils/bi/bi_trees.py:302-313 | when no required element has an assumed state, the effective result equals the actual one |
| BiCompute.RuleDowntimeValid | cmk/utils/bi/bi_trees.py:321-324 | for an aggregation function that picks one of its inputs, a rule's downtime code stays in {0, 1, 2} |
| BiCompute.DowntimeCodesInRange | cmk/utils/bi/bi_trees.py:321-324 | every downtime code in a computed tree is 0, 1 or 2 |
| BiCompute.EscalationReversedAtRule | cmk/utils/bi/bi_trees.py:321-324 | a leaf in downtime reports 1 when escalating and 2 otherwise, while its rule reports 2 when escalating and 1 otherwise |
| BiAggregation.UseAssumed | cmk/utils/bi/bi_trees.py:468-471 | a branch is computed with assumed states iff one of its required elements has an assumed state |
| BiAggregation.ComputeBranches | cmk/utils/bi/bi_trees.py:466-478 | the results are, in order, the branch results that exist |
| BiAggregation.BranchResultOrigin | cmk/utils/bi/bi_trees.py:466-478 | every result is a branch's computation under its own gate, and a rule result holds an assumed result iff the gate was open |
| BiAggregation.GateIsSound | cmk/utils/bi/bi_trees.py:468-474 | gating assumed states per branch changes neither the actual nor the effective result compared with always using them |
| BiAggregation.EvalResultNode | cmk/utils/bi/bi_trees.py:538-559 | succeeds iff the tree has no remaining node; a leaf's host, required hosts, optional service and title; a rule's title, id, required hosts, layout style, optional icon, and one descriptor per child that is that child's own description |
| BiAggregation.EvalAll | cmk/utils/bi/bi_trees.py:556 | a list of nodes is described iff none of them holds a remaining node, and then the i-th descriptor is the description of the i-th node |
| BiAggregation.CreateAggrTreeAsWritten | cmk/utils/bi/bi_trees.py:527-536 | the group tree is the names plus the joined paths, and the aggregation's own group names are overwritten with it |
| BiAggregation.GroupTreeDuplicatedAsWritten | cmk/utils/bi/bi_trees.py:527-536 | a second call appends the joined paths a second time |
| BiAggregation.GroupTreeDuplicatedExample | cmk/utils/bi/bi_trees.py:527-536 | with one path a/b and no names, the second call yields ["a/b", "a/b"] |
| BiAggregation.CreateAggrTree | cmk/utils/bi/bi_trees.py:527-536 | the group tree is the names followed by each path joined with "/"; the root descriptor, id, type "multi", option flags and node visualization |
| BiAggregation.GenerateState | cmk/utils/bi/bi_trees.py:481-490 | the state record copies the result and is in downtime iff the downtime code is positive |
| BiAggregation.CreateTreeState | cmk/utils/bi/bi_trees.py:492-502 | succeeds iff the bundle is presentable; the actual and assumed records, the node descriptor, and as many nested tree states as nested bundles, the k-th being the tree state of the k-th bundle |
| BiAggregation.ConvertResultToLegacyFormat | cmk/utils/bi/bi_trees.py:480-525 | succeeds iff the bundle is presentable and about a rule; aggr_tree is the branch's aggregation tree and tree equals it; the top tree state holds the branch's states and that tree, then the k-th nested bundle's tree state; the effective state is the assumed one when present; the name, output, hosts, type "multi", group "dummy", the aggregation itself and the branch |
| BiAggregation.TreeStateMirrors | cmk/utils/bi/bi_trees.py:492-502 | the tree state of a presentable result tree mirrors it entry by entry, at every depth |
| BiAggregation.ConvertMirrorsResult | cmk/utils/bi/bi_trees.py:492-508 | the legacy record's tree state holds the branch's states and aggregation tree at the top and mirrors every nested bundle below |
| BiSerialize.Serialize | cmk/utils/bi/bi_trees.py:349-363 | always a JSON object, empty exactly for a remaining node |
| BiSerialize.Deserialize | cmk/utils/bi/bi_trees.py:596-605 | a decoded node is never a remaining node |
| BiSerialize.DeserializeAll | cmk/utils/bi/bi_trees.py:370 | one decoded node per JSON element |
| BiSerialize.RoundTrip | cmk/utils/bi/bi_trees.py:349-382 | a tree without remaining nodes decodes back to itself |
| BiSerialize.RoundTripAll | cmk/utils/bi/bi_trees.py:361-370 | a list of such trees decodes back to itself |
| BiSerialize.FieldOfKey | cmk/utils/bi/bi_trees.py:596-605 | in a record with distinct keys, a field is found at its own position |
| BiSerialize.LeafRoundTrip | cmk/utils/bi/bi_trees.py:192-221 | every leaf decodes back to itself |
| BiSerialize.RuleRoundTrip | cmk/utils/bi/bi_trees.py:349-382 | a rule whose children decode back decodes back to itself |
| BiSerialize.UnknownTagRejected | cmk/utils/bi/bi_trees.py:596-602 | an object whose type is neither "leaf" nor "rule" is rejected with that type |
| BiSerialize.RemainingNotReadable | cmk/utils/bi/bi_trees.py:437-438 | the serialized remaining node cannot be read back: it has no type |
| BiSerialize.HostSpecsRoundTrip | cmk/utils/bi/bi_trees.py:206-213 | required hosts round-trip through their site/host objects |
| BiSerialize.PropertiesRoundTrip | cmk/utils/bi/bi_trees.py:362 | rule properties round-trip |
| BiSerialize.DeserializeAggregation | cmk/utils/bi/bi_trees.py:578-580 | every decoded branch is a rule |
| BiSerialize.AggregationRoundTrip | cmk/utils/bi/bi_trees.py:568-593 | an aggregation whose branches are compiled rules round-trips |
| AttoFibrebridgeSas.Decode | cmk/base/legacy_checks/atto_fibrebridge_sas.py:36-40 | a column decodes iff it exists, is an integer and is a key of the table, and then to the table's text |
| AttoFibrebridgeSas.ParseRow | cmk/base/legacy_checks/atto_fibrebridge_sas.py:35-42 | a row parses iff all six coded columns decode; item from column 0, oper state from 1, admin state from 6, PHY states from 2 to 5 |
| AttoFibrebridgeSas.PutLookup | cmk/base/legacy_checks/atto_fibrebridge_sas.py:42 | after storing a port under an item, that item looks up to it and other items are unaffected |
| AttoFibrebridgeSas.ParseInto | cmk/base/legacy_checks/atto_fibrebridge_sas.py:34-44 | adding rows to a parsed section succeeds iff every row parses, and keeps items distinct |
| AttoFibrebridgeSas.ParseWith | cmk/base/legacy_checks/atto_fibrebridge_sas.py:33-44 | parsing succeeds iff every row decodes, and then items are distinct |
| AttoFibrebridgeSas.ParsedIsLastRow | cmk/base/legacy_checks/atto_fibrebridge_sas.py:34-42 | after adding rows, an item looks up to the port of the last added row carrying it, or to its earlier port when no row carries it |
| AttoFibrebridgeSas.SectionLookup | cmk/base/legacy_checks/atto_fibrebridge_sas.py:33-44 | in a parsed table, an item looks up to the port of the last row carrying it |
| AttoFibrebridgeSas.ParsedItems | cmk/base/legacy_checks/atto_fibrebridge_sas.py:34-42 | after adding rows, the items are the earlier items plus the first cells of the added rows |
| AttoFibrebridgeSas.SectionItems | cmk/base/legacy_checks/atto_fibrebridge_sas.py:33-44 | the items of a parsed table are exactly the first cells of its rows |
| AttoFibrebridgeSas.PhyCodeThreeRejected | cmk/base/legacy_checks/atto_fibrebridge_sas.py:13-17 | a PHY code 3 has no meaning and fails the parse with that code |
| AttoFibrebridgeSas.Discover | cmk/base/legacy_checks/atto_fibrebridge_sas.py:47-50 | discovery yields no more items than there are ports |
| AttoFibrebridgeSas.DiscoverExactlyEnabled | cmk/base/legacy_checks/atto_fibrebridge_sas.py:47-50 | an item is discovered iff one of its ports is administratively enabled |
| AttoFibrebridgeSas.Check | cmk/base/legacy_checks/atto_fibrebridge_sas.py:53-67 | fails iff the item is missing or its oper state has no severity; otherwise the severity and text of the oper state, then four OK results, the k-th reading "PHY<k> operational state: " followed by the k-th PHY state |
| AttoFibrebridgeSas.ParsedPortsHaveFourPhys | cmk/base/legacy_checks/atto_fibrebridge_sas.py:33-44 | every port a parsed table yields carries exactly four PHY states |
| AttoFibrebridgeSas.DegradedPortFailsAsWritten | cmk/base/legacy_checks/atto_fibrebridge_sas.py:19-64 | a port reported degraded parses, and its check fails on the key "degraded," |
| AttoFibrebridgeSas.CheckTotalWhenIntended | cmk/base/legacy_checks/atto_fibrebridge_sas.py:53-64 | with the intended "degraded" text, the check succeeds for every parsed item |
| AgentSiemensPlc.Arguments | cmk/base/legacy_checks/agent_siemens_plc.py:12-39 | the optional timeout pair first, then a `--hostspec` flag and the device's spec for each device, in order |
| AgentSiemensPlc.HostSpecArgsAt | cmk/base/legacy_checks/agent_siemens_plc.py:36-37 | spec k sits at position 2k+1, after its flag at 2k |
| AgentSiemensPlc.TimeoutFlagIff | cmk/base/legacy_checks/agent_siemens_plc.py:17-18 | `--timeout` appears iff a timeout is configured |
| AgentSiemensPlc.DeviceSpecIsJoin | cmk/base/legacy_checks/agent_siemens_plc.py:21-34 | a host spec is its fields joined by ";" |
| AgentSiemensPlc.DeviceSpecFields | cmk/base/legacy_checks/agent_siemens_plc.py:21-34 | when no field holds ";", splitting the host spec recovers name, address, rack, slot, port and each value field |
| AgentSiemensPlc.ValueFieldParts | cmk/base/legacy_checks/agent_siemens_plc.py:28-34 | when no part holds ",", a value field splits back into its parts |
| AgentSiemensPlc.TuplePartItems | cmk/base/legacy_checks/agent_siemens_plc.py:30-31 | when no item holds ":", a tuple part splits back into its items |
| Agent3Par.Target | cmk/base/legacy_checks/agent_3par.py:30 | the target is the address when it is non-empty, else the host name |
| Agent3Par.Arguments | cmk/base/legacy_checks/agent_3par.py:13-32 | the count of arguments, the user, password and port arguments first, and the target last |
| Agent3Par.NoCertCheckIff | cmk/base/legacy_checks/agent_3par.py:24-25 | `--no-cert-check` appears iff certificate verification is not set to true |
| Agent3Par.ValuesArgs | cmk/base/legacy_checks/agent_3par.py:27-28 | `--values` appears iff values are configured, followed by the values joined with "," |
| GraphTemplates.Suffix | cmk/gui/graphing/_graph_templates.py:210 | the suffix found is one the part ends with; none is found iff the part ends with none of the three |
| GraphTemplates.RSplitSuffix | cmk/gui/graphing/_graph_templates.py:211 | splitting at the last dot of a part ending in a suffix cuts off exactly that suffix |
| GraphTemplates.ParsePartMeaning | cmk/gui/graphing/_graph_templates.py:209-237 | a part with a suffix fails iff another function is enforced, else gives the text before the suffix and its function; any other part gives itself and the enforced function |
| GraphTemplates.RpnBranchUnreachable | cmk/gui/graphing/_graph_templates.py:232-233 | the ValueError branch never fires |
| GraphTemplates.ParseParts | cmk/gui/graphing/_graph_templates.py:209-237 | succeeds iff every part does, with one pair per part, in order |
| GraphTemplates.IterRpnExpression | cmk/gui/graphing/_graph_templates.py:205-209 | one pair per comma-separated part |
| GraphTemplates.RpnExpressionRefused | cmk/gui/graphing/_graph_templates.py:212-222 | the expression is refused iff some part names a function other than the enforced one |
| GraphTemplates.RpnExpressionPair | cmk/gui/graphing/_graph_templates.py:209-237 | each pair is a part with its suffix removed and the suffix's function, or the part with the enforced function |
| GraphTemplates.FilterTemplatesMembers | cmk/gui/graphing/_graph_templates.py:150-155 | a numbered template is kept iff its index and id pass the optional filters |
| GraphTemplates.MatchingGraphTemplates | cmk/gui/graphing/_graph_templates.py:135-155 | a single-metric id yields only that metric's template at index 0; indices increase |
| GraphTemplates.MatchingGraphTemplatesMembers | cmk/gui/graphing/_graph_templates.py:150-155 | otherwise exactly the templates passing both filters are yielded, under their original positions |
| Programs.MakeDescription | cmk/base/sources/programs.py:76-81 | the description starts with "Program: " and the command line |
| Programs.DescriptionShape | cmk/base/sources/programs.py:76-81 | without stdin it is that line alone; with stdin, the line "  Program stdin:" and the stdin follow on new lines |
| Programs.DescriptionLines | cmk/base/sources/programs.py:76-81 | for a one-line command, the first line of the description is the program line, and a one-line stdin gives exactly three lines |
| Programs.DsProgramDescription | cmk/base/sources/programs.py:107 | a DS program source's description is the program line alone |
| Programs.SpecialAgentPluginFileName | cmk/base/sources/programs.py:153 | the plugin file name is "agent_" followed by the agent name |

## Left out

- The marshmallow schemas beyond their structure. The decoder checks the type tag and the fields the compiled nodes carry. Field validation is not modelled: `ReqString` and friends, the aggregation-function and node-visualization schemas, and `create_nested_schema_for_class`.
- BiSerialize.PropertiesRoundTrip: rule properties are serialized as title, icon and state messages only. `BIRuleProperties` is not part of this model.
- `instance_method_lru_cache`: caching does not change results.
- The i18n of "Assumed to be ..." and the state names: they come from the `assumedText` parameter.
- The aggregation functions and the numeric values of `BIStates`: both are parameters. `BiCompute.RuleDowntimeValid` and `BiCompute.DowntimeCodesInRange` assume functions that pick one of their inputs.
- The ordering of leaves (`__lt__` in the BI library, which is not part of this model): the model sorts by `_get_comparable_name` with lexicographic order.
- BiCompile.Unused: iterating a Python set gives an unspecified order. The model keeps the searcher's service order, and the final sort hides the difference.
- The `extra` dictionaries of node results. `aggr_group` is the constant "dummy"; the `aggr_compiled_aggregation` back-reference is `LegacyRecord.aggrCompiledAggregation`, the aggregation value itself rather than an object reference.
- Mutation in place: `compile_postprocess` rewrites `self.nodes`, which the model returns as a new rule. Aliasing is modelled only where it changes results (the group tree finding).
- AttoFibrebridgeSas.ParseRow: `int()` also accepts surrounding whitespace and underscores. The model's `ParseInt` takes an optional sign and digits only.
- AttoFibrebridgeSas.Check: a PHY state that is missing from the port prints as "". `ParsedPortsHaveFourPhys` shows that no parsed port lacks one.
- GraphTemplates.IterRpnExpression: the generator is lazy, so the pairs before a refused part are already yielded when the exception is raised. The model returns the whole list or the error.
- `get_graph_templates` and `get_graph_template` become parameters. The recipe builders, the livestatus fetch and the rest of `_graph_templates.py` are left out.
- The fetchers, parsers, summarizers and file caches of the program sources are left out, as are their constructors beyond the stdin and plugin name they set.
- AgentSiemensPlc.Arguments: value parts are taken as already converted with `str`. Timeout, rack, slot and port are printed in decimal with `%d`, except that the timeout is passed through as a raw integer argument (`Arg.Int`).
- Agent3Par.NoCertCheckIff and Agent3Par.ValuesArgs: both require that no other argument has the flag's text, because a user name or host name equal to the flag would also make it appear.
- The registration in `special_agent_info` and `check_info`, and the SNMP detection of the ATTO check.

## Findings

| source | as written | input that shows it | evidently intended | confidence | as-written member | corrected member |
|---|---|---|---|---|---|---|
| cmk/utils/bi/bi_trees.py:527-536 | `aggr_group_tree` is bound to the aggregation's own `groups.names` list, then extended in place with the joined paths, so every call grows the stored names | groups with no names and the path ["a", "b"]: `convert_result_to_legacy_format` calls `create_aggr_tree` twice, and the second tree lists "a/b" twice (the first tree holds the same list object, so it shows the same duplication) | the group tree is the names followed by the joined paths, with the aggregation left unchanged | medium, not executed; depends on `BIAggregationGroups.names` being a plain list, which is not part of this model | BiAggregation.CreateAggrTreeAsWritten | BiAggregation.CreateAggrTree |
| cmk/base/legacy_checks/atto_fibrebridge_sas.py:19-64 | SAS oper state code 3 parses to "degraded," with a trailing comma, which is not a key of the severity table | a row [item, "3", "1", "1", "1", "1", "2"]: the check fails with a KeyError on "degraded," | code 3 maps to "degraded" with severity WARN | high, not executed | AttoFibrebridgeSas.DegradedPortFailsAsWritten | AttoFibrebridgeSas.CheckTotalWhenIntended |
