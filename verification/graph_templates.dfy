/** Two pieces of graph-template handling in `cmk/gui/graphing/_graph_templates.py`:
    splitting an RPN metric expression into its parts with their
    consolidation functions (`iter_rpn_expression`), and selecting the
    templates a graph specification asks for (`matching_graph_templates`). */
module GraphTemplates {
  import opened Wrappers
  import opened Strings

  /** `GraphConsoldiationFunction`. */
  datatype Cf = Max | Min | Average

  function CfName(cf: Cf): (name: string)
    ensures '.' !in name && |name| > 0
  {
    match cf
    case Max => "max"
    case Min => "min"
    case Average => "average"
  }

  datatype RpnError =
      /** The expression names a consolidation function other than the graph's. */
    | DifferentConsolidation(expression: string, enforced: Cf)
      /** The `ValueError` branch; `RpnBranchUnreachable` shows it never fires. */
    | UnknownConsolidation(raw: string)

  /** Position of the last `c` in `s`. */
  function LastIndexOf(s: string, c: char): (i: nat)
    requires c in s
    ensures i < |s| && s[i] == c && c !in s[i + 1..]
  {
    if s[|s| - 1] == c then |s| - 1
    else
      assert c in s[..|s| - 1] by {
        var k :| 0 <= k < |s| && s[k] == c;
        assert s[..|s| - 1][k] == c;
      }
      var i := LastIndexOf(s[..|s| - 1], c);
      assert s[i + 1..] == s[..|s| - 1][i + 1..] + [s[|s| - 1]];
      i
  }

  /** `s.rsplit(".", 1)` for a string holding a dot. */
  function RSplitDot(s: string): (r: (string, string))
    requires '.' in s
    ensures s == r.0 + "." + r.1 && '.' !in r.1
  {
    var i := LastIndexOf(s, '.');
    assert s == s[..i] + "." + s[i + 1..];
    (s[..i], s[i + 1..])
  }

  /** The suffix naming a consolidation function. */
  function Dotted(cf: Cf): (s: string)
    ensures s == "." + CfName(cf)
  {
    match cf
    case Max => ".max"
    case Min => ".min"
    case Average => ".average"
  }

  /** The consolidation suffix a part ends with, in the order the source tests them. */
  function Suffix(part: string): (r: Option<Cf>)
    ensures r.Some? ==> EndsWith(part, Dotted(r.value))
    ensures r.None? <==> !EndsWith(part, Dotted(Max)) && !EndsWith(part, Dotted(Min)) && !EndsWith(part, Dotted(Average))
  {
    if EndsWith(part, ".max") then Some(Max)
    else if EndsWith(part, ".min") then Some(Min)
    else if EndsWith(part, ".average") then Some(Average)
    else None
  }

  /** One part of the expression. */
  function ParsePart(expression: string, part: string, enforced: Option<Cf>): (r: Result<(string, Option<Cf>), RpnError>)
  {
    if Suffix(part).Some? then
      assert part[|part| - |Dotted(Suffix(part).value)|] == '.';
      var (name, raw) := RSplitDot(part);
      if enforced.Some? && raw != CfName(enforced.value) then
        Failure(DifferentConsolidation(expression, enforced.value))
      else if raw == "max" then Success((name, Some(Max)))
      else if raw == "min" then Success((name, Some(Min)))
      else if raw == "average" then Success((name, Some(Average)))
      else Failure(UnknownConsolidation(raw))
    else Success((part, enforced))
  }

  /** `rsplit` on a part ending in `.<cf>` cuts exactly that suffix off. */
  lemma RSplitSuffix(part: string, cf: Cf)
    requires EndsWith(part, Dotted(cf))
    ensures '.' in part
    ensures RSplitDot(part) == (part[..|part| - |Dotted(cf)|], CfName(cf))
  {
    var name := CfName(cf);
    var k := |part| - |name| - 1;
    assert part[k..] == "." + name;
    assert part[k] == '.';
    assert part[k + 1..] == name;
    var i := LastIndexOf(part, '.');
    assert i == k;
  }

  /** A part with a suffix yields the text before it and that function;
      one without yields itself and the enforced function. */
  lemma ParsePartMeaning(expression: string, part: string, enforced: Option<Cf>)
    ensures Suffix(part).None? ==> ParsePart(expression, part, enforced) == Success((part, enforced))
    ensures Suffix(part).Some? ==>
      var cf := Suffix(part).value;
      ParsePart(expression, part, enforced) ==
        if enforced.Some? && enforced.value != cf then Failure(DifferentConsolidation(expression, enforced.value))
        else Success((part[..|part| - |Dotted(cf)|], Some(cf)))
  {
    if Suffix(part).Some? {
      var cf := Suffix(part).value;
      RSplitSuffix(part, cf);
      if enforced.Some? {
        CfNameInjective(enforced.value, cf);
      }
    }
  }

  lemma CfNameInjective(a: Cf, b: Cf)
    ensures CfName(a) == CfName(b) <==> a == b
  {
    if a != b {
      assert CfName(a)[1] != CfName(b)[1];
    }
  }

  /** The `ValueError` branch is dead: a part never fails for an unknown function. */
  lemma RpnBranchUnreachable(expression: string, part: string, enforced: Option<Cf>)
    ensures ParsePart(expression, part, enforced).Failure? ==>
      ParsePart(expression, part, enforced).error.DifferentConsolidation?
  {
    ParsePartMeaning(expression, part, enforced);
  }

  function ParseParts(expression: string, parts: seq<string>, enforced: Option<Cf>): (r: Result<seq<(string, Option<Cf>)>, RpnError>)
    ensures r.Success? ==> |r.value| == |parts|
    ensures r.Success? <==> forall i :: 0 <= i < |parts| ==> ParsePart(expression, parts[i], enforced).Success?
    ensures r.Success? ==> forall i :: 0 <= i < |parts| ==> Success(r.value[i]) == ParsePart(expression, parts[i], enforced)
  {
    if |parts| == 0 then Success([])
    else
      var first :- ParsePart(expression, parts[0], enforced);
      var rest :- ParseParts(expression, parts[1..], enforced);
      assert forall i :: 1 <= i < |parts| ==> parts[1..][i - 1] == parts[i];
      Success([first] + rest)
  }

  /** `list(iter_rpn_expression(expression, enforced))`: one pair per
      comma-separated part, in order. */
  function IterRpnExpression(expression: string, enforced: Option<Cf>): (r: Result<seq<(string, Option<Cf>)>, RpnError>)
    ensures r.Success? ==> |r.value| == |Split(expression, ',')|
  {
    ParseParts(expression, Split(expression, ','), enforced)
  }

  /** Whether a part names a consolidation function other than the enforced one. */
  predicate Conflicts(part: string, enforced: Option<Cf>) {
    enforced.Some? && Suffix(part).Some? && Suffix(part).value != enforced.value
  }

  /** Whether some part conflicts with the enforced function. */
  predicate AnyConflict(parts: seq<string>, enforced: Option<Cf>) {
    exists i :: 0 <= i < |parts| && Conflicts(parts[i], enforced)
  }

  /** The expression is refused exactly when a part names a function other
      than an enforced one. */
  lemma RpnExpressionRefused(expression: string, enforced: Option<Cf>)
    ensures IterRpnExpression(expression, enforced).Failure? <==> AnyConflict(Split(expression, ','), enforced)
  {
    var parts := Split(expression, ',');
    forall i | 0 <= i < |parts|
      ensures ParsePart(expression, parts[i], enforced).Failure? <==> Conflicts(parts[i], enforced)
    {
      ParsePartMeaning(expression, parts[i], enforced);
    }
  }

  /** Each yielded pair: a part with a suffix gives the text before the dot
      and its own function; any other part comes with the enforced one. */
  lemma RpnExpressionPair(expression: string, enforced: Option<Cf>, i: nat)
    requires IterRpnExpression(expression, enforced).Success?
    requires i < |Split(expression, ',')|
    ensures var part := Split(expression, ',')[i];
      var pair := IterRpnExpression(expression, enforced).value[i];
      if Suffix(part).Some? then part == pair.0 + Dotted(Suffix(part).value) && pair.1 == Suffix(part)
      else pair == (part, enforced)
  {
    var parts := Split(expression, ',');
    var pairs := ParseParts(expression, parts, enforced).value;
    PartPair(expression, parts[i], enforced, pairs[i]);
  }

  /** The pair one part yields, read back against the part. */
  lemma PartPair(expression: string, part: string, enforced: Option<Cf>, pair: (string, Option<Cf>))
    requires ParsePart(expression, part, enforced) == Success(pair)
    ensures if Suffix(part).Some? then part == pair.0 + Dotted(Suffix(part).value) && pair.1 == Suffix(part)
      else pair == (part, enforced)
  {
    ParsePartMeaning(expression, part, enforced);
    if Suffix(part).Some? {
      CutSuffix(part, Dotted(Suffix(part).value));
    }
  }

  lemma CutSuffix(s: string, suffix: string)
    requires EndsWith(s, suffix)
    ensures s == s[..|s| - |suffix|] + suffix
  {
    assert s == s[..|s| - |suffix|] + s[|s| - |suffix|..];
  }

  /** A graph template: its id and the rest of its definition, carried along. */
  datatype GraphTemplate<D> = GraphTemplate(id: string, definition: D)

  /** `enumerate(...)` filtered on the optional index and id. */
  function FilterTemplates<D>(templates: seq<GraphTemplate<D>>, from: nat, graphIndex: Option<int>, graphId: Option<string>): (r: seq<(int, GraphTemplate<D>)>)
    ensures forall k :: 0 <= k < |r| ==> from <= r[k].0 < from + |templates|
    ensures forall k, l :: 0 <= k < l < |r| ==> r[k].0 < r[l].0
  {
    if |templates| == 0 then []
    else
      var t := templates[0];
      var keep := (graphIndex.None? || from == graphIndex.value) && (graphId.None? || t.id == graphId.value);
      (if keep then [(from as int, t)] else []) + FilterTemplates(templates[1..], from + 1, graphIndex, graphId)
  }

  /** Whether template `i` passes both filters. */
  predicate Selected<D>(templates: seq<GraphTemplate<D>>, i: int, graphIndex: Option<int>, graphId: Option<string>) {
    0 <= i < |templates|
    && (graphIndex.None? || i == graphIndex.value)
    && (graphId.None? || templates[i].id == graphId.value)
  }

  lemma {:induction false} FilterTemplatesMembers<D>(templates: seq<GraphTemplate<D>>, from: nat, graphIndex: Option<int>, graphId: Option<string>, i: int, t: GraphTemplate<D>)
    ensures (i, t) in FilterTemplates(templates, from, graphIndex, graphId) <==>
      && from <= i < from + |templates|
      && (graphIndex.None? || i == graphIndex.value)
      && (graphId.None? || templates[i - from].id == graphId.value)
      && templates[i - from] == t
  {
    if |templates| > 0 {
      FilterTemplatesMembers(templates[1..], from + 1, graphIndex, graphId, i, t);
      if from < i < from + |templates| {
        assert templates[1..][i - from - 1] == templates[i - from];
      }
    }
  }

  /** Whether a graph id names a single metric of the host: `METRIC_<m>`. */
  predicate IsMetricGraph(graphId: Option<string>, translatedMetrics: set<string>) {
    graphId.Some? && StartsWith(graphId.value, "METRIC_") && graphId.value[7..] in translatedMetrics
  }

  /** `matching_graph_templates`: the template list for the host's metrics
      and the template for a single metric are parameters. */
  function MatchingGraphTemplates<D>(
    graphId: Option<string>,
    graphIndex: Option<int>,
    translatedMetrics: set<string>,
    templates: seq<GraphTemplate<D>>,
    templateFor: string -> GraphTemplate<D>): (r: seq<(int, GraphTemplate<D>)>)
    ensures IsMetricGraph(graphId, translatedMetrics) ==> r == [(0, templateFor(graphId.value))]
    ensures forall k, l :: 0 <= k < l < |r| ==> r[k].0 < r[l].0
  {
    if IsMetricGraph(graphId, translatedMetrics) then [(0, templateFor(graphId.value))]
    else FilterTemplates(templates, 0, graphIndex, graphId)
  }

  /** Outside the single-metric case, exactly the templates passing both
      filters are selected, under their original positions. */
  lemma MatchingGraphTemplatesMembers<D>(
    graphId: Option<string>,
    graphIndex: Option<int>,
    translatedMetrics: set<string>,
    templates: seq<GraphTemplate<D>>,
    templateFor: string -> GraphTemplate<D>,
    i: int,
    t: GraphTemplate<D>)
    requires !IsMetricGraph(graphId, translatedMetrics)
    ensures (i, t) in MatchingGraphTemplates(graphId, graphIndex, translatedMetrics, templates, templateFor) <==>
      Selected(templates, i, graphIndex, graphId) && templates[i] == t
  {
    FilterTemplatesMembers(templates, 0, graphIndex, graphId, i, t);
  }
}
