// Rules fold into arrows: one per edge identity, with the union of their ports and L7 blocks.
module RenderEdges {
  import opened Wrappers
  import opened Models
  import opened Collapse

  datatype EdgeLevel = WorkloadLevel | NamespaceLevel

  datatype PolicyEdge = PolicyEdge(
    source: string, target: string, direction: Direction, policyName: string, namespace: string,
    level: EdgeLevel, policySource: string, action: RuleAction, coverage: Coverage,
    aggregatedFrom: nat, ports: seq<Port>, l7Matches: seq<L7Match>)

  // ----- accumulating ports and L7 blocks -----

  function Numbers(ports: seq<Port>): set<int> {
    set p | p in ports :: p.port
  }

  ghost predicate DistinctNumbers(ports: seq<Port>) {
    forall i, j :: 0 <= i < j < |ports| ==> ports[i].port != ports[j].port
  }

  /** Appends the candidates whose number is new. */
  function AppendUniquePort(ports: seq<Port>, candidates: seq<Port>): (r: seq<Port>)
    ensures Numbers(r) == Numbers(ports) + Numbers(candidates) && ports <= r
    ensures DistinctNumbers(ports) ==> DistinctNumbers(r)
    decreases |candidates|
  {
    if candidates == [] then ports
    else
      var init, last := candidates[..|candidates| - 1], candidates[|candidates| - 1];
      var r := AppendUniquePort(ports, init);
      assert candidates == init + [last];
      NumbersAppend(init, last);
      NumbersAppend(r, last);
      if last.port in Numbers(r) then r else r + [last]
  }

  lemma NumbersAppend(ports: seq<Port>, p: Port)
    ensures Numbers(ports + [p]) == Numbers(ports) + {p.port}
    ensures p.port !in Numbers(ports) && DistinctNumbers(ports) ==> DistinctNumbers(ports + [p])
  {
    assert forall x :: x in ports + [p] <==> x in ports || x == p;
    assert forall i :: 0 <= i < |ports| ==> ports[i] in ports;
  }

  method AppendUniquePortLoop(ports: seq<Port>, candidates: seq<Port>) returns (r: seq<Port>)
    ensures r == AppendUniquePort(ports, candidates)
  {
    var seen: set<int> := {};
    for i := 0 to |ports|
      invariant seen == Numbers(ports[..i])
    {
      NumbersAppend(ports[..i], ports[i]);
      assert ports[..i + 1] == ports[..i] + [ports[i]];
      seen := seen + {ports[i].port};
    }
    assert ports[..|ports|] == ports;
    r := ports;
    for i := 0 to |candidates|
      invariant r == AppendUniquePort(ports, candidates[..i]) && seen == Numbers(r)
    {
      assert candidates[..i + 1][..i] == candidates[..i];
      NumbersAppend(r, candidates[i]);
      if candidates[i].port !in seen {
        seen := seen + {candidates[i].port};
        r := r + [candidates[i]];
      }
    }
    assert candidates[..|candidates|] == candidates;
  }

  function AppendUniqueL7(existing: seq<L7Match>, candidate: L7Match): seq<L7Match> {
    if candidate in existing then existing else existing + [candidate]
  }

  method AppendUniqueL7Loop(existing: seq<L7Match>, candidate: L7Match) returns (r: seq<L7Match>)
    ensures r == AppendUniqueL7(existing, candidate)
  {
    for i := 0 to |existing|
      invariant candidate !in existing[..i]
    {
      if existing[i] == candidate {
        return existing;
      }
    }
    r := existing + [candidate];
  }

  // ----- folding -----

  type Edges = map<EdgeKey, PolicyEdge>

  function NsNodeIds(nodes: seq<WorkloadNode>): set<string> {
    set n | n in nodes && n.nodeType == NamespaceNode :: n.id
  }

  /** A collapsed arrow ends on a namespace node but keeps workload level. */
  function LevelOf(rule: Rule, nsNodeIds: set<string>, count: nat): EdgeLevel {
    if count == 0 && (rule.srcID in nsNodeIds || rule.dstID in nsNodeIds) then NamespaceLevel else WorkloadLevel
  }

  function CountOf(counts: map<EdgeKey, nat>, key: EdgeKey): nat {
    if key in counts then counts[key] else 0
  }

  function NewEdge(rule: Rule, counts: map<EdgeKey, nat>, nsNodeIds: set<string>): PolicyEdge {
    var count := CountOf(counts, EdgeKeyOf(rule));
    PolicyEdge(rule.srcID, rule.dstID, rule.direction, rule.contributor.name, rule.contributor.namespace,
               LevelOf(rule, nsNodeIds, count), rule.contributor.source, rule.action, rule.coverage, count, [], [])
  }

  function AddRule(edge: PolicyEdge, rule: Rule): PolicyEdge {
    edge.(ports := if rule.ports == [] then edge.ports else AppendUniquePort(edge.ports, rule.ports),
          l7Matches := if rule.l7Match.None? then edge.l7Matches
                       else AppendUniqueL7(edge.l7Matches, rule.l7Match.value))
  }

  function Fold(rules: seq<Rule>, counts: map<EdgeKey, nat>, nsNodeIds: set<string>): Edges {
    if rules == [] then map[]
    else
      var edges, rule := Fold(rules[..|rules| - 1], counts, nsNodeIds), rules[|rules| - 1];
      var key := EdgeKeyOf(rule);
      edges[key := AddRule(if key in edges then edges[key] else NewEdge(rule, counts, nsNodeIds), rule)]
  }

  /** The arrows by identity; the program lists them in no particular order. */
  method RenderEdges(rules: seq<Rule>, nodes: seq<WorkloadNode>) returns (edges: Edges)
    ensures edges == Fold(CollapsedRules(rules, nodes), CollapsedCounts(rules, nodes), NsNodeIds(nodes))
  {
    hide Fold, CollapsedRules, CollapsedCounts;
    var collapsed, counts := CollapseUniformRules(rules, nodes);
    var nsNodeIds: set<string> := {};
    for i := 0 to |nodes|
      invariant nsNodeIds == NsNodeIds(nodes[..i])
    {
      assert nodes[..i + 1] == nodes[..i] + [nodes[i]];
      if nodes[i].nodeType == NamespaceNode {
        nsNodeIds := nsNodeIds + {nodes[i].id};
      }
    }
    assert nodes[..|nodes|] == nodes;
    edges := FoldLoop(collapsed, counts, nsNodeIds);
  }

  method FoldLoop(rules: seq<Rule>, counts: map<EdgeKey, nat>, nsNodeIds: set<string>) returns (edges: Edges)
    ensures edges == Fold(rules, counts, nsNodeIds)
  {
    hide NewEdge, AppendUniquePort;
    edges := map[];
    for i := 0 to |rules|
      invariant edges == Fold(rules[..i], counts, nsNodeIds)
    {
      assert rules[..i + 1][..i] == rules[..i];
      var rule := rules[i];
      var key := EdgeKeyOf(rule);
      var edge := if key in edges then edges[key] else NewEdge(rule, counts, nsNodeIds);
      if rule.l7Match.Some? {
        var l7 := AppendUniqueL7Loop(edge.l7Matches, rule.l7Match.value);
        edge := edge.(l7Matches := l7);
      }
      if rule.ports != [] {
        var ports := AppendUniquePortLoop(edge.ports, rule.ports);
        edge := edge.(ports := ports);
      }
      edges := edges[key := edge];
    }
    assert rules[..|rules|] == rules;
  }

  // ----- folding loses nothing -----

  ghost predicate NumberFrom(rules: seq<Rule>, key: EdgeKey, n: int) {
    exists r :: r in rules && EdgeKeyOf(r) == key && n in Numbers(r.ports)
  }

  ghost predicate L7From(rules: seq<Rule>, key: EdgeKey, l7: L7Match) {
    exists r :: r in rules && EdgeKeyOf(r) == key && r.l7Match == Some(l7)
  }

  /** The first rule that folds into the arrow. */
  function FirstOf(rules: seq<Rule>, key: EdgeKey): Option<Rule> {
    if rules == [] then None
    else
      var first, last := FirstOf(rules[..|rules| - 1], key), rules[|rules| - 1];
      if first.None? && EdgeKeyOf(last) == key then Some(last) else first
  }

  /** An arrow for the key has the key's own fields, the coverage of its first rule, the port
      numbers and L7 blocks of exactly its rules, each once, the count recorded for it, and
      namespace level only where it was not collapsed and ends on a namespace node. */
  ghost predicate IsArrowOf(
      edge: PolicyEdge, rules: seq<Rule>, key: EdgeKey, counts: map<EdgeKey, nat>, nsNodeIds: set<string>)
  {
    && key == EdgeKey(edge.source, edge.target, edge.direction, edge.policyName, edge.namespace, edge.policySource,
                      edge.action)
    && DistinctNumbers(edge.ports) && (forall n :: n in Numbers(edge.ports) <==> NumberFrom(rules, key, n))
    && (forall i, j :: 0 <= i < j < |edge.l7Matches| ==> edge.l7Matches[i] != edge.l7Matches[j])
    && (forall l7 :: l7 in edge.l7Matches <==> L7From(rules, key, l7))
    && edge.aggregatedFrom == CountOf(counts, key)
    && (edge.level == NamespaceLevel <==>
          edge.aggregatedFrom == 0 && (edge.source in nsNodeIds || edge.target in nsNodeIds))
    && (FirstOf(rules, key).Some? ==> edge.coverage == FirstOf(rules, key).value.coverage)
  }

  lemma {:induction false} FoldIsLossless(
      rules: seq<Rule>, counts: map<EdgeKey, nat>, nsNodeIds: set<string>, key: EdgeKey)
    ensures var edges := Fold(rules, counts, nsNodeIds);
            && (key in edges <==> exists r :: r in rules && EdgeKeyOf(r) == key)
            && (key in edges ==> IsArrowOf(edges[key], rules, key, counts, nsNodeIds))
  {
    if rules != [] {
      var init, rule := rules[..|rules| - 1], rules[|rules| - 1];
      assert rules == init + [rule];
      FoldIsLossless(init, counts, nsNodeIds, key);
      var edges := Fold(init, counts, nsNodeIds);
      hide Fold, EdgeKeyOf;
      if EdgeKeyOf(rule) == key {
        var before := if key in edges then edges[key] else NewEdge(rule, counts, nsNodeIds);
        if key !in edges {
          NewArrow(init, rule, counts, nsNodeIds);
        }
        SomeIsFirst(init, key);
        AddRuleKeepsArrow(before, init, rule, counts, nsNodeIds);
      } else {
        OtherRuleKeepsArrow(init, rule, key, counts, nsNodeIds);
      }
      FoldStep(rules, counts, nsNodeIds);
      assert rule in rules;
      assert forall r :: r in init ==> r in rules;
    }
  }

  lemma FoldStep(rules: seq<Rule>, counts: map<EdgeKey, nat>, nsNodeIds: set<string>)
    requires rules != []
    ensures var edges, rule := Fold(rules[..|rules| - 1], counts, nsNodeIds), rules[|rules| - 1];
            var key := EdgeKeyOf(rule);
            Fold(rules, counts, nsNodeIds)
            == edges[key := AddRule(if key in edges then edges[key] else NewEdge(rule, counts, nsNodeIds), rule)]
  {
  }

  lemma NewArrow(init: seq<Rule>, rule: Rule, counts: map<EdgeKey, nat>, nsNodeIds: set<string>)
    requires !exists r :: r in init && EdgeKeyOf(r) == EdgeKeyOf(rule)
    ensures IsArrowOf(NewEdge(rule, counts, nsNodeIds), init, EdgeKeyOf(rule), counts, nsNodeIds)
    ensures NewEdge(rule, counts, nsNodeIds).coverage == rule.coverage
  {
    SomeIsFirst(init, EdgeKeyOf(rule));
  }

  lemma {:induction false} SomeIsFirst(rules: seq<Rule>, key: EdgeKey)
    ensures FirstOf(rules, key).Some? <==> exists r :: r in rules && EdgeKeyOf(r) == key
  {
    hide EdgeKeyOf;
    if rules != [] {
      var init, last := rules[..|rules| - 1], rules[|rules| - 1];
      assert rules == init + [last];
      SomeIsFirst(init, key);
      assert forall r :: r in rules <==> r in init || r == last;
    }
  }

  lemma AddRuleKeepsArrow(
      before: PolicyEdge, init: seq<Rule>, rule: Rule, counts: map<EdgeKey, nat>, nsNodeIds: set<string>)
    requires IsArrowOf(before, init, EdgeKeyOf(rule), counts, nsNodeIds)
    requires FirstOf(init, EdgeKeyOf(rule)).None? ==> before.coverage == rule.coverage
    ensures IsArrowOf(AddRule(before, rule), init + [rule], EdgeKeyOf(rule), counts, nsNodeIds)
  {
    assert (init + [rule])[..|init|] == init;
    var key, rules, after := EdgeKeyOf(rule), init + [rule], AddRule(before, rule);
    assert rule in rules && forall r :: r in rules <==> r in init || r == rule;
    hide EdgeKeyOf;
    forall n
      ensures NumberFrom(rules, key, n) <==> NumberFrom(init, key, n) || n in Numbers(rule.ports)
    {
    }
    forall l7
      ensures L7From(rules, key, l7) <==> L7From(init, key, l7) || rule.l7Match == Some(l7)
    {
    }
  }

  lemma OtherRuleKeepsArrow(
      init: seq<Rule>, rule: Rule, key: EdgeKey, counts: map<EdgeKey, nat>, nsNodeIds: set<string>)
    requires EdgeKeyOf(rule) != key
    ensures forall edge ::
      IsArrowOf(edge, init, key, counts, nsNodeIds) ==> IsArrowOf(edge, init + [rule], key, counts, nsNodeIds)
  {
    assert (init + [rule])[..|init|] == init;
    var rules := init + [rule];
    assert forall r :: r in rules <==> r in init || r == rule;
    hide EdgeKeyOf;
    assert forall n :: NumberFrom(rules, key, n) <==> NumberFrom(init, key, n);
    assert forall l7 :: L7From(rules, key, l7) <==> L7From(init, key, l7);
  }

  // ----- ports, one by one -----

  lemma {:induction false} AppendedPortsComeFrom(ports: seq<Port>, candidates: seq<Port>)
    ensures forall x :: x in AppendUniquePort(ports, candidates) ==> x in ports || x in candidates
    decreases |candidates|
  {
    if candidates != [] {
      AppendedPortsComeFrom(ports, candidates[..|candidates| - 1]);
    }
  }

  ghost predicate PortFrom(rules: seq<Rule>, key: EdgeKey, p: Port) {
    exists r :: r in rules && EdgeKeyOf(r) == key && p in r.ports
  }

  lemma {:induction false} FoldedPortsComeFrom(
      rules: seq<Rule>, counts: map<EdgeKey, nat>, nsNodeIds: set<string>, key: EdgeKey)
    ensures var edges := Fold(rules, counts, nsNodeIds);
            key in edges ==> forall x :: x in edges[key].ports ==> PortFrom(rules, key, x)
  {
    if rules != [] {
      var init, rule := rules[..|rules| - 1], rules[|rules| - 1];
      assert rules == init + [rule];
      FoldedPortsComeFrom(init, counts, nsNodeIds, key);
      FoldStep(rules, counts, nsNodeIds);
      var edges := Fold(init, counts, nsNodeIds);
      hide Fold, EdgeKeyOf, AppendUniquePort;
      if key in edges {
        AppendedPortsComeFrom(edges[key].ports, rule.ports);
      }
      AppendedPortsComeFrom([], rule.ports);
      assert forall r :: r in rules <==> r in init || r == rule;
    }
  }

  /** An arrow's ports are ports of its rules, one for every number that some rule opens. */
  lemma ArrowPortsOnFields(
      rules: seq<Rule>, counts: map<EdgeKey, nat>, nsNodeIds: set<string>, key: EdgeKey)
    requires key in Fold(rules, counts, nsNodeIds)
    ensures var ports := Fold(rules, counts, nsNodeIds)[key].ports;
            && (forall x :: x in ports ==> PortFrom(rules, key, x))
            && (forall p :: PortFrom(rules, key, p) ==> exists x :: x in ports && x.port == p.port)
            && forall i, j :: 0 <= i < j < |ports| ==> ports[i].port != ports[j].port
  {
    FoldIsLossless(rules, counts, nsNodeIds, key);
    FoldedPortsComeFrom(rules, counts, nsNodeIds, key);
    var ports := Fold(rules, counts, nsNodeIds)[key].ports;
    hide Fold, EdgeKeyOf;
    forall p | PortFrom(rules, key, p)
      ensures exists x :: x in ports && x.port == p.port
    {
      var r :| r in rules && EdgeKeyOf(r) == key && p in r.ports;
      assert p.port in Numbers(r.ports);
      assert NumberFrom(rules, key, p.port);
    }
  }
}
