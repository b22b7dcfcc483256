// The assembled graph: nodes and rules of every engine, rendered into arrows.
module Graph {
  import opened Models
  import opened Collapse
  import opened CollapseLaws
  import opened RenderEdges
  import opened CalicoEvaluate
  import opened CalicoRun
  import CalicoIndex

  // ----- nodes -----

  function IdsOf(nodes: seq<WorkloadNode>): set<string> {
    set n | n in nodes :: n.id
  }

  lemma IdsAppend(nodes: seq<WorkloadNode>, node: WorkloadNode)
    ensures IdsOf(nodes + [node]) == IdsOf(nodes) + {node.id}
    ensures DistinctIds(nodes) && node.id !in IdsOf(nodes) ==> DistinctIds(nodes + [node])
  {
    assert forall n :: n in nodes + [node] <==> n in nodes || n == node;
    assert forall i :: 0 <= i < |nodes| ==> nodes[i] in nodes;
  }

  /** The set of seen ids is that of the nodes, which carry each id once. */
  ghost predicate Tidy(nodes: seq<WorkloadNode>, seen: set<string>) {
    seen == IdsOf(nodes) && DistinctIds(nodes)
  }

  lemma TidyAppend(nodes: seq<WorkloadNode>, seen: set<string>, node: WorkloadNode)
    requires Tidy(nodes, seen) && node.id !in seen
    ensures Tidy(nodes + [node], seen + {node.id})
  {
    IdsAppend(nodes, node);
  }

  /** The workloads of a namespace whose ids are new. */
  method AddWorkloads(start: seq<WorkloadNode>, seen: set<string>, workloads: seq<WorkloadNode>)
    returns (nodes: seq<WorkloadNode>, seenNow: set<string>)
    requires Tidy(start, seen)
    ensures Tidy(nodes, seenNow) && seen <= seenNow
    ensures forall n :: n in nodes ==> n in start || n in workloads
    ensures forall n :: n in workloads ==> n.id in seenNow
  {
    hide Tidy;
    nodes, seenNow := start, seen;
    for i := 0 to |workloads|
      invariant Tidy(nodes, seenNow) && seen <= seenNow
      invariant forall n :: n in nodes ==> n in start || n in workloads
      invariant forall k :: 0 <= k < i ==> workloads[k].id in seenNow
    {
      if workloads[i].id !in seenNow {
        TidyAppend(nodes, seenNow, workloads[i]);
        seenNow := seenNow + {workloads[i].id};
        nodes := nodes + [workloads[i]];
      }
    }
  }

  ghost predicate Keyed(nodes: map<string, WorkloadNode>) {
    forall id :: id in nodes ==> nodes[id].id == id
  }

  /** An engine's own nodes, in any order; those whose id is taken are left out. */
  method AddEngineNodes(start: seq<WorkloadNode>, seen: set<string>, engineNodes: map<string, WorkloadNode>)
    returns (nodes: seq<WorkloadNode>, seenNow: set<string>)
    ensures Tidy(start, seen) && Keyed(engineNodes) ==> Tidy(nodes, seenNow)
    ensures seenNow == seen + engineNodes.Keys
    ensures forall n :: n in nodes ==>
      n in start || exists id :: id in engineNodes && id !in seen && n == engineNodes[id]
  {
    hide Tidy;
    nodes, seenNow := start, seen;
    var ids := engineNodes.Keys;
    while ids != {}
      invariant ids <= engineNodes.Keys && seenNow == seen + (engineNodes.Keys - ids)
      invariant Tidy(start, seen) && Keyed(engineNodes) ==> Tidy(nodes, seenNow)
      invariant forall n :: n in nodes ==>
        n in start || exists id :: id in engineNodes && id !in seen && n == engineNodes[id]
      decreases |ids|
    {
      var id :| id in ids;
      if id !in seenNow {
        if Tidy(start, seen) && Keyed(engineNodes) {
          TidyAppend(nodes, seenNow, engineNodes[id]);
        }
        seenNow := seenNow + {id};
        nodes := nodes + [engineNodes[id]];
      }
      ids := ids - {id};
    }
  }

  // ----- rules -----

  ghost predicate RuleOf(results: map<string, Evaluation>, engine: string, rule: Rule) {
    engine in results && (InSome(results[engine].allowByNs, rule) || InSome(results[engine].denyByNs, rule))
  }

  ghost predicate InSome(byNs: map<string, seq<Rule>>, rule: Rule) {
    exists ns :: ns in byNs && rule in byNs[ns]
  }

  method Flatten(start: seq<Rule>, byNs: map<string, seq<Rule>>) returns (rules: seq<Rule>)
    ensures forall r :: r in rules <==> r in start || InSome(byNs, r)
  {
    rules := start;
    var namespaces := byNs.Keys;
    while namespaces != {}
      invariant namespaces <= byNs.Keys
      invariant forall r :: r in rules <==> r in start || exists ns :: ns in byNs && ns !in namespaces && r in byNs[ns]
      decreases |namespaces|
    {
      var ns :| ns in namespaces;
      rules, namespaces := rules + byNs[ns], namespaces - {ns};
    }
  }

  // ----- the graph -----

  ghost predicate FromIndex(index: map<string, NsIndex>, namespaces: seq<string>, n: WorkloadNode) {
    exists ns :: ns in namespaces && n in IndexAt(index, ns).workloads
  }

  ghost predicate WorkloadId(index: map<string, NsIndex>, namespaces: seq<string>, id: string) {
    exists w :: FromIndex(index, namespaces, w) && w.id == id
  }

  ghost predicate FromEngines(results: map<string, Evaluation>, id: string, n: WorkloadNode) {
    exists engine :: engine in results && id in results[engine].nodes && n == results[engine].nodes[id]
  }

  /** The nodes are workloads, and engines' nodes under an id that no workload has. */
  ghost predicate NodesFrom(
      index: map<string, NsIndex>, namespaces: seq<string>, results: map<string, Evaluation>, nodes: seq<WorkloadNode>)
  {
    forall n :: n in nodes ==>
      || FromIndex(index, namespaces, n)
      || exists id :: FromEngines(results, id, n) && !WorkloadId(index, namespaces, id)
  }

  /** Every id of a workload or an engine's node has one node, and the rules are all engines'. */
  ghost predicate IsGraph(
      index: map<string, NsIndex>, namespaces: seq<string>, results: map<string, Evaluation>,
      nodes: seq<WorkloadNode>, rules: seq<Rule>)
  {
    && DistinctIds(nodes) && NodesFrom(index, namespaces, results, nodes)
    && (forall id :: WorkloadId(index, namespaces, id) ==> id in IdsOf(nodes))
    && (forall id, n :: FromEngines(results, id, n) ==> id in IdsOf(nodes))
    && forall r :: r in rules <==> exists engine :: RuleOf(results, engine, r)
  }

  /** Workloads first, then engine by engine its rules and nodes, in any order of engines; the
      arrows are rendered from both. Where engines key their nodes by id, that is the graph. */
  method BuildGraph(index: map<string, NsIndex>, namespaces: seq<string>, results: map<string, Evaluation>)
    returns (nodes: seq<WorkloadNode>, rules: seq<Rule>, edges: Edges)
    ensures (forall engine :: engine in results ==> Keyed(results[engine].nodes)) ==>
      IsGraph(index, namespaces, results, nodes, rules)
    ensures edges == Fold(CollapsedRules(rules, nodes), CollapsedCounts(rules, nodes), NsNodeIds(nodes))
  {
    hide Tidy, Fold, CollapsedRules, CollapsedCounts, RuleOf, FromIndex, FromEngines, Keyed;
    var workloads, known := CollectWorkloads(index, namespaces);
    ghost var seen: set<string>;
    nodes, rules, seen := CollectEngines(workloads, known, results);
    edges := RenderEdges.RenderEdges(rules, nodes);
    if forall engine :: engine in results ==> Keyed(results[engine].nodes) {
      TidyIs(nodes, seen);
    }
  }

  lemma TidyIs(nodes: seq<WorkloadNode>, seen: set<string>)
    requires Tidy(nodes, seen)
    ensures seen == IdsOf(nodes) && DistinctIds(nodes)
  {
  }

  method CollectWorkloads(index: map<string, NsIndex>, namespaces: seq<string>)
    returns (nodes: seq<WorkloadNode>, seen: set<string>)
    ensures Tidy(nodes, seen)
    ensures forall n :: n in nodes ==> FromIndex(index, namespaces, n)
    ensures forall id :: WorkloadId(index, namespaces, id) ==> id in seen
  {
    nodes, seen := [], {};
    assert Tidy(nodes, seen);
    hide Tidy;
    for i := 0 to |namespaces|
      invariant Tidy(nodes, seen)
      invariant forall n :: n in nodes ==> FromIndex(index, namespaces, n)
      invariant forall k, n :: 0 <= k < i && n in IndexAt(index, namespaces[k]).workloads ==> n.id in seen
    {
      nodes, seen := AddWorkloads(nodes, seen, IndexAt(index, namespaces[i]).workloads);
    }
  }

  method CollectEngines(start: seq<WorkloadNode>, known: set<string>, results: map<string, Evaluation>)
    returns (nodes: seq<WorkloadNode>, rules: seq<Rule>, ghost seen: set<string>)
    ensures Tidy(start, known) && (forall engine :: engine in results ==> Keyed(results[engine].nodes)) ==>
      Tidy(nodes, seen)
    ensures known <= seen && forall id, n :: FromEngines(results, id, n) ==> id in seen
    ensures forall n :: n in nodes ==> n in start || exists id :: id !in known && FromEngines(results, id, n)
    ensures forall r :: r in rules <==> exists engine :: RuleOf(results, engine, r)
  {
    hide Tidy, Keyed, InSome;
    rules, nodes := [], start;
    var seenIds := known;
    var engines := results.Keys;
    while engines != {}
      invariant engines <= results.Keys && known <= seenIds
      invariant Tidy(start, known) && (forall engine :: engine in results ==> Keyed(results[engine].nodes)) ==>
        Tidy(nodes, seenIds)
      invariant forall n :: n in nodes ==> n in start || exists id :: id !in known && FromEngines(results, id, n)
      invariant forall engine, id ::
        engine in results && engine !in engines && id in results[engine].nodes ==> id in seenIds
      invariant forall r :: r in rules <==> exists engine :: engine !in engines && RuleOf(results, engine, r)
      decreases |engines|
    {
      var engine :| engine in engines;
      rules := Flatten(rules, results[engine].allowByNs);
      rules := Flatten(rules, results[engine].denyByNs);
      nodes, seenIds := AddEngineNodes(nodes, seenIds, results[engine].nodes);
      engines := engines - {engine};
    }
    seen := seenIds;
  }

  // ----- the counts of a graph -----

  /** No workload's id is empty or looks like a CIDR node's. */
  ghost predicate PlainIds(nodes: seq<WorkloadNode>) {
    forall n :: n in nodes && IsMember(n) ==> n.id != "" && !(CIDR_ID_PREFIX <= n.id)
  }

  /** The engine asserts namespace-wide scope for no rule, or is the Calico engine. */
  ghost predicate ScopesAsCalico(e: Evaluation) {
    || (forall r :: InSome(e.allowByNs, r) || InSome(e.denyByNs, r) ==> !r.namespaceWide)
    || exists cfg, policies, namespaces, index :: e == Evaluated(cfg, policies, namespaces, index)
  }

  lemma {:induction false} NoSuchMember(nodes: seq<WorkloadNode>, id: string)
    requires PlainIds(nodes) && (id == "" || CIDR_ID_PREFIX <= id)
    ensures Get(MembershipOf(nodes).namespaceOf, id) == ""
  {
    if nodes != [] {
      assert nodes == nodes[..|nodes| - 1] + [nodes[|nodes| - 1]];
      NoSuchMember(nodes[..|nodes| - 1], id);
    }
  }

  /** In the rules of the engines the workload is the source of every namespace-wide egress rule and
      the target of every namespace-wide ingress rule. */
  lemma EnginesFollowDirection(results: map<string, Evaluation>, engine: string, nodes: seq<WorkloadNode>, r: Rule)
    requires RuleOf(results, engine, r) && ScopesAsCalico(results[engine]) && PlainIds(nodes)
    requires Uniform(MembershipOf(nodes), r).Some?
    ensures Uniform(MembershipOf(nodes), r).value.0.side == SourceSide <==> r.direction == Egress
  {
    var e := results[engine];
    assert r.namespaceWide;
    var cfg, policies, namespaces, index :| e == Evaluated(cfg, policies, namespaces, index);
    EvaluationIsConsistent(cfg, policies, namespaces, index);
    assert PeerOf(r) == "" || CIDR_ID_PREFIX <= PeerOf(r);
    NoSuchMember(nodes, PeerOf(r));
    hide MembershipOf, Evaluated;
  }

  /** In every graph each collapsed arrow counts the workloads of the namespace it stands for. */
  lemma GraphCountsAreRight(
      index: map<string, NsIndex>, namespaces: seq<string>, results: map<string, Evaluation>,
      nodes: seq<WorkloadNode>, rules: seq<Rule>)
    requires IsGraph(index, namespaces, results, nodes, rules) && PlainIds(nodes)
    requires forall engine :: engine in results ==> ScopesAsCalico(results[engine])
    ensures CountsAreRight(rules, nodes)
  {
    hide MembershipOf, CountsAreRight, ScopesAsCalico, PlainIds, Uniform;
    forall r | r in rules && Uniform(MembershipOf(nodes), r).Some?
      ensures Uniform(MembershipOf(nodes), r).value.0.side == SourceSide <==> r.direction == Egress
    {
      var engine :| RuleOf(results, engine, r);
      EnginesFollowDirection(results, engine, nodes, r);
    }
    SidedRulesShareNoArrow(rules, nodes);
  }
}
