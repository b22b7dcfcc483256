// What holds of a whole evaluation, over any list of namespaces, and up to the engine's verdict.
module CalicoRun {
  import opened Models
  import opened CalicoBuild
  import opened CalicoIndex
  import opened CalicoRules
  import opened CalicoEvaluate
  import opened CalicoReach
  import Prober
  import Reachability

  // ----- what every evaluation keeps -----

  function OwnOf(rule: Rule): string {
    if rule.direction == Egress then rule.srcID else rule.dstID
  }

  function PeerOf(rule: Rule): string {
    if rule.direction == Egress then rule.dstID else rule.srcID
  }

  /** The rule acts as its list says, and its peer, if it names one, is a known CIDR node. */
  ghost predicate Sound(nodes: map<string, WorkloadNode>, rule: Rule, action: RuleAction) {
    rule.action == action
    && (PeerOf(rule) != "" ==>
          CIDR_ID_PREFIX <= PeerOf(rule) && PeerOf(rule) in nodes && nodes[PeerOf(rule)].nodeType == CidrNode
          && nodes[PeerOf(rule)].id == PeerOf(rule))
  }

  ghost predicate AllSound(nodes: map<string, WorkloadNode>, rules: seq<Rule>, action: RuleAction) {
    forall r :: r in rules ==> Sound(nodes, r, action)
  }

  /** The rules of one direction of a node: sound, of that direction, and at most about it. */
  ghost predicate SideSound(nodes: map<string, WorkloadNode>, id: string, rules: DirectionRules, direction: Direction) {
    && AllSound(nodes, rules.allow, ActionAllow) && AllSound(nodes, rules.deny, ActionDeny)
    && forall r :: r in rules.allow + rules.deny ==> r.direction == direction && (OwnOf(r) == id || OwnOf(r) == "")
  }

  /** Nodes with rules are the nodes with policies, and every rule anywhere is sound. */
  ghost predicate Consistent(e: Evaluation) {
    && e.nodeRules.Keys == e.nodePolicies.Keys
    && (forall id :: id in e.nodePolicies ==> e.nodePolicies[id] != [])
    && (forall id, d: Direction {:trigger e.nodeRules[id].Side(d)} ::
          id in e.nodeRules ==> SideSound(e.nodes, id, e.nodeRules[id].Side(d), d))
    && (forall ns :: ns in e.allowByNs ==> AllSound(e.nodes, e.allowByNs[ns], ActionAllow))
    && (forall ns :: ns in e.denyByNs ==> AllSound(e.nodes, e.denyByNs[ns], ActionDeny))
  }

  /** CIDR nodes carry their own ids; so another evaluation's nodes never take a peer away. */
  ghost predicate CidrNodes(nodes: map<string, WorkloadNode>) {
    forall id :: id in nodes ==> nodes[id].nodeType == CidrNode && nodes[id].id == id
  }

  lemma {:induction false} PeersAreCidrNodes(cfg: Config, edges: seq<Edge>)
    ensures CidrNodes(PeerNodes(cfg, edges))
    ensures forall e :: e in edges && PeerId(e) != "" ==> PeerId(e) in PeerNodes(cfg, edges)
  {
    if edges != [] {
      var init, last := edges[..|edges| - 1], edges[|edges| - 1];
      assert edges == init + [last];
      PeersAreCidrNodes(cfg, init);
    }
  }

  lemma {:induction false} RulesComeFromEdges(
      node: WorkloadNode, edges: seq<Edge>, direction: Direction, deny: bool, rule: Rule)
    returns (e: Edge)
    requires rule in RulesOf(node, edges, direction, deny)
    ensures e in edges && rule == RuleFor(node, e, direction) && (e.action == ActionDeny) == deny
  {
    hide RuleFor;
    var init, last := edges[..|edges| - 1], edges[|edges| - 1];
    assert edges == init + [last];
    if rule in RulesOf(node, init, direction, deny) {
      e := RulesComeFromEdges(node, init, direction, deny, rule);
    } else {
      e := last;
    }
  }

  lemma DirectionIsSound(cfg: Config, cache: NsSelection, node: WorkloadNode, direction: Direction)
    requires WorkloadSelecting(cache.policies, node) != []
    ensures SideSound(PeerNodes(cfg, KeptEdges(cache, node, direction)), node.id,
                      DirectionRulesFor(cache, node, direction), direction)
  {
    hide WorkloadSelecting, KeptEdges, RulesOf, PeerNodes, AnyGoverns, HasCatchAll;
    var edges := KeptEdges(cache, node, direction);
    var peers, rules := PeerNodes(cfg, edges), DirectionRulesFor(cache, node, direction);
    var ref := WorkloadSelecting(cache.policies, node)[0].ref;
    PeersAreCidrNodes(cfg, edges);
    forall deny, r | r in RulesOf(node, edges, direction, deny)
      ensures Sound(peers, r, if deny then ActionDeny else ActionAllow)
      ensures r.direction == direction && OwnOf(r) == node.id
    {
      var e := RulesComeFromEdges(node, edges, direction, deny, r);
    }
    assert forall r :: r in rules.allow ==>
      r in RulesOf(node, edges, direction, false) || r == UnenforcedRule(direction, ref);
    assert forall r :: r in rules.deny ==>
      r in RulesOf(node, edges, direction, true) || r == DenyAllBaseline(direction, node, ref);
  }

  /** What is sound with the one nodes is sound with the other. */
  ghost predicate Widens(nodes: map<string, WorkloadNode>, wider: map<string, WorkloadNode>) {
    forall r, action :: Sound(nodes, r, action) ==> Sound(wider, r, action)
  }

  lemma MoreNodesKeepSound(nodes: map<string, WorkloadNode>, peers: map<string, WorkloadNode>)
    requires CidrNodes(peers)
    ensures Widens(nodes, nodes + peers) && Widens(peers, nodes + peers)
  {
  }

  lemma WiderSide(
      nodes: map<string, WorkloadNode>, wider: map<string, WorkloadNode>, id: string, rules: DirectionRules,
      direction: Direction)
    requires Widens(nodes, wider) && SideSound(nodes, id, rules, direction)
    ensures SideSound(wider, id, rules, direction)
  {
    hide Sound;
  }

  lemma WorkloadKeepsConsistent(e: Evaluation, cfg: Config, cache: NsSelection, node: WorkloadNode, ns: string)
    requires Consistent(e)
    ensures Consistent(WithWorkload(e, cfg, cache, node, ns))
  {
    if WorkloadSelecting(cache.policies, node) != [] {
      hide Consistent, WorkloadSelecting, KeptEdges, PeerNodes, DirectionRulesFor, SideSound, Widens;
      var out, into := PeerNodes(cfg, KeptEdges(cache, node, Egress)), PeerNodes(cfg, KeptEdges(cache, node, Ingress));
      var egress, ingress := DirectionRulesFor(cache, node, Egress), DirectionRulesFor(cache, node, Ingress);
      PeersAreCidrNodes(cfg, KeptEdges(cache, node, Egress));
      PeersAreCidrNodes(cfg, KeptEdges(cache, node, Ingress));
      DirectionIsSound(cfg, cache, node, Egress);
      DirectionIsSound(cfg, cache, node, Ingress);
      MoreNodesKeepSound(out, into);
      MoreNodesKeepSound(e.nodes, out + into);
      WiderSide(out, out + into, node.id, egress, Egress);
      WiderSide(into, out + into, node.id, ingress, Ingress);
      WiderSide(out + into, e.nodes + (out + into), node.id, egress, Egress);
      WiderSide(out + into, e.nodes + (out + into), node.id, ingress, Ingress);
      RecordKeepsConsistent(e, node.id, ns, NodeRules(ingress, egress), out + into,
                            RefsOf(WorkloadSelecting(cache.policies, node)));
    }
  }

  lemma RecordKeepsConsistent(
      e: Evaluation, id: string, ns: string, rules: NodeRules, peers: map<string, WorkloadNode>, refs: seq<PolicyRef>)
    requires Consistent(e) && refs != []
    requires Widens(e.nodes, e.nodes + peers)
    requires SideSound(e.nodes + peers, id, rules.egress, Egress)
    requires SideSound(e.nodes + peers, id, rules.ingress, Ingress)
    ensures Consistent(Recorded(e, id, ns, rules, peers, refs))
  {
    hide Sound;
  }

  lemma {:induction false} WorkloadsKeepConsistent(
      e: Evaluation, cfg: Config, cache: NsSelection, workloads: seq<WorkloadNode>, ns: string)
    requires Consistent(e)
    ensures Consistent(WithWorkloads(e, cfg, cache, workloads, ns))
    decreases |workloads|
  {
    hide Consistent, WithWorkload;
    if workloads != [] {
      var last := |workloads| - 1;
      WorkloadsKeepConsistent(e, cfg, cache, workloads[..last], ns);
      WorkloadKeepsConsistent(WithWorkloads(e, cfg, cache, workloads[..last], ns), cfg, cache, workloads[last], ns);
    }
  }

  /** Over every list of namespaces the result is consistent: no rule names a CIDR without a node,
      allows and denies are kept apart, and rules and policies are known of the same nodes. */
  lemma {:induction false} EvaluationIsConsistent(
      cfg: Config, policies: seq<GlobalPolicy>, namespaces: seq<string>, index: map<string, NsIndex>)
    ensures Consistent(Evaluated(cfg, policies, namespaces, index))
    decreases |namespaces|
  {
    if namespaces == [] {
      assert Consistent(NOTHING);
    } else {
      hide Consistent, WithWorkloads, SelectionOf;
      var last := |namespaces| - 1;
      var before := Evaluated(cfg, policies, namespaces[..last], index);
      EvaluationIsConsistent(cfg, policies, namespaces[..last], index);
      var here := IndexAt(index, namespaces[last]);
      var cache := SelectionOf(cfg.parse, policies, here.labels);
      WorkloadsKeepConsistent(before, cfg, cache, here.workloads, namespaces[last]);
    }
  }

  // ----- every workload is found as it was resolved -----

  /** No other workload of the run carries the node's id. */
  ghost predicate IdIsOwn(namespaces: seq<string>, index: map<string, NsIndex>, ns: string, node: WorkloadNode) {
    forall ns', node' ::
      ns' in namespaces && node' in IndexAt(index, ns').workloads && node'.id == node.id ==> ns' == ns && node' == node
  }

  function CacheOf(cfg: Config, policies: seq<GlobalPolicy>, index: map<string, NsIndex>, ns: string): NsSelection {
    SelectionOf(cfg.parse, policies, IndexAt(index, ns).labels)
  }

  /** The rules and policies recorded for the node: its own, or none where no policy selects it. */
  ghost predicate FoundAs(e: Evaluation, cache: NsSelection, node: WorkloadNode) {
    var selecting := WorkloadSelecting(cache.policies, node);
    if selecting == [] then node.id !in e.nodeRules && node.id !in e.nodePolicies
    else
      && node.id in e.nodeRules && node.id in e.nodePolicies
      && |e.nodePolicies[node.id]| == |selecting|
      && (forall i :: 0 <= i < |selecting| ==> e.nodePolicies[node.id][i] == selecting[i].ref)
      && forall d: Direction {:trigger e.nodeRules[node.id].Side(d)} ::
           e.nodeRules[node.id].Side(d) == DirectionRulesFor(cache, node, d)
  }

  /** Nothing changed about the id. */
  ghost predicate SameAt(before: Evaluation, after: Evaluation, id: string) {
    && (id in after.nodeRules <==> id in before.nodeRules)
    && (id in after.nodePolicies <==> id in before.nodePolicies)
    && (id in before.nodePolicies ==> after.nodePolicies[id] == before.nodePolicies[id])
    && (id in before.nodeRules ==> after.nodeRules[id] == before.nodeRules[id])
  }

  lemma {:induction false} FoundAmongWorkloads(
      e: Evaluation, cfg: Config, cache: NsSelection, workloads: seq<WorkloadNode>, ns: string, node: WorkloadNode)
    requires forall node' :: node' in workloads && node'.id == node.id ==> node' == node
    ensures var after := WithWorkloads(e, cfg, cache, workloads, ns);
            if node in workloads && WorkloadSelecting(cache.policies, node) != [] then FoundAs(after, cache, node)
            else SameAt(e, after, node.id)
    decreases |workloads|
  {
    hide WorkloadSelecting, FoundAs, WithWorkload;
    if workloads != [] {
      var init, last := workloads[..|workloads| - 1], workloads[|workloads| - 1];
      assert workloads == init + [last];
      FoundAmongWorkloads(e, cfg, cache, init, ns, node);
      FoundAfterWorkload(WithWorkloads(e, cfg, cache, init, ns), cfg, cache, last, ns, node);
    }
  }

  lemma FoundAfterWorkload(
      e: Evaluation, cfg: Config, cache: NsSelection, last: WorkloadNode, ns: string, node: WorkloadNode)
    requires last.id == node.id ==> last == node
    ensures var after := WithWorkload(e, cfg, cache, last, ns);
            && (if last == node && WorkloadSelecting(cache.policies, node) != [] then FoundAs(after, cache, node)
                else SameAt(e, after, node.id))
            && (FoundAs(e, cache, node) ==> FoundAs(after, cache, node))
  {
    hide WorkloadSelecting, DirectionRulesFor, PeerNodes, Recorded, KeptEdges;
    var selecting := WorkloadSelecting(cache.policies, last);
    if selecting != [] {
      var rules := NodeRules(DirectionRulesFor(cache, last, Ingress), DirectionRulesFor(cache, last, Egress));
      var peers := PeerNodes(cfg, KeptEdges(cache, last, Egress)) + PeerNodes(cfg, KeptEdges(cache, last, Ingress));
      RecordChangesOne(e, last.id, ns, rules, peers, RefsOf(selecting));
    }
  }

  lemma RecordChangesOne(
      e: Evaluation, id: string, ns: string, rules: NodeRules, peers: map<string, WorkloadNode>, refs: seq<PolicyRef>)
    ensures var after := Recorded(e, id, ns, rules, peers, refs);
            && after.nodeRules == e.nodeRules[id := rules] && after.nodePolicies == e.nodePolicies[id := refs]
  {
  }

  lemma FoundInNamespace(
      e: Evaluation, cfg: Config, policies: seq<GlobalPolicy>, index: map<string, NsIndex>, ns: string,
      node: WorkloadNode)
    requires forall node' :: node' in IndexAt(index, ns).workloads && node'.id == node.id ==> node' == node
    ensures var after, cache := WithNamespace(e, cfg, policies, index, ns), CacheOf(cfg, policies, index, ns);
            if node in IndexAt(index, ns).workloads && WorkloadSelecting(cache.policies, node) != []
            then FoundAs(after, cache, node)
            else SameAt(e, after, node.id)
  {
    var cache := CacheOf(cfg, policies, index, ns);
    hide SelectionOf, FoundAs, WithWorkloads;
    FoundAmongWorkloads(e, cfg, cache, IndexAt(index, ns).workloads, ns, node);
  }

  /** At the end of the run the node is found as its namespace's cache resolves it. */
  lemma {:induction false} WorkloadsAreFound(
      cfg: Config, policies: seq<GlobalPolicy>, namespaces: seq<string>, index: map<string, NsIndex>,
      ns: string, node: WorkloadNode)
    requires IdIsOwn(namespaces, index, ns, node) && node in IndexAt(index, ns).workloads
    ensures var e := Evaluated(cfg, policies, namespaces, index);
            if ns in namespaces then FoundAs(e, CacheOf(cfg, policies, index, ns), node)
            else node.id !in e.nodeRules && node.id !in e.nodePolicies
    decreases |namespaces|
  {
    if namespaces != [] {
      hide CacheOf, WorkloadSelecting, WithNamespace, DirectionRulesFor, IndexAt;
      var init, last := namespaces[..|namespaces| - 1], namespaces[|namespaces| - 1];
      assert namespaces == init + [last];
      WorkloadsAreFound(cfg, policies, init, index, ns, node);
      FoundInNamespace(Evaluated(cfg, policies, init, index), cfg, policies, index, last, node);
    }
  }

  /** From policies to verdicts: where some policy that selects the source governs egress, the
      engine's egress verdict is never "no opinion", for any destination. */
  lemma GovernedEgressIsJudged(
      cfg: Config, policies: seq<GlobalPolicy>, namespaces: seq<string>, index: map<string, NsIndex>,
      ns: string, node: WorkloadNode, cache: Prober.Cache, req: Prober.Request)
    requires ns in namespaces && IdIsOwn(namespaces, index, ns, node) && node in IndexAt(index, ns).workloads
    requires AnyGoverns(WorkloadSelecting(CacheOf(cfg, policies, index, ns).policies, node), Egress)
    requires req.srcID == node.id
    ensures var e := Evaluated(cfg, policies, namespaces, index);
            var engine := Prober.Engine(e.nodeRules, e.allowByNs);
            var v := Prober.Judge(cache, engine, req);
            v.egress.reason != Reachability.ReasonNoOpinion && v.status != Prober.NotEnforced
  {
    WorkloadsAreFound(cfg, policies, namespaces, index, ns, node);
    var e, selection := Evaluated(cfg, policies, namespaces, index), CacheOf(cfg, policies, index, ns);
    hide SelectionOf, CacheOf, WorkloadSelecting, Evaluated, DirectionRulesFor, Reachability.Verdict, IdIsOwn, IndexAt,
      AnyGoverns;
    var engine := Prober.Engine(e.nodeRules, e.allowByNs);
    Prober.JudgeReads(cache, engine, req);
    hide Prober.Judge;
    var wide := Prober.RulesAt(engine, Prober.NsNodeId(cache, req.srcNs)).egress;
    var own := e.nodeRules[node.id].Side(Egress);
    GovernedHasOpinion(selection, node, Prober.EgressQuery(cache, req), wide.allow + own.allow, wide.deny + own.deny);
  }

  lemma GovernedIngressIsJudged(
      cfg: Config, policies: seq<GlobalPolicy>, namespaces: seq<string>, index: map<string, NsIndex>,
      ns: string, node: WorkloadNode, cache: Prober.Cache, req: Prober.Request)
    requires ns in namespaces && IdIsOwn(namespaces, index, ns, node) && node in IndexAt(index, ns).workloads
    requires AnyGoverns(WorkloadSelecting(CacheOf(cfg, policies, index, ns).policies, node), Ingress)
    requires req.dstID == node.id
    ensures var e := Evaluated(cfg, policies, namespaces, index);
            var engine := Prober.Engine(e.nodeRules, e.allowByNs);
            var v := Prober.Judge(cache, engine, req);
            v.ingress.reason != Reachability.ReasonNoOpinion && v.status != Prober.NotEnforced
  {
    WorkloadsAreFound(cfg, policies, namespaces, index, ns, node);
    var e, selection := Evaluated(cfg, policies, namespaces, index), CacheOf(cfg, policies, index, ns);
    hide SelectionOf, CacheOf, WorkloadSelecting, Evaluated, DirectionRulesFor, Reachability.Verdict, IdIsOwn, IndexAt,
      AnyGoverns;
    var engine := Prober.Engine(e.nodeRules, e.allowByNs);
    Prober.JudgeReads(cache, engine, req);
    hide Prober.Judge;
    var wide := Prober.RulesAt(engine, Prober.NsNodeId(cache, req.dstNs)).ingress;
    var own := e.nodeRules[node.id].Side(Ingress);
    GovernedHasOpinion(selection, node, Prober.IngressQuery(cache, req), wide.allow + own.allow, wide.deny + own.deny);
  }
}
