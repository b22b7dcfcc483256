// The rules of a workload: one rule per kept edge, a baseline per direction, and the shared
// evaluation result that every workload is folded into.
module CalicoEvaluate {
  import opened Wrappers
  import opened Cidr
  import opened Models
  import opened CalicoIndex
  import opened CalicoBuild
  import opened CalicoRules

  /** The configured cluster ranges, and the library's CIDR parser. */
  datatype Config = Config(parse: CidrParser, podCidr: string, svcCidr: string)

  function CidrTypeOf(cfg: Config, cidr: string): CidrType {
    if CidrContains(cfg.parse, cidr, CATCH_ALL_CIDR) then WanCidr
    else if CidrContains(cfg.parse, cidr, cfg.podCidr) then PodCidr
    else if CidrContains(cfg.parse, cidr, cfg.svcCidr) then ServiceCidr
    else LanCidr
  }

  // ----- one edge -----

  /** A blanket needs both the catch-all CIDR and all ports. */
  function CoverageFor(e: Edge): Coverage {
    if e.Key() == DIRECTION_WIDE then
      if e.action == ActionAllow then CoverageAllowAll else CoverageDenyAll
    else CoverageRestricted
  }

  function PeerId(e: Edge): string {
    if e.cidr == CATCH_ALL_CIDR then "" else CIDR_ID_PREFIX + e.cidr
  }

  /** Egress points from the workload to the peer, ingress the other way round. */
  function RuleFor(node: WorkloadNode, e: Edge, direction: Direction): Rule {
    Rule(
      if direction == Ingress then PeerId(e) else node.id,
      if direction == Ingress then node.id else PeerId(e),
      if e.port == ALL_PORTS then [] else [e.port],
      direction, e.winner, None, e.action, e.port == ALL_PORTS, false, CoverageFor(e), e.namespaceWide,
      NO_SELECTOR, NO_SELECTOR)
  }

  function CidrNodeFor(cfg: Config, e: Edge): WorkloadNode {
    WorkloadNode(CIDR_ID_PREFIX + e.cidr, e.cidr, "", CidrNode, map[], CidrTypeOf(cfg, e.cidr))
  }

  // ----- all edges of a direction -----

  function RulesOf(node: WorkloadNode, edges: seq<Edge>, direction: Direction, deny: bool): seq<Rule> {
    if edges == [] then []
    else
      var last := edges[|edges| - 1];
      RulesOf(node, edges[..|edges| - 1], direction, deny)
      + if (last.action == ActionDeny) == deny then [RuleFor(node, last, direction)] else []
  }

  function PeerNodes(cfg: Config, edges: seq<Edge>): map<string, WorkloadNode> {
    if edges == [] then map[]
    else
      var last := edges[|edges| - 1];
      var init := PeerNodes(cfg, edges[..|edges| - 1]);
      if last.cidr == CATCH_ALL_CIDR then init else init[CIDR_ID_PREFIX + last.cidr := CidrNodeFor(cfg, last)]
  }

  method BuildRulesForWorkload(cfg: Config, node: WorkloadNode, edges: seq<Edge>, direction: Direction)
    returns (rules: DirectionRules, cidrNodes: map<string, WorkloadNode>)
    ensures rules == DirectionRules(RulesOf(node, edges, direction, false), RulesOf(node, edges, direction, true))
    ensures cidrNodes == PeerNodes(cfg, edges)
  {
    hide RulesOf, PeerNodes, RuleFor, CidrNodeFor;
    var allow, deny := [], [];
    cidrNodes := map[];
    NoEdges(node, direction);
    NoPeers(cfg);
    for i := 0 to |edges|
      invariant allow == RulesOf(node, edges[..i], direction, false)
      invariant deny == RulesOf(node, edges[..i], direction, true)
      invariant cidrNodes == PeerNodes(cfg, edges[..i])
    {
      var edge := edges[i];
      assert edges[..i + 1] == edges[..i] + [edge];
      RulesAppend(node, edges[..i], edge, direction, false);
      RulesAppend(node, edges[..i], edge, direction, true);
      PeerNodesAppend(cfg, edges[..i], edge);
      if edge.cidr != CATCH_ALL_CIDR {
        cidrNodes := cidrNodes[CIDR_ID_PREFIX + edge.cidr := CidrNodeFor(cfg, edge)];
      }
      if edge.action == ActionDeny {
        deny := deny + [RuleFor(node, edge, direction)];
      } else {
        allow := allow + [RuleFor(node, edge, direction)];
      }
    }
    assert edges[..|edges|] == edges;
    rules := DirectionRules(allow, deny);
  }

  lemma NoEdges(node: WorkloadNode, direction: Direction)
    ensures RulesOf(node, [], direction, false) == [] == RulesOf(node, [], direction, true)
  {
  }

  lemma NoPeers(cfg: Config)
    ensures PeerNodes(cfg, []) == map[]
  {
  }

  lemma RulesAppend(node: WorkloadNode, edges: seq<Edge>, e: Edge, direction: Direction, deny: bool)
    ensures RulesOf(node, edges + [e], direction, deny)
         == RulesOf(node, edges, direction, deny)
            + if (e.action == ActionDeny) == deny then [RuleFor(node, e, direction)] else []
  {
    hide RuleFor;
    assert (edges + [e])[..|edges|] == edges;
  }

  lemma PeerNodesAppend(cfg: Config, edges: seq<Edge>, e: Edge)
    ensures PeerNodes(cfg, edges + [e])
         == if e.cidr == CATCH_ALL_CIDR then PeerNodes(cfg, edges)
            else PeerNodes(cfg, edges)[CIDR_ID_PREFIX + e.cidr := CidrNodeFor(cfg, e)]
  {
    hide CidrNodeFor;
    assert (edges + [e])[..|edges|] == edges;
  }

  // ----- the baseline -----

  predicate Governs(gp: GlobalPolicy, direction: Direction) {
    if direction == Egress then gp.doesEgress else gp.doesIngress
  }

  predicate AnyGoverns(selecting: seq<GlobalPolicy>, direction: Direction) {
    exists i :: 0 <= i < |selecting| && Governs(selecting[i], direction)
  }

  predicate HasCatchAll(edges: seq<Edge>) {
    exists i :: 0 <= i < |edges| && edges[i].Key() == DIRECTION_WIDE
  }

  function DenyAllBaseline(direction: Direction, node: WorkloadNode, contributor: PolicyRef): Rule {
    Rule(
      if direction == Ingress then "" else node.id, if direction == Ingress then node.id else "",
      [], direction, contributor, None, ActionDeny, true, false, CoverageDenyAll, false, NO_SELECTOR, NO_SELECTOR)
  }

  function UnenforcedRule(direction: Direction, contributor: PolicyRef): Rule {
    Rule("", "", [], direction, contributor, None, ActionAllow, false, false, CoverageUnenforced, false,
         NO_SELECTOR, NO_SELECTOR)
  }

  /** The baseline added to what the edges say: a deny-all where the direction is governed but
      has no direction-wide verdict, a neutral marker where it is not governed. */
  function WithBaseline(
      rules: DirectionRules, selecting: seq<GlobalPolicy>, edges: seq<Edge>, direction: Direction,
      node: WorkloadNode): DirectionRules
    requires selecting != []
  {
    if !AnyGoverns(selecting, direction) then
      rules.(allow := rules.allow + [UnenforcedRule(direction, selecting[0].ref)])
    else if !HasCatchAll(edges) then
      rules.(deny := rules.deny + [DenyAllBaseline(direction, node, selecting[0].ref)])
    else rules
  }

  function KeptEdges(cache: NsSelection, node: WorkloadNode, direction: Direction): seq<Edge> {
    DropRestated(ResolvedEdges(node, cache.Buckets(direction), cache.Candidates(direction)))
  }

  function DirectionRulesFor(cache: NsSelection, node: WorkloadNode, direction: Direction): DirectionRules
    requires WorkloadSelecting(cache.policies, node) != []
  {
    var edges := KeptEdges(cache, node, direction);
    WithBaseline(DirectionRules(RulesOf(node, edges, direction, false), RulesOf(node, edges, direction, true)),
                 WorkloadSelecting(cache.policies, node), edges, direction, node)
  }

  // ----- folding a workload into the result -----

  function RefsOf(policies: seq<GlobalPolicy>): seq<PolicyRef> {
    seq(|policies|, i requires 0 <= i < |policies| => policies[i].ref)
  }

  function RulesAt(byNs: map<string, seq<Rule>>, ns: string): seq<Rule> {
    if ns in byNs then byNs[ns] else []
  }

  function AppendAt(byNs: map<string, seq<Rule>>, ns: string, rules: seq<Rule>): map<string, seq<Rule>> {
    byNs[ns := RulesAt(byNs, ns) + rules]
  }

  lemma AppendTwice(byNs: map<string, seq<Rule>>, ns: string, a: seq<Rule>, b: seq<Rule>)
    ensures AppendAt(AppendAt(byNs, ns, a), ns, b) == byNs[ns := RulesAt(byNs, ns) + a + b]
  {
  }

  /** What an evaluation has found so far: rules by namespace and by node, the policies of every
      node, and the synthetic CIDR nodes. */
  datatype Evaluation = Evaluation(
    allowByNs: map<string, seq<Rule>>, denyByNs: map<string, seq<Rule>>,
    nodePolicies: map<string, seq<PolicyRef>>, nodeRules: map<string, NodeRules>, nodes: map<string, WorkloadNode>)

  const NOTHING := Evaluation(map[], map[], map[], map[], map[])

  /** The rules are recorded under the node's id and appended to its namespace's. */
  function Recorded(
      e: Evaluation, id: string, ns: string, rules: NodeRules, peers: map<string, WorkloadNode>, refs: seq<PolicyRef>)
    : Evaluation
  {
    Evaluation(
      e.allowByNs[ns := RulesAt(e.allowByNs, ns) + rules.egress.allow + rules.ingress.allow],
      e.denyByNs[ns := RulesAt(e.denyByNs, ns) + rules.egress.deny + rules.ingress.deny],
      e.nodePolicies[id := refs], e.nodeRules[id := rules], e.nodes + peers)
  }

  /** A workload that no policy selects leaves no trace. */
  function WithWorkload(e: Evaluation, cfg: Config, cache: NsSelection, node: WorkloadNode, ns: string): Evaluation {
    var selecting := WorkloadSelecting(cache.policies, node);
    if selecting == [] then e
    else
      Recorded(
        e, node.id, ns,
        NodeRules(DirectionRulesFor(cache, node, Ingress), DirectionRulesFor(cache, node, Egress)),
        PeerNodes(cfg, KeptEdges(cache, node, Egress)) + PeerNodes(cfg, KeptEdges(cache, node, Ingress)),
        RefsOf(selecting))
  }

  function WithWorkloads(
      e: Evaluation, cfg: Config, cache: NsSelection, workloads: seq<WorkloadNode>, ns: string): Evaluation
    decreases |workloads|
  {
    if workloads == [] then e
    else
      var last := |workloads| - 1;
      WithWorkload(WithWorkloads(e, cfg, cache, workloads[..last], ns), cfg, cache, workloads[last], ns)
  }

  /** What is known of a namespace; nothing where it is not in the index. */
  datatype NsIndex = NsIndex(labels: map<string, string>, workloads: seq<WorkloadNode>)

  function IndexAt(index: map<string, NsIndex>, ns: string): NsIndex {
    if ns in index then index[ns] else NsIndex(map[], [])
  }

  /** A namespace that no policy selects is skipped. */
  function WithNamespace(
      e: Evaluation, cfg: Config, policies: seq<GlobalPolicy>, index: map<string, NsIndex>, ns: string): Evaluation {
    var cache := SelectionOf(cfg.parse, policies, IndexAt(index, ns).labels);
    if cache.policies == [] then e else WithWorkloads(e, cfg, cache, IndexAt(index, ns).workloads, ns)
  }

  /** The evaluation of the namespaces in turn, by policies in order of precedence. */
  function Evaluated(
      cfg: Config, policies: seq<GlobalPolicy>, namespaces: seq<string>, index: map<string, NsIndex>): Evaluation
    decreases |namespaces|
  {
    if namespaces == [] then NOTHING
    else
      var last := |namespaces| - 1;
      WithNamespace(Evaluated(cfg, policies, namespaces[..last], index), cfg, policies, index, namespaces[last])
  }

  class EvaluationResult {
    var allowByNs: map<string, seq<Rule>>
    var denyByNs: map<string, seq<Rule>>
    var nodePolicies: map<string, seq<PolicyRef>>
    var nodeRules: map<string, NodeRules>
    var nodes: map<string, WorkloadNode>

    function State(): Evaluation
      reads this
    {
      Evaluation(allowByNs, denyByNs, nodePolicies, nodeRules, nodes)
    }

    constructor ()
      ensures State() == NOTHING
    {
      allowByNs, denyByNs, nodePolicies, nodeRules, nodes := map[], map[], map[], map[], map[];
    }

    method ResolveWorkload(cfg: Config, cache: NsSelection, node: WorkloadNode, ns: string)
      modifies this
      ensures State() == WithWorkload(old(State()), cfg, cache, node, ns)
    {
      hide WorkloadSelecting, ResolvedEdges, DropRestated, RulesOf, PeerNodes, WithBaseline, Recorded;
      var selecting := WorkloadSelectingPolicies(cache.policies, node);
      if selecting == [] {
        return;
      }
      var egress, egressNodes := ResolveSide(cfg, cache, node, selecting, Egress);
      var ingress, ingressNodes := ResolveSide(cfg, cache, node, selecting, Ingress);
      Record(node.id, ns, egress, ingress, egressNodes, ingressNodes, RefsOf(selecting));
    }

    method Record(
        id: string, ns: string, egress: DirectionRules, ingress: DirectionRules,
        egressNodes: map<string, WorkloadNode>, ingressNodes: map<string, WorkloadNode>, refs: seq<PolicyRef>)
      modifies this
      ensures State() == Recorded(old(State()), id, ns, NodeRules(ingress, egress), egressNodes + ingressNodes, refs)
    {
      assert nodes + egressNodes + ingressNodes == nodes + (egressNodes + ingressNodes);
      AppendTwice(allowByNs, ns, egress.allow, ingress.allow);
      AppendTwice(denyByNs, ns, egress.deny, ingress.deny);
      hide AppendAt, RulesAt;
      nodes := nodes + egressNodes;
      nodes := nodes + ingressNodes;
      nodeRules := nodeRules[id := NodeRules(ingress, egress)];
      allowByNs := AppendAt(allowByNs, ns, egress.allow);
      allowByNs := AppendAt(allowByNs, ns, ingress.allow);
      denyByNs := AppendAt(denyByNs, ns, egress.deny);
      denyByNs := AppendAt(denyByNs, ns, ingress.deny);
      nodePolicies := nodePolicies[id := refs];
    }

    method ResolveAll(cfg: Config, cache: NsSelection, workloads: seq<WorkloadNode>, ns: string)
      modifies this
      ensures State() == WithWorkloads(old(State()), cfg, cache, workloads, ns)
    {
      hide WithWorkload;
      for i := 0 to |workloads|
        invariant State() == WithWorkloads(old(State()), cfg, cache, workloads[..i], ns)
      {
        assert workloads[..i + 1][..i] == workloads[..i];
        ResolveWorkload(cfg, cache, workloads[i], ns);
      }
      assert workloads[..|workloads|] == workloads;
    }
  }

  /** The whole evaluation: the fetched policies are sorted in place, and every namespace's
      workloads are resolved against that namespace's cache. */
  method Evaluate(cfg: Config, policies: array<GlobalPolicy>, namespaces: seq<string>, index: map<string, NsIndex>)
    returns (result: EvaluationResult)
    modifies policies
    ensures fresh(result) && policies[..] == ByPrecedence(old(policies[..]))
    ensures result.State() == Evaluated(cfg, ByPrecedence(old(policies[..])), namespaces, index)
  {
    hide WithWorkload, SelectionOf;
    SortByPrecedence(policies);
    ghost var sorted := policies[..];
    result := new EvaluationResult();
    for n := 0 to |namespaces|
      invariant fresh(result) && policies[..] == sorted
      invariant result.State() == Evaluated(cfg, sorted, namespaces[..n], index)
    {
      assert namespaces[..n + 1][..n] == namespaces[..n];
      var ns := namespaces[n];
      var cache := BuildNsSelection(cfg.parse, policies[..], IndexAt(index, ns).labels);
      if cache.policies != [] {
        result.ResolveAll(cfg, cache, IndexAt(index, ns).workloads, ns);
      }
    }
    assert namespaces[..|namespaces|] == namespaces;
  }

  /** One direction: resolve it, build its rules, and add the baseline verdict. */
  method ResolveSide(
      cfg: Config, cache: NsSelection, node: WorkloadNode, selecting: seq<GlobalPolicy>, direction: Direction)
    returns (rules: DirectionRules, peers: map<string, WorkloadNode>)
    requires selecting != [] && selecting == WorkloadSelecting(cache.policies, node)
    ensures rules == DirectionRulesFor(cache, node, direction)
    ensures peers == PeerNodes(cfg, KeptEdges(cache, node, direction))
  {
    var edges := ResolveDirection(node, cache.Buckets(direction), cache.Candidates(direction));
    rules, peers := BuildRulesForWorkload(cfg, node, edges, direction);
    var governed := AnyGovernsLoop(selecting, direction);
    if governed {
      var settled := HasCatchAllLoop(edges);
      if !settled {
        rules := rules.(deny := rules.deny + [DenyAllBaseline(direction, node, selecting[0].ref)]);
      }
    } else {
      rules := rules.(allow := rules.allow + [UnenforcedRule(direction, selecting[0].ref)]);
    }
  }

  method AnyGovernsLoop(selecting: seq<GlobalPolicy>, direction: Direction) returns (governs: bool)
    ensures governs == AnyGoverns(selecting, direction)
  {
    for i := 0 to |selecting|
      invariant forall k :: 0 <= k < i ==> !Governs(selecting[k], direction)
    {
      if direction == Egress && selecting[i].doesEgress {
        return true;
      }
      if direction == Ingress && selecting[i].doesIngress {
        return true;
      }
    }
    return false;
  }

  method HasCatchAllLoop(edges: seq<Edge>) returns (has: bool)
    ensures has == HasCatchAll(edges)
  {
    for i := 0 to |edges|
      invariant forall k :: 0 <= k < i ==> edges[k].Key() != DIRECTION_WIDE
    {
      if edges[i].cidr == CATCH_ALL_CIDR && edges[i].port == ALL_PORTS {
        return true;
      }
    }
    return false;
  }

  // ----- exactly one blanket -----

  predicate IsBlanket(rule: Rule) {
    rule.coverage == CoverageAllowAll || rule.coverage == CoverageDenyAll
  }

  function Blankets(rules: seq<Rule>): seq<Rule> {
    if rules == [] then []
    else Blankets(rules[..|rules| - 1]) + if IsBlanket(rules[|rules| - 1]) then [rules[|rules| - 1]] else []
  }

  function AllBlankets(rules: DirectionRules): seq<Rule> {
    Blankets(rules.allow) + Blankets(rules.deny)
  }

  lemma BlanketsAppend(rules: seq<Rule>, r: Rule)
    ensures Blankets(rules + [r]) == Blankets(rules) + if IsBlanket(r) then [r] else []
  {
    assert (rules + [r])[..|rules|] == rules;
  }

  /** Among edges with distinct keys, only the direction-wide one becomes a blanket. */
  lemma {:induction false} BlanketsOfRules(node: WorkloadNode, edges: seq<Edge>, direction: Direction, deny: bool)
    requires DistinctKeys(edges)
    ensures Blankets(RulesOf(node, edges, direction, deny)) == BlanketOf(node, DirectionWide(edges), direction, deny)
  {
    hide DirectionWide, RuleFor, IsBlanket, Blankets, RulesOf;
    if edges == [] {
      NoBlankets(node, direction, deny);
    } else {
      var init, last := edges[..|edges| - 1], edges[|edges| - 1];
      assert edges == init + [last];
      var rules, rule := RulesOf(node, init, direction, deny), RuleFor(node, last, direction);
      BlanketsOfRules(node, init, direction, deny);
      BlanketIffDirectionWide(node, last, direction);
      DirectionWideAppend(init, last);
      RulesAppend(node, init, last, direction, deny);
      assert last.Key() == DIRECTION_WIDE ==> DirectionWide(init).None?;
      hide DistinctKeys;
      if (last.action == ActionDeny) == deny {
        BlanketsAppend(rules, rule);
      } else {
        assert rules + [] == rules;
      }
    }
  }

  /** The rule of the direction-wide edge, on the side of its action. */
  function BlanketOf(node: WorkloadNode, wide: Option<Edge>, direction: Direction, deny: bool): seq<Rule> {
    match wide
    case Some(e) => if (e.action == ActionDeny) == deny then [RuleFor(node, e, direction)] else []
    case None => []
  }

  lemma NoBlankets(node: WorkloadNode, direction: Direction, deny: bool)
    ensures Blankets(RulesOf(node, [], direction, deny)) == BlanketOf(node, DirectionWide([]), direction, deny)
  {
  }

  lemma BlanketIffDirectionWide(node: WorkloadNode, e: Edge, direction: Direction)
    ensures IsBlanket(RuleFor(node, e, direction)) <==> e.Key() == DIRECTION_WIDE
  {
  }

  lemma {:induction false} DirectionWideAppend(edges: seq<Edge>, e: Edge)
    ensures DirectionWide(edges + [e])
         == if DirectionWide(edges).Some? then DirectionWide(edges)
            else if e.Key() == DIRECTION_WIDE then Some(e) else None
  {
    if edges != [] {
      assert (edges + [e])[1..] == edges[1..] + [e];
      DirectionWideAppend(edges[1..], e);
    }
  }

  /** The direction-wide verdict of the resolved edges is the winner of that bucket. */
  lemma {:induction false} DirectionWideIsWinner(
      node: WorkloadNode, buckets: seq<Bucket>, candidates: map<Bucket, seq<Candidate>>)
    requires Distinct(buckets)
    ensures DirectionWide(ResolvedEdges(node, buckets, candidates))
         == if DIRECTION_WIDE !in buckets then None
            else match WinnerByIndex(Lookup(candidates, DIRECTION_WIDE), node)
                 case Some(c) => Some(EdgeFor(DIRECTION_WIDE, c))
                 case None => None
  {
    hide WinnerByIndex;
    if buckets != [] {
      var init, last := buckets[..|buckets| - 1], buckets[|buckets| - 1];
      DirectionWideIsWinner(node, init, candidates);
      assert buckets == init + [last];
      var w := WinnerByIndex(Lookup(candidates, last), node);
      var edges := ResolvedEdges(node, init, candidates);
      if w.Some? {
        DirectionWideAppend(edges, EdgeFor(last, w.value));
      } else {
        assert edges + [] == edges;
      }
    }
  }

  /** A governed direction of a selected workload ends with exactly one blanket rule. It is an
      allow-all exactly when the walk over the selecting policies, asked about every address and
      every port, stops at an allow. */
  lemma ExactlyOneBlanket(
      parse: CidrParser, policies: seq<GlobalPolicy>, nsLabels: map<string, string>,
      node: WorkloadNode, direction: Direction)
    requires AnyGoverns(WorkloadSelecting(SelectionOf(parse, policies, nsLabels).policies, node), direction)
    ensures var cache := SelectionOf(parse, policies, nsLabels);
            var selecting := WorkloadSelecting(cache.policies, node);
            var blankets := AllBlankets(DirectionRulesFor(cache, node, direction));
            var w := WinnerByWalk(parse, selecting, direction, DIRECTION_WIDE);
            && |blankets| == 1
            && (blankets[0].coverage == CoverageAllowAll <==> w.Some? && w.value.action == ActionAllow)
            && blankets[0].contributor == if w.Some? then w.value.winner else selecting[0].ref
  {
    var cache := SelectionOf(parse, policies, nsLabels);
    hide WorkloadSelecting, WinnerByWalk, KeptEdges, DirectionRulesFor, SelectionOf;
    KeptWideIsWinner(parse, policies, nsLabels, node, direction);
    OneBlanket(cache, node, direction);
  }

  /** What is kept of a direction has distinct keys, and its direction-wide edge is the verdict of
      the walk. */
  lemma KeptWideIsWinner(
      parse: CidrParser, policies: seq<GlobalPolicy>, nsLabels: map<string, string>,
      node: WorkloadNode, direction: Direction)
    requires WorkloadSelecting(SelectionOf(parse, policies, nsLabels).policies, node) != []
    ensures var cache := SelectionOf(parse, policies, nsLabels);
            var kept := KeptEdges(cache, node, direction);
            && DistinctKeys(kept)
            && DirectionWide(kept)
            == match WinnerByWalk(parse, WorkloadSelecting(cache.policies, node), direction, DIRECTION_WIDE)
               case Some(c) => Some(EdgeFor(DIRECTION_WIDE, c))
               case None => None
  {
    var cache := SelectionOf(parse, policies, nsLabels);
    var buckets, candidates := cache.Buckets(direction), cache.Candidates(direction);
    var edges := ResolvedEdges(node, buckets, candidates);
    SelectedImpliesPolicies(cache.policies, node);
    SelectionIsIndexed(parse, policies, nsLabels, direction);
    hide SelectionOf, WorkloadSelecting, WinnerByWalk, WinnerByIndex, ResolvedEdges, DropRestated, DirectionWide,
      CandidatesFor;
    ResolvedAreDistinct(node, buckets, candidates);
    KeptAreDistinct(edges);
    DropKeepsDirectionWide(edges);
    DirectionWideIsWinner(node, buckets, candidates);
    IndexRefinesWalk(parse, cache.policies, direction, DIRECTION_WIDE, node);
  }

  /** A governed direction has one blanket: the direction-wide edge's rule, or the baseline. */
  lemma OneBlanket(cache: NsSelection, node: WorkloadNode, direction: Direction)
    requires DistinctKeys(KeptEdges(cache, node, direction))
    requires AnyGoverns(WorkloadSelecting(cache.policies, node), direction)
    ensures AllBlankets(DirectionRulesFor(cache, node, direction))
         == match DirectionWide(KeptEdges(cache, node, direction))
            case Some(wide) => [RuleFor(node, wide, direction)]
            case None => [DenyAllBaseline(direction, node, WorkloadSelecting(cache.policies, node)[0].ref)]
  {
    var selecting, kept := WorkloadSelecting(cache.policies, node), KeptEdges(cache, node, direction);
    BlanketsOfRules(node, kept, direction, false);
    BlanketsOfRules(node, kept, direction, true);
    CatchAllIsDirectionWide(kept);
    BlanketsAppend(RulesOf(node, kept, direction, true), DenyAllBaseline(direction, node, selecting[0].ref));
    hide WorkloadSelecting, KeptEdges, RulesOf, Blankets, DirectionWide, HasCatchAll, RuleFor, AnyGoverns;
  }

  lemma SelectedImpliesPolicies(policies: seq<GlobalPolicy>, node: WorkloadNode)
    requires WorkloadSelecting(policies, node) != []
    ensures policies != []
  {
  }

  lemma CatchAllIsDirectionWide(edges: seq<Edge>)
    ensures HasCatchAll(edges) <==> DirectionWide(edges).Some?
  {
    if HasCatchAll(edges) {
      var i :| 0 <= i < |edges| && edges[i].Key() == DIRECTION_WIDE;
      assert edges[i] in edges;
    }
  }

  lemma KeptAreDistinct(edges: seq<Edge>)
    requires DistinctKeys(edges)
    ensures DistinctKeys(DropRestated(edges))
  {
    if DirectionWide(edges).Some? {
      FilterKeepsDistinct(edges, DirectionWide(edges).value);
    }
  }

  lemma {:induction false} FilterKeepsDistinct(edges: seq<Edge>, wide: Edge)
    requires DistinctKeys(edges)
    ensures DistinctKeys(WithoutRestated(edges, wide))
  {
    if edges != [] {
      var init, last := edges[..|edges| - 1], edges[|edges| - 1];
      FilterKeepsDistinct(init, wide);
      var kept := WithoutRestated(init, wide);
      forall i | 0 <= i < |kept|
        ensures kept[i].Key() != last.Key()
      {
        assert kept[i] in kept && kept[i] in init;
      }
    }
  }
}
