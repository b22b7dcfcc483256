// The rules of an evaluation on the fields of policies, buckets and workloads.
module CalicoFields {
  import opened Wrappers
  import opened Cidr
  import opened Models
  import opened CalicoIndex
  import opened CalicoBuild
  import opened CalicoRules
  import opened CalicoEvaluate
  import opened CalicoReach
  import opened CalicoRun
  import Prober
  import Reachability

  // ----- one rule -----

  predicate EveryAddress(cidr: string) {
    cidr == "0.0.0.0/0"
  }

  predicate EveryPort(port: Port) {
    port == Port(0, 0, "", "")
  }

  /** Egress rules point from the node to the far end, ingress rules from the far end to the node. */
  ghost predicate Runs(r: Rule, node: WorkloadNode, direction: Direction, far: string) {
    r.direction == direction
    && match direction
       case Egress => r.srcID == node.id && r.dstID == far
       case Ingress => r.srcID == far && r.dstID == node.id
  }

  /** The rule says of the node what the winner says of the pair of a block and a port. */
  ghost predicate States(r: Rule, node: WorkloadNode, direction: Direction, b: Bucket, w: Candidate) {
    && Runs(r, node, direction, if EveryAddress(b.cidr) then "" else "cidr:" + b.cidr)
    && (if EveryPort(b.port) then r.ports == [] && r.allPorts else r.ports == [b.port] && !r.allPorts)
    && r.action == w.action && r.contributor == w.winner && r.namespaceWide == w.selectsAll
    && r.coverage == (if !EveryAddress(b.cidr) || !EveryPort(b.port) then CoverageRestricted
                      else if w.action == ActionAllow then CoverageAllowAll else CoverageDenyAll)
    && r.l7Match == None && !r.allL7 && r.srcSelector == NO_SELECTOR && r.dstSelector == NO_SELECTOR
  }

  lemma RuleStatesItsEdge(node: WorkloadNode, direction: Direction, b: Bucket, w: Candidate, r: Rule)
    ensures r == RuleFor(node, EdgeFor(b, w), direction) <==> States(r, node, direction, b, w)
  {
  }

  // ----- the rules of a node -----

  /** The walk over the selecting policies has a winner for the pair, and it is not one that restates,
      for some block, what the winner of every address says. */
  ghost predicate Speaks(
      parse: CidrParser, selecting: seq<GlobalPolicy>, direction: Direction, b: Bucket, w: Candidate)
  {
    && WinnerByWalk(parse, selecting, direction, b) == Some(w)
    && !(!EveryAddress(b.cidr) && EveryPort(b.port)
         && match WinnerByWalk(parse, selecting, direction, DIRECTION_WIDE)
            case Some(wide) => wide.action == w.action && wide.winner == w.winner
            case None => false)
  }

  predicate GovernsDirection(gp: GlobalPolicy, direction: Direction) {
    match direction
    case Egress => gp.doesEgress
    case Ingress => gp.doesIngress
  }

  ghost predicate SomeGoverns(selecting: seq<GlobalPolicy>, direction: Direction) {
    exists gp :: gp in selecting && GovernsDirection(gp, direction)
  }

  /** The deny-all of a governed direction in which no winner speaks of everything. */
  ghost predicate IsBaseline(
      parse: CidrParser, selecting: seq<GlobalPolicy>, node: WorkloadNode, direction: Direction, r: Rule)
    requires selecting != []
  {
    && SomeGoverns(selecting, direction) && WinnerByWalk(parse, selecting, direction, DIRECTION_WIDE).None?
    && Runs(r, node, direction, "") && r.ports == [] && r.allPorts && r.action == ActionDeny
    && r.coverage == CoverageDenyAll && r.contributor == selecting[0].ref && !r.namespaceWide
    && r.l7Match == None && !r.allL7 && r.srcSelector == NO_SELECTOR && r.dstSelector == NO_SELECTOR
  }

  /** The marker of a direction that no selecting policy governs. */
  ghost predicate IsMarker(selecting: seq<GlobalPolicy>, direction: Direction, r: Rule)
    requires selecting != []
  {
    && !SomeGoverns(selecting, direction)
    && r.direction == direction && r.srcID == "" && r.dstID == "" && r.ports == [] && !r.allPorts
    && r.action == ActionAllow && r.coverage == CoverageUnenforced && r.contributor == selecting[0].ref
    && !r.namespaceWide && r.l7Match == None && !r.allL7 && r.srcSelector == NO_SELECTOR
    && r.dstSelector == NO_SELECTOR
  }

  lemma GovernsOnFields(selecting: seq<GlobalPolicy>, direction: Direction)
    ensures AnyGoverns(selecting, direction) <==> SomeGoverns(selecting, direction)
  {
    if AnyGoverns(selecting, direction) {
      var i :| 0 <= i < |selecting| && Governs(selecting[i], direction);
      assert GovernsDirection(selecting[i], direction);
    }
    if gp :| gp in selecting && GovernsDirection(gp, direction) {
      var i :| 0 <= i < |selecting| && selecting[i] == gp;
      assert Governs(selecting[i], direction);
    }
  }

  lemma {:induction false} EdgesOfBuckets(
      node: WorkloadNode, buckets: seq<Bucket>, candidates: map<Bucket, seq<Candidate>>, e: Edge)
    ensures e in ResolvedEdges(node, buckets, candidates) <==>
      && e.Key() in buckets && WinnerByIndex(Lookup(candidates, e.Key()), node).Some?
      && e == EdgeFor(e.Key(), WinnerByIndex(Lookup(candidates, e.Key()), node).value)
  {
    hide WinnerByIndex;
    if buckets != [] {
      var init, last := buckets[..|buckets| - 1], buckets[|buckets| - 1];
      assert buckets == init + [last];
      EdgesOfBuckets(node, init, candidates, e);
      assert forall b :: b in buckets <==> b in init || b == last;
    }
  }

  /** The edge of a bucket with a winner. */
  ghost predicate OfWinner(
      parse: CidrParser, selecting: seq<GlobalPolicy>, direction: Direction, buckets: seq<Bucket>, e: Edge)
  {
    var w := WinnerByWalk(parse, selecting, direction, e.Key());
    e.Key() in buckets && w.Some? && e == EdgeFor(e.Key(), w.value)
  }

  /** The edge of a bucket that has something of its own to say. */
  ghost predicate OfSpeaker(
      parse: CidrParser, selecting: seq<GlobalPolicy>, direction: Direction, buckets: seq<Bucket>, e: Edge)
  {
    exists b, w :: b in buckets && Speaks(parse, selecting, direction, b, w) && e == EdgeFor(b, w)
  }

  lemma ResolvedOnFields(
      parse: CidrParser, policies: seq<GlobalPolicy>, nsLabels: map<string, string>, node: WorkloadNode,
      direction: Direction)
    requires WorkloadSelecting(SelectionOf(parse, policies, nsLabels).policies, node) != []
    ensures var cache := SelectionOf(parse, policies, nsLabels);
            var buckets := cache.Buckets(direction);
            var edges := ResolvedEdges(node, buckets, cache.Candidates(direction));
            && DistinctKeys(edges) && DIRECTION_WIDE in buckets
            && forall e :: e in edges <==>
                 OfWinner(parse, WorkloadSelecting(cache.policies, node), direction, buckets, e)
  {
    var cache := SelectionOf(parse, policies, nsLabels);
    var selecting := WorkloadSelecting(cache.policies, node);
    var buckets, candidates := cache.Buckets(direction), cache.Candidates(direction);
    SelectedImpliesPolicies(cache.policies, node);
    SelectionIsIndexed(parse, policies, nsLabels, direction);
    ResolvedAreDistinct(node, buckets, candidates);
    hide SelectionOf, WorkloadSelecting, CandidatesFor, WinnerByIndex, WinnerByWalk;
    forall b | b in buckets
      ensures WinnerByIndex(Lookup(candidates, b), node) == WinnerByWalk(parse, selecting, direction, b)
    {
      IndexRefinesWalk(parse, cache.policies, direction, b, node);
    }
    hide Lookup, ResolvedEdges, DistinctKeys;
    forall e
      ensures e in ResolvedEdges(node, buckets, candidates) <==> OfWinner(parse, selecting, direction, buckets, e)
    {
      EdgesOfBuckets(node, buckets, candidates, e);
    }
  }

  lemma KeptAreSpeakers(
      parse: CidrParser, selecting: seq<GlobalPolicy>, direction: Direction, buckets: seq<Bucket>, edges: seq<Edge>,
      e: Edge)
    requires DistinctKeys(edges) && DIRECTION_WIDE in buckets
    requires forall f :: f in edges <==> OfWinner(parse, selecting, direction, buckets, f)
    ensures e in DropRestated(edges) <==> OfSpeaker(parse, selecting, direction, buckets, e)
  {
    DropsExactlyRestated(edges, e);
    hide DropRestated, WinnerByWalk, DistinctKeys;
    var wide := WinnerByWalk(parse, selecting, direction, DIRECTION_WIDE);
    if wide.Some? {
      assert OfWinner(parse, selecting, direction, buckets, EdgeFor(DIRECTION_WIDE, wide.value));
    }
    forall f
      ensures f in edges && f.cidr == "0.0.0.0/0" && f.port == Port(0, 0, "", "") <==>
        wide.Some? && f == EdgeFor(DIRECTION_WIDE, wide.value)
    {
      assert f.cidr == "0.0.0.0/0" && f.port == Port(0, 0, "", "") <==> f.Key() == DIRECTION_WIDE;
    }
    if e in edges {
      assert e == EdgeFor(e.Key(), WinnerByWalk(parse, selecting, direction, e.Key()).value);
    }
    if OfSpeaker(parse, selecting, direction, buckets, e) {
      assert OfWinner(parse, selecting, direction, buckets, e);
    }
  }

  /** The rule of a bucket that has something of its own to say, among the denies or the allows. */
  ghost predicate OfBucket(
      parse: CidrParser, selecting: seq<GlobalPolicy>, node: WorkloadNode, direction: Direction, buckets: seq<Bucket>,
      deny: bool, r: Rule)
  {
    exists b, w ::
      b in buckets && Speaks(parse, selecting, direction, b, w) && (w.action == ActionDeny) == deny
      && States(r, node, direction, b, w)
  }

  lemma EdgeRulesOnFields(
      parse: CidrParser, selecting: seq<GlobalPolicy>, node: WorkloadNode, direction: Direction, buckets: seq<Bucket>,
      edges: seq<Edge>, deny: bool, r: Rule)
    requires forall e :: e in edges <==> OfSpeaker(parse, selecting, direction, buckets, e)
    ensures r in RulesOf(node, edges, direction, deny) <==>
      OfBucket(parse, selecting, node, direction, buckets, deny, r)
  {
    hide Speaks, States, RuleFor, RulesOf;
    if r in RulesOf(node, edges, direction, deny) {
      var e := RulesComeFromEdges(node, edges, direction, deny, r);
      var b, w :| b in buckets && Speaks(parse, selecting, direction, b, w) && e == EdgeFor(b, w);
      RuleStatesItsEdge(node, direction, b, w, r);
    }
    if b, w :| b in buckets && Speaks(parse, selecting, direction, b, w) && (w.action == ActionDeny) == deny
               && States(r, node, direction, b, w) {
      RuleStatesItsEdge(node, direction, b, w, r);
      assert EdgeFor(b, w) in edges;
      EveryEdgeHasItsRule(node, edges, direction, EdgeFor(b, w));
    }
  }

  lemma BaselineOnFields(
      parse: CidrParser, selecting: seq<GlobalPolicy>, node: WorkloadNode, direction: Direction, buckets: seq<Bucket>,
      edges: seq<Edge>, rules: DirectionRules, r: Rule)
    requires selecting != [] && DIRECTION_WIDE in buckets
    requires forall e :: e in edges <==> OfSpeaker(parse, selecting, direction, buckets, e)
    ensures var all := WithBaseline(rules, selecting, edges, direction, node);
            && (r in all.deny <==> r in rules.deny || IsBaseline(parse, selecting, node, direction, r))
            && (r in all.allow <==> r in rules.allow || IsMarker(selecting, direction, r))
  {
    GovernsOnFields(selecting, direction);
    CatchAllOnFields(parse, selecting, direction, buckets, edges);
    hide AnyGoverns, HasCatchAll, SomeGoverns, OfSpeaker, WinnerByWalk;
  }

  lemma CatchAllOnFields(
      parse: CidrParser, selecting: seq<GlobalPolicy>, direction: Direction, buckets: seq<Bucket>, edges: seq<Edge>)
    requires DIRECTION_WIDE in buckets
    requires forall e :: e in edges <==> OfSpeaker(parse, selecting, direction, buckets, e)
    ensures HasCatchAll(edges) <==> WinnerByWalk(parse, selecting, direction, DIRECTION_WIDE).Some?
  {
    hide WinnerByWalk;
    var wide := WinnerByWalk(parse, selecting, direction, DIRECTION_WIDE);
    if wide.Some? {
      assert Speaks(parse, selecting, direction, DIRECTION_WIDE, wide.value);
      var e := EdgeFor(DIRECTION_WIDE, wide.value);
      assert OfSpeaker(parse, selecting, direction, buckets, e);
      var i :| 0 <= i < |edges| && edges[i] == e;
    }
    if HasCatchAll(edges) {
      var i :| 0 <= i < |edges| && edges[i].Key() == DIRECTION_WIDE;
      assert edges[i] in edges;
    }
  }

  /** The rules of a selected node in one direction are: what each bucket's winner says of
      its own, the deny-all of a governed direction without a winner for everything, and the marker of
      a direction that is not governed. */
  lemma RulesOnFields(
      parse: CidrParser, policies: seq<GlobalPolicy>, nsLabels: map<string, string>, node: WorkloadNode,
      direction: Direction, r: Rule)
    requires WorkloadSelecting(SelectionOf(parse, policies, nsLabels).policies, node) != []
    ensures var cache := SelectionOf(parse, policies, nsLabels);
            var selecting, buckets := WorkloadSelecting(cache.policies, node), cache.Buckets(direction);
            var rules := DirectionRulesFor(cache, node, direction);
            && (r in rules.deny <==> OfBucket(parse, selecting, node, direction, buckets, true, r)
                                     || IsBaseline(parse, selecting, node, direction, r))
            && (r in rules.allow <==> OfBucket(parse, selecting, node, direction, buckets, false, r)
                                      || IsMarker(selecting, direction, r))
  {
    var cache := SelectionOf(parse, policies, nsLabels);
    var selecting, buckets := WorkloadSelecting(cache.policies, node), cache.Buckets(direction);
    var edges := ResolvedEdges(node, buckets, cache.Candidates(direction));
    var kept := KeptEdges(cache, node, direction);
    assert kept == DropRestated(edges);
    ResolvedOnFields(parse, policies, nsLabels, node, direction);
    hide SelectionOf, WorkloadSelecting, OfWinner, ResolvedEdges;
    forall e
      ensures e in kept <==> OfSpeaker(parse, selecting, direction, buckets, e)
    {
      KeptAreSpeakers(parse, selecting, direction, buckets, edges, e);
    }
    hide OfSpeaker, KeptEdges, DropRestated, OfBucket, IsBaseline, IsMarker, WithBaseline, RulesOf;
    EdgeRulesOnFields(parse, selecting, node, direction, buckets, kept, true, r);
    EdgeRulesOnFields(parse, selecting, node, direction, buckets, kept, false, r);
    var rules := DirectionRules(RulesOf(node, kept, direction, false), RulesOf(node, kept, direction, true));
    BaselineOnFields(parse, selecting, node, direction, buckets, kept, rules, r);
  }

  // ----- no rule twice -----

  lemma RuleTellsItsBucket(node: WorkloadNode, direction: Direction, e: Edge, f: Edge)
    ensures RuleFor(node, e, direction) == RuleFor(node, f, direction) ==> e.Key() == f.Key()
  {
    assert ("cidr:" + e.cidr)[5..] == e.cidr && ("cidr:" + f.cidr)[5..] == f.cidr;
  }

  lemma {:induction false} EdgeRulesAreDistinct(
      node: WorkloadNode, edges: seq<Edge>, direction: Direction, deny: bool)
    requires DistinctKeys(edges)
    ensures Distinct(RulesOf(node, edges, direction, deny))
  {
    hide RuleFor;
    if edges != [] {
      var init, last := edges[..|edges| - 1], edges[|edges| - 1];
      assert edges == init + [last];
      EdgeRulesAreDistinct(node, init, direction, deny);
      var rules := RulesOf(node, init, direction, deny);
      forall i | 0 <= i < |rules|
        ensures rules[i] != RuleFor(node, last, direction)
      {
        var e := RulesComeFromEdges(node, init, direction, deny, rules[i]);
        RuleTellsItsBucket(node, direction, e, last);
      }
    }
  }

  /** And none of those rules is listed twice. */
  lemma NoRuleTwice(
      parse: CidrParser, policies: seq<GlobalPolicy>, nsLabels: map<string, string>, node: WorkloadNode,
      direction: Direction)
    requires WorkloadSelecting(SelectionOf(parse, policies, nsLabels).policies, node) != []
    ensures var rules := DirectionRulesFor(SelectionOf(parse, policies, nsLabels), node, direction);
            Distinct(rules.allow) && Distinct(rules.deny)
  {
    var cache := SelectionOf(parse, policies, nsLabels);
    var kept := KeptEdges(cache, node, direction);
    KeptWideIsWinner(parse, policies, nsLabels, node, direction);
    EdgeRulesAreDistinct(node, kept, direction, false);
    EdgeRulesAreDistinct(node, kept, direction, true);
    hide SelectionOf, WorkloadSelecting, KeptEdges, WinnerByWalk, WithBaseline;
    forall r, deny | r in RulesOf(node, kept, direction, deny)
      ensures r.coverage != CoverageUnenforced && (r.coverage == CoverageDenyAll ==> HasCatchAll(kept))
    {
      var e := RulesComeFromEdges(node, kept, direction, deny, r);
      assert r.coverage == CoverageDenyAll ==> e.Key() == DIRECTION_WIDE;
    }
    hide RulesOf, HasCatchAll, DistinctKeys;
    var rules := DirectionRules(RulesOf(node, kept, direction, false), RulesOf(node, kept, direction, true));
    BaselineIsNew(rules, WorkloadSelecting(cache.policies, node), kept, direction, node);
  }

  lemma BaselineIsNew(
      rules: DirectionRules, selecting: seq<GlobalPolicy>, edges: seq<Edge>, direction: Direction, node: WorkloadNode)
    requires selecting != [] && Distinct(rules.allow) && Distinct(rules.deny)
    requires forall r :: r in rules.allow ==> r.coverage != CoverageUnenforced
    requires forall r :: r in rules.deny ==> (r.coverage == CoverageDenyAll ==> HasCatchAll(edges))
    ensures var all := WithBaseline(rules, selecting, edges, direction, node); Distinct(all.allow) && Distinct(all.deny)
  {
    hide AnyGoverns, HasCatchAll;
    assert forall i :: 0 <= i < |rules.allow| ==> rules.allow[i] in rules.allow;
    assert forall i :: 0 <= i < |rules.deny| ==> rules.deny[i] in rules.deny;
  }

  // ----- the policies of a node -----

  lemma {:induction false} SelectingOnFields(
      policies: seq<GlobalPolicy>, nsLabels: map<string, string>, node: WorkloadNode, gp: GlobalPolicy)
    ensures gp in WorkloadSelecting(NsSelecting(policies, nsLabels), node) <==>
      gp in policies && Selects(gp, nsLabels, node)
  {
    if policies != [] {
      var first, rest := policies[0], policies[1..];
      assert policies == [first] + rest;
      SelectingOnFields(rest, nsLabels, node, gp);
      FirstStep(first, rest, nsLabels, node);
      hide WorkloadSelecting, NsSelecting;
      assert Selects(first, nsLabels, node) <==> SelectsNamespace(first, nsLabels) && SelectsWorkload(first, node);
    }
  }

  /** The policy that a baseline or a marker is attributed to comes first of those that select. */
  lemma {:induction false} FirstSelectingComesFirst(
      policies: seq<GlobalPolicy>, nsLabels: map<string, string>, node: WorkloadNode)
    requires forall i, j :: 0 <= i < j < |policies| ==> ComesFirst(policies[i], policies[j])
    ensures var selecting := WorkloadSelecting(NsSelecting(policies, nsLabels), node);
            forall i :: 0 < i < |selecting| ==> ComesFirst(selecting[0], selecting[i])
  {
    hide ComesFirst;
    if policies != [] {
      var first, rest := policies[0], policies[1..];
      assert policies == [first] + rest;
      FirstSelectingComesFirst(rest, nsLabels, node);
      FirstStep(first, rest, nsLabels, node);
      var more := WorkloadSelecting(NsSelecting(rest, nsLabels), node);
      forall i | 0 <= i < |more|
        ensures ComesFirst(first, more[i])
      {
        SelectingOnFields(rest, nsLabels, node, more[i]);
        assert more[i] in rest;
      }
    }
  }

  // ----- the rules of a namespace -----

  /** Some workload of the namespace that some policy selects has the rule. */
  ghost predicate SomeHas(cache: NsSelection, workloads: seq<WorkloadNode>, deny: bool, r: Rule) {
    exists node :: node in workloads && (Has(cache, node, Egress, deny, r) || Has(cache, node, Ingress, deny, r))
  }

  ghost predicate Has(cache: NsSelection, node: WorkloadNode, direction: Direction, deny: bool, r: Rule) {
    WorkloadSelecting(cache.policies, node) != []
    && var rules := DirectionRulesFor(cache, node, direction); r in (if deny then rules.deny else rules.allow)
  }

  function ByNs(e: Evaluation, deny: bool): map<string, seq<Rule>> {
    if deny then e.denyByNs else e.allowByNs
  }

  lemma WorkloadAdds(
      e: Evaluation, cfg: Config, cache: NsSelection, node: WorkloadNode, ns: string, deny: bool, r: Rule, at: string)
    ensures var after := WithWorkload(e, cfg, cache, node, ns);
            r in RulesAt(ByNs(after, deny), at) <==>
              r in RulesAt(ByNs(e, deny), at)
              || (at == ns && (Has(cache, node, Egress, deny, r) || Has(cache, node, Ingress, deny, r)))
  {
    hide WorkloadSelecting, DirectionRulesFor, PeerNodes, KeptEdges;
  }

  lemma {:induction false} WorkloadsAdd(
      e: Evaluation, cfg: Config, cache: NsSelection, workloads: seq<WorkloadNode>, ns: string, deny: bool, r: Rule,
      at: string)
    ensures var after := WithWorkloads(e, cfg, cache, workloads, ns);
            r in RulesAt(ByNs(after, deny), at) <==>
              r in RulesAt(ByNs(e, deny), at) || (at == ns && SomeHas(cache, workloads, deny, r))
    decreases |workloads|
  {
    hide Has, RulesAt, ByNs, WithWorkload;
    if workloads != [] {
      var init, last := workloads[..|workloads| - 1], workloads[|workloads| - 1];
      assert workloads == init + [last];
      WorkloadsAdd(e, cfg, cache, init, ns, deny, r, at);
      WorkloadAdds(WithWorkloads(e, cfg, cache, init, ns), cfg, cache, last, ns, deny, r, at);
      assert forall node :: node in workloads <==> node in init || node == last;
    }
  }

  /** The lists of a namespace hold exactly the rules of its workloads, of both directions, where the
      namespace is evaluated. */
  lemma {:induction false} NamespaceListsOnFields(
      cfg: Config, policies: seq<GlobalPolicy>, namespaces: seq<string>, index: map<string, NsIndex>,
      ns: string, deny: bool, r: Rule)
    ensures var e := Evaluated(cfg, policies, namespaces, index);
            r in RulesAt(ByNs(e, deny), ns) <==>
              ns in namespaces && SomeHas(CacheOf(cfg, policies, index, ns), IndexAt(index, ns).workloads, deny, r)
    decreases |namespaces|
  {
    if namespaces != [] {
      var init, last := namespaces[..|namespaces| - 1], namespaces[|namespaces| - 1];
      assert namespaces == init + [last];
      NamespaceListsOnFields(cfg, policies, init, index, ns, deny, r);
      var cache := CacheOf(cfg, policies, index, last);
      hide SelectionOf, RulesAt, ByNs, WithWorkloads;
      var before, workloads := Evaluated(cfg, policies, init, index), IndexAt(index, last).workloads;
      WorkloadsAdd(before, cfg, cache, workloads, last, deny, r, ns);
      assert cache.policies == [] ==> !SomeHas(cache, workloads, deny, r);
    }
  }

  // ----- the CIDR nodes -----

  /** The node of a block that some rule names: its id, its text, and how the block lies to the
      cluster's own ranges. */
  ghost predicate IsBlockNode(cfg: Config, id: string, node: WorkloadNode) {
    && id == "cidr:" + node.text && node.id == id && node.nodeType == CidrNode && node.namespace == ""
    && node.labels == map[] && LiesAs(cfg, node.text, node.cidrType)
  }

  /** A block around every address is public; else one around the pods' range or the services' range
      is of the cluster; anything else is local. */
  ghost predicate LiesAs(cfg: Config, cidr: string, t: CidrType) {
    match t
    case WanCidr => Around(cfg.parse, cidr, "0.0.0.0/0")
    case PodCidr => !Around(cfg.parse, cidr, "0.0.0.0/0") && Around(cfg.parse, cidr, cfg.podCidr)
    case ServiceCidr =>
      !Around(cfg.parse, cidr, "0.0.0.0/0") && !Around(cfg.parse, cidr, cfg.podCidr)
      && Around(cfg.parse, cidr, cfg.svcCidr)
    case LanCidr =>
      !Around(cfg.parse, cidr, "0.0.0.0/0") && !Around(cfg.parse, cidr, cfg.podCidr)
      && !Around(cfg.parse, cidr, cfg.svcCidr)
    case NoCidrType => false
  }

  lemma CidrTypeOnFields(cfg: Config, cidr: string)
    ensures LiesAs(cfg, cidr, CidrTypeOf(cfg, cidr))
  {
    ContainsIsAround(cfg.parse, cidr, "0.0.0.0/0");
    ContainsIsAround(cfg.parse, cidr, cfg.podCidr);
    ContainsIsAround(cfg.parse, cidr, cfg.svcCidr);
    hide CidrContains, Around;
  }

  ghost predicate AreBlockNodes(cfg: Config, nodes: map<string, WorkloadNode>) {
    forall id :: id in nodes ==> IsBlockNode(cfg, id, nodes[id])
  }

  lemma {:induction false} PeersAreBlockNodes(cfg: Config, edges: seq<Edge>)
    ensures AreBlockNodes(cfg, PeerNodes(cfg, edges))
  {
    if edges != [] {
      PeersAreBlockNodes(cfg, edges[..|edges| - 1]);
      CidrTypeOnFields(cfg, edges[|edges| - 1].cidr);
      hide CidrTypeOf, LiesAs;
    }
  }

  lemma WorkloadAddsBlockNodes(e: Evaluation, cfg: Config, cache: NsSelection, node: WorkloadNode, ns: string)
    requires AreBlockNodes(cfg, e.nodes)
    ensures AreBlockNodes(cfg, WithWorkload(e, cfg, cache, node, ns).nodes)
  {
    PeersAreBlockNodes(cfg, KeptEdges(cache, node, Egress));
    PeersAreBlockNodes(cfg, KeptEdges(cache, node, Ingress));
    hide IsBlockNode, WorkloadSelecting, DirectionRulesFor, PeerNodes, KeptEdges;
  }

  lemma {:induction false} WorkloadsAddBlockNodes(
      e: Evaluation, cfg: Config, cache: NsSelection, workloads: seq<WorkloadNode>, ns: string)
    requires AreBlockNodes(cfg, e.nodes)
    ensures AreBlockNodes(cfg, WithWorkloads(e, cfg, cache, workloads, ns).nodes)
    decreases |workloads|
  {
    if workloads != [] {
      hide AreBlockNodes, WithWorkload;
      var init, last := workloads[..|workloads| - 1], workloads[|workloads| - 1];
      WorkloadsAddBlockNodes(e, cfg, cache, init, ns);
      WorkloadAddsBlockNodes(WithWorkloads(e, cfg, cache, init, ns), cfg, cache, last, ns);
    }
  }

  /** The nodes that an evaluation adds are those of blocks, each under its own id. */
  lemma {:induction false} NodesOnFields(
      cfg: Config, policies: seq<GlobalPolicy>, namespaces: seq<string>, index: map<string, NsIndex>)
    ensures AreBlockNodes(cfg, Evaluated(cfg, policies, namespaces, index).nodes)
    decreases |namespaces|
  {
    if namespaces == [] {
      assert AreBlockNodes(cfg, NOTHING.nodes);
    } else {
      var init, last := namespaces[..|namespaces| - 1], namespaces[|namespaces| - 1];
      NodesOnFields(cfg, policies, init, index);
      var cache := CacheOf(cfg, policies, index, last);
      hide SelectionOf, IsBlockNode, WithWorkloads;
      WorkloadsAddBlockNodes(
        Evaluated(cfg, policies, init, index), cfg, cache, IndexAt(index, last).workloads, last);
    }
  }

  // ----- from policies to verdicts -----

  lemma GovernedBy(
      cfg: Config, policies: seq<GlobalPolicy>, index: map<string, NsIndex>, ns: string, node: WorkloadNode,
      direction: Direction, gp: GlobalPolicy)
    requires gp in policies && Selects(gp, IndexAt(index, ns).labels, node) && GovernsDirection(gp, direction)
    ensures AnyGoverns(WorkloadSelecting(CacheOf(cfg, policies, index, ns).policies, node), direction)
  {
    SelectionIsIndexed(cfg.parse, policies, IndexAt(index, ns).labels, direction);
    hide SelectionOf, WorkloadSelecting, NsSelecting;
    SelectingOnFields(policies, IndexAt(index, ns).labels, node, gp);
    GovernsOnFields(WorkloadSelecting(CacheOf(cfg, policies, index, ns).policies, node), direction);
  }

  /** A policy that selects a workload of the run and governs its egress gives every path out of the
      workload an egress verdict with an opinion; one that governs its ingress, every path into it an
      ingress verdict with one. */
  lemma GovernedPathsAreJudged(
      cfg: Config, policies: seq<GlobalPolicy>, namespaces: seq<string>, index: map<string, NsIndex>,
      ns: string, node: WorkloadNode, gp: GlobalPolicy, cache: Prober.Cache, req: Prober.Request)
    requires ns in namespaces && IdIsOwn(namespaces, index, ns, node) && node in IndexAt(index, ns).workloads
    requires gp in policies && Selects(gp, IndexAt(index, ns).labels, node)
    ensures var e := Evaluated(cfg, policies, namespaces, index);
            var v := Prober.Judge(cache, Prober.Engine(e.nodeRules, e.allowByNs), req);
            && (gp.doesEgress && req.srcID == node.id ==> v.egress.reason != Reachability.ReasonNoOpinion)
            && (gp.doesIngress && req.dstID == node.id ==> v.ingress.reason != Reachability.ReasonNoOpinion)
  {
    hide CacheOf, WorkloadSelecting, Evaluated, Prober.Judge, Selects, IdIsOwn, IndexAt, AnyGoverns;
    if gp.doesEgress && req.srcID == node.id {
      GovernedBy(cfg, policies, index, ns, node, Egress, gp);
      GovernedEgressIsJudged(cfg, policies, namespaces, index, ns, node, cache, req);
    }
    if gp.doesIngress && req.dstID == node.id {
      GovernedBy(cfg, policies, index, ns, node, Ingress, gp);
      GovernedIngressIsJudged(cfg, policies, namespaces, index, ns, node, cache, req);
    }
  }
}
