// What the rules of a workload mean to the reachability verdict: the baseline is there so that a
// governed direction is never read as one that no policy has an opinion on.
module CalicoReach {
  import opened Cidr
  import opened Models
  import opened CalicoBuild
  import opened CalicoIndex
  import opened CalicoRules
  import opened CalicoEvaluate
  import opened Reachability
  import opened VerdictLaws

  lemma {:induction false} EveryEdgeHasItsRule(node: WorkloadNode, edges: seq<Edge>, direction: Direction, e: Edge)
    requires e in edges
    ensures RuleFor(node, e, direction) in RulesOf(node, edges, direction, e.action == ActionDeny)
  {
    hide RuleFor;
    var init, last := edges[..|edges| - 1], edges[|edges| - 1];
    assert edges == init + [last];
    if e != last {
      EveryEdgeHasItsRule(node, init, direction, e);
    }
  }

  /** A rule that settles the direction for every peer: an allow-all among the allows, or a
      deny-all among the denies. */
  predicate Settles(rule: Rule, allows: seq<Rule>, denies: seq<Rule>) {
    (rule.coverage == CoverageAllowAll && rule in allows) || (rule.coverage == CoverageDenyAll && rule in denies)
  }

  lemma GovernedIsSettled(cache: NsSelection, node: WorkloadNode, direction: Direction) returns (rule: Rule)
    requires AnyGoverns(WorkloadSelecting(cache.policies, node), direction)
    ensures var rules := DirectionRulesFor(cache, node, direction); Settles(rule, rules.allow, rules.deny)
  {
    hide WorkloadSelecting, KeptEdges;
    var kept := KeptEdges(cache, node, direction);
    CatchAllIsDirectionWide(kept);
    match DirectionWide(kept) {
      case Some(wide) =>
        rule := RuleFor(node, wide, direction);
        EveryEdgeHasItsRule(node, kept, direction, wide);
      case None =>
        rule := DenyAllBaseline(direction, node, WorkloadSelecting(cache.policies, node)[0].ref);
    }
  }

  /** A deny-all that its own policy's allow overrides leaves that allow behind. */
  lemma SettledHasOpinion(q: Query, allows: seq<Rule>, denies: seq<Rule>, rule: Rule)
    requires Settles(rule, allows, denies)
    ensures Verdict(q, allows, denies).reason != ReasonNoOpinion
  {
    ReasonInClosedForm(q, allows, denies);
    NoCarveOutCutsNothing(q, allows, denies);
    hide Verdict, NamesPeer, CutBy;
    if rule.coverage == CoverageAllowAll && rule in allows {
      assert ClassOfAllow(q, rule) == AllowClass;
    } else if PolicyIdentityKey(rule.contributor) in AllowingPolicies(q, allows) {
      var a :| a in allows && NamesPeer(q, a)
               && PolicyIdentityKey(a.contributor) == PolicyIdentityKey(rule.contributor);
      assert ClassOfAllow(q, a) in {DenyAllClass, AllowClass};
    } else {
      assert ClassOfDeny(q, AllowingPolicies(q, allows), rule) == DenyClass;
    }
  }

  /** A governed direction of a selected workload has an opinion on every peer, whatever other
      rules the buckets hold. */
  lemma GovernedHasOpinion(cache: NsSelection, node: WorkloadNode, q: Query, allows: seq<Rule>, denies: seq<Rule>)
    requires AnyGoverns(WorkloadSelecting(cache.policies, node), q.direction)
    requires var rules := DirectionRulesFor(cache, node, q.direction);
             (forall r :: r in rules.allow ==> r in allows) && (forall r :: r in rules.deny ==> r in denies)
    ensures Verdict(q, allows, denies).reason != ReasonNoOpinion
  {
    var rule := GovernedIsSettled(cache, node, q.direction);
    SettledHasOpinion(q, allows, denies, rule);
  }

  // ----- a direction that no selecting policy governs -----

  lemma {:induction false} DroppedAllowIsSkipped(q: Query, allows: seq<Rule>, c: Class, marker: Rule)
    requires ClassOfAllow(q, marker) == Dropped && c != Dropped
    ensures AllowsOf(q, allows + [marker], c) == AllowsOf(q, allows, c)
    ensures AllowingPolicies(q, allows + [marker]) == AllowingPolicies(q, allows)
  {
    AllowsAppend(q, allows, marker, c);
    assert !NamesPeer(q, marker);
    hide NamesPeer, PolicyIdentityKey, AllowsOf;
    assert forall r :: r in allows + [marker] <==> r in allows || r == marker;
  }

  /** Where the peer's id and its namespace's id are known the marker is dropped: what the policies'
      rules say in a direction that no policy governs is then the whole verdict. An empty id matches
      the marker's empty endpoint; the marker then permits the peer if the rules left it open. */
  lemma UngovernedFollowsEdges(cache: NsSelection, node: WorkloadNode, q: Query)
    requires WorkloadSelecting(cache.policies, node) != [] && "" !in q.nodes
    requires !AnyGoverns(WorkloadSelecting(cache.policies, node), q.direction)
    ensures var edges, rules := KeptEdges(cache, node, q.direction), DirectionRulesFor(cache, node, q.direction);
            var alone := Verdict(q, RulesOf(node, edges, q.direction, false), RulesOf(node, edges, q.direction, true));
            if q.peerID != "" && q.peerNsID != "" then Verdict(q, rules.allow, rules.deny) == alone
            else Opens(alone.reason) ==> Verdict(q, rules.allow, rules.deny).reason == ReasonPermitted
  {
    hide WorkloadSelecting, KeptEdges, RulesOf, AnyGoverns;
    var edges := KeptEdges(cache, node, q.direction);
    var allows, denies := RulesOf(node, edges, q.direction, false), RulesOf(node, edges, q.direction, true);
    var marker := UnenforcedRule(q.direction, WorkloadSelecting(cache.policies, node)[0].ref);
    assert ClassOfAllow(q, marker) == if q.peerID == "" || q.peerNsID == "" then AllowClass else Dropped;
    hide ClassOfAllow, AllowsOf, DeniesOf, AllowingPolicies, Decide, Reachability.PortsOf;
    if q.peerID != "" && q.peerNsID != "" {
      DroppedAllowIsSkipped(q, allows, DenyAllClass, marker);
      DroppedAllowIsSkipped(q, allows, OtherAllowClass, marker);
      DroppedAllowIsSkipped(q, allows, AllowClass, marker);
    } else {
      hide Verdict;
      if Opens(Verdict(q, allows, denies).reason) {
        MatchingAllowNeverBlocks(q, allows, denies, marker);
      }
    }
  }

  lemma {:induction false} WalkWithoutRules(
      parse: CidrParser, selecting: seq<GlobalPolicy>, direction: Direction, bucket: Bucket)
    requires forall p :: p in selecting ==> RulesFor(p, direction) == []
    ensures WinnerByWalk(parse, selecting, direction, bucket).None?
  {
    if selecting != [] {
      WalkWithoutRules(parse, selecting[1..], direction, bucket);
    }
  }

  lemma {:induction false} NoWinnersNoEdges(
      node: WorkloadNode, buckets: seq<Bucket>, candidates: map<Bucket, seq<Candidate>>)
    requires forall b :: b in buckets ==> WinnerByIndex(Lookup(candidates, b), node).None?
    ensures ResolvedEdges(node, buckets, candidates) == []
  {
    hide WinnerByIndex;
    if buckets != [] {
      NoWinnersNoEdges(node, buckets[..|buckets| - 1], candidates);
    }
  }

  /** Policies without rules in a direction leave no edges there. */
  lemma RulelessHasNoEdges(
      parse: CidrParser, policies: seq<GlobalPolicy>, nsLabels: map<string, string>, node: WorkloadNode,
      direction: Direction)
    requires forall p :: p in WorkloadSelecting(SelectionOf(parse, policies, nsLabels).policies, node) ==>
      RulesFor(p, direction) == []
    ensures KeptEdges(SelectionOf(parse, policies, nsLabels), node, direction) == []
  {
    var cache := SelectionOf(parse, policies, nsLabels);
    var buckets, candidates := cache.Buckets(direction), cache.Candidates(direction);
    SelectionIsIndexed(parse, policies, nsLabels, direction);
    forall b | b in buckets
      ensures WinnerByIndex(Lookup(candidates, b), node).None?
    {
      IndexRefinesWalk(parse, cache.policies, direction, b, node);
      WalkWithoutRules(parse, WorkloadSelecting(cache.policies, node), direction, b);
    }
    hide WinnerByIndex, SelectionOf, WorkloadSelecting;
    NoWinnersNoEdges(node, buckets, candidates);
  }

  /** So a direction that no selecting policy governs or has rules for stays open to every peer. It
      is "no opinion" exactly when the peer's id and its namespace's id are known. */
  lemma UngovernedStaysOpen(
      parse: CidrParser, policies: seq<GlobalPolicy>, nsLabels: map<string, string>, node: WorkloadNode, q: Query)
    requires var selecting := WorkloadSelecting(SelectionOf(parse, policies, nsLabels).policies, node);
             selecting != [] && !AnyGoverns(selecting, q.direction)
             && forall p :: p in selecting ==> RulesFor(p, q.direction) == []
    requires "" !in q.nodes
    ensures var rules := DirectionRulesFor(SelectionOf(parse, policies, nsLabels), node, q.direction);
            var reason := Verdict(q, rules.allow, rules.deny).reason;
            Opens(reason) && (reason == ReasonNoOpinion <==> q.peerID != "" && q.peerNsID != "")
  {
    var cache := SelectionOf(parse, policies, nsLabels);
    RulelessHasNoEdges(parse, policies, nsLabels, node, q.direction);
    hide SelectionOf, WorkloadSelecting, KeptEdges, Verdict, AnyGoverns;
    UngovernedFollowsEdges(cache, node, q);
    NoRulesNoOpinion(q);
  }

  lemma NoRulesNoOpinion(q: Query)
    ensures Verdict(q, [], []).reason == ReasonNoOpinion
  {
    ReasonInClosedForm(q, [], []);
  }
}
