// Calico policies: precedence, the (CIDR, port) buckets, and the candidate index that replaces
// the walk over policies and rules.
module CalicoIndex {
  import opened Wrappers
  import opened StringOrder
  import opened Sorting
  import opened Cidr
  import opened Models
  import SelectorAst

  datatype CalicoRule = CalicoRule(
    action: RuleAction, isPass: bool, nets: seq<string>, notNets: seq<string>, ports: seq<Port>)

  /** A selector is None where the program holds a nil matcher; the order of a policy that sets
      none is the largest one. */
  datatype GlobalPolicy = GlobalPolicy(
    name: string, order: real, tier: string, ingress: seq<CalicoRule>, egress: seq<CalicoRule>,
    doesIngress: bool, doesEgress: bool, selector: Option<SelectorAst.Node>,
    nsSelector: Option<SelectorAst.Node>, selectsAllWorkloads: bool, ref: PolicyRef)

  const CATCH_ALL_CIDR := "0.0.0.0/0"

  function RulesFor(gp: GlobalPolicy, direction: Direction): seq<CalicoRule> {
    if direction == Ingress then gp.ingress else gp.egress
  }

  // ----- precedence -----

  /** Tier, then order, then name. */
  predicate Precedes(a: GlobalPolicy, b: GlobalPolicy) {
    if a.tier != b.tier then Less(a.tier, b.tier)
    else if a.order != b.order then a.order < b.order
    else AtMost(a.name, b.name)
  }

  lemma PrecedesIsAnOrder()
    ensures TotalPreorder(Precedes)
  {
    forall a, b
      ensures Precedes(a, b) || Precedes(b, a)
    {
      LessIsTotal(a.tier, b.tier);
      Trichotomy(a.name, b.name);
    }
    forall a, b, c | Precedes(a, b) && Precedes(b, c)
      ensures Precedes(a, c)
    {
      Trichotomy(a.tier, b.tier);
      Trichotomy(b.tier, c.tier);
      if a.tier != b.tier && b.tier != c.tier {
        LessIsTransitive(a.tier, b.tier, c.tier);
        LessIsIrreflexive(a.tier);
      } else if a.tier == b.tier == c.tier && a.order == b.order == c.order {
        AtMostIsTransitive(a.name, b.name, c.name);
      }
    }
  }

  /** No higher tier; within a tier no higher order; within an order no later name. */
  ghost predicate ComesFirst(a: GlobalPolicy, b: GlobalPolicy) {
    && !Less(b.tier, a.tier)
    && (a.tier == b.tier ==> a.order <= b.order)
    && (a.tier == b.tier && a.order == b.order ==> !Less(b.name, a.name))
  }

  lemma PrecedesOnFields(a: GlobalPolicy, b: GlobalPolicy)
    ensures Precedes(a, b) <==> ComesFirst(a, b)
  {
    Trichotomy(a.tier, b.tier);
    Trichotomy(b.tier, a.tier);
    LessIsIrreflexive(a.tier);
  }

  lemma SortedOnFields(policies: seq<GlobalPolicy>)
    ensures var sorted := ByPrecedence(policies);
            multiset(sorted) == multiset(policies)
            && forall i, j :: 0 <= i < j < |sorted| ==> ComesFirst(sorted[i], sorted[j])
  {
    PrecedesIsAnOrder();
    StableSortSorts(policies, Precedes);
    var sorted := ByPrecedence(policies);
    hide Precedes, ComesFirst, StableSort;
    forall i, j | 0 <= i < j < |sorted|
      ensures ComesFirst(sorted[i], sorted[j])
    {
      PrecedesOnFields(sorted[i], sorted[j]);
    }
  }

  ghost predicate DistinctNames(policies: seq<GlobalPolicy>) {
    forall p, q :: p in policies && q in policies && p.name == q.name ==> p == q
  }

  function ByPrecedence(policies: seq<GlobalPolicy>): seq<GlobalPolicy> {
    StableSort(policies, Precedes)
  }

  method SortByPrecedence(policies: array<GlobalPolicy>)
    modifies policies
    ensures policies[..] == ByPrecedence(old(policies[..]))
    ensures multiset(policies[..]) == multiset(old(policies[..]))
    ensures forall i, j :: 0 <= i < j < policies.Length ==> ComesFirst(policies[i], policies[j])
  {
    SortedOnFields(policies[..]);
    hide ByPrecedence, ComesFirst, Precedes;
    Sort(policies);
    assert forall i :: 0 <= i < policies.Length ==> policies[i] == policies[..][i];
  }

  method Sort(policies: array<GlobalPolicy>)
    modifies policies
    ensures policies[..] == ByPrecedence(old(policies[..]))
  {
    assert policies[..] == policies[..policies.Length];
    SortInPlace(policies, policies.Length, Precedes);
    assert policies[..] == policies[..policies.Length];
  }

  /** With distinct names the precedence order does not depend on the fetch order. */
  lemma PrecedenceIsFetchOrderFree(fetched: seq<GlobalPolicy>, again: seq<GlobalPolicy>)
    requires multiset(fetched) == multiset(again) && DistinctNames(fetched)
    ensures ByPrecedence(fetched) == ByPrecedence(again)
  {
    PrecedesIsAnOrder();
    forall a, b | a in multiset(fetched) && b in multiset(fetched) && Precedes(a, b) && Precedes(b, a)
      ensures a == b
    {
      Trichotomy(a.tier, b.tier);
      Trichotomy(a.name, b.name);
      assert a in fetched && b in fetched;
    }
    StableSortIsOrderFree(fetched, again, Precedes);
  }

  // ----- selection -----

  predicate SelectsNamespace(gp: GlobalPolicy, nsLabels: map<string, string>) {
    gp.nsSelector.Some? ==> SelectorAst.Evaluate(gp.nsSelector.value, nsLabels)
  }

  /** Namespace nodes only match selectors that hold of no labels at all. */
  function MatchLabels(node: WorkloadNode): map<string, string> {
    if node.nodeType == NamespaceNode then map[] else node.labels
  }

  predicate SelectsWorkload(gp: GlobalPolicy, node: WorkloadNode) {
    gp.selector.Some? && SelectorAst.Evaluate(gp.selector.value, MatchLabels(node))
  }

  function NsSelecting(policies: seq<GlobalPolicy>, nsLabels: map<string, string>): seq<GlobalPolicy> {
    if policies == [] then []
    else
      (if SelectsNamespace(policies[0], nsLabels) then [policies[0]] else [])
      + NsSelecting(policies[1..], nsLabels)
  }

  function WorkloadSelecting(policies: seq<GlobalPolicy>, node: WorkloadNode): seq<GlobalPolicy> {
    if policies == [] then []
    else
      (if SelectsWorkload(policies[0], node) then [policies[0]] else [])
      + WorkloadSelecting(policies[1..], node)
  }

  // ----- what a rule covers -----

  predicate NetsCover(parse: CidrParser, nets: seq<string>, notNets: seq<string>, cidr: string) {
    && (forall i :: 0 <= i < |notNets| ==> !CidrContains(parse, notNets[i], cidr))
    && (nets == [] || exists i :: 0 <= i < |nets| && CidrContains(parse, nets[i], cidr))
  }

  /** A port-restricted rule cannot speak for the all-ports bucket. */
  predicate PortsCover(ports: seq<Port>, bucket: Port) {
    ports == [] || (bucket != ALL_PORTS && bucket in ports)
  }

  datatype Bucket = Bucket(cidr: string, port: Port)

  const DIRECTION_WIDE := Bucket(CATCH_ALL_CIDR, ALL_PORTS)

  predicate RuleCovers(parse: CidrParser, rule: CalicoRule, bucket: Bucket) {
    NetsCover(parse, rule.nets, rule.notNets, bucket.cidr) && PortsCover(rule.ports, bucket.port)
  }

  /** The first rule that covers the bucket. */
  function FirstMatch(parse: CidrParser, rules: seq<CalicoRule>, bucket: Bucket): Option<CalicoRule> {
    if rules == [] then None
    else if RuleCovers(parse, rules[0], bucket) then Some(rules[0])
    else FirstMatch(parse, rules[1..], bucket)
  }

  /** An exclusion passes down to every smaller block; so does the coverage of a rule that
      excludes nothing. */
  lemma CoveragePassesDown(parse: CidrParser, nets: seq<string>, notNets: seq<string>, outer: string, inner: string)
    requires CidrContains(parse, outer, inner)
    ensures (exists i :: 0 <= i < |notNets| && CidrContains(parse, notNets[i], outer)) ==>
      !NetsCover(parse, nets, notNets, inner)
    ensures notNets == [] && NetsCover(parse, nets, notNets, outer) ==> NetsCover(parse, nets, notNets, inner)
  {
    hide CidrContains;
    forall net | CidrContains(parse, net, outer)
      ensures CidrContains(parse, net, inner)
    {
      CidrContainsIsTransitive(parse, net, outer, inner);
    }
  }

  /** A rule covers a bucket whose block lies in one of its blocks and in no excluded one, and whose
      port it lists. No blocks stand for every block and no ports for every port; but no list of
      ports covers the bucket of every port. */
  ghost predicate Covers(parse: CidrParser, rule: CalicoRule, cidr: string, port: Port) {
    && (forall net :: net in rule.notNets ==> !Around(parse, net, cidr))
    && (rule.nets == [] || exists net :: net in rule.nets && Around(parse, net, cidr))
    && (rule.ports == [] || (port in rule.ports && port != Port(0, 0, "", "")))
  }

  lemma RuleCoversOnFields(parse: CidrParser, rule: CalicoRule, bucket: Bucket)
    ensures RuleCovers(parse, rule, bucket) <==> Covers(parse, rule, bucket.cidr, bucket.port)
  {
    hide CidrContains, Around;
    forall net
      ensures CidrContains(parse, net, bucket.cidr) <==> Around(parse, net, bucket.cidr)
    {
      ContainsIsAround(parse, net, bucket.cidr);
    }
  }

  // ----- the index -----

  /** What one policy has to say about one bucket, to the workloads that it selects. */
  datatype Candidate = Candidate(
    winner: PolicyRef, action: RuleAction, selector: Option<SelectorAst.Node>, selectsAll: bool)

  /** Pass ends the policy's contribution without a candidate. */
  function CandidateOf(parse: CidrParser, gp: GlobalPolicy, direction: Direction, bucket: Bucket): Option<Candidate> {
    match FirstMatch(parse, RulesFor(gp, direction), bucket)
    case Some(rule) =>
      if rule.isPass then None else Some(Candidate(gp.ref, rule.action, gp.selector, gp.selectsAllWorkloads))
    case None => None
  }

  function CandidatesFor(
      parse: CidrParser, policies: seq<GlobalPolicy>, direction: Direction, bucket: Bucket): seq<Candidate> {
    if policies == [] then []
    else
      (match CandidateOf(parse, policies[0], direction, bucket) case Some(c) => [c] case None => [])
      + CandidatesFor(parse, policies[1..], direction, bucket)
  }

  predicate CandidateSelects(c: Candidate, node: WorkloadNode) {
    c.selector.Some? && SelectorAst.Evaluate(c.selector.value, MatchLabels(node))
  }

  /** The winner of a bucket for a workload: its first candidate that selects the workload. */
  function WinnerByIndex(candidates: seq<Candidate>, node: WorkloadNode): Option<Candidate> {
    if candidates == [] then None
    else if CandidateSelects(candidates[0], node) then Some(candidates[0])
    else WinnerByIndex(candidates[1..], node)
  }

  // ----- the naive walk -----

  /** Walk the selecting policies in order; the first whose first matching rule is no Pass wins. */
  function WinnerByWalk(
      parse: CidrParser, selecting: seq<GlobalPolicy>, direction: Direction, bucket: Bucket): Option<Candidate> {
    if selecting == [] then None
    else
      match CandidateOf(parse, selecting[0], direction, bucket)
      case Some(c) => Some(c)
      case None => WinnerByWalk(parse, selecting[1..], direction, bucket)
  }

  lemma {:induction false} WinnerInRest(c: seq<Candidate>, rest: seq<Candidate>, node: WorkloadNode)
    requires |c| <= 1
    ensures WinnerByIndex(c + rest, node)
         == if c != [] && CandidateSelects(c[0], node) then Some(c[0]) else WinnerByIndex(rest, node)
  {
    if c == [] {
      assert c + rest == rest;
    } else {
      assert (c + rest)[1..] == rest;
    }
  }

  /** The index refines the naive walk. */
  lemma {:induction false} IndexRefinesWalk(
      parse: CidrParser, policies: seq<GlobalPolicy>, direction: Direction, bucket: Bucket, node: WorkloadNode)
    ensures WinnerByIndex(CandidatesFor(parse, policies, direction, bucket), node)
         == WinnerByWalk(parse, WorkloadSelecting(policies, node), direction, bucket)
  {
    if policies != [] {
      var first := policies[0];
      var rest := WorkloadSelecting(policies[1..], node);
      IndexRefinesWalk(parse, policies[1..], direction, bucket, node);
      var c := match CandidateOf(parse, first, direction, bucket) case Some(c) => [c] case None => [];
      WinnerInRest(c, CandidatesFor(parse, policies[1..], direction, bucket), node);
      if SelectsWorkload(first, node) {
        assert WorkloadSelecting(policies, node) == [first] + rest;
      } else {
        assert WorkloadSelecting(policies, node) == rest;
      }
    }
  }

  // ----- the winner is the least deciding policy -----

  ghost predicate Decides(
      parse: CidrParser, gp: GlobalPolicy, nsLabels: map<string, string>, node: WorkloadNode,
      direction: Direction, bucket: Bucket)
  {
    SelectsNamespace(gp, nsLabels) && SelectsWorkload(gp, node) && CandidateOf(parse, gp, direction, bucket).Some?
  }

  /** gp decides the bucket and comes before every other policy that does. */
  ghost predicate IsLeastDecider(
      parse: CidrParser, policies: seq<GlobalPolicy>, gp: GlobalPolicy, nsLabels: map<string, string>,
      node: WorkloadNode, direction: Direction, bucket: Bucket)
  {
    && gp in policies && Decides(parse, gp, nsLabels, node, direction, bucket)
    && forall q :: q in policies && Decides(parse, q, nsLabels, node, direction, bucket) ==> Precedes(gp, q)
  }

  lemma {:induction false} WalkFindsLeast(
      parse: CidrParser, sorted: seq<GlobalPolicy>, nsLabels: map<string, string>, node: WorkloadNode,
      direction: Direction, bucket: Bucket)
    returns (gp: GlobalPolicy)
    requires SortedBy(sorted, Precedes)
    requires exists q :: q in sorted && Decides(parse, q, nsLabels, node, direction, bucket)
    ensures IsLeastDecider(parse, sorted, gp, nsLabels, node, direction, bucket)
    ensures WinnerByWalk(parse, WorkloadSelecting(NsSelecting(sorted, nsLabels), node), direction, bucket)
         == CandidateOf(parse, gp, direction, bucket)
  {
    hide CandidateOf, SelectsNamespace, SelectsWorkload;
    var first, rest := sorted[0], sorted[1..];
    FirstStep(first, rest, nsLabels, node);
    assert sorted == [first] + rest;
    var more := WorkloadSelecting(NsSelecting(rest, nsLabels), node);
    assert ([first] + more)[1..] == more && [] + more == more;
    if Decides(parse, first, nsLabels, node, direction, bucket) {
      PrecedesIsAnOrder();
      hide Precedes;
      gp := first;
      assert forall i :: 0 < i < |sorted| ==> Precedes(first, sorted[i]);
    } else {
      hide Precedes;
      gp := WalkFindsLeast(parse, rest, nsLabels, node, direction, bucket);
    }
  }

  lemma {:induction false} WalkFindsNone(
      parse: CidrParser, policies: seq<GlobalPolicy>, nsLabels: map<string, string>, node: WorkloadNode,
      direction: Direction, bucket: Bucket)
    requires forall q :: q in policies ==> !Decides(parse, q, nsLabels, node, direction, bucket)
    ensures WinnerByWalk(parse, WorkloadSelecting(NsSelecting(policies, nsLabels), node), direction, bucket).None?
  {
    hide CandidateOf, SelectsNamespace, SelectsWorkload;
    if policies != [] {
      var first, rest := policies[0], policies[1..];
      assert first in policies && !Decides(parse, first, nsLabels, node, direction, bucket);
      WalkFindsNone(parse, rest, nsLabels, node, direction, bucket);
      FirstStep(first, rest, nsLabels, node);
      assert policies == [first] + rest;
      var more := WorkloadSelecting(NsSelecting(rest, nsLabels), node);
      assert ([first] + more)[1..] == more && [] + more == more;
    }
  }

  lemma FirstStep(first: GlobalPolicy, rest: seq<GlobalPolicy>, nsLabels: map<string, string>, node: WorkloadNode)
    ensures WorkloadSelecting(NsSelecting([first] + rest, nsLabels), node)
         == (if SelectsNamespace(first, nsLabels) && SelectsWorkload(first, node) then [first] else [])
            + WorkloadSelecting(NsSelecting(rest, nsLabels), node)
  {
    assert ([first] + rest)[1..] == rest;
    var more := NsSelecting(rest, nsLabels);
    if SelectsNamespace(first, nsLabels) {
      assert ([first] + more)[1..] == more;
    } else {
      assert [] + more == more;
    }
  }

  lemma WinnerIsLeastDecider(
      parse: CidrParser, fetched: seq<GlobalPolicy>, nsLabels: map<string, string>, node: WorkloadNode,
      direction: Direction, bucket: Bucket)
    ensures var candidates := CandidatesFor(parse, NsSelecting(ByPrecedence(fetched), nsLabels), direction, bucket);
            var w := WinnerByIndex(candidates, node);
            if w.Some? then exists gp ::
              IsLeastDecider(parse, fetched, gp, nsLabels, node, direction, bucket)
              && CandidateOf(parse, gp, direction, bucket) == w
            else forall q :: q in fetched ==> !Decides(parse, q, nsLabels, node, direction, bucket)
  {
    var sorted := ByPrecedence(fetched);
    PrecedesIsAnOrder();
    StableSortSorts(fetched, Precedes);
    forall q
      ensures q in sorted <==> q in fetched
    {
      assert q in sorted <==> q in multiset(sorted);
      assert q in fetched <==> q in multiset(fetched);
    }
    IndexRefinesWalk(parse, NsSelecting(sorted, nsLabels), direction, bucket, node);
    if exists q :: q in sorted && Decides(parse, q, nsLabels, node, direction, bucket) {
      var gp := WalkFindsLeast(parse, sorted, nsLabels, node, direction, bucket);
      assert IsLeastDecider(parse, fetched, gp, nsLabels, node, direction, bucket);
    } else {
      WalkFindsNone(parse, sorted, nsLabels, node, direction, bucket);
    }
  }

  // ----- the same, on the fields of the policies -----

  function RulesIn(gp: GlobalPolicy, direction: Direction): seq<CalicoRule> {
    match direction
    case Egress => gp.egress
    case Ingress => gp.ingress
  }

  /** The policy selects the namespace and the workload; a missing namespace selector selects every
      namespace, and a namespace node is seen without labels. */
  ghost predicate Selects(gp: GlobalPolicy, nsLabels: map<string, string>, node: WorkloadNode) {
    && (gp.nsSelector == None || SelectorAst.Evaluate(gp.nsSelector.value, nsLabels))
    && gp.selector != None
    && (if node.nodeType == NamespaceNode then SelectorAst.Evaluate(gp.selector.value, map[])
        else SelectorAst.Evaluate(gp.selector.value, node.labels))
  }

  /** Its rule k is the first that covers the pair, and is no Pass. */
  ghost predicate DecidesBy(
      parse: CidrParser, gp: GlobalPolicy, direction: Direction, cidr: string, port: Port, k: nat)
  {
    var rules := RulesIn(gp, direction);
    && k < |rules| && Covers(parse, rules[k], cidr, port) && !rules[k].isPass
    && forall i :: 0 <= i < k ==> !Covers(parse, rules[i], cidr, port)
  }

  lemma {:induction false} FirstMatchIsFirst(parse: CidrParser, rules: seq<CalicoRule>, bucket: Bucket) returns (k: nat)
    ensures var first := FirstMatch(parse, rules, bucket);
            k <= |rules| && (first.Some? <==> k < |rules|)
            && (k < |rules| ==> first == Some(rules[k]) && Covers(parse, rules[k], bucket.cidr, bucket.port))
            && forall i :: 0 <= i < k ==> !Covers(parse, rules[i], bucket.cidr, bucket.port)
  {
    hide RuleCovers, Covers;
    k := 0;
    if rules != [] {
      RuleCoversOnFields(parse, rules[0], bucket);
      if !RuleCovers(parse, rules[0], bucket) {
        k := FirstMatchIsFirst(parse, rules[1..], bucket);
        k := k + 1;
      }
    }
  }

  lemma CandidateOnFields(parse: CidrParser, gp: GlobalPolicy, direction: Direction, bucket: Bucket)
    ensures var c := CandidateOf(parse, gp, direction, bucket);
            && (c.Some? <==> exists k: nat :: DecidesBy(parse, gp, direction, bucket.cidr, bucket.port, k))
            && forall k: nat :: DecidesBy(parse, gp, direction, bucket.cidr, bucket.port, k) ==>
                 c == Some(Candidate(gp.ref, RulesIn(gp, direction)[k].action, gp.selector, gp.selectsAllWorkloads))
  {
    var rules := RulesIn(gp, direction);
    var first := FirstMatchIsFirst(parse, rules, bucket);
    hide Covers, FirstMatch;
    forall k: nat | DecidesBy(parse, gp, direction, bucket.cidr, bucket.port, k)
      ensures k == first
    {
    }
    if first < |rules| && !rules[first].isPass {
      assert DecidesBy(parse, gp, direction, bucket.cidr, bucket.port, first);
    }
  }

  /** gp decides the pair for the node by its rule k, and every policy that decides it comes after. */
  ghost predicate Wins(
      parse: CidrParser, fetched: seq<GlobalPolicy>, nsLabels: map<string, string>, node: WorkloadNode,
      direction: Direction, bucket: Bucket, gp: GlobalPolicy, k: nat)
  {
    && gp in fetched && Selects(gp, nsLabels, node) && DecidesBy(parse, gp, direction, bucket.cidr, bucket.port, k)
    && forall q, i: nat ::
         q in fetched && Selects(q, nsLabels, node) && DecidesBy(parse, q, direction, bucket.cidr, bucket.port, i) ==>
           ComesFirst(gp, q)
  }

  lemma DecidesOnFields(
      parse: CidrParser, gp: GlobalPolicy, nsLabels: map<string, string>, node: WorkloadNode,
      direction: Direction, bucket: Bucket)
    ensures Decides(parse, gp, nsLabels, node, direction, bucket) <==>
      Selects(gp, nsLabels, node)
      && exists k: nat :: DecidesBy(parse, gp, direction, bucket.cidr, bucket.port, k)
  {
    CandidateOnFields(parse, gp, direction, bucket);
    hide CandidateOf, DecidesBy;
  }

  /** The winner that the index yields is the policy of the lowest tier, then order, then name among
      all that select the workload and decide the pair, whatever order they were fetched in; it acts
      as its deciding rule does. There is no winner exactly where no policy decides. */
  lemma WinnerIsLeast(
      parse: CidrParser, fetched: seq<GlobalPolicy>, nsLabels: map<string, string>, node: WorkloadNode,
      direction: Direction, bucket: Bucket)
    ensures var candidates := CandidatesFor(parse, NsSelecting(ByPrecedence(fetched), nsLabels), direction, bucket);
            var w := WinnerByIndex(candidates, node);
            if w.Some? then exists gp, k: nat ::
              Wins(parse, fetched, nsLabels, node, direction, bucket, gp, k)
              && w.value.action == RulesIn(gp, direction)[k].action && w.value.winner == gp.ref
              && w.value.selectsAll == gp.selectsAllWorkloads
            else forall q, k: nat :: q in fetched && Selects(q, nsLabels, node) ==>
              !DecidesBy(parse, q, direction, bucket.cidr, bucket.port, k)
  {
    hide ByPrecedence, CandidatesFor, NsSelecting, WinnerByIndex, CandidateOf, Decides, Selects, DecidesBy, ComesFirst,
      Precedes;
    WinnerIsLeastDecider(parse, fetched, nsLabels, node, direction, bucket);
    forall q
      ensures Decides(parse, q, nsLabels, node, direction, bucket) <==>
        Selects(q, nsLabels, node)
        && exists k: nat :: DecidesBy(parse, q, direction, bucket.cidr, bucket.port, k)
    {
      DecidesOnFields(parse, q, nsLabels, node, direction, bucket);
    }
    var candidates := CandidatesFor(parse, NsSelecting(ByPrecedence(fetched), nsLabels), direction, bucket);
    var w := WinnerByIndex(candidates, node);
    if w.Some? {
      var gp :| IsLeastDecider(parse, fetched, gp, nsLabels, node, direction, bucket)
                && CandidateOf(parse, gp, direction, bucket) == w;
      var k: nat :| DecidesBy(parse, gp, direction, bucket.cidr, bucket.port, k);
      CandidateOnFields(parse, gp, direction, bucket);
      forall q
        ensures Precedes(gp, q) <==> ComesFirst(gp, q)
      {
        PrecedesOnFields(gp, q);
      }
      assert Wins(parse, fetched, nsLabels, node, direction, bucket, gp, k);
    }
  }
}
