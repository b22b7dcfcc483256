// The namespace-level index as the program's loops build it.
module CalicoBuild {
  import opened Wrappers
  import opened Cidr
  import opened Models
  import opened CalicoIndex

  datatype NsSelection = NsSelection(
    policies: seq<GlobalPolicy>,
    egressBuckets: seq<Bucket>, ingressBuckets: seq<Bucket>,
    egressCandidates: map<Bucket, seq<Candidate>>, ingressCandidates: map<Bucket, seq<Candidate>>)
  {
    function Buckets(direction: Direction): seq<Bucket> {
      if direction == Ingress then ingressBuckets else egressBuckets
    }

    function Candidates(direction: Direction): map<Bucket, seq<Candidate>> {
      if direction == Ingress then ingressCandidates else egressCandidates
    }
  }

  ghost predicate Distinct<T>(s: seq<T>) {
    forall i, j :: 0 <= i < j < |s| ==> s[i] != s[j]
  }

  // ----- selecting loops -----

  method NsSelectingPolicies(policies: seq<GlobalPolicy>, nsLabels: map<string, string>)
    returns (matches: seq<GlobalPolicy>)
    ensures matches == NsSelecting(policies, nsLabels)
  {
    matches := [];
    for i := 0 to |policies|
      invariant matches + NsSelecting(policies[i..], nsLabels) == NsSelecting(policies, nsLabels)
    {
      assert policies[i..][0] == policies[i] && policies[i..][1..] == policies[i + 1..];
      if SelectsNamespace(policies[i], nsLabels) {
        matches := matches + [policies[i]];
      }
    }
  }

  method WorkloadSelectingPolicies(nsFiltered: seq<GlobalPolicy>, node: WorkloadNode)
    returns (matches: seq<GlobalPolicy>)
    ensures matches == WorkloadSelecting(nsFiltered, node)
  {
    matches := [];
    for i := 0 to |nsFiltered|
      invariant matches + WorkloadSelecting(nsFiltered[i..], node) == WorkloadSelecting(nsFiltered, node)
    {
      assert nsFiltered[i..][0] == nsFiltered[i] && nsFiltered[i..][1..] == nsFiltered[i + 1..];
      if SelectsWorkload(nsFiltered[i], node) {
        matches := matches + [nsFiltered[i]];
      }
    }
  }

  // ----- buckets -----

  function CidrsOf(rule: CalicoRule): seq<string> {
    if rule.nets == [] then [CATCH_ALL_CIDR] else rule.nets
  }

  function PortsOf(rule: CalicoRule): seq<Port> {
    if rule.ports == [] then [ALL_PORTS] else rule.ports
  }

  predicate RuleNames(rule: CalicoRule, b: Bucket) {
    b.cidr in CidrsOf(rule) && b.port in PortsOf(rule)
  }

  predicate NamedByRules(rules: seq<CalicoRule>, b: Bucket) {
    exists j :: 0 <= j < |rules| && RuleNames(rules[j], b)
  }

  predicate Named(policies: seq<GlobalPolicy>, direction: Direction, b: Bucket) {
    exists i :: 0 <= i < |policies| && NamedByRules(RulesFor(policies[i], direction), b)
  }

  function AddNew(buckets: seq<Bucket>, b: Bucket): (r: seq<Bucket>)
    ensures buckets <= r && (Distinct(buckets) ==> Distinct(r))
    ensures forall x :: x in r <==> x in buckets || x == b
  {
    if b in buckets then buckets else buckets + [b]
  }

  // Every function below adds the buckets of its list that are new, in order of first mention.

  function WithPorts(buckets: seq<Bucket>, cidr: string, ports: seq<Port>): (r: seq<Bucket>)
    ensures buckets <= r && (Distinct(buckets) ==> Distinct(r))
    ensures forall b :: b in r <==> b in buckets || (b.cidr == cidr && b.port in ports)
    decreases |ports|
  {
    if ports == [] then buckets
    else
      var init, last := ports[..|ports| - 1], ports[|ports| - 1];
      assert ports == init + [last];
      AddNew(WithPorts(buckets, cidr, init), Bucket(cidr, last))
  }

  function WithCidrs(buckets: seq<Bucket>, cidrs: seq<string>, ports: seq<Port>): (r: seq<Bucket>)
    ensures buckets <= r && (Distinct(buckets) ==> Distinct(r))
    ensures forall b :: b in r <==> b in buckets || (b.cidr in cidrs && b.port in ports)
    decreases |cidrs|
  {
    if cidrs == [] then buckets
    else
      var init, last := cidrs[..|cidrs| - 1], cidrs[|cidrs| - 1];
      assert cidrs == init + [last];
      WithPorts(WithCidrs(buckets, init, ports), last, ports)
  }

  function WithRules(buckets: seq<Bucket>, rules: seq<CalicoRule>): (r: seq<Bucket>)
    ensures buckets <= r && (Distinct(buckets) ==> Distinct(r))
    ensures forall b :: b in r <==> b in buckets || NamedByRules(rules, b)
    decreases |rules|
  {
    if rules == [] then buckets
    else
      var init, last := rules[..|rules| - 1], rules[|rules| - 1];
      assert rules == init + [last];
      WithCidrs(WithRules(buckets, init), CidrsOf(last), PortsOf(last))
  }

  function WithPolicies(buckets: seq<Bucket>, policies: seq<GlobalPolicy>, direction: Direction): (r: seq<Bucket>)
    ensures buckets <= r && (Distinct(buckets) ==> Distinct(r))
    ensures forall b :: b in r <==> b in buckets || Named(policies, direction, b)
    decreases |policies|
  {
    if policies == [] then buckets
    else
      var init, last := policies[..|policies| - 1], policies[|policies| - 1];
      assert policies == init + [last];
      WithRules(WithPolicies(buckets, init, direction), RulesFor(last, direction))
  }

  /** The direction-wide seed, then every (CIDR, port) pair that some rule names; each once. */
  function BucketsOf(policies: seq<GlobalPolicy>, direction: Direction): (r: seq<Bucket>)
    ensures Distinct(r) && r != [] && r[0] == DIRECTION_WIDE
    ensures forall b :: b in r <==> b == DIRECTION_WIDE || Named(policies, direction, b)
  {
    WithPolicies([DIRECTION_WIDE], policies, direction)
  }

  method DestinationBuckets(policies: seq<GlobalPolicy>, direction: Direction) returns (buckets: seq<Bucket>)
    ensures buckets == BucketsOf(policies, direction)
  {
    hide WithRules;
    buckets := [DIRECTION_WIDE];
    for i := 0 to |policies|
      invariant buckets == WithPolicies([DIRECTION_WIDE], policies[..i], direction)
    {
      assert policies[..i + 1][..i] == policies[..i];
      buckets := AddPolicyBuckets(buckets, RulesFor(policies[i], direction));
    }
    assert policies[..|policies|] == policies;
  }

  method AddPolicyBuckets(start: seq<Bucket>, rules: seq<CalicoRule>) returns (buckets: seq<Bucket>)
    ensures buckets == WithRules(start, rules)
  {
    hide WithCidrs;
    buckets := start;
    for j := 0 to |rules|
      invariant buckets == WithRules(start, rules[..j])
    {
      assert rules[..j + 1][..j] == rules[..j];
      buckets := AddRuleBuckets(buckets, CidrsOf(rules[j]), PortsOf(rules[j]));
    }
    assert rules[..|rules|] == rules;
  }

  method AddRuleBuckets(start: seq<Bucket>, cidrs: seq<string>, ports: seq<Port>) returns (buckets: seq<Bucket>)
    ensures buckets == WithCidrs(start, cidrs, ports)
  {
    buckets := start;
    for c := 0 to |cidrs|
      invariant buckets == WithCidrs(start, cidrs[..c], ports)
    {
      assert cidrs[..c + 1][..c] == cidrs[..c];
      ghost var before := buckets;
      for p := 0 to |ports|
        invariant buckets == WithPorts(before, cidrs[c], ports[..p])
      {
        assert ports[..p + 1][..p] == ports[..p];
        var key := Bucket(cidrs[c], ports[p]);
        if key !in buckets {
          buckets := buckets + [key];
        }
      }
      assert ports[..|ports|] == ports;
    }
    assert cidrs[..|cidrs|] == cidrs;
  }

  // ----- candidates -----

  function Lookup(candidates: map<Bucket, seq<Candidate>>, b: Bucket): seq<Candidate> {
    if b in candidates then candidates[b] else []
  }

  /** The candidate list of every bucket; empty lists are left out. */
  function IndexOf(
      parse: CidrParser, policies: seq<GlobalPolicy>, direction: Direction, buckets: seq<Bucket>)
    : map<Bucket, seq<Candidate>>
  {
    map b | b in buckets && CandidatesFor(parse, policies, direction, b) != [] ::
      CandidatesFor(parse, policies, direction, b)
  }

  method BuildBucketCandidates(
      parse: CidrParser, policies: seq<GlobalPolicy>, direction: Direction, buckets: seq<Bucket>)
    returns (out: map<Bucket, seq<Candidate>>)
    ensures out == IndexOf(parse, policies, direction, buckets)
  {
    hide CandidatesFor;
    out := map[];
    for i := 0 to |buckets|
      invariant out == IndexOf(parse, policies, direction, buckets[..i])
    {
      var bucket := buckets[i];
      var candidates := CollectCandidates(parse, policies, direction, bucket);
      assert buckets[..i + 1] == buckets[..i] + [bucket];
      if candidates != [] {
        out := out[bucket := candidates];
      }
    }
    assert buckets[..|buckets|] == buckets;
  }

  method CollectCandidates(parse: CidrParser, policies: seq<GlobalPolicy>, direction: Direction, bucket: Bucket)
    returns (candidates: seq<Candidate>)
    ensures candidates == CandidatesFor(parse, policies, direction, bucket)
  {
    candidates := [];
    assert policies[0..] == policies && CandidatesFor(parse, [], direction, bucket) == [];
    hide CandidateOf, CandidatesFor;
    for i := 0 to |policies|
      invariant candidates + CandidatesFor(parse, policies[i..], direction, bucket)
             == CandidatesFor(parse, policies, direction, bucket)
    {
      CandidatesStep(parse, policies, direction, bucket, i, candidates);
      var c := CandidateOfLoop(parse, policies[i], direction, bucket);
      if c.Some? {
        candidates := candidates + [c.value];
      }
    }
  }

  lemma CandidatesStep(
      parse: CidrParser, policies: seq<GlobalPolicy>, direction: Direction, bucket: Bucket, i: nat,
      before: seq<Candidate>)
    requires i < |policies|
    ensures var more := match CandidateOf(parse, policies[i], direction, bucket)
                        case Some(c) => before + [c]
                        case None => before;
            before + CandidatesFor(parse, policies[i..], direction, bucket)
            == more + CandidatesFor(parse, policies[i + 1..], direction, bucket)
  {
    hide CandidateOf;
    assert policies[i..][0] == policies[i] && policies[i..][1..] == policies[i + 1..];
    var rest := CandidatesFor(parse, policies[i + 1..], direction, bucket);
    match CandidateOf(parse, policies[i], direction, bucket) {
      case Some(c) => assert before + ([c] + rest) == (before + [c]) + rest;
      case None => assert [] + rest == rest;
    }
  }

  /** The inner loop: skip the rules that do not cover the bucket, stop at the first that does. */
  method CandidateOfLoop(parse: CidrParser, gp: GlobalPolicy, direction: Direction, bucket: Bucket)
    returns (c: Option<Candidate>)
    ensures c == CandidateOf(parse, gp, direction, bucket)
  {
    var rules := RulesFor(gp, direction);
    for j := 0 to |rules|
      invariant FirstMatch(parse, rules[j..], bucket) == FirstMatch(parse, rules, bucket)
    {
      var rule := rules[j];
      assert rules[j..][0] == rule && rules[j..][1..] == rules[j + 1..];
      if RuleCovers(parse, rule, bucket) {
        if rule.isPass {
          return None;
        }
        return Some(Candidate(gp.ref, rule.action, gp.selector, gp.selectsAllWorkloads));
      }
    }
    c := None;
  }

  /** The cache of a namespace, empty when no policy selects it. */
  function SelectionOf(parse: CidrParser, policies: seq<GlobalPolicy>, nsLabels: map<string, string>): NsSelection {
    var selecting := NsSelecting(policies, nsLabels);
    if selecting == [] then NsSelection([], [], [], map[], map[])
    else
      var egress, ingress := BucketsOf(selecting, Egress), BucketsOf(selecting, Ingress);
      NsSelection(selecting, egress, ingress,
                  IndexOf(parse, selecting, Egress, egress), IndexOf(parse, selecting, Ingress, ingress))
  }

  /** Its buckets are those of its policies, and each finds its candidates. */
  lemma SelectionIsIndexed(
      parse: CidrParser, policies: seq<GlobalPolicy>, nsLabels: map<string, string>, direction: Direction)
    ensures var cache := SelectionOf(parse, policies, nsLabels);
            var buckets := cache.Buckets(direction);
            && cache.policies == NsSelecting(policies, nsLabels) && Distinct(buckets)
            && (if cache.policies == [] then buckets == [] else buckets == BucketsOf(cache.policies, direction))
            && forall b :: b in buckets ==>
                 Lookup(cache.Candidates(direction), b) == CandidatesFor(parse, cache.policies, direction, b)
  {
    hide CandidatesFor, NsSelecting, BucketsOf;
  }

  method BuildNsSelection(parse: CidrParser, policies: seq<GlobalPolicy>, nsLabels: map<string, string>)
    returns (cache: NsSelection)
    ensures cache == SelectionOf(parse, policies, nsLabels)
  {
    var nsPolicies := NsSelectingPolicies(policies, nsLabels);
    if nsPolicies == [] {
      return NsSelection([], [], [], map[], map[]);
    }
    var egress := DestinationBuckets(nsPolicies, Egress);
    var ingress := DestinationBuckets(nsPolicies, Ingress);
    var egressCandidates := BuildBucketCandidates(parse, nsPolicies, Egress, egress);
    var ingressCandidates := BuildBucketCandidates(parse, nsPolicies, Ingress, ingress);
    cache := NsSelection(nsPolicies, egress, ingress, egressCandidates, ingressCandidates);
  }
}
