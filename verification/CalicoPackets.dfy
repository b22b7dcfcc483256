// From buckets to packets: which bucket of the index answers for one address and port.
module CalicoPackets {
  import opened Wrappers
  import opened Cidr
  import opened Models
  import opened CalicoIndex
  import opened CalicoBuild

  // ----- the walk for one packet -----

  predicate InCidr(parse: CidrParser, cidr: string, a: nat) {
    cidr != "" && parse(cidr).Some? && InBlock(parse(cidr).value, a)
  }

  /** What a rule says about one address and one concrete port. */
  predicate RuleMatchesPacket(parse: CidrParser, rule: CalicoRule, a: nat, port: Port) {
    && (forall i :: 0 <= i < |rule.notNets| ==> !InCidr(parse, rule.notNets[i], a))
    && (rule.nets == [] || exists i :: 0 <= i < |rule.nets| && InCidr(parse, rule.nets[i], a))
    && (rule.ports == [] || port in rule.ports)
  }

  function FirstPacketMatch(parse: CidrParser, rules: seq<CalicoRule>, a: nat, port: Port): Option<CalicoRule> {
    if rules == [] then None
    else if RuleMatchesPacket(parse, rules[0], a, port) then Some(rules[0])
    else FirstPacketMatch(parse, rules[1..], a, port)
  }

  function PacketCandidate(
      parse: CidrParser, gp: GlobalPolicy, direction: Direction, a: nat, port: Port): Option<Candidate> {
    match FirstPacketMatch(parse, RulesFor(gp, direction), a, port)
    case Some(rule) =>
      if rule.isPass then None else Some(Candidate(gp.ref, rule.action, gp.selector, gp.selectsAllWorkloads))
    case None => None
  }

  /** Walk the selecting policies in order for the packet; Pass ends its own policy only. */
  function PacketWinner(
      parse: CidrParser, selecting: seq<GlobalPolicy>, direction: Direction, a: nat, port: Port): Option<Candidate> {
    if selecting == [] then None
    else
      match PacketCandidate(parse, selecting[0], direction, a, port)
      case Some(c) => Some(c)
      case None => PacketWinner(parse, selecting[1..], direction, a, port)
  }

  // ----- buckets that answer -----

  predicate SomeRule(policies: seq<GlobalPolicy>, direction: Direction, rule: CalicoRule) {
    exists p :: p in policies && rule in RulesFor(p, direction)
  }

  /** No block around the address that the rule names is narrower than this one. */
  ghost predicate Resolves(parse: CidrParser, rule: CalicoRule, cidr: string, a: nat)
    requires InCidr(parse, cidr, a)
  {
    forall net :: (net in rule.nets || net in rule.notNets) && InCidr(parse, net, a) ==>
      parse(net).value.bits <= parse(cidr).value.bits
  }

  /** The block holds the address, and no rule names a narrower one around it. */
  ghost predicate Narrowest(
      parse: CidrParser, policies: seq<GlobalPolicy>, direction: Direction, cidr: string, a: nat)
  {
    InCidr(parse, cidr, a)
    && forall rule :: SomeRule(policies, direction, rule) ==> Resolves(parse, rule, cidr, a)
  }

  predicate Listed(policies: seq<GlobalPolicy>, direction: Direction, port: Port) {
    exists p, rule :: p in policies && rule in RulesFor(p, direction) && port in rule.ports
  }

  /** The bucket's port stands for the packet's: it is that port, or it is every port and no rule
      lists the packet's. */
  predicate PortStands(policies: seq<GlobalPolicy>, direction: Direction, bucket: Port, port: Port) {
    bucket == port || (bucket == ALL_PORTS && !Listed(policies, direction, port))
  }

  ghost predicate Answers(
      parse: CidrParser, policies: seq<GlobalPolicy>, direction: Direction, bucket: Bucket, a: nat, port: Port)
  {
    Narrowest(parse, policies, direction, bucket.cidr, a) && PortStands(policies, direction, bucket.port, port)
  }

  lemma NarrowBucketDecides(parse: CidrParser, net: string, cidr: string, a: nat)
    requires InCidr(parse, cidr, a)
    requires InCidr(parse, net, a) ==> parse(net).value.bits <= parse(cidr).value.bits
    ensures CidrContains(parse, net, cidr) <==> InCidr(parse, net, a)
  {
    if net != "" && parse(net).Some? && parse(net).value.bits <= parse(cidr).value.bits {
      var outer, inner := parse(net).value, parse(cidr).value;
      BlockHoldsOwnNetwork(inner);
      AnyAddressDecides(outer, inner, a, Masked(inner.address, inner.bits));
    }
  }

  /** The bucket and the packet are one to the rule. */
  ghost predicate Settled(parse: CidrParser, rule: CalicoRule, bucket: Bucket, a: nat, port: Port) {
    && InCidr(parse, bucket.cidr, a) && Resolves(parse, rule, bucket.cidr, a)
    && (bucket.port == port || (bucket.port == ALL_PORTS && port !in rule.ports))
  }

  lemma SettledRuleAgrees(parse: CidrParser, rule: CalicoRule, bucket: Bucket, a: nat, port: Port)
    requires port != ALL_PORTS && Settled(parse, rule, bucket, a, port)
    ensures RuleCovers(parse, rule, bucket) <==> RuleMatchesPacket(parse, rule, a, port)
  {
    hide CidrContains, InCidr;
    forall net | net in rule.nets || net in rule.notNets
      ensures CidrContains(parse, net, bucket.cidr) <==> InCidr(parse, net, a)
    {
      NarrowBucketDecides(parse, net, bucket.cidr, a);
    }
  }

  lemma {:induction false} FirstMatchIsPackets(
      parse: CidrParser, rules: seq<CalicoRule>, bucket: Bucket, a: nat, port: Port)
    requires port != ALL_PORTS && forall rule :: rule in rules ==> Settled(parse, rule, bucket, a, port)
    ensures FirstMatch(parse, rules, bucket) == FirstPacketMatch(parse, rules, a, port)
  {
    hide RuleCovers, RuleMatchesPacket, Settled;
    if rules != [] {
      SettledRuleAgrees(parse, rules[0], bucket, a, port);
      FirstMatchIsPackets(parse, rules[1..], bucket, a, port);
    }
  }

  lemma {:induction false} SettledWalk(
      parse: CidrParser, selecting: seq<GlobalPolicy>, direction: Direction, bucket: Bucket, a: nat, port: Port)
    requires port != ALL_PORTS
    requires forall p, rule :: p in selecting && rule in RulesFor(p, direction) ==>
      Settled(parse, rule, bucket, a, port)
    ensures WinnerByWalk(parse, selecting, direction, bucket) == PacketWinner(parse, selecting, direction, a, port)
  {
    hide Settled, FirstMatch, FirstPacketMatch;
    if selecting != [] {
      FirstMatchIsPackets(parse, RulesFor(selecting[0], direction), bucket, a, port);
      SettledWalk(parse, selecting[1..], direction, bucket, a, port);
    }
  }

  /** The winner of a bucket that answers is the packet's: what the policies, walked for this one
      address and port, decide. */
  lemma BucketAnswersForPacket(
      parse: CidrParser, selecting: seq<GlobalPolicy>, direction: Direction, bucket: Bucket, a: nat, port: Port)
    requires port != ALL_PORTS && Answers(parse, selecting, direction, bucket, a, port)
    ensures WinnerByWalk(parse, selecting, direction, bucket) == PacketWinner(parse, selecting, direction, a, port)
  {
    hide InCidr, Resolves, WinnerByWalk, PacketWinner;
    forall p, rule | p in selecting && rule in RulesFor(p, direction)
      ensures Settled(parse, rule, bucket, a, port)
    {
      assert SomeRule(selecting, direction, rule);
    }
    SettledWalk(parse, selecting, direction, bucket, a, port);
  }

  /** Hence so does the index of a namespace, for every workload and every bucket that answers. */
  lemma IndexAnswersForPacket(
      parse: CidrParser, policies: seq<GlobalPolicy>, nsLabels: map<string, string>, node: WorkloadNode,
      direction: Direction, bucket: Bucket, a: nat, port: Port)
    requires var cache := SelectionOf(parse, policies, nsLabels);
             bucket in cache.Buckets(direction) && port != ALL_PORTS
             && Answers(parse, WorkloadSelecting(cache.policies, node), direction, bucket, a, port)
    ensures var cache := SelectionOf(parse, policies, nsLabels);
            WinnerByIndex(Lookup(cache.Candidates(direction), bucket), node)
            == PacketWinner(parse, WorkloadSelecting(cache.policies, node), direction, a, port)
  {
    var cache := SelectionOf(parse, policies, nsLabels);
    SelectionIsIndexed(parse, policies, nsLabels, direction);
    hide SelectionOf, WorkloadSelecting, Answers, WinnerByIndex, WinnerByWalk, PacketWinner;
    IndexRefinesWalk(parse, cache.policies, direction, bucket, node);
    BucketAnswersForPacket(parse, WorkloadSelecting(cache.policies, node), direction, bucket, a, port);
  }

  // ----- when some bucket answers -----

  /** Some rule of the namespace names a narrowest block together with the packet's port, or
      together with every port where no rule lists the packet's; or nothing narrower than the
      catch-all and nothing about the port is named. */
  ghost predicate HasBucket(
      parse: CidrParser, policies: seq<GlobalPolicy>, selecting: seq<GlobalPolicy>, direction: Direction,
      a: nat, port: Port)
  {
    || (exists rule, cidr :: SomeRule(policies, direction, rule) && cidr in CidrsOf(rule)
          && Narrowest(parse, selecting, direction, cidr, a)
          && (port in PortsOf(rule) || (ALL_PORTS in PortsOf(rule) && !Listed(selecting, direction, port))))
    || (Narrowest(parse, selecting, direction, CATCH_ALL_CIDR, a) && !Listed(selecting, direction, port))
  }

  lemma NamedBySomeRule(policies: seq<GlobalPolicy>, direction: Direction, b: Bucket)
    ensures Named(policies, direction, b) <==> exists rule :: SomeRule(policies, direction, rule) && RuleNames(rule, b)
  {
    forall rules
      ensures NamedByRules(rules, b) <==> exists rule :: rule in rules && RuleNames(rule, b)
    {
      NamedIsMember(rules, b);
    }
    hide NamedByRules, RuleNames, RulesFor;
    if Named(policies, direction, b) {
      var i :| 0 <= i < |policies| && NamedByRules(RulesFor(policies[i], direction), b);
      var rule :| rule in RulesFor(policies[i], direction) && RuleNames(rule, b);
      assert policies[i] in policies && SomeRule(policies, direction, rule);
    }
    if rule :| SomeRule(policies, direction, rule) && RuleNames(rule, b) {
      var p :| p in policies && rule in RulesFor(p, direction);
      var i :| 0 <= i < |policies| && policies[i] == p;
      assert NamedByRules(RulesFor(policies[i], direction), b);
    }
  }

  lemma NamedIsMember(rules: seq<CalicoRule>, b: Bucket)
    ensures NamedByRules(rules, b) <==> exists rule :: rule in rules && RuleNames(rule, b)
  {
    hide RuleNames;
    if NamedByRules(rules, b) {
      var j :| 0 <= j < |rules| && RuleNames(rules[j], b);
      assert rules[j] in rules;
    }
  }

  /** A rule without blocks names all addresses, one without ports all ports. */
  ghost predicate NamesPair(rule: CalicoRule, cidr: string, port: Port) {
    && (cidr in rule.nets || (rule.nets == [] && cidr == "0.0.0.0/0"))
    && (port in rule.ports || (rule.ports == [] && port == Port(0, 0, "", "")))
  }

  lemma NamesOnFields(rule: CalicoRule, b: Bucket)
    ensures RuleNames(rule, b) <==> NamesPair(rule, b.cidr, b.port)
  {
  }

  /** The buckets are the direction-wide one and every pair of a block and a port that some rule of
      the direction names. */
  lemma BucketsOnFields(policies: seq<GlobalPolicy>, direction: Direction, b: Bucket)
    ensures b in BucketsOf(policies, direction) <==>
      || (b.cidr == "0.0.0.0/0" && b.port == Port(0, 0, "", ""))
      || exists p, rule :: p in policies && rule in RulesIn(p, direction) && NamesPair(rule, b.cidr, b.port)
  {
    NamedBySomeRule(policies, direction, b);
    forall rule
      ensures RuleNames(rule, b) <==> NamesPair(rule, b.cidr, b.port)
    {
      NamesOnFields(rule, b);
    }
    hide Named, NamesPair, RuleNames;
    forall rule
      ensures SomeRule(policies, direction, rule) <==> exists p :: p in policies && rule in RulesIn(p, direction)
    {
    }
  }

  /** Exactly then one of the namespace's buckets answers for the packet. A rule for a narrow block
      and all ports beside one for a port and all blocks leaves packets of both without a bucket. */
  lemma SomeBucketAnswersExactly(
      parse: CidrParser, policies: seq<GlobalPolicy>, selecting: seq<GlobalPolicy>, direction: Direction,
      a: nat, port: Port)
    requires port != ALL_PORTS
    ensures (exists b :: b in BucketsOf(policies, direction) && Answers(parse, selecting, direction, b, a, port))
            <==> HasBucket(parse, policies, selecting, direction, a, port)
  {
    hide Narrowest, Listed, SomeRule, BucketsOf, Named, CidrsOf, PortsOf;
    if b :| b in BucketsOf(policies, direction) && Answers(parse, selecting, direction, b, a, port) {
      if b != DIRECTION_WIDE || Named(policies, direction, b) {
        NamedBySomeRule(policies, direction, b);
        var rule :| SomeRule(policies, direction, rule) && RuleNames(rule, b);
        assert b.cidr in CidrsOf(rule) && b.port in PortsOf(rule);
      }
    }
    if rule, cidr :| SomeRule(policies, direction, rule) && cidr in CidrsOf(rule)
                     && Narrowest(parse, selecting, direction, cidr, a)
                     && (port in PortsOf(rule) || (ALL_PORTS in PortsOf(rule) && !Listed(selecting, direction, port))) {
      var b := Bucket(cidr, if port in PortsOf(rule) then port else ALL_PORTS);
      assert RuleNames(rule, b);
      NamedBySomeRule(policies, direction, b);
      assert b in BucketsOf(policies, direction) && Answers(parse, selecting, direction, b, a, port);
    }
    if Narrowest(parse, selecting, direction, CATCH_ALL_CIDR, a) && !Listed(selecting, direction, port) {
      assert DIRECTION_WIDE in BucketsOf(policies, direction);
      assert Answers(parse, selecting, direction, DIRECTION_WIDE, a, port);
    }
  }

  /** So where one rule is for a block and all ports, and the other for a port and all blocks, no
      bucket answers for that port at any address of the block. */
  lemma CrossedRulesLeaveGap(
      parse: CidrParser, policies: seq<GlobalPolicy>, direction: Direction, forBlock: CalicoRule, forPort: CalicoRule,
      net: string, a: nat, port: Port)
    requires forall rule :: SomeRule(policies, direction, rule) <==> rule == forBlock || rule == forPort
    requires forBlock.nets == [net] && forBlock.ports == [] && forPort.nets == [] && forPort.ports == [port]
    requires port != ALL_PORTS && InCidr(parse, net, a)
    requires InCidr(parse, CATCH_ALL_CIDR, a) ==> parse(CATCH_ALL_CIDR).value.bits < parse(net).value.bits
    ensures !exists b :: b in BucketsOf(policies, direction) && Answers(parse, policies, direction, b, a, port)
  {
    hide BucketsOf, Answers, InCidr, SomeRule, Listed, Narrowest;
    SomeBucketAnswersExactly(parse, policies, policies, direction, a, port);
    assert SomeRule(policies, direction, forBlock) && SomeRule(policies, direction, forPort);
    ListedByRule(policies, direction, forPort, port);
    NotNarrowest(parse, policies, direction, forBlock, net, CATCH_ALL_CIDR, a);
    assert PortsOf(forBlock) == [ALL_PORTS] && CidrsOf(forPort) == [CATCH_ALL_CIDR];
    hide PortsOf, CidrsOf;
    assert port !in [ALL_PORTS];
  }

  lemma ListedByRule(policies: seq<GlobalPolicy>, direction: Direction, rule: CalicoRule, port: Port)
    requires SomeRule(policies, direction, rule) && port in rule.ports
    ensures Listed(policies, direction, port)
  {
  }

  lemma NotNarrowest(
      parse: CidrParser, policies: seq<GlobalPolicy>, direction: Direction, rule: CalicoRule, net: string,
      cidr: string, a: nat)
    requires SomeRule(policies, direction, rule) && net in rule.nets && InCidr(parse, net, a)
    requires InCidr(parse, cidr, a) ==> parse(cidr).value.bits < parse(net).value.bits
    ensures !Narrowest(parse, policies, direction, cidr, a)
  {
  }
}
