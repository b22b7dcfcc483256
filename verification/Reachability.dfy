// The verdict of one direction of a path: rules from the namespace's and the workload's bucket,
// sorted into classes, and the reason that follows.
module Reachability {
  import opened Wrappers
  import opened Cidr
  import opened Models

  datatype Reason =
    | ReasonPermitted | ReasonExplicitDeny | ReasonCarvedOut | ReasonDefaultDeny
    | ReasonLockedNoMatch | ReasonNoOpinion

  /** The direction asked about, and the peer: its node id, its namespace's node id (empty when
      unknown), and the index in which ids are looked up. */
  datatype Query = Query(
    parse: CidrParser, nodes: map<string, WorkloadNode>, direction: Direction, peerID: string, peerNsID: string)

  datatype DirectionVerdict = DirectionVerdict(
    denyAllMatches: seq<Rule>, otherAllowMatches: seq<Rule>, allowMatches: seq<Rule>,
    denyMatches: seq<Rule>, carveOutMatches: seq<Rule>,
    reason: Reason, culprits: seq<PolicyRef>, ports: seq<Port>, allPorts: bool)

  // ----- does a rule speak for the peer -----

  function PeerOf(rule: Rule, direction: Direction): string {
    if direction == Egress then rule.dstID else rule.srcID
  }

  /** A CIDR peer needs real containment; a workload peer is in cluster space, which every
      range but a LAN one covers. */
  predicate CidrNodeCoversPeer(q: Query, cidrID: string) {
    && cidrID in q.nodes && q.nodes[cidrID].nodeType == CidrNode
    && if q.peerID in q.nodes && q.nodes[q.peerID].nodeType == CidrNode
       then CidrContains(q.parse, q.nodes[cidrID].text, q.nodes[q.peerID].text)
       else q.nodes[cidrID].cidrType != LanCidr
  }

  /** By its node, its namespace or a covering CIDR. */
  predicate NamesPeer(q: Query, rule: Rule) {
    var peer := PeerOf(rule, q.direction);
    peer == q.peerID || peer == q.peerNsID || CidrNodeCoversPeer(q, peer)
  }

  function PolicyIdentityKey(ref: PolicyRef): string {
    ref.source + "|" + ref.namespace + "|" + ref.name
  }

  /** The policies with an allow that names the peer. A blanket allow counts only against a peer
      whose id or namespace id is empty. */
  function AllowingPolicies(q: Query, allows: seq<Rule>): set<string> {
    set r | r in allows && NamesPeer(q, r) :: PolicyIdentityKey(r.contributor)
  }

  method PoliciesAllowingPeerSpecifically(q: Query, allows: seq<Rule>) returns (allowing: set<string>)
    ensures allowing == AllowingPolicies(q, allows)
  {
    allowing := {};
    for i := 0 to |allows|
      invariant allowing == AllowingPolicies(q, allows[..i])
    {
      assert allows[..i + 1] == allows[..i] + [allows[i]];
      if NamesPeer(q, allows[i]) {
        allowing := allowing + {PolicyIdentityKey(allows[i].contributor)};
      }
    }
    assert allows[..|allows|] == allows;
  }

  // ----- classes of rules -----

  datatype Class = DenyAllClass | AllowClass | OtherAllowClass | DenyClass | CarveOutClass | Dropped

  function ClassOfAllow(q: Query, rule: Rule): Class {
    if rule.coverage == CoverageDenyAll then DenyAllClass
    else if NamesPeer(q, rule) || rule.coverage == CoverageAllowAll then AllowClass
    else if rule.coverage == CoverageUnenforced then Dropped
    else OtherAllowClass
  }

  /** A deny-all is a fallback for peers its own policy does not allow by name. */
  function ClassOfDeny(q: Query, allowing: set<string>, rule: Rule): Class {
    if rule.coverage == CoverageDenyAll && PolicyIdentityKey(rule.contributor) in allowing then Dropped
    else if NamesPeer(q, rule) || rule.coverage == CoverageDenyAll then
      if rule.coverage == CoverageExcept then CarveOutClass else DenyClass
    else Dropped
  }

  function AllowsOf(q: Query, rules: seq<Rule>, c: Class): (r: seq<Rule>)
    ensures forall x :: x in r <==> x in rules && ClassOfAllow(q, x) == c
  {
    if rules == [] then []
    else
      var last := rules[|rules| - 1];
      AllowsOf(q, rules[..|rules| - 1], c) + if ClassOfAllow(q, last) == c then [last] else []
  }

  function DeniesOf(q: Query, allowing: set<string>, rules: seq<Rule>, c: Class): (r: seq<Rule>)
    ensures forall x :: x in r <==> x in rules && ClassOfDeny(q, allowing, x) == c
  {
    if rules == [] then []
    else
      var last := rules[|rules| - 1];
      DeniesOf(q, allowing, rules[..|rules| - 1], c) + if ClassOfDeny(q, allowing, last) == c then [last] else []
  }

  // ----- ports -----

  /** Ports are told apart by number, range end and protocol; the name is for display. */
  datatype PortKey = PortKey(port: int, endPort: int, protocol: string)

  function KeyOf(p: Port): PortKey {
    PortKey(p.port, p.endPort, p.protocol)
  }

  function KeysOf(ports: seq<Port>): set<PortKey> {
    set p | p in ports :: KeyOf(p)
  }

  lemma KeysAppend(ports: seq<Port>, p: Port)
    ensures KeysOf(ports + [p]) == KeysOf(ports) + {KeyOf(p)}
  {
    forall k
      ensures k in KeysOf(ports + [p]) <==> k in KeysOf(ports) || k == KeyOf(p)
    {
      if k in KeysOf(ports) {
        var x :| x in ports && KeyOf(x) == k;
        assert x in ports + [p];
      }
      assert p in ports + [p];
    }
  }

  function AddPorts(ports: seq<Port>, more: seq<Port>): (r: seq<Port>)
    ensures KeysOf(r) == KeysOf(ports) + KeysOf(more)
    decreases |more|
  {
    if more == [] then ports
    else
      var init, last := more[..|more| - 1], more[|more| - 1];
      var r := AddPorts(ports, init);
      assert more == init + [last];
      KeysAppend(init, last);
      KeysAppend(r, last);
      if KeyOf(last) in KeysOf(r) then r else r + [last]
  }

  method AddPortsLoop(ports: seq<Port>, seen: set<PortKey>, more: seq<Port>)
    returns (r: seq<Port>, seenNow: set<PortKey>)
    requires seen == KeysOf(ports)
    ensures r == AddPorts(ports, more) && seenNow == KeysOf(r)
  {
    r, seenNow := ports, seen;
    for i := 0 to |more|
      invariant r == AddPorts(ports, more[..i]) && seenNow == KeysOf(r)
    {
      assert more[..i + 1][..i] == more[..i];
      KeysAppend(r, more[i]);
      if KeyOf(more[i]) !in seenNow {
        seenNow := seenNow + {KeyOf(more[i])};
        r := r + [more[i]];
      }
    }
    assert more[..|more|] == more;
  }

  function PortsOf(rules: seq<Rule>): (r: seq<Port>)
    ensures forall k :: k in KeysOf(r) <==> exists x :: x in rules && k in KeysOf(x.ports)
  {
    if rules == [] then []
    else
      var init, last := rules[..|rules| - 1], rules[|rules| - 1];
      assert rules == init + [last];
      AddPorts(PortsOf(init), last.ports)
  }

  // ----- the reason -----

  /** The rule's own peer as CIDR text, when its id is a synthetic CIDR id. */
  function PeerCidr(rule: Rule): Option<string> {
    var peer := PeerOf(rule, rule.direction);
    if CIDR_ID_PREFIX <= peer then Some(peer[|CIDR_ID_PREFIX|..]) else None
  }

  /** The except belongs to this allow: same policy, same ports, and within its range. */
  predicate Trims(parse: CidrParser, allow: Rule, carveOut: Rule) {
    && PeerCidr(allow).Some? && PeerCidr(carveOut).Some?
    && PolicyIdentityKey(allow.contributor) == PolicyIdentityKey(carveOut.contributor)
    && allow.ports == carveOut.ports
    && CidrContains(parse, PeerCidr(allow).value, PeerCidr(carveOut).value)
  }

  predicate AnyCarveOutTrims(parse: CidrParser, allow: Rule, carveOuts: seq<Rule>) {
    exists c :: c in carveOuts && Trims(parse, allow, c)
  }

  datatype PolicyId = PolicyId(source: string, name: string, namespace: string)

  function IdOf(ref: PolicyRef): PolicyId {
    PolicyId(ref.source, ref.name, ref.namespace)
  }

  function IdsOf(refs: seq<PolicyRef>): set<PolicyId> {
    set r | r in refs :: IdOf(r)
  }

  lemma IdsAppend(refs: seq<PolicyRef>, ref: PolicyRef)
    ensures IdsOf(refs + [ref]) == IdsOf(refs) + {IdOf(ref)}
  {
    forall id
      ensures id in IdsOf(refs + [ref]) <==> id in IdsOf(refs) || id == IdOf(ref)
    {
      if id in IdsOf(refs) {
        var x :| x in refs && IdOf(x) == id;
        assert x in refs + [ref];
      }
      assert ref in refs + [ref];
    }
  }

  /** The contributors of the rules, each policy once. */
  function DedupContributors(rules: seq<Rule>): (r: seq<PolicyRef>)
    ensures forall id :: id in IdsOf(r) <==> exists x :: x in rules && IdOf(x.contributor) == id
    ensures forall i, j :: 0 <= i < j < |r| ==> IdOf(r[i]) != IdOf(r[j])
  {
    if rules == [] then []
    else
      var init, last := rules[..|rules| - 1], rules[|rules| - 1].contributor;
      assert rules == init + [rules[|rules| - 1]];
      var r := DedupContributors(init);
      IdsAppend(r, last);
      assert rules[|rules| - 1] in rules;
      if IdOf(last) in IdsOf(r) then r else r + [last]
  }

  function Decide(parse: CidrParser, v: DirectionVerdict): (Reason, seq<PolicyRef>) {
    if v.denyMatches != [] then (ReasonExplicitDeny, DedupContributors(v.denyMatches))
    else if v.carveOutMatches != [] then
      if exists a :: a in v.allowMatches && !AnyCarveOutTrims(parse, a, v.carveOutMatches)
      then (ReasonPermitted, [])
      else (ReasonCarvedOut, DedupContributors(v.carveOutMatches))
    else if v.allowMatches != [] then (ReasonPermitted, [])
    else if v.otherAllowMatches != [] then (ReasonLockedNoMatch, DedupContributors(v.otherAllowMatches))
    else if v.denyAllMatches != [] then (ReasonDefaultDeny, DedupContributors(v.denyAllMatches))
    else (ReasonNoOpinion, [])
  }

  /** The verdict on the rules of both buckets, namespace first. */
  function Verdict(q: Query, allows: seq<Rule>, denies: seq<Rule>): DirectionVerdict {
    var v := Classified(q, AllowingPolicies(q, allows), allows, denies);
    var (reason, culprits) := Decide(q.parse, v);
    v.(reason := reason, culprits := culprits)
  }

  function Classified(q: Query, allowing: set<string>, allows: seq<Rule>, denies: seq<Rule>): DirectionVerdict {
    var matches := AllowsOf(q, allows, AllowClass);
    DirectionVerdict(
      AllowsOf(q, allows, DenyAllClass), AllowsOf(q, allows, OtherAllowClass), matches,
      DeniesOf(q, allowing, denies, DenyClass), DeniesOf(q, allowing, denies, CarveOutClass),
      ReasonNoOpinion, [], PortsOf(matches), AnyAllPorts(matches))
  }

  // ----- the collecting loops -----

  method CollectSide(q: Query, nsRules: DirectionRules, nodeRules: DirectionRules) returns (v: DirectionVerdict)
    ensures v == Verdict(q, nsRules.allow + nodeRules.allow, nsRules.deny + nodeRules.deny)
  {
    hide AllowingPolicies, AllowsOf, DeniesOf, PortsOf, Decide;
    var allows := nsRules.allow + nodeRules.allow;
    var allowing := PoliciesAllowingPeerSpecifically(q, allows);
    v := DirectionVerdict([], [], [], [], [], ReasonNoOpinion, [], [], false);
    ClassifiedNone(q, allowing);
    var seen: set<PortKey> := {};
    v, seen := CollectAllows(q, allowing, [], [], nsRules.allow, v, seen);
    v := CollectDenies(q, allowing, [] + nsRules.allow, [], nsRules.deny, v);
    v, seen := CollectAllows(q, allowing, [] + nsRules.allow, [] + nsRules.deny, nodeRules.allow, v, seen);
    v := CollectDenies(q, allowing, [] + nsRules.allow + nodeRules.allow, [] + nsRules.deny, nodeRules.deny, v);
    assert [] + nsRules.allow == nsRules.allow && [] + nsRules.deny == nsRules.deny;
    var reason, culprits := DecideDirectionVerdict(q.parse, v);
    v := v.(reason := reason, culprits := culprits);
  }

  lemma ClassifiedNone(q: Query, allowing: set<string>)
    ensures Classified(q, allowing, [], []) == DirectionVerdict([], [], [], [], [], ReasonNoOpinion, [], [], false)
  {
  }

  /** The first loop of the collecting closure, after the rules in `allows` and `denies`. */
  method CollectAllows(
      q: Query, ghost allowing: set<string>, ghost allows: seq<Rule>, ghost denies: seq<Rule>,
      rules: seq<Rule>, start: DirectionVerdict, seen: set<PortKey>)
    returns (v: DirectionVerdict, seenNow: set<PortKey>)
    requires start == Classified(q, allowing, allows, denies) && seen == KeysOf(start.ports)
    ensures v == Classified(q, allowing, allows + rules, denies) && seenNow == KeysOf(v.ports)
  {
    hide Classified, ClassOfAllow, KeysOf, AddPorts;
    v, seenNow := start, seen;
    assert allows + rules[..0] == allows;
    for i := 0 to |rules|
      invariant v == Classified(q, allowing, allows + rules[..i], denies) && seenNow == KeysOf(v.ports)
    {
      var rule := rules[i];
      AllowStep(q, allowing, allows + rules[..i], denies, rule);
      assert allows + rules[..i] + [rule] == allows + rules[..i + 1];
      match ClassOfAllow(q, rule) {
        case DenyAllClass =>
          v := v.(denyAllMatches := v.denyAllMatches + [rule]);
        case AllowClass =>
          var ports;
          ports, seenNow := AddPortsLoop(v.ports, seenNow, rule.ports);
          v := v.(allowMatches := v.allowMatches + [rule], allPorts := v.allPorts || rule.allPorts, ports := ports);
        case OtherAllowClass =>
          v := v.(otherAllowMatches := v.otherAllowMatches + [rule]);
        case _ =>
      }
    }
    assert rules[..|rules|] == rules;
  }

  lemma AllowStep(q: Query, allowing: set<string>, allows: seq<Rule>, denies: seq<Rule>, rule: Rule)
    ensures var v, c := Classified(q, allowing, allows, denies), ClassOfAllow(q, rule);
            Classified(q, allowing, allows + [rule], denies)
            == if c == DenyAllClass then v.(denyAllMatches := v.denyAllMatches + [rule])
               else if c == AllowClass then
                 v.(allowMatches := v.allowMatches + [rule], allPorts := v.allPorts || rule.allPorts,
                    ports := AddPorts(v.ports, rule.ports))
               else if c == OtherAllowClass then v.(otherAllowMatches := v.otherAllowMatches + [rule])
               else v
  {
    hide ClassOfAllow, DeniesOf, AllowsOf, PortsOf;
    AllowsAppend(q, allows, rule, DenyAllClass);
    AllowsAppend(q, allows, rule, AllowClass);
    AllowsAppend(q, allows, rule, OtherAllowClass);
    MatchesAppend(AllowsOf(q, allows, AllowClass), rule);
  }

  lemma AllowsAppend(q: Query, rules: seq<Rule>, rule: Rule, c: Class)
    ensures AllowsOf(q, rules + [rule], c)
         == if ClassOfAllow(q, rule) == c then AllowsOf(q, rules, c) + [rule] else AllowsOf(q, rules, c)
  {
    hide ClassOfAllow;
    assert (rules + [rule])[..|rules|] == rules;
  }

  predicate AnyAllPorts(rules: seq<Rule>) {
    exists r :: r in rules && r.allPorts
  }

  lemma MatchesAppend(matches: seq<Rule>, rule: Rule)
    ensures PortsOf(matches + [rule]) == AddPorts(PortsOf(matches), rule.ports)
    ensures AnyAllPorts(matches + [rule]) <==> AnyAllPorts(matches) || rule.allPorts
  {
    assert (matches + [rule])[..|matches|] == matches;
    assert rule in matches + [rule];
    assert forall r :: r in matches ==> r in matches + [rule];
  }

  /** The second loop of the collecting closure. */
  method CollectDenies(
      q: Query, allowing: set<string>, ghost allows: seq<Rule>, ghost denies: seq<Rule>,
      rules: seq<Rule>, start: DirectionVerdict)
    returns (v: DirectionVerdict)
    requires start == Classified(q, allowing, allows, denies)
    ensures v == Classified(q, allowing, allows, denies + rules)
  {
    hide Classified, ClassOfDeny;
    v := start;
    assert denies + rules[..0] == denies;
    for i := 0 to |rules|
      invariant v == Classified(q, allowing, allows, denies + rules[..i])
    {
      var rule := rules[i];
      DenyStep(q, allowing, allows, denies + rules[..i], rule);
      assert denies + rules[..i] + [rule] == denies + rules[..i + 1];
      match ClassOfDeny(q, allowing, rule) {
        case CarveOutClass =>
          v := v.(carveOutMatches := v.carveOutMatches + [rule]);
        case DenyClass =>
          v := v.(denyMatches := v.denyMatches + [rule]);
        case _ =>
      }
    }
    assert rules[..|rules|] == rules;
  }

  lemma DenyStep(q: Query, allowing: set<string>, allows: seq<Rule>, denies: seq<Rule>, rule: Rule)
    ensures var v, c := Classified(q, allowing, allows, denies), ClassOfDeny(q, allowing, rule);
            Classified(q, allowing, allows, denies + [rule])
            == if c == CarveOutClass then v.(carveOutMatches := v.carveOutMatches + [rule])
               else if c == DenyClass then v.(denyMatches := v.denyMatches + [rule])
               else v
  {
    hide ClassOfDeny, AllowsOf, DeniesOf, PortsOf;
    DeniesAppend(q, allowing, denies, rule, DenyClass);
    DeniesAppend(q, allowing, denies, rule, CarveOutClass);
  }

  lemma DeniesAppend(q: Query, allowing: set<string>, rules: seq<Rule>, rule: Rule, c: Class)
    ensures DeniesOf(q, allowing, rules + [rule], c)
         == if ClassOfDeny(q, allowing, rule) == c then DeniesOf(q, allowing, rules, c) + [rule]
            else DeniesOf(q, allowing, rules, c)
  {
    hide ClassOfDeny;
    assert (rules + [rule])[..|rules|] == rules;
  }

  method DecideDirectionVerdict(parse: CidrParser, v: DirectionVerdict)
    returns (reason: Reason, culprits: seq<PolicyRef>)
    ensures (reason, culprits) == Decide(parse, v)
  {
    if v.denyMatches != [] {
      culprits := DedupContributorsLoop(v.denyMatches);
      return ReasonExplicitDeny, culprits;
    }
    if v.carveOutMatches != [] {
      for i := 0 to |v.allowMatches|
        invariant forall k :: 0 <= k < i ==> AnyCarveOutTrims(parse, v.allowMatches[k], v.carveOutMatches)
      {
        var trims := AnyCarveOutTrimsLoop(parse, v.allowMatches[i], v.carveOutMatches);
        if !trims {
          return ReasonPermitted, [];
        }
      }
      culprits := DedupContributorsLoop(v.carveOutMatches);
      return ReasonCarvedOut, culprits;
    }
    if v.allowMatches != [] {
      return ReasonPermitted, [];
    }
    if v.otherAllowMatches != [] {
      culprits := DedupContributorsLoop(v.otherAllowMatches);
      return ReasonLockedNoMatch, culprits;
    }
    if v.denyAllMatches != [] {
      culprits := DedupContributorsLoop(v.denyAllMatches);
      return ReasonDefaultDeny, culprits;
    }
    return ReasonNoOpinion, [];
  }

  method DedupContributorsLoop(rules: seq<Rule>) returns (culprits: seq<PolicyRef>)
    ensures culprits == DedupContributors(rules)
  {
    var seen: set<PolicyId> := {};
    culprits := [];
    for i := 0 to |rules|
      invariant culprits == DedupContributors(rules[..i]) && seen == IdsOf(culprits)
    {
      assert rules[..i + 1][..i] == rules[..i];
      var policy := rules[i].contributor;
      IdsAppend(culprits, policy);
      if IdOf(policy) !in seen {
        seen := seen + {IdOf(policy)};
        culprits := culprits + [policy];
      }
    }
    assert rules[..|rules|] == rules;
  }

  method AnyCarveOutTrimsLoop(parse: CidrParser, allow: Rule, carveOuts: seq<Rule>) returns (trims: bool)
    ensures trims == AnyCarveOutTrims(parse, allow, carveOuts)
  {
    if PeerCidr(allow).None? {
      return false;
    }
    for i := 0 to |carveOuts|
      invariant forall k :: 0 <= k < i ==> !Trims(parse, allow, carveOuts[k])
    {
      if Trims(parse, allow, carveOuts[i]) {
        return true;
      }
    }
    return false;
  }
}
