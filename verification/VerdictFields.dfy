// The verdict on the fields of the rules: which end of a rule is the peer's, which blocks speak for
// a peer, whose policy a rule is, and what follows.
module VerdictFields {
  import opened Wrappers
  import opened Cidr
  import opened Models
  import opened Reachability
  import opened VerdictLaws

  // ----- the peer of a rule -----

  /** Egress rules point to the peer, ingress rules from it. */
  ghost predicate PointsAt(rule: Rule, direction: Direction, id: string) {
    match direction
    case Egress => rule.dstID == id
    case Ingress => rule.srcID == id
  }

  /** The id is a CIDR node's, with all addresses of a CIDR peer, or outside the LAN ranges for any
      other peer. */
  ghost predicate CoversPeer(q: Query, id: string) {
    && id in q.nodes && q.nodes[id].nodeType == CidrNode
    && (if q.peerID in q.nodes && q.nodes[q.peerID].nodeType == CidrNode
        then Around(q.parse, q.nodes[id].text, q.nodes[q.peerID].text)
        else q.nodes[id].cidrType != LanCidr)
  }

  ghost predicate SpeaksOfPeer(q: Query, rule: Rule) {
    exists id :: PointsAt(rule, q.direction, id) && (id == q.peerID || id == q.peerNsID || CoversPeer(q, id))
  }

  lemma NamesOnFields(q: Query, rule: Rule)
    ensures NamesPeer(q, rule) <==> SpeaksOfPeer(q, rule)
  {
    var peer := PeerOf(rule, q.direction);
    forall id
      ensures PointsAt(rule, q.direction, id) <==> id == peer
      ensures CidrNodeCoversPeer(q, id) <==> CoversPeer(q, id)
    {
      if id in q.nodes && q.peerID in q.nodes {
        ContainsIsAround(q.parse, q.nodes[id].text, q.nodes[q.peerID].text);
      }
    }
    hide CidrNodeCoversPeer, CoversPeer, PointsAt;
    assert PointsAt(rule, q.direction, peer);
  }

  // ----- the policy of a rule -----

  /** The references agree in the text that the program tells policies apart by. */
  ghost predicate SamePolicy(a: PolicyRef, b: PolicyRef) {
    a.source + "|" + a.namespace + "|" + a.name == b.source + "|" + b.namespace + "|" + b.name
  }

  lemma NoBarBefore(a: string, x: string)
    requires '|' !in a
    ensures forall i :: 0 <= i < |a| ==> (a + "|" + x)[i] != '|'
  {
    assert forall i :: 0 <= i < |a| ==> a[i] in a;
  }

  lemma SplitAtBar(a: string, x: string, b: string, y: string)
    requires '|' !in a && '|' !in b && a + "|" + x == b + "|" + y
    ensures a == b && x == y
  {
    var s := a + "|" + x;
    NoBarBefore(a, x);
    NoBarBefore(b, y);
    assert s[|a|] == '|' && s[|b|] == '|';
    assert a == s[..|a|] && b == s[..|b|];
    assert x == s[|a| + 1..] && y == s[|b| + 1..];
  }

  /** Where the separator occurs in no source and no namespace, that is the same source, namespace
      and name. */
  lemma SamePolicyIsSameFields(a: PolicyRef, b: PolicyRef)
    requires '|' !in a.source && '|' !in b.source && '|' !in a.namespace && '|' !in b.namespace
    ensures SamePolicy(a, b) <==> a.source == b.source && a.namespace == b.namespace && a.name == b.name
  {
    if SamePolicy(a, b) {
      assert a.source + "|" + a.namespace + "|" + a.name == a.source + "|" + (a.namespace + "|" + a.name);
      assert b.source + "|" + b.namespace + "|" + b.name == b.source + "|" + (b.namespace + "|" + b.name);
      SplitAtBar(a.source, a.namespace + "|" + a.name, b.source, b.namespace + "|" + b.name);
      SplitAtBar(a.namespace, a.name, b.namespace, b.name);
    }
  }

  // ----- what each rule says of the peer -----

  /** An allow for the peer: by name, or for everything. */
  ghost predicate Permits(q: Query, allow: Rule) {
    allow.coverage != CoverageDenyAll && (SpeaksOfPeer(q, allow) || allow.coverage == CoverageAllowAll)
  }

  /** An allow for others only. */
  ghost predicate PermitsOthers(q: Query, allow: Rule) {
    allow.coverage !in {CoverageDenyAll, CoverageAllowAll, CoverageUnenforced} && !SpeaksOfPeer(q, allow)
  }

  /** A deny of the peer: by name, or of everything where its policy allows the peer nowhere. */
  ghost predicate Refuses(q: Query, allows: seq<Rule>, deny: Rule) {
    if deny.coverage == CoverageDenyAll then
      !exists a :: a in allows && SamePolicy(a.contributor, deny.contributor) && SpeaksOfPeer(q, a)
    else deny.coverage != CoverageExcept && SpeaksOfPeer(q, deny)
  }

  ghost predicate CarvesOut(q: Query, deny: Rule) {
    deny.coverage == CoverageExcept && SpeaksOfPeer(q, deny)
  }

  ghost predicate PointsAtBlock(rule: Rule, cidr: string) {
    PointsAt(rule, rule.direction, "cidr:" + cidr)
  }

  /** The excepted block lies in the block that the same policy allows on the same ports. */
  ghost predicate CutsInto(parse: CidrParser, allow: Rule, except: Rule) {
    && SamePolicy(allow.contributor, except.contributor) && allow.ports == except.ports
    && exists outer, inner :: PointsAtBlock(allow, outer) && PointsAtBlock(except, inner) && Around(parse, outer, inner)
  }

  lemma PeerCidrOnFields(rule: Rule)
    ensures forall cidr :: PointsAtBlock(rule, cidr) <==> PeerCidr(rule) == Some(cidr)
  {
    var peer := PeerOf(rule, rule.direction);
    forall cidr
      ensures PointsAtBlock(rule, cidr) <==> PeerCidr(rule) == Some(cidr)
    {
      assert ("cidr:" + cidr)[|CIDR_ID_PREFIX|..] == cidr;
      if CIDR_ID_PREFIX <= peer {
        assert peer == "cidr:" + peer[|CIDR_ID_PREFIX|..];
      }
    }
  }

  lemma TrimsOnFields(parse: CidrParser, allow: Rule, except: Rule)
    ensures Trims(parse, allow, except) <==> CutsInto(parse, allow, except)
  {
    PeerCidrOnFields(allow);
    PeerCidrOnFields(except);
    hide PeerCidr, PointsAtBlock, CidrContains, Around;
    if PeerCidr(allow).Some? && PeerCidr(except).Some? {
      ContainsIsAround(parse, PeerCidr(allow).value, PeerCidr(except).value);
    }
  }

  // ----- the verdict -----

  /** Some allow for the peer is cut into by no exception for it. */
  ghost predicate StandsUncut(q: Query, allows: seq<Rule>, denies: seq<Rule>) {
    exists a :: a in allows && Permits(q, a) && !exists c :: c in denies && CarvesOut(q, c) && CutsInto(q.parse, a, c)
  }

  ghost function ReasonByFields(q: Query, allows: seq<Rule>, denies: seq<Rule>): Reason {
    if exists d :: d in denies && Refuses(q, allows, d) then ReasonExplicitDeny
    else if StandsUncut(q, allows, denies) then ReasonPermitted
    else if exists d :: d in denies && CarvesOut(q, d) then ReasonCarvedOut
    else if exists a :: a in allows && PermitsOthers(q, a) then ReasonLockedNoMatch
    else if exists a :: a in allows && a.coverage == CoverageDenyAll then ReasonDefaultDeny
    else ReasonNoOpinion
  }

  lemma ClassesOfAllowsOnFields(q: Query, a: Rule)
    ensures ClassOfAllow(q, a) == AllowClass <==> Permits(q, a)
    ensures ClassOfAllow(q, a) == OtherAllowClass <==> PermitsOthers(q, a)
    ensures ClassOfAllow(q, a) == DenyAllClass <==> a.coverage == CoverageDenyAll
  {
    NamesOnFields(q, a);
    hide NamesPeer, SpeaksOfPeer;
  }

  lemma ClassesOfDeniesOnFields(q: Query, allows: seq<Rule>, d: Rule)
    ensures ClassOfDeny(q, AllowingPolicies(q, allows), d) == DenyClass <==> Refuses(q, allows, d)
    ensures ClassOfDeny(q, AllowingPolicies(q, allows), d) == CarveOutClass <==> CarvesOut(q, d)
  {
    NamesOnFields(q, d);
    forall a | a in allows
      ensures NamesPeer(q, a) <==> SpeaksOfPeer(q, a)
    {
      NamesOnFields(q, a);
    }
    hide NamesPeer, SpeaksOfPeer;
  }

  lemma CutsOnFields(q: Query, allows: seq<Rule>, denies: seq<Rule>)
    requires forall a :: a in allows ==> (ClassOfAllow(q, a) == AllowClass <==> Permits(q, a))
    requires forall d :: d in denies ==>
      (ClassOfDeny(q, AllowingPolicies(q, allows), d) == CarveOutClass <==> CarvesOut(q, d))
    requires forall a, c :: a in allows && c in denies ==> (Trims(q.parse, a, c) <==> CutsInto(q.parse, a, c))
    ensures Uncut(q, allows, denies) <==> StandsUncut(q, allows, denies)
  {
    hide ClassOfAllow, ClassOfDeny, AllowingPolicies, Permits, CarvesOut, Trims, CutsInto;
    forall a | a in allows
      ensures CutBy(q, allows, denies, a) <==>
        exists c :: c in denies && CarvesOut(q, c) && CutsInto(q.parse, a, c)
    {
    }
  }

  lemma UncutOnFields(q: Query, allows: seq<Rule>, denies: seq<Rule>)
    ensures Uncut(q, allows, denies) <==> StandsUncut(q, allows, denies)
  {
    forall a | a in allows
      ensures ClassOfAllow(q, a) == AllowClass <==> Permits(q, a)
    {
      ClassesOfAllowsOnFields(q, a);
    }
    forall d | d in denies
      ensures ClassOfDeny(q, AllowingPolicies(q, allows), d) == CarveOutClass <==> CarvesOut(q, d)
    {
      ClassesOfDeniesOnFields(q, allows, d);
    }
    forall a, c | a in allows && c in denies
      ensures Trims(q.parse, a, c) <==> CutsInto(q.parse, a, c)
    {
      TrimsOnFields(q.parse, a, c);
    }
    hide ClassOfAllow, ClassOfDeny, AllowingPolicies, Permits, CarvesOut, Trims, CutsInto, Uncut, StandsUncut;
    CutsOnFields(q, allows, denies);
  }

  lemma AllowedOnFields(q: Query, allows: seq<Rule>)
    ensures Allowed(q, allows, OtherAllowClass) <==> exists a :: a in allows && PermitsOthers(q, a)
    ensures Allowed(q, allows, DenyAllClass) <==> exists a :: a in allows && a.coverage == CoverageDenyAll
  {
    forall a
      ensures ClassOfAllow(q, a) == OtherAllowClass <==> PermitsOthers(q, a)
      ensures ClassOfAllow(q, a) == DenyAllClass <==> a.coverage == CoverageDenyAll
    {
      ClassesOfAllowsOnFields(q, a);
    }
    hide ClassOfAllow, PermitsOthers;
  }

  lemma DeniedOnFields(q: Query, allows: seq<Rule>, denies: seq<Rule>)
    ensures Denied(q, allows, denies, DenyClass) <==> exists d :: d in denies && Refuses(q, allows, d)
    ensures Denied(q, allows, denies, CarveOutClass) <==> exists d :: d in denies && CarvesOut(q, d)
  {
    forall d
      ensures ClassOfDeny(q, AllowingPolicies(q, allows), d) == DenyClass <==> Refuses(q, allows, d)
      ensures ClassOfDeny(q, AllowingPolicies(q, allows), d) == CarveOutClass <==> CarvesOut(q, d)
    {
      ClassesOfDeniesOnFields(q, allows, d);
    }
    hide ClassOfDeny, AllowingPolicies, Refuses, CarvesOut;
  }

  /** The reason of the verdict follows from the fields of the rules alone. */
  lemma ReasonOnFields(q: Query, allows: seq<Rule>, denies: seq<Rule>)
    ensures Verdict(q, allows, denies).reason == ReasonByFields(q, allows, denies)
  {
    ReasonInClosedForm(q, allows, denies);
    DeniedOnFields(q, allows, denies);
    UncutOnFields(q, allows, denies);
    AllowedOnFields(q, allows);
    hide Verdict, Denied, Allowed, Uncut, StandsUncut, Refuses, CarvesOut, PermitsOthers;
  }

  // ----- for instance -----

  /** Without denies, an allow of the peer or of its namespace permits it, whatever else is allowed. */
  lemma AllowedPeerIsPermitted(q: Query, allows: seq<Rule>, allow: Rule)
    requires allow in allows && allow.coverage != CoverageDenyAll
    requires if q.direction == Egress then allow.dstID == q.peerID || allow.dstID == q.peerNsID
             else allow.srcID == q.peerID || allow.srcID == q.peerNsID
    ensures Verdict(q, allows, []).reason == ReasonPermitted
  {
    ReasonOnFields(q, allows, []);
    assert PointsAt(allow, q.direction, if q.direction == Egress then allow.dstID else allow.srcID);
    assert Permits(q, allow);
    hide Permits, Verdict;
  }

  /** Allows of other peers alone lock the peer out. */
  lemma AllowedOthersLock(q: Query, allows: seq<Rule>, denies: seq<Rule>)
    requires allows != [] && denies == []
    requires forall a :: a in allows ==>
      && a.coverage == CoverageRestricted
      && var far := if q.direction == Egress then a.dstID else a.srcID;
         far != q.peerID && far != q.peerNsID && !CoversPeer(q, far)
    ensures Verdict(q, allows, denies).reason == ReasonLockedNoMatch
  {
    ReasonOnFields(q, allows, denies);
    hide Verdict, CoversPeer, Refuses, CarvesOut, CutsInto;
    forall a | a in allows
      ensures PermitsOthers(q, a) && !Permits(q, a)
    {
      assert forall id :: PointsAt(a, q.direction, id) ==> id == if q.direction == Egress then a.dstID else a.srcID;
    }
    hide Permits, PermitsOthers;
    assert allows[0] in allows;
  }

  /** A deny of the peer refuses it, whatever is allowed. */
  lemma DeniedPeerIsRefused(q: Query, allows: seq<Rule>, denies: seq<Rule>, deny: Rule)
    requires deny in denies && deny.coverage != CoverageDenyAll && deny.coverage != CoverageExcept
    requires (if q.direction == Egress then deny.dstID else deny.srcID) == q.peerID
    ensures Verdict(q, allows, denies).reason == ReasonExplicitDeny
  {
    ReasonOnFields(q, allows, denies);
    assert PointsAt(deny, q.direction, q.peerID);
    assert Refuses(q, allows, deny);
    hide Refuses, Verdict;
  }

  // ----- ports and culprits -----

  predicate SamePort(p: Port, x: Port) {
    p.port == x.port && p.endPort == x.endPort && p.protocol == x.protocol
  }

  ghost predicate HasPort(ports: seq<Port>, p: Port) {
    exists x :: x in ports && SamePort(x, p)
  }

  ghost predicate NoPortTwice(ports: seq<Port>) {
    forall i, j :: 0 <= i < j < |ports| ==> !SamePort(ports[i], ports[j])
  }

  lemma PortAppend(ports: seq<Port>, last: Port)
    ensures KeyOf(last) in KeysOf(ports) <==> HasPort(ports, last)
    ensures forall p :: HasPort(ports + [last], p) <==> HasPort(ports, p) || SamePort(last, p)
    ensures HasPort(ports, last) ==> forall p :: SamePort(last, p) ==> HasPort(ports, p)
    ensures NoPortTwice(ports) && !HasPort(ports, last) ==> NoPortTwice(ports + [last])
  {
    assert forall x :: x in ports + [last] <==> x in ports || x == last;
    assert forall i :: 0 <= i < |ports| ==> ports[i] in ports;
  }

  lemma {:induction false} AddPortsOnFields(ports: seq<Port>, more: seq<Port>)
    ensures var r := AddPorts(ports, more);
            && (forall x :: x in r ==> x in ports || x in more)
            && (forall p :: HasPort(r, p) <==> HasPort(ports, p) || HasPort(more, p))
            && (NoPortTwice(ports) ==> NoPortTwice(r))
    decreases |more|
  {
    if more != [] {
      var init, last := more[..|more| - 1], more[|more| - 1];
      assert more == init + [last];
      AddPortsOnFields(ports, init);
      PortAppend(AddPorts(ports, init), last);
      PortAppend(init, last);
      hide HasPort, NoPortTwice, SamePort, KeysOf, KeyOf;
    }
  }

  /** The ports come from the rules, every port of theirs is there, and none twice. */
  ghost predicate ListsPorts(ports: seq<Port>, rules: seq<Rule>) {
    && (forall x :: x in ports ==> exists r :: r in rules && x in r.ports)
    && (forall r, p :: r in rules && p in r.ports ==> HasPort(ports, p))
    && NoPortTwice(ports)
  }

  lemma ListsAppend(ports: seq<Port>, init: seq<Rule>, last: Rule, rules: seq<Rule>)
    requires ListsPorts(ports, init) && forall r :: r in rules <==> r in init || r == last
    ensures ListsPorts(AddPorts(ports, last.ports), rules)
  {
    AddPortsOnFields(ports, last.ports);
    HasItsPorts(ports);
    HasItsPorts(last.ports);
    hide HasPort, NoPortTwice, AddPorts;
    assert last in rules;
  }

  lemma HasItsPorts(ports: seq<Port>)
    ensures forall p :: p in ports ==> HasPort(ports, p)
  {
    assert forall p :: p in ports ==> SamePort(p, p);
  }

  lemma {:induction false} PortsOfOnFields(rules: seq<Rule>)
    ensures ListsPorts(PortsOf(rules), rules)
  {
    hide ListsPorts, AddPorts;
    if rules == [] {
      NoPorts();
    } else {
      var init, last := rules[..|rules| - 1], rules[|rules| - 1];
      assert rules == init + [last];
      PortsOfOnFields(init);
      ListsAppend(PortsOf(init), init, last, rules);
    }
  }

  lemma NoPorts()
    ensures ListsPorts([], [])
  {
  }

  /** The ports of the verdict are those of the allows for the peer, told apart by number, range end
      and protocol: each comes from such an allow, each of theirs is there, and none twice. */
  lemma PortsOnFields(q: Query, allows: seq<Rule>, denies: seq<Rule>)
    ensures var v := Verdict(q, allows, denies);
            && (forall x :: x in v.ports ==> exists a :: a in allows && Permits(q, a) && x in a.ports)
            && (forall a, p :: a in allows && Permits(q, a) && p in a.ports ==> HasPort(v.ports, p))
            && NoPortTwice(v.ports)
            && (v.allPorts <==> exists a :: a in allows && Permits(q, a) && a.allPorts)
  {
    var matches := AllowsOf(q, allows, AllowClass);
    PortsOfOnFields(matches);
    forall a
      ensures ClassOfAllow(q, a) == AllowClass <==> Permits(q, a)
    {
      ClassesOfAllowsOnFields(q, a);
    }
    hide ClassOfAllow, Permits, HasPort, NoPortTwice, PortsOf, DeniesOf, Decide, AllowingPolicies;
    assert forall a :: a in matches <==> a in allows && Permits(q, a);
  }

  predicate SameRef(a: PolicyRef, b: PolicyRef) {
    a.source == b.source && a.namespace == b.namespace && a.name == b.name
  }

  ghost predicate HasRef(refs: seq<PolicyRef>, ref: PolicyRef) {
    exists x :: x in refs && SameRef(x, ref)
  }

  ghost predicate NoRefTwice(refs: seq<PolicyRef>) {
    forall i, j :: 0 <= i < j < |refs| ==> !SameRef(refs[i], refs[j])
  }

  /** The references are the rules' contributors, each policy once. */
  ghost predicate ListsRefs(refs: seq<PolicyRef>, rules: seq<Rule>) {
    && (forall ref :: ref in refs ==> exists r :: r in rules && r.contributor == ref)
    && (forall r :: r in rules ==> HasRef(refs, r.contributor))
    && NoRefTwice(refs)
  }

  lemma RefAppend(refs: seq<PolicyRef>, last: PolicyRef)
    ensures IdOf(last) in IdsOf(refs) <==> HasRef(refs, last)
    ensures forall ref :: HasRef(refs + [last], ref) <==> HasRef(refs, ref) || SameRef(last, ref)
    ensures NoRefTwice(refs) && !HasRef(refs, last) ==> NoRefTwice(refs + [last])
  {
    assert forall x :: x in refs + [last] <==> x in refs || x == last;
    assert forall i :: 0 <= i < |refs| ==> refs[i] in refs;
  }

  lemma HasItself(refs: seq<PolicyRef>, ref: PolicyRef)
    ensures HasRef(refs + [ref], ref)
  {
    assert ref in refs + [ref] && SameRef(ref, ref);
  }

  lemma ListsRefsAppend(refs: seq<PolicyRef>, init: seq<Rule>, last: Rule, rules: seq<Rule>)
    requires ListsRefs(refs, init) && forall r :: r in rules <==> r in init || r == last
    ensures ListsRefs(if HasRef(refs, last.contributor) then refs else refs + [last.contributor], rules)
  {
    RefAppend(refs, last.contributor);
    HasItself(refs, last.contributor);
    hide SameRef, HasRef, NoRefTwice, IdsOf, IdOf;
    assert last in rules;
    if !HasRef(refs, last.contributor) {
      var more := refs + [last.contributor];
      assert forall ref :: ref in more <==> ref in refs || ref == last.contributor;
    }
  }

  lemma {:induction false} DedupOnFields(rules: seq<Rule>)
    ensures ListsRefs(DedupContributors(rules), rules)
  {
    hide ListsRefs, HasRef, IdsOf, IdOf;
    if rules == [] {
      NoRefs();
    } else {
      var init, last := rules[..|rules| - 1], rules[|rules| - 1];
      assert rules == init + [last];
      DedupOnFields(init);
      RefAppend(DedupContributors(init), last.contributor);
      ListsRefsAppend(DedupContributors(init), init, last, rules);
    }
  }

  lemma NoRefs()
    ensures ListsRefs([], [])
  {
  }

  /** The rules that the reason rests on. */
  ghost predicate Blames(q: Query, allows: seq<Rule>, denies: seq<Rule>, r: Rule) {
    match ReasonByFields(q, allows, denies)
    case ReasonExplicitDeny => r in denies && Refuses(q, allows, r)
    case ReasonCarvedOut => r in denies && CarvesOut(q, r)
    case ReasonLockedNoMatch => r in allows && PermitsOthers(q, r)
    case ReasonDefaultDeny => r in allows && r.coverage == CoverageDenyAll
    case _ => false
  }

  /** The culprits are the policies of those rules, each once by source, namespace and name. */
  lemma CulpritsOnFields(q: Query, allows: seq<Rule>, denies: seq<Rule>)
    ensures var culprits := Verdict(q, allows, denies).culprits;
            && (forall ref :: ref in culprits ==> exists r :: Blames(q, allows, denies, r) && r.contributor == ref)
            && (forall r :: Blames(q, allows, denies, r) ==> HasRef(culprits, r.contributor))
            && NoRefTwice(culprits)
  {
    var v := Verdict(q, allows, denies);
    var blamed := Blamed(v);
    DedupOnFields(blamed);
    ReasonOnFields(q, allows, denies);
    CulpritsAreBlamed(q, allows, denies);
    BlamedOnFields(q, allows, denies);
    hide Verdict, Blames, Blamed, HasRef, NoRefTwice, ReasonByFields;
  }

  function Blamed(v: DirectionVerdict): seq<Rule> {
    match v.reason
    case ReasonExplicitDeny => v.denyMatches
    case ReasonCarvedOut => v.carveOutMatches
    case ReasonLockedNoMatch => v.otherAllowMatches
    case ReasonDefaultDeny => v.denyAllMatches
    case _ => []
  }

  lemma CulpritsAreBlamed(q: Query, allows: seq<Rule>, denies: seq<Rule>)
    ensures var v := Verdict(q, allows, denies); v.culprits == DedupContributors(Blamed(v))
  {
    hide AllowsOf, DeniesOf, PortsOf, AnyCarveOutTrims, AllowingPolicies;
    assert DedupContributors([]) == [];
    hide DedupContributors;
  }

  lemma BlamedOnFields(q: Query, allows: seq<Rule>, denies: seq<Rule>)
    ensures forall r :: r in Blamed(Verdict(q, allows, denies)) <==> Blames(q, allows, denies, r)
  {
    ReasonOnFields(q, allows, denies);
    forall a
      ensures ClassOfAllow(q, a) == OtherAllowClass <==> PermitsOthers(q, a)
      ensures ClassOfAllow(q, a) == DenyAllClass <==> a.coverage == CoverageDenyAll
    {
      ClassesOfAllowsOnFields(q, a);
    }
    forall d
      ensures ClassOfDeny(q, AllowingPolicies(q, allows), d) == DenyClass <==> Refuses(q, allows, d)
      ensures ClassOfDeny(q, AllowingPolicies(q, allows), d) == CarveOutClass <==> CarvesOut(q, d)
    {
      ClassesOfDeniesOnFields(q, allows, d);
    }
    hide ClassOfAllow, ClassOfDeny, PermitsOthers, Refuses, CarvesOut, AllowingPolicies, PortsOf, ReasonByFields,
      Decide;
  }
}
