// What the verdict of a direction does and does not depend on, and how it reacts to new rules.
module VerdictLaws {
  import opened Models
  import opened Reachability

  ghost predicate SameRules(a: seq<Rule>, b: seq<Rule>) {
    forall r :: r in a <==> r in b
  }

  // ----- the verdict in closed form -----

  /** Some rule among the allows falls into the class. */
  ghost predicate Allowed(q: Query, allows: seq<Rule>, c: Class) {
    exists r :: r in allows && ClassOfAllow(q, r) == c
  }

  ghost predicate Denied(q: Query, allows: seq<Rule>, denies: seq<Rule>, c: Class) {
    exists r :: r in denies && ClassOfDeny(q, AllowingPolicies(q, allows), r) == c
  }

  ghost predicate CutBy(q: Query, allows: seq<Rule>, denies: seq<Rule>, a: Rule) {
    exists c :: c in denies && ClassOfDeny(q, AllowingPolicies(q, allows), c) == CarveOutClass && Trims(q.parse, a, c)
  }

  /** Some matching allow is cut by no carve-out. */
  ghost predicate Uncut(q: Query, allows: seq<Rule>, denies: seq<Rule>) {
    exists a :: a in allows && ClassOfAllow(q, a) == AllowClass && !CutBy(q, allows, denies, a)
  }

  ghost function ClosedReason(q: Query, allows: seq<Rule>, denies: seq<Rule>): Reason {
    if Denied(q, allows, denies, DenyClass) then ReasonExplicitDeny
    else if Uncut(q, allows, denies) then ReasonPermitted
    else if Denied(q, allows, denies, CarveOutClass) then ReasonCarvedOut
    else if Allowed(q, allows, OtherAllowClass) then ReasonLockedNoMatch
    else if Allowed(q, allows, DenyAllClass) then ReasonDefaultDeny
    else ReasonNoOpinion
  }

  lemma ListsAreClasses(q: Query, allows: seq<Rule>, denies: seq<Rule>)
    ensures var v := Verdict(q, allows, denies);
            && (v.allowMatches != [] <==> Allowed(q, allows, AllowClass))
            && (v.otherAllowMatches != [] <==> Allowed(q, allows, OtherAllowClass))
            && (v.denyAllMatches != [] <==> Allowed(q, allows, DenyAllClass))
            && (v.denyMatches != [] <==> Denied(q, allows, denies, DenyClass))
            && (v.carveOutMatches != [] <==> Denied(q, allows, denies, CarveOutClass))
  {
    var v := Verdict(q, allows, denies);
    hide ClassOfAllow, ClassOfDeny, AllowingPolicies, Decide, PortsOf;
    Inhabited(v.allowMatches);
    Inhabited(v.otherAllowMatches);
    Inhabited(v.denyAllMatches);
    Inhabited(v.denyMatches);
    Inhabited(v.carveOutMatches);
  }

  lemma Inhabited(rules: seq<Rule>)
    ensures rules != [] <==> exists r :: r in rules
  {
    assert rules != [] ==> rules[0] in rules;
  }

  lemma CutsAreTrims(q: Query, allows: seq<Rule>, denies: seq<Rule>, a: Rule)
    ensures AnyCarveOutTrims(q.parse, a, Verdict(q, allows, denies).carveOutMatches) <==> CutBy(q, allows, denies, a)
  {
    hide ClassOfDeny, AllowingPolicies, Decide, PortsOf, Trims;
  }

  /** The collecting loops and the decision compute the closed form. */
  lemma ReasonInClosedForm(q: Query, allows: seq<Rule>, denies: seq<Rule>)
    ensures Verdict(q, allows, denies).reason == ClosedReason(q, allows, denies)
  {
    var v := Verdict(q, allows, denies);
    ListsAreClasses(q, allows, denies);
    forall a
      ensures AnyCarveOutTrims(q.parse, a, v.carveOutMatches) <==> CutBy(q, allows, denies, a)
    {
      CutsAreTrims(q, allows, denies, a);
    }
    hide ClassOfAllow, ClassOfDeny, AllowingPolicies, DeniesOf, PortsOf, CutBy, AnyCarveOutTrims;
    assert forall a :: a in v.allowMatches <==> a in allows && ClassOfAllow(q, a) == AllowClass;
    assert v.carveOutMatches == [] ==> forall a :: !CutBy(q, allows, denies, a) by {
      NoCarveOutCutsNothing(q, allows, denies);
    }
  }

  lemma NoCarveOutCutsNothing(q: Query, allows: seq<Rule>, denies: seq<Rule>)
    ensures !Denied(q, allows, denies, CarveOutClass) ==> forall a :: !CutBy(q, allows, denies, a)
  {
  }

  ghost predicate FromAllow(q: Query, allows: seq<Rule>, c: Class, id: PolicyId) {
    exists r :: r in allows && ClassOfAllow(q, r) == c && IdOf(r.contributor) == id
  }

  ghost predicate FromDeny(q: Query, allows: seq<Rule>, denies: seq<Rule>, c: Class, id: PolicyId) {
    exists r :: r in denies && ClassOfDeny(q, AllowingPolicies(q, allows), r) == c && IdOf(r.contributor) == id
  }

  /** The policy contributed a rule of the class that decided. */
  ghost predicate Culprit(q: Query, allows: seq<Rule>, denies: seq<Rule>, id: PolicyId) {
    match ClosedReason(q, allows, denies)
    case ReasonExplicitDeny => FromDeny(q, allows, denies, DenyClass, id)
    case ReasonCarvedOut => FromDeny(q, allows, denies, CarveOutClass, id)
    case ReasonLockedNoMatch => FromAllow(q, allows, OtherAllowClass, id)
    case ReasonDefaultDeny => FromAllow(q, allows, DenyAllClass, id)
    case _ => false
  }

  /** The culprits are exactly the policies behind the deciding class, each once. */
  lemma CulpritsInClosedForm(q: Query, allows: seq<Rule>, denies: seq<Rule>)
    ensures var culprits := Verdict(q, allows, denies).culprits;
            && (forall id :: id in IdsOf(culprits) <==> Culprit(q, allows, denies, id))
            && forall i, j :: 0 <= i < j < |culprits| ==> IdOf(culprits[i]) != IdOf(culprits[j])
  {
    var v := Verdict(q, allows, denies);
    ReasonInClosedForm(q, allows, denies);
    hide ClassOfAllow, ClassOfDeny, AllowingPolicies, PortsOf, ClosedReason, AnyCarveOutTrims;
    assert v.culprits == match v.reason
      case ReasonExplicitDeny => DedupContributors(v.denyMatches)
      case ReasonCarvedOut => DedupContributors(v.carveOutMatches)
      case ReasonLockedNoMatch => DedupContributors(v.otherAllowMatches)
      case ReasonDefaultDeny => DedupContributors(v.denyAllMatches)
      case _ => [];
    hide Decide;
    ContributorsOfDenies(q, allows, denies, DenyClass);
    ContributorsOfDenies(q, allows, denies, CarveOutClass);
    ContributorsOfAllows(q, allows, OtherAllowClass);
    ContributorsOfAllows(q, allows, DenyAllClass);
    assert v.denyMatches == DeniesOf(q, AllowingPolicies(q, allows), denies, DenyClass);
    assert v.carveOutMatches == DeniesOf(q, AllowingPolicies(q, allows), denies, CarveOutClass);
    assert v.otherAllowMatches == AllowsOf(q, allows, OtherAllowClass);
    assert v.denyAllMatches == AllowsOf(q, allows, DenyAllClass);
  }

  lemma ContributorsOfDenies(q: Query, allows: seq<Rule>, denies: seq<Rule>, c: Class)
    ensures var refs := DedupContributors(DeniesOf(q, AllowingPolicies(q, allows), denies, c));
            forall id :: id in IdsOf(refs) <==> FromDeny(q, allows, denies, c, id)
  {
    hide ClassOfDeny, AllowingPolicies, IdsOf;
  }

  lemma ContributorsOfAllows(q: Query, allows: seq<Rule>, c: Class)
    ensures var refs := DedupContributors(AllowsOf(q, allows, c));
            forall id :: id in IdsOf(refs) <==> FromAllow(q, allows, c, id)
  {
    hide ClassOfAllow, IdsOf;
  }

  ghost predicate OpensPort(q: Query, allows: seq<Rule>, k: PortKey) {
    exists r :: r in allows && ClassOfAllow(q, r) == AllowClass && k in KeysOf(r.ports)
  }

  ghost predicate OpensAllPorts(q: Query, allows: seq<Rule>) {
    exists r :: r in allows && ClassOfAllow(q, r) == AllowClass && r.allPorts
  }

  /** The ports are exactly those of the matching allows. */
  lemma PortsInClosedForm(q: Query, allows: seq<Rule>, denies: seq<Rule>)
    ensures var v := Verdict(q, allows, denies);
            && (forall k :: k in KeysOf(v.ports) <==> OpensPort(q, allows, k))
            && (v.allPorts <==> OpensAllPorts(q, allows))
  {
    hide ClassOfAllow, KeysOf, Decide, AllowingPolicies;
    var matches := AllowsOf(q, allows, AllowClass);
    assert Verdict(q, allows, denies).ports == PortsOf(matches);
  }

  // ----- order -----

  /** The verdict depends only on which rules there are: neither on their order nor on which of
      the two buckets they come from. */
  lemma VerdictIsOrderFree(q: Query, a: seq<Rule>, d: seq<Rule>, a': seq<Rule>, d': seq<Rule>)
    requires SameRules(a, a') && SameRules(d, d')
    ensures var v, w := Verdict(q, a, d), Verdict(q, a', d');
            && v.reason == w.reason && v.allPorts == w.allPorts
            && KeysOf(v.ports) == KeysOf(w.ports) && IdsOf(v.culprits) == IdsOf(w.culprits)
  {
    SameReason(q, a, d, a', d');
    SameCulprits(q, a, d, a', d');
    ReasonInClosedForm(q, a, d);
    ReasonInClosedForm(q, a', d');
    CulpritsInClosedForm(q, a, d);
    CulpritsInClosedForm(q, a', d');
    PortsInClosedForm(q, a, d);
    PortsInClosedForm(q, a', d');
    hide Verdict, ClassOfAllow, ClosedReason, Culprit, KeysOf, IdsOf;
    assert forall k :: OpensPort(q, a, k) <==> OpensPort(q, a', k);
  }

  lemma SameReason(q: Query, a: seq<Rule>, d: seq<Rule>, a': seq<Rule>, d': seq<Rule>)
    requires SameRules(a, a') && SameRules(d, d')
    ensures ClosedReason(q, a, d) == ClosedReason(q, a', d')
  {
    SameAllowing(q, a, a');
    hide ClassOfAllow, ClassOfDeny, AllowingPolicies, Trims;
    assert forall r :: CutBy(q, a, d, r) <==> CutBy(q, a', d', r);
  }

  lemma SameCulprits(q: Query, a: seq<Rule>, d: seq<Rule>, a': seq<Rule>, d': seq<Rule>)
    requires SameRules(a, a') && SameRules(d, d')
    ensures forall id :: Culprit(q, a, d, id) <==> Culprit(q, a', d', id)
  {
    SameReason(q, a, d, a', d');
    SameAllowing(q, a, a');
    hide ClassOfAllow, ClassOfDeny, AllowingPolicies, ClosedReason;
  }

  lemma SameAllowing(q: Query, a: seq<Rule>, a': seq<Rule>)
    requires SameRules(a, a')
    ensures AllowingPolicies(q, a) == AllowingPolicies(q, a')
  {
  }

  /** In particular the two buckets may be swapped. */
  lemma BucketsMaySwap(q: Query, ns: DirectionRules, node: DirectionRules)
    ensures var v, w := Verdict(q, ns.allow + node.allow, ns.deny + node.deny),
                        Verdict(q, node.allow + ns.allow, node.deny + ns.deny);
            && v.reason == w.reason && v.allPorts == w.allPorts
            && KeysOf(v.ports) == KeysOf(w.ports) && IdsOf(v.culprits) == IdsOf(w.culprits)
  {
    VerdictIsOrderFree(q, ns.allow + node.allow, ns.deny + node.deny, node.allow + ns.allow, node.deny + ns.deny);
  }

  // ----- monotonicity -----

  /** The direction lets the peer through: some policy permits it, or none has an opinion. */
  predicate Opens(reason: Reason) {
    reason == ReasonPermitted || reason == ReasonNoOpinion
  }

  /** More denies or carve-outs never open a blocked direction. */
  lemma DeniesNeverOpen(q: Query, allows: seq<Rule>, denies: seq<Rule>, more: seq<Rule>)
    requires forall r :: r in denies ==> r in more
    requires Opens(Verdict(q, allows, more).reason)
    ensures Opens(Verdict(q, allows, denies).reason)
  {
    ReasonInClosedForm(q, allows, denies);
    ReasonInClosedForm(q, allows, more);
    hide Verdict, ClassOfAllow, ClassOfDeny, AllowingPolicies, Trims;
    assert forall a :: CutBy(q, allows, denies, a) ==> CutBy(q, allows, more, a);
  }

  /** What one more allow does to the closed form: fewer denies and cuts, and its own class. */
  lemma OneMoreAllow(q: Query, allows: seq<Rule>, denies: seq<Rule>, allow: Rule)
    ensures var more := allows + [allow];
            && (Denied(q, more, denies, DenyClass) ==> Denied(q, allows, denies, DenyClass))
            && (Denied(q, more, denies, CarveOutClass) ==> Denied(q, allows, denies, CarveOutClass))
            && (Uncut(q, allows, denies) ==> Uncut(q, more, denies))
            && forall c :: Allowed(q, more, c) <==> Allowed(q, allows, c) || ClassOfAllow(q, allow) == c
  {
    var more := allows + [allow];
    assert AllowingPolicies(q, allows) <= AllowingPolicies(q, more);
    assert forall r :: r in more <==> r in allows || r == allow;
    hide ClassOfAllow, Trims, AllowingPolicies;
    DeniesOnlyShrink(q, allows, more, denies);
    hide ClassOfDeny;
    if Uncut(q, allows, denies) {
      var a :| a in allows && ClassOfAllow(q, a) == AllowClass && !CutBy(q, allows, denies, a);
      assert a in more && !CutBy(q, more, denies, a);
    }
  }

  /** Without carve-outs every matching allow is uncut. */
  lemma UncutWithoutCarveOuts(q: Query, allows: seq<Rule>, denies: seq<Rule>)
    requires !Denied(q, allows, denies, CarveOutClass)
    ensures Uncut(q, allows, denies) <==> Allowed(q, allows, AllowClass)
  {
    NoCarveOutCutsNothing(q, allows, denies);
    hide ClassOfAllow, CutBy, Denied;
  }

  /** One more allow that matches the peer never blocks an open direction. */
  lemma MatchingAllowNeverBlocks(q: Query, allows: seq<Rule>, denies: seq<Rule>, allow: Rule)
    requires ClassOfAllow(q, allow) == AllowClass
    requires Opens(Verdict(q, allows, denies).reason)
    ensures Verdict(q, allows + [allow], denies).reason == ReasonPermitted
  {
    var more := allows + [allow];
    ReasonInClosedForm(q, allows, denies);
    ReasonInClosedForm(q, more, denies);
    hide Verdict, ClassOfAllow, Denied, Uncut, Allowed;
    OneMoreAllow(q, allows, denies, allow);
    if !Uncut(q, allows, denies) {
      UncutWithoutCarveOuts(q, more, denies);
    }
  }

  lemma DeniesOnlyShrink(q: Query, allows: seq<Rule>, more: seq<Rule>, denies: seq<Rule>)
    requires AllowingPolicies(q, allows) <= AllowingPolicies(q, more)
    ensures forall r :: ClassOfDeny(q, AllowingPolicies(q, more), r) in {DenyClass, CarveOutClass} ==>
      ClassOfDeny(q, AllowingPolicies(q, allows), r) == ClassOfDeny(q, AllowingPolicies(q, more), r)
  {
  }

  /** What is permitted stays permitted, whatever the allow is about. */
  lemma AllowKeepsPermitted(q: Query, allows: seq<Rule>, denies: seq<Rule>, allow: Rule)
    requires Verdict(q, allows, denies).reason == ReasonPermitted
    ensures Verdict(q, allows + [allow], denies).reason == ReasonPermitted
  {
    ReasonInClosedForm(q, allows, denies);
    ReasonInClosedForm(q, allows + [allow], denies);
    hide Verdict, ClassOfAllow, Denied, Uncut, Allowed;
    OneMoreAllow(q, allows, denies, allow);
  }

  /** Where nothing spoke, an allow that does not match the peer speaks with its own class. */
  lemma UnmatchedAllowDecides(q: Query, allows: seq<Rule>, denies: seq<Rule>, allow: Rule)
    requires ClassOfAllow(q, allow) != AllowClass
    requires Verdict(q, allows, denies).reason == ReasonNoOpinion
    ensures Verdict(q, allows + [allow], denies).reason
         == match ClassOfAllow(q, allow)
            case OtherAllowClass => ReasonLockedNoMatch
            case DenyAllClass => ReasonDefaultDeny
            case _ => ReasonNoOpinion
  {
    ReasonInClosedForm(q, allows, denies);
    ReasonInClosedForm(q, allows + [allow], denies);
    hide Verdict, ClassOfAllow, Denied, Uncut, Allowed;
    OneMoreAllow(q, allows, denies, allow);
    UncutWithoutCarveOuts(q, allows, denies);
    UncutWithoutCarveOuts(q, allows + [allow], denies);
  }

  lemma AllowHasAllowClass(q: Query, allow: Rule)
    ensures ClassOfAllow(q, allow) in {DenyAllClass, AllowClass, OtherAllowClass, Dropped}
  {
  }

  /** Exactly when one more allow leaves an open direction open: some policy already permits the
      peer, or the new rule matches the peer or has no opinion on the direction. */
  lemma AllowNeverBlocksExactly(q: Query, allows: seq<Rule>, denies: seq<Rule>, allow: Rule)
    requires Opens(Verdict(q, allows, denies).reason)
    ensures Opens(Verdict(q, allows + [allow], denies).reason) <==>
      Verdict(q, allows, denies).reason == ReasonPermitted || ClassOfAllow(q, allow) in {AllowClass, Dropped}
  {
    hide Verdict, ClassOfAllow;
    AllowHasAllowClass(q, allow);
    if ClassOfAllow(q, allow) == AllowClass {
      MatchingAllowNeverBlocks(q, allows, denies, allow);
    } else if Verdict(q, allows, denies).reason == ReasonPermitted {
      AllowKeepsPermitted(q, allows, denies, allow);
    } else {
      UnmatchedAllowDecides(q, allows, denies, allow);
    }
  }

  /** For instance where there are no rules at all. */
  lemma UnmatchedAllowLocks(q: Query, allow: Rule)
    requires ClassOfAllow(q, allow) == OtherAllowClass
    ensures Verdict(q, [], []).reason == ReasonNoOpinion
    ensures Verdict(q, [allow], []).reason == ReasonLockedNoMatch
  {
    ReasonInClosedForm(q, [], []);
    ReasonInClosedForm(q, [allow], []);
    assert allow in [allow];
  }

  // ----- a policy's own deny-all -----

  /** A blanket rule leaves its peer's end empty, which is also the id of an unknown namespace. */
  lemma BlanketNamesPeer(q: Query, rule: Rule)
    requires PeerOf(rule, q.direction) == "" && "" !in q.nodes
    ensures NamesPeer(q, rule) <==> q.peerID == "" || q.peerNsID == ""
  {
  }

  /** Where every allow of the policy is blanket, its deny-all holds against exactly the peers with
      known ids; a policy without allows keeps it against all. */
  lemma DenyAllHoldsExactly(q: Query, allows: seq<Rule>, deny: Rule)
    requires deny.coverage == CoverageDenyAll && "" !in q.nodes
    requires forall a :: a in allows && PolicyIdentityKey(a.contributor) == PolicyIdentityKey(deny.contributor) ==>
      PeerOf(a, q.direction) == ""
    ensures ClassOfDeny(q, AllowingPolicies(q, allows), deny) == DenyClass <==>
      || (q.peerID != "" && q.peerNsID != "")
      || !exists a :: a in allows && PolicyIdentityKey(a.contributor) == PolicyIdentityKey(deny.contributor)
  {
    forall a | a in allows && PolicyIdentityKey(a.contributor) == PolicyIdentityKey(deny.contributor)
      ensures NamesPeer(q, a) <==> q.peerID == "" || q.peerNsID == ""
    {
      BlanketNamesPeer(q, a);
    }
    hide NamesPeer, PolicyIdentityKey;
  }
}
