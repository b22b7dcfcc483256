// The collapse on the fields of the rules and nodes: exactly which rules collapse, and that nothing
// a rule says is lost or made up.
module CollapseFields {
  import opened Wrappers
  import opened Models
  import opened Collapse
  import opened CollapseLaws

  /** The last namespace node that stands for the namespace. */
  ghost predicate IsNsNode(nodes: seq<WorkloadNode>, ns: string, id: string) {
    exists i :: IsNsNodeAt(nodes, ns, id, i)
  }

  ghost predicate IsNsNodeAt(nodes: seq<WorkloadNode>, ns: string, id: string, i: int) {
    && 0 <= i < |nodes| && nodes[i].nodeType == NamespaceNode && nodes[i].namespace == ns && nodes[i].id == id
    && forall j :: i < j < |nodes| && nodes[j].nodeType == NamespaceNode ==> nodes[j].namespace != ns
  }

  lemma {:induction false} NsNodesAreLast(nodes: seq<WorkloadNode>, ns: string, id: string)
    ensures var ids := MembershipOf(nodes).nsNodeID; ns in ids && ids[ns] == id <==> IsNsNode(nodes, ns, id)
  {
    if nodes != [] {
      var n := |nodes| - 1;
      var init, last := nodes[..n], nodes[n];
      NsNodesAreLast(init, ns, id);
      if last.nodeType == NamespaceNode && last.namespace == ns {
        assert IsNsNodeAt(nodes, ns, last.id, n);
      } else {
        assert forall i :: IsNsNodeAt(init, ns, id, i) <==> IsNsNodeAt(nodes, ns, id, i);
      }
    }
  }

  /** The rule's workload is this end, of this namespace: the source where it is a workload, else the
      target. */
  ghost predicate WorkloadEnd(nodes: seq<WorkloadNode>, rule: Rule, side: Side, ns: string) {
    && ns != ""
    && match side
       case SourceSide => rule.srcID in Members(nodes, ns)
       case TargetSide =>
         rule.dstID in Members(nodes, ns) && forall other :: other != "" ==> rule.srcID !in Members(nodes, other)
  }

  lemma UniformOnFields(nodes: seq<WorkloadNode>, rule: Rule, side: Side, ns: string)
    requires DistinctIds(nodes)
    ensures var u := Uniform(MembershipOf(nodes), rule);
            (u.Some? && u.value.0.side == side && u.value.0.ns == ns) <==>
              rule.namespaceWide && WorkloadEnd(nodes, rule, side, ns)
  {
    var m := MembershipOf(nodes);
    forall id, other | other != ""
      ensures Get(m.namespaceOf, id) == other <==> id in Members(nodes, other)
    {
      MembershipIsExact(nodes, id, other);
    }
    hide MembershipOf, Members;
    var src, dst := Get(m.namespaceOf, rule.srcID), Get(m.namespaceOf, rule.dstID);
    assert src != "" ==> rule.srcID in Members(nodes, src);
    assert dst != "" ==> rule.dstID in Members(nodes, dst);
  }

  /** Every workload of the namespace has a rule that states the fact of it. */
  ghost predicate StatedOfAll(rules: seq<Rule>, nodes: seq<WorkloadNode>, rule: Rule, side: Side, ns: string) {
    forall w :: w in Members(nodes, ns) ==> exists r :: r in rules && SameFactFor(r, rule, side, w)
  }

  ghost predicate CollapsesTo(
      rules: seq<Rule>, nodes: seq<WorkloadNode>, rule: Rule, side: Side, ns: string, id: string)
  {
    && rule.namespaceWide && WorkloadEnd(nodes, rule, side, ns)
    && |Members(nodes, ns)| >= 2 && id != "" && IsNsNode(nodes, ns, id) && StatedOfAll(rules, nodes, rule, side, ns)
  }

  lemma SameFactSameKey(nodes: seq<WorkloadNode>, r: Rule, rule: Rule, side: Side, ns: string, w: string)
    requires DistinctIds(nodes) && rule.namespaceWide && WorkloadEnd(nodes, rule, side, ns)
    requires SameFactFor(r, rule, side, w) && w in Members(nodes, ns)
    ensures var m := MembershipOf(nodes);
            Uniform(m, rule).Some? && HasKey(m, r, Uniform(m, rule).value.0) && Uniform(m, r).value.1 == w
  {
    UniformOnFields(nodes, rule, side, ns);
    UniformOnFields(nodes, r, side, ns);
    hide MembershipOf, Members;
  }

  /** A rule collapses exactly when its scope is the namespace, the namespace has a node and two
      workloads or more, and all of them have a rule with the same fact. */
  lemma CollapsesExactly(rules: seq<Rule>, nodes: seq<WorkloadNode>, rule: Rule)
    requires DistinctIds(nodes)
    ensures Collapses(MembershipOf(nodes), rules, rule) <==>
      exists side, ns, id :: CollapsesTo(rules, nodes, rule, side, ns, id)
  {
    var m := MembershipOf(nodes);
    if Collapses(m, rules, rule) {
      var key := Uniform(m, rule).value.0;
      CollapsesOnFields(rules, nodes, rule, key.side, key.ns, Get(m.nsNodeID, key.ns));
    }
    if side, ns, id :| CollapsesTo(rules, nodes, rule, side, ns, id) {
      AllStatedCollapses(rules, nodes, rule, side, ns, id);
    }
  }

  lemma CollapsesOnFields(
      rules: seq<Rule>, nodes: seq<WorkloadNode>, rule: Rule, side: Side, ns: string, id: string)
    requires DistinctIds(nodes) && Collapses(MembershipOf(nodes), rules, rule)
    requires var m := MembershipOf(nodes);
             var key := Uniform(m, rule).value.0;
             side == key.side && ns == key.ns && id == Get(m.nsNodeID, ns)
    ensures CollapsesTo(rules, nodes, rule, side, ns, id)
  {
    UniformOnFields(nodes, rule, side, ns);
    CollapsedStandsForAll(rules, nodes, rule);
    NsNodesAreLast(nodes, ns, id);
    hide MembershipOf, Members, IsNsNode, SameFactFor, WorkloadEnd;
  }

  lemma AllStatedCollapses(
      rules: seq<Rule>, nodes: seq<WorkloadNode>, rule: Rule, side: Side, ns: string, id: string)
    requires DistinctIds(nodes) && CollapsesTo(rules, nodes, rule, side, ns, id)
    ensures Collapses(MembershipOf(nodes), rules, rule)
  {
    var m := MembershipOf(nodes);
    UniformOnFields(nodes, rule, side, ns);
    NsNodesAreLast(nodes, ns, id);
    MembershipIsExact(nodes, "", ns);
    var key := Uniform(m, rule).value.0;
    CoveredAreMembers(rules, nodes, key);
    forall w | w in Members(nodes, ns)
      ensures w in Covered(m, rules, key)
    {
      var r :| r in rules && SameFactFor(r, rule, side, w);
      SameFactSameKey(nodes, r, rule, side, ns, w);
    }
    hide MembershipOf, Members, IsNsNode, SameFactFor, WorkloadEnd, Uniform;
    assert Covered(m, rules, key) == Members(nodes, ns);
  }

  // ----- nothing is lost, nothing is made up -----

  /** s says of the namespace node what r says of a workload of the namespace. */
  ghost predicate StandsFor(nodes: seq<WorkloadNode>, s: Rule, r: Rule) {
    SameFact(s, r) && exists side, ns, id ::
      && WorkloadEnd(nodes, r, side, ns) && IsNsNode(nodes, ns, id)
      && (if side == SourceSide then s.srcID == id && s.dstID == r.dstID else s.dstID == id && s.srcID == r.srcID)
  }

  lemma LiftedStandsFor(nodes: seq<WorkloadNode>, first: Rule, r: Rule)
    requires var m := MembershipOf(nodes);
             DistinctIds(nodes) && Uniform(m, r).Some? && HasKey(m, first, Uniform(m, r).value.0)
             && Get(m.nsNodeID, Uniform(m, r).value.0.ns) != ""
    ensures StandsFor(nodes, Lifted(MembershipOf(nodes), first), r)
  {
    var m := MembershipOf(nodes);
    var key := Uniform(m, r).value.0;
    var id := Get(m.nsNodeID, key.ns);
    UniformOnFields(nodes, r, key.side, key.ns);
    NsNodesAreLast(nodes, key.ns, id);
    hide MembershipOf, IsNsNode, WorkloadEnd;
  }

  /** Every rule is emitted as it is, or some emitted rule says the same of its namespace. */
  lemma NothingIsLost(rules: seq<Rule>, nodes: seq<WorkloadNode>, r: Rule)
    requires DistinctIds(nodes) && r in rules
    ensures exists s :: s in CollapsedRules(rules, nodes) && (s == r || StandsFor(nodes, s, r))
  {
    var m := MembershipOf(nodes);
    var positions := Emitted(m, rules, |rules|);
    var k: nat :| k < |rules| && rules[k] == r;
    EmissionIsExact(rules, nodes);
    var p := k;
    if Collapses(m, rules, r) {
      p := GroupHasArrow(m, rules, k);
      LiftedStandsFor(nodes, rules[p], r);
    }
    var i :| 0 <= i < |positions| && positions[i] == p;
    var s := CollapsedRules(rules, nodes)[i];
    hide MembershipOf, CollapsedRules, StandsFor, Collapses, Emitted;
    assert s in CollapsedRules(rules, nodes);
  }

  /** Every emitted rule is a rule, or says of a namespace node what all its workloads' rules say. */
  lemma NothingIsMadeUp(rules: seq<Rule>, nodes: seq<WorkloadNode>, s: Rule)
    requires DistinctIds(nodes) && s in CollapsedRules(rules, nodes)
    ensures s in rules || exists r, side, ns, id ::
      r in rules && CollapsesTo(rules, nodes, r, side, ns, id) && StandsFor(nodes, s, r)
  {
    var m := MembershipOf(nodes);
    var positions := Emitted(m, rules, |rules|);
    EmissionIsExact(rules, nodes);
    var i :| 0 <= i < |CollapsedRules(rules, nodes)| && CollapsedRules(rules, nodes)[i] == s;
    var r := rules[positions[i]];
    if Collapses(m, rules, r) {
      KeyOfItself(m, r);
      LiftedStandsFor(nodes, r, r);
      CollapsesExactly(rules, nodes, r);
      hide MembershipOf, CollapsedRules, StandsFor, CollapsesTo, Collapses;
      var side, ns, id :| CollapsesTo(rules, nodes, r, side, ns, id);
      assert r in rules;
    }
  }
}
