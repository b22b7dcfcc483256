// What collapsing keeps: every fact, once, and the number of workloads behind each arrow.
module CollapseLaws {
  import opened Wrappers
  import opened Models
  import opened Collapse

  // ----- a collapsed arrow stands for its whole namespace -----

  lemma SameSizeSubset(a: set<string>, b: set<string>)
    requires a <= b && |a| == |b|
    ensures a == b
  {
    assert b == a + (b - a);
    assert |b - a| == 0;
  }

  lemma CoveredAreMembers(rules: seq<Rule>, nodes: seq<WorkloadNode>, key: UniformKey)
    requires DistinctIds(nodes) && key.ns != ""
    ensures Covered(MembershipOf(nodes), rules, key) <= Members(nodes, key.ns)
  {
    var m := MembershipOf(nodes);
    hide MembershipOf, Members;
    forall w | w in Covered(m, rules, key)
      ensures w in Members(nodes, key.ns)
    {
      MembershipIsExact(nodes, w, key.ns);
    }
  }

  /** The rules agree in everything but their ends and what a contributor has beyond its identity. */
  ghost predicate SameFact(r: Rule, s: Rule) {
    && r.direction == s.direction && r.action == s.action && r.coverage == s.coverage
    && r.contributor.source == s.contributor.source && r.contributor.namespace == s.contributor.namespace
    && r.contributor.name == s.contributor.name
    && r.ports == s.ports && r.allPorts == s.allPorts && r.allL7 == s.allL7 && r.l7Match == s.l7Match
    && r.srcSelector == s.srcSelector && r.dstSelector == s.dstSelector
    && r.namespaceWide == s.namespaceWide
  }

  /** r states for workload w what `rule` states for its own workload. */
  ghost predicate SameFactFor(r: Rule, rule: Rule, side: Side, w: string) {
    && (if side == SourceSide then r.srcID == w && r.dstID == rule.dstID else r.dstID == w && r.srcID == rule.srcID)
    && r.namespaceWide && SameFact(r, rule)
  }

  /** Where a rule collapses, the workloads behind it are exactly the members of its namespace,
      and each of them has a rule that states the same fact. */
  lemma CollapsedStandsForAll(rules: seq<Rule>, nodes: seq<WorkloadNode>, rule: Rule)
    requires DistinctIds(nodes) && Collapses(MembershipOf(nodes), rules, rule)
    ensures var m := MembershipOf(nodes);
            var key := Uniform(m, rule).value.0;
            && Covered(m, rules, key) == Members(nodes, key.ns)
            && forall w :: w in Members(nodes, key.ns) ==>
                 exists r :: r in rules && SameFactFor(r, rule, key.side, w)
  {
    var m := MembershipOf(nodes);
    var key := Uniform(m, rule).value.0;
    KeyNamesNamespace(m, rule);
    CoveredAreMembers(rules, nodes, key);
    MembershipIsExact(nodes, "", key.ns);
    hide MembershipOf, Members;
    SameSizeSubset(Covered(m, rules, key), Members(nodes, key.ns));
    forall w | w in Members(nodes, key.ns)
      ensures exists r :: r in rules && SameFactFor(r, rule, key.side, w)
    {
      var r :| r in rules && HasKey(m, r, key) && Uniform(m, r).value.1 == w;
      SameKeySameFact(m, r, rule);
    }
  }

  lemma KeyNamesNamespace(m: NsMembership, rule: Rule)
    requires Uniform(m, rule).Some?
    ensures Uniform(m, rule).value.0.ns != ""
  {
  }

  lemma SameKeySameFact(m: NsMembership, r: Rule, rule: Rule)
    requires Uniform(m, rule).Some? && HasKey(m, r, Uniform(m, rule).value.0)
    ensures SameFactFor(r, rule, Uniform(m, rule).value.0.side, Uniform(m, r).value.1)
  {
  }

  // ----- nothing is lost, nothing is emitted twice -----

  /** Both collapse, under one key. */
  predicate SameGroup(m: NsMembership, rules: seq<Rule>, r: Rule, s: Rule) {
    Collapses(m, rules, r) && Collapses(m, rules, s) && HasKey(m, r, Uniform(m, s).value.0)
  }

  /** Rules that do not collapse are emitted unchanged, in order; of every group that collapses
      exactly the first rule is emitted, lifted to the namespace node. */
  lemma EmissionIsExact(rules: seq<Rule>, nodes: seq<WorkloadNode>)
    ensures var m := MembershipOf(nodes);
            var positions := Emitted(m, rules, |rules|);
            && |CollapsedRules(rules, nodes)| == |positions|
            && (forall i :: 0 <= i < |positions| ==> CollapsedRules(rules, nodes)[i] == Emit(m, rules, positions[i]))
            && (forall i, j :: 0 <= i < j < |positions| ==> positions[i] < positions[j])
            && (forall k: nat :: k < |rules| && !Collapses(m, rules, rules[k]) ==> k in positions)
            && (forall i, j :: 0 <= i < j < |positions| ==>
                  !SameGroup(m, rules, rules[positions[i]], rules[positions[j]]))
  {
    var m := MembershipOf(nodes);
    var positions := Emitted(m, rules, |rules|);
    hide MembershipOf;
    EmittedAreNotOmitted(m, rules, |rules|);
    forall i, j | 0 <= i < j < |positions|
      ensures !SameGroup(m, rules, rules[positions[i]], rules[positions[j]])
    {
      assert positions[j] in positions && !Omitted(m, rules, positions[j]);
    }
  }

  lemma KeyOfItself(m: NsMembership, rule: Rule)
    requires Uniform(m, rule).Some?
    ensures forall key :: HasKey(m, rule, key) <==> key == Uniform(m, rule).value.0
  {
  }

  /** Every group that collapses has its arrow. */
  lemma {:induction false} GroupHasArrow(m: NsMembership, rules: seq<Rule>, k: nat) returns (p: nat)
    requires k < |rules| && Collapses(m, rules, rules[k])
    ensures p <= k && p in Emitted(m, rules, |rules|) && Collapses(m, rules, rules[p])
    ensures HasKey(m, rules[p], Uniform(m, rules[k]).value.0)
    decreases k
  {
    EmittedAreNotOmitted(m, rules, |rules|);
    KeyOfItself(m, rules[k]);
    if Omitted(m, rules, k) {
      var key := Uniform(m, rules[k]).value.0;
      var j: nat :| j < k && Collapses(m, rules, rules[j]) && HasKey(m, rules[j], key);
      KeyOfItself(m, rules[j]);
      p := GroupHasArrow(m, rules, j);
    } else {
      p := k;
    }
  }

  // ----- the counts -----

  lemma DistinctNsNodes(nodes: seq<WorkloadNode>, ns: string, ns': string)
    requires DistinctIds(nodes)
    requires var ids := MembershipOf(nodes).nsNodeID; Get(ids, ns) != "" && Get(ids, ns) == Get(ids, ns')
    ensures ns == ns'
  {
    NsNodesExist(nodes, ns);
    NsNodesExist(nodes, ns');
    hide MembershipOf;
    var id := Get(MembershipOf(nodes).nsNodeID, ns);
    var a :| a in nodes && a.nodeType == NamespaceNode && a.namespace == ns && a.id == id;
    var b :| b in nodes && b.nodeType == NamespaceNode && b.namespace == ns' && b.id == id;
    var i :| 0 <= i < |nodes| && nodes[i] == a;
    var j :| 0 <= j < |nodes| && nodes[j] == b;
    assert i == j;
  }

  /** The workload is the source of every collapsible egress rule and the target of every
      collapsible ingress rule, as in the rules that the Calico engine builds. */
  ghost predicate SideFollowsDirection(m: NsMembership, rules: seq<Rule>) {
    forall r :: r in rules && Uniform(m, r).Some? ==>
      (Uniform(m, r).value.0.side == SourceSide <==> r.direction == Egress)
  }

  /** Two collapsed rules that fold into one arrow come from one namespace. */
  lemma OneArrowOneNamespace(rules: seq<Rule>, nodes: seq<WorkloadNode>, r: Rule, s: Rule)
    requires DistinctIds(nodes) && SideFollowsDirection(MembershipOf(nodes), rules) && r in rules && s in rules
    requires var m := MembershipOf(nodes);
             Collapses(m, rules, r) && Collapses(m, rules, s)
             && EdgeKeyOf(Lifted(m, r)) == EdgeKeyOf(Lifted(m, s))
    ensures var m := MembershipOf(nodes); Uniform(m, r).value.0.ns == Uniform(m, s).value.0.ns
  {
    var m := MembershipOf(nodes);
    DirectionOfKey(m, r);
    DirectionOfKey(m, s);
    var a, b := Uniform(m, r).value.0, Uniform(m, s).value.0;
    hide MembershipOf, Uniform, Covered;
    assert a.side == b.side;
    assert Get(m.nsNodeID, a.ns) == Get(m.nsNodeID, b.ns);
    DistinctNsNodes(nodes, a.ns, b.ns);
  }

  lemma DirectionOfKey(m: NsMembership, r: Rule)
    requires Uniform(m, r).Some?
    ensures EdgeKeyOf(Lifted(m, r)).direction == r.direction == Uniform(m, r).value.0.direction
  {
  }

  /** The count that a position's arrow would need: the members of the namespace it stands for. */
  ghost function SizeBehind(nodes: seq<WorkloadNode>, rule: Rule): nat
    requires Uniform(MembershipOf(nodes), rule).Some?
  {
    |Members(nodes, Uniform(MembershipOf(nodes), rule).value.0.ns)|
  }

  /** The two emitted rules collapsed and fold into one arrow. */
  predicate SameArrow(m: NsMembership, rules: seq<Rule>, r: Rule, s: Rule) {
    Collapses(m, rules, r) && Collapses(m, rules, s) && EdgeKeyOf(Lifted(m, r)) == EdgeKeyOf(Lifted(m, s))
  }

  /** The count of an arrow is that of the last namespace emitted to it. */
  lemma {:induction false} LastEmissionCounts(rules: seq<Rule>, nodes: seq<WorkloadNode>, positions: seq<nat>, p: nat)
    returns (i: nat)
    requires DistinctIds(nodes) && (forall j :: 0 <= j < |positions| ==> positions[j] < |rules|)
    requires p in positions && Collapses(MembershipOf(nodes), rules, rules[p])
    ensures i < |positions| && SameArrow(MembershipOf(nodes), rules, rules[p], rules[positions[i]])
    ensures forall j :: i < j < |positions| ==> !SameArrow(MembershipOf(nodes), rules, rules[p], rules[positions[j]])
    ensures var m := MembershipOf(nodes);
            var counts, arrow := AggregatedFrom(m, rules, positions), EdgeKeyOf(Lifted(m, rules[p]));
            arrow in counts && counts[arrow] == SizeBehind(nodes, rules[positions[i]])
  {
    var m := MembershipOf(nodes);
    var init, last := positions[..|positions| - 1], positions[|positions| - 1];
    assert positions == init + [last];
    hide MembershipOf, Uniform, Covered, EdgeKeyOf, Lifted, Members;
    if SameArrow(m, rules, rules[p], rules[last]) {
      CollapsedStandsForAll(rules, nodes, rules[last]);
      i := |init|;
    } else {
      hide Collapses;
      i := LastEmissionCounts(rules, nodes, init, p);
    }
  }

  /** Every rule that collapses finds the size of its namespace on its arrow. */
  ghost predicate CountsAreRight(rules: seq<Rule>, nodes: seq<WorkloadNode>) {
    var m, counts := MembershipOf(nodes), CollapsedCounts(rules, nodes);
    forall r :: r in rules && Collapses(m, rules, r) ==>
      var arrow := EdgeKeyOf(Lifted(m, r)); arrow in counts && counts[arrow] == SizeBehind(nodes, r)
  }

  /** Collapsing rules that fold into one arrow come from namespaces of one size. */
  ghost predicate ArrowsAgree(rules: seq<Rule>, nodes: seq<WorkloadNode>) {
    var m := MembershipOf(nodes);
    forall r, s :: r in rules && s in rules && SameArrow(m, rules, r, s) ==>
      SizeBehind(nodes, r) == SizeBehind(nodes, s)
  }

  /** The arrow of a rule that collapses, read off its key. */
  function ArrowOf(m: NsMembership, key: UniformKey): EdgeKey {
    var ns := Get(m.nsNodeID, key.ns);
    EdgeKey(if key.side == SourceSide then ns else key.peer, if key.side == SourceSide then key.peer else ns,
            key.direction, key.name, key.namespace, key.source, key.action)
  }

  lemma KeyGivesArrow(m: NsMembership, r: Rule)
    requires Uniform(m, r).Some?
    ensures EdgeKeyOf(Lifted(m, r)) == ArrowOf(m, Uniform(m, r).value.0)
  {
  }

  lemma SameKeySameArrow(m: NsMembership, r: Rule, s: Rule)
    requires Uniform(m, s).Some? && HasKey(m, r, Uniform(m, s).value.0)
    ensures EdgeKeyOf(Lifted(m, r)) == EdgeKeyOf(Lifted(m, s))
  {
    KeyGivesArrow(m, r);
    KeyGivesArrow(m, s);
    hide Uniform, Lifted, EdgeKeyOf, ArrowOf;
  }

  /** The arrow of a rule that collapses has a count: that of some namespace folded into it. */
  lemma ArrowHasCount(rules: seq<Rule>, nodes: seq<WorkloadNode>, r: Rule) returns (s: Rule)
    requires DistinctIds(nodes) && r in rules && Collapses(MembershipOf(nodes), rules, r)
    ensures s in rules && SameArrow(MembershipOf(nodes), rules, r, s)
    ensures var counts, arrow := CollapsedCounts(rules, nodes), EdgeKeyOf(Lifted(MembershipOf(nodes), r));
            arrow in counts && counts[arrow] == SizeBehind(nodes, s)
  {
    var m := MembershipOf(nodes);
    var positions := Emitted(m, rules, |rules|);
    var k: nat :| k < |rules| && rules[k] == r;
    var p := GroupHasArrow(m, rules, k);
    SameKeySameArrow(m, rules[p], r);
    hide MembershipOf, Emitted, AggregatedFrom, EdgeKeyOf, Lifted, SizeBehind, Collapses;
    var i := LastEmissionCounts(rules, nodes, positions, p);
    s := rules[positions[i]];
  }

  /** Every collapsed arrow counts the members of the namespace it stands for, exactly when the
      namespaces that share an arrow are of one size. */
  lemma CountsAreMembers(rules: seq<Rule>, nodes: seq<WorkloadNode>)
    requires DistinctIds(nodes)
    ensures CountsAreRight(rules, nodes) <==> ArrowsAgree(rules, nodes)
  {
    var m := MembershipOf(nodes);
    hide MembershipOf, CollapsedCounts, Uniform, Covered, EdgeKeyOf, Lifted, SizeBehind;
    if ArrowsAgree(rules, nodes) {
      forall r | r in rules && Collapses(m, rules, r)
        ensures var counts, arrow := CollapsedCounts(rules, nodes), EdgeKeyOf(Lifted(m, r));
                arrow in counts && counts[arrow] == SizeBehind(nodes, r)
      {
        var s := ArrowHasCount(rules, nodes, r);
      }
    }
  }

  /** Under that discipline no two namespaces share an arrow. */
  lemma SidedRulesShareNoArrow(rules: seq<Rule>, nodes: seq<WorkloadNode>)
    requires DistinctIds(nodes) && SideFollowsDirection(MembershipOf(nodes), rules)
    ensures CountsAreRight(rules, nodes)
  {
    var m := MembershipOf(nodes);
    CountsAreMembers(rules, nodes);
    hide CountsAreRight, MembershipOf, Uniform, Covered, Collapses, EdgeKeyOf, Lifted;
    forall r, s | r in rules && s in rules && SameArrow(m, rules, r, s)
      ensures SizeBehind(nodes, r) == SizeBehind(nodes, s)
    {
      OneArrowOneNamespace(rules, nodes, r, s);
    }
  }

  // ----- an arrow that two namespaces share -----

  function Workload(id: string, ns: string): WorkloadNode {
    WorkloadNode(id, "", ns, Pod, map[], NoCidrType)
  }

  function NamespaceOf(id: string, ns: string): WorkloadNode {
    WorkloadNode(id, "", ns, NamespaceNode, map[], NoCidrType)
  }

  function Blanket(src: string, dst: string): Rule {
    Rule(src, dst, [], Egress, PolicyRef("", "", "", None, "", None), None, ActionAllow, true, false, CoverageAllowAll,
         true, NO_SELECTOR, NO_SELECTOR)
  }

  /** Two workloads in "a", three in "b", and the two namespace nodes. */
  const SHARED_NODES := [NamespaceOf("A", "a"), NamespaceOf("B", "b"), Workload("1", "a"), Workload("2", "a"),
                         Workload("3", "b"), Workload("4", "b"), Workload("5", "b")]

  /** Egress rules from the workloads of "a" to the node of "b", and from the node of "a" to the
      workloads of "b": both groups fold into the arrow from "A" to "B". */
  const SHARED_RULES := [Blanket("1", "B"), Blanket("2", "B"), Blanket("A", "3"), Blanket("A", "4"), Blanket("A", "5")]

  const SHARED_MEMBERSHIP := NsMembership(
    map["1" := "a", "2" := "a", "3" := "b", "4" := "b", "5" := "b"],
    map["a" := 2, "b" := 3],
    map["a" := "A", "b" := "B"])

  lemma MembershipAppend(nodes: seq<WorkloadNode>, node: WorkloadNode)
    ensures MembershipOf(nodes + [node]) == AddNode(MembershipOf(nodes), node)
  {
    assert (nodes + [node])[..|nodes|] == nodes;
  }

  lemma MembershipUpTo(nodes: seq<WorkloadNode>, i: nat)
    requires i < |nodes|
    ensures MembershipOf(nodes[..i + 1]) == AddNode(MembershipOf(nodes[..i]), nodes[i])
  {
    assert nodes[..i + 1] == nodes[..i] + [nodes[i]];
    MembershipAppend(nodes[..i], nodes[i]);
  }

  lemma SharedMembershipOfA()
    ensures MembershipOf(SHARED_NODES[..4])
         == NsMembership(map["1" := "a", "2" := "a"], map["a" := 2], map["a" := "A", "b" := "B"])
  {
    assert MembershipOf(SHARED_NODES[..0]) == NsMembership(map[], map[], map[]);
    hide MembershipOf;
    MembershipUpTo(SHARED_NODES, 0);
    MembershipUpTo(SHARED_NODES, 1);
    MembershipUpTo(SHARED_NODES, 2);
    MembershipUpTo(SHARED_NODES, 3);
  }

  lemma SharedMembership()
    ensures MembershipOf(SHARED_NODES) == SHARED_MEMBERSHIP
  {
    assert SHARED_NODES[..7] == SHARED_NODES;
    hide MembershipOf;
    SharedMembershipOfA();
    MembershipUpTo(SHARED_NODES, 4);
    MembershipUpTo(SHARED_NODES, 5);
    MembershipUpTo(SHARED_NODES, 6);
  }

  const KEY_OF_A := KeyWith(Blanket("1", "B"), "B", SourceSide, "a")

  const KEY_OF_B := KeyWith(Blanket("A", "3"), "A", TargetSide, "b")

  lemma KeysOfShared()
    ensures KEY_OF_A != KEY_OF_B
    ensures forall id :: id in {"1", "2"} ==> Uniform(SHARED_MEMBERSHIP, Blanket(id, "B")) == Some((KEY_OF_A, id))
    ensures forall id :: id in {"3", "4", "5"} ==> Uniform(SHARED_MEMBERSHIP, Blanket("A", id)) == Some((KEY_OF_B, id))
  {
    forall id | id in {"1", "2"}
      ensures Uniform(SHARED_MEMBERSHIP, Blanket(id, "B")) == Some((KEY_OF_A, id))
    {
      assert Get(SHARED_MEMBERSHIP.namespaceOf, id) == "a";
    }
    forall id | id in {"3", "4", "5"}
      ensures Uniform(SHARED_MEMBERSHIP, Blanket("A", id)) == Some((KEY_OF_B, id))
    {
      assert Get(SHARED_MEMBERSHIP.namespaceOf, id) == "b" && Get(SHARED_MEMBERSHIP.namespaceOf, "A") == "";
    }
  }

  lemma CoveredInShared()
    ensures Covered(SHARED_MEMBERSHIP, SHARED_RULES, KEY_OF_A) == {"1", "2"}
    ensures Covered(SHARED_MEMBERSHIP, SHARED_RULES, KEY_OF_B) == {"3", "4", "5"}
  {
    KeysOfShared();
    var m, rules := SHARED_MEMBERSHIP, SHARED_RULES;
    hide Uniform, Blanket, KeyWith;
    assert rules[0] in rules && rules[1] in rules && rules[2] in rules && rules[3] in rules && rules[4] in rules;
  }

  lemma SharedCounts()
    ensures Count(SHARED_MEMBERSHIP.memberCount, "a") == 2 == |{"1", "2"}|
    ensures Count(SHARED_MEMBERSHIP.memberCount, "b") == 3 == |{"3", "4", "5"}|
    ensures Get(SHARED_MEMBERSHIP.nsNodeID, "a") == "A" && Get(SHARED_MEMBERSHIP.nsNodeID, "b") == "B"
  {
    assert {"1", "2"} == {"1"} + {"2"} && {"3", "4", "5"} == {"3", "4"} + {"5"};
  }

  lemma CollapsesByKey(m: NsMembership, rules: seq<Rule>, rule: Rule, key: UniformKey, id: string)
    requires Uniform(m, rule) == Some((key, id))
    requires |Covered(m, rules, key)| == Count(m.memberCount, key.ns) >= MIN_COLLAPSE_MEMBERS
    requires Get(m.nsNodeID, key.ns) != ""
    ensures Collapses(m, rules, rule)
  {
  }

  lemma KeysOfTwo()
    ensures Uniform(SHARED_MEMBERSHIP, SHARED_RULES[0]) == Some((KEY_OF_A, "1"))
    ensures Uniform(SHARED_MEMBERSHIP, SHARED_RULES[2]) == Some((KEY_OF_B, "3"))
    ensures KEY_OF_A.ns == "a" && KEY_OF_B.ns == "b"
  {
    KeysOfShared();
    assert KEY_OF_A.ns == "a" && KEY_OF_B.ns == "b";
    hide Uniform, KeyWith;
    assert SHARED_RULES[0] == Blanket("1", "B") && SHARED_RULES[2] == Blanket("A", "3");
  }

  lemma FirstCollapses()
    ensures Collapses(SHARED_MEMBERSHIP, SHARED_RULES, SHARED_RULES[0])
  {
    KeysOfTwo();
    CoveredInShared();
    SharedCounts();
    assert |SHARED_RULES| == 5 && MIN_COLLAPSE_MEMBERS == 2 && "A" != "" && "B" != "";
    hide *;
    CollapsesByKey(SHARED_MEMBERSHIP, SHARED_RULES, SHARED_RULES[0], KEY_OF_A, "1");
  }

  lemma ThirdCollapses()
    ensures Collapses(SHARED_MEMBERSHIP, SHARED_RULES, SHARED_RULES[2])
  {
    KeysOfTwo();
    CoveredInShared();
    SharedCounts();
    assert |SHARED_RULES| == 5 && MIN_COLLAPSE_MEMBERS == 2 && "A" != "" && "B" != "";
    hide *;
    CollapsesByKey(SHARED_MEMBERSHIP, SHARED_RULES, SHARED_RULES[2], KEY_OF_B, "3");
  }

  lemma SharedArrow()
    ensures SameArrow(SHARED_MEMBERSHIP, SHARED_RULES, SHARED_RULES[0], SHARED_RULES[2])
  {
    var m := SHARED_MEMBERSHIP;
    FirstCollapses();
    ThirdCollapses();
    KeysOfTwo();
    KeyGivesArrow(m, SHARED_RULES[0]);
    KeyGivesArrow(m, SHARED_RULES[2]);
    assert ArrowOf(m, KEY_OF_A) == ArrowOf(m, KEY_OF_B);
    hide Collapses, Uniform, ArrowOf, Lifted, EdgeKeyOf;
  }

  lemma SharedSizes()
    ensures DistinctIds(SHARED_NODES)
    ensures |Members(SHARED_NODES, "a")| == 2 && |Members(SHARED_NODES, "b")| == 3
  {
    SharedMembership();
    SharedCounts();
    hide MembershipOf, Members, Count;
    MembershipIsExact(SHARED_NODES, "", "a");
    MembershipIsExact(SHARED_NODES, "", "b");
  }

  /** Then the arrow from "A" to "B" counts three workloads, though the namespace "a" has two. */
  lemma CountsCanBeWrong()
    ensures DistinctIds(SHARED_NODES) && !CountsAreRight(SHARED_RULES, SHARED_NODES)
  {
    SharedMembership();
    SharedArrow();
    SharedSizes();
    KeysOfTwo();
    hide MembershipOf, Members, Uniform, KeyWith, SameArrow, Blanket, CountsAreRight, DistinctIds;
    assert SHARED_RULES[0] in SHARED_RULES && SHARED_RULES[2] in SHARED_RULES;
    CountsAreMembers(SHARED_RULES, SHARED_NODES);
  }
}
