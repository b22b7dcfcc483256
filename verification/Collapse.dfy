// A whole namespace's identical rules become one arrow.
module Collapse {
  import opened Wrappers
  import opened Models

  const MIN_COLLAPSE_MEMBERS := 2

  // ----- who belongs to a namespace -----

  datatype NsMembership = NsMembership(
    namespaceOf: map<string, string>, memberCount: map<string, nat>, nsNodeID: map<string, string>)

  function Get(m: map<string, string>, key: string): string {
    if key in m then m[key] else ""
  }

  function Count(m: map<string, nat>, key: string): nat {
    if key in m then m[key] else 0
  }

  /** Namespace, CIDR and external nodes are endpoints, never members. */
  predicate IsMember(node: WorkloadNode) {
    node.nodeType != NamespaceNode && node.nodeType != CidrNode && node.nodeType != ExternalNode
    && node.namespace != ""
  }

  function AddNode(m: NsMembership, node: WorkloadNode): NsMembership {
    if node.nodeType == NamespaceNode then m.(nsNodeID := m.nsNodeID[node.namespace := node.id])
    else if IsMember(node) then
      m.(namespaceOf := m.namespaceOf[node.id := node.namespace],
         memberCount := m.memberCount[node.namespace := Count(m.memberCount, node.namespace) + 1])
    else m
  }

  function MembershipOf(nodes: seq<WorkloadNode>): NsMembership {
    if nodes == [] then NsMembership(map[], map[], map[])
    else AddNode(MembershipOf(nodes[..|nodes| - 1]), nodes[|nodes| - 1])
  }

  method BuildNsMembership(nodes: seq<WorkloadNode>) returns (m: NsMembership)
    ensures m == MembershipOf(nodes)
  {
    m := NsMembership(map[], map[], map[]);
    for i := 0 to |nodes|
      invariant m == MembershipOf(nodes[..i])
    {
      assert nodes[..i + 1][..i] == nodes[..i];
      var node := nodes[i];
      match node.nodeType {
        case NamespaceNode =>
          m := m.(nsNodeID := m.nsNodeID[node.namespace := node.id]);
        case CidrNode =>
        case ExternalNode =>
        case _ =>
          if node.namespace != "" {
            m := m.(namespaceOf := m.namespaceOf[node.id := node.namespace],
                    memberCount := m.memberCount[node.namespace := Count(m.memberCount, node.namespace) + 1]);
          }
      }
    }
    assert nodes[..|nodes|] == nodes;
  }

  ghost predicate DistinctIds(nodes: seq<WorkloadNode>) {
    forall i, j :: 0 <= i < j < |nodes| ==> nodes[i].id != nodes[j].id
  }

  predicate IsWorkload(node: WorkloadNode) {
    node.nodeType in {Deployment, DaemonSet, StatefulSet, Pod, CronJob, Job}
  }

  function Members(nodes: seq<WorkloadNode>, ns: string): set<string> {
    set node | node in nodes && IsWorkload(node) && node.namespace == ns :: node.id
  }

  ghost predicate HasNsNode(nodes: seq<WorkloadNode>, ns: string, id: string) {
    exists node :: node in nodes && node.nodeType == NamespaceNode && node.namespace == ns && node.id == id
  }

  lemma AddNodeCounts(m: NsMembership, members: set<string>, last: WorkloadNode, id: string, ns: string)
    requires ns != "" && last.id !in members
    requires (Get(m.namespaceOf, id) == ns <==> id in members) && Count(m.memberCount, ns) == |members|
    ensures var after := AddNode(m, last);
            var now := if IsMember(last) && last.namespace == ns then members + {last.id} else members;
            (Get(after.namespaceOf, id) == ns <==> id in now) && Count(after.memberCount, ns) == |now|
  {
  }

  /** With distinct ids the index is what it says: each member's namespace, and the number of
      members of each namespace. */
  lemma {:induction false} MembershipIsExact(nodes: seq<WorkloadNode>, id: string, ns: string)
    requires DistinctIds(nodes) && ns != ""
    ensures var m := MembershipOf(nodes);
            && (Get(m.namespaceOf, id) == ns <==> id in Members(nodes, ns))
            && Count(m.memberCount, ns) == |Members(nodes, ns)|
  {
    if nodes == [] {
      assert Members(nodes, ns) == {};
    } else {
      var init, last := nodes[..|nodes| - 1], nodes[|nodes| - 1];
      assert nodes == init + [last];
      assert MembershipOf(nodes) == AddNode(MembershipOf(init), last);
      MembershipIsExact(init, id, ns);
      MembersAppend(init, last, ns);
      hide MembershipOf, Members, IsMember, DistinctIds, Get, Count, AddNode;
      AddNodeCounts(MembershipOf(init), Members(init, ns), last, id, ns);
    }
  }

  lemma {:induction false} NsNodesExist(nodes: seq<WorkloadNode>, ns: string)
    requires ns in MembershipOf(nodes).nsNodeID
    ensures HasNsNode(nodes, ns, MembershipOf(nodes).nsNodeID[ns])
  {
    var init, last := nodes[..|nodes| - 1], nodes[|nodes| - 1];
    assert nodes == init + [last];
    if last.nodeType != NamespaceNode || last.namespace != ns {
      NsNodesExist(init, ns);
    }
  }

  lemma MembersAppend(init: seq<WorkloadNode>, last: WorkloadNode, ns: string)
    requires DistinctIds(init + [last]) && ns != ""
    ensures Members(init + [last], ns) == if IsMember(last) && last.namespace == ns then Members(init, ns) + {last.id}
                                          else Members(init, ns)
    ensures last.id !in Members(init, ns)
  {
    var nodes := init + [last];
    assert forall node :: node in nodes <==> node in init || node == last;
    forall node | node in init
      ensures node.id != last.id
    {
      var i :| 0 <= i < |init| && init[i] == node;
      assert nodes[i] == node && nodes[|init|] == last;
    }
  }

  // ----- the fingerprint of a rule -----

  datatype Side = SourceSide | TargetSide

  /** Everything about a rule except which workload it applies to. */
  datatype UniformKey = UniformKey(
    peer: string, side: Side, ns: string, direction: Direction, action: RuleAction, coverage: Coverage,
    source: string, namespace: string, name: string, ports: seq<Port>, allPorts: bool, allL7: bool,
    l7Match: Option<L7Match>, srcSelector: PolicySelector, dstSelector: PolicySelector)

  function KeyWith(rule: Rule, peer: string, side: Side, ns: string): UniformKey {
    UniformKey(peer, side, ns, rule.direction, rule.action, rule.coverage,
               rule.contributor.source, rule.contributor.namespace, rule.contributor.name,
               rule.ports, rule.allPorts, rule.allL7, rule.l7Match, rule.srcSelector, rule.dstSelector)
  }

  /** The key and the workload; None for a rule that is never a collapse candidate. */
  function Uniform(m: NsMembership, rule: Rule): Option<(UniformKey, string)> {
    if !rule.namespaceWide then None
    else if Get(m.namespaceOf, rule.srcID) != "" then
      Some((KeyWith(rule, rule.dstID, SourceSide, m.namespaceOf[rule.srcID]), rule.srcID))
    else if Get(m.namespaceOf, rule.dstID) != "" then
      Some((KeyWith(rule, rule.srcID, TargetSide, m.namespaceOf[rule.dstID]), rule.dstID))
    else None
  }

  predicate HasKey(m: NsMembership, rule: Rule, key: UniformKey) {
    Uniform(m, rule).Some? && Uniform(m, rule).value.0 == key
  }

  /** The workloads for which some rule states the fact. */
  function Covered(m: NsMembership, rules: seq<Rule>, key: UniformKey): set<string> {
    set r | r in rules && HasKey(m, r, key) :: Uniform(m, r).value.1
  }

  /** The fact holds of every workload of a namespace that has a node and enough members. */
  predicate Collapses(m: NsMembership, rules: seq<Rule>, rule: Rule) {
    && Uniform(m, rule).Some?
    && var key := Uniform(m, rule).value.0;
       var covered := |Covered(m, rules, key)|;
       covered >= MIN_COLLAPSE_MEMBERS && covered == Count(m.memberCount, key.ns) && Get(m.nsNodeID, key.ns) != ""
  }

  /** The namespace-level rule: the workload's end moves to the namespace node. */
  function Lifted(m: NsMembership, rule: Rule): Rule
    requires Uniform(m, rule).Some?
  {
    var key := Uniform(m, rule).value.0;
    if key.side == SourceSide then rule.(srcID := Get(m.nsNodeID, key.ns))
    else rule.(dstID := Get(m.nsNodeID, key.ns))
  }

  // ----- the collapse pass -----

  /** An earlier rule of the same collapsing group. */
  predicate GroupSeen(m: NsMembership, rules: seq<Rule>, n: nat, key: UniformKey)
    requires n <= |rules|
  {
    exists j :: 0 <= j < n && Collapses(m, rules, rules[j]) && HasKey(m, rules[j], key)
  }

  predicate SeenBefore(m: NsMembership, rules: seq<Rule>, n: nat)
    requires n < |rules|
  {
    Uniform(m, rules[n]).Some? && GroupSeen(m, rules, n, Uniform(m, rules[n]).value.0)
  }

  predicate Omitted(m: NsMembership, rules: seq<Rule>, n: nat)
    requires n < |rules|
  {
    Collapses(m, rules, rules[n]) && SeenBefore(m, rules, n)
  }

  /** The positions that are emitted: every rule that does not collapse, and the first of every
      group that does. */
  function Emitted(m: NsMembership, rules: seq<Rule>, n: nat): (r: seq<nat>)
    requires n <= |rules|
    ensures forall i :: 0 <= i < |r| ==> r[i] < n
    ensures forall i, j :: 0 <= i < j < |r| ==> r[i] < r[j]
  {
    if n == 0 then []
    else
      var k: nat := n - 1;
      Emitted(m, rules, k) + if Omitted(m, rules, k) then [] else [k]
  }

  lemma {:induction false} EmittedAreNotOmitted(m: NsMembership, rules: seq<Rule>, n: nat)
    requires n <= |rules|
    ensures forall k: nat :: k in Emitted(m, rules, n) <==> k < n && !Omitted(m, rules, k)
  {
    hide Omitted;
    if n > 0 {
      EmittedAreNotOmitted(m, rules, n - 1);
    }
  }

  function Emit(m: NsMembership, rules: seq<Rule>, k: nat): Rule
    requires k < |rules|
  {
    if Collapses(m, rules, rules[k]) then Lifted(m, rules[k]) else rules[k]
  }

  function EmitAll(m: NsMembership, rules: seq<Rule>, positions: seq<nat>): (r: seq<Rule>)
    requires forall i :: 0 <= i < |positions| ==> positions[i] < |rules|
    ensures |r| == |positions| && forall i :: 0 <= i < |r| ==> r[i] == Emit(m, rules, positions[i])
  {
    if positions == [] then []
    else EmitAll(m, rules, positions[..|positions| - 1]) + [Emit(m, rules, positions[|positions| - 1])]
  }

  /** Identity of the arrow that a rule folds into. */
  datatype EdgeKey = EdgeKey(
    srcID: string, dstID: string, direction: Direction, name: string, namespace: string, source: string,
    action: RuleAction)

  function EdgeKeyOf(rule: Rule): EdgeKey {
    EdgeKey(rule.srcID, rule.dstID, rule.direction, rule.contributor.name, rule.contributor.namespace,
            rule.contributor.source, rule.action)
  }

  /** How many per-workload rules each collapsed arrow stands in for; a later emission to the
      same arrow overwrites an earlier one. */
  function AggregatedFrom(m: NsMembership, rules: seq<Rule>, positions: seq<nat>): map<EdgeKey, nat>
    requires forall i :: 0 <= i < |positions| ==> positions[i] < |rules|
  {
    if positions == [] then map[]
    else
      var last := positions[|positions| - 1];
      var init := AggregatedFrom(m, rules, positions[..|positions| - 1]);
      if Collapses(m, rules, rules[last]) then
        init[EdgeKeyOf(Lifted(m, rules[last])) := |Covered(m, rules, Uniform(m, rules[last]).value.0)|]
      else init
  }

  function CollapsedRules(rules: seq<Rule>, nodes: seq<WorkloadNode>): seq<Rule> {
    var m := MembershipOf(nodes);
    EmitAll(m, rules, Emitted(m, rules, |rules|))
  }

  function CollapsedCounts(rules: seq<Rule>, nodes: seq<WorkloadNode>): map<EdgeKey, nat> {
    var m := MembershipOf(nodes);
    AggregatedFrom(m, rules, Emitted(m, rules, |rules|))
  }

  method CollapseUniformRules(rules: seq<Rule>, nodes: seq<WorkloadNode>)
    returns (out: seq<Rule>, aggregatedFrom: map<EdgeKey, nat>)
    ensures out == CollapsedRules(rules, nodes) && aggregatedFrom == CollapsedCounts(rules, nodes)
  {
    hide Uniform, HasKey, Lifted, MembershipOf, EdgeKeyOf, Collapses, GroupSeen, AggregatedFrom, EmitAll, Emitted;
    var m := BuildNsMembership(nodes);
    var covered := CoverLoop(m, rules);
    var emitted: set<UniformKey> := {};
    out, aggregatedFrom := [], map[];
    NothingEmitted(m, rules);
    for i := 0 to |rules|
      invariant forall key :: key in emitted <==> GroupSeen(m, rules, i, key)
      invariant out == EmitAll(m, rules, Emitted(m, rules, i))
      invariant aggregatedFrom == AggregatedFrom(m, rules, Emitted(m, rules, i))
    {
      var rule := rules[i];
      var collapses := CollapsesByCount(m, rules, covered, rule);
      GroupSeenNext(m, rules, i);
      EmittedNext(m, rules, i);
      if !collapses {
        out := out + [rule];
      } else {
        var key := Uniform(m, rule).value.0;
        if key !in emitted {
          emitted := emitted + {key};
          var lifted := Lifted(m, rule);
          aggregatedFrom := aggregatedFrom[EdgeKeyOf(lifted) := |covered[key]|];
          out := out + [lifted];
        }
      }
    }
  }

  lemma NothingEmitted(m: NsMembership, rules: seq<Rule>)
    ensures Emitted(m, rules, 0) == [] && EmitAll(m, rules, []) == [] && AggregatedFrom(m, rules, []) == map[]
    ensures forall key :: !GroupSeen(m, rules, 0, key)
  {
  }

  lemma GroupSeenNext(m: NsMembership, rules: seq<Rule>, k: nat)
    requires k < |rules|
    ensures Collapses(m, rules, rules[k]) ==> Uniform(m, rules[k]).Some?
    ensures forall key :: GroupSeen(m, rules, k + 1, key) <==>
      GroupSeen(m, rules, k, key) || (Collapses(m, rules, rules[k]) && key == Uniform(m, rules[k]).value.0)
  {
    assert Collapses(m, rules, rules[k]) ==> Uniform(m, rules[k]).Some?;
    assert forall key ::
      HasKey(m, rules[k], key) <==> Uniform(m, rules[k]).Some? && key == Uniform(m, rules[k]).value.0;
    hide Uniform, Collapses, HasKey;
    forall key
      ensures GroupSeen(m, rules, k + 1, key) <==>
        GroupSeen(m, rules, k, key) || (Collapses(m, rules, rules[k]) && HasKey(m, rules[k], key))
    {
      GroupSeenStep(m, rules, k, key);
    }
  }

  lemma GroupSeenStep(m: NsMembership, rules: seq<Rule>, k: nat, key: UniformKey)
    requires k < |rules|
    ensures GroupSeen(m, rules, k + 1, key) <==>
      GroupSeen(m, rules, k, key) || (Collapses(m, rules, rules[k]) && HasKey(m, rules[k], key))
  {
    hide Uniform, Collapses, HasKey;
    if GroupSeen(m, rules, k + 1, key) {
      var j :| 0 <= j < k + 1 && Collapses(m, rules, rules[j]) && HasKey(m, rules[j], key);
      assert j < k ==> GroupSeen(m, rules, k, key);
    }
    if GroupSeen(m, rules, k, key) {
      var j :| 0 <= j < k && Collapses(m, rules, rules[j]) && HasKey(m, rules[j], key);
      assert j < k + 1;
    }
    if Collapses(m, rules, rules[k]) && HasKey(m, rules[k], key) {
      assert 0 <= k < k + 1;
    }
  }

  /** One step of the emitted rules and of the counts. */
  lemma EmittedNext(m: NsMembership, rules: seq<Rule>, k: nat)
    requires k < |rules|
    ensures var now, next := Emitted(m, rules, k), Emitted(m, rules, k + 1);
            var rule := rules[k];
            if Collapses(m, rules, rule) then
              if GroupSeen(m, rules, k, Uniform(m, rule).value.0) then next == now
              else
                && EmitAll(m, rules, next) == EmitAll(m, rules, now) + [Lifted(m, rule)]
                && AggregatedFrom(m, rules, next)
                == AggregatedFrom(m, rules, now)
                     [EdgeKeyOf(Lifted(m, rule)) := |Covered(m, rules, Uniform(m, rule).value.0)|]
            else EmitAll(m, rules, next) == EmitAll(m, rules, now) + [rule]
                 && AggregatedFrom(m, rules, next) == AggregatedFrom(m, rules, now)
  {
    var now := Emitted(m, rules, k);
    EmitNext(m, rules, now, k);
    hide Uniform, Covered, Lifted, EdgeKeyOf, EmitAll, AggregatedFrom, GroupSeen;
    assert Emitted(m, rules, k + 1)
        == now + if Omitted(m, rules, k) then [] else [k];
    assert now + [] == now;
  }

  lemma EmitNext(m: NsMembership, rules: seq<Rule>, positions: seq<nat>, k: nat)
    requires k < |rules| && forall i :: 0 <= i < |positions| ==> positions[i] < |rules|
    ensures EmitAll(m, rules, positions + [k]) == EmitAll(m, rules, positions) + [Emit(m, rules, k)]
    ensures AggregatedFrom(m, rules, positions + [k])
         == if Collapses(m, rules, rules[k]) then
              AggregatedFrom(m, rules, positions)
                [EdgeKeyOf(Lifted(m, rules[k])) := |Covered(m, rules, Uniform(m, rules[k]).value.0)|]
            else AggregatedFrom(m, rules, positions)
  {
    hide Collapses, Lifted, Covered, Uniform, EdgeKeyOf, Emit;
    assert (positions + [k])[..|positions|] == positions;
  }

  /** The first loop: the workloads covered under every key. */
  method CoverLoop(m: NsMembership, rules: seq<Rule>) returns (covered: map<UniformKey, set<string>>)
    ensures forall r :: r in rules && Uniform(m, r).Some? ==>
      var key := Uniform(m, r).value.0; key in covered && covered[key] == Covered(m, rules, key)
  {
    hide Uniform;
    covered := map[];
    for i := 0 to |rules|
      invariant forall key :: (if key in covered then covered[key] else {}) == Covered(m, rules[..i], key)
      invariant forall r :: r in rules[..i] && Uniform(m, r).Some? ==> Uniform(m, r).value.0 in covered
    {
      var rule := rules[i];
      assert rules[..i + 1] == rules[..i] + [rule];
      CoveredAppend(m, rules[..i], rule);
      if Uniform(m, rule).Some? {
        var (key, workload) := Uniform(m, rule).value;
        covered := covered[key := (if key in covered then covered[key] else {}) + {workload}];
      }
    }
    assert rules[..|rules|] == rules;
  }

  lemma CoveredAppend(m: NsMembership, rules: seq<Rule>, rule: Rule)
    ensures forall key :: (Covered(m, rules + [rule], key)
      == Covered(m, rules, key) + if HasKey(m, rule, key) then {Uniform(m, rule).value.1} else {})
  {
    hide Uniform;
    assert forall r :: r in rules + [rule] <==> r in rules || r == rule;
  }

  method CollapsesByCount(
      m: NsMembership, rules: seq<Rule>, covered: map<UniformKey, set<string>>, rule: Rule) returns (collapses: bool)
    requires rule in rules
    requires forall r :: r in rules && Uniform(m, r).Some? ==>
      var key := Uniform(m, r).value.0; key in covered && covered[key] == Covered(m, rules, key)
    ensures collapses == Collapses(m, rules, rule)
  {
    hide Uniform, Covered;
    if Uniform(m, rule).None? {
      return false;
    }
    var key := Uniform(m, rule).value.0;
    var n := |covered[key]|;
    collapses := n >= MIN_COLLAPSE_MEMBERS && n == Count(m.memberCount, key.ns) && Get(m.nsNodeID, key.ns) != "";
  }
}
