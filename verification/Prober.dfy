// Reachability over all engines, the memo of one request, and the layering pass that relies
// on it.
module Prober {
  import opened Wrappers
  import opened Cidr
  import opened Models
  import opened Reachability
  import opened VerdictLaws

  datatype Engine = Engine(nodeRules: map<string, NodeRules>, allowByNs: map<string, seq<Rule>>)

  /** The request's cache: namespace node ids where known, every engine's result, and all nodes
      by id. */
  datatype Cache = Cache(
    parse: CidrParser, nsNodeIds: map<string, string>, engines: map<string, Engine>,
    nodes: map<string, WorkloadNode>)

  datatype Request = Request(srcID: string, srcNs: string, dstID: string, dstNs: string)

  datatype Status = NotEnforced | StatusAllow | StatusDeny

  datatype EngineVerdict = EngineVerdict(egress: DirectionVerdict, ingress: DirectionVerdict, status: Status)

  /** The engines that block come in the order the engines were visited in. */
  datatype ReachabilityResult = ReachabilityResult(
    allowed: bool, engines: map<string, EngineVerdict>, blockedBy: seq<string>)

  // ----- one engine -----

  function NsNodeId(cache: Cache, ns: string): string {
    if ns in cache.nsNodeIds then cache.nsNodeIds[ns] else ""
  }

  function RulesAt(engine: Engine, id: string): NodeRules {
    if id in engine.nodeRules then engine.nodeRules[id] else NodeRules(NO_RULES, NO_RULES)
  }

  function SideVerdict(q: Query, ns: DirectionRules, node: DirectionRules): DirectionVerdict {
    Verdict(q, ns.allow + node.allow, ns.deny + node.deny)
  }

  /** Egress is asked about the destination, ingress about the source. */
  function EgressQuery(cache: Cache, req: Request): Query {
    Query(cache.parse, cache.nodes, Egress, req.dstID, NsNodeId(cache, req.dstNs))
  }

  function IngressQuery(cache: Cache, req: Request): Query {
    Query(cache.parse, cache.nodes, Ingress, req.srcID, NsNodeId(cache, req.srcNs))
  }

  function StatusOf(egress: Reason, ingress: Reason): Status {
    if egress == ReasonNoOpinion && ingress == ReasonNoOpinion then NotEnforced
    else if Opens(egress) && Opens(ingress) then StatusAllow
    else StatusDeny
  }

  function Judge(cache: Cache, engine: Engine, req: Request): EngineVerdict {
    var egress := SideVerdict(EgressQuery(cache, req),
      RulesAt(engine, NsNodeId(cache, req.srcNs)).egress, RulesAt(engine, req.srcID).egress);
    var ingress := SideVerdict(IngressQuery(cache, req),
      RulesAt(engine, NsNodeId(cache, req.dstNs)).ingress, RulesAt(engine, req.dstID).ingress);
    EngineVerdict(egress, ingress, StatusOf(egress.reason, ingress.reason))
  }

  method JudgeEngine(cache: Cache, engine: Engine, req: Request) returns (v: EngineVerdict)
    ensures v == Judge(cache, engine, req)
  {
    hide Verdict;
    var egress := CollectSide(EgressQuery(cache, req),
      RulesAt(engine, NsNodeId(cache, req.srcNs)).egress, RulesAt(engine, req.srcID).egress);
    var ingress := CollectSide(IngressQuery(cache, req),
      RulesAt(engine, NsNodeId(cache, req.dstNs)).ingress, RulesAt(engine, req.dstID).ingress);
    v := EngineVerdict(egress, ingress, StatusOf(egress.reason, ingress.reason));
  }

  // ----- all engines -----

  ghost predicate Blocks(cache: Cache, name: string, req: Request) {
    name in cache.engines && Judge(cache, cache.engines[name], req).status == StatusDeny
  }

  /** What every computation of the request's answer agrees on; only the order of the blocking
      engines is left open. */
  ghost predicate Answers(cache: Cache, req: Request, r: ReachabilityResult) {
    && r.engines == (map name | name in cache.engines :: Judge(cache, cache.engines[name], req))
    && (forall name :: name in r.blockedBy <==> Blocks(cache, name, req))
    && (forall i, j :: 0 <= i < j < |r.blockedBy| ==> r.blockedBy[i] != r.blockedBy[j])
    && (r.allowed <==> forall name :: !Blocks(cache, name, req))
  }

  method PoliciesCanReach(cache: Cache, req: Request) returns (r: ReachabilityResult)
    ensures Answers(cache, req, r)
  {
    hide Judge;
    var engines: map<string, EngineVerdict> := map[];
    var blockedBy: seq<string> := [];
    var names := cache.engines.Keys;
    while names != {}
      invariant names <= cache.engines.Keys
      invariant forall name :: name in engines <==> name in cache.engines && name !in names
      invariant forall name :: name in engines ==> engines[name] == Judge(cache, cache.engines[name], req)
      invariant forall name :: name in blockedBy <==> name !in names && Blocks(cache, name, req)
      invariant forall i, j :: 0 <= i < j < |blockedBy| ==> blockedBy[i] != blockedBy[j]
      decreases |names|
    {
      var name :| name in names;
      var v := JudgeEngine(cache, cache.engines[name], req);
      engines := engines[name := v];
      if v.status == StatusDeny {
        blockedBy := blockedBy + [name];
      }
      names := names - {name};
    }
    assert blockedBy == [] <==> forall name :: !Blocks(cache, name, req) by {
      assert blockedBy != [] ==> blockedBy[0] in blockedBy;
    }
    r := ReachabilityResult(blockedBy == [], engines, blockedBy);
  }

  /** The path is open exactly when every engine lets both sides pass. */
  lemma AllowedMeansAllOpen(cache: Cache, req: Request, r: ReachabilityResult)
    requires Answers(cache, req, r)
    ensures r.allowed <==> forall name :: name in r.engines ==>
      Opens(r.engines[name].egress.reason) && Opens(r.engines[name].ingress.reason)
  {
    hide Judge;
    forall name | name in cache.engines
      ensures Blocks(cache, name, req) <==>
        !(Opens(r.engines[name].egress.reason) && Opens(r.engines[name].ingress.reason))
    {
      StatusFollowsReasons(cache, cache.engines[name], req);
    }
  }

  lemma StatusFollowsReasons(cache: Cache, engine: Engine, req: Request)
    ensures var v := Judge(cache, engine, req); v.status == StatusOf(v.egress.reason, v.ingress.reason)
  {
  }

  /** The two verdicts of an engine, spelled out. */
  lemma JudgeReads(cache: Cache, engine: Engine, req: Request)
    ensures var v := Judge(cache, engine, req);
            var from, src := RulesAt(engine, NsNodeId(cache, req.srcNs)), RulesAt(engine, req.srcID);
            var to, dst := RulesAt(engine, NsNodeId(cache, req.dstNs)), RulesAt(engine, req.dstID);
            && v.egress == Verdict(EgressQuery(cache, req), from.egress.allow + src.egress.allow,
                                   from.egress.deny + src.egress.deny)
            && v.ingress == Verdict(IngressQuery(cache, req), to.ingress.allow + dst.ingress.allow,
                                    to.ingress.deny + dst.ingress.deny)
            && (v.status == NotEnforced ==>
                  v.egress.reason == ReasonNoOpinion && v.ingress.reason == ReasonNoOpinion)
  {
    hide Verdict;
  }

  /** One more engine never turns a deny into an allow. */
  lemma EnginesNeverOpen(cache: Cache, name: string, engine: Engine, req: Request,
                         before: ReachabilityResult, after: ReachabilityResult)
    requires name !in cache.engines && Answers(cache, req, before)
    requires Answers(cache.(engines := cache.engines[name := engine]), req, after)
    ensures after.allowed ==> before.allowed
  {
    var more := cache.(engines := cache.engines[name := engine]);
    hide Verdict;
    forall other | Blocks(cache, other, req)
      ensures Blocks(more, other, req)
    {
      assert more.engines[other] == cache.engines[other];
    }
  }

  // ----- the memo key -----

  const ARROW := "->"

  function MemoKey(srcID: string, dstID: string): string {
    srcID + ARROW + dstID
  }

  ghost predicate HasArrow(s: string) {
    exists i :: 0 <= i <= |s| && ARROW <= s[i..]
  }

  /** The second pair cuts the same text at a later arrow. */
  ghost predicate CutsLater(src: string, dst: string, src': string, dst': string) {
    exists x :: src' == src + ARROW + x && dst == x + ARROW + dst'
  }

  lemma KeyPrefix(src: string, dst: string, src': string, dst': string)
    requires MemoKey(src, dst) == MemoKey(src', dst') && |src| < |src'|
    ensures CutsLater(src, dst, src', dst')
  {
    var key, n, m := MemoKey(src, dst), |src|, |src'|;
    assert key[n] == '-' && key[n + 1] == '>' && key[m] == '-' && key[m + 1] == '>';
    assert m != n + 1;
    var x := src'[n + 2..];
    assert src' == key[..m] && src == key[..n] && key[n..n + 2] == ARROW;
    assert src' == src + ARROW + x;
    assert key == src + ARROW + (x + ARROW + dst');
    assert dst == key[n + 2..] == x + ARROW + dst';
  }

  /** Two pairs share a key exactly when they are equal or one cuts the text at another arrow. */
  lemma KeysCollideAtArrows(src: string, dst: string, src': string, dst': string)
    ensures MemoKey(src, dst) == MemoKey(src', dst') <==>
      (src == src' && dst == dst') || CutsLater(src, dst, src', dst') || CutsLater(src', dst', src, dst)
  {
    if MemoKey(src, dst) == MemoKey(src', dst') {
      if |src| < |src'| {
        KeyPrefix(src, dst, src', dst');
      } else if |src| > |src'| {
        KeyPrefix(src', dst', src, dst);
      } else {
        var key := MemoKey(src, dst);
        assert src == key[..|src|] == src' && dst == key[|src| + 2..] == dst';
      }
    }
    if CutsLater(src, dst, src', dst') {
      LaterCutSharesKey(src, dst, src', dst');
    }
    if CutsLater(src', dst', src, dst) {
      LaterCutSharesKey(src', dst', src, dst);
    }
  }

  lemma LaterCutSharesKey(src: string, dst: string, src': string, dst': string)
    requires CutsLater(src, dst, src', dst')
    ensures MemoKey(src, dst) == MemoKey(src', dst')
    ensures HasArrow(src') && HasArrow(dst)
  {
    var x :| src' == src + ARROW + x && dst == x + ARROW + dst';
    assert src + ARROW + (x + ARROW + dst') == (src + ARROW + x) + ARROW + dst';
    assert ARROW <= src'[|src|..] && ARROW <= dst[|x|..];
  }

  /** So the key is faithful on ids without arrows. */
  lemma KeyIsInjective(src: string, dst: string, src': string, dst': string)
    requires !HasArrow(src) && !HasArrow(src')
    requires MemoKey(src, dst) == MemoKey(src', dst')
    ensures src == src' && dst == dst'
  {
    KeysCollideAtArrows(src, dst, src', dst');
    if CutsLater(src, dst, src', dst') {
      LaterCutSharesKey(src, dst, src', dst');
    }
    if CutsLater(src', dst', src, dst) {
      LaterCutSharesKey(src', dst', src, dst);
    }
  }

  // ----- the memo -----

  function OwnNs(cache: Cache, id: string): string {
    if id in cache.nodes then cache.nodes[id].namespace else ""
  }

  /** The source holds no arrow, and each id is asked with its own namespace. */
  ghost predicate WellAsked(cache: Cache, req: Request) {
    !HasArrow(req.srcID) && req.srcNs == OwnNs(cache, req.srcID) && req.dstNs == OwnNs(cache, req.dstID)
  }

  class ReachabilityProber {
    const cache: Cache
    var memo: map<string, ReachabilityResult>

    /** Every entry is the answer to a well-asked request with that key. */
    ghost predicate Valid()
      reads this
    {
      forall key :: key in memo ==> exists req ::
        WellAsked(cache, req) && key == MemoKey(req.srcID, req.dstID) && Answers(cache, req, memo[key])
    }

    constructor (cache: Cache)
      ensures Valid() && this.cache == cache && memo == map[]
    {
      this.cache := cache;
      memo := map[];
    }

    /** A hit returns the entry and changes nothing; a miss records its answer. While requests
        are well asked, what comes back always answers the request. */
    method Probe(req: Request) returns (r: ReachabilityResult)
      modifies this
      ensures var key := MemoKey(req.srcID, req.dstID);
        if key in old(memo) then r == old(memo)[key] && memo == old(memo)
        else Answers(cache, req, r) && memo == old(memo)[key := r]
      ensures old(Valid()) && WellAsked(cache, req) ==> Valid() && Answers(cache, req, r)
    {
      hide Answers;
      var key := MemoKey(req.srcID, req.dstID);
      if key in memo {
        r := memo[key];
        if Valid() && WellAsked(cache, req) {
          var asked :| WellAsked(cache, asked) && key == MemoKey(asked.srcID, asked.dstID)
                       && Answers(cache, asked, memo[key]);
          KeyIsInjective(req.srcID, req.dstID, asked.srcID, asked.dstID);
          assert asked == req;
        }
        return;
      }
      r := PoliciesCanReach(cache, req);
      memo := memo[key := r];
    }

    /** Over a whole run of well-asked probes, every answer is the recomputed one. */
    method ProbeAll(requests: seq<Request>) returns (results: seq<ReachabilityResult>)
      requires Valid() && forall req :: req in requests ==> WellAsked(cache, req)
      modifies this
      ensures Valid() && |results| == |requests|
      ensures forall i :: 0 <= i < |requests| ==> Answers(cache, requests[i], results[i])
    {
      hide Answers;
      results := [];
      for i := 0 to |requests|
        invariant Valid() && |results| == i
        invariant forall k :: 0 <= k < i ==> Answers(cache, requests[k], results[k])
      {
        var r := Probe(requests[i]);
        results := results + [r];
      }
    }

    // ----- layering -----

    /** Some rule is live: its own pair of nodes is not denied. */
    method AnyRuleReachable(rules: seq<Rule>, srcNs: string, dstNs: string) returns (found: bool)
      modifies this
      ensures old(Valid()) && AllWellAsked(cache, rules, srcNs, dstNs) ==>
        Valid() && (found <==> AnyReaches(cache, rules, srcNs, dstNs))
    {
      hide Answers, Reaches, WellAsked, Valid;
      ghost var clean := Valid() && AllWellAsked(cache, rules, srcNs, dstNs);
      for i := 0 to |rules|
        invariant clean ==> Valid()
        invariant clean ==>
          forall k :: 0 <= k < i ==> !Reaches(cache, Request(rules[k].srcID, srcNs, rules[k].dstID, dstNs))
      {
        var req := Request(rules[i].srcID, srcNs, rules[i].dstID, dstNs);
        var result := Probe(req);
        if clean {
          AnswersDecide(cache, req, result);
        }
        if result.allowed {
          return true;
        }
      }
      return false;
    }

    /** The layering check. A pair is layered where a cluster range takes part, or where, on a
        namespace-level pair, one path of the finer policies is live. On a cache whose nodes carry
        their own, arrow-free ids, the filter of the finer rules keeps every probe well asked. */
    method IsLayeredPolicy(engine: string, srcNode: WorkloadNode, dstNode: WorkloadNode) returns (layered: bool)
      modifies this
      ensures old(Valid()) && CleanIds(cache) ==>
        Valid() && (layered <==> Layered(cache, engine, srcNode, dstNode))
    {
      if IsInternalCidrAggregate(srcNode) || IsInternalCidrAggregate(dstNode) {
        return true;
      }
      if srcNode.nodeType != NamespaceNode && dstNode.nodeType != NamespaceNode {
        return false;
      }
      var finer := FinerPolicies(cache, engine, srcNode, dstNode);
      if finer == [] {
        return false;
      }
      layered := AnyRuleReachable(finer, srcNode.namespace, dstNode.namespace);
    }
  }

  /** Every node is indexed under its own id, which holds no arrow. */
  ghost predicate CleanIds(cache: Cache) {
    forall id :: id in cache.nodes ==> cache.nodes[id].id == id && !HasArrow(id)
  }

  ghost predicate AllWellAsked(cache: Cache, rules: seq<Rule>, srcNs: string, dstNs: string) {
    forall r :: r in rules ==> WellAsked(cache, Request(r.srcID, srcNs, r.dstID, dstNs))
  }

  ghost predicate AnyReaches(cache: Cache, rules: seq<Rule>, srcNs: string, dstNs: string) {
    exists r :: r in rules && Reaches(cache, Request(r.srcID, srcNs, r.dstID, dstNs))
  }

  /** A CIDR node in the pod or service range of the cluster. */
  predicate IsInternalCidrAggregate(node: WorkloadNode) {
    node.nodeType == CidrNode && (node.cidrType == PodCidr || node.cidrType == ServiceCidr)
  }

  ghost predicate Layered(cache: Cache, engine: string, srcNode: WorkloadNode, dstNode: WorkloadNode) {
    || IsInternalCidrAggregate(srcNode) || IsInternalCidrAggregate(dstNode)
    || ((srcNode.nodeType == NamespaceNode || dstNode.nodeType == NamespaceNode)
        && AnyReaches(cache, FinerRules(cache, engine, srcNode, dstNode), srcNode.namespace, dstNode.namespace))
  }

  ghost predicate Reaches(cache: Cache, req: Request) {
    forall name :: !Blocks(cache, name, req)
  }

  lemma AnswersDecide(cache: Cache, req: Request, r: ReachabilityResult)
    requires Answers(cache, req, r)
    ensures r.allowed <==> Reaches(cache, req)
  {
  }

  /** An allow between two known, different nodes of this pair of namespaces, at least one of
      them finer than a namespace. */
  predicate IsFiner(cache: Cache, rule: Rule, srcNs: string, dstNs: string) {
    && rule.action == ActionAllow && rule.srcID in cache.nodes && rule.dstID in cache.nodes
    && var src, dst := cache.nodes[rule.srcID], cache.nodes[rule.dstID];
       src.id != dst.id && src.namespace == srcNs && dst.namespace == dstNs
       && (src.nodeType != NamespaceNode || dst.nodeType != NamespaceNode)
  }

  function SelectFiner(cache: Cache, rules: seq<Rule>, srcNs: string, dstNs: string): (r: seq<Rule>)
    ensures forall x :: x in r <==> x in rules && IsFiner(cache, x, srcNs, dstNs)
  {
    if rules == [] then []
    else
      var last := rules[|rules| - 1];
      SelectFiner(cache, rules[..|rules| - 1], srcNs, dstNs)
      + if IsFiner(cache, last, srcNs, dstNs) then [last] else []
  }

  function AllowsIn(engine: Engine, ns: string): seq<Rule> {
    if ns != "" && ns in engine.allowByNs then engine.allowByNs[ns] else []
  }

  /** The engine's finer rules, from the source's namespace and then the destination's. */
  function FinerRules(cache: Cache, engine: string, srcNode: WorkloadNode, dstNode: WorkloadNode): seq<Rule> {
    if engine !in cache.engines then []
    else
      var e := cache.engines[engine];
      SelectFiner(cache, AllowsIn(e, srcNode.namespace), srcNode.namespace, dstNode.namespace)
      + SelectFiner(cache, AllowsIn(e, dstNode.namespace), srcNode.namespace, dstNode.namespace)
  }

  method FinerPolicies(cache: Cache, engine: string, srcNode: WorkloadNode, dstNode: WorkloadNode)
    returns (finer: seq<Rule>)
    ensures finer == FinerRules(cache, engine, srcNode, dstNode)
  {
    if engine !in cache.engines {
      return [];
    }
    var e := cache.engines[engine];
    var first := SelectFinerLoop(cache, AllowsIn(e, srcNode.namespace), srcNode.namespace, dstNode.namespace);
    var second := SelectFinerLoop(cache, AllowsIn(e, dstNode.namespace), srcNode.namespace, dstNode.namespace);
    finer := first + second;
  }

  method SelectFinerLoop(cache: Cache, rules: seq<Rule>, srcNs: string, dstNs: string) returns (finer: seq<Rule>)
    ensures finer == SelectFiner(cache, rules, srcNs, dstNs)
  {
    finer := [];
    for i := 0 to |rules|
      invariant finer == SelectFiner(cache, rules[..i], srcNs, dstNs)
    {
      assert rules[..i + 1][..i] == rules[..i];
      if IsFiner(cache, rules[i], srcNs, dstNs) {
        finer := finer + [rules[i]];
      }
    }
    assert rules[..|rules|] == rules;
  }
}
