// The answer on the fields of the request, the cache and the rules.
module ProberFields {
  import opened Wrappers
  import opened Models
  import opened Reachability
  import opened VerdictLaws
  import opened VerdictFields
  import opened Prober

  /** The namespace's node id, empty where the namespace is unknown. */
  ghost predicate IsNsNode(cache: Cache, ns: string, id: string) {
    (ns in cache.nsNodeIds && cache.nsNodeIds[ns] == id) || (ns !in cache.nsNodeIds && id == "")
  }

  /** An id under which rules for an end are kept: its own, or its namespace's node's. */
  ghost predicate RuledBy(cache: Cache, end: string, ns: string, id: string) {
    id == end || IsNsNode(cache, ns, id)
  }

  ghost predicate EgressRule(cache: Cache, engine: Engine, req: Request, action: RuleAction, r: Rule) {
    exists id :: RuledBy(cache, req.srcID, req.srcNs, id) && id in engine.nodeRules
      && var rules := engine.nodeRules[id].egress; r in (if action == ActionAllow then rules.allow else rules.deny)
  }

  ghost predicate IngressRule(cache: Cache, engine: Engine, req: Request, action: RuleAction, r: Rule) {
    exists id :: RuledBy(cache, req.dstID, req.dstNs, id) && id in engine.nodeRules
      && var rules := engine.nodeRules[id].ingress; r in (if action == ActionAllow then rules.allow else rules.deny)
  }

  ghost predicate Passes(reason: Reason) {
    reason in {ReasonPermitted, ReasonNoOpinion}
  }

  /** Exactly the rules of one side of the path. */
  ghost predicate AreEgress(cache: Cache, engine: Engine, req: Request, allows: seq<Rule>, denies: seq<Rule>) {
    && (forall r :: r in allows <==> EgressRule(cache, engine, req, ActionAllow, r))
    && forall r :: r in denies <==> EgressRule(cache, engine, req, ActionDeny, r)
  }

  ghost predicate AreIngress(cache: Cache, engine: Engine, req: Request, allows: seq<Rule>, denies: seq<Rule>) {
    && (forall r :: r in allows <==> IngressRule(cache, engine, req, ActionAllow, r))
    && forall r :: r in denies <==> IngressRule(cache, engine, req, ActionDeny, r)
  }

  /** An engine's egress verdict asks the rules of the source and of its namespace about the
      destination; its ingress verdict asks those of the destination about the source. */
  lemma JudgeOnFields(
      cache: Cache, engine: Engine, req: Request, srcNsId: string, dstNsId: string,
      out: DirectionRules, into: DirectionRules)
    requires IsNsNode(cache, req.srcNs, srcNsId) && IsNsNode(cache, req.dstNs, dstNsId)
    requires AreEgress(cache, engine, req, out.allow, out.deny)
    requires AreIngress(cache, engine, req, into.allow, into.deny)
    ensures var v := Judge(cache, engine, req);
            && v.egress.reason
               == ReasonByFields(Query(cache.parse, cache.nodes, Egress, req.dstID, dstNsId), out.allow, out.deny)
            && v.ingress.reason
               == ReasonByFields(Query(cache.parse, cache.nodes, Ingress, req.srcID, srcNsId), into.allow, into.deny)
            && (v.status == NotEnforced <==> v.egress.reason == v.ingress.reason == ReasonNoOpinion)
            && (v.status == StatusDeny <==> !(Passes(v.egress.reason) && Passes(v.ingress.reason)))
  {
    var e, i := EgressQuery(cache, req), IngressQuery(cache, req);
    var from, src := RulesAt(engine, srcNsId).egress, RulesAt(engine, req.srcID).egress;
    var to, dst := RulesAt(engine, dstNsId).ingress, RulesAt(engine, req.dstID).ingress;
    JudgeReads(cache, engine, req);
    StatusFollowsReasons(cache, engine, req);
    hide Judge, Verdict, ReasonByFields;
    VerdictIsOrderFree(e, from.allow + src.allow, from.deny + src.deny, out.allow, out.deny);
    VerdictIsOrderFree(i, to.allow + dst.allow, to.deny + dst.deny, into.allow, into.deny);
    ReasonOnFields(e, out.allow, out.deny);
    ReasonOnFields(i, into.allow, into.deny);
  }

  /** What the rules of the two sides say lets the path through. */
  ghost predicate Lets(
      cache: Cache, engine: Engine, req: Request, srcNsId: string, dstNsId: string,
      out: DirectionRules, into: DirectionRules)
  {
    && IsNsNode(cache, req.srcNs, srcNsId) && IsNsNode(cache, req.dstNs, dstNsId)
    && AreEgress(cache, engine, req, out.allow, out.deny) && AreIngress(cache, engine, req, into.allow, into.deny)
    && Passes(ReasonByFields(Query(cache.parse, cache.nodes, Egress, req.dstID, dstNsId), out.allow, out.deny))
    && Passes(ReasonByFields(Query(cache.parse, cache.nodes, Ingress, req.srcID, srcNsId), into.allow, into.deny))
  }

  lemma SidesOf(cache: Cache, engine: Engine, req: Request)
    returns (srcNsId: string, dstNsId: string, out: DirectionRules, into: DirectionRules)
    ensures IsNsNode(cache, req.srcNs, srcNsId) && IsNsNode(cache, req.dstNs, dstNsId)
    ensures AreEgress(cache, engine, req, out.allow, out.deny) && AreIngress(cache, engine, req, into.allow, into.deny)
  {
    srcNsId, dstNsId := NsNodeId(cache, req.srcNs), NsNodeId(cache, req.dstNs);
    var from, src := RulesAt(engine, srcNsId).egress, RulesAt(engine, req.srcID).egress;
    var to, dst := RulesAt(engine, dstNsId).ingress, RulesAt(engine, req.dstID).ingress;
    out := DirectionRules(from.allow + src.allow, from.deny + src.deny);
    into := DirectionRules(to.allow + dst.allow, to.deny + dst.deny);
  }

  lemma BlocksOnFields(cache: Cache, engine: Engine, req: Request)
    ensures Judge(cache, engine, req).status != StatusDeny <==>
      exists srcNsId, dstNsId, out, into :: Lets(cache, engine, req, srcNsId, dstNsId, out, into)
  {
    hide Judge, AreEgress, AreIngress, IsNsNode, ReasonByFields;
    var srcNsId, dstNsId, out, into := SidesOf(cache, engine, req);
    JudgeOnFields(cache, engine, req, srcNsId, dstNsId, out, into);
    if s, d, o, i :| Lets(cache, engine, req, s, d, o, i) {
      JudgeOnFields(cache, engine, req, s, d, o, i);
    }
    assert Judge(cache, engine, req).status != StatusDeny ==> Lets(cache, engine, req, srcNsId, dstNsId, out, into);
  }

  /** The path is allowed exactly when every engine's rules let it through, and the engines that block
      it are those whose rules do not. */
  lemma PathOnFields(cache: Cache, req: Request, r: ReachabilityResult)
    requires Answers(cache, req, r)
    ensures r.allowed <==> forall name :: name in cache.engines ==>
      exists s, d, out, into :: Lets(cache, cache.engines[name], req, s, d, out, into)
    ensures forall name :: name in r.blockedBy <==>
      name in cache.engines && !exists s, d, out, into :: Lets(cache, cache.engines[name], req, s, d, out, into)
  {
    hide Judge, Lets;
    forall name | name in cache.engines
      ensures Blocks(cache, name, req) <==>
        !exists s, d, out, into :: Lets(cache, cache.engines[name], req, s, d, out, into)
    {
      BlocksOnFields(cache, cache.engines[name], req);
    }
  }

  /** One deny of the other end, kept for either end or its namespace in any engine, blocks the path. */
  lemma RefusedPathIsBlocked(cache: Cache, req: Request, r: ReachabilityResult, name: string, deny: Rule)
    requires Answers(cache, req, r) && name in cache.engines
    requires deny.coverage != CoverageDenyAll && deny.coverage != CoverageExcept
    requires || (EgressRule(cache, cache.engines[name], req, ActionDeny, deny) && deny.dstID == req.dstID)
             || (IngressRule(cache, cache.engines[name], req, ActionDeny, deny) && deny.srcID == req.srcID)
    ensures !r.allowed && name in r.blockedBy
  {
    var engine := cache.engines[name];
    var srcNsId, dstNsId, out, into := SidesOf(cache, engine, req);
    JudgeOnFields(cache, engine, req, srcNsId, dstNsId, out, into);
    hide Judge, ReasonByFields, EgressRule, IngressRule, IsNsNode;
    if deny in out.deny && deny.dstID == req.dstID {
      NamedIsRefused(Query(cache.parse, cache.nodes, Egress, req.dstID, dstNsId), out.allow, out.deny, deny);
    } else {
      NamedIsRefused(Query(cache.parse, cache.nodes, Ingress, req.srcID, srcNsId), into.allow, into.deny, deny);
    }
    assert Blocks(cache, name, req);
  }

  lemma NamedIsRefused(q: Query, allows: seq<Rule>, denies: seq<Rule>, deny: Rule)
    requires deny in denies && deny.coverage != CoverageDenyAll && deny.coverage != CoverageExcept
    requires PointsAt(deny, q.direction, q.peerID)
    ensures ReasonByFields(q, allows, denies) == ReasonExplicitDeny
  {
    assert Refuses(q, allows, deny);
    hide Refuses;
  }

  // ----- layering -----

  ghost predicate ClusterRange(node: WorkloadNode) {
    node.nodeType == CidrNode && node.cidrType in {PodCidr, ServiceCidr}
  }

  ghost predicate KeptUnder(e: Engine, ns: string, rule: Rule) {
    ns != "" && ns in e.allowByNs && rule in e.allowByNs[ns]
  }

  /** An allow of the engine, kept under either namespace, between two different known nodes of the
      two namespaces that are not both namespace nodes; and its own path is open. */
  ghost predicate LiveFinerRule(cache: Cache, e: Engine, srcNs: string, dstNs: string, rule: Rule) {
    && (KeptUnder(e, srcNs, rule) || KeptUnder(e, dstNs, rule))
    && rule.action == ActionAllow && rule.srcID in cache.nodes && rule.dstID in cache.nodes
    && cache.nodes[rule.srcID].id != cache.nodes[rule.dstID].id
    && cache.nodes[rule.srcID].namespace == srcNs && cache.nodes[rule.dstID].namespace == dstNs
    && !(cache.nodes[rule.srcID].nodeType == NamespaceNode && cache.nodes[rule.dstID].nodeType == NamespaceNode)
    && forall name :: name in cache.engines ==>
         Judge(cache, cache.engines[name], Request(rule.srcID, srcNs, rule.dstID, dstNs)).status != StatusDeny
  }

  /** A pair is layered where a cluster range takes part, or where one end is a namespace and the
      engine has a finer rule that is live. */
  lemma LayeredOnFields(cache: Cache, engine: string, src: WorkloadNode, dst: WorkloadNode)
    ensures Layered(cache, engine, src, dst) <==>
      || ClusterRange(src) || ClusterRange(dst)
      || ((src.nodeType == NamespaceNode || dst.nodeType == NamespaceNode) && engine in cache.engines
          && exists rule :: LiveFinerRule(cache, cache.engines[engine], src.namespace, dst.namespace, rule))
  {
    hide Judge;
    if engine in cache.engines {
      forall rule
        ensures LiveFinerRule(cache, cache.engines[engine], src.namespace, dst.namespace, rule) <==>
          rule in FinerRules(cache, engine, src, dst)
          && Reaches(cache, Request(rule.srcID, src.namespace, rule.dstID, dst.namespace))
      {
        FinerOnFields(cache, cache.engines[engine], src.namespace, dst.namespace, rule);
      }
    }
    hide LiveFinerRule, FinerRules, Reaches;
    assert engine !in cache.engines ==> FinerRules(cache, engine, src, dst) == [];
  }

  lemma FinerOnFields(cache: Cache, e: Engine, srcNs: string, dstNs: string, rule: Rule)
    ensures LiveFinerRule(cache, e, srcNs, dstNs, rule) <==>
      && (rule in AllowsIn(e, srcNs) || rule in AllowsIn(e, dstNs)) && IsFiner(cache, rule, srcNs, dstNs)
      && Reaches(cache, Request(rule.srcID, srcNs, rule.dstID, dstNs))
  {
    hide Judge;
    var req := Request(rule.srcID, srcNs, rule.dstID, dstNs);
    assert forall name :: name in cache.engines ==>
      (Blocks(cache, name, req) <==> Judge(cache, cache.engines[name], req).status == StatusDeny);
    assert Reaches(cache, req) <==>
      forall name :: name in cache.engines ==> Judge(cache, cache.engines[name], req).status != StatusDeny;
  }
}
