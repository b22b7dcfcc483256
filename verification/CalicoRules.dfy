// From the winner of every bucket to the rules of a workload.
module CalicoRules {
  import opened Wrappers
  import opened Cidr
  import opened Models
  import opened CalicoIndex
  import opened CalicoBuild

  datatype Edge = Edge(cidr: string, port: Port, action: RuleAction, winner: PolicyRef, namespaceWide: bool)
  {
    function Key(): Bucket {
      Bucket(cidr, port)
    }
  }

  function EdgeFor(b: Bucket, c: Candidate): Edge {
    Edge(b.cidr, b.port, c.action, c.winner, c.selectsAll)
  }

  // ----- resolving a direction -----

  /** The edge of every bucket that has a winner, in bucket order. */
  function ResolvedEdges(
      node: WorkloadNode, buckets: seq<Bucket>, candidates: map<Bucket, seq<Candidate>>): seq<Edge> {
    if buckets == [] then []
    else
      var last := |buckets| - 1;
      ResolvedEdges(node, buckets[..last], candidates)
      + match WinnerByIndex(Lookup(candidates, buckets[last]), node)
        case Some(c) => [EdgeFor(buckets[last], c)]
        case None => []
  }

  method ResolveDirection(node: WorkloadNode, buckets: seq<Bucket>, candidates: map<Bucket, seq<Candidate>>)
    returns (edges: seq<Edge>)
    ensures edges == DropRestated(ResolvedEdges(node, buckets, candidates))
  {
    edges := [];
    for i := 0 to |buckets|
      invariant edges == ResolvedEdges(node, buckets[..i], candidates)
    {
      assert buckets[..i + 1][..i] == buckets[..i];
      var list := Lookup(candidates, buckets[i]);
      var winner := FirstSelecting(list, node);
      if winner.Some? {
        edges := edges + [EdgeFor(buckets[i], winner.value)];
      }
    }
    assert buckets[..|buckets|] == buckets;
    edges := DropRestatedEdges(edges);
  }

  method FirstSelecting(candidates: seq<Candidate>, node: WorkloadNode) returns (winner: Option<Candidate>)
    ensures winner == WinnerByIndex(candidates, node)
  {
    for i := 0 to |candidates|
      invariant WinnerByIndex(candidates[i..], node) == WinnerByIndex(candidates, node)
    {
      assert candidates[i..][0] == candidates[i] && candidates[i..][1..] == candidates[i + 1..];
      if CandidateSelects(candidates[i], node) {
        return Some(candidates[i]);
      }
    }
    winner := None;
  }

  // ----- dropping restated edges -----

  /** The direction-wide edge, if the list has one. */
  function DirectionWide(edges: seq<Edge>): (r: Option<Edge>)
    ensures r.Some? ==> r.value in edges && r.value.Key() == DIRECTION_WIDE
    ensures r.None? ==> forall e :: e in edges ==> e.Key() != DIRECTION_WIDE
  {
    if edges == [] then None
    else if edges[0].Key() == DIRECTION_WIDE then Some(edges[0])
    else DirectionWide(edges[1..])
  }

  predicate Restated(e: Edge, wide: Edge) {
    e.cidr != wide.cidr && e.port == wide.port && e.action == wide.action && e.winner == wide.winner
  }

  function WithoutRestated(edges: seq<Edge>, wide: Edge): (r: seq<Edge>)
    ensures forall e :: e in r <==> e in edges && !Restated(e, wide)
  {
    if edges == [] then []
    else
      var last := |edges| - 1;
      WithoutRestated(edges[..last], wide) + if Restated(edges[last], wide) then [] else [edges[last]]
  }

  function DropRestated(edges: seq<Edge>): seq<Edge> {
    match DirectionWide(edges)
    case None => edges
    case Some(wide) => WithoutRestated(edges, wide)
  }

  method DropRestatedEdges(edges: seq<Edge>) returns (kept: seq<Edge>)
    ensures kept == DropRestated(edges)
  {
    var wide: Option<Edge> := None;
    for i := 0 to |edges|
      invariant wide.None? && DirectionWide(edges[i..]) == DirectionWide(edges)
    {
      assert edges[i..][0] == edges[i] && edges[i..][1..] == edges[i + 1..];
      if edges[i].Key() == DIRECTION_WIDE {
        wide := Some(edges[i]);
        break;
      }
    }
    if wide.None? {
      return edges;
    }
    kept := [];
    for i := 0 to |edges|
      invariant kept == WithoutRestated(edges[..i], wide.value)
    {
      assert edges[..i + 1][..i] == edges[..i];
      if !Restated(edges[i], wide.value) {
        kept := kept + [edges[i]];
      }
    }
    assert edges[..|edges|] == edges;
  }

  /** What is dropped, exactly: an edge for all ports of some block, where an edge for all ports of
      every address has the same action and winner. */
  lemma DropsExactlyRestated(edges: seq<Edge>, e: Edge)
    requires DistinctKeys(edges)
    ensures e in DropRestated(edges) <==>
      e in edges && !(e.cidr != "0.0.0.0/0" && e.port == Port(0, 0, "", "") && exists wide ::
        wide in edges && wide.cidr == "0.0.0.0/0" && wide.port == Port(0, 0, "", "")
        && wide.action == e.action && wide.winner == e.winner)
  {
    if DirectionWide(edges).Some? {
      var w := DirectionWide(edges).value;
      forall wide | wide in edges && wide.Key() == DIRECTION_WIDE
        ensures wide == w
      {
      }
    }
  }

  /** No two edges for one (CIDR, port) pair. */
  ghost predicate DistinctKeys(edges: seq<Edge>) {
    forall i, j :: 0 <= i < j < |edges| ==> edges[i].Key() != edges[j].Key()
  }

  /** The policy that won decides whether the edge is namespace-wide. */
  ghost predicate WinnerDecidesScope(edges: seq<Edge>) {
    forall e, f :: e in edges && f in edges && e.winner == f.winner ==> e.namespaceWide == f.namespaceWide
  }

  function Keys(edges: seq<Edge>): (r: seq<Bucket>)
    ensures |r| == |edges|
  {
    if edges == [] then [] else Keys(edges[..|edges| - 1]) + [edges[|edges| - 1].Key()]
  }

  function EdgeAt(edges: seq<Edge>, key: Bucket): (r: Option<Edge>)
    ensures r.Some? ==> r.value in edges && r.value.Key() == key
    ensures r.None? ==> forall e :: e in edges ==> e.Key() != key
  {
    if edges == [] then None
    else if edges[0].Key() == key then Some(edges[0])
    else EdgeAt(edges[1..], key)
  }

  /** What the kept edges say about a pair that had a winner: the edge itself, or else the
      direction-wide edge moved to that pair's CIDR. */
  function Restore(kept: seq<Edge>, keys: seq<Bucket>): seq<Edge> {
    if keys == [] then []
    else Restore(kept, keys[..|keys| - 1]) + RestoredEdge(kept, keys[|keys| - 1])
  }

  function RestoredEdge(kept: seq<Edge>, key: Bucket): seq<Edge> {
    match EdgeAt(kept, key)
    case Some(e) => [e]
    case None => match DirectionWide(kept) case Some(wide) => [wide.(cidr := key.cidr)] case None => []
  }

  lemma {:induction false} DropKeepsDirectionWide(edges: seq<Edge>)
    requires DistinctKeys(edges)
    ensures DirectionWide(DropRestated(edges)) == DirectionWide(edges)
  {
    var kept := DropRestated(edges);
    match DirectionWide(edges) {
      case None =>
      case Some(wide) =>
        assert wide in kept;
        var w := DirectionWide(kept).value;
        assert w in edges && wide in edges;
    }
  }

  /** A second pass changes nothing. */
  lemma DropIsIdempotent(edges: seq<Edge>)
    requires DistinctKeys(edges)
    ensures DropRestated(DropRestated(edges)) == DropRestated(edges)
  {
    DropKeepsDirectionWide(edges);
    if DirectionWide(edges).Some? {
      var wide := DirectionWide(edges).value;
      NothingRestated(WithoutRestated(edges, wide), wide);
    }
  }

  lemma {:induction false} NothingRestated(edges: seq<Edge>, wide: Edge)
    requires forall e :: e in edges ==> !Restated(e, wide)
    ensures WithoutRestated(edges, wide) == edges
  {
    hide Restated;
    if edges != [] {
      var init, last := edges[..|edges| - 1], edges[|edges| - 1];
      assert edges == init + [last];
      NothingRestated(init, wide);
    }
  }

  /** Compression loses nothing: with the list of the pairs that had a winner, the kept edges
      give back every edge, in order. */
  lemma DropIsLossless(edges: seq<Edge>)
    requires DistinctKeys(edges) && WinnerDecidesScope(edges)
    ensures Restore(DropRestated(edges), Keys(edges)) == edges
  {
    DropKeepsDirectionWide(edges);
    RestorePrefix(edges, |edges|);
    assert edges[..|edges|] == edges;
  }

  lemma {:induction false} RestorePrefix(edges: seq<Edge>, n: nat)
    requires DistinctKeys(edges) && WinnerDecidesScope(edges) && n <= |edges|
    requires DirectionWide(DropRestated(edges)) == DirectionWide(edges)
    ensures Restore(DropRestated(edges), Keys(edges[..n])) == edges[..n]
  {
    hide DropRestated, DirectionWide, RestoredEdge, DistinctKeys, WinnerDecidesScope;
    if n == 0 {
      assert edges[..0] == [] && Keys([]) == [];
    } else {
      var e := edges[n - 1];
      RestorePrefix(edges, n - 1);
      RestoreOne(edges, e);
      KeysAppend(edges[..n - 1], e);
      RestoreAppend(DropRestated(edges), Keys(edges[..n - 1]), e.Key());
      hide Restore, Keys;
      assert edges[..n] == edges[..n - 1] + [e];
    }
  }

  lemma RestoreAppend(kept: seq<Edge>, keys: seq<Bucket>, key: Bucket)
    ensures Restore(kept, keys + [key]) == Restore(kept, keys) + RestoredEdge(kept, key)
  {
    assert (keys + [key])[..|keys|] == keys;
  }

  lemma KeysAppend(edges: seq<Edge>, e: Edge)
    ensures Keys(edges + [e]) == Keys(edges) + [e.Key()]
  {
    assert (edges + [e])[..|edges|] == edges;
  }

  lemma RestoreOne(edges: seq<Edge>, e: Edge)
    requires DistinctKeys(edges) && WinnerDecidesScope(edges) && e in edges
    requires DirectionWide(DropRestated(edges)) == DirectionWide(edges)
    ensures RestoredEdge(DropRestated(edges), e.Key()) == [e]
  {
    var kept := DropRestated(edges);
    forall f | f in kept && f.Key() == e.Key()
      ensures f == e
    {
      assert f in edges;
    }
  }

  // ----- edges of the index -----

  lemma {:induction false} ResolvedAreDistinct(
      node: WorkloadNode, buckets: seq<Bucket>, candidates: map<Bucket, seq<Candidate>>)
    requires Distinct(buckets)
    ensures var edges := ResolvedEdges(node, buckets, candidates);
            DistinctKeys(edges) && forall e :: e in edges ==> e.Key() in buckets
  {
    if buckets != [] {
      var last := |buckets| - 1;
      ResolvedAreDistinct(node, buckets[..last], candidates);
      assert forall b :: b in buckets[..last] ==> b in buckets && b != buckets[last];
    }
  }

  ghost predicate DistinctRefs(policies: seq<GlobalPolicy>) {
    forall p, q :: p in policies && q in policies && p.ref == q.ref ==> p == q
  }

  ghost predicate FromPolicies(c: Candidate, policies: seq<GlobalPolicy>) {
    exists p :: p in policies && c.winner == p.ref && c.selectsAll == p.selectsAllWorkloads
  }

  lemma {:induction false} CandidatesFromPolicies(
      parse: CidrParser, policies: seq<GlobalPolicy>, direction: Direction, bucket: Bucket)
    ensures forall c :: c in CandidatesFor(parse, policies, direction, bucket) ==> FromPolicies(c, policies)
  {
    if policies != [] {
      CandidatesFromPolicies(parse, policies[1..], direction, bucket);
      forall c | c in CandidatesFor(parse, policies, direction, bucket)
        ensures FromPolicies(c, policies)
      {
        if c in CandidatesFor(parse, policies[1..], direction, bucket) {
          var p :| p in policies[1..] && c.winner == p.ref && c.selectsAll == p.selectsAllWorkloads;
          assert p in policies;
        } else {
          assert policies[0] in policies && c.winner == policies[0].ref;
        }
      }
    }
  }

  lemma {:induction false} WinnerIsCandidate(candidates: seq<Candidate>, node: WorkloadNode)
    ensures var w := WinnerByIndex(candidates, node); w.Some? ==> w.value in candidates
  {
    if candidates != [] {
      WinnerIsCandidate(candidates[1..], node);
    }
  }

  lemma {:induction false} EdgesFromPolicies(
      parse: CidrParser, policies: seq<GlobalPolicy>, direction: Direction, node: WorkloadNode,
      buckets: seq<Bucket>, candidates: map<Bucket, seq<Candidate>>)
    requires forall b :: b in buckets ==> Lookup(candidates, b) == CandidatesFor(parse, policies, direction, b)
    ensures forall e :: e in ResolvedEdges(node, buckets, candidates) ==>
      exists p :: p in policies && e.winner == p.ref && e.namespaceWide == p.selectsAllWorkloads
  {
    if buckets != [] {
      var last := buckets[|buckets| - 1];
      EdgesFromPolicies(parse, policies, direction, node, buckets[..|buckets| - 1], candidates);
      assert last in buckets;
      CandidatesFromPolicies(parse, policies, direction, last);
      WinnerIsCandidate(Lookup(candidates, last), node);
      var w := WinnerByIndex(Lookup(candidates, last), node);
      assert w.Some? ==> FromPolicies(w.value, policies);
    }
  }

  /** The resolved edges of the index meet what lossless compression asks for. */
  lemma CompressionIsLossless(
      parse: CidrParser, policies: seq<GlobalPolicy>, nsLabels: map<string, string>,
      node: WorkloadNode, direction: Direction)
    requires DistinctRefs(NsSelecting(policies, nsLabels))
    ensures var cache := SelectionOf(parse, policies, nsLabels);
            var edges := ResolvedEdges(node, cache.Buckets(direction), cache.Candidates(direction));
            Restore(DropRestated(edges), Keys(edges)) == edges
            && DropRestated(DropRestated(edges)) == DropRestated(edges)
  {
    var cache := SelectionOf(parse, policies, nsLabels);
    var edges := ResolvedEdges(node, cache.Buckets(direction), cache.Candidates(direction));
    SelectionIsIndexed(parse, policies, nsLabels, direction);
    hide SelectionOf, NsSelecting, ResolvedEdges, DropRestated;
    ResolvedAreDistinct(node, cache.Buckets(direction), cache.Candidates(direction));
    EdgesFromPolicies(parse, cache.policies, direction, node, cache.Buckets(direction), cache.Candidates(direction));
    DropIsLossless(edges);
    DropIsIdempotent(edges);
  }
}
