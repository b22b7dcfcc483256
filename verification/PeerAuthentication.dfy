// Istio's PeerAuthentication precedence: workload over namespace over mesh, oldest first.
module PeerAuthentication {
  import opened Wrappers
  import opened StringOrder
  import opened Sorting
  import opened Models
  import LabelIndex

  datatype MeshScope = MeshUnset | MeshDisable | MeshStrict | MeshPermissive

  /** Modes are already mapped to scopes; one that is not set explicitly is MeshUnset. */
  datatype PeerAuth = PeerAuth(
    name: string, namespace: string, created: int, selector: Option<map<string, string>>,
    mode: MeshScope, portModes: map<int, MeshScope>)

  datatype MtlsState = MtlsState(
    verdict: MeshScope, effective: Option<PeerAuth>, portOverrides: map<int, MeshScope>)

  const ROOT_NAMESPACE := "istio-system"

  // ----- oldest first -----

  predicate OldestFirst(a: PeerAuth, b: PeerAuth) {
    if a.created == b.created then AtMost(a.name, b.name) else a.created < b.created
  }

  lemma OldestFirstIsAnOrder()
    ensures TotalPreorder(OldestFirst)
  {
    forall a, b
      ensures OldestFirst(a, b) || OldestFirst(b, a)
    {
      Trichotomy(a.name, b.name);
    }
    forall a, b, c | OldestFirst(a, b) && OldestFirst(b, c)
      ensures OldestFirst(a, c)
    {
      if a.created == b.created == c.created {
        AtMostIsTransitive(a.name, b.name, c.name);
      }
    }
  }

  /** Created before, or at the same time under no later name. */
  ghost predicate Older(a: PeerAuth, b: PeerAuth) {
    a.created < b.created || (a.created == b.created && !Less(b.name, a.name))
  }

  // ----- buckets -----

  predicate MatchesWorkload(pa: PeerAuth, workload: WorkloadNode) {
    pa.selector.Some? && LabelIndex.LabelsMatch(pa.selector.value, workload.labels)
  }

  datatype Bucket = WorkloadBucket | NamespaceBucket | MeshBucket | NoBucket

  /** Where a policy of the workload's own namespace goes. */
  function OwnBucket(pa: PeerAuth, workload: WorkloadNode): Bucket {
    if pa.selector.None? then NamespaceBucket
    else if MatchesWorkload(pa, workload) then WorkloadBucket
    else NoBucket
  }

  /** A selector keeps a root policy local to the root namespace. */
  function RootBucket(pa: PeerAuth, workload: WorkloadNode): Bucket {
    if pa.selector.None? then MeshBucket
    else if workload.namespace == ROOT_NAMESPACE && MatchesWorkload(pa, workload) then WorkloadBucket
    else NoBucket
  }

  function BucketOf(root: bool, pa: PeerAuth, workload: WorkloadNode): Bucket {
    if root then RootBucket(pa, workload) else OwnBucket(pa, workload)
  }

  function Select(root: bool, pas: seq<PeerAuth>, workload: WorkloadNode, b: Bucket): (r: seq<PeerAuth>)
    ensures forall pa :: pa in r <==> pa in pas && BucketOf(root, pa, workload) == b
  {
    if pas == [] then []
    else
      var last := pas[|pas| - 1];
      Select(root, pas[..|pas| - 1], workload, b) + if BucketOf(root, last, workload) == b then [last] else []
  }

  /** The matching policies in order of precedence. */
  function Ranked(workload: WorkloadNode, own: seq<PeerAuth>, root: seq<PeerAuth>): seq<PeerAuth> {
    (Select(false, own, workload, WorkloadBucket) + Select(true, root, workload, WorkloadBucket))
    + (Select(false, own, workload, NamespaceBucket) + Select(true, root, workload, MeshBucket))
  }

  // ----- picking -----

  /** The mode of a policy for the workload (no port) or for one of its ports. */
  function ModeFor(pa: PeerAuth, port: Option<int>): MeshScope {
    match port
    case None => pa.mode
    case Some(p) => if p in pa.portModes then pa.portModes[p] else MeshUnset
  }

  function FirstExplicit(pas: seq<PeerAuth>, port: Option<int>): Option<PeerAuth> {
    if pas == [] then None
    else if ModeFor(pas[0], port) != MeshUnset then Some(pas[0])
    else FirstExplicit(pas[1..], port)
  }

  lemma {:induction false} FirstOfConcatenation(a: seq<PeerAuth>, b: seq<PeerAuth>, port: Option<int>)
    ensures FirstExplicit(a + b, port)
         == if FirstExplicit(a, port).Some? then FirstExplicit(a, port) else FirstExplicit(b, port)
  {
    if a == [] {
      assert a + b == b;
    } else {
      assert (a + b)[1..] == a[1..] + b;
      FirstOfConcatenation(a[1..], b, port);
    }
  }

  function ScopeOf(pa: Option<PeerAuth>, port: Option<int>): MeshScope {
    if pa.Some? then ModeFor(pa.value, port) else MeshUnset
  }

  function ExplicitPorts(pas: seq<PeerAuth>): set<int> {
    set pa, p | pa in pas && p in pa.portModes && pa.portModes[p] != MeshUnset :: p
  }

  /** What the resolution yields, given lists sorted oldest first. */
  function Resolved(workload: WorkloadNode, own: seq<PeerAuth>, root: seq<PeerAuth>): MtlsState {
    var ranked := Ranked(workload, own, root);
    var effective := FirstExplicit(ranked, None);
    MtlsState(
      if effective.Some? then effective.value.mode else MeshPermissive,
      effective,
      map p | p in ExplicitPorts(ranked) :: ScopeOf(FirstExplicit(ranked, Some(p)), Some(p)))
  }

  // ----- the program's loops -----

  /** Both lists may be one: the second sort then finds it sorted. */
  method ResolveMtls(workload: WorkloadNode, nsPAs: array<PeerAuth>, rootPAs: array<PeerAuth>)
    returns (state: MtlsState)
    modifies nsPAs, rootPAs
    ensures nsPAs[..] == StableSort(old(nsPAs[..]), OldestFirst)
    ensures rootPAs[..] == StableSort(old(rootPAs[..]), OldestFirst)
    ensures state == Resolved(workload, nsPAs[..], rootPAs[..])
  {
    SortByCreation(nsPAs);
    SortedSame(old(nsPAs[..]));
    StableSortFixes(nsPAs[..], OldestFirst);
    SortByCreation(rootPAs);
    state := ResolveSorted(workload, nsPAs[..], rootPAs[..]);
  }

  method ResolveSorted(workload: WorkloadNode, own: seq<PeerAuth>, root: seq<PeerAuth>) returns (state: MtlsState)
    ensures state == Resolved(workload, own, root)
  {
    hide Select, FirstExplicit, ExplicitPorts, Concat;
    var workloadPAs := SelectLoop(false, own, workload, WorkloadBucket);
    var nsScopedPAs := SelectLoop(false, own, workload, NamespaceBucket);
    var rootSelected := SelectLoop(true, root, workload, WorkloadBucket);
    var meshPAs := SelectLoop(true, root, workload, MeshBucket);
    workloadPAs := workloadPAs + rootSelected;
    var buckets := [workloadPAs, nsScopedPAs, meshPAs];
    ConcatThree(workloadPAs, nsScopedPAs, meshPAs);
    var effective := PickVerdict(buckets);
    var overrides := ResolvePortOverrides(buckets);
    state := MtlsState(if effective.Some? then effective.value.mode else MeshPermissive, effective, overrides);
  }

  method SortByCreation(pas: array<PeerAuth>)
    modifies pas
    ensures pas[..] == StableSort(old(pas[..]), OldestFirst)
    ensures multiset(pas[..]) == multiset(old(pas[..]))
    ensures forall i, j :: 0 <= i < j < pas.Length ==> Older(pas[i], pas[j])
  {
    SortedOnFields(pas[..]);
    hide StableSort;
    assert pas[..] == pas[..pas.Length];
    SortInPlace(pas, pas.Length, OldestFirst);
    assert pas[..] == pas[..pas.Length];
    assert forall i :: 0 <= i < pas.Length ==> pas[i] == pas[..][i];
  }

  lemma SortedOnFields(pas: seq<PeerAuth>)
    ensures var sorted := StableSort(pas, OldestFirst);
            multiset(sorted) == multiset(pas) && forall i, j :: 0 <= i < j < |sorted| ==> Older(sorted[i], sorted[j])
  {
    OldestFirstIsAnOrder();
    StableSortSorts(pas, OldestFirst);
    hide StableSort;
  }

  method SelectLoop(root: bool, pas: seq<PeerAuth>, workload: WorkloadNode, b: Bucket) returns (r: seq<PeerAuth>)
    ensures r == Select(root, pas, workload, b)
  {
    r := [];
    for i := 0 to |pas|
      invariant r == Select(root, pas[..i], workload, b)
    {
      assert pas[..i + 1][..i] == pas[..i];
      if BucketOf(root, pas[i], workload) == b {
        r := r + [pas[i]];
      }
    }
    assert pas[..|pas|] == pas;
  }

  function Concat(buckets: seq<seq<PeerAuth>>): seq<PeerAuth> {
    if buckets == [] then [] else buckets[0] + Concat(buckets[1..])
  }

  lemma ConcatThree(a: seq<PeerAuth>, b: seq<PeerAuth>, c: seq<PeerAuth>)
    ensures Concat([a, b, c]) == a + (b + c)
  {
    assert [a, b, c][1..] == [b, c] && [b, c][1..] == [c] && [c][1..] == [];
    assert Concat([c]) == c;
  }

  /** Bucket by bucket, the first policy with an explicit mode. */
  method PickVerdict(buckets: seq<seq<PeerAuth>>) returns (winner: Option<PeerAuth>)
    ensures winner == FirstExplicit(Concat(buckets), None)
  {
    for i := 0 to |buckets|
      invariant FirstExplicit(Concat(buckets[i..]), None) == FirstExplicit(Concat(buckets), None)
    {
      assert buckets[i..][0] == buckets[i] && buckets[i..][1..] == buckets[i + 1..];
      FirstOfConcatenation(buckets[i], Concat(buckets[i + 1..]), None);
      var first := PickInBucket(buckets[i], None);
      if first.Some? {
        return first;
      }
    }
    winner := None;
  }

  method PickInBucket(bucket: seq<PeerAuth>, port: Option<int>) returns (first: Option<PeerAuth>)
    ensures first == FirstExplicit(bucket, port)
  {
    for i := 0 to |bucket|
      invariant FirstExplicit(bucket[i..], port) == FirstExplicit(bucket, port)
    {
      assert bucket[i..][0] == bucket[i] && bucket[i..][1..] == bucket[i + 1..];
      if ModeFor(bucket[i], port) != MeshUnset {
        return Some(bucket[i]);
      }
    }
    first := None;
  }

  function ReferencedPorts(pas: seq<PeerAuth>): set<int> {
    set pa, p | pa in pas && p in pa.portModes :: p
  }

  /** Every port that some matching policy mentions is walked; one that stays unset is left out. */
  method ResolvePortOverrides(buckets: seq<seq<PeerAuth>>) returns (out: map<int, MeshScope>)
    ensures var ranked := Concat(buckets);
      out == map p | p in ExplicitPorts(ranked) :: ScopeOf(FirstExplicit(ranked, Some(p)), Some(p))
  {
    ghost var ranked := Concat(buckets);
    var pending := SeenPorts(buckets);
    out := map[];
    while pending != {}
      invariant pending <= ReferencedPorts(ranked)
      invariant forall p :: p in out <==> p in ExplicitPorts(ranked) && p !in pending
      invariant forall p :: p in out ==> out[p] == ScopeOf(FirstExplicit(ranked, Some(p)), Some(p))
      decreases |pending|
    {
      var port :| port in pending;
      var scope := WalkPort(buckets, port);
      ExplicitIffFound(ranked, port);
      if scope != MeshUnset {
        out := out[port := scope];
      }
      pending := pending - {port};
    }
  }

  method SeenPorts(buckets: seq<seq<PeerAuth>>) returns (seen: set<int>)
    ensures seen == ReferencedPorts(Concat(buckets))
  {
    seen := {};
    for i := 0 to |buckets|
      invariant seen + ReferencedPorts(Concat(buckets[i..])) == ReferencedPorts(Concat(buckets))
    {
      assert buckets[i..][0] == buckets[i] && buckets[i..][1..] == buckets[i + 1..];
      assert forall pa :: pa in Concat(buckets[i..]) <==> pa in buckets[i] || pa in Concat(buckets[i + 1..]);
      seen := seen + ReferencedPorts(buckets[i]);
    }
    assert buckets[|buckets|..] == [];
  }

  method WalkPort(buckets: seq<seq<PeerAuth>>, port: int) returns (scope: MeshScope)
    ensures scope == ScopeOf(FirstExplicit(Concat(buckets), Some(port)), Some(port))
  {
    for i := 0 to |buckets|
      invariant FirstExplicit(Concat(buckets[i..]), Some(port)) == FirstExplicit(Concat(buckets), Some(port))
    {
      assert buckets[i..][0] == buckets[i] && buckets[i..][1..] == buckets[i + 1..];
      FirstOfConcatenation(buckets[i], Concat(buckets[i + 1..]), Some(port));
      var first := PickInBucket(buckets[i], Some(port));
      if first.Some? {
        return ModeFor(first.value, Some(port));
      }
    }
    scope := MeshUnset;
  }

  lemma {:induction false} ExplicitIffFound(pas: seq<PeerAuth>, port: int)
    ensures port in ExplicitPorts(pas) <==> FirstExplicit(pas, Some(port)).Some?
    ensures ScopeOf(FirstExplicit(pas, Some(port)), Some(port)) != MeshUnset <==> FirstExplicit(pas, Some(port)).Some?
  {
    if pas != [] {
      ExplicitIffFound(pas[1..], port);
      assert forall pa :: pa in pas <==> pa == pas[0] || pa in pas[1..];
    }
  }

  // ----- the winner is an argmin -----

  /** Smaller is stronger. */
  function Rank(b: Bucket): nat {
    match b
    case WorkloadBucket => 0
    case NamespaceBucket => 1
    case MeshBucket => 2
    case NoBucket => 3
  }

  /** A policy that matches the workload, from its own list or the root list, and sets the mode. */
  ghost predicate Candidate(
      workload: WorkloadNode, own: seq<PeerAuth>, root: seq<PeerAuth>, port: Option<int>, isRoot: bool, pa: PeerAuth)
  {
    pa in (if isRoot then root else own) && BucketOf(isRoot, pa, workload) != NoBucket && ModeFor(pa, port) != MeshUnset
  }

  ghost predicate Beats(workload: WorkloadNode, isRoot: bool, pa: PeerAuth, isRoot': bool, pa': PeerAuth) {
    var r, r' := Rank(BucketOf(isRoot, pa, workload)), Rank(BucketOf(isRoot', pa', workload));
    r < r' || (r == r' && OldestFirst(pa, pa'))
  }

  /** The candidate that is least by scope, then age, then name. */
  ghost predicate IsWinner(
      workload: WorkloadNode, own: seq<PeerAuth>, root: seq<PeerAuth>, port: Option<int>, isRoot: bool, pa: PeerAuth)
  {
    && Candidate(workload, own, root, port, isRoot, pa)
    && forall isRoot', pa' ::
         Candidate(workload, own, root, port, isRoot', pa') ==> Beats(workload, isRoot, pa, isRoot', pa')
  }

  lemma {:induction false} FirstInSorted(pas: seq<PeerAuth>, port: Option<int>)
    requires SortedBy(pas, OldestFirst)
    ensures var w := FirstExplicit(pas, port);
            if w.Some? then
              w.value in pas && ModeFor(w.value, port) != MeshUnset
              && forall pa :: pa in pas && ModeFor(pa, port) != MeshUnset ==> OldestFirst(w.value, pa)
            else forall pa :: pa in pas ==> ModeFor(pa, port) == MeshUnset
  {
    if pas != [] {
      OldestFirstIsAnOrder();
      hide OldestFirst;
      assert forall pa :: pa in pas <==> pa == pas[0] || pa in pas[1..];
      FirstInSorted(pas[1..], port);
      assert forall i :: 0 < i < |pas| ==> OldestFirst(pas[0], pas[i]);
    }
  }

  lemma {:induction false} SelectKeepsSorted(root: bool, pas: seq<PeerAuth>, workload: WorkloadNode, b: Bucket)
    requires SortedBy(pas, OldestFirst)
    ensures SortedBy(Select(root, pas, workload, b), OldestFirst)
  {
    hide OldestFirst, BucketOf;
    if pas != [] {
      var init := pas[..|pas| - 1];
      SelectKeepsSorted(root, init, workload, b);
      var r := Select(root, init, workload, b);
      forall i | 0 <= i < |r|
        ensures OldestFirst(r[i], pas[|pas| - 1])
      {
        assert r[i] in r && r[i] in init;
      }
    }
  }

  /** The two lists are the policies of two namespaces, or of the root namespace both. */
  ghost predicate Fetched(workload: WorkloadNode, own: seq<PeerAuth>, root: seq<PeerAuth>) {
    workload.namespace == ROOT_NAMESPACE ==> forall pa :: pa in own <==> pa in root
  }

  /** The first explicit policy of the ranked list is the winner. */
  lemma FirstIsWinner(workload: WorkloadNode, own: seq<PeerAuth>, root: seq<PeerAuth>, port: Option<int>)
    requires Fetched(workload, own, root)
    requires SortedBy(own, OldestFirst) && SortedBy(root, OldestFirst)
    ensures var w := FirstExplicit(Ranked(workload, own, root), port);
            if w.Some? then exists isRoot :: IsWinner(workload, own, root, port, isRoot, w.value)
            else forall isRoot, pa :: !Candidate(workload, own, root, port, isRoot, pa)
  {
    hide Ranked, Select, FirstExplicit, OldestFirst;
    var selected := Select(false, own, workload, WorkloadBucket);
    var scoped := Select(false, own, workload, NamespaceBucket);
    var mesh := Select(true, root, workload, MeshBucket);
    SelectKeepsSorted(false, own, workload, WorkloadBucket);
    SelectKeepsSorted(false, own, workload, NamespaceBucket);
    SelectKeepsSorted(true, root, workload, MeshBucket);
    FirstOfRanked(workload, own, root, port);
    FirstInSorted(selected, port);
    FirstInSorted(scoped, port);
    FirstInSorted(mesh, port);
    CandidateCases(workload, own, root, port);
    hide Candidate, Fetched;
    var w := FirstExplicit(Ranked(workload, own, root), port);
    if w.Some? {
      var isRoot := FirstExplicit(selected, port).None? && FirstExplicit(scoped, port).None?;
      assert IsWinner(workload, own, root, port, isRoot, w.value);
    }
  }

  /** What the root list adds to the workload bucket is already there. */
  lemma RootSelectsNoOther(workload: WorkloadNode, own: seq<PeerAuth>, root: seq<PeerAuth>)
    requires Fetched(workload, own, root)
    ensures forall pa :: pa in Select(true, root, workload, WorkloadBucket) ==>
      pa in Select(false, own, workload, WorkloadBucket)
  {
  }

  lemma FirstOfRanked(workload: WorkloadNode, own: seq<PeerAuth>, root: seq<PeerAuth>, port: Option<int>)
    requires Fetched(workload, own, root)
    ensures var selected := FirstExplicit(Select(false, own, workload, WorkloadBucket), port);
            var scoped := FirstExplicit(Select(false, own, workload, NamespaceBucket), port);
            FirstExplicit(Ranked(workload, own, root), port)
            == if selected.Some? then selected
               else if scoped.Some? then scoped
               else FirstExplicit(Select(true, root, workload, MeshBucket), port)
  {
    hide Select, FirstExplicit;
    var selected := Select(false, own, workload, WorkloadBucket);
    var again := Select(true, root, workload, WorkloadBucket);
    var scoped := Select(false, own, workload, NamespaceBucket);
    var mesh := Select(true, root, workload, MeshBucket);
    FirstOfConcatenation(selected + again, scoped + mesh, port);
    FirstOfConcatenation(selected, again, port);
    FirstOfConcatenation(scoped, mesh, port);
    RootSelectsNoOther(workload, own, root);
    FirstIsExplicit(selected, port);
    FirstIsExplicit(again, port);
  }

  lemma {:induction false} FirstIsExplicit(pas: seq<PeerAuth>, port: Option<int>)
    ensures FirstExplicit(pas, port).Some? <==> exists pa :: pa in pas && ModeFor(pa, port) != MeshUnset
  {
    if pas != [] {
      FirstIsExplicit(pas[1..], port);
      assert forall pa :: pa in pas <==> pa == pas[0] || pa in pas[1..];
    }
  }

  lemma CandidateCases(workload: WorkloadNode, own: seq<PeerAuth>, root: seq<PeerAuth>, port: Option<int>)
    requires Fetched(workload, own, root)
    ensures forall pa :: Candidate(workload, own, root, port, true, pa) ==>
      (pa in Select(true, root, workload, MeshBucket) || pa in Select(false, own, workload, WorkloadBucket))
      && ModeFor(pa, port) != MeshUnset
    ensures forall pa ::
      pa in Select(true, root, workload, MeshBucket) && ModeFor(pa, port) != MeshUnset ==>
        Candidate(workload, own, root, port, true, pa)
    ensures forall pa :: Candidate(workload, own, root, port, false, pa) <==>
      (pa in Select(false, own, workload, WorkloadBucket) || pa in Select(false, own, workload, NamespaceBucket))
      && ModeFor(pa, port) != MeshUnset
  {
  }

  /** The resolution of a workload: the effective policy is the winner, and without any explicit
      mode the verdict is permissive; a port has an override exactly when some matching policy sets
      it explicitly, and then that port's winner's. */
  lemma ResolutionIsArgmin(workload: WorkloadNode, nsPAs: seq<PeerAuth>, rootPAs: seq<PeerAuth>, port: int)
    requires Fetched(workload, nsPAs, rootPAs)
    ensures var own, root := StableSort(nsPAs, OldestFirst), StableSort(rootPAs, OldestFirst);
            var state := Resolved(workload, own, root);
            && (if state.effective.Some? then
                  state.verdict == state.effective.value.mode
                  && exists isRoot :: IsWinner(workload, nsPAs, rootPAs, None, isRoot, state.effective.value)
                else
                  state.verdict == MeshPermissive
                  && forall isRoot, pa :: !Candidate(workload, nsPAs, rootPAs, None, isRoot, pa))
            && (if port in state.portOverrides then
                  exists isRoot, pa :: IsWinner(workload, nsPAs, rootPAs, Some(port), isRoot, pa)
                                       && state.portOverrides[port] == pa.portModes[port]
                else forall isRoot, pa :: !Candidate(workload, nsPAs, rootPAs, Some(port), isRoot, pa))
  {
    var own, root := StableSort(nsPAs, OldestFirst), StableSort(rootPAs, OldestFirst);
    SortedSame(nsPAs);
    SortedSame(rootPAs);
    hide Ranked, StableSort, OldestFirst, BucketOf, FirstExplicit;
    FirstIsWinner(workload, own, root, None);
    FirstIsWinner(workload, own, root, Some(port));
    ExplicitIffFound(Ranked(workload, own, root), port);
    hide ExplicitPorts;
    SameCandidates(workload, nsPAs, rootPAs, own, root, None);
    SameCandidates(workload, nsPAs, rootPAs, own, root, Some(port));
  }

  lemma SortedSame(pas: seq<PeerAuth>)
    ensures var s := StableSort(pas, OldestFirst); SortedBy(s, OldestFirst) && forall pa :: pa in s <==> pa in pas
  {
    OldestFirstIsAnOrder();
    var s := StableSort(pas, OldestFirst);
    StableSortSorts(pas, OldestFirst);
    forall pa
      ensures pa in s <==> pa in pas
    {
      assert pa in s <==> pa in multiset(s);
      assert pa in pas <==> pa in multiset(pas);
    }
  }

  lemma SameCandidates(
      workload: WorkloadNode, own: seq<PeerAuth>, root: seq<PeerAuth>, own': seq<PeerAuth>, root': seq<PeerAuth>,
      port: Option<int>)
    requires (forall pa :: pa in own <==> pa in own') && (forall pa :: pa in root <==> pa in root')
    ensures forall isRoot, pa ::
      IsWinner(workload, own, root, port, isRoot, pa) <==> IsWinner(workload, own', root', port, isRoot, pa)
    ensures forall isRoot, pa ::
      Candidate(workload, own, root, port, isRoot, pa) <==> Candidate(workload, own', root', port, isRoot, pa)
  {
    hide BucketOf, ModeFor, Beats;
  }

  /** With (creation, name) unique in each list, the input order does not matter. */
  lemma ResolutionIsOrderFree(
      workload: WorkloadNode, nsPAs: seq<PeerAuth>, rootPAs: seq<PeerAuth>,
      nsPAs': seq<PeerAuth>, rootPAs': seq<PeerAuth>)
    requires multiset(nsPAs) == multiset(nsPAs') && multiset(rootPAs) == multiset(rootPAs')
    requires UniqueAges(nsPAs) && UniqueAges(rootPAs)
    ensures Resolved(workload, StableSort(nsPAs, OldestFirst), StableSort(rootPAs, OldestFirst))
         == Resolved(workload, StableSort(nsPAs', OldestFirst), StableSort(rootPAs', OldestFirst))
  {
    UniqueMeansNoTies(nsPAs);
    UniqueMeansNoTies(rootPAs);
    OldestFirstIsAnOrder();
    StableSortIsOrderFree(nsPAs, nsPAs', OldestFirst);
    StableSortIsOrderFree(rootPAs, rootPAs', OldestFirst);
  }

  ghost predicate UniqueAges(pas: seq<PeerAuth>) {
    forall a, b :: a in pas && b in pas && a.created == b.created && a.name == b.name ==> a == b
  }

  lemma UniqueMeansNoTies(pas: seq<PeerAuth>)
    requires UniqueAges(pas)
    ensures NoTies(multiset(pas), OldestFirst)
  {
    forall a, b | a in multiset(pas) && b in multiset(pas) && OldestFirst(a, b) && OldestFirst(b, a)
      ensures a == b
    {
      Trichotomy(a.name, b.name);
      assert a in pas && b in pas;
    }
  }
}
