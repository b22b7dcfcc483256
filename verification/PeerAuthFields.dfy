// The mutual TLS resolution on the fields of the policies: workload over namespace over mesh, and
// at each level the oldest policy that sets the mode.
module PeerAuthFields {
  import opened Wrappers
  import opened Sorting
  import opened Models
  import opened PeerAuthentication
  import LabelIndex

  /** A label that the workload lacks reads as the empty value. */
  ghost predicate SelectsByLabels(pa: PeerAuth, workload: WorkloadNode) {
    pa.selector.Some? && forall key :: key in pa.selector.value ==>
      (key in workload.labels && workload.labels[key] == pa.selector.value[key])
      || (key !in workload.labels && pa.selector.value[key] == "")
  }

  /** At which level a policy applies: 0 for the workload, 1 for its namespace, 2 for the mesh. A
      selector keeps a policy of the root list to workloads of the root namespace. */
  ghost predicate AppliesAt(workload: WorkloadNode, isRoot: bool, pa: PeerAuth, level: nat) {
    || (level == 0 && SelectsByLabels(pa, workload) && (isRoot ==> workload.namespace == "istio-system"))
    || (level == 1 && pa.selector.None? && !isRoot)
    || (level == 2 && pa.selector.None? && isRoot)
  }

  /** The policy sets the mode, of all ports or of the given one. */
  ghost predicate Sets(pa: PeerAuth, port: Option<int>, mode: MeshScope) {
    && mode != MeshUnset
    && match port
       case None => pa.mode == mode
       case Some(p) => p in pa.portModes && pa.portModes[p] == mode
  }

  ghost predicate Sources(own: seq<PeerAuth>, root: seq<PeerAuth>, isRoot: bool, pa: PeerAuth) {
    if isRoot then pa in root else pa in own
  }

  /** The policy applies and sets the mode, and whatever else applies and sets it is at a higher level
      or at the same one and no older. */
  ghost predicate Decides(
      workload: WorkloadNode, own: seq<PeerAuth>, root: seq<PeerAuth>, port: Option<int>, isRoot: bool, pa: PeerAuth,
      level: nat, mode: MeshScope)
  {
    && Sources(own, root, isRoot, pa) && AppliesAt(workload, isRoot, pa, level) && Sets(pa, port, mode)
    && forall isRoot', pa', level': nat, mode' ::
         Sources(own, root, isRoot', pa') && AppliesAt(workload, isRoot', pa', level') && Sets(pa', port, mode') ==>
           level < level' || (level == level' && Older(pa, pa'))
  }

  lemma LevelIsRank(workload: WorkloadNode, isRoot: bool, pa: PeerAuth, level: nat)
    ensures AppliesAt(workload, isRoot, pa, level) <==>
      BucketOf(isRoot, pa, workload) != NoBucket && Rank(BucketOf(isRoot, pa, workload)) == level
  {
    LabelsOnFields(pa, workload);
    assert SelectsByLabels(pa, workload) ==> pa.selector.Some?;
    hide MatchesWorkload, SelectsByLabels;
  }

  lemma LabelsOnFields(pa: PeerAuth, workload: WorkloadNode)
    ensures MatchesWorkload(pa, workload) <==> SelectsByLabels(pa, workload)
  {
  }

  lemma SetsIsMode(pa: PeerAuth, port: Option<int>, mode: MeshScope)
    ensures Sets(pa, port, mode) <==> mode != MeshUnset && ModeFor(pa, port) == mode
  {
  }

  lemma CandidateOnFields(
      workload: WorkloadNode, own: seq<PeerAuth>, root: seq<PeerAuth>, port: Option<int>, isRoot: bool, pa: PeerAuth)
    ensures Candidate(workload, own, root, port, isRoot, pa) <==>
      Sources(own, root, isRoot, pa)
      && exists level: nat, mode :: AppliesAt(workload, isRoot, pa, level) && Sets(pa, port, mode)
  {
    LevelIsRank(workload, isRoot, pa, Rank(BucketOf(isRoot, pa, workload)));
    SetsIsMode(pa, port, ModeFor(pa, port));
    forall level: nat
      ensures AppliesAt(workload, isRoot, pa, level) ==> BucketOf(isRoot, pa, workload) != NoBucket
    {
      LevelIsRank(workload, isRoot, pa, level);
    }
    forall mode
      ensures Sets(pa, port, mode) ==> ModeFor(pa, port) != MeshUnset
    {
      SetsIsMode(pa, port, mode);
    }
    hide AppliesAt, Sets, BucketOf, ModeFor, Rank;
  }

  lemma WinnerDecides(
      workload: WorkloadNode, own: seq<PeerAuth>, root: seq<PeerAuth>, port: Option<int>, isRoot: bool, pa: PeerAuth)
    requires IsWinner(workload, own, root, port, isRoot, pa)
    ensures Decides(workload, own, root, port, isRoot, pa, Rank(BucketOf(isRoot, pa, workload)), ModeFor(pa, port))
  {
    LevelIsRank(workload, isRoot, pa, Rank(BucketOf(isRoot, pa, workload)));
    SetsIsMode(pa, port, ModeFor(pa, port));
    CandidateOnFields(workload, own, root, port, isRoot, pa);
    hide AppliesAt, Sets, BucketOf, ModeFor, Rank, Sources;
    forall isRoot', pa', level': nat, mode'
      | Sources(own, root, isRoot', pa') && AppliesAt(workload, isRoot', pa', level') && Sets(pa', port, mode')
      ensures var level := Rank(BucketOf(isRoot, pa, workload));
              level < level' || (level == level' && Older(pa, pa'))
    {
      CandidateOnFields(workload, own, root, port, isRoot', pa');
      LevelIsRank(workload, isRoot', pa', level');
    }
  }

  /** The resolution of the workload: the effective policy decides the mode and the verdict is that
      mode, permissive where no policy decides; a port is overridden exactly where some policy decides
      its mode, to that mode. */
  lemma ResolutionOnFields(workload: WorkloadNode, nsPAs: seq<PeerAuth>, rootPAs: seq<PeerAuth>, port: int)
    requires workload.namespace == "istio-system" ==> forall pa :: pa in nsPAs <==> pa in rootPAs
    ensures var state := Resolved(workload, StableSort(nsPAs, OldestFirst), StableSort(rootPAs, OldestFirst));
            && (match state.effective
                case Some(pa) => exists isRoot, level ::
                  Decides(workload, nsPAs, rootPAs, None, isRoot, pa, level, state.verdict)
                case None => state.verdict == MeshPermissive && forall isRoot, pa, level, mode ::
                  !Decides(workload, nsPAs, rootPAs, None, isRoot, pa, level, mode))
            && (if port in state.portOverrides then exists isRoot, pa, level ::
                  Decides(workload, nsPAs, rootPAs, Some(port), isRoot, pa, level, state.portOverrides[port])
                else forall isRoot, pa, level, mode ::
                  !Decides(workload, nsPAs, rootPAs, Some(port), isRoot, pa, level, mode))
  {
    var state := Resolved(workload, StableSort(nsPAs, OldestFirst), StableSort(rootPAs, OldestFirst));
    ResolutionIsArgmin(workload, nsPAs, rootPAs, port);
    hide Resolved, Decides, IsWinner, BucketOf, Rank;
    if state.effective.Some? {
      var isRoot :| IsWinner(workload, nsPAs, rootPAs, None, isRoot, state.effective.value);
      WinnerDecides(workload, nsPAs, rootPAs, None, isRoot, state.effective.value);
    } else {
      NoneDecides(workload, nsPAs, rootPAs, None);
    }
    if port in state.portOverrides {
      var isRoot, pa :| IsWinner(workload, nsPAs, rootPAs, Some(port), isRoot, pa)
                        && state.portOverrides[port] == pa.portModes[port];
      WinnerDecides(workload, nsPAs, rootPAs, Some(port), isRoot, pa);
    } else {
      NoneDecides(workload, nsPAs, rootPAs, Some(port));
    }
  }

  lemma NoneDecides(workload: WorkloadNode, own: seq<PeerAuth>, root: seq<PeerAuth>, port: Option<int>)
    requires forall isRoot, pa :: !Candidate(workload, own, root, port, isRoot, pa)
    ensures forall isRoot, pa, level, mode :: !Decides(workload, own, root, port, isRoot, pa, level, mode)
  {
    forall isRoot, pa, level, mode
      ensures !Decides(workload, own, root, port, isRoot, pa, level, mode)
    {
      CandidateOnFields(workload, own, root, port, isRoot, pa);
    }
  }
}
