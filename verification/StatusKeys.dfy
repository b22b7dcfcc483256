// Status badges of a workload, and their intersection over all policy engines.
module StatusKeys {

  datatype PolicyStatus = PolicyStatus(
    egressLocked: bool, ingressLocked: bool, internetEgress: bool, internetIngress: bool,
    lanEgress: bool, lanIngress: bool, apiServerEgress: bool, crossNs: bool,
    innerNsEgress: bool, innerNsIngress: bool, hasL7: bool)

  /** No policy of the engine referenced the workload. */
  const NO_STATUS :=
    PolicyStatus(false, false, false, false, false, false, false, false, false, false, false)

  datatype StatusKey =
    | InternetIngress | InternetEgress | InternetFull | LanIngress | LanEgress | LanFull
    | ApiServerEgress | Isolated | CrossNamespace | NamespaceEgress | NamespaceIngress
    | NamespaceFull | L7Applied

  function When(condition: bool, key: StatusKey): (r: seq<StatusKey>)
    ensures forall k :: k in r <==> condition && k == key
  {
    if condition then [key] else []
  }

  /** The full badge for both directions, else the badge of the one that fires. */
  function Paired(egress: bool, ingress: bool, full: StatusKey, out: StatusKey, into: StatusKey)
    : (r: seq<StatusKey>)
    ensures forall k :: k in r <==>
      if egress && ingress then k == full else (egress && k == out) || (ingress && k == into)
  {
    if egress && ingress then [full] else When(egress, out) + When(ingress, into)
  }

  /** An unlocked direction counts as internet access on its side. */
  function DeriveStatusKeys(s: PolicyStatus): seq<StatusKey> {
    var escapes := s.internetEgress || s.internetIngress || s.lanEgress || s.lanIngress || s.apiServerEgress;
    Paired(!s.egressLocked || s.internetEgress, !s.ingressLocked || s.internetIngress,
           InternetFull, InternetEgress, InternetIngress)
    + Paired(s.lanEgress, s.lanIngress, LanFull, LanEgress, LanIngress)
    + When(s.apiServerEgress, ApiServerEgress)
    + When(s.egressLocked && s.ingressLocked && !escapes, Isolated)
    + When(s.crossNs, CrossNamespace)
    + Paired(s.innerNsEgress, s.innerNsIngress, NamespaceFull, NamespaceEgress, NamespaceIngress)
    + When(s.hasL7, L7Applied)
  }

  // ----- intersection -----

  /** An unlocked direction is transparent for every access field that it gates. */
  function Effective(raw: PolicyStatus): PolicyStatus {
    PolicyStatus(
      raw.egressLocked, raw.ingressLocked,
      !raw.egressLocked || raw.internetEgress, !raw.ingressLocked || raw.internetIngress,
      !raw.egressLocked || raw.lanEgress, !raw.ingressLocked || raw.lanIngress,
      !raw.egressLocked || raw.apiServerEgress,
      (!raw.egressLocked && !raw.ingressLocked) || raw.crossNs,
      !raw.egressLocked || raw.innerNsEgress, !raw.ingressLocked || raw.innerNsIngress,
      raw.hasL7)
  }

  /** Access fields meet; locks and L7 join. */
  function Meet(a: PolicyStatus, b: PolicyStatus): PolicyStatus {
    PolicyStatus(
      a.egressLocked || b.egressLocked, a.ingressLocked || b.ingressLocked,
      a.internetEgress && b.internetEgress, a.internetIngress && b.internetIngress,
      a.lanEgress && b.lanEgress, a.lanIngress && b.lanIngress,
      a.apiServerEgress && b.apiServerEgress, a.crossNs && b.crossNs,
      a.innerNsEgress && b.innerNsEgress, a.innerNsIngress && b.innerNsIngress,
      a.hasL7 || b.hasL7)
  }

  function Opinions(perEngine: seq<PolicyStatus>): (r: seq<PolicyStatus>)
    ensures forall s :: s in r <==> s in perEngine && s != NO_STATUS
  {
    if perEngine == [] then []
    else
      var last := perEngine[|perEngine| - 1];
      Opinions(perEngine[..|perEngine| - 1]) + if last != NO_STATUS then [last] else []
  }

  function MeetAll(statuses: seq<PolicyStatus>): PolicyStatus
    requires statuses != []
  {
    if |statuses| == 1 then Effective(statuses[0])
    else Meet(MeetAll(statuses[..|statuses| - 1]), Effective(statuses[|statuses| - 1]))
  }

  /** Engines without an opinion do not count; a single one passes through as it is. */
  function Intersection(perEngine: seq<PolicyStatus>): PolicyStatus {
    var opinions := Opinions(perEngine);
    if opinions == [] then NO_STATUS
    else if |opinions| == 1 then opinions[0]
    else MeetAll(opinions)
  }

  method IntersectPolicyStatus(perEngine: seq<PolicyStatus>) returns (result: PolicyStatus)
    ensures result == Intersection(perEngine)
  {
    var filtered: seq<PolicyStatus> := [];
    for i := 0 to |perEngine|
      invariant filtered == Opinions(perEngine[..i])
    {
      assert perEngine[..i + 1][..i] == perEngine[..i];
      if perEngine[i] != NO_STATUS {
        filtered := filtered + [perEngine[i]];
      }
    }
    assert perEngine[..|perEngine|] == perEngine;
    if filtered == [] {
      return NO_STATUS;
    }
    if |filtered| == 1 {
      return filtered[0];
    }
    result := Effective(filtered[0]);
    assert filtered[..1] == [filtered[0]];
    for i := 1 to |filtered|
      invariant result == MeetAll(filtered[..i])
    {
      assert filtered[..i + 1][..i] == filtered[..i];
      result := Meet(result, Effective(filtered[i]));
    }
    assert filtered[..|filtered|] == filtered;
  }

  // ----- intersection is conjunction -----

  datatype Side = Outward | Inward

  predicate Locked(s: PolicyStatus, side: Side) {
    if side == Outward then s.egressLocked else s.ingressLocked
  }

  predicate NamesInternet(s: PolicyStatus, side: Side) {
    if side == Outward then s.internetEgress else s.internetIngress
  }

  /** The side lets internet traffic through: it is unlocked, or that access is named. */
  predicate Open(s: PolicyStatus, side: Side) {
    !Locked(s, side) || NamesInternet(s, side)
  }

  /** The internet badge of the side, alone or as full. */
  predicate ShowsInternet(s: PolicyStatus, side: Side) {
    (if side == Outward then InternetEgress else InternetIngress) in DeriveStatusKeys(s)
    || InternetFull in DeriveStatusKeys(s)
  }

  lemma BadgesReadAccess(s: PolicyStatus, side: Side)
    ensures ShowsInternet(s, side) <==> Open(s, side)
    ensures !(InternetEgress in DeriveStatusKeys(s) && InternetIngress in DeriveStatusKeys(s))
  {
    hide Paired, When;
  }

  lemma MeetOpens(met: PolicyStatus, raw: PolicyStatus, side: Side)
    requires Open(met, side) <==> NamesInternet(met, side)
    ensures NamesInternet(Effective(raw), side) <==> Open(raw, side)
    ensures Open(Effective(raw), side) <==> Open(raw, side)
    ensures NamesInternet(Meet(met, Effective(raw)), side) <==> NamesInternet(met, side) && Open(raw, side)
    ensures Open(Meet(met, Effective(raw)), side) <==> Open(met, side) && Open(raw, side)
  {
  }

  lemma {:induction false} MeetAllInternet(statuses: seq<PolicyStatus>, side: Side)
    requires statuses != []
    ensures var r := MeetAll(statuses);
            && (Open(r, side) <==> forall s :: s in statuses ==> Open(s, side))
            && (Open(r, side) <==> NamesInternet(r, side))
  {
    var init, last := statuses[..|statuses| - 1], statuses[|statuses| - 1];
    assert statuses == init + [last] && last in statuses;
    if |statuses| > 1 {
      MeetAllInternet(init, side);
      MeetOpens(MeetAll(init), last, side);
    } else {
      MeetOpens(Effective(last), last, side);
      assert forall s :: s in statuses ==> s == last;
    }
    hide Open, NamesInternet, Meet, Effective;
  }

  /** Over any list of engines, in any order and with any number of engines without opinion,
      the effective badges show internet access of a side exactly when every engine's own badges
      do. */
  lemma IntersectionIsConjunction(perEngine: seq<PolicyStatus>, side: Side)
    ensures ShowsInternet(Intersection(perEngine), side) <==> forall s :: s in perEngine ==> ShowsInternet(s, side)
  {
    BadgesReadAccess(Intersection(perEngine), side);
    forall s | s in perEngine
      ensures ShowsInternet(s, side) <==> Open(s, side)
    {
      BadgesReadAccess(s, side);
    }
    hide ShowsInternet;
    IntersectedIsOpen(perEngine, side);
  }

  lemma IntersectedIsOpen(perEngine: seq<PolicyStatus>, side: Side)
    ensures Open(Intersection(perEngine), side) <==> forall s :: s in perEngine ==> Open(s, side)
  {
    assert Open(NO_STATUS, side);
    hide Open, MeetAll;
    var opinions := Opinions(perEngine);
    hide Opinions;
    if |opinions| > 1 {
      MeetAllInternet(opinions, side);
      assert Intersection(perEngine) == MeetAll(opinions);
    } else if |opinions| == 1 {
      assert Intersection(perEngine) == opinions[0] && forall s :: s in opinions <==> s == opinions[0];
    } else {
      assert Intersection(perEngine) == NO_STATUS;
    }
    hide Intersection;
    assert Open(Intersection(perEngine), side) <==> forall s :: s in opinions ==> Open(s, side);
    forall s | s in perEngine
      ensures s == NO_STATUS || s in opinions
    {
    }
    forall s | s in opinions
      ensures s in perEngine
    {
    }
  }

  // ----- the badges of gated access -----

  /** Access that a lock gates and that an engine names explicitly. */
  datatype Access = LanOut | LanIn | NamespaceOut | NamespaceIn | ApiServerOut

  function Gate(access: Access): Side {
    match access
    case LanOut => Outward
    case LanIn => Inward
    case NamespaceOut => Outward
    case NamespaceIn => Inward
    case ApiServerOut => Outward
  }

  predicate Names(s: PolicyStatus, access: Access) {
    match access
    case LanOut => s.lanEgress
    case LanIn => s.lanIngress
    case NamespaceOut => s.innerNsEgress
    case NamespaceIn => s.innerNsIngress
    case ApiServerOut => s.apiServerEgress
  }

  /** The engine locks the direction and does not name the access. */
  predicate Shuts(s: PolicyStatus, access: Access) {
    Locked(s, Gate(access)) && !Names(s, access)
  }

  /** The badge of the access, alone or as full. */
  predicate Shows(s: PolicyStatus, access: Access) {
    var keys := DeriveStatusKeys(s);
    match access
    case LanOut => LanEgress in keys || LanFull in keys
    case LanIn => LanIngress in keys || LanFull in keys
    case NamespaceOut => NamespaceEgress in keys || NamespaceFull in keys
    case NamespaceIn => NamespaceIngress in keys || NamespaceFull in keys
    case ApiServerOut => ApiServerEgress in keys
  }

  lemma GatedBadgeReadsAccess(s: PolicyStatus, access: Access)
    ensures Shows(s, access) <==> Names(s, access)
  {
    hide Paired, When;
  }

  lemma MeetNames(met: PolicyStatus, raw: PolicyStatus, access: Access)
    ensures Names(Effective(raw), access) <==> !Shuts(raw, access)
    ensures Names(Meet(met, Effective(raw)), access) <==> Names(met, access) && !Shuts(raw, access)
  {
  }

  lemma {:induction false} MeetAllGated(statuses: seq<PolicyStatus>, access: Access)
    requires statuses != []
    ensures Names(MeetAll(statuses), access) <==> forall s :: s in statuses ==> !Shuts(s, access)
  {
    hide Names, Shuts, Meet, Effective;
    var init, last := statuses[..|statuses| - 1], statuses[|statuses| - 1];
    assert statuses == init + [last] && last in statuses;
    if |statuses| > 1 {
      MeetAllGated(init, access);
      MeetNames(MeetAll(init), last, access);
    } else {
      MeetNames(last, last, access);
      assert forall s :: s in statuses ==> s == last;
    }
  }

  /** A single opinion passes through raw, so only the access that it names itself shows; among
      several an engine that does not lock the direction counts as if it named the access. */
  lemma GatedInClosedForm(perEngine: seq<PolicyStatus>, access: Access)
    ensures var opinions := Opinions(perEngine);
            Shows(Intersection(perEngine), access) <==>
              if |opinions| == 1 then Names(opinions[0], access)
              else opinions != [] && forall s :: s in opinions ==> !Shuts(s, access)
  {
    GatedBadgeReadsAccess(Intersection(perEngine), access);
    if |Opinions(perEngine)| > 1 {
      MeetAllGated(Opinions(perEngine), access);
    }
  }

  /** So the conjunction law holds of such a badge exactly in these cases: every engine shows it; no
      engine has an opinion; the only one that has does not show it; or one of several shuts it. */
  lemma GatedIsConjunctionExactly(perEngine: seq<PolicyStatus>, access: Access)
    requires perEngine != []
    ensures var opinions := Opinions(perEngine);
            (Shows(Intersection(perEngine), access) <==> forall s :: s in perEngine ==> Shows(s, access))
            <==>
            || (forall s :: s in perEngine ==> Names(s, access))
            || opinions == []
            || (|opinions| == 1 && !Names(opinions[0], access))
            || (|opinions| > 1 && exists s :: s in opinions && Shuts(s, access))
  {
    var opinions := Opinions(perEngine);
    GatedInClosedForm(perEngine, access);
    forall s | s in perEngine
      ensures Shows(s, access) <==> Names(s, access)
    {
      GatedBadgeReadsAccess(s, access);
    }
    hide Shows, Intersection, Shuts;
    assert perEngine[0] in perEngine;
    assert forall s :: s in perEngine ==> s == NO_STATUS || s in opinions;
    assert opinions != [] ==> opinions[0] in opinions;
  }

  /** Of no engine at all the law fails: nothing shows, and every one of none does. */
  lemma NoEngineShowsNothing(access: Access)
    ensures !Shows(Intersection([]), access)
  {
    GatedInClosedForm([], access);
  }

  // ----- the other badges -----

  /** Locked both ways with no access named out of the cluster or to the API server. */
  predicate Airtight(s: PolicyStatus) {
    s.egressLocked && s.ingressLocked
    && !s.internetEgress && !s.internetIngress && !s.lanEgress && !s.lanIngress && !s.apiServerEgress
  }

  lemma OtherBadges(s: PolicyStatus)
    ensures Isolated in DeriveStatusKeys(s) <==> Airtight(s)
    ensures CrossNamespace in DeriveStatusKeys(s) <==> s.crossNs
    ensures L7Applied in DeriveStatusKeys(s) <==> s.hasL7
  {
    hide Paired, When;
  }

  /** Some of several opinions locks the side and does not name the access. */
  ghost predicate SomeShuts(opinions: seq<PolicyStatus>, access: Access) {
    exists s :: s in opinions && Shuts(s, access)
  }

  ghost predicate SomeClosesInternet(opinions: seq<PolicyStatus>, side: Side) {
    exists s :: s in opinions && Locked(s, side) && !NamesInternet(s, side)
  }

  lemma MeetLocks(met: PolicyStatus, raw: PolicyStatus, side: Side)
    ensures Locked(Effective(raw), side) <==> Locked(raw, side)
    ensures Locked(Meet(met, Effective(raw)), side) <==> Locked(met, side) || Locked(raw, side)
    ensures Effective(raw).hasL7 == raw.hasL7 && Meet(met, Effective(raw)).hasL7 == (met.hasL7 || raw.hasL7)
    ensures Effective(raw).crossNs <==> raw.crossNs || (!raw.egressLocked && !raw.ingressLocked)
    ensures Meet(met, Effective(raw)).crossNs == (met.crossNs && Effective(raw).crossNs)
  {
  }

  lemma {:induction false} MeetAllLocks(statuses: seq<PolicyStatus>, side: Side)
    requires statuses != []
    ensures var r := MeetAll(statuses);
            && (Locked(r, side) <==> exists s :: s in statuses && Locked(s, side))
            && (r.hasL7 <==> exists s :: s in statuses && s.hasL7)
            && (r.crossNs <==> forall s :: s in statuses ==> s.crossNs || (!s.egressLocked && !s.ingressLocked))
  {
    hide Locked, Meet, Effective;
    var init, last := statuses[..|statuses| - 1], statuses[|statuses| - 1];
    assert statuses == init + [last] && last in statuses;
    if |statuses| > 1 {
      MeetAllLocks(init, side);
      MeetLocks(MeetAll(init), last, side);
    } else {
      MeetLocks(last, last, side);
      assert forall s :: s in statuses ==> s == last;
    }
  }

  lemma IntersectedHasL7(perEngine: seq<PolicyStatus>)
    ensures Intersection(perEngine).hasL7 <==> exists s :: s in Opinions(perEngine) && s.hasL7
  {
    var opinions := Opinions(perEngine);
    if |opinions| > 1 {
      MeetAllLocks(opinions, Outward);
    } else if |opinions| == 1 {
      assert forall s :: s in opinions <==> s == opinions[0];
    }
    hide MeetAll, Opinions;
  }

  /** The L7 badge shows where any engine's does. */
  lemma L7IsDisjunction(perEngine: seq<PolicyStatus>)
    ensures L7Applied in DeriveStatusKeys(Intersection(perEngine)) <==>
      exists s :: s in perEngine && L7Applied in DeriveStatusKeys(s)
  {
    OtherBadges(Intersection(perEngine));
    IntersectedHasL7(perEngine);
    forall s
      ensures L7Applied in DeriveStatusKeys(s) <==> s.hasL7
    {
      OtherBadges(s);
    }
    hide DeriveStatusKeys, Intersection;
    assert forall s :: s in perEngine && s.hasL7 <==> s in Opinions(perEngine) && s.hasL7;
  }

  /** The cross-namespace badge shows where the only opinion names that access, or where each of
      several names it or locks neither side. */
  lemma CrossNamespaceInClosedForm(perEngine: seq<PolicyStatus>)
    ensures var opinions := Opinions(perEngine);
            CrossNamespace in DeriveStatusKeys(Intersection(perEngine)) <==>
              if |opinions| == 1 then opinions[0].crossNs
              else opinions != []
                   && forall s :: s in opinions ==> s.crossNs || (!s.egressLocked && !s.ingressLocked)
  {
    OtherBadges(Intersection(perEngine));
    hide DeriveStatusKeys;
    if |Opinions(perEngine)| > 1 {
      MeetAllLocks(Opinions(perEngine), Outward);
    }
  }

  /** The isolation badge shows where the only opinion is airtight, or where of several one shuts the
      internet each way, one the LAN each way, and one the API server: no access is left to all. */
  lemma IsolatedInClosedForm(perEngine: seq<PolicyStatus>)
    ensures var opinions := Opinions(perEngine);
            Isolated in DeriveStatusKeys(Intersection(perEngine)) <==>
              if |opinions| == 1 then Airtight(opinions[0])
              else SomeClosesInternet(opinions, Outward) && SomeClosesInternet(opinions, Inward)
                   && SomeShuts(opinions, LanOut) && SomeShuts(opinions, LanIn) && SomeShuts(opinions, ApiServerOut)
  {
    var opinions := Opinions(perEngine);
    OtherBadges(Intersection(perEngine));
    hide DeriveStatusKeys;
    if |opinions| > 1 {
      AirtightTogether(opinions);
    }
  }

  lemma AirtightTogether(opinions: seq<PolicyStatus>)
    requires opinions != []
    ensures Airtight(MeetAll(opinions)) <==>
      && SomeClosesInternet(opinions, Outward) && SomeClosesInternet(opinions, Inward)
      && SomeShuts(opinions, LanOut) && SomeShuts(opinions, LanIn) && SomeShuts(opinions, ApiServerOut)
  {
    MeetAllInternet(opinions, Outward);
    MeetAllInternet(opinions, Inward);
    MeetAllGated(opinions, LanOut);
    MeetAllGated(opinions, LanIn);
    MeetAllGated(opinions, ApiServerOut);
    MeetAllLocks(opinions, Outward);
    MeetAllLocks(opinions, Inward);
    var r := MeetAll(opinions);
    assert r.egressLocked == Locked(r, Outward) && r.ingressLocked == Locked(r, Inward);
    assert r.internetEgress == NamesInternet(r, Outward) && r.internetIngress == NamesInternet(r, Inward);
    assert r.lanEgress == Names(r, LanOut) && r.lanIngress == Names(r, LanIn);
    assert r.apiServerEgress == Names(r, ApiServerOut);
    hide Names, NamesInternet, Shuts, MeetAll;
  }

  // ----- where the law fails -----

  /** It fails of two engines that each show no LAN badge: together they show one. */
  lemma LanIsNotConjunction()
    ensures var raw, open := NO_STATUS.(ingressLocked := true), NO_STATUS.(hasL7 := true);
            Shows(Intersection([raw, open]), LanOut) && !Shows(raw, LanOut) && !Shows(open, LanOut)
  {
    var raw, open := NO_STATUS.(ingressLocked := true), NO_STATUS.(hasL7 := true);
    assert [raw, open][..1] == [raw] && [raw][..0] == [];
    assert Opinions([raw]) == [raw];
    assert Opinions([raw, open]) == [raw, open];
    GatedInClosedForm([raw, open], LanOut);
    GatedBadgeReadsAccess(raw, LanOut);
    GatedBadgeReadsAccess(open, LanOut);
  }
}
