// Sorted string slices used as sets, and the helpers that overwrite their arguments.
// A slice of length n is an array together with n: its storage is shared, its length is not.
module StringSet {
  import opened Sorting
  import opened StringOrder

  // ----- binary search -----

  /** The insertion point that a binary search between i and j finds for s. */
  function SearchFrom(ss: seq<string>, s: string, i: nat, j: nat): (r: nat)
    requires i <= j <= |ss|
    ensures i <= r <= j
    decreases j - i
  {
    if i == j then i
    else
      var h := (i + j) / 2;
      if Less(ss[h], s) then SearchFrom(ss, s, h + 1, j) else SearchFrom(ss, s, i, h)
  }

  predicate Contains(ss: seq<string>, s: string) {
    var idx := SearchFrom(ss, s, 0, |ss|);
    idx < |ss| && ss[idx] == s
  }

  method BinarySearch(ss: seq<string>, s: string) returns (found: bool)
    ensures found == Contains(ss, s)
  {
    var i, j := 0, |ss|;
    while i < j
      invariant 0 <= i <= j <= |ss|
      invariant SearchFrom(ss, s, i, j) == SearchFrom(ss, s, 0, |ss|)
    {
      var h := (i + j) / 2;
      if Less(ss[h], s) {
        i := h + 1;
      } else {
        j := h;
      }
    }
    found := i < |ss| && ss[i] == s;
  }

  lemma {:induction false} SearchSplits(ss: seq<string>, s: string, i: nat, j: nat)
    requires i <= j <= |ss| && Sorted(ss)
    requires forall k :: 0 <= k < i ==> Less(ss[k], s)
    requires forall k :: j <= k < |ss| ==> !Less(ss[k], s)
    ensures var r := SearchFrom(ss, s, i, j);
            (forall k :: 0 <= k < r ==> Less(ss[k], s)) && (forall k :: r <= k < |ss| ==> !Less(ss[k], s))
    decreases j - i
  {
    if i < j {
      var h := (i + j) / 2;
      forall k
        ensures 0 <= k < h && Less(ss[h], s) ==> Less(ss[k], s)
        ensures h < k < |ss| && !Less(ss[h], s) ==> !Less(ss[k], s)
      {
        if 0 <= k < h && Less(ss[h], s) {
          Trichotomy(ss[k], ss[h]);
          if ss[k] != ss[h] {
            LessIsTransitive(ss[k], ss[h], s);
          }
        }
        if h < k < |ss| && !Less(ss[h], s) {
          AtMostIsTransitive(s, ss[h], ss[k]);
        }
      }
      if Less(ss[h], s) {
        SearchSplits(ss, s, h + 1, j);
      } else {
        SearchSplits(ss, s, i, h);
      }
    }
  }

  /** Binary search decides membership in a sorted slice. */
  lemma ContainsIsMembership(ss: seq<string>, s: string)
    requires Sorted(ss)
    ensures Contains(ss, s) <==> s in ss
  {
    SearchSplits(ss, s, 0, |ss|);
    if s in ss {
      var k :| 0 <= k < |ss| && ss[k] == s;
      LessIsIrreflexive(s);
      var r := SearchFrom(ss, s, 0, |ss|);
      assert r <= k;
      Trichotomy(ss[r], s);
    }
  }

  lemma StrictlySortedIsSorted(ss: seq<string>)
    requires StrictlySorted(ss)
    ensures Sorted(ss)
  {
    forall i, j | 0 <= i < j < |ss|
      ensures AtMost(ss[i], ss[j])
    {
      Trichotomy(ss[i], ss[j]);
    }
  }

  // ----- sort and compact -----

  /** Drops every element equal to its predecessor. */
  function Compact(s: seq<string>): (r: seq<string>)
    ensures |r| <= |s| && (s != [] ==> r != [] && r[|r| - 1] == s[|s| - 1])
  {
    if s == [] then []
    else
      var r := Compact(s[..|s| - 1]);
      if r != [] && r[|r| - 1] == s[|s| - 1] then r else r + [s[|s| - 1]]
  }

  /** The set of the values, as the strictly sorted sequence that represents it. */
  function SetOf(values: seq<string>): seq<string> {
    Compact(StableSort(values, AtMost))
  }

  lemma AtMostIsAnOrder()
    ensures TotalPreorder(AtMost)
  {
    forall a, b
      ensures AtMost(a, b) || AtMost(b, a)
    {
      Trichotomy(a, b);
    }
    forall a, b, c | AtMost(a, b) && AtMost(b, c)
      ensures AtMost(a, c)
    {
      AtMostIsTransitive(a, b, c);
    }
  }

  lemma {:induction false} CompactKeepsElements(s: seq<string>)
    requires Sorted(s)
    ensures StrictlySorted(Compact(s)) && SameElements(Compact(s), s)
  {
    if s != [] {
      var n := |s| - 1;
      var r := Compact(s[..n]);
      CompactKeepsElements(s[..n]);
      assert s == s[..n] + [s[n]];
      if r != [] && r[|r| - 1] != s[n] {
        assert r[|r| - 1] == s[n - 1];
        Trichotomy(s[n - 1], s[n]);
        forall i | 0 <= i < |r| - 1
          ensures Less(r[i], s[n])
        {
          LessIsTransitive(r[i], r[|r| - 1], s[n]);
        }
      }
    }
  }

  lemma SetOfIsTheSet(values: seq<string>)
    ensures StrictlySorted(SetOf(values)) && SameElements(SetOf(values), values)
  {
    AtMostIsAnOrder();
    var s := StableSort(values, AtMost);
    StableSortSorts(values, AtMost);
    CompactKeepsElements(s);
    forall v
      ensures v in s <==> v in values
    {
      assert v in s <==> v in multiset(s);
      assert v in values <==> v in multiset(values);
    }
  }

  /** A strictly sorted sequence already represents itself. */
  lemma SetOfFixed(values: seq<string>)
    requires StrictlySorted(values)
    ensures SetOf(values) == values
  {
    SetOfIsTheSet(values);
    StrictlySortedIsUnique(SetOf(values), values);
  }

  /** Sorts and compacts the slice a[..n] within its own storage; the set is a[..m]. */
  method ConvertToStringSetInPlace(a: array<string>, n: nat) returns (m: nat)
    requires n <= a.Length
    modifies a
    ensures m <= n && a[..m] == SetOf(old(a[..n]))
    ensures a[..n][m..] == StableSort(old(a[..n]), AtMost)[m..] && a[n..] == old(a[n..])
  {
    if n <= 1 {
      AtMostSingleton(a[..n]);
      return n;
    }
    hide StableSort, Compact;
    SortInPlace(a, n, AtMost);
    ghost var sorted := a[..];
    assert sorted[..n] == a[..n] && sorted[n..] == a[n..];
    m := CompactInPlace(a, n);
    SameTail(sorted, a[..], m, n);
    assert a[..][..n] == a[..n] && a[..][n..] == a[n..];
  }

  lemma SameTail(before: seq<string>, after: seq<string>, m: nat, n: nat)
    requires m <= n <= |before| == |after| && after[m..] == before[m..]
    ensures after[..n][m..] == before[..n][m..] && after[n..] == before[n..]
  {
    assert after[..n][m..] == after[m..][..n - m] && before[..n][m..] == before[m..][..n - m];
    assert after[n..] == after[m..][n - m..] && before[n..] == before[m..][n - m..];
  }

  lemma AtMostSingleton(s: seq<string>)
    requires |s| <= 1
    ensures StableSort(s, AtMost) == s && Compact(s) == s
  {
    if s != [] {
      assert s[..0] == [] && StableSort(s[..0], AtMost) == [];
      assert s == [s[0]];
    }
  }

  method CompactInPlace(a: array<string>, n: nat) returns (m: nat)
    requires 1 <= n <= a.Length
    modifies a
    ensures m <= n && a[..m] == Compact(old(a[..n])) && a[m..] == old(a[m..])
  {
    hide Compacted, Compact;
    ghost var was := a[..];
    m := 1;
    CompactedStart(was);
    for k := 1 to n
      invariant 1 <= m <= k && Compacted(a[..], was, m, k)
    {
      ghost var now := a[..];
      CompactedStep(now, was, m, k);
      if a[k] != a[m - 1] {
        a[m] := a[k];
        m := m + 1;
        assert a[..] == now[m - 1 := now[k]];
      }
    }
    CompactedEnd(a[..], was, m, n);
    assert a[..][..m] == a[..m] && a[..][m..] == a[m..] && was[..n] == old(a[..n]);
  }

  /** The first k elements are compacted into m places, and nothing behind those has changed. */
  ghost predicate Compacted(now: seq<string>, was: seq<string>, m: nat, k: nat) {
    |now| == |was| && 1 <= m <= k <= |was| && now[..m] == Compact(was[..k]) && now[m..] == was[m..]
  }

  lemma CompactedStart(was: seq<string>)
    requires was != []
    ensures Compacted(was, was, 1, 1)
  {
    CompactStep(was, 0);
    assert was[..0] == [] && was[..1] == [was[0]];
  }

  lemma CompactedStep(now: seq<string>, was: seq<string>, m: nat, k: nat)
    requires Compacted(now, was, m, k) && k < |was|
    ensures |now| == |was|
    ensures if now[k] == now[m - 1] then Compacted(now, was, m, k + 1)
            else Compacted(now[m := now[k]], was, m + 1, k + 1)
  {
    CompactStep(was, k);
    hide Compact;
    assert now[k] == now[m..][k - m] == was[k] && now[m - 1] == now[..m][m - 1];
    Overwritten(now, was, m, m, now[k]);
  }

  lemma Overwritten(now: seq<string>, was: seq<string>, m: nat, k: nat, v: string)
    requires |now| == |was| && m <= k < |was| && now[k..] == was[k..]
    ensures now[m := v][..m + 1] == now[..m] + [v]
    ensures now[m := v][k + 1..] == was[k + 1..] && now[k + 1..] == was[k + 1..]
  {
    assert now[k + 1..] == now[k..][1..] && was[k + 1..] == was[k..][1..];
  }

  lemma CompactedEnd(now: seq<string>, was: seq<string>, m: nat, n: nat)
    requires Compacted(now, was, m, n)
    ensures |now| == |was| && m <= n <= |was|
    ensures now[..m] == Compact(was[..n]) && now[m..] == was[m..]
  {
  }

  lemma CompactStep(s: seq<string>, k: nat)
    requires k < |s|
    ensures var r := Compact(s[..k]);
            Compact(s[..k + 1]) == if r != [] && r[|r| - 1] == s[k] then r else r + [s[k]]
  {
    assert s[..k + 1][..k] == s[..k];
  }

  // ----- intersection and union -----

  /** The elements of s that are in the set (keep) or out of it (!keep), in the order of s. */
  function Select(s: seq<string>, ss: seq<string>, keep: bool): (r: seq<string>)
    ensures |r| <= |s|
  {
    if s == [] then []
    else
      var n := |s| - 1;
      Select(s[..n], ss, keep) + if Contains(ss, s[n]) == keep then [s[n]] else []
  }

  function Intersection(a: seq<string>, b: seq<string>): seq<string> {
    Select(a, SetOf(b), true)
  }

  /** The union as the program leaves it: a sorted and compacted in place at its old length,
      stale tail included, followed by the elements of b that a lacks. */
  function Union(a: seq<string>, b: seq<string>): seq<string> {
    SetOf(a) + StableSort(a, AtMost)[|SetOf(a)|..] + Select(b, SetOf(a), false)
  }

  lemma {:induction false} SelectIsTheFilter(s: seq<string>, ss: seq<string>, keep: bool)
    requires Sorted(ss)
    ensures forall v :: v in Select(s, ss, keep) <==> v in s && (v in ss) == keep
  {
    if s != [] {
      var n := |s| - 1;
      SelectIsTheFilter(s[..n], ss, keep);
      ContainsIsMembership(ss, s[n]);
      assert s == s[..n] + [s[n]];
    }
  }

  lemma SetOfDecidesMembership(values: seq<string>)
    ensures Sorted(SetOf(values)) && SameElements(SetOf(values), values)
  {
    SetOfIsTheSet(values);
    StrictlySortedIsSorted(SetOf(values));
  }

  /** The intersection helper computes the intersection, in the order of its first argument. */
  lemma IntersectionIsTheIntersection(a: seq<string>, b: seq<string>)
    ensures forall v :: v in Intersection(a, b) <==> v in a && v in b
  {
    SetOfDecidesMembership(b);
    SelectIsTheFilter(a, SetOf(b), true);
  }

  /** The union helper computes the union; its stale tail only repeats elements of a. */
  lemma UnionIsTheUnion(a: seq<string>, b: seq<string>)
    ensures forall v :: v in Union(a, b) <==> v in a || v in b
  {
    SetOfDecidesMembership(a);
    SelectIsTheFilter(b, SetOf(a), false);
    AtMostIsAnOrder();
    var s := StableSort(a, AtMost);
    StableSortSorts(a, AtMost);
    forall v | v in s[|SetOf(a)|..]
      ensures v in a
    {
      assert v in s && v in multiset(s) && v in multiset(a);
    }
  }

  lemma SelectStep(s: seq<string>, k: nat, ss: seq<string>, keep: bool)
    requires k < |s|
    ensures Select(s[..k + 1], ss, keep)
         == Select(s[..k], ss, keep) + if Contains(ss, s[k]) == keep then [s[k]] else []
  {
    assert s[..k + 1][..k] == s[..k];
  }

  /** Overwrites a with the intersection and sorts b; the result is the slice a[..m]. */
  method IntersectInPlace(a: array<string>, n: nat, b: array<string>, bn: nat) returns (m: nat)
    requires n <= a.Length && bn <= b.Length && a != b
    modifies a, b
    ensures m <= n && a[..m] == Intersection(old(a[..n]), old(b[..bn]))
    ensures a[n..] == old(a[n..])
  {
    hide SetOf, Compact, Select, Contains, Selected;
    ghost var was := a[..];
    var bm := ConvertToStringSetInPlace(b, bn);
    ghost var ss := b[..bm];
    assert a[..] == was;
    m := 0;
    SelectedStart(was, ss);
    for k := 0 to n
      invariant m <= k && Selected(a[..], was, ss, m, k) && b[..bm] == ss
    {
      ghost var now := a[..];
      SelectedStep(now, was, ss, m, k);
      assert a[k] == now[k];
      var found := BinarySearch(b[..bm], a[k]);
      if found {
        a[m] := a[k];
        m := m + 1;
        assert a[..] == now[m - 1 := now[k]];
      }
    }
    SelectedEnd(a[..], was, ss, m, n);
    assert a[..][..m] == a[..m] && a[..][n..] == a[n..] && was[..n] == old(a[..n]);
  }

  /** The first k elements are filtered into m places, and those behind are still to be read. */
  ghost predicate Selected(now: seq<string>, was: seq<string>, ss: seq<string>, m: nat, k: nat) {
    |now| == |was| && m <= k <= |was| && now[..m] == Select(was[..k], ss, true) && now[k..] == was[k..]
  }

  lemma SelectedStart(was: seq<string>, ss: seq<string>)
    ensures Selected(was, was, ss, 0, 0)
  {
  }

  lemma SelectedStep(now: seq<string>, was: seq<string>, ss: seq<string>, m: nat, k: nat)
    requires Selected(now, was, ss, m, k) && k < |was|
    ensures |now| == |was|
    ensures if Contains(ss, now[k]) then Selected(now[m := now[k]], was, ss, m + 1, k + 1)
            else Selected(now, was, ss, m, k + 1)
  {
    SelectStep(was, k, ss, true);
    hide Select, Contains;
    assert now[k] == now[k..][0] == was[k];
    Overwritten(now, was, m, k, now[k]);
  }

  lemma SelectedEnd(now: seq<string>, was: seq<string>, ss: seq<string>, m: nat, n: nat)
    requires Selected(now, was, ss, m, n)
    ensures |now| == |was| && m <= n <= |was|
    ensures now[..m] == Select(was[..n], ss, true) && now[n..] == was[n..]
  {
  }

  /** Sorts a in place and appends what b adds: into a's spare capacity while there is some,
      then into a fresh array. The set that is searched keeps sharing a's storage throughout. */
  method UnionInPlace(a: array<string>, n: nat, b: array<string>, bn: nat)
    returns (r: array<string>, m: nat)
    requires n <= a.Length && bn <= b.Length && a != b
    modifies a
    ensures m <= r.Length && r[..m] == Union(old(a[..n]), old(b[..bn]))
    ensures r == a || fresh(r)
  {
    hide SetOf, StableSort, Compact, Select, Contains;
    var am := ConvertToStringSetInPlace(a, n);
    ghost var head := a[..n];
    assert a[..am] == head[..am];
    assert head == head[..am] + head[am..];
    r, m := AppendMissing(a, n, am, b, bn);
  }

  method AppendMissing(a: array<string>, n: nat, am: nat, b: array<string>, bn: nat)
    returns (r: array<string>, m: nat)
    requires am <= n <= a.Length && bn <= b.Length && a != b
    modifies a
    ensures m <= r.Length && r[..m] == old(a[..n]) + Select(old(b[..bn]), old(a[..am]), false)
    ensures r == a || fresh(r)
  {
    hide Contains, Select, Extended;
    ghost var s, ss, head := b[..bn], a[..am], a[..n];
    r, m := a, n;
    ExtendedByNone(head, ss);
    for k := 0 to bn
      invariant n <= m <= r.Length && (r == a || fresh(r))
      invariant a[..am] == ss && b[..bn] == s
      invariant s[..0] == [] && r[..m] == Extended(head, s[..k], ss)
    {
      ExtendedStep(head, s, k, ss);
      assert b[k] == s[k];
      var found := BinarySearch(a[..am], b[k]);
      if !found {
        r := AppendBeside(a, am, r, m, b[k]);
        m := m + 1;
      }
    }
    ExtendedIs(head, s, ss);
    assert s[..bn] == s;
  }

  /** The list with the elements of s that the set lacks behind it. */
  ghost function Extended(head: seq<string>, s: seq<string>, ss: seq<string>): seq<string> {
    head + Select(s, ss, false)
  }

  lemma ExtendedByNone(head: seq<string>, ss: seq<string>)
    ensures Extended(head, [], ss) == head
  {
  }

  lemma ExtendedStep(head: seq<string>, s: seq<string>, k: nat, ss: seq<string>)
    requires k < |s|
    ensures Extended(head, s[..k + 1], ss)
         == if Contains(ss, s[k]) then Extended(head, s[..k], ss) else Extended(head, s[..k], ss) + [s[k]]
  {
    SelectStep(s, k, ss, false);
  }

  lemma ExtendedIs(head: seq<string>, s: seq<string>, ss: seq<string>)
    ensures Extended(head, s, ss) == head + Select(s, ss, false)
  {
  }

  /** Appending past a slice of the set that shares the storage leaves the set as it is. */
  method AppendBeside(a: array<string>, am: nat, r: array<string>, m: nat, v: string) returns (grown: array<string>)
    requires am <= a.Length && m <= r.Length && (r == a ==> am <= m)
    modifies r
    ensures m < grown.Length && grown[..m + 1] == old(r[..m]) + [v] && a[..am] == old(a[..am])
    ensures grown == r || fresh(grown)
  {
    ghost var kept := a[..am];
    grown := Append(r, m, v);
    if r == a {
      assert a[..am] == a[..m][..am] == old(a[..m])[..am];
    }
    assert a[..am] == kept;
  }

  /** The built-in `append` of one element: in place while there is capacity, else into a
      larger, fresh array. Nothing before the old length changes. */
  method Append(a: array<string>, n: nat, v: string) returns (r: array<string>)
    requires n <= a.Length
    modifies a
    ensures n < r.Length && r[..n + 1] == old(a[..n]) + [v]
    ensures a[..n] == old(a[..n]) && (r == a || fresh(r))
  {
    r := a;
    if n == a.Length {
      r := new string[2 * n + 1];
      forall i | 0 <= i < n {
        r[i] := a[i];
      }
    }
    r[n] := v;
  }
}
