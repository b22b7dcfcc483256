// The library's stable sort, as a function on sequences and as an in-place method.
module Sorting {

  type Order<!T> = (T, T) -> bool

  /** A total preorder: what the sort demands of its comparison. */
  ghost predicate TotalPreorder<T(!new)>(leq: Order<T>) {
    && (forall a, b :: leq(a, b) || leq(b, a))
    && (forall a, b, c :: leq(a, b) && leq(b, c) ==> leq(a, c))
  }

  ghost predicate SortedBy<T>(s: seq<T>, leq: Order<T>) {
    forall i, j :: 0 <= i < j < |s| ==> leq(s[i], s[j])
  }

  /** x goes behind every element that is at most x, so equal elements keep their order. */
  function Insert<T>(s: seq<T>, x: T, leq: Order<T>): seq<T> {
    if s == [] || leq(s[|s| - 1], x) then s + [x]
    else Insert(s[..|s| - 1], x, leq) + [s[|s| - 1]]
  }

  function StableSort<T>(s: seq<T>, leq: Order<T>): seq<T> {
    if s == [] then [] else Insert(StableSort(s[..|s| - 1], leq), s[|s| - 1], leq)
  }

  lemma {:induction false} InsertAdds<T>(s: seq<T>, x: T, leq: Order<T>)
    ensures multiset(Insert(s, x, leq)) == multiset(s) + multiset{x}
  {
    if s != [] && !leq(s[|s| - 1], x) {
      InsertAdds(s[..|s| - 1], x, leq);
      assert s == s[..|s| - 1] + [s[|s| - 1]];
    }
  }

  lemma {:induction false} InsertKeepsSorted<T(!new)>(s: seq<T>, x: T, leq: Order<T>)
    requires TotalPreorder(leq) && SortedBy(s, leq)
    ensures SortedBy(Insert(s, x, leq), leq)
  {
    if s != [] {
      var n := |s| - 1;
      if leq(s[n], x) {
        forall i | 0 <= i < n
          ensures leq(s[i], x)
        {
          assert leq(s[i], s[n]);
        }
      } else {
        var t := Insert(s[..n], x, leq);
        InsertKeepsSorted(s[..n], x, leq);
        InsertAdds(s[..n], x, leq);
        forall i | 0 <= i < |t|
          ensures leq(t[i], s[n])
        {
          assert t[i] in multiset(t);
          assert t[i] in s[..n] || t[i] == x;
        }
      }
    }
  }

  /** Sorting sorts, and is a permutation. */
  lemma {:induction false} StableSortSorts<T(!new)>(s: seq<T>, leq: Order<T>)
    requires TotalPreorder(leq)
    ensures SortedBy(StableSort(s, leq), leq)
    ensures multiset(StableSort(s, leq)) == multiset(s)
  {
    if s != [] {
      var n := |s| - 1;
      StableSortSorts(s[..n], leq);
      InsertKeepsSorted(StableSort(s[..n], leq), s[n], leq);
      InsertAdds(StableSort(s[..n], leq), s[n], leq);
      hide Insert, SortedBy, TotalPreorder;
      assert s == s[..n] + [s[n]];
    }
  }

  predicate Ties<T>(x: T, y: T, leq: Order<T>) {
    leq(x, y) && leq(y, x)
  }

  /** The elements that tie with x, in order. */
  function TiesOf<T>(s: seq<T>, x: T, leq: Order<T>): seq<T> {
    if s == [] then []
    else TiesOf(s[..|s| - 1], x, leq) + if Ties(x, s[|s| - 1], leq) then [s[|s| - 1]] else []
  }

  lemma TiesAppend<T>(s: seq<T>, y: T, x: T, leq: Order<T>)
    ensures TiesOf(s + [y], x, leq) == TiesOf(s, x, leq) + if Ties(x, y, leq) then [y] else []
  {
    assert (s + [y])[..|s|] == s;
  }

  lemma {:induction false} InsertKeepsTies<T(!new)>(s: seq<T>, y: T, x: T, leq: Order<T>)
    requires TotalPreorder(leq)
    ensures TiesOf(Insert(s, y, leq), x, leq) == TiesOf(s + [y], x, leq)
  {
    TiesAppend(s, y, x, leq);
    if s != [] && !leq(s[|s| - 1], y) {
      var n := |s| - 1;
      var z := s[n];
      InsertKeepsTies(s[..n], y, x, leq);
      TiesAppend(s[..n], y, x, leq);
      TiesAppend(Insert(s[..n], y, leq), z, x, leq);
      assert Ties(x, y, leq) && Ties(x, z, leq) ==> leq(z, y);
      hide TotalPreorder;
      assert TiesOf(s, x, leq) == TiesOf(s[..n], x, leq) + if Ties(x, z, leq) then [z] else [];
    }
  }

  /** The sort is stable: elements that tie keep their order. */
  lemma {:induction false} StableSortIsStable<T(!new)>(s: seq<T>, x: T, leq: Order<T>)
    requires TotalPreorder(leq)
    ensures TiesOf(StableSort(s, leq), x, leq) == TiesOf(s, x, leq)
  {
    if s != [] {
      var n := |s| - 1;
      StableSortIsStable(s[..n], x, leq);
      InsertKeepsTies(StableSort(s[..n], leq), s[n], x, leq);
      TiesAppend(StableSort(s[..n], leq), s[n], x, leq);
      hide TotalPreorder, Insert;
    }
  }

  /** A sorted sequence stays as it is. */
  lemma {:induction false} StableSortFixes<T>(s: seq<T>, leq: Order<T>)
    requires SortedBy(s, leq)
    ensures StableSort(s, leq) == s
  {
    if s != [] {
      var n := |s| - 1;
      StableSortFixes(s[..n], leq);
      assert s == s[..n] + [s[n]];
    }
  }

  /** No two distinct elements of s tie. */
  ghost predicate NoTies<T>(s: multiset<T>, leq: Order<T>) {
    forall a, b :: a in s && b in s && leq(a, b) && leq(b, a) ==> a == b
  }

  lemma {:induction false} SortedPermutationIsUnique<T(!new)>(s: seq<T>, t: seq<T>, leq: Order<T>)
    requires TotalPreorder(leq) && SortedBy(s, leq) && SortedBy(t, leq)
    requires multiset(s) == multiset(t) && NoTies(multiset(s), leq)
    ensures s == t
  {
    assert |s| == |multiset(s)| == |multiset(t)| == |t|;
    if s != [] {
      var n := |s| - 1;
      LastsAgree(s, t, leq);
      DropLast(s);
      DropLast(t);
      hide TotalPreorder;
      SortedPermutationIsUnique(s[..n], t[..n], leq);
    }
  }

  lemma LastsAgree<T(!new)>(s: seq<T>, t: seq<T>, leq: Order<T>)
    requires TotalPreorder(leq) && SortedBy(s, leq) && SortedBy(t, leq)
    requires multiset(s) == multiset(t) && NoTies(multiset(s), leq) && |s| == |t| > 0
    ensures s[|s| - 1] == t[|t| - 1]
  {
    LastIsGreatest(s, t, leq);
    LastIsGreatest(t, s, leq);
    hide TotalPreorder, SortedBy;
    assert s[|s| - 1] in multiset(s) && t[|t| - 1] in multiset(t);
  }

  lemma DropLast<T>(s: seq<T>)
    requires s != []
    ensures s == s[..|s| - 1] + [s[|s| - 1]]
    ensures multiset(s[..|s| - 1]) == multiset(s) - multiset{s[|s| - 1]}
  {
    assert s == s[..|s| - 1] + [s[|s| - 1]];
  }

  lemma LastIsGreatest<T(!new)>(s: seq<T>, t: seq<T>, leq: Order<T>)
    requires TotalPreorder(leq) && SortedBy(s, leq) && multiset(s) == multiset(t)
    requires |s| == |t| > 0
    ensures leq(t[|t| - 1], s[|s| - 1])
  {
    assert t[|t| - 1] in multiset(t);
    assert t[|t| - 1] in s;
    var k :| 0 <= k < |s| && s[k] == t[|t| - 1];
    assert k == |s| - 1 || leq(s[k], s[|s| - 1]);
  }

  /** The result does not depend on the order in which the elements arrived. */
  lemma StableSortIsOrderFree<T(!new)>(s: seq<T>, t: seq<T>, leq: Order<T>)
    requires TotalPreorder(leq) && multiset(s) == multiset(t) && NoTies(multiset(s), leq)
    ensures StableSort(s, leq) == StableSort(t, leq)
  {
    StableSortSorts(s, leq);
    StableSortSorts(t, leq);
    SortedPermutationIsUnique(StableSort(s, leq), StableSort(t, leq), leq);
  }

  method SortInPlace<T>(a: array<T>, n: nat, leq: Order<T>)
    requires n <= a.Length
    modifies a
    ensures a[..n] == StableSort(old(a[..n]), leq)
    ensures a[n..] == old(a[n..])
  {
    ghost var was := a[..];
    for i := 0 to n
      invariant a[..i] == StableSort(was[..i], leq)
      invariant a[i..] == was[i..]
    {
      assert was[..i + 1][..i] == was[..i];
      assert was[i] == was[i..][0] == a[i];
      SiftDown(a, i, leq);
      assert a[i + 1..] == was[i..][1..] == was[i + 1..];
    }
    assert was[..n] == old(a[..n]);
  }

  method SiftDown<T>(a: array<T>, i: nat, leq: Order<T>)
    requires i < a.Length
    modifies a
    ensures a[..i + 1] == Insert(old(a[..i]), old(a[i]), leq)
    ensures a[i + 1..] == old(a[i..][1..])
  {
    hide Sifted, Insert;
    ghost var was := a[..];
    var j: nat := i;
    SiftStart(was, i, leq);
    while j > 0 && !leq(a[j - 1], a[j])
      invariant j <= i && Sifted(a[..], was, i, j, leq)
    {
      ghost var now := a[..];
      SiftStep(now, was, i, j, leq);
      a[j - 1], a[j] := a[j], a[j - 1];
      assert a[..] == now[j - 1 := now[j]][j := now[j - 1]];
      j := j - 1;
    }
    SiftEnd(a[..], was, i, j, leq);
    assert a[..][..i + 1] == a[..i + 1] && a[..][i + 1..] == a[i + 1..];
    assert was[..i] == old(a[..i]) && was[i + 1..] == old(a[i..][1..]);
  }

  /** Element i has moved down to place j, and those that it passed are one place up; it is still
      to be inserted among the first j. */
  ghost predicate Sifted<T>(now: seq<T>, was: seq<T>, i: nat, j: nat, leq: Order<T>) {
    && j <= i < |was| && now == was[..j] + [was[i]] + was[j..i] + was[i + 1..]
    && Insert(was[..i], was[i], leq) == Insert(was[..j], was[i], leq) + was[j..i]
  }

  lemma SiftStart<T>(was: seq<T>, i: nat, leq: Order<T>)
    requires i < |was|
    ensures Sifted(was, was, i, i, leq)
  {
    assert was[i..i] == [] && was == was[..i] + [was[i]] + [] + was[i + 1..];
  }

  lemma SiftStep<T>(now: seq<T>, was: seq<T>, i: nat, j: nat, leq: Order<T>)
    requires Sifted(now, was, i, j, leq) && j > 0
    ensures |now| == |was| && (!leq(now[j - 1], now[j]) ==>
      Sifted(now[j - 1 := now[j]][j := now[j - 1]], was, i, j - 1, leq))
  {
    var head, y, x, tail, rest := was[..j - 1], was[j - 1], was[i], was[j..i], was[i + 1..];
    assert was[..j] == head + [y] && was[j - 1..i] == [y] + tail;
    Swapped(head, y, x, tail, rest);
    if !leq(y, x) {
      InsertPasses(head, y, x, tail, leq);
    }
    hide Insert;
  }

  lemma Swapped<T>(head: seq<T>, y: T, x: T, tail: seq<T>, rest: seq<T>)
    ensures var now, j := head + [y] + [x] + tail + rest, |head| + 1;
            now[j - 1] == y && now[j] == x
            && now[j - 1 := now[j]][j := now[j - 1]] == head + [x] + ([y] + tail) + rest
  {
  }

  lemma InsertPasses<T>(head: seq<T>, y: T, x: T, tail: seq<T>, leq: Order<T>)
    requires !leq(y, x)
    ensures Insert(head + [y], x, leq) + tail == Insert(head, x, leq) + ([y] + tail)
  {
    assert (head + [y])[..|head|] == head;
  }

  lemma SiftEnd<T>(now: seq<T>, was: seq<T>, i: nat, j: nat, leq: Order<T>)
    requires Sifted(now, was, i, j, leq) && (j == 0 || leq(now[j - 1], now[j]))
    ensures |now| == |was| && i < |was|
    ensures now[..i + 1] == Insert(was[..i], was[i], leq) && now[i + 1..] == was[i + 1..]
  {
    assert j > 0 ==> now[j - 1] == was[..j][j - 1];
    assert Insert(was[..j], was[i], leq) == was[..j] + [was[i]];
    hide Insert;
    assert now == (was[..j] + [was[i]] + was[j..i]) + was[i + 1..];
  }
}
