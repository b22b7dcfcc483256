// The order on strings (`<` compares element by element, a proper prefix first) and the
// sorted sequences it gives. On valid UTF-8 comparing bytes and comparing characters agree.
module StringOrder {

  predicate Less(a: string, b: string) {
    b != "" && (a == "" || a[0] < b[0] || (a[0] == b[0] && Less(a[1..], b[1..])))
  }

  predicate AtMost(a: string, b: string) {
    !Less(b, a)
  }

  /** The strings agree up to a place where the first ends or has the smaller character. */
  ghost predicate Parts(a: string, b: string, i: nat) {
    i <= |a| && i < |b| && a[..i] == b[..i] && (i == |a| || a[i] < b[i])
  }

  lemma {:induction false} LessIsLexicographic(a: string, b: string)
    ensures Less(a, b) <==> exists i: nat :: Parts(a, b, i)
  {
    if a == "" && b != "" {
      assert Parts(a, b, 0);
    } else if a != "" && b != "" && a[0] == b[0] {
      LessIsLexicographic(a[1..], b[1..]);
      if i: nat :| Parts(a[1..], b[1..], i) {
        PartsLater(a, b, i);
      }
      if i: nat :| Parts(a, b, i) {
        assert i > 0;
        PartsLater(a, b, i - 1);
      }
    } else if a != "" && b != "" {
      assert Parts(a, b, 0) <==> a[0] < b[0];
      assert forall i: nat :: Parts(a, b, i) && i > 0 ==> a[..i][0] == b[..i][0];
    }
  }

  lemma PartsLater(a: string, b: string, i: nat)
    requires a != "" && b != "" && a[0] == b[0]
    ensures Parts(a[1..], b[1..], i) <==> Parts(a, b, i + 1)
  {
    if i < |a| && i < |b| - 1 {
      assert a[..i + 1] == [a[0]] + a[1..][..i] && b[..i + 1] == [b[0]] + b[1..][..i];
      assert a[1..][..i] == a[..i + 1][1..] && b[1..][..i] == b[..i + 1][1..];
    }
  }

  lemma {:induction false} LessIsIrreflexive(a: string)
    ensures !Less(a, a)
  {
    if a != "" {
      LessIsIrreflexive(a[1..]);
    }
  }

  lemma {:induction false} LessIsTransitive(a: string, b: string, c: string)
    requires Less(a, b) && Less(b, c)
    ensures Less(a, c)
  {
    if a != "" && a[0] == b[0] == c[0] {
      LessIsTransitive(a[1..], b[1..], c[1..]);
    }
  }

  lemma {:induction false} LessIsTotal(a: string, b: string)
    ensures a == b || Less(a, b) || Less(b, a)
  {
    if a != "" && b != "" && a[0] == b[0] {
      LessIsTotal(a[1..], b[1..]);
      assert a[1..] == b[1..] ==> a == [a[0]] + a[1..] == [b[0]] + b[1..] == b;
    }
  }

  /** The order as a whole: exactly one of less, equal and greater holds. */
  lemma Trichotomy(a: string, b: string)
    ensures Less(a, b) ==> a != b && !Less(b, a)
    ensures AtMost(a, b) <==> (Less(a, b) || a == b)
  {
    LessIsIrreflexive(a);
    LessIsTotal(a, b);
    if Less(a, b) && Less(b, a) {
      LessIsTransitive(a, b, a);
    }
  }

  lemma AtMostIsTransitive(a: string, b: string, c: string)
    requires AtMost(a, b) && AtMost(b, c)
    ensures AtMost(a, c)
  {
    Trichotomy(a, b);
    Trichotomy(b, c);
    Trichotomy(a, c);
    if Less(a, b) && Less(b, c) {
      LessIsTransitive(a, b, c);
    }
  }

  ghost predicate Sorted(s: seq<string>) {
    forall i, j :: 0 <= i < j < |s| ==> AtMost(s[i], s[j])
  }

  ghost predicate StrictlySorted(s: seq<string>) {
    forall i, j :: 0 <= i < j < |s| ==> Less(s[i], s[j])
  }

  ghost predicate SameElements(s: seq<string>, t: seq<string>) {
    forall v :: v in s <==> v in t
  }

  /** A strictly sorted sequence is determined by the set of its elements. */
  lemma {:induction false} StrictlySortedIsUnique(s: seq<string>, t: seq<string>)
    requires StrictlySorted(s) && StrictlySorted(t) && SameElements(s, t)
    ensures s == t
  {
    EmptyTogether(s, t);
    if s != [] {
      FirstIsLeast(s, t);
      FirstIsLeast(t, s);
      Trichotomy(s[0], t[0]);
      forall v
        ensures v in s[1..] <==> v in t[1..]
      {
        LessIsIrreflexive(v);
        assert v in s <==> v == s[0] || v in s[1..];
        assert v in t <==> v == t[0] || v in t[1..];
      }
      StrictlySortedIsUnique(s[1..], t[1..]);
    }
  }

  lemma EmptyTogether(s: seq<string>, t: seq<string>)
    requires SameElements(s, t)
    ensures s == [] <==> t == []
  {
    assert s != [] ==> s[0] in s;
    assert t != [] ==> t[0] in t;
  }

  lemma FirstIsLeast(s: seq<string>, t: seq<string>)
    requires StrictlySorted(s) && s != [] && t != [] && SameElements(s, t)
    ensures AtMost(s[0], t[0])
  {
    assert t[0] in s;
    var k :| 0 <= k < |s| && s[k] == t[0];
    Trichotomy(s[0], t[0]);
  }
}
