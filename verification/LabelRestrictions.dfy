// The static analysis of selectors: what a label map must look like for a selector to match.
module LabelRestrictions {
  import opened Wrappers
  import opened SelectorAst
  import opened StringSet

  /** `mustHaveOneOf` is None while no restriction on the value is known; Some([]) means that
      nothing can match. */
  datatype Restriction = Restriction(mustBePresent: bool, mustBeAbsent: bool, mustHaveOneOf: Option<seq<string>>)
  {
    predicate PossibleToSatisfy() {
      !(mustBePresent && mustBeAbsent) && mustHaveOneOf != Some([])
    }
  }

  type Restrictions = map<string, Restriction>

  const NO_RESTRICTION := Restriction(false, false, None)

  function Lookup(lr: Restrictions, name: string): Restriction {
    if name in lr then lr[name] else NO_RESTRICTION
  }

  // ----- the analysis as functions -----

  function Both(base: Restriction, r: Restriction): Restriction {
    Restriction(
      base.mustBePresent || r.mustBePresent,
      base.mustBeAbsent || r.mustBeAbsent,
      if base.mustHaveOneOf.None? then r.mustHaveOneOf
      else if r.mustHaveOneOf.Some? then Some(Intersection(base.mustHaveOneOf.value, r.mustHaveOneOf.value))
      else base.mustHaveOneOf)
  }

  function Either(r: Restriction, opr: Restriction): Restriction {
    var present := r.mustBePresent && opr.mustBePresent;
    Restriction(
      present,
      r.mustBeAbsent && opr.mustBeAbsent,
      if present && r.mustHaveOneOf.Some? && opr.mustHaveOneOf.Some?
      then Some(Union(r.mustHaveOneOf.value, opr.mustHaveOneOf.value)) else None)
  }

  function AndMerge(lr: Restrictions, opLR: Restrictions): Restrictions {
    map name | name in lr.Keys + opLR.Keys ::
      if name in opLR then Both(Lookup(lr, name), opLR[name]) else lr[name]
  }

  predicate Informative(r: Restriction) {
    r.mustBePresent || r.mustBeAbsent
  }

  function OrMerge(lr: Restrictions, opLR: Restrictions): Restrictions {
    map name | name in lr && Informative(Either(lr[name], Lookup(opLR, name))) ::
      Either(lr[name], Lookup(opLR, name))
  }

  function Analyse(n: Node): Restrictions
    decreases n, 1
  {
    match n
    case Compare(name, Eq, value) => map[name := Restriction(true, false, Some([value]))]
    case Compare(_, Ne, _) => map[]
    case Compare(name, _, _) => map[name := Restriction(true, false, None)]
    case InSet(name, values) => map[name := Restriction(true, false, if values == [] then None else Some(values))]
    case Has(name) => map[name := Restriction(true, false, None)]
    case Not(Has(name)) => map[name := Restriction(false, true, None)]
    case And(operands) => AnalyseAll(operands)
    case Or(operands) => AnalyseAny(operands)
    case _ => map[]
  }

  function AnalyseAll(operands: seq<Node>): Restrictions
    decreases operands, 0
  {
    if operands == [] then map[]
    else
      var last := |operands| - 1;
      AndMerge(AnalyseAll(operands[..last]), Analyse(operands[last]))
  }

  function AnalyseAny(operands: seq<Node>): Restrictions
    decreases operands, 0
  {
    if operands == [] then map[]
    else if |operands| == 1 then Analyse(operands[0])
    else
      var last := |operands| - 1;
      OrMerge(AnalyseAny(operands[..last]), Analyse(operands[last]))
  }

  // ----- the analysis as the program's loops -----

  method LabelRestrictionsOf(n: Node) returns (lr: Restrictions)
    ensures lr == Analyse(n)
    decreases n, 1
  {
    match n {
      case And(operands) => lr := AndLoop(operands);
      case Or(operands) => lr := OrLoop(operands);
      case _ => lr := Analyse(n);
    }
  }

  method AndLoop(operands: seq<Node>) returns (lr: Restrictions)
    ensures lr == AnalyseAll(operands)
    decreases operands, 0
  {
    lr := map[];
    for i := 0 to |operands|
      invariant lr == AnalyseAll(operands[..i])
    {
      assert operands[..i + 1][..i] == operands[..i];
      var opLR := LabelRestrictionsOf(operands[i]);
      lr := MergeKeys(lr, opLR);
    }
    assert operands[..|operands|] == operands;
  }

  /** lr with the given keys of opLR merged in. */
  ghost predicate Merged(lr: Restrictions, start: Restrictions, opLR: Restrictions, done: set<string>) {
    && lr.Keys == start.Keys + done
    && forall name :: name in lr ==>
      lr[name] == if name in opLR && name in done then Both(Lookup(start, name), opLR[name])
                  else Lookup(start, name)
  }

  /** The keys come in any order: each is merged once. */
  method MergeKeys(start: Restrictions, opLR: Restrictions) returns (lr: Restrictions)
    ensures lr == AndMerge(start, opLR)
  {
    hide Both, AndMerge, Merged, Lookup;
    lr := start;
    var keys := opLR.Keys;
    ghost var done: set<string> := {};
    MergedNone(start, opLR);
    while keys != {}
      invariant done + keys == opLR.Keys && done !! keys && Merged(lr, start, opLR, done)
      decreases |keys|
    {
      var name :| name in keys;
      var merged := MergeOne(Lookup(lr, name), opLR[name]);
      MergedStep(lr, start, opLR, done, name);
      lr, keys, done := lr[name := merged], keys - {name}, done + {name};
    }
    assert done == opLR.Keys;
    MergedAll(lr, start, opLR);
  }

  lemma MergedNone(start: Restrictions, opLR: Restrictions)
    ensures Merged(start, start, opLR, {})
  {
  }

  lemma MergedStep(lr: Restrictions, start: Restrictions, opLR: Restrictions, done: set<string>, name: string)
    requires Merged(lr, start, opLR, done) && name in opLR && name !in done
    ensures Lookup(lr, name) == Lookup(start, name)
    ensures Merged(lr[name := Both(Lookup(start, name), opLR[name])], start, opLR, done + {name})
  {
    hide Both;
  }

  lemma MergedAll(lr: Restrictions, start: Restrictions, opLR: Restrictions)
    requires Merged(lr, start, opLR, opLR.Keys)
    ensures lr == AndMerge(start, opLR)
  {
    hide Both;
  }

  method MergeOne(base: Restriction, r: Restriction) returns (merged: Restriction)
    ensures merged == Both(base, r)
  {
    var values := base.mustHaveOneOf;
    if values.None? {
      values := r.mustHaveOneOf;
    } else if r.mustHaveOneOf.Some? {
      var both := IntersectSlices(values.value, r.mustHaveOneOf.value);
      values := Some(both);
    }
    merged := Restriction(base.mustBePresent || r.mustBePresent, base.mustBeAbsent || r.mustBeAbsent, values);
  }

  method OrLoop(operands: seq<Node>) returns (lr: Restrictions)
    ensures lr == AnalyseAny(operands)
    decreases operands, 0
  {
    if operands == [] {
      return map[];
    }
    lr := LabelRestrictionsOf(operands[0]);
    for i := 1 to |operands|
      invariant lr == AnalyseAny(operands[..i])
    {
      assert operands[..i + 1][..i] == operands[..i];
      var opLR := LabelRestrictionsOf(operands[i]);
      lr := WeakenKeys(lr, opLR);
    }
    assert operands[..|operands|] == operands;
  }

  method WeakenKeys(start: Restrictions, opLR: Restrictions) returns (lr: Restrictions)
    ensures lr == OrMerge(start, opLR)
  {
    hide Either, Informative, Lookup;
    lr := start;
    var keys := start.Keys;
    while keys != {}
      invariant keys <= start.Keys
      invariant forall name :: name in lr <==>
        name in start && (name in keys || Informative(Either(start[name], Lookup(opLR, name))))
      invariant forall name :: name in lr ==>
        lr[name] == if name in keys then start[name] else Either(start[name], Lookup(opLR, name))
      decreases |keys|
    {
      var name :| name in keys;
      var r := WeakenOne(lr[name], Lookup(opLR, name));
      if Informative(r) {
        lr := lr[name := r];
      } else {
        lr := lr - {name};
      }
      keys := keys - {name};
    }
  }

  method WeakenOne(r: Restriction, opr: Restriction) returns (weakened: Restriction)
    ensures weakened == Either(r, opr)
  {
    var present, absent := r.mustBePresent && opr.mustBePresent, r.mustBeAbsent && opr.mustBeAbsent;
    var values: Option<seq<string>> := None;
    if present && r.mustHaveOneOf.Some? && opr.mustHaveOneOf.Some? {
      var either := UniteSlices(r.mustHaveOneOf.value, opr.mustHaveOneOf.value);
      values := Some(either);
    }
    weakened := Restriction(present, absent, values);
  }

  method IntersectSlices(a: seq<string>, b: seq<string>) returns (r: seq<string>)
    ensures r == Intersection(a, b)
  {
    var x := Allocate(a);
    var y := Allocate(b);
    var m := IntersectInPlace(x, |a|, y, |b|);
    r := x[..m];
  }

  method UniteSlices(a: seq<string>, b: seq<string>) returns (r: seq<string>)
    ensures r == Union(a, b)
  {
    var x := Allocate(a);
    var y := Allocate(b);
    var z, m := UnionInPlace(x, |a|, y, |b|);
    r := z[..m];
  }

  method Allocate(s: seq<string>) returns (a: array<string>)
    ensures fresh(a) && a.Length == |s| && a[..|s|] == s
  {
    a := new string[|s|](i requires 0 <= i < |s| => s[i]);
  }

  // ----- the analysis, structurally -----

  /** Every match has the label: some conjunct, or every disjunct, asks for it. */
  predicate Requires(n: Node, name: string) {
    match n
    case Compare(label', op, _) => op != Ne && label' == name
    case InSet(label', _) => label' == name
    case Has(label') => label' == name
    case And(operands) => exists i :: 0 <= i < |operands| && Requires(operands[i], name)
    case Or(operands) => operands != [] && forall i :: 0 <= i < |operands| ==> Requires(operands[i], name)
    case _ => false
  }

  /** No match has the label. */
  predicate Forbids(n: Node, name: string) {
    match n
    case Not(Has(label')) => label' == name
    case And(operands) => exists i :: 0 <= i < |operands| && Forbids(operands[i], name)
    case Or(operands) => operands != [] && forall i :: 0 <= i < |operands| ==> Forbids(operands[i], name)
    case _ => false
  }

  /** The selector leaves the value v of the label possible. A disjunction restricts the value
      only when every disjunct asks for the label. */
  predicate Admits(n: Node, name: string, v: string) {
    match n
    case Compare(label', Eq, value) => label' == name ==> v == value
    case InSet(label', values) => label' == name && values != [] ==> v in values
    case And(operands) => forall i :: 0 <= i < |operands| ==> Admits(operands[i], name, v)
    case Or(operands) =>
      Requires(n, name) ==> exists i :: 0 <= i < |operands| && Admits(operands[i], name, v)
    case _ => true
  }

  predicate Allows(lr: Restrictions, name: string, v: string) {
    var values := Lookup(lr, name).mustHaveOneOf;
    values.Some? ==> v in values.value
  }

  /** What the reported map says about one label and one value. */
  predicate Reports(lr: Restrictions, name: string, v: string, present: bool, absent: bool, allowed: bool) {
    Lookup(lr, name).mustBePresent == present && Lookup(lr, name).mustBeAbsent == absent
    && Allows(lr, name, v) == allowed
  }

  lemma AndMergeReports(lr: Restrictions, opLR: Restrictions, name: string, v: string)
    ensures var l, r := Lookup(lr, name), Lookup(opLR, name);
            Reports(AndMerge(lr, opLR), name, v, l.mustBePresent || r.mustBePresent,
                    l.mustBeAbsent || r.mustBeAbsent, Allows(lr, name, v) && Allows(opLR, name, v))
  {
    var l, r := Lookup(lr, name).mustHaveOneOf, Lookup(opLR, name).mustHaveOneOf;
    if l.Some? && r.Some? {
      IntersectionIsTheIntersection(l.value, r.value);
    }
  }

  lemma OrMergeReports(lr: Restrictions, opLR: Restrictions, name: string, v: string)
    ensures var l, r := Lookup(lr, name), Lookup(opLR, name);
            Reports(OrMerge(lr, opLR), name, v, l.mustBePresent && r.mustBePresent,
                    l.mustBeAbsent && r.mustBeAbsent,
                    l.mustBePresent && r.mustBePresent ==> Allows(lr, name, v) || Allows(opLR, name, v))
  {
    var l, r := Lookup(lr, name).mustHaveOneOf, Lookup(opLR, name).mustHaveOneOf;
    if l.Some? && r.Some? {
      UnionIsTheUnion(l.value, r.value);
    }
  }

  /** The reported map says exactly what the structure of the selector says: nothing more, so
      that it is sound, and nothing less. */
  lemma {:induction false} AnalysisIsExact(n: Node, name: string, v: string)
    ensures Reports(Analyse(n), name, v, Requires(n, name), Forbids(n, name), Admits(n, name, v))
    decreases n, 1
  {
    match n {
      case And(operands) => ConjunctionIsExact(operands, name, v);
      case Or(operands) => DisjunctionIsExact(operands, name, v);
      case _ =>
    }
  }

  lemma {:induction false} ConjunctionIsExact(operands: seq<Node>, name: string, v: string)
    ensures var n := And(operands);
            Reports(AnalyseAll(operands), name, v, Requires(n, name), Forbids(n, name), Admits(n, name, v))
    decreases operands, 0
  {
    if operands != [] {
      var last := |operands| - 1;
      ConjunctionIsExact(operands[..last], name, v);
      AnalysisIsExact(operands[last], name, v);
      hide Analyse, Requires, Forbids, Admits, Lookup, AndMerge;
      AndMergeReports(AnalyseAll(operands[..last]), Analyse(operands[last]), name, v);
      SplitConjunction(operands, name, v);
    }
  }

  lemma SplitConjunction(operands: seq<Node>, name: string, v: string)
    requires operands != []
    ensures var n, init, last := And(operands), And(operands[..|operands| - 1]), operands[|operands| - 1];
            && (Requires(n, name) <==> Requires(init, name) || Requires(last, name))
            && (Forbids(n, name) <==> Forbids(init, name) || Forbids(last, name))
            && (Admits(n, name, v) <==> Admits(init, name, v) && Admits(last, name, v))
  {
    hide Requires, Forbids, Admits;
    SplitAndRequires(operands, name);
    SplitAndForbids(operands, name);
    SplitAndAdmits(operands, name, v);
  }

  lemma SplitAndRequires(operands: seq<Node>, name: string)
    requires operands != []
    ensures Requires(And(operands), name) <==>
      Requires(And(operands[..|operands| - 1]), name) || Requires(operands[|operands| - 1], name)
  {
    var init, last := operands[..|operands| - 1], |operands| - 1;
    assert forall i :: 0 <= i < last ==> operands[i] == init[i];
    if i :| 0 <= i < last && Requires(init[i], name) {
      assert Requires(operands[i], name);
    }
  }

  lemma SplitAndForbids(operands: seq<Node>, name: string)
    requires operands != []
    ensures Forbids(And(operands), name) <==>
      Forbids(And(operands[..|operands| - 1]), name) || Forbids(operands[|operands| - 1], name)
  {
    var init, last := operands[..|operands| - 1], |operands| - 1;
    assert forall i :: 0 <= i < last ==> operands[i] == init[i];
    if i :| 0 <= i < last && Forbids(init[i], name) {
      assert Forbids(operands[i], name);
    }
  }

  lemma SplitAndAdmits(operands: seq<Node>, name: string, v: string)
    requires operands != []
    ensures Admits(And(operands), name, v) <==>
      Admits(And(operands[..|operands| - 1]), name, v) && Admits(operands[|operands| - 1], name, v)
  {
    var init := operands[..|operands| - 1];
    assert forall i :: 0 <= i < |init| ==> operands[i] == init[i];
  }

  /** Only a label that must be present has its value restricted. */
  lemma {:induction false} AdmitsUnlessRequired(n: Node, name: string, v: string)
    requires !Requires(n, name)
    ensures Admits(n, name, v)
  {
    if n.And? {
      forall i | 0 <= i < |n.operands|
        ensures Admits(n.operands[i], name, v)
      {
        AdmitsUnlessRequired(n.operands[i], name, v);
      }
    }
  }

  lemma SplitDisjunction(operands: seq<Node>, name: string, v: string)
    requires |operands| > 1
    ensures var n, init, last := Or(operands), Or(operands[..|operands| - 1]), operands[|operands| - 1];
            && (Requires(n, name) <==> Requires(init, name) && Requires(last, name))
            && (Forbids(n, name) <==> Forbids(init, name) && Forbids(last, name))
            && (Requires(n, name) ==> (Admits(n, name, v) <==> Admits(init, name, v) || Admits(last, name, v)))
  {
    hide Forbids, Admits;
    SplitOrRequires(operands, name);
    SplitOrForbids(operands, name);
    if Requires(Or(operands), name) {
      SplitOrAdmits(operands, name, v);
    }
  }

  lemma SplitOrRequires(operands: seq<Node>, name: string)
    requires |operands| > 1
    ensures Requires(Or(operands), name) <==>
      Requires(Or(operands[..|operands| - 1]), name) && Requires(operands[|operands| - 1], name)
  {
    var init := operands[..|operands| - 1];
    assert forall i :: 0 <= i < |init| ==> operands[i] == init[i];
  }

  lemma SplitOrForbids(operands: seq<Node>, name: string)
    requires |operands| > 1
    ensures Forbids(Or(operands), name) <==>
      Forbids(Or(operands[..|operands| - 1]), name) && Forbids(operands[|operands| - 1], name)
  {
    var init := operands[..|operands| - 1];
    assert forall i :: 0 <= i < |init| ==> operands[i] == init[i];
  }

  lemma SplitOrAdmits(operands: seq<Node>, name: string, v: string)
    requires |operands| > 1 && Requires(Or(operands), name)
    ensures Admits(Or(operands), name, v) <==>
      Admits(Or(operands[..|operands| - 1]), name, v) || Admits(operands[|operands| - 1], name, v)
  {
    var init := operands[..|operands| - 1];
    SplitOrRequires(operands, name);
    assert forall i :: 0 <= i < |init| ==> operands[i] == init[i];
    if Admits(Or(operands), name, v) {
      var i :| 0 <= i < |operands| && Admits(operands[i], name, v);
      assert i < |init| ==> Admits(init[i], name, v);
    }
    if Admits(Or(init), name, v) {
      var i :| 0 <= i < |init| && Admits(init[i], name, v);
      assert Admits(operands[i], name, v);
    }
  }

  lemma {:induction false} DisjunctionIsExact(operands: seq<Node>, name: string, v: string)
    ensures var n := Or(operands);
            Reports(AnalyseAny(operands), name, v, Requires(n, name), Forbids(n, name), Admits(n, name, v))
    decreases operands, 0
  {
    if |operands| == 1 {
      AnalysisIsExact(operands[0], name, v);
      if !Requires(operands[0], name) {
        AdmitsUnlessRequired(operands[0], name, v);
      }
    } else if operands != [] {
      var last := |operands| - 1;
      var init := operands[..last];
      DisjunctionIsExact(init, name, v);
      AnalysisIsExact(operands[last], name, v);
      OrMergeReports(AnalyseAny(init), Analyse(operands[last]), name, v);
      hide Requires, Forbids, Admits, Analyse, Lookup, OrMerge;
      SplitDisjunction(operands, name, v);
    }
  }

  // ----- soundness -----

  ghost predicate Satisfies(labels: Labels, name: string, r: Restriction) {
    && (r.mustBePresent ==> name in labels)
    && (r.mustBeAbsent ==> name !in labels)
    && (r.mustHaveOneOf.Some? ==> name in labels && labels[name] in r.mustHaveOneOf.value)
  }

  lemma {:induction false} MatchesObeyStructure(n: Node, labels: Labels, name: string)
    requires Evaluate(n, labels)
    ensures Requires(n, name) ==> name in labels
    ensures Forbids(n, name) ==> name !in labels
    ensures name in labels ==> Admits(n, name, labels[name])
  {
    match n {
      case InSet(_, values) =>
      case And(operands) =>
        forall i | 0 <= i < |operands|
          ensures Requires(operands[i], name) ==> name in labels
          ensures Forbids(operands[i], name) ==> name !in labels
          ensures name in labels ==> Admits(operands[i], name, labels[name])
        {
          MatchesObeyStructure(operands[i], labels, name);
        }
      case Or(operands) =>
        var i :| 0 <= i < |operands| && Evaluate(operands[i], labels);
        MatchesObeyStructure(operands[i], labels, name);
      case _ =>
    }
  }

  /** A value restriction always comes with the demand that the label be present. */
  lemma {:induction false} ValuesNeedPresence(n: Node, name: string)
    ensures var r := Lookup(Analyse(n), name); r.mustHaveOneOf.Some? ==> r.mustBePresent
    decreases n, 1
  {
    match n {
      case And(operands) => ConjunctValuesNeedPresence(operands, name);
      case Or(operands) =>
        if |operands| == 1 {
          ValuesNeedPresence(operands[0], name);
        }
      case _ =>
    }
  }

  lemma {:induction false} ConjunctValuesNeedPresence(operands: seq<Node>, name: string)
    ensures var r := Lookup(AnalyseAll(operands), name); r.mustHaveOneOf.Some? ==> r.mustBePresent
    decreases operands, 0
  {
    if operands != [] {
      var last := |operands| - 1;
      ConjunctValuesNeedPresence(operands[..last], name);
      ValuesNeedPresence(operands[last], name);
    }
  }

  /** Soundness: if the selector matches, every reported restriction holds of the labels. */
  lemma AnalysisIsSound(n: Node, labels: Labels)
    requires Evaluate(n, labels)
    ensures forall name :: name in Analyse(n) ==> Satisfies(labels, name, Analyse(n)[name])
  {
    forall name | name in Analyse(n)
      ensures Satisfies(labels, name, Analyse(n)[name])
    {
      MatchesObeyStructure(n, labels, name);
      AnalysisIsExact(n, name, if name in labels then labels[name] else "");
      ValuesNeedPresence(n, name);
    }
  }

  /** A restriction that cannot be satisfied means that the selector matches nothing. */
  lemma ImpossibleMatchesNothing(n: Node, name: string, labels: Labels)
    requires name in Analyse(n) && !Analyse(n)[name].PossibleToSatisfy()
    ensures !Evaluate(n, labels)
  {
    if Evaluate(n, labels) {
      AnalysisIsSound(n, labels);
    }
  }
}
