// What a selector means, read off the pairs of a label map. The evaluator is proved to decide it.
module SelectorMeaning {
  import opened SelectorAst
  import opened StringOrder
  import StringSet

  predicate Holds(labels: Labels, name: string, value: string) {
    (name, value) in labels.Items
  }

  /** Every comparison comes down to which values make an equality hold; the rest is logic. */
  ghost predicate Means(n: Node, labels: Labels) {
    match n
    case Compare(name, Eq, value) => Holds(labels, name, value)
    case Compare(name, Ne, value) => !Holds(labels, name, value)
    case Compare(name, StartsWith, value) => exists t: string :: Holds(labels, name, value + t)
    case Compare(name, EndsWith, value) => exists s: string :: Holds(labels, name, s + value)
    case Compare(name, Contains, value) => exists s: string, t: string :: Holds(labels, name, s + value + t)
    case InSet(name, values) => exists value :: value in values && Holds(labels, name, value)
    case NotInSet(name, values) => forall value :: value in values ==> !Holds(labels, name, value)
    case Has(name) => exists value :: Holds(labels, name, value)
    case Not(operand) => !Means(operand, labels)
    case And(operands) => forall i :: 0 <= i < |operands| ==> Means(operands[i], labels)
    case Or(operands) => exists i :: 0 <= i < |operands| && Means(operands[i], labels)
    case All => true
    case Global => true
  }

  /** As the parser builds them, and as binary search needs them. */
  ghost predicate SortedSets(n: Node) {
    match n
    case InSet(_, values) => StrictlySorted(values)
    case NotInSet(_, values) => StrictlySorted(values)
    case Not(operand) => SortedSets(operand)
    case And(operands) => forall i :: 0 <= i < |operands| ==> SortedSets(operands[i])
    case Or(operands) => forall i :: 0 <= i < |operands| ==> SortedSets(operands[i])
    case _ => true
  }

  lemma AffixMeans(actual: string, value: string)
    ensures value <= actual <==> exists t: string :: value + t == actual
    ensures (|value| <= |actual| && actual[|actual| - |value|..] == value) <==> exists s: string :: s + value == actual
  {
    if value <= actual {
      assert value + actual[|value|..] == actual;
    }
    if |value| <= |actual| && actual[|actual| - |value|..] == value {
      assert actual[..|actual| - |value|] + value == actual;
    }
  }

  lemma InfixMeans(actual: string, value: string)
    ensures (exists i :: 0 <= i <= |actual| && value <= actual[i..])
       <==> exists s: string, t: string :: s + value + t == actual
  {
    if i :| 0 <= i <= |actual| && value <= actual[i..] {
      assert actual[..i] + value + actual[i..][|value|..] == actual;
    }
    if s: string, t: string :| s + value + t == actual {
      assert actual[|s|..] == value + t;
    }
  }

  lemma ComparisonMeans(name: string, op: CompareOp, value: string, labels: Labels)
    ensures Evaluate(Compare(name, op, value), labels) <==> Means(Compare(name, op, value), labels)
  {
    if name in labels {
      AffixMeans(labels[name], value);
      InfixMeans(labels[name], value);
    }
  }

  lemma SetMeans(name: string, values: seq<string>, labels: Labels)
    requires StrictlySorted(values)
    ensures Evaluate(InSet(name, values), labels) <==> Means(InSet(name, values), labels)
    ensures Evaluate(NotInSet(name, values), labels) <==> Means(NotInSet(name, values), labels)
  {
    if name in labels {
      StringSet.StrictlySortedIsSorted(values);
      StringSet.ContainsIsMembership(values, labels[name]);
    }
  }

  /** The evaluator decides the meaning, on every label map. */
  lemma {:induction false} EvaluationIsTheMeaning(n: Node, labels: Labels)
    requires SortedSets(n)
    ensures Evaluate(n, labels) <==> Means(n, labels)
  {
    match n {
      case Compare(name, op, value) => ComparisonMeans(name, op, value, labels);
      case InSet(name, values) => SetMeans(name, values, labels);
      case NotInSet(name, values) => SetMeans(name, values, labels);
      case Has(name) => assert name in labels ==> Holds(labels, name, labels[name]);
      case Not(operand) => EvaluationIsTheMeaning(operand, labels);
      case And(operands) => OperandsMean(operands, labels);
      case Or(operands) => OperandsMean(operands, labels);
      case _ =>
    }
  }

  lemma {:induction false} OperandsMean(operands: seq<Node>, labels: Labels)
    requires forall i :: 0 <= i < |operands| ==> SortedSets(operands[i])
    ensures forall i :: 0 <= i < |operands| ==> (Evaluate(operands[i], labels) <==> Means(operands[i], labels))
  {
    forall i | 0 <= i < |operands|
      ensures Evaluate(operands[i], labels) <==> Means(operands[i], labels)
    {
      EvaluationIsTheMeaning(operands[i], labels);
    }
  }
}
