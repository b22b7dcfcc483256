// Selector trees: meaning, canonical text, and what makes a tree well formed.
module SelectorAst {
  import opened StringOrder
  import opened StringSet

  datatype CompareOp = Eq | Ne | Contains | StartsWith | EndsWith

  /** One constructor per node type, the five label/value comparisons sharing one.
      An empty `values` is the nil set, the only empty set the parser builds. */
  datatype Node =
    | Compare(name: string, op: CompareOp, value: string)
    | InSet(name: string, values: seq<string>)
    | NotInSet(name: string, values: seq<string>)
    | Has(name: string)
    | Not(operand: Node)
    | And(operands: seq<Node>)
    | Or(operands: seq<Node>)
    | All
    | Global

  type Labels = map<string, string>

  // ----- evaluation -----

  predicate Evaluate(n: Node, labels: Labels) {
    match n
    case Compare(name, Ne, value) => name in labels ==> labels[name] != value
    case Compare(name, op, value) => name in labels && CompareValues(op, labels[name], value)
    case InSet(name, values) => name in labels && StringSet.Contains(values, labels[name])
    case NotInSet(name, values) => name in labels ==> !StringSet.Contains(values, labels[name])
    case Has(name) => name in labels
    case Not(operand) => !Evaluate(operand, labels)
    case And(operands) => forall i :: 0 <= i < |operands| ==> Evaluate(operands[i], labels)
    case Or(operands) => exists i :: 0 <= i < |operands| && Evaluate(operands[i], labels)
    case All => true
    case Global => true
  }

  predicate CompareValues(op: CompareOp, actual: string, wanted: string) {
    match op
    case Eq => actual == wanted
    case Ne => actual != wanted
    case Contains => exists i :: 0 <= i <= |actual| && wanted <= actual[i..]
    case StartsWith => wanted <= actual
    case EndsWith => |wanted| <= |actual| && actual[|actual| - |wanted|..] == wanted
  }

  // ----- canonical text -----

  function OpText(op: CompareOp): string {
    match op
    case Eq => " == "
    case Ne => " != "
    case Contains => " contains "
    case StartsWith => " starts with "
    case EndsWith => " ends with "
  }

  /** A string between double quotes, or single ones when it holds a double quote. */
  function Quoted(s: string): string {
    var quote := if '"' in s then "'" else "\"";
    quote + s + quote
  }

  function PrintValues(values: seq<string>): string {
    if values == [] then ""
    else Quoted(values[0]) + if |values| == 1 then "" else ", " + PrintValues(values[1..])
  }

  function Print(n: Node): string
    decreases n, 1
  {
    match n
    case Compare(name, op, value) => name + OpText(op) + Quoted(value)
    case InSet(name, values) => name + " in {" + PrintValues(values) + "}"
    case NotInSet(name, values) => name + " not in {" + PrintValues(values) + "}"
    case Has(name) => "has(" + name + ")"
    case Not(operand) => "!" + Print(operand)
    case And(operands) => "(" + PrintOperands(operands, " && ") + ")"
    case Or(operands) => "(" + PrintOperands(operands, " || ") + ")"
    case All => "all()"
    case Global => "global()"
  }

  function PrintOperands(operands: seq<Node>, separator: string): string
    decreases operands, 0
  {
    if operands == [] then ""
    else
      Print(operands[0]) +
      if |operands| == 1 then "" else separator + PrintOperands(operands[1..], separator)
  }

  // ----- chains of negation -----

  /** The tree with each chain of directly nested Nots reduced modulo 2. */
  function Reduce(n: Node): Node
    decreases n, 1
  {
    match n
    case Not(Not(operand)) => Reduce(operand)
    case Not(operand) => Not(Reduce(operand))
    case And(operands) => And(ReduceAll(operands))
    case Or(operands) => Or(ReduceAll(operands))
    case _ => n
  }

  function ReduceAll(operands: seq<Node>): (r: seq<Node>)
    ensures |r| == |operands|
    decreases operands, 0
  {
    if operands == [] then [] else [Reduce(operands[0])] + ReduceAll(operands[1..])
  }

  /** No Not directly under a Not, anywhere in the tree. */
  predicate NoDoubleNot(n: Node) {
    match n
    case Not(operand) => !operand.Not? && NoDoubleNot(operand)
    case And(operands) => forall i :: 0 <= i < |operands| ==> NoDoubleNot(operands[i])
    case Or(operands) => forall i :: 0 <= i < |operands| ==> NoDoubleNot(operands[i])
    case _ => true
  }

  lemma {:induction false} ReduceAllAt(operands: seq<Node>, i: nat)
    requires i < |operands|
    ensures ReduceAll(operands)[i] == Reduce(operands[i])
  {
    if i > 0 {
      ReduceAllAt(operands[1..], i - 1);
    }
  }

  /** Reducing keeps the meaning on every label map. */
  lemma {:induction false} ReduceKeepsMeaning(n: Node, labels: Labels)
    ensures Evaluate(Reduce(n), labels) == Evaluate(n, labels)
  {
    match n {
      case Not(Not(operand)) => ReduceKeepsMeaning(operand, labels);
      case Not(operand) => ReduceKeepsMeaning(operand, labels);
      case And(operands) =>
        OperandsKeepMeaning(operands, labels);
      case Or(operands) =>
        OperandsKeepMeaning(operands, labels);
        assert Evaluate(Reduce(n), labels) <==>
          exists i :: 0 <= i < |operands| && Evaluate(ReduceAll(operands)[i], labels);
      case _ =>
    }
  }

  lemma {:induction false} OperandsKeepMeaning(operands: seq<Node>, labels: Labels)
    ensures forall i :: 0 <= i < |operands| ==>
      Evaluate(ReduceAll(operands)[i], labels) == Evaluate(operands[i], labels)
    decreases operands, 0
  {
    forall i | 0 <= i < |operands|
      ensures Evaluate(ReduceAll(operands)[i], labels) == Evaluate(operands[i], labels)
    {
      ReduceAllAt(operands, i);
      ReduceKeepsMeaning(operands[i], labels);
    }
  }

  /** A reduced tree has no double negation, and reducing twice is reducing once. */
  lemma {:induction false} ReduceIsCanonical(n: Node)
    ensures NoDoubleNot(Reduce(n)) && (n.Not? || !Reduce(n).Not?)
  {
    match n {
      case Not(Not(operand)) => ReduceIsCanonical(operand);
      case Not(operand) => ReduceIsCanonical(operand);
      case And(operands) =>
        forall i | 0 <= i < |operands|
          ensures NoDoubleNot(ReduceAll(operands)[i])
        {
          ReduceAllAt(operands, i);
          ReduceIsCanonical(operands[i]);
        }
      case Or(operands) =>
        forall i | 0 <= i < |operands|
          ensures NoDoubleNot(ReduceAll(operands)[i])
        {
          ReduceAllAt(operands, i);
          ReduceIsCanonical(operands[i]);
        }
      case _ =>
    }
  }

  /** Reducing changes a tree exactly when it holds a double negation. */
  lemma {:induction false} ReduceFixes(n: Node)
    ensures Reduce(n) == n <==> NoDoubleNot(n)
  {
    ReduceIsCanonical(n);
    if NoDoubleNot(n) {
      match n {
        case Not(operand) => ReduceFixes(operand);
        case And(operands) => OperandsFixed(operands);
        case Or(operands) => OperandsFixed(operands);
        case _ =>
      }
    }
  }

  lemma {:induction false} OperandsFixed(operands: seq<Node>)
    requires forall i :: 0 <= i < |operands| ==> NoDoubleNot(operands[i])
    ensures ReduceAll(operands) == operands
    decreases operands, 0
  {
    forall i | 0 <= i < |operands|
      ensures ReduceAll(operands)[i] == operands[i]
    {
      ReduceAllAt(operands, i);
      ReduceFixes(operands[i]);
    }
  }
}
