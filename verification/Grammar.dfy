// The selector grammar: what a token sequence derives and the tree that it stands for. The
// parser is proved to accept exactly this grammar.
module Grammar {
  import opened SelectorAst
  import opened StringOrder
  import opened Tokenizer
  import StringSet

  /** "||" binds weakest, then "&&"; an operation is any number of "!" before a primary. */
  datatype OrExpr = OrOne(term: AndExpr) | OrMore(term: AndExpr, rest: OrExpr)

  datatype AndExpr = AndOne(op: OpExpr) | AndMore(op: OpExpr, rest: AndExpr)

  datatype OpExpr = OpExpr(nots: nat, primary: Primary)

  datatype Primary =
    | HasName(name: string)
    | AllCall
    | GlobalCall
    | Comparison(name: string, op: CompareOp, value: string)
    | Membership(name: string, negated: bool, values: seq<string>, trailingComma: bool)
    | Paren(inner: OrExpr)

  // ----- tokens -----

  function OpKind(op: CompareOp): Kind {
    match op
    case Eq => TokEq
    case Ne => TokNe
    case Contains => TokContains
    case StartsWith => TokStartsWith
    case EndsWith => TokEndsWith
  }

  // Every function below puts the tokens of its construct in front of `rest`.

  function OrTokens(e: OrExpr, rest: Stream): (r: Stream)
    ensures EofTerminated(rest) ==> EofTerminated(r)
  {
    match e
    case OrOne(term) => AndTokens(term, rest)
    case OrMore(term, more) => AndTokens(term, Cons(Tok(TokOr), OrTokens(more, rest)))
  }

  function AndTokens(e: AndExpr, rest: Stream): (r: Stream)
    ensures EofTerminated(rest) ==> EofTerminated(r)
  {
    match e
    case AndOne(op) => OpTokens(op, rest)
    case AndMore(op, more) => OpTokens(op, Cons(Tok(TokAnd), AndTokens(more, rest)))
  }

  function OpTokens(e: OpExpr, rest: Stream): (r: Stream)
    ensures EofTerminated(rest) ==> EofTerminated(r)
  {
    NotTokens(e.nots, PrimaryTokens(e.primary, rest))
  }

  function NotTokens(nots: nat, rest: Stream): (r: Stream)
    ensures EofTerminated(rest) ==> EofTerminated(r)
  {
    if nots == 0 then rest else Cons(Tok(TokNot), NotTokens(nots - 1, rest))
  }

  function PrimaryTokens(p: Primary, rest: Stream): (r: Stream)
    ensures EofTerminated(rest) ==> EofTerminated(r)
  {
    match p
    case HasName(name) => Cons(Token(TokHas, name), rest)
    case AllCall => Cons(Tok(TokAll), rest)
    case GlobalCall => Cons(Tok(TokGlobal), rest)
    case Comparison(name, op, value) =>
      var literal := Cons(Token(TokStringLiteral, value), rest);
      assert EofTerminated(rest) ==> EofTerminated(literal);
      Cons(Token(TokLabel, name), Cons(Tok(OpKind(op)), literal))
    case Membership(name, negated, values, trailing) =>
      var literal := Cons(Tok(TokLBrace), ValueTokens(values, trailing, Cons(Tok(TokRBrace), rest)));
      assert EofTerminated(rest) ==> EofTerminated(literal);
      Cons(Token(TokLabel, name), Cons(Tok(if negated then TokNotIn else TokIn), literal))
    case Paren(inner) => Cons(Tok(TokLParen), OrTokens(inner, Cons(Tok(TokRParen), rest)))
  }

  /** The values of a set literal; the last may be followed by a comma. */
  function ValueTokens(values: seq<string>, trailing: bool, rest: Stream): (r: Stream)
    ensures EofTerminated(rest) ==> EofTerminated(r)
  {
    if values == [] then rest
    else
      var more := ValueTokens(values[1..], trailing, rest);
      Cons(Token(TokStringLiteral, values[0]),
           if |values| > 1 || trailing then Cons(Tok(TokComma), more) else more)
  }

  // ----- trees -----

  function MakeOr(nodes: seq<Node>): Node {
    if |nodes| == 1 then nodes[0] else Or(nodes)
  }

  function MakeAnd(nodes: seq<Node>): Node {
    if |nodes| == 1 then nodes[0] else And(nodes)
  }

  function OrTree(e: OrExpr): Node
    decreases e, 1
  {
    MakeOr(OrTerms(e))
  }

  function OrTerms(e: OrExpr): (r: seq<Node>)
    ensures r != []
    decreases e, 0
  {
    match e
    case OrOne(term) => [AndTree(term)]
    case OrMore(term, rest) => [AndTree(term)] + OrTerms(rest)
  }

  function AndTree(e: AndExpr): Node
    decreases e, 1
  {
    MakeAnd(AndTerms(e))
  }

  function AndTerms(e: AndExpr): (r: seq<Node>)
    ensures r != []
    decreases e, 0
  {
    match e
    case AndOne(op) => [OpTree(op)]
    case AndMore(op, rest) => [OpTree(op)] + AndTerms(rest)
  }

  /** Only the parity of the "!" signs matters. */
  function OpTree(e: OpExpr): Node {
    if e.nots % 2 == 1 then Not(PrimaryTree(e.primary)) else PrimaryTree(e.primary)
  }

  function PrimaryTree(p: Primary): Node {
    match p
    case HasName(name) => Has(name)
    case AllCall => All
    case GlobalCall => Global
    case Comparison(name, op, value) => Compare(name, op, value)
    case Membership(name, negated, values, _) =>
      if negated then NotInSet(name, StringSet.SetOf(values)) else InSet(name, StringSet.SetOf(values))
    case Paren(inner) => OrTree(inner)
  }

  // ----- well-formed trees -----

  /** The trees the printer is meant for: And/Or with at least two operands, valid labels,
      quotable strings, strictly sorted sets. */
  ghost predicate WellFormed(n: Node) {
    match n
    case Compare(name, _, value) => ValidLabel(name) && Quotable(value)
    case InSet(name, values) => ValidLabel(name) && ProperSet(values)
    case NotInSet(name, values) => ValidLabel(name) && ProperSet(values)
    case Has(name) => ValidLabel(name)
    case Not(operand) => WellFormed(operand)
    case And(operands) => |operands| >= 2 && forall i :: 0 <= i < |operands| ==> WellFormed(operands[i])
    case Or(operands) => |operands| >= 2 && forall i :: 0 <= i < |operands| ==> WellFormed(operands[i])
    case _ => true
  }

  ghost predicate ProperSet(values: seq<string>) {
    StrictlySorted(values) && forall v :: v in values ==> Quotable(v)
  }

  ghost predicate AllWellFormed(nodes: seq<Node>) {
    forall n :: n in nodes ==> WellFormed(n)
  }

  /** Whatever derives from well-lexed tokens is a well-formed tree. */
  lemma {:induction false} OrIsWellFormed(e: OrExpr, rest: Stream)
    requires WellLexed(OrTokens(e, rest))
    ensures AllWellFormed(OrTerms(e)) && WellFormed(OrTree(e)) && WellLexed(rest)
  {
    match e {
      case OrOne(term) => AndIsWellFormed(term, rest);
      case OrMore(term, more) =>
        AndIsWellFormed(term, Cons(Tok(TokOr), OrTokens(more, rest)));
        OrIsWellFormed(more, rest);
    }
  }

  lemma {:induction false} AndIsWellFormed(e: AndExpr, rest: Stream)
    requires WellLexed(AndTokens(e, rest))
    ensures AllWellFormed(AndTerms(e)) && WellFormed(AndTree(e)) && WellLexed(rest)
  {
    match e {
      case AndOne(op) => OpIsWellFormed(op, rest);
      case AndMore(op, more) =>
        OpIsWellFormed(op, Cons(Tok(TokAnd), AndTokens(more, rest)));
        AndIsWellFormed(more, rest);
    }
  }

  lemma {:induction false} OpIsWellFormed(e: OpExpr, rest: Stream)
    requires WellLexed(OpTokens(e, rest))
    ensures WellFormed(OpTree(e)) && WellLexed(rest)
  {
    hide OrTokens, OrTree, NotTokens, StringSet.SetOf, ValidLabel;
    NotsAreLexed(e.nots, PrimaryTokens(e.primary, rest));
    match e.primary {
      case Comparison(_, _, value) =>
        assert WellLexed(PrimaryTokens(e.primary, rest).tail.tail);
      case Membership(_, _, values, trailing) =>
        assert WellLexed(PrimaryTokens(e.primary, rest).tail.tail);
        ValuesAreQuotable(values, trailing, Cons(Tok(TokRBrace), rest));
        StringSet.SetOfIsTheSet(values);
      case Paren(inner) =>
        OrIsWellFormed(inner, Cons(Tok(TokRParen), rest));
      case _ =>
    }
  }

  lemma {:induction false} NotsAreLexed(nots: nat, rest: Stream)
    requires WellLexed(NotTokens(nots, rest))
    ensures WellLexed(rest)
  {
    if nots > 0 {
      NotsAreLexed(nots - 1, rest);
    }
  }

  lemma {:induction false} ValuesAreQuotable(values: seq<string>, trailing: bool, rest: Stream)
    requires WellLexed(ValueTokens(values, trailing, rest))
    ensures (forall v :: v in values ==> Quotable(v)) && WellLexed(rest)
  {
    if values != [] {
      ValuesAreQuotable(values[1..], trailing, rest);
    }
  }
}
