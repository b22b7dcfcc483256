// The parser object: the loops of the recursive descent, with and without building nodes.
module ParserObject {
  import opened Wrappers
  import opened Tokenizer
  import opened SelectorAst
  import opened Grammar
  import opened Parser
  import StringSet

  type Step = Result<(Option<Node>, Stream), ParseError>

  /** What a parsing method returns, given what the parser computes: in validate-only mode no
      node, but the same rest and the same error. */
  function Outcome(r: Parsed, validateOnly: bool): Step {
    match r
    case Ok((n, rest)) => Ok((if validateOnly then None else Some(n), rest))
    case Err(e) => Err(e)
  }

  /** The nodes collected so far: none in validate-only mode. */
  predicate Collected(nodes: seq<Node>, all: seq<Node>, validateOnly: bool) {
    !validateOnly ==> nodes == all
  }

  lemma ThirdToken(tokens: Stream)
    requires EofTerminated(tokens) && tokens.head.kind != TokEOF && Length(tokens) >= 3
    ensures EofTerminated(tokens.tail) && tokens.tail.head.kind != TokEOF && EofTerminated(tokens.tail.tail)
  {
    assert EofTerminated(tokens.tail) && Length(tokens.tail) == Length(tokens) - 1;
    assert Length(tokens.tail) == 1 + Length(tokens.tail.tail);
  }

  class SelectorParser {
    /** The reusable buffer; every parse starts from its empty prefix. */
    var tokBuf: seq<Token>

    constructor ()
    {
      tokBuf := [];
    }

    method ParseSelector(selector: string) returns (r: Result<Node, ParseError>)
      modifies this
      ensures r == Parse(selector)
    {
      var root := ParseRoot(selector, false);
      r := match root { case Ok(n) => Ok(n.value) case Err(e) => Err(e) };
    }

    /** Accepts exactly the selectors that parse, with the same error otherwise. */
    method Validate(selector: string) returns (r: Option<ParseError>)
      modifies this
      ensures r == match Parse(selector) case Ok(_) => None case Err(e) => Some(e)
    {
      var root := ParseRoot(selector, true);
      r := match root { case Ok(_) => None case Err(e) => Some(e) };
    }

    /** The result does not depend on what an earlier parse left in the buffer. */
    method ParseRoot(selector: string, validateOnly: bool) returns (r: Result<Option<Node>, ParseError>)
      modifies this
      ensures r == match Parse(selector)
                   case Ok(n) => Ok(if validateOnly then None else Some(n))
                   case Err(e) => Err(e)
    {
      TokensAreWellFormed(false, selector);
      var lexed := AppendTokens(tokBuf[..0], selector);
      if lexed.Err? {
        return Err(Lexical(lexed.error));
      }
      var tokens := lexed.value;
      if * {
        tokBuf := []; // the buffer grew: keep the larger storage, at length zero
      }
      if tokens.head.kind == TokEOF {
        return Ok(if validateOnly then None else Some(All));
      }
      var parsed := ParseOrExpression(tokens, validateOnly);
      if parsed.Err? {
        return Err(parsed.error);
      }
      var (node, remTokens) := parsed.value;
      if remTokens.tail.Cons? {
        return Err(TrailingContent);
      }
      r := Ok(node);
    }

    method ParseOrExpression(tokens: Stream, validateOnly: bool) returns (r: Step)
      requires EofTerminated(tokens)
      ensures r == Outcome(ParseOr(tokens), validateOnly)
      decreases Length(tokens), 3
    {
      var first := ParseAndExpression(tokens, validateOnly);
      if first.Err? {
        return first;
      }
      var (sel, remTokens) := first.value;
      var andNodes: seq<Node> := if validateOnly then [] else [sel.value];
      ghost var all := [ParseAnd(tokens).value.0];
      while remTokens.head.kind == TokOr
        invariant EofTerminated(remTokens) && Length(remTokens) < Length(tokens)
        invariant Collected(andNodes, all, validateOnly) && ParseOr(tokens) == OrLoop(all, remTokens)
        decreases Length(remTokens)
      {
        var next := ParseAndExpression(remTokens.tail, validateOnly);
        if next.Err? {
          return next;
        }
        all := all + [ParseAnd(remTokens.tail).value.0];
        remTokens := next.value.1;
        if !validateOnly {
          andNodes := andNodes + [next.value.0.value];
        }
      }
      r := Ok((if validateOnly then None else Some(MakeOr(andNodes)), remTokens));
    }

    method ParseAndExpression(tokens: Stream, validateOnly: bool) returns (r: Step)
      requires EofTerminated(tokens)
      ensures r == Outcome(ParseAnd(tokens), validateOnly)
      decreases Length(tokens), 2
    {
      var first := ParseOneOperation(tokens, validateOnly);
      if first.Err? {
        return first;
      }
      var (sel, remTokens) := first.value;
      var opNodes: seq<Node> := if validateOnly then [] else [sel.value];
      ghost var all := [ParseOperation(tokens).value.0];
      while remTokens.head.kind == TokAnd
        invariant EofTerminated(remTokens) && Length(remTokens) < Length(tokens)
        invariant Collected(opNodes, all, validateOnly) && ParseAnd(tokens) == AndLoop(all, remTokens)
        decreases Length(remTokens)
      {
        var next := ParseOneOperation(remTokens.tail, validateOnly);
        if next.Err? {
          return next;
        }
        all := all + [ParseOperation(remTokens.tail).value.0];
        remTokens := next.value.1;
        if !validateOnly {
          opNodes := opNodes + [next.value.0.value];
        }
      }
      r := Ok((if validateOnly then None else Some(MakeAnd(opNodes)), remTokens));
    }

    method ParseOneOperation(tokens: Stream, validateOnly: bool) returns (r: Step)
      requires tokens.Nil? || EofTerminated(tokens)
      ensures r == Outcome(ParseOperation(tokens), validateOnly)
      decreases Length(tokens), 1
    {
      if tokens.Nil? {
        return Err(UnexpectedEOF);
      }
      var negated, rest := false, tokens;
      while rest.head.kind == TokNot
        invariant EofTerminated(rest) && Length(rest) <= Length(tokens)
        invariant SkipNots(negated, rest) == SkipNots(false, tokens)
        decreases Length(rest)
      {
        negated, rest := !negated, rest.tail;
      }
      var parsed := ParsePrimaryOperation(rest, validateOnly);
      if parsed.Err? || !negated || validateOnly {
        return parsed;
      }
      r := Ok((Some(Not(parsed.value.0.value)), parsed.value.1));
    }

    /** What follows the "!" signs: a call, a label, or a parenthesis. */
    method ParsePrimaryOperation(tokens: Stream, validateOnly: bool) returns (r: Step)
      requires EofTerminated(tokens)
      ensures r == Outcome(ParsePrimary(tokens), validateOnly)
      decreases Length(tokens), 0
    {
      hide ParseOr, ParseLabel;
      match tokens.head.kind {
        case TokHas => r := Ok((if validateOnly then None else Some(Has(tokens.head.value)), tokens.tail));
        case TokAll => r := Ok((if validateOnly then None else Some(All), tokens.tail));
        case TokGlobal => r := Ok((if validateOnly then None else Some(Global), tokens.tail));
        case TokLabel => r := ParseLabelOperation(tokens, validateOnly);
        case TokLParen =>
          r := ParseOrExpression(tokens.tail, validateOnly);
          if r.Ok? {
            var (sel, remTokens) := r.value;
            r := if remTokens.head.kind != TokRParen then Err(ExpectedRParen) else Ok((sel, remTokens.tail));
          }
        case _ => r := Err(UnexpectedToken);
      }
    }

    /** A label with its operator and literal. */
    method ParseLabelOperation(tokens: Stream, validateOnly: bool) returns (r: Step)
      requires EofTerminated(tokens) && tokens.head.kind == TokLabel
      ensures r == Outcome(ParseLabel(tokens), validateOnly)
    {
      hide ParseComparison, ParseMembership;
      if Length(tokens) < 3 {
        return Err(UnexpectedEOF);
      }
      ThirdToken(tokens);
      var name, literal := tokens.head.value, tokens.tail.tail;
      match tokens.tail.head.kind {
        case TokEq => r := ParseValue(name, Eq, literal, validateOnly);
        case TokNe => r := ParseValue(name, Ne, literal, validateOnly);
        case TokContains => r := ParseValue(name, Contains, literal, validateOnly);
        case TokStartsWith => r := ParseValue(name, StartsWith, literal, validateOnly);
        case TokEndsWith => r := ParseValue(name, EndsWith, literal, validateOnly);
        case TokIn => r := ParseSet(name, false, literal, validateOnly);
        case TokNotIn => r := ParseSet(name, true, literal, validateOnly);
        case _ => r := Err(ExpectedOperatorKind);
      }
    }

    method ParseValue(name: string, op: CompareOp, literal: Stream, validateOnly: bool) returns (r: Step)
      requires EofTerminated(literal)
      ensures r == Outcome(ParseComparison(name, op, literal), validateOnly)
    {
      if literal.head.kind != TokStringLiteral {
        return Err(ExpectedString);
      }
      r := Ok((if validateOnly then None else Some(Compare(name, op, literal.head.value)), literal.tail));
    }

    /** A set literal; its values are sorted and compacted in place. */
    method ParseSet(name: string, negated: bool, literal: Stream, validateOnly: bool) returns (r: Step)
      requires EofTerminated(literal)
      ensures r == Outcome(ParseMembership(name, negated, literal), validateOnly)
    {
      hide CollectValues, StringSet.SetOf;
      if literal.head.kind != TokLBrace {
        return Err(ExpectedSetLit);
      }
      var values, rest := CollectLoop(literal.tail);
      if rest.head.kind != TokRBrace {
        return Err(ExpectedRBrace);
      }
      var ss := SetInPlace(values);
      var node := if negated then NotInSet(name, ss) else InSet(name, ss);
      r := Ok((if validateOnly then None else Some(node), rest.tail));
    }

    method SetInPlace(values: seq<string>) returns (ss: seq<string>)
      ensures ss == StringSet.SetOf(values)
    {
      var a := new string[|values|](i requires 0 <= i < |values| => values[i]);
      assert a[..|values|] == values;
      var m := StringSet.ConvertToStringSetInPlace(a, |values|);
      ss := a[..m];
    }

    method CollectLoop(tokens: Stream) returns (values: seq<string>, rest: Stream)
      requires EofTerminated(tokens)
      ensures (values, rest) == CollectValues([], tokens) && EofTerminated(rest)
    {
      values, rest := [], tokens;
      while rest.head.kind == TokStringLiteral
        invariant EofTerminated(rest) && CollectValues(values, rest) == CollectValues([], tokens)
        decreases Length(rest)
      {
        values, rest := values + [rest.head.value], rest.tail;
        assert EofTerminated(rest);
        if rest.head.kind != TokComma {
          return;
        }
        assert Length(rest.tail) == Length(rest) - 1;
        rest := rest.tail;
      }
    }
  }
}
