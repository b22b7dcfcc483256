// The recursive-descent parser: as functions, as the loops of the program, and against the
// grammar.
module Parser {
  import opened Wrappers
  import opened Tokenizer
  import opened SelectorAst
  import opened Grammar
  import StringSet

  datatype ParseError =
    | Lexical(error: LexError)
    | UnexpectedEOF | ExpectedRParen | ExpectedRBrace | ExpectedString | ExpectedSetLit
    | ExpectedOperatorKind | UnexpectedToken | TrailingContent

  type Parsed = Result<(Node, Stream), ParseError>

  function Length(tokens: Stream): nat {
    if tokens.Nil? then 0 else 1 + Length(tokens.tail)
  }

  /** What a successful sub-parse leaves: strictly shorter, and still ending in the EOF. */
  ghost predicate Consumes(r: Parsed, tokens: Stream) {
    && (r.Ok? ==> EofTerminated(r.value.1) && Length(r.value.1) < Length(tokens))
    && (r.Err? ==> OfParse(r.error))
  }

  /** The errors of the recursive descent itself. */
  predicate OfParse(error: ParseError) {
    !error.Lexical? && error != TrailingContent
  }

  // ----- the parser as functions -----

  function ParseOr(tokens: Stream): (r: Parsed)
    requires EofTerminated(tokens)
    ensures Consumes(r, tokens)
    decreases Length(tokens), 4
  {
    var (n, rest) :- ParseAnd(tokens);
    OrLoop([n], rest)
  }

  function OrLoop(andNodes: seq<Node>, rest: Stream): (r: Parsed)
    requires EofTerminated(rest)
    ensures r.Ok? ==> EofTerminated(r.value.1) && Length(r.value.1) <= Length(rest)
    ensures r.Err? ==> OfParse(r.error)
    decreases Length(rest), 3
  {
    if rest.head.kind == TokOr then
      var (n, more) :- ParseAnd(rest.tail);
      OrLoop(andNodes + [n], more)
    else Ok((MakeOr(andNodes), rest))
  }

  function ParseAnd(tokens: Stream): (r: Parsed)
    requires EofTerminated(tokens)
    ensures Consumes(r, tokens)
    decreases Length(tokens), 2
  {
    var (n, rest) :- ParseOperation(tokens);
    AndLoop([n], rest)
  }

  function AndLoop(opNodes: seq<Node>, rest: Stream): (r: Parsed)
    requires EofTerminated(rest)
    ensures r.Ok? ==> EofTerminated(r.value.1) && Length(r.value.1) <= Length(rest)
    ensures r.Err? ==> OfParse(r.error)
    decreases Length(rest), 2
  {
    if rest.head.kind == TokAnd then
      var (n, more) :- ParseOperation(rest.tail);
      AndLoop(opNodes + [n], more)
    else Ok((MakeAnd(opNodes), rest))
  }

  function ParseOperation(tokens: Stream): (r: Parsed)
    requires tokens.Nil? || EofTerminated(tokens)
    ensures Consumes(r, tokens)
    decreases Length(tokens), 1
  {
    if tokens.Nil? then Err(UnexpectedEOF)
    else
      var (negated, rest) := SkipNots(false, tokens);
      var (n, more) :- ParsePrimary(rest);
      Ok((if negated then Not(n) else n, more))
  }

  function SkipNots(negated: bool, tokens: Stream): (r: (bool, Stream))
    requires EofTerminated(tokens)
    ensures EofTerminated(r.1) && Length(r.1) <= Length(tokens)
    decreases tokens
  {
    if tokens.head.kind == TokNot then
      SkipNots(!negated, tokens.tail)
    else (negated, tokens)
  }

  function ParsePrimary(tokens: Stream): (r: Parsed)
    requires EofTerminated(tokens)
    ensures Consumes(r, tokens)
    decreases Length(tokens), 0
  {
    match tokens.head.kind
    case TokHas => Ok((Has(tokens.head.value), tokens.tail))
    case TokAll => Ok((All, tokens.tail))
    case TokGlobal => Ok((Global, tokens.tail))
    case TokLabel => ParseLabel(tokens)
    case TokLParen =>
      var (n, rest) :- ParseOr(tokens.tail);
      if rest.head.kind != TokRParen then Err(ExpectedRParen)
      else
        Ok((n, rest.tail))
    case _ => Err(UnexpectedToken)
  }

  /** A label, its operator and its literal. */
  function ParseLabel(tokens: Stream): (r: Parsed)
    requires EofTerminated(tokens) && tokens.head.kind == TokLabel
    ensures Consumes(r, tokens)
  {
    if Length(tokens) < 3 then Err(UnexpectedEOF)
    else
      assert EofTerminated(tokens.tail);
      var name, operator, literal := tokens.head.value, tokens.tail.head.kind, tokens.tail.tail;
      match operator
      case TokEq => ParseComparison(name, Eq, literal)
      case TokNe => ParseComparison(name, Ne, literal)
      case TokContains => ParseComparison(name, Contains, literal)
      case TokStartsWith => ParseComparison(name, StartsWith, literal)
      case TokEndsWith => ParseComparison(name, EndsWith, literal)
      case TokIn => ParseMembership(name, false, literal)
      case TokNotIn => ParseMembership(name, true, literal)
      case _ => Err(ExpectedOperatorKind)
  }

  function ParseComparison(name: string, op: CompareOp, literal: Stream): (r: Parsed)
    requires EofTerminated(literal)
    ensures Consumes(r, literal)
  {
    if literal.head.kind == TokStringLiteral then Ok((Compare(name, op, literal.head.value), literal.tail))
    else Err(ExpectedString)
  }

  function ParseMembership(name: string, negated: bool, literal: Stream): (r: Parsed)
    requires EofTerminated(literal)
    ensures Consumes(r, literal)
  {
    if literal.head.kind != TokLBrace then Err(ExpectedSetLit)
    else
      var (values, rest) := CollectValues([], literal.tail);
      if rest.head.kind != TokRBrace then Err(ExpectedRBrace)
      else
        var ss := StringSet.SetOf(values);
        Ok((if negated then NotInSet(name, ss) else InSet(name, ss), rest.tail))
  }

  /** String literals separated by commas; a comma after the last is allowed. */
  function CollectValues(values: seq<string>, rest: Stream): (r: (seq<string>, Stream))
    requires EofTerminated(rest)
    ensures EofTerminated(r.1) && Length(r.1) <= Length(rest)
    decreases Length(rest)
  {
    if rest.head.kind == TokStringLiteral then
      assert EofTerminated(rest.tail);
      assert Length(rest.tail) == Length(rest) - 1;
      var more, after := values + [rest.head.value], rest.tail;
      if after.head.kind == TokComma then CollectValues(more, after.tail) else (more, after)
    else (values, rest)
  }

  /** The whole selector: the empty one means all(). */
  function Parse(selector: string): Result<Node, ParseError> {
    TokensAreWellFormed(false, selector);
    match Tokens(false, selector)
    case Err(e) => Err(Lexical(e))
    case Ok(tokens) => ParseTokens(tokens)
  }

  function ParseTokens(tokens: Stream): Result<Node, ParseError>
    requires EofTerminated(tokens)
  {
    if tokens.head.kind == TokEOF then Ok(All)
    else
      var (n, rest) :- ParseOr(tokens);
      if rest.tail.Cons? then Err(TrailingContent) else Ok(n)
  }

  // ----- the parser accepts what the grammar derives -----

  /** What ends a derivation: neither "||" nor "&&". */
  predicate Stops(rest: Stream) {
    rest.Cons? && rest.head.kind != TokOr && rest.head.kind != TokAnd
  }

  lemma {:induction false} AcceptsOr(e: OrExpr, rest: Stream)
    requires EofTerminated(rest) && Stops(rest)
    ensures ParseOr(OrTokens(e, rest)) == Ok((OrTree(e), rest))
    decreases e, 4
  {
    match e {
      case OrOne(term) =>
        AcceptsAnd(term, rest);
      case OrMore(term, more) =>
        AcceptsAnd(term, Cons(Tok(TokOr), OrTokens(more, rest)));
        AcceptsOrLoop([AndTree(term)], more, rest);
    }
  }

  lemma {:induction false} AcceptsOrLoop(andNodes: seq<Node>, e: OrExpr, rest: Stream)
    requires EofTerminated(rest) && Stops(rest)
    ensures OrLoop(andNodes, Cons(Tok(TokOr), OrTokens(e, rest))) == Ok((MakeOr(andNodes + OrTerms(e)), rest))
    decreases e, 3
  {
    hide ParseAnd, AndTree, AndTokens, MakeOr;
    match e {
      case OrOne(term) =>
        AcceptsAnd(term, rest);
      case OrMore(term, more) =>
        AcceptsAnd(term, Cons(Tok(TokOr), OrTokens(more, rest)));
        AcceptsOrLoop(andNodes + [AndTree(term)], more, rest);
        assert andNodes + [AndTree(term)] + OrTerms(more) == andNodes + OrTerms(e);
    }
  }

  lemma {:induction false} AcceptsAnd(e: AndExpr, rest: Stream)
    requires EofTerminated(rest) && rest.head.kind != TokAnd
    ensures ParseAnd(AndTokens(e, rest)) == Ok((AndTree(e), rest))
    decreases e, 2
  {
    match e {
      case AndOne(op) =>
        AcceptsOp(op, rest);
      case AndMore(op, more) =>
        AcceptsOp(op, Cons(Tok(TokAnd), AndTokens(more, rest)));
        AcceptsAndLoop([OpTree(op)], more, rest);
    }
  }

  lemma {:induction false} AcceptsAndLoop(opNodes: seq<Node>, e: AndExpr, rest: Stream)
    requires EofTerminated(rest) && rest.head.kind != TokAnd
    ensures AndLoop(opNodes, Cons(Tok(TokAnd), AndTokens(e, rest))) == Ok((MakeAnd(opNodes + AndTerms(e)), rest))
    decreases e, 1
  {
    hide ParseOperation, OpTree, OpTokens, MakeAnd;
    match e {
      case AndOne(op) =>
        AcceptsOp(op, rest);
      case AndMore(op, more) =>
        AcceptsOp(op, Cons(Tok(TokAnd), AndTokens(more, rest)));
        AcceptsAndLoop(opNodes + [OpTree(op)], more, rest);
        assert opNodes + [OpTree(op)] + AndTerms(more) == opNodes + AndTerms(e);
    }
  }

  lemma {:induction false} AcceptsOp(e: OpExpr, rest: Stream)
    requires EofTerminated(rest)
    ensures ParseOperation(OpTokens(e, rest)) == Ok((OpTree(e), rest))
    decreases e, 1
  {
    AcceptsPrimary(e.primary, rest);
    SkipsNots(false, e.nots, PrimaryTokens(e.primary, rest));
  }

  lemma {:induction false} SkipsNots(negated: bool, nots: nat, rest: Stream)
    requires EofTerminated(rest) && rest.head.kind != TokNot
    ensures SkipNots(negated, NotTokens(nots, rest)) == (negated != (nots % 2 == 1), rest)
    decreases nots
  {
    if nots > 0 {
      SkipsNots(!negated, nots - 1, rest);
    }
  }

  lemma {:induction false} AcceptsPrimary(p: Primary, rest: Stream)
    requires EofTerminated(rest)
    ensures ParsePrimary(PrimaryTokens(p, rest)) == Ok((PrimaryTree(p), rest))
    ensures PrimaryTokens(p, rest).head.kind != TokNot
    decreases p, 5
  {
    hide ParseOr, OrTokens, OrTree, ParseLabel, ParseMembership;
    match p {
      case Comparison(name, op, value) =>
        AcceptsComparison(name, op, value, rest);
      case Membership(name, negated, values, trailing) =>
        AcceptsMembership(name, negated, values, trailing, rest);
      case Paren(inner) =>
        AcceptsOr(inner, Cons(Tok(TokRParen), rest));
      case _ =>
    }
  }

  lemma AcceptsComparison(name: string, op: CompareOp, value: string, rest: Stream)
    requires EofTerminated(rest)
    ensures ParseLabel(PrimaryTokens(Comparison(name, op, value), rest)) == Ok((Compare(name, op, value), rest))
  {
    hide ParseMembership;
    AtLeastThree(PrimaryTokens(Comparison(name, op, value), rest));
  }

  lemma LabelledMembership(name: string, negated: bool, literal: Stream)
    requires EofTerminated(literal)
    ensures var tokens := Cons(Token(TokLabel, name), Cons(Tok(if negated then TokNotIn else TokIn), literal));
            EofTerminated(tokens) && ParseLabel(tokens) == ParseMembership(name, negated, literal)
  {
    hide ParseMembership, ParseComparison;
    AtLeastThree(Cons(Token(TokLabel, name), Cons(Tok(if negated then TokNotIn else TokIn), literal)));
  }

  lemma AcceptsMembership(name: string, negated: bool, values: seq<string>, trailing: bool, rest: Stream)
    requires EofTerminated(rest)
    ensures var p := Membership(name, negated, values, trailing);
            ParseLabel(PrimaryTokens(p, rest)) == Ok((PrimaryTree(p), rest))
  {
    hide ParseMembership, ParseLabel, ValueTokens, PrimaryTokens, PrimaryTree, EofTerminated;
    var literal := Cons(Tok(TokLBrace), ValueTokens(values, trailing, Cons(Tok(TokRBrace), rest)));
    AcceptsSet(name, negated, values, trailing, rest);
    MembershipTokens(name, negated, values, trailing, rest);
    LabelledMembership(name, negated, literal);
  }

  lemma MembershipTokens(name: string, negated: bool, values: seq<string>, trailing: bool, rest: Stream)
    ensures PrimaryTokens(Membership(name, negated, values, trailing), rest)
         == Cons(Token(TokLabel, name), Cons(Tok(if negated then TokNotIn else TokIn),
              Cons(Tok(TokLBrace), ValueTokens(values, trailing, Cons(Tok(TokRBrace), rest)))))
  {
    hide ValueTokens;
  }

  lemma AcceptsSet(name: string, negated: bool, values: seq<string>, trailing: bool, rest: Stream)
    requires EofTerminated(rest)
    ensures var literal := Cons(Tok(TokLBrace), ValueTokens(values, trailing, Cons(Tok(TokRBrace), rest)));
            && EofTerminated(literal)
            && ParseMembership(name, negated, literal)
            == Ok((PrimaryTree(Membership(name, negated, values, trailing)), rest))
  {
    hide CollectValues, ValueTokens, StringSet.SetOf;
    AcceptsValues([], values, trailing, Cons(Tok(TokRBrace), rest));
    assert [] + values == values;
  }

  lemma AtLeastThree(tokens: Stream)
    requires tokens.Cons? && tokens.tail.Cons? && tokens.tail.tail.Cons?
    ensures Length(tokens) >= 3
  {
    assert Length(tokens.tail) >= 2;
  }

  lemma {:induction false} AcceptsValues(values: seq<string>, more: seq<string>, trailing: bool, rest: Stream)
    requires EofTerminated(rest) && rest.head.kind == TokRBrace
    ensures CollectValues(values, ValueTokens(more, trailing, rest)) == (values + more, rest)
    decreases more
  {
    if more == [] {
      assert values + more == values;
    } else {
      AcceptsValues(values + [more[0]], more[1..], trailing, rest);
      assert values + [more[0]] + more[1..] == values + more;
      assert |more| == 1 ==> more[1..] == [];
    }
  }

  // ----- what the parser accepts derives from the grammar -----

  lemma {:induction false} DerivesOr(tokens: Stream) returns (e: OrExpr)
    requires EofTerminated(tokens) && WellLexed(tokens) && ParseOr(tokens).Ok?
    ensures var (n, rest) := ParseOr(tokens).value;
            tokens == OrTokens(e, rest) && n == OrTree(e) && Stops(rest) && WellLexed(rest)
    decreases Length(tokens), 4
  {
    var (_, rest) := ParseAnd(tokens).value;
    var first := DerivesAnd(tokens);
    if rest.head.kind == TokOr {
      var more := DerivesOrLoop([AndTree(first)], rest);
      e := OrMore(first, more);
    } else {
      e := OrOne(first);
    }
  }

  lemma {:induction false} DerivesOrLoop(andNodes: seq<Node>, tokens: Stream) returns (e: OrExpr)
    requires EofTerminated(tokens) && WellLexed(tokens)
    requires tokens.head.kind == TokOr && OrLoop(andNodes, tokens).Ok?
    ensures var (n, rest) := OrLoop(andNodes, tokens).value;
            tokens.tail == OrTokens(e, rest) && n == MakeOr(andNodes + OrTerms(e)) && Stops(rest) && WellLexed(rest)
    decreases Length(tokens), 3
  {
    hide ParseAnd, AndTree, AndTokens, MakeOr;
    var (n, rest) := ParseAnd(tokens.tail).value;
    var first := DerivesAnd(tokens.tail);
    if rest.head.kind == TokOr {
      var more := DerivesOrLoop(andNodes + [n], rest);
      e := OrMore(first, more);
      assert andNodes + [n] + OrTerms(more) == andNodes + OrTerms(e);
    } else {
      e := OrOne(first);
    }
  }

  lemma {:induction false} DerivesAnd(tokens: Stream) returns (e: AndExpr)
    requires EofTerminated(tokens) && WellLexed(tokens) && ParseAnd(tokens).Ok?
    ensures var (n, rest) := ParseAnd(tokens).value;
            tokens == AndTokens(e, rest) && n == AndTree(e) && rest.head.kind != TokAnd && WellLexed(rest)
    decreases Length(tokens), 2
  {
    var (_, rest) := ParseOperation(tokens).value;
    var first := DerivesOp(tokens);
    if rest.head.kind == TokAnd {
      var more := DerivesAndLoop([OpTree(first)], rest);
      e := AndMore(first, more);
    } else {
      e := AndOne(first);
    }
  }

  lemma {:induction false} DerivesAndLoop(opNodes: seq<Node>, tokens: Stream) returns (e: AndExpr)
    requires EofTerminated(tokens) && WellLexed(tokens)
    requires tokens.head.kind == TokAnd && AndLoop(opNodes, tokens).Ok?
    ensures var (n, rest) := AndLoop(opNodes, tokens).value;
            tokens.tail == AndTokens(e, rest) && n == MakeAnd(opNodes + AndTerms(e))
            && rest.head.kind != TokAnd && WellLexed(rest)
    decreases Length(tokens), 2
  {
    hide ParseOperation, OpTree, OpTokens, MakeAnd;
    var (n, rest) := ParseOperation(tokens.tail).value;
    var first := DerivesOp(tokens.tail);
    if rest.head.kind == TokAnd {
      var more := DerivesAndLoop(opNodes + [n], rest);
      e := AndMore(first, more);
      assert opNodes + [n] + AndTerms(more) == opNodes + AndTerms(e);
    } else {
      e := AndOne(first);
    }
  }

  lemma {:induction false} DerivesOp(tokens: Stream) returns (e: OpExpr)
    requires EofTerminated(tokens) && WellLexed(tokens) && ParseOperation(tokens).Ok?
    ensures var (n, rest) := ParseOperation(tokens).value;
            tokens == OpTokens(e, rest) && n == OpTree(e) && WellLexed(rest)
    decreases Length(tokens), 1
  {
    var nots := DerivesNots(false, tokens);
    var (_, body) := SkipNots(false, tokens);
    var primary := DerivesPrimary(body);
    e := OpExpr(nots, primary);
  }

  lemma {:induction false} DerivesNots(negated: bool, tokens: Stream) returns (nots: nat)
    requires EofTerminated(tokens) && WellLexed(tokens)
    ensures var (r, rest) := SkipNots(negated, tokens);
            tokens == NotTokens(nots, rest) && r == (negated != (nots % 2 == 1)) && WellLexed(rest)
    decreases tokens
  {
    nots := 0;
    if tokens.head.kind == TokNot {
      nots := DerivesNots(!negated, tokens.tail);
      nots := nots + 1;
    }
  }

  lemma {:induction false} DerivesPrimary(tokens: Stream) returns (p: Primary)
    requires EofTerminated(tokens) && WellLexed(tokens) && ParsePrimary(tokens).Ok?
    ensures var (n, rest) := ParsePrimary(tokens).value;
            tokens == PrimaryTokens(p, rest) && n == PrimaryTree(p) && WellLexed(rest)
    decreases Length(tokens), 0
  {
    var (n, rest) := ParsePrimary(tokens).value;
    match tokens.head.kind {
      case TokHas => p := HasName(tokens.head.value);
      case TokAll => p := AllCall;
      case TokGlobal => p := GlobalCall;
      case TokLParen =>
        var inner := DerivesOr(tokens.tail);
        p := Paren(inner);
      case TokLabel =>
        assert EofTerminated(tokens.tail) && WellLexed(tokens.tail);
        assert EofTerminated(tokens.tail.tail) && WellLexed(tokens.tail.tail);
        if tokens.tail.head.kind in {TokIn, TokNotIn} {
          p := DerivesMembership(tokens.head.value, tokens.tail.head.kind == TokNotIn, tokens.tail.tail);
        } else {
          p := Comparison(n.name, n.op, n.value);
        }
    }
  }

  /** What a set literal that parses is made of. */
  lemma MembershipParts(name: string, negated: bool, literal: Stream)
    requires EofTerminated(literal) && WellLexed(literal) && ParseMembership(name, negated, literal).Ok?
    ensures literal.head == Tok(TokLBrace) && EofTerminated(literal.tail) && WellLexed(literal.tail)
    ensures var (n, rest) := ParseMembership(name, negated, literal).value;
            var (values, close) := CollectValues([], literal.tail);
            var ss := StringSet.SetOf(values);
            close.Cons? && close.head.kind == TokRBrace && close.tail == rest
            && n == if negated then NotInSet(name, ss) else InSet(name, ss)
  {
    hide CollectValues, StringSet.SetOf, Length;
  }

  lemma DerivesMembership(name: string, negated: bool, literal: Stream) returns (p: Primary)
    requires EofTerminated(literal) && WellLexed(literal) && ParseMembership(name, negated, literal).Ok?
    ensures var (n, rest) := ParseMembership(name, negated, literal).value;
            n == PrimaryTree(p) && WellLexed(rest)
            && PrimaryTokens(p, rest)
            == Cons(Token(TokLabel, name), Cons(Tok(if negated then TokNotIn else TokIn), literal))
  {
    MembershipParts(name, negated, literal);
    hide ParseMembership, CollectValues, ValueTokens, StringSet.SetOf, Length, EofTerminated, PrimaryTokens;
    var more, trailing := DerivesValues([], literal.tail);
    assert [] + more == more;
    p := Membership(name, negated, more, trailing);
    var close := CollectValues([], literal.tail).1;
    assert close == Cons(Tok(TokRBrace), close.tail);
    hide WellLexed;
    MembershipTokens(name, negated, more, trailing, close.tail);
  }

  lemma {:induction false} DerivesValues(values: seq<string>, tokens: Stream)
    returns (more: seq<string>, trailing: bool)
    requires EofTerminated(tokens) && WellLexed(tokens)
    ensures var (all, rest) := CollectValues(values, tokens);
            all == values + more && tokens == ValueTokens(more, trailing, rest) && WellLexed(rest)
    decreases Length(tokens)
  {
    more, trailing := [], true;
    if tokens.head.kind == TokStringLiteral {
      var v, after := tokens.head.value, tokens.tail;
      assert EofTerminated(after) && WellLexed(after) && Length(after) == Length(tokens) - 1;
      if after.head.kind == TokComma {
        var rest := CollectValues(values + [v], after.tail).1;
        more, trailing := DerivesValues(values + [v], after.tail);
        if more == [] {
          trailing := true; // the comma just read ends the list
          assert ValueTokens(more, trailing, rest) == rest;
        }
        assert values + [v] + more == values + ([v] + more) && ([v] + more)[1..] == more;
        more := [v] + more;
      } else {
        more, trailing := [v], false;
        assert more[1..] == [];
      }
    }
  }

  // ----- both directions -----

  ghost predicate Derives(e: OrExpr, tokens: Stream, n: Node, rest: Stream) {
    tokens == OrTokens(e, rest) && n == OrTree(e) && Stops(rest)
  }

  /** The parser accepts exactly the grammar, with the grammar's precedence and tree. */
  lemma ParserIsTheGrammar(tokens: Stream, n: Node, rest: Stream)
    requires EofTerminated(tokens) && WellLexed(tokens) && EofTerminated(rest)
    ensures ParseOr(tokens) == Ok((n, rest)) <==> exists e :: Derives(e, tokens, n, rest)
  {
    if ParseOr(tokens) == Ok((n, rest)) {
      var e := DerivesOr(tokens);
      assert Derives(e, tokens, n, rest);
    }
    if e :| Derives(e, tokens, n, rest) {
      AcceptsOr(e, rest);
    }
  }

  const END := Cons(Tok(TokEOF), Nil)

  /** The tokens of a whole selector: none at all stands for all(). */
  ghost predicate Spells(tokens: Stream, n: Node) {
    (tokens == END && n == All) || exists e :: tokens == OrTokens(e, END) && n == OrTree(e)
  }

  lemma NothingParsesFromEnd(tokens: Stream)
    requires EofTerminated(tokens) && tokens.head.kind == TokEOF
    ensures ParseOr(tokens).Err?
  {
    assert SkipNots(false, tokens) == (false, tokens);
    assert ParsePrimary(tokens).Err?;
    assert ParseOperation(tokens).Err?;
    assert ParseAnd(tokens).Err?;
  }

  lemma OnlyEndIsLast(tokens: Stream)
    requires EofTerminated(tokens) && WellLexed(tokens)
    ensures tokens.tail.Nil? <==> tokens == END
    ensures tokens.head.kind == TokEOF <==> tokens == END
  {
  }

  /** The whole selector parses to a tree exactly when the grammar derives the tree from all of its
      tokens: what is left after a derivation makes the selector invalid. */
  lemma ParseIsTheGrammar(selector: string, n: Node)
    ensures Parse(selector) == Ok(n) <==> Tokens(false, selector).Ok? && Spells(Tokens(false, selector).value, n)
  {
    TokensAreWellFormed(false, selector);
    if Tokens(false, selector).Ok? {
      WholeStreamIsTheGrammar(Tokens(false, selector).value, n);
    }
  }

  lemma WholeStreamIsTheGrammar(tokens: Stream, n: Node)
    requires EofTerminated(tokens) && WellLexed(tokens)
    ensures ParseTokens(tokens) == Ok(n) <==> Spells(tokens, n)
  {
    OnlyEndIsLast(tokens);
    if tokens == END {
      NothingParsesFromEnd(tokens);
    } else if ParseOr(tokens).Ok? {
      var e := DerivesOr(tokens);
      OnlyEndIsLast(ParseOr(tokens).value.1);
    }
    if e :| tokens == OrTokens(e, END) && n == OrTree(e) {
      AcceptsOr(e, END);
    }
  }

  /** A prefix of the tokens derives a tree, and more than the end is left. */
  ghost predicate Trails(tokens: Stream, e: OrExpr, rest: Stream) {
    tokens == OrTokens(e, rest) && Stops(rest) && EofTerminated(rest) && rest != END
  }

  /** The two errors that are not of the descent itself: the text is not made of tokens, or content
      trails a derivation. */
  lemma OuterErrorsExactly(selector: string)
    ensures (exists error :: Parse(selector) == Err(Lexical(error))) <==> Tokens(false, selector).Err?
    ensures Parse(selector) == Err(TrailingContent) <==>
      Tokens(false, selector).Ok? && exists e, rest :: Trails(Tokens(false, selector).value, e, rest)
  {
    TokensAreWellFormed(false, selector);
    if Tokens(false, selector).Ok? {
      TrailsExactly(Tokens(false, selector).value);
    }
  }

  lemma TrailsExactly(tokens: Stream)
    requires EofTerminated(tokens) && WellLexed(tokens)
    ensures ParseTokens(tokens).Err? ==> !ParseTokens(tokens).error.Lexical?
    ensures ParseTokens(tokens) == Err(TrailingContent) <==> exists e, rest :: Trails(tokens, e, rest)
  {
    OnlyEndIsLast(tokens);
    if tokens == END {
      NothingParsesFromEnd(tokens);
    } else if ParseOr(tokens).Ok? {
      var e := DerivesOr(tokens);
      var rest := ParseOr(tokens).value.1;
      OnlyEndIsLast(rest);
      assert rest != END ==> Trails(tokens, e, rest);
    }
    if e, rest :| Trails(tokens, e, rest) {
      AcceptsOr(e, rest);
      assert rest.tail.Nil? <==> rest == END by {
        TrailIsLexed(e, rest);
        OnlyEndIsLast(rest);
      }
    }
  }

  lemma TrailIsLexed(e: OrExpr, rest: Stream)
    requires WellLexed(OrTokens(e, rest))
    ensures WellLexed(rest)
  {
    OrIsWellFormed(e, rest);
  }

  /** Every tree a parse returns is well formed. */
  lemma ParsedIsWellFormed(selector: string)
    ensures Parse(selector).Ok? ==> WellFormed(Parse(selector).value)
  {
    if Parse(selector).Ok? {
      var tokens := Tokens(false, selector).value;
      TokensAreWellFormed(false, selector);
      if tokens.head.kind != TokEOF {
        var e := DerivesOr(tokens);
        OrIsWellFormed(e, ParseOr(tokens).value.1);
      }
    }
  }
}
