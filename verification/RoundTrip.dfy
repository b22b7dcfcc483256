// Printing and parsing undo each other: first through the characters, then through the tokens.
module RoundTrip {
  import opened Wrappers
  import opened StringOrder
  import opened SelectorAst
  import opened Tokenizer
  import opened Grammar
  import opened Parser
  import StringSet

  // ----- the derivation that a printed tree stands for -----

  function OpOf(n: Node): OpExpr
    requires WellFormed(n)
    decreases n, 2
  {
    if n.Not? then
      var e := OpOf(n.operand);
      OpExpr(e.nots + 1, e.primary)
    else OpExpr(0, PrimaryOf(n))
  }

  function PrimaryOf(n: Node): Primary
    requires WellFormed(n) && !n.Not?
    decreases n, 1
  {
    match n
    case Compare(name, op, value) => Comparison(name, op, value)
    case InSet(name, values) => Membership(name, false, values, false)
    case NotInSet(name, values) => Membership(name, true, values, false)
    case Has(name) => HasName(name)
    case And(operands) => Paren(OrOne(AndOf(operands)))
    case Or(operands) => Paren(OrOf(operands))
    case All => AllCall
    case Global => GlobalCall
  }

  function AndOf(operands: seq<Node>): AndExpr
    requires operands != [] && AllWellFormed(operands)
    decreases operands, 0
  {
    if |operands| == 1 then AndOne(OpOf(operands[0]))
    else AndMore(OpOf(operands[0]), AndOf(operands[1..]))
  }

  function OrOf(operands: seq<Node>): OrExpr
    requires operands != [] && AllWellFormed(operands)
    decreases operands, 0
  {
    if |operands| == 1 then OrOne(AndOne(OpOf(operands[0])))
    else OrMore(AndOne(OpOf(operands[0])), OrOf(operands[1..]))
  }

  /** The derivation builds the tree with its negations reduced. */
  lemma {:induction false} OpOfReduces(n: Node)
    requires WellFormed(n)
    ensures OpTree(OpOf(n)) == Reduce(n)
    decreases n, 2
  {
    if n.Not? {
      var operand := n.operand;
      hide PrimaryTree, PrimaryOf;
      OpOfReduces(operand);
      if operand.Not? {
        OpOfReduces(operand.operand);
      }
    } else {
      PrimaryOfReduces(n);
    }
  }

  lemma {:induction false} PrimaryOfReduces(n: Node)
    requires WellFormed(n) && !n.Not?
    ensures PrimaryTree(PrimaryOf(n)) == Reduce(n)
    decreases n, 1
  {
    hide OrTree, AndOf, OrOf, ReduceAll, StringSet.SetOf, StrictlySorted;
    match n {
      case InSet(_, values) => StringSet.SetOfFixed(values);
      case NotInSet(_, values) => StringSet.SetOfFixed(values);
      case And(operands) => ConjunctionReduces(operands);
      case Or(operands) => DisjunctionReduces(operands);
      case _ =>
    }
  }

  lemma {:induction false} ConjunctionReduces(operands: seq<Node>)
    requires |operands| >= 2 && AllWellFormed(operands)
    ensures OrTree(OrOne(AndOf(operands))) == And(ReduceAll(operands))
    decreases operands, 1
  {
    OperandsReduce(operands);
    hide OpOf, Reduce;
    assert AndTree(AndOf(operands)) == And(ReduceAll(operands));
    assert OrTree(OrOne(AndOf(operands))) == AndTree(AndOf(operands));
  }

  lemma {:induction false} DisjunctionReduces(operands: seq<Node>)
    requires |operands| >= 2 && AllWellFormed(operands)
    ensures OrTree(OrOf(operands)) == Or(ReduceAll(operands))
    decreases operands, 1
  {
    OperandsReduce(operands);
    hide OpOf, Reduce;
    assert OrTree(OrOf(operands)) == Or(ReduceAll(operands));
  }

  lemma {:induction false} OperandsReduce(operands: seq<Node>)
    requires operands != [] && AllWellFormed(operands)
    ensures AndTerms(AndOf(operands)) == ReduceAll(operands) == OrTerms(OrOf(operands))
    decreases operands, 0
  {
    var first := OpOf(operands[0]);
    OpOfReduces(operands[0]);
    assert AndTree(AndOne(first)) == OpTree(first);
    if |operands| > 1 {
      OperandsReduce(operands[1..]);
    } else {
      assert operands[1..] == [];
    }
  }

  // ----- characters to tokens, one lexeme at a time -----

  lemma Step(afterLabel: bool, input: string, token: Token, rest: string)
    requires TrimWhitespace(input) != ""
    requires NextToken(afterLabel, TrimWhitespace(input)) == Ok((token, rest))
    ensures Tokens(afterLabel, input) == Prepend(token, Tokens(token.kind == TokLabel, rest))
  {
  }

  lemma Blanks(afterLabel: bool, text: string)
    ensures Tokens(afterLabel, " " + text) == Tokens(afterLabel, text)
  {
    assert (" " + text)[1..] == text;
    var s := TrimWhitespace(text);
    if s != "" && NextToken(afterLabel, s).Ok? {
      var (token, rest) := NextToken(afterLabel, s).value;
      Step(afterLabel, text, token, rest);
      Step(afterLabel, " " + text, token, rest);
    }
  }

  function SymbolKind(c: char): Kind
    requires c in "(){}"
  {
    if c == '(' then TokLParen else if c == ')' then TokRParen else if c == '{' then TokLBrace else TokRBrace
  }

  lemma LexSymbol(c: char, text: string)
    requires c in "(){}"
    ensures Tokens(false, [c] + text) == Prepend(Tok(SymbolKind(c)), Tokens(false, text))
  {
    hide Tokens;
    Step(false, [c] + text, Tok(SymbolKind(c)), text);
  }

  lemma LexSeparator(mark: string, kind: Kind, text: string)
    requires (mark == "&&" && kind == TokAnd) || (mark == "||" && kind == TokOr)
    ensures Tokens(false, " " + mark + " " + text) == Prepend(Tok(kind), Tokens(false, text))
  {
    hide Tokens;
    var s := mark + (" " + text);
    assert " " + mark + " " + text == " " + s && s[0] == mark[0] && s[2..] == " " + text;
    Blanks(false, text);
    Blanks(false, s);
    Step(false, s, Tok(kind), " " + text);
  }

  lemma LexComma(text: string)
    ensures Tokens(false, ", " + text) == Prepend(Tok(TokComma), Tokens(false, text))
  {
    hide Tokens;
    assert ", " + text == "," + (" " + text);
    Blanks(false, text);
    Step(false, "," + (" " + text), Tok(TokComma), " " + text);
  }

  lemma LexNot(text: string)
    requires text != "" && text[0] != '='
    ensures Tokens(false, "!" + text) == Prepend(Tok(TokNot), Tokens(false, text))
  {
    hide Tokens;
    assert ("!" + text)[1] == text[0];
    Step(false, "!" + text, Tok(TokNot), text);
  }

  lemma LexAll(text: string)
    ensures Tokens(false, "all()" + text) == Prepend(Tok(TokAll), Tokens(false, text))
  {
    hide Tokens;
    var s := "all()" + text;
    assert s[4..] == ")" + text && s[0] == 'a' && s[..4] == "all(";
    Step(false, s, Tok(TokAll), text);
  }

  lemma LexGlobal(text: string)
    ensures Tokens(false, "global()" + text) == Prepend(Tok(TokGlobal), Tokens(false, text))
  {
    hide Tokens;
    var s := "global()" + text;
    assert s[7..] == ")" + text && s[0] == 'g' && s[..7] == "global(";
    Step(false, s, Tok(TokGlobal), text);
  }

  /** The longest identifier at the front of a name and something that is none. */
  lemma {:induction false} CutsWholeName(name: string, text: string)
    requires (forall c :: c in name ==> IdentifierChar(c)) && WordBoundary(text)
    ensures IdentifierLength(name + text) == |name|
    ensures ValidLabel(name) ==> CutIdentifier(name + text) == Ok((name, text))
  {
    if name == "" {
      assert name + text == text;
    } else {
      assert name == [name[0]] + name[1..];
      assert (name + text)[1..] == name[1..] + text;
      CutsWholeName(name[1..], text);
    }
    assert (name + text)[..|name|] == name && (name + text)[|name|..] == text;
  }

  lemma LexHas(name: string, text: string)
    requires ValidLabel(name)
    ensures Tokens(false, "has(" + name + ")" + text) == Prepend(Token(TokHas, name), Tokens(false, text))
  {
    hide Tokens;
    var s := "has(" + name + ")" + text;
    var inner := name + (")" + text);
    assert s[4..] == inner && s[..4] == "has(" && s[0] == 'h';
    CutsWholeName(name, ")" + text);
    assert inner[0] == name[0] && IdentifierChar(name[0]);
    assert TrimWhitespace(inner) == inner;
    Step(false, s, Token(TokHas, name), text);
  }

  /** No call keyword can hide in a name: the parenthesis is no identifier character. */
  lemma NotACall(name: string, text: string, word: string)
    requires (forall c :: c in name ==> IdentifierChar(c)) && text != "" && text[0] == ' '
    requires word != "" && word[|word| - 1] == '(' && forall c :: c in word ==> c != ' '
    ensures !(word <= name + text)
  {
    var s, n := name + text, |word| - 1;
    var i := if n < |name| then n else |name|;
    assert i < |name| ==> s[i] in name;
    assert word[i] in word && word[i] != s[i];
  }

  lemma LexLabel(name: string, text: string)
    requires ValidLabel(name) && text != "" && text[0] == ' '
    ensures Tokens(false, name + text) == Prepend(Token(TokLabel, name), Tokens(true, text))
  {
    hide Tokens;
    var s := name + text;
    NotACall(name, text, "has(");
    NotACall(name, text, "all(");
    NotACall(name, text, "global(");
    CutsWholeName(name, text);
    assert s[0] == name[0] && IdentifierChar(name[0]);
    assert TrimWhitespace(s) == s;
    Step(false, s, Token(TokLabel, name), text);
  }

  // ----- operators -----

  lemma LexOperator(op: CompareOp, text: string)
    requires StartsQuoted(text)
    ensures Tokens(true, OpText(op) + text) == Prepend(Tok(OpKind(op)), Tokens(false, text))
  {
    hide Tokens;
    match op {
      case Eq =>
        LexEquality("==", text);
        assert OpText(op) == " " + "==" + " ";
      case Ne =>
        LexEquality("!=", text);
        assert OpText(op) == " " + "!=" + " ";
      case Contains =>
        LexContains(text);
      case StartsWith =>
        LexTwoWords("starts", "with", text);
        assert OpText(op) == " " + "starts" + " " + "with" + " ";
      case EndsWith =>
        LexTwoWords("ends", "with", text);
        assert OpText(op) == " " + "ends" + " " + "with" + " ";
    }
  }

  predicate StartsQuoted(text: string) {
    text != "" && (text[0] == '"' || text[0] == '\'')
  }

  lemma LexEquality(op: string, text: string)
    requires op == "==" || op == "!="
    ensures Tokens(true, " " + op + " " + text)
         == Prepend(Tok(if op == "==" then TokEq else TokNe), Tokens(false, text))
  {
    hide Tokens;
    var s := op + (" " + text);
    assert " " + op + " " + text == " " + s && s[0] == op[0] && s[2..] == " " + text;
    Blanks(true, s);
    Blanks(false, text);
    Step(true, s, Tok(if op == "==" then TokEq else TokNe), " " + text);
  }

  lemma LexContains(text: string)
    ensures Tokens(true, " contains " + text) == Prepend(Tok(TokContains), Tokens(false, text))
  {
    hide Tokens;
    var s := "contains" + (" " + text);
    assert " contains " + text == " " + s && s[0] == 'c' && s[8..] == " " + text;
    Blanks(true, s);
    Blanks(false, text);
    Step(true, s, Tok(TokContains), " " + text);
  }

  lemma CutsTwoWords(s: string, first: string, second: string, after: string, text: string)
    requires s == first + " " + second + after && second != "" && !Blank(second[0])
    requires TrimWhitespace(after) == text && WordBoundary(text)
    ensures CutWords(s, [first, second]) == Some(text)
  {
    var rest := " " + second + after;
    assert s == first + rest && s[|first|..] == rest;
    assert rest[1..] == second + after && rest[1..][0] == second[0];
    assert TrimWhitespace(rest) == second + after;
    assert [first, second][1..] == [second] && [second][1..] == [];
    assert (second + after)[|second|..] == after;
    assert CutWords(second + after, [second]) == Some(text);
  }

  lemma LexTwoWords(first: string, second: string, text: string)
    requires StartsQuoted(text)
    requires second == "with" && (first == "starts" || first == "ends")
    ensures Tokens(true, " " + first + " " + second + " " + text)
         == Prepend(Tok(if first == "starts" then TokStartsWith else TokEndsWith), Tokens(false, text))
  {
    hide Tokens;
    var s := first + " " + second + (" " + text);
    assert (" " + text)[1..] == text;
    assert " " + first + " " + second + " " + text == " " + s && s[0] == first[0];
    CutsTwoWords(s, first, second, " " + text, text);
    Blanks(true, s);
    Step(true, s, Tok(if first == "starts" then TokStartsWith else TokEndsWith), text);
  }

  function InText(negated: bool): string {
    if negated then " not in {" else " in {"
  }

  lemma LexIn(negated: bool, text: string)
    ensures Tokens(true, InText(negated) + text)
         == Prepend(Tok(if negated then TokNotIn else TokIn), Prepend(Tok(TokLBrace), Tokens(false, text)))
  {
    hide Tokens;
    var brace := "{" + text;
    LexSymbol('{', text);
    if negated {
      LexNotIn("not in " + brace, brace);
      assert " not in {" + text == " " + ("not in " + brace);
      Blanks(true, "not in " + brace);
    } else {
      LexPlainIn("in " + brace, brace);
      assert " in {" + text == " " + ("in " + brace);
      Blanks(true, "in " + brace);
    }
  }

  lemma LexNotIn(s: string, brace: string)
    requires brace != "" && brace[0] == '{' && s == "not in " + brace
    ensures Tokens(true, s) == Prepend(Tok(TokNotIn), Tokens(false, brace))
  {
    hide Tokens;
    assert (" " + brace)[1..] == brace;
    assert s == "not" + " " + "in" + (" " + brace);
    CutsTwoWords(s, "not", "in", " " + brace, brace);
    assert s[0] == 'n';
    Step(true, s, Tok(TokNotIn), brace);
  }

  lemma LexPlainIn(s: string, brace: string)
    requires brace != "" && brace[0] == '{' && s == "in " + brace
    ensures Tokens(true, s) == Prepend(Tok(TokIn), Tokens(false, brace))
  {
    hide Tokens;
    assert s == "in" + (" " + brace) && s[0] == 'i';
    Blanks(false, brace);
    Step(true, s, Tok(TokIn), " " + brace);
  }

  // ----- literals -----

  lemma {:induction false} CutsAtFirst(before: string, c: char, after: string)
    requires c !in before
    ensures CutAt(before + [c] + after, c) == Some((before, after))
  {
    var s := before + [c] + after;
    if before == "" {
      assert s[1..] == after;
    } else {
      assert s[1..] == before[1..] + [c] + after;
      CutsAtFirst(before[1..], c, after);
      assert before == [before[0]] + before[1..];
    }
  }

  lemma LexQuoted(value: string, text: string)
    requires Quotable(value)
    ensures Tokens(false, Quoted(value) + text) == Prepend(Token(TokStringLiteral, value), Tokens(false, text))
    ensures StartsQuoted(Quoted(value) + text)
  {
    hide Tokens;
    var c := if '"' in value then '\'' else '"';
    var s := Quoted(value) + text;
    assert s == [c] + (value + [c] + text) && s[1..] == value + [c] + text;
    CutsAtFirst(value, c, text);
    Step(false, s, Token(TokStringLiteral, value), text);
  }

  lemma {:induction false} LexValues(values: seq<string>, text: string, rest: Stream)
    requires (forall v :: v in values ==> Quotable(v)) && Tokens(false, text) == Ok(rest)
    ensures Tokens(false, PrintValues(values) + text) == Ok(ValueTokens(values, false, rest))
  {
    hide Tokens;
    if values == [] {
      assert PrintValues(values) + text == text;
    } else if |values| == 1 {
      assert PrintValues(values) == Quoted(values[0]);
      LexQuoted(values[0], text);
      assert values[1..] == [];
    } else {
      var more := PrintValues(values[1..]) + text;
      LexValues(values[1..], text, rest);
      LexComma(more);
      LexQuoted(values[0], ", " + more);
      assert PrintValues(values) + text == Quoted(values[0]) + (", " + more);
    }
  }

  // ----- whole trees -----

  /** What a printed tree starts with: no blank, and nothing that extends a "!". */
  lemma {:induction false} PrintStarts(n: Node)
    requires WellFormed(n)
    ensures Print(n) != "" && !Blank(Print(n)[0]) && Print(n)[0] != '='
  {
    match n {
      case Compare(name, _, _) => assert name[0] in name;
      case InSet(name, _) => assert name[0] in name;
      case NotInSet(name, _) => assert name[0] in name;
      case _ =>
    }
  }

  /** Tokenising a printed tree yields the tokens of its derivation. */
  lemma {:induction false} LexNode(n: Node, text: string, rest: Stream)
    requires WellFormed(n) && Tokens(false, text) == Ok(rest)
    ensures Tokens(false, Print(n) + text) == Ok(OpTokens(OpOf(n), rest))
    decreases n, 2
  {
    hide Tokens;
    if n.Not? {
      var operand := n.operand;
      LexNode(operand, text, rest);
      PrintStarts(operand);
      LexNot(Print(operand) + text);
      assert Print(n) + text == "!" + (Print(operand) + text);
    } else {
      LexPrimary(n, text, rest);
    }
  }

  lemma {:induction false} LexPrimary(n: Node, text: string, rest: Stream)
    requires WellFormed(n) && !n.Not? && Tokens(false, text) == Ok(rest)
    ensures Tokens(false, Print(n) + text) == Ok(PrimaryTokens(PrimaryOf(n), rest))
    decreases n, 1
  {
    hide Tokens, OpOf, AndOf, OrOf, AndTokens, OrTokens, ValueTokens, PrintOperands, PrintValues, Quoted, OpText;
    match n {
      case Compare(name, op, value) =>
        LexCompare(name, op, value, text);
        assert Print(n) + text == name + (OpText(op) + (Quoted(value) + text));
      case InSet(name, values) =>
        LexMembership(name, false, values, text, rest);
        assert Print(n) + text == name + (InText(false) + (PrintValues(values) + ("}" + text)));
      case NotInSet(name, values) =>
        LexMembership(name, true, values, text, rest);
        assert Print(n) + text == name + (InText(true) + (PrintValues(values) + ("}" + text)));
      case Has(name) =>
        LexHas(name, text);
      case And(operands) =>
        LexConjunction(operands, text, rest);
      case Or(operands) =>
        LexDisjunction(operands, text, rest);
      case All =>
        LexAll(text);
      case Global =>
        LexGlobal(text);
    }
  }

  lemma {:induction false} LexConjunction(operands: seq<Node>, text: string, rest: Stream)
    requires |operands| >= 2 && AllWellFormed(operands) && Tokens(false, text) == Ok(rest)
    ensures Tokens(false, Print(And(operands)) + text) == Ok(PrimaryTokens(PrimaryOf(And(operands)), rest))
    decreases operands, 2
  {
    hide Tokens, OpOf, AndOf, PrintOperands, AndTokens;
    LexOperands(operands, true, text, rest);
    assert Print(And(operands)) == "(" + PrintOperands(operands, Separator(true)) + ")";
    assert OrTokens(OrOne(AndOf(operands)), Cons(Tok(TokRParen), rest))
        == OperandTokens(operands, true, Cons(Tok(TokRParen), rest));
  }

  lemma {:induction false} LexDisjunction(operands: seq<Node>, text: string, rest: Stream)
    requires |operands| >= 2 && AllWellFormed(operands) && Tokens(false, text) == Ok(rest)
    ensures Tokens(false, Print(Or(operands)) + text) == Ok(PrimaryTokens(PrimaryOf(Or(operands)), rest))
    decreases operands, 2
  {
    hide Tokens, OpOf, OrOf, PrintOperands, OrTokens;
    LexOperands(operands, false, text, rest);
    assert Print(Or(operands)) == "(" + PrintOperands(operands, Separator(false)) + ")";
  }

  lemma LexCompare(name: string, op: CompareOp, value: string, text: string)
    requires ValidLabel(name) && Quotable(value)
    ensures Tokens(false, name + (OpText(op) + (Quoted(value) + text)))
         == Prepend(Token(TokLabel, name), Prepend(Tok(OpKind(op)),
              Prepend(Token(TokStringLiteral, value), Tokens(false, text))))
  {
    hide Tokens;
    LexQuoted(value, text);
    LexOperator(op, Quoted(value) + text);
    LexLabel(name, OpText(op) + (Quoted(value) + text));
  }

  lemma LexMembership(name: string, negated: bool, values: seq<string>, text: string, rest: Stream)
    requires ValidLabel(name) && ProperSet(values) && Tokens(false, text) == Ok(rest)
    ensures Tokens(false, name + (InText(negated) + (PrintValues(values) + ("}" + text))))
         == Ok(PrimaryTokens(Membership(name, negated, values, false), rest))
  {
    hide Tokens;
    LexSymbol('}', text);
    LexValues(values, "}" + text, Cons(Tok(TokRBrace), rest));
    LexIn(negated, PrintValues(values) + ("}" + text));
    LexLabel(name, InText(negated) + (PrintValues(values) + ("}" + text)));
  }

  function Separator(conjunction: bool): string {
    if conjunction then " && " else " || "
  }

  lemma LexJoint(conjunction: bool, text: string)
    ensures Tokens(false, Separator(conjunction) + text)
         == Prepend(Tok(if conjunction then TokAnd else TokOr), Tokens(false, text))
  {
    hide Tokens;
    if conjunction {
      LexSeparator("&&", TokAnd, text);
      assert Separator(true) == " " + "&&" + " ";
    } else {
      LexSeparator("||", TokOr, text);
      assert Separator(false) == " " + "||" + " ";
    }
  }

  /** The tokens between the parentheses of a printed And or Or. */
  function OperandTokens(operands: seq<Node>, conjunction: bool, rest: Stream): Stream
    requires operands != [] && AllWellFormed(operands)
  {
    if conjunction then AndTokens(AndOf(operands), rest) else OrTokens(OrOf(operands), rest)
  }

  lemma {:induction false} LexOperands(operands: seq<Node>, conjunction: bool, text: string, rest: Stream)
    requires operands != [] && AllWellFormed(operands) && Tokens(false, text) == Ok(rest)
    ensures Tokens(false, "(" + PrintOperands(operands, Separator(conjunction)) + ")" + text)
         == Ok(Cons(Tok(TokLParen), OperandTokens(operands, conjunction, Cons(Tok(TokRParen), rest))))
    decreases operands, 1
  {
    hide Tokens;
    var inner := PrintOperands(operands, Separator(conjunction)) + (")" + text);
    LexSymbol(')', text);
    LexJoined(operands, conjunction, ")" + text, Cons(Tok(TokRParen), rest));
    LexSymbol('(', inner);
    assert "(" + PrintOperands(operands, Separator(conjunction)) + ")" + text == "(" + inner;
  }

  lemma {:induction false} LexJoined(operands: seq<Node>, conjunction: bool, text: string, rest: Stream)
    requires operands != [] && AllWellFormed(operands) && Tokens(false, text) == Ok(rest)
    ensures Tokens(false, PrintOperands(operands, Separator(conjunction)) + text)
         == Ok(OperandTokens(operands, conjunction, rest))
    decreases operands, 0
  {
    hide Tokens, Print, OpOf, OpTokens;
    var first, separator := operands[0], Separator(conjunction);
    if |operands| == 1 {
      LexNode(first, text, rest);
      assert PrintOperands(operands, separator) + text == Print(first) + text;
      assert OrTokens(OrOne(AndOne(OpOf(first))), rest) == AndTokens(AndOne(OpOf(first)), rest);
    } else {
      var more := PrintOperands(operands[1..], separator) + text;
      var after := OperandTokens(operands[1..], conjunction, rest);
      LexJoined(operands[1..], conjunction, text, rest);
      LexJoint(conjunction, more);
      var tail := Cons(Tok(if conjunction then TokAnd else TokOr), after);
      LexNode(first, separator + more, tail);
      assert AndTokens(AndOne(OpOf(first)), tail) == OpTokens(OpOf(first), tail);
      assert PrintOperands(operands, separator) + text == Print(first) + (separator + more);
    }
  }

  /** The round trip: a printed tree parses back to the tree with each chain of directly
      nested Nots reduced modulo 2, which means the same on every label map. */
  lemma PrintThenParse(n: Node)
    requires WellFormed(n)
    ensures Parse(Print(n)) == Ok(Reduce(n))
    ensures forall labels :: Evaluate(Reduce(n), labels) == Evaluate(n, labels)
  {
    var end, e := Cons(Tok(TokEOF), Nil), OpOf(n);
    LexNode(n, "", end);
    assert Print(n) + "" == Print(n);
    ParsesOperation(e);
    OpOfReduces(n);
    forall labels
      ensures Evaluate(Reduce(n), labels) == Evaluate(n, labels)
    {
      ReduceKeepsMeaning(n, labels);
    }
  }

  lemma ParsesOperation(e: OpExpr)
    ensures ParseTokens(OpTokens(e, Cons(Tok(TokEOF), Nil))) == Ok(OpTree(e))
  {
    var end := Cons(Tok(TokEOF), Nil);
    AcceptsOr(OrOne(AndOne(e)), end);
    assert OrTree(OrOne(AndOne(e))) == AndTree(AndOne(e)) == OpTree(e);
    assert OrTokens(OrOne(AndOne(e)), end) == OpTokens(e, end);
    assert OpTokens(e, end).head.kind != TokEOF;
  }
}
