// The canonical text of a selector.
module Normalise {
  import opened Wrappers
  import opened SelectorAst
  import opened Tokenizer
  import opened Grammar
  import opened Parser
  import opened RoundTrip

  // ----- the library's TrimSpace -----

  /** The characters Unicode counts as white space. */
  predicate UnicodeSpace(c: char) {
    '\t' <= c <= '\r' || c == ' ' || c == '\U{85}' || c == '\U{A0}' || c == '\U{1680}'
    || '\U{2000}' <= c <= '\U{200A}' || c == '\U{2028}' || c == '\U{2029}' || c == '\U{202F}'
    || c == '\U{205F}' || c == '\U{3000}'
  }

  function TrimLeft(s: string): string {
    if s != "" && UnicodeSpace(s[0]) then TrimLeft(s[1..]) else s
  }

  function TrimRight(s: string): string {
    if s != "" && UnicodeSpace(s[|s| - 1]) then TrimRight(s[..|s| - 1]) else s
  }

  function TrimSpace(s: string): string {
    TrimRight(TrimLeft(s))
  }

  predicate Trimmed(s: string) {
    s != "" ==> !UnicodeSpace(s[0]) && !UnicodeSpace(s[|s| - 1])
  }

  lemma {:induction false} TrimRightTrims(s: string)
    requires s != "" ==> !UnicodeSpace(s[0])
    ensures Trimmed(TrimRight(s))
  {
    if s != "" && UnicodeSpace(s[|s| - 1]) {
      TrimRightTrims(s[..|s| - 1]);
    }
  }

  lemma {:induction false} TrimLeftTrims(s: string)
    ensures TrimLeft(s) != "" ==> !UnicodeSpace(TrimLeft(s)[0])
  {
    if s != "" && UnicodeSpace(s[0]) {
      TrimLeftTrims(s[1..]);
    }
  }

  lemma TrimSpaceTrims(s: string)
    ensures Trimmed(TrimSpace(s)) && TrimSpace(TrimSpace(s)) == TrimSpace(s)
  {
    TrimLeftTrims(s);
    TrimRightTrims(TrimLeft(s));
  }

  const WHITE := "\t\n\U{B}\U{C}\r \U{85}\U{A0}\U{1680}\U{2000}\U{2001}\U{2002}\U{2003}\U{2004}\U{2005}"
    + "\U{2006}\U{2007}\U{2008}\U{2009}\U{200A}\U{2028}\U{2029}\U{202F}\U{205F}\U{3000}"

  lemma WhiteIsSpace(c: char)
    ensures c in WHITE <==> UnicodeSpace(c)
  {
    if '\t' <= c <= '\r' {
      assert WHITE[c as int - '\t' as int] == c;
    } else if '\U{2000}' <= c <= '\U{200A}' {
      assert WHITE[c as int - '\U{2000}' as int + 9] == c;
    } else if UnicodeSpace(c) {
      assert WHITE[5] == ' ' && WHITE[6] == '\U{85}' && WHITE[7] == '\U{A0}' && WHITE[8] == '\U{1680}';
      assert WHITE[20] == '\U{2028}' && WHITE[21] == '\U{2029}' && WHITE[22] == '\U{202F}';
      assert WHITE[23] == '\U{205F}' && WHITE[24] == '\U{3000}';
    }
  }

  predicate AllWhite(s: string) {
    forall i :: 0 <= i < |s| ==> s[i] in WHITE
  }

  lemma AllWhiteAppend(a: string, b: string)
    requires AllWhite(a) && AllWhite(b)
    ensures AllWhite(a + b)
  {
    hide WHITE;
  }

  lemma OneWhite(c: char)
    requires UnicodeSpace(c)
    ensures AllWhite([c])
  {
    WhiteIsSpace(c);
  }

  lemma {:induction false} TrimLeftCuts(s: string) returns (before: string)
    ensures AllWhite(before) && s == before + TrimLeft(s)
  {
    hide UnicodeSpace, AllWhite;
    if s != "" && UnicodeSpace(s[0]) {
      OneWhite(s[0]);
      var more := TrimLeftCuts(s[1..]);
      AllWhiteAppend([s[0]], more);
      before := [s[0]] + more;
      assert s == [s[0]] + s[1..];
    } else {
      before := "";
      NoneWhite();
    }
  }

  lemma NoneWhite()
    ensures AllWhite("")
  {
  }

  lemma {:induction false} TrimRightCuts(s: string) returns (after: string)
    ensures AllWhite(after) && s == TrimRight(s) + after
  {
    hide UnicodeSpace, AllWhite;
    if s != "" && UnicodeSpace(s[|s| - 1]) {
      OneWhite(s[|s| - 1]);
      var more := TrimRightCuts(s[..|s| - 1]);
      AllWhiteAppend(more, [s[|s| - 1]]);
      after := more + [s[|s| - 1]];
      assert s == s[..|s| - 1] + [s[|s| - 1]];
    } else {
      after := "";
      NoneWhite();
    }
  }

  /** What is cut off both ends is white space, and none is left at either. */
  lemma TrimSpaceCuts(s: string)
    ensures exists before, after :: AllWhite(before) && AllWhite(after) && s == before + TrimSpace(s) + after
    ensures var t := TrimSpace(s); t != "" ==> t[0] !in WHITE && t[|t| - 1] !in WHITE
  {
    var before := TrimLeftCuts(s);
    var after := TrimRightCuts(TrimLeft(s));
    var t := TrimSpace(s);
    TrimSpaceTrims(s);
    hide AllWhite, UnicodeSpace, TrimLeft, TrimRight, WHITE;
    assert s == before + t + after;
    if t != "" {
      WhiteIsSpace(t[0]);
      WhiteIsSpace(t[|t| - 1]);
    }
  }

  // ----- printed text -----

  lemma TrimmedEnds(first: string, last: string)
    requires first != "" && !UnicodeSpace(first[0])
    requires last != "" && !UnicodeSpace(last[|last| - 1])
    ensures first + last != "" && Trimmed(first + last)
  {
    assert (first + last)[0] == first[0];
  }

  lemma {:induction false} PrintIsTrimmed(n: Node)
    requires WellFormed(n)
    ensures Print(n) != "" && Trimmed(Print(n))
  {
    match n {
      case Compare(name, op, value) =>
        assert name[0] in name;
        TrimmedEnds(name + OpText(op), Quoted(value));
      case InSet(name, values) =>
        assert name[0] in name;
        TrimmedEnds(name + " in {" + PrintValues(values), "}");
      case NotInSet(name, values) =>
        assert name[0] in name;
        TrimmedEnds(name + " not in {" + PrintValues(values), "}");
      case Has(name) => TrimmedEnds("has(" + name, ")");
      case Not(operand) =>
        PrintIsTrimmed(operand);
        TrimmedEnds("!", Print(operand));
      case And(operands) => TrimmedEnds("(" + PrintOperands(operands, " && "), ")");
      case Or(operands) => TrimmedEnds("(" + PrintOperands(operands, " || "), ")");
      case All => TrimmedEnds("all(", ")");
      case Global => TrimmedEnds("global(", ")");
    }
  }

  /** Reducing never lengthens the text, and shortens it when there is a double negation. */
  lemma {:induction false} ReduceShortens(n: Node)
    ensures |Print(Reduce(n))| <= |Print(n)|
    ensures !NoDoubleNot(n) ==> |Print(Reduce(n))| < |Print(n)|
    decreases n, 1
  {
    match n {
      case Not(Not(operand)) => ReduceShortens(operand);
      case Not(operand) => ReduceShortens(operand);
      case And(operands) => OperandsShorten(operands, " && ");
      case Or(operands) => OperandsShorten(operands, " || ");
      case _ =>
    }
  }

  lemma {:induction false} OperandsShorten(operands: seq<Node>, separator: string)
    ensures |PrintOperands(ReduceAll(operands), separator)| <= |PrintOperands(operands, separator)|
    ensures (exists i :: 0 <= i < |operands| && !NoDoubleNot(operands[i])) ==>
      |PrintOperands(ReduceAll(operands), separator)| < |PrintOperands(operands, separator)|
    decreases operands, 0
  {
    if operands != [] {
      ReduceShortens(operands[0]);
      OperandsShorten(operands[1..], separator);
      assert ReduceAll(operands)[1..] == ReduceAll(operands[1..]);
      forall i | 0 < i < |operands|
        ensures operands[i] == operands[1..][i - 1]
      {
      }
    }
  }

  // ----- normalisation -----

  function Normalise(selector: string): string {
    var s := TrimSpace(selector);
    match Parse(s)
    case Ok(n) => Print(n)
    case Err(_) => s
  }

  lemma NormalisePrinted(n: Node)
    requires WellFormed(n)
    ensures Normalise(Print(n)) == Print(Reduce(n))
  {
    PrintIsTrimmed(n);
    PrintThenParse(n);
  }

  lemma {:induction false} ReduceKeepsWellFormed(n: Node)
    requires WellFormed(n)
    ensures WellFormed(Reduce(n))
  {
    match n {
      case Not(Not(operand)) => ReduceKeepsWellFormed(operand);
      case Not(operand) => ReduceKeepsWellFormed(operand);
      case And(operands) => OperandsKeepWellFormed(operands);
      case Or(operands) => OperandsKeepWellFormed(operands);
      case _ =>
    }
  }

  lemma {:induction false} OperandsKeepWellFormed(operands: seq<Node>)
    requires forall i :: 0 <= i < |operands| ==> WellFormed(operands[i])
    ensures forall i :: 0 <= i < |operands| ==> WellFormed(ReduceAll(operands)[i])
    decreases operands, 0
  {
    forall i | 0 <= i < |operands|
      ensures WellFormed(ReduceAll(operands)[i])
    {
      ReduceAllAt(operands, i);
      ReduceKeepsWellFormed(operands[i]);
    }
  }

  /** A selector that parses normalises to one that parses and means the same; any other
      text is only trimmed. */
  lemma NormaliseKeepsMeaning(selector: string, labels: Labels)
    ensures var before, after := Parse(TrimSpace(selector)), Parse(Normalise(selector));
            if before.Ok? then after.Ok? && Evaluate(after.value, labels) == Evaluate(before.value, labels)
            else Normalise(selector) == TrimSpace(selector)
  {
    var s := TrimSpace(selector);
    ParsedIsWellFormed(s);
    if Parse(s).Ok? {
      PrintThenParse(Parse(s).value);
    }
  }

  /** A second application can still change the text, exactly when the parsed tree holds a
      Not directly under a Not; a third never does. */
  lemma NormaliseStabilises(selector: string)
    ensures var once := Normalise(selector);
            var parsed := Parse(TrimSpace(selector));
            && (Normalise(once) == once <==> (parsed.Ok? ==> NoDoubleNot(parsed.value)))
            && Normalise(Normalise(once)) == Normalise(once)
  {
    var s := TrimSpace(selector);
    TrimSpaceTrims(selector);
    ParsedIsWellFormed(s);
    if Parse(s).Ok? {
      var n := Parse(s).value;
      NormalisePrinted(n);
      ReduceShortens(n);
      ReduceKeepsWellFormed(n);
      ReduceIsCanonical(n);
      NormalisePrinted(Reduce(n));
      ReduceFixes(n);
      ReduceFixes(Reduce(n));
    }
  }

  /** Parentheses can hide a double negation from the parser. */
  function NegatedTwice(n: Node): string {
    "!" + (['('] + ("!" + (Print(n) + ")")))
  }

  lemma LexNegatedTwice(n: Node, end: Stream)
    requires WellFormed(n) && end == Cons(Tok(TokEOF), Nil)
    ensures Tokens(false, NegatedTwice(n))
         == Ok(Cons(Tok(TokNot), Cons(Tok(TokLParen), Cons(Tok(TokNot), OpTokens(OpOf(n), Cons(Tok(TokRParen), end))))))
  {
    assert Tokens(false, "") == Ok(end) && [')'] + "" == ")";
    hide Tokens, Print, OpTokens, OpOf;
    PrintStarts(n);
    LexSymbol(')', "");
    LexNode(n, ")", Cons(Tok(TokRParen), end));
    LexNot(Print(n) + ")");
    LexSymbol('(', "!" + (Print(n) + ")"));
    LexNot(['('] + ("!" + (Print(n) + ")")));
  }

  lemma ParseNegatedTwice(n: Node)
    requires WellFormed(n) && NoDoubleNot(n) && !n.Not?
    ensures Parse(NegatedTwice(n)) == Ok(Not(Not(n)))
  {
    hide Tokens, ParseTokens, NegatedTwice;
    var end, e := Cons(Tok(TokEOF), Nil), OpExpr(1, PrimaryOf(n));
    LexNegatedTwice(n, end);
    OpOfReduces(n);
    ReduceFixes(n);
    GroupOfOne(e, end);
    ParsesOperation(OpExpr(1, Paren(OrOne(AndOne(e)))));
  }

  lemma GroupOfOne(e: OpExpr, rest: Stream)
    requires e.nots == 1
    ensures OrTree(OrOne(AndOne(e))) == Not(PrimaryTree(e.primary))
    ensures OpTokens(OpExpr(1, Paren(OrOne(AndOne(e)))), rest)
         == Cons(Tok(TokNot), Cons(Tok(TokLParen), Cons(Tok(TokNot),
              PrimaryTokens(e.primary, Cons(Tok(TokRParen), rest)))))
  {
    hide PrimaryTree;
    var close := Cons(Tok(TokRParen), rest);
    OneNot(PrimaryTokens(Paren(OrOne(AndOne(e))), rest));
    OneNot(PrimaryTokens(e.primary, close));
    assert OrTree(OrOne(AndOne(e))) == AndTree(AndOne(e)) == OpTree(e);
    assert OrTokens(OrOne(AndOne(e)), close) == AndTokens(AndOne(e), close) == OpTokens(e, close);
  }

  lemma OneNot(rest: Stream)
    ensures NotTokens(1, rest) == Cons(Tok(TokNot), rest)
  {
    assert NotTokens(0, rest) == rest;
  }

  lemma TrimmedStays(s: string)
    requires Trimmed(s)
    ensures TrimSpace(s) == s
  {
  }

  lemma NegatedTwiceIsTrimmed(n: Node)
    ensures Trimmed(NegatedTwice(n))
  {
    hide Print;
    TrimmedEnds("!" + (['('] + ("!" + Print(n))), ")");
    assert NegatedTwice(n) == "!" + (['('] + ("!" + Print(n))) + ")";
  }

  lemma PrintsTwoNots(n: Node)
    ensures Print(Not(Not(n))) == "!!" + Print(n)
  {
    assert Print(Not(Not(n))) == "!" + ("!" + Print(n));
  }

  /** So one application does not reach the canonical text: "!(!x)" becomes "!!x", then "x". */
  lemma SecondApplicationMatters(n: Node)
    requires WellFormed(n) && NoDoubleNot(n) && !n.Not?
    ensures Normalise(NegatedTwice(n)) == "!!" + Print(n)
    ensures Normalise("!!" + Print(n)) == Print(n)
  {
    ParseNegatedTwice(n);
    NormalisePrinted(Not(Not(n)));
    ReduceFixes(n);
    NegatedTwiceIsTrimmed(n);
    TrimmedStays(NegatedTwice(n));
    PrintsTwoNots(n);
    hide Parse, Print, TrimSpace, NegatedTwice, NoDoubleNot;
  }
}
