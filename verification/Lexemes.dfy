// How each token is written, without regard to how the tokenizer finds it.
module Lexemes {
  import opened Wrappers
  import opened Tokenizer
  import RoundTrip

  const LOWER := "abcdefghijklmnopqrstuvwxyz"
  const UPPER := "ABCDEFGHIJKLMNOPQRSTUVWXYZ"
  const DIGITS := "0123456789"
  const NAME_CHARS := LOWER + UPPER + DIGITS + "_./-"

  predicate Blanks(s: string) {
    forall i :: 0 <= i < |s| ==> s[i] == ' ' || s[i] == '\t'
  }

  ghost predicate Name(s: string) {
    1 <= |s| <= 512 && forall c :: c in s ==> c in NAME_CHARS
  }

  /** No name goes on in the text that follows. */
  predicate Ends(rest: string) {
    rest == "" || rest[0] !in NAME_CHARS
  }

  /** Two words, with any blanks between them and all the blanks behind them. */
  ghost predicate TwoWords(text: string, first: string, second: string, rest: string) {
    (exists b, c :: Blanks(b) && Blanks(c) && text == first + b + second + c)
    && Ends(rest) && (rest != "" ==> !Blanks(rest[..1]))
  }

  ghost predicate Call(text: string, word: string, name: string) {
    exists b, c :: Blanks(b) && Blanks(c) && text == word + "(" + b + name + c + ")"
  }

  ghost predicate Quotes(text: string, value: string) {
    (text == "\"" + value + "\"" && '"' !in value) || (text == "'" + value + "'" && '\'' !in value)
  }

  /** The symbols, and the operators that are words. */
  ghost predicate Symbol(afterLabel: bool, kind: Kind, text: string, rest: string) {
    match kind
    case TokLParen => text == "("
    case TokRParen => text == ")"
    case TokLBrace => text == "{"
    case TokRBrace => text == "}"
    case TokComma => text == ","
    case TokEq => text == "=="
    case TokNe => text == "!="
    case TokNot => text == "!" && !("=" <= rest)
    case TokAnd => text == "&&"
    case TokOr => text == "||"
    case TokContains => afterLabel && text == "contains" && Ends(rest)
    case TokStartsWith => afterLabel && TwoWords(text, "starts", "with", rest)
    case TokEndsWith => afterLabel && TwoWords(text, "ends", "with", rest)
    case TokNotIn => afterLabel && TwoWords(text, "not", "in", rest)
    case TokIn => afterLabel && text == "in" && Ends(rest)
    case TokAll => !afterLabel && Call(text, "all", "")
    case TokGlobal => !afterLabel && Call(text, "global", "")
    case _ => false
  }

  /** The text is the token as written in front of the rest. Operators stand only behind a label,
      and labels and calls only elsewhere. */
  ghost predicate Lexeme(afterLabel: bool, t: Token, text: string, rest: string) {
    match t.kind
    case TokStringLiteral => Quotes(text, t.value)
    case TokHas => !afterLabel && Name(t.value) && Call(text, "has", t.value)
    case TokLabel =>
      !afterLabel && Name(t.value) && text == t.value && Ends(rest)
      && !(t.value in {"has", "all", "global"} && "(" <= rest)
    case _ => t.value == "" && Symbol(afterLabel, t.kind, text, rest)
  }

  /** The text is the tokens' lexemes in order, with blanks anywhere between them. */
  ghost predicate Reads(afterLabel: bool, s: string, tokens: Stream)
    decreases tokens
  {
    tokens.Cons?
    && if tokens.tail.Nil? then tokens.head == Tok(TokEOF) && Blanks(s)
       else exists b, text, rest ::
         s == b + text + rest && Blanks(b) && Lexeme(afterLabel, tokens.head, text, rest)
         && Reads(tokens.head.kind == TokLabel, rest, tokens.tail)
  }

  // ----- characters -----

  lemma LowerAreLetters(c: char)
    ensures c in LOWER <==> 'a' <= c <= 'z'
  {
    if 'a' <= c <= 'z' {
      assert LOWER[c as int - 'a' as int] == c;
    }
  }

  lemma UpperAreLetters(c: char)
    ensures c in UPPER <==> 'A' <= c <= 'Z'
  {
    if 'A' <= c <= 'Z' {
      assert UPPER[c as int - 'A' as int] == c;
    }
  }

  lemma DigitsAreDigits(c: char)
    ensures c in DIGITS <==> '0' <= c <= '9'
  {
    if '0' <= c <= '9' {
      assert DIGITS[c as int - '0' as int] == c;
    }
  }

  lemma NameCharsAreIdentifierChars(c: char)
    ensures c in NAME_CHARS <==> IdentifierChar(c)
  {
    LowerAreLetters(c);
    UpperAreLetters(c);
    DigitsAreDigits(c);
    assert c in NAME_CHARS <==> c in LOWER || c in UPPER || c in DIGITS || c in "_./-";
  }

  lemma NamesAreLabels(s: string)
    ensures Name(s) <==> ValidLabel(s)
    ensures Ends(s) <==> WordBoundary(s)
  {
    forall c
      ensures c in NAME_CHARS <==> IdentifierChar(c)
    {
      NameCharsAreIdentifierChars(c);
    }
  }

  lemma {:induction false} TrimSkips(b: string, s: string)
    requires Blanks(b) && (s != "" ==> !Blank(s[0]))
    ensures TrimWhitespace(b + s) == s
  {
    if b == "" {
      assert b + s == s;
    } else {
      assert b == [b[0]] + b[1..] && (b + s)[1..] == b[1..] + s;
      TrimSkips(b[1..], s);
    }
  }

  lemma BlanksMore(c: char, b: string)
    requires Blank(c) && Blanks(b)
    ensures Blanks([c] + b)
  {
  }

  lemma {:induction false} TrimLeaves(s: string) returns (b: string)
    ensures Blanks(b) && s == b + TrimWhitespace(s)
  {
    if s != "" && Blank(s[0]) {
      var more := TrimLeaves(s[1..]);
      BlanksMore(s[0], more);
      hide Blanks, Blank;
      b := [s[0]] + more;
      assert s == [s[0]] + s[1..];
    } else {
      b := "";
    }
  }

  lemma Prefixes(head: string, tail: string)
    ensures head <= head + tail && (head + tail)[|head|..] == tail
    ensures CutPrefix(head + tail, head) == Some(tail)
  {
  }

  // ----- words and calls -----

  lemma WordIsCut(s: string, word: string, rest: string)
    ensures CutWord(s, word) == Some(rest) <==> s == word + rest && Ends(rest)
  {
    NamesAreLabels(rest);
    hide Ends, WordBoundary;
    Prefixes(word, rest);
  }

  lemma OneWordIsCut(s: string, word: string)
    ensures var cut := CutPrefix(s, word);
            CutWords(s, [word]) == if cut.Some? && WordBoundary(TrimWhitespace(cut.value))
                                   then Some(TrimWhitespace(cut.value)) else None
  {
    assert [word][1..] == [];
  }

  lemma TwoWordsAreCut(s: string, first: string, second: string, rest: string)
    requires second != "" && !Blank(second[0])
    ensures CutWords(s, [first, second]) == Some(rest) <==> WrittenWords(s, first, second, rest)
  {
    hide CutWords, TwoWords;
    if CutWords(s, [first, second]) == Some(rest) {
      var text := CutLeavesTwoWords(s, first, second, rest);
    }
    if text :| s == text + rest && TwoWords(text, first, second, rest) {
      TwoWordsCut(text, first, second, rest);
    }
  }

  lemma CutLeavesTwoWords(s: string, first: string, second: string, rest: string) returns (text: string)
    requires CutWords(s, [first, second]) == Some(rest)
    ensures s == text + rest && TwoWords(text, first, second, rest)
  {
    assert [first, second][1..] == [second];
    NamesAreLabels(rest);
    var behind := CutPrefix(s, first).value;
    var b := TrimLeaves(behind);
    OneWordIsCut(TrimWhitespace(behind), second);
    var end := CutPrefix(TrimWhitespace(behind), second).value;
    var c := TrimLeaves(end);
    assert rest != "" ==> !Blanks(rest[..1]);
    hide CutWords, TrimWhitespace, Blanks, Ends, WordBoundary;
    text := first + b + second + c;
    Regroup(first, b, second, c, rest);
  }

  lemma FirstWordIsCut(s: string, first: string, second: string)
    ensures var cut := CutPrefix(s, first);
            CutWords(s, [first, second])
            == if cut.Some? then CutWords(TrimWhitespace(cut.value), [second]) else None
  {
    assert [first, second][1..] == [second];
  }

  lemma StartsUnblank(rest: string)
    requires rest != "" ==> !Blanks(rest[..1])
    ensures rest != "" ==> !Blank(rest[0])
  {
  }

  lemma SecondWordCut(second: string, c: string, rest: string)
    requires Blanks(c) && Ends(rest) && (rest != "" ==> !Blanks(rest[..1]))
    ensures CutWords(second + (c + rest), [second]) == Some(rest)
  {
    StartsUnblank(rest);
    NamesAreLabels(rest);
    hide TrimWhitespace, Blanks, Ends, WordBoundary, CutWords, CutPrefix;
    TrimSkips(c, rest);
    Prefixes(second, c + rest);
    OneWordIsCut(second + (c + rest), second);
  }

  lemma TwoWordsCut(text: string, first: string, second: string, rest: string)
    requires second != "" && !Blank(second[0]) && TwoWords(text, first, second, rest)
    ensures CutWords(text + rest, [first, second]) == Some(rest)
  {
    hide TrimWhitespace, Blanks, Ends, WordBoundary, CutWords, CutPrefix;
    var b, c :| Blanks(b) && Blanks(c) && text == first + b + second + c;
    var behind := second + (c + rest);
    SecondWordCut(second, c, rest);
    Regroup(first, b, second, c, rest);
    assert behind[0] == second[0];
    TrimSkips(b, behind);
    Prefixes(first, b + behind);
    FirstWordIsCut(first + (b + behind), first, second);
  }

  lemma Regroup(a: string, b: string, c: string, d: string, e: string)
    ensures a + b + c + d + e == a + (b + (c + (d + e)))
  {
  }

  /** What stands between the parenthesis of a call and the rest. */
  ghost predicate Enclosed(inner: string, name: string, rest: string) {
    exists b, c :: Blanks(b) && Blanks(c) && inner == b + name + c + ")" + rest
  }

  lemma CallEncloses(s: string, word: string, name: string, rest: string)
    ensures (exists text :: s == text + rest && Call(text, word, name)) <==>
      word + "(" <= s && Enclosed(s[|word| + 1..], name, rest)
  {
    hide Call, Enclosed;
    var open := word + "(";
    if text :| s == text + rest && Call(text, word, name) {
      CallIsEnclosed(text, word, name, rest);
    }
    if open <= s && Enclosed(s[|open|..], name, rest) {
      assert s == open + s[|open|..];
      var text := EnclosedIsCall(s[|open|..], word, name, rest);
    }
  }

  lemma CallIsEnclosed(text: string, word: string, name: string, rest: string)
    requires Call(text, word, name)
    ensures word + "(" <= text + rest && Enclosed((text + rest)[|word| + 1..], name, rest)
  {
    hide Blanks;
    var b, c :| Blanks(b) && Blanks(c) && text == word + "(" + b + name + c + ")";
    CallOf(word + "(", b, name, c, rest);
  }

  lemma EnclosedIsCall(inner: string, word: string, name: string, rest: string) returns (text: string)
    requires Enclosed(inner, name, rest)
    ensures word + "(" + inner == text + rest && Call(text, word, name)
  {
    hide Blanks;
    var b, c :| Blanks(b) && Blanks(c) && inner == b + name + c + ")" + rest;
    text := word + "(" + b + name + c + ")";
    CallOf(word + "(", b, name, c, rest);
  }

  lemma CallOf(open: string, b: string, name: string, c: string, rest: string)
    ensures open + b + name + c + ")" + rest == open + (b + name + c + ")" + rest)
    ensures var s := open + b + name + c + ")" + rest; open <= s && s[|open|..] == b + name + c + ")" + rest
  {
    Prefixes(open, b + name + c + ")" + rest);
  }

  lemma NothingBetween(b: string, c: string, rest: string)
    ensures b + "" + c + ")" + rest == (b + c) + (")" + rest)
  {
  }

  lemma EmptyCallIsCut(inner: string, kind: Kind, rest: string)
    ensures AfterPrefix(TrimWhitespace(inner), ")", kind, NoClosingParen) == Ok((Tok(kind), rest)) <==>
      Enclosed(inner, "", rest)
  {
    Prefixes(")", rest);
    assert AfterPrefix(TrimWhitespace(inner), ")", kind, NoClosingParen) == Ok((Tok(kind), rest)) <==>
      TrimWhitespace(inner) == ")" + rest;
    var b := TrimLeaves(inner);
    hide AfterPrefix, TrimWhitespace, CutPrefix;
    if TrimWhitespace(inner) == ")" + rest {
      NothingBetween(b, "", rest);
      assert Blanks("") && b + "" == b;
      hide Blanks;
      assert Enclosed(inner, "", rest);
    }
    if Enclosed(inner, "", rest) {
      var b, c :| Blanks(b) && Blanks(c) && inner == b + "" + c + ")" + rest;
      NothingBetween(b, c, rest);
      TrimSkips(b + c, ")" + rest);
    }
  }

  lemma NameIsCut(s: string, name: string, rest: string)
    ensures CutIdentifier(s) == Ok((name, rest)) <==> Name(name) && s == name + rest && Ends(rest)
  {
    NamesAreLabels(name);
    NamesAreLabels(rest);
    hide Ends, Name;
    if CutIdentifier(s) == Ok((name, rest)) {
      IdentifierIsPrefix(s);
    }
    if ValidLabel(name) && s == name + rest && WordBoundary(rest) {
      RoundTrip.CutsWholeName(name, rest);
    }
  }

  lemma HasIsCut(inner: string, name: string, rest: string)
    ensures HasToken(inner) == Ok((Token(TokHas, name), rest)) <==> Name(name) && Enclosed(inner, name, rest)
  {
    hide HasToken, Name, Blanks;
    if HasToken(inner) == Ok((Token(TokHas, name), rest)) {
      CutNameIsEnclosed(inner, name, rest);
    }
    if Name(name) && Enclosed(inner, name, rest) {
      var b, c :| Blanks(b) && Blanks(c) && inner == b + name + c + ")" + rest;
      Regroup(b, name, c, ")", rest);
      EnclosedNameIsCut(b, name, c, rest);
    }
  }

  lemma CutNameIsEnclosed(inner: string, name: string, rest: string)
    requires HasToken(inner) == Ok((Token(TokHas, name), rest))
    ensures Name(name) && Enclosed(inner, name, rest)
  {
    var s := TrimWhitespace(inner);
    var behind := CutIdentifier(s).value.1;
    assert TrimWhitespace(behind) == ")" + rest;
    NameIsCut(s, name, behind);
    var b := TrimLeaves(inner);
    var c := TrimLeaves(behind);
    hide HasToken, CutIdentifier, Name, Blanks, TrimWhitespace;
    Regroup(b, name, c, ")", rest);
  }

  lemma EnclosedNameIsCut(b: string, name: string, c: string, rest: string)
    requires Name(name) && Blanks(b) && Blanks(c)
    ensures HasToken(b + (name + (c + (")" + rest)))) == Ok((Token(TokHas, name), rest))
  {
    var behind := c + (")" + rest);
    NamesAreLabels(name);
    assert name[0] in name;
    TrimSkips(b, name + behind);
    TrimSkips(c, ")" + rest);
    NameCharsAreIdentifierChars(behind[0]);
    assert behind[0] == if c == "" then ')' else c[0];
    assert Ends(behind);
    NameIsCut(name + behind, name, behind);
    Prefixes(")", rest);
    hide TrimWhitespace, CutIdentifier, Name, Blanks, Ends;
  }

  // ----- one token -----

  ghost predicate Written(afterLabel: bool, s: string, t: Token, rest: string) {
    exists text :: s == text + rest && Lexeme(afterLabel, t, text, rest)
  }

  predicate StartsAs(kind: Kind, c: char) {
    match kind
    case TokLParen => c == '('
    case TokRParen => c == ')'
    case TokLBrace => c == '{'
    case TokRBrace => c == '}'
    case TokComma => c == ','
    case TokStringLiteral => c == '"' || c == '\''
    case TokEq => c == '='
    case TokNe => c == '!'
    case TokNot => c == '!'
    case TokAnd => c == '&'
    case TokOr => c == '|'
    case TokContains => c == 'c'
    case TokStartsWith => c == 's'
    case TokEndsWith => c == 'e'
    case TokNotIn => c == 'n'
    case TokIn => c == 'i'
    case TokHas => c == 'h'
    case TokAll => c == 'a'
    case TokGlobal => c == 'g'
    case TokLabel => IdentifierChar(c)
    case TokEOF => false
  }

  lemma LexemeStarts(afterLabel: bool, t: Token, text: string, rest: string)
    requires Lexeme(afterLabel, t, text, rest)
    ensures text != "" && StartsAs(t.kind, text[0]) && !Blank(text[0])
  {
    if t.kind == TokLabel {
      NamesAreLabels(t.value);
      assert text[0] in t.value;
    }
    hide Name, Ends, Blanks;
  }

  lemma WrittenStarts(afterLabel: bool, s: string, t: Token, rest: string)
    requires s != ""
    ensures Written(afterLabel, s, t, rest) ==> StartsAs(t.kind, s[0])
  {
    hide Lexeme, StartsAs;
    if text :| s == text + rest && Lexeme(afterLabel, t, text, rest) {
      LexemeStarts(afterLabel, t, text, rest);
    }
  }

  lemma SymbolIsCut(afterLabel: bool, s: string, t: Token, rest: string)
    requires s != "" && s[0] in "(){},=!&|"
    ensures NextToken(afterLabel, s) == Ok((t, rest)) <==> Written(afterLabel, s, t, rest)
  {
    hide NextToken, Lexeme;
    if NextToken(afterLabel, s) == Ok((t, rest)) {
      CutIsSymbol(afterLabel, s, t, rest);
    }
    if text :| s == text + rest && Lexeme(afterLabel, t, text, rest) {
      LexemeStarts(afterLabel, t, text, rest);
      SymbolCut(afterLabel, t, text, rest);
    }
  }

  lemma CutIsSymbol(afterLabel: bool, s: string, t: Token, rest: string)
    requires s != "" && s[0] in "(){},=!&|" && NextToken(afterLabel, s) == Ok((t, rest))
    ensures Written(afterLabel, s, t, rest)
  {
    hide OperatorToken, WordToken, StringLiteral;
    var text := s[..|s| - |rest|];
    assert t.value == "" && rest == s[|text|..] && |text| <= 2;
    assert s == text + rest && text[0] == s[0];
    assert |text| == 2 ==> text[1] == s[1];
    assert Symbol(afterLabel, t.kind, text, rest);
  }

  lemma SymbolCut(afterLabel: bool, t: Token, text: string, rest: string)
    requires Lexeme(afterLabel, t, text, rest) && text != "" && text[0] in "(){},=!&|" && StartsAs(t.kind, text[0])
    ensures NextToken(afterLabel, text + rest) == Ok((t, rest))
  {
    if t.kind in {TokEq, TokNe, TokAnd, TokOr} {
      PairCut(afterLabel, t, text, rest);
    } else {
      NameCharsAreIdentifierChars(text[0]);
      hide NextToken, Lexeme, IdentifierChar, NAME_CHARS;
      SingleCut(afterLabel, t, text, rest);
    }
  }

  lemma PairCut(afterLabel: bool, t: Token, text: string, rest: string)
    requires Lexeme(afterLabel, t, text, rest) && t.kind in {TokEq, TokNe, TokAnd, TokOr}
    ensures NextToken(afterLabel, text + rest) == Ok((t, rest))
  {
    Prefixes(text, rest);
    hide OperatorToken, WordToken, StringLiteral, CutPrefix;
    assert (text + rest)[0] == text[0];
  }

  lemma SingleCut(afterLabel: bool, t: Token, text: string, rest: string)
    requires Lexeme(afterLabel, t, text, rest)
    requires t.kind in {TokLParen, TokRParen, TokLBrace, TokRBrace, TokComma, TokNot}
    ensures NextToken(afterLabel, text + rest) == Ok((t, rest))
  {
    hide OperatorToken, WordToken, StringLiteral;
    var s := text + rest;
    assert s[0] == text[0] && s[1..] == rest;
    assert rest != "" ==> s[1] == rest[0];
  }

  lemma QuoteIsCut(afterLabel: bool, s: string, t: Token, rest: string)
    requires s != "" && s[0] in "\"'"
    ensures NextToken(afterLabel, s) == Ok((t, rest)) <==> Written(afterLabel, s, t, rest)
  {
    WrittenStarts(afterLabel, s, t, rest);
    assert NextToken(afterLabel, s) == StringLiteral(s[1..], s[0]);
    LiteralIsCut(s, t, rest);
    hide NextToken, StringLiteral, Quotes;
    assert t.kind == TokStringLiteral ==>
      (Written(afterLabel, s, t, rest) <==> exists text :: s == text + rest && Quotes(text, t.value));
  }

  lemma LiteralIsCut(s: string, t: Token, rest: string)
    requires s != "" && s[0] in "\"'"
    ensures StringLiteral(s[1..], s[0]) == Ok((t, rest)) <==>
      t.kind == TokStringLiteral && exists text :: s == text + rest && Quotes(text, t.value)
  {
    var quote := s[0];
    var text := [quote] + t.value + [quote];
    if StringLiteral(s[1..], quote) == Ok((t, rest)) {
      assert s == [quote] + s[1..];
      assert s == text + rest && Quotes(text, t.value);
    }
    if other :| t.kind == TokStringLiteral && s == other + rest && Quotes(other, t.value) {
      assert other == text;
      QuotedIsCut(quote, t.value, rest);
    }
  }

  lemma QuotedIsCut(quote: char, value: string, rest: string)
    requires quote in "\"'" && quote !in value
    ensures var s := [quote] + value + [quote] + rest;
            StringLiteral(s[1..], s[0]) == Ok((Token(TokStringLiteral, value), rest))
  {
    var s := [quote] + value + [quote] + rest;
    assert s[1..] == value + [quote] + rest;
    RoundTrip.CutsAtFirst(value, quote, rest);
  }

  lemma OperatorIsCut(s: string, t: Token, rest: string)
    requires s != "" && s[0] !in "(){},=!&|\"'"
    ensures OperatorToken(s) == Ok((t, rest)) <==> Written(true, s, t, rest)
  {
    OperatorCases(s, t, rest);
    OperatorWritten(s, t, rest);
    WordIsCut(s, "contains", rest);
    TwoWordsAreCut(s, "starts", "with", rest);
    TwoWordsAreCut(s, "ends", "with", rest);
    TwoWordsAreCut(s, "not", "in", rest);
    WordIsCut(s, "in", rest);
    hide CutWords, CutWord, Ends, TwoWords, OperatorToken, Written;
  }

  ghost predicate WrittenWords(s: string, first: string, second: string, rest: string) {
    exists text :: s == text + rest && TwoWords(text, first, second, rest)
  }

  lemma OperatorWritten(s: string, t: Token, rest: string)
    requires s != "" && s[0] !in "(){},=!&|\"'"
    ensures Written(true, s, t, rest) <==>
      || (t == Tok(TokContains) && s == "contains" + rest && Ends(rest))
      || (t == Tok(TokStartsWith) && WrittenWords(s, "starts", "with", rest))
      || (t == Tok(TokEndsWith) && WrittenWords(s, "ends", "with", rest))
      || (t == Tok(TokNotIn) && WrittenWords(s, "not", "in", rest))
      || (t == Tok(TokIn) && s == "in" + rest && Ends(rest))
  {
    WrittenStarts(true, s, t, rest);
    hide Ends, TwoWords, Name, Quotes, Call;
    if t.kind in {TokStartsWith, TokEndsWith, TokNotIn} {
      assert forall text :: Lexeme(true, t, text, rest) <==>
        t.value == "" && TwoWords(text, if t.kind == TokStartsWith then "starts" else if t.kind == TokEndsWith then
                                          "ends" else "not", if t.kind == TokNotIn then "in" else "with", rest);
    }
  }

  /** The chain's order does not matter: no two of its words start alike. */
  lemma OperatorCases(s: string, t: Token, rest: string)
    ensures OperatorToken(s) == Ok((t, rest)) <==>
      || (t == Tok(TokContains) && CutWord(s, "contains") == Some(rest))
      || (t == Tok(TokStartsWith) && CutWords(s, ["starts", "with"]) == Some(rest))
      || (t == Tok(TokEndsWith) && CutWords(s, ["ends", "with"]) == Some(rest))
      || (t == Tok(TokNotIn) && CutWords(s, ["not", "in"]) == Some(rest))
      || (t == Tok(TokIn) && CutWord(s, "in") == Some(rest))
  {
    CutsStart(s, "starts", "with");
    CutsStart(s, "ends", "with");
    CutsStart(s, "not", "in");
    assert CutWord(s, "contains").Some? ==> s[0] == 'c';
    assert CutWord(s, "in").Some? ==> s[0] == 'i';
    hide CutWords, CutWord;
  }

  lemma CutsStart(s: string, first: string, second: string)
    requires first != ""
    ensures CutWords(s, [first, second]).Some? ==> s != "" && s[0] == first[0]
  {
  }

  predicate StartsCall(s: string) {
    "has(" <= s || "all(" <= s || "global(" <= s
  }

  /** A call's name is followed by a parenthesis; a label that is also such a word is not. */
  lemma LabelIsNoCall(name: string, rest: string)
    requires Name(name) && Ends(rest)
    ensures StartsCall(name + rest) <==> name in {"has", "all", "global"} && "(" <= rest
  {
    NoParenthesis(name);
    CallWordIsName(name, "has", rest);
    CallWordIsName(name, "all", rest);
    CallWordIsName(name, "global", rest);
  }

  lemma NoParenthesis(name: string)
    requires Name(name)
    ensures '(' !in name
  {
    NameCharsAreIdentifierChars('(');
  }

  lemma CallWordIsName(name: string, word: string, rest: string)
    requires '(' !in name && (forall c :: c in word ==> c in NAME_CHARS) && Ends(rest)
    ensures word + "(" <= name + rest <==> name == word && "(" <= rest
  {
    var s := name + rest;
    if |name| < |word| {
      assert word[|name|] in word && (rest != "" ==> s[|name|] == rest[0]);
    } else if |name| > |word| {
      assert s[|word|] == name[|word|] && name[|word|] in name;
      assert (word + "(")[|word|] == '(';
    } else {
      assert s[..|word|] == name && s[|word|..] == rest;
    }
  }

  lemma WordIsRead(s: string, t: Token, rest: string)
    requires s != "" && s[0] !in "(){},=!&|\"'"
    ensures WordToken(s) == Ok((t, rest)) <==> Written(false, s, t, rest)
  {
    hide Written, WordToken;
    WordWritten(s, t, rest);
    WordCases(s, t, rest);
  }

  /** A call where the text starts with one, else a label. */
  ghost predicate ReadAs(s: string, t: Token, rest: string) {
    if "has(" <= s then t.kind == TokHas && Name(t.value) && Enclosed(s[4..], t.value, rest)
    else if "all(" <= s then t == Tok(TokAll) && Enclosed(s[4..], "", rest)
    else if "global(" <= s then t == Tok(TokGlobal) && Enclosed(s[7..], "", rest)
    else t.kind == TokLabel && Name(t.value) && s == t.value + rest && Ends(rest)
  }

  lemma WordCases(s: string, t: Token, rest: string)
    ensures WordToken(s) == Ok((t, rest)) <==> ReadAs(s, t, rest)
  {
    assert forall inner :: HasToken(inner).Ok? ==> HasToken(inner).value.0.kind == TokHas;
    hide HasToken, Name, Enclosed, Ends, TrimWhitespace, CutIdentifier;
    if "has(" <= s {
      HasIsCut(s[4..], t.value, rest);
    } else if "all(" <= s {
      EmptyCallIsCut(s[4..], TokAll, rest);
    } else if "global(" <= s {
      EmptyCallIsCut(s[7..], TokGlobal, rest);
    } else {
      NameIsCut(s, t.value, rest);
    }
  }

  lemma WordWritten(s: string, t: Token, rest: string)
    requires s != "" && s[0] !in "(){},=!&|\"'"
    ensures Written(false, s, t, rest) <==> ReadAs(s, t, rest)
  {
    WrittenStarts(false, s, t, rest);
    if t.kind == TokLabel {
      LabelWritten(s, t, rest);
    } else {
      hide Name, Enclosed, Call, Ends;
      CallWritten(s, t, rest);
    }
  }

  lemma LabelWritten(s: string, t: Token, rest: string)
    requires t.kind == TokLabel
    ensures Written(false, s, t, rest) <==> ReadAs(s, t, rest)
  {
    hide Name, Enclosed, Ends;
    if Name(t.value) && Ends(rest) {
      LabelIsNoCall(t.value, rest);
    }
    assert Written(false, s, t, rest) <==> s == t.value + rest && Lexeme(false, t, t.value, rest);
  }

  lemma CallWritten(s: string, t: Token, rest: string)
    requires s != "" && s[0] !in "(){},=!&|\"'" && t.kind != TokLabel
    requires Written(false, s, t, rest) ==> StartsAs(t.kind, s[0])
    ensures Written(false, s, t, rest) <==> ReadAs(s, t, rest)
  {
    CallEncloses(s, "has", t.value, rest);
    CallEncloses(s, "all", "", rest);
    CallEncloses(s, "global", "", rest);
    hide Name, Enclosed, Call, Ends, TwoWords;
  }

  /** The tokenizer cuts exactly the lexeme at the front. */
  lemma NextIsLexeme(afterLabel: bool, s: string, t: Token, rest: string)
    requires s != "" && !Blank(s[0])
    ensures NextToken(afterLabel, s) == Ok((t, rest)) <==> Written(afterLabel, s, t, rest)
  {
    hide Written, OperatorToken, WordToken;
    if s[0] in "(){},=!&|" {
      SymbolIsCut(afterLabel, s, t, rest);
    } else if s[0] in "\"'" {
      QuoteIsCut(afterLabel, s, t, rest);
    } else if afterLabel {
      OperatorIsCut(s, t, rest);
    } else {
      WordIsRead(s, t, rest);
    }
  }

  // ----- whole texts -----

  /** The tokenizer accepts exactly the texts that are lexemes in order, with their tokens. */
  lemma {:induction false} TokensAreLexemes(afterLabel: bool, s: string, tokens: Stream)
    ensures Tokens(afterLabel, s) == Ok(tokens) <==> Reads(afterLabel, s, tokens)
  {
    if Tokens(afterLabel, s) == Ok(tokens) {
      TokensRead(afterLabel, s, tokens);
    }
    if Reads(afterLabel, s, tokens) {
      ReadsTokens(afterLabel, s, tokens);
    }
  }

  lemma {:induction false} TokensRead(afterLabel: bool, s: string, tokens: Stream)
    requires Tokens(afterLabel, s) == Ok(tokens)
    ensures Reads(afterLabel, s, tokens)
    decreases tokens
  {
    var b := TrimLeaves(s);
    var trimmed := TrimWhitespace(s);
    hide NextToken, Lexeme, Blanks;
    if trimmed == "" {
      assert b + trimmed == b;
    } else {
      var (t, rest) := NextToken(afterLabel, trimmed).value;
      NextIsLexeme(afterLabel, trimmed, t, rest);
      var text :| trimmed == text + rest && Lexeme(afterLabel, t, text, rest);
      TokensAreNotNil(t.kind == TokLabel, rest);
      TokensRead(t.kind == TokLabel, rest, tokens.tail);
      hide Tokens, TrimWhitespace;
      assert b + (text + rest) == b + text + rest;
      ReadsMore(afterLabel, b, text, rest, tokens);
    }
  }

  lemma ReadsMore(afterLabel: bool, b: string, text: string, rest: string, tokens: Stream)
    requires tokens.Cons? && tokens.tail.Cons? && Blanks(b) && Lexeme(afterLabel, tokens.head, text, rest)
    requires Reads(tokens.head.kind == TokLabel, rest, tokens.tail)
    ensures Reads(afterLabel, b + text + rest, tokens)
  {
    hide Lexeme, Blanks;
  }

  lemma TokensAreNotNil(afterLabel: bool, s: string)
    ensures Tokens(afterLabel, s).Ok? ==> Tokens(afterLabel, s).value.Cons?
  {
    hide NextToken;
  }

  lemma {:induction false} ReadsTokens(afterLabel: bool, s: string, tokens: Stream)
    requires Reads(afterLabel, s, tokens)
    ensures Tokens(afterLabel, s) == Ok(tokens)
    decreases tokens
  {
    hide NextToken, Lexeme, Blanks, TrimWhitespace;
    if tokens.tail.Nil? {
      TrimSkips(s, "");
      assert s + "" == s;
    } else {
      var b, text, rest :| s == b + text + rest && Blanks(b) && Lexeme(afterLabel, tokens.head, text, rest)
                           && Reads(tokens.head.kind == TokLabel, rest, tokens.tail);
      LexemeStarts(afterLabel, tokens.head, text, rest);
      TrimSkips(b, text + rest);
      assert s == b + (text + rest);
      NextIsLexeme(afterLabel, text + rest, tokens.head, rest);
      ReadsTokens(tokens.head.kind == TokLabel, rest, tokens.tail);
    }
  }
}
