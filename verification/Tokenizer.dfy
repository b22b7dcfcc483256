// From characters to tokens.
module Tokenizer {
  import opened Wrappers

  datatype Kind =
    | TokLabel | TokStringLiteral | TokLBrace | TokRBrace | TokComma
    | TokEq | TokNe | TokIn | TokNot | TokNotIn | TokContains | TokStartsWith | TokEndsWith
    | TokAll | TokHas | TokLParen | TokRParen | TokAnd | TokOr | TokGlobal | TokEOF

  datatype Token = Token(kind: Kind, value: string)

  /** A slice of tokens: `tail` is the slice from its second token on. */
  datatype Stream = Nil | Cons(head: Token, tail: Stream)

  datatype LexError =
    | UnterminatedString | ExpectedEq | ExpectedAnd | ExpectedOr | ExpectedOperator
    | NoClosingParen | LabelTooLong | ExpectedIdentifier | InfiniteLoop

  const MAX_LABEL_LENGTH := 512

  function Tok(kind: Kind): Token {
    Token(kind, "")
  }

  // ----- characters -----

  predicate IdentifierChar(c: char) {
    'a' <= c <= 'z' || 'A' <= c <= 'Z' || '0' <= c <= '9' || c == '_' || c == '.' || c == '/' || c == '-'
  }

  predicate Blank(c: char) {
    c == ' ' || c == '\t'
  }

  function TrimWhitespace(s: string): (r: string)
    ensures |r| <= |s| && (r != "" ==> !Blank(r[0]))
  {
    if s != "" && Blank(s[0]) then TrimWhitespace(s[1..]) else s
  }

  method TrimLoop(input: string) returns (r: string)
    ensures r == TrimWhitespace(input)
  {
    var end := 0;
    while end < |input| && Blank(input[end])
      invariant end <= |input| && TrimWhitespace(input[end..]) == TrimWhitespace(input)
    {
      assert input[end..][1..] == input[end + 1..];
      end := end + 1;
    }
    r := input[end..];
  }

  function CutPrefix(s: string, prefix: string): (r: Option<string>)
    ensures r.Some? ==> prefix + r.value == s
    ensures r.None? <==> !(prefix <= s)
  {
    if prefix <= s then Some(s[|prefix|..]) else None
  }

  /** The text before and after the first c. */
  function CutAt(s: string, c: char): (r: Option<(string, string)>)
    ensures r.Some? ==> r.value.0 + [c] + r.value.1 == s && c !in r.value.0
    ensures r.None? ==> c !in s
  {
    if s == "" then None
    else if s[0] == c then Some(("", s[1..]))
    else
      match CutAt(s[1..], c)
      case None => None
      case Some((before, after)) => Some(([s[0]] + before, after))
  }

  // ----- words -----

  predicate WordBoundary(s: string) {
    s == "" || !IdentifierChar(s[0])
  }

  /** The words of an operator, with blanks allowed after each, then a word boundary. */
  function CutWords(s: string, words: seq<string>): (r: Option<string>)
    ensures r.Some? ==> |r.value| <= |s| && (words != [] && words[0] != "" ==> |r.value| < |s|)
    decreases |words|
  {
    if words == [] then (if WordBoundary(s) then Some(s) else None)
    else
      match CutPrefix(s, words[0])
      case None => None
      case Some(rest) => CutWords(TrimWhitespace(rest), words[1..])
  }

  function CutWord(s: string, word: string): (r: Option<string>)
    ensures r.Some? ==> word + r.value == s
  {
    match CutPrefix(s, word)
    case Some(rest) => if WordBoundary(rest) then Some(rest) else None
    case None => None
  }

  method CutWordsLoop(input: string, words: seq<string>) returns (r: Option<string>)
    ensures r == CutWords(input, words)
  {
    var remainder := input;
    for i := 0 to |words|
      invariant CutWords(remainder, words[i..]) == CutWords(input, words)
    {
      assert words[i..][0] == words[i] && words[i..][1..] == words[i + 1..];
      match CutPrefix(remainder, words[i]) {
        case None => return None;
        case Some(rest) => remainder := TrimLoop(rest);
      }
    }
    r := if WordBoundary(remainder) then Some(remainder) else None;
  }

  // ----- identifiers -----

  function IdentifierLength(s: string): (n: nat)
    ensures n <= |s|
  {
    if s != "" && IdentifierChar(s[0]) then 1 + IdentifierLength(s[1..]) else 0
  }

  function CutIdentifier(s: string): (r: Result<(string, string), LexError>)
    ensures r.Ok? ==> ValidLabel(r.value.0) && r.value.0 + r.value.1 == s
    ensures r.Err? ==> r.error != InfiniteLoop
  {
    var n := IdentifierLength(s);
    IdentifierIsPrefix(s);
    if n > MAX_LABEL_LENGTH then Err(LabelTooLong)
    else if n == 0 then Err(ExpectedIdentifier)
    else Ok((s[..n], s[n..]))
  }

  /** What the program accepts as a label: 1 to 512 identifier characters. */
  ghost predicate ValidLabel(name: string) {
    1 <= |name| <= MAX_LABEL_LENGTH && forall c :: c in name ==> IdentifierChar(c)
  }

  lemma {:induction false} IdentifierIsPrefix(s: string)
    ensures forall i :: 0 <= i < IdentifierLength(s) ==> IdentifierChar(s[i])
    ensures WordBoundary(s[IdentifierLength(s)..])
  {
    if s != "" && IdentifierChar(s[0]) {
      IdentifierIsPrefix(s[1..]);
      assert s[1..][IdentifierLength(s[1..])..] == s[IdentifierLength(s)..];
    }
  }

  method CutIdentifierLoop(input: string) returns (r: Result<(string, string), LexError>)
    ensures r == CutIdentifier(input)
  {
    var i := 0;
    while i < |input| && IdentifierChar(input[i])
      invariant i <= |input| && IdentifierLength(input) == i + IdentifierLength(input[i..])
    {
      assert input[i..][1..] == input[i + 1..];
      i := i + 1;
    }
    if i > MAX_LABEL_LENGTH {
      return Err(LabelTooLong);
    }
    if i == 0 {
      return Err(ExpectedIdentifier);
    }
    r := Ok((input[..i], input[i..]));
  }

  // ----- one token -----

  type Lexed = Result<(Token, string), LexError>

  /** A literal that some quote can delimit. */
  predicate Quotable(s: string) {
    !('"' in s && '\'' in s)
  }

  /** Labels are valid, literals lack one of the quotes, and no other token has a value. */
  ghost predicate WellLexedToken(t: Token) {
    match t.kind
    case TokLabel => ValidLabel(t.value)
    case TokHas => ValidLabel(t.value)
    case TokStringLiteral => Quotable(t.value)
    case _ => t.value == ""
  }

  /** A token was read: the rest is shorter, and the token is well lexed and no EOF. Or the
      input was refused, never for the lack of progress. */
  ghost predicate Advances(r: Lexed, s: string) {
    match r
    case Ok((token, rest)) => |rest| < |s| && token.kind != TokEOF && WellLexedToken(token)
    case Err(e) => e != InfiniteLoop
  }

  function AfterPrefix(s: string, prefix: string, kind: Kind, error: LexError): Lexed {
    match CutPrefix(s, prefix)
    case Some(rest) => Ok((Tok(kind), rest))
    case None => Err(error)
  }

  function StringLiteral(s: string, quote: char): (r: Lexed)
    requires quote == '"' || quote == '\''
    ensures Advances(r, s)
  {
    match CutAt(s, quote)
    case Some((value, rest)) => Ok((Token(TokStringLiteral, value), rest))
    case None => Err(UnterminatedString)
  }

  /** An operator, where the token before was a label. */
  function OperatorToken(s: string): (r: Lexed)
    ensures Advances(r, s)
  {
    match CutWord(s, "contains") case Some(rest) => Ok((Tok(TokContains), rest)) case None =>
    match CutWords(s, ["starts", "with"]) case Some(rest) => Ok((Tok(TokStartsWith), rest)) case None =>
    match CutWords(s, ["ends", "with"]) case Some(rest) => Ok((Tok(TokEndsWith), rest)) case None =>
    match CutWords(s, ["not", "in"]) case Some(rest) => Ok((Tok(TokNotIn), rest)) case None =>
    match CutWord(s, "in") case Some(rest) => Ok((Tok(TokIn), rest)) case None =>
      Err(ExpectedOperator)
  }

  function HasToken(s: string): (r: Lexed)
    ensures Advances(r, s)
  {
    var (name, rest) :- CutIdentifier(TrimWhitespace(s));
    match CutPrefix(TrimWhitespace(rest), ")")
    case Some(after) => Ok((Token(TokHas, name), after))
    case None => Err(NoClosingParen)
  }

  function LabelToken(s: string): (r: Lexed)
    ensures Advances(r, s)
  {
    var (name, rest) :- CutIdentifier(s);
    Ok((Token(TokLabel, name), rest))
  }

  /** A word, where the token before was no label. */
  function WordToken(s: string): (r: Lexed)
    ensures Advances(r, s)
  {
    match CutPrefix(s, "has(") case Some(rest) => HasToken(rest) case None =>
    match CutPrefix(s, "all(") case Some(rest) =>
      AfterPrefix(TrimWhitespace(rest), ")", TokAll, NoClosingParen) case None =>
    match CutPrefix(s, "global(") case Some(rest) =>
      AfterPrefix(TrimWhitespace(rest), ")", TokGlobal, NoClosingParen) case None =>
      LabelToken(s)
  }

  /** The token at the front of a non-empty input without leading blanks. */
  function NextToken(afterLabel: bool, s: string): (r: Lexed)
    requires s != ""
    ensures Advances(r, s)
  {
    match s[0]
    case '(' => Ok((Tok(TokLParen), s[1..]))
    case ')' => Ok((Tok(TokRParen), s[1..]))
    case '"' => StringLiteral(s[1..], '"')
    case '\'' => StringLiteral(s[1..], '\'')
    case '{' => Ok((Tok(TokLBrace), s[1..]))
    case '}' => Ok((Tok(TokRBrace), s[1..]))
    case ',' => Ok((Tok(TokComma), s[1..]))
    case '=' => AfterPrefix(s, "==", TokEq, ExpectedEq)
    case '!' => if "!=" <= s then Ok((Tok(TokNe), s[2..])) else Ok((Tok(TokNot), s[1..]))
    case '&' => AfterPrefix(s, "&&", TokAnd, ExpectedAnd)
    case '|' => AfterPrefix(s, "||", TokOr, ExpectedOr)
    case _ => if afterLabel then OperatorToken(s) else WordToken(s)
  }

  // ----- the whole input -----

  type TokenList = Result<Stream, LexError>

  function Prepend(token: Token, rest: TokenList): TokenList {
    match rest
    case Ok(more) => Ok(Cons(token, more))
    case Err(e) => Err(e)
  }

  /** The tokens of the input, given whether the token before it was a label. The length
      guard is the program's own: its failure branch reports an infinite loop. */
  function Tokens(afterLabel: bool, input: string): TokenList
    decreases |input|
  {
    var s := TrimWhitespace(input);
    if s == "" then Ok(Cons(Tok(TokEOF), Nil))
    else
      match NextToken(afterLabel, s)
      case Err(e) => Err(e)
      case Ok((token, rest)) =>
        if |rest| >= |input| then Err(InfiniteLoop)
        else Prepend(token, Tokens(token.kind == TokLabel, rest))
  }

  /** The slice that holds the buffer's tokens and then the stream's. */
  function Onto(tokens: seq<Token>, rest: Stream): Stream {
    if tokens == [] then rest else Onto(tokens[..|tokens| - 1], Cons(tokens[|tokens| - 1], rest))
  }

  function OntoResult(tokens: seq<Token>, rest: TokenList): TokenList {
    match rest
    case Ok(more) => Ok(Onto(tokens, more))
    case Err(e) => Err(e)
  }

  predicate EndsInLabel(tokens: seq<Token>) {
    tokens != [] && tokens[|tokens| - 1].kind == TokLabel
  }

  /** Appends the input's tokens to the given ones. */
  method AppendTokens(tokens: seq<Token>, input: string) returns (r: TokenList)
    ensures r == OntoResult(tokens, Tokens(EndsInLabel(tokens), input))
  {
    var toks, rest := tokens, input;
    while true
      invariant OntoResult(toks, Tokens(EndsInLabel(toks), rest))
             == OntoResult(tokens, Tokens(EndsInLabel(tokens), input))
      decreases |rest|
    {
      var startLen := |rest|;
      var s := TrimLoop(rest);
      if |s| == 0 {
        return Ok(Onto(toks, Cons(Tok(TokEOF), Nil)));
      }
      var next := CutToken(EndsInLabel(toks), s);
      match next {
        case Err(e) => return Err(e);
        case Ok((token, after)) =>
          if |after| >= startLen {
            return Err(InfiniteLoop);
          }
          assert (toks + [token])[..|toks|] == toks;
          toks, rest := toks + [token], after;
      }
    }
  }

  /** The tokenizer's switch on the first character. */
  method CutToken(afterLabel: bool, s: string) returns (r: Lexed)
    requires s != ""
    ensures r == NextToken(afterLabel, s)
  {
    hide OperatorToken, WordToken, StringLiteral;
    match s[0] {
      case '(' => r := Ok((Tok(TokLParen), s[1..]));
      case ')' => r := Ok((Tok(TokRParen), s[1..]));
      case '"' => r := CutLiteral(s[1..], '"');
      case '\'' => r := CutLiteral(s[1..], '\'');
      case '{' => r := Ok((Tok(TokLBrace), s[1..]));
      case '}' => r := Ok((Tok(TokRBrace), s[1..]));
      case ',' => r := Ok((Tok(TokComma), s[1..]));
      case '=' => r := CutSymbol(s, "==", TokEq, ExpectedEq);
      case '!' =>
        var rest := CutPrefix(s, "!=");
        r := if rest.Some? then Ok((Tok(TokNe), rest.value)) else Ok((Tok(TokNot), s[1..]));
      case '&' => r := CutSymbol(s, "&&", TokAnd, ExpectedAnd);
      case '|' => r := CutSymbol(s, "||", TokOr, ExpectedOr);
      case _ =>
        if afterLabel {
          r := CutOperator(s);
        } else {
          r := CutWordToken(s);
        }
    }
  }

  method CutSymbol(s: string, symbol: string, kind: Kind, error: LexError) returns (r: Lexed)
    ensures r == AfterPrefix(s, symbol, kind, error)
  {
    var rest := CutPrefix(s, symbol);
    if rest.None? {
      return Err(error);
    }
    r := Ok((Tok(kind), rest.value));
  }

  /** A literal up to the next quote. */
  method CutLiteral(s: string, quote: char) returns (r: Lexed)
    requires quote == '"' || quote == '\''
    ensures r == StringLiteral(s, quote)
  {
    var index := 0;
    while index < |s| && s[index] != quote
      invariant index <= |s| && quote !in s[..index]
    {
      index := index + 1;
    }
    if index == |s| {
      assert s[..index] == s;
      return Err(UnterminatedString);
    }
    CutsAt(s, quote, index);
    r := Ok((Token(TokStringLiteral, s[..index]), s[index + 1..]));
  }

  lemma {:induction false} CutsAt(s: string, c: char, index: nat)
    requires index < |s| && s[index] == c && c !in s[..index]
    ensures CutAt(s, c) == Some((s[..index], s[index + 1..]))
  {
    if index > 0 {
      assert s[0] == s[..index][0] && s[0] in s[..index];
      assert s[1..][..index - 1] == s[..index][1..];
      CutsAt(s[1..], c, index - 1);
      assert [s[0]] + s[..index][1..] == s[..index] && s[1..][index..] == s[index + 1..];
    }
  }

  method CutOperator(s: string) returns (r: Lexed)
    ensures r == OperatorToken(s)
  {
    var rest := CutWord(s, "contains");
    if rest.Some? {
      return Ok((Tok(TokContains), rest.value));
    }
    rest := CutWordsLoop(s, ["starts", "with"]);
    if rest.Some? {
      return Ok((Tok(TokStartsWith), rest.value));
    }
    rest := CutWordsLoop(s, ["ends", "with"]);
    if rest.Some? {
      return Ok((Tok(TokEndsWith), rest.value));
    }
    rest := CutWordsLoop(s, ["not", "in"]);
    if rest.Some? {
      return Ok((Tok(TokNotIn), rest.value));
    }
    rest := CutWord(s, "in");
    r := if rest.Some? then Ok((Tok(TokIn), rest.value)) else Err(ExpectedOperator);
  }

  method CutWordToken(s: string) returns (r: Lexed)
    ensures r == WordToken(s)
  {
    var rest := CutPrefix(s, "has(");
    if rest.Some? {
      var inner := TrimLoop(rest.value);
      var ident := CutIdentifierLoop(inner);
      if ident.Err? {
        return Err(ident.error);
      }
      var after := TrimLoop(ident.value.1);
      var closed := CutPrefix(after, ")");
      return if closed.Some? then Ok((Token(TokHas, ident.value.0), closed.value)) else Err(NoClosingParen);
    }
    rest := CutPrefix(s, "all(");
    if rest.Some? {
      var inner := TrimLoop(rest.value);
      return AfterPrefix(inner, ")", TokAll, NoClosingParen);
    }
    rest := CutPrefix(s, "global(");
    if rest.Some? {
      var inner := TrimLoop(rest.value);
      return AfterPrefix(inner, ")", TokGlobal, NoClosingParen);
    }
    var ident := CutIdentifierLoop(s);
    r := if ident.Ok? then Ok((Token(TokLabel, ident.value.0), ident.value.1)) else Err(ident.error);
  }

  // ----- what every token stream keeps -----

  /** One EOF, at the end. */
  ghost predicate EofTerminated(tokens: Stream) {
    tokens.Cons? && if tokens.head.kind == TokEOF then tokens.tail.Nil? else EofTerminated(tokens.tail)
  }

  ghost predicate WellLexed(tokens: Stream) {
    tokens.Cons? ==> WellLexedToken(tokens.head) && WellLexed(tokens.tail)
  }

  /** Every iteration consumes input, so the infinite-loop exit is never taken; and a
      successful stream is EOF-terminated with valid labels and quotable literals. */
  lemma {:induction false} TokensAreWellFormed(afterLabel: bool, input: string)
    ensures var r := Tokens(afterLabel, input);
            if r.Ok? then EofTerminated(r.value) && WellLexed(r.value) else r.error != InfiniteLoop
    decreases |input|
  {
    hide NextToken;
    var s := TrimWhitespace(input);
    if s != "" {
      var next := NextToken(afterLabel, s);
      if next.Ok? {
        var (token, rest) := next.value;
        TokensAreWellFormed(token.kind == TokLabel, rest);
      }
    }
  }
}
