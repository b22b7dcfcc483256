// The selector language as a whole: which text stands for which tree, and what that tree says.
module SelectorLanguage {
  import opened Wrappers
  import opened Lexemes
  import opened Parser
  import opened SelectorAst
  import opened SelectorMeaning
  import Grammar
  import Tokenizer

  /** A text parses to a tree exactly when it is written in lexemes whose tokens derive the tree. */
  lemma ParseIsTheLanguage(selector: string, n: Node)
    ensures Parse(selector) == Ok(n) <==> exists tokens :: Reads(false, selector, tokens) && Spells(tokens, n)
  {
    hide Tokenizer.Tokens, Reads, Spells, Parse;
    ParseIsTheGrammar(selector, n);
    forall tokens
      ensures Tokenizer.Tokens(false, selector) == Ok(tokens) <==> Reads(false, selector, tokens)
    {
      TokensAreLexemes(false, selector, tokens);
    }
  }

  lemma {:induction false} WellFormedHasSortedSets(n: Node)
    requires Grammar.WellFormed(n)
    ensures SortedSets(n)
  {
    match n {
      case Not(operand) => WellFormedHasSortedSets(operand);
      case And(operands) =>
        forall i | 0 <= i < |operands|
          ensures SortedSets(operands[i])
        {
          WellFormedHasSortedSets(operands[i]);
        }
      case Or(operands) =>
        forall i | 0 <= i < |operands|
          ensures SortedSets(operands[i])
        {
          WellFormedHasSortedSets(operands[i]);
        }
      case _ =>
    }
  }

  /** A selector that parses matches exactly the label maps that its tree means. */
  lemma ParsedSelectorMeans(selector: string, labels: Labels)
    ensures Parse(selector).Ok? ==>
      (Evaluate(Parse(selector).value, labels) <==> Means(Parse(selector).value, labels))
  {
    if Parse(selector).Ok? {
      ParsedIsWellFormed(selector);
      WellFormedHasSortedSets(Parse(selector).value);
      EvaluationIsTheMeaning(Parse(selector).value, labels);
    }
  }
}
