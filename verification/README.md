# A verified model of the policy engine

The program reads Kubernetes, Istio and Calico policies and answers who can reach whom. This project
models its decision-making parts in Dafny and proves what they promise. `dafny verify dfyconfig.toml`
checks everything.

## What is modelled

**The Calico selector language.** A tokenizer turns text into tokens, a recursive-descent parser turns
tokens into a tree, a printer turns the tree back into text, an evaluator matches it against labels, and
a static analysis says what a matching label map must look like. `Tokenizer`, `Parser` and
`LabelRestrictions` hold each of these both as functions and as the program's loops, proved equal;
`ParserObject` is the parser object with its token buffer and its validate-only mode. `Lexemes` and
`Grammar` define the language without regard to the code, and `SelectorLanguage` proves that exactly its
texts parse, to its trees. `SelectorMeaning` says what a tree means, and the evaluator decides that.
`RoundTrip` goes through the characters: the printed form of every well-formed tree tokenises and parses
to that tree with each chain of directly nested Nots reduced modulo 2. `Normalise` draws the consequence
for the canonical text. `StringSet` has the in-place set helpers, on arrays that share storage.

**The Calico engine.** Policies are ordered by tier, order and name; every namespace gets an index from
(CIDR, port) buckets to candidates; a workload takes the first candidate that selects it, edges that only
restate the direction-wide one are dropped, and a baseline is added. `CalicoIndex` proves that the index
gives what a plain walk over the policies gives. A Pass ends the contribution of its own policy only, so
the next policy is tried; this follows the code (internal/policy/calico/buildIndex.go:109-111).
`CalicoBuild`, `CalicoRules` and `CalicoEvaluate` are the loops, the compression and the rules, and
`CalicoFields` states the outcome on the fields of policies and rules; `Cidr` does the prefix arithmetic
(section 3.1 of RFC 4632).

**Reachability.** `Reachability` sorts the rules of two buckets into classes and decides a direction.
`VerdictLaws` gives the verdict in closed form, and from it order-independence and monotonicity;
`VerdictFields` and `ProberFields` restate verdict and answer on the fields of rules and request.
`Prober` combines the engines, caches answers under a joined key, and models the layering check that
relies on the cache. `CalicoReach` connects the two: what the Calico baseline means for the verdict.
`CalicoRun` states what holds of a whole evaluation, up to the engine's verdict, and `CalicoPackets` which
bucket speaks for one address and port.

**The graph, the mesh and the badges.** `Collapse`, `CollapseLaws` and `CollapseFields` fold a namespace's
identical rules into one arrow, `RenderEdges` folds rules into arrows, `Graph` assembles nodes and rules
of all engines, `LabelIndex` is the inverted label index, `PeerAuthentication` and `PeerAuthFields` resolve
mutual TLS, `StatusKeys` intersects the engines' statuses.

## How to read it

- A method holds the program's loop and is proved equal to a function; the laws are lemmas about that
  function. A lemma named `…OnFields` restates a result on the fields of its inputs, without the functions
  that compute it.
- Strings are sequences of Unicode scalar values, compared in code-point order. For valid UTF-8 this
  agrees with the program's bytes.
- A token slice is a list: its tail is the slice from the second token on.
- A Go map that is iterated is a set of keys taken in an arbitrary order, so what is proved holds for
  every order.
- The library's sort is modelled by its result, a stable sort. Where the program uses the unstable sort,
  equal elements are identical.
- The library's CIDR parser is a parameter, any function from text to an IPv4 block or nothing.
- Policy orders are reals; an unset order has already been replaced by the largest one. Optional
  references inside a policy reference are values.
- The fingerprints that the program formats as text (`uniformRuleKey`, `edgeGroupKey`) are tuples. The
  keys that matter as text are strings: the memo key, the label index key and the policy identity key.

## Where the code is not what one expects

- `Normalise` is not idempotent: `!(!x)` becomes `!!x` and then `x`. `NormaliseStabilises` says exactly
  when one application suffices.
- The memo key can be shared by different pairs. `KeysCollideAtArrows` says exactly when, and
  `KeyIsInjective` that it takes an arrow inside an id.
- The index and the direct label match disagree on an empty selector and on empty values:
  `AgreementNeedsNonEmpty`.
- The collapse pass by itself can miscount an arrow that two namespaces share: `CountsAreMembers` gives the
  exact condition, `CountsCanBeWrong` an input. That input needs a namespace-wide rule with its workload on
  the far side, which no engine emits: only the Calico engine sets that scope
  (internal/policy/calico/buildRules.go:102), and `GraphCountsAreRight` proves every graph's counts right.
- An allow that does not match the peer can block a direction that nothing else spoke about:
  `AllowNeverBlocksExactly` says exactly when, `UnmatchedAllowLocks` is an input.
- An empty peer id, which stands for an unknown namespace node, matches the empty endpoint of blanket
  rules and markers: `UngovernedFollowsEdges` and `DenyAllHoldsExactly`.
- A policy's rules in a direction that it does not govern still decide: `UngovernedFollowsEdges`.
- A rule for a block and all ports beside one for a port and all blocks leaves packets of both without a
  bucket: `SomeBucketAnswersExactly` and `CrossedRulesLeaveGap`.
- LAN, own-namespace and API-server badges obey the law of the internet badges only under a condition:
  `GatedIsConjunctionExactly` states it, `LanIsNotConjunction` is an input on which it fails.

## Model

| member | source | states |
|---|---|---|
| Tokenizer.TokensAreWellFormed | internal/thirdparty/calicoselector/tokenizer/tokenizer.go:74-207 | For every input: the "infinite loop" exit is never taken, and a successful stream ends in its only EOF, with labels of 1 to 512 identifier characters and literals that some quote can delimit |
| Tokenizer.NextToken | internal/thirdparty/calicoselector/tokenizer/tokenizer.go:89-206 | Reading one token consumes at least one character, yields a well-lexed token that is no EOF, and no refusal is for lack of progress |
| Tokenizer.AppendTokens | internal/thirdparty/calicoselector/tokenizer/tokenizer.go:74-207 | The loop appends the tokens of the input, read in the context of the last token already in the buffer |
| Tokenizer.CutToken | internal/thirdparty/calicoselector/tokenizer/tokenizer.go:90-202 | The switch on the first character yields the next token |
| Tokenizer.CutLiteral | internal/thirdparty/calicoselector/tokenizer/tokenizer.go:97-114 | The search for the closing quote yields the literal before it and the rest behind it |
| Tokenizer.CutOperator | internal/thirdparty/calicoselector/tokenizer/tokenizer.go:153-168 | The operator chain behind a label yields the operator token |
| Tokenizer.CutWordToken | internal/thirdparty/calicoselector/tokenizer/tokenizer.go:169-201 | The chain of calls and labels yields the word token |
| Tokenizer.CutWordsLoop | internal/thirdparty/calicoselector/tokenizer/tokenizer.go:238-253 | The loop cuts the words in turn, blanks after each, and asks for a word boundary only at the end |
| Tokenizer.CutIdentifierLoop | internal/thirdparty/calicoselector/tokenizer/tokenizer.go:271-288 | The scan yields the longest identifier prefix and the rest, or the too-long or missing-identifier error |
| Tokenizer.TrimLoop | internal/thirdparty/calicoselector/tokenizer/tokenizer.go:209-218 | The loop removes exactly the leading blanks and tabs |
| Lexemes.NextIsLexeme | internal/thirdparty/calicoselector/tokenizer/tokenizer.go:89-206 | Both directions: the tokenizer cuts a token off the front exactly where a text that is written as that token stands there, by a definition of how each token is written that does not follow the code |
| Lexemes.TokensAreLexemes | internal/thirdparty/calicoselector/tokenizer/tokenizer.go:74-207 | Both directions: a text tokenises to a stream exactly when it is the stream's lexemes in order with blanks between them |
| Grammar.OrIsWellFormed | internal/thirdparty/calicoselector/parser/parser.go:223-378 | Whatever derives from well-lexed tokens is a well-formed tree: at least two operands, valid labels, quotable strings, strictly sorted sets |
| Parser.ParseOr | internal/thirdparty/calicoselector/parser/parser.go:127-166 | A successful parse leaves a strictly shorter suffix that still ends in its EOF, so the recursion terminates and no index is out of range |
| Parser.ParseOperation | internal/thirdparty/calicoselector/parser/parser.go:223-378 | The same for one operation, for any number of "!" in front and through the mutual recursion at parentheses |
| Parser.ParserIsTheGrammar | internal/thirdparty/calicoselector/parser/parser.go:127-378 | Both directions: the parser returns a tree and a rest exactly when the tokens derive that tree and leave that rest in the grammar with its precedences |
| Parser.ParseIsTheGrammar | internal/thirdparty/calicoselector/parser/parser.go:80-124 | Both directions, for every text: it parses to a tree exactly when it tokenises and the grammar derives the tree from all of its tokens, or there are none and the tree is all() |
| Parser.OuterErrorsExactly | internal/thirdparty/calicoselector/parser/parser.go:80-124 | A text is refused by the tokenizer exactly when it does not tokenise, and for trailing content exactly when a prefix of its tokens derives a tree and more than the end follows |
| SelectorLanguage.ParseIsTheLanguage | internal/thirdparty/calicoselector/parser/parser.go:80-124 | Both directions, from characters to trees: a text parses to a tree exactly when it is written in lexemes whose tokens derive that tree |
| Parser.AcceptsOr | internal/thirdparty/calicoselector/parser/parser.go:127-166 | Every derivation that ends before neither "or" nor "and" is accepted, with the derivation's tree |
| Parser.DerivesOr | internal/thirdparty/calicoselector/parser/parser.go:127-166 | Every accepted prefix is a derivation, with the parser's tree |
| Parser.ParsedIsWellFormed | internal/thirdparty/calicoselector/parser/parser.go:80-124 | Every tree a successful parse returns is well formed |
| ParserObject.SelectorParser.ParseSelector | internal/thirdparty/calicoselector/parser/parser.go:65-70 | The object's parse is the parser's, whatever an earlier parse left in the buffer |
| ParserObject.SelectorParser.Validate | internal/thirdparty/calicoselector/parser/parser.go:72-78 | Validation accepts exactly the selectors that parse, and refuses the others with the same error |
| ParserObject.SelectorParser.ParseRoot | internal/thirdparty/calicoselector/parser/parser.go:80-124 | The root: the empty selector is all(), trailing content is an error, and validate-only mode changes nothing but the missing node |
| ParserObject.SelectorParser.ParseOrExpression | internal/thirdparty/calicoselector/parser/parser.go:127-166 | The loop over "or" terms computes the parse, with and without building nodes |
| ParserObject.SelectorParser.ParseAndExpression | internal/thirdparty/calicoselector/parser/parser.go:169-211 | The loop over "and" operands computes the parse, with and without building nodes |
| ParserObject.SelectorParser.ParseOneOperation | internal/thirdparty/calicoselector/parser/parser.go:223-378 | One operation with its leading "!" signs computes the parse |
| ParserObject.SelectorParser.ParsePrimaryOperation | internal/thirdparty/calicoselector/parser/parser.go:244-371 | Calls, labels and parentheses compute the parse of what follows the "!" signs |
| ParserObject.SelectorParser.ParseLabelOperation | internal/thirdparty/calicoselector/parser/parser.go:260-354 | A label with its operator and literal, or the error of the operator |
| ParserObject.SelectorParser.ParseSet | internal/thirdparty/calicoselector/parser/parser.go:312-350 | A set literal with an optional last comma; its values are sorted and compacted in place |
| RoundTrip.LexNode | internal/thirdparty/calicoselector/parser/ast.go:402-424 | Tokenising the printed form of a well-formed tree in front of any text yields the tokens of the tree's derivation in front of that text's tokens |
| RoundTrip.LexOperands | internal/thirdparty/calicoselector/parser/ast.go:568-577 | The printed operands between parentheses tokenise to the tokens of their derivation, with the separator of And or Or |
| RoundTrip.LexQuoted | internal/thirdparty/calicoselector/parser/ast.go:673-681 | A printed string tokenises to its literal, whichever quote it needs |
| RoundTrip.LexLabel | internal/thirdparty/calicoselector/tokenizer/tokenizer.go:169-201 | A label in front of an operator is read as that label: no call keyword can hide in it |
| RoundTrip.OpOfReduces | internal/thirdparty/calicoselector/parser/ast.go:510-513 | The derivation that a printed tree stands for builds the tree with its chains of Nots reduced modulo 2 |
| RoundTrip.PrintThenParse | internal/thirdparty/calicoselector/parser/ast.go:216-221 | The round trip: printing and parsing a well-formed tree succeeds and gives the tree with each chain of nested Nots reduced modulo 2, which evaluates the same on every label map |
| SelectorMeaning.EvaluationIsTheMeaning | internal/thirdparty/calicoselector/parser/ast.go:235-694 | On every label map the evaluator decides the meaning of the tree, which is read off the label pairs: every comparison and set by which values make an equality hold, the rest by truth tables |
| SelectorMeaning.ComparisonMeans | internal/thirdparty/calicoselector/parser/ast.go:265-437 | Inequality is the complement of equality, also where the label is missing; the other comparisons hold where some text around the value completes it to the label's |
| SelectorMeaning.SetMeans | internal/thirdparty/calicoselector/parser/ast.go:352-392 | For sorted sets, membership is equality with some element and its negation is the complement |
| SelectorLanguage.ParsedSelectorMeans | internal/thirdparty/calicoselector/parser/ast.go:152-158 | A selector that parses matches exactly the label maps that its tree means |
| SelectorAst.ReduceKeepsMeaning | internal/thirdparty/calicoselector/parser/ast.go:485-487 | Reducing chains of Nots keeps the meaning on every label map |
| SelectorAst.ReduceIsCanonical | internal/thirdparty/calicoselector/parser/parser.go:232-242 | A reduced tree holds no Not directly under a Not |
| SelectorAst.ReduceFixes | internal/thirdparty/calicoselector/parser/parser.go:232-242 | Reducing changes a tree exactly when it holds a Not directly under a Not |
| Normalise.NormaliseKeepsMeaning | internal/thirdparty/calicoselector/selector.go:57-67 | A selector that parses normalises to one that parses and evaluates the same; any other text is only trimmed |
| Normalise.NormaliseStabilises | internal/thirdparty/calicoselector/selector.go:57-67 | The second application changes the text exactly when the parsed tree holds a Not directly under a Not; a third never does |
| Normalise.SecondApplicationMatters | internal/thirdparty/calicoselector/selector.go:57-67 | For every such x, the text !(!x) normalises to !!x and that to x |
| Normalise.ReduceShortens | internal/thirdparty/calicoselector/parser/ast.go:510-513 | Reducing never lengthens the printed form and shortens it exactly when it removes a double negation |
| Normalise.TrimSpaceCuts | internal/thirdparty/calicoselector/selector.go:57-67 | The trimmed text is the input without white space at either end |
| StringSet.ContainsIsMembership | internal/thirdparty/calicoselector/parser/stringset.go:26-32 | Binary search decides membership in a sorted slice |
| StringSet.BinarySearch | internal/thirdparty/calicoselector/parser/stringset.go:26-32 | The search loop computes the insertion point and compares there |
| StringOrder.LessIsLexicographic | internal/thirdparty/calicoselector/parser/stringset.go:26-32 | The order of strings: they agree up to a place where the first ends or has the smaller character |
| StringSet.SetOfIsTheSet | internal/thirdparty/calicoselector/parser/stringset.go:56-72 | Sorting and compacting gives a strictly sorted sequence with the same elements |
| StringSet.ConvertToStringSetInPlace | internal/thirdparty/calicoselector/parser/stringset.go:56-72 | The slice is sorted and compacted within its own storage; the stale tail and what lies beyond the slice are as stated |
| StringSet.IntersectInPlace | internal/thirdparty/calicoselector/parser/ast.go:550-559 | Overwriting the first argument from its front leaves exactly the elements that the second holds, in order |
| StringSet.IntersectionIsTheIntersection | internal/thirdparty/calicoselector/parser/ast.go:550-559 | What that helper returns is the intersection |
| StringSet.UnionInPlace | internal/thirdparty/calicoselector/parser/ast.go:624-634 | Sorting the first argument in place and appending to it, into spare capacity or a new array, gives the stated sequence while the searched set shares its storage |
| StringSet.UnionIsTheUnion | internal/thirdparty/calicoselector/parser/ast.go:624-634 | What that helper returns, stale tail included, is the union |
| StringSet.Append | internal/thirdparty/calicoselector/parser/ast.go:630-630 | Appending changes nothing before the old length, in place or in a new array |
| LabelRestrictions.LabelRestrictionsOf | internal/thirdparty/calicoselector/parser/ast.go:489-503 | The recursive analysis with its loops computes the analysis function |
| LabelRestrictions.AndLoop | internal/thirdparty/calicoselector/parser/ast.go:528-548 | The loop over the operands of an And merges their maps key by key, in any order of keys, intersecting value lists in place |
| LabelRestrictions.OrLoop | internal/thirdparty/calicoselector/parser/ast.go:592-622 | The loop over the operands of an Or weakens or deletes every entry, uniting value lists in place |
| LabelRestrictions.AnalysisIsExact | internal/thirdparty/calicoselector/parser/ast.go:528-548 | The reported map says, for every label and value, exactly what the structure of the selector demands: present, absent, one of these values |
| LabelRestrictions.AnalysisIsSound | internal/thirdparty/calicoselector/parser/ast.go:592-622 | For every selector and label map: if the selector matches, every reported restriction holds of the map |
| LabelRestrictions.ImpossibleMatchesNothing | internal/thirdparty/calicoselector/parser/ast.go:100-108 | A restriction that cannot be satisfied means that the selector matches nothing |
| Cidr.ContainsIsInclusion | internal/policy/networkPolicyHelpers.go:59-77 | For IPv4 blocks, containment as decided on prefix length and network address is inclusion of the address sets, both directions |
| Cidr.BlockIsSlot | internal/policy/networkPolicyHelpers.go:59-77 | The addresses of a block are those of the slot of 2^(32 - bits) addresses that its own address lies in |
| Cidr.ContainsIsPreorder | internal/policy/networkPolicyHelpers.go:59-77 | Containment is reflexive and transitive |
| Cidr.CidrContainsIsTransitive | internal/policy/networkPolicyHelpers.go:59-77 | Containment of CIDR texts is transitive for any parser |
| CalicoIndex.SortByPrecedence | internal/policy/calico/utils.go:25-35 | The policies are sorted in place: of any two, the first has no higher tier, in one tier no higher order, and in one order no later name; the array is a permutation, and is the stable sort of the old one |
| Sorting.StableSortIsStable | internal/policy/calico/utils.go:26-26 | Elements that tie keep their order |
| CalicoIndex.PrecedenceIsFetchOrderFree | internal/policy/calico/utils.go:25-35 | With distinct names the precedence order does not depend on the fetch order |
| CalicoIndex.CoveragePassesDown | internal/policy/calico/buildIndex.go:144-159 | An exclusion passes down to every contained block, and so does the coverage of a rule without exclusions |
| CalicoIndex.RuleCoversOnFields | internal/policy/calico/buildIndex.go:135-177 | A rule covers a bucket exactly where the bucket's block lies, as a set of addresses, in one of its blocks and in no excluded one, and it lists the bucket's port; no blocks stand for all, no ports for every port, and no list of ports covers the bucket of every port |
| CalicoIndex.IndexRefinesWalk | internal/policy/calico/buildIndex.go:97-127 | For every workload, direction and bucket: the winner from the precomputed candidates is the winner of the walk over the selecting policies, where Pass ends only its own policy's contribution |
| CalicoIndex.WinnerIsLeast | internal/policy/calico/buildIndex.go:29-60 | On the fields of the policies, whatever order they were fetched in: the winner that the index yields is a policy that selects namespace and workload and decides the bucket, and none that does has a lower tier, in its tier a lower order, or in its order an earlier name; it acts as its first covering rule; there is no winner exactly when no policy decides |
| CalicoBuild.NsSelectingPolicies | internal/policy/calico/buildIndex.go:29-38 | The loop keeps, in order, the policies whose namespace selector is missing or matches |
| CalicoBuild.WorkloadSelectingPolicies | internal/policy/calico/buildIndex.go:43-60 | The loop keeps, in order, the policies that select the workload; a namespace node is matched without labels |
| CalicoBuild.BucketsOf | internal/policy/calico/buildIndex.go:65-91 | The buckets are exactly the direction-wide seed, which comes first, and the (CIDR, port) pairs that some rule names, each once |
| CalicoBuild.DestinationBuckets | internal/policy/calico/buildIndex.go:65-91 | The nested loops compute those buckets in order of first mention |
| CalicoBuild.BuildBucketCandidates | internal/policy/calico/buildIndex.go:97-127 | The map holds, for every bucket, one candidate per policy whose first covering rule is no Pass, in order; empty lists are left out |
| CalicoBuild.BuildNsSelection | internal/policy/calico/buildIndex.go:11-25 | The cache of a namespace, empty when no policy selects it |
| CalicoBuild.SelectionIsIndexed | internal/policy/calico/buildIndex.go:11-25 | The cache holds the filtered policies, the buckets of exactly these, each once, and under each bucket exactly its candidates |
| CalicoPackets.BucketAnswersForPacket | internal/policy/calico/buildIndex.go:97-177 | Where no rule of the policies names a narrower block around an address or tells the ports apart, the winner of the walk for a bucket is that of the walk for the address and port |
| CalicoPackets.IndexAnswersForPacket | internal/policy/calico/buildIndex.go:97-127 | So the index of a namespace gives the packet's winner, for every workload and every bucket that answers |
| CalicoPackets.BucketsOnFields | internal/policy/calico/buildIndex.go:65-91 | The buckets are the one of all addresses and all ports and every pair of a block and a port that some rule of the direction names |
| CalicoPackets.SomeBucketAnswersExactly | internal/policy/calico/buildIndex.go:65-91 | Some bucket answers for an address and port exactly when one rule names a narrowest block together with that port, or together with every port where no rule lists that port, or the catch-all is the narrowest and no rule lists it |
| CalicoPackets.CrossedRulesLeaveGap | internal/policy/calico/buildIndex.go:70-87 | One rule for a block and all ports beside one for a port and all blocks leave no bucket for that port at any address of the block |
| CalicoRules.ResolveDirection | internal/policy/calico/buildRules.go:31-53 | The edges are those of the buckets that have a winner, in bucket order, less the restated ones |
| CalicoRules.DropRestatedEdges | internal/policy/calico/buildRules.go:62-85 | The two loops remove exactly the edges that restate the direction-wide one |
| CalicoRules.DropsExactlyRestated | internal/policy/calico/buildRules.go:62-85 | On the fields: an edge is dropped exactly when it speaks for all ports of some block and an edge for all ports of every address has its action and winner |
| CalicoRules.DropIsLossless | internal/policy/calico/buildRules.go:62-85 | Compression is lossless: with the list of the pairs that had a winner, the kept edges give back every edge in order, so a removed edge is the direction-wide edge moved to another CIDR |
| CalicoRules.DropIsIdempotent | internal/policy/calico/buildRules.go:62-85 | A second pass changes nothing |
| CalicoRules.CompressionIsLossless | internal/policy/calico/buildRules.go:31-53 | The edges resolved from the built index meet the conditions of lossless compression |
| CalicoEvaluate.BuildRulesForWorkload | internal/policy/calico/buildRules.go:93-138 | The loop gives one rule per edge, split by action in order, and one node per named CIDR |
| CalicoEvaluate.EvaluationResult.ResolveWorkload | internal/policy/calico/evaluate.go:72-124 | The whole new state of the shared result: nothing for an unselected workload, else its rules under its id, appended to its namespace, its CIDR nodes and its policies |
| CalicoEvaluate.Evaluate | internal/policy/calico/evaluate.go:35-66 | The policies are sorted in place, and the result is that of resolving every workload of every namespace against its namespace's cache |
| CalicoEvaluate.ResolveSide | internal/policy/calico/evaluate.go:78-101 | One direction of a workload: its edges, their rules and nodes, and the baseline |
| CalicoEvaluate.AnyGovernsLoop | internal/policy/calico/evaluate.go:128-138 | The scan finds whether some selecting policy governs the direction |
| CalicoEvaluate.HasCatchAllLoop | internal/policy/calico/evaluate.go:144-151 | The scan finds whether some edge is direction-wide |
| CalicoEvaluate.OneBlanket | internal/policy/calico/evaluate.go:88-101 | A governed direction has one blanket rule: the direction-wide edge's, or the deny-all baseline |
| CalicoEvaluate.ExactlyOneBlanket | internal/policy/calico/evaluate.go:88-101 | Every governed direction of a selected workload ends with exactly one blanket rule, allow-all exactly when the walk over the policies, asked about every address and port, stops at an allow, and credited to that policy |
| CalicoEvaluate.DirectionWideIsWinner | internal/policy/calico/evaluate.go:144-151 | The direction-wide edge of the resolved edges is the winner of the direction-wide bucket |
| CalicoRun.EvaluationIsConsistent | internal/policy/calico/evaluate.go:72-124 | An invariant of every evaluation: no rule names a CIDR without its node, allows and denies are kept apart, every rule of a node is about that node and its direction, and rules and policies are known of the same nodes |
| CalicoRun.WorkloadsAreFound | internal/policy/calico/evaluate.go:51-63 | A workload whose id no other one shares is found at the end with the rules that its namespace's cache gives and the policies that select it, in order, or not at all when none does |
| CalicoFields.RulesOnFields | internal/policy/calico/evaluate.go:72-101 | The rules of a selected workload in a direction, field by field and both ways: what each bucket's winner says of its own (ends, port, action, policy, scope, coverage), the deny-all of a governed direction without a winner for everything, and the marker of one that is not governed |
| CalicoFields.NoRuleTwice | internal/policy/calico/buildRules.go:93-138 | None of those rules is listed twice |
| CalicoFields.NamespaceListsOnFields | internal/policy/calico/evaluate.go:109-115 | Over any list of namespaces, the allows and denies of a namespace are exactly those of its selected workloads, of both directions |
| CalicoFields.NodesOnFields | internal/policy/calico/buildRules.go:113-119 | The nodes of an evaluation are those of blocks, each under its own id with its own text, and typed by whether the block is around every address, the pods' range or the services' range |
| CalicoFields.SelectingOnFields | internal/policy/calico/buildIndex.go:29-60 | A policy is among the selecting ones exactly when its selectors match the namespace's labels and the workload's |
| CalicoFields.FirstSelectingComesFirst | internal/policy/calico/evaluate.go:88-101 | The policy that a baseline or marker names is the first of the selecting ones by tier, order and name |
| CalicoFields.GovernedPathsAreJudged | internal/policy/calico/evaluate.go:83-101 | From policies to verdicts: a policy of the run that selects a workload and governs its egress gives every path out of it a verdict with an opinion, and the same for ingress and paths into it |
| CalicoReach.GovernedHasOpinion | internal/policy/calico/evaluate.go:83-101 | A governed direction of a selected workload is never read as "no opinion", for any peer and whatever other rules the buckets hold |
| CalicoReach.UngovernedFollowsEdges | internal/policy/calico/evaluate.go:92-94 | In a direction that no selecting policy governs, what its rules still say is the whole verdict for a peer with known ids; for another, the marker permits it where the rules left it open |
| CalicoReach.RulelessHasNoEdges | internal/policy/calico/buildRules.go:31-53 | Selecting policies without rules in a direction leave no edges there |
| CalicoReach.UngovernedStaysOpen | internal/policy/calico/evaluate.go:174-183 | A direction that no selecting policy governs or has rules for stays open, as "no opinion" exactly when the peer's id and its namespace's id are known |
| Reachability.PoliciesAllowingPeerSpecifically | internal/store/reachability.go:37-54 | The loop collects the identities of exactly the policies that allow the peer by node, namespace or covering CIDR |
| Reachability.CollectSide | internal/store/reachability.go:58-180 | The two passes over both buckets, with the policies that allow the peer collected first, compute the verdict |
| Reachability.DecideDirectionVerdict | internal/store/reachability.go:213-239 | The decision over the five classes with its loop over carve-outs |
| Reachability.AnyCarveOutTrimsLoop | internal/store/reachability.go:184-199 | A carve-out trims an allow of the same policy with the same ports whose block contains it |
| Reachability.DedupContributors | internal/store/reachability.go:244-260 | The policies behind the rules, each identity once and none missing |
| Reachability.DedupContributorsLoop | internal/store/reachability.go:244-260 | The loop with its set of seen identities computes that list |
| Reachability.AddPortsLoop | internal/store/reachability.go:82-89 | The loop with its set of seen keys adds exactly the ports whose number, range end and protocol are new |
| Reachability.AddPorts | internal/store/reachability.go:82-89 | The ports that are collected have exactly the keys of both lists |
| VerdictLaws.ReasonInClosedForm | internal/store/reachability.go:213-239 | The reason is a closed form over which rules there are: a deny, an uncut allow, a carve-out, an allow for others, a deny-all |
| VerdictLaws.CulpritsInClosedForm | internal/store/reachability.go:213-260 | The culprits are exactly the policies behind the deciding class, each once |
| VerdictLaws.PortsInClosedForm | internal/store/reachability.go:78-89 | The ports are exactly those of the matching allows, and all ports are open exactly when one of them says so |
| VerdictLaws.VerdictIsOrderFree | internal/store/reachability.go:58-118 | Reason, all-ports flag, set of ports and set of culprits depend only on which rules there are, not on their order or bucket |
| VerdictLaws.BucketsMaySwap | internal/store/reachability.go:112-113 | In particular the namespace and the workload bucket may be swapped |
| VerdictLaws.DeniesNeverOpen | internal/store/reachability.go:96-109 | More denies or carve-outs never open a blocked direction |
| VerdictLaws.MatchingAllowNeverBlocks | internal/store/reachability.go:72-95 | One more allow that matches the peer leaves an open direction permitted |
| VerdictLaws.AllowNeverBlocksExactly | internal/store/reachability.go:72-95 | For any rules: one more allow leaves an open direction open exactly when the peer was permitted before, or the new rule matches the peer or has no opinion |
| VerdictLaws.UnmatchedAllowDecides | internal/store/reachability.go:213-239 | Where nothing spoke, an allow that does not match the peer decides with its own class: locked, default deny, or still no opinion |
| VerdictLaws.UnmatchedAllowLocks | internal/store/reachability.go:92-94 | An input on which an allow blocks: without any rules, one allow for others locks the direction |
| VerdictLaws.DenyAllHoldsExactly | internal/store/reachability.go:34-54 | Where every allow of a policy is blanket, its deny-all holds exactly against peers whose id and namespace id are known, or where it has no allow |
| VerdictFields.NamesOnFields | internal/store/reachability.go:17-54 | A rule speaks of the peer exactly where its far end, the target of egress and the source of ingress, is the peer, its namespace, or a block with all addresses of a CIDR peer, or for another peer a block outside the LAN ranges |
| VerdictFields.SamePolicyIsSameFields | internal/store/reachability.go:30-32 | Where the separator is in no source and no namespace, the identity text tells policies apart by source, namespace and name |
| VerdictFields.ReasonOnFields | internal/store/reachability.go:58-239 | The reason, from the fields of the rules alone: a deny of the peer that its policy does not allow elsewhere, an allow of the peer that no exception of its policy cuts into, an exception, an allow of others, a deny-all among the allows, or nothing |
| VerdictFields.AllowedPeerIsPermitted | internal/store/reachability.go:72-90 | Without denies, an allow whose target (egress) or source (ingress) is the peer or its namespace permits it, whatever else is allowed |
| VerdictFields.AllowedOthersLock | internal/store/reachability.go:92-94 | Restricted allows of other peers alone lock the peer out |
| VerdictFields.DeniedPeerIsRefused | internal/store/reachability.go:96-109 | A deny of the peer refuses it, whatever is allowed |
| VerdictFields.PortsOnFields | internal/store/reachability.go:78-89 | Each port of the verdict is one of an allow of the peer, each of theirs is there up to its name, and none twice by number, range end and protocol |
| VerdictFields.CulpritsOnFields | internal/store/reachability.go:213-260 | The culprits are contributors of the rules that the reason rests on, every such contributor once by source, namespace and name |
| Prober.PoliciesCanReach | internal/store/reachability.go:300-367 | The loop over the engines, in any order, judges each, and lists exactly the blocking ones, each once |
| Prober.AllowedMeansAllOpen | internal/store/reachability.go:330-366 | The path is open exactly when every engine lets both sides pass |
| Prober.EnginesNeverOpen | internal/store/reachability.go:319-366 | One more engine never turns a deny into an allow |
| ProberFields.JudgeOnFields | internal/store/reachability.go:300-350 | An engine asks the rules of the source and its namespace about the destination for egress, and those of the destination and its namespace about the source for ingress; its status follows from the two reasons |
| ProberFields.PathOnFields | internal/store/reachability.go:300-366 | The path is allowed exactly when every engine's rules for both ends let it through, and the blocking engines are exactly the others |
| ProberFields.RefusedPathIsBlocked | internal/store/reachability.go:319-366 | One deny of the other end, kept for either end or its namespace in any engine, blocks the path |
| Prober.KeysCollideAtArrows | internal/store/reachability.go:295-297 | Two pairs share a memo key exactly when they are equal or one cuts the same text at another arrow |
| Prober.KeyIsInjective | internal/store/reachability.go:295-297 | The memo key determines the pair when the sources hold no arrow |
| Prober.ReachabilityProber.Probe | internal/store/reachability.go:284-292 | A hit returns the entry and changes nothing, a miss records its answer; while ids are asked with their own namespaces and sources hold no arrow, what comes back answers the request |
| Prober.ReachabilityProber.ProbeAll | internal/store/reachability.go:262-292 | Over any sequence of such probes every answer is the recomputed one |
| Prober.ReachabilityProber.AnyRuleReachable | internal/store/layering.go:50-57 | The scan finds a live path exactly when some rule's own pair is allowed by all engines |
| Prober.ReachabilityProber.IsLayeredPolicy | internal/store/layering.go:23-47 | A pair is layered exactly where a cluster range takes part or, on a namespace pair, a finer path is live; the filter of the finer rules keeps every probe on its own namespaces |
| Prober.FinerPolicies | internal/store/layering.go:60-100 | The finer rules of both namespaces, in order |
| ProberFields.LayeredOnFields | internal/store/layering.go:14-100 | On the fields: a pair is layered exactly where a cluster range takes part, or one end is a namespace and the engine has an allow under either namespace, between two different known nodes of theirs that are not both namespaces, whose own path is open |
| Collapse.BuildNsMembership | internal/graph/renderEngine.go:29-50 | The loop builds the membership index |
| Collapse.MembershipIsExact | internal/graph/renderEngine.go:29-50 | With distinct ids, the index gives each member's namespace and the number of members of each namespace |
| Collapse.CollapseUniformRules | internal/graph/renderEngine.go:93-137 | The two loops compute the emitted rules and the counts |
| CollapseLaws.CollapsedStandsForAll | internal/graph/renderEngine.go:82-92 | Where a rule collapses, the workloads behind it are exactly the members of its namespace, and each has a rule with the same direction, action, coverage, policy, ports, L7 part and selectors, and the same other end |
| CollapseLaws.EmissionIsExact | internal/graph/renderEngine.go:112-136 | Rules that do not collapse are emitted unchanged and in order; of a collapsing group no two are emitted |
| CollapseLaws.GroupHasArrow | internal/graph/renderEngine.go:112-136 | Every collapsing group has its arrow |
| CollapseFields.CollapsesExactly | internal/graph/renderEngine.go:59-123 | Both directions: a rule collapses exactly when its scope is the namespace, the namespace of its workload has a node and two workloads or more, and every one of them has a rule with the same fact |
| CollapseFields.NothingIsLost | internal/graph/renderEngine.go:112-136 | Every rule is emitted as it is, or some emitted rule agrees with it in everything but the contributor beyond its identity and has the namespace node for its workload |
| CollapseFields.NothingIsMadeUp | internal/graph/renderEngine.go:112-136 | Every emitted rule is a given one, or says of a namespace node what the rules of all its workloads say |
| CollapseLaws.LastEmissionCounts | internal/graph/renderEngine.go:133-133 | The count of an arrow is the member count of the last namespace emitted to it |
| CollapseLaws.CountsAreMembers | internal/graph/renderEngine.go:113-134 | Every rule that collapses finds the member count of its namespace on its arrow, exactly when any two collapsing rules with one arrow come from namespaces of one size |
| CollapseLaws.SidedRulesShareNoArrow | internal/graph/renderEngine.go:113-134 | Where the workload is the source of egress rules and the target of ingress rules, the counts are right |
| CollapseLaws.CountsCanBeWrong | internal/graph/renderEngine.go:133-133 | An input on which that condition fails: five rules, such as no engine emits, over seven nodes |
| Graph.BuildGraph | internal/graph/buildGraph.go:13-51 | The nodes are the workloads and the engines' nodes under ids that no workload has, each id once; the rules are those of all engines; the arrows are rendered from both |
| Graph.EnginesFollowDirection | internal/policy/calico/buildRules.go:99-130 | In the rules of the engines the workload is the source of every namespace-wide egress rule and the target of every namespace-wide ingress rule |
| Graph.GraphCountsAreRight | internal/graph/buildGraph.go:30-49 | In every graph each collapsed arrow counts the workloads of the namespace it stands for |
| RenderEdges.RenderEdges | internal/graph/renderEngine.go:150-203 | The loops fold the collapsed rules into arrows by identity |
| RenderEdges.FoldIsLossless | internal/graph/renderEngine.go:160-196 | One arrow per identity among the rules: the identity's own fields, the first rule's coverage, exactly its rules' port numbers and L7 blocks, each once, the recorded count, and the level |
| RenderEdges.ArrowPortsOnFields | internal/graph/renderEngine.go:160-225 | The ports of an arrow are ports of its rules, one for every number that some rule opens |
| RenderEdges.AppendUniquePortLoop | internal/graph/renderEngine.go:212-225 | The loops append exactly the ports whose number is new |
| RenderEdges.AppendUniquePort | internal/graph/renderEngine.go:212-225 | The numbers are the union of both lists, the old list is kept as a prefix, and no number repeats |
| RenderEdges.AppendUniqueL7Loop | internal/graph/renderEngine.go:230-237 | An L7 block is appended exactly when no equal one is there |
| LabelIndex.LabelsMatchLoop | internal/utils/labels.go:22-29 | The loop decides whether every label of the selector is read with its value |
| LabelIndex.BuildWorkloadIndex | internal/graph/buildNodes.go:182-192 | An entry lists exactly the nodes that carry it, and exists only if some node does |
| LabelIndex.IndexLabelMatch | internal/utils/labels.go:31-69 | Narrowing in any order of keys, with its early exits, yields the nodes that every label's entry lists, none for the empty selector |
| LabelIndex.LookupFindsEntries | internal/utils/labels.go:31-69 | Over the built index a non-empty lookup finds exactly the nodes that carry all entries |
| LabelIndex.IndexAgreesWithMatch | internal/utils/labels.go:22-69 | For a non-empty selector with non-empty values and no '=' in any key, the lookup finds exactly the nodes that match directly |
| LabelIndex.AgreementNeedsNonEmpty | internal/utils/labels.go:22-69 | For keys without '=' that condition is exact |
| LabelIndex.EntryIsInjective | internal/utils/labels.go:71-73 | Without '=' in the keys an entry determines the label |
| PeerAuthentication.ResolveMtls | internal/mesh/istio/peerauth.go:27-123 | Both lists, which may be one and the same, are sorted in place, oldest first, and the state is the resolution of the sorted lists |
| PeerAuthentication.SortByCreation | internal/mesh/istio/peerauth.go:127-136 | The policies are sorted in place: of any two, the first was created earlier, or at the same time under no later name; the array is a permutation, and is the stable sort of the old one |
| PeerAuthentication.PickVerdict | internal/mesh/istio/peerauth.go:140-150 | The nested loops find the first explicit mode over the buckets in order |
| PeerAuthentication.ResolvePortOverrides | internal/mesh/istio/peerauth.go:155-178 | Walking the mentioned ports in any order gives every explicitly set port its first explicit mode, and no other port |
| PeerAuthentication.FirstIsWinner | internal/mesh/istio/peerauth.go:140-150 | The first explicit policy in precedence order is the least by (scope, creation time, name) among the matching ones that set the mode |
| PeerAuthentication.ResolutionIsArgmin | internal/mesh/istio/peerauth.go:27-123 | The effective policy and each port override are that argmin; without any explicit mode the verdict is permissive, and a port is absent exactly when none sets it |
| PeerAuthFields.ResolutionOnFields | internal/mesh/istio/peerauth.go:27-178 | On the fields: the effective policy sets the mode and applies to the workload, its namespace or the mesh, and no policy that does so applies more closely, or as closely and was created earlier, or at the same time under an earlier name; so for each port |
| PeerAuthentication.ResolutionIsOrderFree | internal/mesh/istio/peerauth.go:127-136 | With (creation time, name) unique in each list the input order does not matter |
| StatusKeys.IntersectPolicyStatus | internal/policy/statusKeys.go:90-129 | The filter and the fold compute the intersection; a single opinion passes through as it is |
| StatusKeys.BadgesReadAccess | internal/policy/statusKeys.go:14-26 | The internet badges show a direction exactly when it is unlocked or the access is named, and never as two separate badges |
| StatusKeys.IntersectionIsConjunction | internal/policy/statusKeys.go:90-129 | For any list of engines, in any order and with any number of empty ones, and for either direction, the effective badges show internet access exactly when every engine's own badges do |
| StatusKeys.GatedInClosedForm | internal/policy/statusKeys.go:90-129 | A LAN, own-namespace or API-server badge shows exactly when the only engine with an opinion names the access, or, of several, each leaves the direction unlocked or names it |
| StatusKeys.GatedIsConjunctionExactly | internal/policy/statusKeys.go:90-129 | Over any non-empty list of engines, such a badge is the conjunction of the engines' own exactly when all name it, none has an opinion, the only opinion does not name it, or one of several locks the direction without naming it |
| StatusKeys.LanIsNotConjunction | internal/policy/statusKeys.go:104-108 | An input on which that condition fails: two engines that each show no LAN badge show one together |
| StatusKeys.L7IsDisjunction | internal/policy/statusKeys.go:90-129 | The L7 badge shows exactly when some engine's own does |
| StatusKeys.CrossNamespaceInClosedForm | internal/policy/statusKeys.go:90-149 | The cross-namespace badge shows exactly when the only opinion names that access, or each of several names it or locks neither side |
| StatusKeys.IsolatedInClosedForm | internal/policy/statusKeys.go:14-129 | The isolation badge shows exactly when the only opinion locks both sides and names no way out, or of several some opinion closes the internet, some the LAN, each way, and some the API server |

## Left out

- Kubernetes clients, informers, YAML and CRD decoding, HTTP handlers, logging, metrics, the command line and the user interface: input and output, or presentation.
- `net.ParseCIDR` and IPv6: containment is proved from parsed IPv4 blocks on, for any parser.
- Text that is not valid UTF-8: strings are sequences of Unicode scalar values.
- The wording of error messages: errors are kinds.
- Hand-built selector trees that no parse returns: And or Or without operands, on which the printer panics, and empty sets that are not nil.
- The selector's hash, the visitors, and the package-level cache of label restrictions: the uncached analysis is modelled.
- The five comparison node types share one constructor; the capacity at which the parser keeps a grown token buffer is left open.
- Storage of token slices: a slice is a list, so writing to the shared buffer is not captured; the result of a parse is proved not to depend on it.
- Tokenizer.AppendTokens: works on values, for the same reason.
- LabelRestrictions.LabelRestrictionsOf: the value lists of the operands are copied into arrays at each merge, so sharing between merges is not captured; the sharing inside one merge is.
- CalicoEvaluate.EvaluationResult.ResolveWorkload: the policy status of the workload is not part of the result.
- CalicoEvaluate.Evaluate: starts from decoded policies, so the fetch and its errors are not modelled.
- The decoding of Calico policies, and every other engine's rule expansion: the models start from decoded policies and from rules.
- CalicoReach.UngovernedFollowsEdges: speaks of an index without an empty id.
- That the verdict for a CIDR peer is Calico's first match: the verdict combines all resolved edges and lets another policy's deny-all win, so this is not claimed.
- Reachability.CollectSide: models the egress and the ingress collector once, with the direction as an argument; the display fields that matches carry are dropped, the rules are kept.
- Prober.PoliciesCanReach: leaves the order of the blocking engines open, as the program's map order does, and drops the texts and the policies listed for display.
- The mesh verdict that is combined with the policy verdict for endpoints: a call into another component.
- Prober.ReachabilityProber.IsLayeredPolicy: does not model the policy references and messages that accompany the answer.
- Prober.FinerPolicies: returns the rules only, not the policy references that are collected beside them for display.
- Graph.BuildGraph: leaves open the order of the nodes and of the rules, which the program takes from map order.
- Prober.ReachabilityProber.ProbeAll: a sequence of probes as one method; the program has no such method.
- RenderEdges.RenderEdges: gives the arrows as a map by identity, since the program lists them in map order.
- LabelIndex.IndexLabelMatch: gives the matches as a set of positions, since the program lists them in map order.
- PeerAuthentication.ResolveMtls: leaves out the list of sources and the issues.
- PeerAuthentication.ResolutionIsArgmin: takes the two lists of a workload in the root namespace to hold the same policies, since both are fetched from that namespace.
- The status accumulation of the engines, the walk that fills per-engine badges, and workload discovery: they would only add easy members.
