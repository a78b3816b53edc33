# birchfall in Dafny

A model of the parser-combinator library birchfall (TypeScript), with proofs about it.

A parser is a function from an input string and a cursor to a reply. A reply is one of four kinds, crossing success/failure with consumed/not consumed:

| reply | succeeded | consumed |
|---|---|---|
| `Ok` | yes | yes |
| `Epsilon` | yes | no |
| `Fail` | no | no |
| `Error` | no | yes |

The model covers these parts:
- the four-way reply (`Replies`);
- every combinator of `src/parser/index.ts` (`Combinators`), with lemmas in `Sequencing`, `Primitives`, `Alternatives` and `Repetition`;
- the operator-table helpers of `src/parser/expr.ts` (`Expressions`);
- the lexical helpers of `src/parser/utils.ts` (`Lexical`, using `Decimal` for digit strings);
- the `parse` entry point with its trim and leftover options (`Driver`);
- the first, string-slicing version of the library (`LegacyReplies`, `LegacyParsers`), and how it relates to the current one (`Versions`);
- `id` and `constant` (`Utils`);
- the pure parts of the three example programs (`Calculator`, `Brainfck`, `ParserCalculator`), whose printers share `Brackets`.

Combinators are Dafny functions that return lambdas `(seq<char>, nat) -> Reply<T>`. Their behaviour is stated as lemmas about replies on every input and cursor.

The source's two while-loops (`some` and `skipSome`) are specified by recursive functions (`Combinators.SomeLoop`, `Combinators.SkipLoop`). They are also written as `while` loops (`Repetition.RunSome`, `Repetition.RunSkipSome`), proved to compute those functions. `splitOperators` is a method with nested loops. The legacy `some` is handled the same way.

The model reproduces the source's behaviour as written, quirks included:
- `word` slices `input.slice(i, a.length)`;
- `endOfInput`'s test is inverted;
- `skipSome` answers `Epsilon` after consuming;
- `bind` is associative when the first parser's epsilon replies stay at the cursor, and not in general otherwise.

`endOfInput` reports "Expected end of input", yet its test fires when the cursor is at the end, and its message quotes the last 30 characters of the whole input rather than what remains. The model follows the code. The corrected forms are modelled beside the as-written ones (`Intended`; see Findings).

## Model

| member | source | states |
|---|---|---|
| Replies.EmptyIsNotConsumed | src/reply/index.ts:7-13 | isEmpty holds exactly for epsilon and fail, isConsumed exactly for ok and error, and each is the negation of the other |
| Replies.SuccessCarriesValue | src/reply/index.ts:1-5 | isSuccess holds exactly for the two variants that carry a value |
| Replies.ErrorIsConsumedFailure | src/reply/index.ts:11-21 | isError holds exactly for error, which is consumed and not a success |
| Replies.FlagsIdentifyVariant | src/reply/index.ts:7-17 | the pair (isSuccess, isConsumed) names the variant, and two replies agree on the pair iff they have the same variant |
| Replies.Reply.Propagate | src/parser/index.ts:25 | handing a failure on keeps its kind, index and message |
| Sequencing.PureAndRaise | src/parser/index.ts:10-16 | pure(t) is epsilon(t) at the cursor; error(m) is an error at the cursor carrying m (lines 221-227) |
| Sequencing.BindCases | src/parser/index.ts:19-35 | a first failure passes through; after epsilon the continuation's reply is returned unchanged; after ok a continuation failure becomes an error at the original cursor with its message, and a success becomes ok at the continuation's index |
| Sequencing.BindCommitsAfterConsumption | src/parser/index.ts:26-31 | after a consuming first step bind's reply is consumed, and an error is reported at the start cursor |
| Sequencing.BindSuccess | src/parser/index.ts:19-35 | bind succeeds iff both steps do; then it has the continuation's value and index and is ok iff either step consumed |
| Sequencing.BindLeftIdentity | src/parser/index.ts:19-24 | bind(pure(a), f) behaves as f(a) |
| Sequencing.BindRightIdentity | src/parser/index.ts:19-35 | bind(p, pure) behaves as p |
| Sequencing.BindAssociative | src/parser/index.ts:19-35 | bind is associative whenever p's epsilon replies stay at the cursor |
| Sequencing.BindNotAssociative | src/parser/index.ts:22-30 | with an epsilon that moves the cursor, the two bracketings report errors at different indices |
| Sequencing.ThenSuccess | src/parser/index.ts:38-40 | then succeeds iff both parsers do, with the second's value and index |
| Sequencing.FmapReply | src/parser/index.ts:44-46 | fmap maps the value of a success, keeps its index and kind, and passes failures on |
| Sequencing.FmapIdentity | src/parser/index.ts:44-46 | fmap with the identity behaves as the parser |
| Sequencing.FmapCompose | src/parser/index.ts:44-46 | fmap of f then g equals fmap of their composition (lines 62-64) |
| Sequencing.ApplyPure | src/parser/index.ts:49-51 | apply(pure(f), p) behaves as fmap(p, f) |
| Sequencing.ApplySuccess | src/parser/index.ts:49-51 | apply succeeds iff both parsers do, with f(a) at the second's index |
| Sequencing.AfterSuccess | src/parser/index.ts:54-59 | after succeeds iff both parsers do, keeping the first value and ending at the second's index |
| Sequencing.ComposeAssociative | src/parser/index.ts:62-64 | compose(f, g) is g after f, and composition is associative |
| Sequencing.BetweenSuccess | src/parser/index.ts:177-179 | between succeeds iff open, body and close do; it keeps the body's value and ends after close |
| Sequencing.VoidReply | src/parser/index.ts:191-193 | void_ keeps kind and index and drops the value |
| Sequencing.LazyRunsThunk | src/parser/index.ts:187-189 | lazy runs the thunk's parser at call time |
| Primitives.SatisfyReply | src/parser/index.ts:66-78 | satisfy is ok(input[i], i+1) iff the cursor is on a character passing the test, else fail at i |
| Primitives.CharReply | src/parser/index.ts:80-82 | char(c) matches exactly c at the cursor |
| Primitives.AnyCharReply | src/parser/index.ts:148-150 | anyChar matches any character and fails only at or past the end |
| Combinators.JsSlice | src/parser/index.ts:87 | String.prototype.slice: the characters from start to end when both lie within the input, and nothing when the range is empty or starts past the end |
| Primitives.WordReply | src/parser/index.ts:84-95 | as written, word(a) is ok(a, i+\|a\|) iff a is empty or the cursor is 0 and the input starts with a; otherwise fail at i |
| Primitives.EndOfInputReply | src/parser/index.ts:195-208 | as written, endOfInput errs with the message iff the cursor is at or past the end, and is epsilon otherwise |
| Primitives.EndOfInputMessageShape | src/parser/index.ts:197-204 | the message quotes the last 30 characters of the whole input plus " (...)" when it is longer, and the whole input otherwise |
| Alternatives.ChoiceCases | src/parser/index.ts:97-107 | choice returns pa's ok or error, runs pb after fail, and after epsilon prefers pb only if pb consumed |
| Alternatives.ChoiceCommits | src/parser/index.ts:100 | once the first alternative has consumed, the second makes no difference |
| Alternatives.ChoiceAssociative | src/parser/index.ts:97-107 | choice is associative |
| Alternatives.ChoicesEmpty | src/parser/index.ts:110-114 | choices() fails at the cursor and is a left unit of choice |
| Alternatives.ChoicesFold | src/parser/index.ts:115 | choices of a list is the left fold of choice |
| Alternatives.ChoicesAllFail | src/parser/index.ts:109-116 | if every parser fails, choices fails with the last parser's reply (at the cursor when there is none) |
| Alternatives.ChoicesFirstConsumed | src/parser/index.ts:109-116 | the first parser to consume, after only failures, decides choices |
| Alternatives.OptionReply | src/parser/index.ts:181-185 | option gives the default as epsilon when p fails, and p's reply otherwise |
| Alternatives.AttemptReply | src/parser/index.ts:229-235 | attempt turns an error into fail at the cursor and passes the rest; it never errs and is idempotent |
| Alternatives.TryCatchReply | src/parser/index.ts:237-243 | tryCatch runs the catcher on the error's message from the original cursor, and passes every other reply |
| Alternatives.AttemptIsTryCatch | src/parser/index.ts:229-243 | attempt is tryCatch with a catcher that fails |
| Repetition.SomeFirstStep | src/parser/index.ts:122-125 | some passes a first failure on unchanged; it fails iff the first step fails, never answers epsilon, and an ok result starts with the first value |
| Repetition.SomeLoopConsumes | src/parser/index.ts:126-141 | the loop ends ok or in error, and an ok result extends the values collected so far |
| Repetition.SomeLoopStops | src/parser/index.ts:128-139 | on an advancing parser, an ok result of the loop is a chain of successes ending where the parser fails |
| Repetition.SomeOkStopsAtFailure | src/parser/index.ts:118-142 | an ok result of some is a non-empty chain of successes that ends where the parser fails |
| Repetition.StepsAreSome | src/parser/index.ts:118-142 | conversely, any such chain is exactly what some returns |
| Repetition.StepsSomeLoop | src/parser/index.ts:128-139 | from any success, a chain ending at a failure is what the loop collects |
| Repetition.SomeLoopError | src/parser/index.ts:131-134 | an error of the loop is the error of a step reached by a chain of successes |
| Repetition.SomeErrorIsStepError | src/parser/index.ts:118-142 | an error of some is the error of a step reached by a chain of successes |
| Repetition.ManyReply | src/parser/index.ts:144-146 | many turns a first failure into an empty list as epsilon, is some otherwise, and never fails |
| Repetition.SkipLoopIsVoidedSomeLoop | src/parser/index.ts:158-169 | the skipSome loop ends where the some loop does, with epsilon for ok |
| Repetition.SkipSomeIsVoidedSome | src/parser/index.ts:152-171 | skipSome is some with the values dropped and ok reported as epsilon |
| Repetition.SkipReply | src/parser/index.ts:173-175 | skip turns a first failure into epsilon at the cursor, is skipSome otherwise, and never fails |
| Repetition.SepBy1Reply | src/parser/index.ts:210-215 | sepBy1 fails iff the first item fails; after a first item it errs iff the separated repetition errs (a separator with no item after it), and otherwise yields the first value followed by the repetition's values, ending where the repetition ends |
| Repetition.SepByReply | src/parser/index.ts:217-219 | sepBy gives an empty list when the first item fails and never fails |
| Repetition.SpanEnd | src/parser/index.ts:118-142 | the end of the maximal run of passing characters from the cursor: every character before it passes and the one at it does not |
| Repetition.SatisfyAdvances | src/parser/index.ts:66-78 | every success of satisfy moves the cursor one character forward |
| Repetition.SatisfySteps | src/parser/index.ts:66-78 | satisfy matches one by one along the maximal run of passing characters and fails at its end |
| Repetition.SomeSatisfySpan | src/parser/index.ts:118-142 | some(satisfy(pred)) yields the maximal run of passing characters, or fails when it is empty |
| Repetition.ManySatisfySpan | src/parser/index.ts:144-146 | many(satisfy(pred)) yields the maximal run, empty as epsilon |
| Repetition.SkipSatisfySpan | src/parser/index.ts:173-175 | skip(satisfy(pred)) is epsilon at the end of the maximal run |
| Repetition.RunSome | src/parser/index.ts:118-142 | the while-loop of some computes Combinators.Some on an advancing parser |
| Repetition.RunSkipSome | src/parser/index.ts:152-171 | the while-loop of skipSome computes Combinators.SkipSome on an advancing parser |
| Decimal.NatToString | test/calculator/index.ts:51 | a rendering is a non-empty run of decimal digits without a leading zero |
| Decimal.NatToStringRoundTrip | src/parser/utils.ts:9 | reading back the decimal rendering of a number gives the number |
| Decimal.NatToStringInjective | test/calculator/index.ts:51 | distinct numbers render differently |
| Decimal.NatToStringHasNoPunctuation | test/calculator/index.ts:50-55 | a number's rendering holds no parenthesis, space or operator sign |
| Lexical.CharacterClasses | src/parser/utils.ts:4-6 | isDigit accepts exactly '0'..'9'; isWhitespace (lines 41-43) accepts at least space, tab, newline and return, and never a digit |
| Lexical.IntegerReply | src/parser/utils.ts:8-11 | integer reads the maximal run of digits at the cursor (possibly empty) as its decimal value |
| Lexical.IntegerReadsRendering | src/parser/utils.ts:8-11 | integer reads back the rendering of any natural number, stopping before a following non-digit |
| Lexical.BooleanReply | src/parser/utils.ts:28-37 | boolean tries "true" before "false", and as written matches only at cursor 0 |
| Lexical.WhitespaceReply | src/parser/utils.ts:44 | whitespace never fails; it is epsilon just past the maximal run of white space |
| Lexical.NewlineReply | src/parser/utils.ts:45 | newline is ok at i+1 exactly on '\n', else fail at i |
| Lexical.LexemeReply | src/parser/utils.ts:48-50 | lexeme fails or errs exactly as p does; otherwise it keeps p's value and ends after the following white space |
| Expressions.SplitOperators | src/parser/expr.ts:67-91 | the nested loops compute the per-fixity lists of the flattened table |
| Expressions.SplitOfNothing | src/parser/expr.ts:68-73 | splitting starts from four empty lists |
| Expressions.SplitOfSnoc | src/parser/expr.ts:74-88 | each operator is appended to the list of its fixity and to no other |
| Expressions.SplitCount | src/parser/expr.ts:74-88 | the four list lengths add up to the number of operators |
| Expressions.SplitOfAppend | src/parser/expr.ts:74-90 | splitting distributes over concatenation: order is kept and row boundaries are lost |
| Expressions.SplitOfRows | src/parser/expr.ts:74-90 | splitting a table with one more row appends that row's split |
| Expressions.OptionalOperatorReply | src/parser/expr.ts:55-56 | a missing prefix or postfix is the identity, found without consuming |
| Expressions.AfterTermReply | src/parser/expr.ts:56-57 | after the term, the postfix (or the identity) is applied on top of the prefix |
| Expressions.AfterPrefixReply | src/parser/expr.ts:55-57 | after the prefix, the term and then the postfix are parsed, yielding post(pre(term)) |
| Expressions.ParseTermSuccess | src/parser/expr.ts:50-58 | parseTerm succeeds iff prefix, term and postfix do, and then yields post(pre(a)) at the postfix's end |
| Expressions.ParseTermFailsWithTerm | src/parser/expr.ts:50-58 | when no prefix matches and the term fails, parseTerm passes the term's failure on unchanged |
| Expressions.ParseTermWithoutOperators | src/parser/expr.ts:50-58 | with no prefix or postfix operators parseTerm is the term parser |
| Expressions.ParseTermNoPrefix | src/parser/expr.ts:55-57 | when no prefix matches, the reply is the one without prefix operators |
| Expressions.InfixWithoutOperators | src/parser/expr.ts:24 | with an empty operator list both chains fail at the cursor (line 39 for the right chain) |
| Expressions.InfixLLink | src/parser/expr.ts:19-32 | one consuming link of a left chain applies the operator to the left value and continues from there |
| Expressions.InfixLFoldsLeft | src/parser/expr.ts:19-32 | a left chain stops where no operator matches and yields the left fold of its links |
| Expressions.InfixLTwoLinks | src/parser/expr.ts:19-32 | left op1 t1 op2 t2 yields op2(op1(left, t1), t2) |
| Expressions.InfixLIncomplete | src/parser/expr.ts:25-31 | a consuming operator without a following term makes the whole left chain an error at its start |
| Expressions.InfixRLink | src/parser/expr.ts:34-48 | one consuming link of a right chain applies the operator to the left value and the rest of the chain |
| Expressions.InfixRFoldsRight | src/parser/expr.ts:34-48 | a right chain yields the right fold of its links |
| Expressions.InfixRTwoLinks | src/parser/expr.ts:34-48 | left op1 t1 op2 t2 yields op1(left, op2(t1, t2)) |
| Driver.TrimStart | src/index.ts:27 | trimStart drops exactly the leading white space: the result is a suffix, everything dropped is white space, and it does not start with white space |
| Driver.TrimEnd | src/index.ts:27 | trimEnd drops exactly the trailing white space: the result is a prefix, everything dropped is white space, and it does not end with white space |
| Driver.TrimStartUnique | src/index.ts:27 | trimStart's result is the unique suffix that drops only leading white space and starts with none |
| Driver.TrimEndUnique | src/index.ts:27 | trimEnd's result is the unique prefix that drops only trailing white space and ends with none |
| Driver.TrimStartIdempotent | src/index.ts:27 | trimming the start twice is trimming it once |
| Driver.TrimEndIdempotent | src/index.ts:27 | trimming the end twice is trimming it once |
| Driver.TrimIdempotent | src/index.ts:26 | trimming both ends twice is trimming them once |
| Driver.TrimEndCons | src/index.ts:27 | trimming the end keeps the first character unless the whole text is white space |
| Driver.TrimEitherOrder | src/index.ts:26 | trimming both ends does not depend on which end goes first |
| Driver.ToResult | src/index.ts:37-47 | ok and epsilon become success with the value; fail and error become failure with the index and message |
| Driver.TrimHowIgnored | src/index.ts:9-15 | the `how` field of the trim option makes no difference (lines 20-29) |
| Driver.ParseWithLeftovers | src/index.ts:32-35 | with leftovers allowed, the result is the parser's own reply from index 0 of the transformed input |
| Driver.ParseWithoutLeftovers | src/index.ts:32-47 | without, failures are reported as is; a success ending before the end is success; one reaching the end is a failure with the end-of-input message |
| Driver.DefaultRejectsFullMatch | src/index.ts:19-35 | under the default configuration a parser consuming the whole input is reported as a failure at 0 |
| Intended.LiteralReply | src/parser/index.ts:84-95 | the corrected word matches exactly where the input continues with the literal |
| Intended.LiteralAgreesAtStart | src/parser/index.ts:84-95 | at cursor 0 the corrected and the written word agree |
| Intended.WordMissesLaterMatch | src/parser/index.ts:87 | as written, word("b") fails on "ab" at cursor 1, where the corrected word matches |
| Intended.BooleanAnywhereReply | src/parser/utils.ts:28-37 | on the corrected word, boolean reads "true" or "false" at any cursor |
| Intended.BooleanMissesLaterMatch | src/parser/utils.ts:28-37 | as written, boolean misses "true" at cursor 1 of " true" |
| Intended.EndOfInputIntendedReply | src/parser/index.ts:195-208 | the corrected endOfInput succeeds exactly at the end and errs while input remains |
| Intended.EndOfInputIsInverted | src/parser/index.ts:196 | at every cursor the written and the corrected test give opposite answers |
| Intended.ParseIntendedWithoutLeftovers | src/index.ts:32-47 | with the corrected endOfInput, parse succeeds exactly when the parser succeeds and reaches the end of the text |
| Intended.ParseIntendedWithLeftovers | src/index.ts:32-34 | with leftovers allowed the two parse functions agree |
| Intended.ParseAcceptsLeftovers | src/index.ts:32-35 | as written, parse(anyChar, "a") fails and parse(anyChar, "ab") succeeds; corrected, the other way round |
| LegacyReplies.EmptyIsNotConsumed | src/reply.ts:7-13 | every legacy reply is either empty or consumed, never both |
| LegacyParsers.RunSome | src/parser.ts:74-99 | the while-loop of the legacy some computes LegacyParsers.Some when every ok shortens the input |
| LegacyParsers.BindReply | src/parser.ts:13-21 | legacy bind passes failures on and returns the continuation's reply unchanged, never escalating |
| LegacyParsers.SatisfyReply | src/parser.ts:27-39 | legacy satisfy is ok with the first character and the rest iff there is one and it passes |
| LegacyParsers.WordReply | src/parser.ts:45-56 | legacy word matches exactly when the input starts with the word, leaving the rest |
| LegacyParsers.ChoiceReply | src/parser.ts:58-68 | legacy choice returns a consumed reply, tries pb after fail, and after epsilon prefers a consuming pb |
| LegacyParsers.ChoicesAllFail | src/parser.ts:70-72 | with all but the last parser failing, legacy choices is the last parser |
| LegacyParsers.SomeFirstStep | src/parser.ts:77-82 | a first epsilon or fail gives fail, a first error gives error, a first ok gives ok or error |
| LegacyParsers.SomeFromSucceedsOrErrs | src/parser.ts:85-98 | after a first ok the loop ends ok, with more values, or in error |
| LegacyParsers.SomeDropsLaterEpsilon | src/parser.ts:85-97 | an epsilon as the second step ends the loop; its value is dropped but its rest is kept |
| LegacyParsers.SomeFromChain | src/parser.ts:85-98 | after a first ok, the loop follows a chain of shrinking ok steps and ends by the next reply: fail keeps the chain's rest, epsilon moves to its own rest with its value dropped, error is passed on |
| LegacyParsers.SomeChain | src/parser.ts:74-99 | some on a chain of ok steps collects all their values and ends ok at the chain's rest on fail, ok at the epsilon's rest on epsilon, and error on error |
| LegacyParsers.Span | src/parser.ts:74-99 | the length of the longest prefix whose characters pass the test |
| LegacyParsers.SomeFromSatisfy | src/parser.ts:85-98 | after a first ok, the legacy loop over satisfy collects the longest passing prefix of the rest |
| LegacyParsers.SomeSatisfy | src/parser.ts:74-99 | legacy some(satisfy(pred)) takes the longest passing prefix and fails when it is empty |
| LegacyParsers.ManyReply | src/parser.ts:101-103 | legacy many turns the failure of some into an empty list as epsilon |
| Versions.SatisfyCorresponds | src/parser.ts:27-39 | legacy satisfy on input[i..] agrees with the current satisfy at cursor i |
| Versions.WordCorrespondsToLiteral | src/parser.ts:45-56 | legacy word on input[i..] agrees with the corrected word at cursor i |
| Versions.BindEscalationIsNew | src/parser.ts:13-21 | on "ac", legacy choice(then(char a, char b), char a) backtracks to ok, while the current one errs at 0 |
| Utils.IdIsIdentity | src/utils.ts:4-6 | id returns its argument, and id(id(t)) == id(t) |
| Utils.ConstantIgnoresArgument | src/utils.ts:8-10 | constant(a)(x) == a == constant(a)(y) for all x and y |
| Calculator.OperationBalanced | test/calculator/index.ts:54 | wrapping two balanced renderings as "(a op b)" is balanced and adds one opening parenthesis |
| Calculator.ShowExprBalanced | test/calculator/index.ts:50-55 | showExpr's parentheses are balanced, with one pair per operation node |
| Brackets.Count | test/calculator/index.ts:50-55 | a character's count in a text is zero exactly when it does not occur there |
| Brackets.CountAppend | test/calculator/index.ts:50-55 | a character's count in a concatenation is the sum of its counts in the parts |
| Brackets.FreeIsBalanced | test/calculator/index.ts:51 | text with neither bracket is balanced |
| Brackets.BalancedConcat | test/calculator/index.ts:52-54 | balanced texts concatenate to a balanced text |
| Brackets.BalancedWrap | test/calculator/index.ts:52-54 | wrapping a balanced text in one more pair keeps it balanced and adds one opening bracket |
| Calculator.NumberHasNoParentheses | test/calculator/index.ts:51 | the rendering of a primitive holds no parenthesis |
| Calculator.CompareIsEquality | test/calculator/index.ts:58-68 | compare(a, b) holds iff a and b are the same tree |
| Calculator.CompareReflexiveSymmetric | test/calculator/index.ts:58-68 | compare is reflexive and symmetric |
| Calculator.MakeOperationBuilds | test/calculator/index.ts:17-25 | the operation builder makes a node with the operator and both operands, adding one parenthesised layer to the rendering |
| Brainfck.CommentReply | test/brainfck/index.ts:10-11 | comment consumes exactly one character outside + - < > , . [ ] and fails at the cursor on those |
| Brainfck.ShowTokensAppend | test/brainfck/index.ts:49-51 | showTokens of a concatenation is the concatenation of the renderings |
| Brainfck.ShowTokenAlphabet | test/brainfck/index.ts:42-47 | every character of showToken's output is one of the eight code characters |
| Brainfck.ShowTokensAlphabet | test/brainfck/index.ts:49-51 | every character of showTokens's output is one of the eight code characters |
| Brainfck.ShowTokensHasNoComment | test/brainfck/index.ts:10-11 | a rendered program holds no comment character |
| Brainfck.ShowTokenBalanced | test/brainfck/index.ts:42-47 | a token's brackets are balanced and nested, one pair per loop |
| Brainfck.ShowTokensBalanced | test/brainfck/index.ts:49-51 | a token list's brackets are balanced and nested, one pair per loop |
| ParserCalculator.PrintExprIsShowExpr | test/parser/calculator.ts:54-59 | printExpr agrees with the other example's showExpr, so it is balanced with one pair per operation |
| ParserCalculator.ApplyInOrderSnoc | test/parser/calculator.ts:26-29 | applying one more function in order applies it last |
| ParserCalculator.ComposeAllLast | test/parser/calculator.ts:26-29 | the reduce-composed function applies the last function after the composition of the others |
| ParserCalculator.ComposeAllAppliesInOrder | test/parser/calculator.ts:26-29 | the reduce-composed function applies the collected functions first to last |
| ParserCalculator.TwoStepsFoldLeft | test/parser/calculator.ts:22-29 | steps (op1, b1) (op2, b2) after a give op2(op1(a, b1), b2) |
| ParserCalculator.RexprReply | test/parser/calculator.ts:22-25 | a step reads an operator and a right operand b and yields a => f(a, b) |
| ParserCalculator.RhsWithoutOperator | test/parser/calculator.ts:26-36 | where no operator matches, rhs fails without consuming and its option yields the identity |
| ParserCalculator.OperationSetWithoutOperator | test/parser/calculator.ts:30-36 | with no operator after the first operand, operationSet is the operand's reply |
| ParserCalculator.TermTriesNumberFirst | test/parser/calculator.ts:46-49 | term tries a number first: a number that consumes or errs decides, one that fails gives way to the parenthesised sum, and after an epsilon number the sum's reply wins only if it consumed |

## Left out

- Combinators.SomeLoop: the source loops forever on a step that succeeds and stays put; the model also ends the loop, with what it has, at any success that does not advance within the input (one that goes back or lands past the end), where the source would go on from there. Repetition.RunSome and Repetition.RunSkipSome therefore require every success to advance within the input.
- Combinators.SkipLoop: the same non-progress cut-off as for some.
- LegacyParsers.SomeFrom: the source loops forever on an ok step that returns the same rest; the model also ends the loop at any ok step whose rest is not shorter, where the source would go on from that rest. LegacyParsers.RunSome requires every ok to shorten the input, and LegacyParsers.SomeChain speaks of shrinking chains only.
- LegacyParsers.Choices: `ps.reduce(choice)` without an initial value throws a TypeError on an empty list; the model requires a non-empty list and does not model the throw.
- Expressions.InfixLAt: the recursive `parseInfixL`/`parseInfixR` call is made only from a later cursor within the same input. The source recurses without end from the same cursor; the model also ends the chain, with the value built so far, at a continuation that goes back or lands past the end, where the source would recurse from there.
- Expressions.InfixRAt: the same guard as InfixLAt.
- Expressions.InfixLFoldsLeft: stated only for chains whose operator and term both answer ok (the Link predicate). Chains with epsilon links are not covered; there a term that fails without consuming after an epsilon operator ends the chain successfully at the cursor before that operator instead of making it an error. The same restriction bounds Expressions.InfixLTwoLinks and Expressions.InfixLIncomplete.
- Expressions.InfixRFoldsRight: the same ok-link restriction as the left chain; it also bounds Expressions.InfixRLink and Expressions.InfixRTwoLinks.
- makeExpressionParser is not part of this model: no shown file defines it.
- `float` (src/parser/utils.ts:13-25) and `evaluate` (test/calculator/index.ts:71-83): floating point and `Number()` parsing.
- The grammars tied through `lazy` and reassigned `let` bindings (`calculator()` in both calculator examples, `brainfck`, `sum`/`prod`): recursive parser values do not fit Dafny's total functions. ParserCalculator.Term takes the recursive reference as a parameter. The curried `lexeme(x)(p)` those grammars use does not exist in src/parser/utils.ts.
- Lexical.IntegerReply: the source passes `fmap` its arguments in reverse order (the function first). As written, `integer` would call the digit function as a parser. The model reads digits as `fmap(many(satisfy(isDigit)), join-and-convert)` evidently intends. Decimal values are unbounded rather than IEEE doubles.
- The one-argument overload of `option` (default `undefined`): every use in the model passes a default.
- A `null` configuration: `!config` skips trimming, but `config.allowLeftovers` then throws. Config is a record here.
- Driver.TrimHowIgnored: `how` may be a regular expression in the source; the model takes it as a character test. It is never consulted either way.
- Characters are Dafny `char`s, not UTF-16 code units. `\s` and `String.prototype.trim` are modelled by the character predicate Lexical.IsWhitespace over the same code points.
- Calculator.CompareIsEquality: values are integers; with JavaScript numbers, NaN would make compare irreflexive.
- Replies.Maybe stands for an optional message; a `fail` built by the source carries none.
- ParserCalculator.Rhs: `reduce` without an initial value throws on an empty list; `some` never yields one (Repetition.SomeFirstStep), and the model's branch for it is never taken.
- Test-runner scaffolding and test data (test/test-func.ts, test/parser-test*.ts, test/index.ts, test/*/test.ts, jest.config.js).

## Findings

| source | as written | input that shows it | evidently intended | confidence | as-written member | corrected member |
|---|---|---|---|---|---|---|
| src/parser/index.ts:87 | `input.slice(i, a.length)` ends the slice at \|a\|, so a non-empty word matches only at cursor 0 | `word("b")` on "ab" at cursor 1 fails; `boolean` on " true" at cursor 1 fails | `input.slice(i, i + a.length)`, as the first version's `word` does on the rest of the input (src/parser.ts:48) | high (not executed) | Intended.WordMissesLaterMatch | Intended.LiteralReply |
| src/parser/index.ts:196 | `if (i >= input.length)` raises "Expected end of input" at the end of the input | `parse(anyChar(), "a")` is a failure; `parse(anyChar(), "ab")` is a success with leftovers | `if (i < input.length)`: an error while input remains | high (not executed) | Intended.ParseAcceptsLeftovers | Intended.ParseIntendedWithoutLeftovers |
