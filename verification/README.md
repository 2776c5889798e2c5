# Swiffer's text-processing core, modelled in Dafny

Swiffer is a small linter for Swift sources. It has three parts:

- A parser-combinator engine works on sequences of Unicode scalars: `Sources/Core/parser.swift`, with an older subset in `Sources/parser.swift`.
- A tokenizer built from that engine splits a source text into comments, string literals and the text between them: `Sources/Core/tokenize.swift`. `Sources/main.swift:16-74` is an identical copy.
- A checker walks the token stream in consecutive pairs. It reports the names of `public func` declarations whose text is not preceded by a documentation comment (`Sources/checkers.swift`).

This project models those three parts and proves what they promise.

- `parser.dfy` (module `Parsing`): the engine.
  - A parser is a function from the remaining input to a `Result`.
  - A result is either `Failure(rest, msg)` (the source's `.Left`) or `Success(rest, value)` (its `.Right`).
  - A third case, `Diverged`, stands for a parse that never returns. This happens when `many`, `manyTill` or the `recur()` of `balanced` calls itself again on the same input.
  - The recursive combinators take the input as an argument and recurse on shorter suffixes.
  - Every parser the source builds only ever leaves a suffix of its input (`Suffixing`).
- `parser_laws.dfy` (module `ParsingLaws`): laws of the engine.
  - The algebra of `pure` and `>>-`.
  - `literal` matches exactly a prefix, and is equal to the source's recursive `char *> literal *> pure` chain.
  - The case table of `endOfLine`.
  - Reference readings of `many` and `manyTill`, proved equivalent in both directions.
  - Termination conditions, and the inputs that make these combinators run forever.
  - `balanced` returns a well-nested trace that spells out exactly the text it consumed.
- `tokenize.dfy` (module `Tokenizer`): the tokenizer's parsers and `tokenize`.
- `tokenize_laws.dfy` (module `TokenizeLaws`): every comment and string token spells out the input it consumed. `tokenize` therefore loses nothing but whitespace.
- `tokenize_cases.dfy` (module `TokenizeCases`): what each kind of token yields on inputs of a given shape.
  - A string literal whose body is made of pieces is one token holding the body as written. A piece is an escaped backslash, an escaped quote, a scalar that is neither a quote nor a backslash, or a lone backslash in front of such a scalar (as in `\n`, `\t` or `\(`).
  - A line comment ended by a line feed is one token without the line feed.
  - The string and line-comment scenarios of `Tests/Core/TokenizerTests.swift` are proved for their own inputs.
  - `tokenize` runs forever whenever its first token does (`TokenizeDiverges`), and in particular on every input `"/*" + x + "/*" + y` where `x` and `y` contain no slash and no star (`TokenizeUnclosedNested`).
- `comment_bodies.dfy` (module `CommentBodies`): nested block comments.
  - A comment body is a sequence of delimiter-free runs and nested groups (`Body`).
  - For every well-formed body, `balanced` reads the group back as its trace, and `tokenize` gives one comment with the whole text.
  - The four block-comment scenarios of `Tests/Core/TokenizerTests.swift` (plain, nested, nested three deep, two sibling groups) are proved for their own inputs.
- `checkers.dfy` (module `Checkers`): `pairwise`, the `publicFunc` declaration parser, `getAllPublicFunctionNames`, `isDocComment`, `textToken`, and `publicFunctionsAreDocumented`. That last function is a loop with its invariant.
- `checker_laws.dfy` (module `CheckerLaws`):
  - The declaration parser is equal to a plain scan over the text. Operator declarations yield the empty name.
  - A checker law: the first token of a stream only ever serves as a predecessor.
  - The simplification the source notes at `Sources/checkers.swift:57`: a doc comment is taken to document the first declaration of the text after it, and only that one.

## Model

| member | source | states |
|---|---|---|
| Parsing.Pure | Sources/Core/parser.swift:55-57 | succeeds on every input with the given value, consuming nothing; always returns |
| Parsing.OrElse | Sources/Core/parser.swift:42-52 | a success or non-return of `p` is the result; when `p` fails, `q` runs on the original input; keeps the suffix invariant |
| Parsing.Bind | Sources/Core/parser.swift:60-69 | a failure of `p` passes through with its rest and message; on success `f(value)` runs on what `p` left; non-return propagates |
| Parsing.Fmap | Sources/Core/parser.swift:72-74 | same rest and outcome as `p`, with `f` applied to a successful value |
| Parsing.Map | Sources/Core/parser.swift:77-79 | flipped `Fmap`: same rest and outcome as `p`, value mapped |
| Parsing.Apply | Sources/Core/parser.swift:82-84 | runs `p` then `q` on what `p` left; applies the function to the value; a failure of either is reported as the source reports it |
| Parsing.DiscardLeft | Sources/Core/parser.swift:87-89 | fails where `p` fails; otherwise is `q` on the rest `p` left |
| Parsing.DiscardRight | Sources/Core/parser.swift:92-94 | runs both, keeping the value of `p` and the rest of `q`; fails where either fails |
| Parsing.Uncons | Sources/Core/parser.swift:97-104 | present exactly for non-empty input; then gives the first scalar and the tail |
| Parsing.Satisfy | Sources/Core/parser.swift:107-116 | succeeds exactly when the first scalar satisfies the predicate; then consumes just that scalar; otherwise fails at the original input with "did not satisfy predicate" |
| Parsing.Char | Sources/Core/parser.swift:178-181 | succeeds exactly on a leading `c`, consuming one scalar; otherwise fails without consuming |
| Parsing.IsSpace | Sources/Core/parser.swift:162-164 | no contract of its own: blank, tab, line feed or carriage return; what `skipSpaces` built on it drops is `ParsingLaws.SkipSpacesDrops` |
| Parsing.Literal | Sources/Core/parser.swift:186-194 | keeps to suffixes and always returns (what it matches: `ParsingLaws.LiteralMatchesPrefix`) |
| Parsing.LiteralChain | Sources/Core/parser.swift:186-194 | the source's recursive `char(head) *> literal(tail) *> pure(expected)` keeps to suffixes and always returns, by induction on the literal; it is equal to `Literal` on every input (`ParsingLaws.LiteralIsChain`) |
| Parsing.LookAhead | Sources/Core/parser.swift:201-212 | a success returns the value of `p` but leaves the input untouched; any other outcome of `p` is returned as is |
| Parsing.Between | Sources/Core/parser.swift:214-221 | when `open`, `p` and `close` succeed in turn, returns the value of `p` and what `close` left; otherwise fails as, or runs forever as, the first of the three that does not succeed |
| Parsing.MatchAndDiscard | Sources/Core/parser.swift:229-232 | succeeds with `()` without consuming where `p` succeeds; fails as `p` fails |
| Parsing.ManyAt | Sources/Core/parser.swift:118-122 | never fails; a success leaves a suffix of the input |
| Parsing.Many1At | Sources/Core/parser.swift:124-133 | a success holds at least one value and leaves a suffix |
| Parsing.SkipManyAt | Sources/Core/parser.swift:151-155 | never fails; a success leaves a suffix |
| Parsing.SkipMany1At | Sources/Core/parser.swift:157-160 | a success leaves a suffix |
| Parsing.Many | Sources/Core/parser.swift:118-122 | as a parser: never fails and keeps to suffixes |
| Parsing.SkipMany | Sources/Core/parser.swift:151-155 | as a parser: never fails and keeps to suffixes |
| Parsing.ManyTillRev | Sources/Core/parser.swift:146-147 | the recursive loop of `manyTill`; a success leaves a suffix |
| Parsing.Reverse | Sources/Core/parser.swift:148 | `reversed()`: same length, element `i` is element `|xs| - 1 - i` of the input |
| Parsing.ManyTillAt | Sources/Core/parser.swift:135-149 | a success leaves a suffix (contents: `ParsingLaws.ManyTillIffChain`) |
| Parsing.ManyTill | Sources/Core/parser.swift:135-149 | as a parser: keeps to suffixes |
| Parsing.BalancedStop | Sources/Core/parser.swift:248 | the stop of the inner run never consumes input |
| Parsing.BalancedRest | Sources/Core/parser.swift:243-249 | `recur()`: a success leaves a suffix |
| Parsing.BalancedAt | Sources/Core/parser.swift:236-250 | a success leaves a suffix |
| Parsing.Balanced | Sources/Core/parser.swift:236-250 | as a parser: keeps to suffixes |
| ParsingLaws.BindPureLeft | Sources/Core/parser.swift:55-69 | `pure(v) >>- f` behaves as `f(v)` |
| ParsingLaws.BindPureRight | Sources/Core/parser.swift:55-69 | `p >>- pure` behaves as `p` |
| ParsingLaws.BindSuffixing | Sources/Core/parser.swift:60-69 | `>>-` keeps the suffix invariant when both stages keep it |
| ParsingLaws.LiteralMatchesPrefix | Sources/Core/parser.swift:186-194 | `literal(e)` succeeds iff the input starts with `e`, then returns `e` and the input after it; otherwise fails with the primitive message |
| ParsingLaws.ChainUnfolds | Sources/Core/parser.swift:188-189 | one unfolding of the recursive chain `char(head) *> literal(tail) *> pure(e)` |
| ParsingLaws.LiteralIsChain | Sources/Core/parser.swift:186-194 | the direct `literal` equals the source's recursive chain on every input, including where a mismatch leaves it |
| ParsingLaws.CarriageReturnCases | Sources/Core/parser.swift:175-176 | the CRLF and lone-CR alternatives of `endOfLine` follow the line-end table |
| ParsingLaws.EndOfLineCases | Sources/Core/parser.swift:172-176 | `endOfLine` yields "\n" for LF, "\r\n" for CRLF and "\n" for a lone CR, consuming one, two or one scalars, and otherwise fails without consuming |
| ParsingLaws.ManySuccessIsChain | Sources/Core/parser.swift:118-133 | every success of `many(p)` is a chain of consuming matches of `p` that ends where `p` fails |
| ParsingLaws.ChainIsManySuccess | Sources/Core/parser.swift:118-133 | every such chain is exactly what `many(p)` returns |
| ParsingLaws.ManyHalts | Sources/Core/parser.swift:118-133 | when `p` always returns and always consumes, `many(p)` succeeds |
| ParsingLaws.ManyDivergesOnEmptyMatch | Sources/Core/parser.swift:118-133 | a match of `p` that consumes nothing makes `many(p)` run forever |
| ParsingLaws.SkipManyIsMany | Sources/Core/parser.swift:151-160 | `skipMany(p)` stops where `many(p)` stops, and runs forever exactly when it does |
| ParsingLaws.TillRevIsChain | Sources/Core/parser.swift:146-148 | each success of the reversed accumulation, once reversed, is the forward chain of `manyTill` |
| ParsingLaws.ChainIsTillRev | Sources/Core/parser.swift:146-148 | each forward chain is what the reversed accumulation returns, once reversed |
| ParsingLaws.ManyTillIffChain | Sources/Core/parser.swift:135-149 | `manyTill(p, end)` succeeds with `xs` leaving `rest` iff `end` fails at each step before the last, `p` matches and consumes there, and `end` succeeds at the last step |
| ParsingLaws.ManyTillAnyCharStops | Sources/Core/parser.swift:135-149 | `manyTill(anyChar, end)` returns the scalars before the first place where `end` matches, and what `end` leaves there |
| ParsingLaws.ManyTillAnyCharRunsOut | Sources/Core/parser.swift:135-149 | when `end` never matches, `manyTill(anyChar, end)` fails at the end of the input |
| ParsingLaws.OrElseKeeps | Sources/Core/parser.swift:42-52 | a choice between parsers that always return (or always consume) does so too |
| ParsingLaws.DiscardLeftKeeps | Sources/Core/parser.swift:87-89 | `p *> q` always returns when both do, and consumes when either consumes |
| ParsingLaws.MapKeeps | Sources/Core/parser.swift:77-79 | mapping changes neither termination nor consumption |
| ParsingLaws.SkipManyHalts | Sources/Core/parser.swift:151-160 | `skipMany(p)` succeeds when `p` always returns and consumes |
| ParsingLaws.ManyTillHalts | Sources/Core/parser.swift:135-149 | `manyTill(p, end)` always returns when `p` always returns and consumes and `end` always returns |
| ParsingLaws.SkipSpacesHalts | Sources/Core/parser.swift:169-170 | `skipSpaces` always returns and never fails |
| ParsingLaws.DropWhile | Sources/Core/parser.swift:151-160 | the result is a suffix; it does not start with a satisfying scalar; all dropped scalars satisfy the predicate |
| ParsingLaws.SkipManySatisfy | Sources/Core/parser.swift:151-160 | `skipMany(satisfy(pred))` drops exactly the longest prefix satisfying `pred` |
| ParsingLaws.SkipSpacesDrops | Sources/Core/parser.swift:162-170 | `skipSpaces` drops exactly the leading spaces, tabs, LFs and CRs |
| ParsingLaws.BalancedRestCloses | Sources/Core/parser.swift:243-249 | every trace of `recur()` never goes below its starting depth before its end, and ends one level down |
| ParsingLaws.BalancedWellNested | Sources/Core/parser.swift:234-250 | the trace of `balanced` starts with `Open` and ends with `Close`; every proper prefix is still inside the outer group; the whole trace is back at depth zero |
| ParsingLaws.BalancedRestNeverFailsAtOpen | Sources/Core/parser.swift:246-248 | at an opener that is no closer, `recur()` never fails: the nested group completes or the parse runs forever |
| ParsingLaws.OpenCaseShape | Sources/Core/parser.swift:246 | the second alternative of `recur()` returns an open, the nested trace and the continuation |
| ParsingLaws.InnerCaseShape | Sources/Core/parser.swift:247-248 | otherwise a success comes from an inner run up to the next delimiter, then the continuation |
| ParsingLaws.LiteralConsumes | Sources/Core/parser.swift:186-194 | a success of `literal(e)` returns and consumes exactly `e` |
| ParsingLaws.AnyCharEchoes | Sources/Core/parser.swift:183-184 | `anyChar` consumes exactly the scalar it returns |
| ParsingLaws.TillSplit | Sources/Core/parser.swift:135-149 | the scalars collected by `manyTill` are the input in front of the place where `end` matched |
| ParsingLaws.ManyTillCharSplit | Sources/Core/parser.swift:135-149 | the same, for `manyTill` itself |
| ParsingLaws.BalancedRestEchoes | Sources/Core/parser.swift:243-249 | the trace of `recur()` spells out exactly the text it consumed |
| ParsingLaws.BalancedEchoes | Sources/Core/parser.swift:234-250 | the trace of `balanced` spells out exactly the text it consumed |
| ParsingLaws.BalancedParserEchoes | Sources/Core/parser.swift:234-250 | the same, as a property of the parser |
| Tokenizer.LineCommentOf | Sources/Core/tokenize.swift:7-8 | the line-comment combinator keeps to suffixes |
| Tokenizer.PrintedComment | Sources/Core/tokenize.swift:10-27 | the block-comment printer keeps to suffixes |
| Tokenizer.Scalar | Sources/Core/tokenize.swift:37 | a scalar as a one-scalar text |
| Tokenizer.Concat | Sources/Core/tokenize.swift:42 | no contract of its own: the pieces joined in order; `TokenizeCases.ConcatSingles` and `TokenizeCases.StringPieces` give what it yields on a string body |
| Tokenizer.StringOf | Sources/Core/tokenize.swift:32-44 | the string-literal combinator keeps to suffixes |
| Tokenizer.TextBefore | Sources/Core/tokenize.swift:46-47 | the text-run combinator keeps to suffixes |
| Tokenizer.Collect | Sources/Core/tokenize.swift:53-57 | never returns exactly when `tokens` never returns; after a success the tokens come first, and one more `Text` of the remainder follows exactly when the remainder is not empty; after a failure there are no tokens |
| Tokenizer.Tokenize | Sources/Core/tokenize.swift:52-58 | no contract of its own: `Collect` of `tokens`; what it keeps is `TokenizeLaws.TokenizeKeepsText`, what it gives on one token `TokenizeCases.TokenizeOne` |
| TokenizeLaws.SkipSpacesDropsSpaces | Sources/Core/parser.swift:169-170 | `skipSpaces` drops nothing but whitespace |
| TokenizeLaws.EndOfLineIsSpace | Sources/Core/parser.swift:172-176 | a line end consumes only whitespace |
| TokenizeLaws.TillSpaceKeepsText | Sources/Core/tokenize.swift:7-8 | `manyTill(anyChar, end)` keeps the text when `end` skips only whitespace |
| TokenizeLaws.LineCommentKeepsText | Sources/Core/tokenize.swift:7-8 | a line comment token holds all the non-whitespace text it consumed |
| TokenizeLaws.PrintedCommentEchoes | Sources/Core/tokenize.swift:10-27 | printing a trace that spells its input gives a comment whose text is that input |
| TokenizeLaws.BlockCommentEchoes | Sources/Core/tokenize.swift:10-27 | a block comment's text is exactly the input it consumed, nested groups included |
| TokenizeLaws.StringPieceCases | Sources/Core/tokenize.swift:34-37 | a piece of a string body is an escaped backslash, an escaped quote or one scalar, in that order of preference |
| TokenizeLaws.StringPieceEchoes | Sources/Core/tokenize.swift:34-37 | each piece is exactly the text it consumed |
| TokenizeLaws.StringOfEchoes | Sources/Core/tokenize.swift:32-44 | a string token, quotes put back, is exactly the text it consumed |
| TokenizeLaws.StringEchoes | Sources/Core/tokenize.swift:32-44 | the same for the tokenizer's own string parser |
| TokenizeLaws.TextBeforeEchoes | Sources/Core/tokenize.swift:46-47 | a text run is exactly the input it consumed |
| TokenizeLaws.NextTokenKeepsText | Sources/Core/tokenize.swift:49-50 | one step of `tokens` consumes its token's text and whitespace only |
| TokenizeLaws.ManyKeepsText | Sources/Core/tokenize.swift:49-50 | `many(step)` keeps the text whenever each step does |
| TokenizeLaws.CollectKeepsText | Sources/Core/tokenize.swift:52-58 | appending the unparsed rest as a text token keeps the text |
| TokenizeLaws.TokenizeKeepsText | Sources/Core/tokenize.swift:52-58 | whenever `tokenize` returns, its tokens, rendered, hold the input's non-whitespace text, in order |
| TokenizeCases.TillLineEnd | Sources/Core/tokenize.swift:8 | `manyTill(anyChar, endOfLine)` collects the body and consumes the terminator |
| TokenizeCases.TillNoLineEnd | Sources/Core/tokenize.swift:8 | without a terminator it fails |
| TokenizeCases.LineCommentPayload | Sources/Core/tokenize.swift:7-8 | `//` and a body without terminator, then a line end: the comment is `//` plus the body; the line end is consumed but is not part of the token |
| TokenizeCases.LineCommentUnterminated | Sources/Core/tokenize.swift:7-8 | `//` with no line end before the end of the input is no line comment |
| TokenizeCases.PieceAt | Sources/Core/tokenize.swift:34-37 | the piece parser reads an escaped backslash, an escaped quote or a plain scalar back as written, and leaves what follows |
| TokenizeCases.LoneBackslashAt | Sources/Core/tokenize.swift:34-37 | a backslash in front of a scalar that is neither a backslash nor a quote is read by `anyChar` as one scalar, leaving that scalar |
| TokenizeCases.PiecesChain | Sources/Core/tokenize.swift:32-44 | a body of pieces, lone backslashes before a plain scalar (`\n`, `\t`, `\(`) included, is read piece by piece, each as written, the closing quote ending the run |
| TokenizeCases.StringPieces | Sources/Core/tokenize.swift:32-44 | a quote, a body of pieces (escaped backslashes and quotes, and lone backslashes such as `\n` or `\(`) and a quote give a string literal of the body as written; what follows is left |
| TokenizeCases.StringPlain | Sources/Core/tokenize.swift:32-44 | the same for a body without quotes or backslashes |
| TokenizeCases.ReopenDiverges | Sources/Core/parser.swift:246-248 | inside a comment, an opener followed by delimiter-free text makes `recur()` run forever |
| TokenizeCases.CommentGroupUnclosedOf | Sources/Core/parser.swift:246-248 | opener, delimiter-free text, a second opener that is never closed: `balanced` runs forever |
| TokenizeCases.BlockCommentUnclosed | Sources/Core/tokenize.swift:10-11 | a second opener that is never closed makes the block-comment parser run forever |
| TokenizeCases.OrElseNeverText | Sources/Core/tokenize.swift:29-30 | a choice between parsers that never yield text never yields text |
| TokenizeCases.CommentNeverText | Sources/Core/tokenize.swift:29-30 | `comment` yields only comment tokens |
| TokenizeCases.StringNeverText | Sources/Core/tokenize.swift:32-44 | `string` yields only string tokens |
| TokenizeCases.AlternativesTextNonEmpty | Sources/Core/tokenize.swift:46-50 | a text token from the three alternatives of `tokens` holds at least one scalar |
| TokenizeCases.TextTokenNonEmpty | Sources/Core/tokenize.swift:46-50 | every text token that `tokens` takes holds at least one scalar |
| TokenizeCases.SkipSpacesAtNonSpace | Sources/Core/parser.swift:169-170 | where no whitespace starts, `skipSpaces` consumes nothing |
| TokenizeCases.CommentNeedsSlash | Sources/Core/tokenize.swift:29-30 | no comment starts anywhere but at a slash |
| TokenizeCases.CommentAtBlock | Sources/Core/tokenize.swift:29-30 | at slash-star the line-comment alternative fails and the block comment decides |
| TokenizeCases.StringNeedsQuote | Sources/Core/tokenize.swift:32-44 | no string literal starts anywhere but at a quote |
| TokenizeCases.NoTokenAtEnd | Sources/Core/tokenize.swift:49-50 | at the end of the input there is no next token, so `many` stops |
| TokenizeCases.ManyDivergesFirst | Sources/Core/parser.swift:118-133 | when the first match never returns, neither does `many` |
| TokenizeCases.TokenizeOne | Sources/Core/tokenize.swift:52-58 | an input that is exactly one token tokenizes to that token alone |
| TokenizeCases.TokenizeDiverges | Sources/Core/tokenize.swift:52-58 | when the first token never returns, neither does `tokenize` |
| TokenizeCases.NextTokenIsComment | Sources/Core/tokenize.swift:49-50 | where a comment starts, the next token is that comment |
| TokenizeCases.NextTokenIsString | Sources/Core/tokenize.swift:49-50 | where no comment but a string starts, the next token is that string |
| TokenizeCases.TokenizeStringPieces | Sources/Core/tokenize.swift:32-58 | a quoted body of pieces, escapes and lone backslashes such as `\n` included, tokenizes to one string literal holding the body as written |
| TokenizeCases.TokenizeString | Tests/Core/TokenizerTests.swift:6-9 | a quoted plain text tokenizes to one string literal holding the text between the quotes |
| TokenizeCases.TokenizeStringExample | Tests/Core/TokenizerTests.swift:6-9 | the test's own input gives the string literal the test expects |
| TokenizeCases.TokenizeEscapesExample | Sources/Core/tokenize.swift:32-58 | `"a\n\"b\\"` tokenizes to one string literal holding `a\n\"b\\` as written |
| TokenizeCases.TokenizeLineComment | Tests/Core/TokenizerTests.swift:11-16 | `//` and a body, then a line feed, tokenizes to one comment without the line feed |
| TokenizeCases.TokenizeLineCommentExample | Tests/Core/TokenizerTests.swift:11-16 | the test's own input gives the comment the test expects |
| TokenizeCases.TokenizeUnclosedNested | Sources/Core/tokenize.swift:52-58 | a block comment with an unclosed nested opener makes `tokenize` run forever |
| CommentBodies.StopAt | Sources/Core/parser.swift:248 | in front of either delimiter the stop of an inner run matches without consuming |
| CommentBodies.RunAt | Sources/Core/parser.swift:247-248 | an inner run reads exactly the delimiter-free text up to the next delimiter |
| CommentBodies.InnerAccepted | Sources/Core/parser.swift:245-248 | where neither delimiter matches, an inner run up to a shorter rest and a successful `recur()` there give the run's inner piece and that trace |
| CommentBodies.RunAccepted | Sources/Core/parser.swift:247-248 | a run and then the rest of the body: the run's inner piece, then the rest's trace |
| CommentBodies.OpenAccepted | Sources/Core/parser.swift:246 | an opener and two successful `recur()` calls: the open, the nested trace, the continuation |
| CommentBodies.BodyAccepted | Sources/Core/parser.swift:243-249 | on every well-formed body followed by a closer, `recur()` succeeds, consumes exactly the body and the closer, and returns the body's trace and the close |
| CommentBodies.GroupAccepted | Sources/Core/parser.swift:234-250 | `balanced` on an opener, a well-formed body and a closer returns the open, the body's trace and the close |
| CommentBodies.UnparseTrace | Sources/Core/tokenize.swift:10-27 | a body's trace, printed, is the body's text |
| CommentBodies.BlockCommentOf | Sources/Core/tokenize.swift:10-27 | for any delimiter parsers that act as the two literals, the block-comment printer gives the group's whole text |
| CommentBodies.BlockComment | Sources/Core/tokenize.swift:10-27 | a block comment with a well-formed body, nested groups included, is one comment of its whole text; what follows is left |
| CommentBodies.BlockCommentSimple | Sources/Core/tokenize.swift:10-27 | the same for a body with no nested group, the empty body included |
| CommentBodies.TokenizeBlockComment | Sources/Core/tokenize.swift:52-58 | a block comment with a well-formed body tokenizes to one comment with the whole text |
| CommentBodies.TokenizeSimpleComment | Tests/Core/TokenizerTests.swift:18-22 | any block comment without nesting, possibly empty, tokenizes to one comment with the whole text |
| CommentBodies.TokenizeNestedOnce | Tests/Core/TokenizerTests.swift:24-28 | text, one nested group, text: one comment with the whole text |
| CommentBodies.TokenizeNestedTwice | Tests/Core/TokenizerTests.swift:30-34 | a group inside a group inside the comment: one comment with the whole text |
| CommentBodies.TokenizeSiblings | Tests/Core/TokenizerTests.swift:36-40 | two nested groups side by side: one comment with the whole text |
| CommentBodies.TokenizeSimpleExample | Tests/Core/TokenizerTests.swift:18-22 | the test's own input gives the comment the test expects |
| CommentBodies.TokenizeNestedExample | Tests/Core/TokenizerTests.swift:24-28 | the test's own input gives the comment the test expects |
| CommentBodies.TokenizeDeepExample | Tests/Core/TokenizerTests.swift:30-34 | the test's own input gives the comment the test expects |
| CommentBodies.TokenizeSiblingsExample | Tests/Core/TokenizerTests.swift:36-40 | the test's own input gives the comment the test expects |
| Checkers.Zip | Sources/checkers.swift:5-7 | as many pairs as the shorter side has; pair `i` holds element `i` of each side |
| Checkers.DropFirst | Sources/checkers.swift:5-7 | everything but the first element, nothing for an empty collection |
| Checkers.Pairwise | Sources/checkers.swift:5-7 | one pair fewer than the elements (none for an empty stream); pair `i` is element `i` with its successor |
| Checkers.KeywordAfter | Sources/checkers.swift:10-15 | the keyword step keeps to suffixes |
| Checkers.Declaration | Sources/checkers.swift:10-16 | the declaration parser keeps to suffixes |
| Checkers.NameOrSkip | Sources/checkers.swift:19-20 | the scan step keeps to suffixes |
| Checkers.Flatten | Sources/checkers.swift:23 | no more names than scan steps |
| Checkers.PublicFunctionNames | Sources/checkers.swift:18-28 | no contract of its own: the flattened names of the scan, `[]` in the dead `.Left` branch; `CheckerLaws.PublicFunctionNamesScan` proves the branch dead and the names equal to `CheckerLaws.ScanNames` |
| Checkers.IsDocComment | Sources/checkers.swift:30-38 | no contract of its own: a comment token that starts with `/**` or `///`, nothing else; `CheckerLaws.SameDocSameReport` shows that only this predicate of the predecessor matters |
| Checkers.TextOf | Sources/checkers.swift:40-47 | present exactly for a text token |
| Checkers.Reported | Sources/checkers.swift:53-62 | no contract of its own: the body of one loop step, nothing for a non-text token, the names after the first when the predecessor is a doc comment, all of them otherwise |
| Checkers.ReportedAll | Sources/checkers.swift:52-63 | no contract of its own: the contributions of a run of pairs in order; `CheckerLaws.ReportedAllAppend` and `CheckerLaws.PairwiseFromFront` give its laws |
| Checkers.Undocumented | Sources/checkers.swift:49-67 | a stream of at most one token reports nothing; `Checkers.CheckPairs` proves the loop computes it |
| Checkers.ReportedAllSnoc | Sources/checkers.swift:52-63 | one more pair appends that pair's contribution |
| Checkers.CheckPairs | Sources/checkers.swift:49-67 | the loop over `pairwise(tokens)` collects exactly the contributions of all pairs, in order |
| Checkers.PublicFunctionsAreDocumented | Sources/checkers.swift:49-67 | the reported names are exactly `Undocumented(tokens)` |
| CheckerLaws.AfterKeyword | Sources/checkers.swift:12-15 | present iff the text starts with the keyword followed by whitespace; then strictly shorter |
| CheckerLaws.SplitName | Sources/checkers.swift:16 | the name before the first `<` or `(`, and the text after that stop |
| CheckerLaws.DeclName | Sources/checkers.swift:10-16 | a found name holds no stop scalar, and the rest is strictly shorter |
| CheckerLaws.ScanNames | Sources/checkers.swift:18-23 | names hold no `<` or `(`; never more names than scalars |
| CheckerLaws.KeywordAfterAt | Sources/checkers.swift:11-15 | the keyword step fails or runs forever with its prefix; otherwise it does what `AfterKeyword` says |
| CheckerLaws.FuncNameAt | Sources/checkers.swift:16 | the name parser is `SplitName`, failing at the end of the input when no stop occurs |
| CheckerLaws.DeclarationAt | Sources/checkers.swift:10-16 | the `public func` parser never runs forever and succeeds exactly as `DeclName` says |
| CheckerLaws.DeclarationScans | Sources/checkers.swift:10-16 | the same for every input |
| CheckerLaws.NameOrSkipAt | Sources/checkers.swift:19-20 | a declaration gives its name and resumes after it; anything else skips one scalar |
| CheckerLaws.ScanAt | Sources/checkers.swift:19-23 | `many(...)` always succeeds, consumes the whole text, and its flattened names are `ScanNames` |
| CheckerLaws.PublicFunctionNamesScan | Sources/checkers.swift:18-28 | the parse never fails (the "can't happen" branch is dead) and the names are `ScanNames` |
| CheckerLaws.ScanSkips | Sources/checkers.swift:19-20 | text that holds no keyword start adds no names |
| CheckerLaws.DeclNameAt | Sources/checkers.swift:10-16 | a plain declaration yields its name and the text after the stop |
| CheckerLaws.ScanDeclaration | Sources/checkers.swift:18-23 | a declaration at the front contributes its name, then the scan resumes after it |
| CheckerLaws.OperatorNameIsEmpty | Sources/checkers.swift:9-16 | an operator declaration `public func <...` yields the empty name |
| CheckerLaws.OneDeclaration | Sources/checkers.swift:18-23 | one declaration and no further keyword: just its name |
| CheckerLaws.TwoDeclarations | Sources/checkers.swift:18-23 | two declarations with no other keyword between or after them: both names, in order |
| CheckerLaws.ReportedAllAppend | Sources/checkers.swift:52-63 | the contributions of two runs of pairs, one after the other |
| CheckerLaws.PairwiseFromFront | Sources/checkers.swift:52-63 | the loop's left-to-right accumulation equals the front-to-back reading |
| CheckerLaws.PairwiseSnoc | Sources/checkers.swift:52-63 | one more token appends what the pair (old last token, new token) contributes |
| CheckerLaws.SameDocSameReport | Sources/checkers.swift:56-62 | only whether the predecessor is a doc comment matters |
| CheckerLaws.FirstTokenOnlyAsPrev | Sources/checkers.swift:49-63 | the first token is never scanned for names; a one-token stream reports nothing |
| CheckerLaws.DocThenText | Sources/checkers.swift:56-59 | a doc comment then a text reports the text's names but the first |
| CheckerLaws.DocCommentScenario | Sources/checkers.swift:49-67 | a doc comment and a text with two declarations report only the second name; the same text alone reports nothing |

## Left out

- Input and output are not modelled: reading files, the git invocation, the stdin loop and `spawn` (`Sources/Swiffer/*`, `Sources/spawn.swift`, the rest of `Sources/main.swift`). The model starts from a string.
- `Sources/Core/Prelude.swift` (`fix`, `id`, `const`) is not part of this model as code. Its helpers are inlined: `fix` becomes Dafny recursion and `const` becomes a constant lambda.
- Unicode scalars are modelled as `char`. `String(...)` and `.unicodeScalars` conversions are the identity on `seq<char>`.
- `Sources/parser.swift` and `Sources/main.swift:16-74` are older copies of the Core parser and tokenizer. They are served by the same model and have no rows of their own.
- Parsing.Literal: modelled by a direct prefix check. `ParsingLaws.LiteralIsChain` proves it equal, on every input, to the source's recursive chain (`Parsing.LiteralChain`).
- Tokenizer.PrintedComment: the source's printer matches on `Leaf`/`Branch`, which are not cases of `Nested`. The model prints the flat `Open`/`Inner`/`Close` trace by concatenating its pieces. That is the evident intent, since the tests expect the comment's whole text.
- Tokenizer.Tokenize: a parse that never returns is the outcome `Diverges`, not a hang. The `Failure` branch of the `switch` gives `[]` as in the source; `many` never fails, so that branch is dead.
- CommentBodies.BodyAccepted: stated for well-formed bodies, in which no delimiter starts inside a run, even one ending on the scalar after it. The converse direction, that whatever `balanced` accepts is such a body, is stated only as `ParsingLaws.BalancedWellNested` and `ParsingLaws.BalancedEchoes`: the trace is well nested and spells out the text consumed.
- TokenizeCases.BlockCommentUnclosed and TokenizeCases.TokenizeUnclosedNested: the divergence of an unclosed nested opener is shown for text without any slash or star around it.
- TokenizeCases.LineCommentUnterminated: a `//` at the end of the input without a line end is shown not to be a line comment. What `tokenize` then returns for it (the text-run fallback) is not characterised.
- Failure messages are characterised only for the primitives. `satisfy` gives "did not satisfy predicate". The other combinators pass through whatever message they received.
- Checkers.CheckPairs: the `documented` counter is kept as in the source but is never read (the threshold is a TODO in the source), so no contract mentions it. The name extractor is a parameter; `PublicFunctionsAreDocumented` passes the source's `getAllPublicFunctionNames`.
- The checker follows the simplification its authors note at `Sources/checkers.swift:57`: a doc comment is taken to document the first declaration of the text after it. `CheckerLaws.DocThenText` and `CheckerLaws.DocCommentScenario` state it. The first token of a stream is only ever a predecessor, so a text that is the first token reports nothing (`CheckerLaws.FirstTokenOnlyAsPrev`); the model keeps that behaviour of the code.
