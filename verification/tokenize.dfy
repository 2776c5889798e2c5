/**
 * The tokenizer of Swiffer (Sources/Core/tokenize.swift; Sources/main.swift
 * carries an identical copy).  It splits Swift source text into comments,
 * string literals and the text between them.
 */
module Tokenizer {
  import opened Parsing
  import opened ParsingLaws

  datatype Token = Comment(text: string) | StringLiteral(text: string) | Text(text: string)

  /** `manyTill(anyChar, endOfLine)`: the body of a line comment. */
  const LineBody: Parser<seq<char>> := ManyTill(AnyChar, EndOfLine)

  /** The shape of `_singleLineComment`: `{ a in { b in Token.Comment(a + b) } } <^> start <*> body`. */
  function LineCommentOf(start: Parser<seq<char>>, body: Parser<seq<char>>): (r: Parser<Token>)
    requires Suffixing(start) && Suffixing(body)
    ensures Suffixing(r)
  {
    Apply(Fmap((a: seq<char>) => (b: seq<char>) => Comment(a + b), start), body)
  }

  /** `_singleLineComment`: "//", then everything up to the line end, which is consumed but dropped. */
  const SingleLineComment: Parser<Token> := LineCommentOf(Literal("//"), LineBody)

  /** `balanced(anyChar, literal("/*"), literal("*/"))`. */
  const CommentGroup: Parser<seq<Nested<seq<char>, seq<char>, seq<char>>>> :=
    Balanced(AnyChar, Literal("/*"), Literal("*/"))

  /** The printer stage of `_multiLineComment`: a trace becomes the comment text it spells. */
  function PrintedComment(group: Parser<seq<Nested<seq<char>, seq<char>, seq<char>>>>): (r: Parser<Token>)
    requires Suffixing(group)
    ensures Suffixing(r)
  {
    Map(group, (ns: seq<Nested<seq<char>, seq<char>, seq<char>>>) => Comment(Unparse(ns)))
  }

  /**
   * `_multiLineComment`: a possibly nested block comment, printed back as the
   * concatenation of its delimiters and inner runs.
   */
  const MultiLineComment: Parser<Token> := PrintedComment(CommentGroup)

  /** `comment`: a line comment, else a block comment. */
  const CommentToken: Parser<Token> := OrElse(SingleLineComment, MultiLineComment)

  /** The string delimiter, a double quote. */
  const Quote: Parser<seq<char>> := Literal("\"")

  /** A scalar as a one-scalar string (`String($0).unicodeScalars`). */
  function Scalar(c: char): (r: seq<char>)
    ensures |r| == 1 && r[0] == c
  {
    [c]
  }

  /** One piece of a string body: an escaped backslash, an escaped quote, or any single scalar. */
  const StringPiece: Parser<seq<char>> :=
    OrElse(Literal("\\\\"), OrElse(Literal("\\\""), Map(AnyChar, Scalar)))

  /** The concatenation of the pieces (`reduce(String.UnicodeScalarView(), combine: +)`). */
  function Concat(xs: seq<seq<char>>): seq<char> {
    if xs == [] then [] else xs[0] + Concat(xs[1..])
  }

  /**
   * The `string` parser built from its delimiter and its inner piece parser:
   * `delimiter *> (manyTill(inner, delimiter) <&> concatenation) <&> Token.StringLiteral`.
   */
  function StringOf(delimiter: Parser<seq<char>>, inner: Parser<seq<char>>): (r: Parser<Token>)
    requires Suffixing(delimiter) && Suffixing(inner)
    ensures Suffixing(r)
  {
    Map(DiscardLeft(delimiter, Map(ManyTill(inner, delimiter), Concat)), (b: seq<char>) => StringLiteral(b))
  }

  /** `string`: the text between two quotes, escapes kept as written. */
  const StringToken: Parser<Token> := StringOf(Quote, StringPiece)

  /** Where a text run stops: in front of a comment or a string. */
  const TokenAhead: Parser<Token> := LookAhead(OrElse(CommentToken, StringToken))

  /** `manyTill(anyChar, ahead) <&> Token.Text`: the scalars in front of the place where `ahead` matches. */
  function TextBefore<E>(ahead: Parser<E>): (r: Parser<Token>)
    requires Suffixing(ahead)
    ensures Suffixing(r)
  {
    Map(ManyTill(AnyChar, ahead), (x: seq<char>) => Text(x))
  }

  /** `text`: everything up to the next comment or string. */
  const TextToken: Parser<Token> := TextBefore(TokenAhead)

  /** `skipSpaces *> (comment <|> string <|> text)`: one token after optional whitespace. */
  const NextToken: Parser<Token> :=
    DiscardLeft(SkipSpaces, OrElse(CommentToken, OrElse(StringToken, TextToken)))

  /** `tokens`: `many` of the above. */
  const Tokens: Parser<seq<Token>> := Many(NextToken)

  /** The outcome of a computation that either returns a value or never returns. */
  datatype Run<+T> = Halts(value: T) | Diverges

  /**
   * The `switch` of `tokenize` on the outcome of `tokens`: the tokens, followed
   * by the unparsed remainder as one more text token when it is not empty.
   */
  function Collect(r: Result<seq<Token>>): (c: Run<seq<Token>>)
    ensures c.Diverges? <==> r.Diverged?
    ensures r.Success? ==> |r.value| <= |c.value| && c.value[..|r.value|] == r.value && (r.rest == [] <==> |c.value| == |r.value|)
    ensures r.Success? && r.rest != [] ==> c.value[|r.value|] == Text(r.rest)
    ensures r.Failure? ==> c.value == []
  {
    match r
    case Success(rest, ts) => Halts(ts + (if rest == [] then [] else [Text(rest)]))
    case Failure(_, _) => Halts([])
    case Diverged => Diverges
  }

  /** `tokenize`: split a source text into comments, string literals and other text. */
  function Tokenize(input: string): Run<seq<Token>> {
    Collect(Tokens(input))
  }
}
