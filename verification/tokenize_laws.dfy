/**
 * What the tokenizer promises: its tokens spell out the input, apart from
 * the whitespace it skips and the line ends that close line comments.
 */
module TokenizeLaws {
  import opened Parsing
  import opened ParsingLaws
  import opened Tokenizer

  // ---------------------------------------------------------------------
  // Text with whitespace removed, and the text of tokens
  // ---------------------------------------------------------------------

  /** The input with every whitespace scalar (`isSpace`) removed. */
  function Strip(s: seq<char>): seq<char> {
    if s == [] then [] else (if IsSpace(s[0]) then [] else [s[0]]) + Strip(s[1..])
  }

  lemma {:induction false} StripAppend(a: seq<char>, b: seq<char>)
    ensures Strip(a + b) == Strip(a) + Strip(b)
    decreases |a|
  {
    if a == [] {
      assert a + b == b;
    } else {
      assert (a + b)[1..] == a[1..] + b;
      StripAppend(a[1..], b);
    }
  }

  /** Dropping leading whitespace does not change the stripped text. */
  lemma {:induction false} StripSkip(u: seq<char>, n: nat)
    requires n <= |u| && forall i :: 0 <= i < n ==> IsSpace(u[i])
    ensures Strip(u) == Strip(u[n..])
    decreases n
  {
    if n == 0 {
      assert u[0..] == u;
    } else {
      StripSkip(u[1..], n - 1);
      assert u[1..][n - 1..] == u[n..];
    }
  }

  /** The source text a token stands for: string literals get their quotes back. */
  function Render(t: Token): seq<char> {
    match t
    case Comment(x) => x
    case StringLiteral(x) => "\"" + x + "\""
    case Text(x) => x
  }

  function RenderAll(ts: seq<Token>): seq<char> {
    if ts == [] then [] else Render(ts[0]) + RenderAll(ts[1..])
  }

  lemma {:induction false} RenderAllAppend(a: seq<Token>, b: seq<Token>)
    ensures RenderAll(a + b) == RenderAll(a) + RenderAll(b)
    decreases |a|
  {
    if a == [] {
      assert a + b == b;
    } else {
      assert (a + b)[1..] == a[1..] + b;
      RenderAllAppend(a[1..], b);
    }
  }

  // ---------------------------------------------------------------------
  // What each token parser consumes
  // ---------------------------------------------------------------------

  /** `skipSpaces` consumes a run of whitespace. */
  lemma {:induction false} SkipSpacesConsumesSpaces(t: seq<char>)
    ensures SkipSpaces(t).Success?
    ensures forall i :: 0 <= i < |t| - |SkipSpaces(t).rest| ==> IsSpace(t[i])
    decreases |t|
  {
    SkipManyHalts(Space, t);
    if Space(t).Success? {
      SkipSpacesConsumesSpaces(t[1..]);
      assert SkipSpaces(t) == SkipSpaces(t[1..]);
      SpacesShift(t, |t| - |SkipSpaces(t).rest|);
    } else {
      assert SkipSpaces(t).rest == t;
    }
  }

  lemma SpacesShift(t: seq<char>, n: nat)
    requires 0 < n <= |t| && IsSpace(t[0])
    requires forall i :: 0 <= i < n - 1 ==> IsSpace(t[1..][i])
    ensures forall i :: 0 <= i < n ==> IsSpace(t[i])
  {
    forall i | 0 < i < n ensures IsSpace(t[i]) {
      assert t[i] == t[1..][i - 1];
    }
  }

  /** So `skipSpaces` drops nothing but whitespace. */
  lemma SkipSpacesDropsSpaces(t: seq<char>)
    ensures SkipSpaces(t).Success? && Strip(SkipSpaces(t).rest) == Strip(t)
  {
    SkipSpacesConsumesSpaces(t);
    var n := |t| - |SkipSpaces(t).rest|;
    assert SkipSpaces(t).rest == t[n..];
    StripSkip(t, n);
  }

  lemma LineEndIsSpace(u: seq<char>)
    requires LineEndTable(u).Success?
    ensures Strip(u) == Strip(LineEndTable(u).rest)
  {
    if u[0] == '\r' && |u| > 1 && u[1] == '\n' {
      StripSkip(u, 2);
    } else {
      StripSkip(u, 1);
    }
  }

  /** A line end is whitespace. */
  lemma EndOfLineIsSpace(u: seq<char>)
    requires EndOfLine(u).Success?
    ensures Strip(u) == Strip(EndOfLine(u).rest)
  {
    EndOfLineCases(u);
    LineEndIsSpace(u);
  }

  /** On success, `p` consumed the text it returns and, at most, whitespace. */
  ghost predicate KeepsRunText(p: Parser<seq<char>>) {
    forall u :: p(u).Success? ==> Strip(u) == Strip(p(u).value) + Strip(p(u).rest)
  }

  /** On success, `p` consumed nothing but whitespace. */
  ghost predicate SkipsSpace<T>(p: Parser<T>) {
    forall u :: p(u).Success? ==> Strip(u) == Strip(p(u).rest)
  }

  lemma EndOfLineSkipsSpace()
    ensures SkipsSpace(EndOfLine)
  {
    forall u | EndOfLine(u).Success? ensures Strip(u) == Strip(EndOfLine(u).rest) {
      EndOfLineIsSpace(u);
    }
  }

  lemma RunTextSplit(u: seq<char>, x: seq<char>, w: seq<char>, rest: seq<char>)
    requires |x| <= |u| && u[..|x|] == x && w == u[|x|..] && Strip(w) == Strip(rest)
    ensures Strip(u) == Strip(x) + Strip(rest)
  {
    TakeDrop(u, |x|);
    StripAppend(x, w);
  }

  /** `manyTill(anyChar, end)` keeps the text when `end` skips only whitespace. */
  lemma TillSpaceKeepsText<E>(end: Parser<E>)
    requires Suffixing(end) && SkipsSpace(end)
    ensures KeepsRunText(ManyTill(AnyChar, end))
  {
    forall u ensures ManyTill(AnyChar, end)(u).Success? ==>
      Strip(u) == Strip(ManyTill(AnyChar, end)(u).value) + Strip(ManyTill(AnyChar, end)(u).rest)
    {
      TillSpaceKeepsTextAt(end, u);
    }
  }

  lemma TillSpaceKeepsTextAt<E>(end: Parser<E>, u: seq<char>)
    requires Suffixing(end) && SkipsSpace(end)
    ensures ManyTill(AnyChar, end)(u).Success? ==>
              Strip(u) == Strip(ManyTill(AnyChar, end)(u).value) + Strip(ManyTill(AnyChar, end)(u).rest)
  {
    var m := ManyTillAt(AnyChar, end, u);
    if m.Success? {
      AnyCharEchoes();
      ManyTillCharSplit(AnyChar, end, u);
      RunTextSplit(u, m.value, u[|m.value|..], m.rest);
    }
  }

  lemma CommentTextSplit(t: seq<char>, a: seq<char>, u: seq<char>, b: seq<char>, rest: seq<char>)
    requires a + u == t && Strip(u) == Strip(b) + Strip(rest)
    ensures Strip(t) == Strip(a + b) + Strip(rest)
  {
    StripAppend(a, u);
    StripAppend(a, b);
    AppendAssoc(Strip(a), Strip(b), Strip(rest));
  }

  /** A line comment built from a start that echoes its text and a body that keeps it keeps the text. */
  lemma LineCommentOfKeepsText(start: Parser<seq<char>>, body: Parser<seq<char>>)
    requires Suffixing(start) && Suffixing(body) && EchoesText(start) && KeepsRunText(body)
    ensures KeepsText(LineCommentOf(start, body))
  {
    forall t ensures LineCommentOf(start, body)(t).Success? ==>
      Strip(t) == Strip(Render(LineCommentOf(start, body)(t).value)) + Strip(LineCommentOf(start, body)(t).rest)
    {
      LineCommentOfKeepsTextAt(start, body, t);
    }
  }

  lemma LineCommentOfKeepsTextAt(start: Parser<seq<char>>, body: Parser<seq<char>>, t: seq<char>)
    requires Suffixing(start) && Suffixing(body) && EchoesText(start) && KeepsRunText(body)
    ensures var r := LineCommentOf(start, body)(t);
            r.Success? ==> r.value.Comment? && Strip(t) == Strip(Render(r.value)) + Strip(r.rest)
  {
    var r := LineCommentOf(start, body)(t);
    if r.Success? {
      var u := start(t).rest;
      var b := body(u);
      assert r == Success(b.rest, Comment(start(t).value + b.value));
      CommentTextSplit(t, start(t).value, u, b.value, b.rest);
    }
  }

  /** On success, `p` consumed exactly the source text of its token. */
  ghost predicate EchoesToken(p: Parser<Token>) {
    forall t :: p(t).Success? ==> Render(p(t).value) + p(t).rest == t
  }

  /** On success, `p` consumed the source text of its token and, at most, whitespace. */
  ghost predicate KeepsText(p: Parser<Token>) {
    forall t :: p(t).Success? ==> Strip(t) == Strip(Render(p(t).value)) + Strip(p(t).rest)
  }

  lemma EchoesKeepText(p: Parser<Token>)
    requires EchoesToken(p)
    ensures KeepsText(p)
  {
    forall t | p(t).Success? ensures Strip(t) == Strip(Render(p(t).value)) + Strip(p(t).rest) {
      StripAppend(Render(p(t).value), p(t).rest);
    }
  }

  /**
   * A line comment is "//" and the rest of the line; the line end after it
   * is consumed and, being whitespace, is the only text the token drops.
   */
  lemma LineCommentKeepsText()
    ensures KeepsText(SingleLineComment)
  {
    EndOfLineSkipsSpace();
    TillSpaceKeepsText(EndOfLine);
    LiteralEchoes("//");
    LineCommentOfKeepsText(Literal("//"), LineBody);
  }

  /** Printing a trace that spells its input gives a comment whose text is that input. */
  lemma PrintedCommentEchoes(group: Parser<seq<Nested<seq<char>, seq<char>, seq<char>>>>)
    requires Suffixing(group) && EchoesNested(group)
    ensures EchoesToken(PrintedComment(group))
  {
    forall t | PrintedComment(group)(t).Success?
      ensures Render(PrintedComment(group)(t).value) + PrintedComment(group)(t).rest == t
    {
      assert PrintedComment(group)(t) == Success(group(t).rest, Comment(Unparse(group(t).value)));
    }
  }

  /** A block comment's text is exactly the input it consumed. */
  lemma BlockCommentEchoes()
    ensures EchoesToken(MultiLineComment)
  {
    AnyCharEchoes();
    LiteralEchoes("/*");
    LiteralEchoes("*/");
    BalancedParserEchoes(AnyChar, Literal("/*"), Literal("*/"));
    PrintedCommentEchoes(CommentGroup);
  }

  /**
   * One piece of a string body, case by case: an escaped backslash or an
   * escaped quote is kept as its two scalars; otherwise any one scalar.
   */
  function PieceTable(t: seq<char>): Result<seq<char>> {
    if |t| > 1 && t[0] == '\\' && t[1] == '\\' then Success(t[2..], "\\\\")
    else if |t| > 1 && t[0] == '\\' && t[1] == '"' then Success(t[2..], "\\\"")
    else if |t| > 0 then Success(t[1..], [t[0]])
    else Failure(t, NotSatisfied)
  }

  lemma TwoPrefix(s: seq<char>, e: seq<char>)
    requires |e| == 2
    ensures (2 <= |s| && s[..2] == e) <==> (|s| > 1 && s[0] == e[0] && s[1] == e[1])
  {
    if |s| > 1 && s[0] == e[0] && s[1] == e[1] {
      assert s[..2] == [s[0], s[1]];
      assert e == [e[0], e[1]];
    }
  }

  lemma ScalarCases(t: seq<char>)
    ensures Map(AnyChar, Scalar)(t) == if |t| > 0 then Success(t[1..], [t[0]]) else Failure(t, NotSatisfied)
  {
  }

  lemma StringPieceTail(t: seq<char>)
    requires !(|t| > 1 && t[0] == '\\' && t[1] == '\\')
    ensures OrElse(Literal("\\\""), Map(AnyChar, Scalar))(t) == PieceTable(t)
  {
    var q := Literal("\\\"");
    LiteralMatchesPrefix("\\\"", t);
    TwoPrefix(t, "\\\"");
    ScalarCases(t);
    if |t| > 1 && t[0] == '\\' && t[1] == '"' {
      assert q(t) == Success(t[2..], "\\\"");
    } else {
      assert q(t).Failure?;
      assert OrElse(q, Map(AnyChar, Scalar))(t) == Map(AnyChar, Scalar)(t);
    }
  }

  /** `inner` of `string` agrees with the case table on every input. */
  lemma StringPieceCases(t: seq<char>)
    ensures StringPiece(t) == PieceTable(t)
  {
    LiteralMatchesPrefix("\\\\", t);
    TwoPrefix(t, "\\\\");
    if !(|t| > 1 && t[0] == '\\' && t[1] == '\\') {
      StringPieceTail(t);
    }
  }

  lemma OrElseEchoesText(p: Parser<seq<char>>, q: Parser<seq<char>>)
    requires EchoesText(p) && EchoesText(q)
    ensures EchoesText(OrElse(p, q))
  {
    forall t | OrElse(p, q)(t).Success? ensures OrElse(p, q)(t).value + OrElse(p, q)(t).rest == t {
      if p(t).Failure? { assert OrElse(p, q)(t) == q(t); } else { assert OrElse(p, q)(t) == p(t); }
    }
  }

  lemma ScalarEchoes()
    ensures EchoesText(Map(AnyChar, Scalar))
  {
    forall t | Map(AnyChar, Scalar)(t).Success?
      ensures Map(AnyChar, Scalar)(t).value + Map(AnyChar, Scalar)(t).rest == t
    {
      ScalarCases(t);
      assert t == [t[0]] + t[1..];
    }
  }

  /** Each piece of a string body is exactly the text it consumed. */
  lemma StringPieceEchoes()
    ensures EchoesText(StringPiece)
  {
    LiteralEchoes("\\\\");
    LiteralEchoes("\\\"");
    ScalarEchoes();
    OrElseEchoesText(Literal("\\\""), Map(AnyChar, Scalar));
    OrElseEchoesText(Literal("\\\\"), OrElse(Literal("\\\""), Map(AnyChar, Scalar)));
  }

  /** The pieces collected by `manyTill(p, end)`, when `p` echoes its text, lie in front of `end`'s match. */
  lemma {:induction false} TillSplitText<E>(p: Parser<seq<char>>, end: Parser<E>, s: seq<char>,
                                          xs: seq<seq<char>>, rest: seq<char>)
    requires EchoesText(p)
    requires TillChain(p, end, s, xs, rest)
    ensures |Concat(xs)| <= |s| && s[..|Concat(xs)|] == Concat(xs)
    ensures end(s[|Concat(xs)|..]).Success? && end(s[|Concat(xs)|..]).rest == rest
    decreases |xs|
  {
    if xs == [] {
      assert s[0..] == s;
    } else {
      var u := p(s).rest;
      TillSplitText(p, end, u, xs[1..], rest);
      ConcatStep(s, xs[0], u, Concat(xs[1..]));
    }
  }

  lemma ConcatStep(s: seq<char>, x: seq<char>, u: seq<char>, c: seq<char>)
    requires s == x + u && |c| <= |u| && u[..|c|] == c
    ensures |x + c| <= |s| && s[..|x + c|] == x + c && s[|x + c|..] == u[|c|..]
  {
  }

  lemma ManyTillTextSplit<E>(p: Parser<seq<char>>, end: Parser<E>, s: seq<char>)
    requires Suffixing(p) && Suffixing(end) && EchoesText(p)
    ensures var m := ManyTillAt(p, end, s);
            m.Success? ==> |Concat(m.value)| <= |s| && s[..|Concat(m.value)|] == Concat(m.value)
                           && end(s[|Concat(m.value)|..]).Success?
                           && end(s[|Concat(m.value)|..]).rest == m.rest
  {
    var m := ManyTillAt(p, end, s);
    if m.Success? {
      ManyTillIffChain(p, end, s, m.value, m.rest);
      TillSplitText(p, end, s, m.value, m.rest);
    }
  }

  lemma StringText(t: seq<char>, u: seq<char>, b: seq<char>, rest: seq<char>)
    requires "\"" + u == t
    requires |b| <= |u| && u[..|b|] == b && "\"" + rest == u[|b|..]
    ensures "\"" + b + "\"" + rest == t
  {
    TakeDrop(u, |b|);
    AppendAssoc("\"", b, "\"" + rest);
    AppendAssoc("\"" + b, "\"", rest);
  }

  /**
   * A string parser built from a quote delimiter and pieces that echo their
   * text gives a literal whose text, quotes put back, is exactly the input it consumed.
   */
  lemma StringOfEchoes(delimiter: Parser<seq<char>>, inner: Parser<seq<char>>)
    requires Suffixing(delimiter) && Suffixing(inner)
    requires ConsumesExactly(delimiter, "\"") && EchoesText(inner)
    ensures EchoesToken(StringOf(delimiter, inner))
  {
    forall t ensures StringOf(delimiter, inner)(t).Success? ==>
      Render(StringOf(delimiter, inner)(t).value) + StringOf(delimiter, inner)(t).rest == t
    {
      StringOfEchoesAt(delimiter, inner, t);
    }
  }

  lemma StringOfEchoesAt(delimiter: Parser<seq<char>>, inner: Parser<seq<char>>, t: seq<char>)
    requires Suffixing(delimiter) && Suffixing(inner)
    requires ConsumesExactly(delimiter, "\"") && EchoesText(inner)
    ensures StringOf(delimiter, inner)(t).Success? ==>
              Render(StringOf(delimiter, inner)(t).value) + StringOf(delimiter, inner)(t).rest == t
  {
    if StringOf(delimiter, inner)(t).Success? {
      var u := delimiter(t).rest;
      ManyTillTextSplit(inner, delimiter, u);
      var m := ManyTillAt(inner, delimiter, u);
      assert StringOf(delimiter, inner)(t) == Success(m.rest, StringLiteral(Concat(m.value)));
      StringText(t, u, Concat(m.value), m.rest);
    }
  }

  /** A string literal's text, quotes put back, is exactly the input it consumed. */
  lemma StringEchoes()
    ensures EchoesToken(StringToken)
  {
    LiteralConsumes("\"");
    StringPieceEchoes();
    StringOfEchoes(Quote, StringPiece);
  }

  /** A text run is exactly the input it consumed, whatever stops it, as long as the stop consumes nothing. */
  lemma TextBeforeEchoes<E>(ahead: Parser<E>)
    requires Suffixing(ahead) && Stays(ahead)
    ensures EchoesToken(TextBefore(ahead))
  {
    forall t ensures TextBefore(ahead)(t).Success? ==>
      Render(TextBefore(ahead)(t).value) + TextBefore(ahead)(t).rest == t
    {
      TextBeforeEchoesAt(ahead, t);
    }
  }

  lemma TextBeforeEchoesAt<E>(ahead: Parser<E>, t: seq<char>)
    requires Suffixing(ahead) && Stays(ahead)
    ensures TextBefore(ahead)(t).Success? ==> Render(TextBefore(ahead)(t).value) + TextBefore(ahead)(t).rest == t
  {
    if TextBefore(ahead)(t).Success? {
      AnyCharEchoes();
      ManyTillCharSplit(AnyChar, ahead, t);
      var m := ManyTillAt(AnyChar, ahead, t);
      assert TextBefore(ahead)(t) == Success(m.rest, Text(m.value));
      assert ahead(t[|m.value|..]).rest == t[|m.value|..];
      TakeDrop(t, |m.value|);
    }
  }

  lemma OrElseKeepsText(p: Parser<Token>, q: Parser<Token>)
    requires KeepsText(p) && KeepsText(q)
    ensures KeepsText(OrElse(p, q))
  {
    forall t | OrElse(p, q)(t).Success?
      ensures Strip(t) == Strip(Render(OrElse(p, q)(t).value)) + Strip(OrElse(p, q)(t).rest)
    {
      if p(t).Failure? { assert OrElse(p, q)(t) == q(t); } else { assert OrElse(p, q)(t) == p(t); }
    }
  }

  lemma SkipSpacesKeepsText(p: Parser<Token>)
    requires KeepsText(p)
    ensures KeepsText(DiscardLeft(SkipSpaces, p))
  {
    forall t | DiscardLeft(SkipSpaces, p)(t).Success?
      ensures Strip(t) == Strip(Render(DiscardLeft(SkipSpaces, p)(t).value))
                          + Strip(DiscardLeft(SkipSpaces, p)(t).rest)
    {
      SkipSpacesDropsSpaces(t);
      assert DiscardLeft(SkipSpaces, p)(t) == p(SkipSpaces(t).rest);
    }
  }

  /** One step of `tokens`: whitespace, then a token whose text is what was consumed. */
  lemma NextTokenKeepsText()
    ensures KeepsText(NextToken)
  {
    LineCommentKeepsText();
    BlockCommentEchoes();
    EchoesKeepText(MultiLineComment);
    OrElseKeepsText(SingleLineComment, MultiLineComment);
    StringEchoes();
    EchoesKeepText(StringToken);
    TextBeforeEchoes(TokenAhead);
    EchoesKeepText(TextToken);
    OrElseKeepsText(StringToken, TextToken);
    OrElseKeepsText(CommentToken, OrElse(StringToken, TextToken));
    SkipSpacesKeepsText(OrElse(CommentToken, OrElse(StringToken, TextToken)));
  }

  lemma {:induction false} ChainKeepsText(step: Parser<Token>, s: seq<char>, ts: seq<Token>, rest: seq<char>)
    requires KeepsText(step)
    requires ManyChain(step, s, ts, rest)
    ensures Strip(s) == Strip(RenderAll(ts)) + Strip(rest)
    decreases |ts|
  {
    if ts != [] {
      ChainKeepsText(step, step(s).rest, ts[1..], rest);
      StripAppend(Render(ts[0]), RenderAll(ts[1..]));
      AppendAssoc(Strip(Render(ts[0])), Strip(RenderAll(ts[1..])), Strip(rest));
    }
  }

  /** `many(step)` keeps the text whenever each step does. */
  lemma ManyKeepsText(step: Parser<Token>, s: seq<char>)
    requires Suffixing(step) && KeepsText(step)
    ensures Many(step)(s).Success? ==>
              Strip(s) == Strip(RenderAll(Many(step)(s).value)) + Strip(Many(step)(s).rest)
  {
    var r := ManyAt(step, s);
    if r.Success? {
      ManySuccessIsChain(step, s);
      ChainKeepsText(step, s, r.value, r.rest);
    }
  }

  /** What `tokenize` appends after the tokens, the unparsed rest as one text token, keeps the text. */
  lemma CollectKeepsText(r: Result<seq<Token>>, s: seq<char>)
    requires r.Success? ==> Strip(s) == Strip(RenderAll(r.value)) + Strip(r.rest)
    requires !r.Failure?
    ensures Collect(r).Halts? ==> Strip(RenderAll(Collect(r).value)) == Strip(s)
  {
    if r.Success? {
      var tail := if r.rest == [] then [] else [Text(r.rest)];
      RenderAllAppend(r.value, tail);
      StripAppend(RenderAll(r.value), RenderAll(tail));
      assert RenderAll(tail) == r.rest;
    }
  }

  /**
   * Tokenizing loses no text: apart from whitespace, the tokens spell out
   * the whole input, in order, with string literals between their quotes.
   */
  lemma TokenizeKeepsText(s: string)
    ensures Tokenize(s).Halts? ==> Strip(RenderAll(Tokenize(s).value)) == Strip(s)
  {
    NextTokenKeepsText();
    ManyKeepsText(NextToken, s);
    CollectKeepsText(Tokens(s), s);
  }
}
