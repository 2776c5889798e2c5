/**
 * Case-by-case behaviour of the tokenizer (Sources/Core/tokenize.swift):
 * what a line comment, a string literal, a text run and an unclosed block
 * comment yield on inputs of a given shape, and the string and line-comment
 * scenarios of the unit tests. Closed and nested block comments are in
 * module CommentBodies.
 */
module TokenizeCases {
  import opened Parsing
  import opened ParsingLaws
  import opened Tokenizer
  import opened TokenizeLaws

  // ---------------------------------------------------------------------
  // Single-line comments
  // ---------------------------------------------------------------------

  /** No line terminator (line feed or carriage return) in `body`. */
  predicate NoLineEnd(body: string) {
    forall i :: 0 <= i < |body| ==> body[i] != '\n' && body[i] != '\r'
  }

  /** `e` behaves as `endOfLine` on every input. */
  ghost predicate ActsAsLineEnd(e: Parser<seq<char>>) {
    forall s {:trigger e(s)} :: e(s) == LineEndTable(s)
  }

  lemma EndOfLineActs()
    ensures ActsAsLineEnd(EndOfLine)
  {
    forall s ensures EndOfLine(s) == LineEndTable(s) {
      EndOfLineCases(s);
    }
  }

  /** Up to a terminator, `manyTill(anyChar, e)` collects the body and consumes the terminator. */
  lemma TillLineEnd(e: Parser<seq<char>>, body: string, rest: string)
    requires Suffixing(e) && ActsAsLineEnd(e) && NoLineEnd(body)
    requires rest != [] && (rest[0] == '\n' || rest[0] == '\r')
    ensures ManyTillAt(AnyChar, e, body + rest) == Success(LineEndTable(rest).rest, body)
  {
    var s := body + rest;
    forall j | 0 <= j < |body|
      ensures e(s[j..]).Failure?
    {
      assert s[j..][0] == body[j];
    }
    assert s[|body|..] == rest;
    assert s[..|body|] == body;
    ManyTillAnyCharStops(e, s, |body|);
  }

  /** Without a terminator, `manyTill(anyChar, e)` runs off the end. */
  lemma TillNoLineEnd(e: Parser<seq<char>>, body: string)
    requires Suffixing(e) && ActsAsLineEnd(e) && NoLineEnd(body)
    ensures ManyTillAt(AnyChar, e, body).Failure?
  {
    forall j | 0 <= j <= |body|
      ensures e(body[j..]).Failure?
    {
      if j < |body| {
        assert body[j..][0] == body[j];
      }
    }
    ManyTillAnyCharRunsOut(e, body);
  }

  /** The shape of `_singleLineComment`: the start's text and the body's text, after each other. */
  lemma LineCommentOfAt(start: Parser<seq<char>>, body: Parser<seq<char>>, t: seq<char>)
    requires Suffixing(start) && Suffixing(body)
    ensures start(t).Success? && body(start(t).rest).Success? ==>
              LineCommentOf(start, body)(t)
                == Success(body(start(t).rest).rest, Comment(start(t).value + body(start(t).rest).value))
    ensures start(t).Success? && body(start(t).rest).Failure? ==> LineCommentOf(start, body)(t).Failure?
    ensures start(t).Failure? ==> LineCommentOf(start, body)(t).Failure?
  {
  }

  /** The same for any start parser that reads "//" and any line-end parser. */
  lemma LineCommentPayloadOf(start: Parser<seq<char>>, e: Parser<seq<char>>, body: string, rest: string)
    requires Suffixing(start) && Suffixing(e) && ActsAsLineEnd(e) && NoLineEnd(body)
    requires start("//" + (body + rest)) == Success(body + rest, "//")
    requires rest != [] && (rest[0] == '\n' || rest[0] == '\r')
    ensures LineCommentOf(start, ManyTill(AnyChar, e))("//" + (body + rest))
              == Success(LineEndTable(rest).rest, Comment("//" + body))
  {
    TillLineEnd(e, body, rest);
    LineCommentOfAt(start, ManyTill(AnyChar, e), "//" + (body + rest));
  }

  /**
   * A line comment is "//" and the text up to the first line terminator; the
   * terminator is consumed but is not part of the token.
   */
  lemma LineCommentPayload(body: string, rest: string)
    requires NoLineEnd(body)
    requires rest != [] && (rest[0] == '\n' || rest[0] == '\r')
    ensures SingleLineComment("//" + body + rest) == Success(LineEndTable(rest).rest, Comment("//" + body))
  {
    var t := "//" + (body + rest);
    assert "//" + body + rest == t by {
      AppendAssoc("//", body, rest);
    }
    LiteralMatchesPrefix("//", t);
    assert t[..2] == "//";
    assert t[2..] == body + rest;
    EndOfLineActs();
    LineCommentPayloadOf(Literal("//"), EndOfLine, body, rest);
  }

  /** Without a line terminator before the end of the input, `//` starts no comment. */
  lemma LineCommentUnterminated(body: string)
    requires NoLineEnd(body)
    ensures SingleLineComment("//" + body).Failure?
  {
    var t := "//" + body;
    LiteralMatchesPrefix("//", t);
    assert t[..2] == "//";
    assert t[2..] == body;
    EndOfLineActs();
    TillNoLineEnd(EndOfLine, body);
    LineCommentOfAt(Literal("//"), LineBody, t);
  }

  // ---------------------------------------------------------------------
  // String literals
  // ---------------------------------------------------------------------

  /** Neither a quote nor a backslash in `b`. */
  predicate Plain(b: string) {
    forall i :: 0 <= i < |b| ==> b[i] != '"' && b[i] != '\\'
  }

  /** Each scalar as a one-scalar piece. */
  function Singles(b: string): (r: seq<seq<char>>)
    ensures |r| == |b|
    ensures forall k :: 0 <= k < |b| ==> r[k] == [b[k]]
  {
    if b == [] then [] else [[b[0]]] + Singles(b[1..])
  }

  lemma {:induction false} ConcatSingles(b: string)
    ensures Concat(Singles(b)) == b
  {
    if b != [] {
      ConcatSingles(b[1..]);
      assert [b[0]] + b[1..] == b;
    }
  }

  /** `p` behaves as the piece parser of `string` on every input. */
  ghost predicate ActsAsPiece(p: Parser<seq<char>>) {
    forall t {:trigger p(t)} :: p(t) == PieceTable(t)
  }

  lemma StringPieceActs()
    ensures ActsAsPiece(StringPiece)
  {
    forall t ensures StringPiece(t) == PieceTable(t) {
      StringPieceCases(t);
    }
  }

  /** `q` behaves as `literal("\"")`: it matches exactly a leading quote. */
  ghost predicate ActsAsQuote(q: Parser<seq<char>>) {
    forall t {:trigger q(t)} :: q(t) == if |t| > 0 && t[0] == '"' then Success(t[1..], "\"") else Failure(t, NotSatisfied)
  }

  lemma QuoteActs()
    ensures ActsAsQuote(Quote)
  {
    forall t ensures Quote(t) == if |t| > 0 && t[0] == '"' then Success(t[1..], "\"") else Failure(t, NotSatisfied) {
      LiteralMatchesPrefix("\"", t);
      if |t| > 0 && t[0] == '"' {
        assert t[..1] == "\"";
      }
    }
  }

  /** One scalar that is neither a quote nor a backslash. */
  predicate PlainScalar(x: string) {
    |x| == 1 && x[0] != '"' && x[0] != '\\'
  }

  /**
   * One piece of a string body as written: an escaped backslash, an escaped
   * quote, or one scalar that is neither a quote nor a backslash.
   */
  predicate Piece(x: string) {
    x == "\\\\" || x == "\\\"" || PlainScalar(x)
  }

  /**
   * A string body cut into the pieces the piece parser reads: each is a
   * piece, or a lone backslash followed by a plain scalar (as in `\n`,
   * `\t` or `\(`), which `anyChar` reads as one scalar of its own.
   */
  predicate Pieces(ps: seq<string>) {
    forall k :: 0 <= k < |ps| ==> PieceOf(ps, k)
  }

  /** Element `k` is a piece, or a lone backslash with a plain scalar after it. */
  predicate PieceOf(ps: seq<string>, k: nat)
    requires k < |ps|
  {
    Piece(ps[k]) || (ps[k] == "\\" && k + 1 < |ps| && PlainScalar(ps[k + 1]))
  }

  lemma PlainIsPieces(b: string)
    requires Plain(b)
    ensures Pieces(Singles(b))
  {
    forall k | 0 <= k < |b|
      ensures PieceOf(Singles(b), k)
    {
      assert PlainScalar(Singles(b)[k]);
    }
  }

  /** The piece parser reads the first piece of a body back as written. */
  lemma PieceAt(p: Parser<seq<char>>, x: string, u: string)
    requires ActsAsPiece(p) && Piece(x)
    ensures p(x + u) == Success(u, x)
  {
    var s := x + u;
    assert s[0] == x[0];
    if |x| == 2 {
      assert s[1] == x[1] && s[2..] == u;
    } else {
      assert s[1..] == u && [s[0]] == x;
    }
  }

  /** A backslash in front of a plain scalar is read as one scalar of its own. */
  lemma LoneBackslashAt(p: Parser<seq<char>>, u: string)
    requires ActsAsPiece(p) && |u| > 0 && u[0] != '"' && u[0] != '\\'
    ensures p("\\" + u) == Success(u, "\\")
  {
    var s := "\\" + u;
    assert s[0] == '\\' && s[1] == u[0] && s[1..] == u;
  }

  /** What follows the first piece of a body of pieces is again a body of pieces. */
  lemma PiecesTail(ps: seq<string>)
    requires ps != [] && Pieces(ps)
    ensures Pieces(ps[1..])
  {
    forall k | 0 <= k < |ps[1..]|
      ensures PieceOf(ps[1..], k)
    {
      assert PieceOf(ps, k + 1);
      assert ps[1..][k] == ps[k + 1];
      if k + 1 < |ps[1..]| {
        assert ps[1..][k + 1] == ps[k + 2];
      }
    }
  }

  /** The piece parser reads the first piece of a body of pieces back as written. */
  lemma FirstPieceAt(p: Parser<seq<char>>, ps: seq<string>, rest: string)
    requires ActsAsPiece(p) && ps != [] && Pieces(ps)
    ensures var u := Concat(ps[1..]) + "\"" + rest;
            p(ps[0] + u) == Success(u, ps[0]) && ps[0] != [] && ps[0][0] != '"'
  {
    var u := Concat(ps[1..]) + "\"" + rest;
    assert PieceOf(ps, 0);
    if Piece(ps[0]) {
      PieceAt(p, ps[0], u);
    } else {
      assert ps[1..][0] == ps[1] && PlainScalar(ps[1]);
      assert u[0] == ps[1][0];
      LoneBackslashAt(p, u);
    }
  }

  /** A body of pieces is read piece by piece, each as written, up to the closing quote. */
  lemma {:induction false} PiecesChain(p: Parser<seq<char>>, q: Parser<seq<char>>, ps: seq<string>, rest: string)
    requires ActsAsPiece(p) && ActsAsQuote(q) && Pieces(ps)
    ensures TillChain(p, q, Concat(ps) + "\"" + rest, ps, rest)
    decreases |ps|
  {
    var s := Concat(ps) + "\"" + rest;
    if ps == [] {
      assert s == "\"" + rest;
    } else {
      var u := Concat(ps[1..]) + "\"" + rest;
      assert s == ps[0] + u;
      FirstPieceAt(p, ps, rest);
      assert s[0] == ps[0][0];
      PiecesTail(ps);
      PiecesChain(p, q, ps[1..], rest);
    }
  }

  /** The shape of `string`: after the delimiter, the concatenated pieces up to the next delimiter. */
  lemma StringOfAt(delimiter: Parser<seq<char>>, inner: Parser<seq<char>>, t: seq<char>)
    requires Suffixing(delimiter) && Suffixing(inner)
    ensures delimiter(t).Success? && ManyTillAt(inner, delimiter, delimiter(t).rest).Success? ==>
              var m := ManyTillAt(inner, delimiter, delimiter(t).rest);
              StringOf(delimiter, inner)(t) == Success(m.rest, StringLiteral(Concat(m.value)))
  {
  }

  /** A body of pieces and the closing quote: the pieces as written, the quote consumed. */
  lemma PiecesBody(q: Parser<seq<char>>, p: Parser<seq<char>>, ps: seq<string>, rest: string)
    requires Suffixing(q) && Suffixing(p) && ActsAsQuote(q) && ActsAsPiece(p) && Pieces(ps)
    ensures ManyTillAt(p, q, Concat(ps) + "\"" + rest) == Success(rest, ps)
  {
    PiecesChain(p, q, ps, rest);
    ManyTillIffChain(p, q, Concat(ps) + "\"" + rest, ps, rest);
  }

  lemma OpeningQuote(q: Parser<seq<char>>, u: string)
    requires ActsAsQuote(q)
    ensures q("\"" + u) == Success(u, "\"")
  {
    assert ("\"" + u)[1..] == u;
  }

  /** The same for any delimiter and piece parser that behave as those of `string`. */
  lemma StringPiecesOf(q: Parser<seq<char>>, p: Parser<seq<char>>, ps: seq<string>, rest: string)
    requires Suffixing(q) && Suffixing(p) && ActsAsQuote(q) && ActsAsPiece(p) && Pieces(ps)
    ensures StringOf(q, p)("\"" + Concat(ps) + "\"" + rest) == Success(rest, StringLiteral(Concat(ps)))
  {
    var b := Concat(ps);
    var u := b + "\"" + rest;
    assert "\"" + b + "\"" + rest == "\"" + u by {
      AppendAssoc("\"", b, "\"");
      AppendAssoc("\"", b + "\"", rest);
    }
    OpeningQuote(q, u);
    PiecesBody(q, p, ps, rest);
    StringOfAt(q, p, "\"" + u);
  }

  /**
   * A quote, a body of pieces and a quote: the body, escapes kept as
   * written, without the quotes.
   */
  lemma StringPieces(ps: seq<string>, rest: string)
    requires Pieces(ps)
    ensures StringToken("\"" + Concat(ps) + "\"" + rest) == Success(rest, StringLiteral(Concat(ps)))
  {
    QuoteActs();
    StringPieceActs();
    StringPiecesOf(Quote, StringPiece, ps, rest);
  }

  /** A quote, a plain body and a quote: the body, without the quotes. */
  lemma StringPlain(b: string, rest: string)
    requires Plain(b)
    ensures StringToken("\"" + b + "\"" + rest) == Success(rest, StringLiteral(b))
  {
    PlainIsPieces(b);
    ConcatSingles(b);
    StringPieces(Singles(b), rest);
  }

  // ---------------------------------------------------------------------
  // Block comments
  // ---------------------------------------------------------------------

  /**
   * `p` behaves as `literal(e)` for a two-scalar `e`: it succeeds exactly on
   * inputs that start with `e`, consuming it and returning it, and it returns.
   */
  ghost predicate ActsAsPair(p: Parser<seq<char>>, e: seq<char>)
    requires |e| == 2
  {
    forall t {:trigger p(t)} ::
      && (p(t).Success? <==> |t| > 1 && t[0] == e[0] && t[1] == e[1])
      && (p(t).Success? ==> p(t) == Success(t[2..], e))
      && !p(t).Diverged?
  }

  lemma LiteralActsAsPair(e: seq<char>)
    requires |e| == 2
    ensures ActsAsPair(Literal(e), e)
  {
    forall t
      ensures (Literal(e)(t).Success? <==> |t| > 1 && t[0] == e[0] && t[1] == e[1])
      ensures Literal(e)(t).Success? ==> Literal(e)(t) == Success(t[2..], e)
    {
      LiteralMatchesPrefix(e, t);
      TwoPrefix(t, e);
    }
  }

  /** Neither a slash nor a star in `x`: no comment delimiter can start in it. */
  predicate NoDelimiter(x: string) {
    forall i :: 0 <= i < |x| ==> x[i] != '/' && x[i] != '*'
  }

  /** The scalars `a`, `b` spell a comment delimiter: slash-star or star-slash. */
  predicate Delimits(a: char, b: char) {
    (a == '/' && b == '*') || (a == '*' && b == '/')
  }

  /** `u` starts with a comment delimiter. */
  predicate StartsDelimiter(u: string) {
    |u| > 1 && Delimits(u[0], u[1])
  }

  /** No comment delimiter starts anywhere in `x`. */
  predicate DelimiterFree(x: string) {
    forall i :: 0 <= i < |x| - 1 ==> !Delimits(x[i], x[i + 1])
  }

  /** The terminator of an inner run fails wherever no delimiter starts, and at the end. */
  lemma StopFails(open: Parser<seq<char>>, close: Parser<seq<char>>, u: string)
    requires ActsAsPair(open, "/*") && ActsAsPair(close, "*/")
    requires !StartsDelimiter(u)
    ensures BalancedStop(open, close)(u).Failure?
  {
    assert !open(u).Success? && !close(u).Success?;
  }

  /** In front of a delimiter the terminator matches without consuming. */
  lemma StopMatches(open: Parser<seq<char>>, close: Parser<seq<char>>, d: string, u: string)
    requires ActsAsPair(open, "/*") && ActsAsPair(close, "*/")
    requires d == "/*" || d == "*/"
    ensures BalancedStop(open, close)(d + u) == Success(d + u, ())
  {
    var s := d + u;
    assert s[0] == d[0] && s[1] == d[1];
    if d == "/*" {
      assert open(s).Success?;
    } else {
      assert !open(s).Success? && close(s).Success?;
    }
  }

  /** An inner run of delimiter-free scalars stops in front of the next delimiter. */
  lemma PlainRun(open: Parser<seq<char>>, close: Parser<seq<char>>, x: string, d: string, u: string)
    requires Suffixing(open) && Suffixing(close)
    requires ActsAsPair(open, "/*") && ActsAsPair(close, "*/") && NoDelimiter(x)
    requires d == "/*" || d == "*/"
    ensures ManyTillAt(AnyChar, BalancedStop(open, close), x + (d + u)) == Success(d + u, x)
  {
    var stop := BalancedStop(open, close);
    var s := x + (d + u);
    forall j | 0 <= j < |x|
      ensures stop(s[j..]).Failure?
    {
      assert s[j..][0] == x[j];
      StopFails(open, close, s[j..]);
    }
    assert s[|x|..] == d + u;
    assert s[..|x|] == x;
    StopMatches(open, close, d, u);
    ManyTillAnyCharStops(stop, s, |x|);
  }

  /** Without any delimiter the inner run runs off the end of the input. */
  lemma PlainRunsOut(open: Parser<seq<char>>, close: Parser<seq<char>>, y: string)
    requires Suffixing(open) && Suffixing(close)
    requires ActsAsPair(open, "/*") && ActsAsPair(close, "*/") && NoDelimiter(y)
    ensures ManyTillAt(AnyChar, BalancedStop(open, close), y).Failure?
  {
    var stop := BalancedStop(open, close);
    forall j | 0 <= j <= |y|
      ensures stop(y[j..]).Failure?
    {
      if j < |y| {
        assert y[j..][0] == y[j];
      }
      StopFails(open, close, y[j..]);
    }
    ManyTillAnyCharRunsOut(stop, y);
  }

  /** After an opener, delimiter-free text with no closer: `recur()` fails. */
  lemma PlainRestFails(open: Parser<seq<char>>, close: Parser<seq<char>>, y: string)
    requires Suffixing(open) && Suffixing(close)
    requires ActsAsPair(open, "/*") && ActsAsPair(close, "*/") && NoDelimiter(y)
    ensures BalancedRest(AnyChar, open, close, y).Failure?
  {
    assert !open(y).Success? && !close(y).Success?;
    PlainRunsOut(open, close, y);
  }

  /** An opener whose group never closes: `recur()` calls itself on the same input. */
  lemma ReopenDiverges(open: Parser<seq<char>>, close: Parser<seq<char>>, y: string)
    requires Suffixing(open) && Suffixing(close)
    requires ActsAsPair(open, "/*") && ActsAsPair(close, "*/") && NoDelimiter(y)
    ensures BalancedRest(AnyChar, open, close, "/*" + y).Diverged?
  {
    var s := "/*" + y;
    assert s[0] == '/' && s[1] == '*' && s[2..] == y;
    assert open(s) == Success(y, "/*");
    assert !close(s).Success?;
    PlainRestFails(open, close, y);
    BalancedRestNeverFailsAtOpen(AnyChar, open, close, s);
  }

  /** A closer ends `recur()` at once. */
  lemma CloseAt(open: Parser<seq<char>>, close: Parser<seq<char>>, t: string)
    requires Suffixing(open) && Suffixing(close)
    requires ActsAsPair(open, "/*") && ActsAsPair(close, "*/")
    ensures BalancedRest(AnyChar, open, close, "*/" + t) == Success(t, [Close("*/")])
  {
    var v := "*/" + t;
    assert v[0] == '*' && v[1] == '/' && v[2..] == t;
  }

  /** Delimiter-free text, then an opener whose group never closes: divergence. */
  lemma InnerThenDiverges(open: Parser<seq<char>>, close: Parser<seq<char>>, x: string, y: string)
    requires Suffixing(open) && Suffixing(close)
    requires ActsAsPair(open, "/*") && ActsAsPair(close, "*/") && NoDelimiter(x) && x != [] && NoDelimiter(y)
    ensures BalancedRest(AnyChar, open, close, x + ("/*" + y)).Diverged?
  {
    var s := x + ("/*" + y);
    assert s[0] == x[0];
    assert !open(s).Success? && !close(s).Success?;
    PlainRun(open, close, x, "/*", y);
    ReopenDiverges(open, close, y);
  }

  lemma OpenerAt(open: Parser<seq<char>>, u: string)
    requires ActsAsPair(open, "/*")
    ensures open("/*" + u) == Success(u, "/*")
  {
    var s := "/*" + u;
    assert s[0] == '/' && s[1] == '*' && s[2..] == u;
  }

  /** An opener, a delimiter-free run, and a second opener that is never closed: divergence. */
  lemma CommentGroupUnclosedOf(open: Parser<seq<char>>, close: Parser<seq<char>>, x: string, y: string)
    requires Suffixing(open) && Suffixing(close)
    requires ActsAsPair(open, "/*") && ActsAsPair(close, "*/") && NoDelimiter(x) && NoDelimiter(y)
    ensures BalancedAt(AnyChar, open, close, "/*" + (x + ("/*" + y))).Diverged?
  {
    OpenerAt(open, x + ("/*" + y));
    if x == [] {
      assert x + ("/*" + y) == "/*" + y;
      ReopenDiverges(open, close, y);
    } else {
      InnerThenDiverges(open, close, x, y);
    }
  }

  lemma BlockText(x: string, u: string, t: string)
    ensures "/*" + x + u + t == "/*" + (x + (u + t))
  {
  }

  /**
   * Slash-star, "a", slash-star, "b": an opener inside a comment that is
   * never closed makes `balanced`, and so the block-comment parser, run
   * forever.
   */
  lemma BlockCommentUnclosed(x: string, y: string)
    requires NoDelimiter(x) && NoDelimiter(y)
    ensures MultiLineComment("/*" + x + "/*" + y).Diverged?
  {
    BlockText(x, "/*", y);
    LiteralActsAsPair("/*");
    LiteralActsAsPair("*/");
    CommentGroupUnclosedOf(Literal("/*"), Literal("*/"), x, y);
  }

  // ---------------------------------------------------------------------
  // One token, and whole tokenizations
  // ---------------------------------------------------------------------

  /** `comment <|> string <|> text`, for any comment and string parsers. */
  function Alternatives(comment: Parser<Token>, str: Parser<Token>): (r: Parser<Token>)
    requires Suffixing(comment) && Suffixing(str)
    ensures Suffixing(r)
  {
    OrElse(comment, OrElse(str, TextBefore(LookAhead(OrElse(comment, str)))))
  }

  lemma NextTokenIsAlternatives()
    ensures NextToken == DiscardLeft(SkipSpaces, Alternatives(CommentToken, StringToken))
  {
  }

  /** No parser in `p`'s place ever yields a text token. */
  ghost predicate NeverText(p: Parser<Token>) {
    forall u {:trigger p(u)} :: p(u).Success? ==> !p(u).value.Text?
  }

  lemma OrElseNeverText(p: Parser<Token>, q: Parser<Token>)
    requires NeverText(p) && NeverText(q)
    ensures NeverText(OrElse(p, q))
  {
  }

  lemma LineCommentOfNeverText(start: Parser<seq<char>>, body: Parser<seq<char>>)
    requires Suffixing(start) && Suffixing(body)
    ensures NeverText(LineCommentOf(start, body))
  {
    forall u | LineCommentOf(start, body)(u).Success?
      ensures LineCommentOf(start, body)(u).value.Comment?
    {
      LineCommentOfAt(start, body, u);
    }
  }

  lemma PrintedCommentNeverText(group: Parser<seq<Nested<seq<char>, seq<char>, seq<char>>>>)
    requires Suffixing(group)
    ensures NeverText(PrintedComment(group))
  {
  }

  lemma StringOfNeverText(delimiter: Parser<seq<char>>, inner: Parser<seq<char>>)
    requires Suffixing(delimiter) && Suffixing(inner)
    ensures NeverText(StringOf(delimiter, inner))
  {
  }

  lemma CommentNeverText()
    ensures NeverText(CommentToken)
  {
    LineCommentOfNeverText(Literal("//"), LineBody);
    PrintedCommentNeverText(CommentGroup);
    OrElseNeverText(SingleLineComment, MultiLineComment);
  }

  lemma StringNeverText()
    ensures NeverText(StringToken)
  {
    StringOfNeverText(Quote, StringPiece);
  }

  /**
   * A text token comes out of the third alternative only after both others
   * failed; its look-ahead then fails at the start, so at least one scalar
   * is taken: text tokens are never empty.
   */
  lemma AlternativesTextNonEmpty(comment: Parser<Token>, str: Parser<Token>, s: seq<char>)
    requires Suffixing(comment) && Suffixing(str) && NeverText(comment) && NeverText(str)
    ensures var r := Alternatives(comment, str)(s);
            r.Success? && r.value.Text? ==> |r.value.text| > 0
  {
    var r := Alternatives(comment, str)(s);
    if r.Success? && r.value.Text? {
      var ahead := LookAhead(OrElse(comment, str));
      assert comment(s).Failure? && str(s).Failure?;
      assert ahead(s).Failure?;
      var m := ManyTillAt(AnyChar, ahead, s);
      assert r == Success(m.rest, Text(m.value));
      ManyTillIffChain(AnyChar, ahead, s, m.value, m.rest);
    }
  }

  /** Every text token that `tokens` takes holds at least one scalar. */
  lemma TextTokenNonEmpty(s: seq<char>)
    ensures NextToken(s).Success? && NextToken(s).value.Text? ==> |NextToken(s).value.text| > 0
  {
    NextTokenIsAlternatives();
    CommentNeverText();
    StringNeverText();
    SkipSpacesHalts();
    AlternativesTextNonEmpty(CommentToken, StringToken, SkipSpaces(s).rest);
  }

  /** Where no whitespace starts, `skipSpaces` consumes nothing. */
  lemma SkipSpacesAtNonSpace(s: seq<char>)
    requires s == [] || !IsSpace(s[0])
    ensures SkipSpaces(s) == Success(s, ())
  {
    SkipSpacesDrops(s);
  }

  /** The block-comment parser fails wherever its opener does. */
  lemma PrintedBalancedFails(open: Parser<seq<char>>, close: Parser<seq<char>>, s: seq<char>)
    requires Suffixing(open) && Suffixing(close) && open(s).Failure?
    ensures PrintedComment(Balanced(AnyChar, open, close))(s).Failure?
  {
  }

  /** No comment starts anywhere but at a slash. */
  lemma CommentNeedsSlash(s: seq<char>)
    requires s == [] || s[0] != '/'
    ensures CommentToken(s).Failure?
  {
    LiteralMatchesPrefix("//", s);
    LiteralMatchesPrefix("/*", s);
    if |s| >= 2 {
      assert s[..2][0] == s[0];
    }
    LineCommentOfAt(Literal("//"), LineBody, s);
    PrintedBalancedFails(Literal("/*"), Literal("*/"), s);
  }

  /** At slash-star the line-comment alternative fails and the block comment decides. */
  lemma CommentAtBlock(s: seq<char>)
    requires |s| > 1 && s[0] == '/' && s[1] == '*'
    ensures CommentToken(s) == MultiLineComment(s)
  {
    LiteralMatchesPrefix("//", s);
    assert s[..2][1] == s[1];
    LineCommentOfAt(Literal("//"), LineBody, s);
  }

  /** No string literal starts anywhere but at a quote. */
  lemma StringNeedsQuote(s: seq<char>)
    requires s == [] || s[0] != '"'
    ensures StringToken(s).Failure?
  {
    QuoteActs();
  }

  /** The alternatives all fail at the end of the input once the first two do. */
  lemma AlternativesFailAtEnd(comment: Parser<Token>, str: Parser<Token>)
    requires Suffixing(comment) && Suffixing(str) && comment([]).Failure? && str([]).Failure?
    ensures Alternatives(comment, str)([]).Failure?
  {
    var ahead := LookAhead(OrElse(comment, str));
    assert ahead([]).Failure?;
    assert ManyTillRev(AnyChar, ahead, []).Failure?;
  }

  /** `skipSpaces *> p` is `p` where no whitespace starts. */
  lemma AfterNoSpace<T>(p: Parser<T>, s: seq<char>)
    requires s == [] || !IsSpace(s[0])
    ensures DiscardLeft(SkipSpaces, p)(s) == p(s)
  {
    SkipSpacesAtNonSpace(s);
  }

  /** At the end of the input there is no next token. */
  lemma NoTokenAtEnd()
    ensures NextToken([]).Failure?
  {
    CommentNeedsSlash([]);
    StringNeedsQuote([]);
    AlternativesFailAtEnd(CommentToken, StringToken);
    AfterNoSpace(Alternatives(CommentToken, StringToken), []);
    NextTokenIsAlternatives();
  }

  lemma NextTokenSuffixing()
    ensures Suffixing(NextToken)
  {
  }

  /** `many(p)` over an input that one match of `p` consumes entirely. */
  lemma ManyOnce<T>(p: Parser<T>, s: seq<char>, x: T)
    requires Suffixing(p) && s != [] && p(s) == Success([], x) && p([]).Failure?
    ensures ManyAt(p, s) == Success([], [x])
  {
    assert ManyAt(p, []) == Success([], []);
    assert [x] + [] == [x];
    assert Many1At(p, s) == Success([], [x]);
  }

  /** What `tokenize` makes of that: the one token, and no remainder. */
  lemma CollectOnce(p: Parser<Token>, s: seq<char>, tok: Token)
    requires Suffixing(p) && s != [] && p(s) == Success([], tok) && p([]).Failure?
    ensures Collect(ManyAt(p, s)) == Halts([tok])
  {
    ManyOnce(p, s, tok);
    assert [tok] + [] == [tok];
  }

  /** `many(p)` never returns when its first match never does. */
  lemma ManyDivergesFirst<T>(p: Parser<T>, s: seq<char>)
    requires Suffixing(p) && p(s).Diverged?
    ensures ManyAt(p, s).Diverged?
  {
    assert Many1At(p, s).Diverged?;
  }

  /** An input that is exactly one token tokenizes to that token alone. */
  lemma TokenizeOne(s: seq<char>, tok: Token)
    requires s != [] && NextToken(s) == Success([], tok)
    ensures Tokenize(s) == Halts([tok])
  {
    NextTokenSuffixing();
    NoTokenAtEnd();
    CollectOnce(NextToken, s, tok);
    assert Tokenize(s) == Collect(ManyAt(NextToken, s));
  }

  /** When the first token never returns, neither does `tokenize`. */
  lemma TokenizeDiverges(s: seq<char>)
    requires NextToken(s).Diverged?
    ensures Tokenize(s) == Diverges
  {
    NextTokenSuffixing();
    ManyDivergesFirst(NextToken, s);
    assert Tokens(s) == ManyAt(NextToken, s);
  }

  lemma AlternativesFirst(comment: Parser<Token>, str: Parser<Token>, s: seq<char>)
    requires Suffixing(comment) && Suffixing(str) && !comment(s).Failure?
    ensures Alternatives(comment, str)(s) == comment(s)
  {
  }

  lemma AlternativesSecond(comment: Parser<Token>, str: Parser<Token>, s: seq<char>)
    requires Suffixing(comment) && Suffixing(str) && comment(s).Failure? && !str(s).Failure?
    ensures Alternatives(comment, str)(s) == str(s)
  {
  }

  /** The next token where no whitespace starts and a comment does. */
  lemma NextTokenIsComment(s: seq<char>)
    requires s != [] && !IsSpace(s[0]) && !CommentToken(s).Failure?
    ensures NextToken(s) == CommentToken(s)
  {
    AfterNoSpace(Alternatives(CommentToken, StringToken), s);
    AlternativesFirst(CommentToken, StringToken, s);
    NextTokenIsAlternatives();
  }

  /** A block comment that is the whole input is the whole first comment. */
  lemma CommentAtBlockWhole(x: string, tok: Token)
    requires MultiLineComment("/*" + x + "*/") == Success([], tok)
    ensures CommentToken("/*" + x + "*/") == Success([], tok)
  {
    var s := "/*" + x + "*/";
    assert s[0] == '/' && s[1] == '*';
    CommentAtBlock(s);
  }

  /** A block comment that is the whole input is one whole token. */
  lemma NextTokenAtBlock(x: string, tok: Token)
    requires CommentToken("/*" + x + "*/") == Success([], tok)
    ensures NextToken("/*" + x + "*/") == Success([], tok)
  {
    var s := "/*" + x + "*/";
    assert s[0] == '/';
    NextTokenIsComment(s);
  }

  /** The next token where no whitespace and no comment starts but a string does. */
  lemma NextTokenIsString(s: seq<char>)
    requires s != [] && !IsSpace(s[0]) && CommentToken(s).Failure? && !StringToken(s).Failure?
    ensures NextToken(s) == StringToken(s)
  {
    AfterNoSpace(Alternatives(CommentToken, StringToken), s);
    AlternativesSecond(CommentToken, StringToken, s);
    NextTokenIsAlternatives();
  }

  /** A quoted body of pieces and nothing after it: the string literal, and no remainder. */
  lemma StringPiecesWhole(ps: seq<string>)
    requires Pieces(ps)
    ensures StringToken("\"" + Concat(ps) + "\"") == Success([], StringLiteral(Concat(ps)))
  {
    var s := "\"" + Concat(ps) + "\"";
    assert s + [] == s;
    StringPieces(ps, []);
  }

  lemma QuoteStartsNoComment(s: seq<char>)
    requires s != [] && s[0] == '"'
    ensures !IsSpace(s[0]) && CommentToken(s).Failure?
  {
    CommentNeedsSlash(s);
  }

  /** A quoted text that is one whole string literal is one whole token. */
  lemma NextTokenQuoted(b: string, tok: Token)
    requires StringToken("\"" + b + "\"") == Success([], tok)
    ensures NextToken("\"" + b + "\"") == Success([], tok)
  {
    var s := "\"" + b + "\"";
    QuoteStartsNoComment(s);
    NextTokenIsString(s);
  }

  lemma NextTokenString(ps: seq<string>)
    requires Pieces(ps)
    ensures NextToken("\"" + Concat(ps) + "\"") == Success([], StringLiteral(Concat(ps)))
  {
    StringPiecesWhole(ps);
    NextTokenQuoted(Concat(ps), StringLiteral(Concat(ps)));
  }

  /** A quoted body of pieces, escapes included: one string literal holding the body as written. */
  lemma TokenizeStringPieces(ps: seq<string>)
    requires Pieces(ps)
    ensures Tokenize("\"" + Concat(ps) + "\"") == Halts([StringLiteral(Concat(ps))])
  {
    NextTokenString(ps);
    TokenizeOne("\"" + Concat(ps) + "\"", StringLiteral(Concat(ps)));
  }

  /** A quoted plain text: one string literal holding the text between the quotes. */
  lemma TokenizeString(b: string)
    requires Plain(b)
    ensures Tokenize("\"" + b + "\"") == Halts([StringLiteral(b)])
  {
    PlainIsPieces(b);
    ConcatSingles(b);
    TokenizeStringPieces(Singles(b));
  }

  lemma CommentLineWhole(body: string)
    requires NoLineEnd(body)
    ensures CommentToken("//" + body + "\n") == Success([], Comment("//" + body))
  {
    var s := "//" + body + "\n";
    LineCommentPayload(body, "\n");
    assert LineEndTable("\n").rest == [];
  }

  lemma NextTokenLineComment(body: string)
    requires NoLineEnd(body)
    ensures NextToken("//" + body + "\n") == Success([], Comment("//" + body))
  {
    CommentLineWhole(body);
    NextTokenIsComment("//" + body + "\n");
  }

  /** A line comment ended by a line feed: one comment token, without the line feed. */
  lemma TokenizeLineComment(body: string)
    requires NoLineEnd(body)
    ensures Tokenize("//" + body + "\n") == Halts([Comment("//" + body)])
  {
    NextTokenLineComment(body);
    TokenizeOne("//" + body + "\n", Comment("//" + body));
  }

  // The string and line-comment scenarios of the tokenizer's tests, input for input.

  lemma StringExampleFacts()
    ensures Plain("some string")
    ensures "\"" + "some string" + "\"" == "\"some string\""
  {
  }

  lemma TokenizeStringExample()
    ensures Tokenize("\"some string\"") == Halts([StringLiteral("some string")])
  {
    StringExampleFacts();
    TokenizeString("some string");
  }

  /** An escaped line feed, an escaped quote and an escaped backslash, each kept as written. */
  lemma EscapesExampleFacts()
    ensures Pieces(["a", "\\", "n", "\\\"", "b", "\\\\"])
    ensures Concat(["a", "\\", "n", "\\\"", "b", "\\\\"]) == "a\\n\\\"b\\\\"
    ensures "\"" + "a\\n\\\"b\\\\" + "\"" == "\"a\\n\\\"b\\\\\""
  {
    var ps := ["a", "\\", "n", "\\\"", "b", "\\\\"];
    assert PlainScalar(ps[0]) && PlainScalar(ps[2]) && PlainScalar(ps[4]);
    assert Piece(ps[0]) && Piece(ps[2]) && Piece(ps[3]) && Piece(ps[4]) && Piece(ps[5]);
    assert PieceOf(ps, 0) && PieceOf(ps, 1) && PieceOf(ps, 2) && PieceOf(ps, 3) && PieceOf(ps, 4) && PieceOf(ps, 5);
    assert Concat(ps) == "a" + Concat(ps[1..]);
    assert Concat(ps[1..]) == "\\" + Concat(ps[2..]);
    assert Concat(ps[2..]) == "n" + Concat(ps[3..]);
    assert Concat(ps[3..]) == "\\\"" + Concat(ps[4..]);
    assert Concat(ps[4..]) == "b" + Concat(ps[5..]);
    assert Concat(ps[5..]) == "\\\\" + Concat(ps[6..]);
  }

  lemma TokenizeEscapesExample()
    ensures Tokenize("\"a\\n\\\"b\\\\\"") == Halts([StringLiteral("a\\n\\\"b\\\\")])
  {
    EscapesExampleFacts();
    TokenizeStringPieces(["a", "\\", "n", "\\\"", "b", "\\\\"]);
  }

  lemma LineCommentExampleFacts()
    ensures NoLineEnd("/ Some comment")
    ensures "//" + "/ Some comment" == "/// Some comment"
    ensures "//" + "/ Some comment" + "\n" == "/// Some comment" + "\n"
  {
  }

  lemma TokenizeLineCommentExample()
    ensures Tokenize("/// Some comment" + "\n") == Halts([Comment("/// Some comment")])
  {
    LineCommentExampleFacts();
    TokenizeLineComment("/ Some comment");
  }

  lemma NextTokenUnclosedNested(x: string, y: string)
    requires NoDelimiter(x) && NoDelimiter(y)
    ensures NextToken("/*" + x + "/*" + y).Diverged?
  {
    var s := "/*" + x + "/*" + y;
    BlockCommentUnclosed(x, y);
    CommentAtBlock(s);
    NextTokenIsComment(s);
  }

  /** An unclosed nested opener inside a block comment: `tokenize` never returns. */
  lemma TokenizeUnclosedNested(x: string, y: string)
    requires NoDelimiter(x) && NoDelimiter(y)
    ensures Tokenize("/*" + x + "/*" + y) == Diverges
  {
    NextTokenUnclosedNested(x, y);
    TokenizeDiverges("/*" + x + "/*" + y);
  }
}
