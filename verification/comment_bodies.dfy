/**
 * Nested block comments. A comment body is a sequence of delimiter-free
 * runs of text and of nested groups, each group itself a body between
 * slash-star and star-slash. For every such body, `balanced` reads the
 * whole group back as the flat trace of its pieces, and `tokenize` returns
 * the comment, delimiters and nested groups included, as one token.
 */
module CommentBodies {
  import opened Parsing
  import opened ParsingLaws
  import opened Tokenizer
  import opened TokenizeLaws
  import opened TokenizeCases

  /** The inside of a block comment, its opening and closing delimiters left out. */
  datatype Body =
    | End
    | Run(text: string, next: Body)
    | Group(inner: Body, next: Body)

  /** The text of a body as it appears in the source. */
  function Print(b: Body): string {
    match b
    case End => []
    case Run(x, n) => x + Print(n)
    case Group(i, n) => "/*" + Print(i) + "*/" + Print(n)
  }

  /** The trace `balanced` is meant to produce for a body, the final close left out. */
  function Trace(b: Body): seq<Nested<seq<char>, seq<char>, seq<char>>> {
    match b
    case End => []
    case Run(x, n) => [Inner(x)] + Trace(n)
    case Group(i, n) => [Open("/*")] + Trace(i) + [Close("*/")] + Trace(n)
  }

  /** The scalar that follows a run inside its group: an opener's slash, or the closer's star. */
  function Follower(n: Body): char {
    if n.Group? then '/' else '*'
  }

  /**
   * A body the parser reads piece for piece: every run is non-empty, is not
   * followed by another run, and no delimiter starts in it, not even one
   * that ends on the scalar after it.
   */
  predicate WellFormed(b: Body) {
    match b
    case End => true
    case Run(x, n) => x != [] && !n.Run? && DelimiterFree(x + [Follower(n)]) && WellFormed(n)
    case Group(i, n) => WellFormed(i) && WellFormed(n)
  }

  // ---------------------------------------------------------------------
  // `balanced` on a well-formed body
  // ---------------------------------------------------------------------

  /** In front of a delimiter the terminator of an inner run matches without consuming. */
  lemma StopAt(open: Parser<seq<char>>, close: Parser<seq<char>>, v: string)
    requires ActsAsPair(open, "/*") && ActsAsPair(close, "*/") && StartsDelimiter(v)
    ensures BalancedStop(open, close)(v) == Success(v, ())
  {
    if v[0] == '/' {
      assert open(v).Success?;
    } else {
      assert !open(v).Success? && close(v).Success?;
    }
  }

  /** A delimiter-free run reads up to the delimiter that follows it. */
  lemma RunAt(open: Parser<seq<char>>, close: Parser<seq<char>>, x: string, v: string)
    requires Suffixing(open) && Suffixing(close)
    requires ActsAsPair(open, "/*") && ActsAsPair(close, "*/")
    requires StartsDelimiter(v) && DelimiterFree(x + [v[0]])
    ensures ManyTillAt(AnyChar, BalancedStop(open, close), x + v) == Success(v, x)
  {
    var stop := BalancedStop(open, close);
    var s := x + v;
    var w := x + [v[0]];
    forall j | 0 <= j < |x|
      ensures stop(s[j..]).Failure?
    {
      assert s[j..][0] == w[j] && s[j..][1] == w[j + 1];
      StopFails(open, close, s[j..]);
    }
    assert s[|x|..] == v;
    assert s[..|x|] == x;
    StopAt(open, close, v);
    ManyTillAnyCharStops(stop, s, |x|);
  }

  /** What follows a run in a well-formed body starts with a delimiter, led by the follower. */
  lemma AfterRun(n: Body, t: string)
    requires !n.Run?
    ensures var v := Print(n) + ("*/" + t);
            StartsDelimiter(v) && v[0] == Follower(n)
  {
    if n.Group? {
      assert Print(n) + ("*/" + t) == "/*" + (Print(n.inner) + "*/" + Print(n.next) + ("*/" + t));
    }
  }

  lemma RunText(x: string, p: string, t: string)
    ensures (x + p) + ("*/" + t) == x + (p + ("*/" + t))
  {
  }

  lemma GroupText(pi: string, pn: string, t: string)
    ensures "/*" + pi + "*/" + pn + ("*/" + t) == "/*" + (pi + ("*/" + (pn + ("*/" + t))))
  {
  }

  lemma RunTrace(x: string, tn: seq<Nested<seq<char>, seq<char>, seq<char>>>, c: Nested<seq<char>, seq<char>, seq<char>>)
    ensures [Inner(x)] + (tn + [c]) == [Inner(x)] + tn + [c]
  {
  }

  lemma GroupTrace(ti: seq<Nested<seq<char>, seq<char>, seq<char>>>, tn: seq<Nested<seq<char>, seq<char>, seq<char>>>,
                   o: Nested<seq<char>, seq<char>, seq<char>>, c: Nested<seq<char>, seq<char>, seq<char>>)
    ensures [o] + (ti + [c]) + (tn + [c]) == [o] + ti + [c] + tn + [c]
  {
  }

  /** Neither delimiter at `s`, an inner run up to `m`, and a successful `recur()` there. */
  lemma InnerAccepted(open: Parser<seq<char>>, close: Parser<seq<char>>, s: string, m: string, x: string, t: string,
                      z: seq<Nested<seq<char>, seq<char>, seq<char>>>)
    requires Suffixing(open) && Suffixing(close)
    requires open(s).Failure? && close(s).Failure?
    requires ManyTillAt(AnyChar, BalancedStop(open, close), s) == Success(m, x) && |m| < |s|
    requires BalancedRest(AnyChar, open, close, m) == Success(t, z)
    ensures BalancedRest(AnyChar, open, close, s) == Success(t, [Inner(x)] + z)
  {
  }

  /** Neither delimiter starts at a non-empty delimiter-free run. */
  lemma RunStartsNoDelimiter(open: Parser<seq<char>>, close: Parser<seq<char>>, x: string, v: string)
    requires ActsAsPair(open, "/*") && ActsAsPair(close, "*/")
    requires x != [] && v != [] && DelimiterFree(x + [v[0]])
    ensures open(x + v).Failure? && close(x + v).Failure?
  {
    var s := x + v;
    var w := x + [v[0]];
    assert s[0] == w[0] && s[1] == w[1];
  }

  /** A run, then the rest of the body: the inner alternative of `recur()`. */
  lemma RunAccepted(open: Parser<seq<char>>, close: Parser<seq<char>>, x: string, n: Body, t: string)
    requires Suffixing(open) && Suffixing(close)
    requires ActsAsPair(open, "/*") && ActsAsPair(close, "*/")
    requires WellFormed(Run(x, n))
    requires BalancedRest(AnyChar, open, close, Print(n) + ("*/" + t)) == Success(t, Trace(n) + [Close("*/")])
    ensures BalancedRest(AnyChar, open, close, x + (Print(n) + ("*/" + t)))
              == Success(t, [Inner(x)] + (Trace(n) + [Close("*/")]))
  {
    var v := Print(n) + ("*/" + t);
    AfterRun(n, t);
    RunStartsNoDelimiter(open, close, x, v);
    RunAt(open, close, x, v);
    InnerAccepted(open, close, x + v, v, x, t, Trace(n) + [Close("*/")]);
  }

  /** At an opener, the opener matches and the closer fails. */
  lemma AtOpener(open: Parser<seq<char>>, close: Parser<seq<char>>, u: string)
    requires ActsAsPair(open, "/*") && ActsAsPair(close, "*/")
    ensures open("/*" + u) == Success(u, "/*") && close("/*" + u).Failure?
  {
    OpenerAt(open, u);
    assert ("/*" + u)[0] == '/';
  }

  /** An opener, then two successful calls of `recur()`: the open alternative of `recur()`. */
  lemma OpenAccepted(open: Parser<seq<char>>, close: Parser<seq<char>>, s: string, u: string, m: string, t: string,
                     a: seq<Nested<seq<char>, seq<char>, seq<char>>>, z: seq<Nested<seq<char>, seq<char>, seq<char>>>)
    requires Suffixing(open) && Suffixing(close)
    requires open(s) == Success(u, "/*") && close(s).Failure? && |u| < |s|
    requires BalancedRest(AnyChar, open, close, u) == Success(m, a)
    requires BalancedRest(AnyChar, open, close, m) == Success(t, z)
    ensures BalancedRest(AnyChar, open, close, s) == Success(t, [Open("/*")] + a + z)
  {
    OpenCaseShape(AnyChar, open, close, s);
  }

  /**
   * `recur()` on a well-formed body followed by the closer: it succeeds,
   * consumes exactly the body and the closer, and returns the body's trace
   * and the close.
   */
  lemma {:induction false} BodyAccepted(open: Parser<seq<char>>, close: Parser<seq<char>>, b: Body, t: string)
    requires Suffixing(open) && Suffixing(close)
    requires ActsAsPair(open, "/*") && ActsAsPair(close, "*/")
    requires WellFormed(b)
    ensures BalancedRest(AnyChar, open, close, Print(b) + ("*/" + t)) == Success(t, Trace(b) + [Close("*/")])
    decreases b
  {
    match b
    case End =>
      assert Print(b) + ("*/" + t) == "*/" + t;
      assert Trace(b) + [Close("*/")] == [Close("*/")];
      CloseAt(open, close, t);
    case Run(x, n) =>
      BodyAccepted(open, close, n, t);
      RunAccepted(open, close, x, n, t);
      RunText(x, Print(n), t);
      RunTrace(x, Trace(n), Close("*/"));
    case Group(i, n) =>
      BodyAccepted(open, close, i, Print(n) + ("*/" + t));
      BodyAccepted(open, close, n, t);
      var u := Print(i) + ("*/" + (Print(n) + ("*/" + t)));
      AtOpener(open, close, u);
      OpenAccepted(open, close, "/*" + u, u, Print(n) + ("*/" + t), t,
                   Trace(i) + [Close("*/")], Trace(n) + [Close("*/")]);
      GroupText(Print(i), Print(n), t);
      GroupTrace(Trace(i), Trace(n), Open("/*"), Close("*/"));
  }

  /** `balanced` on an opener, a well-formed body and a closer: the group's trace. */
  lemma GroupAccepted(open: Parser<seq<char>>, close: Parser<seq<char>>, b: Body, t: string)
    requires Suffixing(open) && Suffixing(close)
    requires ActsAsPair(open, "/*") && ActsAsPair(close, "*/")
    requires WellFormed(b)
    ensures BalancedAt(AnyChar, open, close, "/*" + (Print(b) + ("*/" + t)))
              == Success(t, [Open("/*")] + (Trace(b) + [Close("*/")]))
  {
    OpenerAt(open, Print(b) + ("*/" + t));
    BodyAccepted(open, close, b, t);
  }

  /** The trace of a body prints back to the body. */
  lemma {:induction false} UnparseTrace(b: Body)
    ensures Unparse(Trace(b)) == Print(b)
    decreases b
  {
    match b
    case End =>
    case Run(x, n) =>
      UnparseTrace(n);
      UnparseAppend([Inner(x)], Trace(n));
      assert Unparse([Inner(x)]) == x;
    case Group(i, n) =>
      UnparseTrace(i);
      UnparseTrace(n);
      var o: seq<Nested<seq<char>, seq<char>, seq<char>>> := [Open("/*")];
      var c: seq<Nested<seq<char>, seq<char>, seq<char>>> := [Close("*/")];
      UnparseAppend(o, Trace(i));
      UnparseAppend(o + Trace(i), c);
      UnparseAppend(o + Trace(i) + c, Trace(n));
      assert Unparse(o) == "/*";
      assert Unparse(c) == "*/";
  }

  lemma UnparseGroup(b: Body)
    ensures Unparse([Open("/*")] + (Trace(b) + [Close("*/")])) == "/*" + Print(b) + "*/"
  {
    var o: seq<Nested<seq<char>, seq<char>, seq<char>>> := [Open("/*")];
    var c: seq<Nested<seq<char>, seq<char>, seq<char>>> := [Close("*/")];
    UnparseTrace(b);
    UnparseAppend(Trace(b), c);
    UnparseAppend(o, Trace(b) + c);
    assert Unparse(o) == "/*";
    assert Unparse(c) == "*/";
  }

  /** The same for any delimiter parsers that behave as `literal("/*")` and `literal("*/")`. */
  lemma BlockCommentOf(open: Parser<seq<char>>, close: Parser<seq<char>>, b: Body, t: string)
    requires Suffixing(open) && Suffixing(close)
    requires ActsAsPair(open, "/*") && ActsAsPair(close, "*/")
    requires WellFormed(b)
    ensures PrintedComment(Balanced(AnyChar, open, close))("/*" + (Print(b) + ("*/" + t)))
              == Success(t, Comment("/*" + Print(b) + "*/"))
  {
    GroupAccepted(open, close, b, t);
    UnparseGroup(b);
  }

  /**
   * A block comment with a well-formed body, nested groups included: one
   * comment holding its whole text, delimiters included; what follows is
   * left.
   */
  lemma BlockComment(b: Body, t: string)
    requires WellFormed(b)
    ensures MultiLineComment("/*" + Print(b) + "*/" + t) == Success(t, Comment("/*" + Print(b) + "*/"))
  {
    BlockText(Print(b), "*/", t);
    LiteralActsAsPair("/*");
    LiteralActsAsPair("*/");
    BlockCommentOf(Literal("/*"), Literal("*/"), b, t);
  }

  // ---------------------------------------------------------------------
  // Whole tokenizations
  // ---------------------------------------------------------------------

  lemma BlockCommentWhole(b: Body)
    requires WellFormed(b)
    ensures MultiLineComment("/*" + Print(b) + "*/") == Success([], Comment("/*" + Print(b) + "*/"))
  {
    var s := "/*" + Print(b) + "*/";
    assert s + [] == s;
    BlockComment(b, []);
  }

  lemma CommentBlockWhole(b: Body)
    requires WellFormed(b)
    ensures CommentToken("/*" + Print(b) + "*/") == Success([], Comment("/*" + Print(b) + "*/"))
  {
    BlockCommentWhole(b);
    CommentAtBlockWhole(Print(b), Comment("/*" + Print(b) + "*/"));
  }

  lemma NextTokenBlockComment(b: Body)
    requires WellFormed(b)
    ensures NextToken("/*" + Print(b) + "*/") == Success([], Comment("/*" + Print(b) + "*/"))
  {
    CommentBlockWhole(b);
    NextTokenAtBlock(Print(b), Comment("/*" + Print(b) + "*/"));
  }

  /** A block comment with a well-formed body: one comment token with the whole text. */
  lemma TokenizeBlockComment(b: Body)
    requires WellFormed(b)
    ensures Tokenize("/*" + Print(b) + "*/") == Halts([Comment("/*" + Print(b) + "*/")])
  {
    NextTokenBlockComment(b);
    TokenizeOne("/*" + Print(b) + "*/", Comment("/*" + Print(b) + "*/"));
  }

  // ---------------------------------------------------------------------
  // Shapes of the tokenizer's own scenarios
  // ---------------------------------------------------------------------

  /** A run of text in front of `n`, or just `n` when the text is empty. */
  function Chunk(x: string, n: Body): (b: Body)
    ensures Print(b) == x + Print(n)
  {
    if x == [] then (assert x + Print(n) == Print(n); n) else Run(x, n)
  }

  lemma ChunkWellFormed(x: string, n: Body)
    requires !n.Run? && WellFormed(n) && DelimiterFree(x + [Follower(n)])
    ensures WellFormed(Chunk(x, n))
  {
  }

  /**
   * A block comment without nesting, possibly empty: the whole text is one
   * comment. No delimiter may start in the text, and it may not end in a
   * slash, which would open a group with the closer's star.
   */
  lemma TokenizeSimpleComment(x: string)
    requires DelimiterFree(x + ['*'])
    ensures Tokenize("/*" + x + "*/") == Halts([Comment("/*" + x + "*/")])
  {
    ChunkWellFormed(x, End);
    assert Print(Chunk(x, End)) == x;
    TokenizeBlockComment(Chunk(x, End));
  }

  /** The same at the level of the block-comment parser, with what follows left over. */
  lemma BlockCommentSimple(x: string, t: string)
    requires DelimiterFree(x + ['*'])
    ensures MultiLineComment("/*" + x + "*/" + t) == Success(t, Comment("/*" + x + "*/"))
  {
    ChunkWellFormed(x, End);
    assert Print(Chunk(x, End)) == x;
    BlockComment(Chunk(x, End), t);
  }

  lemma NestedOnceText(x: string, y: string, z: string)
    ensures "/*" + (x + ("/*" + (y + []) + "*/" + (z + []))) + "*/" == "/*" + x + "/*" + y + "*/" + z + "*/"
  {
    assert y + [] == y && z + [] == z;
  }

  /** Text, one nested group, text: one comment with the whole text. */
  lemma TokenizeNestedOnce(x: string, y: string, z: string)
    requires DelimiterFree(x + ['/']) && DelimiterFree(y + ['*']) && DelimiterFree(z + ['*'])
    ensures var c := "/*" + x + "/*" + y + "*/" + z + "*/";
            Tokenize(c) == Halts([Comment(c)])
  {
    var g := Group(Chunk(y, End), Chunk(z, End));
    ChunkWellFormed(y, End);
    ChunkWellFormed(z, End);
    ChunkWellFormed(x, g);
    var b := Chunk(x, g);
    assert Print(g) == "/*" + (y + []) + "*/" + (z + []);
    assert Print(b) == x + ("/*" + (y + []) + "*/" + (z + []));
    NestedOnceText(x, y, z);
    TokenizeBlockComment(b);
  }

  lemma SiblingsText(x: string, y: string, z: string, w: string)
    ensures "/*" + (x + ("/*" + (y + []) + "*/" + (z + ("/*" + (w + []) + "*/" + [])))) + "*/"
            == "/*" + x + "/*" + y + "*/" + z + "/*" + w + "*/" + "*/"
  {
    assert y + [] == y && w + [] == w;
    assert "/*" + (w + []) + "*/" + [] == "/*" + w + "*/";
  }

  /** Text, then two nested groups side by side with text between them: one comment. */
  lemma TokenizeSiblings(x: string, y: string, z: string, w: string)
    requires DelimiterFree(x + ['/']) && DelimiterFree(y + ['*']) && DelimiterFree(z + ['/']) && DelimiterFree(w + ['*'])
    ensures var c := "/*" + x + "/*" + y + "*/" + z + "/*" + w + "*/" + "*/";
            Tokenize(c) == Halts([Comment(c)])
  {
    var second := Group(Chunk(w, End), End);
    ChunkWellFormed(w, End);
    ChunkWellFormed(z, second);
    var first := Group(Chunk(y, End), Chunk(z, second));
    ChunkWellFormed(y, End);
    ChunkWellFormed(x, first);
    var b := Chunk(x, first);
    assert Print(second) == "/*" + (w + []) + "*/" + [];
    assert Print(first) == "/*" + (y + []) + "*/" + (z + Print(second));
    SiblingsText(x, y, z, w);
    TokenizeBlockComment(b);
  }

  /** Text, a group nested in a group, text after each: one comment with the whole text. */
  lemma TokenizeNestedTwice(x: string, y: string, z: string, w: string, v: string)
    requires DelimiterFree(x + ['/']) && DelimiterFree(y + ['/']) && DelimiterFree(z + ['*'])
    requires DelimiterFree(w + ['*']) && DelimiterFree(v + ['*'])
    ensures var c := "/*" + x + "/*" + y + "/*" + z + "*/" + w + "*/" + v + "*/";
            Tokenize(c) == Halts([Comment(c)])
  {
    var deep := Group(Chunk(z, End), Chunk(w, End));
    ChunkWellFormed(z, End);
    ChunkWellFormed(w, End);
    ChunkWellFormed(y, deep);
    var middle := Group(Chunk(y, deep), Chunk(v, End));
    ChunkWellFormed(v, End);
    ChunkWellFormed(x, middle);
    var b := Chunk(x, middle);
    assert Print(deep) == "/*" + (z + []) + "*/" + (w + []);
    assert Print(middle) == "/*" + (y + Print(deep)) + "*/" + (v + []);
    NestedTwiceText(x, y, z, w, v);
    TokenizeBlockComment(b);
  }

  lemma NestedTwiceText(x: string, y: string, z: string, w: string, v: string)
    ensures "/*" + (x + ("/*" + (y + ("/*" + (z + []) + "*/" + (w + []))) + "*/" + (v + []))) + "*/"
            == "/*" + x + "/*" + y + "/*" + z + "*/" + w + "*/" + v + "*/"
  {
    assert z + [] == z && w + [] == w && v + [] == v;
  }

  // The four block-comment scenarios of the tokenizer's tests, input for input.

  lemma SimpleExampleFacts()
    ensures DelimiterFree(" Some comment " + ['*'])
    ensures "/*" + " Some comment " + "*/" == "/* Some comment */"
  {
  }

  lemma TokenizeSimpleExample()
    ensures Tokenize("/* Some comment */") == Halts([Comment("/* Some comment */")])
  {
    SimpleExampleFacts();
    TokenizeSimpleComment(" Some comment ");
  }

  lemma NestedExampleFacts()
    ensures DelimiterFree(" Some " + ['/']) && DelimiterFree(" nested " + ['*']) && DelimiterFree(" comment " + ['*'])
  {
  }

  lemma NestedExampleText()
    ensures "/*" + " Some " + "/*" + " nested " + "*/" + " comment " + "*/" == "/* Some /* nested */ comment */"
  {
    assert "/*" + " Some " + "/*" + " nested " == "/* Some /* nested ";
  }

  lemma TokenizeNestedExample()
    ensures Tokenize("/* Some /* nested */ comment */") == Halts([Comment("/* Some /* nested */ comment */")])
  {
    NestedExampleFacts();
    TokenizeNestedOnce(" Some ", " nested ", " comment ");
    NestedExampleText();
  }

  lemma DeepExampleFacts()
    ensures DelimiterFree("p1" + ['/']) && DelimiterFree("p2" + ['/']) && DelimiterFree("p3t3" + ['*'])
    ensures DelimiterFree("t2" + ['*']) && DelimiterFree("t1" + ['*'])
  {
  }

  lemma DeepExampleText()
    ensures "/*" + "p1" + "/*" + "p2" + "/*" + "p3t3" + "*/" + "t2" + "*/" + "t1" + "*/" == "/*p1/*p2/*p3t3*/t2*/t1*/"
  {
    assert "/*" + "p1" + "/*" + "p2" + "/*" == "/*p1/*p2/*";
  }

  lemma TokenizeDeepExample()
    ensures Tokenize("/*p1/*p2/*p3t3*/t2*/t1*/") == Halts([Comment("/*p1/*p2/*p3t3*/t2*/t1*/")])
  {
    DeepExampleFacts();
    TokenizeNestedTwice("p1", "p2", "p3t3", "t2", "t1");
    DeepExampleText();
  }

  lemma SiblingsExampleFacts()
    ensures DelimiterFree(" Beginning " + ['/']) && DelimiterFree(" nested " + ['*'])
    ensures DelimiterFree(" " + ['/']) && DelimiterFree(" nested 2 " + ['*'])
  {
  }

  lemma SiblingsExampleText()
    ensures "/*" + " Beginning " + "/*" + " nested " + "*/" + " " + "/*" + " nested 2 " + "*/" + "*/"
            == "/* Beginning /* nested */ /* nested 2 */*/"
  {
    var a := "/*" + " Beginning " + "/*" + " nested ";
    assert a == "/* Beginning /* nested ";
    var d := a + "*/" + " " + "/*";
    assert d == "/* Beginning /* nested */ /*";
  }

  lemma TokenizeSiblingsExample()
    ensures Tokenize("/* Beginning /* nested */ /* nested 2 */*/")
              == Halts([Comment("/* Beginning /* nested */ /* nested 2 */*/")])
  {
    SiblingsExampleFacts();
    TokenizeSiblings(" Beginning ", " nested ", " ", " nested 2 ");
    SiblingsExampleText();
  }
}
