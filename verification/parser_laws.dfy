/**
 * Properties of the parser-combinator engine: the algebra of `pure` and
 * `>>-`, what the primitive parsers accept, and what the repetition
 * combinators return.
 */
module ParsingLaws {
  import opened Parsing

  // ---------------------------------------------------------------------
  // pure and bind
  // ---------------------------------------------------------------------

  /** `pure(v) >>- f` behaves as `f(v)`. */
  lemma BindPureLeft<T, U>(v: T, f: T -> Parser<U>, s: seq<char>)
    ensures Bind(Pure(v), f)(s) == f(v)(s)
  {
  }

  /** `p >>- pure` behaves as `p`. */
  lemma BindPureRight<T>(p: Parser<T>, s: seq<char>)
    ensures Bind(p, Pure)(s) == p(s)
  {
  }

  /** Bind keeps the suffix invariant when both stages keep it. */
  lemma BindSuffixing<T(!new), U>(p: Parser<T>, f: T -> Parser<U>)
    requires Suffixing(p)
    requires forall x :: Suffixing(f(x))
    ensures Suffixing(Bind(p, f))
  {
    forall s | Bind(p, f)(s).Success?
      ensures IsSuffix(Bind(p, f)(s).rest, s)
    {
      var mid := p(s).rest;
      assert IsSuffix(mid, s);
      assert Suffixing(f(p(s).value));
      assert IsSuffix(f(p(s).value)(mid).rest, mid);
    }
  }

  // ---------------------------------------------------------------------
  // Sequence helpers
  // ---------------------------------------------------------------------

  lemma AppendAssoc<T>(x: seq<T>, y: seq<T>, z: seq<T>)
    ensures (x + y) + z == x + (y + z)
  {
  }

  lemma TakeDrop<T>(u: seq<T>, k: nat)
    requires k <= |u|
    ensures u[..k] + u[k..] == u
  {
  }

  // ---------------------------------------------------------------------
  // literal and endOfLine
  // ---------------------------------------------------------------------

  /** `e` is a prefix of `s` exactly when its tail is a prefix of the tail of `s`. */
  lemma PrefixStep(e: seq<char>, s: seq<char>)
    requires |e| > 0
    ensures (|e| <= |s| && s[..|e|] == e) <==>
            (|s| > 0 && s[0] == e[0] && |e| - 1 <= |s| - 1 && s[1..][..|e| - 1] == e[1..])
    ensures |e| <= |s| ==> s[1..][|e| - 1..] == s[|e|..]
  {
    if |s| > 0 && s[0] == e[0] && |e| - 1 <= |s| - 1 && s[1..][..|e| - 1] == e[1..] {
      assert s[..|e|] == [s[0]] + s[1..][..|e| - 1];
      assert e == [e[0]] + e[1..];
    }
    if |e| <= |s| && s[..|e|] == e {
      assert s[1..][..|e| - 1] == s[..|e|][1..];
    }
  }

  lemma SuffixOfItself(s: seq<char>)
    ensures IsSuffix(s, s)
  {
  }

  lemma SuffixOfTail(r: seq<char>, s: seq<char>)
    requires |s| > 0 && IsSuffix(r, s[1..])
    ensures IsSuffix(r, s)
  {
  }

  /**
   * `literal(e)` succeeds exactly when the input starts with `e`; it then
   * returns `e` and the input after it.  It never returns an error other
   * than the primitive one, and an empty literal always succeeds.
   */
  lemma LiteralMatchesPrefix(e: seq<char>, s: seq<char>)
    ensures Literal(e)(s).Success? <==> |e| <= |s| && s[..|e|] == e
    ensures Literal(e)(s).Success? ==> Literal(e)(s) == Success(s[|e|..], e)
    ensures Literal(e)(s).Failure? ==>
              Literal(e)(s).msg == NotSatisfied && IsSuffix(Literal(e)(s).rest, s)
  {
  }

  /** What a parser of a non-empty literal does after checking the first scalar. */
  function LiteralStep(e: seq<char>, s: seq<char>, tailResult: Result<seq<char>>): Result<seq<char>>
    requires |e| > 0
  {
    if |s| > 0 && s[0] == e[0] then
      match tailResult
      case Success(rest, _) => Success(rest, e)
      case Failure(rest, msg) => Failure(rest, msg)
      case Diverged => Diverged
    else Failure(s, NotSatisfied)
  }

  /** `char(e[0]) *> tail *> pure(e)`, for any parser `tail` of the rest of the literal. */
  lemma ChainStepAt(e: seq<char>, tail: Parser<seq<char>>, s: seq<char>)
    requires |e| > 0
    ensures |s| > 0 ==> DiscardLeft(DiscardLeft(Char(e[0]), tail), Pure(e))(s) == LiteralStep(e, s, tail(s[1..]))
    ensures |s| == 0 ==> DiscardLeft(DiscardLeft(Char(e[0]), tail), Pure(e))(s) == Failure(s, NotSatisfied)
  {
    var first := DiscardLeft(Char(e[0]), tail);
    if |s| > 0 && s[0] == e[0] {
      assert first(s) == tail(s[1..]);
    } else {
      assert first(s) == Failure(s, NotSatisfied);
    }
  }

  /** One unfolding of the chain: `char(head)`, then the chain of the tail, then `pure(e)`. */
  lemma ChainUnfolds(e: seq<char>, s: seq<char>)
    requires |e| > 0
    ensures |s| > 0 ==> LiteralChain(e)(s) == LiteralStep(e, s, LiteralChain(e[1..])(s[1..]))
    ensures |s| == 0 ==> LiteralChain(e)(s) == Failure(s, NotSatisfied)
  {
    assert LiteralChain(e) == DiscardLeft(DiscardLeft(Char(e[0]), LiteralChain(e[1..])), Pure(e));
    ChainStepAt(e, LiteralChain(e[1..]), s);
  }

  /** The direct definition takes the same step. */
  lemma LiteralUnfolds(e: seq<char>, s: seq<char>)
    requires |e| > 0 && |s| > 0
    ensures Literal(e)(s) == LiteralStep(e, s, Literal(e[1..])(s[1..]))
  {
    PrefixStep(e, s);
    if s[0] == e[0] && !Literal(e[1..])(s[1..]).Success? {
      var m := MatchLen(e[1..], s[1..]);
      assert MatchLen(e, s) == 1 + m;
      assert s[1..][m..] == s[1 + m..];
    }
  }

  /**
   * `literal(e)` is the source's chain `char(head) *> literal(tail) *> pure(e)`:
   * the same outcome on every input, including where a mismatch leaves it.
   */
  lemma {:induction false} LiteralIsChain(e: seq<char>, s: seq<char>)
    ensures Literal(e)(s) == LiteralChain(e)(s)
    decreases |e|
  {
    if |e| > 0 {
      ChainUnfolds(e, s);
      if |s| > 0 {
        LiteralUnfolds(e, s);
        LiteralIsChain(e[1..], s[1..]);
      }
    } else {
      assert s[..0] == e;
    }
  }

  /**
   * What `endOfLine` is meant to do, case by case: a line feed gives "\n" and
   * consumes one scalar, a CRLF pair gives "\r\n" (not normalised) and
   * consumes two, a lone carriage return gives "\n" and consumes one, and
   * anything else fails without consuming.
   */
  function LineEndTable(s: seq<char>): Result<seq<char>> {
    if |s| > 0 && s[0] == '\n' then Success(s[1..], "\n")
    else if |s| > 1 && s[0] == '\r' && s[1] == '\n' then Success(s[2..], "\r\n")
    else if |s| > 0 && s[0] == '\r' then Success(s[1..], "\n")
    else Failure(s, NotSatisfied)
  }

  /** The last two alternatives of `endOfLine`: CRLF, then a lone CR. */
  lemma CarriageReturnCases(s: seq<char>)
    requires !(|s| > 0 && s[0] == '\n')
    ensures OrElse(Literal("\r\n"), DiscardLeft(Char('\r'), Pure("\n")))(s) == LineEndTable(s)
  {
    var crlf := Literal("\r\n");
    var cr := DiscardLeft(Char('\r'), Pure("\n"));
    LiteralMatchesPrefix("\r\n", s);
    CrLfPrefix(s);
    if |s| > 1 && s[0] == '\r' && s[1] == '\n' {
      assert crlf(s) == Success(s[2..], "\r\n");
    } else {
      assert crlf(s).Failure?;
      if |s| > 0 && s[0] == '\r' {
        assert Char('\r')(s) == Success(s[1..], '\r');
        assert cr(s) == Success(s[1..], "\n");
      } else {
        assert Char('\r')(s) == Failure(s, NotSatisfied);
        assert cr(s) == Failure(s, NotSatisfied);
      }
    }
  }

  /** `endOfLine` agrees with the table above on every input. */
  lemma EndOfLineCases(s: seq<char>)
    ensures EndOfLine(s) == LineEndTable(s)
  {
    var lf := DiscardLeft(Char('\n'), Pure("\n"));
    var rest := OrElse(Literal("\r\n"), DiscardLeft(Char('\r'), Pure("\n")));
    assert EndOfLine == OrElse(lf, rest);
    if |s| > 0 && s[0] == '\n' {
      assert Char('\n')(s) == Success(s[1..], '\n');
      assert lf(s) == Success(s[1..], "\n");
    } else {
      assert Char('\n')(s) == Failure(s, NotSatisfied);
      assert lf(s) == Failure(s, NotSatisfied);
      CarriageReturnCases(s);
      assert EndOfLine(s) == rest(s);
    }
  }

  lemma CrLfPrefix(s: seq<char>)
    ensures (2 <= |s| && s[..2] == "\r\n") <==> (|s| > 1 && s[0] == '\r' && s[1] == '\n')
  {
    if |s| > 1 && s[0] == '\r' && s[1] == '\n' {
      assert s[..2] == [s[0], s[1]];
    }
  }

  // ---------------------------------------------------------------------
  // many and skipMany
  // ---------------------------------------------------------------------

  /**
   * A reference reading of `many(p)` on `s`: `xs` are the values of
   * successive matches of `p`, each of which consumes input, and `p` fails
   * where the last match left off, at `rest`.
   */
  ghost predicate ManyChain<T>(p: Parser<T>, s: seq<char>, xs: seq<T>, rest: seq<char>)
    decreases |xs|
  {
    if xs == [] then rest == s && p(s).Failure?
    else p(s).Success? && |p(s).rest| < |s| && p(s).value == xs[0]
         && ManyChain(p, p(s).rest, xs[1..], rest)
  }

  /** Every success of `many(p)` is such a chain. */
  lemma {:induction false} ManySuccessIsChain<T>(p: Parser<T>, s: seq<char>)
    requires Suffixing(p)
    ensures ManyAt(p, s).Success? ==> ManyChain(p, s, ManyAt(p, s).value, ManyAt(p, s).rest)
    decreases |s|
  {
    if ManyAt(p, s).Success? && p(s).Success? {
      assert Many1At(p, s).Success?;
      assert |p(s).rest| < |s|;
      var tail := ManyAt(p, p(s).rest);
      assert tail.Success?;
      assert ManyAt(p, s) == Success(tail.rest, [p(s).value] + tail.value);
      ManySuccessIsChain(p, p(s).rest);
      assert ManyAt(p, s).value[1..] == tail.value;
    } else if ManyAt(p, s).Success? {
      assert Many1At(p, s).Failure?;
    }
  }

  /** And every chain is what `many(p)` returns. */
  lemma {:induction false} ChainIsManySuccess<T>(p: Parser<T>, s: seq<char>, xs: seq<T>, rest: seq<char>)
    requires Suffixing(p)
    requires ManyChain(p, s, xs, rest)
    ensures ManyAt(p, s) == Success(rest, xs)
    decreases |xs|
  {
    if xs != [] {
      ChainIsManySuccess(p, p(s).rest, xs[1..], rest);
      assert [xs[0]] + xs[1..] == xs;
    }
  }

  /** When every match of `p` consumes and `p` always returns, so does `many(p)`, and it succeeds. */
  lemma {:induction false} ManyHalts<T>(p: Parser<T>, s: seq<char>)
    requires Consuming(p) && Halting(p)
    ensures ManyAt(p, s).Success?
    decreases |s|
  {
    assert Suffixing(p);
    if p(s).Success? {
      ManyHalts(p, p(s).rest);
    }
  }

  /** A match of `p` that consumes nothing makes `many(p)` run forever. */
  lemma ManyDivergesOnEmptyMatch<T>(p: Parser<T>, s: seq<char>)
    requires Suffixing(p)
    requires p(s).Success? && p(s).rest == s
    ensures ManyAt(p, s).Diverged?
  {
    assert Many1At(p, s).Diverged?;
  }

  /** `skipMany(p)` stops where `many(p)` stops, and runs forever exactly when it does. */
  lemma {:induction false} SkipManyIsMany<T>(p: Parser<T>, s: seq<char>)
    requires Suffixing(p)
    ensures SkipManyAt(p, s).Diverged? <==> ManyAt(p, s).Diverged?
    ensures SkipManyAt(p, s).Success? ==> SkipManyAt(p, s).rest == ManyAt(p, s).rest
    decreases |s|
  {
    if p(s).Success? && |p(s).rest| < |s| {
      SkipManyIsMany(p, p(s).rest);
    }
  }

  // ---------------------------------------------------------------------
  // manyTill
  // ---------------------------------------------------------------------

  lemma ReverseSnoc<T>(ys: seq<T>, x: T)
    ensures Reverse(ys + [x]) == [x] + Reverse(ys)
  {
    assert (ys + [x])[..|ys|] == ys;
  }

  /**
   * A reference reading of `manyTill(p, end)` on `s`: at each position `end`
   * is tried first; while it fails, `p` matches and consumes, contributing the
   * next element of `xs` in input order; `end` finally succeeds, leaving `rest`.
   */
  ghost predicate TillChain<T, E>(p: Parser<T>, end: Parser<E>, s: seq<char>, xs: seq<T>, rest: seq<char>)
    decreases |xs|
  {
    if xs == [] then end(s).Success? && end(s).rest == rest
    else end(s).Failure? && p(s).Success? && |p(s).rest| < |s| && p(s).value == xs[0]
         && TillChain(p, end, p(s).rest, xs[1..], rest)
  }

  lemma {:induction false} TillRevIsChain<T, E>(p: Parser<T>, end: Parser<E>, s: seq<char>)
    requires Suffixing(p) && Suffixing(end)
    ensures ManyTillRev(p, end, s).Success? ==>
              TillChain(p, end, s, Reverse(ManyTillRev(p, end, s).value), ManyTillRev(p, end, s).rest)
    decreases |s|
  {
    var r := ManyTillRev(p, end, s);
    if r.Success? && end(s).Failure? {
      var next := ManyTillRev(p, end, p(s).rest);
      TillRevIsChain(p, end, p(s).rest);
      ReverseSnoc(next.value, p(s).value);
    }
  }

  lemma {:induction false} ChainIsTillRev<T, E>(p: Parser<T>, end: Parser<E>, s: seq<char>, xs: seq<T>, rest: seq<char>)
    requires Suffixing(p) && Suffixing(end)
    requires TillChain(p, end, s, xs, rest)
    ensures ManyTillRev(p, end, s).Success?
    ensures ManyTillRev(p, end, s).rest == rest && Reverse(ManyTillRev(p, end, s).value) == xs
    decreases |xs|
  {
    if xs != [] {
      ChainIsTillRev(p, end, p(s).rest, xs[1..], rest);
      var next := ManyTillRev(p, end, p(s).rest);
      ReverseSnoc(next.value, p(s).value);
      assert [xs[0]] + xs[1..] == xs;
    }
  }

  /**
   * `manyTill(p, end)` succeeds with `xs`, leaving `rest`, exactly when the
   * chain above holds: the reversed accumulation and the final reversal
   * together give the matches of `p` in input order.
   */
  lemma ManyTillIffChain<T, E>(p: Parser<T>, end: Parser<E>, s: seq<char>, xs: seq<T>, rest: seq<char>)
    requires Suffixing(p) && Suffixing(end)
    ensures ManyTillAt(p, end, s) == Success(rest, xs) <==> TillChain(p, end, s, xs, rest)
  {
    TillRevIsChain(p, end, s);
    if TillChain(p, end, s, xs, rest) {
      ChainIsTillRev(p, end, s, xs, rest);
    }
  }

  /**
   * `manyTill(anyChar, end)` collects the input scalars up to the first
   * position `k` where `end` succeeds, and leaves what `end` leaves there.
   */
  lemma {:induction false} ManyTillAnyCharStops<E>(end: Parser<E>, s: seq<char>, k: nat)
    requires Suffixing(end)
    requires k <= |s| && end(s[k..]).Success?
    requires forall j :: 0 <= j < k ==> end(s[j..]).Failure?
    ensures ManyTillAt(AnyChar, end, s) == Success(end(s[k..]).rest, s[..k])
  {
    AnyCharChain(end, s, k);
    ManyTillIffChain(AnyChar, end, s, s[..k], end(s[k..]).rest);
  }

  lemma {:induction false} AnyCharChain<E>(end: Parser<E>, s: seq<char>, k: nat)
    requires Suffixing(end)
    requires k <= |s| && end(s[k..]).Success?
    requires forall j :: 0 <= j < k ==> end(s[j..]).Failure?
    ensures TillChain(AnyChar, end, s, s[..k], end(s[k..]).rest)
    decreases k
  {
    if k == 0 {
      assert s[0..] == s;
    } else {
      assert s[0..] == s;
      assert end(s[0..]).Failure?;
      forall j | 0 <= j < k - 1
        ensures end(s[1..][j..]).Failure?
      {
        assert s[1..][j..] == s[j + 1..];
      }
      assert s[1..][k - 1..] == s[k..];
      AnyCharChain(end, s[1..], k - 1);
      assert s[..k][1..] == s[1..][..k - 1];
    }
  }

  /**
   * When `end` fails at every position, including the end of the input,
   * `manyTill(anyChar, end)` runs off the end and fails there.
   */
  lemma {:induction false} ManyTillAnyCharRunsOut<E>(end: Parser<E>, s: seq<char>)
    requires Suffixing(end)
    requires forall j :: 0 <= j <= |s| ==> end(s[j..]).Failure?
    ensures ManyTillAt(AnyChar, end, s) == Failure([], NotSatisfied)
    decreases |s|
  {
    assert s[0..] == s;
    if |s| > 0 {
      forall j | 0 <= j <= |s| - 1
        ensures end(s[1..][j..]).Failure?
      {
        assert s[1..][j..] == s[j + 1..];
      }
      ManyTillAnyCharRunsOut(end, s[1..]);
    }
  }

  // ---------------------------------------------------------------------
  // Termination and consumption through the combinators
  // ---------------------------------------------------------------------

  lemma SuffixTrans(a: seq<char>, b: seq<char>, c: seq<char>)
    requires IsSuffix(a, b) && IsSuffix(b, c)
    ensures IsSuffix(a, c)
  {
    assert c[|c| - |b|..][|b| - |a|..] == c[|c| - |a|..];
  }

  /** A choice between two parsers that always return always returns, and likewise for consumption. */
  lemma OrElseKeeps<T>(p: Parser<T>, q: Parser<T>)
    ensures Halting(p) && Halting(q) ==> Halting(OrElse(p, q))
    ensures Consuming(p) && Consuming(q) ==> Consuming(OrElse(p, q))
  {
    var r := OrElse(p, q);
    if Halting(p) && Halting(q) {
      forall s ensures !r(s).Diverged? {
        assert !p(s).Diverged? && !q(s).Diverged?;
      }
    }
    if Consuming(p) && Consuming(q) {
      forall s | r(s).Success? ensures IsSuffix(r(s).rest, s) && |r(s).rest| < |s| {
        if p(s).Failure? { assert r(s) == q(s); } else { assert r(s) == p(s); }
      }
    }
  }

  /** `p *> q` returns whenever both do; it consumes whenever one consumes and the other keeps to suffixes. */
  lemma DiscardLeftKeeps<T, U>(p: Parser<T>, q: Parser<U>)
    ensures Halting(p) && Halting(q) ==> Halting(DiscardLeft(p, q))
    ensures Consuming(p) && Suffixing(q) ==> Consuming(DiscardLeft(p, q))
    ensures Suffixing(p) && Consuming(q) ==> Consuming(DiscardLeft(p, q))
  {
    var r := DiscardLeft(p, q);
    if Halting(p) && Halting(q) {
      forall s ensures !r(s).Diverged? {
        assert !p(s).Diverged?;
        if p(s).Success? { assert !q(p(s).rest).Diverged?; }
      }
    }
    if (Consuming(p) && Suffixing(q)) || (Suffixing(p) && Consuming(q)) {
      forall s | r(s).Success? ensures IsSuffix(r(s).rest, s) && |r(s).rest| < |s| {
        var mid := p(s).rest;
        assert p(s).Success? && r(s) == q(mid);
        assert IsSuffix(mid, s) && IsSuffix(q(mid).rest, mid);
        SuffixTrans(q(mid).rest, mid, s);
      }
    }
  }

  /** Mapping over a parser's value changes neither termination nor consumption. */
  lemma MapKeeps<T, U>(p: Parser<T>, f: T -> U)
    ensures Halting(p) ==> Halting(Map(p, f))
    ensures Consuming(p) ==> Consuming(Map(p, f))
  {
    var r := Map(p, f);
    if Halting(p) {
      forall s ensures !r(s).Diverged? {
        assert !p(s).Diverged?;
      }
    }
    if Consuming(p) {
      forall s | r(s).Success? ensures IsSuffix(r(s).rest, s) && |r(s).rest| < |s| {
        assert p(s).Success?;
      }
    }
  }

  /** `skipMany(p)` returns whenever `p` always returns and always consumes. */
  lemma {:induction false} SkipManyHalts<T>(p: Parser<T>, s: seq<char>)
    requires Consuming(p) && Halting(p)
    ensures SkipManyAt(p, s).Success?
    decreases |s|
  {
    assert Suffixing(p);
    if p(s).Success? {
      SkipManyHalts(p, p(s).rest);
    }
  }

  /** `manyTill(p, end)` returns whenever `p` always returns and consumes and `end` always returns. */
  lemma {:induction false} ManyTillHalts<T, E>(p: Parser<T>, end: Parser<E>, s: seq<char>)
    requires Consuming(p) && Halting(p) && Suffixing(end) && Halting(end)
    ensures !ManyTillAt(p, end, s).Diverged?
  {
    ManyTillRevHalts(p, end, s);
  }

  lemma {:induction false} ManyTillRevHalts<T, E>(p: Parser<T>, end: Parser<E>, s: seq<char>)
    requires Consuming(p) && Halting(p) && Suffixing(end) && Halting(end)
    ensures !ManyTillRev(p, end, s).Diverged?
    decreases |s|
  {
    assert Suffixing(p);
    assert !end(s).Diverged? && !p(s).Diverged?;
    if end(s).Failure? && p(s).Success? {
      ManyTillRevHalts(p, end, p(s).rest);
    }
  }

  /** `skipSpaces` always returns, and never fails. */
  lemma SkipSpacesHalts()
    ensures Suffixing(SkipSpaces) && Halting(SkipSpaces)
    ensures forall s :: SkipSpaces(s).Success?
  {
    forall s ensures SkipSpaces(s).Success? {
      SkipManyHalts(Space, s);
    }
  }

  /** `s` without its longest prefix of scalars that satisfy `pred`. */
  function DropWhile(pred: char -> bool, s: seq<char>): (r: seq<char>)
    ensures IsSuffix(r, s)
    ensures r == [] || !pred(r[0])
    ensures forall i :: 0 <= i < |s| - |r| ==> pred(s[i])
    decreases |s|
  {
    if s != [] && pred(s[0]) then DropWhile(pred, s[1..]) else s
  }

  /** `skipMany(satisfy(pred))` drops exactly the longest prefix satisfying `pred`, and never fails. */
  lemma {:induction false} SkipManySatisfy(pred: char -> bool, s: seq<char>)
    ensures SkipManyAt(Satisfy(pred), s) == Success(DropWhile(pred, s), ())
    decreases |s|
  {
    if |s| > 0 && pred(s[0]) {
      SkipManySatisfy(pred, s[1..]);
      assert SkipMany1At(Satisfy(pred), s) == SkipManyAt(Satisfy(pred), s[1..]);
    } else {
      assert SkipMany1At(Satisfy(pred), s).Failure?;
    }
  }

  /** `skipSpaces` drops exactly the leading whitespace. */
  lemma SkipSpacesDrops(s: seq<char>)
    ensures SkipSpaces(s) == Success(DropWhile(IsSpace, s), ())
  {
    SkipManySatisfy(IsSpace, s);
  }

  // ---------------------------------------------------------------------
  // balanced
  // ---------------------------------------------------------------------

  /** How far an element moves the nesting depth: +1 for `Open`, -1 for `Close`. */
  function Step<O, I, C>(n: Nested<O, I, C>): int {
    match n
    case Open(_) => 1
    case Inner(_) => 0
    case Close(_) => -1
  }

  /** The nesting depth after a trace: opens minus closes. */
  function Depth<O, I, C>(ns: seq<Nested<O, I, C>>): int {
    if ns == [] then 0 else Depth(ns[..|ns| - 1]) + Step(ns[|ns| - 1])
  }

  /**
   * The trace of `recur()` in `balanced`: it never closes more groups than it
   * opened before its end, and it ends one level below where it started.
   */
  ghost predicate Closes<O, I, C>(ns: seq<Nested<O, I, C>>) {
    Depth(ns) == -1 && forall k :: 0 <= k < |ns| ==> Depth(ns[..k]) >= 0
  }

  lemma {:induction false} DepthAppend<O, I, C>(a: seq<Nested<O, I, C>>, b: seq<Nested<O, I, C>>)
    ensures Depth(a + b) == Depth(a) + Depth(b)
    decreases |b|
  {
    if b == [] {
      assert a + b == a;
    } else {
      var b' := b[..|b| - 1];
      assert (a + b)[..|a + b| - 1] == a + b';
      DepthAppend(a, b');
    }
  }

  lemma PrefixOfAppend<O, I, C>(a: seq<Nested<O, I, C>>, b: seq<Nested<O, I, C>>, k: nat)
    requires k <= |a + b|
    ensures k <= |a| ==> (a + b)[..k] == a[..k]
    ensures k > |a| ==> (a + b)[..k] == a + b[..k - |a|]
  {
  }

  lemma ClosesAppend<O, I, C>(a: seq<Nested<O, I, C>>, t: seq<Nested<O, I, C>>)
    requires Depth(a) == 0 && forall k :: 0 <= k < |a| ==> Depth(a[..k]) >= 0
    requires Closes(t)
    ensures Closes(a + t)
  {
    DepthAppend(a, t);
    forall k | 0 <= k < |a + t| ensures Depth((a + t)[..k]) >= 0 {
      PrefixOfAppend(a, t, k);
      if k > |a| {
        DepthAppend(a, t[..k - |a|]);
      } else if k == |a| {
        assert (a + t)[..k] == a;
      }
    }
  }

  /** An opener, a group that closes it, and a closing trace, together close. */
  lemma ClosesNested<O, I, C>(o: O, i: seq<Nested<O, I, C>>, t: seq<Nested<O, I, C>>)
    requires Closes(i) && Closes(t)
    ensures Closes([Open(o)] + i + t)
  {
    var head: seq<Nested<O, I, C>> := [Open(o)];
    var a := head + i;
    assert head[..0] == [];
    assert head[..|head| - 1] == [];
    DepthAppend(head, i);
    forall k | 0 <= k < |a| ensures Depth(a[..k]) >= 0 {
      PrefixOfAppend(head, i, k);
      if k > 1 {
        DepthAppend(head, i[..k - 1]);
      } else if k == 1 {
        assert a[..k] == head;
      }
    }
    ClosesAppend(a, t);
  }

  lemma ClosesInner<O, I, C>(x: I, t: seq<Nested<O, I, C>>)
    requires Closes(t)
    ensures Closes([Inner(x)] + t)
  {
    var a: seq<Nested<O, I, C>> := [Inner(x)];
    assert a[..0] == [];
    assert a[..|a| - 1] == [];
    ClosesAppend(a, t);
  }

  /** Every trace `recur()` returns closes. */
  lemma {:induction false} BalancedRestCloses<O, T, C>(p: Parser<T>, open: Parser<O>, close: Parser<C>, s: seq<char>)
    requires Suffixing(p) && Suffixing(open) && Suffixing(close)
    ensures BalancedRest(p, open, close, s).Success? ==> Closes(BalancedRest(p, open, close, s).value)
    decreases |s|
  {
    var r := BalancedRest(p, open, close, s);
    if r.Success? {
      if close(s).Success? {
        var one: seq<Nested<O, seq<T>, C>> := [Close(close(s).value)];
        assert one[..0] == [];
        assert one[..|one| - 1] == [];
      } else if open(s).Success? && |open(s).rest| < |s|
                && BalancedRest(p, open, close, open(s).rest).Success?
                && BalancedRest(p, open, close, BalancedRest(p, open, close, open(s).rest).rest).Success? {
        var s1 := open(s).rest;
        var i := BalancedRest(p, open, close, s1);
        var t := BalancedRest(p, open, close, i.rest);
        BalancedRestCloses(p, open, close, s1);
        BalancedRestCloses(p, open, close, i.rest);
        ClosesNested(open(s).value, i.value, t.value);
      } else {
        var m := ManyTillAt(p, BalancedStop(open, close), s);
        assert m.Success? && |m.rest| < |s|;
        BalancedRestCloses(p, open, close, m.rest);
        ClosesInner(m.value, BalancedRest(p, open, close, m.rest).value);
      }
    }
  }

  /**
   * The trace `balanced` returns is well nested: it starts with `Open`, ends
   * with `Close`, every proper non-empty prefix is still inside the outer
   * group, and the whole trace is back at depth zero.
   */
  lemma BalancedWellNested<O, T, C>(p: Parser<T>, open: Parser<O>, close: Parser<C>, s: seq<char>)
    requires Suffixing(p) && Suffixing(open) && Suffixing(close)
    ensures BalancedAt(p, open, close, s).Success? ==>
              var ns := BalancedAt(p, open, close, s).value;
              |ns| >= 2 && ns[0].Open? && ns[|ns| - 1].Close? && Depth(ns) == 0
              && forall k :: 0 < k < |ns| ==> Depth(ns[..k]) > 0
  {
    var r := BalancedAt(p, open, close, s);
    if r.Success? {
      var t := BalancedRest(p, open, close, open(s).rest);
      BalancedRestCloses(p, open, close, open(s).rest);
      var head: seq<Nested<O, seq<T>, C>> := [Open(open(s).value)];
      assert head[..|head| - 1] == [];
      assert r.value == head + t.value;
      DepthAppend(head, t.value);
      assert t.value != [];
      var last := |t.value| - 1;
      assert t.value[..last + 1] == t.value;
      assert Depth(t.value[..last]) >= 0;
      assert t.value[last].Close?;
      forall k | 0 < k < |r.value| ensures Depth(r.value[..k]) > 0 {
        PrefixOfAppend(head, t.value, k);
        if k > 1 {
          DepthAppend(head, t.value[..k - 1]);
        } else {
          assert r.value[..k] == head;
        }
      }
    }
  }

  /**
   * Once `recur()` sees an opener that it cannot close (no closer here, the
   * opener matches and consumes), it never fails: either the nested group
   * completes, or the third alternative consumes nothing (the terminator of
   * its inner run matches the opener at once) and `recur()` calls itself on
   * the same input, which never returns.
   */
  lemma BalancedRestNeverFailsAtOpen<O, T, C>(p: Parser<T>, open: Parser<O>, close: Parser<C>, s: seq<char>)
    requires Suffixing(p) && Suffixing(open) && Suffixing(close)
    requires close(s).Failure? && open(s).Success? && |open(s).rest| < |s|
    ensures !BalancedRest(p, open, close, s).Failure?
    ensures !BalancedRest(p, open, close, open(s).rest).Success? ==> BalancedRest(p, open, close, s).Diverged?
  {
    var stop := BalancedStop(open, close);
    assert MatchAndDiscard(open)(s) == Success(s, ());
    assert stop(s) == Success(s, ());
    assert ManyTillRev(p, stop, s) == Success(s, []);
    assert ManyTillAt(p, stop, s) == Success(s, []);
  }

  /** The text a trace over scalar sequences stands for: its pieces, in order. */
  function Unparse(ns: seq<Nested<seq<char>, seq<char>, seq<char>>>): seq<char> {
    if ns == [] then []
    else
      var piece := match ns[0] case Open(o) => o case Inner(i) => i case Close(c) => c;
      piece + Unparse(ns[1..])
  }

  lemma {:induction false} UnparseAppend(a: seq<Nested<seq<char>, seq<char>, seq<char>>>,
                                         b: seq<Nested<seq<char>, seq<char>, seq<char>>>)
    ensures Unparse(a + b) == Unparse(a) + Unparse(b)
    decreases |a|
  {
    if a != [] {
      assert (a + b)[1..] == a[1..] + b;
      UnparseAppend(a[1..], b);
    } else {
      assert a + b == b;
    }
  }

  /** On success, the value of `p` is the text it consumed. */
  ghost predicate EchoesText(p: Parser<seq<char>>) {
    forall t :: p(t).Success? ==> p(t).value + p(t).rest == t
  }

  /** On success, `p` consumed exactly the one scalar it returns. */
  ghost predicate EchoesChar(p: Parser<char>) {
    forall t :: p(t).Success? ==> [p(t).value] + p(t).rest == t
  }

  lemma LiteralEchoes(e: seq<char>)
    ensures EchoesText(Literal(e))
  {
    LiteralConsumes(e);
  }

  /** On success, `p` returned and consumed exactly `e`. */
  ghost predicate ConsumesExactly(p: Parser<seq<char>>, e: seq<char>) {
    forall t :: p(t).Success? ==> p(t).value == e && e + p(t).rest == t
  }

  lemma LiteralConsumes(e: seq<char>)
    ensures ConsumesExactly(Literal(e), e)
  {
    forall t ensures Literal(e)(t).Success? ==> Literal(e)(t).value == e && e + Literal(e)(t).rest == t {
      LiteralConsumesAt(e, t);
    }
  }

  lemma LiteralConsumesAt(e: seq<char>, t: seq<char>)
    ensures Literal(e)(t).Success? ==> Literal(e)(t).value == e && e + Literal(e)(t).rest == t
  {
    LiteralMatchesPrefix(e, t);
    if Literal(e)(t).Success? {
      TakeDrop(t, |e|);
    }
  }

  lemma AnyCharEchoes()
    ensures EchoesChar(AnyChar)
  {
    forall t | AnyChar(t).Success? ensures [AnyChar(t).value] + AnyChar(t).rest == t {
      assert t == [t[0]] + t[1..];
    }
  }

  /**
   * Scalars collected by `manyTill(p, end)`, when `p` returns the scalar it
   * consumed, are exactly the input in front of the place where `end` matched.
   */
  lemma {:induction false} TillSplit<E>(p: Parser<char>, end: Parser<E>, s: seq<char>, xs: seq<char>, rest: seq<char>)
    requires EchoesChar(p)
    requires TillChain(p, end, s, xs, rest)
    ensures |xs| <= |s| && s[..|xs|] == xs
    ensures end(s[|xs|..]).Success? && end(s[|xs|..]).rest == rest
    decreases |xs|
  {
    if xs == [] {
      assert s[0..] == s;
    } else {
      var u := p(s).rest;
      assert s == [xs[0]] + u;
      TillSplit(p, end, u, xs[1..], rest);
      assert s[|xs|..] == u[|xs| - 1..];
      assert s[..|xs|] == [xs[0]] + u[..|xs| - 1];
    }
  }

  /** The same, stated for `manyTill(p, end)` itself. */
  lemma ManyTillCharSplit<E>(p: Parser<char>, end: Parser<E>, s: seq<char>)
    requires Suffixing(p) && Suffixing(end) && EchoesChar(p)
    ensures var m := ManyTillAt(p, end, s);
            m.Success? ==> |m.value| <= |s| && s[..|m.value|] == m.value
                           && end(s[|m.value|..]).Success? && end(s[|m.value|..]).rest == m.rest
  {
    var m := ManyTillAt(p, end, s);
    if m.Success? {
      ManyTillIffChain(p, end, s, m.value, m.rest);
      TillSplit(p, end, s, m.value, m.rest);
    }
  }

  /**
   * When `p`, `open` and `close` each return the text they consumed, the
   * trace `recur()` returns spells out exactly the input it consumed.
   */
  lemma {:induction false} BalancedRestEchoes(p: Parser<char>, open: Parser<seq<char>>, close: Parser<seq<char>>,
                                              s: seq<char>)
    requires Suffixing(p) && Suffixing(open) && Suffixing(close)
    requires EchoesChar(p) && EchoesText(open) && EchoesText(close)
    ensures var r := BalancedRest(p, open, close, s);
            r.Success? ==> Unparse(r.value) + r.rest == s
    decreases |s|
  {
    var r := BalancedRest(p, open, close, s);
    if r.Success? {
      if close(s).Success? {
        assert r.value == [Close(close(s).value)];
        assert Unparse(r.value) == close(s).value;
      } else if open(s).Success? && |open(s).rest| < |s|
                && BalancedRest(p, open, close, open(s).rest).Success?
                && BalancedRest(p, open, close, BalancedRest(p, open, close, open(s).rest).rest).Success? {
        var s1 := open(s).rest;
        var i := BalancedRest(p, open, close, s1);
        var t := BalancedRest(p, open, close, i.rest);
        BalancedRestEchoes(p, open, close, s1);
        BalancedRestEchoes(p, open, close, i.rest);
        assert close(s).Failure?;
        OpenCaseShape(p, open, close, s);
        EchoNested(open(s).value, i.value, t.value, s, s1, i.rest, t.rest);
      } else {
        var stop := BalancedStop(open, close);
        var m := ManyTillAt(p, stop, s);
        InnerCaseShape(p, open, close, s);
        var t := BalancedRest(p, open, close, m.rest);
        BalancedRestEchoes(p, open, close, m.rest);
        EchoInnerCase(p, stop, s, t.value, t.rest);
      }
    }
  }

  /** The second alternative of `recur()`: an opening delimiter, then two recursive traces. */
  lemma OpenCaseShape<O, T, C>(p: Parser<T>, open: Parser<O>, close: Parser<C>, s: seq<char>)
    requires Suffixing(p) && Suffixing(open) && Suffixing(close)
    requires close(s).Failure? && open(s).Success? && |open(s).rest| < |s|
    requires BalancedRest(p, open, close, open(s).rest).Success?
    requires BalancedRest(p, open, close, BalancedRest(p, open, close, open(s).rest).rest).Success?
    ensures var i := BalancedRest(p, open, close, open(s).rest);
            var t := BalancedRest(p, open, close, i.rest);
            BalancedRest(p, open, close, s) == Success(t.rest, [Open(open(s).value)] + i.value + t.value)
  {
  }

  /** When neither `close` nor the second alternative applies, a success comes from the third. */
  lemma InnerCaseShape<O, T, C>(p: Parser<T>, open: Parser<O>, close: Parser<C>, s: seq<char>)
    requires Suffixing(p) && Suffixing(open) && Suffixing(close)
    requires !close(s).Success? && BalancedRest(p, open, close, s).Success?
    requires !(open(s).Success? && |open(s).rest| < |s|
               && BalancedRest(p, open, close, open(s).rest).Success?
               && BalancedRest(p, open, close, BalancedRest(p, open, close, open(s).rest).rest).Success?)
    ensures var m := ManyTillAt(p, BalancedStop(open, close), s);
            m.Success? && |m.rest| < |s| && BalancedRest(p, open, close, m.rest).Success?
            && BalancedRest(p, open, close, s)
               == Success(BalancedRest(p, open, close, m.rest).rest,
                          [Inner(m.value)] + BalancedRest(p, open, close, m.rest).value)
  {
    assert close(s).Failure?;
    if open(s).Success? && |open(s).rest| < |s| {
      var i := BalancedRest(p, open, close, open(s).rest);
      if i.Success? {
        assert BalancedRest(p, open, close, i.rest).Failure?;
      } else {
        assert i.Failure?;
      }
    } else {
      assert open(s).Failure?;
    }
  }

  /** The third alternative of `recur()`, once the recursive trace spells its input. */
  lemma EchoInnerCase<E>(p: Parser<char>, stop: Parser<E>, s: seq<char>,
                         tail: seq<Nested<seq<char>, seq<char>, seq<char>>>, rest: seq<char>)
    requires Suffixing(p) && Suffixing(stop) && Stays(stop) && EchoesChar(p)
    requires ManyTillAt(p, stop, s).Success?
    requires Unparse(tail) + rest == ManyTillAt(p, stop, s).rest
    ensures Unparse([Inner(ManyTillAt(p, stop, s).value)] + tail) + rest == s
  {
    var m := ManyTillAt(p, stop, s);
    ManyTillCharSplit(p, stop, s);
    assert stop(s[|m.value|..]).rest == s[|m.value|..];
    TakeDrop(s, |m.value|);
    EchoInner(m.value, tail, s, m.rest, rest);
  }

  lemma EchoNested(o: seq<char>, i: seq<Nested<seq<char>, seq<char>, seq<char>>>,
                   t: seq<Nested<seq<char>, seq<char>, seq<char>>>,
                   s: seq<char>, s1: seq<char>, s2: seq<char>, s3: seq<char>)
    requires o + s1 == s && Unparse(i) + s2 == s1 && Unparse(t) + s3 == s2
    ensures Unparse([Open(o)] + i + t) + s3 == s
  {
    UnparseAppend([Open(o)] + i, t);
    UnparseAppend([Open(o)], i);
    assert Unparse([Open(o)]) == o;
    AppendAssoc(Unparse(i), Unparse(t), s3);
    AppendAssoc(o, Unparse(i), Unparse(t) + s3);
    AppendAssoc(o + Unparse(i), Unparse(t), s3);
  }

  lemma EchoInner(x: seq<char>, t: seq<Nested<seq<char>, seq<char>, seq<char>>>,
                  s: seq<char>, s1: seq<char>, s2: seq<char>)
    requires x + s1 == s && Unparse(t) + s2 == s1
    ensures Unparse([Inner(x)] + t) + s2 == s
  {
    UnparseAppend([Inner(x)], t);
    assert Unparse([Inner(x)]) == x;
    AppendAssoc(x, Unparse(t), s2);
  }

  /** On success, the trace `p` returns spells out exactly the text it consumed. */
  ghost predicate EchoesNested(p: Parser<seq<Nested<seq<char>, seq<char>, seq<char>>>>) {
    forall t :: p(t).Success? ==> Unparse(p(t).value) + p(t).rest == t
  }

  /** The same for the whole of `balanced(p, open, close)`. */
  lemma BalancedEchoes(p: Parser<char>, open: Parser<seq<char>>, close: Parser<seq<char>>, s: seq<char>)
    requires Suffixing(p) && Suffixing(open) && Suffixing(close)
    requires EchoesChar(p) && EchoesText(open) && EchoesText(close)
    ensures var r := BalancedAt(p, open, close, s);
            r.Success? ==> Unparse(r.value) + r.rest == s
  {
    var r := BalancedAt(p, open, close, s);
    if r.Success? {
      var t := BalancedRest(p, open, close, open(s).rest);
      BalancedRestEchoes(p, open, close, open(s).rest);
      assert r.value == [Open(open(s).value)] + t.value;
      UnparseAppend([Open(open(s).value)], t.value);
      assert Unparse([Open(open(s).value)]) == open(s).value;
      AppendAssoc(open(s).value, Unparse(t.value), t.rest);
    }
  }

  lemma BalancedParserEchoes(p: Parser<char>, open: Parser<seq<char>>, close: Parser<seq<char>>)
    requires Suffixing(p) && Suffixing(open) && Suffixing(close)
    requires EchoesChar(p) && EchoesText(open) && EchoesText(close)
    ensures EchoesNested(Balanced(p, open, close))
  {
    forall t ensures Balanced(p, open, close)(t).Success? ==>
      Unparse(Balanced(p, open, close)(t).value) + Balanced(p, open, close)(t).rest == t
    {
      BalancedEchoes(p, open, close, t);
    }
  }
}
