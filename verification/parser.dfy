/**
 * The parser-combinator engine of Swiffer (Sources/Core/parser.swift, and its
 * older subset Sources/parser.swift).
 *
 * A parser maps the remaining input, a sequence of Unicode scalars, to a
 * result.  The source's combinators build closures; here the non-recursive
 * combinators also return closures (`Parser<T>`), while every parser that the
 * source defines by recursion (through `fix` or through a lazy self-reference)
 * is a recursive function of the input, with `decreases |s|`.
 *
 * The source has no termination guard: some parsers call themselves again on
 * the very same input and never return.  Because all parsers are pure, such a
 * self-call with identical arguments is certain non-termination, and the model
 * reports it as the result `Diverged` instead of looping.
 */
module Parsing {

  datatype Option<+T> = None | Some(value: T)

  /** `Left(rest, message)`, `Right(rest, value)`, or a computation that does not return. */
  datatype Result<+T> =
    | Failure(rest: seq<char>, msg: string)
    | Success(rest: seq<char>, value: T)
    | Diverged

  /** A parser; running it (`parse(p, input)` in the source) is the application `p(input)`. */
  type Parser<T> = seq<char> -> Result<T>

  /** The single diagnostic produced by the primitive parsers. */
  const NotSatisfied: string := "did not satisfy predicate"

  /** `r` is a suffix of `s`: what is left after consuming a prefix of `s`. */
  ghost predicate IsSuffix(r: seq<char>, s: seq<char>) {
    |r| <= |s| && r == s[|s| - |r|..]
  }

  /** The data-model invariant: on success a parser has consumed a prefix of its input. */
  ghost predicate Suffixing<T>(p: Parser<T>) {
    forall s :: p(s).Success? ==> IsSuffix(p(s).rest, s)
  }

  /** Every success consumes at least one scalar. */
  ghost predicate Consuming<T>(p: Parser<T>) {
    forall s :: p(s).Success? ==> IsSuffix(p(s).rest, s) && |p(s).rest| < |s|
  }

  /** On success the parser has consumed nothing: a look-ahead. */
  ghost predicate Stays<T>(p: Parser<T>) {
    forall s :: p(s).Success? ==> p(s).rest == s
  }

  /** The parser returns on every input. */
  ghost predicate Halting<T>(p: Parser<T>) {
    forall s :: !p(s).Diverged?
  }

  // ---------------------------------------------------------------------
  // The combinator algebra
  // ---------------------------------------------------------------------

  /** `pure`: succeeds with `v` without consuming anything. */
  function Pure<T>(v: T): (r: Parser<T>)
    ensures Suffixing(r) && Halting(r)
    ensures forall s {:trigger r(s)} :: r(s).Success? && r(s).rest == s && r(s).value == v
  {
    s => Success(s, v)
  }

  /** `p <|> q`: full backtracking choice; `q` is consulted only when `p` fails. */
  function OrElse<T>(p: Parser<T>, q: Parser<T>): (r: Parser<T>)
    ensures Suffixing(p) && Suffixing(q) ==> Suffixing(r)
    ensures forall s {:trigger r(s)} :: !p(s).Failure? ==> r(s) == p(s)
    ensures forall s {:trigger r(s)} :: p(s).Failure? ==> r(s) == q(s)
  {
    s => match p(s)
         case Failure(_, _) => q(s)
         case _ => p(s)
  }

  /** `p >>- f`: runs `p`, then the parser `f` builds from its value on the remaining input. */
  function Bind<T, U>(p: Parser<T>, f: T -> Parser<U>): (r: Parser<U>)
    ensures forall s {:trigger r(s)} :: p(s).Failure? ==> r(s) == Failure(p(s).rest, p(s).msg)
    ensures forall s {:trigger r(s)} :: p(s).Success? ==> r(s) == f(p(s).value)(p(s).rest)
    ensures forall s {:trigger r(s)} :: p(s).Diverged? ==> r(s).Diverged?
  {
    s => match p(s)
         case Failure(rest, msg) => Failure(rest, msg)
         case Success(rest, x) => f(x)(rest)
         case Diverged => Diverged
  }

  /** `f <^> p`, defined as in the source by `p >>- { a in pure(f(a)) }`. */
  function Fmap<T, U>(f: T -> U, p: Parser<T>): (r: Parser<U>)
    ensures Suffixing(p) ==> Suffixing(r)
    ensures forall s {:trigger r(s)} :: p(s).Failure? ==> r(s) == Failure(p(s).rest, p(s).msg)
    ensures forall s {:trigger r(s)} :: p(s).Success? ==> r(s) == Success(p(s).rest, f(p(s).value))
    ensures forall s {:trigger r(s)} :: p(s).Diverged? ==> r(s).Diverged?
  {
    Bind(p, (a: T) => Pure(f(a)))
  }

  /** `p <&> f`, the flipped `<^>`. */
  function Map<T, U>(p: Parser<T>, f: T -> U): (r: Parser<U>)
    ensures Suffixing(p) ==> Suffixing(r)
    ensures forall s {:trigger r(s)} :: p(s).Failure? ==> r(s) == Failure(p(s).rest, p(s).msg)
    ensures forall s {:trigger r(s)} :: p(s).Success? ==> r(s) == Success(p(s).rest, f(p(s).value))
    ensures forall s {:trigger r(s)} :: p(s).Diverged? ==> r(s).Diverged?
  {
    Fmap(f, p)
  }

  /** `p <*> q`: sequential application, `p >>- { f in f <^> q }`. */
  function Apply<T, U>(p: Parser<T -> U>, q: Parser<T>): (r: Parser<U>)
    ensures Suffixing(p) && Suffixing(q) ==> Suffixing(r)
    ensures forall s {:trigger r(s)} :: p(s).Failure? ==> r(s) == Failure(p(s).rest, p(s).msg)
    ensures forall s {:trigger r(s)} :: p(s).Diverged? ==> r(s).Diverged?
    ensures forall s {:trigger r(s)} :: p(s).Success? && q(p(s).rest).Failure? ==>
              r(s) == Failure(q(p(s).rest).rest, q(p(s).rest).msg)
    ensures forall s {:trigger r(s)} :: p(s).Success? && q(p(s).rest).Success? ==>
              r(s) == Success(q(p(s).rest).rest, p(s).value(q(p(s).rest).value))
    ensures forall s {:trigger r(s)} :: p(s).Success? && q(p(s).rest).Diverged? ==> r(s).Diverged?
  {
    Bind(p, (f: T -> U) => Fmap(f, q))
  }

  /** `p *> q`, defined as `const(id) <^> p <*> q`: run both, keep the value of `q`. */
  function DiscardLeft<T, U>(p: Parser<T>, q: Parser<U>): (r: Parser<U>)
    ensures Suffixing(p) && Suffixing(q) ==> Suffixing(r)
    ensures forall s {:trigger r(s)} :: p(s).Failure? ==> r(s) == Failure(p(s).rest, p(s).msg)
    ensures forall s {:trigger r(s)} :: p(s).Diverged? ==> r(s).Diverged?
    ensures forall s {:trigger r(s)} :: p(s).Success? ==> r(s) == q(p(s).rest)
  {
    Apply(Fmap((_: T) => (y: U) => y, p), q)
  }

  /** `p <* q`, defined as `const <^> p <*> q`: run both, keep the value of `p`. */
  function DiscardRight<T, U>(p: Parser<T>, q: Parser<U>): (r: Parser<T>)
    ensures Suffixing(p) && Suffixing(q) ==> Suffixing(r)
    ensures forall s {:trigger r(s)} :: p(s).Failure? ==> r(s) == Failure(p(s).rest, p(s).msg)
    ensures forall s {:trigger r(s)} :: p(s).Diverged? ==> r(s).Diverged?
    ensures forall s {:trigger r(s)} :: p(s).Success? && q(p(s).rest).Failure? ==>
              r(s) == Failure(q(p(s).rest).rest, q(p(s).rest).msg)
    ensures forall s {:trigger r(s)} :: p(s).Success? && q(p(s).rest).Success? ==>
              r(s) == Success(q(p(s).rest).rest, p(s).value)
    ensures forall s {:trigger r(s)} :: p(s).Success? && q(p(s).rest).Diverged? ==> r(s).Diverged?
  {
    Apply(Fmap((x: T) => (_: U) => x, p), q)
  }

  // ---------------------------------------------------------------------
  // Primitive parsers
  // ---------------------------------------------------------------------

  /** `uncons`: head and tail of a non-empty sequence. */
  function Uncons(s: seq<char>): (r: Option<(char, seq<char>)>)
    ensures r.Some? <==> |s| > 0
    ensures r.Some? ==> r.value.0 == s[0] && r.value.1 == s[1..]
  {
    if |s| == 0 then None else Some((s[0], s[1..]))
  }

  /** `satisfy(pred)`: consumes one scalar that meets `pred`, or fails without consuming. */
  function Satisfy(pred: char -> bool): (r: Parser<char>)
    ensures Consuming(r) && Suffixing(r) && Halting(r)
    ensures forall s {:trigger r(s)} :: r(s).Success? <==> |s| > 0 && pred(s[0])
    ensures forall s {:trigger r(s)} :: r(s).Success? ==> r(s).rest == s[1..] && r(s).value == s[0]
    ensures forall s {:trigger r(s)} :: !r(s).Success? ==> r(s) == Failure(s, NotSatisfied)
  {
    s => if |s| > 0 && pred(s[0]) then Success(s[1..], s[0]) else Failure(s, NotSatisfied)
  }

  /** `char(c)`: the scalar `c`. */
  function Char(c: char): (r: Parser<char>)
    ensures Consuming(r) && Suffixing(r) && Halting(r)
    ensures forall s {:trigger r(s)} :: r(s).Success? <==> |s| > 0 && s[0] == c
    ensures forall s {:trigger r(s)} :: r(s).Success? ==> r(s).rest == s[1..] && r(s).value == c
    ensures forall s {:trigger r(s)} :: !r(s).Success? ==> r(s) == Failure(s, NotSatisfied)
  {
    Satisfy(x => x == c)
  }

  /** `anyChar`: any single scalar; fails only at the end of the input. */
  const AnyChar: Parser<char> := Satisfy(_ => true)

  /** `isSpace`: blank, tab, line feed or carriage return. */
  predicate IsSpace(c: char) {
    c == ' ' || c == '\t' || c == '\n' || c == '\r'
  }

  /** `space`: one whitespace scalar. */
  const Space: Parser<char> := Satisfy(IsSpace)

  /** How many leading scalars of `s` agree with `e`. */
  function MatchLen(e: seq<char>, s: seq<char>): (n: nat)
    ensures n <= |e| && n <= |s|
    ensures s[..n] == e[..n]
    ensures n < |e| && n < |s| ==> s[n] != e[n]
  {
    if e == [] || s == [] || e[0] != s[0] then 0
    else
      var m := MatchLen(e[1..], s[1..]);
      assert s[..m + 1] == [s[0]] + s[1..][..m];
      assert e[..m + 1] == [e[0]] + e[1..][..m];
      1 + m
  }

  /**
   * `literal(e)` as the source builds it: `char(head) *> literal(tail) *> pure(e)`,
   * and `pure("")` for the empty literal.
   */
  function LiteralChain(e: seq<char>): (r: Parser<seq<char>>)
    ensures Suffixing(r) && Halting(r)
    decreases |e|
  {
    match Uncons(e)
    case Some((head, tail)) => DiscardLeft(DiscardLeft(Char(head), LiteralChain(tail)), Pure(e))
    case None => Pure([])
  }

  /**
   * `literal(e)`: `e` and the input after it when the input starts with `e`;
   * otherwise the primitive failure at the first scalar that differs, or at
   * the end of the input.  `ParsingLaws.LiteralIsChain` shows that this is
   * what the chain above computes.
   */
  function Literal(e: seq<char>): (r: Parser<seq<char>>)
    ensures Suffixing(r) && Halting(r)
  {
    s => if |e| <= |s| && s[..|e|] == e then Success(s[|e|..], e)
         else Failure(s[MatchLen(e, s)..], NotSatisfied)
  }

  /** `lookAhead(p)`: `p`'s outcome, but on success the input is left untouched. */
  function LookAhead<T>(p: Parser<T>): (r: Parser<T>)
    ensures Suffixing(r) && Stays(r)
    ensures forall s {:trigger r(s)} :: p(s).Success? ==> r(s) == Success(s, p(s).value)
    ensures forall s {:trigger r(s)} :: !p(s).Success? ==> r(s) == p(s)
  {
    s => match p(s)
         case Success(_, v) => Success(s, v)
         case _ => p(s)
  }

  /**
   * `between(p, open, close)`: `open *> p <* close`. It succeeds with the
   * value of `p` when all three succeed in turn, and otherwise fails or
   * diverges as the first of the three that does not succeed.
   */
  function Between<T, O, C>(p: Parser<T>, open: Parser<O>, close: Parser<C>): (r: Parser<T>)
    ensures Suffixing(p) && Suffixing(open) && Suffixing(close) ==> Suffixing(r)
    ensures forall s {:trigger r(s)} ::
              open(s).Success? && p(open(s).rest).Success? && close(p(open(s).rest).rest).Success? ==>
              r(s) == Success(close(p(open(s).rest).rest).rest, p(open(s).rest).value)
    ensures forall s {:trigger r(s)} :: open(s).Failure? ==> r(s) == Failure(open(s).rest, open(s).msg)
    ensures forall s {:trigger r(s)} :: open(s).Diverged? ==> r(s).Diverged?
    ensures forall s {:trigger r(s)} :: open(s).Success? && p(open(s).rest).Failure? ==>
              r(s) == Failure(p(open(s).rest).rest, p(open(s).rest).msg)
    ensures forall s {:trigger r(s)} :: open(s).Success? && p(open(s).rest).Diverged? ==> r(s).Diverged?
    ensures forall s {:trigger r(s)} ::
              open(s).Success? && p(open(s).rest).Success? && close(p(open(s).rest).rest).Failure? ==>
              r(s) == Failure(close(p(open(s).rest).rest).rest, close(p(open(s).rest).rest).msg)
    ensures forall s {:trigger r(s)} ::
              open(s).Success? && p(open(s).rest).Success? && close(p(open(s).rest).rest).Diverged? ==>
              r(s).Diverged?
  {
    DiscardRight(DiscardLeft(open, p), close)
  }

  /** `_matchAndDiscard(p)`: `lookAhead(p) <&> const(())`. */
  function MatchAndDiscard<T>(p: Parser<T>): (r: Parser<()>)
    ensures Suffixing(r)
    ensures forall s {:trigger r(s)} :: p(s).Success? ==> r(s) == Success(s, ())
    ensures forall s {:trigger r(s)} :: p(s).Failure? ==> r(s) == Failure(p(s).rest, p(s).msg)
    ensures forall s {:trigger r(s)} :: p(s).Diverged? ==> r(s).Diverged?
  {
    Map(LookAhead(p), (_: T) => ())
  }

  // ---------------------------------------------------------------------
  // Repetition
  // ---------------------------------------------------------------------

  /**
   * `many(p)` = `many1(p) <|> pure([])`.  It never fails.  When `p` succeeds
   * without consuming, `many(p)` runs again on the same input: `Diverged`.
   */
  function ManyAt<T>(p: Parser<T>, s: seq<char>): (r: Result<seq<T>>)
    requires Suffixing(p)
    ensures !r.Failure?
    ensures r.Success? ==> IsSuffix(r.rest, s)
    decreases |s|, 1
  {
    match Many1At(p, s)
    case Failure(_, _) => Success(s, [])
    case other => other
  }

  /** `many1(p)` = `insert <^> p <*> many(p)`: one match of `p` in front of the rest. */
  function Many1At<T>(p: Parser<T>, s: seq<char>): (r: Result<seq<T>>)
    requires Suffixing(p)
    ensures r.Success? ==> IsSuffix(r.rest, s) && |r.value| > 0
    decreases |s|, 0
  {
    match p(s)
    case Failure(rest, msg) => Failure(rest, msg)
    case Diverged => Diverged
    case Success(rest, x) =>
      if |rest| == |s| then Diverged
      else match ManyAt(p, rest)
        case Success(rest', xs) => Success(rest', [x] + xs)
        case Failure(rest', msg) => Failure(rest', msg)
        case Diverged => Diverged
  }

  /** `skipMany(p)` = `skipMany1(p) <|> pure(())`. */
  function SkipManyAt<T>(p: Parser<T>, s: seq<char>): (r: Result<()>)
    requires Suffixing(p)
    ensures !r.Failure?
    ensures r.Success? ==> IsSuffix(r.rest, s)
    decreases |s|, 1
  {
    match SkipMany1At(p, s)
    case Failure(_, _) => Success(s, ())
    case other => other
  }

  /** `skipMany1(p)` = `p *> skipMany(p)`. */
  function SkipMany1At<T>(p: Parser<T>, s: seq<char>): (r: Result<()>)
    requires Suffixing(p)
    ensures r.Success? ==> IsSuffix(r.rest, s)
    decreases |s|, 0
  {
    match p(s)
    case Failure(rest, msg) => Failure(rest, msg)
    case Diverged => Diverged
    case Success(rest, _) =>
      if |rest| == |s| then Diverged
      else SkipManyAt(p, rest)
  }

  /** `many(p)` as a parser. */
  function Many<T>(p: Parser<T>): (r: Parser<seq<T>>)
    requires Suffixing(p)
    ensures Suffixing(r)
    ensures forall s {:trigger r(s)} :: !r(s).Failure?
  {
    s => ManyAt(p, s)
  }

  /** `skipMany(p)` as a parser. */
  function SkipMany<T>(p: Parser<T>): (r: Parser<()>)
    requires Suffixing(p)
    ensures Suffixing(r)
    ensures forall s {:trigger r(s)} :: !r(s).Failure?
  {
    s => SkipManyAt(p, s)
  }

  /** `skipSpaces` = `skipMany(space)`. */
  const SkipSpaces: Parser<()> := SkipMany(Space)

  /**
   * The recursive core of `manyTill(p, end)`:
   * `(end *> pure([])) <|> append <^> p <*> recur()`.  Each step appends the
   * value of `p` AFTER the values of the later steps, so the list comes out
   * reversed.
   */
  function ManyTillRev<T, E>(p: Parser<T>, end: Parser<E>, s: seq<char>): (r: Result<seq<T>>)
    requires Suffixing(p) && Suffixing(end)
    ensures r.Success? ==> IsSuffix(r.rest, s)
    decreases |s|
  {
    match end(s)
    case Success(rest, _) => Success(rest, [])
    case Diverged => Diverged
    case Failure(_, _) =>
      match p(s)
      case Failure(rest, msg) => Failure(rest, msg)
      case Diverged => Diverged
      case Success(rest, x) =>
        if |rest| == |s| then Diverged
        else match ManyTillRev(p, end, rest)
          case Success(rest', xs) => Success(rest', xs + [x])
          case Failure(rest', msg) => Failure(rest', msg)
          case Diverged => Diverged
  }

  /** The list read from back to front (Swift's `reversed()`). */
  function Reverse<T>(xs: seq<T>): (r: seq<T>)
    ensures |r| == |xs|
    ensures forall i :: 0 <= i < |xs| ==> r[i] == xs[|xs| - 1 - i]
  {
    if xs == [] then [] else [xs[|xs| - 1]] + Reverse(xs[..|xs| - 1])
  }

  /** `manyTill(p, end)`: the recursion above, with its list reversed back (`<&> reversed`). */
  function ManyTillAt<T, E>(p: Parser<T>, end: Parser<E>, s: seq<char>): (r: Result<seq<T>>)
    requires Suffixing(p) && Suffixing(end)
    ensures r.Success? ==> IsSuffix(r.rest, s)
  {
    match ManyTillRev(p, end, s)
    case Success(rest, xs) => Success(rest, Reverse(xs))
    case Failure(rest, msg) => Failure(rest, msg)
    case Diverged => Diverged
  }

  /** `manyTill(p, end)` as a parser. */
  function ManyTill<T, E>(p: Parser<T>, end: Parser<E>): (r: Parser<seq<T>>)
    requires Suffixing(p) && Suffixing(end)
    ensures Suffixing(r)
  {
    s => ManyTillAt(p, end, s)
  }

  /**
   * `endOfLine`: `char("\n") *> pure("\n") <|> literal("\r\n") <|> char("\r") *> pure("\n")`.
   * A CRLF pair is returned as it is, not normalised.
   */
  const EndOfLine: Parser<seq<char>> :=
    OrElse(DiscardLeft(Char('\n'), Pure("\n")),
           OrElse(Literal("\r\n"), DiscardLeft(Char('\r'), Pure("\n"))))

  // ---------------------------------------------------------------------
  // Balanced nesting
  // ---------------------------------------------------------------------

  /** One element of the flat trace `balanced` returns. */
  datatype Nested<+O, +I, +C> = Open(open: O) | Inner(inner: I) | Close(close: C)

  /** The terminator of an inner run: `_matchAndDiscard(open) <|> _matchAndDiscard(close)`. */
  function BalancedStop<O, C>(open: Parser<O>, close: Parser<C>): (r: Parser<()>)
    ensures Suffixing(r) && Stays(r)
  {
    OrElse(MatchAndDiscard(open), MatchAndDiscard(close))
  }

  /**
   * The recursive `recur()` of `balanced`, run after an opening delimiter:
   *   close <&> { [Close] }
   *   <|> [Open] + recur() + recur()   after another open
   *   <|> [Inner] + recur()            after manyTill(p, BalancedStop)
   * The third alternative is reached with zero consumption exactly when the
   * input starts with `open` but the second alternative failed; it then calls
   * itself on the same input and never returns.
   */
  function BalancedRest<O, T, C>(p: Parser<T>, open: Parser<O>, close: Parser<C>, s: seq<char>)
    : (r: Result<seq<Nested<O, seq<T>, C>>>)
    requires Suffixing(p) && Suffixing(open) && Suffixing(close)
    ensures r.Success? ==> IsSuffix(r.rest, s)
    decreases |s|
  {
    match close(s)
    case Success(rest, c) => Success(rest, [Close(c)])
    case Diverged => Diverged
    case Failure(_, _) =>
      var nested :=
        match open(s)
        case Failure(rest, msg) => Failure(rest, msg)
        case Diverged => Diverged
        case Success(s1, o) =>
          if |s1| == |s| then Diverged
          else match BalancedRest(p, open, close, s1)
            case Failure(rest, msg) => Failure(rest, msg)
            case Diverged => Diverged
            case Success(s2, inner) =>
              match BalancedRest(p, open, close, s2)
              case Failure(rest, msg) => Failure(rest, msg)
              case Diverged => Diverged
              case Success(s3, tail) => Success(s3, [Open(o)] + inner + tail);
      if !nested.Failure? then nested
      else
        match ManyTillAt(p, BalancedStop(open, close), s)
        case Failure(rest, msg) => Failure(rest, msg)
        case Diverged => Diverged
        case Success(s1, xs) =>
          if |s1| == |s| then Diverged
          else match BalancedRest(p, open, close, s1)
            case Failure(rest, msg) => Failure(rest, msg)
            case Diverged => Diverged
            case Success(s2, tail) => Success(s2, [Inner(xs)] + tail)
  }

  /** `balanced(p, open, close)`: `open`, then `recur()`, as one flat trace. */
  function BalancedAt<O, T, C>(p: Parser<T>, open: Parser<O>, close: Parser<C>, s: seq<char>)
    : (r: Result<seq<Nested<O, seq<T>, C>>>)
    requires Suffixing(p) && Suffixing(open) && Suffixing(close)
    ensures r.Success? ==> IsSuffix(r.rest, s)
  {
    match open(s)
    case Failure(rest, msg) => Failure(rest, msg)
    case Diverged => Diverged
    case Success(s1, o) =>
      match BalancedRest(p, open, close, s1)
      case Failure(rest, msg) => Failure(rest, msg)
      case Diverged => Diverged
      case Success(s2, ns) => Success(s2, [Open(o)] + ns)
  }

  /** `balanced(p, open, close)` as a parser. */
  function Balanced<O, T, C>(p: Parser<T>, open: Parser<O>, close: Parser<C>)
    : (r: Parser<seq<Nested<O, seq<T>, C>>>)
    requires Suffixing(p) && Suffixing(open) && Suffixing(close)
    ensures Suffixing(r)
  {
    s => BalancedAt(p, open, close, s)
  }
}
