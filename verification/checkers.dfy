/**
 * The documentation checker of Swiffer (Sources/checkers.swift): it walks the
 * token stream in consecutive pairs and reports the names of `public func`
 * declarations whose text is not preceded by a documentation comment.
 */
module Checkers {
  import opened Parsing
  import opened Tokenizer

  // ---------------------------------------------------------------------
  // pairwise
  // ---------------------------------------------------------------------

  /** Swift's `zip(a, b)`: corresponding elements, as many as the shorter side has. */
  function Zip<A, B>(a: seq<A>, b: seq<B>): (r: seq<(A, B)>)
    ensures |r| == if |a| < |b| then |a| else |b|
    ensures forall i :: 0 <= i < |r| ==> r[i] == (a[i], b[i])
    decreases |a|
  {
    if a == [] || b == [] then [] else [(a[0], b[0])] + Zip(a[1..], b[1..])
  }

  /** Swift's `dropFirst()`: everything but the first element; nothing for an empty collection. */
  function DropFirst<T>(c: seq<T>): (r: seq<T>)
    ensures |r| == if c == [] then 0 else |c| - 1
    ensures forall i :: 0 <= i < |r| ==> r[i] == c[i + 1]
  {
    if c == [] then [] else c[1..]
  }

  /** `pairwise(c)` = `zip(c, c.dropFirst())`: each element with its successor. */
  function Pairwise<T>(c: seq<T>): (r: seq<(T, T)>)
    ensures |r| == if c == [] then 0 else |c| - 1
    ensures forall i :: 0 <= i < |r| ==> r[i] == (c[i], c[i + 1])
  {
    Zip(c, DropFirst(c))
  }

  // ---------------------------------------------------------------------
  // publicFunc and getAllPublicFunctionNames
  // ---------------------------------------------------------------------

  /** The scalars that end a function name: `<` or `(`. */
  predicate IsNameStop(c: char) {
    c == '<' || c == '('
  }

  /** `satisfy { $0 == "<" || $0 == "(" }`. */
  const NameStop: Parser<char> := Satisfy(IsNameStop)

  /** `manyTill(anyChar, NameStop) <&> String`: the name, and the stop scalar consumed after it. */
  const FuncName: Parser<string> := ManyTill(AnyChar, NameStop)

  /** `prefix *> literal(keyword) *> space *> skipSpaces`, grouped to the left as in the source. */
  function KeywordAfter<T>(prefix: Parser<T>, keyword: string): (r: Parser<()>)
    requires Suffixing(prefix)
    ensures Suffixing(r)
  {
    DiscardLeft(DiscardLeft(DiscardLeft(prefix, Literal(keyword)), Space), SkipSpaces)
  }

  /**
   * `skipSpaces *> literal(first) *> space *> skipSpaces *> literal(second)
   *  *> space *> skipSpaces *> manyTill(anyChar, NameStop) <&> String`.
   */
  function Declaration(first: string, second: string): (r: Parser<string>)
    ensures Suffixing(r)
  {
    DiscardLeft(KeywordAfter(KeywordAfter(SkipSpaces, first), second), FuncName)
  }

  /** `publicFunc`: the name of a `public func` declaration. */
  const PublicFunc: Parser<string> := Declaration("public", "func")

  /** `decl <&> { .some($0) } <|> anyChar <&> const(.none)`: a name, or one skipped scalar. */
  function NameOrSkip(decl: Parser<string>): (r: Parser<Option<string>>)
    requires Suffixing(decl)
    ensures Suffixing(r)
  {
    OrElse(Map(decl, (n: string) => Some(n)), Map(AnyChar, (_: char) => None))
  }

  /** `names.flatMap { $0 }`: the names that were found, in order. */
  function Flatten(xs: seq<Option<string>>): (r: seq<string>)
    ensures |r| <= |xs|
  {
    if xs == [] then []
    else (if xs[0].Some? then [xs[0].value] else []) + Flatten(xs[1..])
  }

  /**
   * `getAllPublicFunctionNames`: `many(publicFunc <&> some <|> anyChar <&> none)`
   * over the text, flattened.  `many` never fails here; the other outcomes
   * give the empty list as in the source's `.Left` branch.
   */
  function PublicFunctionNames(text: string): seq<string> {
    match Many(NameOrSkip(PublicFunc))(text)
    case Success(_, names) => Flatten(names)
    case _ => []
  }

  // ---------------------------------------------------------------------
  // isDocComment, textToken and publicFunctionsAreDocumented
  // ---------------------------------------------------------------------

  /** `s.hasPrefix(p)`. */
  predicate HasPrefix(s: string, p: string) {
    |p| <= |s| && s[..|p|] == p
  }

  /** `isDocComment`: a comment that opens with slash-star-star or with three slashes. */
  predicate IsDocComment(t: Token) {
    t.Comment? && (HasPrefix(t.text, "/**") || HasPrefix(t.text, "///"))
  }

  /** `textToken`: the text of a `Text` token, `nil` for the others. */
  function TextOf(t: Token): (r: Option<string>)
    ensures r.Some? <==> t.Text?
  {
    match t
    case Text(x) => Some(x)
    case _ => None
  }

  /**
   * What one pair contributes, for a name extractor `names`: the names in
   * `current` when it is text, all but the first when `prev` is a doc comment.
   */
  function Reported(names: string -> seq<string>, prev: Token, current: Token): seq<string> {
    match TextOf(current)
    case None => []
    case Some(text) => if IsDocComment(prev) then DropFirst(names(text)) else names(text)
  }

  /** The contributions of a run of pairs, in order. */
  function ReportedAll(names: string -> seq<string>, pairs: seq<(Token, Token)>): seq<string> {
    if pairs == [] then []
    else ReportedAll(names, pairs[..|pairs| - 1]) + Reported(names, pairs[|pairs| - 1].0, pairs[|pairs| - 1].1)
  }

  /** The names `publicFunctionsAreDocumented` reports for a token stream. */
  function Undocumented(tokens: seq<Token>): (r: seq<string>)
    ensures |tokens| <= 1 ==> r == []
  {
    ReportedAll(PublicFunctionNames, Pairwise(tokens))
  }

  /** Extending the run by one pair appends that pair's contribution. */
  lemma ReportedAllSnoc(names: string -> seq<string>, pairs: seq<(Token, Token)>, i: nat)
    requires i < |pairs|
    ensures ReportedAll(names, pairs[..i + 1]) == ReportedAll(names, pairs[..i]) + Reported(names, pairs[i].0, pairs[i].1)
  {
    assert pairs[..i + 1][..i] == pairs[..i];
  }

  /**
   * The loop of `publicFunctionsAreDocumented` over `pairwise(tokens)`: it
   * counts the doc comments and collects the reported names.  The name
   * extractor is a parameter so that the loop's proof does not unfold the
   * declaration parser; the source passes `getAllPublicFunctionNames`.
   */
  method CheckPairs(tokens: seq<Token>, names: string -> seq<string>) returns (undocumented: seq<string>)
    ensures undocumented == ReportedAll(names, Pairwise(tokens))
  {
    var documented := 0;
    undocumented := [];
    var pairs := Pairwise(tokens);
    for i := 0 to |pairs|
      invariant undocumented == ReportedAll(names, pairs[..i])
    {
      var (prev, token) := pairs[i];
      var text := TextOf(token);
      if text.Some? {
        var found := names(text.value);
        if IsDocComment(prev) {
          documented := documented + 1;
          undocumented := undocumented + DropFirst(found);
        } else {
          undocumented := undocumented + found;
        }
      }
      ReportedAllSnoc(names, pairs, i);
    }
    assert pairs[..|pairs|] == pairs;
  }

  /** `publicFunctionsAreDocumented`: the loop above with `getAllPublicFunctionNames`. */
  method PublicFunctionsAreDocumented(tokens: seq<Token>) returns (undocumented: seq<string>)
    ensures undocumented == Undocumented(tokens)
  {
    undocumented := CheckPairs(tokens, PublicFunctionNames);
  }
}
