/**
 * What the documentation checker computes, stated without parsers:
 * `getAllPublicFunctionNames` is a left-to-right scan for
 * `public <spaces> func <spaces> name(` declarations, and
 * `publicFunctionsAreDocumented` reports, for every text token after the
 * first token, the names found in it, less the first one after a doc comment.
 */
module CheckerLaws {
  import opened Parsing
  import opened ParsingLaws
  import opened Tokenizer
  import opened Checkers

  // ---------------------------------------------------------------------
  // The declaration grammar as plain sequence functions
  // ---------------------------------------------------------------------

  /**
   * After the keyword `kw` at the start of `u`, one whitespace scalar and any
   * further whitespace: what is left, or `None` when `u` does not start so.
   */
  function AfterKeyword(kw: string, u: string): (r: Option<string>)
    ensures r.Some? <==> |kw| < |u| && u[..|kw|] == kw && IsSpace(u[|kw|])
    ensures r.Some? ==> |r.value| < |u|
  {
    if |kw| < |u| && u[..|kw|] == kw && IsSpace(u[|kw|]) then Some(DropWhile(IsSpace, u[|kw| + 1..]))
    else None
  }

  predicate NotNameStop(c: char) {
    !IsNameStop(c)
  }

  /** A name holds neither `<` nor `(`. */
  predicate StopFree(name: string) {
    forall j :: 0 <= j < |name| ==> !IsNameStop(name[j])
  }

  /** No name in `names` holds `<` or `(`. */
  predicate AllStopFree(names: seq<string>) {
    forall i :: 0 <= i < |names| ==> StopFree(names[i])
  }

  lemma AllStopFreeCons(name: string, names: seq<string>)
    requires StopFree(name) && AllStopFree(names)
    ensures AllStopFree([name] + names)
  {
  }

  /**
   * A function name: the scalars of `w` before its first `<` or `(`, and
   * what follows that scalar; `None` when `w` has neither.
   */
  function SplitName(w: string): (r: Option<(string, string)>)
    ensures r.None? <==> forall j :: 0 <= j < |w| ==> !IsNameStop(w[j])
    ensures r.Some? ==> |r.value.0| < |w| && IsNameStop(w[|r.value.0|]) && StopFree(r.value.0)
    ensures r.Some? ==> |r.value.1| == |w| - |r.value.0| - 1
  {
    var d := DropWhile(NotNameStop, w);
    if d == [] then None
    else
      var k := |w| - |d|;
      assert w[k..] == d;
      Some((w[..k], d[1..]))
  }

  /** The name, the stop scalar and the rest put back together are the text. */
  lemma SplitNameRebuilds(w: string)
    ensures SplitName(w).Some? ==> w == SplitName(w).value.0 + [w[|SplitName(w).value.0|]] + SplitName(w).value.1
  {
    var d := DropWhile(NotNameStop, w);
    if d != [] {
      var k := |w| - |d|;
      assert w[k..] == d;
      assert w[k..] == [w[k]] + d[1..];
      TakeDrop(w, k);
      AppendAssoc(w[..k], [w[k]], d[1..]);
    }
  }

  /**
   * One declaration `first <spaces> second <spaces> name(` at the start of
   * `s`, after optional whitespace: the name and what follows the `(` or `<`.
   */
  function DeclName(first: string, second: string, s: string): (r: Option<(string, string)>)
    ensures r.Some? ==> |r.value.1| < |s| && StopFree(r.value.0)
  {
    match AfterKeyword(first, DropWhile(IsSpace, s))
    case None => None
    case Some(a) =>
      match AfterKeyword(second, a)
      case None => None
      case Some(b) => SplitName(b)
  }

  /**
   * The scan of `getAllPublicFunctionNames`: at each position, a declaration
   * yields its name and the scan resumes after it; otherwise one scalar is
   * skipped.  Names hold no `<` or `(`, and there are never more names than
   * scalars.
   */
  function ScanNames(first: string, second: string, s: string): (r: seq<string>)
    ensures |r| <= |s|
    ensures AllStopFree(r)
    decreases |s|
  {
    if s == [] then []
    else match DeclName(first, second, s)
      case Some((name, rest)) =>
        var names := ScanNames(first, second, rest);
        AllStopFreeCons(name, names);
        [name] + names
      case None => ScanNames(first, second, s[1..])
  }

  // ---------------------------------------------------------------------
  // The parsers agree with the functions above
  // ---------------------------------------------------------------------

  /**
   * `prefix *> literal(kw) *> space *> skipSpaces`: fails when `prefix` fails,
   * diverges only when `prefix` does, and otherwise does what `AfterKeyword`
   * says about the input `prefix` leaves.
   */
  lemma KeywordAfterAt<T>(prefix: Parser<T>, kw: string, s: string)
    requires Suffixing(prefix)
    ensures prefix(s).Failure? ==> KeywordAfter(prefix, kw)(s).Failure?
    ensures prefix(s).Diverged? ==> KeywordAfter(prefix, kw)(s).Diverged?
    ensures prefix(s).Success? ==>
              match AfterKeyword(kw, prefix(s).rest)
              case Some(v) => KeywordAfter(prefix, kw)(s) == Success(v, ())
              case None => KeywordAfter(prefix, kw)(s).Failure?
  {
    var d1 := DiscardLeft(prefix, Literal(kw));
    var d2 := DiscardLeft(d1, Space);
    assert KeywordAfter(prefix, kw) == DiscardLeft(d2, SkipSpaces);
    if prefix(s).Success? {
      var u := prefix(s).rest;
      LiteralMatchesPrefix(kw, u);
      if |kw| <= |u| && u[..|kw|] == kw {
        assert d2(s) == Space(u[|kw|..]);
        if |kw| < |u| && IsSpace(u[|kw|]) {
          assert u[|kw|..][1..] == u[|kw| + 1..];
          SkipSpacesDrops(u[|kw| + 1..]);
        }
      }
    }
  }

  /** `manyTill(anyChar, NameStop)` is `SplitName`, failing at the end of the input otherwise. */
  lemma FuncNameAt(w: string)
    ensures FuncName(w) == match SplitName(w)
                           case Some((name, rest)) => Success(rest, name)
                           case None => Failure([], NotSatisfied)
  {
    var d := DropWhile(NotNameStop, w);
    var k := |w| - |d|;
    assert w[k..] == d;
    forall j | 0 <= j < k ensures NameStop(w[j..]).Failure? {
      assert w[j..][0] == w[j];
    }
    assert FuncName(w) == ManyTillAt(AnyChar, NameStop, w);
    if d == [] {
      forall j | 0 <= j <= |w| ensures NameStop(w[j..]).Failure? {
        if j < |w| {
          assert w[j..][0] == w[j];
        }
      }
      ManyTillAnyCharRunsOut(NameStop, w);
    } else {
      assert NameStop(w[k..]).rest == d[1..];
      ManyTillAnyCharStops(NameStop, w, k);
    }
  }

  /** `publicFunc`-style declarations never diverge, and succeed exactly as `DeclName` says. */
  lemma DeclarationAt(first: string, second: string, s: string)
    ensures match DeclName(first, second, s)
            case Some((name, rest)) => Declaration(first, second)(s) == Success(rest, name)
            case None => Declaration(first, second)(s).Failure?
  {
    var k1 := KeywordAfter(SkipSpaces, first);
    var k2 := KeywordAfter(k1, second);
    assert Declaration(first, second) == DiscardLeft(k2, FuncName);
    SkipSpacesDrops(s);
    KeywordAfterAt(SkipSpaces, first, s);
    if k1(s).Success? {
      KeywordAfterAt(k1, second, s);
      if k2(s).Success? {
        FuncNameAt(k2(s).rest);
      }
    }
  }

  /** `decl` finds a declaration at the start of the input exactly as `DeclName` does. */
  ghost predicate ScansAs(decl: Parser<string>, first: string, second: string) {
    forall s :: match DeclName(first, second, s)
                case Some((name, rest)) => decl(s) == Success(rest, name)
                case None => decl(s).Failure?
  }

  lemma DeclarationScans(first: string, second: string)
    ensures ScansAs(Declaration(first, second), first, second)
  {
    forall s {
      DeclarationAt(first, second, s);
    }
  }

  /**
   * One step of the scan: a declaration gives `Some(name)` and resumes after
   * it; anything else but the end of the input skips one scalar.
   */
  lemma NameOrSkipAt(decl: Parser<string>, first: string, second: string, s: string)
    requires Suffixing(decl) && ScansAs(decl, first, second)
    ensures match DeclName(first, second, s)
            case Some((name, rest)) => NameOrSkip(decl)(s) == Success(rest, Some(name))
            case None => NameOrSkip(decl)(s) ==
                           if s == [] then Failure(s, NotSatisfied) else Success(s[1..], None)
  {
    assert match DeclName(first, second, s)
           case Some((name, rest)) => decl(s) == Success(rest, name)
           case None => decl(s).Failure?;
  }

  /**
   * `many(decl <&> some <|> anyChar <&> none)` always succeeds, consumes the
   * whole text, and its flattened names are `ScanNames`.
   */
  lemma {:induction false} ScanAt(decl: Parser<string>, first: string, second: string, s: string)
    requires Suffixing(decl) && ScansAs(decl, first, second)
    ensures ManyAt(NameOrSkip(decl), s).Success?
    ensures ManyAt(NameOrSkip(decl), s).rest == []
    ensures Flatten(ManyAt(NameOrSkip(decl), s).value) == ScanNames(first, second, s)
    decreases |s|
  {
    var p := NameOrSkip(decl);
    NameOrSkipAt(decl, first, second, s);
    if s != [] {
      var rest := p(s).rest;
      ScanAt(decl, first, second, rest);
      var t := ManyAt(p, rest);
      assert ManyAt(p, s) == Success(t.rest, [p(s).value] + t.value);
      assert ([p(s).value] + t.value)[1..] == t.value;
    }
  }

  /**
   * `getAllPublicFunctionNames`: the parse never fails (the source's
   * "can't happen" branch is indeed dead) and the names are `ScanNames`.
   */
  lemma PublicFunctionNamesScan(text: string)
    ensures Many(NameOrSkip(PublicFunc))(text).Success?
    ensures PublicFunctionNames(text) == ScanNames("public", "func", text)
  {
    DeclarationScans("public", "func");
    ScanAt(PublicFunc, "public", "func", text);
  }

  /** A scalar that is neither whitespace nor the keyword's first scalar starts no declaration. */
  lemma ScanSkipsOther(first: string, second: string, s: string)
    requires s != [] && !IsSpace(s[0]) && (first == [] || s[0] != first[0])
    ensures ScanNames(first, second, s) == ScanNames(first, second, s[1..])
  {
    assert DropWhile(IsSpace, s) == s;
  }

  /** Leading whitespace is skipped one scalar at a time without changing the result. */
  lemma ScanSkipsSpace(first: string, second: string, s: string)
    requires s != [] && IsSpace(s[0])
    ensures ScanNames(first, second, s) == ScanNames(first, second, s[1..])
  {
    assert DropWhile(IsSpace, s) == DropWhile(IsSpace, s[1..]);
    if s[1..] != [] {
      assert DeclName(first, second, s) == DeclName(first, second, s[1..]);
    }
  }

  /** Scalars that cannot start the keyword are skipped by the scan. */
  lemma {:induction false} ScanSkips(first: string, second: string, junk: string, s: string)
    requires first != [] && forall i :: 0 <= i < |junk| ==> junk[i] != first[0]
    ensures ScanNames(first, second, junk + s) == ScanNames(first, second, s)
    decreases |junk|
  {
    if junk != [] {
      var t := junk + s;
      assert t[0] == junk[0] && t[1..] == junk[1..] + s;
      if IsSpace(t[0]) {
        ScanSkipsSpace(first, second, t);
      } else {
        ScanSkipsOther(first, second, t);
      }
      ScanSkips(first, second, junk[1..], s);
    } else {
      assert junk + s == s;
    }
  }

  lemma {:induction false} DropWhilePrefix(pred: char -> bool, a: string, b: string)
    requires forall i :: 0 <= i < |a| ==> pred(a[i])
    requires b == [] || !pred(b[0])
    ensures DropWhile(pred, a + b) == b
    decreases |a|
  {
    if a != [] {
      assert (a + b)[0] == a[0] && (a + b)[1..] == a[1..] + b;
      DropWhilePrefix(pred, a[1..], b);
    } else {
      assert a + b == b;
    }
  }

  /** The keyword, one blank and a text that does not start with whitespace. */
  lemma AfterKeywordBlank(kw: string, v: string)
    requires v == [] || !IsSpace(v[0])
    ensures AfterKeyword(kw, kw + " " + v) == Some(v)
  {
    var u := kw + " " + v;
    assert u[..|kw|] == kw && u[|kw|] == ' ' && u[|kw| + 1..] == v;
    DropWhilePrefix(IsSpace, [], v);
    assert [] + v == v;
  }

  /** A name and its stop scalar. */
  lemma SplitNameAt(name: string, stop: char, tail: string)
    requires StopFree(name) && IsNameStop(stop)
    ensures SplitName(name + [stop] + tail) == Some((name, tail))
  {
    var w := name + [stop] + tail;
    assert w == name + ([stop] + tail);
    DropWhilePrefix(NotNameStop, name, [stop] + tail);
    assert w[..|name|] == name;
  }

  /** The text of a declaration with single blanks, grouped from the right. */
  lemma DeclarationText(first: string, second: string, w: string)
    ensures first + " " + second + " " + w == first + " " + (second + " " + w)
  {
  }

  /** `DeclName` in three steps: leading whitespace, the two keywords, the name. */
  lemma DeclNameSteps(first: string, second: string, s: string, b: string, w: string)
    requires DropWhile(IsSpace, s) == s
    requires AfterKeyword(first, s) == Some(b) && AfterKeyword(second, b) == Some(w)
    ensures DeclName(first, second, s) == SplitName(w)
  {
  }

  lemma NoLeadingSpace(s: string)
    requires s != [] && !IsSpace(s[0])
    ensures DropWhile(IsSpace, s) == s
  {
  }

  /** `first second name(`, with single blanks, is one declaration: its name and what follows the stop. */
  lemma DeclNameAt(first: string, second: string, name: string, stop: char, tail: string)
    requires PlainDeclaration(first, second, name) && IsNameStop(stop)
    ensures DeclName(first, second, first + " " + second + " " + (name + [stop] + tail)) == Some((name, tail))
  {
    var w := name + [stop] + tail;
    var b := second + " " + w;
    var s := first + " " + b;
    DeclarationText(first, second, w);
    assert s[0] == first[0];
    NoLeadingSpace(s);
    AfterKeywordBlank(first, b);
    assert w[0] == (if name == [] then stop else name[0]);
    AfterKeywordBlank(second, w);
    SplitNameAt(name, stop, tail);
    DeclNameSteps(first, second, s, b, w);
  }

  /** The scan finds such a declaration and resumes after it. */
  lemma ScanDeclaration(first: string, second: string, name: string, stop: char, tail: string)
    requires PlainDeclaration(first, second, name) && IsNameStop(stop)
    ensures ScanNames(first, second, first + " " + second + " " + (name + [stop] + tail)) ==
            [name] + ScanNames(first, second, tail)
  {
    DeclNameAt(first, second, name, stop, tail);
  }

  /**
   * An operator declaration (`public func <&>(...)`) yields the empty name,
   * as the note at the top of the checker source anticipates.
   */
  lemma OperatorNameIsEmpty(rest: string)
    ensures ScanNames("public", "func", "public func <" + rest) == [""] + ScanNames("public", "func", rest)
  {
    assert "public func <" + rest == "public" + " " + "func" + " " + ("" + ['<'] + rest);
    ScanDeclaration("public", "func", "", '<', rest);
  }

  lemma Regroup<T>(k: seq<T>, a: seq<T>, o: seq<T>, g: seq<T>, b: seq<T>, t: seq<T>)
    ensures k + a + o + g + k + b + o + t == k + (a + o + (g + (k + (b + o + t))))
  {
  }

  /** No scalar of `text` is the first scalar of the keyword `first`, so no declaration starts in it. */
  predicate NoKeywordStart(first: string, text: string)
    requires first != []
  {
    forall i :: 0 <= i < |text| ==> text[i] != first[0]
  }

  /** The conditions on the keywords and the name under which the declaration is recognised. */
  predicate PlainDeclaration(first: string, second: string, name: string) {
    first != [] && !IsSpace(first[0]) && second != [] && !IsSpace(second[0])
    && StopFree(name) && (name == [] || !IsSpace(name[0]))
  }

  /** One declaration and no further keyword: just its name. */
  lemma OneDeclaration(first: string, second: string, n: string, tail: string)
    requires PlainDeclaration(first, second, n) && NoKeywordStart(first, tail)
    ensures ScanNames(first, second, first + " " + second + " " + (n + ['('] + tail)) == [n]
  {
    ScanDeclaration(first, second, n, '(', tail);
    ScanSkips(first, second, tail, []);
    assert tail + [] == tail;
  }

  /** The first of two declarations: its name, then whatever follows it. */
  lemma FirstOfTwo(first: string, second: string, n1: string, gap: string, n2: string, tail: string)
    requires PlainDeclaration(first, second, n1)
    ensures var key := first + " " + second + " ";
            ScanNames(first, second, key + n1 + ['('] + gap + key + n2 + ['('] + tail)
              == [n1] + ScanNames(first, second, gap + (key + (n2 + ['('] + tail)))
  {
    var key := first + " " + second + " ";
    Regroup(key, n1, ['('], gap, n2, tail);
    ScanDeclaration(first, second, n1, '(', gap + (key + (n2 + ['('] + tail)));
  }

  /** The second declaration after a gap without the first keyword: just its name. */
  lemma SecondOfTwo(first: string, second: string, gap: string, n2: string, tail: string)
    requires PlainDeclaration(first, second, n2)
    requires NoKeywordStart(first, gap) && NoKeywordStart(first, tail)
    ensures ScanNames(first, second, gap + (first + " " + second + " " + (n2 + ['('] + tail))) == [n2]
  {
    ScanSkips(first, second, gap, first + " " + second + " " + (n2 + ['('] + tail));
    OneDeclaration(first, second, n2, tail);
  }

  /** Two declarations with no other keyword between or after them: both names, in order. */
  lemma TwoDeclarationsOf(first: string, second: string, n1: string, gap: string, n2: string, tail: string)
    requires PlainDeclaration(first, second, n1) && PlainDeclaration(first, second, n2)
    requires NoKeywordStart(first, gap) && NoKeywordStart(first, tail)
    ensures var key := first + " " + second + " ";
            ScanNames(first, second, key + n1 + ['('] + gap + key + n2 + ['('] + tail) == [n1, n2]
  {
    FirstOfTwo(first, second, n1, gap, n2, tail);
    SecondOfTwo(first, second, gap, n2, tail);
  }

  /**
   * `public func n1(` ... `public func n2(` ... in one text, with no other
   * `p` between or after them: both names, in order.
   */
  lemma TwoDeclarations(n1: string, gap: string, n2: string, tail: string)
    requires PlainDeclaration("public", "func", n1) && PlainDeclaration("public", "func", n2)
    requires NoKeywordStart("public", gap) && NoKeywordStart("public", tail)
    ensures ScanNames("public", "func", "public func " + n1 + "(" + gap + "public func " + n2 + "(" + tail) == [n1, n2]
  {
    assert "public func " == "public" + " " + "func" + " " && "(" == ['('];
    TwoDeclarationsOf("public", "func", n1, gap, n2, tail);
  }

  // ---------------------------------------------------------------------
  // publicFunctionsAreDocumented
  // ---------------------------------------------------------------------

  /**
   * A reference reading of the checker, front to back: each token with its
   * successor, the first token only ever as a predecessor.
   */
  function ReportedFrom(names: string -> seq<string>, tokens: seq<Token>): seq<string>
    decreases |tokens|
  {
    if |tokens| < 2 then []
    else Reported(names, tokens[0], tokens[1]) + ReportedFrom(names, tokens[1..])
  }

  /** The contributions of two runs of pairs, one after the other. */
  lemma {:induction false} ReportedAllAppend(names: string -> seq<string>, a: seq<(Token, Token)>, b: seq<(Token, Token)>)
    ensures ReportedAll(names, a + b) == ReportedAll(names, a) + ReportedAll(names, b)
    decreases |b|
  {
    if b == [] {
      assert a + b == a;
    } else {
      var front := b[..|b| - 1];
      assert (a + b)[..|a + b| - 1] == a + front;
      assert (a + b)[|a + b| - 1] == b[|b| - 1];
      ReportedAllAppend(names, a, front);
      AppendAssoc(ReportedAll(names, a), ReportedAll(names, front), Reported(names, b[|b| - 1].0, b[|b| - 1].1));
    }
  }

  lemma PairwiseCons<T>(x: T, rest: seq<T>)
    requires rest != []
    ensures Pairwise([x] + rest) == [(x, rest[0])] + Pairwise(rest)
  {
    assert ([x] + rest)[1..] == rest;
  }

  /** The loop's left-to-right accumulation is the front-to-back reading. */
  lemma {:induction false} PairwiseFromFront(names: string -> seq<string>, tokens: seq<Token>)
    ensures ReportedAll(names, Pairwise(tokens)) == ReportedFrom(names, tokens)
    decreases |tokens|
  {
    if |tokens| >= 2 {
      var rest := tokens[1..];
      assert [tokens[0]] + rest == tokens;
      PairwiseCons(tokens[0], rest);
      var head := [(tokens[0], tokens[1])];
      assert ReportedAll(names, head) == Reported(names, tokens[0], tokens[1]) by {
        assert head[..0] == [];
      }
      ReportedAllAppend(names, head, Pairwise(rest));
      PairwiseFromFront(names, rest);
    }
  }

  /**
   * The checker reads tokens as a stream: one more token appends what the
   * new pair (old last token, new token) contributes.
   */
  lemma PairwiseSnoc(names: string -> seq<string>, tokens: seq<Token>, t: Token)
    requires tokens != []
    ensures ReportedAll(names, Pairwise(tokens + [t])) ==
            ReportedAll(names, Pairwise(tokens)) + Reported(names, tokens[|tokens| - 1], t)
  {
    var pairs := Pairwise(tokens + [t]);
    assert pairs[..|pairs| - 1] == Pairwise(tokens);
    assert pairs[|pairs| - 1] == (tokens[|tokens| - 1], t);
  }

  /** A token in front of a stream contributes its pair with the stream's first token. */
  lemma ReportedFromCons(names: string -> seq<string>, t: Token, rest: seq<Token>)
    ensures rest == [] ==> ReportedFrom(names, [t] + rest) == []
    ensures rest != [] ==> ReportedFrom(names, [t] + rest) == Reported(names, t, rest[0]) + ReportedFrom(names, rest)
  {
    var all := [t] + rest;
    if rest != [] {
      assert all[0] == t && all[1] == rest[0] && all[1..] == rest;
    }
  }

  /** Two predecessors that are both doc comments, or both not, contribute alike. */
  lemma SameDocSameReport(names: string -> seq<string>, t: Token, u: Token, current: Token)
    requires IsDocComment(t) == IsDocComment(u)
    ensures Reported(names, t, current) == Reported(names, u, current)
  {
  }

  /**
   * The first token is never scanned for names: only whether it is a doc
   * comment matters, and a stream of one token reports nothing.
   */
  lemma FirstTokenOnlyAsPrev(names: string -> seq<string>, t: Token, u: Token, rest: seq<Token>)
    requires IsDocComment(t) == IsDocComment(u)
    ensures ReportedAll(names, Pairwise([t] + rest)) == ReportedAll(names, Pairwise([u] + rest))
    ensures ReportedAll(names, Pairwise([t])) == []
  {
    PairwiseFromFront(names, [t] + rest);
    PairwiseFromFront(names, [u] + rest);
    ReportedFromCons(names, t, rest);
    ReportedFromCons(names, u, rest);
    if rest != [] {
      SameDocSameReport(names, t, u, rest[0]);
    }
    PairwiseFromFront(names, [t]);
  }

  /** A doc comment and a text: the text's names but the first. */
  lemma DocThenText(names: string -> seq<string>, doc: Token, text: string)
    requires IsDocComment(doc)
    ensures ReportedAll(names, Pairwise([doc, Text(text)])) == DropFirst(names(text))
  {
    PairwiseFromFront(names, [doc, Text(text)]);
    ReportedFromCons(names, doc, [Text(text)]);
    ReportedFromCons(names, Text(text), []);
  }

  /**
   * A doc comment followed by a text with two declarations: only the second
   * name is reported.  The same text as the only token reports nothing, since
   * the first token is never the current one of a pair.
   */
  lemma DocCommentScenario(doc: Token, n1: string, gap: string, n2: string, tail: string)
    requires IsDocComment(doc)
    requires PlainDeclaration("public", "func", n1) && PlainDeclaration("public", "func", n2)
    requires NoKeywordStart("public", gap) && NoKeywordStart("public", tail)
    ensures var text := "public func " + n1 + "(" + gap + "public func " + n2 + "(" + tail;
            Undocumented([doc, Text(text)]) == [n2] && Undocumented([Text(text)]) == []
  {
    var text := "public func " + n1 + "(" + gap + "public func " + n2 + "(" + tail;
    DocThenText(PublicFunctionNames, doc, text);
    PublicFunctionNamesScan(text);
    TwoDeclarations(n1, gap, n2, tail);
    FirstTokenOnlyAsPrev(PublicFunctionNames, Text(text), Text(text), []);
  }
}
