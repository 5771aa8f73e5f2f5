/** Routes: compiling a pattern, checking it against its handler, and serving the paths that read as it. */
module Routes {
  import opened Wrappers
  import opened Regex
  import opened RoutePatterns
  import opened Splicing
  import opened RouteChunks
  import opened RouteNumbers
  import opened RouteLanguage
  import opened RouteArguments
  import opened RouteMatches

  datatype Result<+T> = Ok(value: T) | Err(error: RouteError)

  datatype RouteError =
    | InvalidRegex
    | LibraryError
    | CountMismatch
    | TypeMismatch(index: nat)

  // ----- Compiling a pattern

  /** Each string regex is checked by itself as its parameter is met. */
  predicate ValueValid(t: Token) {
    t.kind.String? || t.kind.OptionalString? ==> IsExpression(t.value)
  }

  predicate ValuesValid(p: Pattern) {
    p.Param? ==> ValueValid(p.tok) && ValuesValid(p.rest)
  }

  function CompilePattern(s: string): Result<(Regex, seq<RouteParamType>)> {
    if !ValuesValid(Scan(s)) then Err(InvalidRegex)
    else
      match Spliced(s)
      case None => Err(LibraryError)
      case Some(f) => if IsExpression(f) then Ok((Expression(f), Kinds(Scan(s)))) else Err(InvalidRegex)
  }

  /** One step of the leftmost scan, seen from the collected lists. */
  lemma ScanStep(s: string, pos: nat, k: nat)
    requires pos < |s|
    ensures s[pos..] != ""
    ensures TokenAt(s[pos..]).None? ==>
      && Replacements(TemplateOf(Scan(s[pos..]), k)) == Replacements(TemplateOf(Scan(s[pos + 1..]), k))
      && Kinds(Scan(s[pos..])) == Kinds(Scan(s[pos + 1..]))
      && ValuesValid(Scan(s[pos..])) == ValuesValid(Scan(s[pos + 1..]))
    ensures TokenAt(s[pos..]).Some? ==>
      var t := TokenAt(s[pos..]).value;
      && pos + |Source(t)| <= |s|
      && Replacements(TemplateOf(Scan(s[pos..]), k)) ==
           [(Source(t), Chunk(t, k))] + Replacements(TemplateOf(Scan(s[pos + |Source(t)|..]), k + 1))
      && Kinds(Scan(s[pos..])) == [t.kind] + Kinds(Scan(s[pos + |Source(t)|..]))
      && ValuesValid(Scan(s[pos..])) == (ValueValid(t) && ValuesValid(Scan(s[pos + |Source(t)|..])))
  {
    hide TokenAt, Source, Chunk, IsExpression;
    var u := s[pos..];
    if TokenAt(u).Some? {
      TokenAtSound(u);
      assert u[|Source(TokenAt(u).value)|..] == s[pos + |Source(TokenAt(u).value)|..];
    } else {
      assert u[1..] == s[pos + 1..];
    }
  }

  /** First pass: a leftmost scan collects what to replace, and stops at an invalid string regex. */
  method CollectReplacements(pattern: string)
    returns (valid: bool, replacements: seq<(string, string)>, types: seq<RouteParamType>)
    ensures valid <==> ValuesValid(Scan(pattern))
    ensures valid ==> replacements == Replacements(TemplateOf(Scan(pattern), 0)) && types == Kinds(Scan(pattern))
  {
    hide TokenAt, Source, Chunk, Scan, TemplateOf, Replacements, Kinds, ValuesValid, ValueValid;
    types, replacements := [], [];
    var pos := 0;
    assert pattern[0..] == pattern;
    while pos < |pattern|
      invariant pos <= |pattern|
      invariant Replacements(TemplateOf(Scan(pattern), 0)) ==
                  replacements + Replacements(TemplateOf(Scan(pattern[pos..]), |replacements|))
      invariant Kinds(Scan(pattern)) == types + Kinds(Scan(pattern[pos..]))
      invariant ValuesValid(Scan(pattern)) == ValuesValid(Scan(pattern[pos..]))
      decreases |pattern| - pos
    {
      ScanStep(pattern, pos, |replacements|);
      match TokenAt(pattern[pos..])
      case None =>
        pos := pos + 1;
      case Some(t) =>
        if !ValueValid(t) {
          return false, [], [];
        }
        replacements := replacements + [(Source(t), Chunk(t, |replacements|))];
        types := types + [t.kind];
        pos := pos + |Source(t)|;
    }
    NothingLeft(pattern[pos..], |replacements|);
    valid := true;
  }

  /** Second pass: splice the chunks into a copy of the pattern, the cursor moving by the replaced length. */
  method ApplyReplacements(pattern: string, replacements: seq<(string, string)>) returns (r: Option<string>)
    ensures r == Splice(pattern, 0, replacements)
  {
    hide Find;
    var finalRoute := pattern;
    var it: nat := 0;
    for i := 0 to |replacements|
      invariant Splice(finalRoute, it, replacements[i..]) == Splice(pattern, 0, replacements)
    {
      match Find(finalRoute, replacements[i].0, it)
      case None =>
        return None;
      case Some(q) =>
        assert replacements[i..][1..] == replacements[i + 1..];
        finalRoute := Replaced(finalRoute, q, |replacements[i].0|, replacements[i].1);
        it := q + |replacements[i].0|;
    }
    return Some(finalRoute);
  }

  method ParseRoutePattern(pattern: string) returns (r: Result<(Regex, seq<RouteParamType>)>)
    ensures r == CompilePattern(pattern)
  {
    hide TokenAt, Source, Chunk, Scan, TemplateOf, Replacements, Kinds, ValuesValid, IsExpression, Expression, Splice;
    var valid, replacements, types := CollectReplacements(pattern);
    if !valid {
      return Err(InvalidRegex);
    }
    var finalRoute := ApplyReplacements(pattern, replacements);
    if finalRoute.None? {
      return Err(LibraryError);
    }
    if !IsExpression(finalRoute.value) {
      return Err(InvalidRegex);
    }
    return Ok((Expression(finalRoute.value), types));
  }

  lemma NothingLeft(s: string, k: nat)
    requires s == ""
    ensures Replacements(TemplateOf(Scan(s), k)) == [] && Kinds(Scan(s)) == [] && ValuesValid(Scan(s))
  {
  }

  // ----- The compiled pattern matches what the pattern reads

  /** The match shows what this reading of the pattern shows. */
  ghost predicate ReadsAs(p: Pattern, f: Fit, r: Reading)
    requires Composes(p)
  {
    Reads(p, r) && f == Fit(PathOf(r), GroupsOf(p, r))
  }

  lemma {:induction false} ComposesIsValid(p: Pattern)
    requires Composes(p)
    ensures ValuesValid(p)
  {
    hide IsExpression, IsBranch, Branch;
    if p.Param? { ComposesIsValid(p.rest); }
  }

  /** Compilation preserves meaning: the text of a match and every group in it are those of a reading. */
  lemma CompilationPreservesMeaning(s: string)
    requires Composes(Scan(s)) && Spliced(s) == Some(Compiled(Scan(s), 0))
    ensures CompilePattern(s) == Ok((RegexOf(Scan(s), 0), Kinds(Scan(s))))
    ensures forall f: Fit :: Matches(CompilePattern(s).value.0, f) <==> exists r :: ReadsAs(Scan(s), f, r)
  {
    var p := Scan(s);
    ComposesIsValid(p);
    CompiledIsExpression(p);
    hide Compiled, Scan, Spliced, Composes, RegexOf, Matches, IsExpression, Expression, ReadsAs, ValuesValid;
    forall f: Fit ensures Matches(RegexOf(p, 0), f) <==> exists r :: ReadsAs(p, f, r) {
      RegexReads(p, f);
    }
  }

  lemma CompiledIsExpression(p: Pattern)
    requires Composes(p)
    ensures IsExpression(Compiled(p, 0)) && Expression(Compiled(p, 0)) == RegexOf(p, 0)
  {
    hide Compiled, RegexOf, Composes, ParseBranch;
    CompiledParses(p, 0);
  }

  lemma RegexReads(p: Pattern, f: Fit)
    requires Composes(p)
    ensures Matches(RegexOf(p, 0), f) <==> exists r :: ReadsAs(p, f, r)
  {
    hide Matches, RegexOf, Composes, Reads, PathOf, GroupsOf;
    if Matches(RegexOf(p, 0), f) {
      var r := PatternElim(p, 0, f);
      assert ReadsAs(p, f, r);
    }
    if r :| ReadsAs(p, f, r) {
      PatternIntro(p, 0, r);
    }
  }

  // ----- Routes

  datatype Route = Route(methods: set<string>, regex: Regex, params: seq<RouteParamType>)

  /** The Route constructor: compile, then check arity and types against the handler, left to right. */
  method MakeRoute(pattern: string, methods: set<string>, functionParams: seq<RouteParamType>)
    returns (r: Result<Route>)
    ensures r.Ok? <==> CompilePattern(pattern).Ok? && CompilePattern(pattern).value.1 == functionParams
    ensures r.Ok? ==> r.value == Route(methods, CompilePattern(pattern).value.0, functionParams)
    ensures CompilePattern(pattern).Err? ==> r == Err(CompilePattern(pattern).error)
    ensures CompilePattern(pattern).Ok? ==>
      var kinds := CompilePattern(pattern).value.1;
      && (r == Err(CountMismatch) <==> |kinds| != |functionParams|)
      && (r.Err? && |kinds| == |functionParams| ==>
            (r.error.TypeMismatch? && r.error.index < |kinds| &&
             kinds[r.error.index] != functionParams[r.error.index] &&
             kinds[..r.error.index] == functionParams[..r.error.index]))
  {
    hide CompilePattern;
    var compiled := ParseRoutePattern(pattern);
    match compiled
    case Err(e) => return Err(e);
    case Ok((regex, patternParams)) =>
      if |patternParams| != |functionParams| {
        return Err(CountMismatch);
      }
      for i := 0 to |patternParams|
        invariant patternParams[..i] == functionParams[..i]
      {
        if patternParams[i] != functionParams[i] {
          return Err(TypeMismatch(i));
        }
      }
      return Ok(Route(methods, regex, functionParams));
  }

  /** The outcome of the regex engine on a path: some match of the whole path if there is one. */
  ghost predicate EngineAnswers(regex: Regex, path: string, answer: Option<Groups>) {
    match answer
    case Some(groups) => Matches(regex, Fit(path, groups))
    case None => forall groups: Groups :: !Matches(regex, Fit(path, groups))
  }

  function Handler(route: Route, methodName: string, answer: Option<Groups>): RouteMatchResult<seq<Arg>>
    requires answer.Some? ==> |answer.value| == |Names(route.regex)|
  {
    match answer
    case None => PathNotMatched
    case Some(groups) =>
      if methodName !in route.methods then MethodNotMatched
      else RouteMatched(CallArgs(route.params, Names(route.regex), groups))
  }

  /** A path that reads as the pattern in some way. */
  ghost predicate CanRead(p: Pattern, path: string) {
    exists r :: Reads(p, r) && PathOf(r) == path
  }

  /** The arguments are the pieces of one way to read the path. */
  ghost predicate ArgsRead(p: Pattern, path: string, args: seq<Arg>) {
    exists r :: Reads(p, r) && PathOf(r) == path && |Pieces(r)| == |Kinds(p)| == |args| &&
      forall k :: 0 <= k < |args| ==> ArgIsPiece(Kinds(p)[k], Pieces(r)[k], args[k])
  }

  /** From pattern to handler: a constructed route matches exactly the paths that read as its pattern,
      whatever match the engine picks, and calls its handler with the pieces of such a reading. */
  lemma RouteServesItsPattern(s: string, methods: set<string>, path: string, methodName: string, answer: Option<Groups>)
    requires Composes(Scan(s)) && Spliced(s) == Some(Compiled(Scan(s), 0))
    requires CompilePattern(s).Ok? ==> EngineAnswers(CompilePattern(s).value.0, path, answer)
    ensures CompilePattern(s).Ok?
    ensures answer.Some? ==> |answer.value| == |Names(CompilePattern(s).value.0)|
    ensures var (regex, params) := CompilePattern(s).value;
      var m := Handler(Route(methods, regex, params), methodName, answer);
      && (m.PathNotMatched? <==> !CanRead(Scan(s), path))
      && (m.MethodNotMatched? <==> CanRead(Scan(s), path) && methodName !in methods)
      && (m.RouteMatched? && KeepsOwn(Scan(s)) ==> ArgsRead(Scan(s), path, m.call))
  {
    hide Composes, Scan, Compiled, Spliced, CompilePattern, Reads, PathOf;
    hide GroupsOf, Matches, CallArgs, ArgIsPiece, RegexOf;
    hide KeepsOwn, Names, Kinds;
    CompilationPreservesMeaning(s);
    var p := Scan(s);
    match answer {
      case None =>
        forall r | Reads(p, r) ensures PathOf(r) != path {
          assert ReadsAs(p, Fit(PathOf(r), GroupsOf(p, r)), r);
          assert Matches(RegexOf(p, 0), Fit(PathOf(r), GroupsOf(p, r)));
        }
      case Some(groups) =>
        MatchHasGroups(RegexOf(p, 0), Fit(path, groups));
        var r :| ReadsAs(p, Fit(path, groups), r);
        if KeepsOwn(p) { ArgsArePieces(p, r); }
        assert CanRead(p, path);
    }
  }

  // ----- Text without operators stands for itself

  predicate IsPlainChar(c: char) {
    !IsQuantifier(c) && c != '|' && c != '(' && c != ')' && c != '[' && c != '\\' && c != '.' && c != '^' && c != '$'
  }

  predicate IsPlain(s: string) { forall i :: 0 <= i < |s| ==> IsPlainChar(s[i]) }

  lemma {:induction false} PlainParses(s: string)
    requires IsPlain(s)
    ensures IsBranch(s) && Names(Branch(s)) == []
    ensures forall f :: Matches(Branch(s), f) <==> f == Fit(s, [])
  {
    if s == "" {
      forall f ensures Matches(Branch(s), f) <==> f == Fit(s, []) { EmptyMatches(f); }
    } else {
      var rest := s[1..];
      PlainParses(rest);
      assert ParseAtom(s) == Some((Literal(s[0]), rest));
      assert ParsePiece(s) == Some((Literal(s[0]), rest));
      assert Branch(s) == Cat(Literal(s[0]), Branch(rest));
      hide Matches, Branch, IsBranch;
      forall f ensures Matches(Branch(s), f) <==> f == Fit(s, []) {
        LiteralThen(s[0], Branch(rest), rest, f);
      }
    }
  }

  lemma LiteralThen(c: char, r: Regex, rest: string, f: Fit)
    requires forall g :: Matches(r, g) <==> g == Fit(rest, [])
    ensures Matches(Cat(Literal(c), r), f) <==> f == Fit([c] + rest, [])
  {
    hide Matches;
    var cs := CharSet(false, [(c, c)]);
    assert cs.ranges[0] == (c, c);
    if Matches(Cat(Literal(c), r), f) {
      var g, h := CatSplits(Literal(c), r, f);
      CharMatches(cs, g);
      assert g.text == [c];
    }
    CharMatches(cs, Fit([c], []));
    CatJoins(Literal(c), r, Fit([c], []), Fit(rest, []));
    assert Then(Fit([c], []), Fit(rest, [])) == Fit([c] + rest, []);
  }

  /** Operator-free literal or consumed text composes, names nothing, and matches exactly itself. */
  lemma PlainTextStandsForItself(s: string, f: Fit)
    requires IsPlain(s)
    ensures IsBranch(s) && Names(Branch(s)) == [] && (TextFits(s, f) <==> f == Fit(s, []))
    ensures IsExpression(s) && Expression(s) == Branch(s) && !Branch(s).Alt?
  {
    PlainParses(s);
    hide Matches, ParseBranch;
    BranchIsNoAlternative(s);
  }

  lemma BranchIsNoAlternative(s: string)
    requires IsBranch(s)
    ensures IsExpression(s) && Expression(s) == Branch(s) && !Branch(s).Alt?
  {
    BranchIsChain(s);
  }

  // ----- Consumed text and its value

  ghost predicate ValueReads(t: Token, w: string) {
    exists f :: ValueFits(t, f) && f.text == w
  }

  /** Consumed text as it may stand behind a value. */
  ghost predicate BehindReads(t: Token, w: string) {
    exists f :: TrailerFits(t, f) && f.text == w
  }

  /** Consumed text as it may stand alone: a later alternative. */
  ghost predicate AloneReads(t: Token, w: string) {
    exists f :: SkipFits(t, f) && f.text == w
  }

  ghost predicate ConsumedReads(t: Token, w: string) {
    IsExpression(t.consumed) && exists f :: Matches(Expression(t.consumed), f) && f.text == w
  }

  /** The pattern that is one parameter. */
  function Only(t: Token): Pattern { Param("", t, Tail("")) }

  /** A value, then consumed text. */
  ghost predicate ValueThenConsumed(t: Token, w: string) {
    exists i :: 0 <= i <= |w| && ValueReads(t, w[..i]) && BehindReads(t, w[i..])
  }

  lemma NothingIsPlain()
    ensures IsBranch("") && forall f :: TextFits("", f) <==> f == Fit("", [])
  {
    forall f ensures TextFits("", f) <==> f == Fit("", []) { PlainTextStandsForItself("", f); }
  }

  lemma OnlyReads(t: Token, x: Piece)
    requires PieceFits(t, x)
    ensures CanRead(Only(t), PieceText(x))
  {
    hide PieceFits, TextFits, IsBranch;
    NothingIsPlain();
    var p, r := Only(t), Step(Fit("", []), x, Last(Fit("", [])));
    assert Reads(p.rest, r.rest) && PathOf(r.rest) == "";
    assert Reads(p, r) && PathOf(r) == PieceText(x);
  }

  lemma OptionalElim(t: Token, r: Reading)
    requires IsOptional(t.kind) && Reads(Only(t), r)
    ensures PathOf(r) == "" || ValueThenConsumed(t, PathOf(r)) || AloneReads(t, PathOf(r))
  {
    hide ValueFits, TrailerFits, SkipFits;
    NothingIsPlain();
    hide TextFits, IsBranch;
    var path := PathOf(r);
    assert Reads(Tail(""), r.rest) && PathOf(r.rest) == "" && path == PieceText(r.piece);
    if r.piece.Present? {
      var i := |r.piece.value.text|;
      assert path[..i] == r.piece.value.text && path[i..] == r.piece.trailer.text;
    }
  }

  lemma OptionalIntro(t: Token, path: string)
    requires IsOptional(t.kind) && (path == "" || ValueThenConsumed(t, path) || AloneReads(t, path))
    ensures CanRead(Only(t), path)
  {
    hide ValueFits, TrailerFits, SkipFits, CanRead;
    if path == "" {
      OnlyReads(t, Absent);
    } else if ValueThenConsumed(t, path) {
      var i :| 0 <= i <= |path| && ValueReads(t, path[..i]) && BehindReads(t, path[i..]);
      var v :| ValueFits(t, v) && v.text == path[..i];
      var u :| TrailerFits(t, u) && u.text == path[i..];
      OnlyReads(t, Present(v, u));
      assert path == path[..i] + path[i..];
    } else {
      var u :| SkipFits(t, u) && u.text == path;
      OnlyReads(t, Skipped(u));
    }
  }

  /** An optional by itself reads nothing, or a value with the consumed text behind it, or a later alternative of
      the consumed text. */
  lemma OptionalReads(t: Token, path: string)
    requires WellFormed(t) && IsOptional(t.kind) && TokenComposes(t)
    ensures CanRead(Only(t), path) <==> path == "" || ValueThenConsumed(t, path) || AloneReads(t, path)
  {
    hide ValueThenConsumed, AloneReads, Reads, PathOf;
    if r :| Reads(Only(t), r) && PathOf(r) == path { OptionalElim(t, r); }
    if path == "" || ValueThenConsumed(t, path) || AloneReads(t, path) { OptionalIntro(t, path); }
  }

  lemma ConsumedIs(t: Token, w: string)
    requires TokenComposes(t)
    ensures ConsumedReads(t, w) <==> BehindReads(t, w) || AloneReads(t, w)
  {
    hide Matches, IsExpression, Expression;
    var e := Expression(t.consumed);
    if e.Alt? {
      if f :| Matches(e, f) && f.text == w {
        var left, g := AltSplits(e.left, e.right, f);
        assert g.text == w;
        if left { assert TrailerFits(t, g); } else { assert SkipFits(t, g); }
      }
      if f :| TrailerFits(t, f) && f.text == w {
        AltJoinsLeft(e.left, e.right, f);
        assert Then(f, Fit("", Nothing(|Names(e.right)|))).text == w;
      }
      if f :| SkipFits(t, f) && f.text == w {
        AltJoinsRight(e.left, e.right, f);
        assert Then(Fit("", Nothing(|Names(e.left)|)), f).text == w;
      }
    } else {
      if f :| Matches(e, f) && f.text == w { assert TrailerFits(t, f); }
    }
  }

  /** The consumed text is consumed whether or not the value is there. */
  ghost predicate ConsumedRegardless(t: Token) {
    forall u :: ConsumedReads(t, u) ==> CanRead(Only(t), u)
  }

  /** That holds exactly when the consumed text, where it stands behind a value, is empty, or a later alternative of
      itself, or a value with consumed text behind it. */
  lemma ConsumedRegardlessIff(t: Token)
    requires WellFormed(t) && IsOptional(t.kind) && TokenComposes(t)
    ensures ConsumedRegardless(t) <==>
              forall u :: BehindReads(t, u) ==> u == "" || AloneReads(t, u) || ValueThenConsumed(t, u)
  {
    hide BehindReads, AloneReads, ValueThenConsumed, ConsumedReads, CanRead, TokenComposes, WellFormed;
    forall u
      ensures ConsumedReads(t, u) <==> BehindReads(t, u) || AloneReads(t, u)
      ensures CanRead(Only(t), u) <==> u == "" || ValueThenConsumed(t, u) || AloneReads(t, u)
    {
      ConsumedIs(t, u);
      OptionalReads(t, u);
    }
  }

  /** A value that may be empty is enough. */
  lemma EmptyValueConsumes(t: Token)
    requires WellFormed(t) && IsOptional(t.kind) && TokenComposes(t) && ValueReads(t, "")
    ensures ConsumedRegardless(t)
  {
    ConsumedRegardlessIff(t);
    hide BehindReads, AloneReads, ValueReads, ConsumedRegardless, TokenComposes, WellFormed;
    forall u | BehindReads(t, u) ensures ValueThenConsumed(t, u) {
      assert u[..0] == "" && u[0..] == u;
    }
  }

  /** Otherwise, without alternatives, some consumed text must be empty. */
  lemma {:induction false} ConsumedMustEnd(t: Token, u: string)
    requires WellFormed(t) && IsOptional(t.kind) && TokenComposes(t) && !Expression(t.consumed).Alt?
    requires ConsumedRegardless(t) && !ValueReads(t, "") && BehindReads(t, u)
    ensures BehindReads(t, "")
    decreases |u|
  {
    ConsumedRegardlessIff(t);
    assert !AloneReads(t, u);
    hide BehindReads, AloneReads, ValueReads, ConsumedRegardless, TokenComposes, WellFormed, IsExpression, Expression;
    if u != "" {
      var i :| 0 <= i <= |u| && ValueReads(t, u[..i]) && BehindReads(t, u[i..]);
      assert u[..0] == "";
      ConsumedMustEnd(t, u[i..]);
    }
  }

  /** For operator-free consumed text the exact condition is that the value may be empty. */
  lemma PlainConsumedIff(t: Token)
    requires WellFormed(t) && IsOptional(t.kind) && TokenComposes(t) && IsPlain(t.consumed) && t.consumed != ""
    ensures ConsumedRegardless(t) <==> ValueReads(t, "")
    ensures CanRead(Only(t), t.consumed) <==> ValueReads(t, "")
  {
    hide ValueReads, ConsumedRegardless, TokenComposes, WellFormed, IsPlain, CanRead;
    var c := t.consumed;
    PlainConsumed(t);
    ConsumedRegardlessIff(t);
    OptionalReads(t, c);
    hide BehindReads, AloneReads;
    assert c[..0] == "" && c[0..] == c;
    if ValueThenConsumed(t, c) {
      var i :| 0 <= i <= |c| && ValueReads(t, c[..i]) && BehindReads(t, c[i..]);
      assert i == 0;
    }
    if ValueReads(t, "") { EmptyValueConsumes(t); }
  }

  lemma PlainConsumed(t: Token)
    requires TokenComposes(t) && IsPlain(t.consumed)
    ensures forall u :: BehindReads(t, u) <==> u == t.consumed
    ensures forall u :: !AloneReads(t, u)
  {
    hide IsPlain, Matches, IsBranch, IsExpression, Expression, Branch;
    var c := t.consumed;
    forall f ensures TrailerFits(t, f) <==> f == Fit(c, []) { PlainTextStandsForItself(c, f); }
    PlainTextStandsForItself(c, Fit(c, []));
    forall u ensures BehindReads(t, u) <==> u == c {
      if u == c { assert TrailerFits(t, Fit(c, [])); }
    }
  }

  lemma NumbersAreNotEmpty(t: Token)
    requires t.kind.OptionalInt64? || t.kind.OptionalDouble?
    ensures !ValueReads(t, "")
  {
  }

  /** The pattern `{{i?:c}}` for an operator-free c. */
  lemma OptionalIsScanned(c: string)
    requires Uninterrupted(c) && IsPlain(c)
    ensures Scan("{{i?:" + c + "}}") == Only(Token(OptionalInt64, "", c))
    ensures Composes(Only(Token(OptionalInt64, "", c)))
  {
    hide TokenAt, IsBranch, Branch, IsPlain, Uninterrupted, IsExpression, Expression, IsScan, Scan;
    UninterruptedIsLong(c);
    var t := Token(OptionalInt64, "", c);
    var p, s := Only(t), "{{i?:" + c + "}}";
    assert Source(t) == s by {
      assert Body(t) == "" + (":" + c) + "}}";
      assert Opening(OptionalInt64) + (":" + c + "}}") == s;
    }
    ScanTail("");
    ScanParam("", t, Tail(""));
    assert Unscan(p) == s;
    ScanUnique(p);
    NothingIsPlain();
    PlainTextStandsForItself(c, Fit(c, []));
  }

  /** `{{i?:c}}` reads nothing, or an integer and then c: c alone is not consumed when the value is missing. */
  lemma ConsumedOnlyWithValue(c: string, path: string)
    requires Uninterrupted(c) && IsPlain(c)
    ensures CanRead(Scan("{{i?:" + c + "}}"), path) <==> path == "" || exists v :: IsInteger(v) && path == v + c
    ensures !CanRead(Scan("{{i?:" + c + "}}"), c)
  {
    hide Scan, IsInteger, IsPlain, Uninterrupted, Composes, CanRead, BehindReads, AloneReads, TokenComposes;
    var t := Token(OptionalInt64, "", c);
    OptionalIsScanned(c);
    UninterruptedIsLong(c);
    OnlyComposes(t);
    OptionalReads(t, path);
    PlainConsumed(t);
    PlainConsumedIff(t);
    NumbersAreNotEmpty(t);
    hide ValueReads;
    forall w ensures ValueReads(t, w) <==> IsInteger(w) { IntegerReads(t, w); }
    if v :| IsInteger(v) && path == v + c { assert path[..|v|] == v && path[|v|..] == c; }
    if ValueThenConsumed(t, path) {
      var i :| 0 <= i <= |path| && ValueReads(t, path[..i]) && BehindReads(t, path[i..]);
      assert path == path[..i] + c;
    }
  }

  lemma OnlyComposes(t: Token)
    requires Composes(Only(t))
    ensures WellFormed(t) && TokenComposes(t)
  {
  }

  lemma IntegerReads(t: Token, w: string)
    requires t.kind.OptionalInt64?
    ensures ValueReads(t, w) <==> IsInteger(w)
  {
    if IsInteger(w) { assert ValueFits(t, Fit(w, [])); }
  }
}
