/** A route with one integer behind a plain text, from its pattern to the integer its handler gets. */
module IntegerRoutes {
  import opened Wrappers
  import opened Regex
  import opened RoutePatterns
  import opened RouteChunks
  import opened RouteNumbers
  import opened RouteLanguage
  import opened RouteArguments
  import opened RouteMatches
  import opened Routes
  import opened RouteTexts
  import opened IntegerArguments

  const NUMBER := Token(Int64, "", "")

  lemma PlainHasNoBrace(lit: string)
    requires IsPlain(lit)
    ensures '{' !in lit
  {
  }

  lemma NumberPattern(lit: string)
    requires IsPlain(lit)
    ensures var p := Param(lit, NUMBER, Tail(""));
      Scan(lit + "{{i}}") == p && Composes(p) && EmbedsNoBraces(p) && KeepsOwn(p) && Kinds(p) == [Int64]
  {
    var p := Param(lit, NUMBER, Tail(""));
    PlainHasNoBrace(lit);
    ReadsNumbers(lit, "");
    ReadsLiteral("");
    assert lit + "{{i}}" + "" == lit + "{{i}}";
    NumberComposes(lit);
    NumberKeeps(lit);
    assert Kinds(Tail("")) == [] && EmbedsNoBraces(Tail("")) && NoOpenBraces("");
  }

  lemma NumberComposes(lit: string)
    requires IsPlain(lit)
    ensures Composes(Param(lit, NUMBER, Tail(""))) && Names(Branch(lit)) == []
  {
    PlainTextStandsForItself(lit, Fit(lit, []));
    PlainTextStandsForItself("", Fit("", []));
    hide IsBranch, Branch, IsExpression, Expression;
    assert Composes(Tail(""));
  }

  lemma NumberKeeps(lit: string)
    requires IsPlain(lit)
    ensures Composes(Param(lit, NUMBER, Tail(""))) && KeepsOwn(Param(lit, NUMBER, Tail("")))
  {
    NumberComposes(lit);
    var p := Param(lit, NUMBER, Tail(""));
    PlainTextStandsForItself("", Fit("", []));
    hide IsBranch, Branch, IsExpression, Expression;
    assert Names(INTEGER) == [];
    assert EmbeddedNames(Tail("")) == [];
    assert EmbeddedNames(p) == [];
    hide EmbeddedNames, Composes, KeepsOwn;
    ForeignNamesSuffice(p);
  }

  /** The pattern compiles, with one integer as its type. */
  lemma NumberRouteCompiles(lit: string)
    requires IsPlain(lit)
    ensures CompilePattern(lit + "{{i}}").Ok? && CompilePattern(lit + "{{i}}").value.1 == [Int64]
  {
    hide Scan, Composes, EmbedsNoBraces, KeepsOwn, Kinds, Spliced, Compiled, CompilePattern, IsPlain, RegexOf;
    NumberPattern(lit);
    SplicedIsCompiled(lit + "{{i}}");
    CompilationPreservesMeaning(lit + "{{i}}");
  }

  lemma NumberReads(lit: string, r: Reading)
    requires IsPlain(lit) && Reads(Param(lit, NUMBER, Tail("")), r)
    ensures r.Step? && r.piece.Present? && IsInteger(r.piece.value.text) && PathOf(r) == lit + r.piece.value.text
    ensures Pieces(r) == [r.piece]
  {
    NothingIsPlain();
    PlainTextStandsForItself(lit, r.text);
    hide TextFits, IsBranch, IsInteger;
    assert Reads(Tail(""), r.rest) && PathOf(r.rest) == "" && Pieces(r.rest) == [];
    assert r.text.text + (r.piece.value.text + "") + "" == r.text.text + r.piece.value.text;
  }

  lemma NumberIsRead(lit: string, w: string)
    requires IsPlain(lit) && IsInteger(w)
    ensures CanRead(Param(lit, NUMBER, Tail("")), lit + w)
  {
    NothingIsPlain();
    PlainTextStandsForItself(lit, Fit(lit, []));
    hide TextFits, IsBranch, IsInteger;
    var p := Param(lit, NUMBER, Tail(""));
    var r := Step(Fit(lit, []), Present(Fit(w, []), Fit("", [])), Last(Fit("", [])));
    assert Reads(p.rest, r.rest) && PathOf(r.rest) == "";
    assert lit + (w + "") + "" == lit + w;
    assert Reads(p, r) && PathOf(r) == lit + w;
  }

  lemma NumberCanRead(lit: string, path: string)
    requires IsPlain(lit)
    ensures CanRead(Param(lit, NUMBER, Tail("")), path) <==> lit <= path && IsInteger(path[|lit|..])
  {
    hide IsPlain, IsInteger, Reads, PathOf;
    if r :| Reads(Param(lit, NUMBER, Tail("")), r) && PathOf(r) == path {
      NumberReads(lit, r);
      assert path[|lit|..] == r.piece.value.text;
    }
    if lit <= path && IsInteger(path[|lit|..]) {
      assert path == lit + path[|lit|..];
      NumberIsRead(lit, path[|lit|..]);
    }
  }

  lemma NumberArgument(lit: string, path: string, args: seq<Arg>)
    requires IsPlain(lit) && ArgsRead(Param(lit, NUMBER, Tail("")), path, args)
    ensures lit <= path && IsInteger(path[|lit|..]) && args == [IntArg(Clamped(IntegerValue(path[|lit|..])))]
  {
    hide IsPlain, IsInteger, Reads, PathOf, IntegerValue;
    var p := Param(lit, NUMBER, Tail(""));
    assert Kinds(p.rest) == [] && Kinds(p) == [Int64];
    var r :| Reads(p, r) && PathOf(r) == path && |Pieces(r)| == |Kinds(p)| == |args| &&
             forall k :: 0 <= k < |args| ==> ArgIsPiece(Kinds(p)[k], Pieces(r)[k], args[k]);
    NumberReads(lit, r);
    assert path[|lit|..] == r.piece.value.text;
    assert ArgIsPiece(Int64, Pieces(r)[0], args[0]);
  }

  /** Exactly the paths that are the text and an integer are matched, and the handler gets that integer, or the largest
      64-bit one when it is out of range. */
  lemma NumberRouteServes(lit: string, path: string, methods: set<string>, methodName: string, answer: Option<Groups>)
    requires IsPlain(lit) && methodName in methods && CompilePattern(lit + "{{i}}").Ok?
    requires EngineAnswers(CompilePattern(lit + "{{i}}").value.0, path, answer)
    ensures answer.Some? ==> |answer.value| == |Names(CompilePattern(lit + "{{i}}").value.0)|
    ensures var (regex, params) := CompilePattern(lit + "{{i}}").value;
      Handler(Route(methods, regex, params), methodName, answer) ==
        if lit <= path && IsInteger(path[|lit|..]) then RouteMatched([IntArg(Clamped(IntegerValue(path[|lit|..])))])
        else PathNotMatched
  {
    hide Scan, Composes, EmbedsNoBraces, KeepsOwn, Kinds, Spliced, Compiled, CompilePattern, IsPlain, RegexOf;
    hide IsInteger, CanRead, ArgsRead, EngineAnswers, Names, IntegerValue, CallArgs;
    NumberPattern(lit);
    SplicedIsCompiled(lit + "{{i}}");
    RouteServesItsPattern(lit + "{{i}}", methods, path, methodName, answer);
    NumberCanRead(lit, path);
    var (regex, params) := CompilePattern(lit + "{{i}}").value;
    var m := Handler(Route(methods, regex, params), methodName, answer);
    if m.RouteMatched? { NumberArgument(lit, path, m.call); }
  }

  lemma UserTextsArePlain()
    ensures IsPlain("/user/") && "/user/" + "{{i}}" == "/user/{{i}}"
  {
  }

  lemma BehindUser(w: string)
    ensures "/user/" <= "/user/" + w && ("/user/" + w)[|"/user/"|..] == w
  {
  }

  /** `/user/{{i}}` hands n to its handler on the path `/user/n`, and -n on `/user/-n`. */
  lemma UserRouteServes(n: nat, methods: set<string>, methodName: string, groups: Groups, negative: Groups)
    requires methodName in methods
    ensures CompilePattern("/user/{{i}}").Ok? && CompilePattern("/user/{{i}}").value.1 == [Int64]
    ensures var r := CompilePattern("/user/{{i}}").value.0;
      && (EngineAnswers(r, "/user/" + Decimal(n), Some(groups)) ==>
            |groups| == |Names(r)| &&
            Handler(Route(methods, r, [Int64]), methodName, Some(groups)) == RouteMatched([IntArg(Clamped(n))]))
      && (EngineAnswers(r, "/user/" + ("-" + Decimal(n)), Some(negative)) ==>
            |negative| == |Names(r)| &&
            Handler(Route(methods, r, [Int64]), methodName, Some(negative)) == RouteMatched([IntArg(Clamped(0 - n))]))
  {
    hide CompilePattern, EngineAnswers, Names, IsPlain, IsInteger, IntegerValue, CallArgs, DigitsValue;
    UserTextsArePlain();
    NumberRouteCompiles("/user/");
    DecimalValue(n);
    SignedValue(Decimal(n));
    BehindUser(Decimal(n));
    BehindUser("-" + Decimal(n));
    var r := CompilePattern("/user/{{i}}").value.0;
    if EngineAnswers(r, "/user/" + Decimal(n), Some(groups)) {
      NumberRouteServes("/user/", "/user/" + Decimal(n), methods, methodName, Some(groups));
    }
    if EngineAnswers(r, "/user/" + ("-" + Decimal(n)), Some(negative)) {
      NumberRouteServes("/user/", "/user/" + ("-" + Decimal(n)), methods, methodName, Some(negative));
    }
  }

  lemma NumbersAreLive()
    ensures Live(INTEGER) && Live(DECIMAL)
  {
    assert SIGN.cs.ranges[0] == ('+', '+') && InSet('+', SIGN.cs);
    assert DIGITS[0] == ('0', '9') && InSet('0', DIGIT.cs);
    assert [('.', '.')][0] == ('.', '.') && InSet('.', Literal('.').cs);
  }

  lemma {:induction false} PlainIsLive(s: string)
    requires IsPlain(s)
    ensures IsBranch(s) && Live(Branch(s))
  {
    if s != "" {
      PlainIsLive(s[1..]);
      PlainParses(s);
      assert ParseAtom(s) == Some((Literal(s[0]), s[1..])) && ParsePiece(s) == Some((Literal(s[0]), s[1..]));
      assert Branch(s) == Cat(Literal(s[0]), Branch(s[1..]));
      assert [(s[0], s[0])][0] == (s[0], s[0]) && InSet(s[0], Literal(s[0]).cs);
    }
  }

  /** Every part of such a pattern can take part in a match, so the exact conditions on arguments apply to it. */
  lemma NumberPatternIsLive(lit: string)
    requires IsPlain(lit)
    ensures Composes(Param(lit, NUMBER, Tail(""))) && PatternLive(Param(lit, NUMBER, Tail("")))
  {
    NumberComposes(lit);
    NumbersAreLive();
    PlainIsLive(lit);
    PlainIsLive("");
    hide IsBranch, Branch, Live;
    assert Expression("") == Empty && IsExpression("") && Live(Empty) by { EmptyIsLive(); }
    assert PatternLive(Tail(""));
  }

  lemma EmptyIsLive()
    ensures IsExpression("") && Expression("") == Empty && Live(Empty)
  {
  }

  // ----- String regexes are checked by themselves

  /** A pattern with an invalid string regex is refused, even where the compiled text would be an expression. */
  lemma InvalidValueIsRefused(lit: string, v: string, s: string)
    requires '{' !in lit && v != "" && (forall i :: 1 <= i < |v| ==> v[i] != '}') && !IsExpression(v)
    ensures CompilePattern(lit + ("{{s:" + v + "}}") + s) == Err(InvalidRegex)
  {
    hide IsExpression, Scan;
    ReadsString(lit, v, s);
  }

  lemma CrossingExample()
    ensures CompilePattern("{{s:a)(b}}") == Err(InvalidRegex)
  {
    var v := "a)(b";
    assert v[1..] == ")(b" && ParseBranch(")(b") == Some((Empty, ")(b"));
    assert ParsePiece(v) == Some((Literal('a'), ")(b"));
    assert !IsExpression(v);
    hide IsExpression, CompilePattern;
    InvalidValueIsRefused("", v, "");
    assert "" + ("{{s:" + v + "}}") + "" == "{{s:a)(b}}";
  }
}
