/** Patterns that compile to something other than they say: a chunk that strays, a name that is taken, and a required
    parameter that is skipped. */
module RouteExamples {
  import opened Wrappers
  import opened Regex
  import opened RoutePatterns
  import opened Splicing
  import opened RouteChunks
  import opened RouteNumbers
  import opened RouteLanguage
  import opened RouteArguments
  import opened Routes
  import opened RequiredGroups

  // ----- `{{i?:[{{s:[]}}[]a-}}]{{s:[])?[]a-}}`: the second chunk lands inside the first

  const STRAY_CONSUMED := "[{{s:[]"
  const STRAY_LITERAL := "[]a-}}]"
  const STRAY_VALUE := "[])?[]a-"
  const STRAY_FIRST := Token(OptionalInt64, "", STRAY_CONSUMED)
  const STRAY_SECOND := Token(String, STRAY_VALUE, "")
  const STRAY := Param("", STRAY_FIRST, Param(STRAY_LITERAL, STRAY_SECOND, Tail("")))

  lemma StrayIsScanned()
    ensures IsScan(STRAY) && AllWellFormed(STRAY)
  {
    hide TokenAt, Source, IsScan, Unscan;
    ScanTail("");
    ScanParam(STRAY_LITERAL, STRAY_SECOND, Tail(""));
    ScanParam("", STRAY_FIRST, Param(STRAY_LITERAL, STRAY_SECOND, Tail("")));
  }

  /** One bracket expression, then the rest. */
  lemma ClassThen(inside: string, ranges: seq<(char, char)>, more: string)
    requires inside != "" && inside[0] != '^' && ParseClass(inside, true) == Some((ranges, ""))
    requires Separates("", more) && ParseBranch(more).Some?
    ensures ParseBranch("[" + inside + more) ==
              Some((Cat(Chars(CharSet(false, ranges)), ParseBranch(more).value.0), ParseBranch(more).value.1))
  {
    ClassAtom(inside, ranges, more);
    hide ParseClass, ParseAtom;
    assert ParsePiece("[" + inside + more) == ParseAtom("[" + inside + more);
    assert !EndsBranch("[" + inside + more);
  }

  lemma ClassAtom(inside: string, ranges: seq<(char, char)>, more: string)
    requires inside != "" && inside[0] != '^' && ParseClass(inside, true) == Some((ranges, ""))
    ensures ParseAtom("[" + inside + more) == Some((Chars(CharSet(false, ranges)), more))
  {
    hide ParseClass;
    ClassStable(inside, true, more);
    var s := "[" + inside + more;
    assert s[1..] == inside + more && s[1] == inside[0];
    assert "" + more == more;
  }

  lemma OneMember(s: string, first: bool)
    requires |s| > 1 && s[0] !in "[-\\" && (s[0] != ']' || first) && s[1] != '-'
    ensures ParseClass(s, first) == AddRanges([(s[0], s[0])], ParseClass(s[1..], false))
  {
  }

  lemma OpenBracketMember(s: string)
    requires |s| > 1 && s[0] == '[' && s[1] !in ":.=-"
    ensures ParseClass(s, false) == AddRanges([('[', '[')], ParseClass(s[1..], false))
  {
  }

  lemma ClassEnds()
    ensures ParseClass("]", false) == Some(([], ""))
  {
    assert "]"[1..] == "";
  }

  predicate IsClass(inside: string) {
    inside != "" && inside[0] != '^' && ParseClass(inside, true).Some? && ParseClass(inside, true).value.1 == ""
  }

  lemma ConsumedIsClass()
    ensures IsClass("{{s:[]")
  {
    hide ParseClass;
    OneMember("{{s:[]", true);
    assert "{{s:[]"[1..] == "{s:[]" && "{s:[]"[1..] == "s:[]";
    assert "s:[]"[1..] == ":[]" && ":[]"[1..] == "[]" && "[]"[1..] == "]";
    OneMember("{s:[]", false);
    OneMember("s:[]", false);
    OneMember(":[]", false);
    OpenBracketMember("[]");
    ClassEnds();
  }

  lemma LiteralIsClass()
    ensures IsClass("]a-}}]")
  {
    OneMember("]a-}}]", true);
    assert "]a-}}]"[1..] == "a-}}]" && "a-}}]"[3..] == "}]" && "}]"[1..] == "]";
    assert ParseMember("a-}}]", false) == Some(([('a', '}')], "}]"));
    OneMember("}]", false);
    ClassEnds();
    hide ParseMember;
  }

  lemma ValueIsClass()
    ensures IsClass("])?[]")
  {
    hide ParseClass;
    OneMember("])?[]", true);
    assert "])?[]"[1..] == ")?[]" && ")?[]"[1..] == "?[]" && "?[]"[1..] == "[]" && "[]"[1..] == "]";
    OneMember(")?[]", false);
    OneMember("?[]", false);
    OpenBracketMember("[]");
    ClassEnds();
  }

  lemma StrayedEnds()
    ensures ParseClass("_1>[]", false).Some? && ParseClass("_1>[]", false).value.1 == ""
  {
    hide ParseClass;
    assert "_1>[]"[1..] == "1>[]" && "1>[]"[1..] == ">[]" && ">[]"[1..] == "[]" && "[]"[1..] == "]";
    OneMember("_1>[]", false);
    OneMember("1>[]", false);
    OneMember(">[]", false);
    OpenBracketMember("[]");
    ClassEnds();
  }

  lemma StrayedIsClass()
    ensures IsClass("(?<__1>[]")
  {
    hide ParseClass;
    StrayedEnds();
    assert "(?<__1>[]"[1..] == "?<__1>[]" && "?<__1>[]"[1..] == "<__1>[]";
    assert "<__1>[]"[1..] == "__1>[]" && "__1>[]"[1..] == "_1>[]";
    OneMember("(?<__1>[]", true);
    OneMember("?<__1>[]", false);
    OneMember("<__1>[]", false);
    OneMember("__1>[]", false);
  }

  lemma ClassThenPlain(inside: string, more: string)
    requires IsClass(inside) && IsPlain(more)
    ensures IsBranch("[" + inside + more) && IsExpression("[" + inside + more)
  {
    hide ParseClass, ParseBranch;
    PlainTextStandsForItself(more, Fit(more, []));
    ClassThen(inside, ParseClass(inside, true).value.0, more);
    BranchIsNoAlternative("[" + inside + more);
  }

  lemma StrayComposes()
    ensures Composes(STRAY)
  {
    ConsumedIsClass();
    LiteralIsClass();
    ValueIsClass();
    hide IsClass, IsBranch, IsExpression, IsPlain;
    StrayTailsArePlain();
    ClassThenPlain("{{s:[]", "");
    ClassThenPlain("]a-}}]", "");
    ClassThenPlain("])?[]", "a-");
    assert "[" + "{{s:[]" + "" == STRAY_CONSUMED && "[" + "]a-}}]" + "" == STRAY_LITERAL;
    assert "[" + "])?[]" + "a-" == STRAY_VALUE;
    PlainTextStandsForItself("", Fit("", []));
  }

  lemma StrayTailsArePlain()
    ensures IsPlain("") && IsPlain("a-")
  {
  }

  lemma FindsAt(s: string, pat: string, from: nat, q: nat)
    requires pat != "" && from <= q && OccursAt(s, pat, q) && forall i :: from <= i < q ==> s[i] != pat[0]
    ensures Find(s, pat, from) == Some(q)
  {
    var i := Find(s, pat, from).value;
    assert OccursAt(s, pat, i) && s[i] == s[i..i + |pat|][0];
  }

  const HEAD := "(?:(?<__0>[+-]?\\d+)["
  const STRAYED := "[(?<__1>[]"

  lemma StraySources()
    ensures Source(STRAY_FIRST) == "{{i?:[{{s:[]}}" && Source(STRAY_SECOND) == "{{s:[])?[]a-}}"
  {
    assert Body(STRAY_FIRST) == ":[{{s:[]}}" && Body(STRAY_SECOND) == "[])?[]a-}}";
  }

  lemma StrayChunks()
    ensures Chunk(STRAY_FIRST, 0) == HEAD + "{{s:[])?"
    ensures Chunk(STRAY_SECOND, 1) == "(?<__1>[])?[]a-)"
    ensures Chunk(Token(OptionalInt64, "", STRAYED), 0) == HEAD + "(?<__1>[])?"
  {
    GroupTexts();
    hide GroupText;
    var group := "(?<__0>[+-]?\\d+)";
    assert "(?:" + group + "[" == HEAD;
    assert "(?:" + group + STRAY_CONSUMED + ")?" == "(?:" + group + "[" + "{{s:[])?";
    assert "(?:" + group + STRAYED + ")?" == "(?:" + group + "[" + "(?<__1>[])?";
  }

  lemma GroupTexts()
    ensures GroupText(STRAY_FIRST, 0) == "(?<__0>[+-]?\\d+)"
    ensures GroupText(STRAY_SECOND, 1) == "(?<__1>[])?[]a-)"
    ensures GroupText(Token(OptionalInt64, "", STRAYED), 0) == "(?<__0>[+-]?\\d+)"
  {
    assert Decimal(0) == "0" && Decimal(1) == "1" && "__" + "0" == "__0" && "__" + "1" == "__1";
  }

  /** The splice puts the second chunk into the bracket expression of the first. */
  lemma StrayIsSpliced()
    ensures Scan(Unscan(STRAY)) == STRAY
    ensures Spliced(Unscan(STRAY)) == Some(HEAD + "(?<__1>[])?" + ("[]a-)]" + Source(STRAY_SECOND)))
  {
    hide Source, Chunk, Find, IsScan, Scan, Splice;
    StrayIsScanned();
    ScanUnique(STRAY);
    StraySources();
    StrayChunks();
    var src, lit, src' := Source(STRAY_FIRST), STRAY_LITERAL, Source(STRAY_SECOND);
    var chunk, chunk' := Chunk(STRAY_FIRST, 0), Chunk(STRAY_SECOND, 1);
    var s, s' := Unscan(STRAY), chunk + (lit + src');
    assert s == src + (lit + src') by { assert "" + src + (lit + src' + "") == src + (lit + src'); }
    var t := TemplateOf(STRAY, 0);
    assert t == Slot("", src, chunk, Slot(lit, src', chunk', End("")));
    hide Unscan, TemplateOf, Replacements;
    ReplacedAtStart(src, lit + src', chunk);
    SpliceOnce(t, s, 0, 0);
    SecondStrays(s');
    SpliceOnce(t.rest, s', 14, 20);
    SpliceNothing(Replaced(s', 20, 14, chunk'), 34);
  }

  lemma ReplacedAtStart(src: string, more: string, chunk: string)
    requires src != ""
    ensures Find(src + more, src, 0) == Some(0) && Replaced(src + more, 0, |src|, chunk) == chunk + more
  {
    assert OccursAt(src + more, src, 0);
    FindsAt(src + more, src, 0, 0);
    assert (src + more)[..0] == "" && (src + more)[|src|..] == more;
  }

  lemma SpliceNothing(s: string, it: nat)
    ensures Splice(s, it, Replacements(End(""))) == Some(s)
  {
  }

  lemma SecondStrays(s: string)
    requires s == HEAD + "{{s:[])?" + (STRAY_LITERAL + "{{s:[])?[]a-}}")
    ensures Find(s, "{{s:[])?[]a-}}", 14) == Some(20)
    ensures Replaced(s, 20, 14, "(?<__1>[])?[]a-)") == HEAD + "(?<__1>[])?" + ("[]a-)]" + "{{s:[])?[]a-}}")
  {
    HeadHasNoBrace();
    StrayOverlaps();
    hide OccursAt, Find;
    StraysAcross(HEAD, "{{s:[])?", STRAY_LITERAL, "{{s:[])?[]a-}}", "]",
                 "(?<__1>[])?[]a-)", "(?<__1>[])?", "[]a-)]", 14);
  }

  lemma StrayOverlaps()
    ensures "{{s:[])?" + STRAY_LITERAL == "{{s:[])?[]a-}}" + "]"
    ensures "(?<__1>[])?[]a-)" + "]" == "(?<__1>[])?" + "[]a-)]"
  {
  }

  /** A source that stands across the end of a chunk and the literal behind it. */
  lemma StraysAcross(head: string, x: string, lit: string, src: string, more: string,
                     chunk: string, y: string, z: string, from: nat)
    requires src != "" && src[0] == '{' && '{' !in head && from <= |head|
    requires x + lit == src + more && chunk + more == y + z
    ensures var s := head + x + (lit + src);
      && Find(s, src, from) == Some(|head|) && |head| + |src| <= |s|
      && Replaced(s, |head|, |src|, chunk) == head + y + (z + src)
  {
    hide OccursAt, Find;
    Regroup(head, x, lit, src);
    Regroup(head, chunk, more, src);
    Regroup(head, y, z, src);
    Regroup("", src, more, src);
    assert "" + src == src && "" + ((src + more) + src) == (src + more) + src;
    StraysBehind(head, src, more + src, from);
  }

  lemma Regroup(a: string, b: string, c: string, d: string)
    ensures a + b + (c + d) == a + ((b + c) + d)
  {
  }

  lemma HeadHasNoBrace()
    ensures |HEAD| == 20 && '{' !in HEAD
  {
  }

  lemma StraysBehind(head: string, src: string, more: string, from: nat)
    requires src != "" && src[0] == '{' && '{' !in head && from <= |head|
    ensures var s := head + (src + more); Find(s, src, from) == Some(|head|)
    ensures var s := head + (src + more);
      forall chunk :: Replaced(s, |head|, |src|, chunk) == head + chunk + more
  {
    var s := head + (src + more);
    assert s[..|head|] == head && s[|head|..|head| + |src|] == src && s[|head| + |src|..] == more;
    FindsAt(s, src, from, |head|);
  }

  /** Its brackets then close too early, and what follows is no expression in any engine: a range from 'a' to ')'. */
  lemma ReversedRange(more: string)
    ensures ParseBranch("[]a-)]" + more).None?
  {
    var s := "[]a-)]" + more;
    var u := s[1..];
    assert u == "]a-)]" + more && u[1..] == "a-)]" + more;
    assert ParseMember(u[1..], false).None?;
    OneMember(u, true);
    assert ParseClass(u, true).None?;
    assert ParseAtom(s).None?;
  }

  /** A pattern of which every part composes is refused, because the second chunk strays into the first. */
  lemma StrayExample()
    ensures Scan(Unscan(STRAY)) == STRAY && Composes(STRAY) && IsExpression(Compiled(STRAY, 0))
    ensures CompilePattern(Unscan(STRAY)) == Err(InvalidRegex)
  {
    hide Scan, Unscan, Spliced, Compiled, Composes, Chunk, Source, IsExpression, ParsePiece, ParseClass, IsScan;
    StrayComposes();
    CompiledIsExpression(STRAY);
    StrayIsSpliced();
    StrayChunks();
    var more := "[]a-)]" + Source(STRAY_SECOND);
    ReversedRange(Source(STRAY_SECOND));
    StrayedChunk(more);
    hide ParseBranch;
    NoBranchNoExpression(HEAD + "(?<__1>[])?" + more);
  }

  lemma StrayedComposes()
    ensures WellFormed(Token(OptionalInt64, "", STRAYED)) && TokenComposes(Token(OptionalInt64, "", STRAYED))
  {
    StrayedIsClass();
    StrayTailsArePlain();
    hide IsClass, IsBranch, IsExpression, IsPlain;
    ClassThenPlain("(?<__1>[]", "");
    assert "[" + "(?<__1>[]" + "" == STRAYED;
  }

  lemma StrayedChunk(more: string)
    requires ParseBranch(more).None? && Separates("", more)
    ensures ParseBranch(HEAD + "(?<__1>[])?" + more).None?
  {
    hide Chunk, ParsePiece, WellFormed, TokenComposes;
    StrayedComposes();
    StrayChunks();
    var t := Token(OptionalInt64, "", STRAYED);
    ChunkParses(t, 0, more);
    GroupTextStarts(t, 0);
    assert !EndsBranch(Chunk(t, 0) + more);
  }

  lemma NoBranchNoExpression(s: string)
    requires ParseBranch(s).None?
    ensures !IsExpression(s)
  {
  }

  // ----- `{{s:(?<__1>a)b}}{{i}}`: the first value takes the name of the second parameter

  const TAKING := Token(String, "(?<__1>a)b", "")
  const TAKEN := Token(Int64, "", "")
  const COLLISION := Param("", TAKING, Param("", TAKEN, Tail("")))

  lemma CollisionParses()
    ensures IsPlain("a") && IsPlain("b") && IsBranch("a") && IsBranch("b")
    ensures Names(Branch("a")) == Names(Branch("b")) == []
    ensures IsExpression("(?<__1>a)b") && Expression("(?<__1>a)b") == Cat(Named("__1", Branch("a")), Branch("b"))
  {
    assert IsPlain("a") && IsPlain("b");
    PlainTextStandsForItself("a", Fit("a", []));
    PlainTextStandsForItself("b", Fit("b", []));
    GroupParsesThen("__1", "a", "b");
    assert "(?<" + "__1" + ">" + "a" + ")" + "b" == "(?<__1>a)b";
    hide IsExpression, Expression, IsBranch, Branch;
  }

  /** A named group around an expression, then a branch. */
  lemma GroupParsesThen(name: string, body: string, more: string)
    requires name != "" && name[0] != '=' && name[0] != '!' && forall i :: 0 <= i < |name| ==> name[i] != '>'
    requires IsExpression(body) && IsBranch(more)
    ensures var s := "(?<" + name + ">" + body + ")" + more;
      && IsExpression(s) && Expression(s) == Cat(Named(name, Expression(body)), Branch(more))
      && IsBranch(s) && Branch(s) == Cat(Named(name, Expression(body)), Branch(more))
  {
    var s := "(?<" + name + ">" + body + ")" + more;
    assert s[0] == '(';
    hide ParseAtom;
    BranchStartsClean(more);
    hide ParseBranch;
    GroupAtomParses(name, body, more);
    AtomThenBranch(s, more);
  }

  /** The first value matches "ab" only, with "a" in its own group. */
  lemma TakingMatches(f: Fit)
    ensures IsExpression("(?<__1>a)b") && (Matches(Expression("(?<__1>a)b"), f) <==> f == Fit("ab", [Some("a")]))
  {
    CollisionParses();
    hide Matches, IsExpression, Expression, IsBranch, Branch, IsPlain;
    PlainMatches("a");
    PlainMatches("b");
    if Matches(Expression("(?<__1>a)b"), f) {
      var g, h := CatSplits(Named("__1", Branch("a")), Branch("b"), f);
      var g' := NamedSplits("__1", Branch("a"), g);
      assert g.text == "a" && h.text == "b";
    }
    NamedJoins("__1", Branch("a"), Fit("a", []));
    assert [Some("a")] + [] == [Some("a")];
    CatJoins(Named("__1", Branch("a")), Branch("b"), Fit("a", [Some("a")]), Fit("b", []));
    assert Then(Fit("a", [Some("a")]), Fit("b", [])) == Fit("ab", [Some("a")]);
  }

  lemma PlainMatches(s: string)
    requires IsPlain(s)
    ensures IsBranch(s) && forall f :: Matches(Branch(s), f) <==> f == Fit(s, [])
  {
    PlainParses(s);
  }

  lemma CollisionIsScanned()
    ensures IsScan(COLLISION)
  {
    hide TokenAt, Source, IsScan;
    ScanTail("");
    ScanParam("", TAKEN, Tail(""));
    ScanParam("", TAKING, Param("", TAKEN, Tail("")));
  }

  lemma CollisionHasNoBraces()
    ensures EmbedsNoBraces(COLLISION)
  {
    assert NoOpenBraces("(?<__1>a)b") && NoOpenBraces("");
    hide NoOpenBraces;
    assert EmbedsNoBraces(Tail("")) && EmbedsNoBraces(COLLISION.rest);
  }

  lemma NothingParses()
    ensures IsBranch("") && Branch("") == Empty && IsExpression("") && Expression("") == Empty
  {
  }

  lemma CollisionComposes()
    ensures Composes(COLLISION)
  {
    CollisionParses();
    NothingParses();
    hide IsExpression, Expression, IsBranch, Branch;
    assert Composes(Tail("")) && Composes(COLLISION.rest);
  }

  lemma TakingNames()
    ensures IsExpression("(?<__1>a)b") && Names(Expression("(?<__1>a)b")) == ["__1"]
  {
    CollisionParses();
    hide IsExpression, Expression, IsBranch, Branch;
    assert Names(Named("__1", Branch("a"))) == ["__1"] + Names(Branch("a"));
  }

  lemma PlainChunkNames(t: Token, k: nat)
    requires WellFormed(t) && TokenComposes(t) && !IsOptional(t.kind)
    ensures Names(ChunkRegex(t, k)) == [GroupName(k)] + Names(ValueRegex(t))
  {
  }

  lemma CollisionNames()
    requires Composes(COLLISION)
    ensures Names(RegexOf(COLLISION, 0)) == ["__0", "__1", "__1"]
  {
    NothingParses();
    TakingNames();
    GroupNames();
    IntegerHasNoNames();
    assert Composes(COLLISION.rest) && Composes(COLLISION.rest.rest);
    hide IsExpression, Expression, IsBranch, Branch, GroupName, RegexOf, ChunkRegex;
    PlainChunkNames(TAKING, 0);
    PlainChunkNames(TAKEN, 1);
    NamesStep(COLLISION, 0);
    NamesStep(COLLISION.rest, 1);
    LastNames(COLLISION.rest.rest, 2);
    assert Names(Empty) == [];
    hide Names;
    JoinNames(Names(ChunkRegex(TAKING, 0)), Names(ChunkRegex(TAKEN, 1)));
  }

  lemma JoinNames(a: seq<string>, b: seq<string>)
    ensures [] + a + ([] + b + []) == a + b
    ensures ["__0"] + ["__1"] + (["__1"] + []) == ["__0", "__1", "__1"]
  {
  }

  lemma IntegerHasNoNames()
    ensures Names(INTEGER) == []
  {
  }

  lemma GroupNames()
    ensures GroupName(0) == "__0" && GroupName(1) == "__1"
  {
    assert Decimal(0) == "0" && Decimal(1) == "1";
  }

  /** On "ab5" the pieces are "ab" and "5", yet whatever the engine answers the integer is the largest one: the
      lookup by name meets the "a" that the first value holds under the second parameter's name. */
  lemma CollisionExample(answer: Option<Groups>)
    ensures Scan(Unscan(COLLISION)) == COLLISION && Composes(COLLISION) && !KeepsOwn(COLLISION)
    ensures CompilePattern(Unscan(COLLISION)) == Ok((RegexOf(COLLISION, 0), [String, Int64]))
    ensures EngineAnswers(RegexOf(COLLISION, 0), "ab5", answer) ==>
      && answer.Some? && |answer.value| == 3
      && CallArgs([String, Int64], ["__0", "__1", "__1"], answer.value)[1] == IntArg(INT64_MAX)
    ensures exists r :: Reads(COLLISION, r) && PathOf(r) == "ab5" && |Pieces(r)| == 2 && Pieces(r)[1].Present? &&
              Pieces(r)[1].value.text == "5"
  {
    hide Composes, Scan, Unscan, IsScan, RegexOf, Names, Compiled;
    hide Spliced, CompilePattern, Matches, KeepsOwn, Kinds, EmbedsNoBraces;
    CollisionComposes();
    CollisionIsScanned();
    CollisionHasNoBraces();
    CollisionNames();
    ScanUnique(COLLISION);
    SplicedIsCompiled(Unscan(COLLISION));
    CompilationPreservesMeaning(Unscan(COLLISION));
    CollisionKinds();
    CollisionTakes();
    var r := CollisionReading();
    assert ReadsAs(COLLISION, Fit("ab5", GroupsOf(COLLISION, r)), r);
    if EngineAnswers(RegexOf(COLLISION, 0), "ab5", answer) {
      assert Matches(RegexOf(COLLISION, 0), Fit("ab5", GroupsOf(COLLISION, r)));
      var r' :| ReadsAs(COLLISION, Fit("ab5", answer.value), r');
      CollisionGroups(r');
      CollisionArgument(answer.value);
    }
  }

  lemma CollisionKinds()
    ensures Kinds(COLLISION) == [String, Int64]
  {
    assert Kinds(COLLISION.rest) == [Int64] + Kinds(Tail(""));
  }

  lemma CollisionTakes()
    requires Composes(COLLISION) && Names(RegexOf(COLLISION, 0)) == ["__0", "__1", "__1"]
    ensures !KeepsOwn(COLLISION)
  {
    GroupNames();
    hide IsBranch, Branch, IsExpression, Expression;
    assert |Tokens(COLLISION)| == 2 by { assert Tokens(COLLISION.rest) == [TAKEN] + Tokens(Tail("")); }
    CollisionIndex();
    assert ["__0", "__1", "__1"][..2][1] == "__1";
    assert !OwnNameFree(COLLISION, 1);
  }

  lemma CollisionIndex()
    requires Composes(COLLISION)
    ensures |Tokens(COLLISION)| == 2 && GroupIndex(COLLISION, 1) == 2
  {
    NothingParses();
    TakingNames();
    NotConsumed(TAKING);
    hide IsBranch, Branch, IsExpression, Expression, OwnWidth, OtherWidth, Names;
    assert Tokens(Tail("")) == [] && Tokens(COLLISION.rest) == [TAKEN] + [];
    assert Composes(COLLISION.rest);
    NoNames();
    assert GroupIndex(COLLISION.rest, 0) == 0;
  }

  lemma NoNames()
    ensures Names(Empty) == []
  {
  }

  lemma CollisionReading() returns (r: Reading)
    requires Composes(COLLISION)
    ensures Reads(COLLISION, r) && PathOf(r) == "ab5" &&
              Pieces(r) == [Present(Fit("ab", [Some("a")]), Fit("", [])), Present(Fit("5", []), Fit("", []))]
  {
    NothingIsPlain();
    TakingMatches(Fit("ab", [Some("a")]));
    hide TextFits, IsExpression, Expression, Matches;
    var last := Last(Fit("", []));
    var rest := Step(Fit("", []), Present(Fit("5", []), Fit("", [])), last);
    r := Step(Fit("", []), Present(Fit("ab", [Some("a")]), Fit("", [])), rest);
    assert IsInteger("5");
    assert Reads(COLLISION.rest.rest, last) && Reads(COLLISION.rest, rest);
    assert PathOf(last) == "" && PathOf(rest) == "5";
    assert Pieces(last) == [] && Pieces(rest) == [Present(Fit("5", []), Fit("", []))];
  }

  lemma CollisionPieces(r: Reading)
    requires Composes(COLLISION) && Reads(COLLISION, r)
    ensures r.Step? && r.rest.Step? && r.rest.rest.Last?
    ensures r.text == r.rest.text == r.rest.rest.text == Fit("", [])
    ensures r.piece == Present(Fit("ab", [Some("a")]), Fit("", []))
    ensures r.rest.piece.Present? && r.rest.piece.value.groups == [] && r.rest.piece.trailer == Fit("", [])
  {
    NothingIsPlain();
    assert PieceFits(TAKING, r.piece) && Reads(COLLISION.rest, r.rest);
    assert PieceFits(TAKEN, r.rest.piece) && Reads(Tail(""), r.rest.rest);
    TakingMatches(r.piece.value);
    hide TextFits, IsExpression, Expression, Matches, IsBranch;
  }

  /** Any reading of "ab5" holds "a" in the second group. */
  lemma CollisionGroups(r: Reading)
    requires Composes(COLLISION) && Reads(COLLISION, r) && PathOf(r) == "ab5"
    ensures GroupsOf(COLLISION, r) == [Some("ab"), Some("a"), Some("5")]
  {
    CollisionPieces(r);
    CollisionText(r);
    assert Composes(COLLISION.rest);
    var n := r.rest.piece.value;
    PlainGroups(TAKING, r.piece.value);
    PlainGroups(TAKEN, n);
    LastParamGroups(COLLISION.rest, r.rest);
    hide Composes, Reads, OwnWidth, OtherWidth, PathOf, PieceGroups;
    assert PieceGroups(TAKING, r.piece) == [Some("ab")] + [Some("a")];
    assert PieceGroups(TAKEN, r.rest.piece) == [Some("5")] + [];
    FirstParamGroups(COLLISION, r);
  }

  lemma FirstParamGroups(p: Pattern, r: Reading)
    requires Composes(p) && p.Param? && r.Step?
    ensures GroupsOf(p, r) == r.text.groups + PieceGroups(p.tok, r.piece) + GroupsOf(p.rest, r.rest)
  {
  }

  lemma LastParamGroups(p: Pattern, r: Reading)
    requires Composes(p) && p.Param? && p.rest.Tail? && r.Step? && r.rest.Last?
    ensures GroupsOf(p, r) == r.text.groups + PieceGroups(p.tok, r.piece) + r.rest.text.groups
  {
    hide PieceGroups;
    assert GroupsOf(p.rest, r.rest) == r.rest.text.groups;
  }

  lemma CollisionText(r: Reading)
    requires r.Step? && r.rest.Step? && r.rest.rest.Last? && PathOf(r) == "ab5"
    requires r.text == r.rest.text == r.rest.rest.text == Fit("", [])
    requires r.piece == Present(Fit("ab", [Some("a")]), Fit("", []))
    requires r.rest.piece.Present? && r.rest.piece.trailer == Fit("", [])
    ensures r.rest.piece.value.text == "5"
  {
    var n := r.rest.piece.value;
    assert PathOf(r.rest.rest) == "" && PathOf(r.rest) == n.text;
    assert PathOf(r) == "ab" + n.text && n.text == "ab5"[2..] == "5";
  }

  lemma CollisionArgument(groups: Groups)
    requires groups == [Some("ab"), Some("a"), Some("5")]
    ensures CallArgs([String, Int64], ["__0", "__1", "__1"], groups)[1] == IntArg(INT64_MAX)
  {
    GroupNames();
    hide GroupName;
    var names := ["__0", "__1", "__1"];
    assert names[1] == "__1" && groups[1] == Some("a");
    assert FirstHeld(names, groups, "__1") == Some(1);
    assert ToInt64("a") == None;
  }

  // ----- `{{i}}(?<__0>x)`: a name used again behind its parameter is never found

  const LATER := Param("", TAKEN, Tail("(?<__0>x)"))

  lemma LaterParses()
    ensures IsBranch("(?<__0>x)") && Names(Branch("(?<__0>x)")) == ["__0"]
  {
    NothingParses();
    assert IsPlain("x");
    PlainTextStandsForItself("x", Fit("x", []));
    GroupParsesThen("__0", "x", "");
    assert "(?<" + "__0" + ">" + "x" + ")" + "" == "(?<__0>x)";
    hide IsExpression, Expression, IsBranch, Branch;
    assert Names(Named("__0", Branch("x"))) == ["__0"] + Names(Branch("x"));
    assert Names(Branch("(?<__0>x)")) == Names(Named("__0", Branch("x"))) + Names(Empty);
  }

  lemma LaterComposes()
    ensures Composes(LATER) && GroupName(0) in EmbeddedNames(LATER) && |Tokens(LATER)| == 1
  {
    NothingParses();
    LaterParses();
    GroupNames();
    hide IsExpression, Expression, IsBranch, Branch, GroupName, Names;
    assert Composes(LATER.rest) && Tokens(LATER.rest) == [] && Tokens(LATER) == [TAKEN] + Tokens(LATER.rest);
    assert EmbeddedNames(LATER.rest) == ["__0"] + [];
  }

  /** Embedded text may use the name of a parameter that is always there, if it stands behind it. */
  lemma LaterNameIsHarmless()
    ensures Composes(LATER) && KeepsOwn(LATER) && GroupName(0) in EmbeddedNames(LATER)
  {
    LaterComposes();
    hide Composes, EmbeddedNames, Tokens, RegexOf, GroupName;
    FirstKeepsItsName(LATER);
  }

  /** Nothing stands in front of a parameter that a pattern starts with. */
  lemma FirstKeepsItsName(p: Pattern)
    requires Composes(p) && p.Param? && p.lit == "" && !IsOptional(p.tok.kind)
    ensures |Tokens(p)| > 0 && OwnNameFree(p, 0)
  {
    NothingParses();
    hide WellFormed, TokenComposes, RegexOf, GroupName, IsBranch, Branch;
    assert GroupIndex(p, 0) == |Names(Empty)| == 0;
  }

  // ----- `(/{{i}})?` and `{{i}}?`: a required parameter that a match can skip

  const IN_PARENTHESES := Param("(/", TAKEN, Tail(")?"))
  const REPEATED := Param("", TAKEN, Tail("?"))

  /** A group and what stands around it, under a question mark that ends the pattern. */
  function Skippable(inner: Regex): Regex { Cat(Opt(inner), Empty) }

  lemma SkippableEmpty(inner: Regex, f: Fit)
    requires forall g :: Matches(inner, g) ==> g.text != ""
    ensures Matches(Skippable(inner), f) && f.text == "" <==> f == Fit("", Nothing(|Names(inner)|))
  {
    hide Matches, Names;
    LastMatches(Opt(inner), f);
    OptMatches(inner, f);
  }

  lemma NumberGroupMatches(f: Fit)
    requires Matches(Named("__0", INTEGER), f)
    ensures f.text != ""
  {
    hide Matches;
    var g := NamedSplits("__0", INTEGER, f);
    IntegerLanguage(g);
  }

  lemma RequiredComposes()
    ensures WellFormed(TAKEN) && TokenComposes(TAKEN) && ChunkRegex(TAKEN, 0) == Named("__0", INTEGER)
    ensures Chunk(TAKEN, 0) == GroupText(TAKEN, 0)
  {
    NothingParses();
    GroupNames();
  }

  /** The expression in the parentheses: a slash and the number. */
  function SlashNumber(): Regex { Cat(Literal('/'), Cat(Named("__0", INTEGER), Empty)) }

  lemma SlashNumberParses()
    ensures IsExpression("/" + GroupText(TAKEN, 0)) && Expression("/" + GroupText(TAKEN, 0)) == SlashNumber()
  {
    RequiredComposes();
    NothingParses();
    SlashParses();
    hide IsBranch, Branch, GroupText, ChunkRegex, WellFormed, TokenComposes, ParsePiece;
    ParamParses("/", TAKEN, 0, "", Empty);
    var s := "/" + GroupText(TAKEN, 0);
    assert s + "" == s;
    assert Append(Cat(Literal('/'), Empty), Cat(Named("__0", INTEGER), Empty)) == SlashNumber();
  }

  lemma SlashParses()
    ensures IsBranch("/") && Branch("/") == Cat(Literal('/'), Empty)
  {
    assert "/"[1..] == "";
    assert ParsePiece("/") == Some((Literal('/'), ""));
  }

  lemma SlashNumberMatches(f: Fit)
    requires Matches(SlashNumber(), f)
    ensures f.text != ""
  {
    hide Matches;
    var g, h := CatSplits(Literal('/'), Cat(Named("__0", INTEGER), Empty), f);
    CharMatches(CharSet(false, [('/', '/')]), g);
  }

  /** A piece under a question mark at the end of the text. */
  lemma OptionalPiece(s: string, inner: Regex)
    requires s != "" && !EndsBranch(s) && ParseAtom(s) == Some((inner, "?"))
    ensures IsExpression(s) && Expression(s) == Skippable(inner)
  {
    hide ParseAtom;
    assert "?"[1..] == "";
    assert ParseQuantifier("?") == Some((0, Some(1), ""));
    assert ParsePiece(s) == Some((Opt(inner), ""));
    hide ParsePiece;
    assert ParseBranch("") == Some((Empty, ""));
    PieceThenBranch(s, "");
  }

  lemma InParenthesesParses()
    ensures IsExpression(Compiled(IN_PARENTHESES, 0))
    ensures Expression(Compiled(IN_PARENTHESES, 0)) == Skippable(SlashNumber())
  {
    RequiredComposes();
    SlashNumberParses();
    hide GroupText, IsExpression, Expression, Chunk;
    var inner := "/" + GroupText(TAKEN, 0);
    var s := "(" + inner + ")?";
    assert Compiled(IN_PARENTHESES, 0) == s by {
      assert TemplateOf(IN_PARENTHESES.rest, 1) == End(")?");
      assert "(/" + GroupText(TAKEN, 0) + ")?" == "(" + inner + ")?";
    }
    GroupParses(inner, "?");
    assert s[1..] == inner + [')'] + "?";
    hide CloseGroup;
    assert s[1] == '/' && ParseAtom(s) == CloseGroup(s[1..]);
    hide ParseAtom;
    OptionalPiece(s, SlashNumber());
  }

  lemma RepeatedParses()
    ensures IsExpression(Compiled(REPEATED, 0)) && Expression(Compiled(REPEATED, 0)) == Skippable(Named("__0", INTEGER))
  {
    RequiredComposes();
    GroupTextStarts(TAKEN, 0);
    GroupTextParses(TAKEN, 0, "?");
    GroupNames();
    hide GroupText, IsExpression, Expression, Chunk, ParseAtom;
    var s := GroupText(TAKEN, 0) + "?";
    assert Compiled(REPEATED, 0) == s by {
      assert TemplateOf(REPEATED.rest, 1) == End("?");
      assert "" + GroupText(TAKEN, 0) + "?" == s;
    }
    OptionalPiece(s, Named("__0", INTEGER));
  }

  lemma SkippedCompiles(p: Pattern, r: Regex)
    requires IsScan(p) && EmbedsNoBraces(p) && ValuesValid(p) && Kinds(p) == [Int64]
    requires IsExpression(Compiled(p, 0)) && Expression(Compiled(p, 0)) == r
    ensures CompilePattern(Unscan(p)) == Ok((r, [Int64]))
  {
    hide Scan, Unscan, IsScan, Compiled, Spliced, EmbedsNoBraces, IsExpression, Expression, ValuesValid, Kinds;
    ScanUnique(p);
    SplicedIsCompiled(Unscan(p));
  }

  lemma SkippedIsScanned(before: string, after: string)
    requires '{' !in before && '{' !in after
    ensures var p := Param(before, TAKEN, Tail(after));
      IsScan(p) && EmbedsNoBraces(p) && ValuesValid(p) && Kinds(p) == [Int64]
  {
    hide TokenAt, Source, IsScan;
    ScanTail(after);
    ScanParam(before, TAKEN, Tail(after));
    assert EmbedsNoBraces(Tail(after)) && NoOpenBraces("") && Kinds(Tail(after)) == [] && ValuesValid(Tail(after));
  }

  lemma SkippedArgument(names: seq<string>, groups: Groups)
    requires names == ["__0"] && groups == [None]
    ensures CallArgs([Int64], names, groups)[0] == IntArg(INT64_MAX)
  {
    GroupNames();
    MissingIsLargest(0, names, groups);
  }

  /** Both patterns compile, accept the empty path whatever the engine answers, and hand the largest integer to the
      required argument; the name of its group is avoided. */
  lemma SkippedExample(p: Pattern, answer: Option<Groups>)
    requires p == IN_PARENTHESES || p == REPEATED
    ensures CompilePattern(Unscan(p)).Ok? && CompilePattern(Unscan(p)).value.1 == [Int64]
    ensures var r := CompilePattern(Unscan(p)).value.0;
      && Names(r) == ["__0"] && Avoids(r, GroupName(0))
      && (EngineAnswers(r, "", answer) ==>
            answer == Some([None]) && CallArgs([Int64], Names(r), answer.value)[0] == IntArg(INT64_MAX))
  {
    hide Compiled, Unscan, IsScan, EmbedsNoBraces, ValuesValid, Kinds;
    hide IsExpression, Expression, CompilePattern, Matches;
    var inner := if p == IN_PARENTHESES then SlashNumber() else Named("__0", INTEGER);
    SkippedIsScanned(p.lit, p.rest.lit);
    InParenthesesParses();
    RepeatedParses();
    SkippedCompiles(p, Skippable(inner));
    SkippableNames(inner);
    forall g | Matches(inner, g) ensures g.text != "" {
      if p == IN_PARENTHESES { SlashNumberMatches(g); } else { NumberGroupMatches(g); }
    }
    SkippableEmpty(inner, Fit("", [None]));
    assert Nothing(1) == [None];
    SkippedArgument(["__0"], [None]);
    if answer.Some? { SkippableEmpty(inner, Fit("", answer.value)); }
  }

  lemma SkippableNames(inner: Regex)
    requires inner == SlashNumber() || inner == Named("__0", INTEGER)
    ensures Names(inner) == ["__0"] && Names(Skippable(inner)) == ["__0"] && Avoids(Skippable(inner), GroupName(0))
  {
    IntegerHasNoNames();
    hide GroupName;
    assert Names(Named("__0", INTEGER)) == ["__0"] + Names(INTEGER);
    assert Names(Cat(Named("__0", INTEGER), Empty)) == Names(Named("__0", INTEGER)) + [];
    assert Names(Literal('/')) == [];
  }
}
