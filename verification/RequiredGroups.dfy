/** Which groups every match holds, for any expression: when a required argument can be skipped. */
module RequiredGroups {
  import opened Wrappers
  import opened Regex
  import opened RoutePatterns
  import opened RouteChunks
  import opened RouteLanguage
  import opened RouteArguments
  import opened Routes

  /** Some match leaves every group of this name out. */
  ghost predicate Avoids(r: Regex, n: string) {
    match r
    case Empty => true
    case Chars(cs) => exists c :: InSet(c, cs)
    case Cat(a, b) => Avoids(a, n) && Avoids(b, n)
    case Alt(a, b) => Avoids(a, n) || Avoids(b, n)
    case Repeat(a, min, max) => min == 0 || (Avoids(a, n) && (max.Some? ==> min <= max.value))
    case Named(m, a) => m != n && Avoids(a, n)
  }

  predicate LeavesOut(r: Regex, f: Fit, n: string) {
    |f.groups| == |Names(r)| && forall i :: 0 <= i < |f.groups| && Names(r)[i] == n ==> f.groups[i] == None
  }

  lemma {:induction false} RepetitionLeavesOut(r: Regex, f: Fit, n: string) returns (g: Fit)
    requires r.Repeat? && (r.max.Some? ==> r.min <= r.max.value)
    requires r.min > 0 ==> Matches(r.body, f) && LeavesOut(r.body, f, n)
    ensures Matches(r, g) && LeavesOut(r, g, n)
    decreases r.min
  {
    hide Matches;
    if r.min == 0 {
      g := Fit("", Nothing(|Names(r)|));
      RepeatNone(r);
    } else {
      var more := RepetitionLeavesOut(Again(r), f, n);
      RepeatJoins(r, f, more);
      g := Fit(f.text + more.text, Over(f.groups, more.groups));
    }
  }

  lemma {:induction false} AvoidsIntro(r: Regex, n: string) returns (f: Fit)
    requires Avoids(r, n)
    ensures Matches(r, f) && LeavesOut(r, f, n)
  {
    hide Matches;
    match r
    case Empty =>
      f := Fit("", []);
      EmptyMatches(f);
    case Chars(cs) =>
      var c :| InSet(c, cs);
      f := Fit([c], []);
      CharMatches(cs, f);
    case Cat(a, b) =>
      var g := AvoidsIntro(a, n);
      var h := AvoidsIntro(b, n);
      CatJoins(a, b, g, h);
      f := Then(g, h);
    case Alt(a, b) =>
      if Avoids(a, n) {
        var g := AvoidsIntro(a, n);
        AltJoinsLeft(a, b, g);
        f := Then(g, Fit("", Nothing(|Names(b)|)));
      } else {
        var h := AvoidsIntro(b, n);
        AltJoinsRight(a, b, h);
        f := Then(Fit("", Nothing(|Names(a)|)), h);
      }
    case Repeat(a, min, max) =>
      if min == 0 {
        f := Fit("", Nothing(|Names(r)|));
        RepeatNone(r);
      } else {
        var g := AvoidsIntro(a, n);
        f := RepetitionLeavesOut(r, g, n);
      }
    case Named(m, a) =>
      var g := AvoidsIntro(a, n);
      NamedJoins(m, a, g);
      f := Fit(g.text, [Some(g.text)] + g.groups);
  }

  lemma {:induction false} RepeatBounds(r: Regex, h: Fit)
    requires r.Repeat? && Matches(r, h) && r.max.Some?
    ensures r.min <= r.max.value
    decreases r.min
  {
    hide Matches;
    if r.min > 0 {
      var none, f, g := RepeatSplits(r, h);
      RepeatBounds(Again(r), g);
    }
  }

  lemma {:induction false} AvoidsElim(r: Regex, h: Fit, n: string)
    requires Matches(r, h) && LeavesOut(r, h, n)
    ensures Avoids(r, n)
  {
    hide Matches;
    match r
    case Empty =>
    case Chars(cs) =>
      CharMatches(cs, h);
    case Cat(a, b) =>
      var f, g := CatSplits(a, b, h);
      MatchHasGroups(a, f);
      MatchHasGroups(b, g);
      PartsLeaveOut(Names(a), Names(b), f.groups, g.groups, n);
      AvoidsElim(a, f, n);
      AvoidsElim(b, g, n);
    case Alt(a, b) =>
      var left, f := AltSplits(a, b, h);
      if left {
        MatchHasGroups(a, f);
        PartsLeaveOut(Names(a), Names(b), f.groups, Nothing(|Names(b)|), n);
        AvoidsElim(a, f, n);
      } else {
        MatchHasGroups(b, f);
        PartsLeaveOut(Names(a), Names(b), Nothing(|Names(a)|), f.groups, n);
        AvoidsElim(b, f, n);
      }
    case Repeat(a, min, max) =>
      if min > 0 {
        var none, f, g := RepeatSplits(r, h);
        if max.Some? { RepeatBounds(r, h); }
        assert forall i :: 0 <= i < |f.groups| && h.groups[i] == None ==> f.groups[i] == None;
        AvoidsElim(a, f, n);
      }
    case Named(m, a) =>
      var f := NamedSplits(m, a, h);
      MatchHasGroups(a, f);
      assert Names(r)[0] == m && h.groups[0].Some?;
      PartsLeaveOut([m], Names(a), [Some(f.text)], f.groups, n);
      AvoidsElim(a, f, n);
  }

  lemma PartsLeaveOut(x: seq<string>, y: seq<string>, f: Groups, g: Groups, n: string)
    requires |x| == |f| && |y| == |g|
    requires forall i :: 0 <= i < |f + g| && (x + y)[i] == n ==> (f + g)[i] == None
    ensures forall i :: 0 <= i < |f| && x[i] == n ==> f[i] == None
    ensures forall i :: 0 <= i < |g| && y[i] == n ==> g[i] == None
  {
    forall i | 0 <= i < |f| && x[i] == n ensures f[i] == None { assert (x + y)[i] == n; }
    forall i | 0 <= i < |g| && y[i] == n ensures g[i] == None { assert (x + y)[|x| + i] == n; }
  }

  /** The name is found in every match exactly when no match avoids it. */
  lemma LookupAlwaysIff(r: Regex, n: string)
    ensures (forall h :: Matches(r, h) ==> |h.groups| == |Names(r)| && Lookup(Names(r), h.groups, n).Some?) <==>
              !Avoids(r, n)
  {
    hide Matches;
    if Avoids(r, n) {
      var f := AvoidsIntro(r, n);
      assert Lookup(Names(r), f.groups, n) == None;
    } else {
      forall h | Matches(r, h) ensures |h.groups| == |Names(r)| && Lookup(Names(r), h.groups, n).Some? {
        MatchHasGroups(r, h);
        if Lookup(Names(r), h.groups, n).None? { AvoidsElim(r, h, n); }
      }
    }
  }

  /** A group of this name stands on every way through the expression. */
  predicate AlwaysNamed(r: Regex, n: string) {
    match r
    case Empty => false
    case Chars(_) => false
    case Cat(a, b) => AlwaysNamed(a, n) || AlwaysNamed(b, n)
    case Alt(a, b) => AlwaysNamed(a, n) && AlwaysNamed(b, n)
    case Repeat(a, min, _) => min > 0 && AlwaysNamed(a, n)
    case Named(m, a) => m == n || AlwaysNamed(a, n)
  }

  /** Where every part can take part in a match, that is the condition, read off the expression. */
  lemma {:induction false} AvoidsIffNotAlways(r: Regex, n: string)
    requires Live(r)
    ensures Avoids(r, n) <==> !AlwaysNamed(r, n)
  {
    match r
    case Empty =>
    case Chars(_) =>
    case Cat(a, b) =>
      AvoidsIffNotAlways(a, n);
      AvoidsIffNotAlways(b, n);
    case Alt(a, b) =>
      AvoidsIffNotAlways(a, n);
      AvoidsIffNotAlways(b, n);
    case Repeat(a, _, _) => AvoidsIffNotAlways(a, n);
    case Named(_, a) => AvoidsIffNotAlways(a, n);
  }

  // ----- What this means for the arguments of a route

  /** If the name belongs to one group only, that is when this group takes part in every match. */
  lemma OnlyGroupAlwaysIff(r: Regex, i: nat)
    requires i < |Names(r)| && forall j :: 0 <= j < |Names(r)| && j != i ==> Names(r)[j] != Names(r)[i]
    ensures (forall h :: Matches(r, h) ==> |h.groups| == |Names(r)| && h.groups[i].Some?) <==> !Avoids(r, Names(r)[i])
  {
    hide Matches, Names, Avoids;
    var n := Names(r)[i];
    LookupAlwaysIff(r, n);
    forall h | Matches(r, h) && |h.groups| == |Names(r)|
      ensures Lookup(Names(r), h.groups, n).Some? <==> h.groups[i].Some?
    {
    }
  }

  /** Whatever the pattern, a parameter's argument is there in every match exactly when no match avoids its name;
      otherwise some accepted path hands a required integer the largest one. */
  lemma ArgumentIsAlwaysThereIff(s: string, k: nat, methods: set<string>, methodName: string)
    requires CompilePattern(s).Ok? && k < |CompilePattern(s).value.1| && methodName in methods
    ensures var (r, kinds) := CompilePattern(s).value;
      && ((forall h :: Matches(r, h) ==>
             |h.groups| == |Names(r)| && Lookup(Names(r), h.groups, GroupName(k)).Some?) <==>
            !Avoids(r, GroupName(k)))
      && (Avoids(r, GroupName(k)) && kinds[k].Int64? ==>
            exists path, groups: Groups ::
              && EngineAnswers(r, path, Some(groups)) && |groups| == |Names(r)|
              && var m := Handler(Route(methods, r, kinds), methodName, Some(groups));
                 m.RouteMatched? && |m.call| == |kinds| && m.call[k] == IntArg(INT64_MAX))
  {
    hide Matches, Names, Avoids, CompilePattern, GroupName;
    var (r, kinds) := CompilePattern(s).value;
    LookupAlwaysIff(r, GroupName(k));
    if Avoids(r, GroupName(k)) && kinds[k].Int64? {
      var f := AvoidsIntro(r, GroupName(k));
      MissingIsLargest(k, Names(r), f.groups);
      assert EngineAnswers(r, f.text, Some(f.groups));
      var m := Handler(Route(methods, r, kinds), methodName, Some(f.groups));
      assert m.RouteMatched? && m.call[k] == IntArg(INT64_MAX);
    }
  }

  lemma MissingIsLargest(k: nat, names: seq<string>, groups: Groups)
    requires |names| == |groups|
    requires forall i :: 0 <= i < |groups| && names[i] == GroupName(k) ==> groups[i] == None
    ensures GetHandlerArg(Int64, k, names, groups) == IntArg(INT64_MAX)
  {
    hide GroupName;
    assert Lookup(names, groups, GroupName(k)) == None;
    assert ToInt64("") == None;
  }

  /** Where literals are complete branches a required parameter cannot be skipped. */
  lemma ComposingKeepsRequired(p: Pattern, j: nat)
    requires Composes(p) && j < |Tokens(p)| && !IsOptional(Tokens(p)[j].kind)
    ensures !Avoids(RegexOf(p, 0), GroupName(j))
  {
    hide Matches, Names, Avoids, Composes, RegexOf, Reads, PathOf, GroupsOf, Pieces, GroupIndex, GroupName, Tokens;
    hide OwnWidth, OtherWidth, WellFormed, TokenComposes, ValueFits, TrailerFits, SkipFits;
    if Avoids(RegexOf(p, 0), GroupName(j)) {
      var f := AvoidsIntro(RegexOf(p, 0), GroupName(j));
      var r := PatternElim(p, 0, f);
      OwnName(p, 0, j);
      OwnHeld(p, 0, r, j);
    }
  }
}
