/** Handler arguments: which group each is taken from, and what it then holds. */
module RouteArguments {
  import opened Wrappers
  import opened Regex
  import opened RoutePatterns
  import opened RouteChunks
  import opened RouteNumbers
  import opened RouteLanguage

  function Kinds(p: Pattern): seq<RouteParamType> {
    match p
    case Tail(_) => []
    case Param(_, tok, rest) => [tok.kind] + Kinds(rest)
  }

  lemma {:induction false} KindOf(p: Pattern, j: nat)
    ensures |Kinds(p)| == |Tokens(p)|
    ensures j < |Tokens(p)| ==> Kinds(p)[j] == Tokens(p)[j].kind
    decreases p
  {
    if p.Param? { KindOf(p.rest, if j == 0 then 0 else j - 1); }
  }

  // ----- Looking a group up by name

  /** The group a name stands for: of the groups so named, the leftmost that took part in the match. */
  function FirstHeld(names: seq<string>, groups: Groups, n: string): (r: Option<nat>)
    requires |names| == |groups|
    ensures r.Some? ==> r.value < |names| && names[r.value] == n && groups[r.value].Some?
    ensures forall i :: 0 <= i < |names| && names[i] == n && groups[i].Some? ==> r.Some? && r.value <= i
  {
    if names == [] then None
    else if names[0] == n && groups[0].Some? then Some(0)
    else
      match FirstHeld(names[1..], groups[1..], n)
      case None => None
      case Some(i) => Some(i + 1)
  }

  function Lookup(names: seq<string>, groups: Groups, n: string): Option<string>
    requires |names| == |groups|
  {
    match FirstHeld(names, groups, n)
    case None => None
    case Some(i) => groups[i]
  }

  // ----- Each parameter's own group

  /** The place of parameter j's own group among all groups of the compiled pattern. */
  function GroupIndex(p: Pattern, j: nat): nat
    requires Composes(p) && j < |Tokens(p)|
  {
    |Names(Branch(p.lit))| + if j == 0 then 0 else OwnWidth(p.tok) + OtherWidth(p.tok) + GroupIndex(p.rest, j - 1)
  }

  lemma {:induction false} TokenOf(p: Pattern, j: nat)
    requires Composes(p) && j < |Tokens(p)|
    ensures WellFormed(Tokens(p)[j]) && TokenComposes(Tokens(p)[j])
    decreases p
  {
    hide WellFormed, TokenComposes;
    if j > 0 { TokenOf(p.rest, j - 1); }
  }

  lemma NamesStep(p: Pattern, k: nat)
    requires Composes(p) && p.Param?
    ensures Names(RegexOf(p, k)) == Names(Branch(p.lit)) + Names(ChunkRegex(p.tok, k)) + Names(RegexOf(p.rest, k + 1))
    ensures |Names(ChunkRegex(p.tok, k))| == OwnWidth(p.tok) + OtherWidth(p.tok) && OwnWidth(p.tok) > 0
    ensures Names(ChunkRegex(p.tok, k))[0] == GroupName(k)
  {
    hide ChunkRegex, IsBranch, Branch, WellFormed, TokenComposes, Append, IsChain, GroupName;
    LiteralIsChain(p.lit);
    ChunkNames(p.tok, k);
    AppendNames(Branch(p.lit), Cat(ChunkRegex(p.tok, k), RegexOf(p.rest, k + 1)));
  }

  /** The group at that place bears the parameter's name. */
  lemma {:induction false} OwnName(p: Pattern, k: nat, j: nat)
    requires Composes(p) && j < |Tokens(p)|
    ensures WellFormed(Tokens(p)[j]) && TokenComposes(Tokens(p)[j])
    ensures var ns := Names(RegexOf(p, k));
      && GroupIndex(p, j) + OwnWidth(Tokens(p)[j]) + OtherWidth(Tokens(p)[j]) <= |ns| && GroupIndex(p, j) < |ns|
      && ns[GroupIndex(p, j)] == GroupName(k + j)
    decreases p
  {
    hide ChunkRegex, RegexOf, IsBranch, Branch, WellFormed, TokenComposes, GroupName, OwnWidth, OtherWidth, Names;
    NamesStep(p, k);
    if j > 0 {
      OwnName(p.rest, k + 1, j - 1);
      assert k + 1 + (j - 1) == k + j;
    }
  }

  lemma TokenGroups(t: Token, x: Piece)
    requires WellFormed(t) && TokenComposes(t) && PieceFits(t, x)
    ensures var c := PieceGroups(t, x);
      && |c| == OwnWidth(t) + OtherWidth(t) && OwnWidth(t) > 0
      && c[0] == (if x.Present? then Some(x.value.text) else None)
      && (!x.Present? ==> forall i :: 0 <= i < OwnWidth(t) ==> c[i] == None)
  {
    hide Matches, ValueRegex, ValueFits, IsExpression, Expression, WellFormed;
    match x
    case Absent =>
    case Present(v, u) =>
      ValueLanguage(t, v);
      MatchHasGroups(ValueRegex(t), v);
      if IsOptional(t.kind) { MatchHasGroups(Behind(Expression(t.consumed)), u); } else { NotConsumed(t); }
    case Skipped(u) =>
      MatchHasGroups(Expression(t.consumed).right, u);
  }

  lemma NotConsumed(t: Token)
    requires WellFormed(t) && TokenComposes(t) && !IsOptional(t.kind)
    ensures Expression(t.consumed) == Empty && OwnWidth(t) == 1 + |Names(ValueRegex(t))| && OtherWidth(t) == 0
  {
    assert Expression("") == Empty;
  }

  /** It holds the value of the parameter's piece when there is one, and then nothing the piece names is left open. */
  lemma {:induction false} OwnHeld(p: Pattern, k: nat, r: Reading, j: nat)
    requires Composes(p) && Reads(p, r) && j < |Tokens(p)|
    ensures WellFormed(Tokens(p)[j]) && TokenComposes(Tokens(p)[j])
    ensures |GroupsOf(p, r)| == |Names(RegexOf(p, k))| && |Pieces(r)| == |Tokens(p)|
    ensures PieceFits(Tokens(p)[j], Pieces(r)[j])
    ensures GroupIndex(p, j) + OwnWidth(Tokens(p)[j]) <= |GroupsOf(p, r)| && GroupIndex(p, j) < |GroupsOf(p, r)|
    ensures var x, i, c := Pieces(r)[j], GroupIndex(p, j), GroupsOf(p, r);
      && c[i] == (if x.Present? then Some(x.value.text) else None)
      && (!x.Present? ==> forall m :: i <= m < i + OwnWidth(Tokens(p)[j]) ==> c[m] == None)
    decreases p
  {
    hide ChunkRegex, RegexOf, IsBranch, Branch, WellFormed, TokenComposes, GroupName, OwnWidth, OtherWidth, Names;
    hide PieceFits, PieceGroups, Matches;
    NamesStep(p, k);
    GroupCount(p, k, r);
    MatchHasGroups(Branch(p.lit), r.text);
    TokenGroups(p.tok, r.piece);
    if j > 0 { OwnHeld(p.rest, k + 1, r.rest, j - 1); }
  }

  lemma {:induction false} GroupCount(p: Pattern, k: nat, r: Reading)
    requires Composes(p) && Reads(p, r)
    ensures |GroupsOf(p, r)| == |Names(RegexOf(p, k))| && |Pieces(r)| == |Tokens(p)|
    decreases p
  {
    PatternIntro(p, k, r);
    MatchHasGroups(RegexOf(p, k), Fit(PathOf(r), GroupsOf(p, r)));
    hide RegexOf, PieceFits, PieceGroups, TextFits, IsBranch, WellFormed, TokenComposes, Branch, GroupsOf;
    if p.Param? { GroupCount(p.rest, k + 1, r.rest); }
  }

  // ----- When each argument comes from its own group

  /** Looking up each parameter's name finds its own group if that took part, and none otherwise. */
  predicate TakesOwn(p: Pattern, groups: Groups)
    requires Composes(p) && |groups| == |Names(RegexOf(p, 0))|
  {
    forall j :: 0 <= j < |Tokens(p)| ==>
      GroupIndex(p, j) < |groups| &&
      FirstHeld(Names(RegexOf(p, 0)), groups, GroupName(j)) ==
        (if groups[GroupIndex(p, j)].Some? then Some(GroupIndex(p, j)) else None)
  }

  /** No embedded text names parameter j's group in front of it; nor, when j is optional, anywhere that can take
      part in a match while j's value is missing. */
  predicate KeepsOwn(p: Pattern)
    requires Composes(p)
  {
    forall j :: 0 <= j < |Tokens(p)| ==> OwnNameFree(p, j)
  }

  predicate OwnNameFree(p: Pattern, j: nat)
    requires Composes(p) && j < |Tokens(p)|
  {
    OwnName(p, 0, j);
    var names, i, t := Names(RegexOf(p, 0)), GroupIndex(p, j), Tokens(p)[j];
    && GroupName(j) !in names[..i]
    && (IsOptional(t.kind) ==> GroupName(j) !in names[i + OwnWidth(t)..])
  }

  lemma NotInParts(names: seq<string>, i: nat, n: string)
    requires i <= |names|
    ensures n !in names[..i] <==> forall m :: 0 <= m < i ==> names[m] != n
    ensures n !in names[i..] <==> forall m :: i <= m < |names| ==> names[m] != n
  {
    forall m | 0 <= m < i ensures names[m] in names[..i] { assert names[m] == names[..i][m]; }
    forall m | i <= m < |names| ensures names[m] in names[i..] { assert names[m] == names[i..][m - i]; }
  }

  /** A group of its own name that took part is found when no other so named stands in front of it. */
  lemma FoundPresent(names: seq<string>, groups: Groups, i: nat, n: string)
    requires |names| == |groups| && i < |names| && names[i] == n && groups[i].Some? && n !in names[..i]
    ensures FirstHeld(names, groups, n) == Some(i)
  {
    NotInParts(names, i, n);
  }

  /** Nothing is found when every group of the name lies in a stretch that holds nothing. */
  lemma FoundMissing(names: seq<string>, groups: Groups, i: nat, w: nat, n: string)
    requires |names| == |groups| && i + w <= |names| && n !in names[..i] && n !in names[i + w..]
    requires forall m :: i <= m < i + w ==> groups[m] == None
    ensures FirstHeld(names, groups, n) == None
  {
    NotInParts(names, i, n);
    NotInParts(names, i + w, n);
  }

  lemma OwnIsFound(p: Pattern, r: Reading, j: nat)
    requires Composes(p) && Reads(p, r) && j < |Tokens(p)| && OwnNameFree(p, j)
    ensures |GroupsOf(p, r)| == |Names(RegexOf(p, 0))| && |Pieces(r)| == |Tokens(p)|
    ensures GroupIndex(p, j) < |GroupsOf(p, r)|
    ensures FirstHeld(Names(RegexOf(p, 0)), GroupsOf(p, r), GroupName(j)) ==
              if Pieces(r)[j].Present? then Some(GroupIndex(p, j)) else None
  {
    hide RegexOf, Names, Tokens, GroupIndex, GroupsOf, Reads, Pieces, OwnWidth, GroupName, Composes, FirstHeld;
    OwnName(p, 0, j);
    OwnHeld(p, 0, r, j);
    var names, groups, i, t := Names(RegexOf(p, 0)), GroupsOf(p, r), GroupIndex(p, j), Tokens(p)[j];
    if Pieces(r)[j].Present? {
      FoundPresent(names, groups, i, GroupName(j));
    } else {
      assert IsOptional(t.kind);
      FoundMissing(names, groups, i, OwnWidth(t), GroupName(j));
    }
  }

  /** Every part can take part in a match. */
  ghost predicate PatternLive(p: Pattern)
    requires Composes(p)
  {
    && Live(Branch(p.lit))
    && (p.Param? ==> Live(ValueRegex(p.tok)) && Live(Expression(p.tok.consumed)) && PatternLive(p.rest))
  }

  lemma {:induction false} SomeReading(p: Pattern) returns (r: Reading)
    requires Composes(p) && PatternLive(p)
    ensures Reads(p, r) && |Pieces(r)| == |Tokens(p)|
    ensures forall j :: 0 <= j < |Tokens(p)| && IsOptional(Tokens(p)[j].kind) ==> Pieces(r)[j] == Absent
    decreases p
  {
    hide Matches, WellFormed, TokenComposes, Live, ValueRegex, ValueFits, TrailerFits, SkipFits;
    var f := SomeFit(Branch(p.lit));
    match p {
      case Tail(_) =>
        r := Last(f);
      case Param(lit, tok, rest) =>
        var r' := SomeReading(rest);
        var x := Absent;
        if !IsOptional(tok.kind) {
          var v := SomeFit(ValueRegex(tok));
          ValueLanguage(tok, v);
          x := Present(v, Fit("", []));
        }
        r := Step(f, x, r');
    }
  }

  /** A piece that enters group i of its parameter. */
  lemma TokenEntered(t: Token, i: nat) returns (x: Piece)
    requires WellFormed(t) && TokenComposes(t) && Live(ValueRegex(t)) && Live(Expression(t.consumed))
    requires i < OwnWidth(t) + OtherWidth(t)
    ensures PieceFits(t, x) && i < |PieceGroups(t, x)| && PieceGroups(t, x)[i].Some?
    ensures i >= OwnWidth(t) ==> x.Skipped?
  {
    hide Matches, WellFormed, ValueRegex, ValueFits, IsExpression, Expression;
    var e, n := Expression(t.consumed), |Names(ValueRegex(t))|;
    if !IsOptional(t.kind) { NotConsumed(t); }
    if i < OwnWidth(t) {
      var v := SomeFit(ValueRegex(t));
      if 0 < i <= n { v := Entering(ValueRegex(t), i - 1); }
      MatchHasGroups(ValueRegex(t), v);
      ValueLanguage(t, v);
      var u := SomeFit(Behind(e));
      if i > n { u := Entering(Behind(e), i - 1 - n); }
      if IsOptional(t.kind) { MatchHasGroups(Behind(e), u); } else { u := Fit("", []); }
      x := Present(v, u);
    } else {
      var u := Entering(e.right, i - OwnWidth(t));
      MatchHasGroups(e.right, u);
      x := Skipped(u);
    }
  }

  /** A reading that enters group i, leaving out every optional value that i does not belong to. */
  lemma {:induction false} PatternEntered(p: Pattern, k: nat, i: nat) returns (r: Reading)
    requires Composes(p) && PatternLive(p) && i < |Names(RegexOf(p, k))|
    ensures Reads(p, r) && |Pieces(r)| == |Tokens(p)| && |GroupsOf(p, r)| == |Names(RegexOf(p, k))|
    ensures GroupsOf(p, r)[i].Some?
    ensures forall j :: 0 <= j < |Tokens(p)| && IsOptional(Tokens(p)[j].kind) && Outside(p, j, i) ==>
              !Pieces(r)[j].Present?
    decreases p
  {
    hide Matches, WellFormed, TokenComposes, Live, ValueRegex, ValueFits, TrailerFits, SkipFits, PieceFits, PieceGroups;
    hide ChunkRegex, OwnWidth, OtherWidth, IsBranch, Branch, Names, RegexOf;
    var n := |Names(Branch(p.lit))|;
    match p {
      case Tail(_) =>
        LastNames(p, k);
        var f := Entering(Branch(p.lit), i);
        r := Last(f);
      case Param(lit, tok, rest) =>
        NamesStep(p, k);
        var w := OwnWidth(tok) + OtherWidth(tok);
        var f := SomeFit(Branch(lit));
        var r' := SomeReading(rest);
        var x := SomePiece(tok);
        if i < n {
          f := Entering(Branch(lit), i);
        } else if i < n + w {
          x := TokenEntered(tok, i - n);
        } else {
          r' := PatternEntered(rest, k + 1, i - n - w);
        }
        MatchHasGroups(Branch(lit), f);
        TokenGroups(tok, x);
        r := Step(f, x, r');
        OutsideStep(p, i);
    }
    GroupCount(p, k, r);
  }

  lemma SomePiece(t: Token) returns (x: Piece)
    requires WellFormed(t) && TokenComposes(t) && Live(ValueRegex(t))
    ensures PieceFits(t, x) && (IsOptional(t.kind) ==> x == Absent)
  {
    hide Matches, WellFormed, TokenComposes, ValueRegex, ValueFits;
    x := Absent;
    if !IsOptional(t.kind) {
      var v := SomeFit(ValueRegex(t));
      ValueLanguage(t, v);
      x := Present(v, Fit("", []));
    }
  }

  lemma LastNames(p: Pattern, k: nat)
    requires Composes(p) && p.Tail?
    ensures Names(RegexOf(p, k)) == Names(Branch(p.lit))
  {
  }

  /** Group i can be entered while the value of parameter j is missing. */
  predicate Outside(p: Pattern, j: nat, i: nat)
    requires Composes(p) && j < |Tokens(p)|
  {
    TokenOf(p, j);
    i < GroupIndex(p, j) || i >= GroupIndex(p, j) + OwnWidth(Tokens(p)[j])
  }

  lemma OutsideStep(p: Pattern, i: nat)
    requires Composes(p) && p.Param?
    ensures var n, w := |Names(Branch(p.lit))|, OwnWidth(p.tok) + OtherWidth(p.tok);
      && (Outside(p, 0, i) <==> i < n || i >= n + OwnWidth(p.tok))
      && forall j :: 0 < j < |Tokens(p)| && i >= n + w ==> (Outside(p, j, i) <==> Outside(p.rest, j - 1, i - n - w))
  {
    hide OwnWidth, OtherWidth, IsBranch, Branch, WellFormed, TokenComposes, Names;
    forall j | 0 < j < |Tokens(p)| && i >= |Names(Branch(p.lit))| + OwnWidth(p.tok) + OtherWidth(p.tok)
      ensures Outside(p, j, i) <==>
                Outside(p.rest, j - 1, i - |Names(Branch(p.lit))| - OwnWidth(p.tok) - OtherWidth(p.tok))
    {
      TokenOf(p, j);
    }
    TokenOf(p, 0);
  }

  /** Every argument comes from its own parameter, in every match, exactly when no embedded text has taken its name. */
  lemma ArgumentsAreOwnIff(p: Pattern)
    requires Composes(p) && PatternLive(p)
    ensures (forall h :: Matches(RegexOf(p, 0), h) ==>
              |h.groups| == |Names(RegexOf(p, 0))| && TakesOwn(p, h.groups)) <==>
              KeepsOwn(p)
  {
    hide RegexOf, Names, Tokens, GroupIndex, GroupsOf, Reads, Pieces;
    hide OwnWidth, GroupName, Composes, PatternLive, Matches;
    hide OwnNameFree;
    if KeepsOwn(p) {
      forall h | Matches(RegexOf(p, 0), h) ensures |h.groups| == |Names(RegexOf(p, 0))| && TakesOwn(p, h.groups) {
        MatchHasGroups(RegexOf(p, 0), h);
        KeepingSuffices(p, h);
      }
    } else {
      var j :| 0 <= j < |Tokens(p)| && !OwnNameFree(p, j);
      var h := TakenName(p, j);
      MatchHasGroups(RegexOf(p, 0), h);
    }
  }

  lemma KeepingSuffices(p: Pattern, h: Fit)
    requires Composes(p) && KeepsOwn(p) && Matches(RegexOf(p, 0), h) && |h.groups| == |Names(RegexOf(p, 0))|
    ensures TakesOwn(p, h.groups)
  {
    hide RegexOf, Names, Tokens, GroupIndex, GroupsOf, Reads, Pieces;
    hide OwnWidth, GroupName, Composes, Matches, OwnNameFree;
    var r := PatternElim(p, 0, h);
    forall j | 0 <= j < |Tokens(p)|
      ensures GroupIndex(p, j) < |h.groups| &&
              FirstHeld(Names(RegexOf(p, 0)), h.groups, GroupName(j)) ==
                (if h.groups[GroupIndex(p, j)].Some? then Some(GroupIndex(p, j)) else None)
    {
      OwnIsFound(p, r, j);
      OwnHeld(p, 0, r, j);
    }
  }

  /** A name that is taken is found elsewhere in some match. */
  lemma TakenName(p: Pattern, j: nat) returns (h: Fit)
    requires Composes(p) && PatternLive(p) && j < |Tokens(p)| && !OwnNameFree(p, j)
    ensures Matches(RegexOf(p, 0), h) && (|h.groups| == |Names(RegexOf(p, 0))| ==> !TakesOwn(p, h.groups))
  {
    hide RegexOf, Names, Tokens, GroupIndex, GroupsOf, Reads, Pieces;
    hide OwnWidth, GroupName, Composes, PatternLive, Matches;
    OwnName(p, 0, j);
    var names, own, t := Names(RegexOf(p, 0)), GroupIndex(p, j), Tokens(p)[j];
    var i: nat;
    if GroupName(j) in names[..own] {
      i :| 0 <= i < own && names[..own][i] == GroupName(j);
    } else {
      var m :| 0 <= m < |names[own + OwnWidth(t)..]| && names[own + OwnWidth(t)..][m] == GroupName(j);
      i := own + OwnWidth(t) + m;
    }
    assert names[i] == GroupName(j) && Outside(p, j, i);
    var r := PatternEntered(p, 0, i);
    PatternIntro(p, 0, r);
    OwnHeld(p, 0, r, j);
    h := Fit(PathOf(r), GroupsOf(p, r));
    assert FirstHeld(names, h.groups, GroupName(j)) != (if h.groups[own].Some? then Some(own) else None);
  }

  // ----- A sufficient condition on the embedded texts alone

  /** The names that literals, values and consumed texts give to groups. */
  function EmbeddedNames(p: Pattern): seq<string>
    requires Composes(p)
  {
    Names(Branch(p.lit)) +
    if p.Tail? then [] else Names(ValueRegex(p.tok)) + Names(Expression(p.tok.consumed)) + EmbeddedNames(p.rest)
  }

  lemma ChunkNameIs(t: Token, k: nat, i: nat)
    requires WellFormed(t) && TokenComposes(t) && 0 < i < |Names(ChunkRegex(t, k))|
    ensures Names(ChunkRegex(t, k))[i] in Names(ValueRegex(t)) + Names(Expression(t.consumed))
  {
    hide ValueRegex, IsExpression, Expression, GroupName;
    var group, e := Named(GroupName(k), ValueRegex(t)), Expression(t.consumed);
    assert Names(group) == [GroupName(k)] + Names(ValueRegex(t));
    assert Names(Cat(group, Behind(e))) == Names(group) + Names(Behind(e));
    if IsOptional(t.kind) {
      assert Names(ChunkRegex(t, k)) == [GroupName(k)] + (Names(ValueRegex(t)) + Names(e));
    }
    if i <= |Names(ValueRegex(t))| { assert Names(ChunkRegex(t, k))[i] == Names(ValueRegex(t))[i - 1]; }
  }

  /** A group is named by an embedded text or is some parameter's own. */
  lemma {:induction false} NameIs(p: Pattern, k: nat, i: nat) returns (embedded: bool, m: nat)
    requires Composes(p) && i < |Names(RegexOf(p, k))|
    ensures embedded ==> Names(RegexOf(p, k))[i] in EmbeddedNames(p)
    ensures !embedded ==> m < |Tokens(p)| && i == GroupIndex(p, m) && Names(RegexOf(p, k))[i] == GroupName(k + m)
    decreases p
  {
    hide ChunkRegex, RegexOf, WellFormed, TokenComposes, GroupName, OwnWidth;
    hide OtherWidth, Names, EmbeddedNames, GroupIndex;
    embedded, m := true, 0;
    EmbeddedStep(p);
    if p.Tail? {
      LastNames(p, k);
    } else {
      hide Tokens;
      NamesStep(p, k);
      IndexStep(p);
      var n, w := |Names(Branch(p.lit))|, OwnWidth(p.tok) + OtherWidth(p.tok);
      var a, b, c := Names(Branch(p.lit)), Names(ChunkRegex(p.tok, k)), Names(RegexOf(p.rest, k + 1));
      if i < n {
        assert Names(RegexOf(p, k))[i] == a[i];
      } else if i < n + w {
        assert Names(RegexOf(p, k))[i] == b[i - n];
        if i > n { ChunkNameIs(p.tok, k, i - n); } else { embedded := false; }
      } else {
        assert Names(RegexOf(p, k))[i] == c[i - n - w];
        embedded, m := NameIs(p.rest, k + 1, i - n - w);
        assert k + 1 + m == k + (m + 1);
        m := m + 1;
      }
    }
  }

  lemma IndexStep(p: Pattern)
    requires Composes(p) && p.Param?
    ensures |Tokens(p)| == 1 + |Tokens(p.rest)| && GroupIndex(p, 0) == |Names(Branch(p.lit))|
    ensures forall m: nat :: m < |Tokens(p.rest)| ==>
              GroupIndex(p, m + 1) ==
                |Names(Branch(p.lit))| + OwnWidth(p.tok) + OtherWidth(p.tok) + GroupIndex(p.rest, m)
  {
    hide OwnWidth, OtherWidth, IsBranch, Branch, Names;
  }

  lemma EmbeddedStep(p: Pattern)
    requires Composes(p)
    ensures forall n :: n in EmbeddedNames(p) <==>
              || n in Names(Branch(p.lit))
              || (p.Param? && n in Names(ValueRegex(p.tok)) + Names(Expression(p.tok.consumed)))
              || (p.Param? && n in EmbeddedNames(p.rest))
  {
    hide IsBranch, Branch, Names, ValueRegex, IsExpression, Expression;
  }

  lemma NamesDiffer(i: nat, j: nat)
    ensures GroupName(i) == GroupName(j) ==> i == j
  {
    assert GroupName(i)[2..] == Decimal(i) && GroupName(j)[2..] == Decimal(j);
    if GroupName(i) == GroupName(j) { DecimalInjective(i, j); }
  }

  /** It is enough that no embedded text uses the name of a parameter. */
  lemma ForeignNamesSuffice(p: Pattern)
    requires Composes(p) && forall j :: 0 <= j < |Tokens(p)| ==> GroupName(j) !in EmbeddedNames(p)
    ensures KeepsOwn(p)
  {
    hide RegexOf, Names, Tokens, GroupIndex, OwnWidth, GroupName, Composes, EmbeddedNames;
    forall j | 0 <= j < |Tokens(p)| ensures OwnNameFree(p, j) {
      OwnName(p, 0, j);
      var names := Names(RegexOf(p, 0));
      forall i | 0 <= i < |names| && names[i] == GroupName(j) ensures i == GroupIndex(p, j) {
        var embedded, m := NameIs(p, 0, i);
        NamesDiffer(m, j);
      }
      OwnWidthPositive(Tokens(p)[j]);
    }
  }

  lemma OwnWidthPositive(t: Token)
    requires WellFormed(t) && TokenComposes(t)
    ensures OwnWidth(t) > 0
  {
  }

  // ----- Arguments

  const INT64_MAX: int := 0x7FFF_FFFF_FFFF_FFFF
  const INT64_MIN: int := -0x8000_0000_0000_0000

  function DigitsValue(s: string): nat
    requires forall i :: 0 <= i < |s| ==> '0' <= s[i] <= '9'
  {
    if s == "" then 0 else 10 * DigitsValue(s[..|s| - 1]) + (s[|s| - 1] as int - '0' as int)
  }

  function IntegerValue(s: string): int
    requires IsInteger(s)
  {
    (if s[0] == '-' then -1 else 1) * DigitsValue(Unsigned(s))
  }

  /** The library conversion to a 64-bit integer, which rejects other texts and values out of range. */
  function ToInt64(s: string): Option<int> {
    if IsInteger(s) && INT64_MIN <= IntegerValue(s) <= INT64_MAX then Some(IntegerValue(s)) else None
  }

  datatype Arg =
    | IntArg(i: int)
    | DecimalArg(text: string)
    | StringArg(s: string)
    | OptionalIntArg(oi: Option<int>)
    | OptionalDecimalArg(otext: Option<string>)
    | OptionalStringArg(os: Option<string>)

  function GroupStr(names: seq<string>, groups: Groups, k: nat): string
    requires |names| == |groups|
  {
    match Lookup(names, groups, GroupName(k))
    case Some(text) => text
    case None => ""
  }

  function IntOrMax(s: string): int {
    match ToInt64(s)
    case Some(i) => i
    case None => INT64_MAX
  }

  /** Converts the group named `__k` to a handler argument. */
  function GetHandlerArg(kind: RouteParamType, k: nat, names: seq<string>, groups: Groups): Arg
    requires |names| == |groups|
  {
    var group := Lookup(names, groups, GroupName(k));
    match kind
    case Int64 => IntArg(IntOrMax(GroupStr(names, groups, k)))
    case Double => DecimalArg(GroupStr(names, groups, k))
    case String => StringArg(GroupStr(names, groups, k))
    case OptionalInt64 => OptionalIntArg(if group.Some? then Some(IntOrMax(group.value)) else None)
    case OptionalDouble => OptionalDecimalArg(group)
    case OptionalString => OptionalStringArg(group)
  }

  function CallArgs(kinds: seq<RouteParamType>, names: seq<string>, groups: Groups): (args: seq<Arg>)
    requires |names| == |groups|
    ensures |args| == |kinds|
    ensures forall k :: 0 <= k < |kinds| ==> args[k] == GetHandlerArg(kinds[k], k, names, groups)
  {
    seq(|kinds|, k requires 0 <= k < |kinds| => GetHandlerArg(kinds[k], k, names, groups))
  }

  /** An integer too large or too small for 64 bits is passed as the largest one. */
  function Saturated(v: string): int
    requires IsInteger(v)
  {
    var n := IntegerValue(v);
    if n < INT64_MIN || n > INT64_MAX then INT64_MAX else n
  }

  /** arg is the piece x of the path, at the type of its parameter. */
  ghost predicate ArgIsPiece(kind: RouteParamType, x: Piece, arg: Arg) {
    match arg
    case IntArg(i) => kind.Int64? && x.Present? && IsInteger(x.value.text) && i == Saturated(x.value.text)
    case DecimalArg(text) => kind.Double? && x.Present? && IsDecimal(x.value.text) && text == x.value.text
    case StringArg(s) => kind.String? && x.Present? && s == x.value.text
    case OptionalIntArg(oi) =>
      kind.OptionalInt64? && (oi.Some? <==> x.Present?) &&
      (x.Present? ==> IsInteger(x.value.text) && oi.value == Saturated(x.value.text))
    case OptionalDecimalArg(ot) =>
      kind.OptionalDouble? && (ot.Some? <==> x.Present?) &&
      (x.Present? ==> IsDecimal(x.value.text) && ot.value == x.value.text)
    case OptionalStringArg(os) =>
      kind.OptionalString? && (os.Some? <==> x.Present?) && (x.Present? ==> os.value == x.value.text)
  }

  lemma ArgFromPiece(t: Token, x: Piece, k: nat, names: seq<string>, groups: Groups)
    requires PieceFits(t, x) && |names| == |groups|
    requires Lookup(names, groups, GroupName(k)) == if x.Present? then Some(x.value.text) else None
    ensures ArgIsPiece(t.kind, x, GetHandlerArg(t.kind, k, names, groups))
  {
    hide GroupName, IsInteger, IsDecimal, IntegerValue, Lookup, TrailerFits, SkipFits, Matches;
  }

  /** The group found under a parameter's name holds the value of its piece, and is there only with one. */
  lemma LookupFindsPiece(p: Pattern, r: Reading, j: nat)
    requires Composes(p) && Reads(p, r) && j < |Tokens(p)| && OwnNameFree(p, j)
    ensures |GroupsOf(p, r)| == |Names(RegexOf(p, 0))| && |Pieces(r)| == |Tokens(p)|
    ensures Lookup(Names(RegexOf(p, 0)), GroupsOf(p, r), GroupName(j)) ==
              if Pieces(r)[j].Present? then Some(Pieces(r)[j].value.text) else None
  {
    hide RegexOf, Names, Tokens, GroupIndex, GroupsOf, Reads, Pieces, OwnWidth, GroupName, Composes;
    OwnIsFound(p, r, j);
    OwnHeld(p, 0, r, j);
  }

  /** Each handler argument is the piece of its own parameter. */
  lemma ArgsArePieces(p: Pattern, r: Reading)
    requires Composes(p) && KeepsOwn(p) && Reads(p, r)
    ensures |GroupsOf(p, r)| == |Names(RegexOf(p, 0))| && |Pieces(r)| == |Kinds(p)|
    ensures forall k :: 0 <= k < |Kinds(p)| ==>
              ArgIsPiece(Kinds(p)[k], Pieces(r)[k], CallArgs(Kinds(p), Names(RegexOf(p, 0)), GroupsOf(p, r))[k])
  {
    hide RegexOf, Names, Tokens, GroupsOf, Reads, Pieces, GroupName, Composes, OwnNameFree, GetHandlerArg, ArgIsPiece;
    hide Kinds, Lookup;
    GroupCount(p, 0, r);
    KindOf(p, 0);
    forall k | 0 <= k < |Kinds(p)|
      ensures ArgIsPiece(Kinds(p)[k], Pieces(r)[k], CallArgs(Kinds(p), Names(RegexOf(p, 0)), GroupsOf(p, r))[k])
    {
      KindOf(p, k);
      LookupFindsPiece(p, r, k);
      OwnHeld(p, 0, r, k);
      ArgFromPiece(Tokens(p)[k], Pieces(r)[k], k, Names(RegexOf(p, 0)), GroupsOf(p, r));
    }
  }
}
