/** Compilation preserves meaning: the compiled regex matches a path as the pattern reads, piece by piece. */
module RouteLanguage {
  import opened Wrappers
  import opened Regex
  import opened RoutePatterns
  import opened RouteChunks
  import opened RouteNumbers

  /** The embedded texts are complete expressions. */
  predicate TokenComposes(t: Token) {
    (t.value != "" ==> IsExpression(t.value)) && IsExpression(t.consumed)
  }

  /** Every literal of the pattern is a complete branch, and every parameter composes. */
  predicate Composes(p: Pattern) {
    IsBranch(p.lit) && (p.Param? ==> WellFormed(p.tok) && TokenComposes(p.tok) && Composes(p.rest))
  }

  /** The expression a parameter's value must match. */
  function ValueRegex(t: Token): Regex
    requires WellFormed(t) && TokenComposes(t)
  {
    match t.kind
    case Int64 => INTEGER
    case OptionalInt64 => INTEGER
    case Double => DECIMAL
    case OptionalDouble => DECIMAL
    case String => Expression(t.value)
    case OptionalString => Expression(t.value)
  }

  /** The alternative of the consumed text that stands behind the value; any other stands alone. */
  function Behind(e: Regex): Regex { if e.Alt? then e.left else e }

  function Attached(group: Regex, e: Regex): Regex {
    if e.Alt? then Alt(Cat(group, e.left), e.right) else Cat(group, e)
  }

  function ChunkRegex(t: Token, k: nat): Regex
    requires WellFormed(t) && TokenComposes(t)
  {
    var group := Named(GroupName(k), ValueRegex(t));
    if IsOptional(t.kind) then Opt(Attached(group, Expression(t.consumed))) else group
  }

  /** The compiled pattern as an expression, built piece by piece. */
  function RegexOf(p: Pattern, k: nat): Regex
    requires Composes(p)
  {
    match p
    case Tail(lit) => Branch(lit)
    case Param(lit, tok, rest) => Append(Branch(lit), Cat(ChunkRegex(tok, k), RegexOf(rest, k + 1)))
  }

  // ----- The compiled text parses to that expression

  lemma ValueParses(t: Token)
    requires WellFormed(t) && TokenComposes(t)
    ensures IsExpression(ValueText(t)) && Expression(ValueText(t)) == ValueRegex(t)
  {
    hide IsExpression, Expression;
    IntegerParses();
    DecimalParses();
  }

  lemma {:induction false} NameParses(name: string, rest: string)
    requires forall i :: 0 <= i < |name| ==> name[i] != '>'
    ensures ParseName(name + ">" + rest) == Some((name, rest))
  {
    var s := name + ">" + rest;
    if name == "" {
      assert s[1..] == rest;
    } else {
      NameParses(name[1..], rest);
      assert s[1..] == name[1..] + ">" + rest;
      assert [name[0]] + name[1..] == name;
    }
  }

  lemma GroupAtomParses(name: string, body: string, more: string)
    requires name != "" && name[0] != '=' && name[0] != '!'
    requires forall i :: 0 <= i < |name| ==> name[i] != '>'
    requires IsExpression(body)
    ensures ParseAtom("(?<" + name + ">" + body + ")" + more) == Some((Named(name, Expression(body)), more))
  {
    hide ParseName, CloseGroup, IsExpression, Expression;
    var s := "(?<" + name + ">" + body + ")" + more;
    var tail := body + ")" + more;
    assert s[3..] == name + ">" + tail && s[3] == name[0];
    NameParses(name, tail);
    GroupParses(body, more);
    assert ")" == [')'];
  }

  lemma GroupTextParses(t: Token, k: nat, more: string)
    requires WellFormed(t) && TokenComposes(t)
    ensures ParseAtom(GroupText(t, k) + more) == Some((Named(GroupName(k), ValueRegex(t)), more))
  {
    hide ParseAtom, IsExpression, Expression, TokenComposes, ValueText;
    ValueParses(t);
    GroupAtomParses(GroupName(k), ValueText(t), more);
  }

  /** An atom that no quantifier follows, then a branch. */
  lemma AtomThenBranch(s: string, t: string)
    requires s != "" && s[0] == '(' && ParseAtom(s).Some? && ParseAtom(s).value.1 == t
    requires Separates("", t) && ParseBranch(t).Some?
    ensures ParseBranch(s) == Some((Cat(ParseAtom(s).value.0, ParseBranch(t).value.0), ParseBranch(t).value.1))
  {
    hide ParseAtom;
    assert ParsePiece(s) == ParseAtom(s);
  }

  /** A branch never starts with a quantifier. */
  lemma BranchStartsClean(s: string)
    ensures ParseBranch(s).Some? ==> Separates("", s)
  {
    if s != "" && IsQuantifier(s[0]) {
      assert ParseAtom(s).None?;
      assert ParsePiece(s).None?;
    }
  }

  lemma OptionalTextParses(t: Token, k: nat, more: string)
    requires WellFormed(t) && TokenComposes(t) && IsOptional(t.kind)
    ensures ParseAtom("(?:" + GroupText(t, k) + t.consumed + ")" + more) ==
              Some((Attached(Named(GroupName(k), ValueRegex(t)), Expression(t.consumed)), more))
  {
    hide GroupText, ValueRegex, GroupName, ParseAtom, Attached;
    var inner := GroupText(t, k) + t.consumed;
    OptionalInnerParses(t, k);
    GroupParses(inner, more);
    assert ")" == [')'];
    ColonGroupParses(inner, more);
    assert "(?:" + GroupText(t, k) + t.consumed == "(?:" + inner;
  }

  lemma ColonGroupParses(inner: string, more: string)
    ensures ParseAtom("(?:" + inner + ")" + more) == CloseGroup(inner + ")" + more)
  {
    hide CloseGroup;
    var s := "(?:" + inner + ")" + more;
    assert s[3..] == inner + ")" + more;
  }

  /** A branch is a sequence, so an alternative in what is parsed is one of the text. */
  lemma AlternativeOrBranch(s: string)
    requires IsExpression(s)
    ensures ParseBranch(s).Some? && !ParseBranch(s).value.0.Alt?
    ensures ParseBranch(s).value.1 == "" <==> !Expression(s).Alt?
    ensures ParseBranch(s).value.0 == Behind(Expression(s))
    ensures Expression(s).Alt? ==>
      var rest := ParseBranch(s).value.1; rest[0] == '|' && ParseAlt(rest[1..]) == Some((Expression(s).right, ""))
  {
    hide ParsePiece;
  }

  lemma OptionalInnerParses(t: Token, k: nat)
    requires WellFormed(t) && TokenComposes(t)
    ensures IsExpression(GroupText(t, k) + t.consumed)
    ensures Expression(GroupText(t, k) + t.consumed) ==
              Attached(Named(GroupName(k), ValueRegex(t)), Expression(t.consumed))
  {
    AlternativeOrBranch(t.consumed);
    hide ParseAtom, ParseBranch, ParsePiece, GroupText, ValueRegex, GroupName;
    var s := GroupText(t, k) + t.consumed;
    GroupTextParses(t, k, t.consumed);
    BranchStartsClean(t.consumed);
    GroupTextStarts(t, k);
    AtomThenBranch(s, t.consumed);
  }

  lemma GroupTextStarts(t: Token, k: nat)
    ensures GroupText(t, k) != "" && GroupText(t, k)[0] == '('
    ensures Chunk(t, k) != "" && Chunk(t, k)[0] == '('
  {
  }

  lemma ChunkParses(t: Token, k: nat, more: string)
    requires WellFormed(t) && TokenComposes(t) && Separates("", more)
    ensures ParsePiece(Chunk(t, k) + more) == Some((ChunkRegex(t, k), more))
  {
    hide ParseAtom, GroupText, ValueRegex, GroupName, TokenComposes, WellFormed, Attached;
    if IsOptional(t.kind) {
      OptionalTextParses(t, k, "?" + more);
      var s := "(?:" + GroupText(t, k) + t.consumed + ")";
      assert Chunk(t, k) + more == s + ("?" + more);
      assert ("?" + more)[1..] == more;
      if more != "" { assert ("?" + more)[1] == more[0]; }
    } else {
      GroupTextParses(t, k, more);
      GroupTextStarts(t, k);
    }
  }

  lemma {:induction false} CompiledParses(p: Pattern, k: nat)
    requires Composes(p)
    ensures ParseBranch(Compiled(p, k)) == Some((RegexOf(p, k), ""))
    decreases p
  {
    hide ParseBranch, ParsePiece, Chunk, ChunkRegex, TokenComposes, WellFormed, Append, IsBranch, Branch;
    match p
    case Tail(lit) => BranchIs(lit);
    case Param(lit, tok, rest) =>
      CompiledParses(rest, k + 1);
      ParamParses(lit, tok, k, Compiled(rest, k + 1), RegexOf(rest, k + 1));
  }

  lemma BranchIs(lit: string)
    requires IsBranch(lit)
    ensures ParseBranch(lit) == Some((Branch(lit), ""))
  {
  }

  lemma ParamParses(lit: string, tok: Token, k: nat, more: string, r: Regex)
    requires IsBranch(lit) && WellFormed(tok) && TokenComposes(tok) && ParseBranch(more) == Some((r, ""))
    ensures ParseBranch(lit + Chunk(tok, k) + more) == Some((Append(Branch(lit), Cat(ChunkRegex(tok, k), r)), ""))
  {
    hide ParsePiece, Chunk, ChunkRegex, TokenComposes, WellFormed, Append, IsBranch, Branch, ParseBranch;
    var t := Chunk(tok, k) + more;
    BranchStartsClean(more);
    ChunkParses(tok, k, more);
    GroupTextStarts(tok, k);
    assert !EndsBranch(t);
    PieceThenBranch(t, more);
    BranchThen(lit, t);
    assert lit + Chunk(tok, k) + more == lit + t;
  }

  // ----- Reading a path: literal texts and pieces in turn

  /** What a parameter took from the path: nothing; a value, with the consumed text behind it;
      or, where the consumed text has alternatives, a later one of them by itself. */
  datatype Piece = Absent | Present(value: Fit, trailer: Fit) | Skipped(trailer: Fit)

  datatype Reading =
    | Last(text: Fit)
    | Step(text: Fit, piece: Piece, rest: Reading)

  function PieceText(x: Piece): string {
    match x
    case Absent => ""
    case Present(v, u) => v.text + u.text
    case Skipped(u) => u.text
  }

  function PathOf(r: Reading): string {
    match r
    case Last(f) => f.text
    case Step(f, piece, rest) => f.text + PieceText(piece) + PathOf(rest)
  }

  function Pieces(r: Reading): seq<Piece> {
    match r
    case Last(_) => []
    case Step(_, piece, rest) => [piece] + Pieces(rest)
  }

  /** A value that a parameter of this kind stands for. */
  ghost predicate ValueFits(t: Token, f: Fit) {
    match t.kind
    case Int64 => IsInteger(f.text) && f.groups == []
    case OptionalInt64 => IsInteger(f.text) && f.groups == []
    case Double => IsDecimal(f.text) && f.groups == []
    case OptionalDouble => IsDecimal(f.text) && f.groups == []
    case String => IsExpression(t.value) && Matches(Expression(t.value), f)
    case OptionalString => IsExpression(t.value) && Matches(Expression(t.value), f)
  }

  ghost predicate TextFits(lit: string, f: Fit) {
    IsBranch(lit) && Matches(Branch(lit), f)
  }

  /** The consumed text as it stands behind a value. */
  ghost predicate TrailerFits(t: Token, f: Fit) {
    IsExpression(t.consumed) && Matches(Behind(Expression(t.consumed)), f)
  }

  /** The consumed text as it stands without one. */
  ghost predicate SkipFits(t: Token, f: Fit) {
    IsExpression(t.consumed) && Expression(t.consumed).Alt? && Matches(Expression(t.consumed).right, f)
  }

  /** A parameter is its value; an optional also takes its consumed text, or nothing. */
  ghost predicate PieceFits(t: Token, x: Piece) {
    match x
    case Absent => IsOptional(t.kind)
    case Present(v, u) => ValueFits(t, v) && if IsOptional(t.kind) then TrailerFits(t, u) else u == Fit("", [])
    case Skipped(u) => IsOptional(t.kind) && SkipFits(t, u)
  }

  /** The path reads, in order, as the literals and parameters of the pattern. */
  ghost predicate Reads(p: Pattern, r: Reading) {
    match p
    case Tail(lit) => r.Last? && TextFits(lit, r.text)
    case Param(lit, tok, rest) => r.Step? && TextFits(lit, r.text) && PieceFits(tok, r.piece) && Reads(rest, r.rest)
  }

  /** How many groups open in front of a consumed text that stands alone, and behind one that does not. */
  function OwnWidth(t: Token): nat
    requires WellFormed(t) && TokenComposes(t)
  {
    1 + |Names(ValueRegex(t))| + |Names(Behind(Expression(t.consumed)))|
  }

  function OtherWidth(t: Token): nat
    requires TokenComposes(t)
  {
    if Expression(t.consumed).Alt? then |Names(Expression(t.consumed).right)| else 0
  }

  /** The groups of a parameter: its value first, then what value and consumed text name themselves. */
  function PieceGroups(t: Token, x: Piece): Groups
    requires WellFormed(t) && TokenComposes(t)
  {
    match x
    case Absent => Nothing(OwnWidth(t) + OtherWidth(t))
    case Present(v, u) => [Some(v.text)] + v.groups + u.groups + Nothing(OtherWidth(t))
    case Skipped(u) => Nothing(OwnWidth(t)) + u.groups
  }

  function GroupsOf(p: Pattern, r: Reading): Groups
    requires Composes(p)
  {
    match p
    case Tail(_) => r.text.groups
    case Param(_, tok, rest) =>
      if r.Step? then r.text.groups + PieceGroups(tok, r.piece) + GroupsOf(rest, r.rest) else r.text.groups
  }

  lemma ValueLanguage(t: Token, f: Fit)
    requires WellFormed(t) && TokenComposes(t)
    ensures Matches(ValueRegex(t), f) <==> ValueFits(t, f)
  {
    hide Matches, IsInteger, IsDecimal, IsExpression, Expression;
    IntegerLanguage(f);
    DecimalLanguage(f);
  }

  function PieceShown(t: Token, x: Piece): Fit
    requires WellFormed(t) && TokenComposes(t)
  {
    Fit(PieceText(x), PieceGroups(t, x))
  }

  lemma AttachedNames(t: Token, k: nat)
    requires WellFormed(t) && TokenComposes(t)
    ensures |Names(Attached(Named(GroupName(k), ValueRegex(t)), Expression(t.consumed)))| == OwnWidth(t) + OtherWidth(t)
  {
    hide ValueRegex, IsExpression, Expression, GroupName;
    var group, e := Named(GroupName(k), ValueRegex(t)), Expression(t.consumed);
    assert Names(group) == [GroupName(k)] + Names(ValueRegex(t));
    assert Names(Cat(group, Behind(e))) == Names(group) + Names(Behind(e));
  }

  lemma ChunkNames(t: Token, k: nat)
    requires WellFormed(t) && TokenComposes(t)
    ensures var ns := Names(ChunkRegex(t, k)); |ns| == OwnWidth(t) + OtherWidth(t) && ns[0] == GroupName(k)
  {
    AttachedNames(t, k);
    hide ValueRegex, IsExpression, GroupName;
    assert Expression("") == Empty;
  }

  lemma GroupThen(t: Token, k: nat, e: Regex, h: Fit) returns (v: Fit, u: Fit)
    requires WellFormed(t) && TokenComposes(t) && Matches(Cat(Named(GroupName(k), ValueRegex(t)), e), h)
    ensures ValueFits(t, v) && Matches(e, u) && h == Fit(v.text + u.text, [Some(v.text)] + v.groups + u.groups)
  {
    hide Matches, ValueRegex, ValueFits, WellFormed, TokenComposes, GroupName;
    var g, u' := CatSplits(Named(GroupName(k), ValueRegex(t)), e, h);
    v := NamedSplits(GroupName(k), ValueRegex(t), g);
    ValueLanguage(t, v);
    u := u';
  }

  lemma GroupBefore(t: Token, k: nat, e: Regex, v: Fit, u: Fit)
    requires WellFormed(t) && TokenComposes(t) && ValueFits(t, v) && Matches(e, u)
    ensures Matches(Cat(Named(GroupName(k), ValueRegex(t)), e),
              Fit(v.text + u.text, [Some(v.text)] + v.groups + u.groups))
  {
    hide Matches, ValueRegex, ValueFits, WellFormed, TokenComposes, GroupName;
    ValueLanguage(t, v);
    NamedJoins(GroupName(k), ValueRegex(t), v);
    CatJoins(Named(GroupName(k), ValueRegex(t)), e, Fit(v.text, [Some(v.text)] + v.groups), u);
  }

  /** What an optional takes when it takes something. */
  lemma AttachedElim(t: Token, k: nat, h: Fit) returns (x: Piece)
    requires WellFormed(t) && TokenComposes(t) && IsOptional(t.kind)
    requires Matches(Attached(Named(GroupName(k), ValueRegex(t)), Expression(t.consumed)), h)
    ensures PieceFits(t, x) && h == PieceShown(t, x)
  {
    hide Matches, ValueRegex, ValueFits, WellFormed, GroupName, IsExpression, Expression;
    var group, e := Named(GroupName(k), ValueRegex(t)), Expression(t.consumed);
    if e.Alt? {
      var left, f := AltSplits(Cat(group, e.left), e.right, h);
      if left {
        var v, u := GroupThen(t, k, e.left, f);
        x := Present(v, u);
        ThenNothing(f, OtherWidth(t));
      } else {
        x := Skipped(f);
      }
    } else {
      var v, u := GroupThen(t, k, e, h);
      x := Present(v, u);
      ThenNothing(h, 0);
    }
  }

  lemma ThenNothing(f: Fit, n: nat)
    ensures Then(f, Fit("", Nothing(n))) == Fit(f.text, f.groups + Nothing(n))
    ensures Then(Fit("", Nothing(n)), f) == Fit(f.text, Nothing(n) + f.groups)
    ensures n == 0 ==> f.groups + Nothing(n) == f.groups
  {
  }

  lemma AttachedIntro(t: Token, k: nat, x: Piece)
    requires WellFormed(t) && TokenComposes(t) && IsOptional(t.kind) && PieceFits(t, x) && !x.Absent?
    ensures Matches(Attached(Named(GroupName(k), ValueRegex(t)), Expression(t.consumed)), PieceShown(t, x))
  {
    hide Matches, ValueRegex, ValueFits, WellFormed, GroupName, IsExpression, Expression;
    var group, e := Named(GroupName(k), ValueRegex(t)), Expression(t.consumed);
    match x {
      case Present(v, u) =>
        GroupBefore(t, k, Behind(e), v, u);
        var f := Fit(v.text + u.text, [Some(v.text)] + v.groups + u.groups);
        ThenNothing(f, OtherWidth(t));
        if e.Alt? { AltJoinsLeft(Cat(group, e.left), e.right, f); }
      case Skipped(u) =>
        ThenNothing(u, OwnWidth(t));
        AltJoinsRight(Cat(group, e.left), e.right, u);
    }
  }

  lemma ChunkElim(t: Token, k: nat, h: Fit) returns (x: Piece)
    requires WellFormed(t) && TokenComposes(t) && Matches(ChunkRegex(t, k), h)
    ensures PieceFits(t, x) && h == PieceShown(t, x)
  {
    hide Matches, ValueRegex, ValueFits, GroupName, IsExpression, Expression;
    hide OwnWidth, OtherWidth, Attached, TrailerFits, SkipFits;
    if IsOptional(t.kind) {
      OptMatches(Attached(Named(GroupName(k), ValueRegex(t)), Expression(t.consumed)), h);
      AttachedNames(t, k);
      if Matches(Attached(Named(GroupName(k), ValueRegex(t)), Expression(t.consumed)), h) {
        x := AttachedElim(t, k, h);
      } else {
        x := Absent;
      }
    } else {
      var v := NamedSplits(GroupName(k), ValueRegex(t), h);
      ValueLanguage(t, v);
      x := Present(v, Fit("", []));
      PlainGroups(t, v);
    }
  }

  lemma PlainGroups(t: Token, v: Fit)
    requires WellFormed(t) && TokenComposes(t) && !IsOptional(t.kind)
    ensures PieceShown(t, Present(v, Fit("", []))) == Fit(v.text, [Some(v.text)] + v.groups)
  {
    assert Expression("") == Empty;
    assert v.text + "" == v.text;
  }

  lemma ChunkIntro(t: Token, k: nat, x: Piece)
    requires WellFormed(t) && TokenComposes(t) && PieceFits(t, x)
    ensures Matches(ChunkRegex(t, k), PieceShown(t, x))
  {
    hide Matches, ValueRegex, ValueFits, GroupName, IsExpression, Expression;
    hide OwnWidth, OtherWidth, Attached, TrailerFits, SkipFits;
    if IsOptional(t.kind) {
      OptMatches(Attached(Named(GroupName(k), ValueRegex(t)), Expression(t.consumed)), PieceShown(t, x));
      AttachedNames(t, k);
      if !x.Absent? { AttachedIntro(t, k, x); }
    } else {
      ValueLanguage(t, x.value);
      NamedJoins(GroupName(k), ValueRegex(t), x.value);
      PlainGroups(t, x.value);
    }
  }

  lemma LiteralIsChain(lit: string)
    requires IsBranch(lit)
    ensures IsChain(Branch(lit))
  {
    BranchIsChain(lit);
  }

  /** What a reading shows, at the step of one parameter. */
  lemma ShownStep(p: Pattern, r: Reading)
    requires Composes(p) && p.Param? && r.Step?
    ensures Fit(PathOf(r), GroupsOf(p, r)) ==
              Then(r.text, Then(PieceShown(p.tok, r.piece), Fit(PathOf(r.rest), GroupsOf(p.rest, r.rest))))
  {
    hide PieceText, PieceGroups;
  }

  /** Every match of the compiled expression divides the path into literals and pieces. */
  lemma {:induction false} PatternElim(p: Pattern, k: nat, h: Fit) returns (r: Reading)
    requires Composes(p) && Matches(RegexOf(p, k), h)
    ensures Reads(p, r) && h == Fit(PathOf(r), GroupsOf(p, r))
    decreases p
  {
    hide Matches, PieceFits, PieceShown, WellFormed, TokenComposes, IsBranch, Branch, IsChain, Append, ChunkRegex;
    match p {
      case Tail(lit) =>
        r := Last(h);
      case Param(lit, tok, rest) =>
        LiteralIsChain(lit);
        var f, g := AppendSplits(Branch(lit), Cat(ChunkRegex(tok, k), RegexOf(rest, k + 1)), h);
        var g0, g1 := CatSplits(ChunkRegex(tok, k), RegexOf(rest, k + 1), g);
        var x := ChunkElim(tok, k, g0);
        var r' := PatternElim(rest, k + 1, g1);
        r := Step(f, x, r');
        ShownStep(p, r);
    }
  }

  /** And every such division is a match. */
  lemma {:induction false} PatternIntro(p: Pattern, k: nat, r: Reading)
    requires Composes(p) && Reads(p, r)
    ensures Matches(RegexOf(p, k), Fit(PathOf(r), GroupsOf(p, r)))
    decreases p
  {
    hide Matches, PieceFits, PieceShown, WellFormed, TokenComposes, IsBranch, Branch, IsChain, Append, ChunkRegex;
    match p {
      case Tail(lit) =>
      case Param(lit, tok, rest) =>
        LiteralIsChain(lit);
        ChunkIntro(tok, k, r.piece);
        PatternIntro(rest, k + 1, r.rest);
        var g0, g1 := PieceShown(tok, r.piece), Fit(PathOf(r.rest), GroupsOf(rest, r.rest));
        CatJoins(ChunkRegex(tok, k), RegexOf(rest, k + 1), g0, g1);
        AppendJoins(Branch(lit), Cat(ChunkRegex(tok, k), RegexOf(rest, k + 1)), r.text, Then(g0, g1));
        ShownStep(p, r);
    }
  }
}
