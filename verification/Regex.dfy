/** Regular expressions: the concrete syntax that route patterns use, and the language each denotes. */
module Regex {

  import opened Wrappers

  /** A set of characters: the union of some ranges, or everything outside it. */
  datatype CharSet = CharSet(negated: bool, ranges: seq<(char, char)>)

  predicate InRanges(c: char, ranges: seq<(char, char)>) {
    exists i :: 0 <= i < |ranges| && ranges[i].0 <= c <= ranges[i].1
  }

  predicate InSet(c: char, cs: CharSet) {
    InRanges(c, cs.ranges) != cs.negated
  }

  datatype Regex =
    | Empty
    | Chars(cs: CharSet)
    | Cat(first: Regex, second: Regex)
    | Alt(left: Regex, right: Regex)
    | Repeat(body: Regex, min: nat, max: Option<nat>)
    | Named(name: string, inner: Regex)

  function Opt(r: Regex): Regex { Repeat(r, 0, Some(1)) }

  function Plus(r: Regex): Regex { Repeat(r, 1, None) }

  function Literal(c: char): Regex { Chars(CharSet(false, [(c, c)])) }

  const DIGITS: seq<(char, char)> := [('0', '9')]
  const WORD: seq<(char, char)> := [('0', '9'), ('A', 'Z'), ('_', '_'), ('a', 'z')]
  const SPACES: seq<(char, char)> := [(' ', ' '), ('\t', '\r')]

  // ----- Concrete syntax: recursive descent over the remaining text

  predicate IsQuantifier(c: char) { c == '*' || c == '+' || c == '?' || c == '{' }

  predicate EndsBranch(s: string) { s == "" || s[0] == ')' || s[0] == '|' }

  function ParseAlt(s: string): (r: Option<(Regex, string)>)
    ensures r.Some? ==> |r.value.1| <= |s|
    decreases |s|, 3
  {
    match ParseBranch(s)
    case None => None
    case Some((left, rest)) =>
      if rest != "" && rest[0] == '|' then
        match ParseAlt(rest[1..])
        case None => None
        case Some((right, rest')) => Some((Alt(left, right), rest'))
      else Some((left, rest))
  }

  function ParseBranch(s: string): (r: Option<(Regex, string)>)
    ensures r.Some? ==> |r.value.1| <= |s| && EndsBranch(r.value.1)
    decreases |s|, 2
  {
    if EndsBranch(s) then Some((Empty, s))
    else
      match ParsePiece(s)
      case None => None
      case Some((piece, rest)) =>
        match ParseBranch(rest)
        case None => None
        case Some((tail, rest')) => Some((Cat(piece, tail), rest'))
  }

  /** An atom with at most one quantifier; a lazy mark changes which match is preferred, not which exist. */
  function ParsePiece(s: string): (r: Option<(Regex, string)>)
    requires s != ""
    ensures r.Some? ==> |r.value.1| < |s|
    decreases |s|, 1
  {
    match ParseAtom(s)
    case None => None
    case Some((atom, rest)) =>
      if rest == "" || !IsQuantifier(rest[0]) then Some((atom, rest)) else Quantified(atom, ParseQuantifier(rest))
  }

  function Quantified(atom: Regex, q: Option<(nat, Option<nat>, string)>): Option<(Regex, string)> {
    match q
    case None => None
    case Some((min, max, rest)) =>
      var rest' := if rest != "" && rest[0] == '?' then rest[1..] else rest;
      if rest' != "" && IsQuantifier(rest'[0]) then None else Some((Repeat(atom, min, max), rest'))
  }

  /** The least and greatest number of repetitions. */
  function ParseQuantifier(s: string): (r: Option<(nat, Option<nat>, string)>)
    requires s != "" && IsQuantifier(s[0])
    ensures r.Some? ==> |r.value.2| < |s|
  {
    if s[0] == '*' then Some((0, None, s[1..]))
    else if s[0] == '+' then Some((1, None, s[1..]))
    else if s[0] == '?' then Some((0, Some(1), s[1..]))
    else ParseCount(s[1..])
  }

  /** `m}`, `m,}` or `m,n}`. */
  function ParseCount(s: string): (r: Option<(nat, Option<nat>, string)>)
    ensures r.Some? ==> |r.value.2| <= |s|
  {
    match ParseNumber(s)
    case None => None
    case Some((m, rest)) =>
      if rest == "" then None
      else if rest[0] == '}' then Some((m, Some(m), rest[1..]))
      else if rest[0] != ',' then None
      else if |rest| > 1 && rest[1] == '}' then Some((m, None, rest[2..]))
      else
        match ParseNumber(rest[1..])
        case None => None
        case Some((n, rest')) =>
          if rest' != "" && rest'[0] == '}' && m <= n then Some((m, Some(n), rest'[1..])) else None
  }

  function ParseNumber(s: string): (r: Option<(nat, string)>)
    ensures r.Some? ==> |r.value.1| < |s|
  {
    if s == "" || !InRanges(s[0], DIGITS) then None else Some(ParseDigits(s[1..], DigitValue(s[0])))
  }

  function DigitValue(c: char): nat
    requires InRanges(c, DIGITS)
  {
    c as int - '0' as int
  }

  function ParseDigits(s: string, n: nat): (r: (nat, string))
    ensures |r.1| <= |s|
  {
    if s != "" && InRanges(s[0], DIGITS) then ParseDigits(s[1..], 10 * n + DigitValue(s[0])) else (n, s)
  }

  function ParseAtom(s: string): (r: Option<(Regex, string)>)
    requires s != ""
    ensures r.Some? ==> |r.value.1| < |s|
    decreases |s|, 0
  {
    var c := s[0];
    if c == '(' then
      if |s| > 1 && s[1] == '?' then
        if |s| > 2 && s[2] == ':' then CloseGroup(s[3..])
        else if |s| > 3 && s[2] == '<' && s[3] != '=' && s[3] != '!' then
          match ParseName(s[3..])
          case None => None
          case Some((name, rest)) =>
            match CloseGroup(rest)
            case None => None
            case Some((body, rest')) => Some((Named(name, body), rest'))
        else None
      else CloseGroup(s[1..])
    else if c == '[' then
      match (if |s| > 1 && s[1] == '^' then ParseClass(s[2..], true) else ParseClass(s[1..], true))
      case None => None
      case Some((ranges, rest)) => Some((Chars(CharSet(|s| > 1 && s[1] == '^', ranges)), rest))
    else if c == '\\' then
      if |s| == 1 then None
      else
        match Escape(s[1])
        case None => None
        case Some(cs) => Some((Chars(cs), s[2..]))
    else if c == '.' then Some((Chars(CharSet(true, [])), s[1..]))
    else if IsQuantifier(c) || c == '|' || c == ')' || c == '^' || c == '$' then None
    else Some((Literal(c), s[1..]))
  }

  function CloseGroup(s: string): (r: Option<(Regex, string)>)
    ensures r.Some? ==> |r.value.1| < |s|
    decreases |s|, 4
  {
    match ParseAlt(s)
    case None => None
    case Some((body, rest)) => if rest != "" && rest[0] == ')' then Some((body, rest[1..])) else None
  }

  function ParseName(s: string): (r: Option<(string, string)>)
    ensures r.Some? ==> |r.value.1| < |s| && s == r.value.0 + ['>'] + r.value.1
  {
    if s == "" then None
    else if s[0] == '>' then Some(("", s[1..]))
    else
      match ParseName(s[1..])
      case None => None
      case Some((name, rest)) => Some(([s[0]] + name, rest))
  }

  function Escape(c: char): Option<CharSet> {
    if c == 'd' then Some(CharSet(false, DIGITS))
    else if c == 'D' then Some(CharSet(true, DIGITS))
    else if c == 'w' then Some(CharSet(false, WORD))
    else if c == 'W' then Some(CharSet(true, WORD))
    else if c == 's' then Some(CharSet(false, SPACES))
    else if c == 'S' then Some(CharSet(true, SPACES))
    else if InRanges(c, WORD) || c == '<' || c == '>' || c == '`' || c == '\'' then None
    else Some(CharSet(false, [(c, c)]))
  }

  /** The inside of a bracket expression, up to and including its closing bracket. */
  function ParseClass(s: string, first: bool): (r: Option<(seq<(char, char)>, string)>)
    ensures r.Some? ==> |r.value.1| < |s|
  {
    if s == "" then None
    else if s[0] == ']' && !first then Some(([], s[1..]))
    else
      match ParseMember(s, first)
      case None => None
      case Some((ranges, rest)) => AddRanges(ranges, ParseClass(rest, false))
  }

  /** As the first member ']' and '-' stand for themselves; later '-' does so only as the last. */
  function ParseMember(s: string, first: bool): (r: Option<(seq<(char, char)>, string)>)
    requires s != ""
    ensures r.Some? ==> |r.value.1| < |s|
  {
    if s[0] == '[' && (|s| == 1 || s[1] in ":.=-") then None
    else if s[0] == '-' && !first && (|s| == 1 || s[1] != ']') then None
    else if s[0] == '\\' then
      if |s| == 1 then None
      else
        match Escape(s[1])
        case None => None
        case Some(cs) => if cs.negated then None else Some((cs.ranges, s[2..]))
    else if IsRange(s) then
      if s[2] in "[\\-" || s[2] < s[0] then None else Some(([(s[0], s[2])], s[3..]))
    else Some(([(s[0], s[0])], s[1..]))
  }

  predicate IsRange(s: string) { |s| > 2 && s[1] == '-' && s[2] != ']' }

  function AddRanges(ranges: seq<(char, char)>, r: Option<(seq<(char, char)>, string)>)
    : Option<(seq<(char, char)>, string)>
  {
    match r
    case None => None
    case Some((more, rest)) => Some((ranges + more, rest))
  }

  // ----- Text appended behind a complete expression does not change how it parses

  /** `t` may follow a branch that consumed its whole input. */
  predicate Closes(rest: string, t: string) { rest != "" || (t != "" && t[0] == ')') }

  /** `t` may follow an atom or piece that consumed its whole input. */
  predicate Separates(rest: string, t: string) { rest != "" || t == "" || !IsQuantifier(t[0]) }

  lemma MemberStable(s: string, first: bool, t: string)
    requires s != "" && ParseMember(s, first).Some?
    requires ParseMember(s, first).value.1 != "" && ParseMember(s, first).value.1 != "-"
    ensures ParseMember(s + t, first) == Some((ParseMember(s, first).value.0, ParseMember(s, first).value.1 + t))
  {
    hide Escape;
    assert (s + t)[1..] == s[1..] + t;
    if s[0] == '\\' {
      assert (s + t)[2..] == s[2..] + t;
    } else if IsRange(s) {
      assert (s + t)[3..] == s[3..] + t;
    } else if |s| == 2 {
      assert s[1..] == [s[1]];
    }
  }

  lemma DashIsNoClass()
    ensures ParseClass("-", false).None?
  {
  }

  lemma {:induction false} ClassStable(s: string, first: bool, t: string)
    requires ParseClass(s, first).Some?
    ensures ParseClass(s + t, first) == Some((ParseClass(s, first).value.0, ParseClass(s, first).value.1 + t))
    decreases |s|
  {
    DashIsNoClass();
    hide ParseMember;
    if s[0] == ']' && !first {
      assert (s + t)[1..] == s[1..] + t;
    } else {
      MemberStable(s, first, t);
      ClassStable(ParseMember(s, first).value.1, false, t);
    }
  }

  lemma {:induction false} DigitsStable(s: string, n: nat, t: string)
    requires ParseDigits(s, n).1 != ""
    ensures ParseDigits(s + t, n) == (ParseDigits(s, n).0, ParseDigits(s, n).1 + t)
  {
    if InRanges(s[0], DIGITS) {
      DigitsStable(s[1..], 10 * n + DigitValue(s[0]), t);
      assert (s + t)[1..] == s[1..] + t;
    }
  }

  lemma NumberStable(s: string, t: string)
    requires ParseNumber(s).Some? && ParseNumber(s).value.1 != ""
    ensures ParseNumber(s + t) == Some((ParseNumber(s).value.0, ParseNumber(s).value.1 + t))
  {
    hide ParseDigits;
    DigitsStable(s[1..], DigitValue(s[0]), t);
    assert (s + t)[1..] == s[1..] + t;
  }

  lemma QuantifierStable(s: string, t: string)
    requires s != "" && IsQuantifier(s[0]) && ParseQuantifier(s).Some?
    ensures var (m, n, rest) := ParseQuantifier(s).value; ParseQuantifier(s + t) == Some((m, n, rest + t))
  {
    hide ParseNumber;
    assert (s + t)[1..] == s[1..] + t;
    if s[0] == '{' { CountStable(s[1..], t); }
  }

  lemma CountStable(s: string, t: string)
    requires ParseCount(s).Some?
    ensures var (m, n, rest) := ParseCount(s).value; ParseCount(s + t) == Some((m, n, rest + t))
  {
    hide ParseNumber;
    var (m, rest) := ParseNumber(s).value;
    NumberStable(s, t);
    assert (rest + t)[1..] == rest[1..] + t;
    if rest[0] == ',' {
      if rest[1] == '}' {
        assert (rest + t)[2..] == rest[2..] + t;
      } else {
        var (n, rest') := ParseNumber(rest[1..]).value;
        NumberStable(rest[1..], t);
        assert (rest' + t)[1..] == rest'[1..] + t;
      }
    }
  }

  lemma {:induction false} NameStable(s: string, t: string)
    requires ParseName(s).Some?
    ensures ParseName(s + t) == Some((ParseName(s).value.0, ParseName(s).value.1 + t))
  {
    assert (s + t)[1..] == s[1..] + t;
    if s[0] != '>' { NameStable(s[1..], t); }
  }

  lemma {:induction false} AltStable(s: string, t: string)
    requires ParseAlt(s).Some? && Closes(ParseAlt(s).value.1, t)
    ensures ParseAlt(s + t) == Some((ParseAlt(s).value.0, ParseAlt(s).value.1 + t))
    decreases |s|, 3
  {
    var (left, rest) := ParseBranch(s).value;
    BranchStable(s, t);
    if rest != "" && rest[0] == '|' {
      AltStable(rest[1..], t);
      assert (rest + t)[1..] == rest[1..] + t;
    }
  }

  lemma {:induction false} BranchStable(s: string, t: string)
    requires ParseBranch(s).Some? && Closes(ParseBranch(s).value.1, t)
    ensures ParseBranch(s + t) == Some((ParseBranch(s).value.0, ParseBranch(s).value.1 + t))
    decreases |s|, 2
  {
    if EndsBranch(s) {
      assert EndsBranch(s + t);
    } else {
      var (piece, rest) := ParsePiece(s).value;
      PieceStable(s, t);
      BranchStable(rest, t);
    }
  }

  lemma {:induction false} PieceStable(s: string, t: string)
    requires s != "" && ParsePiece(s).Some? && Separates(ParsePiece(s).value.1, t)
    ensures ParsePiece(s + t) == Some((ParsePiece(s).value.0, ParsePiece(s).value.1 + t))
    decreases |s|, 1
  {
    hide ParseAtom, ParseQuantifier;
    var (atom, rest) := ParseAtom(s).value;
    AtomStable(s, t);
    if rest != "" && IsQuantifier(rest[0]) {
      QuantifierStable(rest, t);
      var (min, max, rest') := ParseQuantifier(rest).value;
      QuantifiedStable(atom, min, max, rest', t);
    }
  }

  lemma QuantifiedStable(atom: Regex, min: nat, max: Option<nat>, rest: string, t: string)
    requires var q := Quantified(atom, Some((min, max, rest))); q.Some? && Separates(q.value.1, t)
    ensures var (r, rest') := Quantified(atom, Some((min, max, rest))).value;
      Quantified(atom, Some((min, max, rest + t))) == Some((r, rest' + t))
  {
    if rest != "" { assert (rest + t)[1..] == rest[1..] + t; }
  }

  lemma {:induction false} AtomStable(s: string, t: string)
    requires s != "" && ParseAtom(s).Some?
    ensures ParseAtom(s + t) == Some((ParseAtom(s).value.0, ParseAtom(s).value.1 + t))
    decreases |s|, 0
  {
    assert (s + t)[1..] == s[1..] + t;
    if s[0] == '(' {
      if |s| > 1 && s[1] == '?' {
        assert (s + t)[3..] == s[3..] + t;
        if s[2] == ':' {
          CloseGroupStable(s[3..], t);
        } else {
          NameStable(s[3..], t);
          CloseGroupStable(ParseName(s[3..]).value.1, t);
        }
      } else {
        CloseGroupStable(s[1..], t);
        assert |s| > 1;
      }
    } else if s[0] == '[' {
      assert |s| > 1;
      if s[1] == '^' {
        assert (s + t)[2..] == s[2..] + t;
        ClassStable(s[2..], true, t);
      } else {
        ClassStable(s[1..], true, t);
      }
    } else if s[0] == '\\' {
      assert (s + t)[2..] == s[2..] + t;
    }
  }

  lemma {:induction false} CloseGroupStable(s: string, t: string)
    requires CloseGroup(s).Some?
    ensures CloseGroup(s + t) == Some((CloseGroup(s).value.0, CloseGroup(s).value.1 + t))
    decreases |s|, 4
  {
    var (body, rest) := ParseAlt(s).value;
    AltStable(s, t);
    assert (rest + t)[1..] == rest[1..] + t;
  }

  // ----- Complete expressions and how they compose

  /** The whole text is one alternative: no '|' outside groups. */
  predicate IsBranch(s: string) { ParseBranch(s).Some? && ParseBranch(s).value.1 == "" }

  /** The whole text is an expression. */
  predicate IsExpression(s: string) { ParseAlt(s).Some? && ParseAlt(s).value.1 == "" }

  function Branch(s: string): Regex
    requires IsBranch(s)
  {
    ParseBranch(s).value.0
  }

  function Expression(s: string): Regex
    requires IsExpression(s)
  {
    ParseAlt(s).value.0
  }

  /** Sequencing of two branches, as the parser builds it. */
  function Append(a: Regex, b: Regex): Regex {
    if a.Cat? then Cat(a.first, Append(a.second, b)) else b
  }

  /** A branch is a right-nested chain of pieces ended by Empty. */
  predicate IsChain(r: Regex) {
    r.Empty? || (r.Cat? && IsChain(r.second))
  }

  lemma {:induction false} BranchIsChain(s: string)
    requires ParseBranch(s).Some?
    ensures IsChain(ParseBranch(s).value.0)
    decreases |s|
  {
    if !EndsBranch(s) { BranchIsChain(ParsePiece(s).value.1); }
  }

  /** A complete branch followed by more text parses as the two in sequence. */
  lemma {:induction false} BranchThen(u: string, t: string)
    requires IsBranch(u) && ParseBranch(t).Some? && Separates("", t)
    ensures ParseBranch(u + t) == Some((Append(Branch(u), ParseBranch(t).value.0), ParseBranch(t).value.1))
    decreases |u|
  {
    if u == "" {
      assert u + t == t;
    } else {
      var (piece, rest) := ParsePiece(u).value;
      PieceStable(u, t);
      BranchThen(rest, t);
    }
  }

  /** The part after the name of `(?<name>body)`. */
  lemma GroupParses(body: string, t: string)
    requires IsExpression(body)
    ensures CloseGroup(body + [')'] + t) == Some((Expression(body), t))
  {
    var closing := [')'] + t;
    AltStable(body, closing);
    assert body + closing == body + [')'] + t;
    assert "" + closing == closing && closing[1..] == t;
  }

  // ----- The language of an expression, with what each named group holds

  /** The name of each group, in the order in which the groups open. */
  function Names(r: Regex): seq<string> {
    match r
    case Empty => []
    case Chars(_) => []
    case Cat(a, b) => Names(a) + Names(b)
    case Alt(a, b) => Names(a) + Names(b)
    case Repeat(a, _, _) => Names(a)
    case Named(n, a) => [n] + Names(a)
  }

  /** What each group holds, in the same order. */
  type Groups = seq<Option<string>>

  function Nothing(n: nat): (c: Groups)
    ensures |c| == n && forall i :: 0 <= i < n ==> c[i] == None
  {
    seq(n, _ => None)
  }

  /** A group entered again holds its last text; one not entered again keeps what it held. */
  function Over(c: Groups, later: Groups): (r: Groups)
    requires |c| == |later|
    ensures |r| == |c| && forall i :: 0 <= i < |c| ==> r[i] == if later[i].Some? then later[i] else c[i]
  {
    seq(|c|, i requires 0 <= i < |c| => if later[i].Some? then later[i] else c[i])
  }

  /** What a match shows: its text and what each group holds. */
  datatype Fit = Fit(text: string, groups: Groups)

  /** A way of matching: which alternative, how often, and with which characters. */
  datatype Derivation =
    | OfEmpty
    | OfChar(c: char)
    | OfCat(first: Derivation, second: Derivation)
    | OfLeft(left: Derivation)
    | OfRight(right: Derivation)
    | OfNone
    | OfMore(head: Derivation, more: Derivation)
    | OfNamed(inner: Derivation)

  function Text(d: Derivation): string {
    match d
    case OfEmpty => ""
    case OfChar(c) => [c]
    case OfCat(p, q) => Text(p) + Text(q)
    case OfLeft(p) => Text(p)
    case OfRight(p) => Text(p)
    case OfNone => ""
    case OfMore(p, q) => Text(p) + Text(q)
    case OfNamed(p) => Text(p)
  }

  /** A repetition after one round. */
  function Again(r: Regex): (r': Regex)
    requires r.Repeat?
    ensures r'.Repeat? && r'.body == r.body && Names(r') == Names(r)
  {
    Repeat(r.body, if r.min == 0 then 0 else r.min - 1,
           if r.max.None? || r.max.value == 0 then r.max else Some(r.max.value - 1))
  }

  predicate Derives(r: Regex, d: Derivation)
    decreases d
  {
    match r
    case Empty => d.OfEmpty?
    case Chars(cs) => d.OfChar? && InSet(d.c, cs)
    case Cat(a, b) => d.OfCat? && Derives(a, d.first) && Derives(b, d.second)
    case Alt(a, b) => (d.OfLeft? && Derives(a, d.left)) || (d.OfRight? && Derives(b, d.right))
    case Repeat(a, min, max) =>
      (d.OfNone? && min == 0) || (d.OfMore? && max != Some(0) && Derives(a, d.head) && Derives(Again(r), d.more))
    case Named(_, a) => d.OfNamed? && Derives(a, d.inner)
  }

  function Held(r: Regex, d: Derivation): (c: Groups)
    ensures |c| == |Names(r)|
    decreases d
  {
    match r
    case Empty => []
    case Chars(_) => []
    case Cat(a, b) => if d.OfCat? then Held(a, d.first) + Held(b, d.second) else Nothing(|Names(r)|)
    case Alt(a, b) =>
      if d.OfLeft? then Held(a, d.left) + Nothing(|Names(b)|)
      else if d.OfRight? then Nothing(|Names(a)|) + Held(b, d.right)
      else Nothing(|Names(r)|)
    case Repeat(a, _, _) => if d.OfMore? then Over(Held(a, d.head), Held(Again(r), d.more)) else Nothing(|Names(r)|)
    case Named(_, a) => if d.OfNamed? then [Some(Text(d.inner))] + Held(a, d.inner) else Nothing(|Names(r)|)
  }

  function Shows(r: Regex, d: Derivation): Fit { Fit(Text(d), Held(r, d)) }

  /** r matches the whole of the text, leaving its groups so. */
  ghost predicate Matches(r: Regex, f: Fit) {
    exists d :: Derives(r, d) && Shows(r, d) == f
  }

  function Then(f: Fit, g: Fit): Fit { Fit(f.text + g.text, f.groups + g.groups) }

  lemma MatchHasGroups(r: Regex, f: Fit)
    requires Matches(r, f)
    ensures |f.groups| == |Names(r)|
  {
  }

  // ----- Matches of the parts and of the whole

  lemma EmptyMatches(f: Fit)
    ensures Matches(Empty, f) <==> f == Fit("", [])
  {
    assert Derives(Empty, OfEmpty) && Shows(Empty, OfEmpty) == Fit("", []);
  }

  lemma CharMatches(cs: CharSet, f: Fit)
    ensures Matches(Chars(cs), f) <==> |f.text| == 1 && InSet(f.text[0], cs) && f.groups == []
  {
    if |f.text| == 1 && InSet(f.text[0], cs) && f.groups == [] {
      var d := OfChar(f.text[0]);
      assert Derives(Chars(cs), d) && Shows(Chars(cs), d) == f;
    }
  }

  lemma CatJoins(a: Regex, b: Regex, f: Fit, g: Fit)
    requires Matches(a, f) && Matches(b, g)
    ensures Matches(Cat(a, b), Then(f, g))
  {
    var p :| Derives(a, p) && Shows(a, p) == f;
    var q :| Derives(b, q) && Shows(b, q) == g;
    var d := OfCat(p, q);
    assert Derives(Cat(a, b), d) && Shows(Cat(a, b), d) == Then(f, g);
  }

  lemma CatSplits(a: Regex, b: Regex, h: Fit) returns (f: Fit, g: Fit)
    requires Matches(Cat(a, b), h)
    ensures Matches(a, f) && Matches(b, g) && h == Then(f, g)
  {
    var d :| Derives(Cat(a, b), d) && Shows(Cat(a, b), d) == h;
    f, g := Shows(a, d.first), Shows(b, d.second);
  }

  lemma AltJoinsLeft(a: Regex, b: Regex, f: Fit)
    requires Matches(a, f)
    ensures Matches(Alt(a, b), Then(f, Fit("", Nothing(|Names(b)|))))
  {
    var p :| Derives(a, p) && Shows(a, p) == f;
    var d := OfLeft(p);
    assert Held(Alt(a, b), d) == Held(a, p) + Nothing(|Names(b)|);
    assert Text(d) == Text(p) + "" && Derives(Alt(a, b), d);
    hide Derives, Held, Text, Names, Nothing;
    assert Shows(Alt(a, b), d) == Then(f, Fit("", Nothing(|Names(b)|)));
  }

  lemma AltJoinsRight(a: Regex, b: Regex, f: Fit)
    requires Matches(b, f)
    ensures Matches(Alt(a, b), Then(Fit("", Nothing(|Names(a)|)), f))
  {
    var q :| Derives(b, q) && Shows(b, q) == f;
    var d := OfRight(q);
    assert Held(Alt(a, b), d) == Nothing(|Names(a)|) + Held(b, q);
    assert Text(d) == "" + Text(q) && Derives(Alt(a, b), d);
    hide Derives, Held, Text, Names, Nothing;
    assert Shows(Alt(a, b), d) == Then(Fit("", Nothing(|Names(a)|)), f);
  }

  lemma AltSplits(a: Regex, b: Regex, h: Fit) returns (left: bool, f: Fit)
    requires Matches(Alt(a, b), h)
    ensures left ==> Matches(a, f) && h == Then(f, Fit("", Nothing(|Names(b)|)))
    ensures !left ==> Matches(b, f) && h == Then(Fit("", Nothing(|Names(a)|)), f)
  {
    var d :| Derives(Alt(a, b), d) && Shows(Alt(a, b), d) == h;
    left := d.OfLeft? && Derives(a, d.left);
    if left { f := Shows(a, d.left); } else { f := Shows(b, d.right); }
  }

  lemma OptNone(a: Regex)
    ensures Matches(Opt(a), Fit("", Nothing(|Names(a)|)))
  {
    assert Derives(Opt(a), OfNone) && Shows(Opt(a), OfNone) == Fit("", Nothing(|Names(a)|));
  }

  /** Nothing is left of an option after one round. */
  lemma OptSpent(a: Regex, d: Derivation)
    ensures Derives(Again(Opt(a)), d) <==> d == OfNone
    ensures Held(Again(Opt(a)), OfNone) == Nothing(|Names(a)|) && Text(OfNone) == ""
  {
    assert Again(Opt(a)) == Repeat(a, 0, Some(0));
  }

  /** One round of an option shows what the round shows. */
  lemma OptOnce(a: Regex, p: Derivation)
    ensures Derives(Opt(a), OfMore(p, OfNone)) <==> Derives(a, p)
    ensures Shows(Opt(a), OfMore(p, OfNone)) == Shows(a, p)
  {
    OptSpent(a, OfNone);
    var d := OfMore(p, OfNone);
    assert Text(d) == Text(p) + "";
    assert Held(Opt(a), d) == Over(Held(a, p), Nothing(|Names(a)|));
    OverNothing(Held(a, p));
    hide Held, Text, Derives, Names;
  }

  lemma OverNothing(c: Groups)
    ensures Over(c, Nothing(|c|)) == c
  {
  }

  lemma OptSplits(a: Regex, f: Fit)
    requires Matches(Opt(a), f)
    ensures f == Fit("", Nothing(|Names(a)|)) || Matches(a, f)
  {
    var d :| Derives(Opt(a), d) && Shows(Opt(a), d) == f;
    if d.OfMore? {
      OptSpent(a, d.more);
      OptOnce(a, d.head);
      hide Held, Text;
      assert Derives(a, d.head) && Shows(a, d.head) == f;
    }
  }

  lemma OptMatches(a: Regex, f: Fit)
    ensures Matches(Opt(a), f) <==> f == Fit("", Nothing(|Names(a)|)) || Matches(a, f)
  {
    OptNone(a);
    if Matches(Opt(a), f) { OptSplits(a, f); }
    if p :| Derives(a, p) && Shows(a, p) == f {
      OptOnce(a, p);
      hide Held, Text, Derives;
      assert Derives(Opt(a), OfMore(p, OfNone)) && Shows(Opt(a), OfMore(p, OfNone)) == f;
    }
  }

  lemma NamedJoins(n: string, a: Regex, f: Fit)
    requires Matches(a, f)
    ensures Matches(Named(n, a), Fit(f.text, [Some(f.text)] + f.groups))
  {
    var p :| Derives(a, p) && Shows(a, p) == f;
    var d := OfNamed(p);
    assert Held(Named(n, a), d) == [Some(Text(p))] + Held(a, p);
    assert Derives(Named(n, a), d) && Shows(Named(n, a), d) == Fit(f.text, [Some(f.text)] + f.groups);
  }

  lemma NamedSplits(n: string, a: Regex, h: Fit) returns (f: Fit)
    requires Matches(Named(n, a), h)
    ensures Matches(a, f) && h == Fit(f.text, [Some(f.text)] + f.groups)
  {
    var d :| Derives(Named(n, a), d) && Shows(Named(n, a), d) == h;
    f := Shows(a, d.inner);
  }

  lemma ThenAssociates(f: Fit, g: Fit, h: Fit)
    ensures Then(Then(f, g), h) == Then(f, Then(g, h))
    ensures Then(Fit("", []), f) == f == Then(f, Fit("", []))
  {
  }

  lemma {:induction false} AppendNames(a: Regex, b: Regex)
    requires IsChain(a)
    ensures Names(Append(a, b)) == Names(a) + Names(b)
    decreases a
  {
    if a.Cat? { AppendNames(a.second, b); }
  }

  /** A match of two branches in sequence divides at their boundary. */
  lemma {:induction false} AppendSplits(a: Regex, b: Regex, h: Fit) returns (f: Fit, g: Fit)
    requires IsChain(a) && Matches(Append(a, b), h)
    ensures Matches(a, f) && Matches(b, g) && h == Then(f, g)
    decreases a
  {
    hide Matches;
    if a.Empty? {
      f, g := Fit("", []), h;
      EmptyMatches(f);
      ThenAssociates(h, h, h);
    } else {
      var f0, h' := CatSplits(a.first, Append(a.second, b), h);
      var f1, g1 := AppendSplits(a.second, b, h');
      CatJoins(a.first, a.second, f0, f1);
      ThenAssociates(f0, f1, g1);
      f, g := Then(f0, f1), g1;
    }
  }

  lemma {:induction false} AppendJoins(a: Regex, b: Regex, f: Fit, g: Fit)
    requires IsChain(a) && Matches(a, f) && Matches(b, g)
    ensures Matches(Append(a, b), Then(f, g))
    decreases a
  {
    hide Matches;
    if a.Empty? {
      EmptyMatches(f);
      ThenAssociates(g, g, g);
    } else {
      var f0, f1 := CatSplits(a.first, a.second, f);
      AppendJoins(a.second, b, f1, g);
      CatJoins(a.first, Append(a.second, b), f0, Then(f1, g));
      ThenAssociates(f0, f1, g);
    }
  }

  // ----- Every group of a live expression can take part in a match

  /** No class is empty and nothing is repeated zero times at most. */
  ghost predicate Live(r: Regex) {
    match r
    case Empty => true
    case Chars(cs) => exists c :: InSet(c, cs)
    case Cat(a, b) => Live(a) && Live(b)
    case Alt(a, b) => Live(a) && Live(b)
    case Repeat(a, min, max) => Live(a) && (max.Some? ==> max.value > 0 && min <= max.value)
    case Named(_, a) => Live(a)
  }

  lemma RepeatJoins(r: Regex, f: Fit, g: Fit)
    requires r.Repeat? && r.max != Some(0) && Matches(r.body, f) && Matches(Again(r), g)
    ensures |f.groups| == |g.groups| && Matches(r, Fit(f.text + g.text, Over(f.groups, g.groups)))
  {
    var p :| Derives(r.body, p) && Shows(r.body, p) == f;
    var q :| Derives(Again(r), q) && Shows(Again(r), q) == g;
    var d := OfMore(p, q);
    assert Derives(r, d) && Shows(r, d) == Fit(f.text + g.text, Over(f.groups, g.groups));
  }

  /** One round and the rest, or none. */
  lemma RepeatSplits(r: Regex, h: Fit) returns (none: bool, f: Fit, g: Fit)
    requires r.Repeat? && Matches(r, h)
    ensures none ==> r.min == 0 && h == Fit("", Nothing(|Names(r)|))
    ensures !none ==> r.max != Some(0) && Matches(r.body, f) && Matches(Again(r), g)
    ensures !none ==> |f.groups| == |g.groups| && h == Fit(f.text + g.text, Over(f.groups, g.groups))
  {
    var d :| Derives(r, d) && Shows(r, d) == h;
    none := d.OfNone?;
    if none {
      f, g := h, h;
    } else {
      f, g := Shows(r.body, d.head), Shows(Again(r), d.more);
    }
  }

  lemma RepeatNone(r: Regex)
    requires r.Repeat? && r.min == 0
    ensures Matches(r, Fit("", Nothing(|Names(r)|)))
  {
    assert Derives(r, OfNone) && Shows(r, OfNone) == Fit("", Nothing(|Names(r)|));
  }

  lemma {:induction false} Repetition(r: Regex, f: Fit) returns (g: Fit)
    requires r.Repeat? && (r.max.Some? ==> r.min <= r.max.value) && Matches(r.body, f)
    ensures Matches(r, g)
    decreases r.min
  {
    hide Matches;
    if r.min == 0 {
      g := Fit("", Nothing(|Names(r)|));
      RepeatNone(r);
    } else {
      var more := Repetition(Again(r), f);
      RepeatJoins(r, f, more);
      g := Fit(f.text + more.text, Over(f.groups, more.groups));
    }
  }

  lemma {:induction false} SomeFit(r: Regex) returns (f: Fit)
    requires Live(r)
    ensures Matches(r, f)
  {
    hide Matches;
    match r
    case Empty =>
      f := Fit("", []);
      EmptyMatches(f);
    case Chars(cs) =>
      var c :| InSet(c, cs);
      f := Fit([c], []);
      CharMatches(cs, f);
    case Cat(a, b) =>
      var g := SomeFit(a);
      var h := SomeFit(b);
      f := Then(g, h);
      CatJoins(a, b, g, h);
    case Alt(a, b) =>
      var g := SomeFit(a);
      f := Then(g, Fit("", Nothing(|Names(b)|)));
      AltJoinsLeft(a, b, g);
    case Repeat(a, _, _) =>
      var g := SomeFit(a);
      f := Repetition(r, g);
    case Named(n, a) =>
      var g := SomeFit(a);
      f := Fit(g.text, [Some(g.text)] + g.groups);
      NamedJoins(n, a, g);
  }

  /** A match that enters group i. */
  lemma {:induction false} Entering(r: Regex, i: nat) returns (f: Fit)
    requires Live(r) && i < |Names(r)|
    ensures Matches(r, f) && |f.groups| == |Names(r)| && f.groups[i].Some?
  {
    hide Matches;
    match r {
      case Cat(a, b) =>
        if i < |Names(a)| {
          var g := Entering(a, i);
          var h := SomeFit(b);
          f := Then(g, h);
          CatJoins(a, b, g, h);
        } else {
          var g := SomeFit(a);
          var h := Entering(b, i - |Names(a)|);
          f := Then(g, h);
          MatchHasGroups(a, g);
          CatJoins(a, b, g, h);
        }
      case Alt(a, b) =>
        if i < |Names(a)| {
          var g := Entering(a, i);
          f := Then(g, Fit("", Nothing(|Names(b)|)));
          AltJoinsLeft(a, b, g);
        } else {
          var h := Entering(b, i - |Names(a)|);
          f := Then(Fit("", Nothing(|Names(a)|)), h);
          AltJoinsRight(a, b, h);
        }
      case Repeat(a, _, _) =>
        var g := Entering(a, i);
        var h := Repetition(Again(r), g);
        RepeatJoins(r, g, h);
        f := Fit(g.text + h.text, Over(g.groups, h.groups));
      case Named(n, a) =>
        var g: Fit;
        if i == 0 { g := SomeFit(a); } else { g := Entering(a, i - 1); }
        f := Fit(g.text, [Some(g.text)] + g.groups);
        NamedJoins(n, a, g);
    }
    MatchHasGroups(r, f);
  }
}
