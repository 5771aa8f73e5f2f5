/** Finding the typed parameters `{{..}}` of a route pattern. */
module RoutePatterns {
  import opened Wrappers

  datatype RouteParamType = Int64 | Double | String | OptionalInt64 | OptionalDouble | OptionalString

  /** A parameter: its type, the regex of a string, and the text an optional consumes ("" when absent). */
  datatype Token = Token(kind: RouteParamType, value: string, consumed: string)

  predicate IsOptional(kind: RouteParamType) {
    kind.OptionalInt64? || kind.OptionalDouble? || kind.OptionalString?
  }

  predicate WellFormed(t: Token) {
    && (t.kind.String? || t.kind.OptionalString? <==> t.value != "")
    && (!IsOptional(t.kind) ==> t.consumed == "")
  }

  /** What the source text of a parameter opens with; no two kinds open alike. */
  function Opening(kind: RouteParamType): (s: string)
    ensures 4 <= |s| <= 5 && s[..2] == "{{"
  {
    match kind
    case Int64 => "{{i}}"
    case OptionalInt64 => "{{i?"
    case Double => "{{d}}"
    case OptionalDouble => "{{d?"
    case String => "{{s:"
    case OptionalString => "{{s?:"
  }

  function ConsumedSource(consumed: string): string {
    if consumed == "" then "" else ":" + consumed
  }

  function Body(t: Token): string {
    if t.kind.Int64? || t.kind.Double? then "" else t.value + ConsumedSource(t.consumed) + "}}"
  }

  /** The text of a parameter in a pattern. */
  function Source(t: Token): (s: string)
    ensures |s| >= 5
  {
    Opening(t.kind) + Body(t)
  }

  // ----- The scanner

  /** The least i >= from at which s holds "}}". */
  function CloseAt(s: string, from: nat): (r: Option<nat>)
    ensures r.Some? ==> from <= r.value && r.value + 2 <= |s| && s[r.value..r.value + 2] == "}}"
    ensures forall i {:trigger s[i..i + 2]} :: from <= i && i + 2 <= |s| && s[i..i + 2] == "}}" ==>
              r.Some? && r.value <= i
    decreases |s| - from
  {
    if from + 2 > |s| then None
    else if s[from..from + 2] == "}}" then Some(from)
    else CloseAt(s, from + 1)
  }

  /** `(?::(.+?))?\\}\\}`: the consumed text if there is any, then the closing braces. */
  function ScanConsumed(s: string): Option<string> {
    if s != "" && s[0] == ':' && CloseAt(s[1..], 1).Some? then Some(s[1..][..CloseAt(s[1..], 1).value])
    else if "}}" <= s then Some("")
    else None
  }

  /** `(.+?)` followed by ScanConsumed, the value at least `len` characters long. */
  function ScanValue(s: string, len: nat): (r: Option<(string, string)>)
    requires len >= 1
    decreases |s| - len
  {
    if len > |s| then None
    else if ScanConsumed(s[len..]).Some? then Some((s[..len], ScanConsumed(s[len..]).value))
    else ScanValue(s, len + 1)
  }

  /** The kind of parameter that s opens with. */
  function KindAt(s: string): (r: Option<RouteParamType>)
    ensures r.Some? ==> Opening(r.value) <= s
    ensures r.None? ==> forall k :: !(Opening(k) <= s)
  {
    if Opening(Int64) <= s then Some(Int64)
    else if Opening(OptionalInt64) <= s then Some(OptionalInt64)
    else if Opening(Double) <= s then Some(Double)
    else if Opening(OptionalDouble) <= s then Some(OptionalDouble)
    else if Opening(String) <= s then Some(String)
    else if Opening(OptionalString) <= s then Some(OptionalString)
    else None
  }

  /** What follows the opening of a parameter: its value and consumed text. */
  function BodyAt(kind: RouteParamType, s: string): Option<(string, string)> {
    match kind
    case Int64 => Some(("", ""))
    case Double => Some(("", ""))
    case OptionalInt64 => OptionalBodyAt(s)
    case OptionalDouble => OptionalBodyAt(s)
    case String => (match CloseAt(s, 1) case None => None case Some(i) => Some((s[..i], "")))
    case OptionalString => ScanValue(s, 1)
  }

  function OptionalBodyAt(s: string): Option<(string, string)> {
    match ScanConsumed(s)
    case None => None
    case Some(consumed) => Some(("", consumed))
  }

  /** The token regex applied at the start of s. */
  function TokenAt(s: string): Option<Token> {
    match KindAt(s)
    case None => None
    case Some(kind) =>
      match BodyAt(kind, s[|Opening(kind)|..])
      case None => None
      case Some((value, consumed)) => Some(Token(kind, value, consumed))
  }

  /** t is one way to read a parameter at the start of s. */
  predicate Candidate(t: Token, s: string) {
    WellFormed(t) && Source(t) <= s
  }

  /** The lazy quantifiers prefer t to u: a shorter value, then consumed text if any, as short as possible. */
  predicate Preferred(t: Token, u: Token) {
    && t.kind == u.kind
    && |t.value| <= |u.value|
    && (|t.value| == |u.value| && u.consumed != "" ==> t.consumed != "" && |t.consumed| <= |u.consumed|)
  }

  lemma ScanConsumedSound(s: string)
    requires ScanConsumed(s).Some?
    ensures ConsumedSource(ScanConsumed(s).value) + "}}" <= s
  {
    var c := ScanConsumed(s).value;
    if c != "" {
      assert s == [s[0]] + s[1..];
      assert s[1..][..|c| + 2] == c + "}}";
    }
  }

  lemma ScanConsumedBest(s: string, c: string)
    requires ConsumedSource(c) + "}}" <= s
    ensures ScanConsumed(s).Some?
    ensures c != "" ==> ScanConsumed(s).value != "" && |ScanConsumed(s).value| <= |c|
  {
    if c != "" {
      assert (":" + c + "}}")[|c| + 1..] == "}}";
      assert s[1..][|c|..|c| + 2] == "}}";
    }
  }

  lemma {:induction false} ScanValueSound(s: string, len: nat)
    requires len >= 1 && ScanValue(s, len).Some?
    ensures var (v, c) := ScanValue(s, len).value; |v| >= len && v + ConsumedSource(c) + "}}" <= s
    decreases |s| - len
  {
    if ScanConsumed(s[len..]).Some? {
      ScanConsumedSound(s[len..]);
      var c := ScanConsumed(s[len..]).value;
      assert s == s[..len] + s[len..];
      assert s[..len] + ConsumedSource(c) + "}}" == s[..len] + (ConsumedSource(c) + "}}");
    } else {
      ScanValueSound(s, len + 1);
    }
  }

  lemma {:induction false} ScanValueBest(s: string, len: nat, v: string, c: string)
    requires 1 <= len <= |v| && v + ConsumedSource(c) + "}}" <= s
    ensures ScanValue(s, len).Some?
    ensures var (v', c') := ScanValue(s, len).value;
      |v'| <= |v| && (|v'| == |v| && c != "" ==> c' != "" && |c'| <= |c|)
    decreases |s| - len
  {
    if |v| == len {
      assert v + ConsumedSource(c) + "}}" == v + (ConsumedSource(c) + "}}");
      assert ConsumedSource(c) + "}}" <= s[len..];
      ScanConsumedBest(s[len..], c);
    } else if ScanConsumed(s[len..]).None? {
      ScanValueBest(s, len + 1, v, c);
    }
  }

  lemma StringBodySound(s: string)
    requires CloseAt(s, 1).Some?
    ensures var v := s[..CloseAt(s, 1).value]; v != "" && v + ConsumedSource("") + "}}" <= s
  {
    hide CloseAt;
    var i := CloseAt(s, 1).value;
    assert s[..i + 2] == s[..i] + s[i..i + 2];
  }

  lemma OptionalBodySound(kind: RouteParamType, s: string)
    requires (kind.OptionalInt64? || kind.OptionalDouble?) && ScanConsumed(s).Some?
    ensures var c := ScanConsumed(s).value; Body(Token(kind, "", c)) <= s
  {
    ScanConsumedSound(s);
    hide ScanConsumed, ConsumedSource;
    var c := ScanConsumed(s).value;
    assert "" + ConsumedSource(c) == ConsumedSource(c);
  }

  lemma BodyAtSound(kind: RouteParamType, s: string)
    requires BodyAt(kind, s).Some?
    ensures var (v, c) := BodyAt(kind, s).value; WellFormed(Token(kind, v, c)) && Body(Token(kind, v, c)) <= s
  {
    hide CloseAt, ScanConsumed, ScanValue, ConsumedSource;
    match kind
    case Int64 =>
    case Double =>
    case OptionalInt64 => OptionalBodySound(kind, s);
    case OptionalDouble => OptionalBodySound(kind, s);
    case String => StringBodySound(s);
    case OptionalString => ScanValueSound(s, 1);
  }

  lemma BodyAtBest(u: Token, s: string)
    requires WellFormed(u) && Body(u) <= s
    ensures BodyAt(u.kind, s).Some?
    ensures var (v, c) := BodyAt(u.kind, s).value; Preferred(Token(u.kind, v, c), u)
  {
    match u.kind
    case Int64 =>
    case Double =>
    case OptionalInt64 => ScanConsumedBest(s, u.consumed);
    case OptionalDouble => ScanConsumedBest(s, u.consumed);
    case String => assert s[|u.value|..|u.value| + 2] == "}}";
    case OptionalString => ScanValueBest(s, 1, u.value, u.consumed);
  }

  /** Whatever the scanner reports is really there. */
  lemma TokenAtSound(s: string)
    requires TokenAt(s).Some?
    ensures Candidate(TokenAt(s).value, s)
  {
    var kind := KindAt(s).value;
    var o := Opening(kind);
    BodyAtSound(kind, s[|o|..]);
    assert s == o + s[|o|..];
  }

  /** The scanner finds a parameter wherever one can be read, and reads the one the lazy quantifiers prefer. */
  lemma TokenAtBest(s: string, u: Token)
    requires Candidate(u, s)
    ensures TokenAt(s).Some? && Preferred(TokenAt(s).value, u)
  {
    OpeningDecides(s, u.kind);
    var o := Opening(u.kind);
    assert s == o + s[|o|..];
    assert Body(u) <= s[|o|..];
    BodyAtBest(u, s[|o|..]);
  }

  lemma OpeningDecides(s: string, kind: RouteParamType)
    requires Opening(kind) <= s
    ensures forall k :: Opening(k) <= s ==> k == kind
  {
    forall k | Opening(k) <= s ensures k == kind {
      assert s[2] == Opening(k)[2] == Opening(kind)[2];
      assert s[3] == Opening(k)[3] == Opening(kind)[3];
      if |s| > 4 && s[3] == '?' && s[2] == 's' { assert s[4] == ':'; }
    }
  }

  // ----- A pattern as literals and parameters in turn

  datatype Pattern =
    | Tail(lit: string)
    | Param(lit: string, tok: Token, rest: Pattern)

  function Prepend(c: char, p: Pattern): Pattern {
    p.(lit := [c] + p.lit)
  }

  /** Leftmost scan: the next parameter starts at the first place where one can be read. */
  function Scan(s: string): Pattern
    decreases |s|
  {
    if s == "" then Tail("")
    else if TokenAt(s).Some? then
      TokenAtSound(s);
      Param("", TokenAt(s).value, Scan(s[|Source(TokenAt(s).value)|..]))
    else Prepend(s[0], Scan(s[1..]))
  }

  function Unscan(p: Pattern): string {
    match p
    case Tail(lit) => lit
    case Param(lit, tok, rest) => lit + Source(tok) + Unscan(rest)
  }

  function Tokens(p: Pattern): seq<Token> {
    match p
    case Tail(_) => []
    case Param(_, tok, rest) => [tok] + Tokens(rest)
  }

  /** No parameter can be read at any of the first n places of s. */
  predicate NoneBefore(s: string, n: nat)
    requires n <= |s|
  {
    forall o :: 0 <= o < n ==> TokenAt(s[o..]).None?
  }

  lemma NoneBeforeStep(s: string, n: nat)
    requires n < |s|
    ensures NoneBefore(s, n + 1) <==> TokenAt(s).None? && NoneBefore(s[1..], n)
  {
    hide TokenAt;
    assert s[0..] == s;
    assert forall o :: 0 <= o < n ==> s[1..][o..] == s[o + 1..];
    if TokenAt(s).None? && NoneBefore(s[1..], n) {
      forall o | 0 <= o < n + 1 ensures TokenAt(s[o..]).None? {
        if o > 0 { assert s[o..] == s[1..][o - 1..]; }
      }
    }
  }

  /** p reads the text of each parameter where the leftmost scan finds it, and finds none in between. */
  predicate IsScan(p: Pattern)
  {
    match p
    case Tail(lit) => NoneBefore(lit, |lit|)
    case Param(lit, tok, rest) =>
      && NoneBefore(Unscan(p), |lit|)
      && TokenAt(Unscan(p)[|lit|..]) == Some(tok)
      && IsScan(rest)
  }

  /** One more literal character in front. */
  lemma PrependScan(c: char, p: Pattern)
    ensures Unscan(Prepend(c, p)) == [c] + Unscan(p)
    ensures IsScan(Prepend(c, p)) <==> IsScan(p) && TokenAt([c] + Unscan(p)).None?
  {
    hide TokenAt, Source, NoneBefore;
    var s := [c] + Unscan(p);
    if p.Param? {
      assert Unscan(Prepend(c, p)) == s;
      assert s[|p.lit| + 1..] == Unscan(p)[|p.lit|..];
    }
    assert s[1..] == Unscan(p);
    NoneBeforeStep(s, |p.lit|);
  }

  lemma ParamScan(tok: Token, s: string, rest: Pattern)
    requires TokenAt(s) == Some(tok) && IsScan(rest)
    requires Source(tok) <= s && Unscan(rest) == s[|Source(tok)|..]
    ensures Unscan(Param("", tok, rest)) == s && IsScan(Param("", tok, rest))
  {
    hide TokenAt, Source;
    assert "" + Source(tok) + Unscan(rest) == s;
    assert s[0..] == s;
  }

  /** Scanning loses nothing and divides the text as a leftmost search does. */
  lemma {:induction false} ScanDivides(s: string)
    ensures Unscan(Scan(s)) == s && IsScan(Scan(s))
    decreases |s|
  {
    hide TokenAt, Source, IsScan, Unscan, WellFormed;
    if s == "" {
      EmptyScan();
    } else if TokenAt(s).Some? {
      TokenAtSound(s);
      var tok := TokenAt(s).value;
      var rest := s[|Source(tok)|..];
      ScanDivides(rest);
      ParamScan(tok, s, Scan(rest));
    } else {
      ScanDivides(s[1..]);
      assert s == [s[0]] + s[1..];
      PrependScan(s[0], Scan(s[1..]));
    }
  }

  lemma EmptyScan()
    ensures Scan("") == Tail("") && Unscan(Tail("")) == "" && IsScan(Tail(""))
  {
  }

  /** A division that a leftmost search would make is the one the scanner makes. */
  lemma {:induction false} ScanUnique(p: Pattern)
    requires IsScan(p)
    ensures Scan(Unscan(p)) == p
    decreases |Unscan(p)|
  {
    hide TokenAt, Source, NoneBefore, WellFormed;
    var s := Unscan(p);
    if p.lit == "" {
      if p.Param? {
        UnscanParam(p);
        TokenAtSound(s);
        ScanUnique(p.rest);
      }
    } else {
      var q := p.(lit := p.lit[1..]);
      assert p == Prepend(p.lit[0], q);
      PrependScan(p.lit[0], q);
      ScanUnique(q);
      assert s[0] == p.lit[0] && s[1..] == Unscan(q);
    }
  }

  lemma UnscanParam(p: Pattern)
    requires p.Param? && p.lit == ""
    ensures Unscan(p) == Source(p.tok) + Unscan(p.rest) && Unscan(p)[|p.lit|..] == Unscan(p)
    ensures Source(p.tok) <= Unscan(p) && Unscan(p)[|Source(p.tok)|..] == Unscan(p.rest)
  {
    hide Source;
    var s := Unscan(p);
    assert s == Source(p.tok) + Unscan(p.rest);
    assert s[0..] == s;
  }
}
