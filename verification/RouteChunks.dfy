/** The regex chunk of each parameter, and when splicing chunks into a pattern is faithful. */
module RouteChunks {
  import opened Wrappers
  import opened RoutePatterns
  import opened Splicing

  function Decimal(n: nat): (s: string)
    ensures s != "" && forall i :: 0 <= i < |s| ==> '0' <= s[i] <= '9'
  {
    if n < 10 then [('0' as int + n) as char]
    else Decimal(n / 10) + [('0' as int + n % 10) as char]
  }

  lemma {:induction false} DecimalInjective(m: nat, n: nat)
    requires Decimal(m) == Decimal(n)
    ensures m == n
  {
    var s, t := Decimal(m), Decimal(n);
    assert s[|s| - 1] == ('0' as int + m % 10) as char && t[|t| - 1] == ('0' as int + n % 10) as char;
    if m >= 10 && n >= 10 {
      assert s[..|s| - 1] == Decimal(m / 10) && t[..|t| - 1] == Decimal(n / 10);
      DecimalInjective(m / 10, n / 10);
    }
  }

  function GroupName(k: nat): string { "__" + Decimal(k) }

  /** The regex text that the value of a parameter must match. */
  function ValueText(t: Token): string {
    match t.kind
    case Int64 => "[+-]?\\d+"
    case OptionalInt64 => "[+-]?\\d+"
    case Double => "[+-]?\\d+(?:\\.\\d+)?"
    case OptionalDouble => "[+-]?\\d+(?:\\.\\d+)?"
    case String => t.value
    case OptionalString => t.value
  }

  function GroupText(t: Token, k: nat): string {
    "(?<" + GroupName(k) + ">" + ValueText(t) + ")"
  }

  /** The regex chunk that replaces the k-th parameter. */
  function Chunk(t: Token, k: nat): string {
    if IsOptional(t.kind) then "(?:" + GroupText(t, k) + t.consumed + ")?" else GroupText(t, k)
  }

  /** Every chunk is longer than the text it replaces, so the cursor stays behind the next parameter. */
  lemma ChunkFits(t: Token, k: nat)
    requires WellFormed(t)
    ensures |Source(t)| < |Chunk(t, k)| && Source(t)[0] == '{' && Chunk(t, k)[0] == '('
  {
    assert Source(t)[0] == Opening(t.kind)[..2][0];
  }

  /** The pattern as a text whose slots are the parameters, numbered from k. */
  function TemplateOf(p: Pattern, k: nat): Template {
    match p
    case Tail(lit) => End(lit)
    case Param(lit, tok, rest) => Slot(lit, Source(tok), Chunk(tok, k), TemplateOf(rest, k + 1))
  }

  /** Each parameter replaced by its chunk where it stands. */
  function Compiled(p: Pattern, k: nat): string { Filled(TemplateOf(p, k)) }

  predicate AllWellFormed(p: Pattern) {
    p.Param? ==> WellFormed(p.tok) && AllWellFormed(p.rest)
  }

  lemma {:induction false} ScanIsWellFormed(p: Pattern)
    requires IsScan(p)
    ensures AllWellFormed(p)
  {
    if p.Param? {
      TokenAtSound(Unscan(p)[|p.lit|..]);
      ScanIsWellFormed(p.rest);
    }
  }

  lemma {:induction false} TemplateFits(p: Pattern, k: nat)
    requires AllWellFormed(p)
    ensures Fits(TemplateOf(p, k)) && Original(TemplateOf(p, k)) == Unscan(p)
  {
    hide Source, Chunk;
    if p.Param? {
      ChunkFits(p.tok, k);
      TemplateFits(p.rest, k + 1);
    }
  }

  /** What the splice loop makes of a pattern. */
  function Spliced(s: string): Option<string> {
    Splice(s, 0, Replacements(TemplateOf(Scan(s), 0)))
  }

  lemma ScanFits(s: string)
    ensures Fits(TemplateOf(Scan(s), 0)) && Original(TemplateOf(Scan(s), 0)) == s
    ensures AllWellFormed(Scan(s)) && IsScan(Scan(s))
  {
    ScanDivides(s);
    ScanIsWellFormed(Scan(s));
    TemplateFits(Scan(s), 0);
  }

  /** The "library error" of the splice loop is unreachable, whatever the pattern. */
  lemma SplicedNeverFails(s: string)
    ensures Spliced(s).Some?
  {
    hide Splice, Replacements, Scan, TemplateOf;
    ScanFits(s);
    SpliceFinds(TemplateOf(Scan(s), 0), "", 0);
    assert "" + s == s;
  }

  /** The splice compiles each parameter in its own place exactly when no source strays. */
  lemma SplicedIsCompiledIff(s: string)
    ensures Fits(TemplateOf(Scan(s), 0))
    ensures Spliced(s) == Some(Compiled(Scan(s), 0)) <==> NoStraySource(TemplateOf(Scan(s), 0), "")
  {
    hide Splice, Replacements, Scan, TemplateOf, NoStraySource, Filled, Original;
    ScanFits(s);
    var t := TemplateOf(Scan(s), 0);
    SpliceFrom(t, "", 0);
    assert "" + s == s && "" + Filled(t) == Filled(t) && ""[0..] == "";
  }

  // ----- A sufficient condition on the embedded regexes alone

  predicate NoOpenBraces(s: string) {
    forall i :: 0 <= i < |s| - 1 ==> s[i] != '{' || s[i + 1] != '{'
  }

  predicate EmbedsNoBraces(p: Pattern) {
    p.Param? ==> NoOpenBraces(p.tok.value) && NoOpenBraces(p.tok.consumed) && EmbedsNoBraces(p.rest)
  }

  lemma NoBracesJoin(a: string, b: string)
    requires NoOpenBraces(a) && NoOpenBraces(b)
    requires b == "" || b[0] != '{' || a == "" || a[|a| - 1] != '{'
    ensures NoOpenBraces(a + b)
  {
    forall i | 0 <= i < |a + b| - 1 ensures (a + b)[i] != '{' || (a + b)[i + 1] != '{' {
      if i + 1 < |a| { assert a[i] != '{' || a[i + 1] != '{'; }
      else if i >= |a| { assert b[i - |a|] != '{' || b[i - |a| + 1] != '{'; }
    }
  }

  predicate Shut(s: string) { NoOpenBraces(s) && s != "" && s[0] != '{' && s[|s| - 1] != '{' }

  lemma NameIsShut(k: nat)
    ensures Shut("(?<" + GroupName(k) + ">")
  {
    var digits := Decimal(k);
    assert NoOpenBraces(digits) && digits[0] != '{';
    NoBracesJoin("(?<__", digits);
    NoBracesJoin("(?<__" + digits, ">");
    assert "(?<" + GroupName(k) + ">" == "(?<__" + digits + ">";
  }

  lemma ShutAround(a: string, b: string, c: string)
    requires Shut(a) && NoOpenBraces(b) && Shut(c)
    ensures Shut(a + b + c)
  {
    NoBracesJoin(a, b);
    NoBracesJoin(a + b, c);
  }

  lemma ChunkIsShut(t: Token, k: nat)
    requires NoOpenBraces(t.value) && NoOpenBraces(t.consumed)
    ensures Shut(Chunk(t, k))
  {
    NameIsShut(k);
    var head := "(?<" + GroupName(k) + ">";
    assert NoOpenBraces(ValueText(t));
    ShutAround(head, ValueText(t), ")");
    if IsOptional(t.kind) {
      NoBracesJoin("(?:", GroupText(t, k));
      ShutAround("(?:" + GroupText(t, k), t.consumed, ")?");
    }
  }

  lemma ShutSuffix(s: string, n: nat)
    requires Shut(s) && n < |s|
    ensures NoOpenBraces(s[n..]) && s[n..][|s[n..]| - 1] != '{'
  {
    forall i | 0 <= i < |s[n..]| - 1 ensures s[n..][i] != '{' || s[n..][i + 1] != '{' {
      assert s[n + i] != '{' || s[n + i + 1] != '{';
    }
  }

  lemma OpensWithBraces(t: Token)
    ensures Source(t)[0] == '{' && Source(t)[1] == '{'
  {
    assert Source(t)[..2] == Opening(t.kind)[..2];
    assert Source(t)[0] == Source(t)[..2][0] && Source(t)[1] == Source(t)[..2][1];
  }

  /** A source cannot start inside text that has no "{{" and does not end in '{'. */
  lemma NotInsideClean(before: string, mid: string, src: string, q: nat)
    requires NoOpenBraces(before) && q < |before| && before[|before| - 1] != '{' && q + 1 < |before + mid|
    requires |src| >= 2 && src[0] == '{' && src[1] == '{'
    ensures !OccursAt(before + mid, src, q)
  {
    hide OccursAt;
    OccurrenceStarts(before + mid, src, q);
    assert before[q] != '{' || (before + mid)[q + 1] != '{';
  }

  lemma OccurrenceStarts(s: string, src: string, q: nat)
    requires |src| >= 2
    ensures OccursAt(s, src, q) ==> q + 1 < |s| && s[q] == src[0] && s[q + 1] == src[1]
  {
    if OccursAt(s, src, q) {
      assert s[q..q + |src|][0] == src[0] && s[q..q + |src|][1] == src[1];
    }
  }

  /** A source cannot start where the leftmost scan passed over. */
  lemma NotPassedOver(p: Pattern, o: nat)
    requires p.Param? && IsScan(p) && WellFormed(p.tok) && o < |p.lit|
    ensures !OccursAt(p.lit + Source(p.tok), Source(p.tok), o)
  {
    hide TokenAt, Source, WellFormed;
    var src, mid, u := Source(p.tok), p.lit + Source(p.tok), Unscan(p);
    assert u == mid + Unscan(p.rest);
    assert NoneBefore(u, |p.lit|) && TokenAt(u[o..]).None?;
    assert OccursAt(mid, src, o) ==> u[o..][..|src|] == mid[o..o + |src|];
    NoCandidate(u[o..], p.tok);
  }

  lemma NoCandidate(s: string, u: Token)
    requires TokenAt(s).None? && WellFormed(u)
    ensures !(Source(u) <= s)
  {
    if Candidate(u, s) { TokenAtBest(s, u); }
  }

  /** A source found early would open with "{{" inside a chunk, or be a parameter the scan passed over. */
  lemma NoEarlySource(p: Pattern, before: string)
    requires p.Param? && IsScan(p)
    requires NoOpenBraces(before) && (before == "" || before[|before| - 1] != '{')
    ensures Find(before + p.lit + Source(p.tok), Source(p.tok), 0) == Some(|before| + |p.lit|)
  {
    hide Source, OccursAt, Find, NoOpenBraces, TokenAt, NoneBefore, WellFormed;
    var src, mid := Source(p.tok), p.lit + Source(p.tok);
    TokenAtSound(Unscan(p)[|p.lit|..]);
    OpensWithBraces(p.tok);
    NoEarlyOccurrence(p, before, mid, src);
    assert before + p.lit + src == before + mid;
    OccursAtEnd(before, p.lit, src);
  }

  lemma OccursAtEnd(before: string, lit: string, src: string)
    ensures OccursAt(before + lit + src, src, |before| + |lit|)
  {
  }

  lemma NoEarlyOccurrence(p: Pattern, before: string, mid: string, src: string)
    requires p.Param? && IsScan(p) && WellFormed(p.tok) && src == Source(p.tok) && mid == p.lit + src
    requires NoOpenBraces(before) && (before == "" || before[|before| - 1] != '{')
    requires src[0] == '{' && src[1] == '{'
    ensures forall q: nat :: OccursAt(before + mid, src, q) ==> q >= |before| + |p.lit|
  {
    hide OccursAt, NoOpenBraces, IsScan, Source, WellFormed, TokenAt, Unscan;
    assert before + mid + "" == before + mid;
    forall q: nat | q < |before| + |p.lit| ensures !OccursAt(before + mid, src, q) {
      if q < |before| {
        NotInsideClean(before, mid, src, q);
      } else {
        NotPassedOver(p, q - |before|);
        OccursWithin(before, mid, "", src, q - |before|);
      }
    }
  }

  lemma {:induction false} NoBracesNoStray(p: Pattern, k: nat, before: string)
    requires IsScan(p) && EmbedsNoBraces(p) && Fits(TemplateOf(p, k))
    requires NoOpenBraces(before) && (before == "" || before[|before| - 1] != '{')
    ensures NoStraySource(TemplateOf(p, k), before)
    decreases p
  {
    hide Chunk, Source, NoOpenBraces, Shut, TokenAt, NoneBefore, Find;
    if p.Param? {
      NoEarlySource(p, before);
      ChunkIsShut(p.tok, k);
      var chunk := Chunk(p.tok, k);
      ShutSuffix(chunk, |Source(p.tok)|);
      NoBracesNoStray(p.rest, k + 1, chunk[|Source(p.tok)|..]);
    }
  }

  /** With no "{{" inside embedded regexes, splicing replaces each parameter at its own place. */
  lemma SplicedIsCompiled(s: string)
    requires EmbedsNoBraces(Scan(s))
    ensures Spliced(s) == Some(Compiled(Scan(s), 0))
  {
    hide Spliced, Compiled, Scan, TemplateOf, NoStraySource;
    ScanFits(s);
    NoBracesNoStray(Scan(s), 0, "");
    SplicedIsCompiledIff(s);
  }

  // ----- Parameters whose text cannot be read in two ways

  predicate Uninterrupted(c: string) {
    c != "" && forall i :: 1 <= i < |c| ==> c[i] != '}'
  }

  lemma CloseAtEnd(c: string, more: string)
    requires Uninterrupted(c)
    ensures CloseAt(c + "}}" + more, 1) == Some(|c|) && (c + "}}" + more)[..|c|] == c
  {
    hide CloseAt;
    var s := c + "}}" + more;
    assert s[|c|..|c| + 2] == "}}";
    var i := CloseAt(s, 1).value;
    assert s[i] == s[i..i + 2][0] == '}';
    assert forall j :: 1 <= j < |c| ==> s[j] == c[j];
  }

  lemma ScanConsumedIs(c: string, more: string)
    requires Uninterrupted(c)
    ensures ScanConsumed(":" + c + "}}" + more) == Some(c)
  {
    hide CloseAt;
    CloseAtEnd(c, more);
    var s, rest := ":" + c + "}}" + more, c + "}}" + more;
    assert s == [':'] + rest;
    assert s[0] == ':' && s[1..] == rest;
    hide Uninterrupted;
  }

  /** The text of the parameter has no "}}" or ':' on the way that could end its value or consumed text early. */
  predicate Unambiguous(t: Token) {
    && (t.consumed == "" || (IsOptional(t.kind) && Uninterrupted(t.consumed)))
    && if t.kind.String? || t.kind.OptionalString? then
         Uninterrupted(t.value) && (t.kind.OptionalString? ==> forall i :: 1 <= i < |t.value| ==> t.value[i] != ':')
       else t.value == ""
  }

  /** Behind the value: the consumed text, if there is any, then the closing braces. */
  lemma ClosingIs(c: string, more: string)
    requires c == "" || Uninterrupted(c)
    ensures ScanConsumed(ConsumedSource(c) + "}}" + more) == Some(c)
  {
    if c == "" {
      assert "" + "}}" + more == "}}" + more;
    } else {
      ScanConsumedIs(c, more);
    }
  }

  lemma NoClosing(s: string)
    requires s != "" && s[0] != ':' && s[0] != '}'
    ensures ScanConsumed(s) == None
  {
  }

  lemma {:induction false} ScanValueIs(v: string, c: string, more: string, len: nat)
    requires Uninterrupted(v) && (c == "" || Uninterrupted(c)) && 1 <= len <= |v|
    requires forall i :: 1 <= i < |v| ==> v[i] != ':'
    ensures ScanValue(v + (ConsumedSource(c) + "}}" + more), len) == Some((v, c))
    decreases |v| - len
  {
    hide ScanConsumed, ConsumedSource;
    var tail := ConsumedSource(c) + "}}" + more;
    var s := v + tail;
    if len == |v| {
      ClosingIs(c, more);
      assert s[len..] == tail && s[..len] == v;
    } else {
      assert s[len..][0] == v[len];
      NoClosing(s[len..]);
      ScanValueIs(v, c, more, len + 1);
    }
  }

  lemma BodyIs(t: Token, more: string)
    requires Unambiguous(t)
    ensures BodyAt(t.kind, Body(t) + more) == Some((t.value, t.consumed))
  {
    hide CloseAt, ScanConsumed, ScanValue, ConsumedSource, Uninterrupted;
    var tail := ConsumedSource(t.consumed) + "}}" + more;
    match t.kind
    case Int64 =>
    case Double =>
    case OptionalInt64 => NumberBodyIs(t, more);
    case OptionalDouble => NumberBodyIs(t, more);
    case String => StringBodyIs(t, more);
    case OptionalString =>
      UninterruptedIsLong(t.value);
      ScanValueIs(t.value, t.consumed, more, 1);
      assert Body(t) + more == t.value + tail;
  }

  lemma UninterruptedIsLong(c: string)
    requires Uninterrupted(c)
    ensures |c| >= 1
  {
  }

  lemma NumberBodyIs(t: Token, more: string)
    requires Unambiguous(t) && (t.kind.OptionalInt64? || t.kind.OptionalDouble?)
    ensures BodyAt(t.kind, Body(t) + more) == Some((t.value, t.consumed))
  {
    ClosingIs(t.consumed, more);
    hide ScanConsumed, ConsumedSource;
    var tail := ConsumedSource(t.consumed) + "}}";
    assert Body(t) == tail by { assert "" + ConsumedSource(t.consumed) == ConsumedSource(t.consumed); }
  }

  lemma StringBodyIs(t: Token, more: string)
    requires t.kind.String? && Unambiguous(t)
    ensures BodyAt(t.kind, Body(t) + more) == Some((t.value, t.consumed))
  {
    CloseAtEnd(t.value, more);
    hide CloseAt;
    assert Body(t) == t.value + "}}";
  }

  lemma TokenAtIs(t: Token, more: string)
    requires Unambiguous(t)
    ensures TokenAt(Source(t) + more) == Some(t)
  {
    BodyIs(t, more);
    hide Opening, KindAt, BodyAt, Body, Unambiguous;
    var o, body := Opening(t.kind), Body(t) + more;
    assert Source(t) == o + Body(t);
    JoinThree(o, Body(t), more);
    OpeningDecides(o + body, t.kind);
  }

  lemma JoinThree(a: string, b: string, c: string)
    ensures (a + b) + c == a + (b + c) && a <= a + (b + c) && (a + (b + c))[|a|..] == b + c
  {
  }

  lemma BracesFirst(s: string)
    requires s != "" && s[0] != '{'
    ensures TokenAt(s).None?
  {
    forall k ensures !(Opening(k) <= s) {
      assert Opening(k)[0] == Opening(k)[..2][0];
    }
  }

  /** A literal without '{' in front of a parameter, and one behind the last. */
  lemma ScanParam(lit: string, t: Token, rest: Pattern)
    requires Unambiguous(t) && '{' !in lit && IsScan(rest)
    ensures IsScan(Param(lit, t, rest))
  {
    hide TokenAt, Source;
    var p := Param(lit, t, rest);
    TokenAtIs(t, Unscan(rest));
    assert Unscan(p)[|lit|..] == Source(t) + Unscan(rest);
    forall o | 0 <= o < |lit| ensures TokenAt(Unscan(p)[o..]).None? {
      assert Unscan(p)[o..][0] == lit[o];
      BracesFirst(Unscan(p)[o..]);
    }
  }

  lemma ScanTail(lit: string)
    requires '{' !in lit
    ensures IsScan(Tail(lit))
  {
    hide TokenAt;
    forall o | 0 <= o < |lit| ensures TokenAt(lit[o..]).None? {
      assert lit[o..][0] == lit[o];
      BracesFirst(lit[o..]);
    }
  }
}
