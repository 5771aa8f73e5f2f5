/** The numbers that integer and double parameters stand for. */
module RouteNumbers {
  import opened Wrappers
  import opened Regex

  // ----- The fixed value regexes and what they denote

  const SIGN := Chars(CharSet(false, [('+', '+'), ('-', '-')]))
  const DIGIT := Chars(CharSet(false, DIGITS))
  const INTEGER := Cat(Opt(SIGN), Cat(Plus(DIGIT), Empty))
  const FRACTION := Cat(Literal('.'), Cat(Plus(DIGIT), Empty))
  const DECIMAL := Cat(Opt(SIGN), Cat(Plus(DIGIT), Cat(Opt(FRACTION), Empty)))

  predicate IsDigits(s: string) { s != "" && forall i :: 0 <= i < |s| ==> '0' <= s[i] <= '9' }

  function Unsigned(s: string): string { if s != "" && (s[0] == '+' || s[0] == '-') then s[1..] else s }

  predicate IsInteger(s: string) { IsDigits(Unsigned(s)) }

  predicate IsDecimal(s: string) {
    IsInteger(s) || exists i :: 0 <= i < |s| && s[i] == '.' && IsInteger(s[..i]) && IsDigits(s[i + 1..])
  }

  lemma PieceThenBranch(s: string, t: string)
    requires !EndsBranch(s) && ParsePiece(s).Some? && ParsePiece(s).value.1 == t && ParseBranch(t).Some?
    ensures ParseBranch(s) == Some((Cat(ParsePiece(s).value.0, ParseBranch(t).value.0), ParseBranch(t).value.1))
  {
  }

  lemma SignParses(t: string)
    ensures ParsePiece("[+-]?\\" + t) == Some((Opt(SIGN), "\\" + t))
  {
    var s := "[+-]?\\" + t;
    assert s[1..] == "+-]?\\" + t && s[1..][1..] == "-]?\\" + t && s[1..][1..][1..] == "]?\\" + t;
    assert s[1..][1..][1..][1..] == "?\\" + t;
    assert ParseClass(s[1..][1..][1..], false) == Some(([], "?\\" + t));
    assert [('-', '-')] + [] == [('-', '-')] && [('+', '+')] + [('-', '-')] == [('+', '+'), ('-', '-')];
    assert ParseClass(s[1..][1..], false) == Some(([('-', '-')], "?\\" + t));
    assert ParseClass(s[1..], true) == Some(([('+', '+'), ('-', '-')], "?\\" + t));
    assert ("?\\" + t)[1..] == "\\" + t;
  }

  lemma DigitsParse(t: string)
    requires Separates("", t)
    ensures ParsePiece("\\d+" + t) == Some((Plus(DIGIT), t))
  {
    var s := "\\d+" + t;
    assert s[2..] == "+" + t && ("+" + t)[1..] == t;
    if t != "" { assert ("+" + t)[1] == t[0]; }
  }

  lemma IntegerParses()
    ensures IsExpression("[+-]?\\d+") && Expression("[+-]?\\d+") == INTEGER
  {
    SignParses("d+");
    DigitsParse("");
    assert "[+-]?\\" + "d+" == "[+-]?\\d+" && "\\" + "d+" == "\\d+" && "\\d+" + "" == "\\d+";
    PieceThenBranch("\\d+", "");
    PieceThenBranch("[+-]?\\d+", "\\d+");
  }

  lemma FractionBodyParses()
    ensures ParseAlt("\\.\\d+)?") == Some((FRACTION, ")?"))
  {
    DigitsParse(")?");
    assert "\\d+" + ")?" == "\\d+)?";
    PieceThenBranch("\\d+)?", ")?");
    assert ParseAtom("\\.\\d+)?") == Some((Literal('.'), "\\d+)?")) by { assert "\\.\\d+)?"[2..] == "\\d+)?"; }
    PieceThenBranch("\\.\\d+)?", "\\d+)?");
  }

  lemma FractionParses()
    ensures ParsePiece("(?:\\.\\d+)?") == Some((Opt(FRACTION), ""))
  {
    hide ParseAlt;
    FractionBodyParses();
    var s := "(?:\\.\\d+)?";
    assert s[3..] == "\\.\\d+)?" && ")?"[1..] == "?";
    assert ParseAtom(s) == Some((FRACTION, "?"));
    assert "?"[1..] == "";
  }

  lemma DecimalParses()
    ensures IsExpression("[+-]?\\d+(?:\\.\\d+)?") && Expression("[+-]?\\d+(?:\\.\\d+)?") == DECIMAL
  {
    hide ParsePiece, ParseAtom;
    var fraction := "(?:\\.\\d+)?";
    FractionParses();
    PieceThenBranch(fraction, "");
    DigitsParse(fraction);
    PieceThenBranch("\\d+" + fraction, fraction);
    SignParses("d+" + fraction);
    assert "\\" + ("d+" + fraction) == "\\d+" + fraction;
    PieceThenBranch("[+-]?\\" + ("d+" + fraction), "\\d+" + fraction);
    assert "[+-]?\\" + ("d+" + fraction) == "[+-]?\\d+(?:\\.\\d+)?";
  }

  // ----- Their languages

  predicate IsSign(s: string) { s == "" || s == "+" || s == "-" }

  lemma SignMatches(f: Fit)
    ensures Matches(Opt(SIGN), f) <==> IsSign(f.text) && f.groups == []
  {
    hide Matches;
    OptMatches(SIGN, f);
    CharMatches(SIGN.cs, f);
    assert SIGN.cs.ranges[0] == ('+', '+') && SIGN.cs.ranges[1] == ('-', '-');
    if |f.text| == 1 { assert f.text == [f.text[0]]; }
  }

  lemma DigitMatches(f: Fit)
    ensures Matches(DIGIT, f) <==> |f.text| == 1 && IsDigits(f.text) && f.groups == []
  {
    hide Matches;
    CharMatches(DIGIT.cs, f);
    assert DIGITS[0] == ('0', '9');
  }

  lemma {:induction false} DigitsElim(r: Regex, f: Fit)
    requires r.Repeat? && r.body == DIGIT && Matches(r, f)
    ensures f.groups == [] && (f.text == "" || IsDigits(f.text)) && (r.min > 0 ==> f.text != "")
    decreases |f.text|
  {
    hide Matches;
    var none, g, h := RepeatSplits(r, f);
    if !none {
      DigitMatches(g);
      DigitsElim(Again(r), h);
    }
  }

  lemma {:induction false} DigitsIntro(s: string, min: nat)
    requires (s == "" && min == 0) || (IsDigits(s) && min <= 1)
    ensures Matches(Repeat(DIGIT, min, None), Fit(s, []))
    decreases |s|
  {
    hide Matches;
    var r := Repeat(DIGIT, min, None);
    if s == "" {
      RepeatNone(r);
    } else {
      DigitMatches(Fit(s[..1], []));
      DigitsIntro(s[1..], 0);
      RepeatJoins(r, Fit(s[..1], []), Fit(s[1..], []));
      assert s == s[..1] + s[1..];
    }
  }

  lemma DigitsMatch(f: Fit)
    ensures Matches(Plus(DIGIT), f) <==> IsDigits(f.text) && f.groups == []
  {
    hide Matches;
    if Matches(Plus(DIGIT), f) { DigitsElim(Plus(DIGIT), f); }
    if IsDigits(f.text) && f.groups == [] { DigitsIntro(f.text, 1); }
  }

  /** The sequence that ends a branch. */
  lemma LastMatches(a: Regex, f: Fit)
    ensures Matches(Cat(a, Empty), f) <==> Matches(a, f)
  {
    hide Matches;
    EmptyMatches(Fit("", []));
    ThenAssociates(f, f, f);
    if Matches(a, f) { CatJoins(a, Empty, f, Fit("", [])); }
    if Matches(Cat(a, Empty), f) {
      var g, h := CatSplits(a, Empty, f);
      EmptyMatches(h);
      ThenAssociates(g, g, g);
    }
  }

  function SignOf(s: string): (r: string)
    ensures r + Unsigned(s) == s && IsSign(r)
  {
    if s != "" && (s[0] == '+' || s[0] == '-') then [s[0]] else ""
  }

  lemma UnsignedOf(sign: string, digits: string)
    requires IsSign(sign) && IsDigits(digits)
    ensures Unsigned(sign + digits) == digits && IsInteger(sign + digits)
  {
  }

  /** `[+-]?\d+` denotes exactly the optionally signed digit strings. */
  lemma IntegerLanguage(f: Fit)
    ensures Matches(INTEGER, f) <==> IsInteger(f.text) && f.groups == []
  {
    hide Matches, IsSign, IsDigits, Unsigned;
    if Matches(INTEGER, f) {
      var g, h := CatSplits(Opt(SIGN), Cat(Plus(DIGIT), Empty), f);
      SignMatches(g);
      LastMatches(Plus(DIGIT), h);
      DigitsMatch(h);
      UnsignedOf(g.text, h.text);
    }
    if IsInteger(f.text) && f.groups == [] {
      var g, h := Fit(SignOf(f.text), []), Fit(Unsigned(f.text), []);
      SignMatches(g);
      DigitsMatch(h);
      LastMatches(Plus(DIGIT), h);
      CatJoins(Opt(SIGN), Cat(Plus(DIGIT), Empty), g, h);
      assert f == Then(g, h);
    }
  }

  lemma PointMatches(f: Fit)
    ensures Matches(Literal('.'), f) <==> f == Fit(".", [])
  {
    hide Matches;
    CharMatches(CharSet(false, [('.', '.')]), f);
    assert [('.', '.')][0] == ('.', '.');
    if |f.text| == 1 { assert f.text == [f.text[0]]; }
  }

  lemma FractionMatches(f: Fit)
    ensures Matches(FRACTION, f) <==> f.text != "" && f.text[0] == '.' && IsDigits(f.text[1..]) && f.groups == []
  {
    hide Matches, IsDigits;
    if Matches(FRACTION, f) {
      var g, h := CatSplits(Literal('.'), Cat(Plus(DIGIT), Empty), f);
      PointMatches(g);
      LastMatches(Plus(DIGIT), h);
      DigitsMatch(h);
      assert f.text[1..] == h.text;
    }
    if f.text != "" && f.text[0] == '.' && IsDigits(f.text[1..]) && f.groups == [] {
      var g, h := Fit(".", []), Fit(f.text[1..], []);
      PointMatches(g);
      DigitsMatch(h);
      LastMatches(Plus(DIGIT), h);
      CatJoins(Literal('.'), Cat(Plus(DIGIT), Empty), g, h);
      assert f == Then(g, h);
    }
  }

  lemma DecimalOf(whole: string, frac: string)
    requires IsInteger(whole) && IsDigits(frac)
    ensures IsDecimal(whole + ("." + frac))
  {
    var w, i := whole + ("." + frac), |whole|;
    assert w[..i] == whole && w[i + 1..] == frac && w[i] == '.';
  }

  /** An optional fraction: nothing, or the point and digits. */
  lemma TailMatches(f: Fit)
    ensures Matches(Cat(Opt(FRACTION), Empty), f) <==>
              f.groups == [] && (f.text == "" || (f.text[0] == '.' && IsDigits(f.text[1..])))
  {
    hide Matches, IsDigits;
    LastMatches(Opt(FRACTION), f);
    OptMatches(FRACTION, f);
    FractionMatches(f);
  }

  /** The integer and the rest of a decimal. */
  lemma DecimalParts(h: Fit) returns (f: Fit, g: Fit)
    requires Matches(DECIMAL, h)
    ensures IsInteger(f.text) && f.groups == [] && Matches(Cat(Opt(FRACTION), Empty), g) && h == Then(f, g)
  {
    hide Matches, IsSign, IsDigits, IsInteger, Unsigned;
    var tail := Cat(Opt(FRACTION), Empty);
    var f0, h' := CatSplits(Opt(SIGN), Cat(Plus(DIGIT), tail), h);
    var f1, g' := CatSplits(Plus(DIGIT), tail, h');
    SignMatches(f0);
    DigitsMatch(f1);
    UnsignedOf(f0.text, f1.text);
    ThenAssociates(f0, f1, g');
    f, g := Then(f0, f1), g';
  }

  lemma DecimalFrom(whole: string, g: Fit)
    requires IsInteger(whole) && Matches(Cat(Opt(FRACTION), Empty), g)
    ensures Matches(DECIMAL, Then(Fit(whole, []), g))
  {
    hide Matches, IsSign, IsDigits, Unsigned;
    var tail := Cat(Opt(FRACTION), Empty);
    var f0, f1 := Fit(SignOf(whole), []), Fit(Unsigned(whole), []);
    SignMatches(f0);
    DigitsMatch(f1);
    CatJoins(Plus(DIGIT), tail, f1, g);
    CatJoins(Opt(SIGN), Cat(Plus(DIGIT), tail), f0, Then(f1, g));
    ThenAssociates(f0, f1, g);
    assert Then(f0, f1) == Fit(whole, []);
  }

  lemma DecimalElim(f: Fit)
    requires Matches(DECIMAL, f)
    ensures IsDecimal(f.text) && f.groups == []
  {
    hide Matches, IsDigits, IsInteger, Unsigned;
    var g, h := DecimalParts(f);
    TailMatches(h);
    if h.text == "" {
      assert f.text == g.text;
    } else {
      hide IsDecimal;
      DecimalOf(g.text, h.text[1..]);
      assert h.text == "." + h.text[1..];
    }
  }

  lemma DecimalIntro(w: string, i: nat)
    requires i <= |w| && IsInteger(w[..i]) && (i < |w| ==> w[i] == '.' && IsDigits(w[i + 1..]))
    ensures Matches(DECIMAL, Fit(w, []))
  {
    hide Matches, IsDigits, IsInteger, Unsigned;
    var h := Fit(w[i..], []);
    if i < |w| { assert w[i..][1..] == w[i + 1..]; }
    TailMatches(h);
    DecimalFrom(w[..i], h);
    assert Fit(w, []) == Then(Fit(w[..i], []), h);
  }

  /** `[+-]?\d+(?:\.\d+)?` denotes exactly those with an optional fraction. */
  lemma DecimalLanguage(f: Fit)
    ensures Matches(DECIMAL, f) <==> IsDecimal(f.text) && f.groups == []
  {
    hide Matches, IsDigits, IsInteger, Unsigned;
    if Matches(DECIMAL, f) { DecimalElim(f); }
    if IsDecimal(f.text) && f.groups == [] {
      var w := f.text;
      if IsInteger(w) {
        assert w[..|w|] == w;
        DecimalIntro(w, |w|);
      } else {
        var i :| 0 <= i < |w| && w[i] == '.' && IsInteger(w[..i]) && IsDigits(w[i + 1..]);
        DecimalIntro(w, i);
      }
    }
  }
}
