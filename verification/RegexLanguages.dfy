/** The languages of the constructs that route patterns use, on literal regex texts. */
module RegexLanguages {
  import opened Wrappers
  import opened Regex
  import opened RouteChunks
  import opened RouteNumbers
  import opened RouteArguments
  import opened IntegerArguments
  import opened Routes

  // ----- One class of characters, repeated

  predicate AllIn(w: string, cs: CharSet) { forall i :: 0 <= i < |w| ==> InSet(w[i], cs) }

  lemma {:induction false} RepeatedElim(cs: CharSet, min: nat, max: Option<nat>, f: Fit)
    requires Matches(Repeat(Chars(cs), min, max), f)
    ensures f.groups == [] && AllIn(f.text, cs) && min <= |f.text| && (max.Some? ==> |f.text| <= max.value)
    decreases |f.text|, min
  {
    hide Matches, InSet;
    var r := Repeat(Chars(cs), min, max);
    var none, g, h := RepeatSplits(r, f);
    if !none {
      CharMatches(cs, g);
      RepeatedElim(cs, Again(r).min, Again(r).max, h);
    }
  }

  lemma {:induction false} RepeatedIntro(cs: CharSet, min: nat, max: Option<nat>, w: string)
    requires AllIn(w, cs) && min <= |w| && (max.Some? ==> |w| <= max.value)
    ensures Matches(Repeat(Chars(cs), min, max), Fit(w, []))
    decreases |w|
  {
    hide Matches, InSet;
    var r := Repeat(Chars(cs), min, max);
    if w == "" {
      RepeatNone(r);
      assert Nothing(|Names(r)|) == [];
    } else {
      CharMatches(cs, Fit(w[..1], []));
      RepeatedIntro(cs, Again(r).min, Again(r).max, w[1..]);
      RepeatJoins(r, Fit(w[..1], []), Fit(w[1..], []));
      assert w == w[..1] + w[1..];
    }
  }

  /** A repeated class matches the texts of that many characters of the class. */
  lemma RepeatedMatches(cs: CharSet, min: nat, max: Option<nat>, f: Fit)
    ensures Matches(Repeat(Chars(cs), min, max), f) <==>
              f.groups == [] && AllIn(f.text, cs) && min <= |f.text| && (max.Some? ==> |f.text| <= max.value)
  {
    hide Matches, InSet, AllIn;
    if Matches(Repeat(Chars(cs), min, max), f) { RepeatedElim(cs, min, max, f); }
    if f.groups == [] && AllIn(f.text, cs) && min <= |f.text| && (max.Some? ==> |f.text| <= max.value) {
      RepeatedIntro(cs, min, max, f.text);
    }
  }

  // ----- Texts of one piece

  /** A text that is one atom under a quantifier. */
  lemma PieceIs(s: string, a: Regex, q: string, min: nat, max: Option<nat>)
    requires s != "" && !EndsBranch(s) && ParseAtom(s) == Some((a, q))
    requires q != "" && IsQuantifier(q[0]) && ParseQuantifier(q) == Some((min, max, ""))
    ensures IsExpression(s) && Expression(s) == Cat(Repeat(a, min, max), Empty)
  {
    hide ParseAtom, ParseQuantifier;
    assert ParsePiece(s) == Some((Repeat(a, min, max), ""));
    hide ParsePiece;
    assert ParseBranch("") == Some((Empty, ""));
    PieceThenBranch(s, "");
  }

  lemma PieceMatches(cs: CharSet, min: nat, max: Option<nat>, f: Fit)
    ensures Matches(Cat(Repeat(Chars(cs), min, max), Empty), f) <==>
              f.groups == [] && AllIn(f.text, cs) && min <= |f.text| && (max.Some? ==> |f.text| <= max.value)
  {
    hide Matches, AllIn;
    LastMatches(Repeat(Chars(cs), min, max), f);
    RepeatedMatches(cs, min, max, f);
  }

  lemma Quantifiers()
    ensures ParseQuantifier("+") == Some((1, None, "")) && ParseQuantifier("*") == Some((0, None, ""))
    ensures ParseQuantifier("?") == Some((0, Some(1), ""))
  {
    assert "+"[1..] == "" && "*"[1..] == "" && "?"[1..] == "";
  }

  predicate IsDigitChar(c: char) { '0' <= c <= '9' }

  predicate IsWordChar(c: char) { '0' <= c <= '9' || 'A' <= c <= 'Z' || c == '_' || 'a' <= c <= 'z' }

  predicate IsSpaceChar(c: char) { c == ' ' || '\t' <= c <= '\r' }

  /** What an escaped letter stands for; a capital stands for everything else. */
  lemma EscapesAre(c: char)
    ensures Escape('d').Some? && Escape('w').Some? && Escape('s').Some?
    ensures Escape('D').Some? && Escape('W').Some? && Escape('S').Some?
    ensures InSet(c, Escape('d').value) <==> IsDigitChar(c)
    ensures InSet(c, Escape('w').value) <==> IsWordChar(c)
    ensures InSet(c, Escape('s').value) <==> IsSpaceChar(c)
    ensures InSet(c, Escape('D').value) <==> !IsDigitChar(c)
    ensures InSet(c, Escape('W').value) <==> !IsWordChar(c)
    ensures InSet(c, Escape('S').value) <==> !IsSpaceChar(c)
  {
    assert DIGITS[0] == ('0', '9');
    assert WORD[0] == ('0', '9') && WORD[1] == ('A', 'Z') && WORD[2] == ('_', '_') && WORD[3] == ('a', 'z');
    assert SPACES[0] == (' ', ' ') && SPACES[1] == ('\t', '\r');
  }

  /** `\w+` matches exactly the non-empty texts of letters, digits and underscores. */
  lemma WordLanguage(f: Fit)
    ensures IsExpression("\\w+") &&
            (Matches(Expression("\\w+"), f) <==>
               f.groups == [] && f.text != "" && forall i :: 0 <= i < |f.text| ==> IsWordChar(f.text[i]))
  {
    var cs := Escape('w').value;
    assert "\\w+"[2..] == "+" && ParseAtom("\\w+") == Some((Chars(cs), "+"));
    Quantifiers();
    PieceIs("\\w+", Chars(cs), "+", 1, None);
    PieceMatches(cs, 1, None, f);
    forall i | 0 <= i < |f.text| ensures InSet(f.text[i], cs) <==> IsWordChar(f.text[i]) { EscapesAre(f.text[i]); }
  }

  /** `.*` matches every text. */
  lemma AnyLanguage(f: Fit)
    ensures IsExpression(".*") && (Matches(Expression(".*"), f) <==> f.groups == [])
  {
    var cs := CharSet(true, []);
    assert ".*"[1..] == "*" && ParseAtom(".*") == Some((Chars(cs), "*"));
    Quantifiers();
    PieceIs(".*", Chars(cs), "*", 0, None);
    PieceMatches(cs, 0, None, f);
  }

  lemma ComplementParses(c: char)
    requires c != '\\'
    ensures ParseAtom("[^" + [c] + "]+") == Some((Chars(CharSet(true, [(c, c)])), "+"))
  {
    var s := "[^" + [c] + "]+";
    assert s[2..] == [c] + "]+" && ([c] + "]+")[1..] == "]+" && "]+"[1..] == "+";
    assert ParseClass("]+", false) == Some(([], "+"));
    assert ParseMember([c] + "]+", true) == Some(([(c, c)], "]+"));
    assert [(c, c)] + [] == [(c, c)];
    assert ParseClass([c] + "]+", true) == Some(([(c, c)], "+"));
  }

  /** `[^c]+` matches exactly the non-empty texts without c, a closing bracket included. */
  lemma ComplementLanguage(c: char, f: Fit)
    requires c != '\\'
    ensures var s := "[^" + [c] + "]+";
      IsExpression(s) && (Matches(Expression(s), f) <==> f.groups == [] && f.text != "" && c !in f.text)
  {
    var s, cs := "[^" + [c] + "]+", CharSet(true, [(c, c)]);
    ComplementParses(c);
    Quantifiers();
    hide ParseAtom;
    PieceIs(s, Chars(cs), "+", 1, None);
    PieceMatches(cs, 1, None, f);
    assert cs.ranges[0] == (c, c);
  }

  // ----- Counted repetition

  /** Digits that something else follows are read as their value. */
  lemma {:induction false} DigitsAreRead(s: string, t: string, n: nat)
    requires AreDigits(s) && (t == "" || !('0' <= t[0] <= '9'))
    ensures ParseDigits(s + t, n) == (n * Pow10(|s|) + DigitsValue(s), t)
    decreases |s|
  {
    assert DIGITS[0] == ('0', '9');
    if s == "" {
      assert s + t == t;
    } else {
      var d := DigitValue(s[0]);
      assert (s + t)[1..] == s[1..] + t && (s + t)[0] == s[0];
      DigitsAreRead(s[1..], t, 10 * n + d);
      FirstDigit(s);
      Carry(n, d, Pow10(|s| - 1), DigitsValue(s[1..]));
      hide DigitsValue;
    }
  }

  lemma FirstDigit(s: string)
    requires s != "" && AreDigits(s)
    ensures InRanges(s[0], DIGITS) && DigitsValue(s) == DigitValue(s[0]) * Pow10(|s| - 1) + DigitsValue(s[1..])
  {
    assert DIGITS[0] == ('0', '9');
    assert s == s[..1] + s[1..] && s[..1][..0] == "";
    assert DigitsValue(s[..1]) == DigitValue(s[0]);
    hide DigitsValue, Pow10;
    DigitsAppend(s[..1], s[1..]);
  }

  lemma Carry(n: nat, d: nat, p: nat, v: nat)
    ensures (10 * n + d) * p + v == n * (10 * p) + (d * p + v)
  {
  }

  lemma NumberIsRead(n: nat, t: string)
    requires t == "" || !('0' <= t[0] <= '9')
    ensures ParseNumber(Decimal(n) + t) == Some((n, t))
  {
    DecimalValue(n);
    hide Decimal;
    DigitsAreNumber(Decimal(n), t);
  }

  lemma DigitsAreNumber(s: string, t: string)
    requires s != "" && AreDigits(s) && (t == "" || !('0' <= t[0] <= '9'))
    ensures ParseNumber(s + t) == Some((DigitsValue(s), t))
  {
    assert (s + t)[1..] == s[1..] + t && (s + t)[0] == s[0];
    FirstDigit(s);
    hide DigitsValue, Pow10, ParseDigits;
    DigitsAreRead(s[1..], t, DigitValue(s[0]));
  }

  /** `{m,n}` allows m to n rounds, `{m}` exactly m, and `{m,}` at least m. */
  lemma CountsAre(m: nat, n: nat)
    requires m <= n
    ensures ParseQuantifier("{" + (Decimal(m) + ("," + (Decimal(n) + "}")))) == Some((m, Some(n), ""))
    ensures ParseQuantifier("{" + (Decimal(m) + "}")) == Some((m, Some(m), ""))
    ensures ParseQuantifier("{" + (Decimal(m) + ",}")) == Some((m, None, ""))
  {
    hide ParseNumber;
    var upper := Decimal(n) + "}";
    NumberIsRead(m, "," + upper);
    NumberIsRead(n, "}");
    NumberIsRead(m, "}");
    NumberIsRead(m, ",}");
    assert ("{" + (Decimal(m) + ("," + upper)))[1..] == Decimal(m) + ("," + upper) && ("," + upper)[1..] == upper;
    assert ("{" + (Decimal(m) + "}"))[1..] == Decimal(m) + "}" && "}"[1..] == "";
    assert ("{" + (Decimal(m) + ",}"))[1..] == Decimal(m) + ",}" && ",}"[2..] == "";
    assert upper[0] == Decimal(n)[0];
  }

  lemma QuantifiedChar(c: char, q: string, min: nat, max: Option<nat>, f: Fit)
    requires IsPlainChar(c) && q != "" && IsQuantifier(q[0]) && ParseQuantifier(q) == Some((min, max, ""))
    ensures IsExpression([c] + q) &&
            (Matches(Expression([c] + q), f) <==>
               f.groups == [] && min <= |f.text| && (max.Some? ==> |f.text| <= max.value) &&
               forall i :: 0 <= i < |f.text| ==> f.text[i] == c)
  {
    var s, cs := [c] + q, CharSet(false, [(c, c)]);
    assert s[1..] == q && ParseAtom(s) == Some((Chars(cs), q));
    hide ParseAtom, ParseQuantifier, Matches, IsExpression, Expression;
    PieceIs(s, Chars(cs), q, min, max);
    PieceMatches(cs, min, max, f);
    assert cs.ranges[0] == (c, c);
  }

  /** `c{m,n}` matches exactly the texts of m to n times c. */
  lemma CountedLanguage(c: char, m: nat, n: nat, f: Fit)
    requires IsPlainChar(c) && m <= n
    ensures var s := [c] + ("{" + (Decimal(m) + ("," + (Decimal(n) + "}"))));
      IsExpression(s) &&
      (Matches(Expression(s), f) <==>
         f.groups == [] && m <= |f.text| <= n && forall i :: 0 <= i < |f.text| ==> f.text[i] == c)
  {
    hide Decimal, ParseQuantifier, Matches, IsExpression, Expression, IsPlainChar;
    CountsAre(m, n);
    QuantifiedChar(c, "{" + (Decimal(m) + ("," + (Decimal(n) + "}"))), m, Some(n), f);
  }

  // ----- Alternatives and groups

  lemma {:induction false} AppendNothing(a: Regex)
    requires IsChain(a)
    ensures Append(a, Empty) == a
    decreases a
  {
    if a.Cat? { AppendNothing(a.second); }
  }

  lemma AlternativeParses(u: string, v: string)
    requires IsBranch(u) && IsBranch(v)
    ensures IsExpression(u + ("|" + v)) && Expression(u + ("|" + v)) == Alt(Branch(u), Branch(v))
  {
    BranchIsNoAlternative(v);
    BranchIsChain(u);
    AppendNothing(Branch(u));
    var t := "|" + v;
    assert ParseBranch(t) == Some((Empty, t));
    hide ParseBranch;
    BranchThen(u, t);
    assert t[1..] == v;
  }

  /** `u|v` between operator-free texts matches exactly the two. */
  lemma AlternativeLanguage(u: string, v: string, f: Fit)
    requires IsPlain(u) && IsPlain(v)
    ensures IsExpression(u + ("|" + v))
    ensures Matches(Expression(u + ("|" + v)), f) <==> f == Fit(u, []) || f == Fit(v, [])
  {
    hide Matches, IsPlain;
    PlainTextStandsForItself(u, f);
    PlainTextStandsForItself(v, f);
    PlainTextStandsForItself(u, Fit(u, []));
    PlainTextStandsForItself(v, Fit(v, []));
    AlternativeParses(u, v);
    var a, b := Branch(u), Branch(v);
    hide Branch, IsBranch, IsExpression, Expression;
    if Matches(Alt(a, b), f) {
      var left, g := AltSplits(a, b, f);
      assert g.groups + Nothing(0) == g.groups == Nothing(0) + g.groups;
      PlainTextStandsForItself(u, g);
      PlainTextStandsForItself(v, g);
    }
    AltJoinsLeft(a, b, Fit(u, []));
    AltJoinsRight(a, b, Fit(v, []));
    ThenNothing(Fit(u, []));
    ThenNothing(Fit(v, []));
  }

  lemma ThenNothing(f: Fit)
    ensures Then(f, Fit("", Nothing(0))) == f == Then(Fit("", Nothing(0)), f)
  {
    assert f.groups + Nothing(0) == f.groups == Nothing(0) + f.groups;
  }

  /** A group entered again and again holds its last text: here the last character. */
  lemma {:induction false} LastRoundIsHeld(n: string, cs: CharSet, min: nat, max: Option<nat>, f: Fit)
    requires Matches(Repeat(Named(n, Chars(cs)), min, max), f)
    ensures f.groups == [if f.text == "" then None else Some([f.text[|f.text| - 1]])]
    decreases |f.text|, min
  {
    hide Matches, InSet;
    var r := Repeat(Named(n, Chars(cs)), min, max);
    var none, g, h := RepeatSplits(r, f);
    assert Names(Named(n, Chars(cs))) == [n] + [] && Names(r) == Names(Named(n, Chars(cs)));
    if !none {
      var g' := NamedSplits(n, Chars(cs), g);
      CharMatches(cs, g');
      assert g.text == [g.text[0]];
      LastRoundIsHeld(n, cs, Again(r).min, Again(r).max, h);
    }
  }

  // ----- Which texts are free of operators

  /** Letters, digits, and the marks '/', '-', '_', '~', '%', '=', '&', ',', ':', ';', '@', '!' and space. */
  lemma PathTextIsPlain(s: string)
    requires forall i :: 0 <= i < |s| ==> IsWordChar(s[i]) || s[i] in "/-~%=&,:;@! "
    ensures IsPlain(s)
  {
  }
}
