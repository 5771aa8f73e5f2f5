/** What each literal text in a pattern stands for. */
module RouteTexts {
  import opened RoutePatterns
  import opened RouteChunks

  /** A parameter behind a literal without '{': the scan reads it and goes on behind it. */
  lemma ReadsParameter(lit: string, t: Token, s: string)
    requires '{' !in lit && Unambiguous(t)
    ensures Scan(lit + Source(t) + s) == Param(lit, t, Scan(s))
  {
    hide IsScan, Scan, Source, Unambiguous;
    ScanDivides(s);
    ScanParam(lit, t, Scan(s));
    var p := Param(lit, t, Scan(s));
    assert Unscan(p) == lit + Source(t) + s;
    ScanUnique(p);
  }

  lemma NumberTexts()
    ensures Source(Token(Int64, "", "")) == "{{i}}" && Source(Token(Double, "", "")) == "{{d}}"
    ensures Source(Token(OptionalInt64, "", "")) == "{{i?}}" && Source(Token(OptionalDouble, "", "")) == "{{d?}}"
  {
    assert Body(Token(OptionalInt64, "", "")) == "}}" && Body(Token(OptionalDouble, "", "")) == "}}";
  }

  lemma OptionalNumberTexts(c: string)
    requires c != ""
    ensures Source(Token(OptionalInt64, "", c)) == "{{i?:" + c + "}}"
    ensures Source(Token(OptionalDouble, "", c)) == "{{d?:" + c + "}}"
  {
    var body := ":" + c + "}}";
    assert "" + (":" + c) + "}}" == body;
    assert Body(Token(OptionalInt64, "", c)) == body && Body(Token(OptionalDouble, "", c)) == body;
    hide Body;
    assert "{{i?" + body == "{{i?:" + c + "}}" && "{{d?" + body == "{{d?:" + c + "}}";
  }

  lemma StringTexts(v: string, c: string)
    requires v != ""
    ensures Source(Token(String, v, "")) == "{{s:" + v + "}}"
    ensures Source(Token(OptionalString, v, "")) == "{{s?:" + v + "}}"
    ensures c != "" ==> Source(Token(OptionalString, v, c)) == "{{s?:" + v + ":" + c + "}}"
  {
    assert Body(Token(String, v, "")) == v + "}}" && Body(Token(OptionalString, v, "")) == v + "}}";
    assert "{{s:" + (v + "}}") == "{{s:" + v + "}}" && "{{s?:" + (v + "}}") == "{{s?:" + v + "}}";
    if c != "" {
      assert Body(Token(OptionalString, v, c)) == v + (":" + c) + "}}";
      assert "{{s?:" + (v + (":" + c) + "}}") == "{{s?:" + v + ":" + c + "}}";
    }
  }

  /** `{{i}}` and `{{d}}`, wherever they stand and whatever follows. */
  lemma ReadsNumbers(lit: string, s: string)
    requires '{' !in lit
    ensures Scan(lit + "{{i}}" + s) == Param(lit, Token(Int64, "", ""), Scan(s))
    ensures Scan(lit + "{{d}}" + s) == Param(lit, Token(Double, "", ""), Scan(s))
    ensures Scan(lit + "{{i?}}" + s) == Param(lit, Token(OptionalInt64, "", ""), Scan(s))
    ensures Scan(lit + "{{d?}}" + s) == Param(lit, Token(OptionalDouble, "", ""), Scan(s))
  {
    NumberTexts();
    ReadsParameter(lit, Token(Int64, "", ""), s);
    ReadsParameter(lit, Token(Double, "", ""), s);
    ReadsParameter(lit, Token(OptionalInt64, "", ""), s);
    ReadsParameter(lit, Token(OptionalDouble, "", ""), s);
  }

  /** `{{i?:c}}` and `{{d?:c}}`, for a c in which no '}' stands behind the first character. */
  lemma ReadsOptionalNumbers(lit: string, c: string, s: string)
    requires '{' !in lit && c != "" && forall i :: 1 <= i < |c| ==> c[i] != '}'
    ensures Scan(lit + ("{{i?:" + c + "}}") + s) == Param(lit, Token(OptionalInt64, "", c), Scan(s))
    ensures Scan(lit + ("{{d?:" + c + "}}") + s) == Param(lit, Token(OptionalDouble, "", c), Scan(s))
  {
    OptionalNumberTexts(c);
    ReadsParameter(lit, Token(OptionalInt64, "", c), s);
    ReadsParameter(lit, Token(OptionalDouble, "", c), s);
  }

  /** `{{s:v}}`, for such a v. */
  lemma ReadsString(lit: string, v: string, s: string)
    requires '{' !in lit && v != "" && forall i :: 1 <= i < |v| ==> v[i] != '}'
    ensures Scan(lit + ("{{s:" + v + "}}") + s) == Param(lit, Token(String, v, ""), Scan(s))
  {
    StringTexts(v, "");
    ReadsParameter(lit, Token(String, v, ""), s);
  }

  /** `{{s?:v}}` and `{{s?:v:c}}`, for such a v and c and no ':' behind the first character of v. */
  lemma ReadsOptionalString(lit: string, v: string, c: string, s: string)
    requires '{' !in lit && v != "" && forall i :: 1 <= i < |v| ==> v[i] != '}' && v[i] != ':'
    requires c != "" && forall i :: 1 <= i < |c| ==> c[i] != '}'
    ensures Scan(lit + ("{{s?:" + v + "}}") + s) == Param(lit, Token(OptionalString, v, ""), Scan(s))
    ensures Scan(lit + ("{{s?:" + v + ":" + c + "}}") + s) == Param(lit, Token(OptionalString, v, c), Scan(s))
  {
    StringTexts(v, c);
    ReadsParameter(lit, Token(OptionalString, v, ""), s);
    ReadsParameter(lit, Token(OptionalString, v, c), s);
  }

  /** A text without '{' is all literal. */
  lemma ReadsLiteral(lit: string)
    requires '{' !in lit
    ensures Scan(lit) == Tail(lit)
  {
    ScanTail(lit);
    ScanUnique(Tail(lit));
  }
}
