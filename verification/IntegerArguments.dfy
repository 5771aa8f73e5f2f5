/** Which integer the text of a parameter hands to its handler. */
module IntegerArguments {
  import opened Wrappers
  import opened Regex
  import opened RoutePatterns
  import opened RouteChunks
  import opened RouteNumbers
  import opened RouteArguments

  lemma DigitValues()
    ensures DigitsValue("") == 0
    ensures DigitsValue("0") == 0 && DigitsValue("1") == 1 && DigitsValue("2") == 2 && DigitsValue("3") == 3
    ensures DigitsValue("4") == 4 && DigitsValue("5") == 5 && DigitsValue("6") == 6 && DigitsValue("7") == 7
    ensures DigitsValue("8") == 8 && DigitsValue("9") == 9
  {
    assert forall c :: '0' <= c <= '9' ==> [c][..0] == "";
  }

  function Pow10(n: nat): nat { if n == 0 then 1 else 10 * Pow10(n - 1) }

  predicate AreDigits(s: string) { forall i :: 0 <= i < |s| ==> '0' <= s[i] <= '9' }

  lemma LastDigit(s: string)
    requires s != "" && AreDigits(s)
    ensures DigitsValue(s) == 10 * DigitsValue(s[..|s| - 1]) + (s[|s| - 1] as int - 48)
  {
  }

  lemma LastDigitBehind(a: string, b: string)
    requires b != "" && AreDigits(a) && AreDigits(b)
    ensures AreDigits(a + b) && AreDigits(b[..|b| - 1]) && AreDigits(a + b[..|b| - 1])
    ensures DigitsValue(a + b) == 10 * DigitsValue(a + b[..|b| - 1]) + (b[|b| - 1] as int - 48)
  {
    assert (a + b)[..|a + b| - 1] == a + b[..|b| - 1] && (a + b)[|a + b| - 1] == b[|b| - 1];
    LastDigit(a + b);
    hide DigitsValue;
  }

  /** Digits in front count for as many powers of ten as there are digits behind. */
  lemma {:induction false} DigitsAppend(a: string, b: string)
    requires AreDigits(a) && AreDigits(b)
    ensures AreDigits(a + b) && DigitsValue(a + b) == DigitsValue(a) * Pow10(|b|) + DigitsValue(b)
    decreases |b|
  {
    if b == "" {
      assert a + b == a;
    } else {
      var n := |b| - 1;
      LastDigitBehind(a, b);
      LastDigit(b);
      assert Pow10(|b|) == 10 * Pow10(n);
      hide DigitsValue, Pow10;
      DigitsAppend(a, b[..n]);
      NextDigit(DigitsValue(a), Pow10(n), DigitsValue(b[..n]), b[n] as int - 48);
    }
  }

  lemma NextDigit(x: int, p: int, y: int, d: int)
    ensures 10 * (x * p + y) + d == x * (10 * p) + (10 * y + d)
  {
  }

  lemma SignedValue(d: string)
    requires IsDigits(d)
    ensures IsInteger(d) && IntegerValue(d) == DigitsValue(d)
    ensures IsInteger("+" + d) && IntegerValue("+" + d) == DigitsValue(d)
    ensures IsInteger("-" + d) && IntegerValue("-" + d) == 0 - DigitsValue(d)
  {
    assert ("+" + d)[1..] == d && ("-" + d)[1..] == d;
    assert Unsigned("+" + d) == d && Unsigned("-" + d) == d && Unsigned(d) == d;
  }

  /** The decimal text of a number has that value. */
  lemma {:induction false} DecimalValue(n: nat)
    ensures DigitsValue(Decimal(n)) == n
  {
    if n >= 10 {
      DecimalValue(n / 10);
      var s := Decimal(n);
      assert s[..|s| - 1] == Decimal(n / 10);
    } else {
      assert Decimal(n)[..0] == "";
    }
  }

  /** What group `__k` holds is handed over as this integer. */
  ghost predicate HandsOver(w: string, i: int) {
    forall k: nat, names: seq<string>, groups: Groups {:trigger GetHandlerArg(Int64, k, names, groups)} ::
      |names| == |groups| && Lookup(names, groups, GroupName(k)) == Some(w) ==>
        GetHandlerArg(Int64, k, names, groups) == IntArg(i) &&
        GetHandlerArg(OptionalInt64, k, names, groups) == OptionalIntArg(Some(i))
  }

  lemma HandsOverIs(w: string, i: int)
    requires IntOrMax(w) == i
    ensures HandsOver(w, i)
  {
    hide Lookup, GroupName, IntOrMax;
  }

  /** The number itself, or the largest 64-bit integer when it is out of range. */
  function Clamped(n: int): int {
    if -9223372036854775808 <= n <= 9223372036854775807 then n else 9223372036854775807
  }

  /** Digits, with or without a sign, are handed over as the number they denote. */
  lemma DigitsAreHandedOver(d: string)
    requires IsDigits(d)
    ensures HandsOver(d, Clamped(DigitsValue(d))) && HandsOver("+" + d, Clamped(DigitsValue(d)))
    ensures HandsOver("-" + d, Clamped(0 - DigitsValue(d)))
  {
    SignedValue(d);
    hide HandsOver, DigitsValue, IntegerValue, IsInteger, IsDigits;
    HandsOverIs(d, Clamped(DigitsValue(d)));
    HandsOverIs("+" + d, Clamped(DigitsValue(d)));
    HandsOverIs("-" + d, Clamped(0 - DigitsValue(d)));
  }

  /** Every number written in decimal. */
  lemma NumberIsHandedOver(n: nat)
    ensures HandsOver(Decimal(n), Clamped(n)) && HandsOver("+" + Decimal(n), Clamped(n))
    ensures HandsOver("-" + Decimal(n), Clamped(0 - n))
  {
    DecimalValue(n);
    hide HandsOver, DigitsValue;
    DigitsAreHandedOver(Decimal(n));
  }

  lemma FiveDigits(s: string)
    requires |s| == 5 && AreDigits(s)
    ensures DigitsValue(s) ==
              10000 * (s[0] as int - 48) + 1000 * (s[1] as int - 48) + 100 * (s[2] as int - 48) +
              10 * (s[3] as int - 48) + (s[4] as int - 48)
  {
    DigitValues();
    assert s[..4][..3] == s[..3] && s[..3][..2] == s[..2] && s[..2][..1] == s[..1] && s[..1][..0] == "";
    LastDigit(s);
    LastDigit(s[..4]);
    LastDigit(s[..3]);
    LastDigit(s[..2]);
    LastDigit(s[..1]);
    hide DigitsValue;
  }

  // The digits of the largest 64-bit integer but for the last four.
  const FRONT := ["92233", "72036", "85477"]

  lemma FrontValue()
    ensures AreDigits(FRONT[0]) && AreDigits(FRONT[1]) && AreDigits(FRONT[2])
    ensures AreDigits(FRONT[0] + FRONT[1] + FRONT[2])
    ensures DigitsValue(FRONT[0] + FRONT[1] + FRONT[2]) == 922337203685477
  {
    assert AreDigits(FRONT[0]) && AreDigits(FRONT[1]) && AreDigits(FRONT[2]);
    FiveDigits(FRONT[0]);
    FiveDigits(FRONT[1]);
    FiveDigits(FRONT[2]);
    Powers();
    hide DigitsValue, Pow10;
    DigitsAppend(FRONT[0], FRONT[1]);
    DigitsAppend(FRONT[0] + FRONT[1], FRONT[2]);
  }

  /** Nineteen digits that start like the largest 64-bit integer. */
  lemma LimitValue(last: string)
    requires |last| == 4 && AreDigits(last)
    ensures IsDigits(FRONT[0] + FRONT[1] + FRONT[2] + last)
    ensures DigitsValue(FRONT[0] + FRONT[1] + FRONT[2] + last) == 9223372036854770000 + DigitsValue(last)
  {
    FrontValue();
    Powers();
    hide DigitsValue, Pow10;
    DigitsAppend(FRONT[0] + FRONT[1] + FRONT[2], last);
  }

  lemma Powers()
    ensures Pow10(1) == 10 && Pow10(4) == 10000 && Pow10(5) == 100000
  {
    assert Pow10(2) == 100 && Pow10(3) == 1000;
  }

  lemma FourDigits(s: string)
    requires |s| == 4 && AreDigits(s)
    ensures DigitsValue(s) ==
              1000 * (s[0] as int - 48) + 100 * (s[1] as int - 48) + 10 * (s[2] as int - 48) + (s[3] as int - 48)
  {
    DigitValues();
    assert s[..3][..2] == s[..2] && s[..2][..1] == s[..1] && s[..1][..0] == "";
    LastDigit(s);
    LastDigit(s[..3]);
    LastDigit(s[..2]);
    LastDigit(s[..1]);
    hide DigitsValue;
  }

  lemma LastFour()
    ensures AreDigits("5807") && AreDigits("5808") && AreDigits("5809")
    ensures DigitsValue("5807") == 5807 && DigitsValue("5808") == 5808 && DigitsValue("5809") == 5809
  {
    hide DigitsValue;
    assert AreDigits("5807") && AreDigits("5808") && AreDigits("5809");
    FourDigits("5807");
    FourDigits("5808");
    FourDigits("5809");
  }

  lemma LimitTexts()
    ensures FRONT[0] + FRONT[1] + FRONT[2] + "5807" == "9223372036854775807"
    ensures FRONT[0] + FRONT[1] + FRONT[2] + "5808" == "9223372036854775808"
    ensures FRONT[0] + FRONT[1] + FRONT[2] + "5809" == "9223372036854775809"
  {
  }

  lemma NegativeTexts()
    ensures "-" + "9223372036854775808" == "-9223372036854775808"
    ensures "-" + "9223372036854775809" == "-9223372036854775809"
  {
  }

  /** The largest and the smallest 64-bit integer come through as themselves, the next ones beyond as the largest. */
  lemma LimitsAreHandedOver()
    ensures HandsOver("9223372036854775807", 9223372036854775807)
    ensures HandsOver("-9223372036854775808", -9223372036854775808)
    ensures HandsOver("9223372036854775808", 9223372036854775807)
    ensures HandsOver("-9223372036854775809", 9223372036854775807)
  {
    LastFour();
    LimitTexts();
    NegativeTexts();
    hide DigitsValue, HandsOver, IsDigits, AreDigits;
    LimitIsHandedOver("5807");
    LimitIsHandedOver("5808");
    LimitIsHandedOver("5809");
  }

  lemma LimitIsHandedOver(last: string)
    requires |last| == 4 && AreDigits(last)
    ensures var d, n := FRONT[0] + FRONT[1] + FRONT[2] + last, 9223372036854770000 + DigitsValue(last);
      HandsOver(d, Clamped(n)) && HandsOver("-" + d, Clamped(0 - n))
  {
    hide DigitsValue, HandsOver, IsDigits, AreDigits;
    LimitValue(last);
    DigitsAreHandedOver(FRONT[0] + FRONT[1] + FRONT[2] + last);
  }

  /** Where no group took part the integer is the largest one, or missing if it is optional. */
  lemma MissingIsHandedOver(k: nat, names: seq<string>, groups: Groups)
    requires |names| == |groups| && Lookup(names, groups, GroupName(k)) == None
    ensures GetHandlerArg(Int64, k, names, groups) == IntArg(9223372036854775807)
    ensures GetHandlerArg(OptionalInt64, k, names, groups) == OptionalIntArg(None)
  {
    hide GroupName, Lookup;
    assert ToInt64("") == None;
  }
}
