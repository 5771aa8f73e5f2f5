/** Printing a byte string as a C string literal, and reading such a literal back. */
module LiteralPrinter {

  import opened Wrappers

  datatype CharFormat = AsIs | HexEscape | SpecialEscape

  // ----- The printer

  /** A byte in uppercase hexadecimal without padding. */
  function FormatHexInt(b: byte): string {
    if b < 16 then [HexDigit(b as int)] else [HexDigit(b as int / 16), HexDigit(b as int % 16)]
  }

  predicate IsPrintableAscii(b: byte) { 0x20 <= b <= 0x7E }

  /** The letter of a simple escape sequence, if the byte has one in character literals. */
  function EscapeLetter(b: byte): Option<char> {
    if b == 0 then Some('0')
    else if b == 39 then Some('\'')
    else if b == 92 then Some('\\')
    else if b == 7 then Some('a')
    else if b == 8 then Some('b')
    else if b == 12 then Some('f')
    else if b == 10 then Some('n')
    else if b == 13 then Some('r')
    else if b == 9 then Some('t')
    else if b == 11 then Some('v')
    else None
  }

  function PrintAsCharLiteral(b: byte): (string, CharFormat) {
    match EscapeLetter(b)
    case Some(letter) => (['\\', letter], SpecialEscape)
    case None =>
      if IsPrintableAscii(b) then ([b as int as char], AsIs) else ("\\x" + FormatHexInt(b), HexEscape)
  }

  /** In a string literal the apostrophe is plain and the quotation mark is escaped. */
  function PrintAsStringLiteral(b: byte): (string, CharFormat) {
    if b == 39 then ("'", AsIs)
    else if b == 34 then (['\\', '"'], SpecialEscape)
    else PrintAsCharLiteral(b)
  }

  predicate IsXDigit(c: char) { '0' <= c <= '9' || 'a' <= c <= 'f' || 'A' <= c <= 'F' }

  predicate IsOctal(c: char) { '0' <= c <= '7' }

  function CharOf(b: byte): char { b as int as char }

  const SPLIT: string := ['"', ' ', '"']

  /** The text after the opening quote; `hex` says that the previous byte was printed as a hex escape. */
  function Body(s: seq<byte>, hex: bool): string {
    if s == [] then ['"']
    else
      var (text, format) := PrintAsStringLiteral(s[0]);
      (if hex && IsXDigit(CharOf(s[0])) then SPLIT else "") + text + Body(s[1..], format.HexEscape?)
  }

  /** What is printed for the byte at an index, with the split in front when it is needed. */
  function Printed(b: byte, hex: bool): string {
    (if hex && IsXDigit(CharOf(b)) then SPLIT else "") + PrintAsStringLiteral(b).0
  }

  lemma BodyStep(s: seq<byte>, index: nat, hex: bool)
    requires index < |s|
    ensures Body(s[index..], hex) ==
              Printed(s[index], hex) + Body(s[index + 1..], PrintAsStringLiteral(s[index]).1.HexEscape?)
  {
    hide PrintAsStringLiteral;
    assert s[index..][1..] == s[index + 1..];
  }

  method PrintCharsAsString(s: seq<byte>) returns (os: string)
    ensures os == ['"'] + Body(s, false)
  {
    hide PrintAsStringLiteral, Body;
    os := ['"'];
    var isPreviousHex := false;
    assert s[0..] == s;
    for index := 0 to |s|
      invariant os + Body(s[index..], isPreviousHex) == ['"'] + Body(s, false)
    {
      BodyStep(s, index, isPreviousHex);
      ghost var before, rest := os, Body(s[index + 1..], PrintAsStringLiteral(s[index]).1.HexEscape?);
      assert before + (Printed(s[index], isPreviousHex) + rest) == (before + Printed(s[index], isPreviousHex)) + rest;
      var cur := s[index];
      if isPreviousHex && IsXDigit(CharOf(cur)) {
        os := os + SPLIT;
      }
      var (text, format) := PrintAsStringLiteral(cur);
      os := os + text;
      assert os == before + Printed(cur, isPreviousHex);
      isPreviousHex := format.HexEscape?;
    }
    BodyEnd(s[|s|..], isPreviousHex);
    os := os + ['"'];
  }

  lemma BodyEnd(s: seq<byte>, hex: bool)
    requires s == []
    ensures Body(s, hex) == ['"']
  {
  }

  // ----- Reading adjacent string literals by the rules of the language

  function HexValueOf(c: char): (v: nat)
    requires IsXDigit(c)
    ensures v < 16
  {
    if c <= '9' then c as int - '0' as int
    else if c <= 'F' then c as int - 'A' as int + 10
    else c as int - 'a' as int + 10
  }

  /** How many leading characters are hexadecimal digits: an escape takes all of them. */
  function HexRun(t: string): (n: nat)
    ensures n <= |t|
    ensures forall i :: 0 <= i < n ==> IsXDigit(t[i])
    ensures n < |t| ==> !IsXDigit(t[n])
  {
    if t == "" || !IsXDigit(t[0]) then 0 else 1 + HexRun(t[1..])
  }

  function HexValue(t: string): nat
    requires forall i :: 0 <= i < |t| ==> IsXDigit(t[i])
  {
    if t == "" then 0 else 16 * HexValue(t[..|t| - 1]) + HexValueOf(t[|t| - 1])
  }

  /** An octal escape takes at most three digits. */
  function OctalRun(t: string): (n: nat)
    ensures n <= |t| && n <= 3
    ensures forall i :: 0 <= i < n ==> IsOctal(t[i])
  {
    if |t| > 0 && IsOctal(t[0]) then
      if |t| > 1 && IsOctal(t[1]) then
        if |t| > 2 && IsOctal(t[2]) then 3 else 2
      else 1
    else 0
  }

  function OctalValue(t: string): nat
    requires forall i :: 0 <= i < |t| ==> IsOctal(t[i])
  {
    if t == "" then 0
    else
      assert IsOctal(t[|t| - 1]);
      8 * OctalValue(t[..|t| - 1]) + (t[|t| - 1] as int - '0' as int)
  }

  function LetterValue(c: char): Option<byte> {
    if c == '\'' then Some(39)
    else if c == '"' then Some(34)
    else if c == '?' then Some(63)
    else if c == '\\' then Some(92)
    else if c == 'a' then Some(7)
    else if c == 'b' then Some(8)
    else if c == 'f' then Some(12)
    else if c == 'n' then Some(10)
    else if c == 'r' then Some(13)
    else if c == 't' then Some(9)
    else if c == 'v' then Some(11)
    else None
  }

  /** The escape sequence after a backslash: its value and its length. */
  function ReadEscape(t: string): (r: Option<(byte, nat)>)
    ensures r.Some? ==> 0 < r.value.1 <= |t|
  {
    if t == "" then None
    else if LetterValue(t[0]).Some? then Some((LetterValue(t[0]).value, 1))
    else if t[0] == 'x' then
      var n := HexRun(t[1..]);
      if n == 0 || HexValue(t[1..][..n]) >= 256 then None else Some((HexValue(t[1..][..n]) as byte, 1 + n))
    else if IsOctal(t[0]) then
      var n := OctalRun(t);
      if OctalValue(t[..n]) >= 256 then None else Some((OctalValue(t[..n]) as byte, n))
    else None
  }

  function Cons(b: byte, r: Option<seq<byte>>): Option<seq<byte>> {
    if r.None? then None else Some([b] + r.value)
  }

  /** Inside a literal: up to its closing quote, and on into the next. */
  function ReadInside(t: string): Option<seq<byte>>
    decreases |t|, 0
  {
    if t == "" then None
    else if t[0] == '"' then ReadBetween(t[1..])
    else if t[0] == '\\' then
      match ReadEscape(t[1..])
      case None => None
      case Some((b, n)) => Cons(b, ReadInside(t[1 + n..]))
    else if t[0] == '\n' || t[0] as int >= 256 then None
    else Cons(t[0] as int as byte, ReadInside(t[1..]))
  }

  /** Between literals: blanks, then the end or another literal, which is joined on. */
  function ReadBetween(t: string): Option<seq<byte>>
    decreases |t|, 1
  {
    if t == "" then Some([])
    else if t[0] == ' ' then ReadBetween(t[1..])
    else if t[0] == '"' then ReadInside(t[1..])
    else None
  }

  function ReadLiterals(t: string): Option<seq<byte>> {
    if t == "" then None else ReadBetween(t)
  }

  // ----- One printed byte, read back

  /** The byte is NUL and the text behind it starts with an octal digit, which the escape would take in. */
  predicate Absorbs(b: byte, rest: string) {
    b == 0 && rest != "" && IsOctal(rest[0])
  }

  /** The two characters of a simple escape, and what is read behind its backslash. */
  lemma SimpleEscape(b: byte, rest: string)
    requires b == 34 || (b != 39 && EscapeLetter(b).Some?)
    requires !Absorbs(b, rest)
    ensures var text := PrintAsStringLiteral(b).0;
      |text| == 2 && text[0] == '\\' && ReadEscape([text[1]] + rest) == Some((b, 1))
  {
    var letter := PrintAsStringLiteral(b).0[1];
    var t := [letter] + rest;
    if b == 0 {
      assert OctalRun(t) == 1 && t[..1] == ['0'] && ['0'][..0] == [];
      assert OctalValue(['0']) == 0;
    } else {
      assert LetterValue(letter) == Some(b);
    }
  }

  lemma ReadEscapedByte(b: byte, rest: string)
    requires b == 34 || (b != 39 && EscapeLetter(b).Some?)
    requires !Absorbs(b, rest)
    ensures ReadInside(PrintAsStringLiteral(b).0 + rest) == Cons(b, ReadInside(rest))
  {
    hide ReadInside, ReadEscape, PrintAsStringLiteral, Cons, Absorbs, EscapeLetter;
    SimpleEscape(b, rest);
    var text := PrintAsStringLiteral(b).0;
    ReadBackslash([text[1]] + rest, b, 1);
    assert text + rest == ['\\'] + ([text[1]] + rest);
    assert ([text[1]] + rest)[1..] == rest;
  }

  lemma ReadPlainByte(b: byte, rest: string)
    requires b == 39 || (b != 34 && EscapeLetter(b).None? && IsPrintableAscii(b))
    ensures ReadInside(PrintAsStringLiteral(b).0 + rest) == Cons(b, ReadInside(rest))
  {
    var t := PrintAsStringLiteral(b).0 + rest;
    assert t[0] == CharOf(b) && t[1..] == rest;
  }

  lemma HexDigitValue(d: int)
    requires 0 <= d < 16
    ensures IsXDigit(HexDigit(d)) && HexValueOf(HexDigit(d)) == d
  {
  }

  lemma FormattedValue(b: byte)
    ensures 1 <= |FormatHexInt(b)| <= 2
    ensures forall i :: 0 <= i < |FormatHexInt(b)| ==> IsXDigit(FormatHexInt(b)[i])
    ensures HexValue(FormatHexInt(b)) == b as int
  {
    var n := b as int;
    HexDigitValue(n % 16);
    if n >= 16 {
      HexDigitValue(n / 16);
      var h := FormatHexInt(b);
      assert h[..1] == [HexDigit(n / 16)] && h[..1][..0] == "";
      assert HexValue(h[..1]) == n / 16;
    } else {
      assert FormatHexInt(b)[..0] == "";
    }
  }

  /** A run of hex digits in front of something that is not one. */
  lemma {:induction false} HexRunIs(h: string, rest: string)
    requires forall i :: 0 <= i < |h| ==> IsXDigit(h[i])
    ensures HexRun(h + rest) >= |h|
    ensures (rest == "" || !IsXDigit(rest[0])) <==> HexRun(h + rest) == |h|
  {
    if h == "" {
      assert h + rest == rest;
    } else {
      assert (h + rest)[1..] == h[1..] + rest;
      HexRunIs(h[1..], rest);
    }
  }

  lemma EscapeAfterX(t: string)
    ensures ReadEscape(['x'] + t) ==
              if HexRun(t) == 0 || HexValue(t[..HexRun(t)]) >= 256 then None
              else Some((HexValue(t[..HexRun(t)]) as byte, 1 + HexRun(t)))
  {
    hide HexRun, HexValue;
    assert (['x'] + t)[1..] == t;
  }

  lemma ReadHexEscape(h: string, rest: string, b: byte)
    requires h != "" && (forall i :: 0 <= i < |h| ==> IsXDigit(h[i])) && HexValue(h) == b as int
    requires rest == "" || !IsXDigit(rest[0])
    ensures ReadEscape(['x'] + (h + rest)) == Some((b, 1 + |h|))
  {
    hide HexRun, HexValue, ReadEscape;
    EscapeAfterX(h + rest);
    HexRunIs(h, rest);
    assert (h + rest)[..|h|] == h;
  }

  lemma ReadBackslash(u: string, b: byte, n: nat)
    requires ReadEscape(u) == Some((b, n))
    ensures ReadInside(['\\'] + u) == Cons(b, ReadInside(u[n..]))
  {
    hide ReadEscape;
    var t := ['\\'] + u;
    assert t[1..] == u && t[1 + n..] == u[n..];
  }

  lemma HexText(b: byte)
    requires PrintAsStringLiteral(b).1.HexEscape?
    ensures PrintAsStringLiteral(b).0 == "\\x" + FormatHexInt(b)
  {
  }

  lemma ReadHexByte(b: byte, rest: string)
    requires PrintAsStringLiteral(b).1.HexEscape? && (rest == "" || !IsXDigit(rest[0]))
    ensures ReadInside(PrintAsStringLiteral(b).0 + rest) == Cons(b, ReadInside(rest))
  {
    hide FormatHexInt, HexRun, HexValue, ReadEscape, ReadInside, PrintAsStringLiteral, Cons;
    HexText(b);
    FormattedValue(b);
    ReadHexEscape(FormatHexInt(b), rest, b);
    EscapeSplits(FormatHexInt(b), rest);
    ReadBackslash(['x'] + (FormatHexInt(b) + rest), b, 1 + |FormatHexInt(b)|);
  }

  lemma EscapeSplits(h: string, rest: string)
    ensures "\\x" + h + rest == ['\\'] + (['x'] + (h + rest))
    ensures (['x'] + (h + rest))[1 + |h|..] == rest
  {
  }

  /** Any printed byte is read back as itself unless what follows is absorbed by its escape. */
  lemma ReadByte(b: byte, rest: string)
    requires !Absorbs(b, rest)
    requires PrintAsStringLiteral(b).1.HexEscape? ==> rest == "" || !IsXDigit(rest[0])
    ensures ReadInside(PrintAsStringLiteral(b).0 + rest) == Cons(b, ReadInside(rest))
  {
    hide ReadInside, Cons;
    if PrintAsStringLiteral(b).1.HexEscape? {
      ReadHexByte(b, rest);
    } else if b == 34 || (b != 39 && EscapeLetter(b).Some?) {
      ReadEscapedByte(b, rest);
    } else {
      ReadPlainByte(b, rest);
    }
  }

  lemma ReadSplit(t: string)
    ensures ReadInside(SPLIT + t) == ReadInside(t)
  {
    var u := SPLIT + t;
    assert u[1..][0] == ' ' && u[1..][1..][0] == '"' && u[1..][1..][1..] == t;
    assert ReadBetween(u[1..][1..]) == ReadInside(t);
  }

  // ----- A string printed with breaks at chosen places

  predicate IsHexEscaped(b: byte) { PrintAsStringLiteral(b).1.HexEscape? }

  /** The text from index k on, when the literal is split in front of every index in `breaks`. */
  function Broken(s: seq<byte>, k: nat, breaks: set<nat>): string
    requires k <= |s|
    decreases |s| - k
  {
    if k == |s| then ['"']
    else (if k in breaks then SPLIT else "") + (PrintAsStringLiteral(s[k]).0 + Broken(s, k + 1, breaks))
  }

  /** The hex escape in front of index k would take in what stands there. */
  predicate HexAbsorbs(s: seq<byte>, k: nat) {
    0 < k < |s| && IsHexEscaped(s[k - 1]) && IsXDigit(CharOf(s[k]))
  }

  /** The `\0` in front of index k would. */
  predicate NulAbsorbs(s: seq<byte>, k: nat) {
    0 < k < |s| && s[k - 1] == 0 && IsOctal(CharOf(s[k]))
  }

  /** There is a break wherever a hex escape would absorb. */
  predicate HexSeparated(s: seq<byte>, from: nat, breaks: set<nat>) {
    forall k :: from < k < |s| && HexAbsorbs(s, k) ==> k in breaks
  }

  /** There is a break wherever either escape would. */
  predicate Separated(s: seq<byte>, from: nat, breaks: set<nat>) {
    forall k :: from < k < |s| && (HexAbsorbs(s, k) || NulAbsorbs(s, k)) ==> k in breaks
  }

  lemma PrintedStarts(b: byte)
    ensures PrintAsStringLiteral(b).0 != ""
    ensures IsXDigit(PrintAsStringLiteral(b).0[0]) <==> IsXDigit(CharOf(b))
    ensures IsOctal(PrintAsStringLiteral(b).0[0]) <==> IsOctal(CharOf(b))
  {
  }

  lemma BrokenStarts(s: seq<byte>, k: nat, breaks: set<nat>)
    requires k <= |s|
    ensures Broken(s, k, breaks) != ""
    ensures k == |s| || k in breaks ==> Broken(s, k, breaks)[0] == '"'
    ensures k < |s| && k !in breaks ==>
              && (IsXDigit(Broken(s, k, breaks)[0]) <==> IsXDigit(CharOf(s[k])))
              && (IsOctal(Broken(s, k, breaks)[0]) <==> IsOctal(CharOf(s[k])))
  {
    if k < |s| { PrintedStarts(s[k]); }
    hide PrintAsStringLiteral;
  }

  /** A break in front changes nothing for the reader. */
  lemma ReadUnbroken(s: seq<byte>, k: nat, breaks: set<nat>)
    requires k < |s|
    ensures ReadInside(Broken(s, k, breaks)) == ReadInside(PrintAsStringLiteral(s[k]).0 + Broken(s, k + 1, breaks))
  {
    hide PrintAsStringLiteral, ReadInside;
    var t := PrintAsStringLiteral(s[k]).0 + Broken(s, k + 1, breaks);
    ReadSplit(t);
    assert "" + t == t;
  }

  lemma EndOnly()
    ensures ReadInside(['"']) == Some([])
  {
    assert ['"'][1..] == "";
  }

  lemma NulIsNoHex(b: byte)
    ensures b == 0 ==> !IsHexEscaped(b) && PrintAsStringLiteral(b).0 == ['\\', '0']
  {
  }

  /** A hexadecimal or octal digit is printed as itself. */
  lemma DigitIsPlain(b: byte)
    ensures IsXDigit(CharOf(b)) || IsOctal(CharOf(b)) ==> PrintAsStringLiteral(b) == ([CharOf(b)], AsIs)
  {
  }

  /** A byte that absorbs nothing is read back as itself. */
  lemma ReadSafe(s: seq<byte>, k: nat, breaks: set<nat>)
    requires k < |s| && (HexAbsorbs(s, k + 1) || NulAbsorbs(s, k + 1) ==> k + 1 in breaks)
    ensures ReadInside(Broken(s, k, breaks)) == Cons(s[k], ReadInside(Broken(s, k + 1, breaks)))
  {
    hide ReadInside, PrintAsStringLiteral, Cons, Broken;
    ReadUnbroken(s, k, breaks);
    BrokenStarts(s, k + 1, breaks);
    ReadByte(s[k], Broken(s, k + 1, breaks));
  }

  // ----- What an escape absorbs

  /** A NUL followed by octal digits is read as one byte together with one or two of them. */
  lemma ReadAbsorbedByNul(s: seq<byte>, k: nat, breaks: set<nat>) returns (b: byte, n: nat)
    requires NulAbsorbs(s, k + 1) && k + 1 !in breaks
    ensures k + 2 <= n <= |s| && ReadInside(Broken(s, k, breaks)) == Cons(b, ReadInside(Broken(s, n, breaks)))
  {
    hide ReadInside, PrintAsStringLiteral, Cons, ReadEscape, Broken;
    ReadUnbroken(s, k, breaks);
    NulIsNoHex(s[k]);
    DigitThen(s, k + 1, breaks);
    BrokenStarts(s, k + 2, breaks);
    var digits, rest := ['0', CharOf(s[k + 1])], Broken(s, k + 2, breaks);
    n := k + 2;
    NulThen(CharOf(s[k + 1]), rest);
    if k + 2 < |s| && k + 2 !in breaks && IsOctal(CharOf(s[k + 2])) {
      DigitThen(s, k + 2, breaks);
      NulThenTwo(CharOf(s[k + 1]), CharOf(s[k + 2]), Broken(s, k + 3, breaks));
      digits, rest, n := ['0', CharOf(s[k + 1]), CharOf(s[k + 2])], Broken(s, k + 3, breaks), k + 3;
    }
    b := ReadOctal(digits, rest);
    ReadBackslash(digits + rest, b, |digits|);
    assert (digits + rest)[|digits|..] == rest;
  }

  lemma NulThen(a: char, rest: string)
    ensures ['\\', '0'] + ([a] + rest) == ['\\'] + (['0', a] + rest)
  {
  }

  lemma NulThenTwo(a: char, b: char, rest: string)
    ensures ['0', a] + ([b] + rest) == ['0', a, b] + rest
  {
  }

  lemma ReadOctal(digits: string, rest: string) returns (b: byte)
    requires 2 <= |digits| <= 3 && digits[0] == '0' && forall i :: 0 <= i < |digits| ==> IsOctal(digits[i])
    requires |digits| == 3 || rest == "" || !IsOctal(rest[0])
    ensures ReadEscape(digits + rest) == Some((b, |digits|))
  {
    var u := digits + rest;
    assert OctalRun(u) == |digits| && u[..|digits|] == digits;
    OctalBound(digits);
    b := OctalValue(digits) as byte;
  }

  lemma OctalBound(digits: string)
    requires 2 <= |digits| <= 3 && digits[0] == '0' && forall i :: 0 <= i < |digits| ==> IsOctal(digits[i])
    ensures OctalValue(digits) < 64
  {
    assert digits[..1] == "0" && OctalValue("0") == 0;
    assert digits[..2][..1] == "0" && OctalValue(digits[..2]) < 8;
    if |digits| == 3 {
      assert digits[..|digits| - 1] == digits[..2];
    } else {
      assert digits[..2] == digits;
    }
  }

  /** Where a run of hexadecimal digits from index k ends: at a break, another character, or the end. */
  lemma {:induction false} DigitRun(s: seq<byte>, k: nat, breaks: set<nat>) returns (digits: string)
    requires k <= |s|
    ensures k + |digits| <= |s| && (forall i :: 0 <= i < |digits| ==> IsXDigit(digits[i]))
    ensures Broken(s, k, breaks) == digits + Broken(s, k + |digits|, breaks)
    ensures !IsXDigit(Broken(s, k + |digits|, breaks)[0])
    ensures k < |s| && k !in breaks && IsXDigit(CharOf(s[k])) ==> digits != ""
    decreases |s| - k
  {
    hide PrintAsStringLiteral, Broken;
    digits := "";
    BrokenStarts(s, k, breaks);
    if k < |s| && k !in breaks && IsXDigit(CharOf(s[k])) {
      var more := DigitRun(s, k + 1, breaks);
      digits := [CharOf(s[k])] + more;
      DigitThen(s, k, breaks);
      JoinDigit(CharOf(s[k]), more, Broken(s, k + |digits|, breaks));
    } else {
      assert "" + Broken(s, k, breaks) == Broken(s, k, breaks);
    }
  }

  lemma JoinDigit(c: char, more: string, rest: string)
    ensures [c] + (more + rest) == ([c] + more) + rest
    ensures forall i :: 0 <= i < |more| ==> ([c] + more)[i + 1] == more[i]
  {
  }

  lemma DigitThen(s: seq<byte>, k: nat, breaks: set<nat>)
    requires k < |s| && k !in breaks && (IsXDigit(CharOf(s[k])) || IsOctal(CharOf(s[k])))
    ensures Broken(s, k, breaks) == [CharOf(s[k])] + Broken(s, k + 1, breaks)
  {
    DigitIsPlain(s[k]);
    hide PrintAsStringLiteral;
    var t := [CharOf(s[k])] + Broken(s, k + 1, breaks);
    assert "" + t == t;
  }

  /** A hex escape takes in every hexadecimal digit behind it, and is then too large or one byte. */
  lemma ReadAbsorbedByHex(s: seq<byte>, k: nat, breaks: set<nat>) returns (n: nat)
    requires HexAbsorbs(s, k + 1) && k + 1 !in breaks
    ensures k + 2 <= n <= |s|
    ensures ReadInside(Broken(s, k, breaks)).None? ||
            exists b :: ReadInside(Broken(s, k, breaks)) == Cons(b, ReadInside(Broken(s, n, breaks)))
  {
    hide ReadInside, ReadEscape, HexRun, HexValue, FormatHexInt, PrintAsStringLiteral, Cons, Broken;
    ReadUnbroken(s, k, breaks);
    HexText(s[k]);
    FormattedValue(s[k]);
    var digits := DigitRun(s, k + 1, breaks);
    n := k + 1 + |digits|;
    var h, rest := FormatHexInt(s[k]) + digits, Broken(s, n, breaks);
    var u := ['x'] + (h + rest);
    assert "\\x" + FormatHexInt(s[k]) + (digits + rest) == ['\\'] + u;
    BrokenStarts(s, n, breaks);
    HexRunIs(h, rest);
    EscapeAfterX(h + rest);
    if ReadEscape(u).Some? {
      var (v, m) := ReadEscape(u).value;
      ReadBackslash(u, v, m);
      assert u[m..] == rest;
    } else {
      BackslashFails(u);
    }
  }

  lemma BackslashFails(u: string)
    requires ReadEscape(u).None?
    ensures ReadInside(['\\'] + u).None?
  {
    hide ReadEscape;
    assert (['\\'] + u)[1..] == u;
  }

  // ----- The round trip

  /** What is printed from index k on reads back as itself exactly when every absorbing escape is separated; where
      one is not, the reader sees fewer bytes or a value that is too large. */
  lemma {:induction false} ReadBroken(s: seq<byte>, k: nat, breaks: set<nat>)
    requires k <= |s|
    ensures var r := ReadInside(Broken(s, k, breaks));
      && (HexSeparated(s, k, breaks) ==> r.Some?)
      && (Separated(s, k, breaks) ==> r == Some(s[k..]))
      && (!Separated(s, k, breaks) ==> r.None? || |r.value| < |s| - k)
    decreases |s| - k
  {
    hide ReadInside, IsHexEscaped;
    if k == |s| {
      EndOnly();
    } else if NulAbsorbs(s, k + 1) && k + 1 !in breaks {
      var b, n := ReadAbsorbedByNul(s, k, breaks);
      ReadBroken(s, n, breaks);
    } else if HexAbsorbs(s, k + 1) && k + 1 !in breaks {
      var n := ReadAbsorbedByHex(s, k, breaks);
      ReadBroken(s, n, breaks);
    } else {
      ReadSafe(s, k, breaks);
      ReadBroken(s, k + 1, breaks);
      assert s[k..] == [s[k]] + s[k + 1..];
      assert Separated(s, k, breaks) <==> Separated(s, k + 1, breaks);
    }
  }

  /** A string printed with breaks at any places reads back as itself exactly when there is one wherever a hex
      escape stands before a hexadecimal digit, and one wherever a NUL stands before an octal digit. */
  lemma SplitExactlyWhereAbsorbed(s: seq<byte>, breaks: set<nat>)
    ensures ReadLiterals(['"'] + Broken(s, 0, breaks)) == Some(s) <==> Separated(s, 0, breaks)
    ensures HexSeparated(s, 0, breaks) ==> ReadLiterals(['"'] + Broken(s, 0, breaks)).Some?
  {
    hide ReadInside, Broken, HexSeparated, Separated;
    ReadBroken(s, 0, breaks);
    assert (['"'] + Broken(s, 0, breaks))[1..] == Broken(s, 0, breaks);
    assert s[0..] == s;
  }

  /** Where the printer splits. */
  function PrinterBreaks(s: seq<byte>): (breaks: set<nat>)
    ensures forall k: nat :: k in breaks <==> HexAbsorbs(s, k)
  {
    set k: nat | k < |s| && HexAbsorbs(s, k)
  }

  lemma {:induction false} BodyIsBroken(s: seq<byte>, k: nat)
    requires k <= |s|
    ensures Body(s[k..], k > 0 && IsHexEscaped(s[k - 1])) == Broken(s, k, PrinterBreaks(s))
    decreases |s| - k
  {
    hide PrintAsStringLiteral;
    if k < |s| {
      var hex := k > 0 && IsHexEscaped(s[k - 1]);
      BodyStep(s, k, hex);
      BodyIsBroken(s, k + 1);
      JoinSplit(PrintAsStringLiteral(s[k]).0, Broken(s, k + 1, PrinterBreaks(s)));
      assert k in PrinterBreaks(s) <==> hex && IsXDigit(CharOf(s[k]));
      hide PrinterBreaks, Body;
    }
  }

  lemma JoinSplit(text: string, rest: string)
    ensures SPLIT + text + rest == SPLIT + (text + rest) && "" + text + rest == "" + (text + rest)
  {
  }

  /** A NUL directly followed by an octal digit. */
  predicate HasNulOctal(s: seq<byte>) {
    exists k :: 0 < k < |s| && NulAbsorbs(s, k)
  }

  /** Where that does not occur, the printer splits at the fewest places that read back. */
  lemma PrinterSplitsLeast(s: seq<byte>, breaks: set<nat>)
    requires !HasNulOctal(s)
    ensures ReadLiterals(['"'] + Broken(s, 0, breaks)) == Some(s) <==> PrinterBreaks(s) <= breaks
    ensures Body(s, false) == Broken(s, 0, PrinterBreaks(s))
  {
    hide ReadLiterals, Broken, Body, HexAbsorbs;
    SplitExactlyWhereAbsorbed(s, breaks);
    BodyIsBroken(s, 0);
    assert s[0..] == s;
    HexAbsorbsInside(s);
  }

  lemma HexAbsorbsInside(s: seq<byte>)
    ensures forall k: nat :: HexAbsorbs(s, k) ==> 0 < k < |s|
  {
  }

  /** A printed string always reads back as something; as itself exactly when no NUL stands directly before an octal
      digit, and otherwise as fewer bytes. */
  lemma RoundTripIff(s: seq<byte>)
    ensures ReadLiterals(['"'] + Body(s, false)).Some?
    ensures ReadLiterals(['"'] + Body(s, false)) == Some(s) <==> !HasNulOctal(s)
    ensures HasNulOctal(s) ==> |ReadLiterals(['"'] + Body(s, false)).value| < |s|
  {
    hide ReadInside, Broken, Body, HexAbsorbs;
    BodyIsBroken(s, 0);
    assert s[0..] == s;
    var breaks := PrinterBreaks(s);
    ReadBroken(s, 0, breaks);
    assert (['"'] + Body(s, false))[1..] == Body(s, false);
    HexAbsorbsInside(s);
    NulIsNotHexAbsorbed(s);
    assert HasNulOctal(s) ==> !Separated(s, 0, breaks);
  }

  lemma NulIsNotHexAbsorbed(s: seq<byte>)
    ensures forall k: nat :: NulAbsorbs(s, k) ==> !HexAbsorbs(s, k)
  {
  }

  /** The bytes 0 and '1' are printed as `"\01"`, which reads back as the one byte 1. */
  lemma NulExample()
    ensures ['"'] + Body([0, 49], false) == ['"', '\\', '0', '1', '"']
    ensures ReadLiterals(['"', '\\', '0', '1', '"']) == Some([1])
  {
    var s: seq<byte> := [0, 49];
    assert s[1..] == [49] && s[1..][1..] == [];
    assert PrintAsStringLiteral(49) == (['1'], AsIs) && PrintAsStringLiteral(0) == (['\\', '0'], SpecialEscape);
    assert Body([49], false) == ['1', '"'];
    var t := ['0', '1', '"'];
    NulExampleReads(t);
    ReadBackslash(t, 1, 2);
    EndOnly();
    hide ReadInside;
    assert ['"', '\\', '0', '1', '"'][1..] == ['\\'] + t && t[2..] == ['"'];
    var none: seq<byte> := [];
    assert [1] + none == [1];
  }

  lemma NulExampleReads(t: string)
    requires t == ['0', '1', '"']
    ensures ReadEscape(t) == Some((1, 2))
  {
    assert OctalRun(t) == 2 && t[..2] == ['0', '1'] && ['0', '1'][..1] == ['0'] && ['0'][..0] == [];
    assert OctalValue(['0']) == 0 && OctalValue(['0', '1']) == 1;
  }

  // ----- Which text each byte has

  const UPPERCASE := "0123456789ABCDEF"

  lemma HexDigitIs(d: int)
    requires 0 <= d < 16
    ensures HexDigit(d) == UPPERCASE[d]
  {
  }

  /** A byte is printed in hexadecimal exactly when it is outside 0x20..0x7E and has no letter of its own; its digits
      are uppercase and not padded. */
  lemma HexEscapedIff(b: byte)
    ensures PrintAsStringLiteral(b).1.HexEscape? <==> (b < 0x20 || b > 0x7E) && b != 0 && !(7 <= b <= 13)
    ensures PrintAsStringLiteral(b).1.HexEscape? ==>
              PrintAsStringLiteral(b).0 ==
                if b < 16 then "\\x" + [UPPERCASE[b as int]]
                else "\\x" + [UPPERCASE[b as int / 16], UPPERCASE[b as int % 16]]
  {
    if b < 16 {
      HexDigitIs(b as int);
    } else {
      HexDigitIs(b as int / 16);
      HexDigitIs(b as int % 16);
    }
    hide HexDigit;
  }

  /** The bytes with an escape of their own, and the apostrophe, which needs none in a string. */
  lemma SimpleEscapes()
    ensures PrintAsStringLiteral(0).0 == ['\\', '0'] && PrintAsStringLiteral(7).0 == ['\\', 'a']
    ensures PrintAsStringLiteral(8).0 == ['\\', 'b'] && PrintAsStringLiteral(9).0 == ['\\', 't']
    ensures PrintAsStringLiteral(10).0 == ['\\', 'n'] && PrintAsStringLiteral(11).0 == ['\\', 'v']
    ensures PrintAsStringLiteral(12).0 == ['\\', 'f'] && PrintAsStringLiteral(13).0 == ['\\', 'r']
    ensures PrintAsStringLiteral(34).0 == ['\\', '"'] && PrintAsStringLiteral(92).0 == ['\\', '\\']
    ensures PrintAsStringLiteral(39).0 == ['\'']
  {
  }

  lemma PrintableIsPlain(b: byte)
    requires 0x20 <= b <= 0x7E && b != 34 && b != 92
    ensures PrintAsStringLiteral(b) == ([b as int as char], AsIs)
  {
  }

  function Characters(s: seq<byte>): (r: string)
    ensures |r| == |s| && forall i :: 0 <= i < |s| ==> r[i] == s[i] as int as char
  {
    seq(|s|, i requires 0 <= i < |s| => s[i] as int as char)
  }

  /** A string of printable characters other than the quotation mark and the backslash is printed as itself. */
  lemma {:induction false} PrintableBody(s: seq<byte>)
    requires forall b :: b in s ==> 0x20 <= b <= 0x7E && b != 34 && b != 92
    ensures Body(s, false) == Characters(s) + ['"']
  {
    hide PrintAsStringLiteral;
    if s != [] {
      assert s[0] in s;
      PrintableIsPlain(s[0]);
      assert forall b :: b in s[1..] ==> b in s;
      PrintableBody(s[1..]);
      assert Characters(s) == [s[0] as int as char] + Characters(s[1..]);
    } else {
      assert Characters(s) == [];
    }
  }

  method PrintPrintable(s: seq<byte>) returns (os: string)
    requires forall b :: b in s ==> 0x20 <= b <= 0x7E && b != 34 && b != 92
    ensures os == ['"'] + Characters(s) + ['"']
  {
    os := PrintCharsAsString(s);
    PrintableBody(s);
  }

  lemma DigitCharacters(c: char)
    ensures IsXDigit(c) <==> c in "0123456789abcdefABCDEF"
    ensures IsOctal(c) <==> c in "01234567"
  {
    var x, o := "0123456789abcdefABCDEF", "01234567";
    if IsXDigit(c) {
      var i := if c <= '9' then c as int - 48 else if c <= 'F' then c as int - 65 + 16 else c as int - 97 + 10;
      assert x[i] == c;
    }
    if IsOctal(c) { assert o[c as int - 48] == c; }
  }

  /** A split literal: the bytes 0x80 and 'a'. */
  lemma SplitExample()
    ensures ['"'] + Body([0x80, 97], false) == "\"\\x80\" \"a\""
  {
    var s: seq<byte> := [0x80, 97];
    assert s[1..] == [97] && s[1..][1..] == [];
    HexEscapedIff(0x80);
    PrintableIsPlain(97);
    hide PrintAsStringLiteral;
    assert Body([97], true) == SPLIT + ['a'] + ['"'];
    assert Body(s, false) == "" + "\\x80" + Body([97], true);
  }
}
