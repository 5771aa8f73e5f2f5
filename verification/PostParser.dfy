/** Reading application/x-www-form-urlencoded bodies, against the serialisation they come from. */
module PostParsing {

  import opened Wrappers

  type Bytes = seq<byte>

  const AMPERSAND: byte := 38
  const EQUALS: byte := 61
  const PLUS: byte := 43
  const PERCENT: byte := 37
  const SPACE: byte := 32

  // ----- Decoding one component

  predicate IsHex(b: byte) { 48 <= b <= 57 || 65 <= b <= 70 || 97 <= b <= 102 }

  function HexValue(b: byte): (v: int)
    requires IsHex(b)
    ensures 0 <= v < 16
  {
    if b <= 57 then b as int - 48 else if b <= 70 then b as int - 55 else b as int - 87
  }

  /** Query-mode unescaping: '+' is a space, '%' needs two hex digits, anything else stands for itself. */
  function Unescape(s: Bytes): Option<Bytes> {
    if s == [] then Some([])
    else if s[0] == PERCENT then
      if |s| < 3 || !IsHex(s[1]) || !IsHex(s[2]) then None
      else Prefix((16 * HexValue(s[1]) + HexValue(s[2])) as byte, Unescape(s[3..]))
    else Prefix(if s[0] == PLUS then SPACE else s[0], Unescape(s[1..]))
  }

  function Prefix(b: byte, r: Option<Bytes>): Option<Bytes> {
    if r.None? then None else Some([b] + r.value)
  }

  /** A component that cannot be decoded is kept as it came. */
  function DecodeOrRaw(s: Bytes): Bytes {
    match Unescape(s)
    case Some(t) => t
    case None => s
  }

  // ----- Splitting

  function SplitOn(s: Bytes, sep: byte): (pieces: seq<Bytes>)
    ensures |pieces| > 0
  {
    if s == [] then [[]]
    else
      var rest := SplitOn(s[1..], sep);
      if s[0] == sep then [[]] + rest else [[s[0]] + rest[0]] + rest[1..]
  }

  /** The key before the first '=' and the value behind it; without one, all key. */
  function SplitPair(s: Bytes): (Bytes, Bytes) {
    if s == [] then ([], [])
    else if s[0] == EQUALS then ([], s[1..])
    else var (k, v) := SplitPair(s[1..]); ([s[0]] + k, v)
  }

  function DecodePair(s: Bytes): (Bytes, Bytes) {
    var (k, v) := SplitPair(s);
    (DecodeOrRaw(k), DecodeOrRaw(v))
  }

  function DecodeAll(pieces: seq<Bytes>): seq<(Bytes, Bytes)> {
    if pieces == [] then []
    else (if pieces[0] == [] then [] else [DecodePair(pieces[0])]) + DecodeAll(pieces[1..])
  }

  /** The key and value pairs of a body, in order; empty segments are skipped. */
  function Pairs(body: Bytes): seq<(Bytes, Bytes)> {
    DecodeAll(SplitOn(body, AMPERSAND))
  }

  // ----- Grouping by key

  type Form = map<Bytes, seq<Bytes>>

  function Add(m: Form, k: Bytes, v: Bytes): Form {
    m[k := (if k in m then m[k] else []) + [v]]
  }

  function Grouped(pairs: seq<(Bytes, Bytes)>): Form {
    if pairs == [] then map[]
    else
      var last := pairs[|pairs| - 1];
      Add(Grouped(pairs[..|pairs| - 1]), last.0, last.1)
  }

  /** The values given for k, in order. */
  function ValuesOf(pairs: seq<(Bytes, Bytes)>, k: Bytes): seq<Bytes> {
    if pairs == [] then []
    else (if pairs[0].0 == k then [pairs[0].1] else []) + ValuesOf(pairs[1..], k)
  }

  lemma {:induction false} ValuesOfSnoc(pairs: seq<(Bytes, Bytes)>, p: (Bytes, Bytes), k: Bytes)
    ensures ValuesOf(pairs + [p], k) == ValuesOf(pairs, k) + if p.0 == k then [p.1] else []
  {
    if pairs == [] {
      assert pairs + [p] == [p] && [p][1..] == [];
    } else {
      assert (pairs + [p])[1..] == pairs[1..] + [p] && (pairs + [p])[0] == pairs[0];
      ValuesOfSnoc(pairs[1..], p, k);
      var first, last := if pairs[0].0 == k then [pairs[0].1] else [], if p.0 == k then [p.1] else [];
      assert first + (ValuesOf(pairs[1..], k) + last) == (first + ValuesOf(pairs[1..], k)) + last;
    }
  }

  /** Grouping keeps every value under its own key, in order, and no key without values. */
  lemma {:induction false} GroupedIs(pairs: seq<(Bytes, Bytes)>, k: Bytes)
    ensures k in Grouped(pairs) <==> ValuesOf(pairs, k) != []
    ensures k in Grouped(pairs) ==> Grouped(pairs)[k] == ValuesOf(pairs, k)
    decreases |pairs|
  {
    if pairs != [] {
      var n := |pairs| - 1;
      assert pairs == pairs[..n] + [pairs[n]];
      GroupedIs(pairs[..n], k);
      ValuesOfSnoc(pairs[..n], pairs[n], k);
    }
  }

  predicate NoEmptyLists(m: Form) {
    forall k :: k in m ==> m[k] != []
  }

  lemma GroupedStep(pairs: seq<(Bytes, Bytes)>, i: nat)
    requires i < |pairs|
    ensures Grouped(pairs[..i + 1]) == Add(Grouped(pairs[..i]), pairs[i].0, pairs[i].1)
  {
    assert pairs[..i + 1][..i] == pairs[..i];
  }

  lemma GroupedNone()
    ensures Grouped([]) == map[]
  {
  }

  method ParseUrlEncoded(body: Bytes) returns (ret: Form)
    ensures ret == Grouped(Pairs(body)) && NoEmptyLists(ret)
  {
    hide Grouped;
    GroupedNone();
    var kvps := Pairs(body);
    ret := map[];
    for i := 0 to |kvps|
      invariant ret == Grouped(kvps[..i])
    {
      GroupedStep(kvps, i);
      ret := ret[kvps[i].0 := (if kvps[i].0 in ret then ret[kvps[i].0] else []) + [kvps[i].1]];
    }
    assert kvps[..|kvps|] == kvps;
    forall k | k in ret ensures ret[k] != [] { GroupedIs(kvps, k); }
  }

  /** The parser as its callers use it. */
  class PostParser {
    const parsedData: Form

    constructor (contentType: Option<string>, body: Bytes)
      ensures NoEmptyLists(parsedData)
      ensures parsedData ==
                if contentType == Some("application/x-www-form-urlencoded") then Grouped(Pairs(body)) else map[]
    {
      var data: Form := map[];
      if contentType == Some("application/x-www-form-urlencoded") {
        data := ParseUrlEncoded(body);
      }
      parsedData := data;
    }

    function GetString(key: Bytes): (r: Option<Bytes>)
      requires NoEmptyLists(parsedData)
      ensures r.Some? <==> GetStringList(key).Some?
      ensures r.Some? ==> r.value == GetStringList(key).value[0]
    {
      if key !in parsedData then None else Some(parsedData[key][0])
    }

    function GetStringList(key: Bytes): (r: Option<seq<Bytes>>)
      ensures NoEmptyLists(parsedData) && r.Some? ==> r.value != []
    {
      if key !in parsedData then None else Some(parsedData[key])
    }
  }

  // ----- The serialisation

  function HexByte(d: int): byte
    requires 0 <= d < 16
  {
    HexDigit(d) as int as byte
  }

  /** Letters, digits and "*-._" stand for themselves. */
  predicate IsPlain(b: byte) {
    48 <= b <= 57 || 65 <= b <= 90 || 97 <= b <= 122 || b == 42 || b == 45 || b == 46 || b == 95
  }

  function EscapeByte(b: byte): Bytes {
    if IsPlain(b) then [b]
    else if b == SPACE then [PLUS]
    else [PERCENT, HexByte(b as int / 16), HexByte(b as int % 16)]
  }

  function Escape(s: Bytes): Bytes {
    if s == [] then [] else EscapeByte(s[0]) + Escape(s[1..])
  }

  function SerialisePair(p: (Bytes, Bytes)): Bytes {
    Escape(p.0) + [EQUALS] + Escape(p.1)
  }

  function Serialise(list: seq<(Bytes, Bytes)>): Bytes {
    if list == [] then []
    else if |list| == 1 then SerialisePair(list[0])
    else SerialisePair(list[0]) + [AMPERSAND] + Serialise(list[1..])
  }

  predicate Free(s: Bytes, b: byte) { forall i :: 0 <= i < |s| ==> s[i] != b }

  lemma HexByteReads(d: int)
    requires 0 <= d < 16
    ensures IsHex(HexByte(d)) && HexValue(HexByte(d)) == d && HexByte(d) != AMPERSAND && HexByte(d) != EQUALS
  {
  }

  lemma EscapeByteReads(b: byte, rest: Bytes)
    ensures Unescape(EscapeByte(b) + rest) == Prefix(b, Unescape(rest))
    ensures Free(EscapeByte(b), AMPERSAND) && Free(EscapeByte(b), EQUALS)
  {
    HexByteReads(b as int / 16);
    HexByteReads(b as int % 16);
    hide HexByte, IsHex, HexValue;
    var t := EscapeByte(b) + rest;
    if IsPlain(b) || b == SPACE { assert t[1..] == rest; } else { assert t[3..] == rest; }
  }

  /** Decoding undoes escaping, and escaping leaves no separator. */
  lemma {:induction false} EscapeRoundTrip(s: Bytes)
    ensures Unescape(Escape(s)) == Some(s)
    ensures Free(Escape(s), AMPERSAND) && Free(Escape(s), EQUALS)
  {
    if s != [] {
      hide EscapeByte;
      EscapeRoundTrip(s[1..]);
      EscapeByteReads(s[0], Escape(s[1..]));
      assert s == [s[0]] + s[1..];
    }
  }

  lemma {:induction false} SplitPairAt(k: Bytes, v: Bytes)
    requires Free(k, EQUALS)
    ensures SplitPair(k + [EQUALS] + v) == (k, v)
  {
    var s := k + [EQUALS] + v;
    if k == [] {
      assert s[1..] == v;
    } else {
      assert s[1..] == k[1..] + [EQUALS] + v;
      SplitPairAt(k[1..], v);
      assert [k[0]] + k[1..] == k;
    }
  }

  lemma PairRoundTrip(p: (Bytes, Bytes))
    ensures DecodePair(SerialisePair(p)) == p && SerialisePair(p) != [] && Free(SerialisePair(p), AMPERSAND)
  {
    hide Escape, Unescape, SplitPair;
    EscapeRoundTrip(p.0);
    EscapeRoundTrip(p.1);
    SplitPairAt(Escape(p.0), Escape(p.1));
  }

  lemma {:induction false} SplitAtFirst(a: Bytes, rest: Bytes, sep: byte)
    requires Free(a, sep)
    ensures SplitOn(a, sep) == [a]
    ensures SplitOn(a + [sep] + rest, sep) == [a] + SplitOn(rest, sep)
  {
    var s := a + [sep] + rest;
    if a == [] {
      assert s[1..] == rest;
    } else {
      assert s[1..] == a[1..] + [sep] + rest;
      SplitAtFirst(a[1..], rest, sep);
      assert [a[0]] + a[1..] == a;
    }
  }

  /** The pairs read from a serialised list are the list. */
  lemma {:induction false} PairsRoundTrip(list: seq<(Bytes, Bytes)>)
    ensures Pairs(Serialise(list)) == list
  {
    hide DecodePair, SerialisePair, SplitOn;
    if list == [] {
      EmptyBody();
    } else {
      var head, tail := list[0], list[1..];
      PairRoundTrip(head);
      PairsRoundTrip(tail);
      SplitAtFirst(SerialisePair(head), Serialise(tail), AMPERSAND);
      DecodeHead(SerialisePair(head), if |list| == 1 then [] else SplitOn(Serialise(tail), AMPERSAND));
      assert list == [head] + tail;
      assert [SerialisePair(head)] + [] == [SerialisePair(head)];
    }
  }

  lemma EmptyBody()
    ensures Pairs([]) == []
  {
    var none: seq<Bytes> := [[]];
    assert none[1..] == [];
  }

  lemma DecodeHead(piece: Bytes, rest: seq<Bytes>)
    requires piece != []
    ensures DecodeAll([piece] + rest) == [DecodePair(piece)] + DecodeAll(rest)
  {
    hide DecodePair;
    assert ([piece] + rest)[1..] == rest;
  }

  /** Parsing a serialised form gives every key its values in their original order, and no other keys. */
  lemma FormRoundTrip(list: seq<(Bytes, Bytes)>, k: Bytes)
    ensures var m := Grouped(Pairs(Serialise(list)));
      && (k in m <==> exists i :: 0 <= i < |list| && list[i].0 == k)
      && (k in m ==> m[k] == ValuesOf(list, k))
  {
    PairsRoundTrip(list);
    GroupedIs(list, k);
    HasValueIff(list, k);
  }

  lemma {:induction false} HasValueIff(list: seq<(Bytes, Bytes)>, k: Bytes)
    ensures ValuesOf(list, k) != [] <==> exists i :: 0 <= i < |list| && list[i].0 == k
  {
    if list != [] {
      HasValueIff(list[1..], k);
      if i :| 0 <= i < |list[1..]| && list[1..][i].0 == k { assert list[i + 1].0 == k; }
      if i :| 0 <= i < |list| && list[i].0 == k {
        if i > 0 { assert list[1..][i - 1].0 == k; }
      }
    }
  }

  // ----- Bodies that no serialiser writes

  function Ascii(s: string): (b: Bytes)
    requires forall i :: 0 <= i < |s| ==> s[i] as int < 128
    ensures |b| == |s| && forall i :: 0 <= i < |s| ==> b[i] as int == s[i] as int
  {
    seq(|s|, i requires 0 <= i < |s| => s[i] as int as byte)
  }

  lemma HexDigitsAre(d: int)
    requires 0 <= d < 16
    ensures var upper, lower := Ascii("0123456789ABCDEF"), Ascii("0123456789abcdef");
      IsHex(upper[d]) && IsHex(lower[d]) && HexValue(upper[d]) == HexValue(lower[d]) == d
  {
  }

  /** A percent sign at i that two hexadecimal digits do not follow. */
  predicate MalformedAt(s: Bytes, i: nat) {
    i < |s| && s[i] == PERCENT && !(i + 2 < |s| && IsHex(s[i + 1]) && IsHex(s[i + 2]))
  }

  predicate Malformed(s: Bytes) {
    exists i :: 0 <= i < |s| && MalformedAt(s, i)
  }

  lemma {:induction false} UnescapeFailsIff(s: Bytes)
    ensures Unescape(s).None? <==> Malformed(s)
  {
    if s != [] {
      var n := if s[0] == PERCENT then 3 else 1;
      if s[0] == PERCENT && (|s| < 3 || !IsHex(s[1]) || !IsHex(s[2])) {
        assert MalformedAt(s, 0);
      } else {
        UnescapeFailsIff(s[n..]);
        MalformedTail(s, n);
      }
    }
  }

  lemma MalformedTail(s: Bytes, n: nat)
    requires n <= |s| && (n == 1 || (n == 3 && s[0] == PERCENT && IsHex(s[1]) && IsHex(s[2])))
    requires n == 1 ==> s[0] != PERCENT
    ensures Malformed(s) <==> Malformed(s[n..])
  {
    hide IsHex;
    assert forall i: nat :: n <= i ==> (MalformedAt(s, i) <==> MalformedAt(s[n..], i - n));
    PercentIsNoHex();
    if i :| 0 <= i < |s| && MalformedAt(s, i) {
      assert i >= n;
      assert MalformedAt(s[n..], i - n);
    }
    if i :| 0 <= i < |s[n..]| && MalformedAt(s[n..], i) {
      assert MalformedAt(s, n + i);
    }
  }

  lemma PercentIsNoHex()
    ensures !IsHex(PERCENT)
  {
  }

  /** Decoding goes on behind an escape, a plus sign, or any other byte. */
  lemma UnescapeSteps(h: byte, l: byte, c: byte, rest: Bytes)
    ensures IsHex(h) && IsHex(l) ==>
              Unescape([PERCENT, h, l] + rest) == Prefix((16 * HexValue(h) + HexValue(l)) as byte, Unescape(rest))
    ensures Unescape([PLUS] + rest) == Prefix(32, Unescape(rest))
    ensures c != PERCENT && c != PLUS ==> Unescape([c] + rest) == Prefix(c, Unescape(rest))
  {
    assert ([PERCENT, h, l] + rest)[3..] == rest && ([PLUS] + rest)[1..] == rest && ([c] + rest)[1..] == rest;
  }

  /** t is what is made of the component s: decoded, or kept as it came when it is malformed. */
  predicate IsReadAs(s: Bytes, t: Bytes) {
    if Malformed(s) then t == s else Unescape(s) == Some(t)
  }

  /** A segment with an equals sign is cut at the first one, and each side is decoded by itself. */
  lemma PairIsRead(k: Bytes, v: Bytes, k': Bytes, v': Bytes)
    requires Free(k, AMPERSAND) && Free(k, EQUALS) && Free(v, AMPERSAND)
    requires IsReadAs(k, k') && IsReadAs(v, v')
    ensures Pairs(k + [EQUALS] + v) == [(k', v')]
  {
    hide Unescape, SplitOn, SplitPair, Malformed;
    var s := k + [EQUALS] + v;
    SplitAtFirst(s, [], AMPERSAND);
    SplitPairAt(k, v);
    UnescapeFailsIff(k);
    UnescapeFailsIff(v);
    OneSegment(s);
  }

  /** A segment without one is a key with an empty value. */
  lemma KeyIsRead(k: Bytes, k': Bytes)
    requires k != [] && Free(k, AMPERSAND) && Free(k, EQUALS) && IsReadAs(k, k')
    ensures Pairs(k) == [(k', [])]
  {
    hide Unescape, SplitOn, Malformed;
    SplitAtFirst(k, [], AMPERSAND);
    KeyOnly(k);
    UnescapeFailsIff(k);
    OneSegment(k);
    UnescapeNothing();
  }

  lemma UnescapeNothing()
    ensures Unescape([]) == Some([])
  {
  }

  lemma {:induction false} KeyOnly(k: Bytes)
    requires Free(k, EQUALS)
    ensures SplitPair(k) == (k, [])
  {
    if k != [] {
      KeyOnly(k[1..]);
      assert k == [k[0]] + k[1..];
    }
  }

  lemma OneSegment(s: Bytes)
    requires s != [] && SplitOn(s, AMPERSAND) == [s]
    ensures Pairs(s) == [DecodePair(s)]
  {
    hide DecodePair;
    var none: seq<Bytes> := [];
    DecodeHead(s, none);
    assert [s] + none == [s];
  }

  /** Segments are read one after the other, and empty ones are skipped. */
  lemma SegmentsAreRead(a: Bytes, rest: Bytes)
    requires Free(a, AMPERSAND)
    ensures Pairs(a + [AMPERSAND] + rest) == Pairs(a) + Pairs(rest)
  {
    hide SplitOn, DecodePair;
    SplitAtFirst(a, rest, AMPERSAND);
    var none: seq<Bytes> := [];
    if a == [] {
      EmptyBody();
      assert ([a] + SplitOn(rest, AMPERSAND))[1..] == SplitOn(rest, AMPERSAND);
    } else {
      DecodeHead(a, SplitOn(rest, AMPERSAND));
      DecodeHead(a, none);
      assert [a] + none == [a];
    }
  }

  lemma PlainIsItself(s: Bytes)
    requires Free(s, PERCENT) && Free(s, PLUS)
    ensures !Malformed(s) && Unescape(s) == Some(s) && IsReadAs(s, s)
  {
    if s != [] {
      PlainIsItself(s[1..]);
      assert s == [s[0]] + s[1..];
    }
  }

  lemma RateExample()
    ensures Pairs(Ascii("rate=100%")) == [(Ascii("rate"), Ascii("100%"))]
  {
    hide Pairs, Unescape;
    var k, v := Ascii("rate"), Ascii("100%");
    PlainIsItself(k);
    assert MalformedAt(v, 3) && Malformed(v);
    RateText(k, v);
    hide Ascii, Malformed;
    PairIsRead(k, v, k, v);
  }

  lemma RateText(k: Bytes, v: Bytes)
    requires k == Ascii("rate") && v == Ascii("100%")
    ensures Ascii("rate=100%") == k + [EQUALS] + v
    ensures Free(k, AMPERSAND) && Free(k, EQUALS) && Free(v, AMPERSAND)
  {
  }

  lemma DebugExample()
    ensures Pairs(Ascii("a=1&debug")) == [(Ascii("a"), Ascii("1")), (Ascii("debug"), [])]
  {
    hide Pairs, Unescape, Malformed;
    var a, one, debug := Ascii("a"), Ascii("1"), Ascii("debug");
    PlainIsItself(a);
    PlainIsItself(one);
    PlainIsItself(debug);
    DebugText(a, one, debug);
    hide Ascii, IsReadAs;
    PairIsRead(a, one, a, one);
    KeyIsRead(debug, debug);
    SegmentsAreRead(a + [EQUALS] + one, debug);
  }

  lemma DebugText(a: Bytes, one: Bytes, debug: Bytes)
    requires a == Ascii("a") && one == Ascii("1") && debug == Ascii("debug")
    ensures Ascii("a=1&debug") == (a + [EQUALS] + one) + [AMPERSAND] + debug
    ensures Free(a, AMPERSAND) && Free(a, EQUALS) && Free(one, AMPERSAND) && Free(a + [EQUALS] + one, AMPERSAND)
    ensures debug != [] && Free(debug, AMPERSAND) && Free(debug, EQUALS)
  {
  }

  lemma PathExample()
    ensures Pairs(Ascii("path=%2f")) == [(Ascii("path"), Ascii("/"))]
  {
    hide Pairs, Unescape, Malformed;
    var k, v := Ascii("path"), Ascii("%2f");
    PlainIsItself(k);
    SlashEscape(v);
    PathText(k, v);
    hide Ascii, IsReadAs;
    PairIsRead(k, v, k, Ascii("/"));
  }

  lemma PathText(k: Bytes, v: Bytes)
    requires k == Ascii("path") && v == Ascii("%2f")
    ensures Ascii("path=%2f") == k + [EQUALS] + v && Free(k, AMPERSAND) && Free(k, EQUALS)
  {
  }

  lemma SlashEscape(v: Bytes)
    requires v == Ascii("%2f")
    ensures IsReadAs(v, Ascii("/")) && Free(v, AMPERSAND)
  {
    var none: Bytes := [];
    assert v == [PERCENT, 50, 102] + none;
    UnescapeSteps(50, 102, 0, none);
    UnescapeNothing();
    UnescapeFailsIff(v);
    hide Unescape, Malformed;
    assert Ascii("/") == [47] + none && IsHex(50) && IsHex(102) && HexValue(50) == 2 && HexValue(102) == 15;
  }
}
