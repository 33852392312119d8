/** The texts of RFC 8259 are among those that the parser takes, and what the printer writes is one of
    them: the shortest, if it is not formatted. */
module JsonStandard {
  import opened Bytes
  import opened JsonStrings
  import opened JsonText
  import opened JsonSyntax
  import opened JsonGrammar
  import opened JsonParses
  import opened Wrappers

  // ----- the strings of the standard -----

  lemma HexIsPlain(b: byte, v: nat)
    requires IsHexDigit(b, v)
    ensures b != QUOTE && b != BACKSLASH && b != NUL
  {
    HexTables(v);
  }

  lemma Hex4IsPlain(s: seq<byte>, i: nat, u: nat)
    requires IsHex4(s, i, u)
    ensures forall k :: i <= k < i + 4 ==> s[k] != QUOTE && s[k] != BACKSLASH && s[k] != NUL
  {
    hide IsHexDigit;
    var p, q, r, t := s[i], s[i + 1], s[i + 2], s[i + 3];
    var a: nat, b: nat, c: nat, d: nat :|
      && IsHexDigit(p, a) && IsHexDigit(q, b) && IsHexDigit(r, c) && IsHexDigit(t, d)
      && u == 4096 * a + 256 * b + 16 * c + d;
    HexIsPlain(p, a);
    HexIsPlain(q, b);
    HexIsPlain(r, c);
    HexIsPlain(t, d);
  }

  lemma Hex4Stands(s: seq<byte>, i: nat, digits: seq<byte>, u: nat)
    requires At(s, i, digits) && |digits| == 4 && IsHex4(digits, 0, u)
    ensures IsHex4(s, i, u)
  {
    hide StandFor;
    assert s[i + 0] == digits[0] && s[i + 1] == digits[1] && s[i + 2] == digits[2] && s[i + 3] == digits[3];
  }

  /** A literal stands in the text. */
  lemma LiteralStands(s: seq<byte>, i: nat, digits: seq<byte>, u: nat)
    requires At(s, i, [BACKSLASH, 117] + digits) && |digits| == 4 && IsHex4(digits, 0, u)
    ensures IsLiteral(s, i, u)
  {
    hide IsHex4;
    AtSplit(s, i, [BACKSLASH, 117], digits);
    AtFirst(s, i, [BACKSLASH, 117]);
    AtSecond(s, i, [BACKSLASH, 117]);
    Hex4Stands(s, i + 2, digits, u);
  }

  lemma LiteralIsScanned(s: seq<byte>, i: nat, u: nat)
    requires IsLiteral(s, i, u) && i + 6 < |s|
    ensures ScanEnd(s, i) == ScanEnd(s, i + 6)
  {
    hide IsHex4;
    Hex4IsPlain(s, i + 2, u);
    assert ScanEnd(s, i) == ScanEnd(s, i + 2);
    assert ScanEnd(s, i + 2) == ScanEnd(s, i + 3);
    assert ScanEnd(s, i + 3) == ScanEnd(s, i + 4);
    assert ScanEnd(s, i + 4) == ScanEnd(s, i + 5);
  }

  /** One character is scanned and decoded. */
  lemma CharIsRead(s: seq<byte>, i: nat, c: Char, end: nat)
    requires IsChar(c) && At(s, i, CharText(c)) && i + |CharText(c)| <= end < |s|
    ensures ScanEnd(s, i) == ScanEnd(s, i + |CharText(c)|)
    ensures Decode1(s, i, end) == Some((CharValue(c), |CharText(c)|)) && CharText(c) != []
  {
    hide IsHex4, Hex4, Utf8;
    match c
    case Unescaped(b) => AtFirst(s, i, [b]);
    case Short(letter) =>
      AtFirst(s, i, CharText(c));
      AtSecond(s, i, CharText(c));
      ShortIsRead(letter);
    case Unicode(cp, digits) =>
      LiteralStands(s, i, digits, cp);
      LiteralIsScanned(s, i, cp);
      Hex4Reads(s, i + 2, cp);
    case Pair(cp, high, low) => PairIsRead(s, i, c, end);
  }

  lemma PairIsRead(s: seq<byte>, i: nat, c: Char, end: nat)
    requires c.Pair? && IsChar(c) && At(s, i, CharText(c)) && i + 12 <= end < |s|
    ensures ScanEnd(s, i) == ScanEnd(s, i + 12) && Decode1(s, i, end) == Some((CharValue(c), 12))
  {
    hide IsHex4, Hex4, Utf8, ScanEnd;
    var u, v := 0xD800 + (c.cp - 0x1_0000) / 0x400, 0xDC00 + (c.cp - 0x1_0000) % 0x400;
    AtSplit(s, i, [BACKSLASH, 117] + c.high, [BACKSLASH, 117] + c.low);
    LiteralStands(s, i, c.high, u);
    LiteralStands(s, i + 6, c.low, v);
    LiteralIsScanned(s, i, u);
    LiteralIsScanned(s, i + 6, v);
    Hex4Reads(s, i + 2, u);
    Hex4Reads(s, i + 8, v);
    SurrogatesOf(c.cp);
  }

  lemma ShortIsRead(letter: byte)
    requires letter as char in "\"\\/bfnrt"
    ensures Unshort(letter) == Some(ShortValue(letter)) && letter != 117
  {
    var i :| 0 <= i < 8 && "\"\\/bfnrt"[i] == letter as char;
  }

  /** The first pass goes past the characters of a string. */
  lemma {:induction false} CharsAreScanned(s: seq<byte>, i: nat, cs: seq<Char>)
    requires AreChars(cs) && At(s, i, CharsText(cs)) && i + |CharsText(cs)| < |s|
    ensures ScanEnd(s, i) == ScanEnd(s, i + |CharsText(cs)|)
    decreases |cs|
  {
    hide IsChar, CharText;
    if cs != [] {
      var t := CharText(cs[0]);
      AtSplit(s, i, t, CharsText(cs[1..]));
      assert IsChar(cs[0]);
      CharIsRead(s, i, cs[0], i + |t|);
      CharsAreScanned(s, i + |t|, cs[1..]);
    }
  }

  lemma RoundIsDecoded(s: seq<byte>, i: nat, end: nat, out: seq<byte>, k: nat)
    requires i < end < |s| && Decode1(s, i, end) == Some((out, k))
    ensures var rest := Unescape(s, i + k, end);
      Unescape(s, i, end) == if rest.None? then None else Some(out + rest.value)
  {
    hide Decode1;
  }

  /** The second pass decodes them to what they stand for. */
  lemma {:induction false} CharsAreDecoded(s: seq<byte>, i: nat, cs: seq<Char>, end: nat)
    requires AreChars(cs) && At(s, i, CharsText(cs)) && i + |CharsText(cs)| <= end < |s|
    ensures var rest := Unescape(s, i + |CharsText(cs)|, end);
      Unescape(s, i, end) == if rest.None? then None else Some(CharsValue(cs) + rest.value)
    decreases |cs|
  {
    hide At, IsHex4, CharText, CharValue, Decode1, Unescape, Utf8;
    var rest := Unescape(s, i + |CharsText(cs)|, end);
    if cs == [] {
      assert rest.Some? ==> [] + rest.value == rest.value;
    } else {
      var t := CharText(cs[0]);
      AtSplit(s, i, t, CharsText(cs[1..]));
      assert IsChar(cs[0]);
      CharIsRead(s, i, cs[0], end);
      RoundIsDecoded(s, i, end, CharValue(cs[0]), |t|);
      CharsAreDecoded(s, i + |t|, cs[1..], end);
      if rest.Some? {
        Associate(CharValue(cs[0]), CharsValue(cs[1..]), rest.value);
      }
    }
  }

  lemma Associate(a: seq<byte>, b: seq<byte>, c: seq<byte>)
    ensures a + (b + c) == a + b + c
  {
  }

  /** A backslash before any other letter makes the whole string bad. */
  lemma UnknownEscapeIsRefused(cs: seq<Char>, letter: byte, rest: seq<byte>)
    requires AreChars(cs) && letter as char !in "\"\\/bfnrtu"
    ensures ParseString([QUOTE] + CharsText(cs) + ([BACKSLASH, letter] + rest), 0).None?
  {
    hide At, ParseString, AreChars, CharsText;
    var s := [QUOTE] + CharsText(cs) + ([BACKSLASH, letter] + rest);
    Stands(s);
    UnknownEscapeStands(s, cs, letter, rest);
  }

  lemma UnknownEscapeStands(s: seq<byte>, cs: seq<Char>, letter: byte, rest: seq<byte>)
    requires AreChars(cs) && letter as char !in "\"\\/bfnrtu"
    requires At(s, 0, [QUOTE] + CharsText(cs) + ([BACKSLASH, letter] + rest))
    ensures ParseString(s, 0).None?
  {
    hide At, AreChars, CharsText, CharsValue, CString, ScanEnd, Unescape;
    var p := 1 + |CharsText(cs)|;
    AtSplit3(s, 0, [QUOTE], CharsText(cs), [BACKSLASH, letter] + rest);
    AtSplit(s, p, [BACKSLASH, letter], rest);
    AtFirst(s, p, [BACKSLASH, letter]);
    AtSecond(s, p, [BACKSLASH, letter]);
    CharsAreScanned(s, 1, cs);
    UnknownLetter(letter);
    var end := ScanEnd(s, 1);
    if end.Some? {
      BadEscapeAt(s, p, end.value);
      CharsAreDecoded(s, 1, cs, end.value);
    }
  }

  lemma BadEscapeAt(s: seq<byte>, p: nat, end: nat)
    requires p + 1 < |s| && s[p] == BACKSLASH && Unshort(s[p + 1]).None? && s[p + 1] != 117
    requires ScanEnd(s, p) == Some(end)
    ensures p < end < |s| && Unescape(s, p, end).None?
  {
  }

  lemma UnknownLetter(letter: byte)
    requires letter as char !in "\"\\/bfnrtu"
    ensures Unshort(letter).None? && letter != 117
  {
    var letters := "\"\\/bfnrtu";
    assert letters[0] == '\"' && letters[1] == '\\' && letters[2] == '/' && letters[3] == 'b' && letters[4] == 'f';
    assert letters[5] == 'n' && letters[6] == 'r' && letters[7] == 't' && letters[8] == 'u';
  }

  /** All bytes but quotes and backslashes are taken as they are, control characters included. */
  lemma RawBytesAreKept(t: seq<byte>)
    requires QUOTE !in t && BACKSLASH !in t
    ensures ParseString([QUOTE] + t + [QUOTE], 0) == Some((CString(t), |t| + 2))
  {
    hide ScanEnd, Unescape, CString;
    var s := [QUOTE] + t + [QUOTE];
    Stands(s);
    AtSplit3(s, 0, [QUOTE], t, [QUOTE]);
    RawBytesAreRead(s, 1, t);
  }

  lemma {:induction false} RawBytesAreRead(s: seq<byte>, i: nat, t: seq<byte>)
    requires QUOTE !in t && BACKSLASH !in t && At(s, i, t + [QUOTE])
    ensures ScanEnd(s, i) == Some(i + |t|) && Unescape(s, i, i + |t|) == Some(t)
    decreases |t|
  {
    AtFirst(s, i, t + [QUOTE]);
    AtSplit(s, i, t, [QUOTE]);
    if t != [] {
      assert t + [QUOTE] == [t[0]] + (t[1..] + [QUOTE]);
      AtSplit(s, i, [t[0]], t[1..] + [QUOTE]);
      RawBytesAreRead(s, i + 1, t[1..]);
      assert [t[0]] + t[1..] == t;
    }
  }

  /** Strings are read as what their characters stand for, up to the first NUL. */
  lemma StandardStringIsRead(text: seq<byte>, x: seq<byte>)
    requires IsString(text, x, Standard)
    ensures IsString(text, x, Wide)
  {
    hide ParseString, CharsText, CharsValue, CString, AreChars, At;
    var cs :| AreChars(cs) && text == [QUOTE] + CharsText(cs) + [QUOTE] && x == CString(CharsValue(cs));
    Stands(text);
    CharsAreString(text, cs);
  }

  lemma CharsAreString(s: seq<byte>, cs: seq<Char>)
    requires AreChars(cs) && At(s, 0, [QUOTE] + CharsText(cs) + [QUOTE])
    ensures ParseString(s, 0) == Some((CString(CharsValue(cs)), |CharsText(cs)| + 2))
  {
    hide At, ScanEnd, Unescape, CharsText, CharsValue, CString, AreChars;
    var end := 1 + |CharsText(cs)|;
    AtSplit3(s, 0, [QUOTE], CharsText(cs), [QUOTE]);
    AtFirst(s, 0, [QUOTE]);
    AtFirst(s, end, [QUOTE]);
    CharsAreScanned(s, 1, cs);
    CharsAreDecoded(s, 1, cs, end);
    ReadsToQuote(s, end);
    assert CharsValue(cs) + [] == CharsValue(cs);
  }

  lemma ReadsToQuote(s: seq<byte>, end: nat)
    requires end < |s| && s[end] == QUOTE
    ensures ScanEnd(s, end) == Some(end) && Unescape(s, end, end) == Some([])
  {
  }

  /** The C string is what stands before the first NUL. */
  lemma {:induction false} CStringExactly(x: seq<byte>)
    ensures var c := CString(x);
      c <= x && NUL !in c && (|c| < |x| ==> x[|c|] == NUL)
  {
    if x != [] && x[0] != NUL {
      CStringExactly(x[1..]);
      assert x == [x[0]] + x[1..];
    }
  }

  // ----- the texts of the standard -----

  function Pow10(n: nat): nat {
    if n == 0 then 1 else 10 * Pow10(n - 1)
  }

  /** Without leading zeros, the number of digits is bounded by the value. */
  lemma {:induction false} ManyDigits(digits: seq<byte>, n: nat)
    requires |digits| > 0 && IsDecimalNumber(digits, n) && digits[0] != ZERO
    ensures n >= Pow10(|digits| - 1)
    decreases |digits|
  {
    if |digits| > 1 {
      ManyDigits(digits[..|digits| - 1], n / 10);
    } else {
      assert IsDecimalNumber(digits[..0], n / 10);
    }
  }

  lemma {:induction false} Pow10Grows(m: nat, n: nat)
    requires m <= n
    ensures Pow10(m) <= Pow10(n)
  {
    if m < n {
      Pow10Grows(m, n - 1);
    }
  }

  lemma StandardNumeralIsShort(negative: bool, digits: seq<byte>, n: nat)
    requires IsNumeral(negative, digits, n, Standard)
    ensures IsNumeral(negative, digits, n, Wide)
  {
    hide Pow10, IsDecimalNumber;
    if |digits| > 16 {
      ManyDigits(digits, n);
      Pow10Grows(16, |digits| - 1);
      TenToThe16();
    }
  }

  lemma TenToThe16()
    ensures Pow10(16) == 10_000_000_000_000_000
  {
    assert Pow10(4) == 10_000;
    assert Pow10(8) == 100_000_000;
    assert Pow10(12) == 1_000_000_000_000;
  }

  lemma WsIsSkipped(t: seq<byte>)
    requires AreWs(t, Standard)
    ensures AreWs(t, Wide)
  {
  }

  lemma {:induction false} StandardIsSyntax(c: Syntax)
    requires IsSyntax(c, Standard)
    ensures IsSyntax(c, Wide)
    decreases c
  {
    hide IsString, IsNumeral, AreWs;
    match c
    case Word(_) =>
    case Numeral(negative, digits, n) => StandardNumeralIsShort(negative, digits, n);
    case Quoted(text, x) => StandardStringIsRead(text, x);
    case List(inner, items) =>
      WsIsSkipped(inner);
      forall k | 0 <= k < |items| ensures IsElement(items[k], Wide) {
        var e := items[k];
        WsIsSkipped(e.before);
        StandardIsSyntax(e.value);
        WsIsSkipped(e.after);
      }
    case Record(inner, entries) =>
      WsIsSkipped(inner);
      forall k | 0 <= k < |entries| ensures IsEntry(entries[k], Wide) {
        var e := entries[k];
        WsIsSkipped(e.before);
        StandardStringIsRead(e.key, e.name);
        WsIsSkipped(e.colon);
        WsIsSkipped(e.space);
        StandardIsSyntax(e.value);
        WsIsSkipped(e.after);
      }
  }

  /** Every JSON text of the standard is parsed to the value it stands for, whatever white space there is
      in it, unless the value is nested too deep; and then it is refused. */
  lemma JsonTextIsParsed(t: seq<byte>, v: Json, bom: bool)
    requires IsJsonText(t, v)
    ensures var mark := if bom then BOM else [];
      ParseText(mark + t + [NUL], true) == if Depth(v) <= NESTING_LIMIT then Done(v, |mark| + |t|) else Fail
  {
    hide IsSyntax, AreWs, ParseText;
    var d :| IsDocument(d, Standard) && DocumentText(d) == t && ValueOf(d.root) == v;
    WsIsSkipped(d.before);
    StandardIsSyntax(d.root);
    WsIsSkipped(d.after);
    DocumentIsParsed(d, bom, true);
  }
}
