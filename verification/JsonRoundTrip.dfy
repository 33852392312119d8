/** What the printer writes, formatted or not, is a JSON text for the value, so parsing gives the value
    back; unformatted it is the shortest one there is. */
module JsonRoundTrip {
  import opened Bytes
  import opened JsonStrings
  import opened JsonText
  import opened JsonSyntax
  import opened JsonGrammar
  import opened JsonParses
  import opened JsonStandard
  import opened Wrappers

  // ----- strings -----

  /** How a byte is written. */
  function CharOf(b: byte): Char {
    if ShortEscape(b).Some? then Short(ShortEscape(b).value)
    else if b < 32 then Unicode(b, [ZERO, ZERO, HexDigit(b / 16), HexDigit(b % 16)])
    else Unescaped(b)
  }

  function CharsOf(x: seq<byte>): seq<Char> {
    if x == [] then [] else [CharOf(x[0])] + CharsOf(x[1..])
  }

  lemma CharOfByte(b: byte)
    ensures IsChar(CharOf(b)) && CharText(CharOf(b)) == EscapeByte(b) && CharValue(CharOf(b)) == [b]
  {
    if ShortEscape(b).Some? {
      ShortIsLetter(b);
    } else if b < 32 {
      ControlDigits(b);
    }
  }

  lemma ShortIsLetter(b: byte)
    requires ShortEscape(b).Some?
    ensures ShortEscape(b).value as char in "\"\\/bfnrt" && ShortValue(ShortEscape(b).value) == b
  {
    var letters := "\"\\/bfnrt";
    assert letters[0] == '\"' && letters[1] == '\\' && letters[3] == 'b' && letters[4] == 'f';
    assert letters[5] == 'n' && letters[6] == 'r' && letters[7] == 't';
  }

  lemma ControlDigits(b: byte)
    requires b < 32
    ensures IsHex4([ZERO, ZERO, HexDigit(b / 16), HexDigit(b % 16)], 0, b)
  {
    HexTables(0);
    HexTables(b / 16);
    HexTables(b % 16);
    StandForControl(ZERO, HexDigit(b / 16), HexDigit(b % 16), b);
  }

  lemma StandForControl(z: byte, high: byte, low: byte, b: nat)
    requires b < 32 && IsHexDigit(z, 0) && IsHexDigit(high, b / 16) && IsHexDigit(low, b % 16)
    ensures StandFor(z, z, high, low, b)
  {
    hide IsHexDigit;
    assert b == 4096 * 0 + 256 * 0 + 16 * (b / 16) + b % 16;
  }

  lemma {:induction false} CharsOfBytes(x: seq<byte>)
    ensures AreChars(CharsOf(x)) && CharsText(CharsOf(x)) == Escape(x) && CharsValue(CharsOf(x)) == x
  {
    hide IsChar, CharText, CharValue, CharOf, EscapeByte;
    if x != [] {
      CharOfByte(x[0]);
      CharsOfBytes(x[1..]);
      assert CharsOf(x)[1..] == CharsOf(x[1..]);
      assert [x[0]] + x[1..] == x;
    }
  }

  lemma QuoteIsString(x: seq<byte>)
    requires NUL !in x
    ensures IsString(Quote(x), x, Standard)
  {
    CharsOfBytes(x);
    CStringWithoutNul(x);
  }

  /** Printing a string and parsing the text gives the string back, byte for byte. */
  lemma QuotedIsParsed(s: seq<byte>, i: nat, x: seq<byte>)
    requires NUL !in x && At(s, i, Quote(x))
    ensures ParseString(s, i) == Some((x, i + |Quote(x)|))
  {
    hide IsString, Quote, ParseString;
    QuoteIsString(x);
    StandardStringIsRead(Quote(x), x);
    StringIsParsed(Quote(x), x, s, i);
  }

  // ----- numbers -----

  lemma {:induction false} DigitsAreNumber(n: nat)
    ensures IsDecimalNumber(Digits(n), n) && (Digits(n)[0] == ZERO ==> |Digits(n)| == 1)
  {
    if n >= 10 {
      var ds := Digits(n / 10);
      DigitsAreNumber(n / 10);
      assert Digits(n)[..|ds|] == ds;
    } else {
      assert Digits(n)[..0] == [];
    }
  }

  /** No other digits without leading zeros stand for the number. */
  lemma {:induction false} DigitsAreUnique(digits: seq<byte>, n: nat)
    requires digits != [] && IsDecimalNumber(digits, n) && (digits[0] == ZERO ==> |digits| == 1)
    ensures digits == Digits(n)
    decreases |digits|
  {
    var last := |digits| - 1;
    assert digits == digits[..last] + [digits[last]];
    if last > 0 {
      DigitsAreUnique(digits[..last], n / 10);
      LeadingDigit(digits[..last], n / 10);
    } else {
      assert IsDecimalNumber(digits[..0], n / 10);
    }
  }

  lemma LeadingDigit(digits: seq<byte>, n: nat)
    requires digits != [] && digits[0] != ZERO && IsDecimalNumber(digits, n)
    ensures n > 0
  {
    ManyDigits(digits, n);
    Pow10Grows(0, |digits| - 1);
  }

  // ----- the derivation of what is printed -----

  /** A new line and its tabs. */
  function Indent(fmt: bool, depth: nat): seq<byte> {
    if fmt then [LF] + Tabs(depth) else []
  }

  function SyntaxOf(v: Json, fmt: bool, depth: nat): Syntax
    decreases v
  {
    match v
    case Null => Word(v)
    case False => Word(v)
    case True => Word(v)
    case Number(n) => if n < 0 then Numeral(true, Digits(-n), -n) else Numeral(false, Digits(n), n)
    case String(x) => Quoted(Quote(x), x)
    case Array(items) => List([], ElementsOf(items, fmt, depth + 1, []))
    case Object(ms) => Record(Indent(fmt, depth), EntriesOf(ms, fmt, depth))
  }

  /** The items of an array, with a space before each but the first. */
  function ElementsOf(items: seq<Json>, fmt: bool, depth: nat, before: seq<byte>): seq<Element>
    decreases items
  {
    if items == [] then []
    else
      var rest := ElementsOf(items[1..], fmt, depth, if fmt then [SP] else []);
      [Element(before, SyntaxOf(items[0], fmt, depth), [])] + rest
  }

  /** The members of an object, each on a line of its own, one tab further in than the braces. */
  function EntriesOf(ms: seq<Member>, fmt: bool, depth: nat): seq<Entry>
    decreases ms
  {
    if ms == [] then []
    else
      var after := if |ms| == 1 then Indent(fmt, depth) else [];
      [Entry(Indent(fmt, depth + 1), Quote(ms[0].key), ms[0].key, [], if fmt then [HT] else [],
             SyntaxOf(ms[0].value, fmt, depth + 1), after)] + EntriesOf(ms[1..], fmt, depth)
  }

  lemma SpacesAreWs(fmt: bool, depth: nat)
    ensures AreWs(Indent(fmt, depth), Standard) && AreWs([], Standard) && AreWs([SP], Standard) && AreWs([HT], Standard)
  {
  }

  lemma {:induction false} SyntaxIsStandard(v: Json, fmt: bool, depth: nat)
    requires Printable(v)
    ensures IsSyntax(SyntaxOf(v, fmt, depth), Standard) && ValueOf(SyntaxOf(v, fmt, depth)) == v
    decreases v
  {
    hide IsString, IsDecimalNumber, Quote, Digits, AreWs;
    SpacesAreWs(fmt, depth);
    match v
    case Number(n) => DigitsAreNumber(if n < 0 then -n else n);
    case String(x) => QuoteIsString(x);
    case Array(items) => ElementsAreStandard(items, fmt, depth + 1, []);
    case Object(ms) => EntriesAreStandard(ms, fmt, depth);
    case _ =>
  }

  lemma {:induction false} ElementsAreStandard(items: seq<Json>, fmt: bool, depth: nat, before: seq<byte>)
    requires AreWs(before, Standard) && forall k :: 0 <= k < |items| ==> Printable(items[k])
    ensures var es := ElementsOf(items, fmt, depth, before);
      (forall k :: 0 <= k < |es| ==> IsElement(es[k], Standard)) && ItemsOf(es) == items && (es == [] <==> items == [])
    decreases items
  {
    hide IsSyntax, AreWs, Printable, SyntaxOf, ValueOf;
    SpacesAreWs(fmt, depth);
    if items != [] {
      SyntaxIsStandard(items[0], fmt, depth);
      ElementsAreStandard(items[1..], fmt, depth, if fmt then [SP] else []);
      var es := ElementsOf(items, fmt, depth, before);
      assert es[1..] == ElementsOf(items[1..], fmt, depth, if fmt then [SP] else []);
      assert [items[0]] + items[1..] == items;
    }
  }

  lemma {:induction false} EntriesAreStandard(ms: seq<Member>, fmt: bool, depth: nat)
    requires forall k :: 0 <= k < |ms| ==> NUL !in ms[k].key && Printable(ms[k].value)
    ensures var es := EntriesOf(ms, fmt, depth);
      (forall k :: 0 <= k < |es| ==> IsEntry(es[k], Standard)) && MembersOf(es) == ms && (es == [] <==> ms == [])
    decreases ms
  {
    hide IsSyntax, IsString, AreWs, Printable, SyntaxOf, ValueOf, Quote;
    SpacesAreWs(fmt, depth);
    SpacesAreWs(fmt, depth + 1);
    if ms != [] {
      QuoteIsString(ms[0].key);
      SyntaxIsStandard(ms[0].value, fmt, depth + 1);
      EntriesAreStandard(ms[1..], fmt, depth);
      var es := EntriesOf(ms, fmt, depth);
      assert es[1..] == EntriesOf(ms[1..], fmt, depth);
      assert [ms[0]] + ms[1..] == ms;
    }
  }

  // ----- its text -----

  lemma {:induction false} SyntaxIsRendered(v: Json, fmt: bool, depth: nat)
    ensures SyntaxText(SyntaxOf(v, fmt, depth)) == Render(v, fmt, depth)
    decreases v
  {
    hide ElementsText, EntriesText, ElementsOf, EntriesOf, Inside, Digits, Quote;
    match v
    case Array(items) =>
      ElementsAreRendered(items, fmt, depth + 1, []);
      assert [] + RenderItems(items, fmt, depth + 1) == RenderItems(items, fmt, depth + 1);
      assert items == [] ==> RenderItems(items, fmt, depth + 1) == [];
    case Object(ms) =>
      EntriesAreRendered(ms, fmt, depth);
      BracesAround(ms, fmt, depth);
    case _ =>
  }

  lemma BracesAround(ms: seq<Member>, fmt: bool, depth: nat)
    ensures [LBRACE] + Inside(ms, fmt, depth) + [RBRACE] ==
            OpenBrace(fmt) + RenderMembers(ms, fmt, depth + 1) + CloseBrace(fmt, depth)
  {
    hide RenderMembers;
  }

  lemma {:induction false} ElementsAreRendered(items: seq<Json>, fmt: bool, depth: nat, before: seq<byte>)
    ensures var es := ElementsOf(items, fmt, depth, before);
      && (es == [] <==> items == [])
      && (items != [] ==> ElementsText(es) == before + RenderItems(items, fmt, depth))
    decreases items
  {
    hide SyntaxText, Render, SyntaxOf;
    if items != [] {
      var es, space := ElementsOf(items, fmt, depth, before), if fmt then [SP] else [];
      SyntaxIsRendered(items[0], fmt, depth);
      ElementsAreRendered(items[1..], fmt, depth, space);
      assert es[1..] == ElementsOf(items[1..], fmt, depth, space);
      if |items| > 1 {
        assert [COMMA] + space == ItemEnd(false, fmt);
      } else {
        assert es[1..] == [] && items[1..] == [];
      }
    }
  }

  /** The text between the braces. */
  function Inside(ms: seq<Member>, fmt: bool, depth: nat): seq<byte> {
    (if fmt then [LF] else []) + RenderMembers(ms, fmt, depth + 1) + Tabs(if fmt then depth else 0)
  }

  lemma {:induction false} EntriesAreRendered(ms: seq<Member>, fmt: bool, depth: nat)
    ensures var es := EntriesOf(ms, fmt, depth);
      (if es == [] then Indent(fmt, depth) else EntriesText(es)) == Inside(ms, fmt, depth)
    decreases ms
  {
    hide SyntaxText, Render, SyntaxOf, Quote, EntryText, Inside;
    var es := EntriesOf(ms, fmt, depth);
    if ms == [] {
      NothingInside(fmt, depth);
    } else {
      SyntaxIsRendered(ms[0].value, fmt, depth + 1);
      EntriesAreRendered(ms[1..], fmt, depth);
      assert es[1..] == EntriesOf(ms[1..], fmt, depth);
      OneEntryIsRendered(ms, fmt, depth, es[0]);
    }
  }

  lemma NothingInside(fmt: bool, depth: nat)
    ensures Inside([], fmt, depth) == Indent(fmt, depth)
  {
  }

  lemma EntryIsRendered(ms: seq<Member>, fmt: bool, depth: nat)
    requires ms != [] && SyntaxText(SyntaxOf(ms[0].value, fmt, depth + 1)) == Render(ms[0].value, fmt, depth + 1)
    ensures var (a, t) := (MemberStart(ms[0].key, fmt, depth + 1), Render(ms[0].value, fmt, depth + 1));
      EntryText(EntriesOf(ms, fmt, depth)[0]) ==
        (if fmt then [LF] else []) + a + t + if |ms| == 1 then Indent(fmt, depth) else []
  {
    hide SyntaxText, Render, SyntaxOf, Quote;
  }

  /** Where the parts of the first member stand: its value at b, what follows it at e, the other
      members at n. */
  lemma FirstMember(ms: seq<Member>, fmt: bool, d: nat)
    requires ms != []
    ensures RenderMembers(ms, fmt, d) ==
            MemberStart(ms[0].key, fmt, d) + Render(ms[0].value, fmt, d) + MemberEnd(|ms| == 1, fmt)
            + RenderMembers(ms[1..], fmt, d)
    ensures |RenderMembers(ms, fmt, d)| ==
            |MemberStart(ms[0].key, fmt, d)| + |Render(ms[0].value, fmt, d)| + |MemberEnd(|ms| == 1, fmt)|
            + |RenderMembers(ms[1..], fmt, d)|
    ensures |ms| == 1 ==> RenderMembers(ms[1..], fmt, d) == []
  {
  }

  lemma LastRegrouped(lf: seq<byte>, a: seq<byte>, t: seq<byte>, close: seq<byte>)
    ensures lf + (a + t + ([] + lf) + []) + close == lf + a + t + (lf + close)
  {
  }

  lemma MoreRegrouped(lf: seq<byte>, a: seq<byte>, t: seq<byte>, rest: seq<byte>, close: seq<byte>)
    ensures lf + (a + t + ([COMMA] + lf) + rest) + close == (lf + a + t + []) + ([COMMA] + (lf + rest + close))
  {
  }

  /** The first entry, and what is behind it. */
  lemma OneEntryIsRendered(ms: seq<Member>, fmt: bool, depth: nat, e: Entry)
    requires ms != [] && e == EntriesOf(ms, fmt, depth)[0]
    requires SyntaxText(SyntaxOf(ms[0].value, fmt, depth + 1)) == Render(ms[0].value, fmt, depth + 1)
    ensures Inside(ms, fmt, depth) ==
            EntryText(e) + if |ms| == 1 then [] else [COMMA] + Inside(ms[1..], fmt, depth)
  {
    hide SyntaxText, Render, SyntaxOf, Quote, EntryText, EntriesOf, RenderMembers, MemberStart, Tabs;
    var lf, close := if fmt then [LF] else [], Tabs(if fmt then depth else 0);
    EntryIsRendered(ms, fmt, depth);
    FirstMember(ms, fmt, depth + 1);
    var a, t := MemberStart(ms[0].key, fmt, depth + 1), Render(ms[0].value, fmt, depth + 1);
    if |ms| == 1 {
      LastRegrouped(lf, a, t, close);
      assert Indent(fmt, depth) == lf + close;
      assert EntryText(e) + [] == EntryText(e);
    } else {
      MoreRegrouped(lf, a, t, RenderMembers(ms[1..], fmt, depth + 1), close);
    }
  }

  /** What is printed is a JSON text for the value. */
  lemma RenderIsText(v: Json, fmt: bool)
    requires Printable(v)
    ensures IsJsonText(Render(v, fmt, 0), v)
  {
    hide SyntaxText, Render, SyntaxOf, IsSyntax, Printable;
    SyntaxIsStandard(v, fmt, 0);
    SyntaxIsRendered(v, fmt, 0);
    SpacesAreWs(fmt, 0);
    var d := Document([], SyntaxOf(v, fmt, 0), []);
    assert IsDocument(d, Standard) && DocumentText(d) == Render(v, fmt, 0);
  }

  /** For every tree in the scope of the model the formatted or unformatted text with its terminating
      NUL parses to the same tree, with the order and the duplicates of its members, and parsing ends
      at the NUL; unless the tree is nested deeper than NESTING_LIMIT, and then the text is refused. */
  lemma RoundTrip(v: Json, fmt: bool, requireNul: bool)
    requires Printable(v)
    ensures ParseText(Render(v, fmt, 0) + [NUL], requireNul) ==
            if Depth(v) <= NESTING_LIMIT then Done(v, |Render(v, fmt, 0)|) else Fail
  {
    hide SyntaxText, Render, SyntaxOf, IsSyntax, Printable, ParseText, AreWs;
    SyntaxIsStandard(v, fmt, 0);
    SyntaxIsRendered(v, fmt, 0);
    StandardIsSyntax(SyntaxOf(v, fmt, 0));
    SpacesAreWs(fmt, 0);
    WsIsSkipped([]);
    var d := Document([], SyntaxOf(v, fmt, 0), []);
    assert DocumentText(d) == Render(v, fmt, 0) && [] + DocumentText(d) == DocumentText(d);
    DocumentIsParsed(d, false, requireNul);
  }

  // ----- no text is shorter -----

  lemma {:induction false} EscapeAdds(x: seq<byte>, y: seq<byte>)
    ensures Escape(x + y) == Escape(x) + Escape(y)
  {
    hide EscapeByte;
    if x == [] {
      assert x + y == y && Escape(x) + Escape(y) == Escape(y);
    } else {
      var e := EscapeByte(x[0]);
      EscapeAdds(x[1..], y);
      assert (x + y)[0] == x[0] && (x + y)[1..] == x[1..] + y;
      assert e + (Escape(x[1..]) + Escape(y)) == e + Escape(x[1..]) + Escape(y);
    }
  }

  lemma {:induction false} HighBytesAreNotEscaped(x: seq<byte>)
    requires forall k :: 0 <= k < |x| ==> x[k] >= 0x80
    ensures |Escape(x)| == |x|
  {
    if x != [] {
      HighBytesAreNotEscaped(x[1..]);
    }
  }

  /** No way to write a character is shorter than the printer's. */
  lemma CharIsShort(c: Char)
    requires IsChar(c)
    ensures |Escape(CharValue(c))| <= |CharText(c)|
  {
    hide IsHex4;
    var x := CharValue(c);
    if |x| == 1 {
      assert x[1..] == [];
      if c.Unescaped? || c.Short? {
        ShortIsShort(c);
      }
    } else {
      HighBytesAreNotEscaped(x);
    }
  }

  lemma ShortIsShort(c: Char)
    requires IsChar(c) && (c.Unescaped? || c.Short?)
    ensures |EscapeByte(CharValue(c)[0])| <= |CharText(c)|
  {
    if c.Short? {
      ShortIsRead(c.letter);
    }
  }

  lemma {:induction false} CharsAreShort(cs: seq<Char>)
    requires AreChars(cs)
    ensures |Escape(CharsValue(cs))| <= |CharsText(cs)|
  {
    hide IsHex4, CharText, CharValue;
    if cs != [] {
      assert IsChar(cs[0]);
      CharIsShort(cs[0]);
      CharsAreShort(cs[1..]);
      EscapeAdds(CharValue(cs[0]), CharsValue(cs[1..]));
    }
  }

  lemma StringIsShort(text: seq<byte>, x: seq<byte>)
    requires IsString(text, x, Standard)
    ensures |Quote(x)| <= |text|
  {
    hide CharsText, CharsValue, Escape, AreChars, CString;
    var cs :| AreChars(cs) && text == [QUOTE] + CharsText(cs) + [QUOTE] && x == CString(CharsValue(cs));
    CStringExactly(CharsValue(cs));
    assert CharsValue(cs) == x + CharsValue(cs)[|x|..];
    EscapeAdds(x, CharsValue(cs)[|x|..]);
    CharsAreShort(cs);
  }

  lemma {:induction false} SyntaxIsShort(c: Syntax, depth: nat)
    requires IsSyntax(c, Standard)
    ensures |Render(ValueOf(c), false, depth)| <= |SyntaxText(c)|
    decreases c
  {
    hide IsString, IsDecimalNumber, Quote, AreWs, IsElement, IsEntry, RenderItems, RenderMembers;
    match c
    case Word(_) =>
    case Numeral(negative, digits, n) => DigitsAreUnique(digits, n);
    case Quoted(text, x) => StringIsShort(text, x);
    case List(_, items) =>
      ElementsAreShort(items, depth + 1);
    case Record(_, entries) =>
      EntriesAreShort(entries, depth + 1);
  }

  lemma {:induction false} ElementsAreShort(es: seq<Element>, depth: nat)
    requires forall k :: 0 <= k < |es| ==> IsElement(es[k], Standard)
    ensures |RenderItems(ItemsOf(es), false, depth)| <= |ElementsText(es)|
    decreases es
  {
    hide IsSyntax, SyntaxText, ValueOf, Render;
    if es != [] {
      SyntaxIsShort(es[0].value, depth);
      ElementsAreShort(es[1..], depth);
      assert ItemsOf(es)[1..] == ItemsOf(es[1..]);
      SameLength(es);
    }
  }

  lemma {:induction false} SameLength(es: seq<Element>)
    ensures |ItemsOf(es)| == |es|
  {
    if es != [] {
      SameLength(es[1..]);
    }
  }

  lemma {:induction false} EntriesAreShort(es: seq<Entry>, depth: nat)
    requires forall k :: 0 <= k < |es| ==> IsEntry(es[k], Standard)
    ensures |RenderMembers(MembersOf(es), false, depth)| <= |EntriesText(es)|
    decreases es
  {
    hide IsSyntax, IsString, SyntaxText, ValueOf, Render, Quote;
    if es != [] {
      StringIsShort(es[0].key, es[0].name);
      SyntaxIsShort(es[0].value, depth);
      EntriesAreShort(es[1..], depth);
      assert MembersOf(es)[1..] == MembersOf(es[1..]);
      SameCount(es);
    }
  }

  lemma {:induction false} SameCount(es: seq<Entry>)
    ensures |MembersOf(es)| == |es|
  {
    if es != [] {
      SameCount(es[1..]);
    }
  }

  /** Unformatted text is the shortest JSON text for its value: no white space, no digit and no escape
      could be left out. */
  lemma UnformattedIsShortest(t: seq<byte>, v: Json)
    requires IsJsonText(t, v)
    ensures |Render(v, false, 0)| <= |t|
  {
    hide IsSyntax, SyntaxText, ValueOf, Render;
    var d :| IsDocument(d, Standard) && DocumentText(d) == t && ValueOf(d.root) == v;
    SyntaxIsShort(d.root, 0);
  }
}
