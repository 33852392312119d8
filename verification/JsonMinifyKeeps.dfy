/** Minifying a JSON text that may hold comments leaves the text of the same value without any white space
    and comments, if no string in it ends in an escaped backslash. */
module JsonMinifyKeeps {
  import opened Bytes
  import opened JsonStrings
  import opened JsonText
  import opened JsonSyntax
  import opened JsonGrammar
  import opened JsonMinify
  import opened JsonMinifyUndoes
  import JsonParses
  import JsonStandard

  /** The last character before the closing quote is no backslash. */
  predicate IsClean(text: seq<byte>) {
    |text| >= 2 && text[|text| - 2] != BACKSLASH
  }

  /** So it is for every string and name. */
  ghost predicate Clean(c: Syntax) {
    match c
    case Quoted(text, _) => IsClean(text)
    case List(_, items) => forall k :: 0 <= k < |items| ==> Clean(items[k].value)
    case Record(_, entries) => forall k :: 0 <= k < |entries| ==> IsClean(entries[k].key) && Clean(entries[k].value)
    case _ => true
  }

  // ----- without white space -----

  function Compact(c: Syntax): Syntax
    decreases c
  {
    match c
    case List(_, items) => List([], CompactElements(items))
    case Record(_, entries) => Record([], CompactEntries(entries))
    case _ => c
  }

  function CompactElements(es: seq<Element>): (r: seq<Element>)
    ensures |r| == |es|
    decreases es
  {
    if es == [] then [] else [Element([], Compact(es[0].value), [])] + CompactElements(es[1..])
  }

  function CompactEntries(es: seq<Entry>): (r: seq<Entry>)
    ensures |r| == |es|
    decreases es
  {
    if es == [] then []
    else [Entry([], es[0].key, es[0].name, [], [], Compact(es[0].value), [])] + CompactEntries(es[1..])
  }

  lemma NoWs()
    ensures AreWs([], Standard)
  {
  }

  /** It derives a text of the standard for the same value. */
  lemma {:induction false} CompactIsStandard(c: Syntax)
    requires IsSyntax(c, Commented)
    ensures IsSyntax(Compact(c), Standard) && ValueOf(Compact(c)) == ValueOf(c)
    decreases c
  {
    hide IsStandardString, IsDecimalNumber, AreWs;
    NoWs();
    match c
    case List(_, items) => ElementsAreStandard(items);
    case Record(_, entries) => EntriesAreStandard(entries);
    case _ =>
  }

  lemma {:induction false} ElementsAreStandard(es: seq<Element>)
    requires forall k :: 0 <= k < |es| ==> IsElement(es[k], Commented)
    ensures var r := CompactElements(es);
      (forall k :: 0 <= k < |r| ==> IsElement(r[k], Standard)) && ItemsOf(r) == ItemsOf(es)
    decreases es
  {
    hide IsSyntax, AreWs, ValueOf, Compact;
    NoWs();
    if es != [] {
      CompactIsStandard(es[0].value);
      ElementsAreStandard(es[1..]);
      assert CompactElements(es)[1..] == CompactElements(es[1..]);
    }
  }

  lemma {:induction false} EntriesAreStandard(es: seq<Entry>)
    requires forall k :: 0 <= k < |es| ==> IsEntry(es[k], Commented)
    ensures var r := CompactEntries(es);
      (forall k :: 0 <= k < |r| ==> IsEntry(r[k], Standard)) && MembersOf(r) == MembersOf(es)
    decreases es
  {
    hide IsSyntax, IsStandardString, AreWs, ValueOf, Compact;
    NoWs();
    if es != [] {
      CompactIsStandard(es[0].value);
      EntriesAreStandard(es[1..]);
      assert CompactEntries(es)[1..] == CompactEntries(es[1..]);
    }
  }

  // ----- what is dropped -----

  lemma CommentIsDropped(s: seq<byte>, i: nat, c: seq<byte>)
    requires IsCText(s) && IsComment(c) && At(s, i, c) && i + |c| < |s|
    ensures Outside(s, i) == Outside(s, i + |c|)
  {
    hide Outside;
    var e := i + |c|;
    forall k | i <= k < e ensures s[k] == c[k - i] {
      assert s[i + (k - i)] == c[k - i];
    }
    if c[1] == SLASH {
      forall k | i + 2 <= k < e - 1 ensures s[k] != NUL && s[k] != LF {
        assert c[k - i] == c[2..|c| - 1][k - i - 2];
      }
      OnelineCommentIsDropped(s, i, e - 1);
    } else {
      MultilineCommentIsDropped(s, i, e - 2);
    }
  }

  /** Where the first white space character or comment ends. */
  lemma FirstDropped(w: seq<byte>) returns (n: nat)
    requires AreComments(w) && w != []
    ensures 0 < n <= |w| && AreComments(w[n..]) && (IsComment(w[..n]) || (n == 1 && IsWs(w[0])))
  {
    hide IsComment, IsWs;
    if IsWs(w[0]) && AreComments(w[1..]) {
      n := 1;
    } else {
      n :| 0 < n <= |w| && IsComment(w[..n]) && AreComments(w[n..]);
    }
  }

  lemma {:induction false} WsIsDropped(s: seq<byte>, i: nat, w: seq<byte>)
    requires IsCText(s) && AreComments(w) && At(s, i, w) && i + |w| < |s|
    ensures Outside(s, i) == Outside(s, i + |w|)
    decreases |w|
  {
    hide Outside, AreComments, IsComment;
    if w != [] {
      var n := FirstDropped(w);
      assert w == w[..n] + w[n..];
      AtSplit(s, i, w[..n], w[n..]);
      if IsComment(w[..n]) {
        CommentIsDropped(s, i, w[..n]);
      } else {
        AtFirst(s, i, w);
        OutsideStep(s, i);
      }
      WsIsDropped(s, i + n, w[n..]);
    }
  }

  /** White space alone is a case of it. */
  lemma {:induction false} WsIsCommented(w: seq<byte>)
    requires AreWs(w, Standard)
    ensures AreWs(w, Commented)
    decreases |w|
  {
    if w != [] {
      WsIsCommented(w[1..]);
    }
  }

  // ----- what is copied -----

  lemma CharsEnd(cs: seq<Char>)
    requires AreChars(cs) && cs != []
    ensures CharsText(cs) != [] && (CharsText(cs)[|CharsText(cs)| - 1] == BACKSLASH <==> EndsEscaped(cs))
    decreases |cs|
  {
    hide IsHex4;
    assert IsChar(cs[0]);
    if |cs| > 1 {
      CharsEnd(cs[1..]);
    } else {
      assert cs[1..] == [] && CharsText(cs) == CharText(cs[0]);
      CharEnds(cs[0]);
    }
  }

  lemma CharEnds(c: Char)
    requires IsChar(c)
    ensures CharText(c) != [] && (CharText(c)[|CharText(c)| - 1] == BACKSLASH <==> c == Short(BACKSLASH))
  {
    hide IsHex4;
    match c
    case Unicode(cp, digits) => JsonStandard.Hex4IsPlain(digits, 0, cp);
    case Pair(cp, _, low) => JsonStandard.Hex4IsPlain(low, 0, 0xDC00 + (cp - 0x1_0000) % 0x400);
    case _ =>
  }

  lemma CleanStringIsCopied(s: seq<byte>, i: nat, text: seq<byte>, x: seq<byte>)
    requires IsCText(s) && IsStandardString(text, x) && IsClean(text) && At(s, i, text) && i + |text| < |s|
    ensures Outside(s, i) == text + Outside(s, i + |text|)
  {
    hide Outside, InString, CharsText, AreChars, CharsValue, CString;
    var cs :| AreChars(cs) && text == [QUOTE] + CharsText(cs) + [QUOTE] && x == CString(CharsValue(cs));
    if cs != [] {
      CharsEnd(cs);
    }
    StringIsCopied(s, i, cs);
  }

  lemma {:induction false} SyntaxIsMinified(c: Syntax, s: seq<byte>, i: nat)
    requires IsCText(s) && IsSyntax(c, Commented) && Clean(c)
    requires At(s, i, SyntaxText(c)) && i + |SyntaxText(c)| < |s|
    ensures Outside(s, i) == SyntaxText(Compact(c)) + Outside(s, i + |SyntaxText(c)|)
    decreases c, 1
  {
    hide Outside, IsStandardString, IsDecimalNumber, AreComments, IsClean, IsElement, IsEntry, Compact;
    if !c.List? && !c.Record? {
      CompactLeaf(c);
    }
    match c
    case Word(v) => PlainIsCopied(s, i, WordText(v));
    case Numeral(_, digits, n) =>
      JsonParses.DigitsAreDigits(digits, n);
      PlainIsCopied(s, i, SyntaxText(c));
    case Quoted(text, x) => CleanStringIsCopied(s, i, text, x);
    case List(_, _) => ListIsMinified(c, s, i);
    case Record(_, _) => RecordIsMinified(c, s, i);
  }

  lemma {:induction false} ListIsMinified(c: Syntax, s: seq<byte>, i: nat)
    requires c.List? && IsCText(s) && IsSyntax(c, Commented) && Clean(c)
    requires At(s, i, SyntaxText(c)) && i + |SyntaxText(c)| < |s|
    ensures Outside(s, i) == SyntaxText(Compact(c)) + Outside(s, i + |SyntaxText(c)|)
    decreases c, 0
  {
    hide Outside, AreComments, ElementsText, IsElement, CompactElements;
    var short := if c.items == [] then [] else ElementsText(CompactElements(c.items));
    var body := if c.items == [] then c.inner else ElementsText(c.items);
    Between(s, i, LBRACKET, body, RBRACKET);
    if c.items == [] {
      WsIsDropped(s, i + 1, c.inner);
      NothingBefore(Outside(s, i + 1 + |body|));
    } else {
      ElementsAreMinified(c.items, s, i + 1);
    }
    Enclosed(s, i, LBRACKET, body, short, RBRACKET);
  }

  lemma {:induction false} RecordIsMinified(c: Syntax, s: seq<byte>, i: nat)
    requires c.Record? && IsCText(s) && IsSyntax(c, Commented) && Clean(c)
    requires At(s, i, SyntaxText(c)) && i + |SyntaxText(c)| < |s|
    ensures Outside(s, i) == SyntaxText(Compact(c)) + Outside(s, i + |SyntaxText(c)|)
    decreases c, 0
  {
    hide Outside, AreComments, EntriesText, IsEntry, CompactEntries;
    var short := if c.entries == [] then [] else EntriesText(CompactEntries(c.entries));
    var body := if c.entries == [] then c.inner else EntriesText(c.entries);
    Between(s, i, LBRACE, body, RBRACE);
    if c.entries == [] {
      WsIsDropped(s, i + 1, c.inner);
      NothingBefore(Outside(s, i + 1 + |body|));
    } else {
      EntriesAreMinified(c.entries, s, i + 1);
    }
    Enclosed(s, i, LBRACE, body, short, RBRACE);
  }

  lemma CompactLeaf(c: Syntax)
    requires !c.List? && !c.Record?
    ensures Compact(c) == c
  {
  }

  lemma NothingBefore(t: seq<byte>)
    ensures [] + t == t
  {
  }

  lemma Between(s: seq<byte>, i: nat, open: byte, body: seq<byte>, close: byte)
    requires At(s, i, [open] + body + [close])
    ensures i + 1 + |body| < |s| && s[i] == open && At(s, i + 1, body) && s[i + 1 + |body|] == close
  {
    AtSplit3(s, i, [open], body, [close]);
    AtFirst(s, i, [open]);
    AtFirst(s, i + 1 + |body|, [close]);
  }

  /** Brackets are copied around whatever is left between them. */
  lemma Enclosed(s: seq<byte>, i: nat, open: byte, body: seq<byte>, short: seq<byte>, close: byte)
    requires IsCText(s) && IsPlain(open) && IsPlain(close) && i + |body| + 2 < |s|
    requires s[i] == open && s[i + 1 + |body|] == close
    requires Outside(s, i + 1) == short + Outside(s, i + 1 + |body|)
    ensures Outside(s, i) == ([open] + short + [close]) + Outside(s, i + |body| + 2)
  {
    hide Outside;
    OutsideStep(s, i);
    OutsideStep(s, i + 1 + |body|);
    Rejoin([open], short, [close], Outside(s, i + |body| + 2));
  }

  lemma {:induction false} ElementsAreMinified(es: seq<Element>, s: seq<byte>, i: nat)
    requires IsCText(s) && es != [] && forall k :: 0 <= k < |es| ==> IsElement(es[k], Commented) && Clean(es[k].value)
    requires At(s, i, ElementsText(es)) && i + |ElementsText(es)| < |s|
    ensures Outside(s, i) == ElementsText(CompactElements(es)) + Outside(s, i + |ElementsText(es)|)
    decreases es, 0
  {
    hide Outside, IsSyntax, SyntaxText, AreComments, Clean, Compact, ElementText, ElementsText, CompactElements, At;
    var e, tail := es[0], if |es| == 1 then [] else [COMMA] + ElementsText(es[1..]);
    JsonParses.FirstElement(es);
    AtSplit(s, i, ElementText(e), tail);
    var n := i + |ElementText(e)|;
    ElementIsMinified(e, s, i);
    var short, rest := SyntaxText(Compact(e.value)), CompactElements(es[1..]);
    ShortElement(es);
    if |es| > 1 {
      AtSplit(s, n, [COMMA], ElementsText(es[1..]));
      AtFirst(s, n, [COMMA]);
      OutsideStep(s, n);
      ElementsAreMinified(es[1..], s, n + 1);
      Rejoin(short, [COMMA], ElementsText(rest), Outside(s, i + |ElementsText(es)|));
    }
  }

  lemma {:induction false} ElementIsMinified(e: Element, s: seq<byte>, i: nat)
    requires IsCText(s) && IsElement(e, Commented) && Clean(e.value)
    requires At(s, i, ElementText(e)) && i + |ElementText(e)| < |s|
    ensures Outside(s, i) == SyntaxText(Compact(e.value)) + Outside(s, i + |ElementText(e)|)
    decreases e, 2
  {
    hide Outside, At, IsSyntax, SyntaxText, AreComments, Clean, Compact;
    var t := SyntaxText(e.value);
    AtSplit3(s, i, e.before, t, e.after);
    WsIsDropped(s, i, e.before);
    SyntaxIsMinified(e.value, s, i + |e.before|);
    WsIsDropped(s, i + |e.before| + |t|, e.after);
  }

  lemma BareElement(c: Syntax)
    ensures ElementText(Element([], c, [])) == SyntaxText(c)
  {
    hide SyntaxText;
  }

  lemma CompactElement(es: seq<Element>)
    requires es != []
    ensures var r := CompactElements(es);
      r[1..] == CompactElements(es[1..]) && ElementText(r[0]) == SyntaxText(Compact(es[0].value))
  {
    hide SyntaxText, Compact, ElementText;
    BareElement(Compact(es[0].value));
  }

  lemma ShortElement(es: seq<Element>)
    requires es != []
    ensures var short, rest := SyntaxText(Compact(es[0].value)), CompactElements(es[1..]);
      ElementsText(CompactElements(es)) == if |es| == 1 then short else short + [COMMA] + ElementsText(rest)
  {
    hide SyntaxText, Compact, ElementsText, ElementText, CompactElements;
    var r, short := CompactElements(es), SyntaxText(Compact(es[0].value));
    CompactElement(es);
    JsonParses.FirstElement(r);
    if |es| == 1 {
      NothingBehind(short);
    } else {
      JsonStandard.Associate(short, [COMMA], ElementsText(r[1..]));
    }
  }

  lemma NothingBehind(t: seq<byte>)
    ensures t + [] == t
  {
  }

  lemma {:induction false} EntriesAreMinified(es: seq<Entry>, s: seq<byte>, i: nat)
    requires IsCText(s) && es != []
    requires forall k :: 0 <= k < |es| ==> IsEntry(es[k], Commented) && IsClean(es[k].key) && Clean(es[k].value)
    requires At(s, i, EntriesText(es)) && i + |EntriesText(es)| < |s|
    ensures Outside(s, i) == EntriesText(CompactEntries(es)) + Outside(s, i + |EntriesText(es)|)
    decreases es, 0
  {
    hide Outside, IsSyntax, IsStandardString, SyntaxText, AreComments, IsClean, Clean, Compact;
    hide EntryText, EntriesText, CompactEntries, ShortEntryText, At;
    var e, tail := es[0], if |es| == 1 then [] else [COMMA] + EntriesText(es[1..]);
    JsonParses.FirstEntry(es);
    AtSplit(s, i, EntryText(e), tail);
    var n := i + |EntryText(e)|;
    EntryIsMinified(e, s, i);
    var short, rest := ShortEntryText(e), CompactEntries(es[1..]);
    ShortEntry(es);
    if |es| > 1 {
      AtSplit(s, n, [COMMA], EntriesText(es[1..]));
      AtFirst(s, n, [COMMA]);
      OutsideStep(s, n);
      EntriesAreMinified(es[1..], s, n + 1);
      Rejoin(short, [COMMA], EntriesText(rest), Outside(s, i + |EntriesText(es)|));
    }
  }

  function ShortEntryText(e: Entry): seq<byte> {
    e.key + [COLON] + SyntaxText(Compact(e.value))
  }

  lemma {:induction false} EntryIsMinified(e: Entry, s: seq<byte>, i: nat)
    requires IsCText(s) && IsEntry(e, Commented) && IsClean(e.key) && Clean(e.value)
    requires At(s, i, EntryText(e)) && i + |EntryText(e)| < |s|
    ensures Outside(s, i) == ShortEntryText(e) + Outside(s, i + |EntryText(e)|)
    decreases e, 2
  {
    hide Outside, At, IsSyntax, IsStandardString, SyntaxText, AreComments, IsClean, Clean, Compact;
    var t := SyntaxText(e.value);
    AtSplit3(s, i, e.before + e.key + e.colon, [COLON] + e.space + t, e.after);
    AtSplit3(s, i, e.before, e.key, e.colon);
    var q := i + |e.before|;
    var p := q + |e.key|;
    var c := p + |e.colon|;
    AtSplit3(s, c, [COLON], e.space, t);
    AtFirst(s, c, [COLON]);
    var b := c + 1 + |e.space|;
    WsIsDropped(s, i, e.before);
    CleanStringIsCopied(s, q, e.key, e.name);
    WsIsDropped(s, p, e.colon);
    OutsideStep(s, c);
    WsIsDropped(s, c + 1, e.space);
    SyntaxIsMinified(e.value, s, b);
    WsIsDropped(s, b + |t|, e.after);
    Rejoin(e.key, [COLON], SyntaxText(Compact(e.value)), Outside(s, i + |EntryText(e)|));
  }

  lemma CompactEntry(es: seq<Entry>)
    requires es != []
    ensures var r := CompactEntries(es);
      r[1..] == CompactEntries(es[1..]) && EntryText(r[0]) == ShortEntryText(es[0])
  {
    hide SyntaxText, Compact, EntryText, ShortEntryText;
    BareEntry(es[0]);
  }

  lemma ShortEntry(es: seq<Entry>)
    requires es != []
    ensures var short, rest := ShortEntryText(es[0]), CompactEntries(es[1..]);
      EntriesText(CompactEntries(es)) == if |es| == 1 then short else short + [COMMA] + EntriesText(rest)
  {
    hide SyntaxText, Compact, EntriesText, EntryText, CompactEntries, ShortEntryText;
    var r, short := CompactEntries(es), ShortEntryText(es[0]);
    CompactEntry(es);
    JsonParses.FirstEntry(r);
    if |es| == 1 {
      NothingBehind(short);
    } else {
      JsonStandard.Associate(short, [COMMA], EntriesText(r[1..]));
    }
  }

  lemma BareEntry(e: Entry)
    ensures EntryText(Entry([], e.key, e.name, [], [], Compact(e.value), [])) == ShortEntryText(e)
  {
    hide SyntaxText, Compact;
  }

  // ----- the whole text -----

  /** A JSON text with comments, no string of which ends in an escaped backslash, is minified to the JSON
      text of the same value without white space, so parsing gives that value. */
  lemma MinifyKeepsTheValue(d: Document)
    requires IsDocument(d, Commented) && Clean(d.root)
    ensures var m, v := Outside(DocumentText(d) + [NUL], 0), ValueOf(d.root);
      && m == SyntaxText(Compact(d.root)) && IsJsonText(m, v)
      && ParseText(m + [NUL], true) == if Depth(v) <= NESTING_LIMIT then Done(v, |m|) else Fail
  {
    hide Outside, IsSyntax, SyntaxText, AreWs, Clean, Compact, ParseText, ValueOf, Depth;
    var t := SyntaxText(d.root);
    var s, m := DocumentText(d) + [NUL], SyntaxText(Compact(d.root));
    DocumentIsMinified(d);
    CompactIsStandard(d.root);
    NoWs();
    var short := Document([], Compact(d.root), []);
    assert IsDocument(short, Standard) && DocumentText(short) == m;
    JsonStandard.JsonTextIsParsed(m, ValueOf(d.root), false);
    assert [] + m == m;
  }

  lemma DocumentIsMinified(d: Document)
    requires IsDocument(d, Commented) && Clean(d.root)
    ensures Outside(DocumentText(d) + [NUL], 0) == SyntaxText(Compact(d.root))
  {
    hide At, Outside, IsSyntax, SyntaxText, AreComments, Clean, Compact;
    var t := SyntaxText(d.root);
    var s := DocumentText(d) + [NUL];
    JsonParses.Stands(s);
    AtSplit(s, 0, DocumentText(d), [NUL]);
    AtSplit3(s, 0, d.before, t, d.after);
    WsIsDropped(s, 0, d.before);
    SyntaxIsMinified(d.root, s, |d.before|);
    WsIsDropped(s, |d.before| + |t|, d.after);
    OutsideStep(s, |DocumentText(d)|);
    assert SyntaxText(Compact(d.root)) + [] == SyntaxText(Compact(d.root));
  }
}
