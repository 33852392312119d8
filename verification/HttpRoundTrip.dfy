/** The request heads that parse, by the grammar of RFC 7230: every head parses to the parts it was
    written from, and nothing else parses. */
module HttpRoundTrip {
  import opened Bytes
  import opened HttpGrammar
  import opened HttpIncremental
  import opened Wrappers

  // ----- characters -----

  /** The characters that are visible but do not belong to tokens, section 3.2.6. */
  const DELIMITERS: string := "\"(),/:;<=>?@[\\]{}"

  predicate IsTchar(b: byte) { 33 <= b <= 126 && b as char !in DELIMITERS }

  /** What a request target consists of: no controls and no space. */
  predicate IsTargetChar(b: byte) { b > 32 && b != 127 }

  /** What a field value consists of, section 3.2: visible characters, bytes above ASCII, spaces and tabs. */
  predicate IsFieldChar(b: byte) { b == 9 || 32 <= b <= 126 || 128 <= b }

  /** Optional white space, section 3.2.3. */
  predicate IsOws(b: byte) { b == 32 || b == 9 }

  /** The tests of the parser are those of the grammar. */
  lemma CharactersExactly(b: byte)
    ensures IsTokenChar(b) <==> IsTchar(b)
    ensures IsCtl(b) <==> !IsFieldChar(b)
    ensures IsBlank(b) <==> IsOws(b)
  {
    DelimitersAre(b as char);
  }

  lemma DelimitersAre(c: char)
    ensures c in DELIMITERS <==> c as int in {34, 40, 41, 44, 47, 58, 59, 60, 61, 62, 63, 64, 91, 92, 93, 123, 125}
  {
    var d := DELIMITERS;
    assert d[0] == '\"' && d[1] == '(' && d[2] == ')' && d[3] == ',' && d[4] == '/' && d[5] == ':';
    assert d[6] == ';' && d[7] == '<' && d[8] == '=' && d[9] == '>' && d[10] == '?' && d[11] == '@';
    assert d[12] == '[' && d[13] == '\\' && d[14] == ']' && d[15] == '{' && d[16] == '}';
  }

  // ----- heads -----

  /** A header line, with the optional white space before and after its value, or a line that begins
      with white space and continues the value of the line before it (obs-fold, section 3.2.4). */
  datatype Line =
    | Field(name: seq<byte>, before: seq<byte>, value: seq<byte>, after: seq<byte>, eol: seq<byte>)
    | Folded(value: seq<byte>, after: seq<byte>, eol: seq<byte>)

  /** The parts of a request head, sections 3.1.1 and 3.2. Section 3.5 allows what is more here: an empty
      line before it, more than one space between the words of the request line, and LF for CRLF. */
  datatype Head = Head(emptyLine: seq<byte>, method_: seq<byte>, gap: seq<byte>, target: seq<byte>, space: seq<byte>,
                       minor: nat, eol: seq<byte>, lines: seq<Line>, end: seq<byte>)

  const HTTP_1: seq<byte> := [72, 84, 84, 80, 47, 49, 46]

  ghost predicate AreTchars(t: seq<byte>) {
    forall k :: 0 <= k < |t| ==> IsTchar(t[k])
  }

  ghost predicate AreTargetChars(t: seq<byte>) {
    forall k :: 0 <= k < |t| ==> IsTargetChar(t[k])
  }

  ghost predicate AreFieldChars(t: seq<byte>) {
    forall k :: 0 <= k < |t| ==> IsFieldChar(t[k])
  }

  ghost predicate AreOws(t: seq<byte>) {
    forall k :: 0 <= k < |t| ==> IsOws(t[k])
  }

  ghost predicate AreSpaces(t: seq<byte>) {
    forall k :: 0 <= k < |t| ==> t[k] == SP
  }

  predicate IsEol(t: seq<byte>) {
    t == CRLF || t == [LF]
  }

  ghost predicate IsLine(l: Line, first: bool) {
    && AreFieldChars(l.value) && AreOws(l.after) && IsEol(l.eol)
    && (l.value != [] ==> !IsOws(l.value[|l.value| - 1]))
    && match l
       case Field(name, before, value, after, _) =>
         && name != [] && AreTchars(name) && AreOws(before)
         && (if value == [] then after == [] else !IsOws(value[0]))
       case Folded(value, after, _) =>
         !first && value + after != [] && IsOws((value + after)[0])
  }

  ghost predicate IsHead(h: Head) {
    && (h.emptyLine == [] || IsEol(h.emptyLine))
    && h.method_ != [] && AreTchars(h.method_) && h.gap != [] && AreSpaces(h.gap)
    && h.target != [] && AreTargetChars(h.target) && h.space != [] && AreSpaces(h.space)
    && h.minor < 10 && IsEol(h.eol) && IsEol(h.end)
    && (forall k :: 0 <= k < |h.lines| ==> IsLine(h.lines[k], k == 0))
  }

  function LineText(l: Line): seq<byte> {
    match l
    case Field(name, before, value, after, eol) => name + [COLON] + before + (value + after + eol)
    case Folded(value, after, eol) => value + after + eol
  }

  function LinesText(ls: seq<Line>): seq<byte> {
    if ls == [] then [] else LineText(ls[0]) + LinesText(ls[1..])
  }

  function TargetText(h: Head): seq<byte> {
    h.method_ + h.gap + (h.target + h.space)
  }

  function VersionText(h: Head): seq<byte>
    requires h.minor < 10
  {
    HTTP_1 + [ZERO + h.minor] + h.eol
  }

  function HeadText(h: Head): seq<byte>
    requires h.minor < 10
  {
    h.emptyLine + TargetText(h) + (VersionText(h) + LinesText(h.lines) + h.end)
  }

  /** The header that the parser reports for a line at i. */
  function LineAt(l: Line, i: nat): Header {
    match l
    case Field(name, before, value, _, _) => Header(Some(Slice(i, |name|)), Slice(i + |name| + 1 + |before|, |value|))
    case Folded(value, _, _) => Header(None, Slice(i, |value|))
  }

  function LinesAt(ls: seq<Line>, i: nat): (hs: seq<Header>)
    ensures |hs| == |ls|
  {
    if ls == [] then [] else [LineAt(ls[0], i)] + LinesAt(ls[1..], i + |LineText(ls[0])|)
  }

  /** Where the header lines of a head begin. */
  function LinesStart(h: Head): nat {
    |h.emptyLine| + |TargetText(h)| + 8 + |h.eol|
  }

  /** The request that the parser reports for a head. */
  function RequestOf(h: Head): Request {
    var i := |h.emptyLine|;
    Request(Slice(i, |h.method_|), Slice(i + |h.method_| + |h.gap|, |h.target|), h.minor,
            LinesAt(h.lines, LinesStart(h)))
  }

  // ----- the scanners -----

  /** What holds of the characters of a text holds where it stands. */
  lemma TcharsStand(s: seq<byte>, i: nat, t: seq<byte>)
    requires At(s, i, t) && AreTchars(t)
    ensures forall k :: i <= k < i + |t| ==> IsTokenChar(s[k])
  {
    forall k | i <= k < i + |t| ensures IsTokenChar(s[k]) {
      CharactersExactly(s[k]);
      assert s[k] == t[k - i];
    }
  }

  lemma FieldCharsStand(s: seq<byte>, i: nat, t: seq<byte>)
    requires At(s, i, t) && AreFieldChars(t)
    ensures forall k :: i <= k < i + |t| ==> !IsCtl(s[k])
  {
    forall k | i <= k < i + |t| ensures !IsCtl(s[k]) {
      CharactersExactly(s[k]);
      assert s[k] == t[k - i];
    }
  }

  lemma OwsStands(s: seq<byte>, i: nat, t: seq<byte>)
    requires At(s, i, t) && AreOws(t)
    ensures forall k :: i <= k < i + |t| ==> IsBlank(s[k]) && !IsCtl(s[k])
  {
    forall k | i <= k < i + |t| ensures IsBlank(s[k]) {
      assert s[k] == t[k - i];
    }
  }

  lemma SpacesStand(s: seq<byte>, i: nat, t: seq<byte>)
    requires At(s, i, t) && AreSpaces(t)
    ensures forall k :: i <= k < i + |t| ==> s[k] == SP
  {
    forall k | i <= k < i + |t| ensures s[k] == SP {
      assert s[k] == t[k - i];
    }
  }

  lemma TargetCharsStand(s: seq<byte>, i: nat, t: seq<byte>)
    requires At(s, i, t) && AreTargetChars(t)
    ensures forall k :: i <= k < i + |t| ==> IsTargetChar(s[k])
  {
    forall k | i <= k < i + |t| ensures IsTargetChar(s[k]) {
      assert s[k] == t[k - i];
    }
  }

  lemma EolStands(s: seq<byte>, e: nat, eol: seq<byte>)
    requires IsEol(eol) && At(s, e, eol)
    ensures e + |eol| <= |s| && (s[e] == CR || s[e] == LF) && Newline(s, e) == Ok(e + |eol|, ())
  {
    AtFirst(s, e, eol);
    if eol == CRLF {
      AtSecond(s, e, eol);
    }
  }

  /** The scan of a token ends at the first byte that is next or no token character, and with success
      only in the first case. */
  lemma {:induction false} TokenEndsAt(s: seq<byte>, i: nat, e: nat, next: byte)
    requires i <= e < |s| && (s[e] == next || !IsTokenChar(s[e]))
    requires forall k :: i <= k < e ==> IsTokenChar(s[k]) && s[k] != next
    ensures TokenEnd(s, i, next) == if s[e] == next then Ok(e, ()) else Bad
    decreases e - i
  {
    if i < e {
      TokenEndsAt(s, i + 1, e, next);
    }
  }

  lemma {:induction false} PathEndsAt(s: seq<byte>, i: nat, e: nat)
    requires i <= e < |s| && !IsTargetChar(s[e]) && forall k :: i <= k < e ==> IsTargetChar(s[k])
    ensures PathEnd(s, i) == if s[e] == SP then Ok(e, ()) else Bad
    decreases e - i
  {
    if i < e {
      PathEndsAt(s, i + 1, e);
    }
  }

  lemma {:induction false} CtlEndsAt(s: seq<byte>, i: nat, e: nat)
    requires i <= e < |s| && IsCtl(s[e]) && forall k :: i <= k < e ==> !IsCtl(s[k])
    ensures CtlEnd(s, i) == Ok(e, ())
    decreases e - i
  {
    if i < e {
      CtlEndsAt(s, i + 1, e);
    }
  }

  lemma {:induction false} BlanksEndAt(s: seq<byte>, i: nat, e: nat, tabs: bool)
    requires i <= e < |s| && s[e] != SP && (tabs ==> !IsBlank(s[e]))
    requires forall k :: i <= k < e ==> s[k] == SP || (tabs && IsBlank(s[k]))
    ensures BlanksEnd(s, i, tabs) == Ok(e, ())
    decreases e - i
  {
    if i < e {
      BlanksEndAt(s, i + 1, e, tabs);
    }
  }

  lemma {:induction false} TrimmedTo(s: seq<byte>, start: nat, len: nat, n: nat)
    requires n <= len && start + len <= |s| && forall k :: start + n <= k < start + len ==> IsBlank(s[k])
    requires n == 0 || !IsBlank(s[start + n - 1])
    ensures Trimmed(s, start, len) == n
  {
    if n < len {
      TrimmedTo(s, start, len - 1, n);
    }
  }

  // ----- lines -----

  /** The value of a line begins at v. */
  lemma ValueIsParsed(s: seq<byte>, v: nat, l: Line, first: bool)
    requires IsLine(l, first) && At(s, v, l.value + l.after + l.eol)
    ensures v < |s| && (l.value == [] && l.after == [] ==> !IsBlank(s[v]))
    ensures l.value != [] ==> s[v] == l.value[0]
    ensures var n := |l.value| + |l.after|;
      && TokenToEol(s, v) == Ok(v + n + |l.eol|, Slice(v, n)) && Trimmed(s, v, n) == |l.value|
  {
    hide At, CtlEnd, Trimmed, IsFieldChar, IsTchar, AreFieldChars, AreOws, AreTchars, IsEol, Newline;
    var n := |l.value| + |l.after|;
    AtSplit3(s, v, l.value, l.after, l.eol);
    FieldCharsStand(s, v, l.value);
    OwsStands(s, v + |l.value|, l.after);
    EolStands(s, v + n, l.eol);
    CtlEndsAt(s, v, v + n);
    if l.value != [] {
      AtFirst(s, v, l.value);
      AtLast(s, v, l.value);
    }
    TrimmedTo(s, v, n, |l.value|);
  }

  lemma AtLast(s: seq<byte>, i: nat, t: seq<byte>)
    requires At(s, i, t) && t != []
    ensures i + |t| <= |s| && s[i + |t| - 1] == t[|t| - 1]
  {
    assert s[i + (|t| - 1)] == t[|t| - 1];
  }

  lemma FieldStands(s: seq<byte>, i: nat, l: Line)
    requires l.Field? && At(s, i, LineText(l))
    ensures var c := i + |l.name|;
      && At(s, i, l.name) && At(s, c, [COLON]) && At(s, c + 1, l.before)
      && At(s, c + 1 + |l.before|, l.value + l.after + l.eol)
  {
    hide At;
    AtSplit(s, i, l.name + [COLON] + l.before, l.value + l.after + l.eol);
    AtSplit3(s, i, l.name, [COLON], l.before);
  }

  lemma NameIsParsed(s: seq<byte>, i: nat, l: Line, first: bool)
    requires l.Field? && IsLine(l, first) && At(s, i, LineText(l))
    ensures var v := i + |l.name| + 1 + |l.before|;
      && HeaderName(s, i, first) == Ok(v, Some(Slice(i, |l.name|))) && At(s, v, l.value + l.after + l.eol)
    ensures s[i] != CR && s[i] != LF
  {
    hide TokenEnd, BlanksEnd, IsTchar, IsTokenChar, IsFieldChar, At, LineText, AreTchars, AreOws, AreFieldChars;
    var c := i + |l.name|;
    var v := c + 1 + |l.before|;
    FieldStands(s, i, l);
    AtFirst(s, c, [COLON]);
    TcharsStand(s, i, l.name);
    TokensAreClear(s, i, c);
    TokenEndsAt(s, i, c, COLON);
    OwsStands(s, c + 1, l.before);
    ValueIsParsed(s, v, l, first);
    BlanksEndAt(s, c + 1, v, true);
  }

  /** No token character is a delimiter, blank or control. */
  lemma TokensAreClear(s: seq<byte>, i: nat, e: nat)
    requires i <= e <= |s| && forall k :: i <= k < e ==> IsTokenChar(s[k])
    ensures forall k :: i <= k < e ==> s[k] !in {COLON, SP, CR, LF} && !IsBlank(s[k])
  {
  }

  lemma LineIsParsed(s: seq<byte>, i: nat, l: Line, first: bool)
    requires IsLine(l, first) && At(s, i, LineText(l))
    ensures i < |s| && s[i] != CR && s[i] != LF
    ensures HeaderLine(s, i, first) == Ok(i + |LineText(l)|, LineAt(l, i))
  {
    hide HeaderName, TokenToEol, Trimmed, IsTchar, IsFieldChar;
    match l
    case Field(name, before, _, _, _) =>
      NameIsParsed(s, i, l, first);
      ValueIsParsed(s, i + |name| + 1 + |before|, l, first);
    case Folded(value, after, eol) =>
      ValueIsParsed(s, i, l, first);
      AtSplit(s, i, value + after, eol);
      AtFirst(s, i, value + after);
      ContinuesLine(s, i);
  }

  lemma ContinuesLine(s: seq<byte>, i: nat)
    requires i < |s| && IsBlank(s[i])
    ensures HeaderName(s, i, false) == Ok(i, None)
  {
  }

  /** The lines are parsed in order, as many as the limit allows, and one more is refused. */
  lemma {:induction false} LinesThen(s: seq<byte>, i: nat, ls: seq<Line>, done: seq<Header>, max: nat)
    requires forall k :: 0 <= k < |ls| ==> IsLine(ls[k], done == [] && k == 0)
    requires At(s, i, LinesText(ls)) && |done| <= max
    ensures i + |LinesText(ls)| <= |s|
    ensures Headers(s, i, done, max) ==
              if |done| + |ls| <= max then Headers(s, i + |LinesText(ls)|, done + LinesAt(ls, i), max) else Bad
    decreases |ls|
  {
    hide HeaderLine, IsLine, LineAt, LineText;
    if ls == [] {
      assert done + [] == done;
    } else {
      var n, h := i + |LineText(ls[0])|, LineAt(ls[0], i);
      AtSplit(s, i, LineText(ls[0]), LinesText(ls[1..]));
      LineIsParsed(s, i, ls[0], done == []);
      if |done| < max {
        LinesThen(s, n, ls[1..], done + [h], max);
        assert done + [h] + LinesAt(ls[1..], n) == done + ([h] + LinesAt(ls[1..], n));
      }
    }
  }

  /** And so it is up to the empty line. */
  lemma LinesAreParsed(s: seq<byte>, i: nat, ls: seq<Line>, end: seq<byte>, done: seq<Header>, max: nat)
    requires forall k :: 0 <= k < |ls| ==> IsLine(ls[k], done == [] && k == 0)
    requires At(s, i, LinesText(ls)) && At(s, i + |LinesText(ls)|, end) && IsEol(end) && |done| <= max
    ensures Headers(s, i, done, max) ==
              if |done| + |ls| <= max then Ok(i + |LinesText(ls)| + |end|, done + LinesAt(ls, i)) else Bad
  {
    hide HeaderLine, IsLine, LinesAt, LinesText;
    LinesThen(s, i, ls, done, max);
    EolStands(s, i + |LinesText(ls)|, end);
  }

  // ----- the request line -----

  lemma TargetIsParsed(s: seq<byte>, i: nat, h: Head)
    requires IsHead(h) && At(s, i, TargetText(h)) && i + |TargetText(h)| < |s| && s[i + |TargetText(h)|] != SP
    ensures s[i] != CR && s[i] != LF
    ensures Target(s, i) ==
      Ok(i + |TargetText(h)|, (Slice(i, |h.method_|), Slice(i + |h.method_| + |h.gap|, |h.target|)))
  {
    hide TokenEnd, PathEnd, BlanksEnd, IsTchar, IsTokenChar, IsLine;
    var m := i + |h.method_|;
    var p := m + |h.gap|;
    var e := p + |h.target|;
    AtSplit(s, i, h.method_ + h.gap, h.target + h.space);
    AtSplit(s, i, h.method_, h.gap);
    AtSplit(s, p, h.target, h.space);
    AtFirst(s, m, h.gap);
    AtFirst(s, e, h.space);
    TcharsStand(s, i, h.method_);
    TokensAreClear(s, i, m);
    TokenEndsAt(s, i, m, SP);
    SpacesStand(s, m, h.gap);
    SpacesStand(s, e, h.space);
    TargetCharsStand(s, p, h.target);
    assert IsTargetChar(s[p]);
    BlanksEndAt(s, m + 1, p, false);
    PathEndsAt(s, p, e);
    BlanksEndAt(s, e + 1, e + |h.space|, false);
  }

  lemma VersionIsParsed(s: seq<byte>, v: nat, h: Head)
    requires h.minor < 10 && IsEol(h.eol) && At(s, v, VersionText(h))
    ensures v < |s| && s[v] == 72
    ensures Version(s, v) == Ok(v + 8, h.minor) && Newline(s, v + 8) == Ok(v + 8 + |h.eol|, ())
  {
    AtSplit3(s, v, HTTP_1, [ZERO + h.minor], h.eol);
    AtFirst(s, v, HTTP_1);
    AtFirst(s, v + 7, [ZERO + h.minor]);
    EolStands(s, v + 8, h.eol);
    forall k | 0 <= k < 7 ensures s[v..v + 7][k] == HTTP_1[k] {
      assert s[v + k] == HTTP_1[k];
    }
    assert s[v..v + 7] == HTTP_1;
  }

  // ----- the head -----

  lemma StandsAtStart(s: seq<byte>)
    ensures At(s, 0, s)
  {
  }

  /** Where its parts stand. */
  lemma HeadStands(h: Head, rest: seq<byte>)
    requires h.minor < 10
    ensures var (s, i, f) := (HeadText(h) + rest, |h.emptyLine|, LinesStart(h));
      && At(s, 0, h.emptyLine) && At(s, i, TargetText(h)) && At(s, i + |TargetText(h)|, VersionText(h))
      && At(s, f, LinesText(h.lines)) && At(s, f + |LinesText(h.lines)|, h.end)
      && |HeadText(h)| == f + |LinesText(h.lines)| + |h.end|
  {
    hide TargetText, LinesText, At;
    var s := HeadText(h) + rest;
    StandsAtStart(s);
    AtSplit(s, 0, HeadText(h), rest);
    FiveStand(s, h.emptyLine, TargetText(h), VersionText(h), LinesText(h.lines), h.end);
  }

  lemma FiveStand(s: seq<byte>, a: seq<byte>, b: seq<byte>, c: seq<byte>, d: seq<byte>, e: seq<byte>)
    requires At(s, 0, a + b + (c + d + e))
    ensures At(s, 0, a) && At(s, |a|, b) && At(s, |a| + |b|, c) && At(s, |a| + |b| + |c|, d)
    ensures At(s, |a| + |b| + |c| + |d|, e)
    ensures |a + b + (c + d + e)| == |a| + |b| + |c| + |d| + |e|
  {
    hide At;
    AtSplit3(s, 0, a, b, c + d + e);
    AtSplit3(s, |a| + |b|, c, d, e);
  }

  lemma RequestLineIsParsed(s: seq<byte>, h: Head)
    requires IsHead(h) && At(s, 0, h.emptyLine) && At(s, |h.emptyLine|, TargetText(h))
    requires At(s, |h.emptyLine| + |TargetText(h)|, VersionText(h))
    ensures var i := |h.emptyLine|;
      && LeadingLine(s) == Ok(i, ()) && i <= |s|
      && RequestLine(s, i) ==
           Ok(LinesStart(h), (Slice(i, |h.method_|), Slice(i + |h.method_| + |h.gap|, |h.target|), h.minor))
  {
    hide Target, Version, TargetText, VersionText, IsLine;
    VersionIsParsed(s, |h.emptyLine| + |TargetText(h)|, h);
    TargetIsParsed(s, |h.emptyLine|, h);
    if h.emptyLine != [] {
      EolStands(s, 0, h.emptyLine);
    }
  }

  /** Any head of HTTP/1.x parses with its own length, whatever follows, if it does not have too many
      header lines; otherwise it is refused. */
  lemma HeadIsParsed(h: Head, rest: seq<byte>, max: nat)
    requires IsHead(h)
    ensures FromScratch(HeadText(h) + rest, max) ==
              if |h.lines| <= max then Ok(|HeadText(h)|, RequestOf(h)) else Bad
  {
    hide LeadingLine, RequestLine, Headers, LinesAt, LinesText, TargetText, VersionText, HeadText, At, IsLine;
    var s, f := HeadText(h) + rest, LinesStart(h);
    HeadStands(h, rest);
    RequestLineIsParsed(s, h);
    LinesAreParsed(s, f, h.lines, h.end, [], max);
    assert [] + LinesAt(h.lines, f) == LinesAt(h.lines, f);
  }

  // ----- reading the parts back -----

  function Text(s: seq<byte>, part: Slice): seq<byte>
    requires part.start + part.len <= |s|
  {
    s[part.start..part.start + part.len]
  }

  ghost predicate Holds(s: seq<byte>, part: Slice, t: seq<byte>) {
    part.start + part.len <= |s| && Text(s, part) == t
  }

  lemma StandsThere(s: seq<byte>, i: nat, t: seq<byte>)
    requires At(s, i, t)
    ensures Holds(s, Slice(i, |t|), t)
  {
    forall k | 0 <= k < |t| ensures s[i..i + |t|][k] == t[k] {
      assert s[i + k] == t[k];
    }
  }

  /** The header holds the value of the line, and its name if it has one. */
  ghost predicate HoldsLine(s: seq<byte>, h: Header, l: Line) {
    && Holds(s, h.value, l.value)
    && match l
       case Field(name, _, _, _, _) => h.name.Some? && Holds(s, h.name.value, name)
       case Folded(_, _, _) => h.name.None?
  }

  lemma {:induction false} LinesHold(s: seq<byte>, i: nat, ls: seq<Line>, k: nat)
    requires At(s, i, LinesText(ls)) && k < |ls|
    ensures HoldsLine(s, LinesAt(ls, i)[k], ls[k])
    decreases |ls|
  {
    hide At, LineText, LineAt, HoldsLine;
    var l := ls[0];
    AtSplit(s, i, LineText(l), LinesText(ls[1..]));
    if k == 0 {
      LineHolds(s, i, l);
    } else {
      LinesHold(s, i + |LineText(l)|, ls[1..], k - 1);
    }
  }

  lemma FoldedStands(s: seq<byte>, i: nat, l: Line)
    requires l.Folded? && At(s, i, LineText(l))
    ensures At(s, i, l.value)
  {
    hide At;
    AtSplit3(s, i, l.value, l.after, l.eol);
  }

  lemma LineHolds(s: seq<byte>, i: nat, l: Line)
    requires At(s, i, LineText(l))
    ensures HoldsLine(s, LineAt(l, i), l)
  {
    hide At, Holds, LineText;
    match l
    case Field(name, before, value, after, eol) =>
      FieldStands(s, i, l);
      AtSplit3(s, i + |name| + 1 + |before|, value, after, eol);
      StandsThere(s, i, name);
      StandsThere(s, i + |name| + 1 + |before|, value);
    case Folded(value, after, eol) =>
      FoldedStands(s, i, l);
      StandsThere(s, i, value);
  }

  lemma TargetHolds(s: seq<byte>, i: nat, h: Head)
    requires At(s, i, TargetText(h))
    ensures Holds(s, Slice(i, |h.method_|), h.method_)
    ensures Holds(s, Slice(i + |h.method_| + |h.gap|, |h.target|), h.target)
  {
    hide At, Holds;
    AtSplit(s, i, h.method_ + h.gap, h.target + h.space);
    AtSplit(s, i, h.method_, h.gap);
    AtSplit(s, i + |h.method_| + |h.gap|, h.target, h.space);
    StandsThere(s, i, h.method_);
    StandsThere(s, i + |h.method_| + |h.gap|, h.target);
  }

  /** The slices reported for a head hold its method, its target and the name and value of each of its
      lines, in order. */
  lemma RoundTrip(h: Head, rest: seq<byte>, max: nat)
    requires IsHead(h) && |h.lines| <= max
    ensures
      var s, r := HeadText(h) + rest, FromScratch(HeadText(h) + rest, max);
      && r.Ok? && r.pos == |HeadText(h)|
      && Holds(s, r.value.method_, h.method_) && Holds(s, r.value.path, h.target)
      && r.value.minorVersion == h.minor && |r.value.headers| == |h.lines|
      && forall k :: 0 <= k < |h.lines| ==> HoldsLine(s, r.value.headers[k], h.lines[k])
  {
    hide FromScratch, HeadText, TargetText, VersionText, LinesAt, LinesText, Holds, HoldsLine, At, IsLine;
    HeadIsParsed(h, rest, max);
    HeadStands(h, rest);
    var s, f := HeadText(h) + rest, LinesStart(h);
    TargetHolds(s, |h.emptyLine|, h);
    forall k | 0 <= k < |h.lines| ensures HoldsLine(s, RequestOf(h).headers[k], h.lines[k]) {
      LinesHold(s, f, h.lines, k);
    }
  }

  /** And so it does through the read loop, however the bytes arrive, as long as the reads up to the end
      of the head are within the limit. */
  lemma AnyReadsParse(h: Head, rest: seq<byte>, fragments: seq<seq<byte>>, limit: nat, max: nat)
    requires IsHead(h) && |h.lines| <= max
    requires NoneEmpty(fragments) && Concat(fragments) == HeadText(h) + rest
    ensures ReadLoop([], fragments, limit, max) ==
              if |Received(fragments, ReadsTaken([], fragments, max))| <= limit then Parsed(|HeadText(h)|, RequestOf(h))
              else TooLarge
  {
    hide FromScratch, ReadLoop, HeadText, RequestOf, Received, ReadsTaken;
    HeadIsParsed(h, rest, max);
    TooLargeExactly([], fragments, limit, max);
    ReadsDoNotMatter(fragments, limit, max, |HeadText(h)|, RequestOf(h));
  }
}
