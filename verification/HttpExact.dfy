/** Only heads parse, and a byte out of place is refused as soon as it is read. */
module HttpExact {
  import opened Bytes
  import opened HttpGrammar
  import opened HttpRoundTrip
  import opened Wrappers

  // ----- what the scanners pass -----

  lemma {:induction false} TokenPassed(s: seq<byte>, i: nat, next: byte)
    requires i <= |s| && TokenEnd(s, i, next).Ok?
    ensures AreTchars(s[i..TokenEnd(s, i, next).pos])
    decreases |s| - i
  {
    if s[i] != next {
      var e := TokenEnd(s, i, next).pos;
      TokenPassed(s, i + 1, next);
      CharactersExactly(s[i]);
      assert s[i..e] == [s[i]] + s[i + 1..e];
    }
  }

  lemma {:induction false} PathPassed(s: seq<byte>, i: nat)
    requires i <= |s| && PathEnd(s, i).Ok?
    ensures AreTargetChars(s[i..PathEnd(s, i).pos])
    decreases |s| - i
  {
    if s[i] != SP {
      var e := PathEnd(s, i).pos;
      PathPassed(s, i + 1);
      assert s[i..e] == [s[i]] + s[i + 1..e];
    }
  }

  lemma {:induction false} BlanksPassed(s: seq<byte>, i: nat, tabs: bool)
    requires i <= |s| && BlanksEnd(s, i, tabs).Ok?
    ensures var e := BlanksEnd(s, i, tabs).pos;
            if tabs then AreOws(s[i..e]) && !IsOws(s[e]) else AreSpaces(s[i..e]) && s[e] != SP
    decreases |s| - i
  {
    if s[i] == SP || (tabs && s[i] == HT) {
      var e := BlanksEnd(s, i, tabs).pos;
      BlanksPassed(s, i + 1, tabs);
      assert s[i..e] == [s[i]] + s[i + 1..e];
    }
  }

  lemma {:induction false} CtlPassed(s: seq<byte>, i: nat)
    requires i <= |s| && CtlEnd(s, i).Ok?
    ensures AreFieldChars(s[i..CtlEnd(s, i).pos])
    decreases |s| - i
  {
    if !IsCtl(s[i]) {
      var e := CtlEnd(s, i).pos;
      CtlPassed(s, i + 1);
      assert s[i..e] == [s[i]] + s[i + 1..e];
    }
  }

  lemma EolPassed(s: seq<byte>, i: nat)
    requires i <= |s| && Newline(s, i).Ok?
    ensures IsEol(s[i..Newline(s, i).pos])
  {
  }

  lemma {:induction false} BlanksTrimmed(s: seq<byte>, start: nat, len: nat)
    requires start + len <= |s|
    ensures var n := Trimmed(s, start, len);
      AreOws(s[start + n..start + len]) && (n > 0 ==> !IsOws(s[start + n - 1]))
  {
    if len > 0 && IsBlank(s[start + len - 1]) {
      var n := Trimmed(s, start, len);
      BlanksTrimmed(s, start, len - 1);
      assert s[start + n..start + len] == s[start + n..start + len - 1] + [s[start + len - 1]];
    }
  }

  // ----- only heads parse -----

  /** The value and the line end, from v on. */
  lemma ValueIsFound(s: seq<byte>, v: nat) returns (value: seq<byte>, after: seq<byte>, eol: seq<byte>)
    requires v <= |s| && TokenToEol(s, v).Ok?
    ensures AreFieldChars(value) && AreOws(after) && IsEol(eol) && s[v..TokenToEol(s, v).pos] == value + after + eol
    ensures |value| == Trimmed(s, v, TokenToEol(s, v).value.len) && (value != [] ==> !IsOws(value[|value| - 1]))
  {
    hide CtlEnd, Trimmed, Newline, IsFieldChar, IsOws;
    var e, p := CtlEnd(s, v).pos, TokenToEol(s, v).pos;
    var n := Trimmed(s, v, e - v);
    CtlPassed(s, v);
    BlanksTrimmed(s, v, e - v);
    EolPassed(s, e);
    value, after, eol := s[v..v + n], s[v + n..e], s[e..p];
    assert forall k :: 0 <= k < n ==> value[k] == s[v..e][k];
  }

  lemma LineIsFound(s: seq<byte>, i: nat, first: bool) returns (l: Line)
    requires i < |s| && HeaderLine(s, i, first).Ok?
    ensures IsLine(l, first) && LineText(l) == s[i..HeaderLine(s, i, first).pos]
    ensures LineAt(l, i) == HeaderLine(s, i, first).value
  {
    hide HeaderName, TokenToEol, Trimmed, AreTchars, AreFieldChars, AreOws, IsEol;
    var v, p := HeaderName(s, i, first).pos, HeaderLine(s, i, first).pos;
    var value, after, eol := ValueIsFound(s, v);
    if HeaderName(s, i, first).value.None? {
      FoldIsFound(s, i, first);
      l := Folded(value, after, eol);
      FoldedIsLine(s, i, l, p);
    } else {
      var name, before := NameIsFound(s, i, first);
      l := Field(name, before, value, after, eol);
      ValueBegins(s, v, p, value, after, eol);
      assert s[i..p] == s[i..v] + s[v..p];
    }
  }

  lemma FoldIsFound(s: seq<byte>, i: nat, first: bool)
    requires i < |s| && HeaderName(s, i, first).Ok? && HeaderName(s, i, first).value.None?
    ensures !first && IsOws(s[i]) && HeaderName(s, i, first).pos == i
  {
    hide TokenEnd, BlanksEnd;
  }

  /** The name, the colon, and the white space before the value. */
  lemma NameIsFound(s: seq<byte>, i: nat, first: bool) returns (name: seq<byte>, before: seq<byte>)
    requires i < |s| && HeaderName(s, i, first).Ok? && HeaderName(s, i, first).value.Some?
    ensures var v := HeaderName(s, i, first).pos;
      && v < |s| && !IsOws(s[v]) && name != [] && AreTchars(name) && AreOws(before)
      && name + [COLON] + before == s[i..v] && HeaderName(s, i, first).value == Some(Slice(i, |name|))
  {
    hide TokenEnd, BlanksEnd, AreTchars, AreOws;
    var e := TokenEnd(s, i, COLON).pos;
    var v := BlanksEnd(s, e + 1, true).pos;
    TokenPassed(s, i, COLON);
    BlanksPassed(s, e + 1, true);
    name, before := s[i..e], s[e + 1..v];
    assert s[i..v] == s[i..e] + [COLON] + s[e + 1..v];
  }

  lemma FoldedIsLine(s: seq<byte>, i: nat, l: Line, p: nat)
    requires l.Folded? && i < p <= |s| && IsOws(s[i]) && s[i..p] == l.value + l.after + l.eol && IsEol(l.eol)
    ensures l.value + l.after != [] && IsOws((l.value + l.after)[0])
  {
    assert s[i] == s[i..p][0];
  }

  lemma ValueBegins(s: seq<byte>, v: nat, p: nat, value: seq<byte>, after: seq<byte>, eol: seq<byte>)
    requires v < p <= |s| && !IsOws(s[v]) && AreOws(after) && IsEol(eol) && s[v..p] == value + after + eol
    ensures if value == [] then after == [] else !IsOws(value[0])
  {
    assert s[v] == s[v..p][0];
  }

  lemma {:induction false} LinesAreFound(s: seq<byte>, i: nat, done: seq<Header>, max: nat)
    returns (ls: seq<Line>, end: seq<byte>)
    requires i <= |s| && |done| <= max && Headers(s, i, done, max).Ok?
    ensures |done| + |ls| <= max && (forall k :: 0 <= k < |ls| ==> IsLine(ls[k], done == [] && k == 0))
    ensures IsEol(end) && LinesText(ls) + end == s[i..Headers(s, i, done, max).pos]
    ensures Headers(s, i, done, max).value == done + LinesAt(ls, i)
    decreases |s| - i
  {
    hide HeaderLine, IsLine, LineText, LineAt;
    var p := Headers(s, i, done, max).pos;
    if s[i] == CR || s[i] == LF {
      EolPassed(s, i);
      ls, end := [], s[i..p];
    } else {
      var h := HeaderLine(s, i, done == []);
      var l := LineIsFound(s, i, done == []);
      var more, e := LinesAreFound(s, h.pos, done + [h.value], max);
      ls, end := [l] + more, e;
      assert LinesText(ls) == LineText(l) + LinesText(more);
      assert s[i..p] == s[i..h.pos] + s[h.pos..p];
      assert |LineText(l)| == h.pos - i;
      assert done + [h.value] + LinesAt(more, h.pos) == done + ([h.value] + LinesAt(more, h.pos));
    }
  }

  /** The parts of what parses as a request target. */
  lemma TargetIsFound(s: seq<byte>, i: nat)
    returns (method_: seq<byte>, gap: seq<byte>, target: seq<byte>, space: seq<byte>)
    requires i <= |s| && Target(s, i).Ok?
    ensures method_ != [] && AreTchars(method_) && gap != [] && AreSpaces(gap)
    ensures target != [] && AreTargetChars(target) && space != [] && AreSpaces(space)
    ensures method_ + gap + (target + space) == s[i..Target(s, i).pos]
    ensures Target(s, i).value == (Slice(i, |method_|), Slice(i + |method_| + |gap|, |target|))
  {
    hide TokenEnd, BlanksEnd, PathEnd, IsTchar;
    var m := TokenEnd(s, i, SP).pos;
    var p := BlanksEnd(s, m + 1, false).pos;
    var e := PathEnd(s, p).pos;
    var v := BlanksEnd(s, e + 1, false).pos;
    TokenPassed(s, i, SP);
    BlanksPassed(s, m + 1, false);
    PathPassed(s, p);
    BlanksPassed(s, e + 1, false);
    method_, gap, target, space := s[i..m], s[m..p], s[p..e], s[e..v];
    assert gap == [SP] + s[m + 1..p] && space == [SP] + s[e + 1..v];
    assert s[i..v] == method_ + gap + (target + space);
  }

  lemma VersionIsFound(s: seq<byte>, v: nat)
    requires v <= |s| && Version(s, v).Ok?
    ensures v + 8 <= |s| && s[v..v + 8] == HTTP_1 + [ZERO + Version(s, v).value] && Version(s, v).value < 10
  {
    assert s[v..v + 8] == s[v..v + 7] + [s[v + 7]];
  }

  lemma RequestLineIsFound(s: seq<byte>, i: nat)
    returns (method_: seq<byte>, gap: seq<byte>, target: seq<byte>, space: seq<byte>, eol: seq<byte>)
    requires i <= |s| && RequestLine(s, i).Ok?
    ensures method_ != [] && AreTchars(method_) && gap != [] && AreSpaces(gap)
    ensures target != [] && AreTargetChars(target) && space != [] && AreSpaces(space)
    ensures IsEol(eol) && RequestLine(s, i).value.2 < 10
    ensures method_ + gap + (target + space) + (HTTP_1 + [ZERO + RequestLine(s, i).value.2] + eol)
            == s[i..RequestLine(s, i).pos]
    ensures RequestLine(s, i).value ==
            (Slice(i, |method_|), Slice(i + |method_| + |gap|, |target|), RequestLine(s, i).value.2)
  {
    hide Target, Version, Newline, AreTchars, AreTargetChars, AreSpaces, IsEol;
    var v := Target(s, i).pos;
    var e, f := Version(s, v).pos, RequestLine(s, i).pos;
    method_, gap, target, space := TargetIsFound(s, i);
    VersionIsFound(s, v);
    EolPassed(s, e);
    eol := s[e..f];
    assert s[i..f] == s[i..v] + (s[v..e] + s[e..f]);
  }

  /** Whatever parses is a head, and the parts reported are its parts. */
  lemma HeadIsFound(s: seq<byte>, max: nat) returns (h: Head)
    requires FromScratch(s, max).Ok?
    ensures IsHead(h) && |h.lines| <= max && HeadText(h) == s[..FromScratch(s, max).pos]
    ensures FromScratch(s, max).value == RequestOf(h)
  {
    hide LeadingLine, RequestLine, Headers, IsLine, LinesText, LinesAt, AreTchars, AreTargetChars, AreSpaces, IsEol;
    var i := LeadingLine(s).pos;
    LeadingIsFound(s);
    var f, p := RequestLine(s, i).pos, FromScratch(s, max).pos;
    var method_, gap, target, space, eol := RequestLineIsFound(s, i);
    var lines, end := LinesAreFound(s, f, [], max);
    h := Head(s[..i], method_, gap, target, space, RequestLine(s, i).value.2, eol, lines, end);
    LengthsAddUp(h, s, i, f);
    assert s[..p] == s[..i] + s[i..f] + s[f..p];
    assert [] + LinesAt(lines, f) == LinesAt(lines, f);
  }

  lemma LengthsAddUp(h: Head, s: seq<byte>, i: nat, f: nat)
    requires h.minor < 10 && i <= f <= |s| && h.emptyLine == s[..i] && TargetText(h) + VersionText(h) == s[i..f]
    ensures LinesStart(h) == f
    ensures HeadText(h) == s[..i] + s[i..f] + (LinesText(h.lines) + h.end)
  {
    assert |TargetText(h)| + |VersionText(h)| == |s[i..f]|;
    assert HeadText(h) == s[..i] + (TargetText(h) + VersionText(h)) + (LinesText(h.lines) + h.end);
  }

  lemma LeadingIsFound(s: seq<byte>)
    requires LeadingLine(s).Ok?
    ensures var e := s[..LeadingLine(s).pos]; e == [] || IsEol(e)
  {
  }

  /** What parses is exactly what begins with a head of not too many lines. */
  lemma ParsesExactly(s: seq<byte>, max: nat)
    ensures FromScratch(s, max).Ok? <==> exists h :: IsHead(h) && |h.lines| <= max && HeadText(h) <= s
  {
    hide FromScratch, IsLine, HeadText, RequestOf;
    if FromScratch(s, max).Ok? {
      var h := HeadIsFound(s, max);
    }
    if h :| IsHead(h) && |h.lines| <= max && HeadText(h) <= s {
      HeadIsParsed(h, s[|HeadText(h)|..], max);
      assert HeadText(h) + s[|HeadText(h)|..] == s;
    }
  }

  // ----- bytes out of place -----

  lemma Adjoin(a: seq<byte>, b: seq<byte>)
    ensures At(a + b, 0, a) && At(a + b, |a|, b)
  {
  }

  lemma BeginsWith(s: seq<byte>, i: nat, b: byte, rest: seq<byte>)
    requires At(s, i, [b] + rest)
    ensures i < |s| && s[i] == b && At(s, i + 1, rest)
  {
    AtFirst(s, i, [b] + rest);
    AtSplit(s, i, [b], rest);
  }

  lemma RefusedInRequestLine(s: seq<byte>, emptyLine: seq<byte>, max: nat)
    requires (emptyLine == [] || IsEol(emptyLine)) && At(s, 0, emptyLine) && |emptyLine| < |s|
    requires emptyLine == [] ==> s[0] != CR && s[0] != LF
    requires RequestLine(s, |emptyLine|).Bad?
    ensures FromScratch(s, max).Bad?
  {
    hide RequestLine, Headers, IsEol;
    if emptyLine != [] {
      EolStands(s, 0, emptyLine);
    }
  }

  /** In the method only token characters. */
  lemma MethodByteIsRefused(emptyLine: seq<byte>, t: seq<byte>, b: byte, rest: seq<byte>, max: nat)
    requires (emptyLine == [] || IsEol(emptyLine)) && AreTchars(t) && !IsTchar(b) && b != SP
    requires emptyLine == [] && t == [] ==> b != CR && b != LF
    ensures FromScratch(emptyLine + t + ([b] + rest), max).Bad?
  {
    hide At, TokenEnd, IsTchar, IsTokenChar, Version, FromScratch, IsEol;
    var s, i := emptyLine + t + ([b] + rest), |emptyLine|;
    var e := i + |t|;
    Adjoin(emptyLine + t, [b] + rest);
    AtSplit(s, 0, emptyLine, t);
    BeginsWith(s, e, b, rest);
    TcharsStand(s, i, t);
    TokensAreClear(s, i, e);
    CharactersExactly(b);
    TokenEndsAt(s, i, e, SP);
    RefusedInRequestLine(s, emptyLine, max);
  }

  /** In the target neither controls nor DEL. */
  lemma TargetByteIsRefused(h: Head, t: seq<byte>, b: byte, rest: seq<byte>, max: nat)
    requires IsHead(h) && AreTargetChars(t) && !IsTargetChar(b) && b != SP
    ensures FromScratch(h.emptyLine + (h.method_ + h.gap) + (t + ([b] + rest)), max).Bad?
  {
    hide At, Target, Version, FromScratch, AreTchars, AreSpaces, IsTargetChar, AreTargetChars, IsLine, IsEol;
    var s, i := h.emptyLine + (h.method_ + h.gap) + (t + ([b] + rest)), |h.emptyLine|;
    var m := i + |h.method_|;
    Adjoin(h.emptyLine + (h.method_ + h.gap), t + ([b] + rest));
    AtSplit(s, 0, h.emptyLine, h.method_ + h.gap);
    AtSplit(s, i, h.method_, h.gap);
    AtSplit(s, m + |h.gap|, t, [b] + rest);
    BeginsWith(s, m + |h.gap| + |t|, b, rest);
    BadTarget(s, i, h, t);
    RefusedInRequestLine(s, h.emptyLine, max);
  }

  lemma BadTarget(s: seq<byte>, i: nat, h: Head, t: seq<byte>)
    requires IsHead(h) && At(s, i, h.method_) && At(s, i + |h.method_|, h.gap)
    requires At(s, i + |h.method_| + |h.gap|, t) && AreTargetChars(t)
    requires var e := i + |h.method_| + |h.gap| + |t|; e < |s| && !IsTargetChar(s[e]) && s[e] != SP
    ensures s[i] != CR && s[i] != LF && Target(s, i).Bad?
  {
    hide TokenEnd, PathEnd, BlanksEnd, IsTchar, IsTokenChar, IsLine;
    var m := i + |h.method_|;
    var p := m + |h.gap|;
    AtFirst(s, m, h.gap);
    TcharsStand(s, i, h.method_);
    TokensAreClear(s, i, m);
    TokenEndsAt(s, i, m, SP);
    SpacesStand(s, m, h.gap);
    TargetCharsStand(s, p, t);
    assert s[p] != SP;
    BlanksEndAt(s, m + 1, p, false);
    PathEndsAt(s, p, p + |t|);
  }

  /** Not the version, or not what may follow it. */
  lemma BadVersion(s: seq<byte>, h: Head, max: nat)
    requires IsHead(h) && At(s, 0, h.emptyLine) && At(s, |h.emptyLine|, TargetText(h))
    requires var v := |h.emptyLine| + |TargetText(h)|;
      && v < |s| && s[v] != SP
      && (Version(s, v).Bad? || (Version(s, v).Ok? && Newline(s, Version(s, v).pos).Bad?))
    ensures FromScratch(s, max).Bad?
  {
    hide Target, Version, Newline, TargetText, FromScratch, IsLine, IsEol;
    TargetIsParsed(s, |h.emptyLine|, h);
    RefusedInRequestLine(s, h.emptyLine, max);
  }

  lemma SliceStands(s: seq<byte>, v: nat, w: seq<byte>, n: nat)
    requires At(s, v, w) && n <= |w|
    ensures s[v..v + n] == w[..n]
  {
    forall k | 0 <= k < n ensures s[v..v + n][k] == w[..n][k] {
      assert s[v + k] == w[k];
    }
  }

  lemma OtherVersion(s: seq<byte>, v: nat, w: seq<byte>)
    requires At(s, v, w) && |w| == 9 && !(w[..7] == HTTP_1 && IsDigit(w[7]))
    ensures Version(s, v).Bad?
  {
    SliceStands(s, v, w, 7);
    assert s[v + 7] == w[7];
  }

  /** What follows is the version, and nothing else of that length. */
  lemma VersionIsRefused(h: Head, w: seq<byte>, rest: seq<byte>, max: nat)
    requires IsHead(h) && |w| == 9 && w[0] != SP && !(w[..7] == HTTP_1 && IsDigit(w[7]))
    ensures FromScratch(h.emptyLine + TargetText(h) + (w + rest), max).Bad?
  {
    hide At, Version, TargetText, FromScratch, IsLine, IsEol;
    var s, v := h.emptyLine + TargetText(h) + (w + rest), |h.emptyLine| + |TargetText(h)|;
    Adjoin(h.emptyLine + TargetText(h), w + rest);
    AtSplit(s, 0, h.emptyLine, TargetText(h));
    AtSplit(s, v, w, rest);
    AtFirst(s, v, w);
    OtherVersion(s, v, w);
    BadVersion(s, h, max);
  }

  /** Not the beginning of a line end: no CR or LF, or a CR without LF. */
  predicate IsNoEol(b: byte, rest: seq<byte>) {
    b != LF && (b == CR ==> rest != [] && rest[0] != LF)
  }

  lemma NoEolStands(s: seq<byte>, i: nat, b: byte, rest: seq<byte>)
    requires At(s, i, [b] + rest) && IsNoEol(b, rest)
    ensures i < |s| && s[i] == b && Newline(s, i).Bad?
  {
    BeginsWith(s, i, b, rest);
    if b == CR {
      AtFirst(s, i + 1, rest);
    }
  }

  lemma VersionStands(s: seq<byte>, v: nat, minor: nat)
    requires minor < 10 && At(s, v, HTTP_1 + [ZERO + minor]) && v + 8 < |s|
    ensures s[v] != SP && Version(s, v) == Ok(v + 8, minor)
  {
    var version := HTTP_1 + [ZERO + minor];
    AtFirst(s, v, version);
    SliceStands(s, v, version, 7);
    assert s[v + 7] == version[7];
  }

  /** Behind the version, a line end. */
  lemma LineEndIsRefused(h: Head, b: byte, rest: seq<byte>, max: nat)
    requires IsHead(h) && IsNoEol(b, rest)
    ensures FromScratch(h.emptyLine + TargetText(h) + (HTTP_1 + [ZERO + h.minor] + ([b] + rest)), max).Bad?
  {
    hide At, TargetText, FromScratch, IsLine, IsNoEol;
    var s := h.emptyLine + TargetText(h) + (HTTP_1 + [ZERO + h.minor] + ([b] + rest));
    Stands(s);
    BadLineEnd(s, h, b, rest, max);
  }

  lemma Stands(s: seq<byte>)
    ensures At(s, 0, s)
  {
  }

  lemma BadLineEnd(s: seq<byte>, h: Head, b: byte, rest: seq<byte>, max: nat)
    requires IsHead(h) && IsNoEol(b, rest)
    requires At(s, 0, h.emptyLine + TargetText(h) + (HTTP_1 + [ZERO + h.minor] + ([b] + rest)))
    ensures FromScratch(s, max).Bad?
  {
    hide At, Version, TargetText, FromScratch, Newline, IsLine, IsNoEol;
    var version, v := HTTP_1 + [ZERO + h.minor], |h.emptyLine| + |TargetText(h)|;
    AtSplit3(s, 0, h.emptyLine, TargetText(h), version + ([b] + rest));
    AtSplit(s, v, version, [b] + rest);
    NoEolStands(s, v + 8, b, rest);
    VersionStands(s, v, h.minor);
    BadVersion(s, h, max);
  }

  /** A head up to the empty line that ends it. */
  function Opening(h: Head): seq<byte>
    requires h.minor < 10
  {
    h.emptyLine + TargetText(h) + (VersionText(h) + LinesText(h.lines))
  }

  lemma RefusedBehindOpening(h: Head, rest: seq<byte>, max: nat)
    requires IsHead(h)
    requires var s := Opening(h) + rest;
             |h.lines| <= max ==> Headers(s, |Opening(h)|, LinesAt(h.lines, LinesStart(h)), max).Bad?
    ensures FromScratch(Opening(h) + rest, max).Bad?
  {
    hide LeadingLine, RequestLine, Headers, LinesAt, LinesText, TargetText, IsLine, At;
    var s, f := Opening(h) + rest, LinesStart(h);
    Adjoin(Opening(h), rest);
    AtSplit(s, 0, h.emptyLine + TargetText(h), VersionText(h) + LinesText(h.lines));
    AtSplit(s, 0, h.emptyLine, TargetText(h));
    AtSplit(s, |h.emptyLine| + |TargetText(h)|, VersionText(h), LinesText(h.lines));
    RequestLineIsParsed(s, h);
    LinesThen(s, f, h.lines, [], max);
    assert [] + LinesAt(h.lines, f) == LinesAt(h.lines, f);
  }

  lemma RefusedAtLine(s: seq<byte>, i: nat, done: seq<Header>, max: nat)
    requires i < |s| && s[i] != CR && s[i] != LF && HeaderLine(s, i, done == []).Bad?
    ensures Headers(s, i, done, max).Bad?
  {
  }

  /** In a field name only token characters, and at least one. */
  lemma NameByteIsRefused(h: Head, name: seq<byte>, b: byte, rest: seq<byte>, max: nat)
    requires IsHead(h) && AreTchars(name) && !IsTchar(b) && (b == COLON ==> name == [])
    requires name == [] ==> b != CR && b != LF && (h.lines != [] ==> !IsOws(b))
    ensures FromScratch(Opening(h) + (name + ([b] + rest)), max).Bad?
  {
    hide Opening, TokenEnd, BlanksEnd, TokenToEol, IsTchar, IsTokenChar, IsLine;
    var s, i := Opening(h) + (name + ([b] + rest)), |Opening(h)|;
    var e := i + |name|;
    Adjoin(Opening(h), name + ([b] + rest));
    AtSplit(s, i, name, [b] + rest);
    BeginsWith(s, e, b, rest);
    TcharsStand(s, i, name);
    TokensAreClear(s, i, e);
    CharactersExactly(b);
    TokenEndsAt(s, i, e, COLON);
    if |h.lines| <= max {
      RefusedAtLine(s, i, LinesAt(h.lines, LinesStart(h)), max);
    }
    RefusedBehindOpening(h, name + ([b] + rest), max);
  }

  /** What may stand before the value in a line: a name and a colon, or nothing where a line that begins
      with white space continues the one before it. */
  ghost predicate IsLineStart(start: seq<byte>, text: seq<byte>, first: bool) {
    if start == [] then !first && text != [] && IsOws(text[0])
    else |start| > 1 && start[|start| - 1] == COLON && AreTchars(start[..|start| - 1])
  }

  /** In a value no controls but tabs, and no DEL. */
  lemma ValueByteIsRefused(h: Head, start: seq<byte>, text: seq<byte>, b: byte, rest: seq<byte>, max: nat)
    requires IsHead(h) && IsLineStart(start, text, h.lines == []) && AreFieldChars(text)
    requires !IsFieldChar(b) && IsNoEol(b, rest)
    ensures FromScratch(Opening(h) + (start + text + ([b] + rest)), max).Bad?
  {
    hide Opening, IsLine, IsLineStart, LinesAt, HeaderLine, AreFieldChars;
    var s, i := Opening(h) + (start + text + ([b] + rest)), |Opening(h)|;
    Adjoin(Opening(h), start + text + ([b] + rest));
    AtSplit3(s, i, start, text, [b] + rest);
    BadValueInLine(s, i, start, text, b, rest, h.lines == []);
    if |h.lines| <= max {
      RefusedAtLine(s, i, LinesAt(h.lines, LinesStart(h)), max);
    }
    RefusedBehindOpening(h, start + text + ([b] + rest), max);
  }

  lemma BadValueInLine(s: seq<byte>, i: nat, start: seq<byte>, text: seq<byte>, b: byte, rest: seq<byte>, first: bool)
    requires At(s, i, start) && At(s, i + |start|, text) && At(s, i + |start| + |text|, [b] + rest)
    requires IsLineStart(start, text, first) && AreFieldChars(text) && !IsFieldChar(b) && IsNoEol(b, rest)
    ensures i < |s| && s[i] != CR && s[i] != LF && HeaderLine(s, i, first).Bad?
  {
    hide TokenEnd, BlanksEnd, TokenToEol, IsTchar, IsTokenChar;
    var c, e := i + |start| - 1, i + |start| + |text|;
    NoEolStands(s, e, b, rest);
    CharactersExactly(b);
    FieldCharsStand(s, c + 1, text);
    if start == [] {
      AtFirst(s, i, text);
      BadValueAt(s, i, e);
    } else {
      assert start[..|start| - 1] + [COLON] == start;
      AtSplit(s, i, start[..|start| - 1], [COLON]);
      AtFirst(s, c, [COLON]);
      TcharsStand(s, i, start[..|start| - 1]);
      TokensAreClear(s, i, c);
      TokenEndsAt(s, i, c, COLON);
      var v := FirstNotBlank(s, c + 1, e);
      BlanksEndAt(s, c + 1, v, true);
      BadValueAt(s, v, e);
    }
  }

  lemma {:induction false} FirstNotBlank(s: seq<byte>, i: nat, e: nat) returns (v: nat)
    requires i <= e < |s| && !IsBlank(s[e])
    ensures i <= v <= e && !IsBlank(s[v]) && forall k :: i <= k < v ==> IsBlank(s[k])
    decreases e - i
  {
    v := i;
    if IsBlank(s[i]) {
      v := FirstNotBlank(s, i + 1, e);
    }
  }

  lemma BadValueAt(s: seq<byte>, v: nat, e: nat)
    requires v <= e < |s| && IsCtl(s[e]) && Newline(s, e).Bad? && forall k :: v <= k < e ==> !IsCtl(s[k])
    ensures TokenToEol(s, v).Bad?
  {
    CtlEndsAt(s, v, e);
  }

  /** A CR that should begin the empty line is followed by LF. */
  lemma LastCrIsRefused(h: Head, b: byte, rest: seq<byte>, max: nat)
    requires IsHead(h) && b != LF
    ensures FromScratch(Opening(h) + ([CR, b] + rest), max).Bad?
  {
    hide Opening, IsLine, LinesAt;
    var s, i := Opening(h) + ([CR, b] + rest), |Opening(h)|;
    Adjoin(Opening(h), [CR, b] + rest);
    AtFirst(s, i, [CR, b] + rest);
    AtSecond(s, i, [CR, b] + rest);
    RefusedBehindOpening(h, [CR, b] + rest, max);
  }
}
