/** Minifying formatted text gives the unformatted text, except after a string that ends in a
    backslash: the minifier takes its closing quote for an escaped one. */
module JsonMinifyUndoes {
  import opened Bytes
  import opened JsonStrings
  import opened JsonText
  import opened JsonMinify
  import opened JsonRoundTrip
  import opened JsonSyntax
  import JsonParses
  import JsonStandard

  predicate EndsInBackslash(x: seq<byte>) {
    x != [] && x[|x| - 1] == BACKSLASH
  }

  /** Where strings that end in a backslash are harmless: nowhere but at the very end of the text,
      before closing brackets only. */
  predicate Harmless(v: Json, last: bool)
    decreases v
  {
    match v
    case String(x) => last || !EndsInBackslash(x)
    case Array(items) => ItemsHarmless(items, last)
    case Object(ms) => MembersHarmless(ms)
    case _ => true
  }

  predicate ItemsHarmless(items: seq<Json>, last: bool)
    decreases items
  {
    items == [] || (Harmless(items[0], last && |items| == 1) && ItemsHarmless(items[1..], last))
  }

  predicate MembersHarmless(ms: seq<Member>)
    decreases ms
  {
    ms == [] || (!EndsInBackslash(ms[0].key) && Harmless(ms[0].value, false) && MembersHarmless(ms[1..]))
  }

  /** They differ at some place that both have. */
  ghost predicate Differ(m: seq<byte>, u: seq<byte>) {
    exists k :: 0 <= k < |m| && k < |u| && m[k] != u[k]
  }

  lemma DifferBehind(p: seq<byte>, m: seq<byte>, u: seq<byte>, w: seq<byte>)
    requires Differ(m, u)
    ensures Differ(p + m, p + u + w)
  {
    var k :| 0 <= k < |m| && k < |u| && m[k] != u[k];
    assert (p + m)[|p| + k] == m[k] && (p + u + w)[|p| + k] == u[k];
  }

  // ----- what is copied and what is dropped -----

  /** Characters that are copied outside of strings. */
  predicate IsPlain(b: byte) {
    b != NUL && b != QUOTE && b != SLASH && !IsBlank(b)
  }

  lemma {:induction false} PlainIsCopied(s: seq<byte>, i: nat, t: seq<byte>)
    requires IsCText(s) && At(s, i, t) && i + |t| < |s| && forall k :: 0 <= k < |t| ==> IsPlain(t[k])
    ensures Outside(s, i) == t + Outside(s, i + |t|)
    decreases |t|
  {
    if t == [] {
      assert t + Outside(s, i) == Outside(s, i);
    } else {
      hide Outside;
      AtFirst(s, i, t);
      OutsideStep(s, i);
      assert t == [t[0]] + t[1..];
      AtSplit(s, i, [t[0]], t[1..]);
      PlainIsCopied(s, i + 1, t[1..]);
      Reassociate([t[0]], t[1..], Outside(s, i + |t|));
    }
  }

  lemma {:induction false} BlanksAreDropped(s: seq<byte>, i: nat, n: nat)
    requires IsCText(s) && i + n < |s| && forall k :: i <= k < i + n ==> IsBlank(s[k])
    ensures Outside(s, i) == Outside(s, i + n)
    decreases n
  {
    if n > 0 {
      BlanksAreDropped(s, i + 1, n - 1);
    }
  }

  lemma TabsAreDropped(s: seq<byte>, i: nat, n: nat)
    requires IsCText(s) && At(s, i, Tabs(n)) && i + n < |s|
    ensures Outside(s, i) == Outside(s, i + n)
  {
    forall k | i <= k < i + n ensures IsBlank(s[k]) {
      assert Tabs(n)[k - i] == HT;
    }
    BlanksAreDropped(s, i, n);
  }

  // ----- comments -----

  /** A slash that begins no comment is dropped. */
  lemma LoneSlashIsDropped(s: seq<byte>, i: nat)
    requires IsCText(s) && i < |s| && s[i] == SLASH && s[i + 1] != SLASH && s[i + 1] != STAR
    ensures Outside(s, i) == Outside(s, i + 1)
  {
  }

  /** A comment that does not end takes all the rest with it. */
  lemma UnendedCommentDropsTheRest(s: seq<byte>, i: nat)
    requires IsCText(s) && i + 2 < |s| && s[i] == SLASH && NUL !in s[i..|s| - 1]
    requires if s[i + 1] == SLASH then LF !in s[i + 2..]
             else s[i + 1] == STAR && forall k :: i + 2 <= k < |s| - 1 ==> !(s[k] == STAR && s[k + 1] == SLASH)
    ensures Outside(s, i) == []
  {
    NulsAreLast(s, i);
    if s[i + 1] == SLASH {
      NoLineEnd(s, i + 2);
    } else {
      NoCommentEnd(s, i + 2);
    }
  }

  lemma NulsAreLast(s: seq<byte>, i: nat)
    requires IsCText(s) && i < |s| && NUL !in s[i..|s| - 1]
    ensures forall k :: i <= k < |s| - 1 ==> s[k] != NUL
  {
    forall k | i <= k < |s| - 1 ensures s[k] != NUL {
      assert s[k] == s[i..|s| - 1][k - i];
    }
  }

  lemma {:induction false} NoLineEnd(s: seq<byte>, i: nat)
    requires IsCText(s) && i < |s| && LF !in s[i..] && forall k :: i <= k < |s| - 1 ==> s[k] != NUL
    ensures OneLineEnd(s, i) == |s| - 1
    decreases |s| - i
  {
    if i < |s| - 1 {
      assert s[i] == s[i..][0] && s[i..][1..] == s[i + 1..];
      NoLineEnd(s, i + 1);
    }
  }

  lemma {:induction false} NoCommentEnd(s: seq<byte>, i: nat)
    requires IsCText(s) && i < |s| && forall k :: i <= k < |s| - 1 ==> s[k] != NUL
    requires forall k :: i <= k < |s| - 1 ==> !(s[k] == STAR && s[k + 1] == SLASH)
    ensures MultiLineEnd(s, i) == |s| - 1
    decreases |s| - i
  {
    if i < |s| - 1 {
      NoCommentEnd(s, i + 1);
    }
  }

  /** A comment to the end of the line is dropped with its line end. */
  lemma OnelineCommentIsDropped(s: seq<byte>, i: nat, e: nat)
    requires IsCText(s) && i + 2 <= e < |s| && s[i] == SLASH && s[i + 1] == SLASH && s[e] == LF
    requires forall k :: i + 2 <= k < e ==> s[k] != NUL && s[k] != LF
    ensures e + 1 < |s| && Outside(s, i) == Outside(s, e + 1)
  {
    LineEndsAt(s, i + 2, e);
  }

  lemma {:induction false} LineEndsAt(s: seq<byte>, i: nat, e: nat)
    requires IsCText(s) && i <= e < |s| && s[e] == LF
    requires forall k :: i <= k < e ==> s[k] != NUL && s[k] != LF
    ensures OneLineEnd(s, i) == e + 1
    decreases e - i
  {
    if i < e {
      LineEndsAt(s, i + 1, e);
    }
  }

  /** A comment between the two delimiters is dropped, line ends and all. */
  lemma MultilineCommentIsDropped(s: seq<byte>, i: nat, e: nat)
    requires IsCText(s) && i + 2 <= e && e + 1 < |s| && s[i] == SLASH && s[i + 1] == STAR
    requires s[e] == STAR && s[e + 1] == SLASH
    requires forall k :: i + 2 <= k < e ==> s[k] != NUL && !(s[k] == STAR && s[k + 1] == SLASH)
    ensures e + 2 < |s| && Outside(s, i) == Outside(s, e + 2)
  {
    CommentEndsAt(s, i + 2, e);
  }

  lemma {:induction false} CommentEndsAt(s: seq<byte>, i: nat, e: nat)
    requires IsCText(s) && i <= e && e + 1 < |s| && s[e] == STAR && s[e + 1] == SLASH
    requires forall k :: i <= k < e ==> s[k] != NUL && !(s[k] == STAR && s[k + 1] == SLASH)
    ensures MultiLineEnd(s, i) == e + 2
    decreases e - i
  {
    if i < e {
      CommentEndsAt(s, i + 1, e);
    }
  }

  // ----- strings -----

  predicate IsCopiedInString(b: byte) { b != NUL && b != QUOTE && b != BACKSLASH }

  lemma {:induction false} PlainInString(s: seq<byte>, k: nat, t: seq<byte>)
    requires IsCText(s) && At(s, k, t) && k + |t| < |s| && forall j :: 0 <= j < |t| ==> IsCopiedInString(t[j])
    ensures InString(s, k) == t + InString(s, k + |t|)
    decreases |t|
  {
    if t == [] {
      assert t + InString(s, k) == InString(s, k);
    } else {
      hide InString;
      AtFirst(s, k, t);
      InStringStep(s, k);
      assert t == [t[0]] + t[1..];
      AtSplit(s, k, [t[0]], t[1..]);
      PlainInString(s, k + 1, t[1..]);
      Reassociate([t[0]], t[1..], InString(s, k + |t|));
    }
  }

  lemma LiteralIsCopied(s: seq<byte>, k: nat, digits: seq<byte>, u: nat)
    requires IsCText(s) && |digits| == 4 && IsHex4(digits, 0, u)
    requires At(s, k, [BACKSLASH, 117] + digits) && k + 6 < |s|
    ensures InString(s, k) == ([BACKSLASH, 117] + digits) + InString(s, k + 6)
  {
    hide InString, IsHex4;
    var t := [117] + digits;
    assert [BACKSLASH, 117] + digits == [BACKSLASH] + t;
    AtSplit(s, k, [BACKSLASH], t);
    AtFirst(s, k, [BACKSLASH]);
    AtFirst(s, k + 1, t);
    InStringStep(s, k);
    JsonStandard.Hex4IsPlain(digits, 0, u);
    PlainInString(s, k + 1, t);
    Reassociate([BACKSLASH], t, InString(s, k + 6));
  }

  /** One character is copied, unless it is an escaped backslash and a quote follows. */
  lemma CharIsCopied(s: seq<byte>, k: nat, c: Char)
    requires IsCText(s) && IsChar(c) && At(s, k, CharText(c)) && k + |CharText(c)| < |s|
    requires c == Short(BACKSLASH) ==> s[k + 2] != QUOTE
    ensures InString(s, k) == CharText(c) + InString(s, k + |CharText(c)|)
  {
    hide InString, IsHex4;
    match c
    case Unescaped(b) =>
      AtFirst(s, k, [b]);
      InStringStep(s, k);
    case Short(letter) => ShortIsCopied(s, k, letter);
    case Unicode(cp, digits) => LiteralIsCopied(s, k, digits, cp);
    case Pair(cp, high, low) =>
      var p, q := [BACKSLASH, 117] + high, [BACKSLASH, 117] + low;
      AtSplit(s, k, p, q);
      LiteralIsCopied(s, k, high, 0xD800 + (cp - 0x1_0000) / 0x400);
      LiteralIsCopied(s, k + 6, low, 0xDC00 + (cp - 0x1_0000) % 0x400);
      Reassociate(p, q, InString(s, k + 12));
  }

  lemma ShortIsCopied(s: seq<byte>, k: nat, letter: byte)
    requires IsCText(s) && IsChar(Short(letter)) && At(s, k, [BACKSLASH, letter]) && k + 2 < |s|
    requires letter == BACKSLASH ==> s[k + 2] != QUOTE
    ensures InString(s, k) == [BACKSLASH, letter] + InString(s, k + 2)
  {
    hide InString;
    AtFirst(s, k, [BACKSLASH, letter]);
    AtSecond(s, k, [BACKSLASH, letter]);
    InStringStep(s, k);
    if letter != QUOTE {
      LetterIsNotNul(letter);
      InStringStep(s, k + 1);
      Reassociate([BACKSLASH], [letter], InString(s, k + 2));
      assert [BACKSLASH, letter] == [BACKSLASH] + [letter];
    }
  }

  lemma LetterIsNotNul(letter: byte)
    requires IsChar(Short(letter))
    ensures letter != NUL
  {
    var i :| 0 <= i < 8 && "\"\\/bfnrt"[i] == letter as char;
  }

  predicate EndsEscaped(cs: seq<Char>) {
    cs != [] && cs[|cs| - 1] == Short(BACKSLASH)
  }

  /** The rest of a string is copied; a final escaped backslash takes the closing quote with it. */
  lemma {:induction false} RestIsCopied(s: seq<byte>, k: nat, cs: seq<Char>)
    requires IsCText(s) && AreChars(cs) && At(s, k, CharsText(cs) + [QUOTE]) && k + |CharsText(cs)| + 1 < |s|
    ensures InString(s, k) == (CharsText(cs) + [QUOTE]) + After(s, k + |CharsText(cs)| + 1, EndsEscaped(cs))
    decreases |cs|
  {
    hide InString, Outside, CharText, IsChar;
    AtSplit(s, k, CharsText(cs), [QUOTE]);
    AtFirst(s, k + |CharsText(cs)|, [QUOTE]);
    if cs == [] {
      InStringStep(s, k);
    } else if cs == [Short(BACKSLASH)] {
      OnlyBackslash(s, k);
    } else {
      var t, rest := CharText(cs[0]), CharsText(cs[1..]) + [QUOTE];
      assert CharsText(cs) + [QUOTE] == t + rest;
      AtSplit(s, k, t, rest);
      assert IsChar(cs[0]);
      if cs[0] == Short(BACKSLASH) {
        NotAQuote(cs[1..]);
        AtFirst(s, k + |t|, rest);
        BackslashText();
      }
      CharIsCopied(s, k, cs[0]);
      RestIsCopied(s, k + |t|, cs[1..]);
      Reassociate(t, rest, After(s, k + |CharsText(cs)| + 1, EndsEscaped(cs)));
    }
  }

  lemma BackslashText()
    ensures CharText(Short(BACKSLASH)) == [BACKSLASH, BACKSLASH]
  {
  }

  lemma OnlyBackslash(s: seq<byte>, k: nat)
    requires IsCText(s) && At(s, k, CharsText([Short(BACKSLASH)]) + [QUOTE])
    requires k + |CharsText([Short(BACKSLASH)])| + 1 < |s|
    ensures var t := CharsText([Short(BACKSLASH)]);
            InString(s, k) == (t + [QUOTE]) + InString(s, k + |t| + 1)
  {
    hide InString;
    var e := CharsText([Short(BACKSLASH)]) + [QUOTE];
    assert [Short(BACKSLASH)][1..] == [] && CharsText([]) == [];
    assert e == [BACKSLASH, BACKSLASH, QUOTE];
    assert s[k + 0] == e[0] && s[k + 1] == e[1] && s[k + 2] == e[2];
    InStringStep(s, k);
    InStringStep(s, k + 1);
  }

  lemma NotAQuote(cs: seq<Char>)
    requires cs != [] && AreChars(cs)
    ensures (CharsText(cs) + [QUOTE])[0] != QUOTE
  {
    assert IsChar(cs[0]) && (CharsText(cs) + [QUOTE])[0] == CharText(cs[0])[0];
  }

  /** And so is the whole string. */
  lemma StringIsCopied(s: seq<byte>, i: nat, cs: seq<Char>)
    requires IsCText(s) && AreChars(cs)
    requires At(s, i, [QUOTE] + CharsText(cs) + [QUOTE]) && i + |CharsText(cs)| + 2 < |s|
    ensures Outside(s, i) ==
            ([QUOTE] + CharsText(cs) + [QUOTE]) + After(s, i + |CharsText(cs)| + 2, EndsEscaped(cs))
  {
    hide InString, Outside, CharsText, AreChars;
    var rest := CharsText(cs) + [QUOTE];
    assert [QUOTE] + CharsText(cs) + [QUOTE] == [QUOTE] + rest;
    AtSplit(s, i, [QUOTE], rest);
    AtFirst(s, i, [QUOTE]);
    OutsideStep(s, i);
    RestIsCopied(s, i + 1, cs);
    Reassociate([QUOTE], rest, After(s, i + |CharsText(cs)| + 2, EndsEscaped(cs)));
  }

  lemma {:induction false} LastChar(x: seq<byte>)
    requires x != []
    ensures |CharsOf(x)| == |x| && CharsOf(x)[|x| - 1] == CharOf(x[|x| - 1])
  {
    if |x| > 1 {
      LastChar(x[1..]);
    } else {
      assert x[1..] == [];
    }
  }

  lemma OnlyBackslashIsEscaped(b: byte)
    ensures CharOf(b) == Short(BACKSLASH) <==> b == BACKSLASH
  {
  }

  lemma QuoteIsCopied(s: seq<byte>, i: nat, x: seq<byte>)
    requires IsCText(s) && NUL !in x && At(s, i, Quote(x)) && i + |Quote(x)| < |s|
    ensures Outside(s, i) == Quote(x) + After(s, i + |Quote(x)|, EndsInBackslash(x))
  {
    hide InString, Outside, Escape, AreChars, CharsText, CharsOf, CharOf;
    CharsOfBytes(x);
    if x != [] {
      LastChar(x);
      OnlyBackslashIsEscaped(x[|x| - 1]);
    } else {
      NoChars();
    }
    StringIsCopied(s, i, CharsOf(x));
  }

  lemma NoChars()
    ensures CharsOf([]) == []
  {
  }

  // ----- texts with nothing to drop -----

  /** Outside of what the minifier takes for strings there is no blank and no slash. */
  predicate Dense(t: seq<byte>, inString: bool)
    decreases |t|
  {
    if t == [] then true
    else if !inString then !IsBlank(t[0]) && t[0] != SLASH && Dense(t[1..], t[0] == QUOTE)
    else if t[0] == BACKSLASH && |t| > 1 && t[1] == QUOTE then Dense(t[2..], true)
    else Dense(t[1..], t[0] != QUOTE)
  }

  lemma {:induction false} NothingIsAdded(s: seq<byte>, i: nat, inString: bool)
    requires IsCText(s) && i < |s|
    ensures |After(s, i, inString)| <= |s| - 1 - i
    decreases |s| - i
  {
    if s[i] == NUL {
    } else if !inString && s[i] == SLASH && s[i + 1] == SLASH {
      NothingIsAdded(s, OneLineEnd(s, i + 2), false);
    } else if !inString && s[i] == SLASH && s[i + 1] == STAR {
      NothingIsAdded(s, MultiLineEnd(s, i + 2), false);
    } else if inString && s[i] == BACKSLASH && s[i + 1] == QUOTE {
      NothingIsAdded(s, i + 2, true);
    } else {
      NothingIsAdded(s, i + 1, if s[i] == QUOTE then !inString else inString);
    }
  }

  lemma {:induction false} DenseIsKept(s: seq<byte>, i: nat, inString: bool)
    requires IsCText(s) && i < |s| && NUL !in s[i..|s| - 1]
    ensures After(s, i, inString) == s[i..|s| - 1] <==> Dense(s[i..|s| - 1], inString)
    decreases |s| - i
  {
    hide Outside, InString, Dense, OneLineEnd, MultiLineEnd;
    var t := s[i..|s| - 1];
    DenseStep(t, inString);
    OutsideStep(s, i);
    InStringStep(s, i);
    if t != [] {
      assert s[i] == t[0] && s[i] != NUL;
      if !inString && (IsBlank(s[i]) || s[i] == SLASH) {
        SomethingIsDropped(s, i);
      } else if inString && s[i] == BACKSLASH && s[i + 1] == QUOTE {
        var rest := s[i + 2..|s| - 1];
        assert t[2..] == rest && t == [BACKSLASH, QUOTE] + rest;
        DenseIsKept(s, i + 2, true);
        SameBehind([BACKSLASH, QUOTE], InString(s, i + 2), rest);
      } else {
        var rest, next := s[i + 1..|s| - 1], if s[i] == QUOTE then !inString else inString;
        assert t[1..] == rest && t == [s[i]] + rest;
        DenseIsKept(s, i + 1, next);
        SameBehind([s[i]], After(s, i + 1, next), rest);
      }
    }
  }

  lemma DenseStep(t: seq<byte>, inString: bool)
    ensures t == [] ==> Dense(t, inString)
    ensures t != [] && !inString ==>
              (Dense(t, false) <==> !IsBlank(t[0]) && t[0] != SLASH && Dense(t[1..], t[0] == QUOTE))
    ensures t != [] && inString ==>
              if t[0] == BACKSLASH && |t| > 1 && t[1] == QUOTE then Dense(t, true) <==> Dense(t[2..], true)
              else Dense(t, true) <==> Dense(t[1..], t[0] != QUOTE)
  {
  }

  lemma SameBehind(p: seq<byte>, a: seq<byte>, b: seq<byte>)
    ensures p + a == p + b <==> a == b
  {
    if p + a == p + b {
      assert (p + a)[|p|..] == a && (p + b)[|p|..] == b;
    }
  }

  lemma SomethingIsDropped(s: seq<byte>, i: nat)
    requires IsCText(s) && i < |s| - 1 && s[i] != NUL && (IsBlank(s[i]) || s[i] == SLASH)
    ensures |Outside(s, i)| < |s| - 1 - i
  {
    if s[i] == SLASH && s[i + 1] == SLASH {
      NothingIsAdded(s, OneLineEnd(s, i + 2), false);
    } else if s[i] == SLASH && s[i + 1] == STAR {
      NothingIsAdded(s, MultiLineEnd(s, i + 2), false);
    } else {
      NothingIsAdded(s, i + 1, false);
    }
  }

  lemma {:induction false} OutputIsDense(s: seq<byte>, i: nat, inString: bool)
    requires IsCText(s) && i < |s|
    ensures Dense(After(s, i, inString), inString) && NUL !in After(s, i, inString)
    decreases |s| - i
  {
    if s[i] == NUL {
    } else if !inString && s[i] == SLASH && s[i + 1] == SLASH {
      OutputIsDense(s, OneLineEnd(s, i + 2), false);
    } else if !inString && s[i] == SLASH && s[i + 1] == STAR {
      OutputIsDense(s, MultiLineEnd(s, i + 2), false);
    } else if inString && s[i] == BACKSLASH && s[i + 1] == QUOTE {
      OutputIsDense(s, i + 2, true);
    } else {
      OutputIsDense(s, i + 1, if s[i] == QUOTE then !inString else inString);
    }
  }

  /** A text is left as it is exactly when it has no blank and no slash outside of strings. */
  lemma LeftAsItIs(t: seq<byte>)
    requires NUL !in t
    ensures Outside(t + [NUL], 0) == t <==> Dense(t, false)
  {
    var s := t + [NUL];
    assert s[0..|s| - 1] == t;
    DenseIsKept(s, 0, false);
  }

  /** Minifying once more changes nothing, whatever the text. */
  lemma MinifyIsIdempotent(s: seq<byte>)
    requires IsCText(s)
    ensures Outside(Outside(s, 0) + [NUL], 0) == Outside(s, 0)
  {
    OutputIsDense(s, 0, false);
    LeftAsItIs(Outside(s, 0));
  }

  // ----- where the parts of a text stand -----

  lemma TextStarts(v: Json, fmt: bool, depth: nat)
    ensures var t := Render(v, fmt, depth); t != [] && 32 < t[0] < 0xEF && t[0] !in {COMMA, RBRACKET, RBRACE}
  {
    match v
    case Number(n) =>
      if n < 0 {
        assert Decimal(n)[0] == MINUS;
      } else {
        DigitsAreNumber(n);
        JsonParses.DigitsAreDigits(Digits(n), n);
      }
    case _ =>
  }

  lemma MembersStand(ms: seq<Member>, fmt: bool, d: nat, s: seq<byte>, i: nat) returns (b: nat, e: nat, n: nat)
    requires ms != [] && At(s, i, RenderMembers(ms, fmt, d))
    ensures At(s, i, MemberStart(ms[0].key, fmt, d)) && b == i + |MemberStart(ms[0].key, fmt, d)|
    ensures At(s, b, Render(ms[0].value, fmt, d)) && e == b + |Render(ms[0].value, fmt, d)|
    ensures At(s, e, MemberEnd(|ms| == 1, fmt)) && n == e + |MemberEnd(|ms| == 1, fmt)|
    ensures At(s, n, RenderMembers(ms[1..], fmt, d))
    ensures i + |RenderMembers(ms, fmt, d)| == n + |RenderMembers(ms[1..], fmt, d)|
  {
    hide At, Render, RenderMembers, MemberStart, MemberEnd;
    var a, t := MemberStart(ms[0].key, fmt, d), Render(ms[0].value, fmt, d);
    var end, rest := MemberEnd(|ms| == 1, fmt), RenderMembers(ms[1..], fmt, d);
    FirstMember(ms, fmt, d);
    AtSplit(s, i, a + t + end, rest);
    AtSplit3(s, i, a, t, end);
    b, e, n := i + |a|, i + |a| + |t|, i + |a| + |t| + |end|;
  }

  lemma ItemsStand(items: seq<Json>, fmt: bool, d: nat, s: seq<byte>, i: nat) returns (e: nat, n: nat)
    requires items != [] && At(s, i, RenderItems(items, fmt, d))
    ensures At(s, i, Render(items[0], fmt, d)) && e == i + |Render(items[0], fmt, d)|
    ensures At(s, e, ItemEnd(|items| == 1, fmt)) && n == e + |ItemEnd(|items| == 1, fmt)|
    ensures At(s, n, RenderItems(items[1..], fmt, d))
    ensures i + |RenderItems(items, fmt, d)| == n + |RenderItems(items[1..], fmt, d)|
    ensures s[i] > 32 && s[i] != RBRACKET
    ensures |items| > 1 ==> n < |s|
  {
    var t, end, rest := Render(items[0], fmt, d), ItemEnd(|items| == 1, fmt), RenderItems(items[1..], fmt, d);
    AtSplit3(s, i, t, end, rest);
    e, n := i + |t|, i + |t| + |end|;
    TextStarts(items[0], fmt, d);
    AtFirst(s, i, t);
    if |items| > 1 {
      TextStarts(items[1], fmt, d);
      AtFirst(s, n, rest);
    }
  }

  // ----- values whose backslashes are harmless -----

  lemma {:induction false} HarmlessAnywhere(v: Json)
    ensures Harmless(v, false) ==> Harmless(v, true)
    decreases v
  {
    match v
    case Array(items) => ItemsHarmlessAnywhere(items);
    case _ =>
  }

  lemma {:induction false} ItemsHarmlessAnywhere(items: seq<Json>)
    ensures ItemsHarmless(items, false) ==> ItemsHarmless(items, true)
    decreases items
  {
    if items != [] {
      HarmlessAnywhere(items[0]);
      ItemsHarmlessAnywhere(items[1..]);
    }
  }

  lemma DigitsArePlain(n: nat)
    ensures forall k :: 0 <= k < |Digits(n)| ==> IsPlain(Digits(n)[k])
  {
    DigitsAreNumber(n);
    JsonParses.DigitsAreDigits(Digits(n), n);
  }

  lemma {:induction false} ValueIsMinified(v: Json, fmt: bool, d: nat, s: seq<byte>, i: nat, e: nat)
    requires IsCText(s) && Printable(v) && Harmless(v, true)
    requires At(s, i, Render(v, fmt, d)) && e == i + |Render(v, fmt, d)| < |s|
    ensures Outside(s, i) == Render(v, false, d) + After(s, e, !Harmless(v, false))
    decreases v, 1
  {
    hide Outside, InString, RenderItems, RenderMembers;
    match v
    case Null => PlainIsCopied(s, i, NULL_TEXT);
    case False => PlainIsCopied(s, i, FALSE_TEXT);
    case True => PlainIsCopied(s, i, TRUE_TEXT);
    case Number(n) =>
      DigitsArePlain(if n < 0 then -n else n);
      PlainIsCopied(s, i, Decimal(n));
    case String(x) => QuoteIsCopied(s, i, x);
    case Array(items) => ArrayIsMinified(items, fmt, d, s, i, e);
    case Object(ms) => ObjectIsMinified(ms, fmt, d, s, i, e);
  }

  lemma {:induction false} ArrayIsMinified(items: seq<Json>, fmt: bool, d: nat, s: seq<byte>, i: nat, e: nat)
    requires IsCText(s) && Printable(Array(items)) && ItemsHarmless(items, true)
    requires At(s, i, Render(Array(items), fmt, d)) && e == i + |Render(Array(items), fmt, d)| < |s|
    ensures Outside(s, i) == Render(Array(items), false, d) + After(s, e, !ItemsHarmless(items, false))
    decreases items, 1
  {
    hide At, Printable, Outside, InString, RenderItems, ItemsHarmless;
    var body, plain := RenderItems(items, fmt, d + 1), RenderItems(items, false, d + 1);
    AtSplit3(s, i, [LBRACKET], body, [RBRACKET]);
    var z := i + 1 + |body|;
    AtFirst(s, i, [LBRACKET]);
    OutsideStep(s, i);
    ItemsAreMinified(items, fmt, d + 1, s, i + 1, z);
    AtFirst(s, z, [RBRACKET]);
    OutsideStep(s, z);
    InStringStep(s, z);
    Rejoin([LBRACKET], plain, [RBRACKET], After(s, e, !ItemsHarmless(items, false)));
  }

  lemma Rejoin(a: seq<byte>, b: seq<byte>, c: seq<byte>, rest: seq<byte>)
    ensures a + (b + (c + rest)) == (a + b + c) + rest
  {
  }

  lemma {:induction false} ItemsAreMinified(items: seq<Json>, fmt: bool, d: nat, s: seq<byte>, i: nat, z: nat)
    requires IsCText(s) && Printable(Array(items)) && ItemsHarmless(items, true)
    requires At(s, i, RenderItems(items, fmt, d)) && z == i + |RenderItems(items, fmt, d)| < |s|
    ensures Outside(s, i) == RenderItems(items, false, d) + After(s, z, !ItemsHarmless(items, false))
    decreases items, 0
  {
    hide Outside, InString, Render;
    if items != [] {
      var e, n := ItemsStand(items, fmt, d, s, i);
      HarmlessAnywhere(items[0]);
      ValueIsMinified(items[0], fmt, d, s, i, e);
      var t := Render(items[0], false, d);
      if |items| > 1 {
        CommaIsMinified(fmt, s, e, n);
        ItemsAreMinified(items[1..], fmt, d, s, n, z);
        Rejoin(t, [COMMA], RenderItems(items[1..], false, d), After(s, z, !ItemsHarmless(items, false)));
      } else {
        assert RenderItems(items, false, d) == t;
      }
    } else {
      assert [] + Outside(s, i) == Outside(s, i);
    }
  }

  lemma CommaIsMinified(fmt: bool, s: seq<byte>, e: nat, n: nat)
    requires IsCText(s) && At(s, e, ItemEnd(false, fmt)) && n == e + |ItemEnd(false, fmt)| < |s|
    ensures Outside(s, e) == [COMMA] + Outside(s, n)
  {
    hide Outside;
    AtFirst(s, e, ItemEnd(false, fmt));
    OutsideStep(s, e);
    if fmt {
      AtSecond(s, e, ItemEnd(false, fmt));
      OutsideStep(s, e + 1);
    }
  }

  lemma NameIsMinified(key: seq<byte>, fmt: bool, d: nat, s: seq<byte>, i: nat, b: nat)
    requires IsCText(s) && NUL !in key && !EndsInBackslash(key)
    requires At(s, i, MemberStart(key, fmt, d)) && b == i + |MemberStart(key, fmt, d)| < |s|
    ensures Outside(s, i) == MemberStart(key, false, d) + Outside(s, b)
  {
    hide Outside, InString, Quote;
    var n, colon := if fmt then d else 0, if fmt then [COLON, HT] else [COLON];
    AtSplit3(s, i, Tabs(n), Quote(key), colon);
    var c := i + n + |Quote(key)|;
    TabsAreDropped(s, i, n);
    QuoteIsCopied(s, i + n, key);
    AtFirst(s, c, colon);
    OutsideStep(s, c);
    if fmt {
      AtSecond(s, c, colon);
      OutsideStep(s, c + 1);
    }
    Reassociate(Quote(key), [COLON], Outside(s, b));
    assert Tabs(0) + Quote(key) + [COLON] == Quote(key) + [COLON];
  }

  lemma EndIsMinified(last: bool, fmt: bool, s: seq<byte>, e: nat, n: nat)
    requires IsCText(s) && At(s, e, MemberEnd(last, fmt)) && n == e + |MemberEnd(last, fmt)| < |s|
    ensures Outside(s, e) == MemberEnd(last, false) + Outside(s, n)
  {
    hide Outside;
    var end := MemberEnd(last, fmt);
    if end != [] {
      AtFirst(s, e, end);
      OutsideStep(s, e);
    }
    if |end| == 2 {
      AtSecond(s, e, end);
      OutsideStep(s, e + 1);
    }
    assert [] + Outside(s, n) == Outside(s, n);
  }

  lemma {:induction false} MembersAreMinified(ms: seq<Member>, fmt: bool, d: nat, s: seq<byte>, i: nat, z: nat)
    requires IsCText(s) && Printable(Object(ms)) && MembersHarmless(ms)
    requires At(s, i, RenderMembers(ms, fmt, d)) && z == i + |RenderMembers(ms, fmt, d)| < |s|
    ensures Outside(s, i) == RenderMembers(ms, false, d) + Outside(s, z)
    decreases ms, 0
  {
    hide Outside, Render, MemberStart, MemberEnd;
    if ms != [] {
      var b, e, n := MembersStand(ms, fmt, d, s, i);
      var last := |ms| == 1;
      HarmlessAnywhere(ms[0].value);
      NameIsMinified(ms[0].key, fmt, d, s, i, b);
      ValueIsMinified(ms[0].value, fmt, d, s, b, e);
      EndIsMinified(last, fmt, s, e, n);
      MembersAreMinified(ms[1..], fmt, d, s, n, z);
      Rejoin4(MemberStart(ms[0].key, false, d), Render(ms[0].value, false, d), MemberEnd(last, false),
              RenderMembers(ms[1..], false, d), Outside(s, z));
    } else {
      assert [] + Outside(s, i) == Outside(s, i);
    }
  }

  lemma Rejoin4(a: seq<byte>, b: seq<byte>, c: seq<byte>, d: seq<byte>, rest: seq<byte>)
    ensures a + (b + (c + (d + rest))) == (a + b + c + d) + rest
  {
  }

  lemma {:induction false} ObjectIsMinified(ms: seq<Member>, fmt: bool, d: nat, s: seq<byte>, i: nat, e: nat)
    requires IsCText(s) && Printable(Object(ms)) && MembersHarmless(ms)
    requires At(s, i, Render(Object(ms), fmt, d)) && e == i + |Render(Object(ms), fmt, d)| < |s|
    ensures Outside(s, i) == Render(Object(ms), false, d) + Outside(s, e)
    decreases ms, 1
  {
    hide Outside, RenderMembers, MembersHarmless;
    var open, body, close := OpenBrace(fmt), RenderMembers(ms, fmt, d + 1), CloseBrace(fmt, d);
    AtSplit3(s, i, open, body, close);
    var b, z := i + |open|, i + |open| + |body|;
    OpenIsMinified(fmt, s, i, b);
    MembersAreMinified(ms, fmt, d + 1, s, b, z);
    CloseIsMinified(fmt, d, s, z, e);
    Rejoin(OpenBrace(false), RenderMembers(ms, false, d + 1), CloseBrace(false, d), Outside(s, e));
  }

  lemma OpenIsMinified(fmt: bool, s: seq<byte>, i: nat, b: nat)
    requires IsCText(s) && At(s, i, OpenBrace(fmt)) && b == i + |OpenBrace(fmt)| < |s|
    ensures Outside(s, i) == OpenBrace(false) + Outside(s, b)
  {
    hide Outside;
    AtFirst(s, i, OpenBrace(fmt));
    OutsideStep(s, i);
    if fmt {
      AtSecond(s, i, OpenBrace(fmt));
      OutsideStep(s, i + 1);
    }
  }

  lemma CloseIsMinified(fmt: bool, d: nat, s: seq<byte>, z: nat, e: nat)
    requires IsCText(s) && At(s, z, CloseBrace(fmt, d)) && e == z + |CloseBrace(fmt, d)| < |s|
    ensures Outside(s, z) == CloseBrace(false, d) + Outside(s, e)
  {
    hide Outside;
    var n := if fmt then d else 0;
    AtSplit(s, z, Tabs(n), [RBRACE]);
    TabsAreDropped(s, z, n);
    AtFirst(s, z + n, [RBRACE]);
    OutsideStep(s, z + n);
    assert Tabs(0) + [RBRACE] == [RBRACE];
  }

  // ----- values whose backslashes do harm -----

  /** After p, the minifier is still in the string and copies the characters at e; the text it should
      give has another one at the first (k = 0) or the second place. */
  lemma StillInString(p: seq<byte>, s: seq<byte>, e: nat, w: seq<byte>, k: nat)
    requires IsCText(s) && k <= 1 && e + k < |s| && k < |w| && s[e + k] != w[k]
    requires IsCopiedInString(s[e]) && IsCopiedInString(s[e + k])
    ensures Differ(p + InString(s, e), p + w)
  {
    hide InString;
    InStringStep(s, e);
    var m := InString(s, e);
    assert m[0] == s[e];
    if k == 1 {
      InStringStep(s, e + 1);
      assert m[1] == s[e + 1];
    }
    assert m[k] != w[k];
    DifferBehind(p, m, w, []);
    assert p + w + [] == p + w;
  }

  lemma {:induction false} ValueDiffers(v: Json, d: nat, s: seq<byte>, i: nat, e: nat)
    requires IsCText(s) && Printable(v) && !Harmless(v, true)
    requires At(s, i, Render(v, true, d)) && e == i + |Render(v, true, d)| < |s|
    ensures Differ(Outside(s, i), Render(v, false, d))
    decreases v, 1
  {
    hide Outside, InString, RenderItems, RenderMembers, Differ, ItemsHarmless, MembersHarmless;
    match v
    case Array(items) =>
      var body, plain := RenderItems(items, true, d + 1), RenderItems(items, false, d + 1);
      AtSplit3(s, i, [LBRACKET], body, [RBRACKET]);
      AtFirst(s, i, [LBRACKET]);
      OutsideStep(s, i);
      ItemsDiffer(items, d + 1, s, i + 1, i + 1 + |body|);
      DifferBehind([LBRACKET], Outside(s, i + 1), plain, [RBRACKET]);
    case Object(ms) =>
      var open, body, close := OpenBrace(true), RenderMembers(ms, true, d + 1), CloseBrace(true, d);
      AtSplit3(s, i, open, body, close);
      var b, plain := i + |open|, RenderMembers(ms, false, d + 1);
      OpenIsMinified(true, s, i, b);
      MembersDiffer(ms, d + 1, s, b, b + |body|);
      DifferBehind([LBRACE], Outside(s, b), plain + [RBRACE], []);
      assert [LBRACE] + (plain + [RBRACE]) + [] == [LBRACE] + plain + [RBRACE];
      assert CloseBrace(false, d) == [RBRACE];
  }

  lemma PlainItems(items: seq<Json>, d: nat)
    requires items != []
    ensures var (t, end) := (Render(items[0], false, d), ItemEnd(|items| == 1, false));
      var plain := RenderItems(items[1..], false, d);
      && RenderItems(items, false, d) == [] + t + (end + plain) == t + (end + plain)
      && (if |items| == 1 then end == [] else end == [COMMA])
    ensures ItemEnd(false, true) == [COMMA, SP]
  {
  }

  lemma {:induction false} ItemsDiffer(items: seq<Json>, d: nat, s: seq<byte>, i: nat, z: nat)
    requires IsCText(s) && Printable(Array(items)) && !ItemsHarmless(items, true)
    requires At(s, i, RenderItems(items, true, d)) && z == i + |RenderItems(items, true, d)| < |s|
    ensures Differ(Outside(s, i), RenderItems(items, false, d))
    decreases items, 0
  {
    hide Outside, InString, Render, RenderItems, Differ, At, ItemEnd, Harmless, Tabs;
    PlainItems(items, d);
    var e, n := ItemsStand(items, true, d, s, i);
    var t, plain := Render(items[0], false, d), RenderItems(items[1..], false, d);
    var rest := ItemEnd(|items| == 1, false) + plain;
    if !Harmless(items[0], true) {
      ValueDiffers(items[0], d, s, i, e);
      DifferBehind([], Outside(s, i), t, rest);
      assert [] + Outside(s, i) == Outside(s, i);
    } else {
      assert |items| > 1;
      ValueIsMinified(items[0], true, d, s, i, e);
      AtFirst(s, e, ItemEnd(false, true));
      if !Harmless(items[0], false) {
        AtSecond(s, e, ItemEnd(false, true));
        ItemsStartPlain(items[1..], d);
        StillInString(t, s, e, rest, 1);
      } else {
        CommaIsMinified(true, s, e, n);
        ItemsDiffer(items[1..], d, s, n, z);
        DifferBehind(t + [COMMA], Outside(s, n), plain, []);
        assert (t + [COMMA]) + plain + [] == t + rest;
        Reassociate(t, [COMMA], Outside(s, n));
      }
    }
  }

  lemma ItemsStartPlain(items: seq<Json>, d: nat)
    requires items != []
    ensures var u := RenderItems(items, false, d); u != [] && u[0] > 32
  {
    TextStarts(items[0], false, d);
  }

  lemma {:induction false} MembersDiffer(ms: seq<Member>, d: nat, s: seq<byte>, i: nat, z: nat)
    requires IsCText(s) && Printable(Object(ms)) && !MembersHarmless(ms)
    requires At(s, i, RenderMembers(ms, true, d)) && z == i + |RenderMembers(ms, true, d)| < |s|
    ensures Differ(Outside(s, i), RenderMembers(ms, false, d) + [RBRACE])
    decreases ms, 0
  {
    hide Outside, InString, Render, RenderMembers, Differ, At, MemberStart, MemberEnd, Harmless;
    var b, e, n := MembersStand(ms, true, d, s, i);
    var last, v := |ms| == 1, ms[0].value;
    var name, t, plain := MemberStart(ms[0].key, false, d), Render(v, false, d), RenderMembers(ms[1..], false, d);
    var rest := MemberEnd(last, false) + (plain + [RBRACE]);
    FirstMember(ms, false, d);
    MemberText(name, t, MemberEnd(last, false), plain);
    if EndsInBackslash(ms[0].key) {
      NameDiffers(ms[0].key, d, s, i, b, v, rest);
    } else {
      NameIsMinified(ms[0].key, true, d, s, i, b);
      if !Harmless(v, true) {
        ValueDiffers(v, d, s, b, e);
        DifferBehind(name, Outside(s, b), t, rest);
      } else {
        ValueIsMinified(v, true, d, s, b, e);
        Reassociate(name, t, After(s, e, !Harmless(v, false)));
        if !Harmless(v, false) {
          EndDiffers(ms, d, s, e);
          StillInString(name + t, s, e, rest, if last then 0 else 1);
        } else {
          EndIsMinified(last, true, s, e, n);
          MembersDiffer(ms[1..], d, s, n, z);
          var p := name + t + MemberEnd(last, false);
          DifferBehind(p, Outside(s, n), plain + [RBRACE], []);
          assert p + (plain + [RBRACE]) + [] == name + t + rest;
          Reassociate(name + t, MemberEnd(last, false), Outside(s, n));
        }
      }
    }
  }

  lemma MemberText(name: seq<byte>, t: seq<byte>, end: seq<byte>, plain: seq<byte>)
    ensures name + t + end + plain + [RBRACE] == name + t + (end + (plain + [RBRACE]))
  {
  }

  lemma NameDiffers(key: seq<byte>, d: nat, s: seq<byte>, i: nat, b: nat, v: Json, rest: seq<byte>)
    requires IsCText(s) && NUL !in key && EndsInBackslash(key)
    requires At(s, i, MemberStart(key, true, d)) && b == i + |MemberStart(key, true, d)| < |s|
    ensures Differ(Outside(s, i), MemberStart(key, false, d) + Render(v, false, d) + rest)
  {
    hide Outside, InString, Quote, Render;
    var colon := [COLON, HT];
    AtSplit3(s, i, Tabs(d), Quote(key), colon);
    var c := i + d + |Quote(key)|;
    TabsAreDropped(s, i, d);
    QuoteIsCopied(s, i + d, key);
    AtFirst(s, c, colon);
    AtSecond(s, c, colon);
    TextStarts(v, false, d);
    var w := [COLON] + Render(v, false, d) + rest;
    assert w[1] == Render(v, false, d)[0];
    StillInString(Quote(key), s, c, w, 1);
    assert Tabs(0) + Quote(key) + [COLON] + Render(v, false, d) + rest == Quote(key) + w;
  }

  lemma EndDiffers(ms: seq<Member>, d: nat, s: seq<byte>, e: nat)
    requires ms != [] && At(s, e, MemberEnd(|ms| == 1, true))
    ensures
      var w := MemberEnd(|ms| == 1, false) + (RenderMembers(ms[1..], false, d) + [RBRACE]);
      var k := if |ms| == 1 then 0 else 1;
      && e + k < |s| && k < |w| && s[e + k] != w[k] && IsCopiedInString(s[e]) && IsCopiedInString(s[e + k])
  {
    AtFirst(s, e, MemberEnd(|ms| == 1, true));
    if |ms| > 1 {
      AtSecond(s, e, MemberEnd(false, true));
      MembersStartPlain(ms[1..], d);
    }
  }

  lemma MembersStartPlain(ms: seq<Member>, d: nat)
    requires ms != []
    ensures var u := RenderMembers(ms, false, d); u != [] && u[0] == QUOTE
  {
    assert MemberStart(ms[0].key, false, d)[0] == Quote(ms[0].key)[0] == QUOTE;
  }

  // ----- the main results -----

  /** Minifying formatted text undoes the formatting exactly when no string or key ends in a
      backslash, but for a string with nothing behind it except closing brackets. */
  lemma MinifyUndoesFormatting(v: Json)
    requires Printable(v)
    ensures Outside(Render(v, true, 0) + [NUL], 0) == Render(v, false, 0) <==> Harmless(v, true)
  {
    hide Outside, InString, Render;
    if Harmless(v, true) {
      MinifyGivesUnformatted(v, true);
    } else {
      var t := Render(v, true, 0);
      var s := t + [NUL];
      assert At(s, 0, t);
      ValueDiffers(v, 0, s, 0, |t|);
    }
  }

  /** And unformatted text of such a tree is left as it is. */
  lemma MinifyGivesUnformatted(v: Json, fmt: bool)
    requires Printable(v) && Harmless(v, true)
    ensures Outside(Render(v, fmt, 0) + [NUL], 0) == Render(v, false, 0)
  {
    hide Outside, InString, Render;
    var t := Render(v, fmt, 0);
    var s := t + [NUL];
    assert At(s, 0, t);
    ValueIsMinified(v, fmt, 0, s, 0, |t|);
    OutsideStep(s, |t|);
    InStringStep(s, |t|);
    assert Render(v, false, 0) + [] == Render(v, false, 0);
  }

  /** A tree on which it fails: an array of a string that is one backslash, and a number. */
  lemma BackslashKeepsTheSpace()
    ensures var v := Array([String([BACKSLASH]), Number(1)]);
      && Printable(v) && Outside(Render(v, true, 0) + [NUL], 0) != Render(v, false, 0)
  {
    var items := [String([BACKSLASH]), Number(1)];
    assert !Harmless(items[0], false);
    assert !ItemsHarmless(items, true);
    assert forall k :: 0 <= k < |items| ==> Printable(items[k]);
    MinifyUndoesFormatting(Array(items));
  }
}
