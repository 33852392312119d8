/** JSON strings in srv/lib/c_json.c: escaping, the two passes of unescaping, and the conversion of
    UTF-16 literals to UTF-8. */
module JsonStrings {
  import opened Bytes
  import opened Wrappers

  // ----- escaping -----

  /** The two-character escapes. */
  function ShortEscape(b: byte): Option<byte> {
    if b == QUOTE then Some(QUOTE)
    else if b == BACKSLASH then Some(BACKSLASH)
    else if b == BACKSPACE then Some(98)
    else if b == FORM_FEED then Some(102)
    else if b == LF then Some(110)
    else if b == CR then Some(114)
    else if b == HT then Some(116)
    else None
  }

  function EscapeByte(b: byte): (r: seq<byte>)
    ensures 1 <= |r| <= 6
  {
    if ShortEscape(b).Some? then [BACKSLASH, ShortEscape(b).value]
    else if b < 32 then [BACKSLASH, 117, ZERO, ZERO, HexDigit(b / 16), HexDigit(b % 16)]
    else [b]
  }

  function Escape(x: seq<byte>): (r: seq<byte>)
    ensures |r| >= |x|
  {
    if x == [] then [] else EscapeByte(x[0]) + Escape(x[1..])
  }

  /** print_string_ptr. */
  function Quote(x: seq<byte>): seq<byte> {
    [QUOTE] + Escape(x) + [QUOTE]
  }

  // ----- UTF-16 literals -----

  /** parse_hex4: any bad digit makes the whole value 0. */
  function Hex4(s: seq<byte>, i: nat): (h: nat)
    requires i + 4 <= |s|
    ensures h < 0x1_0000
  {
    var a, b, c, d := DecodeHex(s[i]), DecodeHex(s[i + 1]), DecodeHex(s[i + 2]), DecodeHex(s[i + 3]);
    if a == -1 || b == -1 || c == -1 || d == -1 then 0 else ((a * 16 + b) * 16 + c) * 16 + d
  }

  /** The digits p, q, r and t, of any case, stand for u. */
  ghost predicate StandFor(p: byte, q: byte, r: byte, t: byte, u: nat) {
    exists a: nat, b: nat, c: nat, d: nat ::
      && IsHexDigit(p, a) && IsHexDigit(q, b) && IsHexDigit(r, c) && IsHexDigit(t, d)
      && u == 4096 * a + 256 * b + 16 * c + d
  }

  ghost predicate IsHex4(s: seq<byte>, i: nat, u: nat) {
    i + 4 <= |s| && StandFor(s[i], s[i + 1], s[i + 2], s[i + 3], u)
  }

  ghost predicate AreHex4(s: seq<byte>, i: nat) {
    i + 4 <= |s| && IsHex(s[i]) && IsHex(s[i + 1]) && IsHex(s[i + 2]) && IsHex(s[i + 3])
  }

  lemma Hex4Reads(s: seq<byte>, i: nat, u: nat)
    requires IsHex4(s, i, u)
    ensures Hex4(s, i) == u
  {
    hide IsHexDigit, DecodeHex;
    var p, q, r, t := s[i], s[i + 1], s[i + 2], s[i + 3];
    var a: nat, b: nat, c: nat, d: nat :|
      && IsHexDigit(p, a) && IsHexDigit(q, b) && IsHexDigit(r, c) && IsHexDigit(t, d)
      && u == 4096 * a + 256 * b + 16 * c + d;
    DecodeHexExactly(p, a);
    DecodeHexExactly(q, b);
    DecodeHexExactly(r, c);
    DecodeHexExactly(t, d);
  }

  /** Four digits are read as the number they stand for, and anything else as 0. */
  lemma Hex4Exactly(s: seq<byte>, i: nat)
    requires i + 4 <= |s|
    ensures if AreHex4(s, i) then IsHex4(s, i, Hex4(s, i)) else Hex4(s, i) == 0
  {
    hide IsHex, IsHexDigit, DecodeHex;
    var a, b, c, d := DecodeHex(s[i]), DecodeHex(s[i + 1]), DecodeHex(s[i + 2]), DecodeHex(s[i + 3]);
    OnlyHexDecodes(s[i]);
    OnlyHexDecodes(s[i + 1]);
    OnlyHexDecodes(s[i + 2]);
    OnlyHexDecodes(s[i + 3]);
    if AreHex4(s, i) {
      DecodeHexExactly(s[i], a);
      DecodeHexExactly(s[i + 1], b);
      DecodeHexExactly(s[i + 2], c);
      DecodeHexExactly(s[i + 3], d);
      assert Hex4(s, i) == 4096 * a + 256 * b + 16 * c + d;
    }
  }

  /** UTF-8, section 3 of RFC 3629. */
  function Utf8(cp: nat): (r: seq<byte>)
    requires cp < 0x11_0000
    ensures 1 <= |r| <= 4
    ensures |r| <= 3 <==> cp < 0x1_0000
  {
    if cp < 0x80 then [cp]
    else if cp < 0x800 then [0xC0 + cp / 64, 0x80 + cp % 64]
    else if cp < 0x1_0000 then [0xE0 + cp / 4096, 0x80 + cp / 64 % 64, 0x80 + cp % 64]
    else [0xF0 + cp / 262144, 0x80 + cp / 4096 % 64, 0x80 + cp / 64 % 64, 0x80 + cp % 64]
  }

  predicate IsHighSurrogate(u: nat) { 0xD800 <= u <= 0xDBFF }
  predicate IsLowSurrogate(u: nat) { 0xDC00 <= u <= 0xDFFF }

  /** The code point of a surrogate pair: 0x10000 + (((first & 0x3FF) << 10) | (second & 0x3FF)). */
  function FromSurrogates(first: nat, second: nat): (cp: nat)
    ensures 0x1_0000 <= cp < 0x11_0000
  {
    0x1_0000 + (first % 0x400) * 0x400 + second % 0x400
  }

  /** utf16_literal_to_utf8: the bytes written and the length of the literal, 6 or 12. */
  function Literal(s: seq<byte>, i: nat, end: nat): (r: Option<(seq<byte>, nat)>)
    requires end <= |s|
    ensures r.Some? ==> (r.value.1 == 6 || r.value.1 == 12) && i + r.value.1 <= end
    ensures r.Some? ==> |r.value.0| <= if r.value.1 == 6 then 3 else 4
  {
    if end < i + 6 then None
    else
      var first := Hex4(s, i + 2);
      if IsLowSurrogate(first) then None
      else if !IsHighSurrogate(first) then Some((Utf8(first), 6))
      else if end < i + 12 then None
      else if s[i + 6] != BACKSLASH || s[i + 7] != 117 then None
      else
        var second := Hex4(s, i + 8);
        if !IsLowSurrogate(second) then None
        else Some((Utf8(FromSurrogates(first, second)), 12))
  }

  // ----- the two passes -----

  /** The first pass: the closing quote, each escape counting as two bytes. */
  function ScanEnd(s: seq<byte>, i: nat): (r: Option<nat>)
    ensures r.Some? ==> i <= r.value < |s| && s[r.value] == QUOTE
    decreases |s| - i
  {
    if i >= |s| then None
    else if s[i] == QUOTE then Some(i)
    else if s[i] == BACKSLASH then (if i + 1 >= |s| then None else ScanEnd(s, i + 2))
    else ScanEnd(s, i + 1)
  }

  /** The escapes of one character. */
  function Unshort(c: byte): Option<byte> {
    if c == 98 then Some(BACKSPACE)
    else if c == 102 then Some(FORM_FEED)
    else if c == 110 then Some(LF)
    else if c == 114 then Some(CR)
    else if c == 116 then Some(HT)
    else if c == QUOTE || c == BACKSLASH || c == SLASH then Some(c)
    else None
  }

  /** One round of the second pass at i: the bytes written and the bytes consumed. */
  function Decode1(s: seq<byte>, i: nat, end: nat): (r: Option<(seq<byte>, nat)>)
    requires i < end < |s|
    ensures r.Some? ==> r.value.1 >= 1
  {
    if s[i] != BACKSLASH then Some(([s[i]], 1))
    else if s[i + 1] == 117 then Literal(s, i, end)
    else if Unshort(s[i + 1]).Some? then Some(([Unshort(s[i + 1]).value], 2))
    else None
  }

  /** The second pass. It can step over end by one byte, when its escapes are not those of the
      first pass. */
  function Unescape(s: seq<byte>, i: nat, end: nat): Option<seq<byte>>
    requires end < |s|
    decreases end - i
  {
    if i >= end then Some([])
    else
      var step := Decode1(s, i, end);
      if step.None? then None
      else
        var rest := Unescape(s, i + step.value.1, end);
        if rest.None? then None else Some(step.value.0 + rest.value)
  }

  /** A C string ends at its first NUL. */
  function CString(x: seq<byte>): seq<byte> {
    if x == [] || x[0] == NUL then [] else [x[0]] + CString(x[1..])
  }

  /** parse_string at i: the C string decoded and the offset after the closing quote. */
  function ParseString(s: seq<byte>, i: nat): (r: Option<(seq<byte>, nat)>)
    ensures r.Some? ==> i < r.value.1 <= |s|
  {
    if i >= |s| || s[i] != QUOTE then None
    else
      var end := ScanEnd(s, i + 1);
      if end.None? then None
      else
        var out := Unescape(s, i + 1, end.value);
        if out.None? then None else Some((CString(out.value), end.value + 1))
  }

  lemma {:induction false} CStringWithoutNul(x: seq<byte>)
    requires NUL !in x
    ensures CString(x) == x
  {
    if x != [] {
      CStringWithoutNul(x[1..]);
    }
  }

  // ----- Unicode -----

  /** A literal: a backslash, a u, and four hexadecimal digits of any case that stand for u. */
  ghost predicate IsLiteral(s: seq<byte>, i: nat, u: nat) {
    i + 6 <= |s| && s[i] == BACKSLASH && s[i + 1] == 117 && IsHex4(s, i + 2, u)
  }

  /** The decoding of UTF-8 by its definition: the number of bytes is read off the first one, and
      each further byte brings six bits. */
  function FromUtf8(b: seq<byte>): Option<nat> {
    if |b| == 1 && b[0] < 0x80 then AddTail(b[0], [])
    else if |b| == 2 && 0xC0 <= b[0] < 0xE0 then AddTail(b[0] - 0xC0, b[1..])
    else if |b| == 3 && 0xE0 <= b[0] < 0xF0 then AddTail(b[0] - 0xE0, b[1..])
    else if |b| == 4 && 0xF0 <= b[0] < 0xF8 then AddTail(b[0] - 0xF0, b[1..])
    else None
  }

  function AddTail(bits: nat, tail: seq<byte>): Option<nat>
    decreases |tail|
  {
    if tail == [] then Some(bits)
    else if 0x80 <= tail[0] < 0xC0 then AddTail(bits * 64 + (tail[0] - 0x80), tail[1..])
    else None
  }

  lemma NextTail(bits: nat, low: nat, rest: seq<byte>)
    requires low < 64
    ensures AddTail(bits, [0x80 + low] + rest) == AddTail(bits * 64 + low, rest)
  {
    assert ([0x80 + low] + rest)[1..] == rest;
  }

  /** The bytes stand for the code point, in the shortest form. */
  lemma Utf8RoundTrip(cp: nat)
    requires cp < 0x11_0000
    ensures FromUtf8(Utf8(cp)) == Some(cp)
    ensures |Utf8(cp)| == if cp < 0x80 then 1 else if cp < 0x800 then 2 else if cp < 0x1_0000 then 3 else 4
  {
    var x, y, z := cp / 64, cp / 4096, cp / 262144;
    LowBits(cp);
    var tail := [0x80 + cp % 64];
    NextTail(x, cp % 64, []);
    assert tail + [] == tail;
    if cp >= 0x800 {
      NextTail(y, x % 64, tail);
      tail := [0x80 + x % 64] + tail;
    }
    if cp >= 0x1_0000 {
      NextTail(z, y % 64, tail);
      tail := [0x80 + y % 64] + tail;
    }
    hide AddTail;
    assert cp >= 0x80 ==> Utf8(cp)[1..] == tail;
  }

  lemma LowBits(cp: nat)
    ensures var (x, y, z) := (cp / 64, cp / 4096, cp / 262144);
            cp == x * 64 + cp % 64 && x == y * 64 + x % 64 && y == z * 64 + y % 64
  {
  }

  /** A code point outside the surrogates (section 7 of RFC 8259) decodes to its UTF-8 form. */
  lemma LiteralIsUtf8(s: seq<byte>, i: nat, end: nat, cp: nat)
    requires IsLiteral(s, i, cp) && i + 6 <= end < |s| && cp < 0x1_0000
    requires !IsHighSurrogate(cp) && !IsLowSurrogate(cp)
    ensures var r := Decode1(s, i, end);
            r.Some? && FromUtf8(r.value.0) == Some(cp) && |r.value.0| <= 3 && r.value.1 == 6
  {
    hide Hex4, IsHex4;
    Hex4Reads(s, i + 2, cp);
    Utf8RoundTrip(cp);
  }

  lemma SurrogatesOf(cp: nat)
    requires 0x1_0000 <= cp < 0x11_0000
    ensures var (high, low) := (0xD800 + (cp - 0x1_0000) / 0x400, 0xDC00 + (cp - 0x1_0000) % 0x400);
            IsHighSurrogate(high) && IsLowSurrogate(low) && FromSurrogates(high, low) == cp
  {
    var high, low := (cp - 0x1_0000) / 0x400, (cp - 0x1_0000) % 0x400;
    assert (0xD800 + high) % 0x400 == high;
    assert (0xDC00 + low) % 0x400 == low;
  }

  /** Any other code point, written as the two surrogates of section 2.1 of RFC 2781, does too. */
  lemma PairIsUtf8(s: seq<byte>, i: nat, end: nat, cp: nat)
    requires 0x1_0000 <= cp < 0x11_0000 && i + 12 <= end < |s|
    requires IsLiteral(s, i, 0xD800 + (cp - 0x1_0000) / 0x400)
    requires IsLiteral(s, i + 6, 0xDC00 + (cp - 0x1_0000) % 0x400)
    ensures var r := Decode1(s, i, end);
            r.Some? && FromUtf8(r.value.0) == Some(cp) && |r.value.0| == 4 && r.value.1 == 12
  {
    hide Hex4, IsHex4;
    Hex4Reads(s, i + 2, 0xD800 + (cp - 0x1_0000) / 0x400);
    Hex4Reads(s, i + 8, 0xDC00 + (cp - 0x1_0000) % 0x400);
    SurrogatesOf(cp);
    Utf8RoundTrip(cp);
  }

  /** A surrogate that is not the first half of a pair is refused. */
  lemma LoneSurrogatesFail(s: seq<byte>, i: nat, end: nat, u: nat)
    requires IsLiteral(s, i, u) && i + 6 <= end < |s|
    requires IsLowSurrogate(u) ||
             (IsHighSurrogate(u) &&
              !(i + 12 <= end && exists low :: IsLiteral(s, i + 6, low) && IsLowSurrogate(low)))
    ensures Decode1(s, i, end).None?
  {
    hide Hex4, IsHexDigit, IsHex, IsHex4;
    Hex4Reads(s, i + 2, u);
    if IsHighSurrogate(u) && end >= i + 12 && s[i + 6] == BACKSLASH && s[i + 7] == 117 {
      var low := Hex4(s, i + 8);
      Hex4Exactly(s, i + 8);
    }
  }

  /** A literal with a bad digit is not refused: it is read as a NUL. */
  lemma BadDigitsAreNul(s: seq<byte>, i: nat, end: nat)
    requires i + 6 <= end < |s| && s[i] == BACKSLASH && s[i + 1] == 117 && !AreHex4(s, i + 2)
    ensures Decode1(s, i, end) == Some(([NUL], 6))
  {
    hide IsHex, DecodeHex, Hex4;
    Hex4Exactly(s, i + 2);
  }

  // ----- the two passes agree on the length -----

  /** The rounds of the first pass from i on. The C code computes them as the distance to the end
      less the skipped bytes, and allocates two bytes more. */
  function Tokens(s: seq<byte>, i: nat): nat
    requires ScanEnd(s, i).Some?
    decreases |s| - i
  {
    if s[i] == QUOTE then 0
    else if s[i] == BACKSLASH then 1 + Tokens(s, i + 2)
    else 1 + Tokens(s, i + 1)
  }

  /** The first pass stands at i between two of its rounds, or, when mid, inside an escape. */
  ghost predicate OnTrack(s: seq<byte>, i: nat, end: nat, mid: bool) {
    ScanEnd(s, if mid then i + 1 else i) == Some(end)
  }

  /** What the second pass may still write at i. */
  ghost function Room(s: seq<byte>, i: nat, end: nat, mid: bool): nat
    requires OnTrack(s, i, end, mid)
  {
    if mid then 1 + Tokens(s, i + 1) else Tokens(s, i)
  }

  /** n bytes take at least half as many rounds. */
  lemma {:induction false} Advance(s: seq<byte>, i: nat, end: nat, n: nat) returns (mid: bool)
    requires OnTrack(s, i, end, false) && i + n <= end
    ensures OnTrack(s, i + n, end, mid)
    ensures Tokens(s, i) >= Room(s, i + n, end, mid) + n / 2
    ensures !mid ==> Tokens(s, i) >= Room(s, i + n, end, mid) + (n + 1) / 2
    decreases n
  {
    if n == 0 {
      mid := false;
    } else if s[i] != BACKSLASH {
      mid := Advance(s, i + 1, end, n - 1);
    } else if n == 1 {
      mid := true;
    } else {
      mid := Advance(s, i + 2, end, n - 2);
    }
  }

  /** One round of the second pass never writes more than the first pass has made room for, in step
      with it or not; it ends at most one byte past the end. */
  lemma RoundFits(s: seq<byte>, i: nat, end: nat, mid: bool) returns (mid': bool)
    requires i < end < |s| && OnTrack(s, i, end, mid) && Decode1(s, i, end).Some?
    ensures var (o, k) := Decode1(s, i, end).value;
      if i + k <= end then OnTrack(s, i + k, end, mid') && |o| + Room(s, i + k, end, mid') <= Room(s, i, end, mid)
      else i + k == end + 1 && |o| <= Room(s, i, end, mid)
  {
    var (o, k) := Decode1(s, i, end).value;
    if s[i] != BACKSLASH {
      mid' := false;
    } else if s[i + 1] == 117 {
      mid' := Advance(s, i + 2, end, k - 2);
    } else {
      mid' := mid && s[i + 1] == BACKSLASH;
    }
  }
}
