/** Bytes and the control and delimiter characters that the HTTP and JSON code tests for. */
module Bytes {
  type byte = b: int | 0 <= b < 256 witness 0

  const NUL: byte := 0
  const BACKSPACE: byte := 8
  const HT: byte := 9
  const LF: byte := 10
  const FORM_FEED: byte := 12
  const CR: byte := 13
  const SP: byte := 32
  const QUOTE: byte := 34
  const STAR: byte := 42
  const COMMA: byte := 44
  const MINUS: byte := 45
  const SLASH: byte := 47
  const ZERO: byte := 48
  const NINE: byte := 57
  const COLON: byte := 58
  const LBRACKET: byte := 91
  const BACKSLASH: byte := 92
  const RBRACKET: byte := 93
  const LBRACE: byte := 123
  const RBRACE: byte := 125
  const DEL: byte := 127
  const CRLF: seq<byte> := [CR, LF]

  predicate IsDigit(b: byte) { ZERO <= b <= NINE }

  /** decode_hex of srv/lib/picohttpparser.c; -1 when the byte is not a hexadecimal digit. */
  function DecodeHex(b: byte): (v: int)
    ensures -1 <= v < 16
  {
    if 48 <= b <= 57 then b - 48
    else if 65 <= b <= 70 then b - 65 + 10
    else if 97 <= b <= 102 then b - 97 + 10
    else -1
  }

  function HexDigit(v: nat): byte
    requires v < 16
  {
    if v < 10 then 48 + v else 97 + v - 10
  }

  /** The hexadecimal digits, RFC 5234. */
  const LOWER_HEX: string := "0123456789abcdef"
  const UPPER_HEX: string := "0123456789ABCDEF"

  /** The byte is the digit for v, in either case. */
  predicate IsHexDigit(b: byte, v: nat) {
    v < 16 && (b as char == LOWER_HEX[v] || b as char == UPPER_HEX[v])
  }

  predicate IsHex(b: byte) { b as char in LOWER_HEX || b as char in UPPER_HEX }

  /** Where the digits stand among the characters. Those that are written are lower case. */
  lemma HexTables(v: nat)
    requires v < 16
    ensures LOWER_HEX[v] as int == if v < 10 then 48 + v else 87 + v
    ensures UPPER_HEX[v] as int == if v < 10 then 48 + v else 55 + v
    ensures HexDigit(v) as char == LOWER_HEX[v]
  {
  }

  /** A digit decodes to its value, in either case, and nothing else does. */
  lemma DecodeHexExactly(b: byte, v: nat)
    ensures DecodeHex(b) == v <==> IsHexDigit(b, v)
  {
    if v < 16 {
      HexTables(v);
    }
  }

  /** Every other byte gives -1. */
  lemma OnlyHexDecodes(b: byte)
    ensures DecodeHex(b) == -1 <==> !IsHex(b)
  {
    if v: nat :| v < 16 && (LOWER_HEX[v] == b as char || UPPER_HEX[v] == b as char) {
      DecodeHexExactly(b, v);
    } else if DecodeHex(b) != -1 {
      DecodeHexExactly(b, DecodeHex(b));
      assert false;
    }
  }

  /** Fragments of a stream, put together. */
  function Concat(fragments: seq<seq<byte>>): seq<byte> {
    if fragments == [] then [] else fragments[0] + Concat(fragments[1..])
  }

  lemma {:induction false} ConcatAppend(x: seq<seq<byte>>, y: seq<seq<byte>>)
    ensures Concat(x + y) == Concat(x) + Concat(y)
  {
    if x == [] {
      assert x + y == y;
    } else {
      ConcatAppend(x[1..], y);
      assert (x + y)[1..] == x[1..] + y;
      assert x[0] + (Concat(x[1..]) + Concat(y)) == x[0] + Concat(x[1..]) + Concat(y);
    }
  }

  /** The text t stands in s at position i. */
  ghost predicate At(s: seq<byte>, i: nat, t: seq<byte>) {
    i + |t| <= |s| && forall k {:trigger t[k]} :: 0 <= k < |t| ==> s[i + k] == t[k]
  }

  lemma AtSplit(s: seq<byte>, i: nat, a: seq<byte>, b: seq<byte>)
    requires At(s, i, a + b)
    ensures At(s, i, a) && At(s, i + |a|, b)
  {
    forall k | 0 <= k < |a| ensures s[i + k] == a[k] {
      assert (a + b)[k] == a[k];
    }
    forall k | 0 <= k < |b| ensures s[i + |a| + k] == b[k] {
      assert (a + b)[|a| + k] == b[k];
    }
  }

  lemma AtSplit3(s: seq<byte>, i: nat, a: seq<byte>, b: seq<byte>, c: seq<byte>)
    requires At(s, i, a + b + c)
    ensures At(s, i, a) && At(s, i + |a|, b) && At(s, i + |a| + |b|, c)
    ensures |a + b + c| == |a| + |b| + |c|
  {
    AtSplit(s, i, a + b, c);
    AtSplit(s, i, a, b);
  }

  lemma AtFirst(s: seq<byte>, i: nat, t: seq<byte>)
    requires At(s, i, t) && t != []
    ensures i < |s| && s[i] == t[0]
  {
    assert s[i + 0] == t[0];
  }

  lemma AtSecond(s: seq<byte>, i: nat, t: seq<byte>)
    requires At(s, i, t) && |t| >= 2
    ensures i + 1 < |s| && s[i + 1] == t[1]
  {
    assert s[i + 1] == t[1];
  }
}
