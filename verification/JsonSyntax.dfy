/** What a JSON text is: derivations by the grammar of RFC 8259, each with the text that it derives and
    the value that the text stands for. */
module JsonSyntax {
  import opened Bytes
  import opened JsonStrings
  import opened JsonText
  import opened Wrappers

  /** A value as it is written. Every place where white space may stand has a field for it; inner is that
      between the brackets of an empty array or object. A string comes with its quotes. */
  datatype Syntax =
    | Word(word: Json)
    | Numeral(negative: bool, digits: seq<byte>, n: nat)
    | Quoted(text: seq<byte>, x: seq<byte>)
    | List(inner: seq<byte>, items: seq<Element>)
    | Record(inner: seq<byte>, entries: seq<Entry>)

  datatype Element = Element(before: seq<byte>, value: Syntax, after: seq<byte>)

  datatype Entry = Entry(before: seq<byte>, key: seq<byte>, name: seq<byte>, colon: seq<byte>, space: seq<byte>,
                         value: Syntax, after: seq<byte>)

  /** JSON-text = ws value ws */
  datatype Document = Document(before: seq<byte>, root: Syntax, after: seq<byte>)

  // ----- lexical rules -----

  /** The rules of the standard; those of the parser, for which every byte up to the space is white space
      and more numbers and strings are good; and those of the standard with comments as white space. */
  datatype Rules = Standard | Wide | Commented

  /** White space, section 2. */
  predicate IsWs(b: byte) { b == 0x20 || b == 0x09 || b == 0x0A || b == 0x0D }

  /** A comment to the end of the line, or between the two delimiters. */
  ghost predicate IsComment(c: seq<byte>) {
    && |c| > 2 && NUL !in c && c[0] == SLASH
    && if c[1] == SLASH then c[|c| - 1] == LF && LF !in c[2..|c| - 1]
       else && |c| > 3 && c[1] == STAR && c[|c| - 2] == STAR && c[|c| - 1] == SLASH
            && forall k :: 2 <= k < |c| - 2 ==> !(c[k] == STAR && c[k + 1] == SLASH)
  }

  /** White space and comments. */
  ghost predicate AreComments(t: seq<byte>)
    decreases |t|
  {
    || t == []
    || (IsWs(t[0]) && AreComments(t[1..]))
    || exists n :: 0 < n <= |t| && IsComment(t[..n]) && AreComments(t[n..])
  }

  ghost predicate AreWs(t: seq<byte>, rules: Rules) {
    match rules
    case Standard => forall k :: 0 <= k < |t| ==> IsWs(t[k])
    case Wide => forall k :: 0 <= k < |t| ==> t[k] <= 0x20
    case Commented => AreComments(t)
  }

  /** Decimal digits that stand for n. */
  ghost predicate IsDecimalNumber(digits: seq<byte>, n: nat) {
    if digits == [] then n == 0
    else digits[|digits| - 1] == ZERO + n % 10 && IsDecimalNumber(digits[..|digits| - 1], n / 10)
  }

  /** An integer, section 6, without leading zeros and in the range that all implementations agree on.
      The parser takes leading zeros and as many digits as it copies. */
  ghost predicate IsNumeral(negative: bool, digits: seq<byte>, n: nat, rules: Rules) {
    && digits != [] && IsDecimalNumber(digits, n)
    && if rules.Wide? then |digits| + (if negative then 1 else 0) <= 63
       else (digits[0] == ZERO ==> |digits| == 1) && n < 0x20_0000_0000_0000
  }

  /** A character of a string, section 7: a byte of an unescaped one, one of the two-character escapes,
      a UTF-16 literal, or two of them that make a surrogate pair. */
  datatype Char =
    | Unescaped(b: byte)
    | Short(letter: byte)
    | Unicode(cp: nat, digits: seq<byte>)
    | Pair(cp: nat, high: seq<byte>, low: seq<byte>)

  predicate IsSurrogate(u: nat) { 0xD800 <= u < 0xE000 }

  ghost predicate IsChar(c: Char) {
    match c
    case Unescaped(b) => b >= 0x20 && b != QUOTE && b != BACKSLASH
    case Short(letter) => letter as char in "\"\\/bfnrt"
    case Unicode(cp, digits) => cp < 0x1_0000 && !IsSurrogate(cp) && |digits| == 4 && IsHex4(digits, 0, cp)
    case Pair(cp, high, low) =>
      && 0x1_0000 <= cp < 0x11_0000 && |high| == 4 && |low| == 4
      && IsHex4(high, 0, 0xD800 + (cp - 0x1_0000) / 0x400) && IsHex4(low, 0, 0xDC00 + (cp - 0x1_0000) % 0x400)
  }

  function CharText(c: Char): seq<byte> {
    match c
    case Unescaped(b) => [b]
    case Short(letter) => [BACKSLASH, letter]
    case Unicode(_, digits) => [BACKSLASH, 117] + digits
    case Pair(_, high, low) => [BACKSLASH, 117] + high + ([BACKSLASH, 117] + low)
  }

  /** The character that a two-character escape stands for. */
  function ShortValue(letter: byte): byte {
    match letter as char
    case 'b' => 8
    case 'f' => 12
    case 'n' => 10
    case 'r' => 13
    case 't' => 9
    case _ => letter
  }

  /** In UTF-8. */
  function CharValue(c: Char): seq<byte>
    requires c.Unicode? || c.Pair? ==> c.cp < 0x11_0000
  {
    match c
    case Unescaped(b) => [b]
    case Short(letter) => [ShortValue(letter)]
    case Unicode(cp, _) => Utf8(cp)
    case Pair(cp, _, _) => Utf8(cp)
  }

  ghost predicate AreChars(cs: seq<Char>) {
    forall k :: 0 <= k < |cs| ==> IsChar(cs[k])
  }

  function CharsText(cs: seq<Char>): seq<byte> {
    if cs == [] then [] else CharText(cs[0]) + CharsText(cs[1..])
  }

  ghost function CharsValue(cs: seq<Char>): seq<byte>
    requires AreChars(cs)
  {
    if cs == [] then [] else assert IsChar(cs[0]); CharValue(cs[0]) + CharsValue(cs[1..])
  }

  /** A string and its value as a C string, which ends before the first NUL. */
  ghost predicate IsStandardString(text: seq<byte>, x: seq<byte>) {
    exists cs :: AreChars(cs) && text == [QUOTE] + CharsText(cs) + [QUOTE] && x == CString(CharsValue(cs))
  }

  /** The parser takes some strings more: with control characters, or bad digits in literals. */
  ghost predicate IsString(text: seq<byte>, x: seq<byte>, rules: Rules) {
    if rules.Wide? then ParseString(text, 0) == Some((x, |text|)) else IsStandardString(text, x)
  }

  // ----- the grammar -----

  /** A value by the grammar of the standard, under one of the sets of lexical rules. */
  ghost predicate IsSyntax(c: Syntax, rules: Rules) {
    match c
    case Word(v) => v.Null? || v.False? || v.True?
    case Numeral(negative, digits, n) => IsNumeral(negative, digits, n, rules)
    case Quoted(text, x) => IsString(text, x, rules)
    case List(inner, items) => AreWs(inner, rules) && forall k :: 0 <= k < |items| ==> IsElement(items[k], rules)
    case Record(inner, entries) =>
      AreWs(inner, rules) && forall k :: 0 <= k < |entries| ==> IsEntry(entries[k], rules)
  }

  ghost predicate IsElement(e: Element, rules: Rules) {
    AreWs(e.before, rules) && IsSyntax(e.value, rules) && AreWs(e.after, rules)
  }

  ghost predicate IsEntry(e: Entry, rules: Rules) {
    && AreWs(e.before, rules) && IsString(e.key, e.name, rules) && AreWs(e.colon, rules)
    && AreWs(e.space, rules) && IsSyntax(e.value, rules) && AreWs(e.after, rules)
  }

  ghost predicate IsDocument(d: Document, rules: Rules) {
    AreWs(d.before, rules) && IsSyntax(d.root, rules) && AreWs(d.after, rules)
  }

  // ----- the text -----

  function WordText(v: Json): seq<byte> {
    if v.Null? then NULL_TEXT else if v.False? then FALSE_TEXT else TRUE_TEXT
  }

  function SyntaxText(c: Syntax): seq<byte>
    decreases c
  {
    match c
    case Word(v) => WordText(v)
    case Numeral(negative, digits, _) => (if negative then [MINUS] else []) + digits
    case Quoted(text, _) => text
    case List(inner, items) => [LBRACKET] + (if items == [] then inner else ElementsText(items)) + [RBRACKET]
    case Record(inner, entries) => [LBRACE] + (if entries == [] then inner else EntriesText(entries)) + [RBRACE]
  }

  function ElementText(e: Element): seq<byte> {
    e.before + SyntaxText(e.value) + e.after
  }

  function ElementsText(es: seq<Element>): seq<byte>
    decreases es
  {
    if es == [] then []
    else ElementText(es[0]) + (if |es| == 1 then [] else [COMMA] + ElementsText(es[1..]))
  }

  function EntryText(e: Entry): seq<byte> {
    e.before + e.key + e.colon + ([COLON] + e.space + SyntaxText(e.value)) + e.after
  }

  function EntriesText(es: seq<Entry>): seq<byte>
    decreases es
  {
    if es == [] then []
    else EntryText(es[0]) + (if |es| == 1 then [] else [COMMA] + EntriesText(es[1..]))
  }

  function DocumentText(d: Document): seq<byte> {
    d.before + SyntaxText(d.root) + d.after
  }

  // ----- the value -----

  function ValueOf(c: Syntax): Json
    decreases c
  {
    match c
    case Word(v) => v
    case Numeral(negative, _, n) => Number(if negative then 0 - n else n)
    case Quoted(_, x) => String(x)
    case List(_, items) => Array(ItemsOf(items))
    case Record(_, entries) => Object(MembersOf(entries))
  }

  function ItemsOf(es: seq<Element>): seq<Json>
    decreases es
  {
    if es == [] then [] else [ValueOf(es[0].value)] + ItemsOf(es[1..])
  }

  function MembersOf(es: seq<Entry>): seq<Member>
    decreases es
  {
    if es == [] then [] else [Member(es[0].name, ValueOf(es[0].value))] + MembersOf(es[1..])
  }

  /** The text t is a JSON text for v by RFC 8259. */
  ghost predicate IsJsonText(t: seq<byte>, v: Json) {
    exists d :: IsDocument(d, Standard) && DocumentText(d) == t && ValueOf(d.root) == v
  }
}
