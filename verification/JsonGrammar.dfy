/** The recursive-descent parser of srv/lib/c_json.c as functions of the buffer and an offset. */
module JsonGrammar {
  import opened Bytes
  import opened JsonStrings
  import opened JsonText

  const NESTING_LIMIT: nat := 1000
  const NUMBER_LENGTH: nat := 63   // sizeof(number_c_string) - 1

  /** A value and the offset after it. */
  datatype Parse<T> = Fail | Done(value: T, next: nat)

  function BlanksEnd(s: seq<byte>, i: nat): (j: nat)
    requires i <= |s|
    ensures i <= j <= |s|
    decreases |s| - i
  {
    if i < |s| && s[i] <= 32 then BlanksEnd(s, i + 1) else i
  }

  /** buffer_skip_whitespace: everything up to 32 is skipped, and at the end of the buffer the
      offset steps back onto its last byte. */
  function Skip(s: seq<byte>, i: nat): (j: nat)
    requires i <= |s|
    ensures i <= j <= |s|
  {
    if i == |s| then i
    else if BlanksEnd(s, i) == |s| then |s| - 1
    else BlanksEnd(s, i)
  }

  predicate IsNumberChar(b: byte) {
    IsDigit(b) || b == 43 || b == MINUS || b == 101 || b == 69 || b == 46
  }

  /** The end of the characters copied for strtod, at most k of them. */
  function RunEnd(s: seq<byte>, i: nat, k: nat): (j: nat)
    requires i <= |s|
    ensures i <= j <= |s|
    decreases k
  {
    if k == 0 || i == |s| || !IsNumberChar(s[i]) then i else RunEnd(s, i + 1, k - 1)
  }

  function DigitsEnd(s: seq<byte>, i: nat, stop: nat): (j: nat)
    requires i <= stop <= |s|
    ensures i <= j <= stop
    ensures forall k :: i <= k < j ==> IsDigit(s[k])
    decreases stop - i
  {
    if i < stop && IsDigit(s[i]) then DigitsEnd(s, i + 1, stop) else i
  }

  function DecimalValue(s: seq<byte>, i: nat, j: nat): nat
    requires i <= j <= |s| && forall k :: i <= k < j ==> IsDigit(s[k])
    decreases j - i
  {
    if i == j then 0
    else
      assert IsDigit(s[j - 1]);
      DecimalValue(s, i, j - 1) * 10 + (s[j - 1] - ZERO)
  }

  /** parse_number, with strtod restricted to an optional minus sign and digits. */
  function ParseNumber(s: seq<byte>, i: nat): (r: Parse<Json>)
    requires i <= |s|
    ensures r.Done? ==> i < r.next <= |s|
  {
    var stop := RunEnd(s, i, NUMBER_LENGTH);
    var d := if i < stop && s[i] == MINUS then i + 1 else i;
    var e := DigitsEnd(s, d, stop);
    if e == d then Fail
    else
      var n: int := DecimalValue(s, d, e);
      Done(Number(if d == i then n else -n), e)
  }

  predicate Reads(s: seq<byte>, i: nat, t: seq<byte>) {
    i + |t| <= |s| && s[i..i + |t|] == t
  }

  /** parse_value at offset i, inside depth arrays and objects. */
  function ParseValue(s: seq<byte>, i: nat, depth: nat): (r: Parse<Json>)
    requires i <= |s|
    ensures r.Done? ==> i < r.next <= |s|
    decreases |s| - i, 2
  {
    if Reads(s, i, NULL_TEXT) then Done(Null, i + 4)
    else if Reads(s, i, FALSE_TEXT) then Done(False, i + 5)
    else if Reads(s, i, TRUE_TEXT) then Done(True, i + 4)
    else if i == |s| then Fail
    else if s[i] == QUOTE then
      match ParseString(s, i)
      case None => Fail
      case Some(p) => Done(String(p.0), p.1)
    else if s[i] == MINUS || IsDigit(s[i]) then ParseNumber(s, i)
    else if s[i] == LBRACKET then ParseArray(s, i, depth)
    else if s[i] == LBRACE then ParseObject(s, i, depth)
    else Fail
  }

  function ParseArray(s: seq<byte>, i: nat, depth: nat): (r: Parse<Json>)
    requires i < |s|
    ensures r.Done? ==> i < r.next <= |s|
    decreases |s| - i, 1
  {
    if depth >= NESTING_LIMIT then Fail
    else
      var j := Skip(s, i + 1);
      if j == |s| then Fail
      else if s[j] == RBRACKET then Done(Array([]), j + 1)
      else
        match ParseItems(s, j, depth + 1)
        case Fail => Fail
        case Done(items, k) => Done(Array(items), k)
  }

  /** The items from offset i on, and the closing bracket. */
  function ParseItems(s: seq<byte>, i: nat, depth: nat): (r: Parse<seq<Json>>)
    requires i <= |s|
    ensures r.Done? ==> i < r.next <= |s|
    decreases |s| - i, 3
  {
    match ParseValue(s, Skip(s, i), depth)
    case Fail => Fail
    case Done(v, e) =>
      var k := Skip(s, e);
      if k == |s| then Fail
      else if s[k] == COMMA then
        match ParseItems(s, k + 1, depth)
        case Fail => Fail
        case Done(rest, n) => Done([v] + rest, n)
      else if s[k] == RBRACKET then Done([v], k + 1)
      else Fail
  }

  function ParseObject(s: seq<byte>, i: nat, depth: nat): (r: Parse<Json>)
    requires i < |s|
    ensures r.Done? ==> i < r.next <= |s|
    decreases |s| - i, 1
  {
    if depth >= NESTING_LIMIT then Fail
    else
      var j := Skip(s, i + 1);
      if j == |s| then Fail
      else if s[j] == RBRACE then Done(Object([]), j + 1)
      else
        match ParseMembers(s, j, depth + 1)
        case Fail => Fail
        case Done(ms, k) => Done(Object(ms), k)
  }

  /** The name, the colon and the value of one member. */
  function ParseMember(s: seq<byte>, i: nat, depth: nat): (r: Parse<Member>)
    requires i <= |s|
    ensures r.Done? ==> i < r.next <= |s|
    decreases |s| - i, 3
  {
    match ParseString(s, Skip(s, i))
    case None => Fail
    case Some(p) =>
      var c := Skip(s, p.1);
      if c == |s| || s[c] != COLON then Fail
      else
        match ParseValue(s, Skip(s, c + 1), depth)
        case Fail => Fail
        case Done(v, e) => Done(Member(p.0, v), e)
  }

  function ParseMembers(s: seq<byte>, i: nat, depth: nat): (r: Parse<seq<Member>>)
    requires i <= |s|
    ensures r.Done? ==> i < r.next <= |s|
    decreases |s| - i, 4
  {
    match ParseMember(s, i, depth)
    case Fail => Fail
    case Done(m, e) =>
      var k := Skip(s, e);
      if k == |s| then Fail
      else if s[k] == COMMA then
        match ParseMembers(s, k + 1, depth)
        case Fail => Fail
        case Done(rest, n) => Done([m] + rest, n)
      else if s[k] == RBRACE then Done([m], k + 1)
      else Fail
  }

  const BOM: seq<byte> := [0xEF, 0xBB, 0xBF]

  /** skip_utf8_bom. */
  function SkipBom(s: seq<byte>): (i: nat)
    ensures i <= |s|
  {
    if 4 < |s| && s[..3] == BOM then 3 else 0
  }

  /** cJSON_ParseWithLengthOpts: the item and the offset where parsing ended. */
  function ParseText(s: seq<byte>, requireNul: bool): (r: Parse<Json>)
    ensures r.Done? ==> r.next <= |s|
  {
    if s == [] then Fail
    else
      match ParseValue(s, Skip(s, SkipBom(s)), 0)
      case Fail => Fail
      case Done(v, e) =>
        if !requireNul then Done(v, e)
        else
          var k := Skip(s, e);
          if k == |s| || s[k] != NUL then Fail else Done(v, k)
  }
}
