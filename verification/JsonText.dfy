/** JSON trees and their text: what cJSON_Print and cJSON_PrintUnformatted produce. */
module JsonText {
  import opened Bytes
  import opened JsonStrings

  /** A cJSON item. The number is valuedouble, on the integers that the model is restricted to. */
  datatype Json =
    | Null
    | False
    | True
    | Number(n: int)
    | String(text: seq<byte>)
    | Array(items: seq<Json>)
    | Object(members: seq<Member>)

  datatype Member = Member(key: seq<byte>, value: Json)

  const NULL_TEXT: seq<byte> := [110, 117, 108, 108]
  const FALSE_TEXT: seq<byte> := [102, 97, 108, 115, 101]
  const TRUE_TEXT: seq<byte> := [116, 114, 117, 101]

  function Digits(n: nat): (r: seq<byte>)
    ensures |r| >= 1
  {
    if n < 10 then [ZERO + n] else Digits(n / 10) + [ZERO + n % 10]
  }

  /** sprintf with "%d". */
  function Decimal(n: int): seq<byte> {
    if n < 0 then [MINUS] + Digits(-n) else Digits(n)
  }

  function Tabs(n: nat): (r: seq<byte>)
    ensures |r| == n
  {
    seq(n, _ => HT)
  }

  /** print_value; depth is the number of arrays and objects around the value. */
  function Render(v: Json, fmt: bool, depth: nat): seq<byte>
    decreases v
  {
    match v
    case Null => NULL_TEXT
    case False => FALSE_TEXT
    case True => TRUE_TEXT
    case Number(n) => Decimal(n)
    case String(x) => Quote(x)
    case Array(items) => [LBRACKET] + RenderItems(items, fmt, depth + 1) + [RBRACKET]
    case Object(members) => OpenBrace(fmt) + RenderMembers(members, fmt, depth + 1) + CloseBrace(fmt, depth)
  }

  function OpenBrace(fmt: bool): seq<byte> {
    if fmt then [LBRACE, LF] else [LBRACE]
  }

  function CloseBrace(fmt: bool, depth: nat): seq<byte> {
    Tabs(if fmt then depth else 0) + [RBRACE]
  }

  /** What follows an array item. */
  function ItemEnd(last: bool, fmt: bool): seq<byte> {
    if last then [] else if fmt then [COMMA, SP] else [COMMA]
  }

  function RenderItems(items: seq<Json>, fmt: bool, depth: nat): seq<byte>
    decreases items
  {
    if items == [] then []
    else Render(items[0], fmt, depth) + ItemEnd(|items| == 1, fmt) + RenderItems(items[1..], fmt, depth)
  }

  /** What stands before the value of a member. */
  function MemberStart(key: seq<byte>, fmt: bool, depth: nat): seq<byte> {
    Tabs(if fmt then depth else 0) + Quote(key) + (if fmt then [COLON, HT] else [COLON])
  }

  /** What follows it. */
  function MemberEnd(last: bool, fmt: bool): seq<byte> {
    (if last then [] else [COMMA]) + (if fmt then [LF] else [])
  }

  function RenderMembers(ms: seq<Member>, fmt: bool, depth: nat): seq<byte>
    decreases ms
  {
    if ms == [] then []
    else
      MemberStart(ms[0].key, fmt, depth) + Render(ms[0].value, fmt, depth) + MemberEnd(|ms| == 1, fmt) +
      RenderMembers(ms[1..], fmt, depth)
  }

  /** Trees whose text is in the scope of the model: numbers that print as "%d", C strings. */
  ghost predicate Printable(v: Json)
    decreases v
  {
    match v
    case Number(n) => -0x8000_0000 <= n < 0x8000_0000
    case String(x) => NUL !in x
    case Array(items) => forall i :: 0 <= i < |items| ==> Printable(items[i])
    case Object(ms) => forall i :: 0 <= i < |ms| ==> NUL !in ms[i].key && Printable(ms[i].value)
    case _ => true
  }

  /** How deep arrays and objects are nested. */
  function Depth(v: Json): nat
    decreases v
  {
    match v
    case Array(items) => 1 + ItemsDepth(items)
    case Object(ms) => 1 + MembersDepth(ms)
    case _ => 0
  }

  function ItemsDepth(items: seq<Json>): nat
    decreases items
  {
    if items == [] then 0
    else
      var (a, b) := (Depth(items[0]), ItemsDepth(items[1..]));
      if a > b then a else b
  }

  function MembersDepth(ms: seq<Member>): nat
    decreases ms
  {
    if ms == [] then 0
    else
      var (a, b) := (Depth(ms[0].value), MembersDepth(ms[1..]));
      if a > b then a else b
  }
}
