/** What srv/lib/picohttpparser.c accepts as a request head: each scanner as a function of the bytes
    and a position, with the three answers of the C code. */
module HttpGrammar {
  import opened Bytes
  import opened Wrappers

  /** Success at a position, -2 (the input ends too early), or -1 (malformed). */
  datatype Answer<T> = Ok(pos: nat, value: T) | Partial | Bad

  /** A token inside the buffer, as the C code keeps it: where it starts and how long it is. */
  datatype Slice = Slice(start: nat, len: nat)

  /** A header line; a continuation line has no name. */
  datatype Header = Header(name: Option<Slice>, value: Slice)
  datatype Request = Request(method_: Slice, path: Slice, minorVersion: nat, headers: seq<Header>)

  predicate IsPrintableAscii(b: byte) { 32 <= b < 127 }

  /** token_char_map. */
  predicate IsTokenChar(b: byte) {
    || b == 33 || 35 <= b <= 39 || b == 42 || b == 43 || b == 45 || b == 46
    || 48 <= b <= 57 || 65 <= b <= 90 || 94 <= b <= 122 || b == 124 || b == 126
  }

  /** What stops a field value: a control character other than HT, or DEL. */
  predicate IsCtl(b: byte) { (b < 32 && b != HT) || b == DEL }

  predicate IsBlank(b: byte) { b == SP || b == HT }

  /** The position of the first next character from i on, past token characters only. */
  function TokenEnd(s: seq<byte>, i: nat, next: byte): (r: Answer<()>)
    requires i <= |s|
    ensures r.Ok? ==> i <= r.pos < |s| && s[r.pos] == next
    decreases |s| - i
  {
    if i == |s| then Partial
    else if s[i] == next then Ok(i, ())
    else if !IsTokenChar(s[i]) then Bad
    else TokenEnd(s, i + 1, next)
  }

  /** The end of the request target: the first space, past anything but controls. */
  function PathEnd(s: seq<byte>, i: nat): (r: Answer<()>)
    requires i <= |s|
    ensures r.Ok? ==> i <= r.pos < |s| && s[r.pos] == SP
    decreases |s| - i
  {
    if i == |s| then Partial
    else if s[i] == SP then Ok(i, ())
    else if s[i] < 32 || s[i] == DEL then Bad
    else PathEnd(s, i + 1)
  }

  /** The first byte that is not a space, or, with tabs, not a blank. */
  function BlanksEnd(s: seq<byte>, i: nat, tabs: bool): (r: Answer<()>)
    requires i <= |s|
    ensures !r.Bad? && (r.Ok? ==> i <= r.pos < |s|)
    decreases |s| - i
  {
    if i == |s| then Partial
    else if s[i] == SP || (tabs && s[i] == HT) then BlanksEnd(s, i + 1, tabs)
    else Ok(i, ())
  }

  function CtlEnd(s: seq<byte>, i: nat): (r: Answer<()>)
    requires i <= |s|
    ensures !r.Bad? && (r.Ok? ==> i <= r.pos < |s| && IsCtl(s[r.pos]))
    decreases |s| - i
  {
    if i == |s| then Partial
    else if IsCtl(s[i]) then Ok(i, ())
    else CtlEnd(s, i + 1)
  }

  /** CRLF or a bare LF at i. */
  function Newline(s: seq<byte>, i: nat): (r: Answer<()>)
    requires i <= |s|
    ensures r.Ok? ==> i < r.pos <= |s|
  {
    if i == |s| then Partial
    else if s[i] == CR then
      if i + 1 == |s| then Partial else if s[i + 1] == LF then Ok(i + 2, ()) else Bad
    else if s[i] == LF then Ok(i + 1, ())
    else Bad
  }

  /** get_token_to_eol: the rest of the line, and the position after the line end. */
  function TokenToEol(s: seq<byte>, i: nat): (r: Answer<Slice>)
    requires i <= |s|
    ensures r.Ok? ==> i < r.pos <= |s| && r.value.start == i && i + r.value.len < r.pos
  {
    match CtlEnd(s, i)
    case Partial => Partial
    case Bad => Bad
    case Ok(e, _) =>
      match Newline(s, e)
      case Partial => Partial
      case Bad => Bad
      case Ok(p, _) => Ok(p, Slice(i, e - i))
  }

  /** The length of a value without its trailing blanks. */
  function Trimmed(s: seq<byte>, start: nat, len: nat): (n: nat)
    requires start + len <= |s|
    ensures n <= len
  {
    if len > 0 && IsBlank(s[start + len - 1]) then Trimmed(s, start, len - 1) else len
  }

  /** The name of the header line at i, and where its value starts. */
  function HeaderName(s: seq<byte>, i: nat, first: bool): (r: Answer<Option<Slice>>)
    requires i < |s|
    ensures r.Ok? ==> i <= r.pos <= |s|
  {
    if !first && IsBlank(s[i]) then Ok(i, None)
    else
      match TokenEnd(s, i, COLON)
      case Partial => Partial
      case Bad => Bad
      case Ok(e, _) =>
        if e == i then Bad
        else
          match BlanksEnd(s, e + 1, true)
          case Partial => Partial
          case Bad => Bad
          case Ok(p, _) => Ok(p, Some(Slice(i, e - i)))
  }

  /** The header line at i. */
  function HeaderLine(s: seq<byte>, i: nat, first: bool): (r: Answer<Header>)
    requires i < |s|
    ensures r.Ok? ==> i < r.pos <= |s|
  {
    match HeaderName(s, i, first)
    case Partial => Partial
    case Bad => Bad
    case Ok(v, name) =>
      match TokenToEol(s, v)
      case Partial => Partial
      case Bad => Bad
      case Ok(p, value) => Ok(p, Header(name, Slice(v, Trimmed(s, v, value.len))))
  }

  /** parse_headers from i on, after done headers. */
  function Headers(s: seq<byte>, i: nat, done: seq<Header>, max: nat): (r: Answer<seq<Header>>)
    requires i <= |s|
    ensures r.Ok? ==> i < r.pos <= |s|
    decreases |s| - i
  {
    if i == |s| then Partial
    else if s[i] == CR || s[i] == LF then
      match Newline(s, i)
      case Partial => Partial
      case Bad => Bad
      case Ok(p, _) => Ok(p, done)
    else if |done| == max then Bad
    else
      match HeaderLine(s, i, done == [])
      case Partial => Partial
      case Bad => Bad
      case Ok(p, h) => Headers(s, p, done + [h], max)
  }

  /** parse_http_version, which wants one more byte than it parses. */
  function Version(s: seq<byte>, i: nat): (r: Answer<nat>)
    requires i <= |s|
    ensures r.Ok? ==> r.pos == i + 8 < |s|
  {
    if |s| - i < 9 then Partial
    else if s[i..i + 7] == [72, 84, 84, 80, 47, 49, 46] && IsDigit(s[i + 7]) then Ok(i + 8, s[i + 7] - ZERO)
    else Bad
  }

  /** The method and the path, up to the version. */
  function Target(s: seq<byte>, i: nat): (r: Answer<(Slice, Slice)>)
    requires i <= |s|
    ensures r.Ok? ==> i < r.pos < |s|
  {
    match TokenEnd(s, i, SP)
    case Partial => Partial
    case Bad => Bad
    case Ok(m, _) =>
      match BlanksEnd(s, m + 1, false)
      case Partial => Partial
      case Bad => Bad
      case Ok(p, _) =>
        match PathEnd(s, p)
        case Partial => Partial
        case Bad => Bad
        case Ok(e, _) =>
          match BlanksEnd(s, e + 1, false)
          case Partial => Partial
          case Bad => Bad
          case Ok(v, _) => if m == i || e == p then Bad else Ok(v, (Slice(i, m - i), Slice(p, e - p)))
  }

  /** The optional empty line before the request. */
  function LeadingLine(s: seq<byte>): (r: Answer<()>)
    ensures r.Ok? ==> r.pos <= |s|
  {
    if s == [] then Partial
    else if s[0] == CR || s[0] == LF then Newline(s, 0)
    else Ok(0, ())
  }

  /** The request line from i on. */
  function RequestLine(s: seq<byte>, i: nat): (r: Answer<(Slice, Slice, nat)>)
    requires i <= |s|
    ensures r.Ok? ==> i < r.pos <= |s|
  {
    match Target(s, i)
    case Partial => Partial
    case Bad => Bad
    case Ok(v, target) =>
      match Version(s, v)
      case Partial => Partial
      case Bad => Bad
      case Ok(e, minor) =>
        match Newline(s, e)
        case Partial => Partial
        case Bad => Bad
        case Ok(p, _) => Ok(p, (target.0, target.1, minor))
  }

  /** parse_request: a request head parsed from scratch. */
  function FromScratch(s: seq<byte>, max: nat): (r: Answer<Request>)
    ensures r.Ok? ==> 0 < r.pos <= |s|
  {
    match LeadingLine(s)
    case Partial => Partial
    case Bad => Bad
    case Ok(i, _) =>
      match RequestLine(s, i)
      case Partial => Partial
      case Bad => Bad
      case Ok(h, line) =>
        match Headers(s, h, [], max)
        case Partial => Partial
        case Bad => Bad
        case Ok(p, headers) => Ok(p, Request(line.0, line.1, line.2, headers))
  }

  /** is_complete from pos on, having just seen blank line ends in a row. */
  function LineEndsFrom(s: seq<byte>, pos: nat, ends: nat): (r: Answer<()>)
    requires pos <= |s| && ends < 2
    ensures r.Ok? ==> pos < r.pos <= |s|
    decreases |s| - pos
  {
    if pos == |s| then Partial
    else if s[pos] == CR || s[pos] == LF then
      match Newline(s, pos)
      case Partial => Partial
      case Bad => Bad
      case Ok(p, _) => if ends == 1 then Ok(p, ()) else LineEndsFrom(s, p, 1)
    else LineEndsFrom(s, pos + 1, 0)
  }

  /** The shortcut: two line ends in a row, searched from three bytes before the new ones. */
  function IsComplete(s: seq<byte>, lastLen: nat): Answer<()>
    requires lastLen <= |s|
  {
    LineEndsFrom(s, if lastLen < 3 then 0 else lastLen - 3, 0)
  }

  /** phr_parse_request on a buffer of which the first lastLen bytes were there at the last call. */
  function ParseRequest(s: seq<byte>, lastLen: nat, max: nat): Answer<Request>
    requires lastLen <= |s|
  {
    if lastLen != 0 && !IsComplete(s, lastLen).Ok? then
      if IsComplete(s, lastLen).Partial? then Partial else Bad
    else FromScratch(s, max)
  }
}
