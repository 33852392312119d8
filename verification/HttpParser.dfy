/** The scanning loops of srv/lib/picohttpparser.c (the portable branch) and the read loop of
    srv/lib/handler.c, proved against the grammar. */
module HttpParser {
  import opened Bytes
  import opened HttpGrammar
  import opened HttpIncremental
  import opened Wrappers

  method ParseToken(buf: array<byte>, i: nat, bufEnd: nat, next: byte) returns (r: Answer<()>)
    requires i <= bufEnd <= buf.Length
    ensures r == TokenEnd(buf[..bufEnd], i, next)
  {
    if i == bufEnd {
      return Partial;
    }
    var p := i;
    while buf[p] != next
      invariant i <= p < bufEnd
      invariant TokenEnd(buf[..bufEnd], i, next) == TokenEnd(buf[..bufEnd], p, next)
      decreases bufEnd - p
    {
      if !IsTokenChar(buf[p]) {
        return Bad;
      }
      p := p + 1;
      if p == bufEnd {
        return Partial;
      }
    }
    return Ok(p, ());
  }

  /** ADVANCE_TOKEN. */
  method AdvanceToken(buf: array<byte>, i: nat, bufEnd: nat) returns (r: Answer<()>)
    requires i <= bufEnd <= buf.Length
    ensures r == PathEnd(buf[..bufEnd], i)
  {
    if i == bufEnd {
      return Partial;
    }
    var p := i;
    while buf[p] != SP
      invariant i <= p < bufEnd
      invariant PathEnd(buf[..bufEnd], i) == PathEnd(buf[..bufEnd], p)
      decreases bufEnd - p
    {
      if !IsPrintableAscii(buf[p]) {
        if buf[p] < 32 || buf[p] == DEL {
          return Bad;
        }
      }
      p := p + 1;
      if p == bufEnd {
        return Partial;
      }
    }
    return Ok(p, ());
  }

  method SkipBlanks(buf: array<byte>, i: nat, bufEnd: nat, tabs: bool) returns (r: Answer<()>)
    requires i <= bufEnd <= buf.Length
    ensures r == BlanksEnd(buf[..bufEnd], i, tabs)
  {
    var p := i;
    while true
      invariant i <= p <= bufEnd
      invariant BlanksEnd(buf[..bufEnd], i, tabs) == BlanksEnd(buf[..bufEnd], p, tabs)
      decreases bufEnd - p
    {
      if p == bufEnd {
        return Partial;
      }
      if !(buf[p] == SP || (tabs && buf[p] == HT)) {
        return Ok(p, ());
      }
      p := p + 1;
    }
  }

  method ExpectNewline(buf: array<byte>, i: nat, bufEnd: nat) returns (r: Answer<()>)
    requires i <= bufEnd <= buf.Length
    ensures r == Newline(buf[..bufEnd], i)
  {
    if i == bufEnd {
      return Partial;
    }
    if buf[i] == CR {
      if i + 1 == bufEnd {
        return Partial;
      }
      if buf[i + 1] != LF {
        return Bad;
      }
      return Ok(i + 2, ());
    }
    if buf[i] == LF {
      return Ok(i + 1, ());
    }
    return Bad;
  }

  /** The search for a control character, eight bytes at a time while eight are left: a printable
      run is skipped without a test for the end, and a byte that is not printable is looked at. */
  method FindCtl(buf: array<byte>, i: nat, bufEnd: nat) returns (r: Answer<()>)
    requires i <= bufEnd <= buf.Length
    ensures r == CtlEnd(buf[..bufEnd], i)
  {
    var p := i;
    while bufEnd - p >= 8
      invariant i <= p <= bufEnd
      invariant CtlEnd(buf[..bufEnd], i) == CtlEnd(buf[..bufEnd], p)
      decreases bufEnd - p
    {
      ghost var p0 := p;
      var k := 0;
      while k < 8 && IsPrintableAscii(buf[p])
        invariant 0 <= k <= 8 && p == p0 + k && p0 + 8 <= bufEnd
        invariant k < 8 ==> p < bufEnd
        invariant CtlEnd(buf[..bufEnd], i) == CtlEnd(buf[..bufEnd], p)
      {
        p := p + 1;
        k := k + 1;
      }
      if k < 8 {
        if IsCtl(buf[p]) {
          return Ok(p, ());
        }
        p := p + 1;
      }
    }
    while true
      invariant i <= p <= bufEnd
      invariant CtlEnd(buf[..bufEnd], i) == CtlEnd(buf[..bufEnd], p)
      decreases bufEnd - p
    {
      if p == bufEnd {
        return Partial;
      }
      if !IsPrintableAscii(buf[p]) {
        if IsCtl(buf[p]) {
          return Ok(p, ());
        }
      }
      p := p + 1;
    }
  }

  method GetTokenToEol(buf: array<byte>, i: nat, bufEnd: nat) returns (r: Answer<Slice>)
    requires i <= bufEnd <= buf.Length
    ensures r == TokenToEol(buf[..bufEnd], i)
  {
    var c := FindCtl(buf, i, bufEnd);
    if !c.Ok? {
      return Partial;
    }
    var n := ExpectNewline(buf, c.pos, bufEnd);
    match n
    case Partial => r := Partial;
    case Bad => r := Bad;
    case Ok(p, _) => r := Ok(p, Slice(i, c.pos - i));
  }

  method TrimTrailingBlanks(buf: array<byte>, value: Slice, ghost bufEnd: nat) returns (len: nat)
    requires value.start + value.len <= bufEnd <= buf.Length
    ensures len == Trimmed(buf[..bufEnd], value.start, value.len)
  {
    len := value.len;
    while len != 0
      invariant len <= value.len
      invariant Trimmed(buf[..bufEnd], value.start, value.len) == Trimmed(buf[..bufEnd], value.start, len)
    {
      if !IsBlank(buf[value.start + len - 1]) {
        break;
      }
      len := len - 1;
    }
  }

  /** One round of the loop of parse_headers. */
  method ParseHeaderLine(buf: array<byte>, i: nat, bufEnd: nat, first: bool) returns (r: Answer<Header>)
    requires i < bufEnd <= buf.Length
    ensures r == HeaderLine(buf[..bufEnd], i, first)
  {
    var v := i;
    var name: Option<Slice> := None;
    if !(!first && IsBlank(buf[i])) {
      var e := ParseToken(buf, i, bufEnd, COLON);
      if !e.Ok? {
        return if e.Partial? then Partial else Bad;
      }
      if e.pos == i {
        return Bad;
      }
      var b := SkipBlanks(buf, e.pos + 1, bufEnd, true);
      if !b.Ok? {
        return Partial;
      }
      v, name := b.pos, Some(Slice(i, e.pos - i));
    }
    var value := GetTokenToEol(buf, v, bufEnd);
    if !value.Ok? {
      return if value.Partial? then Partial else Bad;
    }
    var len := TrimTrailingBlanks(buf, value.value, bufEnd);
    return Ok(value.pos, Header(name, Slice(v, len)));
  }

  /** parse_headers: the headers found are stored from the start of the array on. */
  method ParseHeaders(buf: array<byte>, i: nat, bufEnd: nat, headers: array<Header>)
    returns (r: Answer<()>, numHeaders: nat)
    requires i <= bufEnd <= buf.Length
    modifies headers
    ensures match Headers(buf[..bufEnd], i, [], headers.Length)
            case Partial => r.Partial?
            case Bad => r.Bad?
            case Ok(p, hs) => r == Ok(p, ()) && numHeaders == |hs| <= headers.Length && headers[..numHeaders] == hs
  {
    var p := i;
    numHeaders := 0;
    while true
      invariant p <= bufEnd && numHeaders <= headers.Length
      invariant Headers(buf[..bufEnd], i, [], headers.Length)
                == Headers(buf[..bufEnd], p, headers[..numHeaders], headers.Length)
      decreases bufEnd - p
    {
      if p == bufEnd {
        return Partial, numHeaders;
      }
      if buf[p] == CR || buf[p] == LF {
        r := ExpectNewline(buf, p, bufEnd);
        return;
      }
      if numHeaders == headers.Length {
        return Bad, numHeaders;
      }
      var h := ParseHeaderLine(buf, p, bufEnd, numHeaders == 0);
      if !h.Ok? {
        return if h.Partial? then Partial else Bad, numHeaders;
      }
      headers[numHeaders] := h.value;
      assert headers[..numHeaders + 1] == headers[..numHeaders] + [h.value];
      numHeaders := numHeaders + 1;
      p := h.pos;
    }
  }

  method ParseHttpVersion(buf: array<byte>, i: nat, bufEnd: nat) returns (r: Answer<nat>)
    requires i <= bufEnd <= buf.Length
    ensures r == Version(buf[..bufEnd], i)
  {
    if bufEnd - i < 9 {
      return Partial;
    }
    ghost var t := buf[..bufEnd][i..i + 7];
    assert t[0] == buf[i] && t[1] == buf[i + 1] && t[2] == buf[i + 2] && t[3] == buf[i + 3];
    assert t[4] == buf[i + 4] && t[5] == buf[i + 5] && t[6] == buf[i + 6];
    if buf[i] != 72 || buf[i + 1] != 84 || buf[i + 2] != 84 || buf[i + 3] != 80 ||
       buf[i + 4] != 47 || buf[i + 5] != 49 || buf[i + 6] != 46 {
      assert t != [72, 84, 84, 80, 47, 49, 46];
      return Bad;
    }
    assert t == [72, 84, 84, 80, 47, 49, 46];
    if buf[i + 7] < ZERO || NINE < buf[i + 7] {
      return Bad;
    }
    return Ok(i + 8, buf[i + 7] - ZERO);
  }

  /** The method and the path of the request line. */
  method ParseTarget(buf: array<byte>, i: nat, bufEnd: nat) returns (r: Answer<(Slice, Slice)>)
    requires i <= bufEnd <= buf.Length
    ensures r == Target(buf[..bufEnd], i)
  {
    var m := ParseToken(buf, i, bufEnd, SP);
    if !m.Ok? {
      return if m.Partial? then Partial else Bad;
    }
    var b := SkipBlanks(buf, m.pos + 1, bufEnd, false);
    if !b.Ok? {
      return Partial;
    }
    var e := AdvanceToken(buf, b.pos, bufEnd);
    if !e.Ok? {
      return if e.Partial? then Partial else Bad;
    }
    var v := SkipBlanks(buf, e.pos + 1, bufEnd, false);
    if !v.Ok? {
      return Partial;
    }
    if m.pos == i || e.pos == b.pos {
      return Bad;
    }
    return Ok(v.pos, (Slice(i, m.pos - i), Slice(b.pos, e.pos - b.pos)));
  }

  method ParseRequestLine(buf: array<byte>, i: nat, bufEnd: nat) returns (r: Answer<(Slice, Slice, nat)>)
    requires i <= bufEnd <= buf.Length
    ensures r == RequestLine(buf[..bufEnd], i)
  {
    var t := ParseTarget(buf, i, bufEnd);
    if !t.Ok? {
      return if t.Partial? then Partial else Bad;
    }
    var v := ParseHttpVersion(buf, t.pos, bufEnd);
    if !v.Ok? {
      return if v.Partial? then Partial else Bad;
    }
    var n := ExpectNewline(buf, v.pos, bufEnd);
    if !n.Ok? {
      return if n.Partial? then Partial else Bad;
    }
    return Ok(n.pos, (t.value.0, t.value.1, v.value));
  }

  /** parse_request. */
  method ParseFromScratch(buf: array<byte>, bufEnd: nat, headers: array<Header>) returns (r: Answer<Request>)
    requires bufEnd <= buf.Length
    modifies headers
    ensures r == FromScratch(buf[..bufEnd], headers.Length)
  {
    if bufEnd == 0 {
      return Partial;
    }
    var i := 0;
    if buf[0] == CR || buf[0] == LF {
      var n := ExpectNewline(buf, 0, bufEnd);
      if !n.Ok? {
        return if n.Partial? then Partial else Bad;
      }
      i := n.pos;
    }
    var line := ParseRequestLine(buf, i, bufEnd);
    if !line.Ok? {
      return if line.Partial? then Partial else Bad;
    }
    var h, numHeaders := ParseHeaders(buf, line.pos, bufEnd, headers);
    if !h.Ok? {
      return if h.Partial? then Partial else Bad;
    }
    return Ok(h.pos, Request(line.value.0, line.value.1, line.value.2, headers[..numHeaders]));
  }

  /** is_complete. */
  method SearchLineEnds(buf: array<byte>, bufEnd: nat, lastLen: nat) returns (r: Answer<()>)
    requires lastLen <= bufEnd <= buf.Length
    ensures r == IsComplete(buf[..bufEnd], lastLen)
  {
    var retCnt := 0;
    var p := if lastLen < 3 then 0 else lastLen - 3;
    while true
      invariant p <= bufEnd && 0 <= retCnt < 2
      invariant IsComplete(buf[..bufEnd], lastLen) == LineEndsFrom(buf[..bufEnd], p, retCnt)
      decreases bufEnd - p
    {
      if p == bufEnd {
        return Partial;
      }
      if buf[p] == CR || buf[p] == LF {
        var n := ExpectNewline(buf, p, bufEnd);
        if !n.Ok? {
          return n;
        }
        p := n.pos;
        retCnt := retCnt + 1;
      } else {
        p := p + 1;
        retCnt := 0;
      }
      if retCnt == 2 {
        return Ok(p, ());
      }
    }
  }

  /** phr_parse_request. */
  method PhrParseRequest(buf: array<byte>, len: nat, headers: array<Header>, lastLen: nat) returns (r: Answer<Request>)
    requires lastLen <= len <= buf.Length
    modifies headers
    ensures r == ParseRequest(buf[..len], lastLen, headers.Length)
  {
    if lastLen != 0 {
      var c := SearchLineEnds(buf, len, lastLen);
      if !c.Ok? {
        return if c.Partial? then Partial else Bad;
      }
    }
    r := ParseFromScratch(buf, len, headers);
  }

  /** read(2): the bytes that arrive go behind those already in the buffer. */
  method Read(requestBuffer: array<byte>, buflen: nat, fragment: seq<byte>) returns (end: nat)
    requires buflen + |fragment| <= requestBuffer.Length
    modifies requestBuffer
    ensures end == buflen + |fragment|
    ensures requestBuffer[..end] == old(requestBuffer[..buflen]) + fragment
    ensures requestBuffer[end..] == old(requestBuffer[end..])
  {
    forall k | 0 <= k < |fragment| {
      requestBuffer[buflen + k] := fragment[k];
    }
    end := buflen + |fragment|;
  }

  /** The read loop of handler_process_request: each read is appended to the request buffer, and the
      buffer is parsed again from its start. The reads it takes must end inside the buffer; ReadsFitTheLimit
      and RoomNeeded say when they do. */
  method ReadRequest(requestBuffer: array<byte>, fragments: seq<seq<byte>>, limit: nat, headers: array<Header>)
    returns (r: Outcome, buflen: nat)
    requires ReadsFit([], fragments, limit, requestBuffer.Length, headers.Length)
    modifies requestBuffer, headers
    ensures r == ReadLoop([], fragments, limit, headers.Length)
    ensures buflen <= requestBuffer.Length && requestBuffer[..buflen] <= Concat(fragments)
    ensures r.Parsed? ==> FromScratch(requestBuffer[..buflen], headers.Length) == Ok(r.len, r.request)
  {
    buflen := 0;
    for i := 0 to |fragments|
      invariant buflen <= limit && buflen <= requestBuffer.Length
      invariant ReadsFit(requestBuffer[..buflen], fragments[i..], limit, requestBuffer.Length, headers.Length)
      invariant Concat(fragments) == requestBuffer[..buflen] + Concat(fragments[i..])
      invariant ReadLoop([], fragments, limit, headers.Length)
                == ReadLoop(requestBuffer[..buflen], fragments[i..], limit, headers.Length)
    {
      var read := fragments[i];
      var prevbuflen := buflen;
      ghost var old_ := requestBuffer[..buflen];
      buflen := Read(requestBuffer, buflen, read);
      assert fragments[i..] == [read] + fragments[i + 1..];
      assert old_ + (read + Concat(fragments[i + 1..])) == old_ + read + Concat(fragments[i + 1..]);
      if |read| == 0 {
        return Broken, buflen;
      }
      if buflen > limit {
        return TooLarge, buflen;
      }
      var a := PhrParseRequest(requestBuffer, buflen, headers, prevbuflen);
      match a
      case Ok(p, request) => return Parsed(p, request), buflen;
      case Bad => return Broken, buflen;
      case Partial =>
    }
    return Waiting, buflen;
  }
}
