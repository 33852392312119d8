/** Bodies encoded per section 4.1 of RFC 7230 decode to the concatenation of their chunks. */
module ChunkedRoundTrip {
  import opened Bytes
  import opened Chunked

  /** A chunk: its size in hexadecimal digits, its extensions, and its data. */
  datatype Chunk = Chunk(size: seq<byte>, ext: seq<byte>, data: seq<byte>)

  /** A message: its chunks, the size and extensions of the last chunk, and the trailer lines. */
  datatype Message = Message(chunks: seq<Chunk>, zeros: seq<byte>, lastExt: seq<byte>, trailers: seq<seq<byte>>)

  /** Hexadecimal digits of any case that stand for n. */
  ghost predicate IsHexNumber(digits: seq<byte>, n: nat) {
    if digits == [] then n == 0
    else IsHexDigit(digits[|digits| - 1], n % 16) && IsHexNumber(digits[..|digits| - 1], n / 16)
  }

  /** A size line: at least one digit, and extensions on one line that do not run on from the digits. */
  ghost predicate IsSizeLine(size: seq<byte>, ext: seq<byte>, value: nat) {
    size != [] && IsHexNumber(size, value) && LF !in ext && (ext != [] ==> !IsHex(ext[0]))
  }

  ghost predicate IsTrailer(line: seq<byte>) {
    line != [] && LF !in line && line[0] != CR
  }

  ghost predicate IsMessage(m: Message) {
    && (forall c :: c in m.chunks ==> c.data != [] && IsSizeLine(c.size, c.ext, |c.data|))
    && IsSizeLine(m.zeros, m.lastExt, 0)
    && (forall line :: line in m.trailers ==> IsTrailer(line))
  }

  /** No size has more digits than a size_t has, leading zeros included. */
  ghost predicate SizesAreShort(m: Message) {
    (forall c :: c in m.chunks ==> |c.size| <= MAX_HEX) && |m.zeros| <= MAX_HEX
  }

  function ChunkPieces(c: Chunk): seq<seq<byte>> {
    [c.size, c.ext, CRLF, c.data, CRLF]
  }

  function ChunksPieces(cs: seq<Chunk>): seq<seq<byte>> {
    if cs == [] then [] else ChunkPieces(cs[0]) + ChunksPieces(cs[1..])
  }

  function TrailerPieces(lines: seq<seq<byte>>): seq<seq<byte>> {
    if lines == [] then [] else [lines[0] + CRLF] + TrailerPieces(lines[1..])
  }

  /** chunked-body = *chunk last-chunk trailer-part CRLF */
  function Encode(m: Message): seq<byte> {
    Concat(ChunksPieces(m.chunks)) + m.zeros + m.lastExt + CRLF + Concat(TrailerPieces(m.trailers)) + CRLF
  }

  function Payload(cs: seq<Chunk>): seq<byte> {
    if cs == [] then [] else cs[0].data + Payload(cs[1..])
  }

  // ----- digits -----

  ghost predicate AllHex(digits: seq<byte>) {
    forall k :: 0 <= k < |digits| ==> IsHex(digits[k])
  }

  /** The value that the decoder gives to digits. */
  function HexValue(digits: seq<byte>): int {
    if digits == [] then 0 else 16 * HexValue(digits[..|digits| - 1]) + DecodeHex(digits[|digits| - 1])
  }

  lemma {:induction false} HexNumberIsRead(digits: seq<byte>, n: nat)
    requires IsHexNumber(digits, n)
    ensures AllHex(digits) && HexValue(digits) == n
    decreases |digits|
  {
    hide IsHex, IsHexDigit, DecodeHex;
    if digits != [] {
      var last := |digits| - 1;
      HexNumberIsRead(digits[..last], n / 16);
      DecodeHexExactly(digits[last], n % 16);
      OnlyHexDecodes(digits[last]);
      assert forall k :: 0 <= k < last ==> digits[k] == digits[..last][k];
    }
  }

  // ----- what one piece does -----

  /** Reading p takes the automaton from a to b and decodes to out. */
  ghost predicate Takes(a: Auto, trailer: bool, p: seq<byte>, b: Auto, out: seq<byte>) {
    AtOnce(a, trailer, p) == Result(Incomplete(b), out, [])
  }

  lemma TakesFirst(a: Auto, trailer: bool, p: seq<byte>, b: Auto, out: seq<byte>, pieces: seq<seq<byte>>)
    requires Takes(a, trailer, p, b, out)
    ensures var r := InFragments(b, trailer, pieces);
            InFragments(a, trailer, [p] + pieces) == Result(r.verdict, out + r.out, r.rest)
  {
    assert ([p] + pieces)[1..] == pieces;
  }

  lemma TakesTwo(a: Auto, trailer: bool, p: seq<byte>, b: Auto, o: seq<byte>, q: seq<byte>, c: Auto, o': seq<byte>)
    requires Takes(a, trailer, p, b, o) && Takes(b, trailer, q, c, o')
    ensures Takes(a, trailer, p + q, c, o + o')
  {
    SplitInvariance(a, trailer, [p, q]);
    assert Concat([p, q]) == p + q by {
      assert Concat([q]) == q;
    }
    TakesFirst(a, trailer, p, b, o, [q]);
    TakesFirst(b, trailer, q, c, o', []);
  }

  lemma TakesOne(a: Auto, trailer: bool, b: byte)
    requires Step(a, b, trailer).Go?
    ensures Takes(a, trailer, [b], Step(a, b, trailer).a, Step(a, b, trailer).out)
  {
    var m := Step(a, b, trailer);
    assert Run(a, trailer, [b], 0, []) == Run(m.a, trailer, [b], 1, [] + m.out);
  }

  lemma {:induction false} TakesDigits(trailer: bool, digits: seq<byte>)
    requires |digits| <= MAX_HEX && AllHex(digits)
    ensures HexValue(digits) >= 0
    ensures Takes(START, trailer, digits, Auto(ChunkSize, HexValue(digits), |digits|), [])
  {
    hide IsHex, DecodeHex;
    if digits != [] {
      var n := |digits| - 1;
      OnlyHexDecodes(digits[n]);
      TakesDigits(trailer, digits[..n]);
      var a := Auto(ChunkSize, HexValue(digits[..n]), n);
      TakesOne(a, trailer, digits[n]);
      TakesTwo(START, trailer, digits[..n], a, [], [digits[n]], Auto(ChunkSize, HexValue(digits), n + 1), []);
      assert digits[..n] + [digits[n]] == digits;
    }
  }

  /** Past the digits: the size is known, whether or not an extension has begun. */
  ghost predicate PastDigits(a: Auto, left: nat) {
    a.left == left && ((a.phase.ChunkSize? && a.hexCount > 0) || a == Auto(ChunkExt, left, 0))
  }

  lemma {:induction false} TakesNoLf(left: nat, trailer: bool, line: seq<byte>)
    requires LF !in line
    ensures Takes(Auto(ChunkExt, left, 0), trailer, line, Auto(ChunkExt, left, 0), [])
  {
    var a := Auto(ChunkExt, left, 0);
    if line != [] {
      var n := |line| - 1;
      TakesNoLf(left, trailer, line[..n]);
      TakesOne(a, trailer, line[n]);
      TakesTwo(a, trailer, line[..n], a, [], [line[n]], a, []);
      assert line[..n] + [line[n]] == line;
    }
  }

  lemma TakesExt(left: nat, h: nat, trailer: bool, ext: seq<byte>) returns (b: Auto)
    requires h > 0 && LF !in ext && (ext != [] ==> !IsHex(ext[0]))
    ensures PastDigits(b, left) && Takes(Auto(ChunkSize, left, h), trailer, ext, b, [])
  {
    b := Auto(ChunkSize, left, h);
    if ext != [] {
      var a := b;
      b := Auto(ChunkExt, left, 0);
      OnlyHexDecodes(ext[0]);
      TakesOne(a, trailer, ext[0]);
      TakesNoLf(left, trailer, ext[1..]);
      TakesTwo(a, trailer, [ext[0]], b, [], ext[1..], b, []);
      assert [ext[0]] + ext[1..] == ext;
    }
  }

  lemma TakesCr(a: Auto, left: nat, trailer: bool)
    requires PastDigits(a, left)
    ensures Takes(a, trailer, [CR], Auto(ChunkExt, left, 0), [])
  {
    TakesOne(a, trailer, CR);
  }

  lemma TakesLineEnd(a: Auto, left: nat, trailer: bool)
    requires PastDigits(a, left) && (left > 0 || trailer)
    ensures Takes(a, trailer, CRLF, if left > 0 then Auto(ChunkData, left, 0) else Auto(TrailerHead, 0, 0), [])
  {
    var b := Auto(ChunkExt, left, 0);
    TakesCr(a, left, trailer);
    TakesOne(b, trailer, LF);
    TakesTwo(a, trailer, [CR], b, [], [LF], Step(b, LF, trailer).a, []);
    assert [CR] + [LF] == CRLF;
  }

  lemma TakesData(trailer: bool, data: seq<byte>)
    requires data != []
    ensures Takes(Auto(ChunkData, |data|, 0), trailer, data, Auto(ChunkCrlf, 0, 0), data)
  {
    RunData(|data|, trailer, data, 0, [], |data|);
    assert [] + data[0..|data|] == data;
  }

  lemma TakesChunkEnd(trailer: bool)
    ensures Takes(Auto(ChunkCrlf, 0, 0), trailer, CRLF, START, [])
  {
    var a := Auto(ChunkCrlf, 0, 0);
    TakesOne(a, trailer, CR);
    TakesOne(a, trailer, LF);
    TakesTwo(a, trailer, [CR], a, [], [LF], START, []);
    assert [CR] + [LF] == CRLF;
  }

  lemma {:induction false} TakesTrailerRest(trailer: bool, line: seq<byte>)
    requires LF !in line
    ensures Takes(Auto(TrailerMiddle, 0, 0), trailer, line + [LF], Auto(TrailerHead, 0, 0), [])
  {
    var a := Auto(TrailerMiddle, 0, 0);
    if line == [] {
      TakesOne(a, trailer, LF);
      assert line + [LF] == [LF];
    } else {
      TakesOne(a, trailer, line[0]);
      TakesTrailerRest(trailer, line[1..]);
      TakesTwo(a, trailer, [line[0]], a, [], line[1..] + [LF], Auto(TrailerHead, 0, 0), []);
      assert [line[0]] + (line[1..] + [LF]) == line + [LF];
    }
  }

  lemma TakesTrailer(trailer: bool, line: seq<byte>)
    requires IsTrailer(line)
    ensures Takes(Auto(TrailerHead, 0, 0), trailer, line + CRLF, Auto(TrailerHead, 0, 0), [])
  {
    var a := Auto(TrailerHead, 0, 0);
    assert line[0] in line;
    TakesOne(a, trailer, line[0]);
    TakesTrailerRest(trailer, line[1..] + [CR]);
    TakesTwo(a, trailer, [line[0]], Auto(TrailerMiddle, 0, 0), [], line[1..] + [CR] + [LF], a, []);
    assert [line[0]] + (line[1..] + [CR] + [LF]) == line + CRLF;
  }

  /** A chunk up to the line end behind its data. */
  lemma TakesChunkData(trailer: bool, c: Chunk)
    requires c.data != [] && IsSizeLine(c.size, c.ext, |c.data|) && |c.size| <= MAX_HEX
    ensures Takes(START, trailer, c.size + c.ext + CRLF + c.data, Auto(ChunkCrlf, 0, 0), c.data)
  {
    var left := |c.data|;
    HexNumberIsRead(c.size, left);
    TakesDigits(trailer, c.size);
    var b := TakesExt(left, |c.size|, trailer, c.ext);
    TakesTwo(START, trailer, c.size, Auto(ChunkSize, left, |c.size|), [], c.ext, b, []);
    TakesLineEnd(b, left, trailer);
    TakesTwo(START, trailer, c.size + c.ext, b, [], CRLF, Auto(ChunkData, left, 0), []);
    TakesData(trailer, c.data);
    var crlf := Auto(ChunkCrlf, 0, 0);
    TakesTwo(START, trailer, c.size + c.ext + CRLF, Auto(ChunkData, left, 0), [], c.data, crlf, c.data);
  }

  /** A whole chunk, from the start state back to it. */
  lemma TakesChunk(trailer: bool, c: Chunk)
    requires c.data != [] && IsSizeLine(c.size, c.ext, |c.data|) && |c.size| <= MAX_HEX
    ensures Takes(START, trailer, Concat(ChunkPieces(c)), START, c.data)
  {
    TakesChunkData(trailer, c);
    TakesChunkEnd(trailer);
    TakesTwo(START, trailer, c.size + c.ext + CRLF + c.data, Auto(ChunkCrlf, 0, 0), c.data, CRLF, START, []);
    ConcatFive(c.size, c.ext, CRLF, c.data, CRLF);
  }

  lemma ConcatFive(a: seq<byte>, b: seq<byte>, c: seq<byte>, d: seq<byte>, e: seq<byte>)
    ensures Concat([a, b, c, d, e]) == a + b + c + d + e
  {
    assert Concat([e]) == e;
    assert Concat([d, e]) == d + e;
    assert Concat([c, d, e]) == c + (d + e);
    assert Concat([b, c, d, e]) == b + (c + (d + e));
    assert [a, b, c, d, e][1..] == [b, c, d, e];
  }

  lemma {:induction false} TakesChunks(trailer: bool, cs: seq<Chunk>)
    requires forall c :: c in cs ==> c.data != [] && IsSizeLine(c.size, c.ext, |c.data|) && |c.size| <= MAX_HEX
    ensures Takes(START, trailer, Concat(ChunksPieces(cs)), START, Payload(cs))
  {
    if cs != [] {
      TakesChunk(trailer, cs[0]);
      TakesChunks(trailer, cs[1..]);
      TakesTwo(START, trailer, Concat(ChunkPieces(cs[0])), START, cs[0].data,
               Concat(ChunksPieces(cs[1..])), START, Payload(cs[1..]));
      ConcatAppend(ChunkPieces(cs[0]), ChunksPieces(cs[1..]));
    }
  }

  lemma {:induction false} TakesTrailers(trailer: bool, lines: seq<seq<byte>>)
    requires forall line :: line in lines ==> IsTrailer(line)
    ensures Takes(Auto(TrailerHead, 0, 0), trailer, Concat(TrailerPieces(lines)), Auto(TrailerHead, 0, 0), [])
  {
    var a := Auto(TrailerHead, 0, 0);
    if lines != [] {
      TakesTrailer(trailer, lines[0]);
      TakesTrailers(trailer, lines[1..]);
      TakesTwo(a, trailer, lines[0] + CRLF, a, [], Concat(TrailerPieces(lines[1..])), a, []);
      ConcatAppend([lines[0] + CRLF], TrailerPieces(lines[1..]));
      assert Concat([lines[0] + CRLF]) == lines[0] + CRLF;
    }
  }

  // ----- the message -----

  /** Up to and including the last chunk's digits and extensions. */
  lemma TakesToLastLine(trailer: bool, m: Message) returns (b: Auto)
    requires IsMessage(m) && SizesAreShort(m)
    ensures PastDigits(b, 0)
    ensures Takes(START, trailer, Concat(ChunksPieces(m.chunks)) + m.zeros + m.lastExt, b, Payload(m.chunks))
  {
    var body := Concat(ChunksPieces(m.chunks));
    TakesChunks(trailer, m.chunks);
    HexNumberIsRead(m.zeros, 0);
    TakesDigits(trailer, m.zeros);
    TakesTwo(START, trailer, body, START, Payload(m.chunks), m.zeros, Auto(ChunkSize, 0, |m.zeros|), []);
    b := TakesExt(0, |m.zeros|, trailer, m.lastExt);
    assert Payload(m.chunks) + [] == Payload(m.chunks);
    TakesTwo(START, trailer, body + m.zeros, Auto(ChunkSize, 0, |m.zeros|), Payload(m.chunks), m.lastExt, b, []);
  }

  /** Where the automaton goes after p, whatever follows. */
  lemma TakesThen(a: Auto, trailer: bool, p: seq<byte>, b: Auto, out: seq<byte>, rest: seq<byte>)
    requires Takes(a, trailer, p, b, out)
    ensures var r := AtOnce(b, trailer, rest);
            AtOnce(a, trailer, p + rest) == Result(r.verdict, out + r.out, r.rest)
  {
    SplitInvariance(a, trailer, [p, rest]);
    assert Concat([rest]) == rest;
    assert Concat([p, rest]) == p + rest;
    SplitInvariance(b, trailer, [rest]);
    TakesFirst(a, trailer, p, b, out, [rest]);
  }

  lemma FinishAtLf(a: Auto, trailer: bool, rest: seq<byte>)
    requires Step(a, LF, trailer).Finish?
    ensures AtOnce(a, trailer, [LF] + rest) == Result(Complete, [], rest)
  {
    var s := [LF] + rest;
    assert s[0] == LF && s[1..] == rest;
    assert Run(a, trailer, s, 0, []) == Outcome(Complete, [], 1);
  }

  /** Everything but the final CRLF. */
  function Opening(m: Message): seq<byte> {
    Concat(ChunksPieces(m.chunks)) + m.zeros + m.lastExt + CRLF + Concat(TrailerPieces(m.trailers))
  }

  lemma TakesOpening(m: Message)
    requires IsMessage(m) && SizesAreShort(m)
    ensures Takes(START, true, Opening(m), Auto(TrailerHead, 0, 0), Payload(m.chunks))
  {
    hide Concat, ChunksPieces, TrailerPieces, Payload, Takes;
    var p := Concat(ChunksPieces(m.chunks)) + m.zeros + m.lastExt;
    var head := Auto(TrailerHead, 0, 0);
    var b := TakesToLastLine(true, m);
    TakesLineEnd(b, 0, true);
    TakesTwo(START, true, p, b, Payload(m.chunks), CRLF, head, []);
    TakesTrailers(true, m.trailers);
    TakesTwo(START, true, p + CRLF, head, Payload(m.chunks), Concat(TrailerPieces(m.trailers)), head, []);
  }

  lemma TakesLastCrlf(rest: seq<byte>)
    ensures AtOnce(Auto(TrailerHead, 0, 0), true, CRLF + rest) == Result(Complete, [], rest)
  {
    var head := Auto(TrailerHead, 0, 0);
    TakesOne(head, true, CR);
    TakesThen(head, true, [CR], head, [], [LF] + rest);
    FinishAtLf(head, true, rest);
    assert CRLF + rest == [CR] + ([LF] + rest);
  }

  /** With consume_trailer set, decoding an encoded body followed by anything gives the payload and
      leaves exactly what follows the final CRLF. */
  lemma ShortSizesDecode(m: Message, rest: seq<byte>)
    requires IsMessage(m) && SizesAreShort(m)
    ensures AtOnce(START, true, Encode(m) + rest) == Result(Complete, Payload(m.chunks), rest)
  {
    hide Concat, ChunksPieces, TrailerPieces, Payload, IsMessage, SizesAreShort, Takes, AtOnce;
    TakesOpening(m);
    TakesThen(START, true, Opening(m), Auto(TrailerHead, 0, 0), Payload(m.chunks), CRLF + rest);
    TakesLastCrlf(rest);
    assert Encode(m) + rest == Opening(m) + (CRLF + rest);
  }

  /** Without it, decoding stops after the last chunk's line and leaves the trailer section too. */
  lemma ShortSizesDecodeKeepingTrailers(m: Message, rest: seq<byte>)
    requires IsMessage(m) && SizesAreShort(m)
    ensures AtOnce(START, false, Encode(m) + rest) ==
              Result(Complete, Payload(m.chunks), Concat(TrailerPieces(m.trailers)) + CRLF + rest)
  {
    hide Concat, ChunksPieces, TrailerPieces, Payload, IsMessage, SizesAreShort, Takes, AtOnce;
    var p := Concat(ChunksPieces(m.chunks)) + m.zeros + m.lastExt;
    var tail := Concat(TrailerPieces(m.trailers)) + CRLF + rest;
    var b := TakesToLastLine(false, m);
    var e := Auto(ChunkExt, 0, 0);
    TakesCr(b, 0, false);
    TakesTwo(START, false, p, b, Payload(m.chunks), [CR], e, []);
    TakesThen(START, false, p + [CR], e, Payload(m.chunks), [LF] + tail);
    FinishAtLf(e, false, tail);
    assert Encode(m) + rest == p + [CR] + ([LF] + tail);
  }

  // ----- sizes with too many digits -----

  /** The decoder refuses the digit after the sixteenth. */
  lemma LongSizeIsRefused(trailer: bool, size: seq<byte>, rest: seq<byte>)
    requires |size| > MAX_HEX && AllHex(size)
    ensures AtOnce(START, trailer, size + rest) == Result(Failed, [], size[MAX_HEX..] + rest)
  {
    hide IsHex, DecodeHex;
    var first, more := size[..MAX_HEX], size[MAX_HEX..] + rest;
    TakesDigits(trailer, first);
    var a := Auto(ChunkSize, HexValue(first), MAX_HEX);
    OnlyHexDecodes(size[MAX_HEX]);
    TakesThen(START, trailer, first, a, [], more);
    assert more[0] == size[MAX_HEX] && Step(a, more[0], trailer).Reject?;
    assert Run(a, trailer, more, 0, []) == Outcome(Failed, [], 0);
    assert size + rest == first + more && more[0..] == more;
  }

  lemma SizeIsHex(size: seq<byte>, ext: seq<byte>, value: nat)
    requires IsSizeLine(size, ext, value)
    ensures AllHex(size)
  {
    HexNumberIsRead(size, value);
  }

  /** A chunk whose size has too many digits ends the decoding behind the chunks before it. */
  lemma {:induction false} LongChunkIsRefused(trailer: bool, cs: seq<Chunk>, i: nat, tail: seq<byte>)
    requires forall c :: c in cs ==> c.data != [] && IsSizeLine(c.size, c.ext, |c.data|)
    requires i < |cs| && |cs[i].size| > MAX_HEX
    ensures AtOnce(START, trailer, Concat(ChunksPieces(cs)) + tail).verdict.Failed?
    decreases cs
  {
    hide Concat, IsSizeLine, AtOnce;
    var c, more := cs[0], Concat(ChunksPieces(cs[1..])) + tail;
    ConcatAppend(ChunkPieces(c), ChunksPieces(cs[1..]));
    ConcatFive(c.size, c.ext, CRLF, c.data, CRLF);
    assert Concat(ChunksPieces(cs)) + tail == Concat(ChunkPieces(c)) + more;
    if |c.size| > MAX_HEX {
      assert Concat(ChunkPieces(c)) + more == c.size + (c.ext + CRLF + c.data + CRLF + more);
      SizeIsHex(c.size, c.ext, |c.data|);
      LongSizeIsRefused(trailer, c.size, c.ext + CRLF + c.data + CRLF + more);
    } else {
      TakesChunk(trailer, c);
      TakesThen(START, trailer, Concat(ChunkPieces(c)), START, c.data, more);
      LongChunkIsRefused(trailer, cs[1..], i - 1, tail);
    }
  }

  lemma LongSizesAreRefused(trailer: bool, m: Message, rest: seq<byte>)
    requires IsMessage(m) && !SizesAreShort(m)
    ensures AtOnce(START, trailer, Encode(m) + rest).verdict.Failed?
  {
    var body := Concat(ChunksPieces(m.chunks));
    var tail := m.lastExt + CRLF + Concat(TrailerPieces(m.trailers)) + CRLF + rest;
    assert Encode(m) + rest == body + (m.zeros + tail);
    if c :| c in m.chunks && |c.size| > MAX_HEX {
      var i :| 0 <= i < |m.chunks| && m.chunks[i] == c;
      LongChunkIsRefused(trailer, m.chunks, i, m.zeros + tail);
    } else {
      TakesChunks(trailer, m.chunks);
      TakesThen(START, trailer, body, START, Payload(m.chunks), m.zeros + tail);
      SizeIsHex(m.zeros, m.lastExt, 0);
      LongSizeIsRefused(trailer, m.zeros, tail);
    }
  }

  /** A body encoded per section 4.1 decodes to its payload, leaving exactly what follows the final
      CRLF, if and only if no size in it has more than 16 digits; otherwise it is refused. */
  lemma RoundTrip(m: Message, rest: seq<byte>)
    requires IsMessage(m)
    ensures AtOnce(START, true, Encode(m) + rest) == Result(Complete, Payload(m.chunks), rest) <==> SizesAreShort(m)
    ensures AtOnce(START, true, Encode(m) + rest).verdict.Failed? <==> !SizesAreShort(m)
  {
    hide AtOnce, Encode, IsMessage, SizesAreShort, Payload;
    if SizesAreShort(m) {
      ShortSizesDecode(m, rest);
    } else {
      LongSizesAreRefused(true, m, rest);
    }
  }

  /** And so it does when the trailer section is left to the caller. */
  lemma RoundTripKeepingTrailers(m: Message, rest: seq<byte>)
    requires IsMessage(m)
    ensures AtOnce(START, false, Encode(m) + rest) ==
              Result(Complete, Payload(m.chunks), Concat(TrailerPieces(m.trailers)) + CRLF + rest)
            <==> SizesAreShort(m)
    ensures AtOnce(START, false, Encode(m) + rest).verdict.Failed? <==> !SizesAreShort(m)
  {
    hide AtOnce, Encode, IsMessage, SizesAreShort, Payload, Concat, TrailerPieces;
    if SizesAreShort(m) {
      ShortSizesDecodeKeepingTrailers(m, rest);
    } else {
      LongSizesAreRefused(false, m, rest);
    }
  }

  // ----- bytes out of place -----

  ghost predicate AreShortChunks(cs: seq<Chunk>) {
    forall c :: c in cs ==> c.data != [] && IsSizeLine(c.size, c.ext, |c.data|) && |c.size| <= MAX_HEX
  }

  lemma RejectedAt(a: Auto, trailer: bool, b: byte, rest: seq<byte>)
    requires Step(a, b, trailer).Reject?
    ensures AtOnce(a, trailer, [b] + rest) == Result(Failed, [], [b] + rest)
  {
    var s := [b] + rest;
    assert Run(a, trailer, s, 0, []) == Outcome(Failed, [], 0);
    assert s[0..] == s;
  }

  /** Where a size should begin, any byte but a hexadecimal digit is refused, and left to the caller. */
  lemma MissingSizeIsRefused(trailer: bool, cs: seq<Chunk>, b: byte, rest: seq<byte>)
    requires AreShortChunks(cs) && !IsHex(b)
    ensures AtOnce(START, trailer, Concat(ChunksPieces(cs)) + ([b] + rest)) == Result(Failed, Payload(cs), [b] + rest)
  {
    hide IsHex, DecodeHex, IsSizeLine, Concat, AtOnce;
    TakesChunks(trailer, cs);
    OnlyHexDecodes(b);
    RejectedAt(START, trailer, b, rest);
    TakesThen(START, trailer, Concat(ChunksPieces(cs)), START, Payload(cs), [b] + rest);
    assert Payload(cs) + [] == Payload(cs);
  }

  function Crs(n: nat): seq<byte> {
    seq(n, _ => CR)
  }

  lemma {:induction false} TakesCrs(trailer: bool, n: nat)
    ensures Takes(Auto(ChunkCrlf, 0, 0), trailer, Crs(n), Auto(ChunkCrlf, 0, 0), [])
  {
    hide Takes, Crs;
    var a := Auto(ChunkCrlf, 0, 0);
    CrsAre(n);
    if n > 0 {
      TakesCrs(trailer, n - 1);
      TakesOne(a, trailer, CR);
      TakesTwo(a, trailer, [CR], a, [], Crs(n - 1), a, []);
      NothingDecoded();
    } else {
      TakesNothing(a, trailer);
    }
  }

  lemma CrsAre(n: nat)
    ensures Crs(n) == if n == 0 then [] else [CR] + Crs(n - 1)
  {
  }

  lemma NothingDecoded()
    ensures var none: seq<byte> := []; none + none == none
  {
  }

  lemma TakesNothing(a: Auto, trailer: bool)
    ensures Takes(a, trailer, [], a, [])
  {
  }

  /** Behind the data of a chunk, any byte but the LF of its line end is refused, whether or not CRs
      stand before it. */
  lemma JunkBehindDataIsRefused(trailer: bool, cs: seq<Chunk>, c: Chunk, n: nat, b: byte, rest: seq<byte>)
    requires AreShortChunks(cs) && AreShortChunks([c]) && b != CR && b != LF
    ensures AtOnce(START, trailer, Concat(ChunksPieces(cs)) + (c.size + c.ext + CRLF + c.data + Crs(n) + ([b] + rest)))
            == Result(Failed, Payload(cs) + c.data, [b] + rest)
  {
    hide IsHex, DecodeHex, AtOnce, Takes, Concat;
    assert c in [c];
    var p, a := c.size + c.ext + CRLF + c.data, Auto(ChunkCrlf, 0, 0);
    TakesChunkData(trailer, c);
    TakesCrs(trailer, n);
    TakesTwo(START, trailer, p, a, c.data, Crs(n), a, []);
    RejectedAt(a, trailer, b, rest);
    assert c.data + [] == c.data;
    TakesThen(START, trailer, p + Crs(n), a, c.data, [b] + rest);
    TakesChunks(trailer, cs);
    TakesThen(START, trailer, Concat(ChunksPieces(cs)), START, Payload(cs), p + Crs(n) + ([b] + rest));
  }

  // ----- every size can be written -----

  function HexDigits(n: nat): (ds: seq<byte>) {
    if n < 16 then [HexDigit(n)] else HexDigits(n / 16) + [HexDigit(n % 16)]
  }

  /** Every chunk that fits size_t has an encoding. */
  lemma {:induction false} HexDigitsAreASize(n: nat, width: nat)
    requires 1 <= width && n < Pow16(width)
    ensures 1 <= |HexDigits(n)| <= width && IsHexNumber(HexDigits(n), n)
    decreases n
  {
    assert Pow16(0) == 1 && Pow16(width) == 16 * Pow16(width - 1);
    HexTables(n % 16);
    if n >= 16 {
      HexDigitsAreASize(n / 16, width - 1);
      var ds := HexDigits(n / 16);
      assert HexDigits(n)[..|ds|] == ds;
    } else {
      assert HexDigits(n)[..0] == [];
    }
  }
}
