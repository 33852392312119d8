/** phr_decode_chunked of srv/lib/picohttpparser.c: the resumable decoder that rewrites its buffer
    in place, proved against an automaton that reads one byte at a time. */
module Chunked {
  import opened Bytes

  datatype Phase = ChunkSize | ChunkExt | ChunkData | ChunkCrlf | TrailerHead | TrailerMiddle

  /** The decoder between two bytes. */
  datatype Auto = Auto(phase: Phase, left: nat, hexCount: nat)

  const MAX_HEX: nat := 16  // sizeof(size_t) * 2
  const SIZE_LIMIT: nat := 0x1_0000_0000_0000_0000

  function Pow16(n: nat): (p: nat)
    ensures p >= 1
  {
    if n == 0 then 1 else 16 * Pow16(n - 1)
  }

  /** What the decoder can be in: zero-filled at the start, and kept by every byte. The size read
      so far is below 16 to the number of its digits, so it never leaves size_t. */
  ghost predicate Sane(a: Auto) {
    && a.hexCount <= MAX_HEX
    && (a.phase.ChunkSize? ==> a.left < Pow16(a.hexCount))
    && (!a.phase.ChunkSize? ==> a.hexCount == 0)
    && (a.phase.ChunkExt? ==> a.left < SIZE_LIMIT)
    && (a.phase.ChunkData? ==> 0 < a.left < SIZE_LIMIT)
    && (a.phase.ChunkCrlf? || a.phase.TrailerHead? || a.phase.TrailerMiddle? ==> a.left == 0)
  }

  const START := Auto(ChunkSize, 0, 0)

  datatype Move =
    | Go(a: Auto, out: seq<byte>)   // the byte is consumed, and out is what it decodes to
    | Finish                        // the byte is consumed and ends the body
    | Reject                        // the byte is not consumed

  function StepExt(left: nat, b: byte, trailer: bool): Move {
    if b != LF then Go(Auto(ChunkExt, left, 0), [])
    else if left == 0 then (if trailer then Go(Auto(TrailerHead, 0, 0), []) else Finish)
    else Go(Auto(ChunkData, left, 0), [])
  }

  /** One byte. */
  function Step(a: Auto, b: byte, trailer: bool): Move {
    match a.phase
    case ChunkSize =>
      var v := DecodeHex(b);
      if v == -1 then (if a.hexCount == 0 then Reject else StepExt(a.left, b, trailer))
      else if a.hexCount == MAX_HEX then Reject
      else Go(Auto(ChunkSize, a.left * 16 + v, a.hexCount + 1), [])
    case ChunkExt => StepExt(a.left, b, trailer)
    case ChunkData =>
      if a.left <= 1 then Go(Auto(ChunkCrlf, 0, 0), [b])
      else Go(Auto(ChunkData, a.left - 1, 0), [b])
    case ChunkCrlf =>
      if b == CR then Go(a, [])
      else if b == LF then Go(Auto(ChunkSize, a.left, a.hexCount), [])
      else Reject
    case TrailerHead =>
      if b == CR then Go(a, [])
      else if b == LF then Finish
      else Go(Auto(TrailerMiddle, a.left, a.hexCount), [])
    case TrailerMiddle =>
      if b == LF then Go(Auto(TrailerHead, a.left, a.hexCount), []) else Go(a, [])
  }

  datatype Verdict = Incomplete(a: Auto) | Complete | Failed

  /** The verdict on a buffer, the bytes decoded and how many bytes of it were consumed. */
  datatype Outcome = Outcome(verdict: Verdict, out: seq<byte>, used: nat)

  /** The automaton on s from position i, with out already decoded. */
  function Run(a: Auto, trailer: bool, s: seq<byte>, i: nat, out: seq<byte>): (r: Outcome)
    requires i <= |s|
    ensures i <= r.used <= |s|
    decreases |s| - i
  {
    if i == |s| then Outcome(Incomplete(a), out, i)
    else
      match Step(a, s[i], trailer)
      case Go(a', o) => Run(a', trailer, s, i + 1, out + o)
      case Finish => Outcome(Complete, out, i + 1)
      case Reject => Outcome(Failed, out, i)
  }

  /** One more digit of the size. */
  lemma DigitSane(left: nat, v: nat, h: nat)
    requires left < Pow16(h) && v < 16
    ensures left * 16 + v < Pow16(h + 1)
  {
  }

  lemma {:induction false} Pow16Monotone(m: nat, n: nat)
    requires m <= n
    ensures Pow16(m) <= Pow16(n)
  {
    if m < n {
      Pow16Monotone(m, n - 1);
    }
  }

  /** The size accumulated so far fits size_t. */
  lemma SizeFits(a: Auto)
    requires Sane(a)
    ensures a.left < SIZE_LIMIT
  {
    Pow16Monotone(a.hexCount, 16);
    assert Pow16(4) == 0x1_0000;
    assert Pow16(8) == 0x1_0000_0000;
    assert Pow16(12) == 0x1_0000_0000_0000;
  }

  lemma StepSane(a: Auto, b: byte, trailer: bool)
    requires Sane(a) && Step(a, b, trailer).Go?
    ensures Sane(Step(a, b, trailer).a)
  {
    hide Pow16, DecodeHex;
    NoDigits();
    if a.phase.ChunkSize? {
      if DecodeHex(b) == -1 {
        SizeFits(a);
      } else {
        DigitSane(a.left, DecodeHex(b), a.hexCount);
      }
    }
  }

  lemma NoDigits()
    ensures Pow16(0) == 1
  {
  }

  lemma {:induction false} RunSane(a: Auto, trailer: bool, s: seq<byte>, i: nat, out: seq<byte>)
    requires i <= |s| && Sane(a)
    ensures var v := Run(a, trailer, s, i, out).verdict; v.Incomplete? ==> Sane(v.a)
    decreases |s| - i
  {
    if i < |s| && Step(a, s[i], trailer).Go? {
      StepSane(a, s[i], trailer);
      RunSane(Step(a, s[i], trailer).a, trailer, s, i + 1, out + Step(a, s[i], trailer).out);
    }
  }

  // ----- split invariance -----

  /** The decoded prefix plays no role in the decoding. */
  lemma {:induction false} RunPrefix(a: Auto, trailer: bool, s: seq<byte>, i: nat, out: seq<byte>)
    requires i <= |s|
    ensures var (r, r0) := (Run(a, trailer, s, i, out), Run(a, trailer, s, i, []));
            r == Outcome(r0.verdict, out + r0.out, r0.used)
    decreases |s| - i
  {
    if i < |s| && Step(a, s[i], trailer).Go? {
      var m := Step(a, s[i], trailer);
      RunPrefix(m.a, trailer, s, i + 1, out + m.out);
      RunPrefix(m.a, trailer, s, i + 1, m.out);
      assert [] + m.out == m.out;
      var r := Run(m.a, trailer, s, i + 1, []);
      assert out + m.out + r.out == out + (m.out + r.out);
    }
  }

  /** Neither does what stands before the position. */
  lemma {:induction false} RunShift(a: Auto, trailer: bool, s: seq<byte>, t: seq<byte>, i: nat, out: seq<byte>)
    requires i <= |t|
    ensures var (r, r0) := (Run(a, trailer, s + t, |s| + i, out), Run(a, trailer, t, i, out));
            r == Outcome(r0.verdict, r0.out, |s| + r0.used)
    decreases |t| - i
  {
    if i < |t| && Step(a, t[i], trailer).Go? {
      var m := Step(a, t[i], trailer);
      RunShift(m.a, trailer, s, t, i + 1, out + m.out);
    }
  }

  /** Reading s and then t is reading s + t; once s decides, t changes nothing. */
  lemma {:induction false} RunAppend(a: Auto, trailer: bool, s: seq<byte>, t: seq<byte>, i: nat, out: seq<byte>)
    requires i <= |s|
    ensures var r := Run(a, trailer, s, i, out);
            Run(a, trailer, s + t, i, out) ==
              if r.verdict.Incomplete? then Run(r.verdict.a, trailer, s + t, |s|, r.out) else r
    decreases |s| - i
  {
    if i < |s| && Step(a, s[i], trailer).Go? {
      var m := Step(a, s[i], trailer);
      RunAppend(m.a, trailer, s, t, i + 1, out + m.out);
    }
  }

  /** The decoded bytes, the verdict, and the bytes after the consumed ones. */
  datatype Result = Result(verdict: Verdict, out: seq<byte>, rest: seq<byte>)

  function AtOnce(a: Auto, trailer: bool, s: seq<byte>): Result {
    var r := Run(a, trailer, s, 0, []);
    Result(r.verdict, r.out, s[r.used..])
  }

  /** The decoder called on one fragment after the other for as long as it answers incomplete. */
  function InFragments(a: Auto, trailer: bool, fragments: seq<seq<byte>>): Result
    decreases |fragments|
  {
    if fragments == [] then Result(Incomplete(a), [], [])
    else
      var r := AtOnce(a, trailer, fragments[0]);
      if r.verdict.Incomplete? then
        var q := InFragments(r.verdict.a, trailer, fragments[1..]);
        Result(q.verdict, r.out + q.out, q.rest)
      else Result(r.verdict, r.out, r.rest + Concat(fragments[1..]))
  }

  /** However the stream is cut into fragments, it decodes to the same bytes, with the same verdict
      and the same leftover, as when it is fed at once. */
  lemma {:induction false} SplitInvariance(a: Auto, trailer: bool, fragments: seq<seq<byte>>)
    ensures InFragments(a, trailer, fragments) == AtOnce(a, trailer, Concat(fragments))
    decreases |fragments|
  {
    if fragments != [] {
      var s, t := fragments[0], Concat(fragments[1..]);
      var r := Run(a, trailer, s, 0, []);
      RunAppend(a, trailer, s, t, 0, []);
      if r.verdict.Incomplete? {
        UsedAll(a, trailer, s, 0, []);
        SplitInvariance(r.verdict.a, trailer, fragments[1..]);
        RunShift(r.verdict.a, trailer, s, t, 0, r.out);
        RunPrefix(r.verdict.a, trailer, t, 0, r.out);
        DropPast(s, t, Run(r.verdict.a, trailer, t, 0, []).used);
      } else {
        DropWithin(s, t, r.used);
      }
    }
  }

  lemma DropPast(s: seq<byte>, t: seq<byte>, k: nat)
    requires k <= |t|
    ensures (s + t)[|s| + k..] == t[k..]
  {
  }

  lemma DropWithin(s: seq<byte>, t: seq<byte>, k: nat)
    requires k <= |s|
    ensures (s + t)[k..] == s[k..] + t
  {
  }

  lemma {:induction false} UsedAll(a: Auto, trailer: bool, s: seq<byte>, i: nat, out: seq<byte>)
    requires i <= |s| && Run(a, trailer, s, i, out).verdict.Incomplete?
    ensures Run(a, trailer, s, i, out).used == |s|
    decreases |s| - i
  {
    if i < |s| {
      var m := Step(a, s[i], trailer);
      UsedAll(m.a, trailer, s, i + 1, out + m.out);
    }
  }

  // ----- the in-place decoder -----

  /** A run of bytes inside a chunk is copied in one go. */
  lemma {:induction false} RunData(left: nat, trailer: bool, s: seq<byte>, i: nat, out: seq<byte>, k: nat)
    requires 0 < left && k <= left && i + k <= |s|
    ensures Run(Auto(ChunkData, left, 0), trailer, s, i, out) ==
              Run(if k == left then Auto(ChunkCrlf, 0, 0) else Auto(ChunkData, left - k, 0),
                  trailer, s, i + k, out + s[i..i + k])
    decreases k
  {
    if k == 0 {
      assert out + s[i..i] == out;
    } else if left == 1 {
      assert s[i..i + 1] == [s[i]];
    } else {
      RunData(left - 1, trailer, s, i + 1, out + [s[i]], k - 1);
      assert out + s[i..i + k] == out + [s[i]] + s[i + 1..i + k];
    }
  }

  /** memmove within the buffer, towards its start. */
  lemma RunEnds(a: Auto, trailer: bool, s: seq<byte>, out: seq<byte>)
    ensures Run(a, trailer, s, |s|, out) == Outcome(Incomplete(a), out, |s|)
  {
  }

  method MoveDown(buf: array<byte>, dst: nat, src: nat, n: nat)
    requires dst <= src && src + n <= buf.Length
    modifies buf
    ensures buf[dst..dst + n] == old(buf[src..src + n])
    ensures buf[..dst] == old(buf[..dst])
    ensures forall j :: src + n <= j < buf.Length ==> buf[j] == old(buf[j])
  {
    for k := 0 to n
      invariant forall j :: dst <= j < dst + k ==> buf[j] == old(buf[j - dst + src])
      invariant forall j :: 0 <= j < dst ==> buf[j] == old(buf[j])
      invariant forall j :: dst + k <= j < buf.Length ==> buf[j] == old(buf[j])
    {
      buf[dst + k] := buf[src + k];
    }
  }

  datatype Turn = Onward | Exit(ret: int) | Completed

  /** The same, as the decoder calls it: the bytes stay where they are if nothing has been dropped yet. */
  method Shift(buf: array<byte>, dst: nat, src: nat, n: nat)
    requires dst <= src && src + n <= buf.Length
    modifies buf
    ensures buf[..dst + n] == old(buf[..dst]) + old(buf[src..src + n])
    ensures forall j :: src + n <= j < buf.Length ==> buf[j] == old(buf[j])
  {
    if dst != src {
      MoveDown(buf, dst, src, n);
    }
    assert buf[..dst + n] == buf[..dst] + buf[dst..dst + n];
  }

  class Decoder {
    var bytesLeftInChunk: nat
    var consumeTrailer: bool
    var hexCount: nat
    var phase: Phase

    constructor (consumeTrailer: bool)
      ensures Now() == START && this.consumeTrailer == consumeTrailer
    {
      bytesLeftInChunk := 0;
      this.consumeTrailer := consumeTrailer;
      hexCount := 0;
      phase := ChunkSize;
    }

    function Now(): Auto
      reads this
    {
      Auto(phase, bytesLeftInChunk, hexCount)
    }

    /** The unread part of the buffer is still the input, from src on. */
    static ghost predicate Unread(buf: array<byte>, s: seq<byte>, src: nat)
      reads buf
    {
      src <= |s| <= buf.Length && forall j :: src <= j < |s| ==> buf[j] == s[j]
    }

    /** CHUNKED_IN_CHUNK_SIZE. */
    method ReadSize(buf: array<byte>, from: nat, ghost s: seq<byte>, bufsz: nat, ghost out: seq<byte>)
      returns (src: nat, turn: Turn)
      requires Unread(buf, s, from) && bufsz == |s| && phase.ChunkSize?
      modifies this`bytesLeftInChunk, this`hexCount, this`phase
      ensures from <= src <= |s| && (turn.Onward? || turn.Exit?)
      ensures turn.Onward? ==> phase.ChunkExt? && hexCount == 0
      ensures turn.Onward? ==>
                Run(old(Now()), consumeTrailer, s, from, out) == Run(Now(), consumeTrailer, s, src, out)
      ensures turn.Exit? ==>
                || (turn.ret == -2 &&
                    Run(old(Now()), consumeTrailer, s, from, out) == Outcome(Incomplete(Now()), out, src))
                || (turn.ret == -1 &&
                    Run(old(Now()), consumeTrailer, s, from, out) == Outcome(Failed, out, src))
    {
      src := from;
      while true
        invariant from <= src <= bufsz && phase.ChunkSize?
        invariant Run(old(Now()), consumeTrailer, s, from, out) == Run(Now(), consumeTrailer, s, src, out)
        decreases bufsz - src
      {
        if src == bufsz {
          return src, Exit(-2);
        }
        var v := DecodeHex(buf[src]);
        if v == -1 {
          if hexCount == 0 {
            return src, Exit(-1);
          }
          break;
        }
        if hexCount == MAX_HEX {
          return src, Exit(-1);
        }
        bytesLeftInChunk := bytesLeftInChunk * 16 + v;
        hexCount := hexCount + 1;
        assert out + [] == out;
        src := src + 1;
      }
      hexCount := 0;
      phase := ChunkExt;
      turn := Onward;
    }

    /** The loop that looks for the end of a line. */
    method FindLf(buf: array<byte>, from: nat, ghost s: seq<byte>, bufsz: nat, ghost out: seq<byte>)
      returns (src: nat)
      requires Unread(buf, s, from) && bufsz == |s|
      requires (phase.ChunkExt? && hexCount == 0) || phase.TrailerMiddle?
      ensures from <= src <= |s| && (src == |s| || s[src] == LF)
      ensures Run(Now(), consumeTrailer, s, from, out) == Run(Now(), consumeTrailer, s, src, out)
    {
      src := from;
      while src < bufsz
        invariant from <= src <= bufsz
        invariant Run(Now(), consumeTrailer, s, from, out) == Run(Now(), consumeTrailer, s, src, out)
      {
        if buf[src] == LF {
          break;
        }
        assert out + [] == out;
        src := src + 1;
      }
    }

    /** The loop that skips carriage returns. */
    method SkipCr(buf: array<byte>, from: nat, ghost s: seq<byte>, bufsz: nat, ghost out: seq<byte>)
      returns (src: nat)
      requires Unread(buf, s, from) && bufsz == |s|
      requires phase.ChunkCrlf? || phase.TrailerHead?
      ensures from <= src <= |s| && (src == |s| || s[src] != CR)
      ensures Run(Now(), consumeTrailer, s, from, out) == Run(Now(), consumeTrailer, s, src, out)
    {
      src := from;
      while src < bufsz
        invariant from <= src <= bufsz
        invariant Run(Now(), consumeTrailer, s, from, out) == Run(Now(), consumeTrailer, s, src, out)
      {
        if buf[src] != CR {
          break;
        }
        assert out + [] == out;
        src := src + 1;
      }
    }

    /** CHUNKED_IN_CHUNK_DATA: move what is there of the chunk down to dst. */
    method CopyData(buf: array<byte>, bufsz: nat, dst0: nat, src0: nat, ghost s: seq<byte>)
      returns (dst: nat, src: nat, turn: Turn)
      requires dst0 <= src0 && Unread(buf, s, src0) && bufsz == |s|
      requires phase.ChunkData? && hexCount == 0 && 0 < bytesLeftInChunk
      modifies buf, this`bytesLeftInChunk, this`phase
      ensures dst0 <= dst <= src <= bufsz && src0 <= src
      ensures Unread(buf, s, src) && buf[bufsz..] == old(buf[bufsz..])
      ensures var r := Run(old(Now()), consumeTrailer, s, src0, old(buf[..dst0]));
        match turn
        case Onward => r == Run(Now(), consumeTrailer, s, src, buf[..dst]) && src0 < src &&
                       phase.ChunkCrlf? && bytesLeftInChunk == 0
        case Exit(ret) => ret == -2 && r == Outcome(Incomplete(Now()), buf[..dst], src)
        case Completed => false
    {
      hide Run;
      dst, src := dst0, src0;
      ghost var out := buf[..dst];
      var avail := bufsz - src;
      var n := if avail < bytesLeftInChunk then avail else bytesLeftInChunk;
      RunData(bytesLeftInChunk, consumeTrailer, s, src, out, n);
      assert buf[src..src + n] == s[src..src + n];
      Shift(buf, dst, src, n);
      src := src + n;
      dst := dst + n;
      assert buf[..dst] == out + s[src0..src] && Unread(buf, s, src);
      assert forall j :: bufsz <= j < buf.Length ==> buf[j] == old(buf[j]);
      bytesLeftInChunk := bytesLeftInChunk - n;
      if bytesLeftInChunk > 0 {
        RunEnds(Now(), consumeTrailer, s, buf[..dst]);
        turn := Exit(-2);
      } else {
        phase := ChunkCrlf;
        turn := Onward;
      }
    }

    /** The two trailer cases. */
    method ReadTrailer(buf: array<byte>, bufsz: nat, src0: nat, ghost s: seq<byte>, ghost out: seq<byte>)
      returns (src: nat, turn: Turn)
      requires Unread(buf, s, src0) && bufsz == |s|
      requires (phase.TrailerHead? || phase.TrailerMiddle?) && Sane(Now())
      modifies this`phase
      ensures src0 <= src <= bufsz
      ensures var r := Run(old(Now()), consumeTrailer, s, src0, out);
        match turn
        case Onward => r == Run(Now(), consumeTrailer, s, src, out) && src0 < src && Sane(Now())
        case Exit(ret) => ret == -2 && r == Outcome(Incomplete(Now()), out, src)
        case Completed => r == Outcome(Complete, out, src)
    {
      src := src0;
      assert out + [] == out;
      if phase.TrailerHead? {
        src := SkipCr(buf, src, s, bufsz, out);
        if src == bufsz {
          turn := Exit(-2);
          return;
        }
        var b := buf[src];
        src := src + 1;
        if b == LF {
          turn := Completed;
          return;
        }
        phase := TrailerMiddle;
      }
      src := FindLf(buf, src, s, bufsz, out);
      if src == bufsz {
        turn := Exit(-2);
        return;
      }
      src := src + 1;
      phase := TrailerHead;
      turn := Onward;
    }

    /** The line with the size and its extensions. */
    method ReadHeader(buf: array<byte>, bufsz: nat, src0: nat, ghost s: seq<byte>, ghost out: seq<byte>)
      returns (src: nat, turn: Turn)
      requires Unread(buf, s, src0) && bufsz == |s|
      requires phase.ChunkSize? || (phase.ChunkExt? && hexCount == 0)
      modifies this`bytesLeftInChunk, this`hexCount, this`phase
      ensures src0 <= src <= bufsz
      ensures var r := Run(old(Now()), consumeTrailer, s, src0, out);
        match turn
        case Onward => r == Run(Now(), consumeTrailer, s, src, out) && src0 < src && hexCount == 0 &&
                       (if phase.ChunkData? then bytesLeftInChunk > 0
                        else phase.TrailerHead? && bytesLeftInChunk == 0)
        case Exit(ret) =>
          || (ret == -2 && r == Outcome(Incomplete(Now()), out, src))
          || (ret == -1 && r == Outcome(Failed, out, src))
        case Completed => r == Outcome(Complete, out, src)
    {
      src := src0;
      if phase.ChunkSize? {
        src, turn := ReadSize(buf, src, s, bufsz, out);
        if turn.Exit? {
          return;
        }
      }
      src := FindLf(buf, src, s, bufsz, out);
      if src == bufsz {
        turn := Exit(-2);
        return;
      }
      assert out + [] == out;
      src := src + 1;
      turn := Onward;
      if bytesLeftInChunk == 0 {
        if consumeTrailer {
          phase := TrailerHead;
        } else {
          turn := Completed;
        }
        return;
      }
      phase := ChunkData;
    }

    /** The CRLF behind a chunk. */
    method EndChunk(buf: array<byte>, bufsz: nat, src0: nat, ghost s: seq<byte>, ghost out: seq<byte>)
      returns (src: nat, turn: Turn)
      requires Unread(buf, s, src0) && bufsz == |s| && phase.ChunkCrlf? && Sane(Now())
      modifies this`phase
      ensures src0 <= src <= bufsz
      ensures var r := Run(old(Now()), consumeTrailer, s, src0, out);
        match turn
        case Onward => r == Run(Now(), consumeTrailer, s, src, out) && src0 < src && Sane(Now())
        case Exit(ret) =>
          || (ret == -2 && r == Outcome(Incomplete(Now()), out, src))
          || (ret == -1 && r == Outcome(Failed, out, src))
        case Completed => false
    {
      src := SkipCr(buf, src0, s, bufsz, out);
      if src == bufsz {
        turn := Exit(-2);
        return;
      }
      if buf[src] != LF {
        turn := Exit(-1);
        return;
      }
      assert out + [] == out;
      src := src + 1;
      phase := ChunkSize;
      turn := Onward;
    }

    /** One round of the state machine, from the case of the current phase to the end of the switch. */
    method Round(buf: array<byte>, bufsz: nat, dst0: nat, src0: nat, ghost s: seq<byte>)
      returns (dst: nat, src: nat, turn: Turn)
      requires dst0 <= src0 && Unread(buf, s, src0) && bufsz == |s| && Sane(Now())
      modifies buf, this`bytesLeftInChunk, this`hexCount, this`phase
      ensures dst0 <= dst <= src <= bufsz && src0 <= src
      ensures Unread(buf, s, src) && buf[bufsz..] == old(buf[bufsz..])
      ensures var r := Run(old(Now()), consumeTrailer, s, src0, old(buf[..dst0]));
        match turn
        case Onward => r == Run(Now(), consumeTrailer, s, src, buf[..dst]) && src0 < src && Sane(Now())
        case Exit(ret) =>
          || (ret == -2 && r == Outcome(Incomplete(Now()), buf[..dst], src))
          || (ret == -1 && r == Outcome(Failed, buf[..dst], src))
        case Completed => r == Outcome(Complete, buf[..dst], src)
    {
      hide Run, Pow16;
      dst, src := dst0, src0;
      ghost var out := buf[..dst];
      if phase.ChunkSize? || phase.ChunkExt? {
        src, turn := ReadHeader(buf, bufsz, src, s, out);
        if !turn.Onward? || phase.TrailerHead? {
          return;
        }
      }
      if phase.ChunkData? {
        dst, src, turn := CopyData(buf, bufsz, dst, src, s);
        out := buf[..dst];
        if turn.Exit? {
          return;
        }
      }
      if phase.ChunkCrlf? {
        src, turn := EndChunk(buf, bufsz, src, s, out);
        return;
      }
      src, turn := ReadTrailer(buf, bufsz, src, s, out);
    }

    /** The rounds, until the input ends, an error is met or the body is complete. */
    method Rounds(buf: array<byte>, bufsz: nat, ghost s: seq<byte>) returns (dst: nat, src: nat, turn: Turn)
      requires bufsz <= buf.Length && s == buf[..bufsz] && Sane(Now())
      modifies buf, this`bytesLeftInChunk, this`hexCount, this`phase
      ensures dst <= src <= bufsz && buf[src..bufsz] == s[src..] && buf[bufsz..] == old(buf[bufsz..])
      ensures var r := Run(old(Now()), consumeTrailer, s, 0, []);
        match turn
        case Onward => false
        case Exit(ret) =>
          || (ret == -2 && r == Outcome(Incomplete(Now()), buf[..dst], src) && Sane(Now()))
          || (ret == -1 && r == Outcome(Failed, buf[..dst], src))
        case Completed => r == Outcome(Complete, buf[..dst], src)
    {
      dst, src, turn := 0, 0, Onward;
      while turn.Onward?
        invariant dst <= src <= bufsz && Unread(buf, s, src) && buf[bufsz..] == old(buf[bufsz..])
        invariant var r := Run(old(Now()), consumeTrailer, s, 0, []);
          match turn
          case Onward => r == Run(Now(), consumeTrailer, s, src, buf[..dst]) && Sane(Now())
          case Exit(ret) =>
            || (ret == -2 && r == Outcome(Incomplete(Now()), buf[..dst], src))
            || (ret == -1 && r == Outcome(Failed, buf[..dst], src))
          case Completed => r == Outcome(Complete, buf[..dst], src)
        decreases turn.Onward?, bufsz - src
      {
        dst, src, turn := Round(buf, bufsz, dst, src, s);
      }
      RunSane(old(Now()), consumeTrailer, s, 0, []);
    }

    /** phr_decode_chunked: the new size is the number of bytes decoded, which stand at the start of
        the buffer, followed by the bytes left undecoded, whose number is returned at the end of the
        body; -2 asks for more and -1 is an error. */
    method Decode(buf: array<byte>, bufsz: nat) returns (ret: int, size: nat)
      requires bufsz <= buf.Length && Sane(Now())
      modifies buf, this`bytesLeftInChunk, this`hexCount, this`phase
      ensures var r := Run(old(Now()), consumeTrailer, old(buf[..bufsz]), 0, []);
        && size == |r.out| <= r.used <= bufsz
        && buf[..size] == r.out
        && buf[size..size + (bufsz - r.used)] == old(buf[..bufsz])[r.used..]
        && buf[bufsz..] == old(buf[bufsz..])
        && match r.verdict
           case Incomplete(a) => ret == -2 && Now() == a && Sane(a)
           case Failed => ret == -1
           case Complete => ret == bufsz - r.used
    {
      ghost var s := buf[..bufsz];
      var dst, src, turn := Rounds(buf, bufsz, s);
      if dst != src {
        MoveDown(buf, dst, src, bufsz - src);
      }
      size := dst;
      ret := if turn.Completed? then bufsz - src else turn.ret;
    }
  }
}
