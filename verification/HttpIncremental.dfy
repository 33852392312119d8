/** Parsing a growing buffer with the shortcut agrees with parsing it from scratch. */
module HttpIncremental {
  import opened Bytes
  import opened HttpGrammar

  // ----- more input never changes a decision -----

  lemma {:induction false} TokenEndGrows(s: seq<byte>, t: seq<byte>, i: nat, next: byte)
    requires i <= |s| && s <= t && !TokenEnd(s, i, next).Partial?
    ensures TokenEnd(t, i, next) == TokenEnd(s, i, next)
    decreases |s| - i
  {
    if s[i] != next && IsTokenChar(s[i]) {
      TokenEndGrows(s, t, i + 1, next);
    }
  }

  lemma {:induction false} PathEndGrows(s: seq<byte>, t: seq<byte>, i: nat)
    requires i <= |s| && s <= t && !PathEnd(s, i).Partial?
    ensures PathEnd(t, i) == PathEnd(s, i)
    decreases |s| - i
  {
    if s[i] != SP && s[i] >= 32 && s[i] != DEL {
      PathEndGrows(s, t, i + 1);
    }
  }

  lemma {:induction false} BlanksEndGrows(s: seq<byte>, t: seq<byte>, i: nat, tabs: bool)
    requires i <= |s| && s <= t && !BlanksEnd(s, i, tabs).Partial?
    ensures BlanksEnd(t, i, tabs) == BlanksEnd(s, i, tabs)
    decreases |s| - i
  {
    if s[i] == SP || (tabs && s[i] == HT) {
      BlanksEndGrows(s, t, i + 1, tabs);
    }
  }

  lemma {:induction false} CtlEndGrows(s: seq<byte>, t: seq<byte>, i: nat)
    requires i <= |s| && s <= t && !CtlEnd(s, i).Partial?
    ensures CtlEnd(t, i) == CtlEnd(s, i)
    decreases |s| - i
  {
    if !IsCtl(s[i]) {
      CtlEndGrows(s, t, i + 1);
    }
  }

  lemma TokenToEolGrows(s: seq<byte>, t: seq<byte>, i: nat)
    requires i <= |s| && s <= t && !TokenToEol(s, i).Partial?
    ensures TokenToEol(t, i) == TokenToEol(s, i)
  {
    CtlEndGrows(s, t, i);
  }

  lemma {:induction false} TrimmedGrows(s: seq<byte>, t: seq<byte>, start: nat, len: nat)
    requires start + len <= |s| && s <= t
    ensures Trimmed(t, start, len) == Trimmed(s, start, len)
  {
    if len > 0 && IsBlank(s[start + len - 1]) {
      TrimmedGrows(s, t, start, len - 1);
    }
  }

  lemma HeaderLineGrows(s: seq<byte>, t: seq<byte>, i: nat, first: bool)
    requires i < |s| && s <= t && !HeaderLine(s, i, first).Partial?
    ensures HeaderLine(t, i, first) == HeaderLine(s, i, first)
  {
    if first || !IsBlank(s[i]) {
      TokenEndGrows(s, t, i, COLON);
      if TokenEnd(s, i, COLON).Ok? && TokenEnd(s, i, COLON).pos != i {
        BlanksEndGrows(s, t, TokenEnd(s, i, COLON).pos + 1, true);
      }
    }
    if HeaderName(s, i, first).Ok? {
      var v := HeaderName(s, i, first).pos;
      TokenToEolGrows(s, t, v);
      if TokenToEol(s, v).Ok? {
        TrimmedGrows(s, t, v, TokenToEol(s, v).value.len);
      }
    }
  }

  lemma {:induction false} HeadersGrow(s: seq<byte>, t: seq<byte>, i: nat, done: seq<Header>, max: nat)
    requires i <= |s| && s <= t && !Headers(s, i, done, max).Partial?
    ensures Headers(t, i, done, max) == Headers(s, i, done, max)
    decreases |s| - i
  {
    if s[i] == CR || s[i] == LF {
    } else if |done| != max {
      HeaderLineGrows(s, t, i, done == []);
      match HeaderLine(s, i, done == [])
      case Ok(p, h) => HeadersGrow(s, t, p, done + [h], max);
      case _ =>
    }
  }

  lemma TargetGrows(s: seq<byte>, t: seq<byte>, i: nat)
    requires i <= |s| && s <= t && !Target(s, i).Partial?
    ensures Target(t, i) == Target(s, i)
  {
    TokenEndGrows(s, t, i, SP);
    if TokenEnd(s, i, SP).Ok? {
      var m := TokenEnd(s, i, SP).pos + 1;
      BlanksEndGrows(s, t, m, false);
      if BlanksEnd(s, m, false).Ok? {
        var p := BlanksEnd(s, m, false).pos;
        PathEndGrows(s, t, p);
        if PathEnd(s, p).Ok? {
          BlanksEndGrows(s, t, PathEnd(s, p).pos + 1, false);
        }
      }
    }
  }

  lemma RequestLineGrows(s: seq<byte>, t: seq<byte>, i: nat)
    requires i <= |s| && s <= t && !RequestLine(s, i).Partial?
    ensures RequestLine(t, i) == RequestLine(s, i)
  {
    TargetGrows(s, t, i);
    if Target(s, i).Ok? {
      var v := Target(s, i).pos;
      if |s| - v >= 9 {
        assert s[v..v + 7] == t[v..v + 7];
      }
    }
  }

  /** Success and -1 from a from-scratch parse never change when bytes are appended. */
  lemma DecisionsAreFinal(s: seq<byte>, t: seq<byte>, max: nat)
    requires s <= t && !FromScratch(s, max).Partial?
    ensures FromScratch(t, max) == FromScratch(s, max)
  {
    if LeadingLine(s).Ok? {
      var i := LeadingLine(s).pos;
      RequestLineGrows(s, t, i);
      if RequestLine(s, i).Ok? {
        HeadersGrow(s, t, RequestLine(s, i).pos, [], max);
      }
    }
  }

  // ----- an answer of "partial" means that the input really ends too early -----

  lemma {:induction false} TokenEndNeeds(s: seq<byte>, t: seq<byte>, i: nat, next: byte)
    requires i <= |s| && s <= t && TokenEnd(s, i, next).Partial? && TokenEnd(t, i, next).Ok?
    ensures TokenEnd(t, i, next).pos >= |s|
    decreases |s| - i
  {
    if i < |s| {
      TokenEndNeeds(s, t, i + 1, next);
    }
  }

  lemma {:induction false} PathEndNeeds(s: seq<byte>, t: seq<byte>, i: nat)
    requires i <= |s| && s <= t && PathEnd(s, i).Partial? && PathEnd(t, i).Ok?
    ensures PathEnd(t, i).pos >= |s|
    decreases |s| - i
  {
    if i < |s| {
      PathEndNeeds(s, t, i + 1);
    }
  }

  lemma {:induction false} BlanksEndNeeds(s: seq<byte>, t: seq<byte>, i: nat, tabs: bool)
    requires i <= |s| && s <= t && BlanksEnd(s, i, tabs).Partial? && BlanksEnd(t, i, tabs).Ok?
    ensures BlanksEnd(t, i, tabs).pos >= |s|
    decreases |s| - i
  {
    if i < |s| {
      BlanksEndNeeds(s, t, i + 1, tabs);
    }
  }

  lemma {:induction false} CtlEndNeeds(s: seq<byte>, t: seq<byte>, i: nat)
    requires i <= |s| && s <= t && CtlEnd(s, i).Partial? && CtlEnd(t, i).Ok?
    ensures CtlEnd(t, i).pos >= |s|
    decreases |s| - i
  {
    if i < |s| {
      CtlEndNeeds(s, t, i + 1);
    }
  }

  lemma TokenToEolNeeds(s: seq<byte>, t: seq<byte>, i: nat)
    requires i <= |s| && s <= t && TokenToEol(s, i).Partial? && TokenToEol(t, i).Ok?
    ensures TokenToEol(t, i).pos > |s|
  {
    if CtlEnd(s, i).Partial? {
      CtlEndNeeds(s, t, i);
    } else {
      CtlEndGrows(s, t, i);
    }
  }

  lemma HeaderLineNeeds(s: seq<byte>, t: seq<byte>, i: nat, first: bool)
    requires i < |s| && s <= t && HeaderLine(s, i, first).Partial? && HeaderLine(t, i, first).Ok?
    ensures HeaderLine(t, i, first).pos > |s|
  {
    if first || !IsBlank(s[i]) {
      if TokenEnd(s, i, COLON).Partial? {
        TokenEndNeeds(s, t, i, COLON);
        return;
      }
      TokenEndGrows(s, t, i, COLON);
      var e := TokenEnd(s, i, COLON).pos + 1;
      if BlanksEnd(s, e, true).Partial? {
        BlanksEndNeeds(s, t, e, true);
        return;
      }
      BlanksEndGrows(s, t, e, true);
    }
    TokenToEolNeeds(s, t, HeaderName(s, i, first).pos);
  }

  lemma {:induction false} HeadersNeed(s: seq<byte>, t: seq<byte>, i: nat, done: seq<Header>, max: nat)
    requires i <= |s| && s <= t && Headers(s, i, done, max).Partial? && Headers(t, i, done, max).Ok?
    ensures Headers(t, i, done, max).pos > |s|
    decreases |s| - i
  {
    if i < |s| && s[i] != CR && s[i] != LF {
      match HeaderLine(s, i, done == [])
      case Partial => HeaderLineNeeds(s, t, i, done == []);
      case Ok(p, h) =>
        HeaderLineGrows(s, t, i, done == []);
        HeadersNeed(s, t, p, done + [h], max);
      case Bad =>
    }
  }

  lemma TargetNeeds(s: seq<byte>, t: seq<byte>, i: nat)
    requires i <= |s| && s <= t && Target(s, i).Partial? && Target(t, i).Ok?
    ensures Target(t, i).pos >= |s|
  {
    if TokenEnd(s, i, SP).Partial? {
      TokenEndNeeds(s, t, i, SP);
    } else {
      TokenEndGrows(s, t, i, SP);
      var m := TokenEnd(s, i, SP).pos + 1;
      if BlanksEnd(s, m, false).Partial? {
        BlanksEndNeeds(s, t, m, false);
      } else {
        BlanksEndGrows(s, t, m, false);
        var p := BlanksEnd(s, m, false).pos;
        if PathEnd(s, p).Partial? {
          PathEndNeeds(s, t, p);
        } else {
          PathEndGrows(s, t, p);
          BlanksEndNeeds(s, t, PathEnd(s, p).pos + 1, false);
        }
      }
    }
  }

  lemma RequestLineNeeds(s: seq<byte>, t: seq<byte>, i: nat)
    requires i <= |s| && s <= t && RequestLine(s, i).Partial? && RequestLine(t, i).Ok?
    ensures RequestLine(t, i).pos > |s|
  {
    if Target(s, i).Partial? {
      TargetNeeds(s, t, i);
    } else {
      TargetGrows(s, t, i);
      var v := Target(s, i).pos;
      if |s| - v >= 9 {
        assert s[v..v + 7] == t[v..v + 7];
      }
    }
  }

  lemma FromScratchNeeds(s: seq<byte>, t: seq<byte>, max: nat)
    requires s <= t && FromScratch(s, max).Partial? && FromScratch(t, max).Ok?
    ensures FromScratch(t, max).pos > |s|
  {
    if LeadingLine(s).Ok? {
      var i := LeadingLine(s).pos;
      if RequestLine(s, i).Partial? {
        RequestLineNeeds(s, t, i);
      } else {
        RequestLineGrows(s, t, i);
        HeadersNeed(s, t, RequestLine(s, i).pos, [], max);
      }
    }
  }

  /** A parse that succeeds does so exactly when the whole head is there, and depends on it alone. */
  lemma SucceedsWithTheHead(s: seq<byte>, t: seq<byte>, max: nat)
    requires s <= t && FromScratch(t, max).Ok?
    ensures FromScratch(s, max) == if |s| >= FromScratch(t, max).pos then FromScratch(t, max) else Partial
  {
    if FromScratch(s, max).Partial? {
      FromScratchNeeds(s, t, max);
    } else {
      DecisionsAreFinal(s, t, max);
    }
  }

  // ----- the line ends of a parsed head -----

  /** Every CR from i up to p begins a CRLF that ends by p. */
  ghost predicate OnlyCrlf(s: seq<byte>, i: nat, p: nat) {
    p <= |s| && forall k :: i <= k < p && s[k] == CR ==> k + 1 < p && s[k + 1] == LF
  }

  lemma {:induction false} TokenEndClean(s: seq<byte>, i: nat, next: byte)
    requires i <= |s| && next != CR && TokenEnd(s, i, next).Ok?
    ensures OnlyCrlf(s, i, TokenEnd(s, i, next).pos + 1)
    decreases |s| - i
  {
    if s[i] != next {
      TokenEndClean(s, i + 1, next);
    }
  }

  lemma {:induction false} PathEndClean(s: seq<byte>, i: nat)
    requires i <= |s| && PathEnd(s, i).Ok?
    ensures OnlyCrlf(s, i, PathEnd(s, i).pos + 1)
    decreases |s| - i
  {
    if s[i] != SP {
      PathEndClean(s, i + 1);
    }
  }

  lemma {:induction false} BlanksEndClean(s: seq<byte>, i: nat, tabs: bool)
    requires i <= |s| && BlanksEnd(s, i, tabs).Ok?
    ensures OnlyCrlf(s, i, BlanksEnd(s, i, tabs).pos)
    decreases |s| - i
  {
    if s[i] == SP || (tabs && s[i] == HT) {
      BlanksEndClean(s, i + 1, tabs);
    }
  }

  lemma {:induction false} CtlEndClean(s: seq<byte>, i: nat)
    requires i <= |s| && CtlEnd(s, i).Ok?
    ensures OnlyCrlf(s, i, CtlEnd(s, i).pos)
    decreases |s| - i
  {
    if !IsCtl(s[i]) {
      CtlEndClean(s, i + 1);
    }
  }

  /** What ends at p ends a line. */
  ghost predicate AfterLf(s: seq<byte>, p: nat) {
    0 < p <= |s| && s[p - 1] == LF
  }

  lemma HeaderLineClean(s: seq<byte>, i: nat, first: bool)
    requires i < |s| && HeaderLine(s, i, first).Ok?
    ensures OnlyCrlf(s, i, HeaderLine(s, i, first).pos) && AfterLf(s, HeaderLine(s, i, first).pos)
  {
    if first || !IsBlank(s[i]) {
      TokenEndClean(s, i, COLON);
      BlanksEndClean(s, TokenEnd(s, i, COLON).pos + 1, true);
    }
    CtlEndClean(s, HeaderName(s, i, first).pos);
  }

  /** The last line of a head is empty. */
  ghost predicate EndsBlank(s: seq<byte>, p: nat) {
    && 3 <= p <= |s| && s[p - 1] == LF
    && (s[p - 2] == LF || (s[p - 2] == CR && s[p - 3] == LF))
  }

  lemma {:induction false} HeadersClean(s: seq<byte>, i: nat, done: seq<Header>, max: nat)
    requires 2 <= i <= |s| && AfterLf(s, i) && Headers(s, i, done, max).Ok?
    ensures OnlyCrlf(s, i, Headers(s, i, done, max).pos) && EndsBlank(s, Headers(s, i, done, max).pos)
    decreases |s| - i
  {
    if s[i] != CR && s[i] != LF {
      HeaderLineClean(s, i, done == []);
      var line := HeaderLine(s, i, done == []);
      HeadersClean(s, line.pos, done + [line.value], max);
    }
  }

  lemma TargetClean(s: seq<byte>, i: nat)
    requires i <= |s| && Target(s, i).Ok?
    ensures OnlyCrlf(s, i, Target(s, i).pos)
  {
    TokenEndClean(s, i, SP);
    var m := TokenEnd(s, i, SP).pos + 1;
    BlanksEndClean(s, m, false);
    var p := BlanksEnd(s, m, false).pos;
    PathEndClean(s, p);
    BlanksEndClean(s, PathEnd(s, p).pos + 1, false);
  }

  lemma VersionClean(s: seq<byte>, v: nat)
    requires v <= |s| && Version(s, v).Ok?
    ensures OnlyCrlf(s, v, v + 8)
  {
    forall k | v <= k < v + 7 ensures s[k] != CR {
      assert s[k] == s[v..v + 7][k - v];
    }
  }

  lemma RequestLineClean(s: seq<byte>, i: nat)
    requires i <= |s| && RequestLine(s, i).Ok?
    ensures OnlyCrlf(s, i, RequestLine(s, i).pos) && AfterLf(s, RequestLine(s, i).pos)
    ensures RequestLine(s, i).pos >= i + 9
  {
    TargetClean(s, i);
    VersionClean(s, Target(s, i).pos);
  }

  lemma FromScratchClean(s: seq<byte>, max: nat)
    requires FromScratch(s, max).Ok?
    ensures OnlyCrlf(s, 0, FromScratch(s, max).pos) && EndsBlank(s, FromScratch(s, max).pos)
    ensures FromScratch(s, max).pos >= 4
  {
    var i := LeadingLine(s).pos;
    RequestLineClean(s, i);
    HeadersClean(s, RequestLine(s, i).pos, [], max);
  }

  // ----- the shortcut -----

  /** The search at pos, with that many line ends just seen, is still in time for the last two line
      ends before p: it stands four bytes or more before p, or on or between those line ends. */
  ghost predicate InTime(s: seq<byte>, pos: nat, ends: nat, p: nat)
    requires p <= |s|
  {
    || pos + 4 <= p
    || (pos + 3 == p && (s[pos] == LF || s[pos + 1] == LF))
    || (pos + 2 == p && (s[pos] == LF || (ends == 1 && s[pos] == CR)))
    || (pos + 1 == p && ends == 1)
  }

  /** Two line ends in a row end the head, so the search finds two by then. */
  lemma {:induction false} SearchMeetsTheEnd(s: seq<byte>, pos: nat, ends: nat, p: nat)
    requires ends < 2 && p <= |s| && EndsBlank(s, p) && OnlyCrlf(s, pos, p)
    requires InTime(s, pos, ends, p)
    ensures LineEndsFrom(s, pos, ends).Ok? && LineEndsFrom(s, pos, ends).pos <= p
    decreases p - pos
  {
    if s[pos] == CR || s[pos] == LF {
      var q := Newline(s, pos).pos;
      if ends == 0 {
        SearchMeetsTheEnd(s, q, 1, p);
      }
    } else {
      SearchMeetsTheEnd(s, pos + 1, 0, p);
    }
  }

  /** Inside a head, where every CR begins a CRLF, the search never answers -1. */
  lemma {:induction false} SearchNeverFails(s: seq<byte>, t: seq<byte>, pos: nat, ends: nat, p: nat)
    requires pos <= |s| <= p && ends < 2 && s <= t && OnlyCrlf(t, pos, p)
    ensures !LineEndsFrom(s, pos, ends).Bad?
    decreases |s| - pos
  {
    if pos < |s| {
      if s[pos] == CR || s[pos] == LF {
        if Newline(s, pos).Ok? && ends == 0 {
          SearchNeverFails(s, t, Newline(s, pos).pos, 1, p);
        }
      } else {
        SearchNeverFails(s, t, pos + 1, 0, p);
      }
    }
  }

  /** On the way to a head that will succeed, the shortcut changes nothing. */
  lemma ShortcutAgrees(s: seq<byte>, lastLen: nat, t: seq<byte>, max: nat)
    requires lastLen <= |s| && s <= t && FromScratch(t, max).Ok?
    requires lastLen < FromScratch(t, max).pos
    ensures ParseRequest(s, lastLen, max) == FromScratch(s, max)
  {
    var p := FromScratch(t, max).pos;
    var start := if lastLen < 3 then 0 else lastLen - 3;
    FromScratchClean(t, max);
    SucceedsWithTheHead(s, t, max);
    if |s| >= p {
      SearchMeetsTheEnd(s, start, 0, p);
    } else {
      SearchNeverFails(s, t, start, 0, p);
    }
  }

  /** -1 from the shortcut on a buffer whose old part was no complete head is final: no extension of
      the buffer can succeed. */
  lemma ShortcutRejectsForGood(s: seq<byte>, lastLen: nat, more: seq<byte>, max: nat)
    requires 0 < lastLen <= |s| && !FromScratch(s[..lastLen], max).Ok?
    requires ParseRequest(s, lastLen, max).Bad?
    ensures !FromScratch(s + more, max).Ok?
  {
    var t := s + more;
    if FromScratch(t, max).Ok? {
      SucceedsWithTheHead(s[..lastLen], t, max);
      ShortcutAgrees(s, lastLen, t, max);
      SucceedsWithTheHead(s, t, max);
    }
  }

  /** When the old part was incomplete, the call answers as a parse from scratch except in two cases:
      the search goes on where that parse already rejects, or rejects where that parse would go on. */
  lemma ShortcutAnswersAsScratch(s: seq<byte>, lastLen: nat, max: nat)
    requires 0 < lastLen <= |s| && FromScratch(s[..lastLen], max).Partial?
    ensures ParseRequest(s, lastLen, max) == FromScratch(s, max) <==>
              match IsComplete(s, lastLen)
              case Ok(_, _) => true
              case Partial => !FromScratch(s, max).Bad?
              case Bad => !FromScratch(s, max).Partial?
  {
    hide IsComplete;
    if FromScratch(s, max).Ok? {
      SucceedsWithTheHead(s[..lastLen], s, max);
      ShortcutAgrees(s, lastLen, s, max);
    }
  }

  // ----- what the search finds, in bytes -----

  /** A line end stands at i and ends at p. */
  predicate LineEnd(s: seq<byte>, i: nat, p: nat) {
    i < |s| && Newline(s, i) == Ok(p, ())
  }

  /** Two line ends in a row do. */
  ghost predicate BlankLine(s: seq<byte>, i: nat, p: nat) {
    exists q :: i < q < p && LineEnd(s, i, q) && LineEnd(s, q, p)
  }

  /** A CR that something other than LF follows. */
  predicate StrayCr(s: seq<byte>, k: nat) {
    k + 1 < |s| && s[k] == CR && s[k + 1] != LF
  }

  /** The search from pos on, with that many line ends just seen, is over by p. */
  ghost predicate OverBy(s: seq<byte>, pos: nat, ends: nat, p: nat) {
    (ends == 1 && LineEnd(s, pos, p)) || exists i :: pos <= i && BlankLine(s, i, p)
  }

  /** There is a stray CR before the search is over. */
  ghost predicate StrayBefore(s: seq<byte>, pos: nat, ends: nat) {
    exists k :: pos <= k && StrayCr(s, k) && forall p: nat :: p <= k ==> !OverBy(s, pos, ends, p)
  }

  /** It is over in this buffer. */
  ghost predicate Over(s: seq<byte>, pos: nat, ends: nat) {
    exists p :: OverBy(s, pos, ends, p)
  }

  /** Behind a line end the search goes on with one more seen. */
  lemma PastLineEnd(s: seq<byte>, pos: nat, q: nat)
    requires LineEnd(s, pos, q)
    ensures StrayBefore(s, pos, 0) <==> StrayBefore(s, q, 1)
    ensures Over(s, pos, 0) <==> Over(s, q, 1)
  {
    forall p ensures OverBy(s, pos, 0, p) <==> OverBy(s, q, 1, p) {
      if LineEnd(s, q, p) {
        assert BlankLine(s, pos, p);
      }
      if i :| pos <= i && BlankLine(s, i, p) {
        if i < q {
          assert LineEnd(s, i, q);
        } else {
          assert OverBy(s, q, 1, p);
        }
      }
    }
    forall k | pos <= k && StrayCr(s, k) ensures q <= k {
    }
  }

  lemma PastOther(s: seq<byte>, pos: nat, ends: nat)
    requires pos < |s| && s[pos] != CR && s[pos] != LF && ends < 2
    ensures StrayBefore(s, pos, ends) <==> StrayBefore(s, pos + 1, 0)
    ensures Over(s, pos, ends) <==> Over(s, pos + 1, 0)
  {
    var next := pos + 1;
    forall p: nat ensures OverBy(s, pos, ends, p) <==> OverBy(s, next, 0, p) {
      assert !BlankLine(s, pos, p);
      if OverBy(s, pos, ends, p) {
        var i: nat :| pos <= i && BlankLine(s, i, p);
        assert next <= i;
      }
    }
    if StrayBefore(s, pos, ends) {
      var k: nat :| pos <= k && StrayCr(s, k) && forall p: nat :: p <= k ==> !OverBy(s, pos, ends, p);
      assert next <= k;
      forall p: nat | p <= k ensures !OverBy(s, next, 0, p) {
        assert !OverBy(s, pos, ends, p);
      }
    }
  }

  lemma OverAtOnce(s: seq<byte>, pos: nat, q: nat)
    requires LineEnd(s, pos, q)
    ensures !StrayBefore(s, pos, 1) && Over(s, pos, 1)
  {
    assert OverBy(s, pos, 1, q);
    forall k | pos <= k && StrayCr(s, k) ensures q <= k && OverBy(s, pos, 1, q) {
    }
  }

  /** The search rejects exactly when a stray CR stands before the first two line ends in a row, and
      succeeds exactly when it meets such line ends with no stray CR before them. */
  lemma {:induction false} SearchEnds(s: seq<byte>, pos: nat, ends: nat)
    requires pos <= |s| && ends < 2
    ensures LineEndsFrom(s, pos, ends).Bad? <==> StrayBefore(s, pos, ends)
    ensures LineEndsFrom(s, pos, ends).Ok? <==> Over(s, pos, ends) && !StrayBefore(s, pos, ends)
    decreases |s| - pos
  {
    if pos == |s| || (pos + 1 == |s| && s[pos] == CR) {
      NeverOver(s, pos, ends);
    } else if s[pos] == CR || s[pos] == LF {
      match Newline(s, pos)
      case Ok(q, _) =>
        if ends == 1 {
          OverAtOnce(s, pos, q);
        } else {
          PastLineEnd(s, pos, q);
          SearchEnds(s, q, 1);
        }
      case Bad =>
        StrayHere(s, pos, ends);
    } else {
      PastOther(s, pos, ends);
      SearchEnds(s, pos + 1, 0);
    }
  }

  lemma NeverOver(s: seq<byte>, pos: nat, ends: nat)
    requires pos == |s| || (pos + 1 == |s| && s[pos] == CR)
    ensures !Over(s, pos, ends) && !StrayBefore(s, pos, ends)
  {
  }

  lemma StrayHere(s: seq<byte>, pos: nat, ends: nat)
    requires StrayCr(s, pos)
    ensures StrayBefore(s, pos, ends)
  {
    forall p: nat | p <= pos ensures !OverBy(s, pos, ends, p) {
    }
  }

  /** The first case: "A" followed by ":" is rejected only by a parse from scratch. */
  lemma ShortcutDelaysRejection(max: nat)
    ensures FromScratch([65], max).Partial? && FromScratch([65, 58], max).Bad?
    ensures ParseRequest([65, 58], 1, max).Partial?
  {
    assert TokenEnd([65], 1, SP).Partial?;
    assert TokenEnd([65, 58], 1, SP).Bad?;
    assert LineEndsFrom([65, 58], 2, 0).Partial?;
    assert LineEndsFrom([65, 58], 1, 0).Partial?;
  }

  /** The second: "A / " followed by a CR that no LF follows is rejected only by the search, which
      does not wait for the nine bytes of the version. */
  lemma ShortcutHastensRejection(max: nat)
    ensures FromScratch([65, 32, 47, 32], max).Partial?
    ensures FromScratch([65, 32, 47, 32, 13, 88], max).Partial?
    ensures ParseRequest([65, 32, 47, 32, 13, 88], 4, max).Bad?
  {
    var s: seq<byte> := [65, 32, 47, 32, 13, 88];
    assert TokenEnd(s, 1, SP) == Ok(1, ()) && PathEnd(s, 3) == Ok(3, ());
    assert BlanksEnd(s, 2, false) == Ok(2, ()) && BlanksEnd(s, 4, false) == Ok(4, ());
    assert Target(s, 0) == Ok(4, (Slice(0, 1), Slice(2, 1)));
    var t: seq<byte> := [65, 32, 47, 32];
    assert TokenEnd(t, 1, SP) == Ok(1, ()) && PathEnd(t, 3) == Ok(3, ());
    assert BlanksEnd(t, 2, false) == Ok(2, ()) && BlanksEnd(t, 4, false).Partial?;
    assert LineEndsFrom(s, 4, 0).Bad?;
    assert LineEndsFrom(s, 3, 0).Bad?;
    assert LineEndsFrom(s, 2, 0).Bad?;
  }

  // ----- the read loop -----

  datatype Outcome =
    | Parsed(len: nat, request: Request)
    | Broken
    | TooLarge
    | Waiting                      // every read was delivered and the head is still incomplete

  ghost predicate NoneEmpty(fragments: seq<seq<byte>>) {
    forall i :: 0 <= i < |fragments| ==> fragments[i] != []
  }

  /** The loop of handler_process_request on the fragments that its reads deliver: an empty read or
      -1 breaks the request, a buffer over the limit is refused, -2 reads on. */
  function ReadLoop(buffer: seq<byte>, fragments: seq<seq<byte>>, limit: nat, max: nat): Outcome
    decreases |fragments|
  {
    if fragments == [] then Waiting
    else if fragments[0] == [] then Broken
    else
      var longer := buffer + fragments[0];
      if |longer| > limit then TooLarge
      else
        match ParseRequest(longer, |buffer|, max)
        case Ok(p, r) => Parsed(p, r)
        case Bad => Broken
        case Partial => ReadLoop(longer, fragments[1..], limit, max)
  }

  /** The end of the stream breaks a request that still waits for more, and no other. */
  lemma {:induction false} EmptyReadBreaks(buffer: seq<byte>, before: seq<seq<byte>>, after: seq<seq<byte>>,
                                           limit: nat, max: nat)
    ensures var o := ReadLoop(buffer, before, limit, max);
            ReadLoop(buffer, before + [[]] + after, limit, max) == if o.Waiting? then Broken else o
    decreases |before|
  {
    hide ParseRequest;
    var all := before + [[]] + after;
    if before != [] {
      assert all[1..] == before[1..] + [[]] + after;
      EmptyReadBreaks(buffer + before[0], before[1..], after, limit, max);
    }
  }

  /** If what is read is the beginning of something that parses, the loop follows that parse. */
  lemma {:induction false} LoopFollows(buffer: seq<byte>, fragments: seq<seq<byte>>, limit: nat, max: nat, t: seq<byte>)
    requires buffer + Concat(fragments) <= t && FromScratch(t, max).Ok?
    requires |buffer| < FromScratch(t, max).pos
    requires NoneEmpty(fragments)
    ensures var (r, o) := (FromScratch(t, max), ReadLoop(buffer, fragments, limit, max));
            || o.TooLarge?
            || (if |buffer| + |Concat(fragments)| >= r.pos then o == Parsed(r.pos, r.value) else o == Waiting)
    decreases |fragments|
  {
    if fragments != [] {
      var longer := buffer + fragments[0];
      PrefixOfMore(buffer, fragments[0], Concat(fragments[1..]), t);
      ShortcutAgrees(longer, |buffer|, t, max);
      SucceedsWithTheHead(longer, t, max);
      if |longer| < FromScratch(t, max).pos {
        LoopFollows(longer, fragments[1..], limit, max, t);
      }
    }
  }

  lemma PrefixOfMore(a: seq<byte>, b: seq<byte>, c: seq<byte>, t: seq<byte>)
    requires a + (b + c) <= t
    ensures a + b + c <= t && a + b <= t
  {
    assert a + (b + c) == a + b + c;
    assert (a + b + c)[..|a + b|] == a + b;
  }

  lemma SuccessIsFromScratch(s: seq<byte>, last: nat, max: nat)
    requires last <= |s| && ParseRequest(s, last, max).Ok?
    ensures FromScratch(s, max) == ParseRequest(s, last, max)
  {
    hide FromScratch;
  }

  lemma {:induction false} ParsedIsParsed(buffer: seq<byte>, fragments: seq<seq<byte>>, limit: nat, max: nat)
    requires ReadLoop(buffer, fragments, limit, max).Parsed?
    ensures var o := ReadLoop(buffer, fragments, limit, max);
            FromScratch(buffer + Concat(fragments), max) == Ok(o.len, o.request)
    decreases |fragments|
  {
    hide ParseRequest, FromScratch;
    var longer := buffer + fragments[0];
    assert buffer + Concat(fragments) == longer + Concat(fragments[1..]);
    if ParseRequest(longer, |buffer|, max).Ok? {
      SuccessIsFromScratch(longer, |buffer|, max);
      DecisionsAreFinal(longer, longer + Concat(fragments[1..]), max);
    } else {
      ParsedIsParsed(longer, fragments[1..], limit, max);
    }
  }

  /** What is in the buffer after k reads. */
  function Received(fragments: seq<seq<byte>>, k: nat): seq<byte>
    requires k <= |fragments|
  {
    Concat(fragments[..k])
  }

  lemma OneMore(fragments: seq<seq<byte>>, k: nat)
    requires k < |fragments|
    ensures Received(fragments, k + 1) == Received(fragments, k) + fragments[k]
  {
    assert fragments[..k + 1] == fragments[..k] + [fragments[k]];
    ConcatAppend(fragments[..k], [fragments[k]]);
    assert Concat([fragments[k]]) == fragments[k];
  }

  lemma ReceivedGrows(fragments: seq<seq<byte>>, k: nat)
    requires k <= |fragments|
    ensures Received(fragments, k) <= Concat(fragments)
  {
    assert fragments == fragments[..k] + fragments[k..];
    ConcatAppend(fragments[..k], fragments[k..]);
  }

  /** How many reads the loop takes, as far as its size limit lets it: up to the first empty one, or the
      first after which the call decides, or all of them. */
  function ReadsTaken(buffer: seq<byte>, fragments: seq<seq<byte>>, max: nat): (k: nat)
    ensures k <= |fragments|
    decreases |fragments|
  {
    if fragments == [] then 0
    else if fragments[0] == [] || !ParseRequest(buffer + fragments[0], |buffer|, max).Partial? then 1
    else 1 + ReadsTaken(buffer + fragments[0], fragments[1..], max)
  }

  /** A request is found too large exactly when these reads bring more bytes than the limit. */
  lemma {:induction false} TooLargeExactly(buffer: seq<byte>, fragments: seq<seq<byte>>, limit: nat, max: nat)
    requires |buffer| <= limit
    ensures ReadLoop(buffer, fragments, limit, max).TooLarge? <==>
              |buffer| + |Received(fragments, ReadsTaken(buffer, fragments, max))| > limit
    decreases |fragments|
  {
    hide ParseRequest;
    if fragments != [] {
      var longer, k := buffer + fragments[0], ReadsTaken(buffer, fragments, max);
      assert fragments[..k] == [fragments[0]] + fragments[1..][..k - 1];
      assert Received(fragments, k) == fragments[0] + Received(fragments[1..], k - 1);
      if fragments[0] != [] && |longer| <= limit && ParseRequest(longer, |buffer|, max).Partial? {
        TooLargeExactly(longer, fragments[1..], limit, max);
      }
    }
  }

  /** However the bytes are cut into reads, the loop succeeds exactly when a parse of all of them from
      scratch does and the reads up to there are within the limit, with the same length, method, path,
      version and headers. */
  lemma ReadsDoNotMatter(fragments: seq<seq<byte>>, limit: nat, max: nat, p: nat, r: Request)
    requires NoneEmpty(fragments)
    ensures ReadLoop([], fragments, limit, max) == Parsed(p, r) <==>
              && FromScratch(Concat(fragments), max) == Ok(p, r)
              && |Received(fragments, ReadsTaken([], fragments, max))| <= limit
  {
    hide FromScratch, Received, ReadsTaken;
    assert [] + Concat(fragments) == Concat(fragments);
    TooLargeExactly([], fragments, limit, max);
    if FromScratch(Concat(fragments), max) == Ok(p, r) {
      LoopFollows([], fragments, limit, max, Concat(fragments));
    }
    if ReadLoop([], fragments, limit, max) == Parsed(p, r) {
      ParsedIsParsed([], fragments, limit, max);
    }
  }

  /** A request that the loop calls broken is no beginning of a good one. */
  lemma BrokenForGood(fragments: seq<seq<byte>>, limit: nat, max: nat, more: seq<byte>)
    requires NoneEmpty(fragments)
    requires ReadLoop([], fragments, limit, max).Broken?
    ensures !FromScratch(Concat(fragments) + more, max).Ok?
  {
    var t := Concat(fragments) + more;
    assert [] + Concat(fragments) == Concat(fragments);
    if FromScratch(t, max).Ok? {
      LoopFollows([], fragments, limit, max, t);
    }
  }

  // ----- the room for the reads -----

  const MAX_REQUEST_SIZE: nat := 122880
  const REQUEST_BUFFER_SIZE: nat := 32368

  /** Every read that the loop takes ends inside a buffer of that many bytes. The size is tested
      against the limit after the read. */
  predicate ReadsFit(buffer: seq<byte>, fragments: seq<seq<byte>>, limit: nat, room: nat, max: nat)
    decreases |fragments|
  {
    fragments == [] ||
    var longer := buffer + fragments[0];
    && |longer| <= room
    && (fragments[0] != [] && |longer| <= limit && ParseRequest(longer, |buffer|, max).Partial? ==>
         ReadsFit(longer, fragments[1..], limit, room, max))
  }

  /** In a buffer of just the limit, the size that the handler declares, the reads stay inside exactly
      when the request is not found too large. */
  lemma {:induction false} FitsUnlessTooLarge(buffer: seq<byte>, fragments: seq<seq<byte>>, limit: nat, max: nat)
    requires |buffer| <= limit
    ensures ReadsFit(buffer, fragments, limit, limit, max) <==> !ReadLoop(buffer, fragments, limit, max).TooLarge?
    decreases |fragments|
  {
    hide ParseRequest;
    if fragments != [] && |buffer + fragments[0]| <= limit {
      FitsUnlessTooLarge(buffer + fragments[0], fragments[1..], limit, max);
    }
  }

  /** So they stay inside exactly when the reads up to the first decision bring no more than the limit. */
  lemma ReadsFitTheLimit(buffer: seq<byte>, fragments: seq<seq<byte>>, limit: nat, max: nat)
    requires |buffer| <= limit
    ensures ReadsFit(buffer, fragments, limit, limit, max) <==> !ReadLoop(buffer, fragments, limit, max).TooLarge?
    ensures ReadsFit(buffer, fragments, limit, limit, max) <==>
              |buffer| + |Received(fragments, ReadsTaken(buffer, fragments, max))| <= limit
  {
    hide ParseRequest, ReadsFit, ReadLoop, Received, ReadsTaken;
    FitsUnlessTooLarge(buffer, fragments, limit, max);
    TooLargeExactly(buffer, fragments, limit, max);
  }

  /** No read is longer than that. */
  ghost predicate ReadsUpTo(fragments: seq<seq<byte>>, chunk: nat) {
    forall i :: 0 <= i < |fragments| ==> |fragments[i]| <= chunk
  }

  lemma {:induction false} LimitAndChunkSuffice(buffer: seq<byte>, fragments: seq<seq<byte>>,
                                                limit: nat, chunk: nat, room: nat, max: nat)
    requires |buffer| <= limit && ReadsUpTo(fragments, chunk) && limit + chunk <= room
    ensures ReadsFit(buffer, fragments, limit, room, max)
    decreases |fragments|
  {
    hide ParseRequest;
    if fragments != [] && |buffer + fragments[0]| <= limit {
      LimitAndChunkSuffice(buffer + fragments[0], fragments[1..], limit, chunk, room, max);
    }
  }

  /** The letter "A", n times: the beginning of a method that does not end. */
  function Letters(n: nat): (s: seq<byte>)
    ensures |s| == n
  {
    seq(n, _ => 65)
  }

  lemma {:induction false} LettersTokenEnd(n: nat, i: nat)
    requires i <= n
    ensures TokenEnd(Letters(n), i, SP).Partial?
    decreases n - i
  {
    if i < n {
      LettersTokenEnd(n, i + 1);
    }
  }

  lemma {:induction false} LettersLineEnds(n: nat, i: nat)
    requires i <= n
    ensures LineEndsFrom(Letters(n), i, 0).Partial?
    decreases n - i
  {
    if i < n {
      LettersLineEnds(n, i + 1);
    }
  }

  lemma LettersWait(n: nat, lastLen: nat, max: nat)
    requires lastLen <= n
    ensures ParseRequest(Letters(n), lastLen, max).Partial?
  {
    LettersTokenEnd(n, 0);
    LettersLineEnds(n, if lastLen < 3 then 0 else lastLen - 3);
  }

  /** So many reads of c letters each, and a last one. */
  function LetterReads(pieces: nat, c: nat, last: nat): seq<seq<byte>> {
    if pieces == 0 then [Letters(last)] else [Letters(c)] + LetterReads(pieces - 1, c, last)
  }

  lemma {:induction false} LetterReadsUpTo(pieces: nat, c: nat, last: nat)
    ensures ReadsUpTo(LetterReads(pieces, c, last), if c > last then c else last)
  {
    if pieces > 0 {
      LetterReadsUpTo(pieces - 1, c, last);
    }
  }

  lemma {:induction false} LettersOverrun(n: nat, pieces: nat, c: nat, last: nat, limit: nat, room: nat, max: nat)
    requires 0 < c && n + pieces * c <= limit && room < n + pieces * c + last
    ensures !ReadsFit(Letters(n), LetterReads(pieces, c, last), limit, room, max)
    decreases pieces
  {
    if pieces > 0 {
      hide ParseRequest;
      assert pieces * c == c + (pieces - 1) * c;
      assert Letters(n) + Letters(c) == Letters(n + c);
      LettersWait(n + c, n, max);
      LettersOverrun(n + c, pieces - 1, c, last, limit, room, max);
    }
  }

  ghost predicate AllReadsFit(limit: nat, chunk: nat, room: nat, max: nat) {
    forall fragments :: ReadsUpTo(fragments, chunk) ==> ReadsFit([], fragments, limit, room, max)
  }

  /** Whatever arrives, all reads stay inside exactly when the buffer has room for a whole read more
      than the limit. */
  lemma RoomNeeded(limit: nat, chunk: nat, room: nat, max: nat)
    requires 0 < chunk
    ensures AllReadsFit(limit, chunk, room, max) <==> limit + chunk <= room
  {
    if limit + chunk <= room {
      forall fragments | ReadsUpTo(fragments, chunk) ensures ReadsFit([], fragments, limit, room, max) {
        LimitAndChunkSuffice([], fragments, limit, chunk, room, max);
      }
    } else {
      LetterReadsUpTo(limit, 1, chunk);
      LettersOverrun(0, limit, 1, chunk, limit, room, max);
      assert Letters(0) == [];
    }
  }

  /** With the sizes in srv/lib/h/config.h the declared buffer is too small: four full reads do not fit. */
  lemma FourReadsOverrun(max: nat)
    ensures ReadsUpTo(LetterReads(3, REQUEST_BUFFER_SIZE, REQUEST_BUFFER_SIZE), REQUEST_BUFFER_SIZE)
    ensures !ReadsFit([], LetterReads(3, REQUEST_BUFFER_SIZE, REQUEST_BUFFER_SIZE),
                      MAX_REQUEST_SIZE, MAX_REQUEST_SIZE, max)
  {
    LetterReadsUpTo(3, REQUEST_BUFFER_SIZE, REQUEST_BUFFER_SIZE);
    LettersOverrun(0, 3, REQUEST_BUFFER_SIZE, REQUEST_BUFFER_SIZE, MAX_REQUEST_SIZE, MAX_REQUEST_SIZE, max);
    assert Letters(0) == [];
  }

  // ----- when the loop's rejections are those of one parse -----

  /** Where the search after the k-th read begins: three bytes before the new ones. */
  function SearchStart(fragments: seq<seq<byte>>, k: nat): nat
    requires 0 < k <= |fragments|
  {
    var old_ := |Received(fragments, k - 1)|;
    if old_ < 3 then 0 else old_ - 3
  }

  /** It meets a stray CR before two line ends in a row. */
  ghost predicate StrayAt(fragments: seq<seq<byte>>, k: nat)
    requires 0 < k <= |fragments|
  {
    StrayBefore(Received(fragments, k), SearchStart(fragments, k), 0)
  }

  /** It meets two line ends in a row, and no stray CR before them. */
  ghost predicate BlankLineAt(fragments: seq<seq<byte>>, k: nat)
    requires 0 < k <= |fragments|
  {
    Over(Received(fragments, k), SearchStart(fragments, k), 0) && !StrayAt(fragments, k)
  }

  /** The call after the k-th read rejects: a later one than the first when its search meets a stray CR,
      and any whose parse from scratch rejects, if it is the first or its search has met a blank line. */
  ghost predicate RejectsAt(fragments: seq<seq<byte>>, k: nat, max: nat)
    requires 0 < k <= |fragments|
  {
    || (k > 1 && StrayAt(fragments, k))
    || ((k == 1 || BlankLineAt(fragments, k)) && FromScratch(Received(fragments, k), max).Bad?)
  }

  lemma CallAt(fragments: seq<seq<byte>>, k: nat, max: nat)
    requires 0 < k <= |fragments| && NoneEmpty(fragments)
    ensures |Received(fragments, k - 1)| <= |Received(fragments, k)|
    ensures ParseRequest(Received(fragments, k), |Received(fragments, k - 1)|, max).Bad?
            <==> RejectsAt(fragments, k, max)
  {
    hide FromScratch, Over, StrayBefore;
    OneMore(fragments, k - 1);
    SearchEnds(Received(fragments, k), SearchStart(fragments, k), 0);
    if k > 1 {
      OneMore(fragments, k - 2);
    }
  }

  lemma {:induction false} LoopFrom(fragments: seq<seq<byte>>, i: nat, limit: nat, max: nat)
    requires NoneEmpty(fragments) && i <= |fragments| && !FromScratch(Concat(fragments), max).Ok?
    requires !ReadLoop(Received(fragments, i), fragments[i..], limit, max).TooLarge?
    ensures var o := ReadLoop(Received(fragments, i), fragments[i..], limit, max);
      && !o.Parsed?
      && (o.Broken? <==> exists k :: i < k <= |fragments| && RejectsAt(fragments, k, max))
    decreases |fragments| - i
  {
    if i < |fragments| {
      hide FromScratch, RejectsAt, Received;
      assert fragments[i..][1..] == fragments[i + 1..];
      OneMore(fragments, i);
      CallAt(fragments, i + 1, max);
      ReceivedGrows(fragments, i + 1);
      if FromScratch(Received(fragments, i + 1), max).Ok? {
        DecisionsAreFinal(Received(fragments, i + 1), Concat(fragments), max);
      }
      if ParseRequest(Received(fragments, i + 1), |Received(fragments, i)|, max).Partial? {
        LoopFrom(fragments, i + 1, limit, max);
        forall k | i < k <= |fragments| && RejectsAt(fragments, k, max) ensures i + 1 < k {
        }
      }
    }
  }

  /** How the loop ends: parsed exactly when a parse of all bytes succeeds, otherwise broken exactly
      when one of its calls rejects. */
  lemma LoopEnds(fragments: seq<seq<byte>>, limit: nat, max: nat)
    requires NoneEmpty(fragments) && |Received(fragments, ReadsTaken([], fragments, max))| <= limit
    ensures var (o, all) := (ReadLoop([], fragments, limit, max), FromScratch(Concat(fragments), max));
      && !o.TooLarge?
      && (o.Parsed? <==> all.Ok?)
      && (!all.Ok? ==> (o.Broken? <==> exists k :: 0 < k <= |fragments| && RejectsAt(fragments, k, max)))
  {
    hide FromScratch, RejectsAt;
    var all := FromScratch(Concat(fragments), max);
    assert Received(fragments, 0) == [] && fragments[0..] == fragments;
    TooLargeExactly([], fragments, limit, max);
    if all.Ok? {
      ReadsDoNotMatter(fragments, limit, max, all.pos, all.value);
    } else {
      LoopFrom(fragments, 0, limit, max);
    }
  }

  /** The loop's three ends are the three answers of one parse of all bytes exactly when no search
      meets a stray CR in what that parse would wait for, and some call rejects what that parse rejects. */
  lemma LoopAnswersAsOneParse(fragments: seq<seq<byte>>, limit: nat, max: nat)
    requires NoneEmpty(fragments) && |Received(fragments, ReadsTaken([], fragments, max))| <= limit
    ensures var (o, all, n) := (ReadLoop([], fragments, limit, max), FromScratch(Concat(fragments), max), |fragments|);
      (o.Parsed? <==> all.Ok?) && (o.Broken? <==> all.Bad?) && (o.Waiting? <==> all.Partial?) <==>
        match all
        case Ok(_, _) => true
        case Partial => forall k :: 1 < k <= n ==> !StrayAt(fragments, k)
        case Bad => exists k :: 0 < k <= n && RejectsAt(fragments, k, max)
  {
    hide FromScratch, RejectsAt, StrayAt;
    LoopEnds(fragments, limit, max);
    var all := FromScratch(Concat(fragments), max);
    if all.Partial? {
      OnlyStrayCrsReject(fragments, max);
    }
  }

  lemma OnlyStrayCrsReject(fragments: seq<seq<byte>>, max: nat)
    requires FromScratch(Concat(fragments), max).Partial?
    ensures (exists k :: 0 < k <= |fragments| && RejectsAt(fragments, k, max))
            <==> !(forall k :: 1 < k <= |fragments| ==> !StrayAt(fragments, k))
  {
    hide FromScratch, RejectsAt, StrayAt;
    forall k | 0 < k <= |fragments| ensures RejectsAt(fragments, k, max) <==> k > 1 && StrayAt(fragments, k) {
      NeverBad(fragments, k, max);
    }
    if k :| 0 < k <= |fragments| && RejectsAt(fragments, k, max) {
      assert StrayAt(fragments, k);
    }
    if k :| 1 < k <= |fragments| && StrayAt(fragments, k) {
      assert RejectsAt(fragments, k, max);
    }
  }

  lemma NeverBad(fragments: seq<seq<byte>>, k: nat, max: nat)
    requires 0 < k <= |fragments| && FromScratch(Concat(fragments), max).Partial?
    ensures RejectsAt(fragments, k, max) <==> k > 1 && StrayAt(fragments, k)
  {
    hide FromScratch, StrayAt;
    ReceivedGrows(fragments, k);
    if FromScratch(Received(fragments, k), max).Bad? {
      DecisionsAreFinal(Received(fragments, k), Concat(fragments), max);
    }
  }
}
