/** The printer of srv/lib/c_json.c: whatever the buffer, the text is the one of JsonText.Render. */
module JsonPrinter {
  import opened Bytes
  import opened JsonStrings
  import opened JsonText
  import opened JsonItems
  import opened JsonTrees
  import opened Wrappers

  const INT_MAX: nat := 0x7FFF_FFFF
  const DEFAULT_BUFFER_SIZE: nat := 256

  // ----- the text -----

  lemma {:induction false} EscapeHasNoNul(x: seq<byte>)
    requires NUL !in x
    ensures NUL !in Escape(x)
  {
    if x != [] {
      EscapeHasNoNul(x[1..]);
      assert NUL !in EscapeByte(x[0]);
    }
  }

  lemma {:induction false} DigitsHaveNoNul(n: nat)
    ensures NUL !in Digits(n)
  {
    if n >= 10 {
      DigitsHaveNoNul(n / 10);
    }
  }

  /** The text of a value can be measured with strlen. */
  lemma {:induction false} TextHasNoNul(v: Json, fmt: bool, depth: nat)
    requires Printable(v)
    ensures NUL !in Render(v, fmt, depth)
    decreases v
  {
    match v
    case Number(n) => DigitsHaveNoNul(if n < 0 then -n else n);
    case String(x) => EscapeHasNoNul(x);
    case Array(items) => ItemsHaveNoNul(items, fmt, depth + 1);
    case Object(ms) => MembersHaveNoNul(ms, fmt, depth + 1);
    case _ =>
  }

  lemma {:induction false} ItemsHaveNoNul(items: seq<Json>, fmt: bool, depth: nat)
    requires forall i :: 0 <= i < |items| ==> Printable(items[i])
    ensures NUL !in RenderItems(items, fmt, depth)
    decreases items
  {
    if items != [] {
      TextHasNoNul(items[0], fmt, depth);
      ItemsHaveNoNul(items[1..], fmt, depth);
    }
  }

  lemma {:induction false} MembersHaveNoNul(ms: seq<Member>, fmt: bool, depth: nat)
    requires forall i :: 0 <= i < |ms| ==> NUL !in ms[i].key && Printable(ms[i].value)
    ensures NUL !in RenderMembers(ms, fmt, depth)
    decreases ms
  {
    if ms != [] {
      EscapeHasNoNul(ms[0].key);
      TextHasNoNul(ms[0].value, fmt, depth);
      MembersHaveNoNul(ms[1..], fmt, depth);
    }
  }

  lemma {:induction false} NothingEscaped(x: seq<byte>)
    requires |Escape(x)| == |x|
    ensures Escape(x) == x
  {
    if x != [] {
      assert |Escape(x[1..])| == |x[1..]|;
      NothingEscaped(x[1..]);
      assert [x[0]] + x[1..] == x;
    }
  }

  lemma EscapeNext(x: seq<byte>, i: nat)
    requires i < |x|
    ensures Escape(x[i..]) == EscapeByte(x[i]) + Escape(x[i + 1..])
  {
    assert x[i..][1..] == x[i + 1..];
  }

  /** One item with what follows it. */
  function ItemText(items: seq<Json>, i: nat, fmt: bool, depth: nat): seq<byte>
    requires i < |items|
  {
    Render(items[i], fmt, depth) + ItemEnd(i + 1 == |items|, fmt)
  }

  /** One member with what stands around it. */
  function MemberText(ms: seq<Member>, i: nat, fmt: bool, depth: nat): seq<byte>
    requires i < |ms|
  {
    MemberStart(ms[i].key, fmt, depth) + Render(ms[i].value, fmt, depth) + MemberEnd(i + 1 == |ms|, fmt)
  }

  // ----- the print buffer -----

  class PrintBuffer {
    var buffer: array<byte>
    var length: nat
    var offset: nat
    var depth: nat
    const noalloc: bool
    const format: bool

    constructor (buffer: array<byte>, noalloc: bool, format: bool)
      ensures this.buffer == buffer && length == buffer.Length && offset == 0 && depth == 0
      ensures this.noalloc == noalloc && this.format == format
    {
      this.buffer, length, offset, depth := buffer, buffer.Length, 0, 0;
      this.noalloc, this.format := noalloc, format;
    }

    ghost predicate Sized()
      reads `buffer, `length
    {
      length == buffer.Length && length <= INT_MAX
    }

    /** The offset is inside the buffer, or the buffer is still empty. */
    ghost predicate Valid()
      reads `buffer, `length, `offset
    {
      Sized() && (offset < length || offset == length == 0)
    }

    /** How large the buffer can become. */
    ghost function Limit(): nat
      reads `length
    {
      if noalloc then length else INT_MAX
    }

    /** The buffer is the same or a new, larger one. */
    twostate predicate Kept()
      reads `buffer, `length
    {
      Sized() && (buffer == old(buffer) || (!noalloc && fresh(buffer))) && Limit() == old(Limit())
    }

    /** What has been printed. */
    ghost function Contents(): seq<byte>
      reads `buffer, `length, `offset, buffer
      requires offset <= buffer.Length
    {
      buffer[..offset]
    }

    /** ensure: room for needed bytes more and a NUL, in a buffer twice as large if need be. */
    method Ensure(needed: nat) returns (ok: bool)
      requires Sized()
      modifies `buffer, `length
      ensures Kept()
      ensures ok == (!(old(length) > 0 && offset >= old(length)) && offset + needed + 1 <= Limit())
      ensures ok ==> offset + needed + 1 <= length
      ensures old(length) <= length && buffer[..old(length)] == old(buffer[..])
    {
      if length > 0 && offset >= length {
        return false;
      }
      if needed > INT_MAX {
        return false;
      }
      var wanted := needed + offset + 1;
      if wanted <= length {
        return true;
      }
      if noalloc {
        return false;
      }
      var newsize: nat;
      if wanted > INT_MAX / 2 {
        if wanted <= INT_MAX {
          newsize := INT_MAX;
        } else {
          return false;
        }
      } else {
        newsize := wanted * 2;
      }
      var newbuffer := new byte[newsize];
      forall k | 0 <= k < length {
        newbuffer[k] := buffer[k];
      }
      length := newsize;
      buffer := newbuffer;
      return true;
    }

    /** Stores bytes at a position: strcpy, memcpy or a run of assignments. */
    method Store(at: nat, t: seq<byte>)
      requires Sized() && at + |t| <= length
      modifies buffer
      ensures buffer[..at + |t|] == old(buffer[..at]) + t
    {
      forall k | 0 <= k < |t| {
        buffer[at + k] := t[k];
      }
    }

    /** A NUL-terminated text t behind cur; the offset is somewhere in t. */
    ghost predicate Terminated(cur: seq<byte>, t: seq<byte>)
      reads `buffer, `length, `offset, buffer
    {
      && Sized() && |cur| <= offset <= |cur| + |t| < length
      && buffer[..|cur| + |t|] == cur + t && buffer[|cur| + |t|] == NUL
    }

    lemma Widen(cur: seq<byte>, a: seq<byte>, b: seq<byte>, c: seq<byte>)
      requires Terminated(cur + a + b, c)
      ensures Terminated(cur, a + b + c)
    {
      Join3(cur, a, b, c);
    }

    /** update_offset: strlen finds the end of the text. */
    method UpdateOffset(ghost cur: seq<byte>, ghost t: seq<byte>)
      requires Terminated(cur, t) && NUL !in t
      modifies `offset
      ensures Valid() && offset == |cur| + |t| && Contents() == cur + t && buffer[offset] == NUL
    {
      forall k | offset <= k < |cur| + |t| ensures buffer[k] != NUL {
        assert buffer[..|cur| + |t|][k] == (cur + t)[k] == t[k - |cur|];
      }
      var strlen := 0;
      while buffer[offset + strlen] != NUL
        invariant offset + strlen <= |cur| + |t|
        decreases |cur| + |t| - (offset + strlen)
      {
        strlen := strlen + 1;
      }
      offset := offset + strlen;
    }

    /** The text t and a NUL, if there is room for them; the offset stays. */
    method PrintText(t: seq<byte>) returns (ok: bool)
      requires Valid()
      modifies this, buffer
      ensures Kept() && depth == old(depth)
      ensures ok <==> old(offset) + |t| + 2 <= Limit()
      ensures ok ==> Terminated(old(Contents()), t) && offset == old(offset)
    {
      ok := Ensure(|t| + 1);
      if ok {
        ghost var cur := Contents();
        assert cur == old(Contents());
        Store(offset, t + [NUL]);
        assert buffer[..offset + |t| + 1] == cur + (t + [NUL]);
        assert buffer[..offset + |t|] == buffer[..offset + |t| + 1][..offset + |t|] == cur + t;
        assert buffer[offset + |t|] == (cur + (t + [NUL]))[offset + |t|];
      }
    }

    /** One round of the copying loop of print_string_ptr. For a UTF-16 escape, sprintf also writes a
        NUL, over which the next character is written. */
    method WriteEscape(b: byte, at: nat) returns (n: nat)
      requires Sized() && b != NUL && at + |EscapeByte(b)| < length
      modifies buffer
      ensures n == |EscapeByte(b)| && buffer[..at + n] == old(buffer[..at]) + EscapeByte(b)
    {
      if b > 31 && b != QUOTE && b != BACKSLASH {
        Store(at, [b]);
        return 1;
      }
      ghost var before := buffer[..at];
      Store(at, [BACKSLASH]);
      var c := ShortEscape(b);
      if c.Some? {
        Store(at + 1, [c.value]);
        Join2(before, [BACKSLASH], [c.value]);
        return 2;
      }
      var rest := [117, ZERO, ZERO, HexDigit(b / 16), HexDigit(b % 16)];
      Store(at + 1, rest);
      Join2(before, [BACKSLASH], rest);
      buffer[at + 6] := NUL;
      return 6;
    }

    method WriteEscaped(x: seq<byte>, at: nat)
      requires Sized() && NUL !in x && at + |Escape(x)| < length
      modifies buffer
      ensures buffer[..at + |Escape(x)|] == old(buffer[..at]) + Escape(x)
    {
      hide EscapeByte;
      ghost var before, done := buffer[..at], [];
      var outputPointer := at;
      assert x[0..] == x;
      assert before + done == before;
      for i := 0 to |x|
        invariant Escape(x) == done + Escape(x[i..]) && outputPointer == at + |done|
        invariant buffer[..outputPointer] == before + done
      {
        EscapeNext(x, i);
        var n := WriteEscape(x[i], outputPointer);
        outputPointer := outputPointer + n;
        assert done + (EscapeByte(x[i]) + Escape(x[i + 1..])) == done + EscapeByte(x[i]) + Escape(x[i + 1..]);
        assert before + done + EscapeByte(x[i]) == before + (done + EscapeByte(x[i]));
        done := done + EscapeByte(x[i]);
      }
      assert done + Escape(x[|x|..]) == done;
    }

    /** print_string_ptr: one pass counts the escapes, the other writes. */
    method PrintStringPtr(input: seq<byte>) returns (ok: bool)
      requires Valid() && NUL !in input
      modifies this, buffer
      ensures Kept() && depth == old(depth)
      ensures ok <==> old(offset) + |Quote(input)| + 2 <= Limit()
      ensures ok ==> Terminated(old(Contents()), Quote(input)) && offset == old(offset)
    {
      hide Escape;
      var escapeCharacters := CountEscapes(input);
      var outputLength := |input| + escapeCharacters;
      if escapeCharacters == 0 {
        NothingEscaped(input);
        ok := PrintText([QUOTE] + input + [QUOTE]);
        return;
      }
      ok := PrintEscaped(input, outputLength);
    }

    method PrintEscaped(input: seq<byte>, outputLength: nat) returns (ok: bool)
      requires Valid() && NUL !in input && outputLength == |Escape(input)|
      modifies this, buffer
      ensures Kept() && depth == old(depth)
      ensures ok <==> old(offset) + |Quote(input)| + 2 <= Limit()
      ensures ok ==> Terminated(old(Contents()), Quote(input)) && offset == old(offset)
    {
      hide Escape;
      ok := Ensure(outputLength + 3);
      if !ok {
        return;
      }
      ghost var cur, e := Contents(), Escape(input);
      assert cur == old(Contents());
      Store(offset, [QUOTE]);
      WriteEscaped(input, offset + 1);
      CloseQuotes(offset + outputLength + 1, cur, e);
    }

    method CloseQuotes(at: nat, ghost cur: seq<byte>, ghost e: seq<byte>)
      requires Sized() && offset == |cur| && at == |cur| + 1 + |e| && at + 1 < length
      requires buffer[..at] == cur + [QUOTE] + e
      modifies buffer
      ensures Terminated(cur, [QUOTE] + e + [QUOTE])
    {
      Store(at, [QUOTE]);
      Join3(cur, [QUOTE], e, [QUOTE]);
      buffer[at + 1] := NUL;
    }

    // ----- values -----

    /** Bytes with room for needed bytes and a NUL; the offset moves behind them. */
    method Append(t: seq<byte>, needed: nat) returns (ok: bool)
      requires Valid() && |t| <= needed
      modifies this, buffer
      ensures Kept() && depth == old(depth)
      ensures ok <==> old(offset) + needed + 1 <= Limit()
      ensures ok ==> Valid() && offset < length && Contents() == old(Contents()) + t
    {
      ok := Ensure(needed);
      if ok {
        assert Contents() == old(Contents());
        Store(offset, t);
        offset := offset + |t|;
      }
    }

    /** print_value, for an item that shows a value. */
    method PrintValue(item: Item, ghost v: View) returns (ok: bool)
      requires Valid() && Shows(item, v) && Printable(v.value)
      modifies this, buffer
      ensures Kept()
      ensures ok <==> old(offset) + |Render(v.value, format, old(depth))| + 2 <= Limit()
      ensures ok ==> Terminated(old(Contents()), Render(v.value, format, old(depth))) && depth == old(depth)
      decreases v.value, 1
    {
      match item.kind
      case NullKind => ok := PrintText(NULL_TEXT);
      case FalseKind => ok := PrintText(FALSE_TEXT);
      case TrueKind => ok := PrintText(TRUE_TEXT);
      case NumberKind =>
        var number := Decimal(item.valuedouble);
        ok := PrintText(number);
        if ok {
          offset := offset + |number|;
        }
      case StringKind => ok := PrintStringPtr(item.valuestring);
      case ArrayKind => ok := PrintArray(item, v);
      case ObjectKind => ok := PrintObject(item, v);
    }

    /** One round of the loop of print_array. */
    method PrintItem(current: Item, ghost kid: View, ghost items: seq<Json>, ghost i: nat) returns (ok: bool)
      requires Valid() && i < |items| && Shows(current, kid) && kid.value == items[i] && Printable(items[i])
      requires current.next != null <==> i + 1 < |items|
      modifies this, buffer
      ensures Kept()
      ensures var piece := ItemText(items, i, format, old(depth));
        && (ok <==> old(offset) + |piece| + 2 <= Limit())
        && (ok ==> Valid() && Contents() == old(Contents()) + piece && depth == old(depth))
      decreases items, 0
    {
      hide Render, Printable, Shows;
      ghost var cur, t := Contents(), Render(items[i], format, depth);
      ok := PrintValue(current, kid);
      if !ok {
        return;
      }
      TextHasNoNul(items[i], format, depth);
      UpdateOffset(cur, t);
      if current.next != null {
        ok := PrintSeparator(cur, t);
      }
    }

    /** The comma between two items. */
    method PrintSeparator(ghost cur: seq<byte>, ghost t: seq<byte>) returns (ok: bool)
      requires Valid() && Contents() == cur + t
      modifies this, buffer
      ensures Kept() && depth == old(depth)
      ensures var separator := ItemEnd(false, format);
        && (ok <==> |cur| + |t + separator| + 2 <= Limit())
        && (ok ==> Valid() && Contents() == cur + (t + separator))
    {
      var separator := ItemEnd(false, format);
      Join2(cur, t, separator);
      ok := Append(separator, |separator| + 1);
      if ok {
        buffer[offset] := NUL;
      }
    }

    /** The same, with what it means for the text of the whole loop. */
    method ItemRound(current: Item, ghost item: Item, ghost v: View, ghost i: nat,
                     ghost base: seq<byte>, ghost text: seq<byte>)
      returns (ok: bool, next: Item?)
      requires Valid() && Shows(item, v) && item.kind == ArrayKind && v.value.Array? && Printable(v.value)
      requires i < |v.value.items| == |v.shape.kids| && current == v.shape.kids[i].item
      requires Halfway(base, text, Contents(), RenderItems(v.value.items[i..], format, depth))
      modifies this, buffer
      ensures Kept() && Shows(item, v)
      ensures ok ==> Valid() && offset + 2 <= Limit() && depth == old(depth)
      ensures ok ==> Halfway(base, text, Contents(), RenderItems(v.value.items[i + 1..], format, depth))
      ensures !ok ==> |base| + |text| + 2 > Limit()
      ensures next == if i + 1 < |v.value.items| then v.shape.kids[i + 1].item else null
      decreases v.value.items, 1
    {
      hide Render, RenderItems, ItemText, Shows, Halfway;
      ItemsNext(v.value.items, i, format, depth);
      ghost var piece := ItemText(v.value.items, i, format, depth);
      OnePiece(base, text, Contents(), piece, RenderItems(v.value.items[i + 1..], format, depth));
      KidsShow(item, v);
      assert KidShows(v, i);
      ok := PrintItem(current, Kid(v, i), v.value.items, i);
      next := current.next;
    }

    /** The loop of print_array. */
    method PrintItems(item: Item, ghost v: View, ghost text: seq<byte>) returns (ok: bool)
      requires Valid() && Shows(item, v) && item.kind == ArrayKind && Printable(v.value) && v.value.Array?
      requires text == RenderItems(v.value.items, format, depth)
      modifies this, buffer
      ensures Kept()
      ensures ok <==> v.value.items == [] || old(offset) + |text| + 2 <= Limit()
      ensures ok ==> Valid() && Contents() == old(Contents()) + text && depth == old(depth)
      decreases v.value.items, 2
    {
      KidsShow(item, v);
      ghost var items := v.value.items;
      ghost var base := Contents();
      assert items[0..] == items;
      Start(base, text);
      hide Halfway;
      hide Render, RenderItems, ItemText, Shows, Printable;
      var current := item.child;
      ghost var i := 0;
      ok := true;
      while current != null
        invariant Valid() && Kept() && depth == old(depth)
        invariant i <= |items| && (i > 0 ==> offset + 2 <= Limit())
        invariant Halfway(base, text, Contents(), RenderItems(items[i..], format, depth))
        invariant Shows(item, v) && current == if i < |items| then v.shape.kids[i].item else null
        decreases |items| - i
      {
        ok, current := ItemRound(current, item, v, i, base, text);
        if !ok {
          return;
        }
        i := i + 1;
      }
      ItemsEnd(items, format, depth);
      Finish(base, text, Contents());
    }

    /** The closing bracket or brace, after what was printed since cur. */
    method Close(ghost cur: seq<byte>, ghost open: seq<byte>, ghost body: seq<byte>, close: seq<byte>)
      returns (ok: bool)
      requires Valid() && depth > 0 && Contents() == cur + open + body
      modifies this, buffer
      ensures Kept()
      ensures ok <==> |cur| + |open| + |body| + |close| + 2 <= Limit()
      ensures ok ==> Terminated(cur, open + body + close) && depth == old(depth) - 1
    {
      ok := PrintText(close);
      if ok {
        Widen(cur, open, body, close);
        depth := depth - 1;
      }
    }

    /** The opening bracket or brace, and one level deeper. */
    method Open(open: seq<byte>, needed: nat) returns (ok: bool)
      requires Valid() && |open| <= needed
      modifies this, buffer
      ensures Kept()
      ensures ok <==> old(offset) + needed + 1 <= Limit()
      ensures ok ==> Valid() && offset < length && Contents() == old(Contents()) + open && depth == old(depth) + 1
    {
      ok := Append(open, needed);
      if ok {
        depth := depth + 1;
      }
    }

    /** An array between its brackets. */
    method ArrayBetween(item: Item, ghost v: View, ghost body: seq<byte>) returns (ok: bool)
      requires Valid() && Shows(item, v) && item.kind == ArrayKind && Printable(v.value) && v.value.Array?
      requires body == RenderItems(v.value.items, format, depth + 1) && (v.value.items == [] ==> body == [])
      modifies this, buffer
      ensures Kept()
      ensures ok <==> old(offset) + |body| + 4 <= Limit()
      ensures ok ==> Terminated(old(Contents()), [LBRACKET] + body + [RBRACKET]) && depth == old(depth)
      decreases v.value, 0, 0
    {
      hide Render, RenderItems, Printable, Shows;
      ghost var base := Contents();
      ok := Open([LBRACKET], 1);
      if !ok {
        return;
      }
      ok := PrintItems(item, v, body);
      if !ok {
        return;
      }
      ok := Close(base, [LBRACKET], body, [RBRACKET]);
    }

    method PrintArray(item: Item, ghost v: View) returns (ok: bool)
      requires Valid() && Shows(item, v) && item.kind == ArrayKind && Printable(v.value)
      modifies this, buffer
      ensures Kept()
      ensures ok <==> old(offset) + |Render(v.value, format, old(depth))| + 2 <= Limit()
      ensures ok ==> Terminated(old(Contents()), Render(v.value, format, old(depth))) && depth == old(depth)
      decreases v.value, 0, 1
    {
      KidsShow(item, v);
      ArrayText(v.value.items, format, depth);
      hide Render, RenderItems, Printable, Shows;
      ok := ArrayBetween(item, v, RenderItems(v.value.items, format, depth + 1));
    }

    /** What stands before a member's value: the tabs, the key and the colon. */
    method PrintName(key: seq<byte>) returns (ok: bool)
      requires Valid() && NUL !in key
      modifies this, buffer
      ensures Kept() && depth == old(depth)
      ensures ok <==> old(offset) + |MemberStart(key, format, depth)| + 1 <= Limit()
      ensures ok ==> Valid() && Contents() == old(Contents()) + MemberStart(key, format, depth)
    {
      hide Quote;
      ghost var cur := Contents();
      var tabs := Tabs(if format then depth else 0);
      var colon := if format then [COLON, HT] else [COLON];
      ok := true;
      if format {
        ok := Append(tabs, depth);
        if !ok {
          return;
        }
      }
      assert Contents() == cur + tabs;
      ok := PrintStringPtr(key);
      if !ok {
        return;
      }
      QuoteHasNoNul(key);
      UpdateOffset(cur + tabs, Quote(key));
      ok := Append(colon, |colon|);
      if ok {
        Join3(cur, tabs, Quote(key), colon);
      }
    }

    /** The value of a member and what follows it. */
    method PrintMemberValue(current: Item, ghost kid: View) returns (ok: bool)
      requires Valid() && Shows(current, kid) && Printable(kid.value)
      modifies this, buffer
      ensures Kept()
      ensures var t, end := Render(kid.value, format, old(depth)), MemberEnd(old(current.next) == null, format);
        && (ok <==> old(offset) + |t| + |end| + 2 <= Limit())
        && (ok ==> Valid() && Contents() == old(Contents()) + t + end && depth == old(depth))
      decreases kid.value, 2
    {
      hide Render, Printable, Shows, MemberEnd;
      ghost var cur, t := Contents(), Render(kid.value, format, depth);
      ok := PrintValue(current, kid);
      if !ok {
        return;
      }
      TextHasNoNul(kid.value, format, depth);
      UpdateOffset(cur, t);
      var end := MemberEnd(current.next == null, format);
      ok := Append(end, |end| + 1);
      if ok {
        buffer[offset] := NUL;
      }
    }

    /** One round of the loop of print_object. */
    method PrintMember(current: Item, ghost kid: View, ghost members: seq<Member>, ghost i: nat) returns (ok: bool)
      requires Valid() && i < |members| && Shows(current, kid) && kid.value == members[i].value
      requires NUL !in members[i].key && Printable(members[i].value) && current.name == Some(members[i].key)
      requires current.next != null <==> i + 1 < |members|
      modifies this, buffer
      ensures Kept()
      ensures var piece := MemberText(members, i, format, old(depth));
        && (ok <==> old(offset) + |piece| + 2 <= Limit())
        && (ok ==> Valid() && Contents() == old(Contents()) + piece && depth == old(depth))
      decreases members, 0
    {
      TextStarts(members[i].value, format, depth);
      hide Render, Printable, Shows, MemberStart, MemberEnd;
      Join3(Contents(), MemberStart(members[i].key, format, depth), Render(members[i].value, format, depth),
            MemberEnd(i + 1 == |members|, format));
      ok := PrintName(current.name.value);
      if !ok {
        return;
      }
      ok := PrintMemberValue(current, kid);
    }

    /** The same, with what it means for the text of the whole loop. */
    method MemberRound(current: Item, ghost item: Item, ghost v: View, ghost i: nat,
                       ghost base: seq<byte>, ghost text: seq<byte>)
      returns (ok: bool, next: Item?)
      requires Valid() && Shows(item, v) && item.kind == ObjectKind && v.value.Object? && Printable(v.value)
      requires i < |v.value.members| == |v.shape.kids| && current == v.shape.kids[i].item
      requires Halfway(base, text, Contents(), RenderMembers(v.value.members[i..], format, depth))
      modifies this, buffer
      ensures Kept() && Shows(item, v)
      ensures ok ==> Valid() && offset + 2 <= Limit() && depth == old(depth)
      ensures ok ==> Halfway(base, text, Contents(), RenderMembers(v.value.members[i + 1..], format, depth))
      ensures !ok ==> |base| + |text| + 2 > Limit()
      ensures next == if i + 1 < |v.value.members| then v.shape.kids[i + 1].item else null
      decreases v.value.members, 1
    {
      hide Render, RenderMembers, MemberText, Shows, Halfway;
      MembersNext(v.value.members, i, format, depth);
      ghost var piece := MemberText(v.value.members, i, format, depth);
      OnePiece(base, text, Contents(), piece, RenderMembers(v.value.members[i + 1..], format, depth));
      KidsShow(item, v);
      assert KidShows(v, i);
      ok := PrintMember(current, Kid(v, i), v.value.members, i);
      next := current.next;
    }

    /** The loop of print_object. */
    method PrintMembers(item: Item, ghost v: View, ghost text: seq<byte>) returns (ok: bool)
      requires Valid() && Shows(item, v) && item.kind == ObjectKind && Printable(v.value) && v.value.Object?
      requires text == RenderMembers(v.value.members, format, depth)
      modifies this, buffer
      ensures Kept()
      ensures ok <==> v.value.members == [] || old(offset) + |text| + 2 <= Limit()
      ensures ok ==> Valid() && Contents() == old(Contents()) + text && depth == old(depth)
      decreases v.value.members, 2
    {
      KidsShow(item, v);
      ghost var members := v.value.members;
      ghost var base := Contents();
      assert members[0..] == members;
      Start(base, text);
      hide Halfway;
      hide Render, RenderMembers, MemberText, Shows, Printable;
      var current := item.child;
      ghost var i := 0;
      ok := true;
      while current != null
        invariant Valid() && Kept() && depth == old(depth)
        invariant i <= |members| && (i > 0 ==> offset + 2 <= Limit())
        invariant Halfway(base, text, Contents(), RenderMembers(members[i..], format, depth))
        invariant Shows(item, v) && current == if i < |members| then v.shape.kids[i].item else null
        decreases |members| - i
      {
        ok, current := MemberRound(current, item, v, i, base, text);
        if !ok {
          return;
        }
        i := i + 1;
      }
      MembersEnd(members, format, depth);
      Finish(base, text, Contents());
    }

    /** An object between its braces. */
    method ObjectBetween(item: Item, ghost v: View, open: seq<byte>, ghost body: seq<byte>, close: seq<byte>)
      returns (ok: bool)
      requires Valid() && Shows(item, v) && item.kind == ObjectKind && Printable(v.value) && v.value.Object?
      requires body == RenderMembers(v.value.members, format, depth + 1) && (v.value.members == [] ==> body == [])
      requires |open| >= 1 && |close| >= 1
      modifies this, buffer
      ensures Kept()
      ensures ok <==> old(offset) + |open| + |body| + |close| + 2 <= Limit()
      ensures ok ==> Terminated(old(Contents()), open + body + close) && depth == old(depth)
      decreases v.value, 0, 0
    {
      hide Render, RenderMembers, Printable, Shows;
      ghost var base := Contents();
      ok := Open(open, |open| + 1);
      if !ok {
        return;
      }
      ok := PrintMembers(item, v, body);
      if !ok {
        return;
      }
      ok := Close(base, open, body, close);
    }

    method PrintObject(item: Item, ghost v: View) returns (ok: bool)
      requires Valid() && Shows(item, v) && item.kind == ObjectKind && Printable(v.value)
      modifies this, buffer
      ensures Kept()
      ensures ok <==> old(offset) + |Render(v.value, format, old(depth))| + 2 <= Limit()
      ensures ok ==> Terminated(old(Contents()), Render(v.value, format, old(depth))) && depth == old(depth)
      decreases v.value, 0, 1
    {
      hide Render, RenderMembers, Shows, OpenBrace, CloseBrace;
      KidsShow(item, v);
      ObjectText(v.value.members, format, depth);
      var open, close := OpenBrace(format), CloseBrace(format, depth);
      ok := ObjectBetween(item, v, open, RenderMembers(v.value.members, format, depth + 1), close);
    }
  }

  lemma ArrayText(items: seq<Json>, fmt: bool, depth: nat)
    ensures var body := RenderItems(items, fmt, depth + 1);
      && Render(Array(items), fmt, depth) == [LBRACKET] + body + [RBRACKET]
      && |[LBRACKET] + body + [RBRACKET]| == |body| + 2 && (items == [] ==> body == [])
  {
  }

  lemma ObjectText(ms: seq<Member>, fmt: bool, depth: nat)
    ensures var (open, body, close) := (OpenBrace(fmt), RenderMembers(ms, fmt, depth + 1), CloseBrace(fmt, depth));
      && Render(Object(ms), fmt, depth) == open + body + close
      && |open + body + close| == |open| + |body| + |close| && (ms == [] ==> body == [])
      && |open| >= 1 && |close| >= 1
  {
  }

  lemma ItemsNext(items: seq<Json>, i: nat, fmt: bool, depth: nat)
    requires i < |items|
    ensures RenderItems(items[i..], fmt, depth) ==
            ItemText(items, i, fmt, depth) + RenderItems(items[i + 1..], fmt, depth)
  {
    assert items[i..][1..] == items[i + 1..];
  }

  lemma ItemsEnd(items: seq<Json>, fmt: bool, depth: nat)
    ensures RenderItems(items[|items|..], fmt, depth) == []
  {
  }

  lemma MembersNext(ms: seq<Member>, i: nat, fmt: bool, depth: nat)
    requires i < |ms|
    ensures RenderMembers(ms[i..], fmt, depth) ==
            MemberText(ms, i, fmt, depth) + RenderMembers(ms[i + 1..], fmt, depth)
  {
    assert ms[i..][1..] == ms[i + 1..];
  }

  lemma MembersEnd(ms: seq<Member>, fmt: bool, depth: nat)
    ensures RenderMembers(ms[|ms|..], fmt, depth) == []
  {
  }

  lemma QuoteHasNoNul(x: seq<byte>)
    requires NUL !in x
    ensures NUL !in Quote(x)
  {
    EscapeHasNoNul(x);
  }

  lemma TextStarts(v: Json, fmt: bool, depth: nat)
    ensures Render(v, fmt, depth) != []
  {
  }

  lemma Join3(cur: seq<byte>, a: seq<byte>, b: seq<byte>, c: seq<byte>)
    ensures cur + a + b + c == cur + (a + b + c)
    ensures |cur + (a + b + c)| == |cur| + |a| + |b| + |c|
  {
  }

  lemma Join2(cur: seq<byte>, a: seq<byte>, b: seq<byte>)
    ensures cur + a + b == cur + (a + b)
  {
  }

  /** Behind base, text has been printed up to rest. */
  ghost predicate Halfway(base: seq<byte>, text: seq<byte>, contents: seq<byte>, rest: seq<byte>) {
    contents + rest == base + text
  }

  lemma Start(base: seq<byte>, text: seq<byte>)
    ensures Halfway(base, text, base, text)
  {
  }

  lemma OnePiece(base: seq<byte>, text: seq<byte>, contents: seq<byte>, piece: seq<byte>, rest: seq<byte>)
    requires Halfway(base, text, contents, piece + rest)
    ensures Halfway(base, text, contents + piece, rest)
    ensures |contents| + |piece| <= |base| + |text| && (rest == [] ==> |contents| + |piece| == |base| + |text|)
  {
    assert contents + (piece + rest) == contents + piece + rest;
    assert |contents + (piece + rest)| == |base + text|;
  }

  lemma Finish(base: seq<byte>, text: seq<byte>, contents: seq<byte>)
    requires Halfway(base, text, contents, [])
    ensures contents == base + text
  {
    assert contents + [] == contents;
  }

  /** The counting loop of print_string_ptr. */
  method CountEscapes(input: seq<byte>) returns (escapeCharacters: nat)
    requires NUL !in input
    ensures |input| + escapeCharacters == |Escape(input)|
  {
    escapeCharacters := 0;
    assert input[0..] == input;
    for i := 0 to |input|
      invariant i + escapeCharacters + |Escape(input[i..])| == |Escape(input)|
    {
      EscapeNext(input, i);
      var c := input[i];
      if c == QUOTE || c == BACKSLASH || c == BACKSPACE || c == FORM_FEED || c == LF || c == CR || c == HT {
        escapeCharacters := escapeCharacters + 1;
      } else if c < 32 {
        escapeCharacters := escapeCharacters + 5;
      }
    }
  }

  // ----- the three ways to print -----

  /** cJSON_Print and cJSON_PrintUnformatted: from a buffer of 256 bytes, cut to size in the end. */
  method Print(item: Item, ghost v: View, format: bool) returns (printed: array?<byte>)
    requires Shows(item, v) && Printable(v.value)
    ensures var t := Render(v.value, format, 0);
      && (printed != null <==> |t| + 2 <= INT_MAX)
      && (printed != null ==> printed[..] == t + [NUL])
  {
    hide Render, Printable, Shows;
    ghost var t := Render(v.value, format, 0);
    TextHasNoNul(v.value, format, 0);
    var buffer := new byte[DEFAULT_BUFFER_SIZE];
    var p := new PrintBuffer(buffer, false, format);
    var ok := p.PrintValue(item, v);
    if !ok {
      return null;
    }
    printed := CutOut(p, t);
  }

  /** The text of a buffer, cut to size. */
  method CutOut(p: PrintBuffer, ghost t: seq<byte>) returns (printed: array<byte>)
    requires p.Sized() && p.offset <= p.buffer.Length && NUL !in t && p.Terminated([], t)
    modifies p`offset
    ensures printed[..] == t + [NUL]
  {
    p.UpdateOffset([], t);
    assert [] + t == t;
    printed := CutToSize(p.buffer, p.offset);
    assert p.buffer[..p.offset + 1] == t + [NUL];
  }

  /** realloc to the length of the text and its NUL. */
  method CutToSize(buffer: array<byte>, n: nat) returns (printed: array<byte>)
    requires n < buffer.Length
    ensures printed[..] == buffer[..n + 1]
  {
    printed := new byte[n + 1];
    forall k | 0 <= k < printed.Length {
      printed[k] := buffer[k];
    }
  }

  /** cJSON_PrintBuffered: the size to start from is only a guess. */
  method PrintBuffered(item: Item, ghost v: View, prebuffer: int, fmt: bool) returns (printed: array?<byte>)
    requires Shows(item, v) && Printable(v.value) && prebuffer <= INT_MAX
    ensures var t := Render(v.value, fmt, 0);
      && (printed != null <==> prebuffer >= 0 && |t| + 2 <= INT_MAX)
      && (printed != null ==> |t| < printed.Length && printed[..|t|] == t && printed[|t|] == NUL)
  {
    hide Render, Printable, Shows;
    if prebuffer < 0 {
      return null;
    }
    var buffer := new byte[prebuffer];
    var p := new PrintBuffer(buffer, false, fmt);
    var ok := p.PrintValue(item, v);
    assert [] + Render(v.value, fmt, 0) == Render(v.value, fmt, 0);
    return if ok then p.buffer else null;
  }

  /** cJSON_PrintPreallocated: it succeeds exactly when the buffer has one byte more than the text and
      its NUL take; the header asks for five. */
  method PrintPreallocated(item: Item, ghost v: View, buffer: array?<byte>, length: int, format: bool)
    returns (ok: bool)
    requires Shows(item, v) && Printable(v.value) && length <= INT_MAX
    requires buffer != null && length >= 0 ==> buffer.Length == length
    modifies buffer
    ensures var t := Render(v.value, format, 0);
      && (ok <==> buffer != null && length >= |t| + 2)
      && (ok ==> buffer[..|t|] == t && buffer[|t|] == NUL)
  {
    hide Render, Printable, Shows;
    if length < 0 || buffer == null {
      return false;
    }
    var p := new PrintBuffer(buffer, true, format);
    ok := p.PrintValue(item, v);
    assert [] + Render(v.value, format, 0) == Render(v.value, format, 0);
  }
}
