/** The parser of srv/lib/c_json.c on its parse buffer: every method moves the offset exactly as the
    functions of JsonGrammar say. */
module JsonParser {
  import opened Bytes
  import opened JsonStrings
  import opened JsonText
  import opened JsonGrammar
  import opened JsonItems
  import opened JsonTrees
  import opened Wrappers

  /** What a method of the parse buffer has done for an item, against the grammar: it now is the root
      of a tree that stands for the value. */
  ghost predicate Parsed(ok: bool, offset: nat, item: Item, sh: Shape, below: set<Item>, spec: Parse<Json>)
    reads item`kind, item`child, item`valuedouble, item`valuestring, below
  {
    match spec
    case Fail => !ok
    case Done(v, next) =>
      && ok && offset == next && sh.item == item && item !in below
      && Tree(sh, below) && Value(sh, below) == v
  }

  // ----- strings -----

  /** The first n digits at i. */
  function HexPrefix(s: seq<byte>, i: nat, n: nat): (h: int)
    requires i + n <= |s|
    ensures (forall k :: i <= k < i + n ==> DecodeHex(s[k]) != -1) ==> h >= 0
  {
    if n == 0 then 0 else HexPrefix(s, i, n - 1) * 16 + DecodeHex(s[i + n - 1])
  }

  /** parse_hex4. */
  method ParseHex4(s: seq<byte>, i: nat) returns (h: nat)
    requires i + 4 <= |s|
    ensures h == Hex4(s, i)
    ensures if AreHex4(s, i) then IsHex4(s, i, h) else h == 0
  {
    hide Hex4, IsHex, IsHex4;
    Hex4Exactly(s, i);
    h := 0;
    for k := 0 to 4
      invariant forall j :: i <= j < i + k ==> DecodeHex(s[j]) != -1
      invariant h == if k < 4 then HexPrefix(s, i, k) * 16 else HexPrefix(s, i, 4)
    {
      var digit := DecodeHex(s[i + k]);
      OnlyHexDecodes(s[i + k]);
      if digit == -1 {
        return 0;
      }
      h := h + digit;
      if k < 3 {
        h := h * 16;
      }
    }
    HexPrefixIsHex4(s, i);
  }

  lemma HexPrefixIsHex4(s: seq<byte>, i: nat)
    requires i + 4 <= |s| && forall j :: i <= j < i + 4 ==> DecodeHex(s[j]) != -1
    ensures HexPrefix(s, i, 4) == Hex4(s, i)
  {
    assert HexPrefix(s, i, 1) == DecodeHex(s[i]);
    assert HexPrefix(s, i, 2) == DecodeHex(s[i]) * 16 + DecodeHex(s[i + 1]);
    assert HexPrefix(s, i, 3) == (DecodeHex(s[i]) * 16 + DecodeHex(s[i + 1])) * 16 + DecodeHex(s[i + 2]);
  }

  /** n right shifts by six bits. */
  function Shifted(cp: nat, n: nat): nat {
    if n == 0 then cp else Shifted(cp, n - 1) / 64
  }

  lemma ShiftedBytes(cp: nat, k: nat)
    requires cp < 0x11_0000 && k < |Utf8(cp)|
    ensures k > 0 ==> Utf8(cp)[k] == 0x80 + Shifted(cp, |Utf8(cp)| - 1 - k) % 64
    ensures k == 0 ==> Utf8(cp)[0] == Mark(|Utf8(cp)|) + Shifted(cp, |Utf8(cp)| - 1)
  {
    assert Shifted(cp, 1) == cp / 64;
    assert Shifted(cp, 2) == cp / 4096;
    assert Shifted(cp, 3) == cp / 262144;
  }

  lemma ShiftsStart(cp: nat)
    ensures Shifted(cp, 0) == cp
  {
  }

  lemma ShiftsOn(cp: nat, n: nat)
    ensures Shifted(cp, n + 1) == Shifted(cp, n) / 64
  {
  }

  /** first_byte_mark. */
  function Mark(length: nat): nat {
    if length <= 1 then 0 else if length == 2 then 0xC0 else if length == 3 then 0xE0 else 0xF0
  }

  /** The encoding part of utf16_literal_to_utf8: from the last byte to the first. */
  method EncodeUtf8(codepoint: nat, output: array<byte>, outputPointer: nat) returns (pointer: nat)
    requires codepoint < 0x11_0000 && outputPointer + |Utf8(codepoint)| <= output.Length
    modifies output
    ensures pointer == outputPointer + |Utf8(codepoint)|
    ensures output[..pointer] == old(output[..outputPointer]) + Utf8(codepoint)
  {
    hide Utf8, Shifted;
    ghost var bytes := Utf8(codepoint);
    var length: nat :=
      if codepoint < 0x80 then 1 else if codepoint < 0x800 then 2 else if codepoint < 0x1_0000 then 3 else 4;
    JsonStrings.Utf8RoundTrip(codepoint);
    ShiftsStart(codepoint);
    var rest := codepoint;
    var position := length - 1;
    while position > 0
      invariant 0 <= position < length && rest == Shifted(codepoint, length - 1 - position)
      invariant output[..outputPointer] == old(output[..outputPointer])
      invariant forall k :: position < k < length ==> output[outputPointer + k] == bytes[k]
    {
      ShiftedBytes(codepoint, position);
      ShiftsOn(codepoint, length - 1 - position);
      output[outputPointer + position] := 0x80 + rest % 64;
      rest := rest / 64;
      position := position - 1;
    }
    ShiftedBytes(codepoint, 0);
    output[outputPointer] := Mark(length) + rest;
    pointer := outputPointer + length;
  }

  /** utf16_literal_to_utf8: 0 when the literal is refused, and then nothing is written. */
  method Utf16LiteralToUtf8(content: seq<byte>, inputPointer: nat, inputEnd: nat,
                            output: array<byte>, outputPointer: nat)
    returns (sequenceLength: nat, pointer: nat)
    requires inputEnd <= |content| && outputPointer <= output.Length
    requires var l := Literal(content, inputPointer, inputEnd);
             l.Some? ==> outputPointer + |l.value.0| <= output.Length
    modifies output
    ensures match Literal(content, inputPointer, inputEnd)
            case None => sequenceLength == 0 && pointer == outputPointer && output[..] == old(output[..])
            case Some(l) =>
              && sequenceLength == l.1 && pointer == outputPointer + |l.0|
              && output[..pointer] == old(output[..outputPointer]) + l.0
  {
    hide Hex4, Utf8, IsHex4, AreHex4;
    if inputEnd - inputPointer < 6 {
      return 0, outputPointer;
    }
    var firstCode := ParseHex4(content, inputPointer + 2);
    var codepoint := firstCode;
    if IsLowSurrogate(firstCode) {
      return 0, outputPointer;
    }
    if IsHighSurrogate(firstCode) {
      sequenceLength := 12;
      var secondSequence := inputPointer + 6;
      if inputEnd - secondSequence < 6 {
        return 0, outputPointer;
      }
      if content[secondSequence] != BACKSLASH || content[secondSequence + 1] != 117 {
        return 0, outputPointer;
      }
      var secondCode := ParseHex4(content, secondSequence + 2);
      if !IsLowSurrogate(secondCode) {
        return 0, outputPointer;
      }
      codepoint := FromSurrogates(firstCode, secondCode);
    } else {
      sequenceLength := 6;
    }
    pointer := EncodeUtf8(codepoint, output, outputPointer);
  }

  /** One round of the second loop of parse_string: 0 when the escape is refused. */
  method UnescapeOne(content: seq<byte>, inputPointer: nat, inputEnd: nat, output: array<byte>, outputPointer: nat)
    returns (sequenceLength: nat, pointer: nat)
    requires inputPointer < inputEnd < |content| && outputPointer <= output.Length
    requires var d := Decode1(content, inputPointer, inputEnd);
             d.Some? ==> outputPointer + |d.value.0| <= output.Length
    modifies output
    ensures match Decode1(content, inputPointer, inputEnd)
            case None => sequenceLength == 0
            case Some(d) =>
              && sequenceLength == d.1 && pointer == outputPointer + |d.0|
              && output[..pointer] == old(output[..outputPointer]) + d.0
  {
    hide Literal;
    sequenceLength, pointer := 2, outputPointer;
    if content[inputPointer] != BACKSLASH {
      output[outputPointer] := content[inputPointer];
      return 1, outputPointer + 1;
    }
    var c := content[inputPointer + 1];
    if c == 117 {
      sequenceLength, pointer := Utf16LiteralToUtf8(content, inputPointer, inputEnd, output, outputPointer);
      return;
    }
    if c == 98 {
      output[outputPointer] := BACKSPACE;
    } else if c == 102 {
      output[outputPointer] := FORM_FEED;
    } else if c == 110 {
      output[outputPointer] := LF;
    } else if c == 114 {
      output[outputPointer] := CR;
    } else if c == 116 {
      output[outputPointer] := HT;
    } else if c == QUOTE || c == BACKSLASH || c == SLASH {
      output[outputPointer] := c;
    } else {
      return 0, outputPointer;
    }
    pointer := outputPointer + 1;
  }

  /** The first loop of parse_string: the closing quote and the bytes skipped, or no quote at all. */
  method ScanString(content: seq<byte>, start: nat) returns (found: bool, inputEnd: nat, skippedBytes: nat)
    requires start <= |content|
    ensures found == ScanEnd(content, start).Some?
    ensures found ==> Some(inputEnd) == ScanEnd(content, start)
    ensures found ==> (inputEnd - start) - skippedBytes == Tokens(content, start)
  {
    inputEnd, skippedBytes := start, 0;
    while inputEnd < |content| && content[inputEnd] != QUOTE
      invariant start <= inputEnd <= |content|
      invariant ScanEnd(content, start) == ScanEnd(content, inputEnd)
      invariant ScanEnd(content, start).Some? ==>
                  (inputEnd - start) - skippedBytes + Tokens(content, inputEnd) == Tokens(content, start)
    {
      if content[inputEnd] == BACKSLASH {
        if inputEnd + 1 >= |content| {
          return false, inputEnd, skippedBytes;
        }
        skippedBytes := skippedBytes + 1;
        inputEnd := inputEnd + 1;
      }
      inputEnd := inputEnd + 1;
    }
    found := inputEnd < |content|;
  }

  /** What is found at the address of a NUL-terminated string does not depend on what follows the NUL. */
  lemma {:induction false} CStringStops(x: seq<byte>, rest: seq<byte>)
    ensures CString(x + [NUL] + rest) == CString(x)
  {
    var t := x + [NUL] + rest;
    if x != [] {
      assert t[0] == x[0] && t[1..] == x[1..] + [NUL] + rest;
      CStringStops(x[1..], rest);
    }
  }

  lemma UnescapeRound(s: seq<byte>, i: nat, end: nat)
    requires i < end < |s|
    ensures Unescape(s, i, end) ==
      (match Decode1(s, i, end)
       case None => None
       case Some(d) =>
         match Unescape(s, i + d.1, end)
         case None => None
         case Some(rest) => Some(d.0 + rest))
  {
  }

  /** The second loop of parse_string. The output has been given the rounds of the first loop and two
      bytes more; every write stays inside it, whatever the escapes are. */
  method UnescapeAll(content: seq<byte>, start: nat, inputEnd: nat, output: array<byte>)
    returns (ok: bool, outputPointer: nat, inputPointer: nat)
    requires ScanEnd(content, start) == Some(inputEnd) && output.Length == Tokens(content, start) + 2
    modifies output
    ensures outputPointer + 2 <= output.Length && start <= inputPointer <= inputEnd + 1
    ensures match Unescape(content, start, inputEnd)
            case None => !ok
            case Some(x) => ok && output[..outputPointer] == x
  {
    hide Decode1, ScanEnd, Tokens;
    inputPointer, outputPointer, ok := start, 0, true;
    ghost var mid := false;
    ghost var whole := Unescape(content, start, inputEnd);
    assert whole.Some? ==> output[..0] + whole.value == whole.value;
    while inputPointer < inputEnd
      invariant start <= inputPointer <= inputEnd + 1 && outputPointer <= Tokens(content, start)
      invariant inputPointer <= inputEnd ==> OnTrack(content, inputPointer, inputEnd, mid)
      invariant inputPointer <= inputEnd ==>
                  outputPointer + Room(content, inputPointer, inputEnd, mid) <= Tokens(content, start)
      invariant match Unescape(content, inputPointer, inputEnd)
                case None => whole == None
                case Some(rest) => whole == Some(output[..outputPointer] + rest)
      decreases inputEnd - inputPointer
    {
      UnescapeRound(content, inputPointer, inputEnd);
      if Decode1(content, inputPointer, inputEnd).Some? {
        mid := RoundFits(content, inputPointer, inputEnd, mid);
      }
      ghost var done := output[..outputPointer];
      var sequenceLength, pointer := UnescapeOne(content, inputPointer, inputEnd, output, outputPointer);
      if sequenceLength == 0 {
        return false, outputPointer, inputPointer;
      }
      Reassociate(done, Decode1(content, inputPointer, inputEnd).value.0);
      inputPointer, outputPointer := inputPointer + sequenceLength, pointer;
    }
  }

  lemma Reassociate(a: seq<byte>, b: seq<byte>)
    ensures forall c: seq<byte> :: a + (b + c) == (a + b) + c
  {
  }

  // ----- numbers -----

  /** strtod on the first length bytes of a C string, on an optional minus sign and digits: the value
      and the number of characters used, 0 if there is no digit. The C string is a copy of the text
      from i on. */
  method Strtod(cString: array<byte>, length: nat, ghost s: seq<byte>, ghost i: nat) returns (n: int, used: nat)
    requires length < cString.Length && i + length <= |s|
    requires forall k :: 0 <= k < length ==> cString[k] == s[i + k]
    ensures used <= length
    ensures var d := if length > 0 && s[i] == MINUS then i + 1 else i;
            var e := DigitsEnd(s, d, i + length);
            var value: int := DecimalValue(s, d, e);
            if e == d then used == 0
            else used == e - i && n == if d == i then value else -value
  {
    var start := if length > 0 && cString[0] == MINUS then 1 else 0;
    used, n := start, 0;
    while used < length && IsDigit(cString[used])
      invariant start <= used <= length && n >= 0
      invariant forall k :: i + start <= k < i + used ==> IsDigit(s[k])
      invariant DigitsEnd(s, i + start, i + length) == DigitsEnd(s, i + used, i + length)
      invariant n == DecimalValue(s, i + start, i + used)
    {
      assert cString[used] == s[i + used];
      n := n * 10 + (cString[used] - ZERO);
      used := used + 1;
    }
    assert used < length ==> cString[used] == s[i + used];
    if used == start {
      return 0, 0;
    }
    if start == 1 {
      n := -n;
    }
  }

  lemma RunStep(s: seq<byte>, i: nat, k: nat)
    requires i <= |s|
    ensures RunEnd(s, i, k) == if k > 0 && i < |s| && IsNumberChar(s[i]) then RunEnd(s, i + 1, k - 1) else i
  {
  }

  // ----- the parse buffer -----

  /** More items, once some have been read. */
  function Prepend<T>(done: seq<T>, rest: Parse<seq<T>>): Parse<seq<T>> {
    match rest
    case Fail => Fail
    case Done(more, next) => Done(done + more, next)
  }

  lemma PrependNothing<T>(rest: Parse<seq<T>>)
    ensures Prepend([], rest) == rest
  {
    if rest.Done? {
      assert [] + rest.value == rest.value;
    }
  }

  lemma PrependOne<T>(done: seq<T>, v: T, rest: Parse<seq<T>>)
    ensures Prepend(done, Prepend([v], rest)) == Prepend(done + [v], rest)
  {
    if rest.Done? {
      assert done + ([v] + rest.value) == done + [v] + rest.value;
    }
  }

  /** The rest of an array or object where the value just read is followed by offset k. */
  function AfterItem<T>(s: seq<byte>, k: nat, closing: byte, done: seq<T>, more: Parse<seq<T>>): Parse<seq<T>>
    requires k <= |s|
  {
    if k < |s| && s[k] == COMMA then Prepend(done, more) else Closed(s, k, closing, done)
  }

  /** The end of an array or object. */
  function Closed<T>(s: seq<byte>, k: nat, closing: byte, done: seq<T>): Parse<seq<T>> {
    if k < |s| && s[k] == closing then Done(done, k + 1) else Fail
  }

  class ParseBuffer {
    const content: seq<byte>
    var offset: nat
    var depth: nat

    constructor (text: seq<byte>)
      ensures content == text && offset == 0 && depth == 0
    {
      content, offset, depth := text, 0, 0;
    }

    /** The offset is in the buffer or at its end, and the last byte is NUL. */
    ghost predicate Valid()
      reads `offset
    {
      content != [] && content[|content| - 1] == NUL && offset <= |content|
    }

    method BufferSkipWhitespace()
      requires Valid()
      modifies `offset
      ensures Valid() && offset == Skip(content, old(offset))
      ensures old(offset) < |content| ==> offset < |content|
    {
      if offset >= |content| {
        return;
      }
      while offset < |content| && content[offset] <= 32
        invariant old(offset) <= offset <= |content|
        invariant BlanksEnd(content, offset) == BlanksEnd(content, old(offset))
      {
        offset := offset + 1;
      }
      if offset == |content| {
        offset := offset - 1;
      }
    }

    /** Copies what can belong to a number into a C string of 64 bytes. */
    method CopyNumber(numberCString: array<byte>) returns (i: nat)
      requires Valid() && numberCString.Length == NUMBER_LENGTH + 1
      modifies numberCString
      ensures i <= NUMBER_LENGTH && offset + i == RunEnd(content, offset, NUMBER_LENGTH)
      ensures forall k :: 0 <= k < i ==> numberCString[k] == content[offset + k]
    {
      hide RunEnd;
      i := 0;
      while i < NUMBER_LENGTH && offset + i < |content| && IsNumberChar(content[offset + i])
        invariant i <= NUMBER_LENGTH && offset + i <= |content|
        invariant RunEnd(content, offset, NUMBER_LENGTH) == RunEnd(content, offset + i, NUMBER_LENGTH - i)
        invariant forall k :: 0 <= k < i ==> numberCString[k] == content[offset + k]
      {
        RunStep(content, offset + i, NUMBER_LENGTH - i);
        numberCString[i] := content[offset + i];
        i := i + 1;
      }
      RunStep(content, offset + i, NUMBER_LENGTH - i);
      numberCString[i] := NUL;
    }

    method ParseNumber(item: Item) returns (ok: bool, ghost sh: Shape)
      requires Valid() && item.child == null
      modifies `offset, item`kind, item`valuedouble
      ensures Valid() && Parsed(ok, offset, item, sh, {}, JsonGrammar.ParseNumber(content, old(offset)))
    {
      hide RunEnd, DigitsEnd, DecimalValue;
      sh := Shape(item, []);
      var numberCString := new byte[NUMBER_LENGTH + 1];
      var i := CopyNumber(numberCString);
      var number, used := Strtod(numberCString, i, content, offset);
      if used == 0 {
        return false, sh;
      }
      item.valuedouble := number;
      item.kind := NumberKind;
      offset := offset + used;
      return true, sh;
    }

    /** parse_string: the value is what a reader of the NUL-terminated output finds. */
    method ParseString(item: Item) returns (ok: bool)
      requires Valid() && offset < |content|
      modifies `offset, item`kind, item`valuestring
      ensures Valid()
      ensures match JsonStrings.ParseString(content, old(offset))
              case None => !ok
              case Some(p) => ok && item.kind == StringKind && item.valuestring == p.0 && offset == p.1
    {
      hide ScanEnd, Tokens, Unescape;
      var start := offset + 1;
      if content[offset] != QUOTE {
        offset := start;
        return false;
      }
      var found, inputEnd, skippedBytes := ScanString(content, start);
      if !found {
        offset := start;
        return false;
      }
      var allocationLength := (inputEnd - offset) - skippedBytes;
      var output := new byte[allocationLength + 1];
      var outputPointer, inputPointer;
      ok, outputPointer, inputPointer := UnescapeAll(content, start, inputEnd, output);
      if !ok {
        offset := inputPointer;
        return false;
      }
      output[outputPointer] := NUL;
      CStringStops(output[..outputPointer], output[outputPointer + 1..]);
      assert output[..] == output[..outputPointer] + [NUL] + output[outputPointer + 1..];
      item.kind := StringKind;
      item.valuestring := CString(output[..]);
      offset := inputEnd + 1;
    }

    method SkipUtf8Bom()
      requires Valid() && offset == 0
      modifies `offset
      ensures Valid() && offset == SkipBom(content)
    {
      if 4 < |content| && content[..3] == BOM {
        offset := offset + 3;
      }
    }

    method ParseValue(item: Item) returns (ok: bool, ghost sh: Shape, ghost below: set<Item>)
      requires Valid() && item.child == null
      modifies `offset, `depth, item`kind, item`valuedouble, item`valuestring, item`child
      ensures Valid() && fresh(below) && (ok ==> depth == old(depth))
      ensures Parsed(ok, offset, item, sh, below, JsonGrammar.ParseValue(content, old(offset), old(depth)))
      decreases |content| - offset, 3
    {
      hide JsonGrammar.ParseNumber, JsonStrings.ParseString, JsonGrammar.ParseArray, JsonGrammar.ParseObject;
      sh, below := Shape(item, []), {};
      if Reads(content, offset, NULL_TEXT) {
        item.kind := NullKind;
        offset := offset + 4;
        return true, sh, below;
      }
      if Reads(content, offset, FALSE_TEXT) {
        item.kind := FalseKind;
        offset := offset + 5;
        return true, sh, below;
      }
      if Reads(content, offset, TRUE_TEXT) {
        item.kind := TrueKind;
        offset := offset + 4;
        return true, sh, below;
      }
      if offset < |content| && content[offset] == QUOTE {
        ok := ParseString(item);
        return ok, sh, below;
      }
      if offset < |content| && (content[offset] == MINUS || IsDigit(content[offset])) {
        ok, sh := ParseNumber(item);
        return ok, sh, below;
      }
      if offset < |content| && content[offset] == LBRACKET {
        ok, sh, below := ParseArray(item);
        return;
      }
      if offset < |content| && content[offset] == LBRACE {
        ok, sh, below := ParseObject(item);
        return;
      }
      return false, sh, below;
    }

    // ----- arrays -----

    /** A new item is linked to the list. */
    method StartItem(current: Item?, ghost kids: seq<Shape>, ghost all: set<Item>,
                     ghost values: seq<Json>, ghost names: seq<Name>) returns (newItem: Item)
      requires Valid() && offset < |content| && Partial(kids, all, values, names) && current == Last(Roots(kids))
      modifies `offset, Roots(kids)`next
      ensures Valid() && offset == Skip(content, old(offset) + 1)
      ensures fresh(newItem) && newItem.child == null && newItem.name == None
      ensures Strung(Roots(kids) + [newItem]) && Grown(kids, all, values, names)
    {
      hide Skip, Tree, Value, Strung, Grown;
      newItem := new Item(NullKind);
      Attach(current, newItem, Roots(kids));
      offset := offset + 1;
      BufferSkipWhitespace();
    }

    /** One round of the loop of parse_array: a new item is linked to the list and then filled in. */
    method ParseItem(current: Item?, ghost kids: seq<Shape>, ghost all: set<Item>,
                     ghost values: seq<Json>, ghost names: seq<Name>)
      returns (ok: bool, newItem: Item, ghost longer: seq<Shape>, ghost every: set<Item>)
      requires Valid() && offset < |content| && Partial(kids, all, values, names) && current == Last(Roots(kids))
      modifies `offset, `depth, Roots(kids)`next
      ensures Valid() && fresh(newItem) && all <= every && fresh(every - all)
      ensures match JsonGrammar.ParseValue(content, Skip(content, old(offset) + 1), old(depth))
              case Fail => !ok
              case Done(v, e) =>
                && ok && depth == old(depth) && offset == Skip(content, e)
                && Roots(longer) == Roots(kids) + [newItem] && Partial(longer, every, values + [v], names + [None])
      decreases |content| - offset, 0
    {
      hide JsonGrammar.ParseValue, Skip, Tree, Value, Strung, Grown;
      newItem := StartItem(current, kids, all, values, names);
      ghost var sub, more;
      ok, sub, more := ParseValue(newItem);
      longer, every := kids + [sub], all + more;
      if !ok {
        return;
      }
      BufferSkipWhitespace();
      ghost var v := JsonGrammar.ParseValue(content, Skip(content, old(offset) + 1), old(depth)).value;
      PartialBy(kids, all, values, names, sub, more, v, None);
    }

    /** The loop of parse_array, from before the first item to the closing bracket. */
    method ParseItems() returns (ok: bool, head: Item?, last: Item?, ghost kids: seq<Shape>, ghost all: set<Item>,
                                 ghost values: seq<Json>, ghost names: seq<Name>)
      requires Valid() && offset < |content|
      modifies `offset, `depth
      ensures Valid() && fresh(all) && fresh(Roots(kids)) && (ok ==> depth == old(depth))
      ensures match JsonGrammar.ParseItems(content, old(offset) + 1, old(depth))
              case Fail => !ok
              case Done(vs, next) => ok && vs == values && offset < |content| && next == offset + 1
      ensures ok ==> Partial(kids, all, values, names) && last == Last(Roots(kids))
      ensures head == if kids == [] then null else kids[0].item
      decreases |content| - offset, 1
    {
      hide JsonGrammar.ParseValue, JsonGrammar.ParseItems, Skip, Tree, Value, Partial, Roots;
      ghost var spec := JsonGrammar.ParseItems(content, offset + 1, depth);
      head, last, kids, all, values, names := null, null, [], {}, [], [];
      PartialStart();
      PrependNothing(spec);
      var more := true;
      while more
        invariant Valid() && depth == old(depth) && offset >= old(offset)
        invariant more ==> offset < |content|
        invariant more ==> spec == Prepend(values, JsonGrammar.ParseItems(content, offset + 1, depth))
        invariant !more ==> spec == Closed(content, offset, RBRACKET, values)
        invariant Partial(kids, all, values, names) && fresh(all) && fresh(Roots(kids))
        invariant last == Last(Roots(kids)) && head == if kids == [] then null else kids[0].item
        decreases more, |content| - offset
      {
        ghost var here := offset + 1;
        var newItem;
        ghost var longer, every;
        ok, newItem, longer, every := ParseItem(last, kids, all, values, names);
        if !ok {
          ItemFails(content, here, old(depth), values);
          return;
        }
        ghost var v := JsonGrammar.ParseValue(content, Skip(content, here), depth).value;
        ItemRead(content, here, depth, values, v, offset);
        if head == null {
          head := newItem;
        }
        last := newItem;
        kids, all, values, names := longer, every, values + [v], names + [None];
        more := offset < |content| && content[offset] == COMMA;
      }
      ok := offset < |content| && content[offset] == RBRACKET;
    }

    /** An opening bracket or brace: one level deeper, and past the white space behind it. If the list is
        not empty the offset stays in front of it. */
    method EnterList(closing: byte) returns (ok: bool, empty: bool)
      requires Valid() && offset < |content|
      modifies `offset, `depth
      ensures Valid()
      ensures var j := Skip(content, old(offset) + 1);
        && ok == (old(depth) < NESTING_LIMIT && j < |content|)
        && (ok ==> depth == old(depth) + 1 && empty == (content[j] == closing))
        && (ok ==> j > old(offset) && offset == if empty then j else j - 1)
    {
      hide Skip;
      if depth >= NESTING_LIMIT {
        return false, false;
      }
      depth := depth + 1;
      offset := offset + 1;
      BufferSkipWhitespace();
      if offset < |content| && content[offset] == closing {
        return true, true;
      }
      if offset >= |content| {
        offset := offset - 1;
        return false, false;
      }
      offset := offset - 1;
      return true, false;
    }

    /** The closing one: the list is closed and becomes the children of the item. */
    method LeaveList(item: Item, kind: Kind, head: Item?, last: Item?, ghost kids: seq<Shape>, ghost all: set<Item>,
                     ghost values: seq<Json>, ghost names: seq<Name>)
      returns (ghost sh: Shape, ghost below: set<Item>)
      requires Valid() && offset < |content| && depth > 0 && (kind == ArrayKind || kind == ObjectKind)
      requires Partial(kids, all, values, names) && (kind == ObjectKind ==> AllSome(names))
      requires last == Last(Roots(kids)) && head == if kids == [] then null else kids[0].item
      requires item !in all && item !in Roots(kids)
      modifies `offset, `depth, item`kind, item`child, Roots(kids)`prev
      ensures Valid() && offset == old(offset) + 1 && depth == old(depth) - 1
      ensures sh.item == item && item !in below && Tree(sh, below)
      ensures |values| == |names| && Value(sh, below) == ListValue(kind, values, names)
      ensures forall r :: r in below ==> r in all || r in Roots(kids)
    {
      hide Tree, Value, Partial, Roots, Everything, AllSome;
      depth := depth - 1;
      item.kind := kind;
      PartialIs(kids, all, values, names);
      below := Everything(kids, all);
      CloseTree(item, head, last, kids, all, values, names);
      sh := Shape(item, kids);
      offset := offset + 1;
    }

    method ParseArray(item: Item) returns (ok: bool, ghost sh: Shape, ghost below: set<Item>)
      requires Valid() && offset < |content| && content[offset] == LBRACKET && item.child == null
      modifies `offset, `depth, item`kind, item`child
      ensures Valid() && fresh(below) && (ok ==> depth == old(depth))
      ensures Parsed(ok, offset, item, sh, below, JsonGrammar.ParseArray(content, old(offset), old(depth)))
      decreases |content| - offset, 2
    {
      hide JsonGrammar.ParseItems, Skip, Tree, Value, Partial, Roots, Everything, AllSome, ListValue;
      sh, below := Shape(item, []), {};
      var empty;
      ok, empty := EnterList(RBRACKET);
      if !ok {
        return;
      }
      var head: Item?, last: Item? := null, null;
      ghost var kids: seq<Shape>, all: set<Item>, values: seq<Json>, names: seq<Name> := [], {}, [], [];
      PartialStart();
      if !empty {
        ok, head, last, kids, all, values, names := ParseItems();
        if !ok {
          return;
        }
      }
      sh, below := LeaveList(item, ArrayKind, head, last, kids, all, values, names);
      ListValueIs(ArrayKind, values, names);
    }

    // ----- objects -----

    /** A member up to its value: the name is read as a string of the item, and moved. */
    method ParseName(item: Item) returns (ok: bool)
      requires Valid() && offset < |content|
      modifies `offset, item`kind, item`valuestring, item`name
      ensures Valid() && (ok ==> offset > old(offset))
      ensures match JsonStrings.ParseString(content, Skip(content, old(offset)))
              case None => !ok
              case Some(p) =>
                var c := Skip(content, p.1);
                && ok == (c < |content| && content[c] == COLON)
                && (ok ==> item.name == Some(p.0) && offset == Skip(content, c + 1))
    {
      hide JsonStrings.ParseString, Skip;
      BufferSkipWhitespace();
      ok := ParseString(item);
      if !ok {
        return;
      }
      BufferSkipWhitespace();
      item.name := Some(item.valuestring);
      item.valuestring := [];
      if offset >= |content| || content[offset] != COLON {
        return false;
      }
      offset := offset + 1;
      BufferSkipWhitespace();
    }

    /** A new item is linked to the list and given its name. */
    method StartMember(current: Item?, ghost kids: seq<Shape>, ghost all: set<Item>,
                        ghost values: seq<Json>, ghost names: seq<Name>) returns (ok: bool, newItem: Item)
      requires Valid() && offset + 1 < |content| && Partial(kids, all, values, names) && current == Last(Roots(kids))
      modifies `offset, Roots(kids)`next
      ensures Valid() && fresh(newItem) && newItem.child == null && (ok ==> offset > old(offset) + 1)
      ensures Strung(Roots(kids) + [newItem]) && Grown(kids, all, values, names)
      ensures match JsonStrings.ParseString(content, Skip(content, old(offset) + 1))
              case None => !ok
              case Some(p) =>
                var c := Skip(content, p.1);
                && ok == (c < |content| && content[c] == COLON)
                && (ok ==> newItem.name == Some(p.0) && offset == Skip(content, c + 1))
    {
      hide JsonStrings.ParseString, Skip, Tree, Value, Strung, Grown;
      newItem := new Item(NullKind);
      Attach(current, newItem, Roots(kids));
      offset := offset + 1;
      ok := ParseName(newItem);
    }

    /** One round of the loop of parse_object. */
    method ParseMember(current: Item?, ghost kids: seq<Shape>, ghost all: set<Item>,
                       ghost values: seq<Json>, ghost names: seq<Name>)
      returns (ok: bool, newItem: Item, ghost longer: seq<Shape>, ghost every: set<Item>)
      requires Valid() && offset + 1 < |content| && Partial(kids, all, values, names) && current == Last(Roots(kids))
      modifies `offset, `depth, Roots(kids)`next
      ensures Valid() && fresh(newItem) && all <= every && fresh(every - all)
      ensures match JsonGrammar.ParseMember(content, old(offset) + 1, old(depth))
              case Fail => !ok
              case Done(m, e) =>
                && ok && depth == old(depth) && offset == Skip(content, e)
                && Roots(longer) == Roots(kids) + [newItem]
                && Partial(longer, every, values + [m.value], names + [Some(m.key)])
      decreases |content| - offset, 0
    {
      hide JsonGrammar.ParseValue, JsonStrings.ParseString, Skip, Tree, Value, Strung, Grown;
      longer, every := kids, all;
      ok, newItem := StartMember(current, kids, all, values, names);
      if !ok {
        return;
      }
      ghost var sub, more;
      ok, sub, more := ParseValue(newItem);
      longer, every := kids + [sub], all + more;
      if !ok {
        return;
      }
      BufferSkipWhitespace();
      ghost var m := JsonGrammar.ParseMember(content, old(offset) + 1, old(depth)).value;
      PartialBy(kids, all, values, names, sub, more, m.value, Some(m.key));
    }

    /** The loop of parse_object, from before the first member to the closing brace. */
    method ParseMembers() returns (ok: bool, head: Item?, last: Item?, ghost kids: seq<Shape>, ghost all: set<Item>,
                                   ghost values: seq<Json>, ghost names: seq<Name>)
      requires Valid() && offset + 1 < |content|
      modifies `offset, `depth
      ensures Valid() && fresh(all) && fresh(Roots(kids)) && (ok ==> depth == old(depth))
      ensures match JsonGrammar.ParseMembers(content, old(offset) + 1, old(depth))
              case Fail => !ok
              case Done(ms, next) =>
                && ok && offset < |content| && next == offset + 1
                && |names| == |values| && AllSome(names) && ms == Zip(names, values)
      ensures ok ==> Partial(kids, all, values, names) && last == Last(Roots(kids))
      ensures head == if kids == [] then null else kids[0].item
      decreases |content| - offset, 1
    {
      hide JsonGrammar.ParseMember, JsonGrammar.ParseMembers, Skip, Tree, Value, Partial, Roots, Zip;
      ghost var spec := JsonGrammar.ParseMembers(content, offset + 1, depth);
      ghost var members: seq<Member> := [];
      head, last, kids, all, values, names := null, null, [], {}, [], [];
      PartialStart();
      PrependNothing(spec);
      var more := true;
      while more
        invariant Valid() && depth == old(depth) && offset >= old(offset)
        invariant more ==> offset + 1 < |content|
        invariant more ==> spec == Prepend(members, JsonGrammar.ParseMembers(content, offset + 1, depth))
        invariant !more ==> spec == Closed(content, offset, RBRACE, members)
        invariant |names| == |values| && AllSome(names) && members == Zip(names, values)
        invariant Partial(kids, all, values, names) && fresh(all) && fresh(Roots(kids))
        invariant last == Last(Roots(kids)) && head == if kids == [] then null else kids[0].item
        decreases more, |content| - offset
      {
        ghost var here := offset + 1;
        var newItem;
        ghost var longer, every;
        ok, newItem, longer, every := ParseMember(last, kids, all, values, names);
        if !ok {
          MemberFails(content, here, old(depth), members);
          return;
        }
        ghost var m := JsonGrammar.ParseMember(content, here, depth).value;
        MemberRead(content, here, depth, members, m, offset);
        ZipMore(names, values, m);
        if head == null {
          head := newItem;
        }
        last := newItem;
        members := members + [m];
        kids, all, values, names := longer, every, values + [m.value], names + [Some(m.key)];
        more := offset < |content| && content[offset] == COMMA;
      }
      ok := offset < |content| && content[offset] == RBRACE;
    }

    method ParseObject(item: Item) returns (ok: bool, ghost sh: Shape, ghost below: set<Item>)
      requires Valid() && offset < |content| && content[offset] == LBRACE && item.child == null
      modifies `offset, `depth, item`kind, item`child
      ensures Valid() && fresh(below) && (ok ==> depth == old(depth))
      ensures Parsed(ok, offset, item, sh, below, JsonGrammar.ParseObject(content, old(offset), old(depth)))
      decreases |content| - offset, 2
    {
      hide JsonGrammar.ParseMembers, Skip, Tree, Value, Partial, Roots, Everything, AllSome, ListValue;
      sh, below := Shape(item, []), {};
      var empty;
      ok, empty := EnterList(RBRACE);
      if !ok {
        return;
      }
      var head: Item?, last: Item? := null, null;
      ghost var kids: seq<Shape>, all: set<Item>, values: seq<Json>, names: seq<Name> := [], {}, [], [];
      PartialStart();
      if !empty {
        ok, head, last, kids, all, values, names := ParseMembers();
        if !ok {
          return;
        }
      }
      sh, below := LeaveList(item, ObjectKind, head, last, kids, all, values, names);
      ListValueIs(ObjectKind, values, names);
    }
  }

  /** What a list of children stands for. */
  ghost function ListValue(kind: Kind, values: seq<Json>, names: seq<Name>): Json
    requires |values| == |names| && (kind == ObjectKind ==> AllSome(names))
  {
    if kind == ObjectKind then Object(Zip(names, values)) else Array(values)
  }

  lemma ListValueIs(kind: Kind, values: seq<Json>, names: seq<Name>)
    requires |values| == |names| && (kind == ObjectKind ==> AllSome(names))
    ensures ListValue(kind, values, names) == if kind == ObjectKind then Object(Zip(names, values)) else Array(values)
    ensures values == [] ==> Zip([], []) == []
  {
  }

  lemma ZipMore(names: seq<Name>, values: seq<Json>, m: Member)
    requires |names| == |values| && AllSome(names)
    ensures AllSome(names + [Some(m.key)])
    ensures Zip(names + [Some(m.key)], values + [m.value]) == Zip(names, values) + [m]
  {
  }

  /** The children read so far. */
  ghost predicate Partial(kids: seq<Shape>, all: set<Item>, values: seq<Json>, names: seq<Name>)
    reads all, Roots(kids)
  {
    && Strung(Roots(kids)) && Grown(kids, all, values, names) && |kids| == |values|
    && forall r :: r in Roots(kids) ==> r !in all
  }

  lemma PartialStart()
    ensures Partial([], {}, [], []) && Roots([]) == [] && AllSome([]) && Zip([], []) == []
  {
  }

  lemma PartialBy(kids: seq<Shape>, all: set<Item>, values: seq<Json>, names: seq<Name>,
                  sub: Shape, more: set<Item>, v: Json, name: Name)
    requires Strung(Roots(kids) + [sub.item]) && Grown(kids, all, values, names) && |kids| == |values|
    requires forall r :: r in Roots(kids) ==> r !in all && r !in more
    requires sub.item !in all && sub.item !in more && sub.item.name == name
    requires Tree(sub, more) && Value(sub, more) == v
    ensures Roots(kids + [sub]) == Roots(kids) + [sub.item]
    ensures Partial(kids + [sub], all + more, values + [v], names + [name])
  {
    hide Tree, Value, Strung;
    RootsToo(kids, sub);
    assert Grown(kids, all, values + [v], names + [name]);
    GrownBy(kids, all, values + [v], names + [name], sub, more);
  }

  lemma PartialIs(kids: seq<Shape>, all: set<Item>, values: seq<Json>, names: seq<Name>)
    requires Partial(kids, all, values, names)
    ensures Strung(Roots(kids)) && Grown(kids, all, values, names) && |kids| == |values|
    ensures forall r :: r in Roots(kids) ==> r !in all
    ensures forall r :: r in Everything(kids, all) ==> r in all || r in Roots(kids)
  {
  }

  lemma ItemFails(s: seq<byte>, i: nat, depth: nat, done: seq<Json>)
    requires i <= |s| && ParseValue(s, Skip(s, i), depth).Fail?
    ensures Prepend(done, ParseItems(s, i, depth)) == Fail
  {
  }

  lemma ItemRead(s: seq<byte>, i: nat, depth: nat, done: seq<Json>, v: Json, k: nat)
    requires i <= |s|
    requires var p := ParseValue(s, Skip(s, i), depth); p.Done? && p.value == v && Skip(s, p.next) == k
    ensures Prepend(done, ParseItems(s, i, depth)) ==
            AfterItem(s, k, RBRACKET, done + [v], if k < |s| then ParseItems(s, k + 1, depth) else Fail)
  {
    hide ParseValue, Skip;
    if k < |s| {
      PrependOne(done, v, ParseItems(s, k + 1, depth));
    }
  }

  lemma MemberFails(s: seq<byte>, i: nat, depth: nat, done: seq<Member>)
    requires i <= |s| && ParseMember(s, i, depth).Fail?
    ensures Prepend(done, ParseMembers(s, i, depth)) == Fail
  {
  }

  lemma MemberRead(s: seq<byte>, i: nat, depth: nat, done: seq<Member>, m: Member, k: nat)
    requires i <= |s|
    requires var p := ParseMember(s, i, depth); p.Done? && p.value == m && Skip(s, p.next) == k
    ensures Prepend(done, ParseMembers(s, i, depth)) ==
            AfterItem(s, k, RBRACE, done + [m], if k < |s| then ParseMembers(s, k + 1, depth) else Fail)
  {
    hide ParseMember, Skip;
    if k < |s| {
      PrependOne(done, m, ParseMembers(s, k + 1, depth));
    }
  }

  /** cJSON_ParseWithLengthOpts: a new tree that stands for the value, and the address where parsing
      ended. */
  method ParseWithLengthOpts(value: seq<byte>, requireNullTerminated: bool)
    returns (item: Item?, parseEnd: nat, ghost sh: Shape, ghost below: set<Item>)
    requires value != [] ==> value[|value| - 1] == NUL
    ensures match ParseText(value, requireNullTerminated)
            case Fail => item == null
            case Done(v, next) => item != null && Parsed(true, parseEnd, item, sh, below, Done(v, next))
    ensures item != null ==> fresh(item) && fresh(below)
  {
    hide JsonGrammar.ParseValue, Skip, SkipBom, Tree, Value;
    parseEnd, item := 0, null;
    if value == [] {
      var none := new Item(NullKind);
      return null, parseEnd, Shape(none, []), {};
    }
    var buffer := new ParseBuffer(value);
    var root := new Item(NullKind);
    buffer.SkipUtf8Bom();
    buffer.BufferSkipWhitespace();
    var ok;
    ok, sh, below := buffer.ParseValue(root);
    if !ok {
      return;
    }
    if requireNullTerminated {
      buffer.BufferSkipWhitespace();
      if buffer.offset >= |buffer.content| || buffer.content[buffer.offset] != NUL {
        return;
      }
    }
    parseEnd := buffer.offset;
    item := root;
  }
}
