/** Every JSON text is parsed to the value that it stands for. */
module JsonParses {
  import opened Bytes
  import opened JsonStrings
  import opened JsonText
  import opened JsonSyntax
  import opened JsonGrammar
  import opened Wrappers

  // ----- numbers -----

  lemma {:induction false} RunCovers(s: seq<byte>, i: nat, e: nat, k: nat)
    requires i <= e < |s| && e - i <= k
    requires forall j :: i <= j < e ==> IsNumberChar(s[j])
    requires !IsNumberChar(s[e])
    ensures RunEnd(s, i, k) == e
    decreases k
  {
    if i < e {
      RunCovers(s, i + 1, e, k - 1);
    }
  }

  lemma {:induction false} DigitsCover(s: seq<byte>, i: nat, e: nat)
    requires i <= e <= |s| && forall j :: i <= j < e ==> IsDigit(s[j])
    ensures DigitsEnd(s, i, e) == e
    decreases e - i
  {
    if i < e {
      DigitsCover(s, i + 1, e);
    }
  }

  lemma {:induction false} DigitsAreDigits(digits: seq<byte>, n: nat)
    requires IsDecimalNumber(digits, n)
    ensures forall k :: 0 <= k < |digits| ==> IsDigit(digits[k])
    decreases |digits|
  {
    if digits != [] {
      var last := |digits| - 1;
      DigitsAreDigits(digits[..last], n / 10);
      assert forall k :: 0 <= k < last ==> digits[k] == digits[..last][k];
    }
  }

  lemma DigitsStand(s: seq<byte>, i: nat, digits: seq<byte>, n: nat)
    requires IsDecimalNumber(digits, n) && At(s, i, digits)
    ensures forall k :: i <= k < i + |digits| ==> IsDigit(s[k])
  {
    DigitsAreDigits(digits, n);
    forall k | i <= k < i + |digits| ensures IsDigit(s[k]) {
      assert s[k] == digits[k - i];
    }
  }

  lemma {:induction false} DigitsHaveTheValue(s: seq<byte>, i: nat, digits: seq<byte>, n: nat)
    requires IsDecimalNumber(digits, n) && At(s, i, digits)
    requires forall k :: i <= k < i + |digits| ==> IsDigit(s[k])
    ensures DecimalValue(s, i, i + |digits|) == n
    decreases |digits|
  {
    if digits != [] {
      var last := |digits| - 1;
      assert s[i + last] == digits[last];
      DigitsHaveTheValue(s, i, digits[..last], n / 10);
    }
  }

  /** The number ends at the first character that no number contains. */
  lemma NumeralIsParsed(c: Syntax, s: seq<byte>, i: nat)
    requires c.Numeral? && IsSyntax(c, Wide) && At(s, i, SyntaxText(c)) && Ends(s, i + |SyntaxText(c)|)
    ensures ParseNumber(s, i) == Done(ValueOf(c), i + |SyntaxText(c)|)
    ensures s[i] == MINUS || IsDigit(s[i])
  {
    var sign := if c.negative then [MINUS] else [];
    var d := i + |sign|;
    var e := d + |c.digits|;
    AtSplit(s, i, sign, c.digits);
    if c.negative {
      AtFirst(s, i, sign);
    }
    DigitsStand(s, d, c.digits, c.n);
    RunCovers(s, i, e, NUMBER_LENGTH);
    DigitsCover(s, d, e);
    DigitsHaveTheValue(s, d, c.digits, c.n);
  }

  // ----- strings -----

  /** What is read of a string does not depend on what stands around it. */
  lemma {:induction false} ScanMoves(s: seq<byte>, i: nat, t: seq<byte>, k: nat)
    requires At(s, i, t) && ScanEnd(t, k).Some?
    ensures ScanEnd(s, i + k) == Some(i + ScanEnd(t, k).value)
    decreases |t| - k
  {
    assert s[i + k] == t[k];
    if t[k] == BACKSLASH {
      ScanMoves(s, i, t, k + 2);
    } else if t[k] != QUOTE {
      ScanMoves(s, i, t, k + 1);
    }
  }

  lemma LiteralMoves(s: seq<byte>, i: nat, t: seq<byte>, k: nat, end: nat)
    requires At(s, i, t) && k < end < |t|
    ensures Literal(s, i + k, i + end) == Literal(t, k, end)
  {
    if end >= k + 6 {
      HexMoves(s, i, t, k + 2);
    }
    if end >= k + 12 {
      HexMoves(s, i, t, k + 8);
      assert s[i + (k + 6)] == t[k + 6] && s[i + (k + 7)] == t[k + 7];
    }
  }

  lemma HexMoves(s: seq<byte>, i: nat, t: seq<byte>, k: nat)
    requires At(s, i, t) && k + 4 <= |t|
    ensures Hex4(s, i + k) == Hex4(t, k)
  {
    assert s[i + k] == t[k] && s[i + (k + 1)] == t[k + 1] && s[i + (k + 2)] == t[k + 2] && s[i + (k + 3)] == t[k + 3];
  }

  lemma RoundMoves(s: seq<byte>, i: nat, t: seq<byte>, k: nat, end: nat)
    requires At(s, i, t) && k < end < |t|
    ensures Decode1(s, i + k, i + end) == Decode1(t, k, end)
  {
    hide Literal, Unshort;
    LiteralMoves(s, i, t, k, end);
    assert s[i + k] == t[k] && s[i + (k + 1)] == t[k + 1];
  }

  lemma {:induction false} UnescapeMoves(s: seq<byte>, i: nat, t: seq<byte>, k: nat, end: nat)
    requires At(s, i, t) && end < |t|
    ensures Unescape(s, i + k, i + end) == Unescape(t, k, end)
    decreases end - k
  {
    hide Decode1;
    if k < end {
      RoundMoves(s, i, t, k, end);
      if Decode1(t, k, end).Some? {
        UnescapeMoves(s, i, t, k + Decode1(t, k, end).value.1, end);
      }
    }
  }

  lemma StringIsParsed(text: seq<byte>, x: seq<byte>, s: seq<byte>, i: nat)
    requires IsString(text, x, Wide) && At(s, i, text)
    ensures ParseString(s, i) == Some((x, i + |text|)) && s[i] == QUOTE
  {
    hide ScanEnd, Unescape, CString;
    AtFirst(s, i, text);
    ScanMoves(s, i, text, 1);
    UnescapeMoves(s, i, text, 1, |text| - 1);
  }

  // ----- white space -----

  lemma {:induction false} SkipsWs(s: seq<byte>, i: nat, w: seq<byte>)
    requires At(s, i, w) && AreWs(w, Wide) && i + |w| < |s| && s[i + |w|] > 32
    ensures Skip(s, i) == i + |w|
    decreases |w|
  {
    if w != [] {
      AtFirst(s, i, w);
      assert w == [w[0]] + w[1..];
      AtSplit(s, i, [w[0]], w[1..]);
      SkipsWs(s, i + 1, w[1..]);
    }
  }

  lemma SkipsNothing(s: seq<byte>, i: nat)
    requires i < |s| && s[i] > 32
    ensures Skip(s, i) == i
  {
  }

  /** A value's text is followed by a character that could not continue a number. */
  ghost predicate Ends(s: seq<byte>, e: nat) {
    e < |s| && !IsNumberChar(s[e])
  }

  lemma EndsBeforeWs(s: seq<byte>, e: nat, w: seq<byte>)
    requires At(s, e, w) && AreWs(w, Wide) && (w == [] ==> Ends(s, e))
    ensures Ends(s, e)
  {
    if w != [] {
      AtFirst(s, e, w);
    }
  }

  // ----- values -----

  lemma ReadsFirst(s: seq<byte>, i: nat, t: seq<byte>)
    requires t != []
    ensures Reads(s, i, t) ==> i < |s| && s[i] == t[0]
  {
    if Reads(s, i, t) {
      assert s[i..i + |t|][0] == t[0];
    }
  }

  lemma AtReads(s: seq<byte>, i: nat, t: seq<byte>)
    requires At(s, i, t)
    ensures Reads(s, i, t)
  {
    forall k | 0 <= k < |t| ensures s[i..i + |t|][k] == t[k] {
      assert s[i + k] == t[k];
    }
  }

  lemma NoWord(s: seq<byte>, i: nat)
    requires i < |s| && s[i] !in {110, 102, 116}
    ensures !Reads(s, i, NULL_TEXT) && !Reads(s, i, FALSE_TEXT) && !Reads(s, i, TRUE_TEXT)
  {
    ReadsFirst(s, i, NULL_TEXT);
    ReadsFirst(s, i, FALSE_TEXT);
    ReadsFirst(s, i, TRUE_TEXT);
  }

  lemma WordIsParsed(v: Json, s: seq<byte>, i: nat, depth: nat)
    requires v.Null? || v.False? || v.True?
    requires At(s, i, WordText(v))
    ensures ParseValue(s, i, depth) == Done(v, i + |WordText(v)|)
  {
    hide ParseArray, ParseObject, ParseString, ParseNumber;
    AtReads(s, i, WordText(v));
    ReadsFirst(s, i, NULL_TEXT);
    ReadsFirst(s, i, FALSE_TEXT);
    ReadsFirst(s, i, TRUE_TEXT);
  }

  lemma SyntaxStarts(c: Syntax)
    requires IsSyntax(c, Wide)
    ensures var t := SyntaxText(c); t != [] && 32 < t[0] < 0xEF && t[0] !in {COMMA, RBRACKET, RBRACE}
  {
    match c
    case Numeral(negative, digits, n) => DigitsAreDigits(digits, n);
    case _ =>
  }

  function Max(a: nat, b: nat): nat {
    if a > b then a else b
  }

  /** What is parsed, unless it is nested too deep. */
  function Within<T>(depth: nat, parse: Parse<T>): Parse<T> {
    if depth <= NESTING_LIMIT then parse else Fail
  }

  lemma {:induction false} ValueIsParsed(c: Syntax, s: seq<byte>, i: nat, depth: nat)
    requires IsSyntax(c, Wide) && depth <= NESTING_LIMIT
    requires At(s, i, SyntaxText(c)) && (c.Numeral? ==> Ends(s, i + |SyntaxText(c)|))
    ensures ParseValue(s, i, depth) == Within(depth + Depth(ValueOf(c)), Done(ValueOf(c), i + |SyntaxText(c)|))
    decreases c, 2
  {
    hide ParseArray, ParseObject, ParseString, ParseNumber, ElementsText, EntriesText, IsNumeral, IsString;
    hide ItemsDepth, MembersDepth, ItemsOf, MembersOf, WordText;
    AtFirstOf(s, i, c);
    match c
    case Word(v) => WordIsParsed(v, s, i, depth);
    case Numeral(_, _, _) =>
      NumeralIsParsed(c, s, i);
      NoWord(s, i);
    case Quoted(text, x) =>
      StringIsParsed(text, x, s, i);
      NoWord(s, i);
    case List(_, _) =>
      NoWord(s, i);
      ListIsParsed(c, s, i, depth);
    case Record(_, _) =>
      NoWord(s, i);
      RecordIsParsed(c, s, i, depth);
  }

  lemma AtFirstOf(s: seq<byte>, i: nat, c: Syntax)
    requires IsSyntax(c, Wide) && At(s, i, SyntaxText(c))
    ensures i < |s| && 32 < s[i] < 0xEF && s[i] !in {COMMA, RBRACKET, RBRACE}
    ensures c.List? ==> s[i] == LBRACKET
    ensures c.Record? ==> s[i] == LBRACE
  {
    SyntaxStarts(c);
    AtFirst(s, i, SyntaxText(c));
  }

  // arrays

  lemma ItemAndMore(s: seq<byte>, i: nat, e: nat, k: nat, depth: nat, v: Json, rest: seq<Json>, z: nat, a: nat, b: nat)
    requires i <= |s| && ParseValue(s, Skip(s, i), depth) == Within(a, Done(v, e))
    requires e <= |s| && Skip(s, e) == k < |s| && s[k] == COMMA
    requires ParseItems(s, k + 1, depth) == Within(b, Done(rest, z))
    ensures ParseItems(s, i, depth) == Within(Max(a, b), Done([v] + rest, z))
  {
    hide ParseValue, Skip;
  }

  lemma LastItem(s: seq<byte>, i: nat, e: nat, k: nat, depth: nat, v: Json, a: nat)
    requires i <= |s| && ParseValue(s, Skip(s, i), depth) == Within(a, Done(v, e))
    requires e <= |s| && Skip(s, e) == k < |s| && s[k] == RBRACKET
    ensures ParseItems(s, i, depth) == Within(a, Done([v], k + 1))
  {
    hide ParseValue, Skip;
  }

  lemma SameItems(s: seq<byte>, i: nat, j: nat, depth: nat)
    requires i <= |s| && j <= |s| && Skip(s, i) == Skip(s, j)
    ensures ParseItems(s, i, depth) == ParseItems(s, j, depth)
  {
    hide ParseValue, Skip;
  }

  lemma FirstElement(es: seq<Element>)
    requires es != []
    ensures ElementsText(es) == ElementText(es[0]) + if |es| == 1 then [] else [COMMA] + ElementsText(es[1..])
    ensures |ElementsText(es)| == |ElementText(es[0])| + if |es| == 1 then 0 else 1 + |ElementsText(es[1..])|
  {
  }

  /** Where the parts of the first element stand: its value at v, what follows the value at e, and what
      follows the element at k. */
  lemma ElementStands(es: seq<Element>, s: seq<byte>, i: nat, end: byte) returns (v: nat, e: nat, k: nat)
    requires es != [] && IsElement(es[0], Wide) && end > 32 && !IsNumberChar(end)
    requires At(s, i, ElementsText(es)) && i + |ElementsText(es)| < |s| && s[i + |ElementsText(es)|] == end
    ensures v < |s| && Skip(s, i) == v && Skip(s, v) == v && s[v] !in {COMMA, RBRACKET, RBRACE}
    ensures At(s, v, SyntaxText(es[0].value)) && e == v + |SyntaxText(es[0].value)| && Ends(s, e)
    ensures Skip(s, e) == k < |s|
    ensures if |es| == 1 then k == i + |ElementsText(es)|
            else && s[k] == COMMA && At(s, k + 1, ElementsText(es[1..]))
                 && i + |ElementsText(es)| == k + 1 + |ElementsText(es[1..])|
  {
    hide At, IsSyntax, Skip, SyntaxText, ElementsText, AreWs;
    var x := es[0];
    var rest := if |es| == 1 then [] else [COMMA] + ElementsText(es[1..]);
    FirstElement(es);
    AtSplit(s, i, ElementText(x), rest);
    AtSplit3(s, i, x.before, SyntaxText(x.value), x.after);
    v := i + |x.before|;
    e := v + |SyntaxText(x.value)|;
    k := e + |x.after|;
    if |es| > 1 {
      AtSplit(s, k, [COMMA], ElementsText(es[1..]));
      AtFirst(s, k, [COMMA]);
    }
    AtFirstOf(s, v, x.value);
    SkipsWs(s, i, x.before);
    SkipsNothing(s, v);
    SkipsWs(s, e, x.after);
    EndsBeforeWs(s, e, x.after);
  }

  lemma {:induction false} ElementsAreParsed(es: seq<Element>, s: seq<byte>, i: nat, z: nat, depth: nat)
    requires es != [] && (forall k :: 0 <= k < |es| ==> IsElement(es[k], Wide)) && depth <= NESTING_LIMIT
    requires At(s, i, ElementsText(es)) && z == i + |ElementsText(es)| < |s| && s[z] == RBRACKET
    ensures ParseItems(s, i, depth) == Within(depth + ItemsDepth(ItemsOf(es)), Done(ItemsOf(es), z + 1))
    decreases es, 0
  {
    hide ParseItems, ParseValue, SyntaxText, ElementsText, Skip, At, ValueOf, Depth;
    var v, e, k := ElementStands(es, s, i, RBRACKET);
    var x, rest := ValueOf(es[0].value), es[1..];
    var a := depth + Depth(x);
    ValueIsParsed(es[0].value, s, v, depth);
    if |es| > 1 {
      ElementsAreParsed(rest, s, k + 1, z, depth);
      ItemAndMore(s, i, e, k, depth, x, ItemsOf(rest), z + 1, a, depth + ItemsDepth(ItemsOf(rest)));
      assert ([x] + ItemsOf(rest))[1..] == ItemsOf(rest);
    } else {
      LastItem(s, i, e, k, depth, x, a);
      assert [x] + ItemsOf(rest) == [x] && [x][1..] == [];
    }
  }

  lemma EmptyArray(s: seq<byte>, i: nat, depth: nat)
    requires i < |s|
    ensures depth >= NESTING_LIMIT ==> ParseArray(s, i, depth).Fail?
    ensures var j := Skip(s, i + 1);
      depth < NESTING_LIMIT && j < |s| && s[j] == RBRACKET ==> ParseArray(s, i, depth) == Done(Array([]), j + 1)
  {
  }

  lemma ArrayFrom(s: seq<byte>, i: nat, j: nat, depth: nat, items: seq<Json>, z: nat, a: nat)
    requires i < |s| && Skip(s, i + 1) == j < |s| && Skip(s, j) == j && s[j] != RBRACKET
    requires depth < NESTING_LIMIT && ParseItems(s, i + 1, depth + 1) == Within(a, Done(items, z))
    ensures ParseArray(s, i, depth) == Within(a, Done(Array(items), z))
  {
    SameItems(s, i + 1, j, depth + 1);
    hide ParseItems, Skip;
  }

  lemma {:induction false} ListIsParsed(c: Syntax, s: seq<byte>, i: nat, depth: nat)
    requires c.List? && IsSyntax(c, Wide) && depth <= NESTING_LIMIT && At(s, i, SyntaxText(c)) && i < |s|
    ensures ParseArray(s, i, depth) == Within(depth + Depth(ValueOf(c)), Done(ValueOf(c), i + |SyntaxText(c)|))
    decreases c, 1
  {
    hide ParseArray, ParseItems, ElementsText, Skip, IsElement, At, AreWs, ItemsOf, ItemsDepth;
    var body := if c.items == [] then c.inner else ElementsText(c.items);
    var z := i + 1 + |body|;
    AtSplit3(s, i, [LBRACKET], body, [RBRACKET]);
    AtFirst(s, z, [RBRACKET]);
    EmptyArray(s, i, depth);
    if c.items == [] {
      SkipsWs(s, i + 1, c.inner);
      NoItems(c.items);
    } else if depth < NESTING_LIMIT {
      var j, _, _ := ElementStands(c.items, s, i + 1, RBRACKET);
      ElementsAreParsed(c.items, s, i + 1, z, depth + 1);
      ArrayFrom(s, i, j, depth, ItemsOf(c.items), z + 1, depth + 1 + ItemsDepth(ItemsOf(c.items)));
    }
  }

  lemma NoItems(es: seq<Element>)
    requires es == []
    ensures ItemsOf(es) == [] && ItemsDepth([]) == 0
  {
  }

  // objects

  lemma MemberAndMore(s: seq<byte>, i: nat, e: nat, k: nat, depth: nat,
                      m: Member, rest: seq<Member>, z: nat, a: nat, b: nat)
    requires i <= |s| && ParseMember(s, i, depth) == Within(a, Done(m, e))
    requires e <= |s| && Skip(s, e) == k < |s| && s[k] == COMMA
    requires ParseMembers(s, k + 1, depth) == Within(b, Done(rest, z))
    ensures ParseMembers(s, i, depth) == Within(Max(a, b), Done([m] + rest, z))
  {
    hide ParseMember, Skip;
  }

  lemma LastMember(s: seq<byte>, i: nat, e: nat, k: nat, depth: nat, m: Member, a: nat)
    requires i <= |s| && ParseMember(s, i, depth) == Within(a, Done(m, e))
    requires e <= |s| && Skip(s, e) == k < |s| && s[k] == RBRACE
    ensures ParseMembers(s, i, depth) == Within(a, Done([m], k + 1))
  {
    hide ParseMember, Skip;
  }

  lemma SameMember(s: seq<byte>, i: nat, j: nat, depth: nat)
    requires i <= |s| && j <= |s| && Skip(s, i) == Skip(s, j)
    ensures ParseMember(s, i, depth) == ParseMember(s, j, depth)
  {
    hide ParseString, ParseValue, Skip;
  }

  lemma SameMembers(s: seq<byte>, i: nat, j: nat, depth: nat)
    requires i <= |s| && j <= |s| && Skip(s, i) == Skip(s, j)
    ensures ParseMembers(s, i, depth) == ParseMembers(s, j, depth)
  {
    hide ParseMember, Skip;
    SameMember(s, i, j, depth);
  }

  lemma OneMember(s: seq<byte>, i: nat, q: nat, p: nat, c: nat, b: nat, e: nat, depth: nat, m: Member, a: nat)
    requires i <= |s| && Skip(s, i) == q && ParseString(s, q) == Some((m.key, p))
    requires Skip(s, p) == c < |s| && s[c] == COLON && Skip(s, c + 1) == b
    requires ParseValue(s, b, depth) == Within(a, Done(m.value, e))
    ensures ParseMember(s, i, depth) == Within(a, Done(m, e))
  {
    hide ParseValue, ParseString, Skip;
  }

  lemma FirstEntry(es: seq<Entry>)
    requires es != []
    ensures EntriesText(es) == EntryText(es[0]) + if |es| == 1 then [] else [COMMA] + EntriesText(es[1..])
    ensures |EntriesText(es)| == |EntryText(es[0])| + if |es| == 1 then 0 else 1 + |EntriesText(es[1..])|
  {
  }

  /** Where the parts of the first entry stand: its key at q, the colon at c behind the key's end p, its
      value at b, what follows the value at e, and what follows the entry at k. */
  lemma EntryStands(es: seq<Entry>, s: seq<byte>, i: nat, end: byte)
    returns (q: nat, p: nat, c: nat, b: nat, e: nat, k: nat)
    requires es != [] && IsEntry(es[0], Wide) && end > 32 && !IsNumberChar(end)
    requires At(s, i, EntriesText(es)) && i + |EntriesText(es)| < |s| && s[i + |EntriesText(es)|] == end
    ensures q < |s| && Skip(s, i) == q && Skip(s, q) == q && s[q] == QUOTE
    ensures ParseString(s, q) == Some((es[0].name, p)) && Skip(s, p) == c < |s| && s[c] == COLON && Skip(s, c + 1) == b
    ensures At(s, b, SyntaxText(es[0].value)) && e == b + |SyntaxText(es[0].value)| && Ends(s, e)
    ensures Skip(s, e) == k < |s|
    ensures if |es| == 1 then k == i + |EntriesText(es)|
            else && s[k] == COMMA && At(s, k + 1, EntriesText(es[1..]))
                 && i + |EntriesText(es)| == k + 1 + |EntriesText(es[1..])|
  {
    hide At, IsSyntax, Skip, SyntaxText, EntriesText, AreWs, ParseString, IsString;
    var x := es[0];
    var rest := if |es| == 1 then [] else [COMMA] + EntriesText(es[1..]);
    FirstEntry(es);
    AtSplit(s, i, EntryText(x), rest);
    var t := SyntaxText(x.value);
    AtSplit3(s, i, x.before + x.key + x.colon, [COLON] + x.space + t, x.after);
    AtSplit3(s, i, x.before, x.key, x.colon);
    q := i + |x.before|;
    p := q + |x.key|;
    c := p + |x.colon|;
    AtSplit3(s, c, [COLON], x.space, t);
    AtFirst(s, c, [COLON]);
    b := c + 1 + |x.space|;
    e := b + |t|;
    k := e + |x.after|;
    if |es| > 1 {
      AtSplit(s, k, [COMMA], EntriesText(es[1..]));
      AtFirst(s, k, [COMMA]);
    }
    StringIsParsed(x.key, x.name, s, q);
    SkipsWs(s, i, x.before);
    SkipsNothing(s, q);
    SkipsWs(s, p, x.colon);
    AtFirstOf(s, b, x.value);
    SkipsWs(s, c + 1, x.space);
    SkipsWs(s, e, x.after);
    EndsBeforeWs(s, e, x.after);
  }

  lemma {:induction false} EntriesAreParsed(es: seq<Entry>, s: seq<byte>, i: nat, z: nat, depth: nat)
    requires es != [] && (forall k :: 0 <= k < |es| ==> IsEntry(es[k], Wide)) && depth <= NESTING_LIMIT
    requires At(s, i, EntriesText(es)) && z == i + |EntriesText(es)| < |s| && s[z] == RBRACE
    ensures ParseMembers(s, i, depth) == Within(depth + MembersDepth(MembersOf(es)), Done(MembersOf(es), z + 1))
    decreases es, 0
  {
    hide ParseMembers, ParseMember, ParseValue, ParseString, SyntaxText, EntriesText, Skip, At, ValueOf, Depth;
    var q, p, c, b, e, k := EntryStands(es, s, i, RBRACE);
    var m, rest := Member(es[0].name, ValueOf(es[0].value)), es[1..];
    var a := depth + Depth(m.value);
    ValueIsParsed(es[0].value, s, b, depth);
    OneMember(s, i, q, p, c, b, e, depth, m, a);
    if |es| > 1 {
      EntriesAreParsed(rest, s, k + 1, z, depth);
      MemberAndMore(s, i, e, k, depth, m, MembersOf(rest), z + 1, a, depth + MembersDepth(MembersOf(rest)));
      assert ([m] + MembersOf(rest))[1..] == MembersOf(rest);
    } else {
      LastMember(s, i, e, k, depth, m, a);
      assert [m] + MembersOf(rest) == [m] && [m][1..] == [];
    }
  }

  lemma EmptyObject(s: seq<byte>, i: nat, depth: nat)
    requires i < |s|
    ensures depth >= NESTING_LIMIT ==> ParseObject(s, i, depth).Fail?
    ensures var j := Skip(s, i + 1);
      depth < NESTING_LIMIT && j < |s| && s[j] == RBRACE ==> ParseObject(s, i, depth) == Done(Object([]), j + 1)
  {
  }

  lemma ObjectFrom(s: seq<byte>, i: nat, j: nat, depth: nat, ms: seq<Member>, z: nat, a: nat)
    requires i < |s| && Skip(s, i + 1) == j < |s| && Skip(s, j) == j && s[j] == QUOTE
    requires depth < NESTING_LIMIT && ParseMembers(s, i + 1, depth + 1) == Within(a, Done(ms, z))
    ensures ParseObject(s, i, depth) == Within(a, Done(Object(ms), z))
  {
    hide ParseMember, Skip;
    SameMembers(s, i + 1, j, depth + 1);
  }

  lemma NoMembers(es: seq<Entry>)
    requires es == []
    ensures MembersOf(es) == [] && MembersDepth([]) == 0
  {
  }

  lemma {:induction false} RecordIsParsed(c: Syntax, s: seq<byte>, i: nat, depth: nat)
    requires c.Record? && IsSyntax(c, Wide) && depth <= NESTING_LIMIT && At(s, i, SyntaxText(c)) && i < |s|
    ensures ParseObject(s, i, depth) == Within(depth + Depth(ValueOf(c)), Done(ValueOf(c), i + |SyntaxText(c)|))
    decreases c, 1
  {
    hide ParseObject, ParseMembers, ParseString, EntriesText, Skip, IsEntry, At, AreWs, MembersOf, MembersDepth;
    var body := if c.entries == [] then c.inner else EntriesText(c.entries);
    var z := i + 1 + |body|;
    AtSplit3(s, i, [LBRACE], body, [RBRACE]);
    AtFirst(s, z, [RBRACE]);
    EmptyObject(s, i, depth);
    if c.entries == [] {
      SkipsWs(s, i + 1, c.inner);
      NoMembers(c.entries);
    } else if depth < NESTING_LIMIT {
      var j, _, _, _, _, _ := EntryStands(c.entries, s, i + 1, RBRACE);
      EntriesAreParsed(c.entries, s, i + 1, z, depth + 1);
      ObjectFrom(s, i, j, depth, MembersOf(c.entries), z + 1, depth + 1 + MembersDepth(MembersOf(c.entries)));
    }
  }

  // ----- the whole text -----

  lemma RootIsParsed(s: seq<byte>, m: nat, v: nat, e: nat, k: nat, x: Json, a: nat, requireNul: bool)
    requires SkipBom(s) == m < |s| && Skip(s, m) == v && ParseValue(s, v, 0) == Within(a, Done(x, e))
    requires e <= |s| && Skip(s, e) == k < |s| && s[k] == NUL
    ensures ParseText(s, requireNul) == Within(a, Done(x, if requireNul then k else e))
  {
    hide ParseValue, SkipBom, Skip;
  }

  /** Where the parts of a document stand behind the byte order mark and before the NUL. */
  lemma DocumentStands(d: Document, mark: seq<byte>)
    ensures var (s, v) := (mark + DocumentText(d) + [NUL], |mark| + |d.before|);
      var e := v + |SyntaxText(d.root)|;
      && At(s, 0, mark) && At(s, |mark|, d.before) && At(s, v, SyntaxText(d.root)) && At(s, e, d.after)
      && |s| == e + |d.after| + 1 && s[e + |d.after|] == NUL && |mark| + |DocumentText(d)| == e + |d.after|
  {
    hide SyntaxText, At;
    var t := SyntaxText(d.root);
    var s := mark + DocumentText(d) + [NUL];
    assert s == mark + d.before + t + (d.after + [NUL]);
    Stands(s);
    AtSplit(s, 0, mark + d.before + t, d.after + [NUL]);
    AtSplit3(s, 0, mark, d.before, t);
    AtSplit(s, |mark| + |d.before| + |t|, d.after, [NUL]);
  }

  /** The text with its terminating NUL, with or without a byte order mark before it, is parsed to its
      value, unless that is nested deeper than NESTING_LIMIT; and then it is refused. */
  lemma DocumentIsParsed(d: Document, bom: bool, requireNul: bool)
    requires IsDocument(d, Wide)
    ensures var (mark, t) := (if bom then BOM else [], DocumentText(d));
      ParseText(mark + t + [NUL], requireNul) ==
        if Depth(ValueOf(d.root)) > NESTING_LIMIT then Fail
        else Done(ValueOf(d.root), |mark| + |t| - if requireNul then 0 else |d.after|)
  {
    hide At, AreWs, SyntaxText, DocumentText, ParseText, ParseValue, ValueOf, Depth, IsSyntax, Skip, SkipBom;
    var mark := if bom then BOM else [];
    var s, v := mark + DocumentText(d) + [NUL], |mark| + |d.before|;
    var e := v + |SyntaxText(d.root)|;
    DocumentStands(d, mark);
    AtFirstOf(s, v, d.root);
    MarkIsSkipped(s, mark, d.before);
    SkipsWs(s, |mark|, d.before);
    EndsBeforeWs(s, e, d.after);
    ValueIsParsed(d.root, s, v, 0);
    SkipsToNul(s, e, d.after);
    RootIsParsed(s, |mark|, v, e, e + |d.after|, ValueOf(d.root), Depth(ValueOf(d.root)), requireNul);
  }

  lemma Stands(s: seq<byte>)
    ensures At(s, 0, s)
  {
  }

  lemma MarkIsSkipped(s: seq<byte>, mark: seq<byte>, w: seq<byte>)
    requires mark == [] || (mark == BOM && |s| > 4)
    requires At(s, 0, mark) && At(s, |mark|, w) && AreWs(w, Wide) && |mark| + |w| < |s| && s[|mark| + |w|] < 0xEF
    ensures SkipBom(s) == |mark|
  {
    if w != [] {
      AtFirst(s, |mark|, w);
    }
    if mark == BOM {
      assert s[0 + 0] == BOM[0] && s[0 + 1] == BOM[1] && s[0 + 2] == BOM[2];
      assert s[..3] == BOM;
    } else {
      assert |s| > 4 ==> s[..3][0] == s[0];
    }
  }

  lemma {:induction false} SkipsToNul(s: seq<byte>, e: nat, w: seq<byte>)
    requires At(s, e, w) && AreWs(w, Wide) && e + |w| + 1 == |s| && s[e + |w|] == NUL
    ensures Skip(s, e) == e + |w|
    decreases |w|
  {
    if w == [] {
      assert BlanksEnd(s, e + 1) == e + 1;
    } else {
      AtFirst(s, e, w);
      assert w == [w[0]] + w[1..];
      AtSplit(s, e, [w[0]], w[1..]);
      SkipsToNul(s, e + 1, w[1..]);
    }
  }

  // ----- behind the text -----

  lemma {:induction false} SkipsExactly(s: seq<byte>, i: nat)
    requires i < |s|
    ensures if forall k :: i <= k < |s| ==> s[k] <= 32 then Skip(s, i) == |s| - 1 else s[Skip(s, i)] > 32
    decreases |s| - i
  {
    if s[i] <= 32 && i + 1 < |s| {
      SkipsExactly(s, i + 1);
    } else if i + 1 == |s| {
      assert BlanksEnd(s, i + 1) == i + 1;
    }
  }

  /** Where a terminating NUL is required, only white space (NULs included) may stand between the value
      and the end of the buffer. */
  lemma TrailingBytes(s: seq<byte>)
    requires s != [] && s[|s| - 1] == NUL
    ensures ParseText(s, true) ==
      match ParseText(s, false)
      case Fail => Fail
      case Done(v, e) => if e < |s| && forall k :: e <= k < |s| ==> s[k] <= 32 then Done(v, |s| - 1) else Fail
  {
    hide ParseValue, Skip, SkipBom;
    var r := ParseText(s, false);
    if r.Done? && r.next < |s| {
      SkipsExactly(s, r.next);
    } else if r.Done? {
      SkipsNoMore(s);
    }
  }

  lemma SkipsNoMore(s: seq<byte>)
    ensures Skip(s, |s|) == |s|
  {
  }

  lemma GarbageText(d: Document, b: byte, rest: seq<byte>)
    ensures DocumentText(d) + [b] + rest == d.before + SyntaxText(d.root) + (d.after + [b] + rest)
  {
    hide SyntaxText;
  }

  lemma FourStand(s: seq<byte>, a: seq<byte>, t: seq<byte>, c: seq<byte>, b: byte, rest: seq<byte>)
    requires At(s, 0, a + t + (c + [b] + rest))
    ensures At(s, 0, a) && At(s, |a|, t) && At(s, |a| + |t|, c)
    ensures |a| + |t| + |c| < |s| && s[|a| + |t| + |c|] == b
  {
    hide At;
    AtSplit3(s, 0, a, t, c + [b] + rest);
    AtSplit3(s, |a| + |t|, c, [b], rest);
    AtFirst(s, |a| + |t| + |c|, [b]);
  }

  lemma GarbageStands(d: Document, b: byte, rest: seq<byte>)
    ensures var (s, v) := (DocumentText(d) + [b] + rest, |d.before|);
      var e := v + |SyntaxText(d.root)|;
      && At(s, 0, d.before) && At(s, v, SyntaxText(d.root)) && At(s, e, d.after)
      && e + |d.after| < |s| && s[e + |d.after|] == b
  {
    hide SyntaxText, DocumentText, At;
    GarbageText(d, b, rest);
    Stands(DocumentText(d) + [b] + rest);
    FourStand(DocumentText(d) + [b] + rest, d.before, SyntaxText(d.root), d.after, b, rest);
  }

  /** Anything else between the text and the NUL is refused. */
  lemma GarbageIsRefused(d: Document, b: byte, rest: seq<byte>)
    requires IsDocument(d, Wide) && b > 32
    requires d.root.Numeral? && d.after == [] ==> !IsNumberChar(b)
    ensures ParseText(DocumentText(d) + [b] + rest, true).Fail?
  {
    hide At, AreWs, SyntaxText, DocumentText, ParseText, ParseValue, ValueOf, Depth, IsSyntax, Skip, SkipBom;
    var s, v := DocumentText(d) + [b] + rest, |d.before|;
    var e := v + |SyntaxText(d.root)|;
    GarbageStands(d, b, rest);
    AtFirstOf(s, v, d.root);
    NothingStands(s);
    MarkIsSkipped(s, [], d.before);
    SkipsWs(s, 0, d.before);
    SkipsWs(s, e, d.after);
    if d.root.Numeral? {
      EndsBeforeWs(s, e, d.after);
    }
    ValueIsParsed(d.root, s, v, 0);
    RootIsRefused(s, v, e, e + |d.after|, ValueOf(d.root), Depth(ValueOf(d.root)));
  }

  lemma NothingStands(s: seq<byte>)
    ensures At(s, 0, [])
  {
  }

  lemma RootIsRefused(s: seq<byte>, v: nat, e: nat, k: nat, x: Json, a: nat)
    requires s != [] && SkipBom(s) == 0 && Skip(s, 0) == v && ParseValue(s, v, 0) == Within(a, Done(x, e))
    requires e <= |s| && Skip(s, e) == k < |s| && s[k] != NUL
    ensures ParseText(s, true).Fail?
  {
    hide ParseValue, SkipBom, Skip;
  }
}
