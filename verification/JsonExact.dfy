/** The parser takes nothing but the texts derived by the grammar with its wider lexical rules. */
module JsonExact {
  import opened Bytes
  import opened JsonStrings
  import opened JsonText
  import opened JsonSyntax
  import opened JsonGrammar
  import opened JsonParses
  import opened Wrappers

  // ----- what is passed -----

  lemma {:induction false} WsPassed(s: seq<byte>, i: nat)
    requires i <= |s|
    ensures AreWs(s[i..Skip(s, i)], Wide) && Skip(s, Skip(s, i)) == Skip(s, i)
    decreases |s| - i
  {
    var j := Skip(s, i);
    if i < |s| && s[i] <= 32 {
      if i + 1 < |s| {
        WsPassed(s, i + 1);
        assert s[i..j] == [s[i]] + s[i + 1..j];
      } else {
        assert BlanksEnd(s, i + 1) == i + 1;
      }
    }
  }

  lemma {:induction false} DecimalPassed(s: seq<byte>, i: nat, j: nat)
    requires i <= j <= |s| && forall k :: i <= k < j ==> IsDigit(s[k])
    ensures IsDecimalNumber(s[i..j], DecimalValue(s, i, j))
    decreases j - i
  {
    if i < j {
      var n := DecimalValue(s, i, j - 1);
      assert IsDigit(s[j - 1]);
      DecimalPassed(s, i, j - 1);
      assert s[i..j][..j - 1 - i] == s[i..j - 1];
      assert (n * 10 + (s[j - 1] - ZERO)) / 10 == n;
    }
  }

  lemma {:induction false} RunIsShort(s: seq<byte>, i: nat, k: nat)
    requires i <= |s|
    ensures RunEnd(s, i, k) <= i + k
    decreases k
  {
    if k > 0 && i < |s| && IsNumberChar(s[i]) {
      RunIsShort(s, i + 1, k - 1);
    }
  }

  lemma NumeralIsFound(s: seq<byte>, i: nat) returns (c: Syntax)
    requires i <= |s| && ParseNumber(s, i).Done?
    ensures IsSyntax(c, Wide) && SyntaxText(c) == s[i..ParseNumber(s, i).next] && ValueOf(c) == ParseNumber(s, i).value
    ensures ParseNumber(s, i).value.Number?
  {
    hide RunEnd, DigitsEnd, IsDecimalNumber;
    var stop := RunEnd(s, i, NUMBER_LENGTH);
    RunIsShort(s, i, NUMBER_LENGTH);
    var d := if i < stop && s[i] == MINUS then i + 1 else i;
    var e := DigitsEnd(s, d, stop);
    DecimalPassed(s, d, e);
    c := Numeral(d > i, s[d..e], DecimalValue(s, d, e));
    assert s[i..e] == s[i..d] + s[d..e];
  }

  lemma StringIsFound(s: seq<byte>, i: nat)
    requires ParseString(s, i).Some?
    ensures var (x, e) := ParseString(s, i).value;
      i < e <= |s| && IsString(s[i..e], x, Wide)
  {
    hide ScanEnd, Unescape, CString;
    var q := ScanEnd(s, i + 1).value;
    var t := s[i..q + 1];
    Slice(s, i, q + 1);
    ScanStays(s, i, t, 1);
    UnescapeMoves(s, i, t, 1, q - i);
  }

  lemma Slice(s: seq<byte>, i: nat, e: nat)
    requires i <= e <= |s|
    ensures At(s, i, s[i..e])
  {
  }

  lemma {:induction false} ScanStays(s: seq<byte>, i: nat, t: seq<byte>, k: nat)
    requires At(s, i, t) && ScanEnd(s, i + k).Some? && ScanEnd(s, i + k).value < i + |t|
    ensures ScanEnd(t, k) == Some(ScanEnd(s, i + k).value - i)
    decreases |t| - k
  {
    assert s[i + k] == t[k];
    if t[k] == BACKSLASH {
      ScanStays(s, i, t, k + 2);
    } else if t[k] != QUOTE {
      ScanStays(s, i, t, k + 1);
    }
  }

  // ----- values -----

  lemma ReadsSlice(s: seq<byte>, i: nat, t: seq<byte>)
    requires Reads(s, i, t)
    ensures s[i..i + |t|] == t
  {
  }

  lemma {:induction false} ValueIsFound(s: seq<byte>, i: nat, depth: nat) returns (c: Syntax)
    requires i <= |s| && ParseValue(s, i, depth).Done? && depth <= NESTING_LIMIT
    ensures var (v, e) := (ParseValue(s, i, depth).value, ParseValue(s, i, depth).next);
      && IsSyntax(c, Wide) && SyntaxText(c) == s[i..e] && ValueOf(c) == v && depth + Depth(v) <= NESTING_LIMIT
    decreases |s| - i, 2
  {
    hide ParseArray, ParseObject, ParseString, ParseNumber, IsString, IsNumeral, ItemsDepth, MembersDepth;
    if Reads(s, i, NULL_TEXT) {
      c := Word(Null);
    } else if Reads(s, i, FALSE_TEXT) {
      c := Word(False);
    } else if Reads(s, i, TRUE_TEXT) {
      c := Word(True);
    } else if s[i] == QUOTE {
      StringIsFound(s, i);
      c := Quoted(s[i..ParseString(s, i).value.1], ParseString(s, i).value.0);
    } else if s[i] == MINUS || IsDigit(s[i]) {
      c := NumeralIsFound(s, i);
    } else if s[i] == LBRACKET {
      c := ListIsFound(s, i, depth);
    } else {
      c := RecordIsFound(s, i, depth);
    }
  }

  lemma {:induction false} ListIsFound(s: seq<byte>, i: nat, depth: nat) returns (c: Syntax)
    requires i < |s| && s[i] == LBRACKET && ParseArray(s, i, depth).Done? && depth <= NESTING_LIMIT
    ensures var (v, e) := (ParseArray(s, i, depth).value, ParseArray(s, i, depth).next);
      && IsSyntax(c, Wide) && SyntaxText(c) == s[i..e] && ValueOf(c) == v && depth + Depth(v) <= NESTING_LIMIT
    decreases |s| - i, 1
  {
    hide ParseItems, ParseValue, Skip, AreWs, IsElement, ElementsText;
    var j, e := Skip(s, i + 1), ParseArray(s, i, depth).next;
    WsPassed(s, i + 1);
    if s[j] == RBRACKET {
      c := List(s[i + 1..j], []);
      assert s[i..e] == [LBRACKET] + s[i + 1..j] + [RBRACKET];
    } else {
      SameItems(s, i + 1, j, depth + 1);
      var es := ItemsAreFound(s, i + 1, depth + 1);
      c := List([], es);
      NoWs();
      assert s[i..e] == [LBRACKET] + s[i + 1..e];
      Bracketed([LBRACKET], ElementsText(es), [RBRACKET]);
    }
  }

  lemma NoWs()
    ensures AreWs([], Wide)
  {
  }

  lemma Bracketed(a: seq<byte>, b: seq<byte>, c: seq<byte>)
    ensures a + b + c == a + (b + c)
  {
  }

  lemma {:induction false} ItemsAreFound(s: seq<byte>, i: nat, depth: nat) returns (es: seq<Element>)
    requires i <= |s| && ParseItems(s, i, depth).Done? && depth <= NESTING_LIMIT
    ensures var (vs, z) := (ParseItems(s, i, depth).value, ParseItems(s, i, depth).next);
      && es != [] && (forall k :: 0 <= k < |es| ==> IsElement(es[k], Wide))
      && ElementsText(es) + [RBRACKET] == s[i..z] && ItemsOf(es) == vs && depth + ItemsDepth(vs) <= NESTING_LIMIT
    decreases |s| - i, 3
  {
    hide ParseValue, Skip, AreWs, IsSyntax, SyntaxText, ValueOf, Depth, ElementsText, ItemsOf, ItemsDepth;
    var v, z := Skip(s, i), ParseItems(s, i, depth).next;
    var c := ValueIsFound(s, v, depth);
    var e := ParseValue(s, v, depth).next;
    var k := Skip(s, e);
    WsPassed(s, i);
    WsPassed(s, e);
    var x := Element(s[i..v], c, s[e..k]);
    assert s[i..k] == ElementText(x);
    if s[k] == COMMA {
      var more := ItemsAreFound(s, k + 1, depth);
      es := [x] + more;
      ElementsAdd(x, more);
      assert s[i..z] == s[i..k] + ([COMMA] + s[k + 1..z]);
      Regroup4(ElementText(x), [COMMA], ElementsText(more), [RBRACKET]);
      ItemsAdd(x, more);
    } else {
      es := [x];
      OneElement(x);
      assert s[i..z] == s[i..k] + [RBRACKET];
    }
  }

  lemma Regroup4(a: seq<byte>, b: seq<byte>, c: seq<byte>, d: seq<byte>)
    ensures a + (b + c) + d == a + (b + (c + d))
  {
  }

  lemma ElementsAdd(x: Element, more: seq<Element>)
    requires more != []
    ensures ElementsText([x] + more) == ElementText(x) + ([COMMA] + ElementsText(more))
  {
    assert ([x] + more)[1..] == more;
  }

  lemma ItemsAdd(x: Element, more: seq<Element>)
    ensures ItemsOf([x] + more) == [ValueOf(x.value)] + ItemsOf(more)
    ensures ItemsDepth(ItemsOf([x] + more)) == Max(Depth(ValueOf(x.value)), ItemsDepth(ItemsOf(more)))
  {
    assert ([x] + more)[1..] == more;
    assert ([ValueOf(x.value)] + ItemsOf(more))[1..] == ItemsOf(more);
  }

  lemma OneElement(x: Element)
    ensures ElementsText([x]) == ElementText(x) && ItemsOf([x]) == [ValueOf(x.value)]
    ensures ItemsDepth([ValueOf(x.value)]) == Depth(ValueOf(x.value))
  {
    assert [x][1..] == [] && [ValueOf(x.value)][1..] == [];
    assert ItemsOf([]) == [];
  }

  lemma {:induction false} RecordIsFound(s: seq<byte>, i: nat, depth: nat) returns (c: Syntax)
    requires i < |s| && s[i] == LBRACE && ParseObject(s, i, depth).Done? && depth <= NESTING_LIMIT
    ensures var (v, e) := (ParseObject(s, i, depth).value, ParseObject(s, i, depth).next);
      && IsSyntax(c, Wide) && SyntaxText(c) == s[i..e] && ValueOf(c) == v && depth + Depth(v) <= NESTING_LIMIT
    decreases |s| - i, 1
  {
    hide ParseMembers, ParseValue, Skip, AreWs, IsEntry, EntriesText;
    var j, e := Skip(s, i + 1), ParseObject(s, i, depth).next;
    WsPassed(s, i + 1);
    if s[j] == RBRACE {
      c := Record(s[i + 1..j], []);
      assert s[i..e] == [LBRACE] + s[i + 1..j] + [RBRACE];
    } else {
      SameMembers(s, i + 1, j, depth + 1);
      var es := EntriesAreFound(s, i + 1, depth + 1);
      c := Record([], es);
      NoWs();
      assert s[i..e] == [LBRACE] + s[i + 1..e];
      Bracketed([LBRACE], EntriesText(es), [RBRACE]);
    }
  }

  /** One member, without what follows its value. */
  lemma {:induction false} EntryIsFound(s: seq<byte>, i: nat, depth: nat) returns (x: Entry)
    requires i <= |s| && ParseMember(s, i, depth).Done? && depth <= NESTING_LIMIT
    ensures var (m, e) := (ParseMember(s, i, depth).value, ParseMember(s, i, depth).next);
      && IsEntry(x, Wide) && x.after == [] && EntryText(x) == s[i..e]
      && Member(x.name, ValueOf(x.value)) == m && depth + Depth(m.value) <= NESTING_LIMIT
    decreases |s| - i, 3
  {
    hide ParseValue, ParseString, Skip, AreWs, IsSyntax, IsString, SyntaxText, ValueOf, Depth;
    var q := Skip(s, i);
    var (name, p) := ParseString(s, q).value;
    var c := Skip(s, p);
    var b := Skip(s, c + 1);
    WsPassed(s, i);
    StringIsFound(s, q);
    WsPassed(s, p);
    WsPassed(s, c + 1);
    var v := ValueIsFound(s, b, depth);
    var e := ParseValue(s, b, depth).next;
    NoWs();
    x := Entry(s[i..q], s[q..p], name, s[p..c], s[c + 1..b], v, []);
    SixSlices(s, i, q, p, c, b, e);
  }

  lemma SixSlices(s: seq<byte>, i: nat, q: nat, p: nat, c: nat, b: nat, e: nat)
    requires i <= q <= p <= c < b <= e <= |s|
    ensures s[i..q] + s[q..p] + s[p..c] + ([s[c]] + s[c + 1..b] + s[b..e]) + [] == s[i..e]
  {
    Joined(s, i, q, p);
    Joined(s, i, p, c);
    Joined(s, c, c + 1, b);
    Joined(s, c, b, e);
    Joined(s, i, c, e);
    assert s[c..c + 1] == [s[c]];
  }

  lemma Joined(s: seq<byte>, i: nat, j: nat, k: nat)
    requires i <= j <= k <= |s|
    ensures s[i..j] + s[j..k] == s[i..k]
  {
  }

  lemma {:induction false} EntriesAreFound(s: seq<byte>, i: nat, depth: nat) returns (es: seq<Entry>)
    requires i <= |s| && ParseMembers(s, i, depth).Done? && depth <= NESTING_LIMIT
    ensures var (ms, z) := (ParseMembers(s, i, depth).value, ParseMembers(s, i, depth).next);
      && es != [] && (forall k :: 0 <= k < |es| ==> IsEntry(es[k], Wide))
      && EntriesText(es) + [RBRACE] == s[i..z] && MembersOf(es) == ms && depth + MembersDepth(ms) <= NESTING_LIMIT
    decreases |s| - i, 4
  {
    hide ParseMember, Skip, AreWs, IsSyntax, IsString, SyntaxText, ValueOf, Depth;
    hide EntryText, EntriesText, MembersOf, MembersDepth;
    var z := ParseMembers(s, i, depth).next;
    var y := EntryIsFound(s, i, depth);
    var e := ParseMember(s, i, depth).next;
    var k := Skip(s, e);
    WsPassed(s, e);
    var x := y.(after := s[e..k]);
    Followed(y, s[e..k]);
    assert s[i..k] == s[i..e] + s[e..k];
    if s[k] == COMMA {
      var more := EntriesAreFound(s, k + 1, depth);
      es := [x] + more;
      EntriesAdd(x, more);
      assert s[i..z] == s[i..k] + ([COMMA] + s[k + 1..z]);
      Regroup4(EntryText(x), [COMMA], EntriesText(more), [RBRACE]);
      MembersAdd(x, more);
    } else {
      es := [x];
      OneEntry(x);
      assert s[i..z] == s[i..k] + [RBRACE];
    }
  }

  lemma Followed(y: Entry, w: seq<byte>)
    requires y.after == []
    ensures EntryText(y.(after := w)) == EntryText(y) + w
  {
  }

  lemma EntriesAdd(x: Entry, more: seq<Entry>)
    requires more != []
    ensures EntriesText([x] + more) == EntryText(x) + ([COMMA] + EntriesText(more))
  {
    assert ([x] + more)[1..] == more;
  }

  lemma MembersAdd(x: Entry, more: seq<Entry>)
    ensures var m := Member(x.name, ValueOf(x.value));
      && MembersOf([x] + more) == [m] + MembersOf(more)
      && MembersDepth(MembersOf([x] + more)) == Max(Depth(m.value), MembersDepth(MembersOf(more)))
  {
    var m := Member(x.name, ValueOf(x.value));
    assert ([x] + more)[1..] == more;
    assert ([m] + MembersOf(more))[1..] == MembersOf(more);
  }

  lemma OneEntry(x: Entry)
    ensures var m := Member(x.name, ValueOf(x.value));
      EntriesText([x]) == EntryText(x) && MembersOf([x]) == [m] && MembersDepth([m]) == Depth(m.value)
  {
    var m := Member(x.name, ValueOf(x.value));
    assert [x][1..] == [] && [m][1..] == [];
    assert MembersOf([]) == [];
  }

  // ----- the whole text -----

  function Buffer(d: Document, bom: bool): seq<byte> {
    (if bom then BOM else []) + DocumentText(d) + [NUL]
  }

  /** Whatever is accepted is a document between an optional byte order mark and the NUL at the end of
      the buffer. */
  lemma DocumentIsFound(s: seq<byte>) returns (d: Document, bom: bool)
    requires ParseText(s, true).Done?
    ensures IsDocument(d, Wide) && Depth(ValueOf(d.root)) <= NESTING_LIMIT
    ensures s == Buffer(d, bom)
    ensures ParseText(s, true) == Done(ValueOf(d.root), |s| - 1)
  {
    hide ParseValue, Skip, AreWs, IsSyntax, SyntaxText, ValueOf, Depth;
    var m := SkipBom(s);
    bom := m == 3;
    var v := Skip(s, m);
    var c := ValueIsFound(s, v, 0);
    var e := ParseValue(s, v, 0).next;
    var k := Skip(s, e);
    WsPassed(s, m);
    WsPassed(s, e);
    SkipsExactly(s, e);
    d := Document(s[m..v], c, s[e..k]);
    assert s == s[..m] + (s[m..v] + s[v..e] + s[e..k]) + [NUL];
  }

  /** The parser, where it is to find a NUL behind the text, accepts exactly the documents by its own
      lexical rules that are not nested too deep. */
  lemma AcceptsExactly(s: seq<byte>)
    ensures ParseText(s, true).Done? <==>
      exists d, bom :: s == Buffer(d, bom) && IsDocument(d, Wide) && Depth(ValueOf(d.root)) <= NESTING_LIMIT
  {
    hide ParseText, IsDocument, DocumentText, ValueOf, Depth;
    if ParseText(s, true).Done? {
      var d, bom := DocumentIsFound(s);
    }
    if d, bom :| s == Buffer(d, bom) && IsDocument(d, Wide) && Depth(ValueOf(d.root)) <= NESTING_LIMIT {
      DocumentIsParsed(d, bom, true);
    }
  }
}
