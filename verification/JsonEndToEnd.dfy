/** The JSON code as a whole: an item is printed into a buffer, minified there, parsed again and
    compared with the original. */
module JsonEndToEnd {
  import opened Bytes
  import opened JsonText
  import opened JsonItems
  import opened JsonTrees
  import JsonCompare
  import JsonGrammar
  import JsonMinify
  import JsonMinifyUndoes
  import JsonParser
  import JsonPrinter
  import JsonRoundTrip
  import JsonTreeCompare

  /** Printing and parsing make a copy: a new tree for the same value. It is made unless the text is
      longer than the printer supports or the value nested deeper than the parser supports. */
  method PrintAndParse(item: Item, ghost v: View, format: bool) returns (copy: Item?, ghost w: View)
    requires Shows(item, v) && Printable(v.value)
    ensures copy != null <==>
            |Render(v.value, format, 0)| + 2 <= JsonPrinter.INT_MAX && Depth(v.value) <= JsonGrammar.NESTING_LIMIT
    ensures copy != null ==> Shows(copy, w) && w.value == v.value && fresh(copy) && fresh(w.below)
  {
    hide Render, Printable, JsonGrammar.ParseText;
    w := v;
    var text := JsonPrinter.Print(item, v, format);
    if text == null {
      return null, w;
    }
    JsonRoundTrip.RoundTrip(v.value, format, true);
    var parsed, end, sh, below := JsonParser.ParseWithLengthOpts(text[..], true);
    copy := parsed;
    w := View(sh, below, v.value);
  }

  /** Formatted text, minified in place, is parsed to the same value too, if no string in it ends in a
      backslash where that does harm; and the text is then the unformatted one. */
  method PrintMinifyAndParse(item: Item, ghost v: View) returns (copy: Item?, ghost w: View)
    requires Shows(item, v) && Printable(v.value) && JsonMinifyUndoes.Harmless(v.value, true)
    ensures copy != null <==>
            |Render(v.value, true, 0)| + 2 <= JsonPrinter.INT_MAX && Depth(v.value) <= JsonGrammar.NESTING_LIMIT
    ensures copy != null ==> Shows(copy, w) && w.value == v.value
  {
    hide Render, Printable, JsonGrammar.ParseText, JsonMinify.Outside;
    w := v;
    var printed := JsonPrinter.Print(item, v, true);
    if printed == null {
      return null, w;
    }
    var text := new byte[printed.Length];
    forall k | 0 <= k < text.Length {
      text[k] := printed[k];
    }
    ghost var n, short := |Render(v.value, true, 0)|, Render(v.value, false, 0);
    assert text[..n + 1] == text[..] == printed[..] == Render(v.value, true, 0) + [NUL];
    JsonMinifyUndoes.MinifyGivesUnformatted(v.value, true);
    JsonPrinter.TextHasNoNul(v.value, false, 0);
    JsonMinify.Minify(text, n);
    var length := StringLength(text, |short|);
    JsonRoundTrip.RoundTrip(v.value, false, true);
    assert text[..length + 1] == short + [NUL];
    var parsed, end, sh, below := JsonParser.ParseWithLengthOpts(text[..length + 1], true);
    copy := parsed;
    w := View(sh, below, v.value);
  }

  /** strlen. */
  method StringLength(text: array<byte>, ghost n: nat) returns (length: nat)
    requires n < text.Length && text[n] == NUL && NUL !in text[..n]
    ensures length == n
  {
    forall k | 0 <= k < n ensures text[k] != NUL {
      assert text[..n][k] == text[k];
    }
    length := 0;
    while text[length] != NUL
      invariant length <= n
      decreases n - length
    {
      length := length + 1;
    }
  }

  /** And the copy compares equal to the original exactly when names are not used ambiguously. */
  method PrintParseAndCompare(item: Item, ghost v: View, format: bool) returns (equal: bool)
    requires Shows(item, v) && Printable(v.value) && Depth(v.value) <= JsonGrammar.NESTING_LIMIT
    requires JsonCompare.SmallNumbers(v.value) && |Render(v.value, format, 0)| + 2 <= JsonPrinter.INT_MAX
    ensures equal <==> JsonCompare.Consistent(v.value)
  {
    hide Render, Printable, JsonCompare.Compare, JsonCompare.Consistent, JsonCompare.SmallNumbers;
    var copy, w := PrintAndParse(item, v, format);
    equal := JsonTreeCompare.Compare(item, copy, v, w);
    JsonCompare.CopiesOfConsistentTrees(v.value);
  }
}
