/** cJSON_Minify of srv/lib/c_json.c: the two-state transducer it runs in place, and when it undoes
    the formatting of printed text. */
module JsonMinify {
  import opened Bytes

  /** A C string with its NUL; nothing is read behind the first one. */
  ghost predicate IsCText(s: seq<byte>) {
    s != [] && s[|s| - 1] == NUL
  }

  // ----- the transducer -----

  /** The offset at which skip_oneline_comment stops. */
  function OneLineEnd(s: seq<byte>, i: nat): (j: nat)
    requires i < |s| && s[|s| - 1] == NUL
    ensures i <= j < |s|
    decreases |s| - i
  {
    if s[i] == NUL then i else if s[i] == LF then i + 1 else OneLineEnd(s, i + 1)
  }

  /** The offset at which skip_multiline_comment stops. */
  function MultiLineEnd(s: seq<byte>, i: nat): (j: nat)
    requires i < |s| && s[|s| - 1] == NUL
    ensures i <= j < |s|
    decreases |s| - i
  {
    if s[i] == NUL then i
    else if s[i] == STAR && s[i + 1] == SLASH then i + 2
    else MultiLineEnd(s, i + 1)
  }

  predicate IsBlank(b: byte) { b == SP || b == HT || b == CR || b == LF }

  /** What is written for the input from i on, outside of strings. */
  function Outside(s: seq<byte>, i: nat): seq<byte>
    requires i < |s| && s[|s| - 1] == NUL
    decreases |s| - i
  {
    if s[i] == NUL then []
    else if IsBlank(s[i]) then Outside(s, i + 1)
    else if s[i] == SLASH then
      if s[i + 1] == SLASH then Outside(s, OneLineEnd(s, i + 2))
      else if s[i + 1] == STAR then Outside(s, MultiLineEnd(s, i + 2))
      else Outside(s, i + 1)
    else if s[i] == QUOTE then [QUOTE] + InString(s, i + 1)
    else [s[i]] + Outside(s, i + 1)
  }

  /** The same inside a string. Only a backslash right before a quote is taken for an escape. */
  function InString(s: seq<byte>, i: nat): seq<byte>
    requires i < |s| && s[|s| - 1] == NUL
    decreases |s| - i
  {
    if s[i] == NUL then []
    else if s[i] == QUOTE then [QUOTE] + Outside(s, i + 1)
    else if s[i] == BACKSLASH && s[i + 1] == QUOTE then [BACKSLASH, QUOTE] + InString(s, i + 2)
    else [s[i]] + InString(s, i + 1)
  }

  function After(s: seq<byte>, i: nat, inString: bool): seq<byte>
    requires i < |s| && s[|s| - 1] == NUL
  {
    if inString then InString(s, i) else Outside(s, i)
  }

  // ----- in place -----

  method SkipOnelineComment(a: array<byte>, input: nat, ghost s: seq<byte>) returns (next: nat)
    requires IsCText(s) && |s| <= a.Length && input + 2 < |s| && a[input..|s|] == s[input..]
    ensures next == OneLineEnd(s, input + 2)
  {
    next := input + 2;
    while a[next] != NUL
      invariant input + 2 <= next < |s| && OneLineEnd(s, next) == OneLineEnd(s, input + 2)
      decreases |s| - next
    {
      assert a[next] == a[input..|s|][next - input];
      if a[next] == LF {
        return next + 1;
      }
      next := next + 1;
    }
    assert a[next] == a[input..|s|][next - input];
  }

  method SkipMultilineComment(a: array<byte>, input: nat, ghost s: seq<byte>) returns (next: nat)
    requires IsCText(s) && |s| <= a.Length && input + 2 < |s| && a[input..|s|] == s[input..]
    ensures next == MultiLineEnd(s, input + 2)
  {
    forall k | input <= k < |s| ensures a[k] == s[k] {
      assert a[k] == a[input..|s|][k - input];
    }
    next := input + 2;
    while a[next] != NUL
      invariant input + 2 <= next < |s| && MultiLineEnd(s, next) == MultiLineEnd(s, input + 2)
      decreases |s| - next
    {
      if a[next] == STAR && a[next + 1] == SLASH {
        return next + 2;
      }
      next := next + 1;
    }
  }

  /** The input still to be read is untouched, and what has been written is out. */
  ghost predicate Going(a: array<byte>, s: seq<byte>, input: nat, output: nat, out: seq<byte>)
    reads a
  {
    && IsCText(s) && |s| <= a.Length && output <= input < |s|
    && (forall k :: input <= k < |s| ==> a[k] == s[k])
    && a[..output] == out
  }

  /** One round of the loop of minify_string; done means past the closing quote. */
  method StringRound(a: array<byte>, input0: nat, output0: nat, ghost s: seq<byte>, ghost out0: seq<byte>)
    returns (input: nat, output: nat, done: bool, ghost out: seq<byte>)
    requires Going(a, s, input0, output0, out0) && a[input0] != NUL
    modifies a
    ensures Going(a, s, input, output, out) && input > input0
    ensures out0 + InString(s, input0) == out + After(s, input, !done)
  {
    hide Outside, InString;
    InStringStep(s, input0);
    done := a[input0] == QUOTE;
    a[output0] := a[input0];
    if !done && a[input0] == BACKSLASH && a[input0 + 1] == QUOTE {
      a[output0 + 1] := a[input0 + 1];
      input, output, out := input0 + 2, output0 + 2, out0 + [BACKSLASH, QUOTE];
      Reassociate(out0, [BACKSLASH, QUOTE], InString(s, input));
    } else {
      input, output, out := input0 + 1, output0 + 1, out0 + [s[input0]];
      Reassociate(out0, [s[input0]], After(s, input, !done));
    }
  }

  method MinifyString(a: array<byte>, input0: nat, output0: nat, ghost s: seq<byte>, ghost out0: seq<byte>)
    returns (input: nat, output: nat, ghost out: seq<byte>)
    requires Going(a, s, input0, output0, out0) && a[input0] == QUOTE
    modifies a
    ensures Going(a, s, input, output, out) && input > input0
    ensures out0 + Outside(s, input0) == out + Outside(s, input)
  {
    hide Outside, InString;
    OutsideStep(s, input0);
    a[output0] := a[input0];
    input, output, out := input0 + 1, output0 + 1, out0 + [QUOTE];
    Reassociate(out0, [QUOTE], InString(s, input));
    while a[input] != NUL
      invariant Going(a, s, input, output, out) && input > input0
      invariant out0 + Outside(s, input0) == out + InString(s, input)
      decreases |s| - input
    {
      var done;
      input, output, done, out := StringRound(a, input, output, s, out);
      if done {
        return;
      }
    }
    InStringStep(s, input);
    OutsideStep(s, input);
  }

  lemma Reassociate(a: seq<byte>, b: seq<byte>, c: seq<byte>)
    ensures a + (b + c) == (a + b) + c
  {
  }

  lemma OutsideStep(s: seq<byte>, i: nat)
    requires IsCText(s) && i < |s|
    ensures s[i] == NUL ==> Outside(s, i) == []
    ensures s[i] == QUOTE ==> i + 1 < |s| && Outside(s, i) == [QUOTE] + InString(s, i + 1)
    ensures IsBlank(s[i]) ==> i + 1 < |s| && Outside(s, i) == Outside(s, i + 1)
    ensures s[i] !in {NUL, QUOTE, SLASH} && !IsBlank(s[i]) ==>
              i + 1 < |s| && Outside(s, i) == [s[i]] + Outside(s, i + 1)
  {
  }

  lemma InStringStep(s: seq<byte>, i: nat)
    requires IsCText(s) && i < |s|
    ensures s[i] == NUL ==> InString(s, i) == []
    ensures s[i] == QUOTE ==> i + 1 < |s| && InString(s, i) == [QUOTE] + Outside(s, i + 1)
    ensures s[i] == BACKSLASH && s[i + 1] == QUOTE ==>
              i + 2 < |s| && InString(s, i) == [BACKSLASH, QUOTE] + InString(s, i + 2)
    ensures s[i] !in {NUL, QUOTE} && !(s[i] == BACKSLASH && s[i + 1] == QUOTE) ==>
              i + 1 < |s| && InString(s, i) == [s[i]] + InString(s, i + 1)
  {
  }

  /** One round of the loop of cJSON_Minify. */
  method MinifyRound(json: array<byte>, input0: nat, into0: nat, ghost s: seq<byte>, ghost out0: seq<byte>)
    returns (input: nat, into: nat, ghost out: seq<byte>)
    requires Going(json, s, input0, into0, out0) && json[input0] != NUL
    modifies json
    ensures Going(json, s, input, into, out) && input > input0
    ensures out0 + Outside(s, input0) == out + Outside(s, input)
  {
    hide InString;
    input, into, out := input0, into0, out0;
    var c := json[input];
    if c == SP || c == HT || c == CR || c == LF {
      input := input + 1;
    } else if c == SLASH {
      if json[input + 1] == SLASH {
        input := SkipOnelineComment(json, input, s);
      } else if json[input + 1] == STAR {
        input := SkipMultilineComment(json, input, s);
      } else {
        input := input + 1;
      }
    } else if c == QUOTE {
      input, into, out := MinifyString(json, input, into, s, out);
    } else {
      Reassociate(out, [c], Outside(s, input + 1));
      json[into] := c;
      out := out + [c];
      input, into := input + 1, into + 1;
    }
  }

  /** cJSON_Minify: the text is rewritten where it stands, output never passing input. */
  method Minify(json: array<byte>, ghost n: nat)
    requires n < json.Length && json[n] == NUL
    modifies json
    ensures var m := Outside(old(json[..n + 1]), 0);
            |m| < json.Length && json[..|m|] == m && json[|m|] == NUL
  {
    ghost var s := json[..n + 1];
    ghost var out: seq<byte> := [];
    hide Outside, InString;
    var input: nat, into: nat := 0, 0;
    assert out + Outside(s, 0) == Outside(s, 0);
    while json[input] != NUL
      invariant Going(json, s, input, into, out)
      invariant Outside(s, 0) == out + Outside(s, input)
      decreases |s| - input
    {
      input, into, out := MinifyRound(json, input, into, s, out);
    }
    OutsideStep(s, input);
    assert out + [] == out;
    json[into] := NUL;
  }
}
