/** The quote and escape normaliser `handle_single_quote`: one pass over the
    argument text with two flags, one per quote kind, that strips quote
    delimiters, applies backslash escapes and squeezes unquoted spaces, and
    returns a single string. */
module Quoting {

  /** The test the unquoted branch makes before pushing a space. */
  predicate EndsInSpace(out: string) {
    out != [] && out[|out| - 1] == ' '
  }

  /** The normaliser as a function of the text still to read `s`, the two
      flags (`sq`: inside single quotes, `dq`: inside double quotes) and the
      text pushed so far `out`. A backslash looks one character ahead. */
  function Run(s: string, sq: bool, dq: bool, out: string): string
    decreases |s|
  {
    if s == [] then out
    else
      var ch := s[0];
      if ch == '"' && !sq then Run(s[1..], sq, !dq, out)
      else if dq then
        if ch == '\\' then
          if |s| > 1 then Run(s[2..], sq, dq, out + [s[1]]) else out
        else Run(s[1..], sq, dq, out + [ch])
      else if ch == '\'' then Run(s[1..], !sq, dq, out)
      else if sq then Run(s[1..], sq, dq, out + [ch])
      else if ch == ' ' && EndsInSpace(out) then Run(s[1..], sq, dq, out)
      else if ch == '\\' && |s| > 1 then Run(s[2..], sq, dq, out + [s[1]])
      else Run(s[1..], sq, dq, out + [ch])
  }

  /** What `handle_single_quote` returns for `s`: both flags start cleared. */
  function Normalise(s: string): string {
    Run(s, false, false, [])
  }

  /** `handle_single_quote`, as the loop the source runs: it peeks at one
      character, sometimes consumes the next one too, and pushes at most one. */
  method HandleSingleQuote(input: string) returns (result: string)
    ensures result == Normalise(input)
    ensures IsSubsequence(result, input) && |result| <= |input|
  {
    result := [];
    var inSingle, inDouble := false, false;
    var i := 0;
    while i < |input|
      invariant 0 <= i <= |input|
      invariant !(inSingle && inDouble)
      invariant Run(input[i..], inSingle, inDouble, result) == Normalise(input)
    {
      var ch := input[i];
      if ch == '"' && !inSingle {
        inDouble := !inDouble;
        i := i + 1;
      } else if inDouble {
        if ch == '\\' {
          if i + 1 < |input| {
            result := result + [input[i + 1]];
            i := i + 2;
          } else {
            i := i + 1;
          }
        } else {
          result := result + [ch];
          i := i + 1;
        }
      } else if ch == '\'' {
        inSingle := !inSingle;
        i := i + 1;
      } else if inSingle {
        result := result + [ch];
        i := i + 1;
      } else if ch == ' ' && EndsInSpace(result) {
        i := i + 1;
      } else if ch == '\\' && i + 1 < |input| {
        result := result + [input[i + 1]];
        i := i + 2;
      } else {
        result := result + [ch];
        i := i + 1;
      }
    }
    NormaliseSubsequence(input);
  }

  // ---------------------------------------------------------------------
  // Nothing is invented: the output is a subsequence of the input.

  /** `a` is obtained from `b` by deleting characters. */
  predicate IsSubsequence(a: string, b: string)
    decreases |b|
  {
    if a == [] then true
    else if b == [] then false
    else (a[|a| - 1] == b[|b| - 1] && IsSubsequence(a[..|a| - 1], b[..|b| - 1]))
         || IsSubsequence(a, b[..|b| - 1])
  }

  lemma {:induction false} SubsequenceLength(a: string, b: string)
    requires IsSubsequence(a, b)
    ensures |a| <= |b|
    decreases |b|
  {
    if a != [] {
      if a[|a| - 1] == b[|b| - 1] && IsSubsequence(a[..|a| - 1], b[..|b| - 1]) {
        SubsequenceLength(a[..|a| - 1], b[..|b| - 1]);
      } else {
        SubsequenceLength(a, b[..|b| - 1]);
      }
    }
  }

  /** Reading one more character keeps `a` a subsequence, whether it is
      dropped or copied. */
  lemma SubsequenceExtend(a: string, b: string, c: char)
    requires IsSubsequence(a, b)
    ensures IsSubsequence(a, b + [c])
    ensures IsSubsequence(a + [c], b + [c])
  {
    assert (b + [c])[..|b|] == b;
    assert (a + [c])[..|a|] == a;
  }

  lemma {:induction false} RunSubsequence(s: string, sq: bool, dq: bool, out: string, done: string)
    requires IsSubsequence(out, done)
    ensures IsSubsequence(Run(s, sq, dq, out), done + s)
    decreases |s|
  {
    if s == [] {
      assert done + s == done;
    } else {
      var ch := s[0];
      assert done + s == done + [ch] + s[1..];
      SubsequenceExtend(out, done, ch);
      if |s| > 1 {
        assert done + s == done + [ch] + [s[1]] + s[2..];
        SubsequenceExtend(out, done + [ch], s[1]);
      }
      if ch == '"' && !sq {
        RunSubsequence(s[1..], sq, !dq, out, done + [ch]);
      } else if dq {
        if ch == '\\' {
          if |s| > 1 {
            RunSubsequence(s[2..], sq, dq, out + [s[1]], done + [ch] + [s[1]]);
          }
        } else {
          RunSubsequence(s[1..], sq, dq, out + [ch], done + [ch]);
        }
      } else if ch == '\'' {
        RunSubsequence(s[1..], !sq, dq, out, done + [ch]);
      } else if sq {
        RunSubsequence(s[1..], sq, dq, out + [ch], done + [ch]);
      } else if ch == ' ' && EndsInSpace(out) {
        RunSubsequence(s[1..], sq, dq, out, done + [ch]);
      } else if ch == '\\' && |s| > 1 {
        RunSubsequence(s[2..], sq, dq, out + [s[1]], done + [ch] + [s[1]]);
      } else {
        RunSubsequence(s[1..], sq, dq, out + [ch], done + [ch]);
      }
    }
  }

  /** Every output character is an input character, in input order; so the
      output is never longer than the input. */
  lemma NormaliseSubsequence(s: string)
    ensures IsSubsequence(Normalise(s), s)
    ensures |Normalise(s)| <= |s|
  {
    RunSubsequence(s, false, false, [], []);
    assert [] + s == s;
    SubsequenceLength(Normalise(s), s);
  }

  // ---------------------------------------------------------------------
  // Text without quotes or backslashes: runs of spaces are squeezed.

  predicate Plain(s: string) {
    forall i :: 0 <= i < |s| ==> s[i] != '\'' && s[i] != '"' && s[i] != '\\'
  }

  /** Reference definition: drop every space whose left neighbour in the
      input is also a space. */
  function Collapse(s: string): string
    decreases |s|
  {
    if |s| <= 1 then s
    else Collapse(s[..|s| - 1]) + (if s[|s| - 1] == ' ' && s[|s| - 2] == ' ' then [] else [s[|s| - 1]])
  }

  /** Squeezing keeps the last character. */
  lemma {:induction false} CollapseLast(s: string)
    requires s != []
    ensures Collapse(s) != [] && Collapse(s)[|Collapse(s)| - 1] == s[|s| - 1]
    decreases |s|
  {
    if |s| > 1 {
      CollapseLast(s[..|s| - 1]);
    }
  }

  /** After squeezing no two spaces are adjacent. */
  lemma {:induction false} CollapseNoDoubleSpace(s: string)
    ensures forall i :: 0 <= i < |Collapse(s)| - 1 ==> !(Collapse(s)[i] == ' ' && Collapse(s)[i + 1] == ' ')
    decreases |s|
  {
    if |s| > 1 {
      var p := s[..|s| - 1];
      CollapseNoDoubleSpace(p);
      CollapseLast(p);
    }
  }

  /** Squeezing drops spaces only: every other character survives, in order. */
  lemma {:induction false} CollapseKeepsNonSpaces(s: string)
    ensures NonSpaces(Collapse(s)) == NonSpaces(s)
    decreases |s|
  {
    if |s| > 1 {
      var p := s[..|s| - 1];
      CollapseKeepsNonSpaces(p);
      NonSpacesAppend(Collapse(p), if s[|s| - 1] == ' ' && s[|s| - 2] == ' ' then [] else [s[|s| - 1]]);
      NonSpacesAppend(p, [s[|s| - 1]]);
      assert p + [s[|s| - 1]] == s;
    }
  }

  /** The characters of `s` other than the space. */
  function NonSpaces(s: string): string
    decreases |s|
  {
    if s == [] then []
    else NonSpaces(s[..|s| - 1]) + (if s[|s| - 1] == ' ' then [] else [s[|s| - 1]])
  }

  lemma {:induction false} NonSpacesAppend(a: string, b: string)
    ensures NonSpaces(a + b) == NonSpaces(a) + NonSpaces(b)
    decreases |b|
  {
    if b == [] {
      assert a + b == a;
    } else {
      var b' := b[..|b| - 1];
      assert (a + b)[..|a + b| - 1] == a + b';
      NonSpacesAppend(a, b');
    }
  }

  lemma {:induction false} PlainRunAt(t: string, rest: string, out: string, i: nat)
    requires Plain(t) && !EndsInSpace(out) && i <= |t|
    ensures Run(t + rest, false, false, out) == Run(t[i..] + rest, false, false, out + Collapse(t[..i]))
    decreases i
  {
    if i == 0 {
      assert t[0..] == t;
      assert out + Collapse(t[..0]) == out;
    } else {
      PlainRunAt(t, rest, out, i - 1);
      var ch := t[i - 1];
      assert ch != '"' && ch != '\'' && ch != '\\';
      assert t[i - 1..] + rest == [ch] + (t[i..] + rest);
      PlainCharStep(ch, t[i..] + rest, out + Collapse(t[..i - 1]));
      CollapseStep(t, out, i);
    }
  }

  /** One unquoted character that is neither a quote nor a backslash. */
  lemma PlainCharStep(ch: char, r: string, out: string)
    requires ch != '"' && ch != '\'' && ch != '\\'
    ensures Run([ch] + r, false, false, out) ==
            Run(r, false, false, if ch == ' ' && EndsInSpace(out) then out else out + [ch])
  {
    assert ([ch] + r)[0] == ch && ([ch] + r)[1..] == r;
  }

  /** Squeezing one more character, seen after a text that does not end in
      a space. */
  lemma CollapseStep(t: string, out: string, i: nat)
    requires !EndsInSpace(out) && 1 <= i <= |t|
    ensures var c := Collapse(t[..i - 1]);
            out + Collapse(t[..i]) ==
            (if t[i - 1] == ' ' && EndsInSpace(out + c) then out + c else out + c + [t[i - 1]])
  {
    var c := Collapse(t[..i - 1]);
    assert t[..i][..i - 1] == t[..i - 1];
    if i == 1 {
      assert c == [] && out + c == out;
      assert t[..1] == [t[0]];
    } else {
      CollapseLast(t[..i - 1]);
      assert EndsInSpace(out + c) <==> t[i - 2] == ' ';
      assert Collapse(t[..i]) == c + (if t[i - 1] == ' ' && t[i - 2] == ' ' then [] else [t[i - 1]]);
    }
  }

  /** Without quotes or backslashes the normaliser only squeezes each run of
      spaces to one space. */
  lemma PlainCollapses(t: string)
    requires Plain(t)
    ensures Normalise(t) == Collapse(t)
  {
    PlainRunAt(t, [], [], |t|);
    assert t + [] == t;
    assert t[|t|..] + [] == [];
    assert [] + Collapse(t[..|t|]) == Collapse(t);
  }

  /** A lone backslash at the very end, outside quotes, is kept. */
  lemma PlainTrailingBackslash(t: string)
    requires Plain(t)
    ensures Normalise(t + ['\\']) == Collapse(t) + ['\\']
  {
    PlainRunAt(t, ['\\'], [], |t|);
    assert t[|t|..] + ['\\'] == ['\\'];
    assert t[..|t|] == t;
    assert [] + Collapse(t) == Collapse(t);
  }

  // ---------------------------------------------------------------------
  // Single quotes: everything up to the closing quote is literal.

  lemma {:induction false} SingleQuotedBody(t: string, rest: string, out: string)
    requires '\'' !in t
    ensures Run(t + rest, true, false, out) == Run(rest, true, false, out + t)
    decreases |t|
  {
    if t == [] {
      assert t + rest == rest;
      assert out + t == out;
    } else {
      assert (t + rest)[1..] == t[1..] + rest;
      assert t[0] in t;
      SingleQuotedBody(t[1..], rest, out + [t[0]]);
      assert out + [t[0]] + t[1..] == out + t;
    }
  }

  /** `'t'` reads back as `t`, backslashes and double quotes included; the
      delimiters are dropped and what follows is read as before. */
  lemma SingleQuoted(t: string, rest: string, out: string)
    requires '\'' !in t
    ensures Run(['\''] + t + ['\''] + rest, false, false, out) == Run(rest, false, false, out + t)
  {
    var s := ['\''] + t + ['\''] + rest;
    assert s[1..] == t + (['\''] + rest);
    SingleQuotedBody(t, ['\''] + rest, out);
    assert (['\''] + rest)[1..] == rest;
  }

  /** An unterminated single quote still yields what follows it. */
  lemma UnterminatedSingleQuote(t: string, out: string)
    requires '\'' !in t
    ensures Run(['\''] + t, false, false, out) == out + t
  {
    assert (['\''] + t)[1..] == t + [];
    SingleQuotedBody(t, [], out);
  }

  // ---------------------------------------------------------------------
  // Double quotes: a backslash takes the next character literally, whatever it is.

  /** `e` is a double-quoted body that reads back as `t`: each character of
      `t` is written either as itself (if it is neither `"` nor a backslash)
      or after a backslash. */
  predicate DqEncodes(e: string, t: string)
    decreases |e|
  {
    if e == [] then t == []
    else if e[0] == '\\' then |e| >= 2 && t != [] && t[0] == e[1] && DqEncodes(e[2..], t[1..])
    else e[0] != '"' && t != [] && t[0] == e[0] && DqEncodes(e[1..], t[1..])
  }

  lemma {:induction false} DoubleQuotedBody(e: string, t: string, rest: string, out: string)
    requires DqEncodes(e, t)
    ensures Run(e + rest, false, true, out) == Run(rest, false, true, out + t)
    decreases |e|
  {
    if e == [] {
      assert e + rest == rest;
      assert out + t == out;
    } else if e[0] == '\\' {
      assert (e + rest)[1] == e[1];
      assert (e + rest)[2..] == e[2..] + rest;
      DoubleQuotedBody(e[2..], t[1..], rest, out + [t[0]]);
      assert out + [t[0]] + t[1..] == out + t;
    } else {
      assert (e + rest)[1..] == e[1..] + rest;
      DoubleQuotedBody(e[1..], t[1..], rest, out + [t[0]]);
      assert out + [t[0]] + t[1..] == out + t;
    }
  }

  /** `"e"` reads back as the text `e` encodes; the delimiters are dropped. */
  lemma DoubleQuoted(e: string, t: string, rest: string, out: string)
    requires DqEncodes(e, t)
    ensures Run(['"'] + e + ['"'] + rest, false, false, out) == Run(rest, false, false, out + t)
  {
    var s := ['"'] + e + ['"'] + rest;
    assert s[1..] == e + (['"'] + rest);
    DoubleQuotedBody(e, t, ['"'] + rest, out);
    assert (['"'] + rest)[1..] == rest;
  }

  /** Inside double quotes a lone backslash at the very end is dropped. */
  lemma DoubleQuotedTrailingBackslash(e: string, t: string, out: string)
    requires DqEncodes(e, t)
    ensures Run(['"'] + e + ['\\'], false, false, out) == out + t
  {
    assert (['"'] + e + ['\\'])[1..] == e + ['\\'];
    DoubleQuotedBody(e, t, ['\\'], out);
  }

  /** A double quote that is never closed does not stop the pass: the rest
      of the line is decoded as a double-quoted body. */
  lemma UnterminatedDoubleQuote(e: string, t: string, out: string)
    requires DqEncodes(e, t)
    ensures Run(['"'] + e, false, false, out) == out + t
  {
    assert (['"'] + e)[1..] == e + [];
    DoubleQuotedBody(e, t, [], out);
  }

  /** A backslash in front of every character. */
  function EscapeEach(t: string): (e: string)
    ensures |e| == 2 * |t|
  {
    if t == [] then [] else ['\\', t[0]] + EscapeEach(t[1..])
  }

  /** Any text, every character escaped, is a double-quoted body for itself. */
  lemma {:induction false} EscapeEachDqEncodes(t: string)
    ensures DqEncodes(EscapeEach(t), t)
    decreases |t|
  {
    if t != [] {
      var e := EscapeEach(t);
      assert e[2..] == EscapeEach(t[1..]);
      EscapeEachDqEncodes(t[1..]);
    }
  }

  /** Text with neither `"` nor a backslash is its own double-quoted body. */
  lemma {:induction false} LiteralDqEncodes(t: string)
    requires '"' !in t && '\\' !in t
    ensures DqEncodes(t, t)
    decreases |t|
  {
    if t != [] {
      assert t[0] in t;
      assert forall c :: c in t[1..] ==> c in t;
      LiteralDqEncodes(t[1..]);
    }
  }

  // ---------------------------------------------------------------------
  // Outside quotes: a backslash takes the next character literally.

  lemma {:induction false} UnquotedEscapes(t: string, rest: string, out: string)
    ensures Run(EscapeEach(t) + rest, false, false, out) == Run(rest, false, false, out + t)
    decreases |t|
  {
    if t == [] {
      assert EscapeEach(t) + rest == rest;
      assert out + t == out;
    } else {
      var r := EscapeEach(t[1..]) + rest;
      assert EscapeEach(t) + rest == ['\\', t[0]] + r;
      UnquotedEscapeStep(t[0], r, out);
      UnquotedEscapes(t[1..], rest, out + [t[0]]);
      assert out + [t[0]] + t[1..] == out + t;
    }
  }

  /** Outside quotes `\c` emits `c` and reads on after it. */
  lemma UnquotedEscapeStep(c: char, r: string, out: string)
    ensures Run(['\\', c] + r, false, false, out) == Run(r, false, false, out + [c])
  {
    var s := ['\\', c] + r;
    assert s[0] == '\\' && s[1] == c && s[2..] == r;
  }

  /** Outside quotes `\c` yields `c` for every `c`, spaces and quotes included,
      so escaping every character reads back the original text. */
  lemma UnquotedEscapeRoundTrip(t: string)
    ensures Normalise(EscapeEach(t)) == t
  {
    UnquotedEscapes(t, [], []);
    assert EscapeEach(t) + [] == EscapeEach(t);
    assert [] + t == t;
  }

  /** Outside quotes a lone backslash at the very end is kept. */
  lemma UnquotedTrailingBackslash(t: string, out: string)
    ensures Run(EscapeEach(t) + ['\\'], false, false, out) == out + t + ['\\']
  {
    UnquotedEscapes(t, ['\\'], out);
  }

  // ---------------------------------------------------------------------
  // Delimiters are consumed, never emitted.

  /** With no backslash and no single quote in the input, every `"` is a
      delimiter: none reaches the output. */
  lemma {:induction false} NoDoubleQuoteEmitted(s: string, dq: bool, out: string)
    requires '\\' !in s && '\'' !in s && '"' !in out
    ensures '"' !in Run(s, false, dq, out)
    decreases |s|
  {
    if s != [] {
      assert s[0] in s;
      assert forall c :: c in s[1..] ==> c in s;
      var ch := s[0];
      if ch == '"' {
        NoDoubleQuoteEmitted(s[1..], !dq, out);
      } else if !(ch == ' ' && EndsInSpace(out)) || dq {
        NoDoubleQuoteEmitted(s[1..], dq, out + [ch]);
      } else {
        NoDoubleQuoteEmitted(s[1..], dq, out);
      }
    }
  }

  /** With no backslash and no double quote in the input, every `'` is a
      delimiter: none reaches the output. */
  lemma {:induction false} NoSingleQuoteEmitted(s: string, sq: bool, out: string)
    requires '\\' !in s && '"' !in s && '\'' !in out
    ensures '\'' !in Run(s, sq, false, out)
    decreases |s|
  {
    if s != [] {
      assert s[0] in s;
      assert forall c :: c in s[1..] ==> c in s;
      var ch := s[0];
      if ch == '\'' {
        NoSingleQuoteEmitted(s[1..], !sq, out);
      } else if !(ch == ' ' && EndsInSpace(out)) || sq {
        NoSingleQuoteEmitted(s[1..], sq, out + [ch]);
      } else {
        NoSingleQuoteEmitted(s[1..], sq, out);
      }
    }
  }

  // ---------------------------------------------------------------------
  // Worked examples.

  /** Adjacent single-quoted pieces join without a separator: `'it''s'` gives `its`. */
  lemma AdjacentSingleQuotes()
    ensures Normalise("'it''s'") == "its"
  {
    assert "'it''s'" == ['\''] + "it" + ['\''] + "'s'";
    SingleQuoted("it", "'s'", []);
    assert "'s'" == ['\''] + "s" + ['\''] + [];
    SingleQuoted("s", [], "it");
  }

  /** An escaped double quote inside double quotes: `"a\"b"` gives `a"b`. */
  lemma EscapedDoubleQuote()
    ensures Normalise("\"a\\\"b\"") == "a\"b"
  {
    var e := "a\\\"b";
    assert DqEncodes(e, "a\"b") by {
      assert e[1..] == "\\\"b";
      assert e[1..][2..] == "b";
    }
    assert "\"a\\\"b\"" == ['"'] + e + ['"'] + [];
    DoubleQuoted(e, "a\"b", [], []);
  }

  /** An escaped space outside quotes: `a\ b` gives `a b`. */
  lemma EscapedSpace()
    ensures Normalise("a\\ b") == "a b"
  {
  }
}
