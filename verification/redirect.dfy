/** Splitting a raw line into the command word, its normalised argument text
    and the redirect target: `handle_redirect` and `handle_input`. */
module Redirect {
  import opened Wrappers
  import opened Strings
  import Quoting

  /** `handle_redirect`: the line is cut at the first `1>` if there is one
      anywhere, otherwise at the first `>`; the operator is dropped and both
      sides are trimmed. Without any `>` the whole trimmed line is the
      command part and the target is empty. */
  function HandleRedirect(input: string): (r: (string, string))
    ensures '>' !in input ==> r == (Trim(input), [])
  {
    NoGtNoOneGt(input);
    match Find(input, "1>")
    case Some(i) => (Trim(input[..i]), Trim(input[i + 2..]))
    case None =>
      match Find(input, ">")
      case Some(i) => (Trim(input[..i]), Trim(input[i + 1..]))
      case None => (Trim(input), [])
  }

  /** A `1>` anywhere in the line wins, even over an earlier `>`: the cut is
      at its first occurrence. */
  lemma RedirectAtOneGt(input: string, i: nat)
    requires FirstAt(input, "1>", i)
    ensures HandleRedirect(input) == (Trim(input[..i]), Trim(input[i + 2..]))
  {
    FindAt(input, "1>", i);
  }

  /** Without a `1>` the cut is at the first `>`. */
  lemma RedirectAtGt(input: string, i: nat)
    requires !Contains(input, "1>") && FirstAt(input, ">", i)
    ensures HandleRedirect(input) == (Trim(input[..i]), Trim(input[i + 1..]))
  {
    FindAt(input, ">", i);
  }

  lemma NoGtNoOneGt(input: string)
    ensures '>' !in input ==> !Contains(input, "1>") && !Contains(input, ">")
  {
    forall i | 0 <= i <= |input| && OccursAt(input, "1>", i) ensures '>' in input {
      OccursAtChars(input, "1>", i);
      assert input[i + 1] == '>';
    }
    forall i | 0 <= i <= |input| && OccursAt(input, ">", i) ensures '>' in input {
      OccursAtChars(input, ">", i);
      assert input[i] == '>';
    }
  }

  lemma NotInPrefix(s: string, m: nat, c: char)
    requires m <= |s| && c !in s[..m]
    ensures forall j :: 0 <= j < m ==> s[j] != c
  {
    forall j | 0 <= j < m ensures s[j] != c {
      assert s[..m][j] == s[j];
    }
  }

  /** The command part is the trimmed text before some cut point that lies
      no earlier than `m`, when the first `m` characters hold no `>` and the
      character after them, if any, is not `>` either (so no `1>` starts
      before `m`). */
  lemma CommandPartFrom(input: string, m: nat) returns (k: nat)
    requires m <= |input| && '>' !in input[..m] && (m == |input| || input[m] != '>')
    ensures m <= k <= |input| && HandleRedirect(input).0 == Trim(input[..k])
  {
    NotInPrefix(input, m, '>');
    match Find(input, "1>")
    case Some(i) =>
      OccursAtChars(input, "1>", i);
      assert input[i] == '1' && input[i + 1] == '>';
      k := i;
    case None =>
      match Find(input, ">")
      case Some(i) =>
        OccursAtChars(input, ">", i);
        assert input[i] == '>';
        k := i;
      case None =>
        k := |input|;
        assert input[..|input|] == input;
  }

  /** The three strings `handle_input` hands to the classifier. */
  datatype Parts = Parts(command: string, rest: string, target: string)

  /** `handle_input`: the command part is split once at its first space;
      the word before it is the command, the text after it goes through the
      quote normaliser and is trimmed. The command word never contains a
      space, and the target is the one `HandleRedirect` found. */
  function HandleInput(input: string): (p: Parts)
    ensures p.target == HandleRedirect(input).1
    ensures ' ' !in p.command
  {
    var (args, target) := HandleRedirect(input);
    match Find(args, " ")
    case None =>
      forall i | 0 <= i < |args| ensures args[i] != ' ' {
        OccursAtChar(args, ' ', i);
      }
      Parts(Trim(args), [], target)
    case Some(k) =>
      forall i | 0 <= i < k ensures args[..k][i] != ' ' {
        OccursAtChar(args, ' ', i);
      }
      Parts(Trim(args[..k]), Trim(Quoting.Normalise(Trim(args[k + 1..]))), target)
  }

  /** A line without `>`: a word after any whitespace, then a space and the
      argument text `u`. The command is the word, the argument is `u`
      trimmed, passed through the quote normaliser and trimmed again, and
      there is no target. When `u` is only whitespace the argument is empty. */
  lemma HandleInputRest(a: string, w: string, u: string, input: string)
    requires input == a + w + " " + u
    requires AllSpace(a) && w != [] && NoSpace(w) && '>' !in w && '>' !in u
    ensures HandleInput(input) == Parts(w, Trim(Quoting.Normalise(Trim(u))), [])
  {
    NoGtInLine(a, w, u, input);
    assert input == a + (w + " " + u);
    TrimSkipsLeadingSpace(a, w + " " + u);
    HandleInputOfPart(input, w, u);
  }

  /** Whatever the redirect split leaves as the command part: when it is a
      word, a space and the text `u` (trimmed), the command is the word, the
      argument is `u` trimmed, normalised and trimmed again, and the target
      is the one the redirect split found. */
  lemma HandleInputOfPart(input: string, w: string, u: string)
    requires w != [] && NoSpace(w)
    requires HandleRedirect(input).0 == Trim(w + " " + u)
    ensures HandleInput(input) == Parts(w, Trim(Quoting.Normalise(Trim(u))), HandleRedirect(input).1)
  {
    if AllSpace(u) {
      RestAllSpace(w, u);
      NoSpaceNoFind(w);
    } else {
      TrimWordSpaceText(w, u);
      FindSpaceAfterWord(w, TrimEnd(u));
      TrimOfTrimEnd(u);
      assert Trim(w) == w;
    }
  }

  lemma NoGtInLine(a: string, w: string, u: string, input: string)
    requires input == a + w + " " + u
    requires AllSpace(a) && '>' !in w && '>' !in u
    ensures '>' !in input
  {
    forall k | 0 <= k < |input| ensures input[k] != '>' {
      if k < |a| {
        assert input[k] == a[k] && IsSpace(a[k]);
      } else if k < |a| + |w| {
        assert input[k] == w[k - |a|];
      } else if k > |a| + |w| {
        assert input[k] == u[k - |a| - |w| - 1];
      }
    }
  }

  /** A line `WORD ARGS > FILE` whose one `>` is not preceded by `1`: the
      word, the argument text as without a redirect, and `FILE` trimmed as
      the target. */
  lemma HandleInputTo(a: string, w: string, u: string, f: string, line: string)
    requires line == a + w + " " + u + ">" + f
    requires AllSpace(a) && w != [] && NoSpace(w) && '>' !in w && '>' !in u && '>' !in f
    requires u == [] || u[|u| - 1] != '1'
    ensures HandleInput(line) == Parts(w, Trim(Quoting.Normalise(Trim(u))), Trim(f))
  {
    CutAfterArgs(a, w, u, f, line);
    TrimLineAfterSpace(a, w, u);
    HandleInputOfPart(line, w, u);
  }

  lemma CutAfterArgs(a: string, w: string, u: string, f: string, line: string)
    requires line == a + w + " " + u + ">" + f
    requires AllSpace(a) && '>' !in w && '>' !in u && '>' !in f
    requires u == [] || u[|u| - 1] != '1'
    ensures HandleRedirect(line) == (Trim(a + w + " " + u), Trim(f))
  {
    var c := a + w + " " + u;
    NoGtInLine(a, w, u, c);
    if u == [] {
      assert c[|c| - 1] == ' ';
    } else {
      assert c[|c| - 1] == u[|u| - 1];
    }
    GtCut(c, f);
  }

  lemma TrimLineAfterSpace(a: string, w: string, u: string)
    requires AllSpace(a)
    ensures Trim(a + w + " " + u) == Trim(w + " " + u)
  {
    assert a + w + " " + u == a + (w + " " + u);
    TrimSkipsLeadingSpace(a, w + " " + u);
  }

  /** `C > F` with no other `>` and `C` not ending in `1` is cut at that
      `>`: the command part is `C` and the target `F`, both trimmed. */
  lemma GtCut(c: string, f: string)
    requires c != [] && c[|c| - 1] != '1' && '>' !in c && '>' !in f
    ensures HandleRedirect(c + ">" + f) == (Trim(c), Trim(f))
  {
    var input := c + ">" + f;
    var i := |c|;
    assert input[..i] == c && input[i + 1..] == f;
    assert input[i - 1] == c[|c| - 1];
    forall j | 0 <= j < |input| && j != i ensures input[j] != '>' {
      if j < i {
        assert input[j] == c[j];
      } else {
        assert input[j] == f[j - i - 1];
      }
    }
    CutAtOnlyGt(input, i);
  }

  lemma RestAllSpace(w: string, u: string)
    requires w != [] && NoSpace(w) && AllSpace(u)
    ensures Trim(w + " " + u) == w && Trim(Quoting.Normalise(Trim(u))) == []
  {
    AllSpaceAppend(" ", u);
    assert w + " " + u == w + (" " + u);
    TrimWordThenSpace(w, " " + u);
    assert Quoting.Normalise([]) == [];
  }

  /** A line that starts, after any whitespace, with a word (no whitespace,
      no `>`) followed by the end of the line or a space has that word as
      its command. */
  lemma CommandWord(a: string, w: string, t: string)
    requires AllSpace(a)
    requires w != [] && NoSpace(w) && '>' !in w
    requires t == [] || t[0] == ' '
    ensures HandleInput(a + w + t).command == w
  {
    var input := a + w + t;
    var args := CommandPartOf(a, w, t);
    CommandOfArgs(w, args);
    HandleInputCommand(input);
  }

  lemma CommandPartOf(a: string, w: string, t: string) returns (args: string)
    requires AllSpace(a)
    requires w != [] && NoSpace(w) && '>' !in w
    requires t == [] || t[0] == ' '
    ensures args == HandleRedirect(a + w + t).0
    ensures |args| >= |w| && args[..|w|] == w
    ensures |args| == |w| || args[|w|] == ' '
  {
    var input := a + w + t;
    var m := |a| + |w|;
    WordPrefix(a, w, t);
    var k := CommandPartFrom(input, m);
    var u := CutAfterWord(a, w, t, k);
    assert u == [] || IsSpace(u[0]);
    TrimAfterWord(w, u);
    TrimSkipsLeadingSpace(a, w + u);
    args := Trim(w + u);
    assert args == Trim(input[..k]);
  }

  lemma CutAfterWord(a: string, w: string, t: string, k: nat) returns (u: string)
    requires |a| + |w| <= k <= |a| + |w| + |t|
    requires t == [] || t[0] == ' '
    ensures (a + w + t)[..k] == a + (w + u)
    ensures u == [] || u[0] == ' '
  {
    var input := a + w + t;
    var m := |a| + |w|;
    u := t[..k - m];
    assert input == (a + w) + t;
    assert input[..k] == (a + w) + t[..k - m];
    if u != [] {
      assert u[0] == t[0];
    }
  }

  lemma WordPrefix(a: string, w: string, t: string)
    requires AllSpace(a)
    requires '>' !in w
    requires t == [] || t[0] == ' '
    ensures var m := |a| + |w|; '>' !in (a + w + t)[..m] && (m == |a + w + t| || (a + w + t)[m] != '>')
  {
    assert (a + w + t)[..|a| + |w|] == a + w;
    if t != [] {
      assert (a + w + t)[|a| + |w|] == t[0];
    }
    assert '>' !in a + w by {
      forall i | 0 <= i < |a| ensures a[i] != '>' { assert IsSpace(a[i]); }
    }
  }

  lemma HandleInputCommand(input: string)
    ensures HandleInput(input).command
            == (var args := HandleRedirect(input).0;
                match Find(args, " ")
                case None => Trim(args)
                case Some(k) => Trim(args[..k]))
  {
  }

  lemma CommandOfArgs(w: string, args: string)
    requires w != [] && NoSpace(w)
    requires |args| >= |w| && args[..|w|] == w
    requires |args| == |w| || args[|w|] == ' '
    ensures (match Find(args, " ")
             case None => Trim(args)
             case Some(k) => Trim(args[..k])) == w
  {
    assert Trim(w) == w;
    forall j | 0 <= j < |w| ensures !OccursAt(args, " ", j) && w[j] != ' ' {
      OccursAtChar(args, ' ', j);
      assert args[j] == w[j];
    }
    if |args| == |w| {
      assert args == w;
      forall j ensures !OccursAt(args, " ", j) {
        OccursAtChar(args, ' ', j);
      }
    } else {
      OccursAtChar(args, ' ', |w|);
      FindAt(args, " ", |w|);
    }
  }
  // ---------------------------------------------------------------------
  // The `2` left behind by a `2>` redirect.

  /** `handle_echo` and `handle_cat` treat a command part ending in `2` as
      the remains of a `2>` operator: the `2` is cut off, the rest trimmed,
      and the flag that sends error text to the target is set. */
  function StripStderrMark(s: string): (r: (string, bool))
    ensures r.1 <==> EndsWith(s, "2")
    ensures |r.0| <= |s|
    ensures !r.1 ==> r.0 == s
  {
    if EndsWith(s, "2") then (Trim(s[..|s| - 1]), true) else (s, false)
  }

  /** `C 2> F` (with no other `>` in the line) is read as the command part
      `C` with the error flag set and the target `F`. */
  lemma StderrRedirect(c: string, f: string)
    requires c != [] && !IsSpace(c[0]) && !IsSpace(c[|c| - 1]) && '>' !in c
    requires '>' !in f
    ensures HandleRedirect(c + " 2>" + f).1 == Trim(f)
    ensures StripStderrMark(HandleRedirect(c + " 2>" + f).0) == (c, true)
  {
    StderrCut(c, f);
    StripWordTwo(c);
  }

  lemma StderrCut(c: string, f: string)
    requires '>' !in c && '>' !in f
    ensures HandleRedirect(c + " 2>" + f) == (Trim(c + " 2"), Trim(f))
  {
    var input := c + " 2>" + f;
    StderrSlices(c, f, input);
    CutAtOnlyGt(input, |c| + 2);
  }

  lemma StderrSlices(c: string, f: string, input: string)
    requires input == c + " 2>" + f && '>' !in c && '>' !in f
    ensures input[..|c| + 2] == c + " 2" && input[|c| + 3..] == f
    ensures input[|c| + 1] == '2' && input[|c| + 2] == '>'
    ensures forall j :: 0 <= j < |input| && input[j] == '>' ==> j == |c| + 2
  {
    GtOnlyAt(c, f, input);
  }

  /** A line whose only `>` is at `i`, not preceded by `1`, is cut there:
      the command part before it and the target after it, both trimmed. */
  lemma CutAtOnlyGt(input: string, i: nat)
    requires 1 <= i < |input| && input[i - 1] != '1' && input[i] == '>'
    requires forall j :: 0 <= j < |input| && input[j] == '>' ==> j == i
    ensures HandleRedirect(input) == (Trim(input[..i]), Trim(input[i + 1..]))
  {
    NoOneGt(input, i);
    OccursAtChar(input, '>', i);
    forall j | 0 <= j < i ensures !OccursAt(input, ">", j) {
      OccursAtChar(input, '>', j);
    }
    RedirectAtGt(input, i);
  }

  lemma StripWordTwo(c: string)
    requires c != [] && !IsSpace(c[0]) && !IsSpace(c[|c| - 1])
    ensures StripStderrMark(Trim(c + " 2")) == (c, true)
  {
    var left := c + " 2";
    assert TrimStart(left) == left;
    assert left[..|left|] == left;
    assert TrimEnd(left) == left;
    assert Trim(left) == left;
    assert EndsWith(left, "2");
    assert left[..|left| - 1] == c + " ";
    TrimAfterWordEnd(c);
  }

  lemma GtOnlyAt(c: string, f: string, input: string)
    requires input == c + " 2>" + f && '>' !in c && '>' !in f
    ensures forall j :: 0 <= j < |input| && input[j] == '>' ==> j == |c| + 2
  {
    forall j | 0 <= j < |input| && j != |c| + 2 ensures input[j] != '>' {
      if j < |c| {
        assert input[j] == c[j];
      } else if j > |c| + 2 {
        assert input[j] == f[j - |c| - 3];
      }
    }
  }

  lemma NoOneGt(input: string, i: nat)
    requires 1 <= i < |input| && input[i - 1] != '1'
    requires forall j :: 0 <= j < |input| && input[j] == '>' ==> j == i
    ensures !Contains(input, "1>")
  {
    forall j | 0 <= j <= |input| ensures !OccursAt(input, "1>", j) {
      if j + 2 <= |input| {
        if j + 1 == i {
          assert input[j..j + 2][0] != '1';
        } else {
          assert input[j..j + 2][1] == input[j + 1] != '>';
        }
      }
    }
  }

  lemma TrimAfterWordEnd(c: string)
    requires c != [] && !IsSpace(c[0]) && !IsSpace(c[|c| - 1])
    ensures Trim(c + " ") == c
  {
    var s := c + " ";
    assert TrimStart(s) == s;
    assert s[..|s| - 1] == c;
    assert TrimEnd(s) == TrimEnd(c) == c;
  }
}
