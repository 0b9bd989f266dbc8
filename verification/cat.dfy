/** How `handle_cat` turns its argument text into the list of file names it
    reads: the redirect is cut off, a trailing `2` (from `2>`) is dropped,
    and the rest is split on unquoted spaces, with `'…'` and `"…"` grouping
    a name and the quote characters themselves removed. */
module CatNames {
  import opened Strings
  import opened Redirect

  /** The splitter as a function of what is left to read: `s` is the rest of
      the text, `sq`/`dq` the open single/double quote, `cur` the name being
      built and `names` the names finished so far. A double quote not inside
      single quotes toggles `dq`; inside double quotes every other character
      is kept; a single quote toggles `sq`; an unquoted space ends the
      current name (if any); every other character is kept. At the end the
      current name is added if it is not empty. */
  function Scan(s: string, sq: bool, dq: bool, cur: string, names: seq<string>): seq<string>
    decreases |s|
  {
    if s == [] then
      if cur != [] then names + [cur] else names
    else
      var c := s[0];
      if c == '"' && !sq then Scan(s[1..], sq, !dq, cur, names)
      else if dq then Scan(s[1..], sq, dq, cur + [c], names)
      else if c == '\'' then Scan(s[1..], !sq, dq, cur, names)
      else if c == ' ' && !sq && !dq then
        if cur != [] then Scan(s[1..], sq, dq, [], names + [cur])
        else Scan(s[1..], sq, dq, cur, names)
      else Scan(s[1..], sq, dq, cur + [c], names)
  }

  /** The names read from an argument text that has already lost its
      redirect part. */
  function SplitNames(args: string): seq<string> {
    Scan(Trim(args), false, false, [], [])
  }

  /** The splitting loop of `handle_cat`, character by character. */
  method SplitCatNames(args: string) returns (names: seq<string>)
    ensures names == SplitNames(args)
    ensures forall k :: 0 <= k < |names| ==> names[k] != []
  {
    var s := Trim(args);
    names := [];
    var cur: string := [];
    var singleQuote, doubleQuote := false, false;
    for i := 0 to |s|
      invariant Scan(s[i..], singleQuote, doubleQuote, cur, names) == SplitNames(args)
      invariant forall k :: 0 <= k < |names| ==> names[k] != []
    {
      var c := s[i];
      assert s[i..][0] == c && s[i..][1..] == s[i + 1..];
      if c == '"' && !singleQuote {
        doubleQuote := !doubleQuote;
        continue;
      } else if doubleQuote {
        cur := cur + [c];
        continue;
      } else if c == '\'' {
        singleQuote := !singleQuote;
        continue;
      }
      if c == ' ' && !singleQuote && !doubleQuote {
        if cur != [] {
          names := names + [cur];
          cur := [];
        }
      } else {
        cur := cur + [c];
      }
    }
    if cur != [] {
      names := names + [cur];
    }
  }

  /** No name is ever empty, whatever the quoting. */
  lemma {:induction false} ScanNonEmpty(s: string, sq: bool, dq: bool, cur: string, names: seq<string>)
    requires forall k :: 0 <= k < |names| ==> names[k] != []
    ensures forall k :: 0 <= k < |Scan(s, sq, dq, cur, names)| ==> Scan(s, sq, dq, cur, names)[k] != []
    decreases |s|
  {
    if s != [] {
      var c := s[0];
      if c == '"' && !sq {
        ScanNonEmpty(s[1..], sq, !dq, cur, names);
      } else if dq {
        ScanNonEmpty(s[1..], sq, dq, cur + [c], names);
      } else if c == '\'' {
        ScanNonEmpty(s[1..], !sq, dq, cur, names);
      } else if c == ' ' && !sq && !dq {
        if cur != [] {
          ScanNonEmpty(s[1..], sq, dq, [], names + [cur]);
        } else {
          ScanNonEmpty(s[1..], sq, dq, cur, names);
        }
      } else {
        ScanNonEmpty(s[1..], sq, dq, cur + [c], names);
      }
    }
  }

  /** A character that is not special to the splitter. */
  predicate Ordinary(c: char) {
    c != ' ' && c != '\'' && c != '"'
  }

  /** A name made only of ordinary characters. */
  predicate PlainName(w: string) {
    w != [] && forall k :: 0 <= k < |w| ==> Ordinary(w[k])
  }

  /** Ordinary characters, unquoted, are added to the current name. */
  lemma {:induction false} ScanOrdinary(w: string, rest: string, cur: string, names: seq<string>)
    requires forall k :: 0 <= k < |w| ==> Ordinary(w[k])
    ensures Scan(w + rest, false, false, cur, names) == Scan(rest, false, false, cur + w, names)
    decreases |w|
  {
    if w != [] {
      assert (w + rest)[0] == w[0];
      assert (w + rest)[1..] == w[1..] + rest;
      ScanOrdinary(w[1..], rest, cur + [w[0]], names);
      assert cur + [w[0]] + w[1..] == cur + w;
    } else {
      assert w + rest == rest && cur + w == cur;
    }
  }

  /** Inside quotes, every character other than the closing quote is added
      to the current name: spaces and the other kind of quote included. */
  lemma {:induction false} ScanInQuotes(t: string, rest: string, sq: bool, cur: string, names: seq<string>)
    requires forall k :: 0 <= k < |t| ==> t[k] != (if sq then '\'' else '"')
    ensures Scan(t + rest, sq, !sq, cur, names) == Scan(rest, sq, !sq, cur + t, names)
    decreases |t|
  {
    if t != [] {
      assert (t + rest)[0] == t[0];
      assert (t + rest)[1..] == t[1..] + rest;
      ScanInQuotes(t[1..], rest, sq, cur + [t[0]], names);
      assert cur + [t[0]] + t[1..] == cur + t;
    } else {
      assert t + rest == rest && cur + t == cur;
    }
  }

  /** A quoted segment `'t'` or `"t"` contributes exactly `t` to the name
      being built, with the quotes removed. */
  lemma QuotedSegment(q: char, t: string, rest: string, cur: string, names: seq<string>)
    requires q == '\'' || q == '"'
    requires forall k :: 0 <= k < |t| ==> t[k] != q
    ensures Scan([q] + t + [q] + rest, false, false, cur, names) == Scan(rest, false, false, cur + t, names)
  {
    var sq := q == '\'';
    var s := [q] + t + [q] + rest;
    assert s[0] == q && s[1..] == t + ([q] + rest);
    assert Scan(s, false, false, cur, names) == Scan(t + ([q] + rest), sq, !sq, cur, names);
    ScanInQuotes(t, [q] + rest, sq, cur, names);
    assert ([q] + rest)[1..] == rest;
  }

  /** A single unquoted space after a name finishes it. */
  lemma SpaceEndsName(rest: string, cur: string, names: seq<string>)
    requires cur != []
    ensures Scan(" " + rest, false, false, cur, names) == Scan(rest, false, false, [], names + [cur])
  {
    assert (" " + rest)[1..] == rest;
  }

  /** Further unquoted spaces produce no empty names. */
  lemma {:induction false} SpacesSkipped(a: string, rest: string, names: seq<string>)
    requires forall k :: 0 <= k < |a| ==> a[k] == ' '
    ensures Scan(a + rest, false, false, [], names) == Scan(rest, false, false, [], names)
    decreases |a|
  {
    if a != [] {
      assert (a + rest)[0] == ' ';
      assert (a + rest)[1..] == a[1..] + rest;
      SpacesSkipped(a[1..], rest, names);
    } else {
      assert a + rest == rest;
    }
  }

  lemma ScanPlainLast(w: string, names: seq<string>)
    requires PlainName(w)
    ensures Scan(w, false, false, [], names) == names + [w]
  {
    ScanOrdinary(w, [], [], names);
    assert w + [] == w && [] + w == w;
  }

  lemma ScanPlainThenSpace(w: string, u: string, names: seq<string>)
    requires PlainName(w)
    ensures Scan(w + (" " + u), false, false, [], names) == Scan(u, false, false, [], names + [w])
  {
    ScanOrdinary(w, " " + u, [], names);
    assert [] + w == w;
    SpaceEndsName(u, w, names);
  }

  /** A run of plain words, each added after the names already found. */
  lemma {:induction false} ScanUnwords(ws: seq<string>, names: seq<string>)
    requires ws != []
    requires forall i :: 0 <= i < |ws| ==> PlainName(ws[i])
    ensures Scan(Unwords(ws), false, false, [], names) == names + ws
    decreases |ws|
  {
    var w := ws[0];
    assert PlainName(w);
    if |ws| == 1 {
      assert Unwords(ws) == w;
      ScanPlainLast(w, names);
    } else {
      var u := Unwords(ws[1..]);
      assert Unwords(ws) == w + (" " + u);
      ScanPlainThenSpace(w, u, names);
      ScanUnwords(ws[1..], names + [w]);
      assert names + [w] + ws[1..] == names + ws;
    }
  }

  /** Names without spaces, quotes or other whitespace, joined by single
      spaces, are split back into exactly those names. */
  lemma SplitUnwords(ws: seq<string>)
    requires forall i :: 0 <= i < |ws| ==> PlainName(ws[i]) && NoSpace(ws[i])
    ensures SplitNames(Unwords(ws)) == ws
  {
    if ws == [] {
      assert Unwords(ws) == [];
    } else {
      UnwordsEnds(ws);
      ScanUnwords(ws, []);
    }
  }

  /** Joined names start with the first name's first character and end with
      the last name's last character. */
  lemma {:induction false} UnwordsEnds(ws: seq<string>)
    requires ws != [] && forall i :: 0 <= i < |ws| ==> ws[i] != []
    ensures var u := Unwords(ws); u != [] && u[0] == ws[0][0] && u[|u| - 1] == ws[|ws| - 1][|ws[|ws| - 1]| - 1]
    decreases |ws|
  {
    if |ws| > 1 {
      UnwordsEnds(ws[1..]);
      var u := Unwords(ws[1..]);
      assert Unwords(ws) == ws[0] + (" " + u);
    } else {
      assert Unwords(ws) == ws[0];
    }
  }

  /** What `handle_cat` does before reading files. */
  datatype CatPlan =
    | MissingOperand
    | Read(names: seq<string>, target: string, toStderr: bool)

  /** The preparation steps of `handle_cat`: an empty argument is refused;
      otherwise the error flag is set by any `2>` in the text, the redirect
      target is split off, a trailing `2` is dropped and the rest split into
      names. */
  method PrepareCat(args: string) returns (plan: CatPlan)
    ensures plan.MissingOperand? <==> args == []
    ensures plan.Read? ==> plan.target == HandleRedirect(args).1
    ensures plan.Read? ==> (plan.toStderr <==> Contains(args, "2>"))
    ensures plan.Read? ==> plan.names == SplitNames(StripStderrMark(HandleRedirect(args).0).0)
    ensures plan.Read? ==> forall k :: 0 <= k < |plan.names| ==> plan.names[k] != []
  {
    if args == [] {
      return MissingOperand;
    }
    var toStderr := false;
    if Find(args, "2>").Some? {
      toStderr := true;
    }
    var (rest, target) := HandleRedirect(args);
    if EndsWith(rest, "2") {
      rest := Trim(rest[..|rest| - 1]);
    }
    var names := SplitCatNames(rest);
    plan := Read(names, target, toStderr);
  }

  /** `cat A 2> F` reads `A`, sends errors to `F` and keeps the name. */
  lemma CatStderr(c: string, f: string)
    requires c != [] && !IsSpace(c[0]) && !IsSpace(c[|c| - 1]) && '>' !in c
    requires '>' !in f
    requires PlainName(c)
    ensures SplitNames(StripStderrMark(HandleRedirect(c + " 2>" + f).0).0) == [c]
  {
    StderrRedirect(c, f);
    SingleName(c);
  }

  lemma SingleName(c: string)
    requires c != [] && !IsSpace(c[0]) && !IsSpace(c[|c| - 1])
    requires PlainName(c)
    ensures SplitNames(c) == [c]
  {
    assert Trim(c) == c;
    ScanPlainLast(c, []);
  }
}
