/** The parts of Rust's `str` API that the shell's parsing relies on:
    `trim`, `split_whitespace`, `find`, `split`, `starts_with`, `ends_with`.
    Whitespace is the ASCII part of `char::is_whitespace`. */
module Strings {
  import opened Wrappers

  predicate IsSpace(c: char) {
    c == ' ' || c == '\t' || c == '\n' || c == '\r' || c == '\U{0B}' || c == '\U{0C}'
  }

  predicate AllSpace(s: string) {
    forall i :: 0 <= i < |s| ==> IsSpace(s[i])
  }

  predicate NoSpace(s: string) {
    forall i :: 0 <= i < |s| ==> !IsSpace(s[i])
  }

  predicate StartsWith(s: string, p: string) {
    |p| <= |s| && s[..|p|] == p
  }

  predicate EndsWith(s: string, p: string) {
    |p| <= |s| && s[|s| - |p|..] == p
  }

  // ---------------------------------------------------------------------
  // trim

  /** `str::trim_start`: drops the leading whitespace, and only that. */
  function TrimStart(s: string): (r: string)
    ensures |r| <= |s| && r == s[|s| - |r|..]
    ensures AllSpace(s[..|s| - |r|])
    ensures r == [] || !IsSpace(r[0])
    decreases |s|
  {
    if s != [] && IsSpace(s[0]) then
      var r := TrimStart(s[1..]);
      assert s[1..][..|s[1..]| - |r|] == s[1..|s| - |r|];
      r
    else s
  }

  /** `str::trim_end`: drops the trailing whitespace, and only that. */
  function TrimEnd(s: string): (r: string)
    ensures |r| <= |s| && r == s[..|r|]
    ensures AllSpace(s[|r|..])
    ensures r == [] || !IsSpace(r[|r| - 1])
    decreases |s|
  {
    if s != [] && IsSpace(s[|s| - 1]) then
      var r := TrimEnd(s[..|s| - 1]);
      assert s[|r|..] == s[..|s| - 1][|r|..] + [s[|s| - 1]];
      r
    else s
  }

  /** `str::trim`: the result has whitespace at neither end, is empty exactly
      when the input is all whitespace, and leaves an already trimmed string alone. */
  function Trim(s: string): (r: string)
    ensures |r| <= |s|
    ensures r == [] || (!IsSpace(r[0]) && !IsSpace(r[|r| - 1]))
    ensures r == [] <==> AllSpace(s)
    ensures (s == [] || (!IsSpace(s[0]) && !IsSpace(s[|s| - 1]))) ==> r == s
    ensures forall c :: c in r ==> c in s
  {
    var t := TrimStart(s);
    var r := TrimEnd(t);
    TrimFacts(s, t, r);
    r
  }

  /** `Trim(s)` is the slice of `s` left once an all-whitespace prefix and an
      all-whitespace suffix are cut off; `i` is where it starts. */
  lemma TrimSlice(s: string) returns (i: nat)
    ensures i + |Trim(s)| <= |s|
    ensures Trim(s) == s[i..i + |Trim(s)|]
    ensures AllSpace(s[..i]) && AllSpace(s[i + |Trim(s)|..])
  {
    var t := TrimStart(s);
    i := |s| - |t|;
    assert Trim(s) == TrimEnd(t);
    TrimEndSlice(s, i, t);
  }

  lemma TrimEndSlice(s: string, i: nat, t: string)
    requires i <= |s| && t == s[i..]
    ensures var r := TrimEnd(t);
            i + |r| <= |s| && r == s[i..i + |r|] && AllSpace(s[i + |r|..])
  {
    SuffixSlices(s, i, |TrimEnd(t)|);
  }

  lemma SuffixSlices(s: string, i: nat, k: nat)
    requires i + k <= |s|
    ensures s[i..][..k] == s[i..i + k] && s[i..][k..] == s[i + k..]
  {
  }

  lemma TrimFacts(s: string, t: string, r: string)
    requires t == TrimStart(s) && r == TrimEnd(t)
    ensures r == [] || (!IsSpace(r[0]) && !IsSpace(r[|r| - 1]))
    ensures r == [] <==> AllSpace(s)
    ensures (s == [] || (!IsSpace(s[0]) && !IsSpace(s[|s| - 1]))) ==> r == s
    ensures forall c :: c in r ==> c in s
  {
    if r != [] {
      assert r[0] == t[0];
    }
    TrimEmpty(s, t, r);
    if s != [] && !IsSpace(s[0]) && !IsSpace(s[|s| - 1]) {
      assert t == s;
    }
    TrimChars(s, t, r);
  }

  lemma TrimChars(s: string, t: string, r: string)
    requires t == TrimStart(s) && r == TrimEnd(t)
    ensures forall c :: c in r ==> c in s
  {
    forall c | c in r ensures c in s {
      var i :| 0 <= i < |r| && r[i] == c;
      assert r[i] == t[i] == s[|s| - |t| + i];
    }
  }

  lemma TrimEmpty(s: string, t: string, r: string)
    requires t == TrimStart(s) && r == TrimEnd(t)
    ensures r == [] <==> AllSpace(s)
  {
    var k := |s| - |t|;
    if r == [] {
      assert t[|r|..] == t;
      assert s == s[..k] + t;
      AllSpaceAppend(s[..k], t);
    } else {
      assert s[k] == t[0];
    }
  }

  lemma AllSpaceAppend(a: string, b: string)
    ensures AllSpace(a + b) <==> AllSpace(a) && AllSpace(b)
  {
    if AllSpace(a + b) {
      forall i | 0 <= i < |a| ensures IsSpace(a[i]) { assert a[i] == (a + b)[i]; }
      forall i | 0 <= i < |b| ensures IsSpace(b[i]) { assert b[i] == (a + b)[|a| + i]; }
    }
    if AllSpace(a) && AllSpace(b) {
      forall i | 0 <= i < |a + b| ensures IsSpace((a + b)[i]) {
        if i < |a| { assert (a + b)[i] == a[i]; } else { assert (a + b)[i] == b[i - |a|]; }
      }
    }
  }

  /** Trimming the end keeps every character up to the last non-whitespace one. */
  lemma {:induction false} TrimEndKeeps(s: string, n: nat)
    requires 0 < n <= |s| && !IsSpace(s[n - 1])
    ensures n <= |TrimEnd(s)|
    decreases |s|
  {
    if IsSpace(s[|s| - 1]) {
      assert s[..|s| - 1][n - 1] == s[n - 1];
      TrimEndKeeps(s[..|s| - 1], n);
    }
  }

  /** Trimming a word followed by text that is empty or starts with
      whitespace keeps the word and the first character after it. */
  lemma TrimAfterWord(w: string, u: string)
    requires w != [] && NoSpace(w)
    requires u == [] || IsSpace(u[0])
    ensures |Trim(w + u)| >= |w| && Trim(w + u)[..|w|] == w
    ensures |Trim(w + u)| == |w| || Trim(w + u)[|w|] == u[0]
  {
    var s := w + u;
    assert TrimStart(s) == s;
    TrimEndKeeps(s, |w|);
    assert s[..|w|] == w;
  }

  /** A word followed only by whitespace trims to the word. */
  lemma TrimWordThenSpace(w: string, tail: string)
    requires w != [] && NoSpace(w) && AllSpace(tail)
    ensures Trim(w + tail) == w
  {
    var s := w + tail;
    assert TrimStart(s) == s;
    forall k | |w| <= k < |s| ensures IsSpace(s[k]) {
      assert s[k] == tail[k - |w|];
    }
    assert s[..|w|] == w;
    TrimEndAt(s, |w|);
  }

  /** Trimming the end stops at the last non-whitespace character. */
  lemma TrimEndAt(s: string, n: nat)
    requires 0 < n <= |s| && !IsSpace(s[n - 1])
    requires forall k :: n <= k < |s| ==> IsSpace(s[k])
    ensures TrimEnd(s) == s[..n]
  {
    TrimEndKeeps(s, n);
    var r := TrimEnd(s);
    assert |r| <= n by {
      assert !IsSpace(s[|r| - 1]);
    }
  }

  /** Trailing whitespace is trimmed from the last part alone when that part
      is not all whitespace. */
  lemma {:induction false} TrimEndAppend(p: string, q: string)
    requires !AllSpace(q)
    ensures TrimEnd(p + q) == p + TrimEnd(q)
    decreases |q|
  {
    var s := p + q;
    var n := |q| - 1;
    assert s[|s| - 1] == q[n];
    if IsSpace(q[n]) {
      var q' := NotAllSpaceBeforeLast(q);
      assert s[..|s| - 1] == p + q';
      assert TrimEnd(s) == TrimEnd(p + q');
      TrimEndAppend(p, q');
      assert TrimEnd(q) == TrimEnd(q');
    } else {
      assert TrimEnd(s) == s && TrimEnd(q) == q;
    }
  }

  lemma NotAllSpaceBeforeLast(q: string) returns (q': string)
    requires !AllSpace(q) && IsSpace(q[|q| - 1])
    ensures q' == q[..|q| - 1] && !AllSpace(q')
  {
    q' := q[..|q| - 1];
    assert q == q' + [q[|q| - 1]];
    AllSpaceAppend(q', [q[|q| - 1]]);
  }

  /** Trimming after trimming the end is trimming. */
  lemma TrimOfTrimEnd(u: string)
    ensures Trim(TrimEnd(u)) == Trim(u)
  {
    var r := TrimStart(u);
    var k := |u| - |r|;
    assert Trim(u) == TrimEnd(r);
    if r == [] {
      TrimEndAllSpace(u, k);
      assert TrimEnd(r) == [];
    } else {
      var a := SplitLeadingSpace(u);
      TrimEndAfterSpace(a, r, u);
    }
  }

  lemma SplitLeadingSpace(u: string) returns (a: string)
    ensures u == a + TrimStart(u) && AllSpace(a)
  {
    var k := |u| - |TrimStart(u)|;
    a := u[..k];
    assert u == u[..k] + u[k..];
  }

  lemma TrimEndAllSpace(u: string, k: nat)
    requires k == |u| - |TrimStart(u)| && TrimStart(u) == []
    ensures Trim(TrimEnd(u)) == []
  {
    assert AllSpace(u[..k]) && u[..k] == u;
    TrimEndOfAllSpace(u);
  }

  /** Trimming the end of a text that is all whitespace leaves nothing. */
  lemma {:induction false} TrimEndOfAllSpace(u: string)
    requires AllSpace(u)
    ensures TrimEnd(u) == []
    decreases |u|
  {
    if u != [] {
      var v := u[..|u| - 1];
      assert forall i :: 0 <= i < |v| ==> v[i] == u[i];
      TrimEndOfAllSpace(v);
    }
  }

  lemma TrimEndAfterSpace(a: string, r: string, u: string)
    requires u == a + r && AllSpace(a) && r != [] && !IsSpace(r[0])
    ensures Trim(TrimEnd(u)) == TrimEnd(r)
  {
    assert !AllSpace(r);
    TrimEndAppend(a, r);
    var e := TrimEnd(r);
    TrimSkipsLeadingSpace(a, e);
    TrimEndKeeps(r, 1);
    assert e[0] == r[0];
  }

  /** A word, a space and a text that is not all whitespace trim to the
      word, the space and the text with its end trimmed. */
  lemma TrimWordSpaceText(w: string, u: string)
    requires w != [] && NoSpace(w) && !AllSpace(u)
    ensures Trim(w + " " + u) == (w + " ") + TrimEnd(u)
  {
    var s := w + " " + u;
    assert s == (w + " ") + u;
    assert s[0] == w[0];
    assert TrimStart(s) == s;
    TrimEndAppend(w + " ", u);
  }

  /** Leading whitespace makes no difference to the trimmed text. */
  lemma {:induction false} TrimSkipsLeadingSpace(a: string, s: string)
    requires AllSpace(a)
    ensures Trim(a + s) == Trim(s)
    decreases |a|
  {
    if a == [] {
      assert a + s == s;
    } else {
      assert (a + s)[1..] == a[1..] + s;
      assert TrimStart(a + s) == TrimStart(a[1..] + s);
      TrimSkipsLeadingSpace(a[1..], s);
    }
  }

  // ---------------------------------------------------------------------
  // split_whitespace

  /** Length of the leading run of non-whitespace characters. */
  function WordEnd(s: string): (n: nat)
    ensures n <= |s| && NoSpace(s[..n]) && (n == |s| || IsSpace(s[n]))
    decreases |s|
  {
    if s == [] || IsSpace(s[0]) then 0
    else
      var n := WordEnd(s[1..]);
      assert s[..n + 1] == [s[0]] + s[1..][..n];
      n + 1
  }

  /** `str::split_whitespace`: the maximal runs of non-whitespace characters. */
  function Words(s: string): (ws: seq<string>)
    ensures forall i :: 0 <= i < |ws| ==> ws[i] != [] && NoSpace(ws[i])
    ensures ws == [] <==> AllSpace(s)
    decreases |s|
  {
    if s == [] then []
    else if IsSpace(s[0]) then
      var ws := Words(s[1..]);
      assert AllSpace(s[1..]) ==> AllSpace(s) by {
        if AllSpace(s[1..]) {
          forall i | 0 <= i < |s| ensures IsSpace(s[i]) {
            if i > 0 { assert s[i] == s[1..][i - 1]; }
          }
        }
      }
      ws
    else
      var n := WordEnd(s);
      [s[..n]] + Words(s[n..])
  }

  /** Joins words with one space between each pair (the inverse of `Words`
      on words without whitespace). */
  function Unwords(ws: seq<string>): string
  {
    if ws == [] then []
    else if |ws| == 1 then ws[0]
    else ws[0] + " " + Unwords(ws[1..])
  }

  lemma WordEndOf(w: string, t: string)
    requires NoSpace(w)
    requires t == [] || IsSpace(t[0])
    ensures WordEnd(w + t) == |w|
    decreases |w|
  {
    if w != [] {
      assert (w + t)[1..] == w[1..] + t;
      WordEndOf(w[1..], t);
    }
  }

  /** A word followed by the end or by whitespace is the first word. */
  lemma {:induction false} WordsCons(w: string, t: string)
    requires w != [] && NoSpace(w)
    requires t == [] || IsSpace(t[0])
    ensures Words(w + t) == [w] + Words(t)
  {
    WordEndOf(w, t);
    assert (w + t)[..|w|] == w;
    assert (w + t)[|w|..] == t;
  }

  /** Leading whitespace does not change the words. */
  lemma {:induction false} WordsSkipSpace(a: string, t: string)
    requires AllSpace(a)
    ensures Words(a + t) == Words(t)
    decreases |a|
  {
    if a == [] {
      assert a + t == t;
    } else {
      assert IsSpace((a + t)[0]);
      assert Words(a + t) == Words((a + t)[1..]);
      assert (a + t)[1..] == a[1..] + t;
      WordsSkipSpace(a[1..], t);
    }
  }

  /** `split_whitespace` undoes `Unwords` on words free of whitespace. */
  lemma {:induction false} WordsUnwords(ws: seq<string>)
    requires forall i :: 0 <= i < |ws| ==> ws[i] != [] && NoSpace(ws[i])
    ensures Words(Unwords(ws)) == ws
    decreases |ws|
  {
    if ws == [] {
    } else if |ws| == 1 {
      WordsCons(ws[0], []);
      assert ws[0] + [] == ws[0];
    } else {
      var t := Unwords(ws[1..]);
      assert ws[0] + " " + t == ws[0] + (" " + t);
      WordsCons(ws[0], " " + t);
      WordsSkipSpace(" ", t);
      WordsUnwords(ws[1..]);
    }
  }

  // ---------------------------------------------------------------------
  // find

  predicate OccursAt(s: string, p: string, i: int) {
    0 <= i && i + |p| <= |s| && s[i..i + |p|] == p
  }

  /** `i` is where `p` first occurs in `s`. */
  predicate FirstAt(s: string, p: string, i: int) {
    OccursAt(s, p, i) && forall j :: 0 <= j < i ==> !OccursAt(s, p, j)
  }

  lemma OccursAtChars(s: string, p: string, i: int)
    requires OccursAt(s, p, i)
    ensures forall j :: 0 <= j < |p| ==> s[i + j] == p[j]
  {
    forall j | 0 <= j < |p| ensures s[i + j] == p[j] {
      assert s[i..i + |p|][j] == s[i + j];
    }
  }

  lemma OccursAtChar(s: string, c: char, i: int)
    ensures OccursAt(s, [c], i) <==> 0 <= i < |s| && s[i] == c
  {
    if 0 <= i < |s| {
      assert s[i..i + 1] == [s[i]];
    }
  }

  /** `str::find` gives the first occurrence, which is unique. */
  lemma FindAt(s: string, p: string, i: int)
    requires FirstAt(s, p, i)
    ensures Find(s, p) == Some(i)
  {
  }

  /** In a word followed by a space, the first space is the one after the
      word; the parts on either side of it are the word and the rest. */
  lemma FindSpaceAfterWord(w: string, v: string)
    requires NoSpace(w)
    ensures Find(w + " " + v, " ") == Some(|w|)
    ensures (w + " " + v)[..|w|] == w && (w + " " + v)[|w| + 1..] == v
  {
    var s := w + " " + v;
    forall j | 0 <= j < |w| ensures !OccursAt(s, " ", j) {
      OccursAtChar(s, ' ', j);
      assert s[j] == w[j];
    }
    OccursAtChar(s, ' ', |w|);
    FindAt(s, " ", |w|);
  }

  /** A text without whitespace holds no space to find. */
  lemma NoSpaceNoFind(w: string)
    requires NoSpace(w)
    ensures Find(w, " ") == None
  {
    forall j | 0 <= j <= |w| ensures !OccursAt(w, " ", j) {
      OccursAtChar(w, ' ', j);
    }
  }

  predicate Contains(s: string, p: string) {
    exists i :: 0 <= i <= |s| && OccursAt(s, p, i)
  }

  function FindFrom(s: string, p: string, k: nat): (r: Option<nat>)
    requires k <= |s|
    requires forall j :: 0 <= j < k ==> !OccursAt(s, p, j)
    ensures r.Some? ==> FirstAt(s, p, r.value)
    ensures r.None? ==> forall j :: !OccursAt(s, p, j)
    decreases |s| - k
  {
    if k + |p| > |s| then None
    else if s[k..k + |p|] == p then Some(k)
    else FindFrom(s, p, k + 1)
  }

  /** `str::find`: the index of the first occurrence of `p`, if any. */
  function Find(s: string, p: string): (r: Option<nat>)
    ensures r.Some? ==> FirstAt(s, p, r.value)
    ensures r.None? <==> !Contains(s, p)
  {
    FindFrom(s, p, 0)
  }

  // ---------------------------------------------------------------------
  // split on one separator character

  /** `str::split(sep)`: every maximal piece without `sep`, empty pieces
      included, so there is always one more piece than separators. Joining
      the pieces back gives the input. */
  function Split(s: string, sep: char): (parts: seq<string>)
    ensures |parts| >= 1
    ensures forall i :: 0 <= i < |parts| ==> sep !in parts[i]
    ensures Join(parts, sep) == s
    decreases |s|
  {
    if s == [] then [[]]
    else
      var rest := Split(s[1..], sep);
      if s[0] == sep then
        [[]] + rest
      else
        var parts := [[s[0]] + rest[0]] + rest[1..];
        assert parts[1..] == rest[1..];
        assert Join(parts, sep) == [s[0]] + Join(rest, sep);
        parts
  }

  /** Pieces glued back with `sep` between each pair. */
  function Join(parts: seq<string>, sep: char): string
  {
    if parts == [] then []
    else if |parts| == 1 then parts[0]
    else parts[0] + [sep] + Join(parts[1..], sep)
  }

  /** `Split` undoes `Join` on pieces that do not contain the separator. */
  lemma {:induction false} SplitJoin(parts: seq<string>, sep: char)
    requires |parts| >= 1
    requires forall i :: 0 <= i < |parts| ==> sep !in parts[i]
    ensures Split(Join(parts, sep), sep) == parts
    decreases |parts|, |parts[0]|
  {
    var p := parts[0];
    if p == [] {
      if |parts| > 1 {
        SplitJoin(parts[1..], sep);
        SplitJoinEmptyHead(parts, sep);
      } else {
        assert Join(parts, sep) == [];
      }
    } else {
      var parts' := [p[1..]] + parts[1..];
      NoSepAfterHead(parts, parts', sep);
      SplitJoin(parts', sep);
      assert p[0] != sep by { assert p[0] in p; }
      SplitJoinHeadChar(parts, parts', sep);
    }
  }

  lemma NoSepAfterHead(parts: seq<string>, parts': seq<string>, sep: char)
    requires |parts| >= 1 && parts[0] != [] && parts' == [parts[0][1..]] + parts[1..]
    requires forall i :: 0 <= i < |parts| ==> sep !in parts[i]
    ensures forall i :: 0 <= i < |parts'| ==> sep !in parts'[i]
  {
    assert sep !in parts[0];
    forall i | 0 <= i < |parts'| ensures sep !in parts'[i] {
      if i == 0 {
        assert forall c :: c in parts[0][1..] ==> c in parts[0];
      } else {
        assert parts'[i] == parts[i];
      }
    }
  }

  lemma SplitJoinEmptyHead(parts: seq<string>, sep: char)
    requires |parts| > 1 && parts[0] == []
    requires Split(Join(parts[1..], sep), sep) == parts[1..]
    ensures Split(Join(parts, sep), sep) == parts
  {
    var j := Join(parts[1..], sep);
    assert Join(parts, sep) == [sep] + j;
    assert ([sep] + j)[1..] == j;
    assert [[]] + parts[1..] == parts;
  }

  lemma SplitJoinHeadChar(parts: seq<string>, parts': seq<string>, sep: char)
    requires |parts| >= 1 && parts[0] != [] && parts[0][0] != sep
    requires parts' == [parts[0][1..]] + parts[1..]
    requires Split(Join(parts', sep), sep) == parts'
    ensures Split(Join(parts, sep), sep) == parts
  {
    var p := parts[0];
    JoinHeadChar(parts, parts', sep);
    SplitCons(p[0], Join(parts', sep), sep);
    assert parts'[0] == p[1..] && parts'[1..] == parts[1..];
    assert [p[0]] + p[1..] == p;
    assert [p] + parts[1..] == parts;
  }

  /** One step of `Split` past a character other than the separator. */
  lemma SplitCons(c: char, j: string, sep: char)
    requires c != sep
    ensures Split([c] + j, sep) == [[c] + Split(j, sep)[0]] + Split(j, sep)[1..]
  {
    assert ([c] + j)[0] == c && ([c] + j)[1..] == j;
  }

  lemma JoinHeadChar(parts: seq<string>, parts': seq<string>, sep: char)
    requires |parts| >= 1 && parts[0] != []
    requires parts' == [parts[0][1..]] + parts[1..]
    ensures Join(parts, sep) == [parts[0][0]] + Join(parts', sep)
  {
    var p := parts[0];
    assert parts'[1..] == parts[1..];
    if |parts| > 1 {
      assert Join(parts, sep) == p + [sep] + Join(parts[1..], sep);
      assert Join(parts', sep) == p[1..] + [sep] + Join(parts[1..], sep);
    }
    assert p == [p[0]] + p[1..];
  }

  /** Splitting a concatenation at a separator splits each side on its own. */
  lemma {:induction false} SplitAppend(a: string, b: string, sep: char)
    ensures Split(a + [sep] + b, sep) == Split(a, sep) + Split(b, sep)
    decreases |a|
  {
    if a == [] {
      assert a + [sep] + b == [sep] + b;
      assert ([sep] + b)[1..] == b;
    } else {
      var s := a + [sep] + b;
      assert s[0] == a[0] && s[1..] == a[1..] + [sep] + b;
      SplitAppend(a[1..], b, sep);
      SplitConsAppend(a[0], Split(a[1..], sep), Split(b, sep), sep);
    }
  }

  /** One step of `Split` in front of a concatenation of piece lists. */
  lemma SplitConsAppend(c: char, x: seq<string>, y: seq<string>, sep: char)
    requires |x| >= 1
    ensures (if c == sep then [[]] + (x + y) else [[c] + (x + y)[0]] + (x + y)[1..]) ==
            (if c == sep then [[]] + x else [[c] + x[0]] + x[1..]) + y
  {
    assert (x + y)[0] == x[0] && (x + y)[1..] == x[1..] + y;
  }

}
