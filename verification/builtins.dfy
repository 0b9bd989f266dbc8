/** The string rules of the builtins: the flag handling of `handle_ls` and
    `handle_echo`, the `~` expansion of `handle_cd`, and the messages `main`
    prints for `type`. File contents, directory listings and the outcome of
    writes and directory changes are parameters. */
module Builtins {
  import opened Wrappers
  import opened Strings
  import opened Redirect
  import opened Commands
  import opened PathSearch

  // ---------------------------------------------------------------------
  // `trim_start_matches`

  /** `p` repeated `n` times. */
  function Repeat(p: string, n: nat): string {
    if n == 0 then [] else p + Repeat(p, n - 1)
  }

  /** Removes every leading copy of `p` (nothing when `p` is empty). */
  function TrimStartMatches(s: string, p: string): (r: string)
    ensures p != [] ==> !StartsWith(r, p)
    ensures |r| <= |s| && r == s[|s| - |r|..]
    decreases |s|
  {
    if p != [] && StartsWith(s, p) then TrimStartMatches(s[|p|..], p) else s
  }

  /** What was removed is a number of copies of `p`. */
  lemma {:induction false} TrimStartMatchesRemovesCopies(s: string, p: string) returns (n: nat)
    ensures s == Repeat(p, n) + TrimStartMatches(s, p)
    decreases |s|
  {
    if p != [] && StartsWith(s, p) {
      var rest := s[|p|..];
      var m := TrimStartMatchesRemovesCopies(rest, p);
      n := m + 1;
      SplitAtPrefix(s, p);
      TrimStartMatchesStep(s, p);
      RepeatSucc(p, m, TrimStartMatches(rest, p));
    } else {
      n := 0;
    }
  }

  /** Conversely, copies of `p` in front of a text that does not start with
      `p` are exactly what is removed. */
  lemma {:induction false} TrimStartMatchesCopies(p: string, n: nat, t: string)
    requires p != [] && !StartsWith(t, p)
    ensures TrimStartMatches(Repeat(p, n) + t, p) == t
    decreases n
  {
    if n > 0 {
      var rest := Repeat(p, n - 1) + t;
      assert Repeat(p, n) + t == p + rest;
      PrefixOf(p, rest);
      TrimStartMatchesCopies(p, n - 1, t);
    } else {
      assert Repeat(p, n) + t == t;
    }
  }

  lemma TrimStartMatchesStep(s: string, p: string)
    requires p != [] && StartsWith(s, p)
    ensures TrimStartMatches(s, p) == TrimStartMatches(s[|p|..], p)
  {
  }

  lemma RepeatSucc(p: string, m: nat, r: string)
    ensures Repeat(p, m + 1) + r == p + (Repeat(p, m) + r)
  {
  }

  lemma SplitAtPrefix(s: string, p: string)
    requires StartsWith(s, p)
    ensures s == p + s[|p|..]
  {
    assert s[..|p|] == p;
  }

  lemma PrefixOf(p: string, rest: string)
    ensures StartsWith(p + rest, p) && (p + rest)[|p|..] == rest
  {
    assert (p + rest)[..|p|] == p;
  }

  // ---------------------------------------------------------------------
  // `handle_ls`

  /** What `handle_ls` makes of its argument: the directory text (read after
      trimming), whether `-1` asked for one name per line, and whether a
      trailing `2` asked for errors to go to the target. */
  datatype LsRequest = LsRequest(dir: string, onePerLine: bool, toStderr: bool)

  /** The three rewrites of `handle_ls`, in order: a leading `-1` (all
      leading copies) is removed and the rest trimmed; a trailing `2` is
      removed without trimming; an empty text becomes `.`. */
  function LsRequestOf(from: string): LsRequest {
    var f1 := if StartsWith(from, "-1") then Trim(TrimStartMatches(from, "-1")) else from;
    var f2 := if EndsWith(f1, "2") then f1[..|f1| - 1] else f1;
    LsRequest(if f2 == [] then "." else f2, StartsWith(from, "-1"), EndsWith(f1, "2"))
  }

  /** The argument handling of `handle_ls`, rewriting `from` in place. */
  method LsArgs(from: string) returns (req: LsRequest)
    ensures req == LsRequestOf(from)
    ensures req.dir != []
    ensures from == [] ==> req == LsRequest(".", false, false)
  {
    var f := from;
    var inLine := false;
    if StartsWith(f, "-1") {
      f := Trim(TrimStartMatches(f, "-1"));
      inLine := true;
    }
    var toStderr := false;
    if EndsWith(f, "2") {
      f := f[..|f| - 1];
      toStderr := true;
    }
    if f == [] {
      f := ".";
    }
    req := LsRequest(f, inLine, toStderr);
  }

  /** `-1 DIR` lists `DIR` one name per line. */
  lemma LsOnePerLine(d: string)
    requires d != [] && !IsSpace(d[0]) && !IsSpace(d[|d| - 1])
    requires d[|d| - 1] != '2'
    ensures LsRequestOf("-1 " + d) == LsRequest(d, true, false)
  {
    var s := "-1 " + d;
    assert s == Repeat("-1", 1) + (" " + d);
    assert !StartsWith(" " + d, "-1") by { assert (" " + d)[0] == ' '; }
    TrimStartMatchesCopies("-1", 1, " " + d);
    assert StartsWith(s, "-1") by { assert s[..2] == "-1"; }
    TrimSkipsLeadingSpace(" ", d);
  }

  /** `-1` repeated and nothing else still lists the current directory. */
  lemma LsOnlyFlags(n: nat)
    requires n >= 1
    ensures LsRequestOf(Repeat("-1", n)) == LsRequest(".", true, false)
  {
    var s := Repeat("-1", n);
    assert s == "-1" + Repeat("-1", n - 1);
    assert StartsWith(s, "-1") by { assert s[..2] == "-1"; }
    assert s == Repeat("-1", n) + [];
    TrimStartMatchesCopies("-1", n, []);
  }

  /** `DIR 2` (what is left of `ls DIR 2> F`) lists `DIR` and sends errors
      to the target. */
  lemma LsStderr(d: string)
    requires d != [] && !IsSpace(d[0]) && !IsSpace(d[|d| - 1])
    requires !StartsWith(d, "-1")
    ensures LsRequestOf(d + " 2") == LsRequest(d + " ", false, true)
    ensures Trim(LsRequestOf(d + " 2").dir) == d
  {
    var s := d + " 2";
    NoFlagAfterAppend(d, " 2");
    assert EndsWith(s, "2");
    assert s[..|s| - 1] == d + " ";
    TrimAfterWordEnd(d);
  }

  lemma NoFlagAfterAppend(d: string, u: string)
    requires d != [] && !StartsWith(d, "-1")
    requires u != [] && u[0] != '1'
    ensures !StartsWith(d + u, "-1")
  {
    var s := d + u;
    if |d| == 1 {
      assert s[1] == u[0];
    } else {
      assert s[..2] == d[..2];
    }
  }

  // ---------------------------------------------------------------------
  // `handle_echo`

  /** What `handle_echo` does: the text it prints and, when there is a
      target, the file it writes and what it writes there. */
  datatype EchoEffect = EchoEffect(printed: string, written: Option<(string, string)>)

  /** `handle_echo`. `writeOk` is whether writing the target succeeds. A
      text ending in `2` loses it (and is trimmed again), and then the text
      still goes to the terminal while the target is written empty. */
  method HandleEcho(arg: string, files: string, writeOk: bool) returns (e: EchoEffect)
    ensures var (text, toStderr) := StripStderrMark(arg);
            if files == [] then
              e == EchoEffect(Trim(text) + "\n", None)
            else
              e.written == Some((files, if toStderr then [] else Trim(text))) &&
              e.printed == (if toStderr then Trim(text) + "\n"
                            else if writeOk then []
                            else "echo: " + files + ": No such file or directory\n")
  {
    var a := arg;
    var redirectErr := false;
    if EndsWith(a, "2") {
      a := Trim(a[..|a| - 1]);
      redirectErr := true;
    }
    var printed := "";
    var written := None;
    if files == [] {
      printed := Trim(a) + "\n";
    }
    var content := a;
    if files != [] {
      if redirectErr {
        content := "";
      }
      written := Some((files, Trim(content)));
      if writeOk {
        if redirectErr {
          printed := Trim(a) + "\n";
        }
      } else {
        if redirectErr {
          printed := Trim(a) + "\n";
        } else {
          printed := "echo: " + files + ": No such file or directory\n";
        }
      }
    }
    e := EchoEffect(printed, written);
  }

  /** A trailing `2` is taken for the remains of `2>` even when it is part
      of the last word: `abc2` is shortened to `abc`, and any text followed
      by `2` to that text trimmed. */
  lemma TrailingTwoDropped(w: string)
    ensures StripStderrMark(w + "2") == (Trim(w), true)
  {
    var s := w + "2";
    assert s[|s| - 1..] == "2";
    assert s[..|s| - 1] == w;
  }

  // ---------------------------------------------------------------------
  // `handle_cd`

  /** A leading `~` is replaced by the home directory; nothing else changes. */
  function ExpandTilde(path: string, home: string): (r: string)
    ensures path != [] && path[0] == '~' ==> r == home + path[1..] && |r| == |home| + |path| - 1
    ensures (path == [] || path[0] != '~') ==> r == path
  {
    if StartsWith(path, "~") then home + path[1..] else path
  }

  /** Expansion does not apply twice when the home directory does not itself
      start with `~`. */
  lemma ExpandTildeIdempotent(path: string, home: string)
    requires home != [] && home[0] != '~'
    ensures ExpandTilde(ExpandTilde(path, home), home) == ExpandTilde(path, home)
  {
    var r := ExpandTilde(path, home);
    if path != [] && path[0] == '~' {
      assert r[0] == home[0];
    }
  }

  /** `handle_cd`: the directory it tries to change to and what it prints.
      `home` is the value of `HOME` (`None` when unset), and `dirs` the
      paths a change of directory succeeds for. */
  method HandleCd(path: string, home: Option<string>, dirs: set<string>) returns (newDir: Option<string>, printed: string)
    ensures var target := ExpandTilde(path, home.GetOr(""));
            (target in dirs ==> newDir == Some(target) && printed == []) &&
            (target !in dirs ==> newDir == None && printed == "cd: " + target + ": No such file or directory\n")
  {
    var p := path;
    var homeDir := home.GetOr("");
    if StartsWith(p, "~") {
      p := homeDir + p[1..];
    }
    if p in dirs {
      newDir, printed := Some(p), [];
    } else {
      newDir, printed := None, "cd: " + p + ": No such file or directory\n";
    }
  }

  /** `cd ~` goes to the home directory; `cd ~/X` to `X` under it. */
  lemma CdHome(home: string, x: string)
    ensures ExpandTilde("~", home) == home
    ensures ExpandTilde("~/" + x, home) == home + "/" + x
  {
    assert ("~/" + x)[1..] == "/" + x;
  }

  // ---------------------------------------------------------------------
  // `type`

  /** The line `main` prints for `type`: builtins are reported as such,
      any other name with the path found for it or as not found. */
  function TypeMessage(t: TypeCommand, pathEnv: Option<string>, fs: FileSystem): (r: string)
    ensures !t.External? ==> EndsWith(r, " is a shell builtin\n")
    ensures t.External? ==>
              (r == t.name + " not found\n" <==>
               forall i :: 0 <= i < |SearchDirs(pathEnv)| ==> !IsExecutable(fs, Candidate(SearchDirs(pathEnv)[i], t.name)))
  {
    match t
    case External(name) =>
      var dirs := SearchDirs(pathEnv);
      var p := Resolve(dirs, name, fs);
      ResolveFirst(dirs, name, fs);
      FoundDiffers(name, p);
      if p != [] then name + " is " + p + "\n" else name + " not found\n"
    case _ =>
      var r := BuiltinName(t) + " is a shell builtin\n";
      assert r[|r| - 20..] == " is a shell builtin\n";
      r
  }

  /** The reply for a name that was found is never the not-found reply. */
  lemma FoundDiffers(name: string, p: string)
    ensures name + " is " + p + "\n" != name + " not found\n"
  {
    assert (name + " is " + p + "\n")[|name| + 1] == 'i';
    assert (name + " not found\n")[|name| + 1] == 'n';
  }

  /** The whole `type N` exchange: the line is classified as `type` and the
      reply names `N` as a builtin, as found on the search path, or as not
      found. A builtin name is never looked up on the path. */
  lemma TypeReply(a: string, sep: string, x: string, tail: string, cwd: Option<string>, pathEnv: Option<string>, fs: FileSystem)
    requires AllSpace(a) && Separator(sep) && AllSpace(tail)
    requires x != [] && NoSpace(x)
    ensures var r := InputParse(a + "type" + sep + x + tail, cwd);
            r.Some? && r.value.Type? &&
            TypeMessage(r.value.query, pathEnv, fs) ==
              (if x in BuiltinNames then x + " is a shell builtin\n"
               else
                 var p := Resolve(SearchDirs(pathEnv), x, fs);
                 if p != [] then x + " is " + p + "\n" else x + " not found\n")
  {
    ParseType(a, sep, x, tail, cwd);
  }
}
