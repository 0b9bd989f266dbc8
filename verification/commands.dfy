/** The command classifier `input_parse`: an ordered chain of tests that maps
    one raw input line to one closed `Command` variant. */
module Commands {
  import opened Wrappers
  import opened Strings
  import opened Redirect
  import Quoting

  /** What `type NAME` asks about: one of the five builtins, or a name to
      look up on the search path. */
  datatype TypeCommand = Pwd | Echo | Exit | Type | External(name: string) | Cd

  /** The classified line. */
  datatype Command =
    | Ls(from: string, to: string)
    | Echo(arg: string, files: string)
    | Exit
    | Type(query: TypeCommand)
    | External(program: string, args: seq<string>)
    | Unknown(text: string)
    | Pwd(path: string)
    | Cd(path: string)
    | Cat(catArgs: string)
    | ExecCat(file: string)

  /** The names `type` reports as shell builtins. */
  const BuiltinNames: set<string> := {"cd", "pwd", "echo", "exit", "type"}

  /** The name a builtin is reported under. */
  function BuiltinName(t: TypeCommand): string
    requires !t.External?
  {
    match t
    case Pwd => "pwd"
    case Echo => "echo"
    case Exit => "exit"
    case Type => "type"
    case Cd => "cd"
  }

  /** The `type` lookup table: a builtin's name gives that builtin, any other
      name is passed on unchanged for a search-path lookup. */
  function TypeOf(name: string): (t: TypeCommand)
    ensures t.External? <==> name !in BuiltinNames
    ensures t.External? ==> t.name == name
    ensures !t.External? ==> BuiltinName(t) == name
  {
    match name
    case "cd" => TypeCommand.Cd
    case "pwd" => TypeCommand.Pwd
    case "echo" => TypeCommand.Echo
    case "exit" => TypeCommand.Exit
    case "type" => TypeCommand.Type
    case _ => TypeCommand.External(name)
  }

  /** Every builtin is found again from its own name. */
  lemma TypeOfBuiltinName(t: TypeCommand)
    requires !t.External?
    ensures BuiltinName(t) in BuiltinNames && TypeOf(BuiltinName(t)) == t
  {
  }

  predicate StartsWithQuote(line: string) {
    line != [] && (line[0] == '\'' || line[0] == '"')
  }

  /** `input_parse`. The current directory is a parameter (`None` when it
      cannot be read). The result is `None` exactly where the source panics:
      a line that starts with a quote but has only one word (the index
      `args.len() - 1` underflows), and a line whose command is `cat` but
      that does not itself start with `cat` (the `unwrap` of `strip_prefix`). */
  function InputParse(line: string, cwd: Option<string>): (r: Option<Command>)
    ensures AllSpace(line) ==> r == Some(Command.Unknown([]))
    ensures r.None? <==>
              !AllSpace(line) &&
              (if StartsWithQuote(line) then |Words(line)| == 1
               else HandleInput(line).command == "cat" && !StartsWith(line, "cat"))
    ensures StartsWithQuote(line) && |Words(line)| >= 2 ==>
              r == Some(Command.ExecCat(Words(line)[|Words(line)| - 1]))
    ensures r == Some(Command.Exit) ==>
              !StartsWithQuote(line) && HandleInput(line).command == "exit" && Words(line)[1..] == ["0"]
  {
    var words := Words(line);
    if words == [] then
      Some(Command.Unknown(Trim(line)))
    else
      var Parts(command, input, target) := HandleInput(line);
      var args := words[1..];
      if StartsWithQuote(line) then
        if |args| == 0 then None
        else Some(Command.ExecCat(args[|args| - 1]))
      else if command == "ls" then
        Some(Command.Ls(input, target))
      else if command == "cat" then
        if StartsWith(line, "cat") then Some(Command.Cat(line[3..])) else None
      else if command == "cd" && |args| == 1 then
        Some(Command.Cd(args[0]))
      else if command == "pwd" && |args| == 0 then
        match cwd
        case Some(path) => Some(Command.Pwd(path))
        case None => Some(Command.Unknown(Trim(input)))
      else if command == "echo" then
        Some(Command.Echo(input, target))
      else if command == "exit" && |args| == 1 && args[0] == "0" then
        Some(Command.Exit)
      else if command == "type" then
        if |args| == 1 then Some(Command.Type(TypeOf(args[0])))
        else Some(Command.Unknown(Trim(input)))
      else if command != [] then
        Some(Command.External(command, args))
      else
        Some(Command.Unknown(Trim(input)))
  }

  // ---------------------------------------------------------------------
  // Lines of the form `<spaces>WORD<spaces>ARG<spaces>`.

  /** A run of whitespace that starts with a space: what may separate a
      command word from its argument (`handle_input` splits at the first
      space, `split_whitespace` at any whitespace). */
  predicate Separator(sep: string) {
    sep != [] && sep[0] == ' ' && AllSpace(sep)
  }

  /** A line holding a command word and one argument, with any whitespace
      before and after (the read line keeps its newline): its words are
      those two, its command is the word and it does not start with a quote. */
  lemma TwoWordLine(a: string, w: string, sep: string, x: string, tail: string, line: string)
    requires line == a + w + sep + x + tail
    requires AllSpace(a) && Separator(sep) && AllSpace(tail)
    requires w != [] && NoSpace(w) && '>' !in w && w[0] != '\'' && w[0] != '"'
    requires x != [] && NoSpace(x)
    ensures Words(line) == [w, x]
    ensures HandleInput(line).command == w
    ensures !StartsWithQuote(line)
  {
    TwoWords(a, w, sep, x, tail, line);
    var t := Regroup(a, w, sep, x, tail, line);
    CommandWord(a, w, t);
    NoLeadingQuote(a, w, t);
  }

  lemma Regroup(a: string, w: string, sep: string, x: string, tail: string, line: string) returns (t: string)
    requires line == a + w + sep + x + tail && Separator(sep)
    ensures line == a + w + t && t != [] && t[0] == ' '
  {
    t := sep + x + tail;
    assert t[0] == sep[0];
  }

  /** A line that starts, after whitespace, with a word not starting with a
      quote does not start with a quote. */
  lemma NoLeadingQuote(a: string, w: string, t: string)
    requires AllSpace(a) && w != [] && w[0] != '\'' && w[0] != '"'
    ensures !StartsWithQuote(a + w + t)
  {
    if a == [] {
      assert (a + w + t)[0] == w[0];
    } else {
      assert (a + w + t)[0] == a[0];
    }
  }

  lemma TwoWords(a: string, w: string, sep: string, x: string, tail: string, line: string)
    requires line == a + w + sep + x + tail
    requires AllSpace(a) && Separator(sep) && AllSpace(tail)
    requires w != [] && NoSpace(w)
    requires x != [] && NoSpace(x)
    ensures Words(line) == [w, x]
  {
    var rest := sep + (x + tail);
    assert line == a + (w + rest);
    WordsSkipSpace(a, w + rest);
    WordsCons(w, rest);
    WordsSkipSpace(sep, x + tail);
    WordsCons(x, tail);
  }

  /** How a line of two words that does not start with a quote is classified
      when its command is `cd` or `type`. */
  lemma ClassifyTwoWords(line: string, w: string, x: string, cwd: Option<string>)
    requires Words(line) == [w, x] && HandleInput(line).command == w && !StartsWithQuote(line)
    requires w == "cd" || w == "type"
    ensures w == "cd" ==> InputParse(line, cwd) == Some(Command.Cd(x))
    ensures w == "type" ==> InputParse(line, cwd) == Some(Command.Type(TypeOf(x)))
  {
    assert Words(line) != [];
    assert Words(line)[1..] == [x];
    assert "cd" != "ls" && "cd" != "cat" && "type" != "ls" && "type" != "cat" && "type" != "cd";
    assert "type" != "pwd" && "type" != "echo" && "type" != "exit";
  }

  /** `exit 0` is the only way to get `Exit`; surrounding whitespace is allowed. */
  lemma ParseExit(a: string, sep: string, tail: string, cwd: Option<string>)
    requires AllSpace(a) && Separator(sep) && AllSpace(tail)
    ensures InputParse(a + "exit" + sep + "0" + tail, cwd) == Some(Command.Exit)
  {
    var line := a + "exit" + sep + "0" + tail;
    TwoWordLine(a, "exit", sep, "0", tail, line);
    ClassifyExit(line, cwd);
  }

  lemma ClassifyExit(line: string, cwd: Option<string>)
    requires Words(line) == ["exit", "0"] && HandleInput(line).command == "exit" && !StartsWithQuote(line)
    ensures InputParse(line, cwd) == Some(Command.Exit)
  {
    assert Words(line) != [];
    assert Words(line)[1..] == ["0"];
    assert "exit" != "ls" && "exit" != "cat" && "exit" != "cd" && "exit" != "pwd" && "exit" != "echo";
  }

  /** `cd X` with one argument changes to `X`. */
  lemma ParseCd(a: string, sep: string, x: string, tail: string, cwd: Option<string>)
    requires AllSpace(a) && Separator(sep) && AllSpace(tail)
    requires x != [] && NoSpace(x)
    ensures InputParse(a + "cd" + sep + x + tail, cwd) == Some(Command.Cd(x))
  {
    var line := a + "cd" + sep + x + tail;
    TwoWordLine(a, "cd", sep, x, tail, line);
    ClassifyTwoWords(line, "cd", x, cwd);
  }

  /** `type N` with one argument asks about the builtin named `N`, or about
      the external name `N` when it is not a builtin. */
  lemma ParseType(a: string, sep: string, x: string, tail: string, cwd: Option<string>)
    requires AllSpace(a) && Separator(sep) && AllSpace(tail)
    requires x != [] && NoSpace(x)
    ensures InputParse(a + "type" + sep + x + tail, cwd) == Some(Command.Type(TypeOf(x)))
    ensures x in BuiltinNames ==> InputParse(a + "type" + sep + x + tail, cwd) != Some(Command.Type(TypeCommand.External(x)))
  {
    var line := a + "type" + sep + x + tail;
    TwoWordLine(a, "type", sep, x, tail, line);
    ClassifyTwoWords(line, "type", x, cwd);
  }

  /** A line that starts with the word `cat` is `Cat` of the text after
      those three letters, unchanged: quotes and redirects are left to
      `handle_cat`. */
  lemma ParseCat(t: string, cwd: Option<string>)
    requires t == [] || t[0] == ' '
    ensures InputParse("cat" + t, cwd) == Some(Command.Cat(t))
  {
    var line := "cat" + t;
    assert line == [] + "cat" + t;
    CommandWord([], "cat", t);
    CatLine(t, line);
    ClassifyCat(line, cwd);
  }

  lemma CatLine(t: string, line: string)
    requires line == "cat" + t && (t == [] || t[0] == ' ')
    ensures Words(line) != [] && !StartsWithQuote(line)
    ensures StartsWith(line, "cat") && line[3..] == t
  {
    WordsCons("cat", t);
    assert line[..3] == "cat" && line[3..] == t && line[0] == 'c';
  }

  lemma ClassifyCat(line: string, cwd: Option<string>)
    requires Words(line) != [] && !StartsWithQuote(line)
    requires HandleInput(line).command == "cat" && StartsWith(line, "cat")
    ensures InputParse(line, cwd) == Some(Command.Cat(line[3..]))
  {
    assert "cat" != "ls";
  }

  /** `cat` after leading whitespace makes the source panic. */
  lemma ParseIndentedCat(a: string, t: string, cwd: Option<string>)
    requires AllSpace(a) && a != []
    requires t == [] || t[0] == ' '
    ensures InputParse(a + "cat" + t, cwd) == None
  {
    var line := a + "cat" + t;
    CommandWord(a, "cat", t);
    NoLeadingQuote(a, "cat", t);
    IndentedLine(a, "cat", t, line);
  }

  lemma IndentedLine(a: string, w: string, t: string, line: string)
    requires line == a + w + t
    requires a != [] && AllSpace(a) && w != [] && !IsSpace(w[0])
    ensures !AllSpace(line) && !StartsWith(line, w)
  {
    assert line[|a|] == w[0];
    assert line[0] == a[0];
  }

  // ---------------------------------------------------------------------
  // Lines of the form `<spaces>WORD ARGS`.

  /** `echo ARGS` without a redirect: the argument text after the first
      space, trimmed, normalised and trimmed again, with no target. */
  lemma ParseEcho(a: string, u: string, cwd: Option<string>)
    requires AllSpace(a) && '>' !in u
    ensures InputParse(a + "echo" + " " + u, cwd) ==
              Some(Command.Echo(Trim(Quoting.Normalise(Trim(u))), []))
  {
    var line := a + "echo" + " " + u;
    HandleInputRest(a, "echo", u, line);
    LeadingWord(a, "echo", u, line);
    ClassifyArgLine(line, "echo", Trim(Quoting.Normalise(Trim(u))), [], cwd);
  }

  /** `ls ARGS` without a redirect: the same argument text, as the listing
      request, with no target. */
  lemma ParseLs(a: string, u: string, cwd: Option<string>)
    requires AllSpace(a) && '>' !in u
    ensures InputParse(a + "ls" + " " + u, cwd) ==
              Some(Command.Ls(Trim(Quoting.Normalise(Trim(u))), []))
  {
    var line := a + "ls" + " " + u;
    HandleInputRest(a, "ls", u, line);
    LeadingWord(a, "ls", u, line);
    ClassifyArgLine(line, "ls", Trim(Quoting.Normalise(Trim(u))), [], cwd);
  }

  /** `echo ARGS > FILE` and `ls ARGS > FILE`, with that one `>` not
      preceded by `1`: the argument text is read as without a redirect, and
      the target is the text after `>`, trimmed. */
  lemma ParseArgsTo(a: string, w: string, u: string, f: string, cwd: Option<string>)
    requires w == "echo" || w == "ls"
    requires AllSpace(a) && '>' !in u && '>' !in f
    requires u == [] || u[|u| - 1] != '1'
    ensures InputParse(a + w + " " + u + ">" + f, cwd) ==
              Some(var r := Trim(Quoting.Normalise(Trim(u)));
                   if w == "ls" then Command.Ls(r, Trim(f)) else Command.Echo(r, Trim(f)))
  {
    var line := a + w + " " + u + ">" + f;
    Redirect.HandleInputTo(a, w, u, f, line);
    LeadingWordTo(a, w, u, f, line);
    ClassifyArgLine(line, w, Trim(Quoting.Normalise(Trim(u))), Trim(f), cwd);
  }

  /** A command word that is neither a builtin nor `ls` or `cat` names an
      external program; its arguments are the whitespace-separated words of
      the raw text after it, quotes and redirects included. */
  lemma ParseExternal(a: string, w: string, u: string, cwd: Option<string>)
    requires AllSpace(a)
    requires w != [] && NoSpace(w) && '>' !in w && w[0] != '\'' && w[0] != '"'
    requires w !in BuiltinNames && w != "ls" && w != "cat"
    ensures InputParse(a + w + " " + u, cwd) == Some(Command.External(w, Words(u)))
  {
    var line := a + w + " " + u;
    LeadingWord(a, w, u, line);
    assert Words(line)[1..] == Words(u);
    var t := SpaceThen(a, w, u, line);
    CommandWord(a, w, t);
    ClassifyExternal(line, w, cwd);
  }

  lemma SpaceThen(a: string, w: string, u: string, line: string) returns (t: string)
    requires line == a + w + " " + u
    ensures t == " " + u && t[0] == ' '
    ensures line == a + w + t && line == a + (w + t)
  {
    t := " " + u;
  }

  /** A word after any whitespace, then a space: the word is the first of
      the line's words, the rest are the words after the space. */
  lemma LeadingWord(a: string, w: string, u: string, line: string)
    requires line == a + w + " " + u
    requires AllSpace(a) && w != [] && NoSpace(w) && w[0] != '\'' && w[0] != '"'
    ensures Words(line) == [w] + Words(u) && !StartsWithQuote(line)
  {
    var t := SpaceThen(a, w, u, line);
    WordsSkipSpace(a, w + t);
    WordsCons(w, t);
    WordsSkipSpace(" ", u);
    NoLeadingQuote(a, w, t);
  }

  lemma LeadingWordTo(a: string, w: string, u: string, f: string, line: string)
    requires line == a + w + " " + u + ">" + f
    requires AllSpace(a) && w != [] && NoSpace(w) && w[0] != '\'' && w[0] != '"'
    ensures Words(line) == [w] + Words(u + ">" + f) && !StartsWithQuote(line)
  {
    assert line == a + w + " " + (u + ">" + f);
    LeadingWord(a, w, u + ">" + f, line);
  }

  lemma ClassifyArgLine(line: string, w: string, r: string, f: string, cwd: Option<string>)
    requires Words(line) != [] && !StartsWithQuote(line)
    requires HandleInput(line) == Parts(w, r, f)
    requires w == "echo" || w == "ls"
    ensures InputParse(line, cwd) == Some(if w == "ls" then Command.Ls(r, f) else Command.Echo(r, f))
  {
    assert "echo" != "ls" && "echo" != "cat" && "echo" != "cd" && "echo" != "pwd";
  }

  lemma ClassifyExternal(line: string, w: string, cwd: Option<string>)
    requires Words(line) != [] && !StartsWithQuote(line)
    requires HandleInput(line).command == w && w != []
    requires w !in BuiltinNames && w != "ls" && w != "cat"
    ensures InputParse(line, cwd) == Some(Command.External(w, Words(line)[1..]))
  {
    assert w != "cd" && w != "pwd" && w != "echo" && w != "exit" && w != "type";
  }

  // ---------------------------------------------------------------------
  // Lines of the form `<spaces>WORD<spaces>`.

  /** A line holding one word with any whitespace around it: its only word
      is that word, and so is its command; there is no target. */
  lemma OneWordLine(a: string, w: string, tail: string, line: string)
    requires line == a + w + tail
    requires AllSpace(a) && AllSpace(tail)
    requires w != [] && NoSpace(w) && '>' !in w
    ensures Words(line) == [w]
    ensures HandleInput(line) == Parts(w, [], [])
  {
    OneWord(a, w, tail, line);
    OneWordTrim(a, w, tail, line);
    NoGt(a, w, tail, line);
    NoSpaceNoFind(w);
  }

  lemma OneWord(a: string, w: string, tail: string, line: string)
    requires line == a + w + tail
    requires AllSpace(a) && AllSpace(tail)
    requires w != [] && NoSpace(w)
    ensures Words(line) == [w]
  {
    assert line == a + (w + tail);
    WordsSkipSpace(a, w + tail);
    WordsCons(w, tail);
  }

  lemma OneWordTrim(a: string, w: string, tail: string, line: string)
    requires line == a + w + tail
    requires AllSpace(a) && AllSpace(tail)
    requires w != [] && NoSpace(w)
    ensures Trim(line) == w
  {
    assert line == a + (w + tail);
    TrimSkipsLeadingSpace(a, w + tail);
    TrimWordThenSpace(w, tail);
  }

  lemma NoGt(a: string, w: string, tail: string, line: string)
    requires line == a + w + tail
    requires AllSpace(a) && AllSpace(tail) && '>' !in w
    ensures '>' !in line
  {
    forall k | 0 <= k < |line| ensures line[k] != '>' {
      if k < |a| {
        assert line[k] == a[k];
      } else if k < |a| + |w| {
        assert line[k] == w[k - |a|];
      } else {
        assert line[k] == tail[k - |a| - |w|];
      }
    }
  }

  /** `pwd` alone gives the current directory, or `Unknown("")` when it
      cannot be read. */
  lemma ParsePwd(a: string, tail: string, cwd: Option<string>)
    requires AllSpace(a) && AllSpace(tail)
    ensures InputParse(a + "pwd" + tail, cwd) ==
              Some(if cwd.Some? then Command.Pwd(cwd.value) else Command.Unknown([]))
  {
    var line := a + "pwd" + tail;
    OneWordLine(a, "pwd", tail, line);
    NoLeadingQuote(a, "pwd", tail);
    ClassifyPwd(line, cwd);
  }

  lemma ClassifyPwd(line: string, cwd: Option<string>)
    requires |Words(line)| == 1 && !StartsWithQuote(line)
    requires HandleInput(line).command == "pwd" && HandleInput(line).rest == []
    ensures InputParse(line, cwd) == Some(if cwd.Some? then Command.Pwd(cwd.value) else Command.Unknown([]))
  {
    assert Words(line)[1..] == [];
    assert "pwd" != "ls" && "pwd" != "cat" && "pwd" != "cd";
    assert Trim([]) == [];
  }
}
