# A verified model of the string rules of a small Rust shell

The shell (`src/main.rs`) reads one line at a time and acts on it. This
project models the deterministic string handling that sits between the read
and the action:

- **Line splitting.**
  - `handle_redirect` cuts a line at the first `1>` or, if there is none, at
    the first `>`.
  - `handle_input` takes the command word from before the first space. It
    passes the rest through the quote normaliser `handle_single_quote`.
- **Classification.** `input_parse` is an ordered chain of tests that turns
  the line into one `Command` variant.
- **The `cat` splitter.** A second quote-aware splitter in `handle_cat`
  turns its argument text into file names.
- **Path search.** `find_exec_function` searches the `PATH` directories for
  an executable.
- **Builtin rules.** The small rewrites inside the builtins:
  - the flag handling of `ls` and `echo`;
  - the `~` expansion of `cd`;
  - the replies of `type`.

The environment enters as parameters:

- the current directory;
- the value of `PATH` and of `HOME`;
- the file system, as a map from path to permission bits;
- the set of directories a `cd` can change to;
- whether a file write succeeds.

The Dafny modules follow the source:

| module | file | models |
|---|---|---|
| `Wrappers` | wrappers.dfy | `Option` |
| `Strings` | strings.dfy | `str::trim`, `split_whitespace`, `find`, `split`, `starts_with`/`ends_with` |
| `Quoting` | quoting.dfy | `handle_single_quote` |
| `Redirect` | redirect.dfy | `handle_redirect` and `handle_input`, plus the trailing-`2` rule shared by `echo` and `cat` |
| `Commands` | commands.dfy | `Command`, `TypeCommand` and `input_parse` |
| `CatNames` | cat.dfy | the argument handling of `handle_cat` |
| `PathSearch` | path.dfy | `find_exec_function` |
| `Builtins` | builtins.dfy | the argument rules of `handle_ls`, `handle_echo` and `handle_cd`, and the `type` replies of `main` |

How the code's forms carry over:

- **Loops become methods.**
  - The loops of the source become methods with loops: `HandleSingleQuote`,
    `SplitCatNames` and `FindExec`.
  - So does the in-place argument rewriting of `handle_ls`, `handle_echo`
    and `handle_cd`: `LsArgs`, `HandleEcho` and `HandleCd`.
  - `HandleSingleQuote`, `SplitCatNames`, `FindExec` and `LsArgs` are each
    proved equal to a function: `Normalise`, `SplitNames`, `Resolve` and
    `LsRequestOf`. The properties are proved about those functions.
  - `HandleEcho` and `HandleCd` state their results in closed form in their
    own `ensures`.
- **Panics become `None`.** The two places where `input_parse` panics give
  `None`.
  - At `src/main.rs:60`, a line that starts with a quote but has only one
    word.
  - At `src/main.rs:67`, a line whose command is `cat` but that does not
    itself start with `cat`.
- **Whitespace.** `IsSpace` is the ASCII part of Rust's `char::is_whitespace`:
  space, tab, line feed, carriage return, vertical tab and form feed.

Where the shell's written description and its code differ, the model follows
the code:

- **Backslash inside double quotes.**
  - The code drops the backslash before *any* character inside double
    quotes, not only before `"` and `\`.
  - A lone backslash at the end is dropped inside double quotes but kept
    outside quotes.
- **The normaliser's output.**
  - It returns one string, not a list of tokens.
  - Only a space that follows an output space is dropped. Tabs are kept.
- **`echo` with a target.**
  - It writes the trimmed text with no newline.
  - When the text ended in `2`, the text is printed on the terminal.
  - Otherwise nothing is printed when the write succeeds, and `echo: F: No
    such file or directory` when it fails.
- **`cd` failure.** The message goes to standard output and shows the path
  after `~` expansion.

## Model

| member | source | states |
|---|---|---|
| Strings.Trim | src/main.rs:31-46 | `trim`: the result has no whitespace at either end. It is empty exactly when the text is all whitespace. An already trimmed text is unchanged. No character is introduced. |
| Strings.TrimSlice | src/main.rs:31-46 | `trim` gives the slice of the text between an all-whitespace prefix and an all-whitespace suffix. |
| Strings.Words | src/main.rs:50 | `split_whitespace`: every word is non-empty and holds no whitespace. There are no words exactly when the line is all whitespace. |
| Strings.WordsUnwords | src/main.rs:50 | Splitting words joined by single spaces gives back the same words. |
| Strings.Find | src/main.rs:321-325 | `find`: the result is the first position where the pattern occurs. `None` means it occurs nowhere. |
| Strings.Split | src/main.rs:177-178 | `split(':')`: there is at least one piece, no piece holds the separator, and joining the pieces gives the text back. |
| Strings.SplitJoin | src/main.rs:178 | Splitting pieces joined by the separator gives back the pieces. |
| Strings.SplitAppend | src/main.rs:178 | Splitting `A:B` gives the pieces of `A` followed by the pieces of `B`. |
| Quoting.HandleSingleQuote | src/main.rs:267-316 | The loop computes the state-machine function `Normalise`. Its result is a subsequence of the input, so never longer. |
| Quoting.NormaliseSubsequence | src/main.rs:273-313 | Each step consumes at least one character and emits at most one, so the output is a subsequence of the input and no longer. |
| Quoting.PlainCollapses | src/main.rs:296-300 | Text with no quote or backslash comes out with every space that follows a space removed. |
| Quoting.CollapseNoDoubleSpace | src/main.rs:296-300 | Such output never holds two spaces in a row. |
| Quoting.CollapseKeepsNonSpaces | src/main.rs:296-313 | Such output keeps every non-space character, in order. |
| Quoting.PlainTrailingBackslash | src/main.rs:302-311 | Outside quotes, a backslash at the very end is kept. |
| Quoting.SingleQuotedBody | src/main.rs:293-295 | Inside single quotes every character, backslash included, is copied. |
| Quoting.SingleQuoted | src/main.rs:290-295 | A segment `'t'` with no `'` in `t` contributes exactly `t`. |
| Quoting.UnterminatedSingleQuote | src/main.rs:290-295 | An unclosed `'` copies the rest of the line literally. |
| Quoting.DoubleQuotedBody | src/main.rs:277-289 | Inside double quotes, a backslash followed by any character emits that character. Every other character except `"` is copied. |
| Quoting.DoubleQuoted | src/main.rs:274-289 | A segment `"e"` contributes the text `e` encodes, without the quotes. |
| Quoting.DoubleQuotedTrailingBackslash | src/main.rs:278-285 | Inside double quotes, a backslash at the very end is dropped. |
| Quoting.UnterminatedDoubleQuote | src/main.rs:274-289 | An unclosed `"` does not stop the pass: the rest of the line is decoded as a double-quoted body. |
| Quoting.EscapeEachDqEncodes | src/main.rs:278-284 | Any text, with every character escaped, is encoded correctly inside double quotes. |
| Quoting.LiteralDqEncodes | src/main.rs:285-288 | Text with no `"` or `\` is copied literally inside double quotes. |
| Quoting.UnquotedEscapes | src/main.rs:302-309 | Outside quotes, every escaped character is emitted, escaped spaces included. |
| Quoting.UnquotedEscapeRoundTrip | src/main.rs:302-309 | Normalising a text with every character backslash-escaped gives the text back. |
| Quoting.UnquotedTrailingBackslash | src/main.rs:302-311 | After escapes, a final lone backslash is kept outside quotes. |
| Quoting.NoDoubleQuoteEmitted | src/main.rs:274-276 | With no `'` or `\` in the input, a `"` is never emitted. It only toggles the double-quote flag. |
| Quoting.NoSingleQuoteEmitted | src/main.rs:290-292 | With no `"` or `\` in the input, a `'` is never emitted. It only toggles the single-quote flag. |
| Quoting.AdjacentSingleQuotes | src/main.rs:290-295 | `'it''s'` becomes `its`. |
| Quoting.EscapedDoubleQuote | src/main.rs:277-285 | `"a\"b"` becomes `a"b`. |
| Quoting.EscapedSpace | src/main.rs:302-309 | `a\ b` becomes `a b`. |
| Redirect.RedirectAtOneGt | src/main.rs:321-324 | When `1>` occurs, the line is cut at its first occurrence, even past an earlier `>`. Both sides are trimmed and the operator is dropped. |
| Redirect.RedirectAtGt | src/main.rs:325-328 | Without `1>`, the line is cut at the first `>`, trimmed on both sides. |
| Redirect.GtCut | src/main.rs:325-328 | `C > F`, with no other `>` and `C` not ending in `1`, is cut at that `>`: command part `C` and target `F`, both trimmed. |
| Redirect.CutAtOnlyGt | src/main.rs:318-328 | A line whose only `>` is not preceded by `1` is cut there, both sides trimmed. |
| Redirect.HandleRedirect | src/main.rs:318-332 | Without any `>`, the result is the trimmed line and an empty target. |
| Redirect.HandleInput | src/main.rs:29-47 | The target is the one the redirect split found, and the command word holds no space. |
| Redirect.HandleInputRest | src/main.rs:29-47 | For a line without `>` of the form `WORD ARGS`, after any whitespace: the command is `WORD`, and the argument is `ARGS` trimmed, passed through the quote normaliser and trimmed again. The target is empty. |
| Redirect.HandleInputOfPart | src/main.rs:29-47 | Whatever the redirect split leaves as the command part: if it is a word, a space and text `U` (trimmed), then the command is the word and the argument is `U` trimmed, normalised and trimmed again. The target is the one the split found. |
| Redirect.HandleInputTo | src/main.rs:29-47 | `WORD ARGS > FILE`, whose one `>` is not preceded by `1`: the command is `WORD`, the argument is read as without a redirect, and the target is `FILE` trimmed. |
| Redirect.CommandWord | src/main.rs:29-33 | A line that starts, after whitespace, with a word (no whitespace, no `>`) followed by a space or its end has that word as its command. A final `1` in the word makes no difference. |
| Redirect.StripStderrMark | src/main.rs:208-211 | The error flag is set exactly when the text ends in `2`. Without the flag the text is unchanged, and it never grows. |
| Redirect.StderrRedirect | src/main.rs:208-211 | `C 2>F` has target `F`, and the command part `C 2` loses its trailing `2`, which sets the error flag. |
| Commands.TypeOf | src/main.rs:83-94 | The five builtin names map to their `TypeCommand`. Any other name gives `External` of that name. |
| Commands.TypeOfBuiltinName | src/main.rs:86-92 | Every builtin is found again from its own name. |
| Commands.InputParse | src/main.rs:49-106 | A blank line gives `Unknown("")`. `None` (a panic) is given exactly for a one-word line that starts with a quote and for an indented `cat`. A line starting with a quote with two or more words gives `ExecCat` of the last word. `Exit` comes only from command `exit` with the single argument `0`. |
| Commands.TwoWordLine | src/main.rs:50-59 | For `WORD ARG` with surrounding whitespace, and any whitespace run starting with a space between the two, the words are those two and the command is `WORD`. |
| Commands.ParseExit | src/main.rs:81-82 | `exit 0` gives `Exit`, with any whitespace around and between the words. |
| Commands.ParseCd | src/main.rs:68-70 | `cd X` with one argument gives `Cd(X)`, with any whitespace around and between the words. |
| Commands.ParseType | src/main.rs:83-94 | `type N` gives `Type(TypeOf(N))`, never `External` for a builtin name. |
| Commands.ParseEcho | src/main.rs:76-80 | `echo ARGS` without `>` gives `Echo` of the normalised argument text, with no target. |
| Commands.ParseLs | src/main.rs:61-64 | `ls ARGS` without `>` gives `Ls` of the normalised argument text, with no target. |
| Commands.ParseArgsTo | src/main.rs:61-80 | `echo ARGS > FILE` and `ls ARGS > FILE` (one `>`, not after `1`) give `Echo` or `Ls` of the same normalised argument text as without a redirect, with `FILE` trimmed as the target. |
| Commands.ParseExternal | src/main.rs:98-102 | A command word that is no builtin, `ls` or `cat` gives `External` of that word and the whitespace-separated words after it, taken from the raw line. |
| Commands.ParseCat | src/main.rs:65-67 | A line starting with the word `cat` gives `Cat` of the raw text after those three letters. |
| Commands.OneWordLine | src/main.rs:29-47 | A line holding one plain word, with whitespace around it, has that word as its only word and as its command, with empty argument text and no target. |
| Commands.ParsePwd | src/main.rs:71-75 | `pwd` alone gives `Pwd` of the current directory, or `Unknown("")` when it cannot be read. |
| Commands.ParseIndentedCat | src/main.rs:65-67 | `cat` after leading whitespace panics. |
| CatNames.SplitCatNames | src/main.rs:353-387 | The loop computes `SplitNames`, and no name it produces is empty. |
| CatNames.ScanNonEmpty | src/main.rs:373-387 | The splitter never produces an empty name, whatever the quoting. |
| CatNames.ScanOrdinary | src/main.rs:378-380 | Unquoted ordinary characters are added to the current name. |
| CatNames.ScanInQuotes | src/main.rs:361-367 | Inside quotes, every character except the closing quote is kept, spaces and the other quote kind included. |
| CatNames.QuotedSegment | src/main.rs:361-371 | `'t'` or `"t"` contributes exactly `t`. |
| CatNames.SpaceEndsName | src/main.rs:373-377 | An unquoted space ends the current name. |
| CatNames.SpacesSkipped | src/main.rs:373-377 | Further spaces produce no empty names. |
| CatNames.SplitUnwords | src/main.rs:353-387 | Plain names joined by single spaces split back into exactly those names. |
| CatNames.PrepareCat | src/main.rs:334-352 | An empty argument gives the missing-operand case. Otherwise: the error flag is set by any `2>`; the target is the redirect target; the names are split from the command part after the trailing `2` is removed. |
| CatNames.CatStderr | src/main.rs:339-352 | `cat A 2>F` reads just `A`. |
| PathSearch.ResolveFirst | src/main.rs:176-200 | The result is `dir/name` for the first directory, in order, where that path exists with some execute bit set. It is empty exactly when there is no such directory. |
| PathSearch.SearchDirs | src/main.rs:177-178 | The directories are the pieces of `PATH` (empty when unset): at least one, none holding `:`, and joined by `:` they give `PATH` back. |
| PathSearch.FindExec | src/main.rs:176-200 | The loop with its early return computes `Resolve` over the pieces of `PATH`. |
| PathSearch.ResolveAppend | src/main.rs:180-196 | Later directories matter only when the earlier ones give nothing. |
| PathSearch.EarlierEntryWins | src/main.rs:177-196 | With `PATH=P1:P2`, a match under `P1` shadows one under `P2`. |
| PathSearch.UnsetPath | src/main.rs:177-181 | With `PATH` unset, only `/name` is tried. |
| Builtins.TrimStartMatches | src/main.rs:112 | The result is a suffix of the text that does not start with the pattern. |
| Builtins.TrimStartMatchesRemovesCopies | src/main.rs:112 | What is removed is a number of copies of the pattern. |
| Builtins.TrimStartMatchesCopies | src/main.rs:112 | Copies of the pattern in front of a text not starting with it are exactly what is removed. |
| Builtins.LsArgs | src/main.rs:109-123 | The rewriting of `from` computes `LsRequestOf`. The directory is never empty, and no argument means `.`. |
| Builtins.LsOnePerLine | src/main.rs:111-114 | `-1 DIR` lists `DIR`, one name per line. |
| Builtins.LsOnlyFlags | src/main.rs:111-123 | `-1` repeated, with nothing else, lists `.`. |
| Builtins.LsStderr | src/main.rs:116-125 | `DIR 2` lists `DIR`, read trimmed, and sets the error flag. |
| Builtins.HandleEcho | src/main.rs:202-241 | Without a target, the text is printed. With a target, the text is written there, or the file is written empty when the text ended in `2`. Then the text is printed (`2`), nothing is printed (write succeeded), or the `No such file or directory` message is printed. |
| Builtins.TrailingTwoDropped | src/main.rs:208-211 | Any text followed by `2` becomes that text trimmed, with the flag set. So a `2` ending the last word is dropped too: `abc2` becomes `abc`. |
| Builtins.ExpandTilde | src/main.rs:255-257 | A leading `~` is replaced by the home directory. Nothing else changes. |
| Builtins.ExpandTildeIdempotent | src/main.rs:255-257 | Expanding twice is expanding once, when the home directory does not start with `~`. |
| Builtins.HandleCd | src/main.rs:251-264 | The directory tried is the expanded path. On failure the message names it and the directory does not change. |
| Builtins.CdHome | src/main.rs:255-257 | `~` is the home directory, and `~/X` is `X` under it. |
| Builtins.TypeMessage | src/main.rs:474-485 | A builtin is reported as a shell builtin. Any other name gets the not-found reply exactly when no `PATH` directory holds an executable of that name. |
| Builtins.TypeReply | src/main.rs:474-485 | For `type N`: a builtin name is reported as a shell builtin. Any other name is reported with the path the search finds, or as not found. |

## Left out

- The read-eval loop, the prompt and reading standard input
  (`src/main.rs:453-465`) are I/O.
- Dispatch in `main`:
  - The loop's dispatch of each command to its handler is left out.
  - So are the `command not found` replies of `handle_unknown` and of the
    external-command branch.
- Spawning and waiting on child processes (`src/main.rs:492-499`) is process
  management.
- The file system:
  - Listing directories in `handle_ls` (`src/main.rs:125-173`) is not
    modelled.
  - Reading and writing files in `handle_cat` (`src/main.rs:389-432`) and
    `handle_exec_cat` (`src/main.rs:438-451`) is not modelled.
  - For `echo`, the model states only what would be written and printed,
    given whether the write succeeds.
- Process-wide state:
  - `std::process::exit` (`src/main.rs:244-246`) is left out.
  - `set_current_dir` becomes a set of reachable directories.
  - Reads of `PATH`, `HOME` and the current directory become parameters.
- The blank line printed for a blank input (`src/main.rs:53`) is output only.
- Unicode whitespace beyond ASCII is not modelled. Characters stand in for
  bytes in the slices, which agrees with the code for the ASCII operators
  it cuts at.
- `Path::display` is taken to print the candidate path unchanged.
- Redirect.HandleRedirect: its own contract covers only lines without `>`.
  Lines with `1>` or `>` are stated by `RedirectAtOneGt` and `RedirectAtGt`.
- Commands.ParseEcho and Commands.ParseLs: stated for lines without `>`.
  `ParseArgsTo` covers one `>` not preceded by `1`. Lines with `1>`, or
  with several `>`, are stated only up to the split, by `RedirectAtOneGt`,
  `RedirectAtGt` and `HandleInputOfPart`.
