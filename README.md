# A model of a minimal interactive shell's command dispatcher

The shell (`app/main.py`) reads a line, splits it on runs of whitespace with
Python's `str.split()`, and hands it to one of five built-in commands
(`exit`, `echo`, `type`, `pwd`, `cd`) or, when the first word names an
executable regular file in one of the PATH directories, starts that program
with the line's words as its argument vector. Anything else prints
`<line>: command not found`. The code has no quoting, no escaping and no
output redirection: the only tokenizer is `str.split()`, and the model
follows that.

The model treats the process environment as data (`SearchPath.Env`: the PATH
value, a filesystem mapping directory paths to their listings, and the home
directory) and is laid out by component:

- `words.dfy` (`Words`): `str.split()`, `" ".join`, `str.strip()` over
  Python's whitespace set, with a characterisation of `split()` (its words
  are the one list the text interleaves with whitespace gaps), the round
  trip `Split(Join(ws)) == ws`, the characterisation of joined text
  (`Normalized`) and the fact that splitting keeps every non-whitespace
  character in order.
- `separated.dfy` (`Separated`): `str.split(os.pathsep)` on the PATH value
  and its inverse `sep.join`, proved to be mutual inverses.
- `integers.dfy` (`IntText`): `int(text)` as `exit` uses it, with its
  inverse, the decimal rendering of an integer.
- `search_path.dfy` (`SearchPath`): `get_executables` as the imperative
  method `GetExecutables` (two nested loops that append), proved equal to
  the specification function `Executables`, and the properties of that
  function.
- `builtins.dfy` (`Builtins`): the built-in table and what `echo`, `type`,
  `cd` and `exit` decide.
- `dispatch.dfy` (`Dispatch`): one pass of the loop body as a function
  `Iterate` on the shell's observable state (working directory, printed
  lines, started children, whether the process goes on), and a whole
  session over a list of input lines.
- `shell.dfy` (`ShellLoop`): the class `Shell` whose handlers change the
  working directory and the output in place, each proved against the
  functions above, and which keeps the working directory a directory.

Two behaviours of the code are worth stating plainly. `exit` with no
argument or a non-numeric one neither exits with status 0 nor re-prompts:
`int()` raises a `ValueError` that nothing catches, so the shell ends with a
traceback (`Dispatch.Crashed`). The search path is split with
`str.split(os.pathsep)`, so an unset or empty PATH yields the single entry
`""`, which is not a directory, and nothing is found.

## Model

| member | source | states |
|---|---|---|
| `Words.Split` | app/main.py:93 | every element of `line.split()` is a non-empty run without whitespace, and there are no more words than characters |
| `Words.SplitEmptyIff` | app/main.py:93-94 | a line splits into no words exactly when it is empty or consists only of whitespace |
| `Words.SplitKeepsCharacters` | app/main.py:30 | the words of `split()` laid end to end are exactly the non-whitespace characters of the text, in their original order |
| `Words.SplitJoin` | app/main.py:30-32 | splitting words joined by single spaces gives the same words back |
| `Words.JoinNormalized` | app/main.py:32 | words joined with `" "` have no leading or trailing whitespace, no two adjacent spaces and no whitespace but single spaces |
| `Words.JoinSplitNormalized` | app/main.py:30-32 | text of that normalized form is rebuilt exactly by splitting and rejoining it |
| `Words.SplitInterleave` | app/main.py:30 | `split()` returns the words however wide and whatever kind the whitespace before, between and after them: words interleaved with all-whitespace gaps, the inner gaps non-empty, split back into exactly those words |
| `Words.SplitGaps` | app/main.py:30 | every text is its own `split()` words interleaved with its whitespace runs, the runs between words non-empty |
| `Words.SplitCharacterised` | app/main.py:30 | the words `split()` returns are exactly the one list of words that the text interleaves with whitespace gaps |
| `Words.Join` | app/main.py:32 | `" ".join`; what it produces is stated by `SplitJoin`, `JoinNormalized` and `JoinSplitNormalized` |
| `Words.Strip` | app/main.py:31 | `str.strip()`, the composition of `RStrip` and `LStrip`, whose contracts state it; `StripWord` states it is the identity on words |
| `Words.StripEach` | app/main.py:31 | the comprehension `[s.strip() for s in ...]`; `StripEachWords` states it is the identity on the words of `split()` |
| `Words.StripEachWords` | app/main.py:31 | `strip()` applied to each word that `split()` produced changes nothing |
| `Words.LStrip` | app/main.py:31 | the result is a suffix of the text, everything dropped is whitespace, and it does not start with whitespace |
| `Words.RStrip` | app/main.py:31 | the result is a prefix of the text, everything dropped is whitespace, and it does not end with whitespace |
| `Separated.SplitOn` | app/main.py:13 | `split(os.pathsep)` always yields at least one field and no field contains the separator |
| `Separated.JoinSplitOn` | app/main.py:13 | joining the PATH fields with the separator restores the PATH value exactly, empty fields included |
| `Separated.SplitOnJoin` | app/main.py:13 | separator-free fields joined with the separator split back into the same fields |
| `Separated.SplitOnCount` | app/main.py:13 | there is one field more than there are separators in the PATH value |
| `IntText.ParseInt` | app/main.py:25 | `int()` succeeds exactly when the text, stripped of surrounding whitespace, is a numeral with an optional sign; empty or all-whitespace text fails |
| `IntText.ParseSigned` | app/main.py:25 | `int()` of stripped text reads a value exactly when the text is a numeral with an optional sign; `ParseDigits`, `SignedPositive` and `SignedNegative` state which value |
| `IntText.SignedPositive` | app/main.py:25 | a plus sign before a numeral reads as the numeral's own value |
| `IntText.SignedNegative` | app/main.py:25 | a minus sign before a numeral reads as the negated value |
| `IntText.ParseShowInt` | app/main.py:25 | `int()` reads the decimal rendering of every integer, negative ones included, back as that integer |
| `SearchPath.GetExecutables` | app/main.py:9-21 | the nested loops over PATH directories and their regular files return exactly the specification `Executables` |
| `SearchPath.PathDirs` | app/main.py:12-13 | the PATH value split at `:`; `EmptyPathFindsNothing` states what an unset or empty PATH gives |
| `SearchPath.RegularFiles` | app/main.py:17 | the `is_file()` filter of a directory listing; `RegularFilesMember` states what it keeps |
| `SearchPath.InDir` | app/main.py:16-20 | what one PATH entry contributes; `InDirMember` states it is exactly the executable regular files of that name when the entry is a directory, and nothing otherwise |
| `SearchPath.InDirMember` | app/main.py:16-20 | a PATH entry contributes an executable exactly when it is a directory that lists an executable regular file of the searched name |
| `SearchPath.Lookup` | app/main.py:15-20 | the outer loop over the PATH entries, their matches in PATH order; `LookupMember`, `LookupAppend` and `LookupFirst` state it |
| `SearchPath.MatchesIn` | app/main.py:18-20 | the inner loop over a directory's regular files; `MatchesInMember` states it keeps exactly the executable files of the searched name |
| `SearchPath.MatchesInMember` | app/main.py:18-20 | a match is returned exactly when the directory's file list holds an executable file of the searched name |
| `SearchPath.Executables` | app/main.py:9-21 | `get_executables` as a value; `GetExecutables`, `LookupMember`, `LookupFirst` and `LookupAppend` state what it returns |
| `SearchPath.LookupMember` | app/main.py:15-20 | an executable is returned exactly when its name is the searched name, its directory is a PATH entry that is a directory, and that directory lists a regular, executable file of that name |
| `SearchPath.LookupAppend` | app/main.py:15-20 | results follow PATH order: searching two directory lists in sequence gives the first list's results, then the second's |
| `SearchPath.LookupFirst` | app/main.py:15-21 | the first result comes from the first PATH entry that has any match |
| `SearchPath.NonDirectorySkipped` | app/main.py:16 | a PATH entry that is not a directory contributes nothing, wherever it stands |
| `SearchPath.EmptyPathFindsNothing` | app/main.py:12-16 | with PATH unset or empty no executable is ever found |
| `SearchPath.RegularFilesMember` | app/main.py:17 | the listing filter keeps exactly the regular files of the directory |
| `SearchPath.PathText` | app/main.py:44 | the printed path of a found executable contains a path separator |
| `Builtins.EchoLine` | app/main.py:29-34 | `echo` prints normalized text (single spaces, no outer whitespace) whose words are the argument's words |
| `Builtins.EchoFixpoint` | app/main.py:30-32 | `echo` prints its argument unchanged exactly when the argument is already normalized |
| `Builtins.EchoIdempotent` | app/main.py:30-32 | applying `echo`'s split-and-join to its own output gives the same line |
| `Builtins.EchoKeepsCharacters` | app/main.py:29-34 | the words of `echo`'s output are the non-whitespace characters of its argument in their original order |
| `Builtins.IsBuiltin` | app/main.py:67-71 | membership in `builtin_commands_dict` (`BuiltinTable`: `exit`, `echo`, `type`, `pwd`, `cd`, each mapped to its handler); `TypeLineCases` and `Dispatch.BuiltinTakesPriority` state how it decides `type` and the dispatch |
| `Builtins.TypeLine` | app/main.py:37-48 | the line `type` prints; `TypeLineCases` and `TypeReportsFirstMatch` state it |
| `Builtins.CdTarget` | app/main.py:57-59 | exactly the argument `~` stands for the home directory; `Cd` and `Dispatch.CdCommand` state how it is used |
| `Builtins.TypeLineCases` | app/main.py:37-48 | `type x` prints `x is a shell builtin` exactly when x is built in, `x: not found` exactly when x is neither built in nor found, and otherwise `x is ` followed by the first result's path |
| `Builtins.TypeReportsFirstMatch` | app/main.py:42-45 | the path `type` prints lies in a PATH directory that holds an executable regular file of that name, and no earlier PATH entry holds one |
| `Builtins.Cd` | app/main.py:56-64 | `cd` changes directory exactly when the target, with `~` alone expanded to the home directory, is a directory, and then into that target; otherwise it reports `cd: <target>: No such file or directory` with the expanded target |
| `Builtins.ExitStatus` | app/main.py:26 | the status `sys.exit(code)` leaves is below 256, equals the code for codes 0 to 255, and agrees with the code modulo 256 |
| `Dispatch.Choose` | app/main.py:93-101 | a line is ignored exactly when it is empty or all whitespace |
| `Dispatch.Execute` | app/main.py:74-82 | `execute` on a line with words: spawn or the not-found message; `ExecuteSpawnsWords` states the spawned argument vector |
| `Dispatch.ExitWith` | app/main.py:24-26 | `sys.exit(int(arg))`: the status `ExitStatus` gives, or a crash when `int()` fails; `ExitWithCode` and `ExitWithoutArgument` state both |
| `Dispatch.ApplyBuiltin` | app/main.py:95-96 | the handler the built-in table names, run on the state; `EchoCommand`, `CdCommand`, `ExitWithCode` and `ExitWithoutArgument` state what the handlers do |
| `Dispatch.ApplyExecute` | app/main.py:98 | running `execute(user_input)` on the state: a child recorded or the not-found line appended; `ExternalCommandArgv` states it for a found command |
| `Dispatch.Iterate` | app/main.py:93-101 | one pass of the loop body; `BlankLineIgnored`, `BuiltinTakesPriority`, `UnknownCommand`, `ExternalCommandArgv`, `IterateAppends`, `IterateOwners` and `CwdStaysDirectory` state it |
| `Dispatch.Session` | app/main.py:87-101 | the loop over the lines read until `exit`; `SessionInvariant` and `StoppedSessionIsInert` state it |
| `Dispatch.BlankLineIgnored` | app/main.py:93-94 | an empty or all-whitespace line changes nothing and prints nothing |
| `Dispatch.BuiltinTakesPriority` | app/main.py:95-97 | a built-in first word is dispatched to its handler with the remaining words joined by single spaces, whatever the search path holds |
| `Dispatch.UnknownCommand` | app/main.py:97-101 | a first word neither built in nor found prints exactly the original unsplit line followed by `: command not found`, and nothing else changes |
| `Dispatch.ExecuteSpawnsWords` | app/main.py:74-79 | when the command is found, `execute` starts a child with the line's words as its argument vector |
| `Dispatch.ExternalCommandArgv` | app/main.py:74-79 | a found external command starts exactly one child, whose argument vector is the line's words and whose first element is the command name as typed, not the resolved path |
| `Dispatch.EchoCommand` | app/main.py:29-34 | an `echo` line prints its remaining words joined by single spaces |
| `Dispatch.CdCommand` | app/main.py:56-64 | a `cd` line moves to the expanded target when it is a directory, and otherwise leaves the directory unchanged and prints `cd: <target>: No such file or directory` with the expanded target |
| `Dispatch.ExitCrashesIff` | app/main.py:24-26 | `sys.exit(int(arg))` crashes exactly when `arg`, stripped, is not a numeral with an optional sign |
| `Dispatch.ExitLineCrashes` | app/main.py:24-26 | an `exit` line crashes exactly when the words after `exit`, joined by single spaces, are not a numeral with an optional sign (so `exit abc` and `exit 1 2` crash) |
| `Dispatch.ExitWithoutArgument` | app/main.py:24-26 | `exit` with no argument does not exit cleanly: `int("")` fails and the shell crashes |
| `Dispatch.ExitWithCode` | app/main.py:24-26 | `exit n` with n in decimal ends the shell with status n modulo 256 |
| `Dispatch.CwdStaysDirectory` | app/main.py:60-61 | if the working directory is a directory before a line, it is one after |
| `Dispatch.IterateAppends` | app/main.py:93-101 | one line prints at most one line and never changes earlier output or earlier children |
| `Dispatch.IterateOwners` | app/main.py:95-96 | only a `cd` line can change the working directory and only an `exit` line can stop the shell |
| `Dispatch.SessionInvariant` | app/main.py:87-101 | over any sequence of lines the working directory stays a directory and the output only grows |
| `Dispatch.StoppedSessionIsInert` | app/main.py:26 | once the shell has exited, no further line has any effect |
| `ShellLoop.Shell.constructor` | app/main.py:85-87 | a fresh shell starts running, in a directory, with nothing printed and no children |
| `ShellLoop.Shell.Exit` | app/main.py:24-26 | `command_exit` sets the status `int()` and `sys.exit` give |
| `ShellLoop.Shell.Echo` | app/main.py:29-34 | `command_echo` appends the `echo` line and changes nothing else |
| `ShellLoop.Shell.Type` | app/main.py:37-48 | `command_type` appends the `type` line, looking the name up with `GetExecutables` |
| `ShellLoop.Shell.Pwd` | app/main.py:51-53 | `command_pwd` appends the working directory and ignores its argument |
| `ShellLoop.Shell.Cd` | app/main.py:56-64 | `command_cd` changes the working directory or appends the error line, and keeps the working directory a directory |
| `ShellLoop.Shell.Execute` | app/main.py:74-82 | `execute` records the child's argument vector when the command is found, and prints the not-found line otherwise |
| `ShellLoop.Shell.RunCommand` | app/main.py:95-96 | calling the handler `builtin_commands_dict` names changes the shell as that built-in does and keeps the working directory a directory |
| `ShellLoop.Shell.Step` | app/main.py:93-101 | one pass of the loop body changes the shell as `Iterate` says and keeps the working directory a directory |
| `ShellLoop.Shell.Run` | app/main.py:87-101 | the loop over the input lines changes the shell as `Session` says, stopping at `exit` |

## Left out

- Reading input, the `$ ` prompt and printing: printed lines are the `output` sequence; the lines read are the parameter of `Shell.Run`. When the input runs out, Python's `input()` raises `EOFError`; the model simply stops.
- `subprocess.run`: the model records the argument vector of each child; the child's own output, its exit status and a failure to start it are not modelled.
- The operating system queries (`os.getenv`, `Path.iterdir`, `Path.is_file`, `os.access`, `os.path.isdir`, `os.getcwd`, `os.chdir`) are replaced by the abstract `Env`: a directory's listing, whether an entry is a regular file and whether it is executable are given data. An unreadable directory, which makes `iterdir` raise, is not modelled.
- The order of entries within one directory is whatever the given listing says; no order is claimed for it.
- Path canonicalisation is not modelled: `IsDir` looks up the path text as given (relative paths are not resolved against the working directory; `..` and symbolic links are not followed), and after `cd` the working directory is the target text itself rather than the canonical path `os.getcwd()` would return.
- `os.path.expanduser("~")` is the given `home` value; its fallback to the password database and its stripping of a trailing slash are not modelled.
- The filesystem is any map from directory paths to listings: a listing may hold an entry named `""`, a name containing `/`, or the same name twice, which no real directory does. So `type` with no argument prints ` is <dir>/` when a PATH directory lists an executable entry named `""`, where the real shell always prints `: not found`.
- Builtins.Cd: only the `os.path.isdir` test is modelled; `os.chdir` failing on a directory that exists but cannot be entered (no search permission, which raises `PermissionError` that nothing catches and ends the shell with a traceback) is not modelled, so `Cd`, `Dispatch.CdCommand`, `Dispatch.CwdStaysDirectory` and `Shell.Cd` move into every directory the test accepts.
- SearchPath.PathText: joins directory and name with one `/`; `pathlib`'s normalisation of the directory text (a trailing or doubled slash, a `.` directory) is not modelled.
- IntText.ParseInt: accepts ASCII decimal digits only; Python's `int()` also accepts other Unicode decimal digits and, in recent versions, refuses strings of more than 4300 digits. It also strips with the whitespace set of `str.strip()`, which includes U+001C to U+001F, where `int()` raises `ValueError`; `exit` never passes these characters, since its argument is rejoined from the words of `split()`.
- Builtins.ExitStatus: codes outside the range of a C `long` are not handled as CPython does.
- The traceback printed when `int()` raises is not modelled: `Crashed` only records that the shell ended.
- `execute` repeats the PATH lookup; the model reads the same environment both times, so a filesystem change between the two lookups is not modelled.
