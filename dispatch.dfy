/** One pass of the read-evaluate loop as a transition on the shell's
    observable state: which handler a line goes to, and what it changes. */
module Dispatch {
  import opened Wrappers
  import opened Words
  import opened IntText
  import opened SearchPath
  import opened Builtins

  /** Where a line goes. */
  datatype Action =
    | Ignore                                    // no words at all
    | RunBuiltin(command: Command, arg: string) // handler and its argument string
    | RunExternal                               // handed to `execute`
    | Unknown                                   // "command not found"

  /** What `execute` does with a line. */
  datatype ExecOutcome = Spawned(argv: seq<string>) | NotFound(message: string)

  /** Whether the process is still reading lines. `Exited` carries the exit
      status `sys.exit` gives; `Crashed` is the ValueError `int()` raises for
      a bad `exit` argument, which nothing catches. */
  datatype Status = Running | Exited(status: nat) | Crashed

  /** What one line can change: the working directory, the lines printed so
      far, the argument vectors of the child processes started so far, and
      whether the process goes on. */
  datatype State = State(cwd: string, output: seq<string>, children: seq<seq<string>>, status: Status)

  /** The loop body's choice for `line`. */
  function Choose(line: string, env: Env): (a: Action)
    ensures a == Ignore <==> AllSpace(line)
  {
    var words := Split(line);
    SplitEmptyIff(line);
    if words == [] then Ignore
    else if words[0] in BuiltinTable then RunBuiltin(BuiltinTable[words[0]], Join(words[1..]))
    else if |Executables(env, words[0])| > 0 then RunExternal
    else Unknown
  }

  /** `execute(line)`: the child's argument vector is the line's words. */
  function Execute(line: string, env: Env): ExecOutcome
    requires Split(line) != []
  {
    var argv := StripEach(Split(line));
    if |Executables(env, argv[0])| > 0 then Spawned(argv)
    else NotFound(line + ": command not found")
  }

  /** `sys.exit(int(arg))`. */
  function ExitWith(arg: string): Status {
    match ParseInt(arg)
    case Some(code) => Exited(ExitStatus(code))
    case None => Crashed
  }

  /** Running built-in `command` with argument string `arg`. */
  function ApplyBuiltin(env: Env, st: State, command: Command, arg: string): State {
    match command
    case CommandExit => st.(status := ExitWith(arg))
    case CommandEcho => st.(output := st.output + [EchoLine(arg)])
    case CommandType => st.(output := st.output + [TypeLine(arg, env)])
    case CommandPwd => st.(output := st.output + [st.cwd])
    case CommandCd =>
      match Cd(arg, env)
      case Changed(dir) => st.(cwd := dir)
      case NoSuchDirectory(message) => st.(output := st.output + [message])
  }

  /** Running `execute(line)`. */
  function ApplyExecute(env: Env, st: State, line: string): State
    requires Split(line) != []
  {
    match Execute(line, env)
    case Spawned(argv) => st.(children := st.children + [argv])
    case NotFound(message) => st.(output := st.output + [message])
  }

  /** One iteration of the loop on the line read. */
  function Iterate(env: Env, st: State, line: string): State {
    match Choose(line, env)
    case Ignore => st
    case RunBuiltin(command, arg) => ApplyBuiltin(env, st, command, arg)
    case RunExternal => ApplyExecute(env, st, line)
    case Unknown => st.(output := st.output + [line + ": command not found"])
  }

  /** The loop over a sequence of input lines, until `exit` ends it. */
  function Session(env: Env, st: State, lines: seq<string>): State
    decreases |lines|
  {
    if lines == [] || st.status != Running then st
    else Session(env, Iterate(env, st, lines[0]), lines[1..])
  }

  // ---------------------------------------------------------------------
  // Lemmas

  /** When the command is found, `execute` runs it with the line's words. */
  lemma ExecuteSpawnsWords(env: Env, line: string)
    requires Split(line) != [] && Executables(env, Split(line)[0]) != []
    ensures Execute(line, env) == Spawned(Split(line))
  {
    StripEachWords(Split(line));
  }

  /** A line handed to `execute` changes the state as `execute` does. */
  lemma IterateExternal(env: Env, st: State, line: string)
    requires Choose(line, env) == RunExternal
    ensures Iterate(env, st, line) == ApplyExecute(env, st, line)
  {
  }

  /** An empty or all-whitespace line changes nothing and prints nothing. */
  lemma BlankLineIgnored(env: Env, st: State, line: string)
    requires AllSpace(line)
    ensures Iterate(env, st, line) == st
  {
  }

  /** A built-in name wins over any executable of the same name: whatever the
      search path holds, the handler gets the remaining words joined by
      single spaces. */
  lemma BuiltinTakesPriority(line: string, env1: Env, env2: Env)
    requires Split(line) != [] && IsBuiltin(Split(line)[0])
    ensures Choose(line, env1) == Choose(line, env2)
      == RunBuiltin(BuiltinTable[Split(line)[0]], Join(Split(line)[1..]))
  {
  }

  /** A first word that is neither built in nor found prints the original,
      unsplit line followed by ": command not found", and nothing else changes. */
  lemma UnknownCommand(env: Env, st: State, line: string)
    requires Split(line) != []
    requires !IsBuiltin(Split(line)[0]) && Executables(env, Split(line)[0]) == []
    ensures Iterate(env, st, line) == st.(output := st.output + [line + ": command not found"])
  {
  }

  /** A found external command starts one child whose argument vector is the
      line's words: its first element is the command name as typed, not the
      path it was found at. */
  lemma ExternalCommandArgv(env: Env, st: State, line: string)
    requires Split(line) != []
    requires !IsBuiltin(Split(line)[0]) && Executables(env, Split(line)[0]) != []
    ensures Iterate(env, st, line) == st.(children := st.children + [Split(line)])
    ensures Iterate(env, st, line).children[|st.children|][0] == Split(line)[0]
  {
    var words := Split(line);
    assert Choose(line, env) == RunExternal;
    ExecuteSpawnsWords(env, line);
    IterateExternal(env, st, line);
  }

  /** `echo` prints its words joined by single spaces. */
  lemma EchoCommand(env: Env, st: State, line: string)
    requires Split(line) != [] && Split(line)[0] == "echo"
    ensures Iterate(env, st, line) == st.(output := st.output + [Join(Split(line)[1..])])
  {
    var words := Split(line)[1..];
    JoinNormalized(words);
    EchoFixpoint(Join(words));
  }

  /** `cd` moves only into a directory; otherwise it leaves the working
      directory alone and names the expanded target. */
  lemma CdCommand(env: Env, st: State, line: string)
    requires Split(line) != [] && Split(line)[0] == "cd"
    ensures var target := CdTarget(Join(Split(line)[1..]), env);
      Iterate(env, st, line) ==
        if IsDir(env.fs, target) then st.(cwd := target)
        else st.(output := st.output + ["cd: " + target + ": No such file or directory"])
  {
  }

  /** `exit` with no argument crashes: `int("")` is a ValueError. */
  lemma ExitWithoutArgument(env: Env, st: State, line: string)
    requires Split(line) == ["exit"]
    ensures Iterate(env, st, line).status == Crashed
  {
    assert Split(line)[1..] == [];
  }

  /** `sys.exit(int(arg))` crashes exactly when `arg`, stripped, is not a
      numeral with an optional sign. */
  lemma ExitCrashesIff(arg: string)
    ensures ExitWith(arg) == Crashed <==> !SignedNumeral(Strip(arg))
  {
  }

  /** An `exit` line crashes exactly when the words after `exit`, joined by
      single spaces, are not a numeral with an optional sign: `exit abc`
      and `exit 1 2` both crash. */
  lemma ExitLineCrashes(env: Env, st: State, line: string)
    requires Split(line) != [] && Split(line)[0] == "exit"
    ensures Iterate(env, st, line).status == Crashed <==> !SignedNumeral(Join(Split(line)[1..]))
  {
    var arg := Join(Split(line)[1..]);
    JoinNormalized(Split(line)[1..]);
    StripNormalized(arg);
    ExitCrashesIff(arg);
  }

  /** `exit n` with `n` written in decimal ends the process with status `n`
      modulo 256. */
  lemma ExitWithCode(env: Env, st: State, line: string, n: int)
    requires Split(line) == ["exit", ShowInt(n)]
    ensures Iterate(env, st, line).status == Exited(ExitStatus(n))
  {
    assert Split(line)[1..] == [ShowInt(n)];
    ParseShowInt(n);
  }

  /** The working directory always stays a directory. */
  lemma CwdStaysDirectory(env: Env, st: State, line: string)
    requires IsDir(env.fs, st.cwd)
    ensures IsDir(env.fs, Iterate(env, st, line).cwd)
  {
  }

  /** A line prints at most one line and never takes back earlier output
      or started children. */
  lemma IterateAppends(env: Env, st: State, line: string)
    ensures var st' := Iterate(env, st, line);
      |st.output| <= |st'.output| <= |st.output| + 1
      && st'.output[..|st.output|] == st.output
      && st'.children[..|st.children|] == st.children
  {
    var st' := Iterate(env, st, line);
    match Choose(line, env)
    case Ignore =>
    case RunBuiltin(command, arg) =>
      assert st' == ApplyBuiltin(env, st, command, arg);
    case RunExternal =>
      IterateExternal(env, st, line);
    case Unknown =>
  }

  /** Only `cd` changes the working directory and only `exit` stops the loop. */
  lemma IterateOwners(env: Env, st: State, line: string)
    ensures var st' := Iterate(env, st, line);
      (st'.cwd != st.cwd ==> exists arg :: Choose(line, env) == RunBuiltin(CommandCd, arg))
      && (st'.status != st.status ==> exists arg :: Choose(line, env) == RunBuiltin(CommandExit, arg))
  {
    var st' := Iterate(env, st, line);
    match Choose(line, env)
    case Ignore =>
    case RunBuiltin(command, arg) =>
      assert st' == ApplyBuiltin(env, st, command, arg);
    case RunExternal =>
      IterateExternal(env, st, line);
    case Unknown =>
  }

  /** Over a whole session the working directory stays a directory and the
      output only grows. */
  lemma {:induction false} SessionInvariant(env: Env, st: State, lines: seq<string>)
    requires IsDir(env.fs, st.cwd)
    ensures var st' := Session(env, st, lines);
      IsDir(env.fs, st'.cwd) && |st.output| <= |st'.output|
      && st'.output[..|st.output|] == st.output
    decreases |lines|
  {
    if lines != [] && st.status == Running {
      var next := Iterate(env, st, lines[0]);
      IterateAppends(env, st, lines[0]);
      CwdStaysDirectory(env, st, lines[0]);
      SessionInvariant(env, next, lines[1..]);
      var last := Session(env, next, lines[1..]);
      assert last.output[..|st.output|] == last.output[..|next.output|][..|st.output|];
    }
  }

  /** Once `exit` has run, no further line has any effect. */
  lemma StoppedSessionIsInert(env: Env, st: State, lines: seq<string>)
    requires st.status != Running
    ensures Session(env, st, lines) == st
  {
  }
}
