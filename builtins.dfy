/** The shell's built-in commands as decisions over values: what `echo`,
    `type`, `cd` and `exit` print or do for a given argument string. */
module Builtins {
  import opened Words
  import opened SearchPath

  /** The handlers of `builtin_commands_dict`. */
  datatype Command = CommandExit | CommandEcho | CommandType | CommandPwd | CommandCd

  /** `builtin_commands_dict`: fixed once the module is loaded. */
  const BuiltinTable: map<string, Command> :=
    map["exit" := CommandExit, "echo" := CommandEcho, "type" := CommandType,
        "pwd" := CommandPwd, "cd" := CommandCd]

  predicate IsBuiltin(name: string) {
    name in BuiltinTable
  }

  /** The line `echo` prints: the argument's words, stripped, joined by one
      space. It is normalized text with the same words as the argument. */
  function EchoLine(arg: string): (line: string)
    ensures Normalized(line)
    ensures Split(line) == Split(arg)
  {
    var words := Split(arg);
    StripEachWords(words);
    JoinNormalized(words);
    SplitJoin(words);
    Join(StripEach(words))
  }

  /** The line `type` prints for its argument. */
  function TypeLine(arg: string, env: Env): string {
    if IsBuiltin(arg) then arg + " is a shell builtin"
    else
      var found := Executables(env, arg);
      if |found| > 0 then arg + " is " + PathText(found[0])
      else arg + ": not found"
  }

  /** What `cd` does: move to a directory, or report the missing one. */
  datatype CdOutcome = Changed(dir: string) | NoSuchDirectory(message: string)

  /** The directory `cd` tries: exactly `~` stands for the home directory. */
  function CdTarget(arg: string, env: Env): string {
    if arg == "~" then env.home else arg
  }

  function Cd(arg: string, env: Env): (r: CdOutcome)
    ensures r.Changed? <==> IsDir(env.fs, CdTarget(arg, env))
    ensures r.Changed? ==> IsDir(env.fs, r.dir) && r.dir == CdTarget(arg, env)
    ensures r.NoSuchDirectory? ==>
      r.message == "cd: " + CdTarget(arg, env) + ": No such file or directory"
  {
    var target := CdTarget(arg, env);
    if IsDir(env.fs, target) then Changed(target)
    else NoSuchDirectory("cd: " + target + ": No such file or directory")
  }

  /** The status a process ending with `sys.exit(code)` reports on POSIX:
      the low eight bits of the code. */
  function ExitStatus(code: int): (s: nat)
    ensures s < 256
    ensures 0 <= code < 256 ==> s == code
    ensures (code - s) % 256 == 0
  {
    code % 256
  }

  // ---------------------------------------------------------------------
  // Lemmas

  /** `echo` prints normalized text unchanged, and only normalized text. */
  lemma EchoFixpoint(s: string)
    ensures EchoLine(s) == s <==> Normalized(s)
  {
    if Normalized(s) {
      StripEachWords(Split(s));
      JoinSplitNormalized(s);
    }
  }

  /** Echoing what `echo` printed prints the same line again. */
  lemma EchoIdempotent(arg: string)
    ensures EchoLine(EchoLine(arg)) == EchoLine(arg)
  {
    EchoFixpoint(EchoLine(arg));
  }

  /** `echo` prints every non-whitespace character of its argument, in order,
      and no other character than single separating spaces. */
  lemma EchoKeepsCharacters(arg: string)
    ensures Concat(Split(EchoLine(arg))) == NonSpace(arg)
  {
    SplitKeepsCharacters(arg);
  }

  /** `type` names one of three outcomes, in priority order: a built-in, the
      first executable found on PATH, or nothing found. */
  lemma TypeLineCases(arg: string, env: Env)
    ensures TypeLine(arg, env) == arg + " is a shell builtin" <==> IsBuiltin(arg)
    ensures TypeLine(arg, env) == arg + ": not found" <==>
      !IsBuiltin(arg) && Executables(env, arg) == []
    ensures !IsBuiltin(arg) && Executables(env, arg) != [] ==>
      TypeLine(arg, env) == arg + " is " + PathText(Executables(env, arg)[0])
  {
    var line := TypeLine(arg, env);
    var builtin := arg + " is a shell builtin";
    var missing := arg + ": not found";
    assert builtin[|arg|] == ' ' && missing[|arg|] == ':';
    if !IsBuiltin(arg) && Executables(env, arg) != [] {
      var p := PathText(Executables(env, arg)[0]);
      assert line == arg + " is " + p;
      assert line[|arg|] == ' ';
      assert line[|arg| + 4..] == p;
      assert builtin[|arg| + 4..] == "a shell builtin";
      assert '/' !in "a shell builtin";
    }
  }

  /** The path `type` reports is that of the first PATH directory holding an
      executable regular file of that name. */
  lemma TypeReportsFirstMatch(arg: string, env: Env)
    requires !IsBuiltin(arg) && Executables(env, arg) != []
    ensures exists k | 0 <= k < |PathDirs(env)| ::
      TypeLine(arg, env) == arg + " is " + PathDirs(env)[k] + "/" + arg
      && IsDir(env.fs, PathDirs(env)[k]) && InDir(env.fs, PathDirs(env)[k], arg) != []
      && forall j | 0 <= j < k :: InDir(env.fs, PathDirs(env)[j], arg) == []
  {
    var dirs := PathDirs(env);
    LookupFirst(dirs, env.fs, arg);
    var k :| 0 <= k < |dirs| && InDir(env.fs, dirs[k], arg) != []
      && Executables(env, arg)[0] == InDir(env.fs, dirs[k], arg)[0]
      && forall j | 0 <= j < k :: InDir(env.fs, dirs[j], arg) == [];
    var e := InDir(env.fs, dirs[k], arg)[0];
    InDirMember(env.fs, dirs[k], arg, e);
    assert e == Executable(dirs[k], arg);
  }
}
