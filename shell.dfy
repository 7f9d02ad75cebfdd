/** The running shell: the process-wide working directory, what has been
    printed and which children were started, changed in place by each
    handler as `main`'s loop calls it. */
module ShellLoop {
  import opened Wrappers
  import opened Words
  import opened IntText
  import opened SearchPath
  import opened Builtins
  import opened Dispatch

  class Shell {
    /** The process environment, which the shell only reads. */
    const env: Env
    /** The process working directory (`os.getcwd()`). */
    var cwd: string
    /** Every line printed to standard output, in order. */
    var output: seq<string>
    /** The argument vector of every child process started, in order. */
    var children: seq<seq<string>>
    var status: Status

    /** A process's working directory is always a directory. */
    ghost predicate Valid()
      reads this
    {
      IsDir(env.fs, cwd)
    }

    /** The shell's state as a value. */
    function Snapshot(): State
      reads this
    {
      State(cwd, output, children, status)
    }

    constructor (env: Env, cwd: string)
      requires IsDir(env.fs, cwd)
      ensures Valid() && this.env == env
      ensures Snapshot() == State(cwd, [], [], Running)
    {
      this.env := env;
      this.cwd := cwd;
      output := [];
      children := [];
      status := Running;
    }

    /** `command_exit`. */
    method Exit(arg: string)
      modifies this
      ensures Snapshot() == ApplyBuiltin(env, old(Snapshot()), CommandExit, arg)
    {
      match ParseInt(arg)
      case Some(code) =>
        status := Exited(ExitStatus(code));
      case None =>
        status := Crashed;
    }

    /** `command_echo`. */
    method Echo(arg: string)
      modifies this
      ensures Snapshot() == ApplyBuiltin(env, old(Snapshot()), CommandEcho, arg)
    {
      var words := StripEach(Split(arg));
      output := output + [Join(words)];
    }

    /** `command_type`. */
    method Type(arg: string)
      modifies this
      ensures Snapshot() == ApplyBuiltin(env, old(Snapshot()), CommandType, arg)
    {
      if arg in BuiltinTable {
        output := output + [arg + " is a shell builtin"];
      } else {
        var found := GetExecutables(env, arg);
        if |found| > 0 {
          output := output + [arg + " is " + PathText(found[0])];
        } else {
          output := output + [arg + ": not found"];
        }
      }
    }

    /** `command_pwd`: its argument is ignored. */
    method Pwd(arg: string)
      modifies this
      ensures Snapshot() == ApplyBuiltin(env, old(Snapshot()), CommandPwd, arg)
    {
      output := output + [cwd];
    }

    /** `command_cd`. */
    method Cd(arg: string)
      requires Valid()
      modifies this
      ensures Valid()
      ensures Snapshot() == ApplyBuiltin(env, old(Snapshot()), CommandCd, arg)
    {
      var target := arg;
      if arg == "~" {
        target := env.home;
      }
      if IsDir(env.fs, target) {
        cwd := target;
      } else {
        output := output + ["cd: " + target + ": No such file or directory"];
      }
    }

    /** `execute`: looks the command up again and starts it with the line's
        words as its argument vector. */
    method Execute(line: string)
      requires Split(line) != []
      modifies this
      ensures Snapshot() == ApplyExecute(env, old(Snapshot()), line)
    {
      var argv := StripEach(Split(line));
      var found := GetExecutables(env, argv[0]);
      if |found| > 0 {
        children := children + [argv];
      } else {
        output := output + [line + ": command not found"];
      }
    }

    /** `builtin_commands_dict[command](arg)`: the handler the table names. */
    method RunCommand(command: Command, arg: string)
      requires Valid()
      modifies this
      ensures Valid()
      ensures Snapshot() == ApplyBuiltin(env, old(Snapshot()), command, arg)
    {
      match command
      case CommandExit => Exit(arg);
      case CommandEcho => Echo(arg);
      case CommandType => Type(arg);
      case CommandPwd => Pwd(arg);
      case CommandCd => Cd(arg);
    }

    /** One pass of `main`'s loop body on the line read. */
    method Step(line: string)
      requires Valid()
      modifies this
      ensures Valid()
      ensures Snapshot() == Iterate(env, old(Snapshot()), line)
    {
      var words := Split(line);
      SplitEmptyIff(line);
      if |words| > 0 {
        if words[0] in BuiltinTable {
          var arg := Join(words[1..]);
          assert Choose(line, env) == RunBuiltin(BuiltinTable[words[0]], arg);
          RunCommand(BuiltinTable[words[0]], arg);
        } else {
          var found := GetExecutables(env, words[0]);
          if |found| > 0 {
            assert Choose(line, env) == RunExternal;
            Execute(line);
          } else {
            assert Choose(line, env) == Unknown;
            output := output + [line + ": command not found"];
          }
        }
      }
    }

    /** `main`'s loop over the lines read, until `exit` ends the process or
        the input runs out. */
    method Run(lines: seq<string>)
      requires Valid()
      modifies this
      ensures Valid()
      ensures Snapshot() == Session(env, old(Snapshot()), lines)
    {
      var i := 0;
      while i < |lines| && status == Running
        invariant 0 <= i <= |lines|
        invariant Valid()
        invariant Session(env, Snapshot(), lines[i..]) == Session(env, old(Snapshot()), lines)
      {
        assert lines[i..][1..] == lines[i + 1..];
        Step(lines[i]);
        i := i + 1;
      }
    }
  }
}
