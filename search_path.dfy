/** `get_executables`: the search for a command name along the directories
    of PATH, over an abstract view of the process environment. */
module SearchPath {
  import opened Separated

  /** `os.pathsep` on POSIX systems. */
  const PathSep: char := ':'

  /** One entry of a directory listing: its base name, whether it is a
      regular file, and whether the shell's user may execute it. */
  datatype Entry = Entry(name: string, isFile: bool, isExecutable: bool)

  /** The directories of the filesystem, each with its listing in the order
      the operating system yields it. */
  type FileSystem = map<string, seq<Entry>>

  /** What the shell reads from its process environment: the value of PATH
      (the empty string when it is unset), the filesystem and the home
      directory that `~` expands to. */
  datatype Env = Env(pathValue: string, fs: FileSystem, home: string)

  /** `os.path.isdir(p)`; the empty path is never a directory. */
  predicate IsDir(fs: FileSystem, p: string) {
    p != "" && p in fs
  }

  /** A found executable: the PATH directory it lives in and its name. */
  datatype Executable = Executable(dir: string, name: string)

  /** How the shell prints a found executable's path. */
  function PathText(e: Executable): (t: string)
    ensures '/' in t
  {
    assert (e.dir + "/" + e.name)[|e.dir|] == '/';
    e.dir + "/" + e.name
  }

  /** `os.getenv("PATH", "").split(os.pathsep)`. */
  function PathDirs(env: Env): seq<string> {
    SplitOn(env.pathValue, PathSep)
  }

  /** `[f for f in Path(dir).iterdir() if f.is_file()]`. */
  function RegularFiles(entries: seq<Entry>): seq<Entry> {
    if entries == [] then []
    else
      var last := entries[|entries| - 1];
      RegularFiles(entries[..|entries| - 1]) + (if last.isFile then [last] else [])
  }

  /** The files of `dir` that are executable and called `name`, in listing order. */
  function MatchesIn(dir: string, files: seq<Entry>, name: string): seq<Executable> {
    if files == [] then []
    else
      var last := files[|files| - 1];
      MatchesIn(dir, files[..|files| - 1], name)
        + (if last.isExecutable && last.name == name then [Executable(dir, last.name)] else [])
  }

  /** What one PATH entry contributes: nothing unless it is a directory. */
  function InDir(fs: FileSystem, dir: string, name: string): seq<Executable> {
    if IsDir(fs, dir) then MatchesIn(dir, RegularFiles(fs[dir]), name) else []
  }

  /** The matches of every directory in `dirs`, directory after directory. */
  function Lookup(dirs: seq<string>, fs: FileSystem, name: string): seq<Executable> {
    if dirs == [] then []
    else InDir(fs, dirs[0], name) + Lookup(dirs[1..], fs, name)
  }

  /** `get_executables(name)` as a value. */
  function Executables(env: Env, name: string): seq<Executable> {
    Lookup(PathDirs(env), env.fs, name)
  }

  /** `get_executables`: two nested loops that append each match. */
  method GetExecutables(env: Env, name: string) returns (found: seq<Executable>)
    ensures found == Executables(env, name)
  {
    found := [];
    var dirs := SplitOn(env.pathValue, PathSep);
    var i := 0;
    while i < |dirs|
      invariant 0 <= i <= |dirs|
      invariant found == Lookup(dirs[..i], env.fs, name)
    {
      var dir := dirs[i];
      if IsDir(env.fs, dir) {
        var files := RegularFiles(env.fs[dir]);
        ghost var before := found;
        var j := 0;
        while j < |files|
          invariant 0 <= j <= |files|
          invariant found == before + MatchesIn(dir, files[..j], name)
        {
          var file := files[j];
          if file.isExecutable && file.name == name {
            found := found + [Executable(dir, file.name)];
          }
          assert files[..j + 1][..j] == files[..j];
          j := j + 1;
        }
        assert files[..j] == files;
      }
      assert dirs[..i + 1] == dirs[..i] + [dir];
      LookupSnoc(dirs[..i], dir, env.fs, name);
      i := i + 1;
    }
    assert dirs[..i] == dirs;
  }

  // ---------------------------------------------------------------------
  // Lemmas

  /** A regular-file filter keeps exactly the regular files. */
  lemma {:induction false} RegularFilesMember(entries: seq<Entry>, f: Entry)
    ensures f in RegularFiles(entries) <==> f in entries && f.isFile
  {
    if entries != [] {
      var init := entries[..|entries| - 1];
      RegularFilesMember(init, f);
      assert entries == init + [entries[|entries| - 1]];
    }
  }

  /** Every match in a directory is that directory's file of the searched
      name, and every executable file of that name is matched. */
  lemma {:induction false} MatchesInMember(dir: string, files: seq<Entry>, name: string, e: Executable)
    ensures e in MatchesIn(dir, files, name) <==>
      e == Executable(dir, name) && exists f :: f in files && f.isExecutable && f.name == name
  {
    if files != [] {
      var init := files[..|files| - 1];
      var last := files[|files| - 1];
      MatchesInMember(dir, init, name, e);
      assert files == init + [last];
      if e == Executable(dir, name) && last.isExecutable && last.name == name {
        assert last in files;
      }
    }
  }

  lemma InDirMember(fs: FileSystem, dir: string, name: string, e: Executable)
    ensures e in InDir(fs, dir, name) <==>
      e == Executable(dir, name) && IsDir(fs, dir)
      && exists f :: f in fs[dir] && f.isFile && f.isExecutable && f.name == name
  {
    if IsDir(fs, dir) {
      var files := RegularFiles(fs[dir]);
      MatchesInMember(dir, files, name, e);
      forall f ensures f in files <==> f in fs[dir] && f.isFile {
        RegularFilesMember(fs[dir], f);
      }
    }
  }

  /** Searching a concatenation of directory lists searches them in turn:
      results follow the order of the directories. */
  lemma {:induction false} LookupAppend(a: seq<string>, b: seq<string>, fs: FileSystem, name: string)
    ensures Lookup(a + b, fs, name) == Lookup(a, fs, name) + Lookup(b, fs, name)
  {
    if a == [] {
      assert a + b == b;
    } else {
      LookupAppend(a[1..], b, fs, name);
      assert (a + b)[1..] == a[1..] + b && (a + b)[0] == a[0];
    }
  }

  /** One more directory at the end contributes its own matches last. */
  lemma LookupSnoc(dirs: seq<string>, d: string, fs: FileSystem, name: string)
    ensures Lookup(dirs + [d], fs, name) == Lookup(dirs, fs, name) + InDir(fs, d, name)
  {
    LookupAppend(dirs, [d], fs, name);
    assert [d][1..] == [];
  }

  /** A PATH entry that is not a directory contributes nothing. */
  lemma NonDirectorySkipped(a: seq<string>, d: string, b: seq<string>, fs: FileSystem, name: string)
    requires !IsDir(fs, d)
    ensures Lookup(a + [d] + b, fs, name) == Lookup(a + b, fs, name)
  {
    LookupAppend(a + [d], b, fs, name);
    LookupAppend(a, [d], fs, name);
    LookupAppend(a, b, fs, name);
    assert [d][1..] == [];
  }

  /** An executable is found exactly when it is an executable regular file
      of the searched name in a PATH entry that is a directory. */
  lemma {:induction false} LookupMember(dirs: seq<string>, fs: FileSystem, name: string, e: Executable)
    ensures e in Lookup(dirs, fs, name) <==>
      e.name == name && e.dir in dirs && IsDir(fs, e.dir)
      && exists f :: f in fs[e.dir] && f.isFile && f.isExecutable && f.name == name
  {
    if dirs != [] {
      var d, rest := dirs[0], dirs[1..];
      LookupMember(rest, fs, name, e);
      InDirMember(fs, d, name, e);
      assert dirs == [d] + rest;
    }
  }

  /** The first result comes from the first PATH entry that has a match:
      it is the command that would run. */
  lemma {:induction false} LookupFirst(dirs: seq<string>, fs: FileSystem, name: string)
    requires Lookup(dirs, fs, name) != []
    ensures exists k | 0 <= k < |dirs| ::
      InDir(fs, dirs[k], name) != []
      && Lookup(dirs, fs, name)[0] == InDir(fs, dirs[k], name)[0]
      && forall j | 0 <= j < k :: InDir(fs, dirs[j], name) == []
  {
    var d, rest := dirs[0], dirs[1..];
    if InDir(fs, d, name) == [] {
      LookupFirst(rest, fs, name);
      var k :| 0 <= k < |rest| && InDir(fs, rest[k], name) != []
        && Lookup(rest, fs, name)[0] == InDir(fs, rest[k], name)[0]
        && forall j | 0 <= j < k :: InDir(fs, rest[j], name) == [];
      assert dirs[k + 1] == rest[k];
      forall j | 0 <= j < k + 1 ensures InDir(fs, dirs[j], name) == [] {
        if j > 0 { assert dirs[j] == rest[j - 1]; }
      }
    } else {
      assert Lookup(dirs, fs, name)[0] == InDir(fs, dirs[0], name)[0];
    }
  }

  /** With PATH unset or empty nothing is ever found. */
  lemma EmptyPathFindsNothing(env: Env, name: string)
    requires env.pathValue == ""
    ensures Executables(env, name) == []
  {
    var dirs := PathDirs(env);
    assert dirs == [""];
    assert !IsDir(env.fs, dirs[0]) && dirs[1..] == [];
    assert Lookup(dirs, env.fs, name) == InDir(env.fs, dirs[0], name) + Lookup(dirs[1..], env.fs, name);
  }
}
