// The bootstrap script that `main` runs inside the interpreter before the
// user's `main.py`: it reads the two storage roots from the environment,
// replaces `sys.path` with the bundled library directories followed by the
// application directory, and redirects `sys.stdout` and `sys.stderr` to one
// shared `LogFile`.

module Bootstrap {
  import opened LogStream

  const PrivateVar: string := "ANDROID_PRIVATE"
  const ArgumentVar: string := "ANDROID_ARGUMENT"

  /** The library directory under the private root, and its subdirectories
      that go on the search path, in priority order. */
  const LibDir: string := "/lib/python2.7/"
  const LibSubdirs: seq<string> := ["", "lib-dynload/", "site-packages/"]

  /** The roots read from `posix.environ`, or the `KeyError` for the first
      variable that is missing. */
  datatype Roots = Roots(private: string, argument: string)
  datatype Lookup = Found(roots: Roots) | KeyError(key: string)

  /** Reads `ANDROID_PRIVATE` from the environment, then `ANDROID_ARGUMENT`;
      the first key that is missing raises `KeyError` and stops the script. */
  function ReadRoots(environ: map<string, string>): (r: Lookup)
    ensures r.Found? <==> PrivateVar in environ && ArgumentVar in environ
    ensures r.Found? ==> r.roots == Roots(environ[PrivateVar], environ[ArgumentVar])
    ensures r.KeyError? ==> r.key == (if PrivateVar in environ then ArgumentVar else PrivateVar)
  {
    if PrivateVar !in environ then KeyError(PrivateVar)
    else if ArgumentVar !in environ then KeyError(ArgumentVar)
    else Found(Roots(environ[PrivateVar], environ[ArgumentVar]))
  }

  /** The list assigned to `sys.path[:]`: four entries, the three bundled
      library directories under the private root's `lib/python2.7/` first and
      the application directory last. */
  function SearchPath(roots: Roots): (path: seq<string>)
    ensures |path| == 4 && path[3] == roots.argument
    ensures forall i :: 0 <= i < 3 ==> roots.private + LibDir <= path[i]
  {
    [roots.private + LibDir + LibSubdirs[0],
     roots.private + LibDir + LibSubdirs[1],
     roots.private + LibDir + LibSubdirs[2],
     roots.argument]
  }

  /** The search path holds four entries: first the three bundled library
      directories, all under the private root's `lib/python2.7/` and no two
      alike, then the application directory, which therefore comes after
      every bundled one. */
  lemma SearchPathPrecedence(roots: Roots)
    ensures var path := SearchPath(roots);
      |path| == 4 && path[3] == roots.argument &&
      (forall i :: 0 <= i < 3 ==> path[i][..|roots.private + LibDir|] == roots.private + LibDir) &&
      (forall i, j :: 0 <= i < j < 3 ==> path[i] != path[j])
  {
    var path, dir := SearchPath(roots), roots.private + LibDir;
    forall i | 0 <= i < 3 ensures path[i][..|dir|] == dir {
      assert path[i] == dir + LibSubdirs[i];
    }
    forall i, j | 0 <= i < j < 3 ensures path[i] != path[j] {
      assert |path[i]| == |dir| + |LibSubdirs[i]|;
      assert |path[j]| == |dir| + |LibSubdirs[j]|;
    }
  }

  /** The parts of the `sys` module that the bootstrap changes. A null stream
      stands for the interpreter's own console stream. */
  class Sys {
    var path: seq<string>
    var stdout: LogFile?
    var stderr: LogFile?

    /** The interpreter's `sys` before the bootstrap runs. */
    constructor (initialPath: seq<string>)
      ensures path == initialPath && stdout == null && stderr == null
    {
      path := initialPath;
      stdout := null;
      stderr := null;
    }

    /** Lines 62-80 of the bootstrap script. On success the old search path is
        discarded whatever it held, and standard output and standard error are
        one and the same fresh `LogFile`. A missing variable raises before
        anything is changed. */
    method Run(environ: map<string, string>) returns (ok: bool)
      modifies this
      ensures ok <==> ReadRoots(environ).Found?
      ensures ok ==> path == SearchPath(ReadRoots(environ).roots)
      ensures ok ==> stdout != null && stdout == stderr && fresh(stdout)
      ensures ok ==> stdout.Valid() && stdout.buffer == "" && stdout.logged == [] && stdout.written == []
      ensures !ok ==> path == old(path) && stdout == old(stdout) && stderr == old(stderr)
    {
      var lookup := ReadRoots(environ);
      if lookup.KeyError? {
        return false;
      }
      path := SearchPath(lookup.roots);
      var log := new LogFile();
      stdout, stderr := log, log;
      ok := true;
    }
  }

  /** Because standard output and standard error share one buffer, an
      unfinished line written to one is completed by the other. */
  method SharedStreamExample(environ: map<string, string>)
    requires PrivateVar in environ && ArgumentVar in environ
  {
    var sys := new Sys([]);
    var ok := sys.Run(environ);
    var out, err := sys.stdout, sys.stderr;
    assert "" + "a" == "a";
    StepUnique("", "a", [], "a");
    out.Write("a");
    assert "a" + "b\n" == "ab\n";
    StepUnique("a", "b\n", ["ab"], "");
    err.Write("b\n");
    assert out.logged == ["ab"] && out.buffer == "";
  }
}
