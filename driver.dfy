/** main(): turning the path arguments into directories, scanning each
    directory with one shared Checker, and the exit status. The file
    system is a value: which paths are plain files, and what each glob
    pattern finds. */
module Driver {
  import opened Patterns
  import opened Scan
  import opened Checker

  // ---------------------------------------------------------------------
  // os.path.dirname

  /** One past the last '/' of p, or 0 when p has none (rfind + 1). */
  function LastSlashEnd(p: string): (i: nat)
    ensures i <= |p|
    ensures i > 0 ==> p[i - 1] == '/'
    ensures forall k :: i <= k < |p| ==> p[k] != '/'
    decreases |p|
  {
    if p == [] then 0
    else if p[|p| - 1] == '/' then |p|
    else LastSlashEnd(p[..|p| - 1])
  }

  predicate AllSlashes(s: string) {
    forall k :: 0 <= k < |s| ==> s[k] == '/'
  }

  /** head.rstrip('/') */
  function RStripSlashes(s: string): (r: string)
    ensures |r| <= |s| && r == s[..|r|]
    ensures AllSlashes(s[|r|..])
    ensures r != [] ==> r[|r| - 1] != '/'
    decreases |s|
  {
    if s != [] && s[|s| - 1] == '/' then
      var r := RStripSlashes(s[..|s| - 1]);
      assert s[|r|..] == s[..|s| - 1][|r|..] + [s[|s| - 1]];
      r
    else s
  }

  /** posixpath.dirname: everything up to the last '/', with the trailing
      slashes dropped unless the head is made of slashes only. */
  function Dirname(p: string): string {
    var head := p[..LastSlashEnd(p)];
    if head != [] && !AllSlashes(head) then RStripSlashes(head) else head
  }

  /** A bare file name lies in the directory "". */
  lemma {:induction false} DirnameOfBareName(name: string)
    requires '/' !in name
    ensures Dirname(name) == ""
  {
    assert forall k :: 0 <= k < |name| ==> name[k] in name;
  }

  /** A file joined to a directory lies in that directory. */
  lemma {:induction false} DirnameOfJoin(dir: string, name: string)
    requires dir != [] && dir[|dir| - 1] != '/'
    requires '/' !in name
    ensures Dirname(dir + "/" + name) == dir
  {
    var p := dir + "/" + name;
    var i := LastSlashEnd(p);
    assert p[|dir|] == '/';
    assert forall k :: |dir| + 1 <= k < |p| ==> p[k] == name[k - |dir| - 1] && name[k - |dir| - 1] in name;
    assert i == |dir| + 1;
    var head := p[..i];
    assert head == dir + "/";
    assert head[|dir| - 1] != '/';
    assert RStripSlashes(head) == RStripSlashes(dir);
  }

  /** A relative path has a relative directory (possibly ""). */
  lemma {:induction false} DirnameOfRelative(p: string)
    requires p == [] || p[0] != '/'
    ensures Dirname(p) == [] || Dirname(p)[0] != '/'
  {
    var head := p[..LastSlashEnd(p)];
    if head != [] {
      assert head[0] == p[0];
      assert !AllSlashes(head);
      var r := RStripSlashes(head);
      assert head[0..] == head;
      assert r[0] == head[0];
    }
  }

  // ---------------------------------------------------------------------
  // get_tf_directories

  /** list(set(dirname(f) for f in files)): every directory once. Python
      leaves the order of a set unspecified; this keeps first occurrences. */
  function GetTfDirectories(paths: seq<string>): (dirs: seq<string>)
    ensures Distinct(dirs)
    ensures forall d :: d in dirs <==> exists k :: 0 <= k < |paths| && Dirname(paths[k]) == d
    decreases |paths|
  {
    if paths == [] then []
    else
      var n := |paths| - 1;
      var init := GetTfDirectories(paths[..n]);
      var d := Dirname(paths[n]);
      assert forall k :: 0 <= k < n ==> paths[..n][k] == paths[k];
      if d in init then init else init + [d]
  }

  // ---------------------------------------------------------------------
  // find_tf_files and the file system

  /** What the program sees of the file system: the paths that are plain
      files, and the files each glob pattern finds, with their contents. */
  datatype FileSystem = FileSystem(plainFiles: set<string>, globs: map<string, seq<TfFile>>)

  /** glob.glob(pattern, recursive=True): no match is an empty list. */
  function Glob(fs: FileSystem, pattern: string): seq<TfFile> {
    if pattern in fs.globs then fs.globs[pattern] else []
  }

  /** The pattern find_tf_files builds, as written: the path, a slash, and
      the `*.tf` wildcard. */
  function TfPatternAsWritten(path: string): string {
    path + "/*.tf"
  }

  /** For a file named on the command line without a directory, such as
      `main.tf`, the directory is "" and the pattern as written is the
      `*.tf` wildcard under the root of the file system. */
  lemma {:induction false} BareFileGlobsRoot(name: string)
    requires '/' !in name
    ensures TfPatternAsWritten(Dirname(name)) == "/*.tf"
  {
    DirnameOfBareName(name);
  }

  /** The pattern for the files of a directory, with "" read as the
      current directory. */
  function TfPattern(path: string): string {
    (if path == [] then "." else path) + "/*.tf"
  }

  /** The corrected pattern keeps every relative file's directory relative,
      and still agrees with the pattern as written for every other
      directory. */
  lemma {:induction false} TfPatternStaysRelative(p: string)
    requires p == [] || p[0] != '/'
    ensures TfPattern(Dirname(p))[0] != '/'
    ensures Dirname(p) != [] ==> TfPattern(Dirname(p)) == TfPatternAsWritten(Dirname(p))
  {
    DirnameOfRelative(p);
  }

  /** find_tf_files(path), with the corrected pattern: it globs `path`
      followed by the `*.tf` wildcard, as written, for every non-empty path,
      and the current directory for the empty one. */
  function FindTfFiles(fs: FileSystem, path: string): (files: seq<TfFile>)
    ensures path != [] ==> files == Glob(fs, TfPatternAsWritten(path))
    ensures path == [] ==> files == Glob(fs, "./*.tf")
  {
    assert path == [] ==> TfPattern(path) == "./*.tf";
    Glob(fs, TfPattern(path))
  }

  function Paths(files: seq<TfFile>): (r: seq<string>)
    ensures |r| == |files| && forall k :: 0 <= k < |files| ==> r[k] == files[k].path
    decreases |files|
  {
    if files == [] then [] else Paths(files[..|files| - 1]) + [files[|files| - 1].path]
  }

  // ---------------------------------------------------------------------
  // main()

  /** argparse's default when no path is given. */
  const DefaultPath: string := "./**"

  function EffectiveArgs(args: seq<string>): (r: seq<string>)
    ensures args == [] ==> r == [DefaultPath]
    ensures args != [] ==> r == args
  {
    if args == [] then [DefaultPath] else args
  }

  /** The files named by one argument: the argument itself when it is a
      plain file, otherwise what find_tf_files finds under it. */
  function ArgFiles(fs: FileSystem, arg: string): seq<string> {
    if arg in fs.plainFiles then [arg] else Paths(FindTfFiles(fs, arg))
  }

  /** tf_files: the files of every argument, in argument order. */
  function Discover(fs: FileSystem, args: seq<string>): seq<string>
    decreases |args|
  {
    if args == [] then [] else Discover(fs, args[..|args| - 1]) + ArgFiles(fs, args[|args| - 1])
  }

  /** An argument names a path exactly when it is that plain file, or it
      is not a plain file and its glob finds a file at that path. */
  lemma {:induction false} ArgFilesIff(fs: FileSystem, arg: string, path: string)
    ensures path in ArgFiles(fs, arg)
            <==> (arg in fs.plainFiles && path == arg)
                 || (arg !in fs.plainFiles && exists f :: f in FindTfFiles(fs, arg) && f.path == path)
  {
    if arg !in fs.plainFiles {
      var files := FindTfFiles(fs, arg);
      if path in Paths(files) {
        var k :| 0 <= k < |Paths(files)| && Paths(files)[k] == path;
        assert files[k] in files;
      }
      if exists f :: f in files && f.path == path {
        var f :| f in files && f.path == path;
        var k :| 0 <= k < |files| && files[k] == f;
        assert Paths(files)[k] == path;
      }
    }
  }

  /** A path is discovered exactly when some argument names it. */
  lemma {:induction false} DiscoverIff(fs: FileSystem, args: seq<string>, path: string)
    ensures path in Discover(fs, args) <==> exists i :: 0 <= i < |args| && path in ArgFiles(fs, args[i])
    decreases |args|
  {
    if args != [] {
      var n := |args| - 1;
      DiscoverIff(fs, args[..n], path);
      if path in Discover(fs, args[..n]) {
        var i :| 0 <= i < n && path in ArgFiles(fs, args[..n][i]);
        assert args[..n][i] == args[i];
      }
      if exists i :: 0 <= i < |args| && path in ArgFiles(fs, args[i]) {
        var i :| 0 <= i < |args| && path in ArgFiles(fs, args[i]);
        if i < n {
          assert args[..n][i] == args[i];
        }
      }
    }
  }

  /** What one directory adds to `found`. */
  function ScopeFailures(files: seq<TfFile>): nat {
    |UnusedVariables(files)| + Failures(UnusedLocals(files))
  }

  /** What the scan of directory d adds to `found`. */
  function DirFailures(fs: FileSystem, d: string): nat {
    ScopeFailures(FindTfFiles(fs, d))
  }

  /** The sum of count over the directories, in order. */
  function SumOver(dirs: seq<string>, count: string -> nat): nat
    decreases |dirs|
  {
    if dirs == [] then 0 else SumOver(dirs[..|dirs| - 1], count) + count(dirs[|dirs| - 1])
  }

  /** What the directories add to `found`, in order. */
  function TotalFailures(fs: FileSystem, dirs: seq<string>): nat {
    SumOver(dirs, (d: string) => DirFailures(fs, d))
  }

  /** The status main() exits with. */
  function ExitCode(fs: FileSystem, args: seq<string>): int {
    var paths := Discover(fs, EffectiveArgs(args));
    if paths == [] then 0
    else if TotalFailures(fs, GetTfDirectories(paths)) > 0 then 1
    else 0
  }

  /** The loop over the arguments in main(). */
  method DiscoverFiles(fs: FileSystem, args: seq<string>) returns (paths: seq<string>)
    ensures paths == Discover(fs, args)
  {
    paths := [];
    for k := 0 to |args|
      invariant paths == Discover(fs, args[..k])
    {
      assert args[..k + 1][..k] == args[..k];
      var arg := args[k];
      if arg in fs.plainFiles {
        paths := paths + [arg];
      } else {
        paths := paths + Paths(FindTfFiles(fs, arg));
      }
    }
    assert args[..|args|] == args;
  }

  /** main(): discover the files, scan each of their directories with one
      checker, and exit with 1 exactly when it has counted a failure. */
  method Run(fs: FileSystem, args: seq<string>) returns (code: int)
    ensures code == ExitCode(fs, args)
  {
    var paths := DiscoverFiles(fs, EffectiveArgs(args));
    if paths == [] {
      return 0;
    }
    var found := ScanDirectories(fs, GetTfDirectories(paths));
    code := if found > 0 then 1 else 0;
  }

  /** The loop of main() over the directories, with the checker whose
      `found` it returns. */
  method ScanDirectories(fs: FileSystem, dirs: seq<string>) returns (found: nat)
    ensures found == TotalFailures(fs, dirs)
  {
    var checker := new Checker();
    for k := 0 to |dirs|
      invariant checker.found == TotalFailures(fs, dirs[..k])
    {
      TotalFailuresSnoc(fs, dirs, k);
      ScanDirectory(checker, FindTfFiles(fs, dirs[k]));
    }
    assert dirs[..|dirs|] == dirs;
    found := checker.found;
  }

  /** The body of main()'s loop over the directories. */
  method ScanDirectory(checker: Checker, files: seq<TfFile>)
    modifies checker
    ensures checker.found == old(checker.found) + ScopeFailures(files)
  {
    var vars := checker.FindUnusedVars(files);
    var locals := checker.FindUnusedLocals(files);
  }

  lemma {:induction false} TotalFailuresSnoc(fs: FileSystem, dirs: seq<string>, k: nat)
    requires k < |dirs|
    ensures TotalFailures(fs, dirs[..k + 1]) == TotalFailures(fs, dirs[..k]) + DirFailures(fs, dirs[k])
  {
    assert dirs[..k + 1][..k] == dirs[..k];
  }

  // ---------------------------------------------------------------------
  // What the exit status means

  /** The files of one directory declare a variable that none of them
      references, or a local that none references and no directive
      skips. */
  predicate HasUnused(files: seq<TfFile>) {
    || (exists v :: v in VarDecls(files).value && v !in VarRefs(files))
    || (exists l :: l in LocalDecls(files).value && l !in LocalRefs(files) && l !in SkipLocals(files))
  }

  /** A directory adds to `found` exactly when it has an unused name. */
  lemma {:induction false} ScopeFailuresPositive(files: seq<TfFile>)
    ensures ScopeFailures(files) > 0 <==> HasUnused(files)
  {
    UnusedVariablesCount(files);
    UnusedLocalsCount(files);
    var vs := set v | v in VarDecls(files).value && v !in VarRefs(files);
    var ls := set l | l in LocalDecls(files).value && l !in LocalRefs(files) && l !in SkipLocals(files);
    if exists v :: v in VarDecls(files).value && v !in VarRefs(files) {
      var v :| v in VarDecls(files).value && v !in VarRefs(files);
      assert v in vs;
    }
    if exists l :: l in LocalDecls(files).value && l !in LocalRefs(files) && l !in SkipLocals(files) {
      var l :| l in LocalDecls(files).value && l !in LocalRefs(files) && l !in SkipLocals(files);
      assert l in ls;
    }
    if |vs| > 0 {
      var v :| v in vs;
    }
    if |ls| > 0 {
      var l :| l in ls;
    }
  }

  lemma {:induction false} SumOverPositive(dirs: seq<string>, count: string -> nat)
    ensures SumOver(dirs, count) > 0 <==> exists k :: 0 <= k < |dirs| && count(dirs[k]) > 0
    decreases |dirs|
  {
    if dirs != [] {
      var n := |dirs| - 1;
      SumOverPositive(dirs[..n], count);
      if SumOver(dirs[..n], count) > 0 {
        var k :| 0 <= k < n && count(dirs[..n][k]) > 0;
        assert dirs[..n][k] == dirs[k];
      } else if count(dirs[n]) == 0 {
        forall k | 0 <= k < |dirs| ensures count(dirs[k]) == 0 {
          if k < n { assert dirs[..n][k] == dirs[k]; } else { assert k == n; }
        }
      }
    }
  }

  /** main() exits with 1 exactly when some file was found and the
      directory of some found file has an unused variable or an unused,
      unskipped local; otherwise it exits with 0. */
  lemma {:induction false} ExitCodeIff(fs: FileSystem, args: seq<string>)
    ensures ExitCode(fs, args) == 0 || ExitCode(fs, args) == 1
    ensures ExitCode(fs, args) == 1
            <==> exists k :: 0 <= k < |Discover(fs, EffectiveArgs(args))|
                   && HasUnused(FindTfFiles(fs, Dirname(Discover(fs, EffectiveArgs(args))[k])))
  {
    var paths := Discover(fs, EffectiveArgs(args));
    ExitCodeOfPaths(fs, args, paths);
    SomeDirectoryUnused(fs, paths);
  }

  lemma {:induction false} ExitCodeOfPaths(fs: FileSystem, args: seq<string>, paths: seq<string>)
    requires paths == Discover(fs, EffectiveArgs(args))
    ensures ExitCode(fs, args) == 0 || ExitCode(fs, args) == 1
    ensures ExitCode(fs, args) == 1
            <==> exists k :: 0 <= k < |paths| && DirFailures(fs, Dirname(paths[k])) > 0
  {
    DirectoriesFail(fs, paths, GetTfDirectories(paths));
  }

  lemma {:induction false} SomeDirectoryUnused(fs: FileSystem, paths: seq<string>)
    ensures (exists k :: 0 <= k < |paths| && DirFailures(fs, Dirname(paths[k])) > 0)
            <==> exists k :: 0 <= k < |paths| && HasUnused(FindTfFiles(fs, Dirname(paths[k])))
  {
    if exists k :: 0 <= k < |paths| && DirFailures(fs, Dirname(paths[k])) > 0 {
      var k :| 0 <= k < |paths| && DirFailures(fs, Dirname(paths[k])) > 0;
      ScopeFailuresPositive(FindTfFiles(fs, Dirname(paths[k])));
    }
    if exists k :: 0 <= k < |paths| && HasUnused(FindTfFiles(fs, Dirname(paths[k]))) {
      var k :| 0 <= k < |paths| && HasUnused(FindTfFiles(fs, Dirname(paths[k])));
      ScopeFailuresPositive(FindTfFiles(fs, Dirname(paths[k])));
      assert DirFailures(fs, Dirname(paths[k])) > 0;
    }
  }

  /** Some directory of the list fails exactly when the directory of some
      file fails. */
  lemma {:induction false} DirectoriesFail(fs: FileSystem, paths: seq<string>, dirs: seq<string>)
    requires forall d :: d in dirs <==> exists k :: 0 <= k < |paths| && Dirname(paths[k]) == d
    ensures TotalFailures(fs, dirs) > 0
            <==> exists k :: 0 <= k < |paths| && DirFailures(fs, Dirname(paths[k])) > 0
  {
    var count := (d: string) => DirFailures(fs, d);
    SumOverPositive(dirs, count);
    if TotalFailures(fs, dirs) > 0 {
      var j :| 0 <= j < |dirs| && count(dirs[j]) > 0;
      assert dirs[j] in dirs;
      var k :| 0 <= k < |paths| && Dirname(paths[k]) == dirs[j];
      assert DirFailures(fs, Dirname(paths[k])) > 0;
    }
    if exists k :: 0 <= k < |paths| && DirFailures(fs, Dirname(paths[k])) > 0 {
      var k :| 0 <= k < |paths| && DirFailures(fs, Dirname(paths[k])) > 0;
      assert Dirname(paths[k]) in dirs;
      var j :| 0 <= j < |dirs| && dirs[j] == Dirname(paths[k]);
      assert count(dirs[j]) > 0;
    }
  }
}
