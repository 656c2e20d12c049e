/** What find_unused_vars and find_unused_locals compute for one directory,
    as functions of the directory's files: the declared names (with the file
    that declared them last), the referenced names, the skip directives, and
    the findings that follow from them. */
module Scan {
  import opened Patterns

  /** One configuration file: its path, its physical lines (without their
      line breaks), and the keys of its `locals` blocks in the order the
      HCL parser lists them. */
  datatype TfFile = TfFile(path: string, lines: seq<string>, localKeys: seq<string>)

  datatype SymbolKind = Variable | Local

  /** One logged `[<file>] Found unused <kind>: <name>`; skipped is the
      `[SKIPPED]` mark, which keeps the finding out of the failure count. */
  datatype Finding = Finding(kind: SymbolKind, name: string, file: string, skipped: bool)

  /** A Python dict from names to paths: its keys in insertion order and
      the mapping itself. */
  datatype Dict = Dict(keys: seq<string>, value: map<string, string>) {
    ghost predicate Valid() {
      && Distinct(keys)
      && (forall k :: k in value <==> k in keys)
    }

    /** d[k] = v: a new key goes to the end, an existing key keeps its place. */
    function Put(k: string, v: string): (d: Dict)
      requires Valid()
      ensures d.Valid()
      ensures k in d.value && d.value[k] == v
      ensures forall j :: j != k ==> (j in d.value <==> j in value)
      ensures forall j :: j != k && j in value ==> d.value[j] == value[j]
      ensures k in keys ==> d.keys == keys
      ensures k !in keys ==> d.keys == keys + [k]
    {
      if k in value then Dict(keys, value[k := v]) else Dict(keys + [k], value[k := v])
    }
  }

  const EmptyDict: Dict := Dict([], map[])

  /** No name occurs twice. */
  predicate Distinct(names: seq<string>) {
    forall i, j :: 0 <= i < j < |names| ==> names[i] != names[j]
  }

  // ---------------------------------------------------------------------
  // Lines

  /** [line.strip() for line in lines if line.strip()] */
  function Cleaned(lines: seq<string>): seq<string>
    decreases |lines|
  {
    if lines == [] then []
    else
      var t := Strip(lines[|lines| - 1]);
      Cleaned(lines[..|lines| - 1]) + (if t == [] then [] else [t])
  }

  /** The scanned lines are exactly the stripped non-blank physical lines. */
  lemma {:induction false} CleanedIff(lines: seq<string>, t: string)
    ensures t in Cleaned(lines) <==> t != [] && exists l :: l in lines && Strip(l) == t
    decreases |lines|
  {
    if lines != [] {
      var n := |lines| - 1;
      var init := lines[..n];
      CleanedIff(init, t);
      var s := Strip(lines[n]);
      assert Cleaned(lines) == Cleaned(init) + (if s == [] then [] else [s]);
      if t in Cleaned(init) {
        var l :| l in init && Strip(l) == t;
        assert l in lines;
      } else if t != [] && s != t {
        forall k | 0 <= k < |lines| ensures Strip(lines[k]) != t {
          if k < n {
            assert lines[k] == init[k] && init[k] in init;
          } else {
            assert k == n;
          }
        }
      }
    }
  }

  /** The names a header line declares: the capture of VARIABLE_DECL. */
  function HeaderName(line: string): seq<string> {
    match MatchVariableDecl(line)
    case Some(name) => [name]
    case None => []
  }

  /** What one line adds to `variables`: nothing on a header line (the
      `elif`), otherwise every VARIABLE match, comments included. */
  function VarLineRefs(line: string): seq<string> {
    if MatchVariableDecl(line).Some? then []
    else if Search(VariablePattern, line) then FindAll(VariablePattern, line)
    else []
  }

  /** What one line adds to `used_locals`: nothing on a skip line,
      otherwise every LOCAL match before the first '#'. */
  function LocalLineRefs(line: string): seq<string> {
    if Search(SkipPattern, line) then []
    else
      var code := RStrip(BeforeHash(line));
      if Search(LocalPattern, code) then FindAll(LocalPattern, code) else []
  }

  /** What one line adds to `skip_locals`. */
  function LineSkips(line: string): seq<string> {
    if Search(SkipPattern, line) then FindAll(SkipPattern, line) else []
  }

  // ---------------------------------------------------------------------
  // Gathering names from the lines of the files, in order

  function Gather(lines: seq<string>, extract: string -> seq<string>): seq<string>
    decreases |lines|
  {
    if lines == [] then []
    else Gather(lines[..|lines| - 1], extract) + extract(lines[|lines| - 1])
  }

  function GatherFiles(files: seq<TfFile>, extract: string -> seq<string>): seq<string>
    decreases |files|
  {
    if files == [] then []
    else GatherFiles(files[..|files| - 1], extract) + FileGather(files[|files| - 1], extract)
  }

  /** What the scanned lines of one file yield, in order. */
  function FileGather(f: TfFile, extract: string -> seq<string>): seq<string> {
    Gather(Cleaned(f.lines), extract)
  }

  lemma {:induction false} GatherIff(lines: seq<string>, extract: string -> seq<string>, name: string)
    ensures name in Gather(lines, extract) <==> exists l :: l in lines && name in extract(l)
    decreases |lines|
  {
    if lines != [] {
      var init := lines[..|lines| - 1];
      GatherIff(init, extract, name);
      assert forall l :: l in lines <==> l in init || l == lines[|lines| - 1];
    }
  }

  /** A name is gathered from the files exactly when some file yields it. */
  lemma {:induction false} GatherFilesIff(files: seq<TfFile>, extract: string -> seq<string>, name: string)
    ensures name in GatherFiles(files, extract)
            <==> exists i :: 0 <= i < |files| && name in FileGather(files[i], extract)
    decreases |files|
  {
    if files != [] {
      var n := |files| - 1;
      var init := files[..n];
      GatherFilesIff(init, extract, name);
      assert GatherFiles(files, extract) == GatherFiles(init, extract) + FileGather(files[n], extract);
      if name in GatherFiles(init, extract) {
        var i :| 0 <= i < n && name in FileGather(init[i], extract);
        assert init[i] == files[i];
      } else if name !in FileGather(files[n], extract) {
        forall i | 0 <= i < |files| ensures name !in FileGather(files[i], extract) {
          if i < n { assert init[i] == files[i]; } else { assert i == n; }
        }
      }
    }
  }

  /** ... and a file yields it exactly when one of its scanned lines does. */
  lemma {:induction false} FileGatherIff(f: TfFile, extract: string -> seq<string>, name: string)
    ensures name in FileGather(f, extract) <==> exists l :: l in Cleaned(f.lines) && name in extract(l)
  {
    GatherIff(Cleaned(f.lines), extract, name);
  }

  /** A name is gathered from the files exactly when some scanned line of
      some file yields it. */
  lemma {:induction false} GatherFilesLines(files: seq<TfFile>, extract: string -> seq<string>, name: string)
    ensures name in GatherFiles(files, extract)
            <==> exists i, line :: 0 <= i < |files| && line in Cleaned(files[i].lines) && name in extract(line)
  {
    GatherFilesIff(files, extract, name);
    if name in GatherFiles(files, extract) {
      var i :| 0 <= i < |files| && name in FileGather(files[i], extract);
      FileGatherIff(files[i], extract, name);
    }
    if exists i, line :: 0 <= i < |files| && line in Cleaned(files[i].lines) && name in extract(line) {
      var i, line :| 0 <= i < |files| && line in Cleaned(files[i].lines) && name in extract(line);
      FileGatherIff(files[i], extract, name);
    }
  }

  // ---------------------------------------------------------------------
  // Declarations: dict assignments in file order

  /** d[name] = path for each name in turn. */
  function DeclareAll(d: Dict, names: seq<string>, path: string): (r: Dict)
    requires d.Valid()
    ensures r.Valid()
    decreases |names|
  {
    if names == [] then d else DeclareAll(d, names[..|names| - 1], path).Put(names[|names| - 1], path)
  }

  /** The dict after every file has declared its names, in file order. */
  function Declarations(files: seq<TfFile>, namesOf: TfFile -> seq<string>): (r: Dict)
    ensures r.Valid()
    decreases |files|
  {
    if files == [] then EmptyDict
    else
      var last := files[|files| - 1];
      DeclareAll(Declarations(files[..|files| - 1], namesOf), namesOf(last), last.path)
  }

  /** The variable names a file declares, one per header line. */
  function VarNames(f: TfFile): seq<string> {
    FileGather(f, HeaderName)
  }

  /** The local names a file declares: the keys of its `locals` blocks. */
  function LocalNames(f: TfFile): seq<string> {
    f.localKeys
  }

  /** defined_variables, defined_locals, variables, used_locals, skip_locals */
  function VarDecls(files: seq<TfFile>): Dict { Declarations(files, VarNames) }
  function LocalDecls(files: seq<TfFile>): Dict { Declarations(files, LocalNames) }
  function VarRefs(files: seq<TfFile>): seq<string> { GatherFiles(files, VarLineRefs) }
  function LocalRefs(files: seq<TfFile>): seq<string> { GatherFiles(files, LocalLineRefs) }
  function SkipLocals(files: seq<TfFile>): seq<string> { GatherFiles(files, LineSkips) }

  lemma {:induction false} DeclareAllValue(d: Dict, names: seq<string>, path: string, name: string)
    requires d.Valid()
    ensures name in DeclareAll(d, names, path).value <==> name in d.value || name in names
    ensures name in names ==> DeclareAll(d, names, path).value[name] == path
    ensures name !in names && name in d.value ==> DeclareAll(d, names, path).value[name] == d.value[name]
    decreases |names|
  {
    if names != [] {
      var n := |names| - 1;
      var init := names[..n];
      DeclareAllValue(d, init, path, name);
      var before := DeclareAll(d, init, path);
      var after := before.Put(names[n], path);
      assert DeclareAll(d, names, path) == after;
      assert after.value == before.value[names[n] := path];
      assert names == init + [names[n]];
      assert name in names <==> name in init || name == names[n];
    }
  }

  /** A name is declared exactly when some file declares it. */
  lemma {:induction false} DeclaredIff(files: seq<TfFile>, namesOf: TfFile -> seq<string>, name: string)
    ensures name in Declarations(files, namesOf).value
            <==> exists i :: 0 <= i < |files| && name in namesOf(files[i])
    decreases |files|
  {
    if files != [] {
      var n := |files| - 1;
      var init := files[..n];
      DeclaredIff(init, namesOf, name);
      DeclareAllValue(Declarations(init, namesOf), namesOf(files[n]), files[n].path, name);
      assert Declarations(files, namesOf) == DeclareAll(Declarations(init, namesOf), namesOf(files[n]), files[n].path);
      if exists i :: 0 <= i < n && name in namesOf(init[i]) {
        var i :| 0 <= i < n && name in namesOf(init[i]);
        assert init[i] == files[i];
      }
      if exists i :: 0 <= i < |files| && name in namesOf(files[i]) {
        var i :| 0 <= i < |files| && name in namesOf(files[i]);
        if i < n {
          assert init[i] == files[i];
        }
      }
    }
  }

  /** The recorded file of a name is the last file, in list order, that
      declares it. */
  lemma {:induction false} DeclaredFileIsLast(files: seq<TfFile>, namesOf: TfFile -> seq<string>, name: string, i: nat)
    requires i < |files| && name in namesOf(files[i])
    requires forall k :: i < k < |files| ==> name !in namesOf(files[k])
    ensures name in Declarations(files, namesOf).value
    ensures Declarations(files, namesOf).value[name] == files[i].path
    decreases |files|
  {
    var n := |files| - 1;
    var before := Declarations(files[..n], namesOf);
    DeclareAllValue(before, namesOf(files[n]), files[n].path, name);
    if i < n {
      assert forall k :: i < k < n ==> files[..n][k] == files[k];
      DeclaredFileIsLast(files[..n], namesOf, name, i);
    }
  }

  // ---------------------------------------------------------------------
  // Resolution

  /** The reporting loop: for each declared name, in insertion order, that
      is not used, one finding, marked skipped when a directive names it. */
  function Report(kind: SymbolKind, keys: seq<string>, value: map<string, string>,
                  used: seq<string>, skips: seq<string>): seq<Finding>
    requires forall k :: k in keys ==> k in value
    decreases |keys|
  {
    if keys == [] then []
    else
      var k := keys[|keys| - 1];
      Report(kind, keys[..|keys| - 1], value, used, skips)
        + (if k in used then [] else [Finding(kind, k, value[k], k in skips)])
  }

  /** The number of findings that count towards `found`. */
  function Failures(findings: seq<Finding>): nat
    decreases |findings|
  {
    if findings == [] then 0
    else Failures(findings[..|findings| - 1]) + (if findings[|findings| - 1].skipped then 0 else 1)
  }

  /** What find_unused_vars logs for one directory; every one of them adds
      1 to `found`. */
  function UnusedVariables(files: seq<TfFile>): seq<Finding> {
    var d := VarDecls(files);
    Report(Variable, d.keys, d.value, VarRefs(files), [])
  }

  /** What find_unused_locals logs for one directory; the ones not skipped
      add 1 to `found`. */
  function UnusedLocals(files: seq<TfFile>): seq<Finding> {
    var d := LocalDecls(files);
    Report(Local, d.keys, d.value, LocalRefs(files), SkipLocals(files))
  }

  /** Every finding is an unused declared name, with its recorded file and
      its skip mark; every unused declared name has a finding. */
  lemma {:induction false} ReportIff(kind: SymbolKind, keys: seq<string>, value: map<string, string>,
                                     used: seq<string>, skips: seq<string>, name: string)
    requires forall k :: k in keys ==> k in value
    ensures (exists f :: f in Report(kind, keys, value, used, skips) && f.name == name)
            <==> name in keys && name !in used
    ensures forall f :: f in Report(kind, keys, value, used, skips) ==>
              f.kind == kind && f.name in keys && f.name !in used
              && f.file == value[f.name] && f.skipped == (f.name in skips)
    decreases |keys|
  {
    if keys != [] {
      var init := keys[..|keys| - 1];
      ReportIff(kind, init, value, used, skips, name);
      assert forall x :: x in keys <==> x in init || x == keys[|keys| - 1];
    }
  }

  /** The declared names that are neither used nor skipped. */
  function Unresolved(keys: seq<string>, used: seq<string>, skips: seq<string>): set<string> {
    set k | k in keys && k !in used && k !in skips
  }

  lemma {:induction false} UnresolvedSnoc(keys: seq<string>, k: string, used: seq<string>, skips: seq<string>)
    requires k !in keys
    ensures |Unresolved(keys + [k], used, skips)|
            == |Unresolved(keys, used, skips)| + (if k in used || k in skips then 0 else 1)
  {
    assert forall x :: x in keys + [k] <==> x in keys || x == k;
    if k in used || k in skips {
      assert Unresolved(keys + [k], used, skips) == Unresolved(keys, used, skips);
    } else {
      assert Unresolved(keys + [k], used, skips) == Unresolved(keys, used, skips) + {k};
    }
  }

  /** The failure count of the findings for distinct declared names is the
      number of those names that are neither used nor skipped. */
  lemma {:induction false} ReportFailures(kind: SymbolKind, keys: seq<string>, value: map<string, string>,
                                          used: seq<string>, skips: seq<string>)
    requires forall k :: k in keys ==> k in value
    requires Distinct(keys)
    ensures Failures(Report(kind, keys, value, used, skips)) == |Unresolved(keys, used, skips)|
    decreases |keys|
  {
    if keys != [] {
      var n := |keys| - 1;
      DistinctPrefix(keys, value);
      ReportFailures(kind, keys[..n], value, used, skips);
      UnresolvedSnoc(keys[..n], keys[n], used, skips);
      ReportSnoc(kind, keys, value, used, skips);
    }
  }

  lemma {:induction false} DistinctPrefix(keys: seq<string>, value: map<string, string>)
    requires keys != []
    requires forall k :: k in keys ==> k in value
    requires Distinct(keys)
    ensures keys == keys[..|keys| - 1] + [keys[|keys| - 1]]
    ensures forall k :: k in keys[..|keys| - 1] ==> k in value
    ensures Distinct(keys[..|keys| - 1])
    ensures keys[|keys| - 1] !in keys[..|keys| - 1]
  {
    var n := |keys| - 1;
    assert forall k :: k in keys[..n] ==> k in keys;
    assert forall k :: 0 <= k < n ==> keys[..n][k] == keys[k] != keys[n];
  }

  /** One more declared name adds one finding when it is unused, and the
      finding counts unless the name is skipped. */
  lemma {:induction false} ReportSnoc(kind: SymbolKind, keys: seq<string>, value: map<string, string>,
                   used: seq<string>, skips: seq<string>)
    requires keys != []
    requires forall k :: k in keys ==> k in value
    ensures var last := keys[|keys| - 1];
            Failures(Report(kind, keys, value, used, skips))
            == Failures(Report(kind, keys[..|keys| - 1], value, used, skips))
               + (if last in used || last in skips then 0 else 1)
  {
    var n := |keys| - 1;
    var last := keys[n];
    var r := Report(kind, keys[..n], value, used, skips);
    if last !in used {
      FailuresSnoc(r, Finding(kind, last, value[last], last in skips));
    } else {
      assert r + [] == r;
    }
  }

  lemma {:induction false} FailuresSnoc(a: seq<Finding>, x: Finding)
    ensures Failures(a + [x]) == Failures(a) + (if x.skipped then 0 else 1)
  {
    assert (a + [x])[..|a|] == a;
  }

  /** Without skips every finding counts. */
  lemma {:induction false} FailuresAllCount(findings: seq<Finding>)
    requires forall f :: f in findings ==> !f.skipped
    ensures Failures(findings) == |findings|
    decreases |findings|
  {
    if findings != [] {
      var init := findings[..|findings| - 1];
      assert forall f :: f in init ==> f in findings;
      FailuresAllCount(init);
    }
  }

  // ---------------------------------------------------------------------
  // find_unused_vars

  /** A variable is declared in the directory exactly when some scanned
      line of some file is a declaration header of that name. */
  lemma {:induction false} VariableDeclaredIff(files: seq<TfFile>, name: string)
    ensures name in VarDecls(files).value
            <==> exists i, line :: 0 <= i < |files| && line in Cleaned(files[i].lines)
                                   && MatchVariableDecl(line) == Some(name)
  {
    DeclaredIff(files, VarNames, name);
    if name in VarDecls(files).value {
      var i :| 0 <= i < |files| && name in VarNames(files[i]);
      FileGatherIff(files[i], HeaderName, name);
      var line :| line in Cleaned(files[i].lines) && name in HeaderName(line);
      assert MatchVariableDecl(line) == Some(name);
    }
    if exists i, line :: 0 <= i < |files| && line in Cleaned(files[i].lines)
                         && MatchVariableDecl(line) == Some(name) {
      var i, line :| 0 <= i < |files| && line in Cleaned(files[i].lines)
                     && MatchVariableDecl(line) == Some(name);
      FileGatherIff(files[i], HeaderName, name);
      assert name in HeaderName(line);
    }
  }

  /** The file recorded for a variable is the last file that declares it. */
  lemma {:induction false} VariableFileIsLast(files: seq<TfFile>, name: string, i: nat, line: string)
    requires i < |files| && line in Cleaned(files[i].lines) && MatchVariableDecl(line) == Some(name)
    requires forall k, l :: i < k < |files| && l in Cleaned(files[k].lines) ==> MatchVariableDecl(l) != Some(name)
    ensures name in VarDecls(files).value && VarDecls(files).value[name] == files[i].path
  {
    FileGatherIff(files[i], HeaderName, name);
    assert name in HeaderName(line);
    forall k | i < k < |files| ensures name !in VarNames(files[k]) {
      FileGatherIff(files[k], HeaderName, name);
      forall l | l in Cleaned(files[k].lines) ensures name !in HeaderName(l) {
        assert MatchVariableDecl(l) != Some(name);
      }
    }
    DeclaredFileIsLast(files, VarNames, name, i);
  }

  /** A variable is referenced exactly when some scanned line that is not a
      declaration header holds `var.<name>`. */
  lemma {:induction false} VariableReferencedIff(files: seq<TfFile>, name: string)
    ensures name in VarRefs(files)
            <==> exists i, line :: 0 <= i < |files| && line in Cleaned(files[i].lines)
                                   && MatchVariableDecl(line).None? && name in FindAll(VariablePattern, line)
  {
    GatherFilesLines(files, VarLineRefs, name);
    if name in VarRefs(files) {
      var i, line :| 0 <= i < |files| && line in Cleaned(files[i].lines) && name in VarLineRefs(line);
      SearchIffFindAll(VariablePattern, line);
    }
    if exists i, line :: 0 <= i < |files| && line in Cleaned(files[i].lines)
                         && MatchVariableDecl(line).None? && name in FindAll(VariablePattern, line) {
      var i, line :| 0 <= i < |files| && line in Cleaned(files[i].lines)
                     && MatchVariableDecl(line).None? && name in FindAll(VariablePattern, line);
      SearchIffFindAll(VariablePattern, line);
      assert name in VarLineRefs(line);
    }
  }

  /** find_unused_vars reports a name exactly when it is declared and
      referenced nowhere in the directory; each report carries the
      recorded file and is never skipped. */
  lemma {:induction false} UnusedVariablesIff(files: seq<TfFile>, name: string)
    ensures (exists f :: f in UnusedVariables(files) && f.name == name)
            <==> name in VarDecls(files).value && name !in VarRefs(files)
    ensures forall f :: f in UnusedVariables(files) ==>
              f.kind == Variable && !f.skipped && f.name in VarDecls(files).value
              && f.file == VarDecls(files).value[f.name]
  {
    var d := VarDecls(files);
    ReportIff(Variable, d.keys, d.value, VarRefs(files), [], name);
  }

  /** find_unused_vars adds to `found` exactly the number of distinct
      declared variables that no file references. */
  lemma {:induction false} UnusedVariablesCount(files: seq<TfFile>)
    ensures Failures(UnusedVariables(files)) == |UnusedVariables(files)|
    ensures |UnusedVariables(files)|
            == |set k | k in VarDecls(files).value && k !in VarRefs(files)|
  {
    var d := VarDecls(files);
    var refs := VarRefs(files);
    var findings := UnusedVariables(files);
    forall f | f in findings ensures !f.skipped {
      ReportIff(Variable, d.keys, d.value, refs, [], f.name);
    }
    FailuresAllCount(findings);
    ReportFailures(Variable, d.keys, d.value, refs, []);
    assert Unresolved(d.keys, refs, []) == (set k | k in d.value && k !in refs);
  }

  /** A header line adds no reference, whatever follows its brace. */
  lemma {:induction false} HeaderLineAddsNoReference(w1: string, name: string, w2: string, rest: string)
    requires |w1| > 0 && AllSpace(w1) && IsName(name) && |w2| > 0 && AllSpace(w2)
    ensures VarLineRefs(HeaderLine(w1, name, w2, rest)) == []
  {
    HeaderRecognised(w1, name, w2, rest);
  }

  /** On a line that is not a header a commented-out `var.<name>` still
      counts: comments are not cut for variables. */
  lemma {:induction false} CommentedVariableCounts(u: string, name: string, v: string)
    requires IsName(name)
    requires MatchVariableDecl(u + "#" + VariablePattern + name + " " + v).None?
    ensures name in VarLineRefs(u + "#" + VariablePattern + name + " " + v)
  {
    var line := u + "#" + VariablePattern + name + " " + v;
    assert line == u + ['#'] + VariablePattern + name + ([' '] + v);
    MatchIsFound(VariablePattern, u, '#', name, [' '] + v);
    SearchIffFindAll(VariablePattern, line);
  }

  /** No word boundary is needed before `var.`: `myvar.x` refers to x. */
  lemma {:induction false} NoWordBoundaryBeforeVar(u: string, name: string)
    requires forall k :: 0 <= k < |u| ==> IsWordChar(u[k])
    requires IsName(name)
    ensures FindAll(VariablePattern, u + VariablePattern + name) == [name]
    decreases |u|
  {
    var p := VariablePattern;
    var s := u + p + name;
    if u == [] {
      assert s == p + name;
      FindAllSingle(p, name);
    } else {
      assert s[3] != '.' by {
        if |u| > 3 { assert s[3] == u[3]; } else { assert s[3] == p[3 - |u|]; }
      }
      assert s[..|p|][3] == s[3];
      assert s[1..] == u[1..] + p + name;
      NoWordBoundaryBeforeVar(u[1..], name);
    }
  }

  // ---------------------------------------------------------------------
  // find_unused_locals

  /** A local is declared exactly when some file's `locals` blocks hold it. */
  lemma {:induction false} LocalDeclaredIff(files: seq<TfFile>, name: string)
    ensures name in LocalDecls(files).value
            <==> exists i :: 0 <= i < |files| && name in files[i].localKeys
  {
    DeclaredIff(files, LocalNames, name);
  }

  /** The file recorded for a local is the last file that declares it. */
  lemma {:induction false} LocalFileIsLast(files: seq<TfFile>, name: string, i: nat)
    requires i < |files| && name in files[i].localKeys
    requires forall k :: i < k < |files| ==> name !in files[k].localKeys
    ensures name in LocalDecls(files).value && LocalDecls(files).value[name] == files[i].path
  {
    DeclaredFileIsLast(files, LocalNames, name, i);
  }

  /** A local is referenced exactly when some scanned line without a skip
      directive holds `local.<name>` before its first '#'. */
  lemma {:induction false} LocalReferencedIff(files: seq<TfFile>, name: string)
    ensures name in LocalRefs(files)
            <==> exists i, line :: 0 <= i < |files| && line in Cleaned(files[i].lines)
                                   && !Search(SkipPattern, line) && name in FindAll(LocalPattern, BeforeHash(line))
  {
    GatherFilesLines(files, LocalLineRefs, name);
    if name in LocalRefs(files) {
      var i, line :| 0 <= i < |files| && line in Cleaned(files[i].lines) && name in LocalLineRefs(line);
      LocalLineRefsIff(line, name);
    }
    if exists i, line :: 0 <= i < |files| && line in Cleaned(files[i].lines)
                         && !Search(SkipPattern, line) && name in FindAll(LocalPattern, BeforeHash(line)) {
      var i, line :| 0 <= i < |files| && line in Cleaned(files[i].lines)
                     && !Search(SkipPattern, line) && name in FindAll(LocalPattern, BeforeHash(line));
      LocalLineRefsIff(line, name);
    }
  }

  lemma {:induction false} LocalLineRefsIff(line: string, name: string)
    ensures name in LocalLineRefs(line)
            <==> !Search(SkipPattern, line) && name in FindAll(LocalPattern, BeforeHash(line))
  {
    var code := RStrip(BeforeHash(line));
    SearchIffFindAll(LocalPattern, code);
    FindAllRStrip(LocalPattern, BeforeHash(line));
  }

  /** A local is skipped exactly when some scanned line holds the directive
      `#terraform_unused_vars:skip=local.<name>`. */
  lemma {:induction false} SkippedIff(files: seq<TfFile>, name: string)
    ensures name in SkipLocals(files)
            <==> exists i, line :: 0 <= i < |files| && line in Cleaned(files[i].lines)
                                   && name in FindAll(SkipPattern, line)
  {
    GatherFilesLines(files, LineSkips, name);
    if name in SkipLocals(files) {
      var i, line :| 0 <= i < |files| && line in Cleaned(files[i].lines) && name in LineSkips(line);
      SearchIffFindAll(SkipPattern, line);
    }
    if exists i, line :: 0 <= i < |files| && line in Cleaned(files[i].lines)
                         && name in FindAll(SkipPattern, line) {
      var i, line :| 0 <= i < |files| && line in Cleaned(files[i].lines) && name in FindAll(SkipPattern, line);
      SearchIffFindAll(SkipPattern, line);
      assert name in LineSkips(line);
    }
  }

  /** A skip line records its directives and no reference, even when it
      also holds `local.<name>` text. */
  lemma {:induction false} SkipLineAddsNoReference(line: string)
    requires Search(SkipPattern, line)
    ensures LocalLineRefs(line) == []
    ensures LineSkips(line) == FindAll(SkipPattern, line) != []
  {
    SearchIffFindAll(SkipPattern, line);
  }

  /** On any other line only the text before the first '#' is searched: a
      reference after it is not counted. */
  lemma {:induction false} CommentedLocalIgnored(u: string, v: string)
    requires '#' !in u
    requires !Search(SkipPattern, u + "#" + v)
    ensures LocalLineRefs(u + "#" + v) == FindAll(LocalPattern, u)
  {
    CommentCut(u, v);
    SearchIffFindAll(LocalPattern, RStrip(u));
    FindAllRStrip(LocalPattern, u);
  }

  /** For each declared local: a referenced one is never reported; an
      unreferenced one is reported once, marked skipped exactly when a
      directive names it, with its recorded file. */
  lemma {:induction false} UnusedLocalsIff(files: seq<TfFile>, name: string)
    ensures (exists f :: f in UnusedLocals(files) && f.name == name)
            <==> name in LocalDecls(files).value && name !in LocalRefs(files)
    ensures forall f :: f in UnusedLocals(files) ==>
              f.kind == Local && f.skipped == (f.name in SkipLocals(files))
              && f.name in LocalDecls(files).value && f.file == LocalDecls(files).value[f.name]
  {
    var d := LocalDecls(files);
    ReportIff(Local, d.keys, d.value, LocalRefs(files), SkipLocals(files), name);
  }

  /** find_unused_locals adds to `found` exactly the number of distinct
      declared locals that are neither referenced nor skipped. */
  lemma {:induction false} UnusedLocalsCount(files: seq<TfFile>)
    ensures Failures(UnusedLocals(files))
            == |set k | k in LocalDecls(files).value && k !in LocalRefs(files) && k !in SkipLocals(files)|
  {
    var d := LocalDecls(files);
    ReportFailures(Local, d.keys, d.value, LocalRefs(files), SkipLocals(files));
    assert Unresolved(d.keys, LocalRefs(files), SkipLocals(files))
        == (set k | k in d.value && k !in LocalRefs(files) && k !in SkipLocals(files));
  }

  // ---------------------------------------------------------------------
  // One more line, file or key: how the loops of the scanners extend the
  // functions above

  lemma {:induction false} GatherSnoc(lines: seq<string>, j: nat, extract: string -> seq<string>)
    requires j < |lines|
    ensures Gather(lines[..j + 1], extract) == Gather(lines[..j], extract) + extract(lines[j])
  {
    assert lines[..j + 1][..j] == lines[..j];
  }

  lemma {:induction false} GatherFilesSnoc(files: seq<TfFile>, i: nat, extract: string -> seq<string>)
    requires i < |files|
    ensures GatherFiles(files[..i + 1], extract) == GatherFiles(files[..i], extract) + FileGather(files[i], extract)
  {
    assert files[..i + 1][..i] == files[..i];
  }

  lemma {:induction false} DeclareAllSnoc(d: Dict, names: seq<string>, x: string, path: string)
    requires d.Valid()
    ensures DeclareAll(d, names + [x], path) == DeclareAll(d, names, path).Put(x, path)
  {
    assert (names + [x])[..|names|] == names;
  }

  /** Declaring the names a line yields (none or one) after the names
      before it. */
  lemma {:induction false} DeclareAllAppendLine(d: Dict, a: seq<string>, b: seq<string>, path: string)
    requires d.Valid() && |b| <= 1
    ensures DeclareAll(d, a + b, path) == DeclareAll(DeclareAll(d, a, path), b, path)
  {
    if b == [] {
      assert a + b == a;
    } else {
      assert b == [] + [b[0]];
      DeclareAllSnoc(d, a, b[0], path);
      DeclareAllSnoc(DeclareAll(d, a, path), [], b[0], path);
    }
  }

  lemma {:induction false} ConcatAssoc(a: seq<string>, b: seq<string>, c: seq<string>)
    ensures a + (b + c) == (a + b) + c
  {
  }

  lemma {:induction false} DeclarationsSnoc(files: seq<TfFile>, i: nat, namesOf: TfFile -> seq<string>)
    requires i < |files|
    ensures Declarations(files[..i + 1], namesOf)
            == DeclareAll(Declarations(files[..i], namesOf), namesOf(files[i]), files[i].path)
  {
    assert files[..i + 1][..i] == files[..i];
  }

  lemma {:induction false} ReportPrefixSnoc(kind: SymbolKind, keys: seq<string>, k: nat, value: map<string, string>,
                         used: seq<string>, skips: seq<string>)
    requires k < |keys| && forall x :: x in keys ==> x in value
    ensures forall x :: x in keys[..k + 1] ==> x in value
    ensures forall x :: x in keys[..k] ==> x in value
    ensures Report(kind, keys[..k + 1], value, used, skips)
            == Report(kind, keys[..k], value, used, skips)
               + (if keys[k] in used then [] else [Finding(kind, keys[k], value[keys[k]], keys[k] in skips)])
  {
    assert forall x :: x in keys[..k + 1] ==> x in keys;
    assert keys[..k + 1][..k] == keys[..k];
  }
}
