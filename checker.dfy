/** The module-level `found` counter and the two scanners that add to it,
    written as the loops of find_unused_vars and find_unused_locals and
    proved to compute the findings that Scan defines. */
module Checker {
  import opened Patterns
  import opened Scan

  /** One scanned line in find_unused_vars: a header line records its
      variable in the dict, any other line adds every `var.<name>` it
      holds, comments included. */
  method ScanVarLine(line: string, path: string, defined: Dict, variables: seq<string>)
    returns (defined': Dict, variables': seq<string>)
    requires defined.Valid()
    ensures defined' == DeclareAll(defined, HeaderName(line), path)
    ensures variables' == variables + VarLineRefs(line)
  {
    var decl := MatchVariableDecl(line);
    if decl.Some? {
      defined' := defined.Put(decl.value, path);
      variables' := variables;
      assert [decl.value][..0] == [];
      assert variables + [] == variables;
    } else if Search(VariablePattern, line) {
      defined' := defined;
      variables' := variables + FindAll(VariablePattern, line);
    } else {
      defined' := defined;
      variables' := variables;
      assert variables + [] == variables;
    }
  }

  /** The loop over the scanned lines of one file in find_unused_vars. */
  method ScanVarLines(data: seq<string>, path: string, defined: Dict, variables: seq<string>)
    returns (defined': Dict, variables': seq<string>)
    requires defined.Valid()
    ensures defined' == DeclareAll(defined, Gather(data, HeaderName), path)
    ensures variables' == variables + Gather(data, VarLineRefs)
  {
    defined', variables' := defined, variables;
    for j := 0 to |data|
      invariant defined' == DeclareAll(defined, Gather(data[..j], HeaderName), path)
      invariant variables' == variables + Gather(data[..j], VarLineRefs)
    {
      GatherSnoc(data, j, HeaderName);
      GatherSnoc(data, j, VarLineRefs);
      DeclareAllAppendLine(defined, Gather(data[..j], HeaderName), HeaderName(data[j]), path);
      ConcatAssoc(variables, Gather(data[..j], VarLineRefs), VarLineRefs(data[j]));
      defined', variables' := ScanVarLine(data[j], path, defined', variables');
    }
    assert data[..|data|] == data;
  }

  /** The loop over the files in find_unused_vars. */
  method CollectVars(files: seq<TfFile>) returns (defined: Dict, variables: seq<string>)
    ensures defined == VarDecls(files)
    ensures variables == VarRefs(files)
  {
    defined, variables := EmptyDict, [];
    for i := 0 to |files|
      invariant defined == VarDecls(files[..i])
      invariant variables == VarRefs(files[..i])
    {
      DeclarationsSnoc(files, i, VarNames);
      GatherFilesSnoc(files, i, VarLineRefs);
      var data := Cleaned(files[i].lines);
      defined, variables := ScanVarLines(data, files[i].path, defined, variables);
    }
    assert files[..|files|] == files;
  }

  /** One scanned line in find_unused_locals: a line with a skip directive
      records the directives, any other line adds every `local.<name>`
      before its first '#'. */
  method ScanLocalLine(line: string, used: seq<string>, skips: seq<string>)
    returns (used': seq<string>, skips': seq<string>)
    ensures used' == used + LocalLineRefs(line)
    ensures skips' == skips + LineSkips(line)
  {
    used', skips' := used, skips;
    if Search(SkipPattern, line) {
      skips' := skips + FindAll(SkipPattern, line);
      assert used + [] == used;
    } else {
      assert skips + [] == skips;
      var code := BeforeHash(line);
      code := RStrip(code);
      if Search(LocalPattern, code) {
        used' := used + FindAll(LocalPattern, code);
      } else {
        assert used + [] == used;
      }
    }
  }

  /** The loop over the scanned lines of one file in find_unused_locals. */
  method ScanLocalLines(data: seq<string>, used: seq<string>, skips: seq<string>)
    returns (used': seq<string>, skips': seq<string>)
    ensures used' == used + Gather(data, LocalLineRefs)
    ensures skips' == skips + Gather(data, LineSkips)
  {
    used', skips' := used, skips;
    for j := 0 to |data|
      invariant used' == used + Gather(data[..j], LocalLineRefs)
      invariant skips' == skips + Gather(data[..j], LineSkips)
    {
      GatherSnoc(data, j, LocalLineRefs);
      GatherSnoc(data, j, LineSkips);
      ConcatAssoc(used, Gather(data[..j], LocalLineRefs), LocalLineRefs(data[j]));
      ConcatAssoc(skips, Gather(data[..j], LineSkips), LineSkips(data[j]));
      used', skips' := ScanLocalLine(data[j], used', skips');
    }
    assert data[..|data|] == data;
  }

  /** The loop over the parsed `locals` keys of one file. */
  method DeclareLocals(f: TfFile, defined: Dict) returns (defined': Dict)
    requires defined.Valid()
    ensures defined' == DeclareAll(defined, LocalNames(f), f.path)
  {
    defined' := defined;
    for k := 0 to |f.localKeys|
      invariant defined' == DeclareAll(defined, f.localKeys[..k], f.path)
    {
      assert f.localKeys[..k + 1] == f.localKeys[..k] + [f.localKeys[k]];
      DeclareAllSnoc(defined, f.localKeys[..k], f.localKeys[k], f.path);
      defined' := defined'.Put(f.localKeys[k], f.path);
    }
    assert f.localKeys[..|f.localKeys|] == f.localKeys;
  }

  /** The loop over the files in find_unused_locals. */
  method CollectLocals(files: seq<TfFile>) returns (defined: Dict, used: seq<string>, skips: seq<string>)
    ensures defined == LocalDecls(files)
    ensures used == LocalRefs(files)
    ensures skips == SkipLocals(files)
  {
    defined, used, skips := EmptyDict, [], [];
    for i := 0 to |files|
      invariant defined == LocalDecls(files[..i])
      invariant used == LocalRefs(files[..i])
      invariant skips == SkipLocals(files[..i])
    {
      DeclarationsSnoc(files, i, LocalNames);
      GatherFilesSnoc(files, i, LocalLineRefs);
      GatherFilesSnoc(files, i, LineSkips);
      defined := DeclareLocals(files[i], defined);
      var data := Cleaned(files[i].lines);
      used, skips := ScanLocalLines(data, used, skips);
    }
    assert files[..|files|] == files;
  }

  class Checker {
    /** The number of failures reported so far; the exit status is 1 when
        it is positive. */
    var found: nat

    constructor()
      ensures found == 0
    {
      found := 0;
    }

    /** find_unused_vars: report every declared variable that is never
        referenced, in declaration order; each report adds 1 to `found`. */
    method FindUnusedVars(files: seq<TfFile>) returns (findings: seq<Finding>)
      modifies this
      ensures findings == UnusedVariables(files)
      ensures found == old(found) + |findings|
    {
      var defined, variables := CollectVars(files);
      findings := [];
      var keys := defined.keys;
      for k := 0 to |keys|
        invariant findings == Report(Variable, keys[..k], defined.value, variables, [])
        invariant found == old(found) + |findings|
      {
        ReportPrefixSnoc(Variable, keys, k, defined.value, variables, []);
        var name := keys[k];
        if name !in variables {
          findings := findings + [Finding(Variable, name, defined.value[name], false)];
          found := found + 1;
        } else {
          assert findings + [] == findings;
        }
      }
      assert keys[..|keys|] == keys;
    }

    /** find_unused_locals: report every declared local that is never
        referenced, in declaration order; only the reports without a skip
        directive add 1 to `found`. */
    method FindUnusedLocals(files: seq<TfFile>) returns (findings: seq<Finding>)
      modifies this
      ensures findings == UnusedLocals(files)
      ensures found == old(found) + Failures(findings)
    {
      var defined, used, skips := CollectLocals(files);
      findings := [];
      var keys := defined.keys;
      for k := 0 to |keys|
        invariant findings == Report(Local, keys[..k], defined.value, used, skips)
        invariant found == old(found) + Failures(findings)
      {
        ReportPrefixSnoc(Local, keys, k, defined.value, used, skips);
        var name := keys[k];
        if name !in used {
          var skipped := name in skips;
          FailuresSnoc(findings, Finding(Local, name, defined.value[name], skipped));
          findings := findings + [Finding(Local, name, defined.value[name], skipped)];
          if !skipped {
            found := found + 1;
          }
        } else {
          assert findings + [] == findings;
        }
      }
      assert keys[..|keys|] == keys;
    }
  }
}
