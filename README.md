# terraform_unused_vars, modelled in Dafny

`terraform_unused_vars` is a command-line linter for Terraform. It reports
input variables (`variable "x" { … }`) and locals (keys of `locals { … }`
blocks) that are declared but never referenced within the same directory. It
exits with status 1 when it has counted at least one such name and with 0
otherwise.

This project models its single source file, `terraform_unused_vars/__main__.py`:

- `patterns.dfy` (module `Patterns`) holds the text handling.
  - `str.strip()`/`rstrip()`, using Python's exact `isspace` set, which is also what `\s` matches.
  - The `#` cut `split('#', 1)[0]`.
  - `re.search`/`re.findall` of the three reference patterns `var.`, `local.` and `#terraform_unused_vars:skip=local.` followed by `([\w_]+)`. `FindAll` is a left-to-right scanner.
  - `re.match` of the declaration header `^variable\s+"([\w_]+)"\s+{`, written as a staged recogniser.
- `scan.dfy` (module `Scan`) holds the two scans as specification functions over a directory's files.
  - The declarations go into a dict that keeps Python's insertion order (`Dict`).
  - The references are gathered per cleaned line.
  - The reporting loop yields one `Finding` per unused name. Its `skipped` mark keeps it out of the failure count.
- `checker.dfy` (module `Checker`) holds the imperative form of `find_unused_vars` and `find_unused_locals`.
  - The module-global counter `found` becomes the field of the class `Checker`.
  - Each scan is a method with loops over the files, the lines and the declared names.
  - Each method is proved equal to the specification functions of `Scan` and to add exactly the unskipped findings to `found`.
- `driver.dfy` (module `Driver`) holds the rest of the program.
  - `os.path.dirname`, `get_tf_directories`, `find_tf_files` and the argument default `['./**']`.
  - The discovery loop, the per-directory loop of `main()`, and the exit status.

The file system is a value, `FileSystem`. It holds the set of existing plain files and what each glob pattern returns. A file is a `TfFile`: its path, its lines, and the keys of its `locals` blocks as the HCL parser would return them.

The model follows the code where a plain-language description of the tool would differ:
- A variable counts as used only on a line that is not itself a declaration header. This is the `elif` at line 102.
- On those lines, text after `#` still counts for variables.
- For locals, text after the first `#` does not count, and neither does any line carrying a skip directive.
- No word boundary is required before `var.` or `local.`, so `myvar.x` references `x`.

## Model

| member | source | states |
|---|---|---|
| Patterns.LStrip | terraform_unused_vars/__main__.py:97 | the result is a suffix of the line, everything dropped is whitespace, and it starts with a non-space |
| Patterns.RStrip | terraform_unused_vars/__main__.py:62 | the result is a prefix of the line, everything dropped is whitespace, and it ends with a non-space |
| Patterns.StripSpec | terraform_unused_vars/__main__.py:54 | `strip()` is empty exactly when the line is blank; otherwise it neither starts nor ends with whitespace, and it is the line with only whitespace removed on either side |
| Patterns.BeforeHash | terraform_unused_vars/__main__.py:61 | `split('#', 1)[0]` is the prefix before the first `#`, contains no `#`, and is the whole line when there is none |
| Patterns.CommentCut | terraform_unused_vars/__main__.py:61 | cutting `u#v`, where `u` has no `#`, yields exactly `u` |
| Patterns.WordRun | terraform_unused_vars/__main__.py:10 | the greedy `[\w_]+` run: every character in it is a word character and the next one is not |
| Patterns.FindAllSound | terraform_unused_vars/__main__.py:103 | every name `re.findall` returns stands in the line right after the pattern's prefix, as a maximal run of word characters |
| Patterns.SearchIffFindAll | terraform_unused_vars/__main__.py:102-103 | `re.search` succeeds exactly when `re.findall` returns a non-empty list |
| Patterns.FindAllSpaces | terraform_unused_vars/__main__.py:103 | a whitespace-only text has no matches |
| Patterns.FindAllSplit | terraform_unused_vars/__main__.py:103 | a non-word separator that does not occur in the prefix splits the matches: `findall(u c v) == findall(u) + findall(v)` |
| Patterns.FindAllSingle | terraform_unused_vars/__main__.py:10 | the prefix followed by a name yields exactly that name |
| Patterns.FindAllHead | terraform_unused_vars/__main__.py:10 | the prefix, a name and then the end of the text or a non-word character yield that name first, followed by the matches of the rest |
| Patterns.MatchIsFound | terraform_unused_vars/__main__.py:103 | a reference after a non-word separator that does not occur in the prefix, and ending at the end of the text or at any non-word character (such as the `.` of `local.m.k`), is found in its place among the matches before and after it |
| Patterns.AttributeAccessFound | terraform_unused_vars/__main__.py:10 | `a = local.m.k` yields exactly `m` |
| Patterns.FindAllRStrip | terraform_unused_vars/__main__.py:62-64 | the `rstrip()` after the `#` cut changes no match |
| Patterns.OpenBraceRecognised | terraform_unused_vars/__main__.py:9 | the tail `\s+{` of the header pattern accepts non-empty whitespace followed by a brace |
| Patterns.OpensBlockSound | terraform_unused_vars/__main__.py:9 | whatever the tail `\s+{` accepts is non-empty whitespace, a brace and anything after it |
| Patterns.QuotedTailRecognised | terraform_unused_vars/__main__.py:9 | the part `([\w_]+)"\s+{` captures the name in front of the closing quote |
| Patterns.QuotedTailSound | terraform_unused_vars/__main__.py:9 | whatever `([\w_]+)"\s+{` accepts is a name, a quote, whitespace and a brace |
| Patterns.KeywordTailRecognised | terraform_unused_vars/__main__.py:9 | the part after `variable` accepts whitespace, the quoted name, whitespace and a brace, and captures the name |
| Patterns.KeywordTailSound | terraform_unused_vars/__main__.py:9 | whatever the part after `variable` accepts has that shape |
| Patterns.HeaderRecognised | terraform_unused_vars/__main__.py:99-101 | every `variable<ws>"<name>"<ws>{…` line matches, and group 1 is the name |
| Patterns.MatchVariableDeclSound | terraform_unused_vars/__main__.py:99-101 | every line that matches is such a header, of the captured name |
| Patterns.DeclarationHeaderIff | terraform_unused_vars/__main__.py:99-101 | the match captures `name` exactly when the line is a header of `name` (both directions) |
| Scan.Dict.Put | terraform_unused_vars/__main__.py:101 | `d[k] = v` keeps the dict well formed, maps `k` to `v`, leaves every other key and its value as it was, keeps an existing key in its place and appends a new key at the end |
| Scan.CleanedIff | terraform_unused_vars/__main__.py:97 | a text is among the cleaned lines exactly when it is non-empty and is the stripped form of some raw line |
| Scan.GatherIff | terraform_unused_vars/__main__.py:98-104 | a name is collected from the lines exactly when some line yields it |
| Scan.GatherFilesIff | terraform_unused_vars/__main__.py:93-104 | a name is collected from the directory exactly when some file yields it |
| Scan.FileGatherIff | terraform_unused_vars/__main__.py:96-98 | a name is collected from one file exactly when some cleaned line of it yields it |
| Scan.GatherFilesLines | terraform_unused_vars/__main__.py:93-104 | a name is collected exactly when some cleaned line of some file yields it |
| Scan.DeclareAll | terraform_unused_vars/__main__.py:49-50 | the repeated `defined[k] = tf_file` keeps the dict well formed |
| Scan.Declarations | terraform_unused_vars/__main__.py:43-50 | the dict built over all the files is well formed |
| Scan.DeclareAllValue | terraform_unused_vars/__main__.py:49-50 | after the assignments, a name is a key exactly when it was one before or was assigned; assigned names map to this file, and the others keep their file |
| Scan.DeclaredIff | terraform_unused_vars/__main__.py:43-50 | a name is declared exactly when some file declares it |
| Scan.DeclaredFileIsLast | terraform_unused_vars/__main__.py:50 | a name maps to the last file in list order that declares it |
| Scan.ReportIff | terraform_unused_vars/__main__.py:76-83 | there is a finding for a name exactly when it is declared and not used; each finding has its kind, its recorded file, and a skip mark exactly when a directive names it |
| Scan.ReportFailures | terraform_unused_vars/__main__.py:76-85 | the increments of `found` equal the number of declared names that are neither used nor skipped |
| Scan.FailuresAllCount | terraform_unused_vars/__main__.py:108-113 | when nothing is skipped, every finding adds 1 |
| Scan.VariableDeclaredIff | terraform_unused_vars/__main__.py:93-101 | a variable is declared exactly when some cleaned line of some file is a header of it |
| Scan.VariableFileIsLast | terraform_unused_vars/__main__.py:101 | a variable maps to the last file that declares it |
| Scan.VariableReferencedIff | terraform_unused_vars/__main__.py:98-104 | a variable is referenced exactly when some cleaned line that is not a header has it among its `var.` matches |
| Scan.UnusedVariablesIff | terraform_unused_vars/__main__.py:108-113 | there is a finding for exactly the declared, unreferenced variables; none is skipped, and each carries its declaring file |
| Scan.UnusedVariablesCount | terraform_unused_vars/__main__.py:108-113 | the increment of `found` is the number of findings, which is the number of declared, unreferenced variables |
| Scan.HeaderLineAddsNoReference | terraform_unused_vars/__main__.py:99-104 | a header line adds no reference, even when a `var.` occurs after its brace |
| Scan.CommentedVariableCounts | terraform_unused_vars/__main__.py:102-104 | a `var.` reference after `#` still counts |
| Scan.NoWordBoundaryBeforeVar | terraform_unused_vars/__main__.py:10 | a reference glued to a preceding word, as in `myvar.x`, counts as a reference to `x` |
| Scan.LocalDeclaredIff | terraform_unused_vars/__main__.py:43-50 | a local is declared exactly when some file's `locals` blocks have it as a key |
| Scan.LocalFileIsLast | terraform_unused_vars/__main__.py:50 | a local maps to the last file that declares it |
| Scan.LocalReferencedIff | terraform_unused_vars/__main__.py:55-65 | a local is used exactly when some cleaned line without a skip directive has it among the `local.` matches before its first `#` |
| Scan.LocalLineRefsIff | terraform_unused_vars/__main__.py:56-65 | one line uses a local exactly when it has no skip directive and the local is matched before its first `#` |
| Scan.SkippedIff | terraform_unused_vars/__main__.py:56-58 | a local is skipped exactly when some cleaned line carries a directive naming it |
| Scan.SkipLineAddsNoReference | terraform_unused_vars/__main__.py:56-58 | a line with a skip directive uses nothing and contributes all its directive names |
| Scan.CommentedLocalIgnored | terraform_unused_vars/__main__.py:60-65 | on a line without a directive, only the text before the first `#` is searched for `local.` |
| Scan.UnusedLocalsIff | terraform_unused_vars/__main__.py:76-83 | there is a finding for exactly the declared, unused locals; it is skipped exactly when a directive names it, and it carries its declaring file |
| Scan.UnusedLocalsCount | terraform_unused_vars/__main__.py:76-85 | the increment of `found` is the number of declared locals that are neither used nor skipped |
| Checker.ScanVarLine | terraform_unused_vars/__main__.py:98-104 | one line of the variable scan extends the dict and the reference list exactly as the line's specification says |
| Checker.ScanVarLines | terraform_unused_vars/__main__.py:98-104 | the loop over a file's lines yields the file's declarations and references |
| Checker.CollectVars | terraform_unused_vars/__main__.py:91-104 | the loop over the files builds exactly `defined_variables` and `variables` of the specification |
| Checker.ScanLocalLine | terraform_unused_vars/__main__.py:55-65 | one line of the local scan extends the used and skip lists as specified |
| Checker.ScanLocalLines | terraform_unused_vars/__main__.py:55-65 | the loop over a file's lines yields its uses and skips |
| Checker.DeclareLocals | terraform_unused_vars/__main__.py:47-50 | the loop over a file's local keys records each with this file |
| Checker.CollectLocals | terraform_unused_vars/__main__.py:40-65 | the loop over the files builds exactly `defined_locals`, `used_locals` and `skip_locals` |
| Checker.Checker.constructor | terraform_unused_vars/__main__.py:14 | `found` starts at 0 |
| Checker.Checker.FindUnusedVars | terraform_unused_vars/__main__.py:88-113 | the findings are exactly `UnusedVariables`, and `found` grows by their number |
| Checker.Checker.FindUnusedLocals | terraform_unused_vars/__main__.py:37-85 | the findings are exactly `UnusedLocals`, and `found` grows by the unskipped ones |
| Driver.LastSlashEnd | terraform_unused_vars/__main__.py:31 | the head of `os.path.dirname` ends just after the last `/`, and no `/` follows it |
| Driver.RStripSlashes | terraform_unused_vars/__main__.py:31 | only trailing slashes are removed from the head |
| Driver.DirnameOfBareName | terraform_unused_vars/__main__.py:31 | a name without `/` has directory "" |
| Driver.DirnameOfJoin | terraform_unused_vars/__main__.py:31 | the directory of `dir/name` is `dir` |
| Driver.DirnameOfRelative | terraform_unused_vars/__main__.py:31 | the directory of a relative path is relative |
| Driver.GetTfDirectories | terraform_unused_vars/__main__.py:30-34 | the directories are distinct, and they are exactly the directories of the given files |
| Driver.BareFileGlobsRoot | terraform_unused_vars/__main__.py:24-25 | as written, the scope pattern for a bare file name is `/*.tf`, which lies under the file-system root |
| Driver.TfPatternStaysRelative | terraform_unused_vars/__main__.py:24-25 | the corrected scope pattern of a relative file's directory is relative, and it equals the pattern as written for every non-empty directory |
| Driver.FindTfFiles | terraform_unused_vars/__main__.py:24-27 | for every non-empty path the files are the glob of the pattern as written, `path + '/*.tf'`; for the empty path they are the glob of `./*.tf` (see Findings) |
| Driver.Paths | terraform_unused_vars/__main__.py:27 | the glob result's paths, one per file, in order |
| Driver.EffectiveArgs | terraform_unused_vars/__main__.py:129-134 | no argument means the single argument `./**`; given arguments are kept as they are |
| Driver.ArgFilesIff | terraform_unused_vars/__main__.py:146-149 | one argument contributes a path exactly when it is that plain file, or it is not a plain file and its glob finds a file at that path |
| Driver.DiscoverIff | terraform_unused_vars/__main__.py:144-149 | a path is discovered exactly when some argument contributes it |
| Driver.DiscoverFiles | terraform_unused_vars/__main__.py:144-149 | the argument loop collects each plain file as itself and otherwise the glob's files, in argument order |
| Driver.ScanDirectory | terraform_unused_vars/__main__.py:159-161 | both scans of one directory add its failures to `found` |
| Driver.ScanDirectories | terraform_unused_vars/__main__.py:155-162 | one checker scanning every directory in turn ends with `found` equal to the sum of the directories' failures |
| Driver.SumOverPositive | terraform_unused_vars/__main__.py:157-165 | the running count is positive exactly when some directory added to it |
| Driver.ScopeFailuresPositive | terraform_unused_vars/__main__.py:76-113 | a directory adds to `found` exactly when it has a declared, unreferenced variable or a declared, unused, unskipped local |
| Driver.DirectoriesFail | terraform_unused_vars/__main__.py:155-161 | some distinct directory fails exactly when the directory of some discovered file fails |
| Driver.Run | terraform_unused_vars/__main__.py:143-168 | `main()` returns the status `ExitCode` specifies: 0 when nothing is found, else whether `found` is positive |
| Driver.ExitCodeIff | terraform_unused_vars/__main__.py:151-168 | the status is 0 or 1, and it is 1 exactly when some discovered file's directory has an unused variable or an unused, unskipped local |

## Left out

- Parsing HCL with `hcl2.load` (line 46) is not modelled. The keys of a file's `locals` blocks are an input (`TfFile.localKeys`), with the list of blocks flattened in order.
- Reading files, `os.path.isfile` and `glob.glob` are not modelled. They are replaced by the `FileSystem` value: its plain files and the file list each glob pattern returns. Glob expansion itself, including `**`, is not modelled.
- `argparse` and its `--quiet`/`--debug` flags, logging setup, the `LOGLEVEL` variable and the log text are left out. They only change presentation. Each warning is returned as a `Finding` instead.
- `sys.exit` is modelled as the returned status code.
- Errors raised by I/O or by the HCL parser are not modelled; the program would stop with a traceback.
- Patterns.IsWordChar: `\w` is ASCII only. Python's `\w` on `str` also matches non-ASCII letters and digits, so a Unicode name would be cut shorter in the model.
- Driver.GetTfDirectories: `list(set(...))` has no defined order in Python. The model keeps first occurrences in order and proves only distinctness and membership, which is what the exit status depends on.
- The model's `found` is an unbounded `nat`, like Python's integer.
- Driver.Dirname: models `posixpath.dirname`, with `/` as the only separator. The Windows form, `ntpath.dirname`, with `\` separators and drive letters, is not modelled.
- Driver.DiscoverFiles: for the argument "" the model globs `./*.tf` where the program globs `/*.tf`, because it uses the corrected `FindTfFiles` (see Findings). For every other argument it does what the program does.
- Driver.Run: for a discovered file without a directory, such as `main.tf`, the model scans the current directory (`./*.tf`) where the program globs `/*.tf`, because it uses the corrected `FindTfFiles` (see Findings). For every other directory it does what the program does.
- Driver.ExitCodeIff: states the exit status of the corrected program. It differs from the program as written only through the directory "", for the reason given for `Driver.Run`.

## Findings

| source | as written | input that shows it | evidently intended | confidence | as-written member | corrected member |
|---|---|---|---|---|---|---|
| terraform_unused_vars/__main__.py:24-25 | `find_tf_files(os.path.dirname(p))` globs `dirname + '/*.tf'` | the argument `main.tf`, a file in the current directory: its directory is "" and the scope pattern becomes `/*.tf`, the file-system root | scan the current directory, `./*.tf` | not executed | Driver.BareFileGlobsRoot | Driver.TfPatternStaysRelative |

The rest of the model, `FindTfFiles` and so `DiscoverFiles`, `Run` and `ExitCode`, uses the corrected pattern `TfPattern`. The correction also applies to an empty path argument, which as written globs `/*.tf` too.
