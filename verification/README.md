# perl5 SCons tool: argument vectors, displays and the dependency scan

This project models the pure core of the `perl5` SCons tool
(`site_scons/site_tools/perl5/__init__.py`). The model covers two pieces:

- **Command-line construction and display.** `get_perl_I` and the three
  builders `create_args_perl5_script`, `create_args_perl5_sub` and
  `create_args_perl5_output` turn a construction environment and a list of
  source nodes into the argument vector handed to `perl`. The three
  `*_strfunc` functions render the same vector as a shell-style line:
  `$ perl 'arg1' 'arg2' …`. The output builder's line also ends in
  `> target`.
- **The dependency scan.** `perl5_scanner` asks `Module::ScanDeps` for the
  direct dependencies of one file at a time. It resolves every reported
  path with `realpath` and keeps a path only when it starts with the
  working directory. It then closes the result transitively, re-scanning
  only the paths each round newly added.

Modules, one per concern:

- `Text` (`text.dfy`): `find`, `rfind` and `join`.
- `ConstructionEnv` (`construction_env.dfy`): the environment. A variable's
  value is a string or a list of strings. Every error the Python raises
  while building a vector becomes an `Err`.
- `Paths` (`paths.dfy`): `os.path.basename`, and the root half of
  `os.path.splitext`. The dot rule is modelled exactly: a dot splits off an
  extension only when some character other than a dot comes before it in
  the final path component. So `.perltidyrc` and `..pm` keep their names.
- `Invocation` (`invocation.dfy`): the include flags and the three builders.
- `Display` (`display.dfy`): the three display functions, and a parser
  `Unrender` that reads a display back into its vector.
- `DepScan` (`depscan.dfy`): the scan. The outside world is a `Host` with
  three parts: the one-level report of a file (`deps`), symlink
  resolution (`realpath`) and the resolved working directory (`cwd`).

Behaviour worth knowing, stated and proved in the model:

- Python iterates a plain string one character at a time. A `PERL5LIB`
  given as the string `lib` therefore yields `-Il -Ii -Ib`
  (`Invocation.PerlIOfPlainString`). The same holds for `action`, `M` and
  `args`.
- The working-directory filter is a plain string prefix, not a path
  component check: a working directory `/a/b` admits `/a/bc/x`.
- The displays quote arguments without escaping. Two different vectors can
  share a display when an argument holds a single quote
  (`Display.RenderAmbiguousWithQuote`). When no argument holds one and the
  program name has no space, the display reads back as exactly the vector
  that runs (`Display.RenderRoundTrip`).
- The scan result is exactly the set of paths reachable from the scanned
  file along at least one kept edge. One round of the scan is defined
  once, as a set (`DepScan.Step`). The loops that compute a round
  (`DepScan.CollectNew`, `DepScan.CollectFromFile`) are proved to produce
  exactly that set. The scanned file's name is in the result only when an
  import cycle leads back to it. The visiting order of
  the rounds does not matter. The scan terminates on any finite project
  tree, cycles included.

## Model

| member | source | states |
|---|---|---|
| Paths.Basename | site_scons/site_tools/perl5/__init__.py:62 | the base name has no '/', is a suffix of the path, and is preceded by '/' whenever it is shorter than the path |
| Paths.StripExt | site_scons/site_tools/perl5/__init__.py:63 | the root is a prefix of the path. When it differs, the removed part is the last '.'-suffix of the final component and a non-dot character precedes it. The path is kept whole exactly when everything between the last '/' and the last '.' is dots |
| Paths.ModuleName | site_scons/site_tools/perl5/__init__.py:62-63 | the module name is the base name of the source with its last extension removed, and contains no '/' |
| Paths.ModuleNameOfModuleFile | site_scons/site_tools/perl5/__init__.py:62-63 | `foo/Bar.pm` loads as module `Bar` |
| Paths.ModuleNameOfDoubleExtension | site_scons/site_tools/perl5/__init__.py:63 | only the last extension goes: `lib/a.tar.gz` gives `a.tar` |
| Paths.ModuleNameOfDotFile | site_scons/site_tools/perl5/__init__.py:63 | a leading dot is not an extension: `lib/.perltidyrc` keeps its whole name |
| Invocation.Tag | site_scons/site_tools/perl5/__init__.py:32 | the flag list has one element per entry, in order, each the tag followed by the entry |
| Invocation.StripTagOfTag | site_scons/site_tools/perl5/__init__.py:32 | reading a flag list back yields exactly the entries it was built from |
| Invocation.TagOfStripTag | site_scons/site_tools/perl5/__init__.py:32 | a run of flags that reads back as some entries is exactly the flags of those entries: nothing else is in it |
| Invocation.PerlI | site_scons/site_tools/perl5/__init__.py:31-32 | succeeds exactly when `PERL5LIB` is set (otherwise KeyError). The result reads back as the `PERL5LIB` entries in order: one `-I` flag per entry and nothing else |
| Invocation.PerlIOfPlainString | site_scons/site_tools/perl5/__init__.py:31-32 | a `PERL5LIB` given as the plain string `lib` yields one flag per character |
| Invocation.ScriptArgs | site_scons/site_tools/perl5/__init__.py:39-42 | succeeds exactly when `PERL5LIB`, a source and `action` are present, with errors in Python's evaluation order. The vector is `perl`, the include flags, the first source, then every `action` item |
| Invocation.ScriptArgsExample | site_scons/site_tools/perl5/__init__.py:39-42 | include path `lib`, action `x` and source `run.pl` give `perl -Ilib run.pl x` |
| Invocation.SubArgs | site_scons/site_tools/perl5/__init__.py:61-64 | the source is checked first, then `PERL5LIB`, then `action`. The vector is `perl`, the include flags, then exactly `-M`+module name, `-e` and the action code |
| Invocation.OutputArgs | site_scons/site_tools/perl5/__init__.py:83-98 | succeeds exactly when `PERL5LIB` is set and either `eval` is a string or, without `eval`, a source exists. The vector has at least two elements and starts with `perl` and the include flags |
| Invocation.OutputWithEval | site_scons/site_tools/perl5/__init__.py:89-93 | with `eval` set, the include flags are followed by one `-M` flag per `M` entry in order, then exactly `-e` and the code |
| Invocation.OutputEvalIgnoresSourceAndArgs | site_scons/site_tools/perl5/__init__.py:92-97 | with `eval` set, changing the source list, or changing or removing `args`, leaves the vector unchanged |
| Invocation.OutputWithoutEval | site_scons/site_tools/perl5/__init__.py:88-97 | without `eval`, the include flags are followed by one `-M` flag per `M` entry in order (none without `M`), then exactly the first source and the `args` items |
| Display.ParseQuotedJoin | site_scons/site_tools/perl5/__init__.py:47 | quoting the arguments and joining them with spaces reads back as the same arguments when none holds a single quote |
| Display.RenderRoundTrip | site_scons/site_tools/perl5/__init__.py:44-48 | the display `$ prog 'a1' 'a2' …` reads back as exactly the vector it came from when the vector is unambiguous |
| Display.RenderInjective | site_scons/site_tools/perl5/__init__.py:44-48 | two unambiguous vectors with the same display are equal |
| Display.RenderAmbiguousWithQuote | site_scons/site_tools/perl5/__init__.py:47 | without escaping, `perl "a' 'b"` and `perl a b` display the same |
| Display.Describe | site_scons/site_tools/perl5/__init__.py:45-47 | a display exists exactly when the builder succeeds, and fails with the builder's error otherwise. The display is always `$ `, the program, a space, then the other arguments each in single quotes and joined by spaces (`Render`). When the vector is `Displayable` (no space in the program, no single quote in any other argument), the display reads back as exactly the builder's vector |
| Display.ScriptDisplay | site_scons/site_tools/perl5/__init__.py:44-48 | the script display fails exactly when the script builder fails, with the same error. Otherwise it is the `Render` format of the vector the script action runs. When that vector is `Displayable`, the display reads back as exactly that vector |
| Display.SubDisplay | site_scons/site_tools/perl5/__init__.py:66-70 | the sub display fails exactly when the sub builder fails, with the same error. Otherwise it is the `Render` format of the vector the sub action runs. When that vector is `Displayable`, the display reads back as exactly that vector |
| Display.OutputDisplay | site_scons/site_tools/perl5/__init__.py:100-107 | the vector is built before the target is read. The display is the `Render` format of the vector the output action runs, then ` > ` and the first target. When the vector is `Displayable` and the target has no single quote, it reads back as that vector and target |
| Display.RedirectRoundTrip | site_scons/site_tools/perl5/__init__.py:104-106 | a display with ` > target` appended reads back as the vector and the target when the target has no single quote |
| DepScan.CollectNew | site_scons/site_tools/perl5/__init__.py:133-148 | the loop over the frontier files, visited in any order, computes exactly one round: the set `DepScan.Step` |
| DepScan.CollectFromFile | site_scons/site_tools/perl5/__init__.py:145-148 | the loop over one file's report lines collects exactly that file's kept dependencies that are not yet accumulated: the resolved lines that start with the working directory |
| DepScan.LoopAdvance | site_scons/site_tools/perl5/__init__.py:150-154 | a round that adds paths leaves strictly less of the finite universe to find, and the scan continues with exactly the added paths as the next frontier |
| DepScan.Loop | site_scons/site_tools/perl5/__init__.py:150-154 | the recursion terminates over a finite universe. The accumulated set only grows, and the result equals it exactly when a round adds nothing. Every added path starts with the working directory |
| DepScan.ScanDeps | site_scons/site_tools/perl5/__init__.py:130-156 | every result path starts with the working directory. The result is empty exactly when the scanned file has no kept dependency |
| DepScan.LoopClosed | site_scons/site_tools/perl5/__init__.py:150-154 | from an explored state, the recursion ends on a set holding the kept dependencies of the root and of each of its members |
| DepScan.LoopSound | site_scons/site_tools/perl5/__init__.py:150-154 | everything the recursion accumulates is reachable from the root along kept edges |
| DepScan.ScanDepsIsReachable | site_scons/site_tools/perl5/__init__.py:130-156 | a path is in the result exactly when it is reachable from the scanned file along at least one kept edge |
| DepScan.ScanDepsClosed | site_scons/site_tools/perl5/__init__.py:132-156 | the result holds every kept dependency of the scanned file and of each of its members |
| DepScan.ScanDepsFiltered | site_scons/site_tools/perl5/__init__.py:131-148 | every result path is the resolved form of some reported line and starts with the working directory |
| DepScan.TransitiveImports | site_scons/site_tools/perl5/__init__.py:144-154 | if `a` imports `b` and `b` imports `c` inside the tree, scanning `a` finds both. A path outside the working directory is never found |
| DepScan.RootOnlyThroughCycle | site_scons/site_tools/perl5/__init__.py:156 | the scanned file is in its own result exactly when an import cycle leads back to it |

## Left out

- Process execution in `perl5_script`, `perl5_sub` and `perl5_output`: `subprocess.call`, opening the target and redirecting stdout, and the exit code. These are process I/O. The model stops at the argument vector and the display string.
- The scanner's own `perl -MModule::ScanDeps -e …` command, the embedded Perl snippet and its sorting. `Host.deps` stands for the lines that command prints. Once the lines land in a set, their order does not matter.
- `os.path.realpath` and `os.getcwd` are filesystem calls. They become `Host.realpath` and `Host.cwd`, and the cwd is taken as already resolved.
- `DepScan.ScanDeps`: does not model the scanner's failures: a missing `PERL5LIB` while building the scan command, and `check_output` raising on a failing `perl`. `Host.deps` is total.
- `DepScan.ScanDeps`: needs a finite universe holding every kept path (`Bounded`). Python's recursion-depth limit on very long chains of rounds is not modelled.
- `env.File(...)` turns the result into SCons nodes. That conversion, `generate`, `exists` and the unused `CheckPerlModule` are host-framework wiring or process probes.
- `Invocation.SubArgs`: with `action` missing, Python's `env.get` puts `None` into the vector. With `action` a list, the list itself goes in. The spawn then fails. The model reports `MissingKey`/`NotAString` when the vector is built instead.
- `Display.SubDisplay`: in the same cases Python's display renders `'None'` or the list's repr, where the model returns the builder's error.
- `Invocation.OutputArgs`: a list-valued `eval` is reported as `NotAString`. Python places the list into the vector, and the spawn rejects it.
- List items of any other type are taken as already converted by `str()`. For `M` the Python applies no `str()`, so a non-string item raises a TypeError there.
- `Display.OutputDisplay`: a list-valued `eval` is reported as `NotAString`. Python's display instead prints the list's repr between single quotes.
- `DepScan.RootOnlyThroughCycle`: the scanned file's name is taken as given. In SCons it is a path relative to the top directory, while every path the scan adds is an absolute `realpath`. So in the program the name itself never comes back; a cycle brings back its resolved form, and that file is scanned once more. The model states the property for whatever name the scan starts from.
- `os.path` is modelled as POSIX paths: only `/` separates components. On Windows, `basename` and `splitext` also split at `\` and after a drive letter.
- Strings are sequences of characters. Python 2 byte/unicode distinctions and file-system encodings are not modelled.
