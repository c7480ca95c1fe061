# import-embargo policy engine in Dafny

import-embargo is a pre-commit tool. It checks that the local imports of a Python
application respect per-package `__embargo__.json` policy files. For the import
direction, a policy file in a directory governs every Python file below it, up to the
next policy file further down. For the export direction, the policy that governs an
imported module is the nearest one at or above the module's parent directory. For
`from a.b import x` that search starts at `a`, so a policy file inside the package
directory `a/b` does not govern it. A policy file can say three things:

- which modules the files it governs may import (`allowed_import_modules`);
- which importing modules may import them (`allowed_export_modules`);
- which importing modules may skip the export check (`bypass_export_check_for_modules`).

This project models the decision core of `import_embargo/core.py` and proves
properties of it.

Modules:

- `Wrappers`: `Option`, plus `Outcome`. `Outcome` stands for a Python call that either
  returns a value or never returns. Here "never returns" means unbounded recursion,
  which ends in a `RecursionError`.
- `Strings`: Python's `str.split` on one character, its inverse `Join`, one-character
  `str.replace`, and deletion of every occurrence of a pattern (`.replace(".py", "")`).
  It also proves the round-trip lemmas for these.
- `Paths`: a path is the sequence of its components. This module holds `Path.parent`,
  pathlib's dropping of empty components, `build_path_from_import`,
  `build_module_from_path`, and the round trip between them.
- `Configs`: the raw JSON record, the `Config` record, `ModuleTreeBuildingMode`, and
  `get_package_config` written as a pure function `Resolve` of the file system (a map
  from directories to raw records) and the cache. The class `ConfigLookup` holds the
  cache dictionary that `get_package_config` fills in place. Lemmas show:
  - the search stops whenever it starts at or below the application root;
  - a cache built only by the search itself never changes an answer;
  - the answer is the nearest policy file between the directory and the root.
- `ModuleTree`: the nested-dictionary tree of allowed modules (`Node`). It holds the
  `setdefault` insertion chain, `build_allowed_modules_tree` as a loop-carrying method,
  `is_operation_allowed` as a loop-carrying method, and `can_bypass_check`. The
  characterisation lemmas say:
  - exactly the prefixes of the entries are in the tree;
  - the tree does not depend on entry order;
  - a module is allowed exactly when it runs into a leaf or ends on a node of the tree;
  - when no entry is a proper prefix of another, a module is allowed exactly when it
    is a prefix of an entry or an entry is a prefix of it.
- `ModuleTreeExamples`: the cases of `tests/core_test.py` and of the docstrings, as
  lemmas.
- `Checks`: `get_local_import_nodes` (a filtering loop), the per-import decisions of
  `check_for_allowed_imports` and `check_for_allowed_exports`, and the whole-file loop
  of `check_for_violations`. The loop is written as three methods: `CheckForViolations`
  for the function, `CheckLocalEdges` for its loop, and `CheckEdge` for one pass. They
  are specified against folds over the cache and the file system.
- `CheckProperties`: end-to-end lemmas:
  - for an allowed list in which no entry is a proper prefix of another, a violation
    is reported exactly when the module is unrelated to every allowed entry;
  - for such a bypass list, a matching bypass entry suppresses export violations;
  - third-party imports change nothing;
  - a file with no governing policy gets no import violations.

A reported violation is a record: its direction, the file, the imported module, the
allowed list and the policy file's path. One record stands for the three text lines
the Python code appends (`"<file>: <module>"`, `"Allowed imports: …"`/`"Allowed exports: …"`,
`"Config file: …"`).

Notes on the code's behaviour. The model follows the code in each of them:

- A policy file is not validated. Missing keys become `None` (or `[]` for the bypass
  list), and a misspelled key is ignored. Values are not type-checked either; what a
  wrong type does depends on the type, and shows only when the tree is built. A string
  is walked one character at a time at `import_embargo/core.py:163`, so `"a.b"` acts as
  the entries `"a"`, `"."` and `"b"`. An object is walked by its keys. Neither fails.
  A number or a boolean fails with `TypeError` at `import_embargo/core.py:163`. A list
  holding something other than strings fails with `AttributeError` at
  `import_embargo/core.py:165`. A file that is not JSON fails in `json.loads` at
  `import_embargo/core.py:63`. The model leaves all these values out: its records hold
  lists of strings.
- The search for a policy file is the recursive climb of `get_package_config`. In the
  export check of an import whose module has no non-empty dotted piece (`from . import
  x` gives `module` `None`), the climb starts at the root's parent. If no policy file
  is found, it never stops at the root. The model returns `Unterminated`, and the export
  check returns `RecursionError`. An ordinary local import (one naming a top-level
  package) never reaches that case, and `CheckForAllowedExports` proves this.
- The importing module's name is built by deleting every `.py` in the relative path,
  not only a trailing extension.
- The code and the docstring of `is_operation_allowed` differ. The docstring calls `from a import b` under the entry
  `a.c` a violation. The code accepts it: the imported module is `a`, the walk ends on
  the inner node `a`, and the last line returns true
  (`ModuleTreeExamples.DocstringDivergenceAccepted`). The model follows the code: a
  module shallower than an entry is allowed.
- Since every `.py` is deleted, a directory whose name starts with `py` also loses the
  separator before it: `a/pyb/x.py` gives the module `ab.x`
  (`Paths.ExtensionDeletedAcrossSeparator`). That name is what the bypass list is
  matched against.
- The export check searches from the parent of the imported module's path. For `from
  a.b import x` it starts at `a`, so a policy file in `a/b` is never consulted: with
  that file as the only one, the import has no governing export policy
  (`CheckProperties.PackagePolicyDoesNotGovernItsExports`).
- After a policy file with `"allowed_import_modules": ["a", "a.b"]`, the module `a.c` is
  rejected. The second entry extends the leaf that the first one created
  (`ModuleTreeExamples.OverlappingEntriesReject`). The "allowed exactly when related"
  lemmas therefore require that no entry be a proper prefix of another.

## Model

| member | source | states |
|---|---|---|
| Strings.Split | import_embargo/core.py:124 | `str.split` on one character yields at least one piece, and no piece contains the separator |
| Strings.JoinSplit | import_embargo/core.py:193 | joining the pieces of a split with the separator gives back the original string |
| Strings.SplitJoin | import_embargo/core.py:165 | splitting a join of separator-free pieces gives back exactly those pieces |
| Strings.ReplaceChar | import_embargo/core.py:41 | one-character `str.replace` keeps the length and replaces exactly the occurrences of the old character |
| Strings.SplitReplaced | import_embargo/core.py:41 | replacing `.` by `/` and splitting on `/` gives the dotted pieces of a module name that has no `/` |
| Strings.ReplaceBack | import_embargo/core.py:46 | replacing `.` by `/` and back gives back a module name with no `/` |
| Strings.DeleteAll | import_embargo/core.py:46 | deleting every occurrence of a pattern never lengthens the string |
| Strings.DeleteAllAbsent | import_embargo/core.py:46 | deleting a pattern that does not occur leaves the string unchanged |
| Strings.ReplaceCharAppend | import_embargo/core.py:46 | one-character replacement of a concatenation is the concatenation of the replacements |
| Strings.ReplaceJoin | import_embargo/core.py:46 | replacing the separator of a join whose pieces do not contain it gives the join with the new separator |
| Strings.JoinExtendLast | import_embargo/core.py:46 | extending the last piece of a join extends the joined string by the same text |
| Strings.DeleteAllKeep | import_embargo/core.py:46 | left-to-right deletion passes unchanged over a prefix in which no occurrence starts |
| Strings.JoinHead | import_embargo/core.py:46 | a join starts with its first piece, and the separator follows that piece whenever anything follows |
| Paths.Parent | import_embargo/core.py:61 | `Path.parent` is a prefix of the path, one component shorter unless the path is `/` |
| Paths.NonEmpty | import_embargo/core.py:41-42 | pathlib drops empty components, keeps every non-empty one in order, and keeps a non-empty first component first |
| Paths.NonEmptyAppend | import_embargo/core.py:41-42 | normalising a concatenation normalises each part, so surviving components keep their order |
| Paths.BuildPathFromImport | import_embargo/core.py:37-42 | the path built for an imported module lies at or below the application root |
| Paths.BuildModuleFromPath | import_embargo/core.py:45-46 | the dotted relative path with every `.py` deleted; its meaning is given by `ModuleOfRelativePath`, `SourceFileModule` and `ModulePathRoundTrip` |
| Paths.ImportPathBelowRoot | import_embargo/core.py:37-42 | a module whose first dotted piece is non-empty and has no `/` maps strictly below the root, so its parent directory is still at or below the root |
| Paths.ModulePathRoundTrip | import_embargo/core.py:37-46 | `build_module_from_path(build_path_from_import(m))` gives `m` back for a module whose pieces are non-empty and contain no `/` or `.py` |
| Paths.ModuleOfRelativePath | import_embargo/core.py:45-46 | for a path strictly below the root whose components hold no `/`, the module name is the dotted relative path with every `.py` deleted |
| Paths.SourceFileModule | import_embargo/core.py:45-46 | the module of the source file `dirs/name.py` under the root is `dirs.name`, when no component holds `.` or `/` and none after the first starts with `py` |
| Paths.DeleteFinalExtension | import_embargo/core.py:46 | deleting every `.py` from a dotted name followed by `.py` removes only that final `.py` under the same conditions |
| Paths.DeleteExtensionOfPiece | import_embargo/core.py:46 | a name without `.` followed by `.py` loses exactly that `.py` |
| Paths.NoExtensionAtSeparator | import_embargo/core.py:46 | no `.py` starts within a dot-free piece and its separator when the next piece does not start with `py` |
| Paths.DeletionInsideName | import_embargo/core.py:46 | `"pkg.x.pyz".replace(".py", "")` is `"pkg.xz"` |
| Paths.DeletionAcrossSeparator | import_embargo/core.py:46 | `"a.pyb.x.py".replace(".py", "")` is `"ab.x"` |
| Paths.ExtensionDeletedInsideName | import_embargo/core.py:45-46 | the file `pkg/x.pyz` gives the module `pkg.xz`: a `.py` inside a name is deleted too |
| Paths.ExtensionDeletedAcrossSeparator | import_embargo/core.py:45-46 | the file `a/pyb/x.py` gives the module `ab.x`: a separator followed by `py` is deleted with it |
| Paths.Segments | import_embargo/core.py:193 | a module name has at least one dotted piece |
| Configs.ConfigFile | import_embargo/core.py:52 | the policy file's path sits directly in the directory searched |
| Configs.ParseConfig | import_embargo/core.py:63-71 | a policy file's import and export lists are taken as they are, a missing bypass list defaults to `[]`, and the config remembers its file's path |
| Configs.ModeEntries | import_embargo/core.py:156-162 | the list a tree is built from: the bypass list, the import list or the export list of the config, by mode; its use is stated by `ModuleTree.BuildAllowedModulesTree` |
| Configs.Resolve | import_embargo/core.py:49-73 | the recursive climb of `get_package_config`: cache first, then the file system, stopping at the root; its meaning is given by `ResolveTerminates`, `NearestAncestor`, `CacheIsTransparent` and `ResolveIsRemembered` |
| Configs.ResolveTerminates | import_embargo/core.py:49-61 | a search that starts at or below the root always stops, with a config or with "none" at the root |
| Configs.CacheIsTransparent | import_embargo/core.py:52-56 | with a cache holding only configs that are in the file system, searching through the cache gives the same answer as searching the file system alone |
| Configs.Remember | import_embargo/core.py:72 | after a search only a found config is added, under its own path, and a newly found config is what is stored there; no existing entry changes and nothing else is added |
| Configs.ResolveIsRemembered | import_embargo/core.py:52-73 | with a cache in which every config sits under its own path, a found config is, once remembered, the entry stored under its own path, whether it came from the cache or from the file system |
| Configs.RememberKeepsConsistent | import_embargo/core.py:63-72 | remembering what a search through a consistent cache found keeps the cache consistent with the file system |
| Configs.NearestAncestor | import_embargo/core.py:49-73 | the result is "none" exactly when no directory from the start up to the root has a policy file; otherwise it is the parsed config of the nearest such directory, and no closer directory has one |
| Configs.ConfigLookup.constructor | import_embargo/core.py:363 | the cache starts empty |
| Configs.ConfigLookup.GetPackageConfig | import_embargo/core.py:49-73 | returns the search result over the old cache; a found config is the entry stored under its own path; no existing entry is changed or removed; a cache hit leaves the cache as it was; a start at or below the root always stops; a cache consistent with the file system stays consistent |
| ModuleTree.HasAppend | import_embargo/core.py:164-166 | a tree holds the path `p + q` exactly when it holds `p` and the subtree at `p` holds `q` |
| ModuleTree.Insert | import_embargo/core.py:164-166 | the `setdefault` chain of one entry; its meaning is given by `InsertHas` |
| ModuleTree.BuildTree | import_embargo/core.py:163-167 | the tree of an entry list; its meaning is given by `BuildTreeHas`, `BuildTreeLeaf` and `BuildTreeOrderIndependent` |
| ModuleTree.InsertHas | import_embargo/core.py:164-166 | the `setdefault` chain adds exactly the prefixes of the inserted entry and keeps every path already there |
| ModuleTree.BuildTreeHas | import_embargo/core.py:163-167 | the built tree holds a path exactly when it is the empty path or a prefix of some entry's pieces |
| ModuleTree.BuildTreeLeaf | import_embargo/core.py:163-166 | a path of the built tree is a leaf exactly when no entry's pieces extend it (so the root of the tree of an empty list is a leaf) |
| ModuleTree.TreeExtensionality | import_embargo/core.py:155-167 | two trees holding the same paths are equal |
| ModuleTree.BuildTreeOrderIndependent | import_embargo/core.py:163-166 | two entry lists with the same members build the same tree |
| ModuleTree.BuildTreeReversed | import_embargo/core.py:163-166 | building from the reversed list gives the same tree |
| ModuleTree.LeafStep | import_embargo/core.py:195-200 | being a leaf below the first piece is being a leaf of the child tree one step down |
| ModuleTree.Walk | import_embargo/core.py:193-201 | the loop of `is_operation_allowed` written as recursion; its meaning is given by `WalkReaches` |
| ModuleTree.Allowed | import_embargo/core.py:193-201 | the walk over the dotted pieces of a module name; its meaning is given by `WalkReaches`, `AllowedIsRelated` and `AllowedIffRelated` |
| ModuleTree.WalkReaches | import_embargo/core.py:193-201 | the walk accepts a module exactly when its pieces are a path of the tree, or when some proper prefix of them ends on a leaf |
| ModuleTree.EmptyTreeRejects | import_embargo/core.py:193-198 | an empty allowed-modules tree rejects every module, since every module has at least one piece |
| ModuleTree.AllowedIsRelated | import_embargo/core.py:176-201 | a module allowed by the built tree is a prefix of an entry or has an entry as a proper prefix |
| ModuleTree.AllowedIffRelated | import_embargo/core.py:176-201 | when no entry is a proper prefix of another, a module is allowed exactly when it is a prefix of an entry or an entry is a prefix of it |
| ModuleTree.BuildAllowedModulesTree | import_embargo/core.py:131-167 | the tree built from the list the mode selects holds exactly the empty path and the prefixes of that list's entries |
| ModuleTree.IsOperationAllowed | import_embargo/core.py:176-201 | the loop's answer equals the walk's, which is true exactly when the module reaches a leaf or ends on a node of the tree |
| ModuleTree.CanBypassCheck | import_embargo/core.py:170-173 | bypass is decided by the same walk over the bypass tree, and an empty bypass list bypasses nothing |
| ModuleTreeExamples.WalkExamples | tests/core_test.py:19-33 | `a.b.c` is allowed by `{a: {}}`, `b` is not, and `a.c` is not allowed by `{a: {b: {}}}` |
| ModuleTreeExamples.BuildExamples | tests/core_test.py:36-52 | an empty list builds `{}`, and `a.b.c`, `a.d.e`, `a.d.f`, `x.y` build `{a: {b: {c: {}}, d: {e: {}, f: {}}}, x: {y: {}}}` |
| ModuleTreeExamples.DeeperModuleAllowed | import_embargo/core.py:182-185 | a module below an allowed entry is allowed |
| ModuleTreeExamples.ShallowerModuleAllowed | import_embargo/core.py:199-201 | a module that stops on an inner node of the tree is allowed |
| ModuleTreeExamples.DivergingModuleRejected | import_embargo/core.py:195-198 | a module that leaves the path `a.b` at its second piece is rejected |
| ModuleTreeExamples.DocstringDivergenceAccepted | import_embargo/core.py:187-201 | the docstring's own example, `from a import b` under the entry `a.c`, is accepted: the imported module `a` ends on an inner node of the tree |
| ModuleTreeExamples.OverlappingEntriesReject | import_embargo/core.py:163-166 | with entries `a` and `a.b`, the module `a.c` is rejected, since the second entry extends the leaf of the first |
| Checks.IsPythonFile | import_embargo/core.py:304 | a file is checked exactly when its name ends in `.py`; its use is stated by `CheckForViolations` |
| Checks.IsLocal | import_embargo/core.py:121-126 | an import is local exactly when its module is present and its first dotted piece is a top-level name of the package; its use is stated by `LocalImports` and `GetLocalImportNodes` |
| Checks.LocalImports | import_embargo/core.py:119-128 | the kept imports are exactly the local ones, each kept as often as it occurs |
| Checks.LocalImportsInOrder | import_embargo/core.py:119-128 | the kept imports appear in their original order |
| Checks.GetLocalImportNodes | import_embargo/core.py:113-128 | the loop keeps, in order and with multiplicity, exactly the imports whose module is present and whose first piece names a top-level entry of the package |
| Checks.LocalNamesTopLevelEntry | import_embargo/core.py:124-126 | a local import names a top-level entry: its first piece is non-empty and contains no `/` |
| Checks.LocalImportsNameTopLevelEntries | import_embargo/core.py:119-128 | every kept import names a top-level entry |
| Checks.ImportDecision | import_embargo/core.py:227-246 | no violation without a policy, without an import list or without a module; otherwise one violation exactly when the module is not allowed by the import tree, carrying the file, the module, the allowed list and the policy's file |
| Checks.ExportDirectory | import_embargo/core.py:261-265 | the directory from which the export check searches: the parent of the imported module's path; `CheckProperties.PackagePolicyDoesNotGovernItsExports` shows what it leaves out |
| Checks.ExportDecision | import_embargo/core.py:259-293 | the check fails to return exactly when the search never stops; no violation without a policy, an export list or a module, nor when the importing module is bypassed; otherwise one violation exactly when the module is not allowed by the export tree |
| Checks.CheckForAllowedImports | import_embargo/core.py:216-246 | the search from the file's directory stops; the result is the import decision on that search's answer; the cache gains only that answer |
| Checks.CheckForAllowedExports | import_embargo/core.py:249-293 | the result is the export decision on the search from the imported module's parent directory, and it always returns for an import naming a top-level entry; the cache gains only that answer |
| Checks.EdgeResult | import_embargo/core.py:315-330 | one local import yields at most one import and one export violation, both for this file and this module, and its export check always returns |
| Checks.EdgeViolations | import_embargo/core.py:311-330 | at most one import and one export violation per local import, each for this file and for one of the local imports' modules |
| Checks.FileViolations | import_embargo/core.py:304-332 | no violations for a non-Python file, otherwise the edge violations of its local imports; `CheckForViolations` computes it |
| Checks.EdgeCache | import_embargo/core.py:315-330 | the cache after one local import's two searches only gains entries, and stays keyed by path |
| Checks.CachedEdgeResult | import_embargo/core.py:315-330 | the import and export results of one local import with both searches through the cache, as the code computes them; `CachedEdgeViolationsAgree` ties them to the file system |
| Checks.CacheAfterEdges | import_embargo/core.py:311-330 | the cache after the searches of all local imports, in order, only gains entries, and stays keyed by path |
| Checks.CachedEdgeViolations | import_embargo/core.py:311-330 | the two lists the loop builds, each import judged through the cache the imports before it left; `CachedEdgeViolationsAgree` ties them to the file system |
| Checks.CachedEdgeViolationsAgree | import_embargo/core.py:311-330 | starting from a cache consistent with the file system, the cache stays consistent over the local imports and the lists built through it equal the lists with every config taken from the file system |
| Checks.CheckEdge | import_embargo/core.py:315-330 | one pass of the loop: the cache becomes exactly the cache after that import's two searches, and the two results are the ones computed through the old cache |
| Checks.CheckLocalEdges | import_embargo/core.py:311-330 | the loop over the local imports: the cache becomes exactly the old one after each import's two searches in order, and the two lists are the results computed through it, in order |
| Checks.CheckForViolations | import_embargo/core.py:296-332 | a non-Python file gives no violations and leaves the cache as it was; otherwise the new cache is exactly the old one after remembering each local import's two searches in order, so no entry is changed or removed, and the two lists are the per-import decisions through that cache, in order; with a cache consistent with the file system, the lists are the decisions on the file system's configs and the cache stays consistent |
| CheckProperties.ImportViolationIffUnrelated | import_embargo/core.py:232-245 | under a policy with a prefix-free import list, an import is reported exactly when its module is neither a prefix of an allowed entry nor has one as a prefix |
| CheckProperties.ExportViolationIffUnrelated | import_embargo/core.py:269-292 | for a non-bypassed importing module under a prefix-free export list, an export is reported exactly when the module is unrelated to every allowed entry |
| CheckProperties.BypassSuppressesExportViolation | import_embargo/core.py:275-286 | an importing module related to a prefix-free bypass list never gets an export violation |
| CheckProperties.LocalImportsAppend | import_embargo/core.py:119-128 | filtering a concatenation is concatenating the filtered parts |
| CheckProperties.ThirdPartyImportIgnored | import_embargo/core.py:309-330 | inserting a non-local import anywhere in a file changes neither violation list |
| CheckProperties.UnrestrictedImportsReportNothing | import_embargo/core.py:232-233 | when the file's directory has no governing policy or that policy has no import list, no import violation is reported |
| CheckProperties.NoConfigNoImportViolations | import_embargo/core.py:227-233 | a file with no policy file between its directory and the root gets no import violations |
| CheckProperties.PackagePolicyDoesNotGovernItsExports | import_embargo/core.py:261-268 | the export check of `from a.b import x` searches from `a`, so with a policy file only in `a/b` the import has no governing policy |
| CheckProperties.RejectedModules | import_embargo/core.py:240-243 | the modules of the local imports that a tree does not allow, each one kept exactly when it is present and not allowed |
| CheckProperties.ImportViolationsUnderOneConfig | import_embargo/core.py:227-245 | all import checks of a file use the config of its own directory; under an import list, the import violations are, in order, one record per rejected local module, each naming that list and that config's file |

## Left out

- `main` and the command line (`argparse`, the exit status and the printed report) are not part of this model.
- `get_import_nodes` (reading and parsing a file with `ast`): each file's import statements are an input, and only the `module` attribute of an `ImportFrom` node is kept. `level` and the imported names play no part in the decisions.
- `get_package_tree`, `get_files_in_dir` and `get_filenames_to_check` walk the directory tree. The package tree is an input, and only its top-level names, `set<string>`, are used. The files to check come from the caller.
- Reading and decoding policy files (`exists`, `read_text`, `json.loads`): the file system is an abstract map from directories to already-decoded records. JSON that is not an object, values of the wrong type, and an explicit `null` bypass list are not modelled. The file system does not change during a run.
- The text of the report lines: one `Violation` record stands for the three strings appended per violation.
- The "Not checking file" message printed for non-Python files is I/O. Its result, two empty lists, is modelled.
- Python's recursion limit for very deep but finite directory climbs.
- The POSIX special root `//` and non-normalised paths (`..`, `.`): paths are plain component sequences.
- Configs.ConfigLookup.GetPackageConfig: the cache is a map held by the object. Callers share one object, as they share the dictionary; aliasing of the cached `Config` objects is not modelled.
- ModuleTree.BuildAllowedModulesTree: the in-place `setdefault` updates of nested dictionaries are modelled functionally by `Insert` on immutable trees. A mode whose list is `None` raises `TypeError` in Python; the method requires the list to be present, which both callers check first.
- Paths.BuildModuleFromPath: requires the path to lie at or below the root; for any other path `relative_to` raises `ValueError`.
- Checks.CheckForAllowedImports and Checks.CheckForViolations: require the file to lie strictly below the application root, which holds for every file named by `get_filenames_to_check`. They also require the package tree's top-level names to be non-empty and free of `/`, as directory names are.
- Checks.CheckForViolations: its lists equal the decisions on the file system's configs only for a cache consistent with the file system, which holds for a run that starts from the empty cache. For any other cache they are stated through the cache, as the code computes them.
- Concurrency: there is none in the source.
