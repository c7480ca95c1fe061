/** Per-edge and per-file evaluation (import_embargo/core.py,
    `get_local_import_nodes`, `check_for_allowed_imports`,
    `check_for_allowed_exports` and `check_for_violations`).

    An import edge is one `from X import Y` statement of a source file; the
    import direction asks whether the file may import `X`, the export
    direction whether `X` may be imported by the file. */
module Checks {
  import opened Wrappers
  import opened Strings
  import opened Paths
  import opened Configs
  import opened ModuleTree

  datatype Direction = ImportDirection | ExportDirection

  /** One violation. The source reports it as three lines:
      `"<file>: <module>"`, `"Allowed imports: <list>"` (or
      `"Allowed exports: <list>"`) and `"Config file: <path>"`. */
  datatype Violation = Violation(
    direction: Direction,
    file: Path,
    moduleName: string,
    allowed: seq<string>,
    configFile: Path)

  /** An `ast.ImportFrom` node, reduced to its `module` attribute, which is
      `None` for `from . import x`. */
  type ImportNode = Option<string>

  /** `str(filename).endswith(".py")`: the suffix has no `/`, so it lies in
      the last component. */
  predicate IsPythonFile(filename: Path)
  {
    filename != [] && EndsWith(filename[|filename| - 1], ".py")
  }

  /** The import is in-tree: its first dotted piece is a top-level name of
      the app root (a key of the package tree). */
  predicate IsLocal(node: ImportNode, localPackageTree: set<string>)
  {
    node.Some? && Segments(node.value)[0] in localPackageTree
  }

  /** The top-level names of a package tree are directory entries: non-empty
      and free of `/`. */
  predicate ValidPackageNames(localPackageTree: set<string>)
  {
    forall name :: name in localPackageTree ==> name != "" && '/' !in name
  }

  /** `a` is `b` with some elements left out, order kept. */
  predicate IsSubsequence<T(==)>(a: seq<T>, b: seq<T>)
    decreases |b|
  {
    if a == [] then true
    else if b == [] then false
    else if a[|a| - 1] == b[|b| - 1] then IsSubsequence(a[..|a| - 1], b[..|b| - 1])
    else IsSubsequence(a, b[..|b| - 1])
  }

  /** The nodes `get_local_import_nodes` keeps: the local ones, in order,
      each as often as it occurs. */
  function LocalImports(nodes: seq<ImportNode>, localPackageTree: set<string>): (r: seq<ImportNode>)
    ensures forall n :: n in r ==> IsLocal(n, localPackageTree)
    ensures forall n :: IsLocal(n, localPackageTree) ==> multiset(r)[n] == multiset(nodes)[n]
    decreases |nodes|
  {
    if nodes == [] then []
    else
      var init := nodes[..|nodes| - 1];
      var last := nodes[|nodes| - 1];
      assert nodes == init + [last];
      LocalImports(init, localPackageTree) + (if IsLocal(last, localPackageTree) then [last] else [])
  }

  /** The local nodes form a subsequence of all nodes. */
  lemma {:induction false} LocalImportsInOrder(nodes: seq<ImportNode>, localPackageTree: set<string>)
    ensures IsSubsequence(LocalImports(nodes, localPackageTree), nodes)
    decreases |nodes|
  {
    if nodes != [] {
      var init := nodes[..|nodes| - 1];
      var last := nodes[|nodes| - 1];
      var prev := LocalImports(init, localPackageTree);
      LocalImportsInOrder(init, localPackageTree);
      if IsLocal(last, localPackageTree) {
        assert (prev + [last])[..|prev|] == prev;
      } else {
        assert LocalImports(nodes, localPackageTree) == prev;
        if prev != [] {
          assert prev[|prev| - 1] in prev;
          assert IsLocal(prev[|prev| - 1], localPackageTree);
        }
      }
    }
  }

  /** `get_local_import_nodes(import_nodes, local_package_tree)`. */
  method GetLocalImportNodes(importNodes: seq<ImportNode>, localPackageTree: set<string>)
    returns (localImportNodes: seq<ImportNode>)
    ensures localImportNodes == LocalImports(importNodes, localPackageTree)
    ensures IsSubsequence(localImportNodes, importNodes)
    ensures forall n :: n in localImportNodes ==> IsLocal(n, localPackageTree)
    ensures forall n :: IsLocal(n, localPackageTree) ==>
      multiset(localImportNodes)[n] == multiset(importNodes)[n]
  {
    localImportNodes := [];
    for i := 0 to |importNodes|
      invariant localImportNodes == LocalImports(importNodes[..i], localPackageTree)
    {
      assert importNodes[..i + 1][..i] == importNodes[..i];
      var node := importNodes[i];
      if node.None? {
        continue;
      }
      var modulePath := Segments(node.value);
      var firstPackage := modulePath[0];
      if firstPackage in localPackageTree {
        localImportNodes := localImportNodes + [node];
      }
    }
    assert importNodes[..|importNodes|] == importNodes;
    LocalImportsInOrder(importNodes, localPackageTree);
  }

  /** The decision of `check_for_allowed_imports` once the config of the
      importing file's directory is known. */
  function ImportDecision(lookup: Lookup, filename: Path, node: ImportNode): (r: seq<Violation>)
    requires !lookup.Unterminated?
    ensures |r| <= 1
    ensures lookup.NoConfig? || lookup.config.allowedImportModules.None? || node.None? ==> r == []
    ensures lookup.Found? && lookup.config.allowedImportModules.Some? && node.Some? ==>
      (r == [] <==> Reaches(BuildTree(lookup.config.allowedImportModules.value), Segments(node.value)))
    ensures r != [] ==>
      && lookup.Found? && lookup.config.allowedImportModules.Some? && node.Some?
      && r[0] == Violation(ImportDirection, filename, node.value,
                           lookup.config.allowedImportModules.value, lookup.config.path)
  {
    match lookup
    case NoConfig => []
    case Found(config) =>
      if config.allowedImportModules.None? || node.None? then []
      else
        var tree := BuildTree(config.allowedImportModules.value);
        WalkReaches(tree, Segments(node.value));
        if Allowed(tree, node.value) then []
        else [Violation(ImportDirection, filename, node.value, config.allowedImportModules.value, config.path)]
  }

  /** The directory whose config governs exports of the imported module: the parent of
      `build_path_from_import(node.module or "", root)`. */
  function ExportDirectory(node: ImportNode, root: Path): Path
  {
    Parent(BuildPathFromImport(if node.Some? then node.value else "", root))
  }

  /** The decision of `check_for_allowed_exports` once the config governing
      the imported module is known. The bypass list is matched against the
      importing file's own module name, and only when an export list exists. */
  function ExportDecision(lookup: Lookup, importingFile: Path, root: Path, node: ImportNode): (r: Outcome<seq<Violation>>)
    requires root <= importingFile
    ensures r.RecursionError? <==> lookup.Unterminated?
    ensures r.Ok? ==> |r.value| <= 1
    ensures lookup.NoConfig? || (lookup.Found? && (lookup.config.allowedExportModules.None? || node.None?)) ==>
      r == Ok([])
    ensures (&& lookup.Found? && lookup.config.allowedExportModules.Some?
             && Reaches(BuildTree(lookup.config.bypassExportCheckForModules), Segments(BuildModuleFromPath(importingFile, root))))
      ==> r == Ok([])
    ensures (&& lookup.Found? && lookup.config.allowedExportModules.Some? && node.Some?
             && !Reaches(BuildTree(lookup.config.bypassExportCheckForModules), Segments(BuildModuleFromPath(importingFile, root))))
      ==> (r == Ok([]) <==> Reaches(BuildTree(lookup.config.allowedExportModules.value), Segments(node.value)))
    ensures r.Ok? && r.value != [] ==>
      && lookup.Found? && lookup.config.allowedExportModules.Some? && node.Some?
      && r.value[0] == Violation(ExportDirection, importingFile, node.value,
                                 lookup.config.allowedExportModules.value, lookup.config.path)
  {
    match lookup
    case Unterminated => RecursionError
    case NoConfig => Ok([])
    case Found(config) =>
      if config.allowedExportModules.None? || node.None? then Ok([])
      else
        var importer := BuildModuleFromPath(importingFile, root);
        var bypassTree := BuildTree(config.bypassExportCheckForModules);
        var exportTree := BuildTree(config.allowedExportModules.value);
        WalkReaches(bypassTree, Segments(importer));
        WalkReaches(exportTree, Segments(node.value));
        if Allowed(bypassTree, importer) then Ok([])
        else if Allowed(exportTree, node.value) then Ok([])
        else Ok([Violation(ExportDirection, importingFile, node.value, config.allowedExportModules.value, config.path)])
  }

  /** `check_for_allowed_imports(filename, app_root_path, config_lookup, node)`. */
  method CheckForAllowedImports(fs: FileSystem, filename: Path, appRootPath: Path, configLookup: ConfigLookup, node: ImportNode)
    returns (violations: seq<Violation>)
    requires configLookup.Valid()
    requires appRootPath < filename
    modifies configLookup
    ensures configLookup.Valid()
    ensures !Resolve(fs, old(configLookup.entries), Parent(filename), appRootPath).Unterminated?
    ensures violations == ImportDecision(Resolve(fs, old(configLookup.entries), Parent(filename), appRootPath), filename, node)
    ensures configLookup.entries == Remember(old(configLookup.entries), Resolve(fs, old(configLookup.entries), Parent(filename), appRootPath))
    ensures Consistent(fs, old(configLookup.entries)) ==> Consistent(fs, configLookup.entries)
  {
    assert appRootPath <= Parent(filename);
    ResolveTerminates(fs, configLookup.entries, Parent(filename), appRootPath);
    var config := configLookup.GetPackageConfig(fs, Parent(filename), appRootPath);
    if config.NoConfig? || config.config.allowedImportModules.None? {
      return [];
    }
    var allowedModulesTree := BuildAllowedModulesTree(config.config, Import);
    if node.None? {
      return [];
    }
    var ok := IsOperationAllowed(node.value, allowedModulesTree);
    if ok {
      return [];
    }
    violations := [Violation(ImportDirection, filename, node.value, config.config.allowedImportModules.value, config.config.path)];
  }

  /** `check_for_allowed_exports(importing_file, app_root_path, config_lookup, node)`.
      The result is `RecursionError` when the module has no non-empty dotted
      piece (`node.module` is `None`, say) and no policy file is found above the
      root: the module's path is then the root itself, whose parent lies above
      the root, and the climb never meets the root. */
  method CheckForAllowedExports(fs: FileSystem, importingFile: Path, appRootPath: Path, configLookup: ConfigLookup, node: ImportNode)
    returns (violations: Outcome<seq<Violation>>)
    requires configLookup.Valid()
    requires appRootPath <= importingFile
    modifies configLookup
    ensures configLookup.Valid()
    ensures violations == ExportDecision(Resolve(fs, old(configLookup.entries), ExportDirectory(node, appRootPath), appRootPath),
                                         importingFile, appRootPath, node)
    ensures configLookup.entries == Remember(old(configLookup.entries), Resolve(fs, old(configLookup.entries), ExportDirectory(node, appRootPath), appRootPath))
    ensures node.Some? && NamesTopLevelEntry(node.value) ==> violations.Ok?
    ensures Consistent(fs, old(configLookup.entries)) ==> Consistent(fs, configLookup.entries)
  {
    var pathOfImportedModule := BuildPathFromImport(if node.Some? then node.value else "", appRootPath);
    if node.Some? && NamesTopLevelEntry(node.value) {
      ImportPathBelowRoot(node.value, appRootPath);
    }
    var config := configLookup.GetPackageConfig(fs, Parent(pathOfImportedModule), appRootPath);
    if config.Unterminated? {
      return RecursionError;
    }
    if config.NoConfig? || config.config.allowedExportModules.None? {
      return Ok([]);
    }
    var allowedModulesTree := BuildAllowedModulesTree(config.config, Export);
    var bypassModulesTree := BuildAllowedModulesTree(config.config, Bypass);
    if node.None? {
      return Ok([]);
    }
    var bypass := CanBypassCheck(BuildModuleFromPath(importingFile, appRootPath), bypassModulesTree);
    if bypass {
      return Ok([]);
    }
    var ok := IsOperationAllowed(node.value, allowedModulesTree);
    if ok {
      return Ok([]);
    }
    return Ok([Violation(ExportDirection, importingFile, node.value, config.config.allowedExportModules.value, config.config.path)]);
  }

  /** A local node of a package tree with real names names a top-level entry. */
  lemma LocalNamesTopLevelEntry(node: ImportNode, localPackageTree: set<string>)
    requires ValidPackageNames(localPackageTree) && IsLocal(node, localPackageTree)
    ensures NamesTopLevelEntry(node.value)
  {
  }

  /** Every kept import of a package tree with real names names a top-level entry. */
  lemma LocalImportsNameTopLevelEntries(nodes: seq<ImportNode>, localPackageTree: set<string>)
    requires ValidPackageNames(localPackageTree)
    ensures forall j :: 0 <= j < |LocalImports(nodes, localPackageTree)| ==>
      LocalImports(nodes, localPackageTree)[j].Some? && NamesTopLevelEntry(LocalImports(nodes, localPackageTree)[j].value)
  {
    var locals := LocalImports(nodes, localPackageTree);
    forall j | 0 <= j < |locals|
      ensures locals[j].Some? && NamesTopLevelEntry(locals[j].value)
    {
      assert locals[j] in locals;
      LocalNamesTopLevelEntry(locals[j], localPackageTree);
    }
  }

  /** The import result and the export result of one local edge, with both
      configs resolved from the file system. */
  function EdgeResult(fs: FileSystem, filename: Path, root: Path, node: ImportNode): (r: (seq<Violation>, seq<Violation>))
    requires root < filename
    requires node.Some? && NamesTopLevelEntry(node.value)
    ensures |r.0| <= 1 && |r.1| <= 1
    ensures forall v :: v in r.0 ==> v.direction == ImportDirection && v.file == filename && v.moduleName == node.value
    ensures forall v :: v in r.1 ==> v.direction == ExportDirection && v.file == filename && v.moduleName == node.value
  {
    assert root <= Parent(filename);
    ResolveTerminates(fs, map[], Parent(filename), root);
    ImportPathBelowRoot(node.value, root);
    ResolveTerminates(fs, map[], ExportDirectory(node, root), root);
    (ImportDecision(Nearest(fs, Parent(filename), root), filename, node),
     ExportDecision(Nearest(fs, ExportDirectory(node, root), root), filename, root, node).value)
  }

  /** The violations of a file's local edges, with every config resolved from
      the file system: per edge, the import result then the export result,
      concatenated in edge order. */
  function EdgeViolations(fs: FileSystem, filename: Path, root: Path, locals: seq<ImportNode>): (r: (seq<Violation>, seq<Violation>))
    requires root < filename
    requires forall i :: 0 <= i < |locals| ==> locals[i].Some? && NamesTopLevelEntry(locals[i].value)
    ensures |r.0| <= |locals| && |r.1| <= |locals|
    ensures forall v :: v in r.0 ==> v.direction == ImportDirection && v.file == filename && Some(v.moduleName) in locals
    ensures forall v :: v in r.1 ==> v.direction == ExportDirection && v.file == filename && Some(v.moduleName) in locals
    decreases |locals|
  {
    if locals == [] then ([], [])
    else
      var init := locals[..|locals| - 1];
      var node := locals[|locals| - 1];
      assert forall n :: n in init ==> n in locals;
      var prev := EdgeViolations(fs, filename, root, init);
      var edge := EdgeResult(fs, filename, root, node);
      (prev.0 + edge.0, prev.1 + edge.1)
  }

  /** What `check_for_violations` reports for one file given the import nodes
      of its `from ... import ...` statements; a file not ending in `.py`
      reports nothing. */
  function FileViolations(fs: FileSystem, filename: Path, root: Path, localPackageTree: set<string>, importNodes: seq<ImportNode>)
    : (r: (seq<Violation>, seq<Violation>))
    requires root < filename
    requires ValidPackageNames(localPackageTree)
  {
    if !IsPythonFile(filename) then ([], [])
    else
      var locals := LocalImports(importNodes, localPackageTree);
      assert forall i :: 0 <= i < |locals| ==> locals[i] in locals;
      EdgeViolations(fs, filename, root, locals)
  }

  /** The cache after one local edge: the search from the file's directory,
      then the search from the imported module's directory, each remembering
      the config it found. */
  function EdgeCache(fs: FileSystem, cache: ConfigCache, filename: Path, root: Path, node: ImportNode): (r: ConfigCache)
    ensures Extends(r, cache)
    ensures KeyedByPath(cache) ==> KeyedByPath(r)
  {
    var middle := Remember(cache, Resolve(fs, cache, Parent(filename), root));
    Remember(middle, Resolve(fs, middle, ExportDirectory(node, root), root))
  }

  /** The import result and the export result of one local edge as the code
      computes them, with both searches going through the cache. */
  function CachedEdgeResult(fs: FileSystem, cache: ConfigCache, filename: Path, root: Path, node: ImportNode)
    : (r: (seq<Violation>, seq<Violation>))
    requires root < filename
    requires node.Some? && NamesTopLevelEntry(node.value)
  {
    assert root <= Parent(filename);
    ResolveTerminates(fs, cache, Parent(filename), root);
    var middle := Remember(cache, Resolve(fs, cache, Parent(filename), root));
    ImportPathBelowRoot(node.value, root);
    ResolveTerminates(fs, middle, ExportDirectory(node, root), root);
    (ImportDecision(Resolve(fs, cache, Parent(filename), root), filename, node),
     ExportDecision(Resolve(fs, middle, ExportDirectory(node, root), root), filename, root, node).value)
  }

  /** The cache after the searches of the local edges, in edge order. */
  function CacheAfterEdges(fs: FileSystem, cache: ConfigCache, filename: Path, root: Path, locals: seq<ImportNode>)
    : (r: ConfigCache)
    ensures Extends(r, cache)
    ensures KeyedByPath(cache) ==> KeyedByPath(r)
    decreases |locals|
  {
    if locals == [] then cache
    else EdgeCache(fs, CacheAfterEdges(fs, cache, filename, root, locals[..|locals| - 1]), filename, root, locals[|locals| - 1])
  }

  /** The violations of the local edges as the code computes them: each edge's
      results through the cache left by the edges before it, concatenated in
      edge order. */
  function CachedEdgeViolations(fs: FileSystem, cache: ConfigCache, filename: Path, root: Path, locals: seq<ImportNode>)
    : (r: (seq<Violation>, seq<Violation>))
    requires root < filename
    requires forall i :: 0 <= i < |locals| ==> locals[i].Some? && NamesTopLevelEntry(locals[i].value)
    decreases |locals|
  {
    if locals == [] then ([], [])
    else
      var init := locals[..|locals| - 1];
      var prev := CachedEdgeViolations(fs, cache, filename, root, init);
      var edge := CachedEdgeResult(fs, CacheAfterEdges(fs, cache, filename, root, init), filename, root, locals[|locals| - 1]);
      (prev.0 + edge.0, prev.1 + edge.1)
  }

  /** Slicing a sequence at its length gives the whole sequence. */
  lemma WholeSlice(s: seq<ImportNode>)
    ensures s[..|s|] == s
  {
  }

  /** One more edge applies its two searches to the cache. */
  lemma CacheAfterEdgesStep(fs: FileSystem, cache: ConfigCache, filename: Path, root: Path, locals: seq<ImportNode>, i: nat)
    requires i < |locals|
    ensures CacheAfterEdges(fs, cache, filename, root, locals[..i + 1])
      == EdgeCache(fs, CacheAfterEdges(fs, cache, filename, root, locals[..i]), filename, root, locals[i])
  {
    assert locals[..i + 1][..i] == locals[..i];
  }

  /** One more edge appends its two results, computed through the cache the
      edges before it left. */
  lemma CachedEdgeViolationsStep(fs: FileSystem, cache: ConfigCache, filename: Path, root: Path, locals: seq<ImportNode>, i: nat)
    requires root < filename
    requires forall j :: 0 <= j < |locals| ==> locals[j].Some? && NamesTopLevelEntry(locals[j].value)
    requires i < |locals|
    ensures var edge := CachedEdgeResult(fs, CacheAfterEdges(fs, cache, filename, root, locals[..i]), filename, root, locals[i]);
      CachedEdgeViolations(fs, cache, filename, root, locals[..i + 1])
        == (CachedEdgeViolations(fs, cache, filename, root, locals[..i]).0 + edge.0,
            CachedEdgeViolations(fs, cache, filename, root, locals[..i]).1 + edge.1)
  {
    assert locals[..i + 1][..i] == locals[..i];
  }

  /** Starting from a cache consistent with the file system, the cache stays
      consistent over the edges, and the violations the code computes through
      it are the violations with every config taken from the file system. */
  lemma {:induction false} CachedEdgeViolationsAgree(fs: FileSystem, cache: ConfigCache, filename: Path, root: Path,
                                                     locals: seq<ImportNode>)
    requires Consistent(fs, cache)
    requires root < filename
    requires forall i :: 0 <= i < |locals| ==> locals[i].Some? && NamesTopLevelEntry(locals[i].value)
    ensures Consistent(fs, CacheAfterEdges(fs, cache, filename, root, locals))
    ensures CachedEdgeViolations(fs, cache, filename, root, locals) == EdgeViolations(fs, filename, root, locals)
    decreases |locals|
  {
    if locals != [] {
      var init := locals[..|locals| - 1];
      var node := locals[|locals| - 1];
      assert forall j :: 0 <= j < |init| ==> init[j] == locals[j];
      CachedEdgeViolationsAgree(fs, cache, filename, root, init);
      var before := CacheAfterEdges(fs, cache, filename, root, init);
      CacheIsTransparent(fs, before, Parent(filename), root);
      RememberKeepsConsistent(fs, before, Parent(filename), root);
      var middle := Remember(before, Resolve(fs, before, Parent(filename), root));
      CacheIsTransparent(fs, middle, ExportDirectory(node, root), root);
      RememberKeepsConsistent(fs, middle, ExportDirectory(node, root), root);
    }
  }

  /** One pass of the loop of `check_for_violations`: the import check of a
      local edge, then its export check. */
  method CheckEdge(fs: FileSystem, filename: Path, appRootPath: Path, configLookup: ConfigLookup, node: ImportNode)
    returns (imports: seq<Violation>, exports: seq<Violation>)
    requires configLookup.Valid()
    requires appRootPath < filename
    requires node.Some? && NamesTopLevelEntry(node.value)
    modifies configLookup
    ensures configLookup.Valid()
    ensures configLookup.entries == EdgeCache(fs, old(configLookup.entries), filename, appRootPath, node)
    ensures (imports, exports) == CachedEdgeResult(fs, old(configLookup.entries), filename, appRootPath, node)
  {
    imports := CheckForAllowedImports(fs, filename, appRootPath, configLookup, node);
    var outcome := CheckForAllowedExports(fs, filename, appRootPath, configLookup, node);
    exports := outcome.value;
  }

  /** The loop of `check_for_violations` over the local import nodes. */
  method CheckLocalEdges(fs: FileSystem, filename: Path, appRootPath: Path, configLookup: ConfigLookup,
                         localImportNodes: seq<ImportNode>)
    returns (importViolations: seq<Violation>, exportViolations: seq<Violation>)
    requires configLookup.Valid()
    requires appRootPath < filename
    requires forall j :: 0 <= j < |localImportNodes| ==>
      localImportNodes[j].Some? && NamesTopLevelEntry(localImportNodes[j].value)
    modifies configLookup
    ensures configLookup.Valid()
    ensures configLookup.entries == CacheAfterEdges(fs, old(configLookup.entries), filename, appRootPath, localImportNodes)
    ensures (importViolations, exportViolations)
      == CachedEdgeViolations(fs, old(configLookup.entries), filename, appRootPath, localImportNodes)
  {
    importViolations, exportViolations := [], [];
    for i := 0 to |localImportNodes|
      invariant configLookup.Valid()
      invariant configLookup.entries == CacheAfterEdges(fs, old(configLookup.entries), filename, appRootPath, localImportNodes[..i])
      invariant (importViolations, exportViolations)
        == CachedEdgeViolations(fs, old(configLookup.entries), filename, appRootPath, localImportNodes[..i])
    {
      CacheAfterEdgesStep(fs, old(configLookup.entries), filename, appRootPath, localImportNodes, i);
      CachedEdgeViolationsStep(fs, old(configLookup.entries), filename, appRootPath, localImportNodes, i);
      var imports, exports := CheckEdge(fs, filename, appRootPath, configLookup, localImportNodes[i]);
      importViolations, exportViolations := importViolations + imports, exportViolations + exports;
    }
    WholeSlice(localImportNodes);
  }

  /** `check_for_violations(filename, app_root_path, local_packages_tree,
      config_lookup)`, with the file's import nodes given (reading and parsing
      the file is not modelled). */
  method CheckForViolations(fs: FileSystem, filename: Path, appRootPath: Path, localPackagesTree: set<string>,
                            configLookup: ConfigLookup, importNodes: seq<ImportNode>)
    returns (importViolations: seq<Violation>, exportViolations: seq<Violation>)
    requires configLookup.Valid()
    requires appRootPath < filename
    requires ValidPackageNames(localPackagesTree)
    modifies configLookup
    ensures configLookup.Valid()
    ensures !IsPythonFile(filename) ==>
      importViolations == [] && exportViolations == [] && configLookup.entries == old(configLookup.entries)
    ensures Extends(configLookup.entries, old(configLookup.entries))
    ensures IsPythonFile(filename) ==>
      configLookup.entries == CacheAfterEdges(fs, old(configLookup.entries), filename, appRootPath,
                                              LocalImports(importNodes, localPackagesTree))
    ensures IsPythonFile(filename) ==>
      (LocalImportsNameTopLevelEntries(importNodes, localPackagesTree);
       (importViolations, exportViolations) == CachedEdgeViolations(fs, old(configLookup.entries), filename, appRootPath,
                                                                    LocalImports(importNodes, localPackagesTree)))
    ensures Consistent(fs, old(configLookup.entries)) ==>
      && Consistent(fs, configLookup.entries)
      && (importViolations, exportViolations) == FileViolations(fs, filename, appRootPath, localPackagesTree, importNodes)
  {
    if !IsPythonFile(filename) {
      return [], [];
    }
    var localImportNodes := GetLocalImportNodes(importNodes, localPackagesTree);
    LocalImportsNameTopLevelEntries(importNodes, localPackagesTree);
    importViolations, exportViolations := CheckLocalEdges(fs, filename, appRootPath, configLookup, localImportNodes);
    if Consistent(fs, old(configLookup.entries)) {
      CachedEdgeViolationsAgree(fs, old(configLookup.entries), filename, appRootPath, localImportNodes);
    }
  }
}

/** Properties of the per-edge and per-file evaluation. */
module CheckProperties {
  import opened Wrappers
  import opened Strings
  import opened Paths
  import opened Configs
  import opened ModuleTree
  import opened Checks

  /** With a prefix-free import list, an edge is reported exactly when no
      entry is related to the imported module. */
  lemma ImportViolationIffUnrelated(config: Config, filename: Path, moduleName: string)
    requires config.allowedImportModules.Some?
    requires PrefixFree(config.allowedImportModules.value)
    ensures ImportDecision(Found(config), filename, Some(moduleName)) != [] <==>
      !Related(config.allowedImportModules.value, Segments(moduleName))
  {
    var tree := BuildTree(config.allowedImportModules.value);
    WalkReaches(tree, Segments(moduleName));
    AllowedIffRelated(config.allowedImportModules.value, moduleName);
  }

  /** With a prefix-free export list and an importer the bypass list does not
      exempt, an edge is reported exactly when no export entry is related to
      the imported module. */
  lemma ExportViolationIffUnrelated(config: Config, importingFile: Path, root: Path, moduleName: string)
    requires root <= importingFile
    requires config.allowedExportModules.Some?
    requires PrefixFree(config.allowedExportModules.value)
    requires !Allowed(BuildTree(config.bypassExportCheckForModules), BuildModuleFromPath(importingFile, root))
    ensures ExportDecision(Found(config), importingFile, root, Some(moduleName)) != Ok([]) <==>
      !Related(config.allowedExportModules.value, Segments(moduleName))
  {
    var importer := BuildModuleFromPath(importingFile, root);
    WalkReaches(BuildTree(config.bypassExportCheckForModules), Segments(importer));
    WalkReaches(BuildTree(config.allowedExportModules.value), Segments(moduleName));
    AllowedIffRelated(config.allowedExportModules.value, moduleName);
  }

  /** A prefix-free bypass list exempts every importer related to one of its
      entries, whatever the export list says. */
  lemma BypassSuppressesExportViolation(config: Config, importingFile: Path, root: Path, node: ImportNode)
    requires root <= importingFile
    requires config.allowedExportModules.Some?
    requires PrefixFree(config.bypassExportCheckForModules)
    requires Related(config.bypassExportCheckForModules, Segments(BuildModuleFromPath(importingFile, root)))
    ensures ExportDecision(Found(config), importingFile, root, node) == Ok([])
  {
    var importer := BuildModuleFromPath(importingFile, root);
    AllowedIffRelated(config.bypassExportCheckForModules, importer);
    WalkReaches(BuildTree(config.bypassExportCheckForModules), Segments(importer));
  }

  /** Filtering a concatenation filters each part. */
  lemma {:induction false} LocalImportsAppend(a: seq<ImportNode>, b: seq<ImportNode>, localPackageTree: set<string>)
    ensures LocalImports(a + b, localPackageTree) == LocalImports(a, localPackageTree) + LocalImports(b, localPackageTree)
    decreases |b|
  {
    if b == [] {
      assert a + b == a;
    } else {
      var init := b[..|b| - 1];
      assert (a + b)[..|a + b| - 1] == a + init;
      LocalImportsAppend(a, init, localPackageTree);
    }
  }

  /** A third-party import, wherever it stands among a file's imports,
      changes nothing in what the file reports. */
  lemma ThirdPartyImportIgnored(fs: FileSystem, filename: Path, root: Path, localPackageTree: set<string>,
                                before: seq<ImportNode>, node: ImportNode, after: seq<ImportNode>)
    requires root < filename
    requires ValidPackageNames(localPackageTree)
    requires !IsLocal(node, localPackageTree)
    ensures FileViolations(fs, filename, root, localPackageTree, before + [node] + after) ==
            FileViolations(fs, filename, root, localPackageTree, before + after)
  {
    assert [node][..0] == [];
    assert LocalImports([node], localPackageTree) == [];
    LocalImportsAppend(before, [node], localPackageTree);
    LocalImportsAppend(before + [node], after, localPackageTree);
    LocalImportsAppend(before, after, localPackageTree);
    assert LocalImports(before + [node] + after, localPackageTree) == LocalImports(before + after, localPackageTree);
  }

  /** When the importing file's directory is governed by no config, or by one
      without an import list, no edge is reported in the import direction. */
  lemma {:induction false} UnrestrictedImportsReportNothing(fs: FileSystem, filename: Path, root: Path, locals: seq<ImportNode>)
    requires root < filename
    requires forall i :: 0 <= i < |locals| ==> locals[i].Some? && NamesTopLevelEntry(locals[i].value)
    requires Nearest(fs, Parent(filename), root).NoConfig? ||
             (Nearest(fs, Parent(filename), root).Found? && Nearest(fs, Parent(filename), root).config.allowedImportModules.None?)
    ensures EdgeViolations(fs, filename, root, locals).0 == []
    decreases |locals|
  {
    if locals != [] {
      UnrestrictedImportsReportNothing(fs, filename, root, locals[..|locals| - 1]);
    }
  }

  /** The export check of `from a.b import x` climbs from the parent of
      `a/b`, so a policy file inside the package directory `a/b` itself is
      never consulted: with that file as the only one, the imported module
      has no governing policy. */
  lemma PackagePolicyDoesNotGovernItsExports(fs: FileSystem, root: Path, raw: RawConfig)
    requires fs == map[root + ["a", "b"] := raw]
    ensures ExportDirectory(Some("a.b"), root) == root + ["a"]
    ensures Nearest(fs, ExportDirectory(Some("a.b"), root), root) == NoConfig
  {
    SplitReplaced("a.b", '.', '/');
    SplitJoin(["a", "b"], '.');
    assert Join(["a", "b"], '.') == "a.b";
    assert NonEmpty(["a", "b"]) == ["a", "b"];
    assert Parent(root + ["a", "b"]) == root + ["a"];
    assert Parent(root + ["a"]) == root;
    assert root + ["a"] !in fs && root !in fs by {
      assert |root + ["a"]| != |root + ["a", "b"]| && |root| != |root + ["a", "b"]|;
    }
    assert Nearest(fs, root + ["a"], root) == Resolve(fs, map[], root, root);
  }

  /** No config file from the importing file's directory up to the app root:
      the file may import anything. */
  lemma NoConfigNoImportViolations(fs: FileSystem, filename: Path, root: Path, localPackageTree: set<string>, importNodes: seq<ImportNode>)
    requires root < filename
    requires ValidPackageNames(localPackageTree)
    requires forall k :: |root| <= k <= |Parent(filename)| ==> Parent(filename)[..k] !in fs
    ensures FileViolations(fs, filename, root, localPackageTree, importNodes).0 == []
  {
    assert root <= Parent(filename);
    NearestAncestor(fs, Parent(filename), root);
    if IsPythonFile(filename) {
      var locals := LocalImports(importNodes, localPackageTree);
      assert forall i :: 0 <= i < |locals| ==> locals[i] in locals;
      UnrestrictedImportsReportNothing(fs, filename, root, locals);
    }
  }

  /** The modules of `locals`, in order, that the tree does not allow. */
  function RejectedModules(tree: Node, locals: seq<ImportNode>): (r: seq<string>)
    ensures |r| <= |locals|
    ensures forall m :: m in r ==> Some(m) in locals && !Allowed(tree, m)
    ensures forall m :: Some(m) in locals && !Allowed(tree, m) ==> m in r
    decreases |locals|
  {
    if locals == [] then []
    else
      var init := locals[..|locals| - 1];
      var last := locals[|locals| - 1];
      assert locals == init + [last];
      var prev := RejectedModules(tree, init);
      if last.Some? && !Allowed(tree, last.value) then prev + [last.value] else prev
  }

  /** Every import check of a file consults the same config, the one governing
      the file's own directory. Under a config with an import list, the
      file's import violations are, in order, one record per local module the
      import tree does not allow, each naming that list and that config's
      file. */
  lemma {:induction false} ImportViolationsUnderOneConfig(fs: FileSystem, filename: Path, root: Path, locals: seq<ImportNode>)
    requires root < filename
    requires forall i :: 0 <= i < |locals| ==> locals[i].Some? && NamesTopLevelEntry(locals[i].value)
    requires Nearest(fs, Parent(filename), root).Found?
    requires Nearest(fs, Parent(filename), root).config.allowedImportModules.Some?
    ensures var config := Nearest(fs, Parent(filename), root).config;
      var rejected := RejectedModules(BuildTree(config.allowedImportModules.value), locals);
      var r := EdgeViolations(fs, filename, root, locals).0;
      && |r| == |rejected|
      && forall i :: 0 <= i < |r| ==>
           r[i] == Violation(ImportDirection, filename, rejected[i], config.allowedImportModules.value, config.path)
    decreases |locals|
  {
    if locals != [] {
      var config := Nearest(fs, Parent(filename), root).config;
      var tree := BuildTree(config.allowedImportModules.value);
      var init := locals[..|locals| - 1];
      var node := locals[|locals| - 1];
      ImportViolationsUnderOneConfig(fs, filename, root, init);
      var d := ImportDecision(Nearest(fs, Parent(filename), root), filename, node);
      assert EdgeViolations(fs, filename, root, locals).0 == EdgeViolations(fs, filename, root, init).0 + d;
      WalkReaches(tree, Segments(node.value));
      assert d == [] <==> Allowed(tree, node.value);
    }
  }
}
