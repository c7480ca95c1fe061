/** Policy configuration and its resolution by nearest enclosing directory
    (import_embargo/core.py, `Config`, `ModuleTreeBuildingMode` and
    `get_package_config`).

    The file system is abstracted as a map from a directory to the parsed
    content of the `__embargo__.json` file inside it; a directory without
    such a file is absent from the map. */
module Configs {
  import opened Wrappers
  import opened Paths

  /** The JSON object of one `__embargo__.json`: each recognised key is absent
      (`None`) or holds a list of dotted module names. */
  datatype RawConfig = RawConfig(
    allowedImportModules: Option<seq<string>>,
    allowedExportModules: Option<seq<string>>,
    bypassExportCheckForModules: Option<seq<string>>)

  /** `Config`: an absent import or export list means "unrestricted"; the
      bypass list is always present; `path` is the config file itself. */
  datatype Config = Config(
    allowedImportModules: Option<seq<string>>,
    allowedExportModules: Option<seq<string>>,
    bypassExportCheckForModules: seq<string>,
    path: Path)

  /** `ModuleTreeBuildingMode`: which list of a config a tree is built from. */
  datatype ModuleTreeBuildingMode = Import | Export | Bypass

  /** Directory -> parsed `__embargo__.json` in that directory. */
  type FileSystem = map<Path, RawConfig>

  /** The cache `config_lookup`: config-file path -> config read from it. */
  type ConfigCache = map<Path, Config>

  const EmbargoFileName := "__embargo__.json"

  /** `Path(f"{directory_path}/__embargo__.json")`. */
  function ConfigFile(dir: Path): (file: Path)
    ensures Parent(file) == dir
  {
    dir + [EmbargoFileName]
  }

  /** The list a tree is built from in each mode (`build_allowed_modules_tree`,
      the `match mode`); the bypass list is always present. */
  function ModeEntries(config: Config, mode: ModuleTreeBuildingMode): Option<seq<string>>
  {
    match mode
    case Bypass => Some(config.bypassExportCheckForModules)
    case Import => config.allowedImportModules
    case Export => config.allowedExportModules
  }

  /** The `Config(...)` built from a config file's JSON content (`json_config.get`):
      the bypass list defaults to `[]`, the two allow-lists stay absent. */
  function ParseConfig(raw: RawConfig, file: Path): (c: Config)
    ensures c.path == file
    ensures c.allowedImportModules == raw.allowedImportModules
    ensures c.allowedExportModules == raw.allowedExportModules
    ensures c.bypassExportCheckForModules == (if raw.bypassExportCheckForModules.Some? then raw.bypassExportCheckForModules.value else [])
  {
    Config(raw.allowedImportModules, raw.allowedExportModules,
           match raw.bypassExportCheckForModules
           case Some(list) => list
           case None => [],
           file)
  }

  /** What `get_package_config` ends with. `Unterminated` is the case where
      the climb passes above the app root and reaches the file-system root
      without a config: `Path("/").parent` is `/` again, so the Python
      recursion never stops (it raises RecursionError). */
  datatype Lookup = Found(config: Config) | NoConfig | Unterminated

  /** `get_package_config` as a function of the file system and the cache:
      at each directory the cache is consulted first under the would-be
      config file, then the file system; the climb stops with no config at the
      app root. */
  function Resolve(fs: FileSystem, cache: ConfigCache, dir: Path, root: Path): Lookup
    decreases |dir|
  {
    var file := ConfigFile(dir);
    if file in cache then Found(cache[file])
    else if dir in fs then Found(ParseConfig(fs[dir], file))
    else if dir == root then NoConfig
    else if dir == [] then Unterminated
    else Resolve(fs, cache, Parent(dir), root)
  }

  /** The config that governs `dir` according to the file system alone: the
      resolution with an empty cache. */
  function Nearest(fs: FileSystem, dir: Path, root: Path): Lookup
  {
    Resolve(fs, map[], dir, root)
  }

  /** The cache after a resolution that ended with `result`: only a config
      that was not cached yet is added, under its own path. */
  function Remember(cache: ConfigCache, result: Lookup): (r: ConfigCache)
    ensures Extends(r, cache)
    ensures result.Found? ==> result.config.path in r
    ensures r.Keys <= cache.Keys + (if result.Found? then {result.config.path} else {})
    ensures result.Found? && result.config.path !in cache ==> r[result.config.path] == result.config
  {
    if result.Found? && result.config.path !in cache
    then cache[result.config.path := result.config]
    else cache
  }

  /** `bigger` keeps every entry of `smaller` unchanged: the cache is only
      ever added to, never invalidated. */
  predicate Extends(bigger: ConfigCache, smaller: ConfigCache)
  {
    forall file :: file in smaller ==> file in bigger && bigger[file] == smaller[file]
  }

  /** Every entry is stored under its own config-file path. */
  predicate KeyedByPath(cache: ConfigCache)
  {
    forall file :: file in cache ==> cache[file].path == file
  }

  /** Every cached config is what the file system holds for its file. */
  ghost predicate Consistent(fs: FileSystem, cache: ConfigCache)
  {
    forall file :: file in cache ==>
      && file == ConfigFile(Parent(file))
      && Parent(file) in fs
      && cache[file] == ParseConfig(fs[Parent(file)], file)
  }

  /** Started at the app root or below it, the climb always stops. */
  lemma {:induction false} ResolveTerminates(fs: FileSystem, cache: ConfigCache, dir: Path, root: Path)
    requires root <= dir
    ensures !Resolve(fs, cache, dir, root).Unterminated?
    decreases |dir|
  {
    if ConfigFile(dir) !in cache && dir !in fs && dir != root {
      ResolveTerminates(fs, cache, Parent(dir), root);
    }
  }

  /** A cache that agrees with the file system is invisible: resolving through
      it gives what the file system alone gives. */
  lemma {:induction false} CacheIsTransparent(fs: FileSystem, cache: ConfigCache, dir: Path, root: Path)
    requires Consistent(fs, cache)
    ensures Resolve(fs, cache, dir, root) == Nearest(fs, dir, root)
    decreases |dir|
  {
    var file := ConfigFile(dir);
    if file in cache {
      assert Parent(file) == dir;
    } else if dir !in fs && dir != root && dir != [] {
      CacheIsTransparent(fs, cache, Parent(dir), root);
    }
  }

  /** A resolution through a cache keyed by path leaves the config it returns
      stored under that config's own path once remembered. */
  lemma {:induction false} ResolveIsRemembered(fs: FileSystem, cache: ConfigCache, dir: Path, root: Path)
    requires KeyedByPath(cache)
    ensures var result := Resolve(fs, cache, dir, root);
      result.Found? ==> result.config.path in Remember(cache, result)
                        && Remember(cache, result)[result.config.path] == result.config
    decreases |dir|
  {
    var file := ConfigFile(dir);
    if file !in cache && dir !in fs && dir != root && dir != [] {
      ResolveIsRemembered(fs, cache, Parent(dir), root);
    }
  }

  /** Remembering what a search through a consistent cache found keeps the
      cache consistent: a config is only ever added under the file it was
      parsed from. */
  lemma {:induction false} RememberKeepsConsistent(fs: FileSystem, cache: ConfigCache, dir: Path, root: Path)
    requires Consistent(fs, cache)
    ensures Consistent(fs, Remember(cache, Resolve(fs, cache, dir, root)))
    decreases |dir|
  {
    var file := ConfigFile(dir);
    if file !in cache && dir !in fs && dir != root && dir != [] {
      RememberKeepsConsistent(fs, cache, Parent(dir), root);
    } else if file !in cache && dir in fs {
      assert Parent(file) == dir;
    }
  }

  /** Nearest-ancestor shadowing. For a directory at or below the app root,
      the governing config is the one of the deepest directory between the
      root and `dir` (both included) that has a config file; there is none
      exactly when no directory on that stretch has one. */
  lemma {:induction false} NearestAncestor(fs: FileSystem, dir: Path, root: Path)
    requires root <= dir
    ensures !Nearest(fs, dir, root).Unterminated?
    ensures Nearest(fs, dir, root).NoConfig? <==>
      forall k :: |root| <= k <= |dir| ==> dir[..k] !in fs
    ensures Nearest(fs, dir, root).Found? ==>
      var file := Nearest(fs, dir, root).config.path;
      var k := |file| - 1;
      && |root| <= k <= |dir|
      && file == ConfigFile(dir[..k])
      && dir[..k] in fs
      && Nearest(fs, dir, root).config == ParseConfig(fs[dir[..k]], file)
      && forall j :: k < j <= |dir| ==> dir[..j] !in fs
    decreases |dir|
  {
    assert dir[..|dir|] == dir;
    if dir !in fs && dir != root {
      var up := Parent(dir);
      NearestAncestor(fs, up, root);
      assert forall k :: 0 <= k <= |up| ==> up[..k] == dir[..k];
    }
  }

  /** The cache `config_lookup` shared by every resolution of one run. */
  class ConfigLookup {
    var entries: ConfigCache

    /** Every entry is stored under its own config-file path. */
    ghost predicate Valid()
      reads this
    {
      KeyedByPath(entries)
    }

    /** The empty cache a run starts with. */
    constructor ()
      ensures Valid() && entries == map[]
    {
      entries := map[];
    }

    /** `get_package_config(directory_path, root_path, config_lookup)`. */
    method GetPackageConfig(fs: FileSystem, directoryPath: Path, rootPath: Path) returns (r: Lookup)
      requires Valid()
      modifies this
      ensures Valid()
      ensures r == Resolve(fs, old(entries), directoryPath, rootPath)
      ensures entries == Remember(old(entries), r)
      ensures Extends(entries, old(entries))
      ensures r.Found? ==> r.config.path in entries && entries[r.config.path] == r.config
      ensures ConfigFile(directoryPath) in old(entries) ==>
        r == Found(old(entries)[ConfigFile(directoryPath)]) && entries == old(entries)
      ensures rootPath <= directoryPath ==> !r.Unterminated?
      ensures Consistent(fs, old(entries)) ==> Consistent(fs, entries)
      decreases |directoryPath|
    {
      var potentialEmbargoFile := ConfigFile(directoryPath);
      if potentialEmbargoFile in entries {
        return Found(entries[potentialEmbargoFile]);
      }
      if directoryPath !in fs {
        if directoryPath == rootPath {
          return NoConfig;
        }
        if directoryPath == [] {
          return Unterminated;
        }
        r := GetPackageConfig(fs, Parent(directoryPath), rootPath);
        return;
      }
      var config := ParseConfig(fs[directoryPath], potentialEmbargoFile);
      entries := entries[potentialEmbargoFile := config];
      return Found(config);
    }
  }
}
