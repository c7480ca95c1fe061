/** File-system paths of the engine (`pathlib.Path`) and the two conversions
    between a dotted module name and the path of its source file
    (import_embargo/core.py, `build_path_from_import` and
    `build_module_from_path`).

    A path is the sequence of its components below the file-system root, so
    `/` is `[]` and `/app/pkg` is `["app", "pkg"]`. `pathlib` drops empty
    components (`a//b` is `a/b`, a trailing `/` vanishes), which is what
    `NonEmpty` does below. */
module Paths {
  import opened Strings

  type Path = seq<string>

  /** `Path.parent`: the path without its last component; the parent of the
      file-system root is the root itself. */
  function Parent(p: Path): (r: Path)
    ensures r <= p
    ensures p != [] ==> |r| == |p| - 1
  {
    if p == [] then [] else p[..|p| - 1]
  }

  /** The components that survive `pathlib`'s normalisation, in order. */
  function NonEmpty(parts: seq<string>): (r: seq<string>)
    ensures forall i :: 0 <= i < |r| ==> r[i] != ""
    ensures (forall i :: 0 <= i < |parts| ==> parts[i] != "") ==> r == parts
    ensures |parts| > 0 && parts[0] != "" ==> r != [] && r[0] == parts[0]
    ensures forall x :: x != "" ==> multiset(r)[x] == multiset(parts)[x]
    decreases |parts|
  {
    if parts == [] then []
    else
      assert parts == [parts[0]] + parts[1..];
      if parts[0] == "" then NonEmpty(parts[1..])
      else [parts[0]] + NonEmpty(parts[1..])
  }

  /** Normalising a concatenation normalises each part, so the surviving
      components keep their order. */
  lemma {:induction false} NonEmptyAppend(a: seq<string>, b: seq<string>)
    ensures NonEmpty(a + b) == NonEmpty(a) + NonEmpty(b)
    decreases |a|
  {
    if a == [] {
      assert a + b == b;
    } else {
      assert (a + b)[0] == a[0];
      assert (a + b)[1..] == a[1..] + b;
      NonEmptyAppend(a[1..], b);
    }
  }

  /** `build_path_from_import`: `Path(f"{root}/{module.replace('.', '/')}")`.
      Every `.` of the module becomes a separator; empty pieces disappear. */
  function BuildPathFromImport(moduleImport: string, rootPath: Path): (r: Path)
    ensures rootPath <= r
  {
    rootPath + NonEmpty(Split(ReplaceChar(moduleImport, '.', '/'), '/'))
  }

  /** `build_module_from_path`: the path relative to the root (which
      `relative_to` demands to be an ancestor, raising ValueError otherwise),
      rendered with `/`, every `/` turned into `.`, then every `.py` deleted.
      The root relative to itself is `Path(".")`, rendered `"."`. */
  function BuildModuleFromPath(path: Path, rootPath: Path): string
    requires rootPath <= path
  {
    var relative := path[|rootPath|..];
    var text := if relative == [] then "." else Join(relative, '/');
    DeleteAll(ReplaceChar(text, '/', '.'), ".py")
  }

  /** The dotted pieces of a module name: `module.split(".")`. */
  function Segments(moduleName: string): (r: seq<string>)
    ensures |r| >= 1
  {
    Split(moduleName, '.')
  }

  /** A module name whose first dotted piece is a real top-level file or
      directory name (non-empty, without `/`). */
  predicate NamesTopLevelEntry(moduleName: string)
  {
    var first := Segments(moduleName)[0];
    first != "" && '/' !in first
  }

  /** A module whose first piece names a top-level entry lives strictly below
      the root, so the directory holding it is the root or below it. */
  lemma ImportPathBelowRoot(moduleName: string, rootPath: Path)
    requires NamesTopLevelEntry(moduleName)
    ensures rootPath < BuildPathFromImport(moduleName, rootPath)
    ensures rootPath <= Parent(BuildPathFromImport(moduleName, rootPath))
  {
    var m := moduleName;
    assert m != [] && m[0] != '.';
    assert Segments(m)[0][0] == m[0];
    var t := ReplaceChar(m, '.', '/');
    assert t[0] == m[0] && t[0] != '/';
    var parts := Split(t, '/');
    assert parts[0] != "";
  }

  /** Converting a module name to its path and back gives the module name,
      provided each dotted piece is non-empty (so `pathlib` drops nothing),
      the name holds no `/` (which `pathlib` would also split on) and no
      `.py` (which the way back deletes). */
  lemma ModulePathRoundTrip(moduleName: string, rootPath: Path)
    requires forall i :: 0 <= i < |Segments(moduleName)| ==> Segments(moduleName)[i] != ""
    requires '/' !in moduleName
    requires !Contains(moduleName, ".py")
    ensures BuildModuleFromPath(BuildPathFromImport(moduleName, rootPath), rootPath) == moduleName
  {
    var m := moduleName;
    var parts := Segments(m);
    var t := ReplaceChar(m, '.', '/');
    SplitReplaced(m, '.', '/');
    assert Split(t, '/') == parts;
    var path := BuildPathFromImport(m, rootPath);
    assert path == rootPath + parts;
    assert path[|rootPath|..] == parts;
    JoinSplit(t, '/');
    assert Join(parts, '/') == t;
    ReplaceBack(m, '.', '/');
    DeleteAllAbsent(m, ".py");
  }

  /** A name without `.` followed by `.py` loses exactly that `.py`. */
  lemma DeleteExtensionOfPiece(name: string)
    requires '.' !in name
    ensures DeleteAll(name + ".py", ".py") == name
  {
    forall i | 0 <= i < |name| ensures !OccursAt(name + ".py", ".py", i) {
      assert (name + ".py")[i] == name[i];
    }
    DeleteAllKeep(name, ".py", ".py");
    assert DeleteAll(".py", ".py") == [];
    assert name + [] == name;
  }

  /** No `.py` starts within `first.` when `first` has no `.` and what follows
      the separator is `next` (not starting with `py`) and then another `.`. */
  lemma NoExtensionAtSeparator(first: string, next: string, t: string)
    requires '.' !in first
    requires !("py" <= next)
    requires |next| < |t| && t[..|next|] == next && t[|next|] == '.'
    ensures forall i :: 0 <= i < |first| + 1 ==> !OccursAt(first + ['.'] + t, ".py", i)
  {
    var s := first + ['.'] + t;
    forall i | 0 <= i < |first| + 1 ensures !OccursAt(s, ".py", i) {
      if i < |first| {
        assert s[i] == first[i];
      } else {
        assert s[i] == '.';
        if |next| == 0 {
          assert s[i + 1] == '.';
        } else if |next| == 1 {
          assert s[i + 2] == '.';
        } else {
          assert s[i + 1] == next[0] && s[i + 2] == next[1];
          assert next[..2] == [next[0], next[1]];
        }
      }
    }
  }

  /** Deleting `.py` from a dotted name followed by `.py` removes only that
      final `.py`, provided the pieces hold no `.` and no piece after the
      first starts with `py` (a `.py` would otherwise span a separator). */
  lemma {:induction false} DeleteFinalExtension(parts: seq<string>)
    requires |parts| >= 1
    requires forall i :: 0 <= i < |parts| ==> '.' !in parts[i]
    requires forall k :: 1 <= k < |parts| ==> !("py" <= parts[k])
    ensures DeleteAll(Join(parts, '.') + ".py", ".py") == Join(parts, '.')
    decreases |parts|
  {
    if |parts| == 1 {
      DeleteExtensionOfPiece(parts[0]);
    } else {
      var first := parts[0];
      var rest := parts[1..];
      assert forall k :: 1 <= k < |rest| ==> rest[k] == parts[k + 1];
      DeleteFinalExtension(rest);
      var t := Join(rest, '.') + ".py";
      assert Join(parts, '.') + ".py" == (first + ['.']) + t;
      JoinHead(rest, '.');
      NoExtensionAtSeparator(first, rest[0], t);
      DeleteAllKeep(first + ['.'], t, ".py");
    }
  }

  /** The module of a source file `dirs/name.py` under the root is the dotted
      name `dirs.name`, for names without `.` or `/` in which no piece after
      the first starts with `py`. */
  lemma SourceFileModule(dirs: seq<string>, name: string, rootPath: Path)
    requires forall i :: 0 <= i < |dirs + [name]| ==> '.' !in (dirs + [name])[i] && '/' !in (dirs + [name])[i]
    requires forall k :: 1 <= k < |dirs + [name]| ==> !("py" <= (dirs + [name])[k])
    ensures BuildModuleFromPath(rootPath + dirs + [name + ".py"], rootPath) == Join(dirs + [name], '.')
  {
    var relative := dirs + [name + ".py"];
    assert (rootPath + dirs + [name + ".py"])[|rootPath|..] == relative;
    forall i | 0 <= i < |relative| ensures '/' !in relative[i] {
      if i < |dirs| {
        assert relative[i] == (dirs + [name])[i];
      } else {
        assert relative[i] == name + ".py";
        assert '/' !in (dirs + [name])[|dirs|];
      }
    }
    ReplaceJoin(relative, '/', '.');
    JoinExtendLast(dirs, name, ".py", '.');
    DeleteFinalExtension(dirs + [name]);
  }

  /** `"pkg.x.pyz".replace(".py", "")`. */
  lemma DeletionInsideName()
    ensures DeleteAll("pkg.x.pyz", ".py") == "pkg.xz"
  {
    assert DeleteAll(".pyz", ".py") == "z";
    assert DeleteAll("x.pyz", ".py") == "xz";
    assert DeleteAll(".x.pyz", ".py") == ".xz";
    assert DeleteAll("g.x.pyz", ".py") == "g.xz";
    assert DeleteAll("kg.x.pyz", ".py") == "kg.xz";
  }

  /** `"a.pyb.x.py".replace(".py", "")`. */
  lemma DeletionAcrossSeparator()
    ensures DeleteAll("a.pyb.x.py", ".py") == "ab.x"
  {
    assert DeleteAll(".py", ".py") == "";
    assert DeleteAll("x.py", ".py") == "x";
    assert DeleteAll(".x.py", ".py") == ".x";
    assert DeleteAll("b.x.py", ".py") == "b.x";
    assert DeleteAll(".pyb.x.py", ".py") == "b.x";
  }

  /** The module name of a path strictly below the root whose components hold
      no `/`: every `.py` deleted from the dotted relative path. */
  lemma ModuleOfRelativePath(path: Path, rootPath: Path)
    requires rootPath < path
    requires forall i :: |rootPath| <= i < |path| ==> '/' !in path[i]
    ensures BuildModuleFromPath(path, rootPath) == DeleteAll(Join(path[|rootPath|..], '.'), ".py")
  {
    var relative := path[|rootPath|..];
    assert forall i :: 0 <= i < |relative| ==> relative[i] == path[|rootPath| + i];
    ReplaceJoin(relative, '/', '.');
  }

  /** Every `.py` goes, not only the extension: `pkg/x.pyz` gives `pkg.xz`. */
  lemma ExtensionDeletedInsideName()
    ensures BuildModuleFromPath(["app", "pkg", "x.pyz"], ["app"]) == "pkg.xz"
  {
    ModuleOfRelativePath(["app", "pkg", "x.pyz"], ["app"]);
    assert ["app", "pkg", "x.pyz"][1..] == ["pkg", "x.pyz"];
    assert Join(["pkg", "x.pyz"], '.') == "pkg.x.pyz";
    DeletionInsideName();
  }

  /** A directory that starts with `py` loses those letters together with
      the separator before it: `a/pyb/x.py` gives `ab.x`. */
  lemma ExtensionDeletedAcrossSeparator()
    ensures BuildModuleFromPath(["app", "a", "pyb", "x.py"], ["app"]) == "ab.x"
  {
    ModuleOfRelativePath(["app", "a", "pyb", "x.py"], ["app"]);
    assert ["app", "a", "pyb", "x.py"][1..] == ["a", "pyb", "x.py"];
    assert Join(["a", "pyb", "x.py"], '.') == "a.pyb.x.py";
    DeletionAcrossSeparator();
  }
}
