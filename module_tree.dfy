/** The allow-list prefix tree (import_embargo/core.py,
    `build_allowed_modules_tree`, `is_operation_allowed`, `can_bypass_check`).

    A node maps a single dotted piece to a child node; a child with no
    children of its own marks an entry of the allow-list, which authorises
    itself and everything below it. */
module ModuleTree {
  import opened Strings
  import opened Paths
  import opened Configs

  datatype Node = Node(children: map<string, Node>)

  /** `{}`. */
  const Empty := Node(map[])

  /** The path `p` of pieces can be walked from `n`. */
  predicate Has(n: Node, p: seq<string>)
    decreases |p|
  {
    p == [] || (p[0] in n.children && Has(n.children[p[0]], p[1..]))
  }

  /** The node reached by walking `p` from `n`. */
  function Sub(n: Node, p: seq<string>): Node
    requires Has(n, p)
    decreases |p|
  {
    if p == [] then n else Sub(n.children[p[0]], p[1..])
  }

  /** Walking `p` from `n` reaches a node with no children. */
  predicate IsLeaf(n: Node, p: seq<string>)
  {
    Has(n, p) && Sub(n, p).children == map[]
  }

  /** The inner loop of `build_allowed_modules_tree`: walk the pieces,
      `setdefault(piece, {})` at every step, so an existing child is reused and
      never replaced. */
  function Insert(n: Node, chain: seq<string>): Node
    decreases |chain|
  {
    if chain == [] then n
    else
      var child := if chain[0] in n.children then n.children[chain[0]] else Empty;
      Node(n.children[chain[0] := Insert(child, chain[1..])])
  }

  /** The tree the outer loop builds from `entries`, inserting them in order. */
  function BuildTree(entries: seq<string>): Node
    decreases |entries|
  {
    if entries == [] then Empty
    else Insert(BuildTree(entries[..|entries| - 1]), Segments(entries[|entries| - 1]))
  }

  /** The walk of `is_operation_allowed`: a missing piece rejects, stepping
      onto a node with no children accepts, and running out of pieces accepts
      too (even when the node reached still has children). */
  function Walk(n: Node, s: seq<string>): bool
    decreases |s|
  {
    if s == [] then true
    else if s[0] !in n.children then false
    else if n.children[s[0]].children == map[] then true
    else Walk(n.children[s[0]], s[1..])
  }

  /** `is_operation_allowed(module, tree)` as a function. */
  function Allowed(tree: Node, moduleName: string): bool
  {
    Walk(tree, Segments(moduleName))
  }

  /** The acceptance rule stated on the tree's shape: every piece of `s` can be
      walked, or a proper prefix of `s` already ends at a node with no children. */
  ghost predicate Reaches(n: Node, s: seq<string>)
  {
    Has(n, s) || exists k :: 1 <= k < |s| && IsLeaf(n, s[..k])
  }

  /** Some entry's pieces begin the pieces `s`, or `s` begins some entry's.
      This is the acceptance rule written against the list itself. */
  ghost predicate Related(entries: seq<string>, s: seq<string>)
  {
    exists e :: e in entries && (Segments(e) <= s || s <= Segments(e))
  }

  /** No entry's pieces are a proper prefix of another entry's. */
  ghost predicate PrefixFree(entries: seq<string>)
  {
    forall e, f :: e in entries && f in entries ==> !(Segments(e) < Segments(f))
  }

  // ---------------------------------------------------------------------
  // Tree shape
  // ---------------------------------------------------------------------

  lemma {:induction false} HasAppend(n: Node, p: seq<string>, q: seq<string>)
    ensures Has(n, p + q) <==> Has(n, p) && Has(Sub(n, p), q)
    decreases |p|
  {
    if p != [] {
      assert (p + q)[0] == p[0] && (p + q)[1..] == p[1..] + q;
      if p[0] in n.children {
        HasAppend(n.children[p[0]], p[1..], q);
      }
    } else {
      assert p + q == q;
    }
  }

  /** Inserting one chain adds exactly the prefixes of that chain. */
  lemma {:induction false} InsertHas(n: Node, chain: seq<string>, p: seq<string>)
    ensures Has(Insert(n, chain), p) <==> Has(n, p) || p <= chain
    decreases |chain|
  {
    if chain != [] && p != [] {
      var child := if chain[0] in n.children then n.children[chain[0]] else Empty;
      if p[0] == chain[0] {
        InsertHas(child, chain[1..], p[1..]);
        assert p <= chain <==> p[1..] <= chain[1..];
        if chain[0] !in n.children {
          assert Has(Empty, p[1..]) <==> p[1..] == [];
        }
      }
    }
  }

  /** The built tree holds exactly the prefixes of the entries' chains. */
  lemma {:induction false} BuildTreeHas(entries: seq<string>, p: seq<string>)
    ensures Has(BuildTree(entries), p) <==>
      p == [] || exists e :: e in entries && p <= Segments(e)
    decreases |entries|
  {
    if entries != [] {
      var init := entries[..|entries| - 1];
      var last := entries[|entries| - 1];
      BuildTreeHas(init, p);
      InsertHas(BuildTree(init), Segments(last), p);
      assert entries == init + [last];
      assert forall e :: e in entries <==> e in init || e == last;
    }
  }

  /** A node with no children is exactly a walked path that no entry's chain
      extends. */
  lemma BuildTreeLeaf(entries: seq<string>, p: seq<string>)
    requires Has(BuildTree(entries), p)
    ensures IsLeaf(BuildTree(entries), p) <==>
      !exists e :: e in entries && p < Segments(e)
  {
    var t := BuildTree(entries);
    if exists e :: e in entries && p < Segments(e) {
      var e :| e in entries && p < Segments(e);
      var x := Segments(e)[|p|];
      assert p + [x] <= Segments(e);
      BuildTreeHas(entries, p + [x]);
      HasAppend(t, p, [x]);
    }
    if !IsLeaf(t, p) {
      var x :| x in Sub(t, p).children;
      HasAppend(t, p, [x]);
      BuildTreeHas(entries, p + [x]);
      var e :| e in entries && p + [x] <= Segments(e);
      assert p < Segments(e);
    }
  }

  /** Two trees with the same walkable paths are the same tree. */
  lemma {:induction false} TreeExtensionality(a: Node, b: Node)
    requires forall p :: Has(a, p) <==> Has(b, p)
    ensures a == b
    decreases a
  {
    forall k | k in a.children
      ensures k in b.children && a.children[k] == b.children[k]
    {
      assert Has(a, [k]);
      forall p ensures Has(a.children[k], p) <==> Has(b.children[k], p) {
        assert ([k] + p)[1..] == p;
        assert Has(a, [k] + p) <==> Has(b, [k] + p);
      }
      TreeExtensionality(a.children[k], b.children[k]);
    }
    forall k | k in b.children ensures k in a.children {
      assert Has(b, [k]);
    }
    assert a.children == b.children;
  }

  /** Entry order and duplicates do not matter: the tree depends only on
      which entries occur. */
  lemma BuildTreeOrderIndependent(l1: seq<string>, l2: seq<string>)
    requires forall e :: e in l1 <==> e in l2
    ensures BuildTree(l1) == BuildTree(l2)
  {
    forall p ensures Has(BuildTree(l1), p) <==> Has(BuildTree(l2), p) {
      BuildTreeHas(l1, p);
      BuildTreeHas(l2, p);
    }
    TreeExtensionality(BuildTree(l1), BuildTree(l2));
  }

  function Reverse(s: seq<string>): (r: seq<string>)
    ensures forall x :: x in r <==> x in s
    decreases |s|
  {
    if s == [] then [] else Reverse(s[1..]) + [s[0]]
  }

  /** Building from the reversed list gives the same tree. */
  lemma BuildTreeReversed(entries: seq<string>)
    ensures BuildTree(Reverse(entries)) == BuildTree(entries)
  {
    BuildTreeOrderIndependent(Reverse(entries), entries);
  }

  // ---------------------------------------------------------------------
  // Walk
  // ---------------------------------------------------------------------

  lemma LeafStep(n: Node, s: seq<string>, k: nat)
    requires 1 <= k <= |s| && s[0] in n.children
    ensures IsLeaf(n, s[..k]) <==> IsLeaf(n.children[s[0]], s[1..][..k - 1])
  {
    assert s[..k][0] == s[0] && s[..k][1..] == s[1..][..k - 1];
  }

  /** The walk accepts exactly when the shape rule `Reaches` holds. */
  lemma {:induction false} WalkReaches(n: Node, s: seq<string>)
    ensures Walk(n, s) == Reaches(n, s)
    decreases |s|
  {
    if s != [] && s[0] in n.children {
      var c := n.children[s[0]];
      var t := s[1..];
      if c.children == map[] {
        if |s| > 1 {
          LeafStep(n, s, 1);
          assert IsLeaf(n, s[..1]);
        } else {
          assert t == [];
          assert Has(n, s);
        }
      } else {
        WalkReaches(c, t);
        assert Has(n, s) <==> Has(c, t);
        if Reaches(c, t) && !Has(c, t) {
          var k :| 1 <= k < |t| && IsLeaf(c, t[..k]);
          LeafStep(n, s, k + 1);
        }
        forall k | 1 <= k < |s| && IsLeaf(n, s[..k])
          ensures 1 <= k - 1 < |t| && IsLeaf(c, t[..k - 1])
        {
          LeafStep(n, s, k);
          assert t[..0] == [];
        }
      }
    } else if s != [] {
      assert !Has(n, s);
      forall k | 1 <= k < |s| ensures !IsLeaf(n, s[..k]) {
        assert s[..k][0] == s[0];
      }
    }
  }

  /** The empty tree (an empty allow-list or bypass list) accepts nothing. */
  lemma EmptyTreeRejects(moduleName: string)
    ensures !Allowed(Empty, moduleName)
  {
  }

  /** Whatever the list, an accepted module is related to some entry. */
  lemma AllowedIsRelated(entries: seq<string>, moduleName: string)
    requires Allowed(BuildTree(entries), moduleName)
    ensures Related(entries, Segments(moduleName))
  {
    var t := BuildTree(entries);
    var s := Segments(moduleName);
    WalkReaches(t, s);
    if Has(t, s) {
      BuildTreeHas(entries, s);
    } else {
      var k :| 1 <= k < |s| && IsLeaf(t, s[..k]);
      BuildTreeHas(entries, s[..k]);
      var e :| e in entries && s[..k] <= Segments(e);
      BuildTreeLeaf(entries, s[..k]);
      assert Segments(e) == s[..k];
    }
  }

  /** For a prefix-free allow-list, a module is accepted exactly when some
      entry's pieces begin the module's, or the module's pieces begin some
      entry's (the second half is the shallower-than-entry quirk). */
  lemma AllowedIffRelated(entries: seq<string>, moduleName: string)
    requires PrefixFree(entries)
    ensures Allowed(BuildTree(entries), moduleName) <==> Related(entries, Segments(moduleName))
  {
    var t := BuildTree(entries);
    var s := Segments(moduleName);
    if Allowed(t, moduleName) {
      AllowedIsRelated(entries, moduleName);
    }
    if Related(entries, s) {
      WalkReaches(t, s);
      var e :| e in entries && (Segments(e) <= s || s <= Segments(e));
      var c := Segments(e);
      if s <= c {
        BuildTreeHas(entries, s);
        assert Has(t, s);
      } else {
        BuildTreeHas(entries, c);
        BuildTreeLeaf(entries, c);
        assert IsLeaf(t, c);
        assert s[..|c|] == c;
        assert IsLeaf(t, s[..|c|]);
      }
    }
  }

  // ---------------------------------------------------------------------
  // The operations
  // ---------------------------------------------------------------------

  /** `build_allowed_modules_tree(config, mode)`. Iterating an absent list
      raises TypeError in Python; callers build a tree only from a present
      list. */
  method BuildAllowedModulesTree(config: Config, mode: ModuleTreeBuildingMode) returns (tree: Node)
    requires ModeEntries(config, mode).Some?
    ensures tree == BuildTree(ModeEntries(config, mode).value)
    ensures forall p :: Has(tree, p) <==>
      p == [] || exists e :: e in ModeEntries(config, mode).value && p <= Segments(e)
  {
    var configModules := ModeEntries(config, mode).value;
    tree := Empty;
    for i := 0 to |configModules|
      invariant tree == BuildTree(configModules[..i])
    {
      assert configModules[..i + 1][..i] == configModules[..i];
      tree := Insert(tree, Segments(configModules[i]));
    }
    assert configModules[..|configModules|] == configModules;
    forall p ensures Has(tree, p) <==> p == [] || exists e :: e in configModules && p <= Segments(e) {
      BuildTreeHas(configModules, p);
    }
  }

  /** `is_operation_allowed(imported_module, allowed_modules_tree)`. */
  method IsOperationAllowed(importedModule: string, allowedModulesTree: Node) returns (ok: bool)
    ensures ok == Allowed(allowedModulesTree, importedModule)
    ensures ok == Reaches(allowedModulesTree, Segments(importedModule))
  {
    var splittedModuleName := Segments(importedModule);
    WalkReaches(allowedModulesTree, splittedModuleName);
    var current := allowedModulesTree;
    var i := 0;
    while i < |splittedModuleName|
      invariant 0 <= i <= |splittedModuleName|
      invariant Walk(current, splittedModuleName[i..]) == Allowed(allowedModulesTree, importedModule)
    {
      var name := splittedModuleName[i];
      assert splittedModuleName[i..][0] == name && splittedModuleName[i..][1..] == splittedModuleName[i + 1..];
      if name !in current.children {
        return false;
      }
      current := current.children[name];
      if current.children == map[] {
        return true;
      }
      i := i + 1;
    }
    return true;
  }

  /** `can_bypass_check(imported_from, bypass_modules_tree)`: the importer's
      own module name is walked through the bypass tree. An empty bypass tree
      exempts nobody. */
  method CanBypassCheck(importedFrom: string, bypassModulesTree: Node) returns (ok: bool)
    ensures ok == Allowed(bypassModulesTree, importedFrom)
    ensures ok == Reaches(bypassModulesTree, Segments(importedFrom))
    ensures bypassModulesTree == Empty ==> !ok
  {
    ok := IsOperationAllowed(importedFrom, bypassModulesTree);
  }
}

/** The cases of tests/core_test.py and of the docstrings, as lemmas. */
module ModuleTreeExamples {
  import opened Strings
  import opened Paths
  import opened Configs
  import opened ModuleTree

  /** tests/core_test.py, `test_is_operation_allowed`. */
  lemma WalkExamples()
    ensures Allowed(Node(map["a" := Empty]), "a.b.c")
    ensures !Allowed(Node(map["a" := Empty]), "b")
    ensures !Allowed(Node(map["a" := Node(map["b" := Empty])]), "a.c")
  {
    SplitJoin(["a", "b", "c"], '.');
    assert Join(["a", "b", "c"], '.') == "a.b.c";
    SplitJoin(["b"], '.');
    assert Join(["b"], '.') == "b";
    SplitJoin(["a", "c"], '.');
    assert Join(["a", "c"], '.') == "a.c";
  }

  /** The tree after the first one, two, three and four entries of the
      docstring's list. */
  const AfterABC: Node := Node(map["a" := Node(map["b" := Node(map["c" := Empty])])])
  const AfterADE: Node := Node(map["a" := Node(map["b" := Node(map["c" := Empty]), "d" := Node(map["e" := Empty])])])
  const AfterADF: Node :=
    Node(map["a" := Node(map["b" := Node(map["c" := Empty]), "d" := Node(map["e" := Empty, "f" := Empty])])])
  const AfterXY: Node :=
    Node(map["a" := Node(map["b" := Node(map["c" := Empty]), "d" := Node(map["e" := Empty, "f" := Empty])]),
             "x" := Node(map["y" := Empty])])

  lemma InsertABC()
    ensures BuildTree(["a.b.c"]) == AfterABC
  {
    assert ["a.b.c"][..0] == [];
    SplitJoin(["a", "b", "c"], '.');
    assert Join(["a", "b", "c"], '.') == "a.b.c";
  }

  lemma InsertADE()
    ensures Insert(AfterABC, Segments("a.d.e")) == AfterADE
  {
    SplitJoin(["a", "d", "e"], '.');
    assert Join(["a", "d", "e"], '.') == "a.d.e";
  }

  lemma InsertADF()
    ensures Insert(AfterADE, Segments("a.d.f")) == AfterADF
  {
    SplitJoin(["a", "d", "f"], '.');
    assert Join(["a", "d", "f"], '.') == "a.d.f";
    assert ["a", "d", "f"][1..] == ["d", "f"] && ["d", "f"][1..] == ["f"];
    assert Insert(Node(map["e" := Empty]), ["f"]) == Node(map["e" := Empty, "f" := Empty]);
    assert Insert(AfterADE.children["a"], ["d", "f"]) == AfterADF.children["a"];
  }

  lemma InsertXY()
    ensures Insert(AfterADF, Segments("x.y")) == AfterXY
  {
    SplitJoin(["x", "y"], '.');
    assert Join(["x", "y"], '.') == "x.y";
  }

  /** tests/core_test.py, `test_build_allowed_modules_tree`, and the
      docstring of `build_allowed_modules_tree`. */
  lemma BuildExamples()
    ensures BuildTree([]) == Empty
    ensures BuildTree(["a.b.c", "a.d.e", "a.d.f", "x.y"]) ==
      Node(map["a" := Node(map["b" := Node(map["c" := Empty]),
                               "d" := Node(map["e" := Empty, "f" := Empty])]),
               "x" := Node(map["y" := Empty])])
  {
    var l := ["a.b.c", "a.d.e", "a.d.f", "x.y"];
    assert l[..3] == ["a.b.c", "a.d.e", "a.d.f"];
    assert l[..3][..2] == ["a.b.c", "a.d.e"];
    assert l[..3][..2][..1] == ["a.b.c"];
    InsertABC();
    InsertADE();
    InsertADF();
    InsertXY();
  }

  /** An entry authorises everything below it. */
  lemma DeeperModuleAllowed()
    ensures Allowed(BuildTree(["a.b.c"]), "a.b.c.d")
  {
    assert ["a.b.c"][..0] == [];
    SplitJoin(["a", "b", "c"], '.');
    assert Join(["a", "b", "c"], '.') == "a.b.c";
    SplitJoin(["a", "b", "c", "d"], '.');
    assert Join(["a", "b", "c", "d"], '.') == "a.b.c.d";
  }

  /** A module shallower than an entry is accepted too. */
  lemma ShallowerModuleAllowed()
    ensures Allowed(BuildTree(["a.b.c"]), "a.b")
  {
    assert ["a.b.c"][..0] == [];
    SplitJoin(["a", "b", "c"], '.');
    assert Join(["a", "b", "c"], '.') == "a.b.c";
    SplitJoin(["a", "b"], '.');
    assert Join(["a", "b"], '.') == "a.b";
  }

  /** A module that leaves the entry's path is rejected. */
  lemma DivergingModuleRejected()
    ensures !Allowed(BuildTree(["a.b"]), "a.c")
  {
    assert ["a.b"][..0] == [];
    SplitJoin(["a", "b"], '.');
    assert Join(["a", "b"], '.') == "a.b";
    SplitJoin(["a", "c"], '.');
    assert Join(["a", "c"], '.') == "a.c";
  }

  /** The docstring of `is_operation_allowed` calls `from a import b` under
      the entry `a.c` a violation, but the imported module is `a`: the walk
      ends on the inner node `a` and the final `return True` accepts it. */
  lemma DocstringDivergenceAccepted()
    ensures Allowed(BuildTree(["a.c"]), "a")
  {
    assert ["a.c"][..0] == [];
    SplitJoin(["a", "c"], '.');
    assert Join(["a", "c"], '.') == "a.c";
    SplitJoin(["a"], '.');
    assert Join(["a"], '.') == "a";
  }

  /** With overlapping entries the shorter one loses its "everything below"
      meaning: `a` gets the child `b`, so `a.c` is rejected. */
  lemma OverlappingEntriesReject()
    ensures !Allowed(BuildTree(["a", "a.b"]), "a.c")
  {
    assert ["a", "a.b"][..1] == ["a"];
    assert ["a"][..0] == [];
    SplitJoin(["a"], '.');
    assert Join(["a"], '.') == "a";
    SplitJoin(["a", "b"], '.');
    assert Join(["a", "b"], '.') == "a.b";
    SplitJoin(["a", "c"], '.');
    assert Join(["a", "c"], '.') == "a.c";
  }
}
