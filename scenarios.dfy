/**
 * Concrete trees run through the scanner: nested matches, the default
 * filters, and pruning by whole path components.
 */
module Scenarios {
  import opened FolderScan
  import Config

  function EmptyDir(name: string): Node
  {
    Node(name, Dir, true, [])
  }

  /** `/root/project/node_modules/node_modules` scanned from `/root` for `node_modules`. */
  lemma NestedMatchIsPruned()
    ensures ScanFrom([], WalkRoot(["root"], Node("root", Dir, true, [
              Node("project", Dir, true, [
                Node("node_modules", Dir, true, [EmptyDir("node_modules")])])])), ["node_modules"])
            == [["root", "project", "node_modules"]]
  {
    var inner := Node("node_modules", Dir, true, [EmptyDir("node_modules")]);
    var project := Node("project", Dir, true, [inner]);
    var tree := Node("root", Dir, true, [project]);
    assert WellFormed(inner) by { assert WellFormed(inner.children[0]); }
    assert WellFormed(project) && WellFormed(tree);
    var targets := ["node_modules"];
    ScanIsPrunedSearch(["root"], tree, targets);
    var p := ["root", "project", "node_modules"];
    assert ["root", "project"] + ["node_modules"] == p;
    assert NameMatchesTarget(p, targets);
    assert PrunedMatches(p, inner, targets) == [p];
    assert PrunedChildren(["root", "project"], project.children, targets) == [p];
    assert ["root"] + ["project"] == ["root", "project"];
    assert !NameMatchesTarget(["root", "project"], targets);
    assert PrunedMatches(["root", "project"], project, targets) == [p];
    assert !NameMatchesTarget(["root"], targets);
  }

  /**
   * `/a/dist`, `/a/target`, `/a/target/dist` and `/b/node_modules` scanned
   * from `/` with the default filters: `/a/target/dist` lies under
   * `/a/target` and is not reported.
   */
  lemma DefaultFiltersScenario(tree: Node)
    requires tree == Node("", Dir, true, [
               Node("a", Dir, true, [EmptyDir("dist"), Node("target", Dir, true, [EmptyDir("dist")])]),
               Node("b", Dir, true, [EmptyDir("node_modules")])])
    ensures ScanFrom([], WalkRoot([], tree), Config.Default().filters.entries)
            == [["a", "dist"], ["a", "target"], ["b", "node_modules"]]
  {
    Config.DefaultFilters();
    var targets := Config.Default().filters.entries;
    DefaultScenarioSearch(tree, targets);
    ScanIsPrunedSearch([], tree, targets);
  }

  lemma DefaultScenarioSearch(tree: Node, targets: seq<string>)
    requires targets == ["target", "node_modules", "dist", "out", "__pycache__"]
    requires tree == Node("", Dir, true, [
               Node("a", Dir, true, [EmptyDir("dist"), Node("target", Dir, true, [EmptyDir("dist")])]),
               Node("b", Dir, true, [EmptyDir("node_modules")])])
    ensures WellFormed(tree)
    ensures PrunedMatches([], tree, targets) == [["a", "dist"], ["a", "target"], ["b", "node_modules"]]
  {
    DefaultScenarioUnderA(targets);
    DefaultScenarioUnderB(targets);
    assert WellFormed(tree) by { assert WellFormed(tree.children[0]) && WellFormed(tree.children[1]); }
    assert [] + ["a"] == ["a"] && [] + ["b"] == ["b"];
    assert PrunedChildren([], tree.children[1..], targets) == [["b", "node_modules"]];
  }

  lemma DefaultScenarioUnderA(targets: seq<string>)
    requires targets == ["target", "node_modules", "dist", "out", "__pycache__"]
    ensures var a := Node("a", Dir, true, [EmptyDir("dist"), Node("target", Dir, true, [EmptyDir("dist")])]);
      WellFormed(a) && PrunedMatches(["a"], a, targets) == [["a", "dist"], ["a", "target"]]
  {
    var target := Node("target", Dir, true, [EmptyDir("dist")]);
    var a := Node("a", Dir, true, [EmptyDir("dist"), target]);
    assert WellFormed(EmptyDir("dist"));
    assert WellFormed(target) by { assert WellFormed(target.children[0]); }
    assert WellFormed(a) by { assert WellFormed(a.children[0]) && WellFormed(a.children[1]); }
    assert ["a"] + ["dist"] == ["a", "dist"] && ["a"] + ["target"] == ["a", "target"];
    assert !NameMatchesTarget(["a"], targets);
    assert NameMatchesTarget(["a", "dist"], targets) && NameMatchesTarget(["a", "target"], targets);
    assert PrunedChildren(["a"], a.children[1..], targets) == [["a", "target"]];
  }

  lemma DefaultScenarioUnderB(targets: seq<string>)
    requires targets == ["target", "node_modules", "dist", "out", "__pycache__"]
    ensures var b := Node("b", Dir, true, [EmptyDir("node_modules")]);
      WellFormed(b) && PrunedMatches(["b"], b, targets) == [["b", "node_modules"]]
  {
    var b := Node("b", Dir, true, [EmptyDir("node_modules")]);
    assert WellFormed(b) by { assert WellFormed(b.children[0]); }
    assert ["b"] + ["node_modules"] == ["b", "node_modules"];
    assert !NameMatchesTarget(["b"], targets) && NameMatchesTarget(["b", "node_modules"], targets);
  }

  /**
   * A match at `a/target` does not hide its sibling `a/targetx`, although
   * the string "a/target" is a prefix of "a/targetx".
   */
  lemma PruningIsPerComponent(tree: Node)
    requires tree == Node("", Dir, true, [Node("a", Dir, true, [EmptyDir("target"), EmptyDir("targetx")])])
    ensures ScanFrom([], WalkRoot([], tree), ["target", "targetx"]) == [["a", "target"], ["a", "targetx"]]
  {
    var targets := ["target", "targetx"];
    SiblingsSearch(targets);
    assert WellFormed(tree) by { assert WellFormed(tree.children[0]); }
    assert [] + ["a"] == ["a"];
    assert !NameMatchesTarget([], targets);
    ScanIsPrunedSearch([], tree, targets);
  }

  lemma SiblingsSearch(targets: seq<string>)
    requires targets == ["target", "targetx"]
    ensures var a := Node("a", Dir, true, [EmptyDir("target"), EmptyDir("targetx")]);
      WellFormed(a) && PrunedMatches(["a"], a, targets) == [["a", "target"], ["a", "targetx"]]
  {
    var a := Node("a", Dir, true, [EmptyDir("target"), EmptyDir("targetx")]);
    assert WellFormed(a) by { assert WellFormed(a.children[0]) && WellFormed(a.children[1]); }
    assert ["a"] + ["target"] == ["a", "target"] && ["a"] + ["targetx"] == ["a", "targetx"];
    assert !NameMatchesTarget(["a"], targets);
    assert NameMatchesTarget(["a", "target"], targets) && NameMatchesTarget(["a", "targetx"], targets);
    assert PrunedChildren(["a"], a.children[1..], targets) == [["a", "targetx"]];
  }

  /**
   * A root `w/node_modules` that links to a directory holding
   * `pkg/node_modules`: the link is not reported, the directory below it is.
   */
  lemma LinkedRootScenario(tree: Node)
    requires tree == Node("node_modules", Symlink, true, [Node("pkg", Dir, true, [EmptyDir("node_modules")])])
    ensures ScanFrom([], WalkRoot(["w", "node_modules"], tree), ["node_modules"])
            == [["w", "node_modules", "pkg", "node_modules"]]
  {
    var targets := ["node_modules"];
    var root := ["w", "node_modules"];
    var pkg := tree.children[0];
    assert WellFormed(pkg) by { assert WellFormed(pkg.children[0]); }
    assert WellFormed(tree);
    var q := root + ["pkg"];
    assert q == ["w", "node_modules", "pkg"] && !NameMatchesTarget(q, targets);
    assert q + ["node_modules"] == ["w", "node_modules", "pkg", "node_modules"];
    assert NameMatchesTarget(q + ["node_modules"], targets);
    assert PrunedMatches(q, pkg, targets) == [q + ["node_modules"]];
    assert PrunedChildren(root, tree.children, targets) == [q + ["node_modules"]];
    ScanIsPrunedSearch(root, tree, targets);
  }
}
