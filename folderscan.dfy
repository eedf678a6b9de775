/**
 * `scan_folders` and `remove_folders` of dev_cleaner_core.
 *
 * The filesystem is a finite tree of nodes. The directory walker yields, in
 * pre-order, one item per node it reaches: the entry (its path and kind) or
 * an error for a node it could not read. The scanner drops the errors,
 * keeps a set of matched directories and suppresses every later entry whose
 * path starts with one of them, component by component.
 */
module FolderScan {

  /** A path as its sequence of normal components; `Path::starts_with` is the sequence prefix `<=`. */
  type Path = seq<string>

  datatype Kind = Dir | File | Symlink

  /**
   * A filesystem node; an unreadable one makes the walker yield an error in
   * its place. The children are in the order the walker lists the directory
   * (unsorted, as the operating system returns them). The children of a
   * symlink are the entries of the directory it points to (none when it
   * points elsewhere); they are reached only when the link is the root of
   * the walk.
   */
  datatype Node = Node(name: string, kind: Kind, readable: bool, children: seq<Node>)

  datatype Entry = Entry(path: Path, kind: Kind)

  /** One item of the walker's output: `Ok(entry)` or `Err(_)`. */
  datatype WalkItem = Found(entry: Entry) | WalkError

  /** The walk from `root`: the root itself first, then the walks of a directory's children in order. Symlinks are not followed. */
  function Walk(p: Path, n: Node): seq<WalkItem>
    decreases n, 1
  {
    if !n.readable then [WalkError]
    else [Found(Entry(p, n.kind))] + (if n.kind == Dir then WalkChildren(p, n.children) else [])
  }

  function WalkChildren(p: Path, cs: seq<Node>): seq<WalkItem>
    decreases cs, 0
  {
    if cs == [] then [] else Walk(p + [cs[0].name], cs[0]) + WalkChildren(p, cs[1..])
  }

  /**
   * The walk `WalkDir::new(root)` yields: a root that is a link to a
   * directory is still reported as a link, but its target's entries are
   * walked (walkdir follows root links and no others).
   */
  function WalkRoot(root: Path, tree: Node): seq<WalkItem>
  {
    if tree.readable && tree.kind == Symlink then [Found(Entry(root, Symlink))] + WalkChildren(root, tree.children)
    else Walk(root, tree)
  }

  /** `name_matches_target`: the path has a final component and it is one of the targets. */
  predicate NameMatchesTarget(p: Path, targets: seq<string>)
  {
    |p| > 0 && p[|p| - 1] in targets
  }

  /** Some already matched path is a component-wise prefix of p. */
  predicate Skipped(matched: seq<Path>, p: Path)
  {
    exists q :: q in matched && q <= p
  }

  /** One step of the `.scan` closure: the matches so far, updated by one walker item. */
  function Step(matched: seq<Path>, item: WalkItem, targets: seq<string>): seq<Path>
  {
    match item
    case WalkError => matched
    case Found(e) =>
      if Skipped(matched, e.path) then matched
      else if e.kind == Dir && NameMatchesTarget(e.path, targets) then matched + [e.path]
      else matched
  }

  /** The matches after feeding `items` to the scan, starting from `matched`. */
  function ScanFrom(matched: seq<Path>, items: seq<WalkItem>, targets: seq<string>): seq<Path>
    decreases |items|
  {
    if items == [] then matched else ScanFrom(Step(matched, items[0], targets), items[1..], targets)
  }

  /** No path in ps is a component-wise prefix of a later one (this excludes repeats too). */
  ghost predicate Pruned(ps: seq<Path>)
  {
    forall i, j :: 0 <= i < j < |ps| ==> !(ps[i] <= ps[j])
  }

  /** Checks `skip_dirs.iter().any(|skip| path.starts_with(skip))`. */
  method AnyStartsWith(skipDirs: set<Path>, p: Path) returns (found: bool)
    ensures found <==> exists q :: q in skipDirs && q <= p
  {
    var rest := skipDirs;
    found := false;
    while rest != {} && !found
      invariant rest <= skipDirs
      invariant found <==> exists q :: q in skipDirs - rest && q <= p
      decreases rest
    {
      var q :| q in rest;
      assert skipDirs - (rest - {q}) == (skipDirs - rest) + {q};
      found := q <= p;
      rest := rest - {q};
    }
    assert !found ==> skipDirs - rest == skipDirs;
  }

  /**
   * `scan_folders(root, targets)` over the filesystem `tree` found at `root`.
   * Every result is a directory of the walk whose name is a target; no result
   * lies under an earlier one; every target directory of the walk is a result
   * or lies under one.
   */
  method ScanFolders(root: Path, tree: Node, targets: seq<string>) returns (matches: seq<Path>)
    ensures matches == ScanFrom([], WalkRoot(root, tree), targets)
    ensures forall r :: r in matches ==> Found(Entry(r, Dir)) in WalkRoot(root, tree) && NameMatchesTarget(r, targets)
    ensures forall i, j :: 0 <= i < j < |matches| ==> !(matches[i] <= matches[j])
    ensures WellFormed(tree) ==>
              forall i, j :: 0 <= i < |matches| && 0 <= j < |matches| && i != j ==> !(matches[i] <= matches[j])
    ensures forall e :: Found(e) in WalkRoot(root, tree) && e.kind == Dir && NameMatchesTarget(e.path, targets) ==>
              exists q :: q in matches && q <= e.path
  {
    var items := WalkRoot(root, tree);
    var skipDirs: set<Path> := {};
    matches := [];
    var i := 0;
    while i < |items|
      invariant 0 <= i <= |items|
      invariant ScanFrom(matches, items[i..], targets) == ScanFrom([], items, targets)
      invariant skipDirs == set q | q in matches
    {
      assert items[i..][0] == items[i] && items[i..][1..] == items[i + 1..];
      ghost var before := matches;
      match items[i] {
        case WalkError =>
        case Found(e) =>
          var skip := AnyStartsWith(skipDirs, e.path);
          if skip {
            var q :| q in skipDirs && q <= e.path;
            assert q in matches;
          } else {
            forall q | q in matches
              ensures !(q <= e.path)
            {
              assert q in skipDirs;
            }
          }
          if !skip && e.kind == Dir && NameMatchesTarget(e.path, targets) {
            skipDirs := skipDirs + {e.path};
            matches := matches + [e.path];
          }
      }
      assert matches == Step(before, items[i], targets);
      i := i + 1;
    }
    assert items[i..] == [];
    ScanFromSound([], items, targets);
    ScanFromPruned([], items, targets);
    ScanFromComplete([], items, targets);
    if WellFormed(tree) {
      ScanIsAntichain(root, tree, targets);
    }
  }

  lemma {:induction false} ScanFromGrows(matched: seq<Path>, items: seq<WalkItem>, targets: seq<string>)
    ensures matched <= ScanFrom(matched, items, targets)
    decreases |items|
  {
    if items != [] {
      ScanFromGrows(Step(matched, items[0], targets), items[1..], targets);
    }
  }

  /** Every new match is a directory entry of the walk whose name is a target. */
  lemma {:induction false} ScanFromSound(matched: seq<Path>, items: seq<WalkItem>, targets: seq<string>)
    ensures forall r :: r in ScanFrom(matched, items, targets) ==>
              r in matched || (Found(Entry(r, Dir)) in items && NameMatchesTarget(r, targets))
    decreases |items|
  {
    if items != [] {
      var next := Step(matched, items[0], targets);
      ScanFromSound(next, items[1..], targets);
      forall r | r in ScanFrom(matched, items, targets)
        ensures r in matched || (Found(Entry(r, Dir)) in items && NameMatchesTarget(r, targets))
      {
        if r !in matched && r in next {
          assert items[0] == Found(Entry(r, Dir));
        } else if r !in next {
          assert Found(Entry(r, Dir)) in items[1..];
        }
      }
    }
  }

  /** The scan never adds a path below (or equal to) one it already holds. */
  lemma {:induction false} ScanFromPruned(matched: seq<Path>, items: seq<WalkItem>, targets: seq<string>)
    requires Pruned(matched)
    ensures Pruned(ScanFrom(matched, items, targets))
    decreases |items|
  {
    if items != [] {
      var next := Step(matched, items[0], targets);
      if next != matched {
        var p := items[0].entry.path;
        assert next == matched + [p] && !Skipped(matched, p);
        forall i, j | 0 <= i < j < |next|
          ensures !(next[i] <= next[j])
        {
          if j == |matched| {
            assert next[i] in matched;
          }
        }
      }
      ScanFromPruned(next, items[1..], targets);
    }
  }

  /** Every target directory of the walk ends up matched or under a match. */
  lemma {:induction false} ScanFromComplete(matched: seq<Path>, items: seq<WalkItem>, targets: seq<string>)
    ensures forall e :: Found(e) in items && e.kind == Dir && NameMatchesTarget(e.path, targets) ==>
              Skipped(ScanFrom(matched, items, targets), e.path)
    decreases |items|
  {
    if items != [] {
      var next := Step(matched, items[0], targets);
      var result := ScanFrom(matched, items, targets);
      assert result == ScanFrom(next, items[1..], targets);
      ScanFromComplete(next, items[1..], targets);
      ScanFromGrows(next, items[1..], targets);
      forall e | Found(e) in items && e.kind == Dir && NameMatchesTarget(e.path, targets)
        ensures Skipped(result, e.path)
      {
        if items[0] == Found(e) {
          var q: Path;
          if Skipped(matched, e.path) {
            q :| q in matched && q <= e.path;
            assert next == matched;
          } else {
            q := e.path;
            assert next == matched + [q];
          }
          var k :| 0 <= k < |next| && next[k] == q;
          assert result[k] == q;
          assert q in result && q <= e.path;
        } else {
          assert Found(e) in items[1..];
        }
      }
    }
  }

  /** Items whose paths all lie under a match leave the matches as they are. */
  lemma {:induction false} ScanFromAllSkipped(matched: seq<Path>, items: seq<WalkItem>, targets: seq<string>)
    requires forall e :: Found(e) in items ==> Skipped(matched, e.path)
    ensures ScanFrom(matched, items, targets) == matched
    decreases |items|
  {
    if items != [] {
      assert items[0].Found? ==> Found(items[0].entry) in items;
      ScanFromAllSkipped(matched, items[1..], targets);
    }
  }

  lemma {:induction false} ScanFromConcat(matched: seq<Path>, a: seq<WalkItem>, b: seq<WalkItem>, targets: seq<string>)
    ensures ScanFrom(matched, a + b, targets) == ScanFrom(ScanFrom(matched, a, targets), b, targets)
    decreases |a|
  {
    if a == [] {
      assert a + b == b;
    } else {
      assert (a + b)[0] == a[0] && (a + b)[1..] == a[1..] + b;
      ScanFromConcat(Step(matched, a[0], targets), a[1..], b, targets);
    }
  }

  /** Without targets nothing matches (the `contains` on an empty slice is false). */
  lemma {:induction false} NoTargetsNoMatches(matched: seq<Path>, items: seq<WalkItem>)
    ensures ScanFrom(matched, items, []) == matched
    decreases |items|
  {
    if items != [] {
      NoTargetsNoMatches(matched, items[1..]);
    }
  }

  /** Every path the walk from p yields starts with p. */
  lemma {:induction false} WalkUnder(p: Path, n: Node)
    ensures forall e :: Found(e) in Walk(p, n) ==> p <= e.path
    decreases n, 1
  {
    if n.readable && n.kind == Dir {
      WalkChildrenUnder(p, n.children);
    }
  }

  lemma {:induction false} WalkChildrenUnder(p: Path, cs: seq<Node>)
    ensures forall e :: Found(e) in WalkChildren(p, cs) ==> p <= e.path && |p| < |e.path|
    decreases cs, 0
  {
    if cs != [] {
      var c := p + [cs[0].name];
      WalkUnder(c, cs[0]);
      WalkChildrenUnder(p, cs[1..]);
      forall e | Found(e) in WalkChildren(p, cs)
        ensures p <= e.path && |p| < |e.path|
      {
        if Found(e) in Walk(c, cs[0]) {
          assert c <= e.path;
          assert e.path[..|p|] == c[..|p|] == p;
        }
      }
    }
  }

  /** The scan of a tree whose root directory matches is exactly that root. */
  lemma RootMatchIsOnlyMatch(root: Path, tree: Node, targets: seq<string>)
    requires tree.readable && tree.kind == Dir && NameMatchesTarget(root, targets)
    ensures ScanFrom([], WalkRoot(root, tree), targets) == [root]
  {
    var rest := WalkChildren(root, tree.children);
    assert Walk(root, tree) == [Found(Entry(root, Dir))] + rest;
    assert ([Found(Entry(root, Dir))] + rest)[1..] == rest;
    assert Step([], Found(Entry(root, Dir)), targets) == [root];
    WalkChildrenUnder(root, tree.children);
    assert forall e :: Found(e) in rest ==> root in [root] && root <= e.path;
    ScanFromAllSkipped([root], rest, targets);
  }

  /** A root without a name component (`/`, `.`) is never itself a match. */
  lemma NamelessRootNeverMatches(tree: Node, targets: seq<string>)
    ensures [] !in ScanFrom([], WalkRoot([], tree), targets)
  {
    ScanFromSound([], WalkRoot([], tree), targets);
  }

  /** A root the walker cannot read gives one error item, which the scan drops: no matches. */
  lemma UnreadableRootNoMatches(root: Path, tree: Node, targets: seq<string>)
    requires !tree.readable
    ensures WalkRoot(root, tree) == [WalkError]
    ensures ScanFrom([], WalkRoot(root, tree), targets) == []
  {
  }

  /**
   * A root that is a link to a directory is never reported itself, but its
   * target is scanned as if its entries lay directly under the root path.
   */
  lemma LinkedRootIsDescended(root: Path, tree: Node, targets: seq<string>)
    requires tree.readable && tree.kind == Symlink
    ensures ScanFrom([], WalkRoot(root, tree), targets) == ScanFrom([], WalkChildren(root, tree.children), targets)
    ensures root !in ScanFrom([], WalkRoot(root, tree), targets)
  {
    var rest := WalkChildren(root, tree.children);
    assert ([Found(Entry(root, Symlink))] + rest)[1..] == rest;
    assert Step([], Found(Entry(root, Symlink)), targets) == [];
    ScanFromSound([], rest, targets);
    WalkChildrenUnder(root, tree.children);
  }

  /**
   * A target directory of the walk that lies under no other match is
   * returned, and exactly once.
   */
  lemma MatchAppearsOnce(root: Path, tree: Node, targets: seq<string>, e: Entry)
    requires Found(e) in WalkRoot(root, tree) && e.kind == Dir && NameMatchesTarget(e.path, targets)
    requires forall q :: q in ScanFrom([], WalkRoot(root, tree), targets) && q <= e.path ==> q == e.path
    ensures var ms := ScanFrom([], WalkRoot(root, tree), targets);
      e.path in ms && forall i, j :: 0 <= i < |ms| && 0 <= j < |ms| && ms[i] == e.path && ms[j] == e.path ==> i == j
  {
    var ms := ScanFrom([], WalkRoot(root, tree), targets);
    ScanFromComplete([], WalkRoot(root, tree), targets);
    ScanFromPruned([], WalkRoot(root, tree), targets);
  }

  // ---------------------------------------------------------------------------
  // The scan as a recursive search that stops at each match.

  /** Sibling names are distinct, at every level, as in a real directory. */
  ghost predicate WellFormed(n: Node)
    decreases n
  {
    && (forall i, j :: 0 <= i < j < |n.children| ==> n.children[i].name != n.children[j].name)
    && (forall k :: 0 <= k < |n.children| ==> WellFormed(n.children[k]))
  }

  /** Matches found by descending the tree and not entering a matched directory. */
  function PrunedMatches(p: Path, n: Node, targets: seq<string>): seq<Path>
    decreases n, 1
  {
    if !n.readable || n.kind != Dir then []
    else if NameMatchesTarget(p, targets) then [p]
    else PrunedChildren(p, n.children, targets)
  }

  function PrunedChildren(p: Path, cs: seq<Node>, targets: seq<string>): seq<Path>
    decreases cs, 0
  {
    if cs == [] then [] else PrunedMatches(p + [cs[0].name], cs[0], targets) + PrunedChildren(p, cs[1..], targets)
  }

  /** The search from the root: a root link to a directory is searched through, as the walker does. */
  function PrunedRoot(root: Path, tree: Node, targets: seq<string>): seq<Path>
  {
    if tree.readable && tree.kind == Symlink then PrunedChildren(root, tree.children, targets)
    else PrunedMatches(root, tree, targets)
  }

  lemma {:induction false} PrunedUnder(p: Path, n: Node, targets: seq<string>)
    ensures forall r :: r in PrunedMatches(p, n, targets) ==> p <= r
    decreases n, 1
  {
    if n.readable && n.kind == Dir && !NameMatchesTarget(p, targets) {
      PrunedChildrenUnder(p, n.children, targets);
    }
  }

  lemma {:induction false} PrunedChildrenUnder(p: Path, cs: seq<Node>, targets: seq<string>)
    ensures forall r :: r in PrunedChildren(p, cs, targets) ==> p <= r && |p| < |r|
    decreases cs, 0
  {
    if cs != [] {
      var c := p + [cs[0].name];
      PrunedUnder(c, cs[0], targets);
      PrunedChildrenUnder(p, cs[1..], targets);
      forall r | r in PrunedChildren(p, cs, targets)
        ensures p <= r && |p| < |r|
      {
        if r in PrunedMatches(c, cs[0], targets) {
          assert r[..|p|] == c[..|p|] == p;
        }
      }
    }
  }

  lemma PrefixOfExtension(q: Path, p: Path, x: string)
    requires q <= p + [x]
    ensures q <= p || q == p + [x]
  {
    if |q| <= |p| {
      assert q == (p + [x])[..|q|] == p[..|q|];
    }
  }

  /**
   * Walking the subtree at p, from matches none of which is above or below p,
   * appends exactly the subtree's pruned matches.
   */
  lemma {:induction false} ScanNode(matched: seq<Path>, p: Path, n: Node, targets: seq<string>)
    requires WellFormed(n)
    requires forall q :: q in matched ==> !(q <= p) && !(p <= q)
    ensures ScanFrom(matched, Walk(p, n), targets) == matched + PrunedMatches(p, n, targets)
    decreases n, 1
  {
    if !n.readable {
      assert Walk(p, n)[1..] == [];
    } else {
      var rest := if n.kind == Dir then WalkChildren(p, n.children) else [];
      assert Walk(p, n) == [Found(Entry(p, n.kind))] + rest;
      assert Walk(p, n)[1..] == rest;
      assert !Skipped(matched, p);
      if n.kind == Dir && NameMatchesTarget(p, targets) {
        WalkChildrenUnder(p, n.children);
        assert forall e :: Found(e) in rest ==> p in matched + [p] && p <= e.path;
        ScanFromAllSkipped(matched + [p], rest, targets);
      } else if n.kind == Dir {
        forall q, k | q in matched && 0 <= k < |n.children|
          ensures !(p + [n.children[k].name] <= q)
        {
        }
        ScanChildren(matched, p, n.children, targets);
      } else {
        assert matched + [] == matched;
      }
    }
  }

  lemma {:induction false} ScanChildren(matched: seq<Path>, p: Path, cs: seq<Node>, targets: seq<string>)
    requires forall k :: 0 <= k < |cs| ==> WellFormed(cs[k])
    requires forall i, j :: 0 <= i < j < |cs| ==> cs[i].name != cs[j].name
    requires forall q :: q in matched ==> !(q <= p)
    requires forall q, k :: q in matched && 0 <= k < |cs| ==> !(p + [cs[k].name] <= q)
    ensures ScanFrom(matched, WalkChildren(p, cs), targets) == matched + PrunedChildren(p, cs, targets)
    decreases cs, 0
  {
    if cs == [] {
      assert matched + [] == matched;
    } else {
      var c := p + [cs[0].name];
      var tail := cs[1..];
      FirstChildBeside(matched, p, cs);
      ScanNode(matched, c, cs[0], targets);
      var found := PrunedMatches(c, cs[0], targets);
      var next := matched + found;
      assert WalkChildren(p, cs) == Walk(c, cs[0]) + WalkChildren(p, tail);
      ScanFromConcat(matched, Walk(c, cs[0]), WalkChildren(p, tail), targets);
      PrunedUnder(c, cs[0], targets);
      NextAvoidsSiblings(matched, found, p, cs);
      TailSiblings(cs);
      ScanChildren(next, p, tail, targets);
      var rest := PrunedChildren(p, tail, targets);
      assert PrunedChildren(p, cs, targets) == found + rest;
      AppendAssoc(matched, found, rest);
    }
  }

  /** The later siblings are well formed and have distinct names too. */
  lemma TailSiblings(cs: seq<Node>)
    requires cs != []
    requires forall k :: 0 <= k < |cs| ==> WellFormed(cs[k])
    requires forall i, j :: 0 <= i < j < |cs| ==> cs[i].name != cs[j].name
    ensures forall k :: 0 <= k < |cs[1..]| ==> WellFormed(cs[1..][k])
    ensures forall i, j :: 0 <= i < j < |cs[1..]| ==> cs[1..][i].name != cs[1..][j].name
  {
    forall i, j | 0 <= i < j < |cs[1..]|
      ensures cs[1..][i].name != cs[1..][j].name
    {
      assert cs[1..][i] == cs[i + 1] && cs[1..][j] == cs[j + 1];
    }
  }

  lemma AppendAssoc<T>(a: seq<T>, b: seq<T>, c: seq<T>)
    ensures a + b + c == a + (b + c)
  {
  }

  /** No match lies above or below the first child when none lies above p or below any child. */
  lemma FirstChildBeside(matched: seq<Path>, p: Path, cs: seq<Node>)
    requires cs != []
    requires forall q :: q in matched ==> !(q <= p)
    requires forall q, k :: q in matched && 0 <= k < |cs| ==> !(p + [cs[k].name] <= q)
    ensures forall q :: q in matched ==> !(q <= p + [cs[0].name]) && !(p + [cs[0].name] <= q)
  {
    forall q | q in matched
      ensures !(q <= p + [cs[0].name])
    {
      if q <= p + [cs[0].name] {
        PrefixOfExtension(q, p, cs[0].name);
      }
    }
  }

  /**
   * After the first child's matches are added, the matches still lie beside p
   * and none lies under a later sibling, since sibling names are distinct.
   */
  lemma NextAvoidsSiblings(matched: seq<Path>, found: seq<Path>, p: Path, cs: seq<Node>)
    requires cs != []
    requires forall i, j :: 0 <= i < j < |cs| ==> cs[i].name != cs[j].name
    requires forall q :: q in matched ==> !(q <= p)
    requires forall q, k :: q in matched && 0 <= k < |cs| ==> !(p + [cs[k].name] <= q)
    requires forall q :: q in found ==> p + [cs[0].name] <= q
    ensures forall q :: q in matched + found ==> !(q <= p)
    ensures forall q, k :: q in matched + found && 0 <= k < |cs[1..]| ==> !(p + [cs[1..][k].name] <= q)
  {
    forall q, k | q in found && 0 <= k < |cs[1..]|
      ensures !(p + [cs[1..][k].name] <= q)
    {
      assert q[|p|] == (p + [cs[0].name])[|p|] == cs[0].name != cs[k + 1].name;
    }
    forall q | q in matched + found
      ensures !(q <= p)
    {
      if q in found {
        assert |p + [cs[0].name]| <= |q|;
      }
    }
  }

  /**
   * On a real directory tree the skip-set scan finds exactly the matches of
   * the recursive search that does not descend into a match, in pre-order.
   */
  lemma ScanIsPrunedSearch(root: Path, tree: Node, targets: seq<string>)
    requires WellFormed(tree)
    ensures ScanFrom([], WalkRoot(root, tree), targets) == PrunedRoot(root, tree, targets)
  {
    if tree.readable && tree.kind == Symlink {
      LinkedRootIsDescended(root, tree, targets);
      ScanChildren([], root, tree.children, targets);
      assert [] + PrunedChildren(root, tree.children, targets) == PrunedRoot(root, tree, targets);
    } else {
      ScanNode([], root, tree, targets);
    }
  }

  /** No path in ps is a component-wise prefix of another one, in either order. */
  ghost predicate Antichain(ps: seq<Path>)
  {
    forall i, j :: 0 <= i < |ps| && 0 <= j < |ps| && i != j ==> !(ps[i] <= ps[j])
  }

  /**
   * On a real directory tree no match lies under another match, whichever
   * comes first, and no path is reported twice.
   */
  lemma ScanIsAntichain(root: Path, tree: Node, targets: seq<string>)
    requires WellFormed(tree)
    ensures Antichain(ScanFrom([], WalkRoot(root, tree), targets))
  {
    ScanIsPrunedSearch(root, tree, targets);
    if tree.readable && tree.kind == Symlink {
      PrunedChildrenAntichain(root, tree.children, targets);
    } else {
      PrunedAntichain(root, tree, targets);
    }
  }

  function Names(cs: seq<Node>): set<string>
  {
    set c | c in cs :: c.name
  }

  lemma {:induction false} PrunedAntichain(p: Path, n: Node, targets: seq<string>)
    requires WellFormed(n)
    ensures Antichain(PrunedMatches(p, n, targets))
    decreases n, 1
  {
    if n.readable && n.kind == Dir && !NameMatchesTarget(p, targets) {
      PrunedChildrenAntichain(p, n.children, targets);
    }
  }

  /** The matches under distinct siblings form an antichain; each one's next component names a sibling. */
  lemma {:induction false} PrunedChildrenAntichain(p: Path, cs: seq<Node>, targets: seq<string>)
    requires forall k :: 0 <= k < |cs| ==> WellFormed(cs[k])
    requires forall i, j :: 0 <= i < j < |cs| ==> cs[i].name != cs[j].name
    ensures Antichain(PrunedChildren(p, cs, targets))
    ensures forall r :: r in PrunedChildren(p, cs, targets) ==> |p| < |r| && r[|p|] in Names(cs)
    decreases cs, 0
  {
    if cs != [] {
      var c := p + [cs[0].name];
      var tail := cs[1..];
      TailSiblings(cs);
      PrunedAntichain(c, cs[0], targets);
      PrunedUnder(c, cs[0], targets);
      PrunedChildrenAntichain(p, tail, targets);
      var a := PrunedMatches(c, cs[0], targets);
      var b := PrunedChildren(p, tail, targets);
      forall r | r in a
        ensures |p| < |r| && r[|p|] == cs[0].name
      {
        assert c <= r && r[|p|] == c[|p|];
      }
      NamesTail(cs);
      AntichainJoin(a, b, |p|, cs[0].name, Names(tail));
      assert PrunedChildren(p, cs, targets) == a + b;
    }
  }

  lemma NamesTail(cs: seq<Node>)
    requires cs != []
    requires forall i, j :: 0 <= i < j < |cs| ==> cs[i].name != cs[j].name
    ensures cs[0].name !in Names(cs[1..])
    ensures Names(cs) == {cs[0].name} + Names(cs[1..])
  {
    forall c | c in cs[1..]
      ensures c.name != cs[0].name
    {
      var k :| 0 <= k < |cs[1..]| && cs[1..][k] == c;
      assert c == cs[k + 1];
    }
    assert cs == [cs[0]] + cs[1..];
  }

  /**
   * Two antichains whose paths differ at component d (x in the first, a
   * name from names in the second) join into one.
   */
  lemma AntichainJoin(a: seq<Path>, b: seq<Path>, d: nat, x: string, names: set<string>)
    requires Antichain(a) && Antichain(b)
    requires forall r :: r in a ==> d < |r| && r[d] == x
    requires forall r :: r in b ==> d < |r| && r[d] in names
    requires x !in names
    ensures Antichain(a + b)
  {
    var ab := a + b;
    forall i, j | 0 <= i < |ab| && 0 <= j < |ab| && i != j
      ensures !(ab[i] <= ab[j])
    {
      if i < |a| && j < |a| {
        assert ab[i] == a[i] && ab[j] == a[j];
      } else if |a| <= i && |a| <= j {
        assert ab[i] == b[i - |a|] && ab[j] == b[j - |a|];
      } else if i < |a| {
        assert ab[i] == a[i] && ab[j] == b[j - |a|];
        assert a[i] in a && b[j - |a|] in b;
        assert ab[i][d] != ab[j][d];
      } else {
        assert ab[i] == b[i - |a|] && ab[j] == a[j];
        assert b[i - |a|] in b && a[j] in a;
        assert ab[i][d] != ab[j][d];
      }
    }
  }

  // ---------------------------------------------------------------------------
  // `remove_folders`: every path is attempted, each outcome routes it.

  /** The paths, in input order, whose removal attempt gave `outcome`. */
  function Routed<T>(paths: seq<T>, succeeded: seq<bool>, outcome: bool): (r: seq<T>)
    requires |succeeded| == |paths|
    ensures |r| <= |paths|
  {
    if paths == [] then []
    else
      var n := |paths| - 1;
      Routed(paths[..n], succeeded[..n], outcome) + (if succeeded[n] == outcome then [paths[n]] else [])
  }

  /** One more attempt extends the route of its outcome by its path and leaves the other route alone. */
  lemma RoutedSnoc<T>(paths: seq<T>, succeeded: seq<bool>, outcome: bool)
    requires |succeeded| == |paths| > 0
    ensures var n := |paths| - 1;
      Routed(paths, succeeded, outcome)
      == Routed(paths[..n], succeeded[..n], outcome) + (if succeeded[n] == outcome then [paths[n]] else [])
  {
  }

  /**
   * `remove_folders(paths)`, where `succeeded[i]` is whether `fs::remove_dir_all(paths[i])` succeeded.
   */
  method RemoveFolders(paths: seq<Path>, succeeded: seq<bool>) returns (deleted: seq<Path>, errored: seq<Path>)
    requires |succeeded| == |paths|
    ensures deleted == Routed(paths, succeeded, true)
    ensures errored == Routed(paths, succeeded, false)
    ensures |deleted| + |errored| == |paths|
    ensures multiset(deleted) + multiset(errored) == multiset(paths)
  {
    deleted, errored := [], [];
    var i := 0;
    while i < |paths|
      invariant 0 <= i <= |paths|
      invariant deleted == Routed(paths[..i], succeeded[..i], true)
      invariant errored == Routed(paths[..i], succeeded[..i], false)
    {
      assert paths[..i + 1][..i] == paths[..i] && succeeded[..i + 1][..i] == succeeded[..i];
      if succeeded[i] {
        deleted := deleted + [paths[i]];
      } else {
        errored := errored + [paths[i]];
      }
      i := i + 1;
    }
    assert paths[..i] == paths && succeeded[..i] == succeeded;
    RoutedPartition(paths, succeeded);
  }

  /** The two routes split the input: together they hold each input exactly once. */
  lemma {:induction false} RoutedPartition<T>(paths: seq<T>, succeeded: seq<bool>)
    requires |succeeded| == |paths|
    ensures |Routed(paths, succeeded, true)| + |Routed(paths, succeeded, false)| == |paths|
    ensures multiset(Routed(paths, succeeded, true)) + multiset(Routed(paths, succeeded, false)) == multiset(paths)
  {
    if paths != [] {
      var n := |paths| - 1;
      var init, last := paths[..n], paths[n];
      var d, e := Routed(init, succeeded[..n], true), Routed(init, succeeded[..n], false);
      RoutedPartition(init, succeeded[..n]);
      RoutedSnoc(paths, succeeded, true);
      RoutedSnoc(paths, succeeded, false);
      MultisetSnoc(d, e, paths);
    }
  }

  /** Adding the last element to either of two parts of the rest of a sequence gives the whole. */
  lemma MultisetSnoc<T>(d: seq<T>, e: seq<T>, paths: seq<T>)
    requires |paths| > 0
    requires multiset(d) + multiset(e) == multiset(paths[..|paths| - 1])
    ensures multiset(d + [paths[|paths| - 1]]) + multiset(e) == multiset(paths)
    ensures multiset(d) + multiset(e + [paths[|paths| - 1]]) == multiset(paths)
  {
    var last := paths[|paths| - 1];
    assert paths == paths[..|paths| - 1] + [last];
    calc {
      multiset(d + [last]) + multiset(e);
      multiset(d) + multiset{last} + multiset(e);
      (multiset(d) + multiset(e)) + multiset{last};
      multiset(paths);
    }
    calc {
      multiset(d) + multiset(e + [last]);
      (multiset(d) + multiset(e)) + multiset{last};
      multiset(paths);
    }
  }

  /** The number of attempts with the given outcome. */
  function Count(succeeded: seq<bool>, outcome: bool): nat
  {
    if succeeded == [] then 0
    else Count(succeeded[..|succeeded| - 1], outcome) + (if succeeded[|succeeded| - 1] == outcome then 1 else 0)
  }

  /** Rebuilds the input order from the two routes and the outcomes. */
  function Merge<T>(deleted: seq<T>, errored: seq<T>, succeeded: seq<bool>): seq<T>
    requires |deleted| == Count(succeeded, true) && |errored| == Count(succeeded, false)
  {
    if succeeded == [] then []
    else
      var n := |succeeded| - 1;
      if succeeded[n] then Merge(deleted[..|deleted| - 1], errored, succeeded[..n]) + [deleted[|deleted| - 1]]
      else Merge(deleted, errored[..|errored| - 1], succeeded[..n]) + [errored[|errored| - 1]]
  }

  lemma {:induction false} RoutedCount<T>(paths: seq<T>, succeeded: seq<bool>, outcome: bool)
    requires |succeeded| == |paths|
    ensures |Routed(paths, succeeded, outcome)| == Count(succeeded, outcome)
  {
    if paths != [] {
      RoutedCount(paths[..|paths| - 1], succeeded[..|paths| - 1], outcome);
    }
  }

  /**
   * Interleaving `deleted` and `errored` back by outcome gives the input: no
   * path is dropped, duplicated or reordered, and no attempt is skipped.
   */
  lemma {:induction false} RoutedMergeRoundTrip<T>(paths: seq<T>, succeeded: seq<bool>)
    requires |succeeded| == |paths|
    ensures |Routed(paths, succeeded, true)| == Count(succeeded, true)
    ensures |Routed(paths, succeeded, false)| == Count(succeeded, false)
    ensures Merge(Routed(paths, succeeded, true), Routed(paths, succeeded, false), succeeded) == paths
  {
    RoutedCount(paths, succeeded, true);
    RoutedCount(paths, succeeded, false);
    if paths != [] {
      var n := |paths| - 1;
      var init, last := paths[..n], paths[n];
      var d0, e0 := Routed(init, succeeded[..n], true), Routed(init, succeeded[..n], false);
      RoutedMergeRoundTrip(init, succeeded[..n]);
      RoutedSnoc(paths, succeeded, true);
      RoutedSnoc(paths, succeeded, false);
      var d, e := Routed(paths, succeeded, true), Routed(paths, succeeded, false);
      if succeeded[n] {
        assert d == d0 + [last] && e == e0;
        assert d[..|d| - 1] == d0 && d[|d| - 1] == last;
      } else {
        assert e == e0 + [last] && d == d0;
        assert e[..|e| - 1] == e0 && e[|e| - 1] == last;
      }
      assert Merge(d, e, succeeded) == init + [last];
      LastSplit(paths, Merge(d, e, succeeded));
    }
  }

  lemma LastSplit<T>(s: seq<T>, t: seq<T>)
    requires |s| > 0 && t == s[..|s| - 1] + [s[|s| - 1]]
    ensures t == s
  {
  }

  /** When every attempt succeeds everything is deleted, in input order; when every attempt fails everything is reported. */
  lemma {:induction false} RoutedUniform<T>(paths: seq<T>, succeeded: seq<bool>, outcome: bool)
    requires |succeeded| == |paths|
    requires forall i :: 0 <= i < |succeeded| ==> succeeded[i] == outcome
    ensures Routed(paths, succeeded, outcome) == paths
    ensures Routed(paths, succeeded, !outcome) == []
  {
    if paths != [] {
      var n := |paths| - 1;
      RoutedUniform(paths[..n], succeeded[..n], outcome);
      RoutedSnoc(paths, succeeded, outcome);
      RoutedSnoc(paths, succeeded, !outcome);
      assert paths == paths[..n] + [paths[n]];
    }
  }
}
