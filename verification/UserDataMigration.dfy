/**
 The one-time move of the desktop shell's data directory
 (packages/desktop/src/userDataMigration.ts, lines 15-79) and the launches that try
 it (packages/desktop/src/main.ts, lines 45-63). A file system is a map from
 absolute paths to entries. Every primitive operation may fail, and the ghost
 history keeps each state the file system passes through.
 */
module UserDataMigration {
  import opened Totals

  type Path = seq<string>

  datatype Entry = Dir | File(content: string) | Link(target: string)

  type Tree = map<Path, Entry>

  datatype Reason = OldMissing | NewPopulated | Identical

  datatype Outcome = NoOp(reason: Reason) | Migrated | Failed

  datatype Rename = Renamed | CrossDevice | RenameError

  /**
   Whether the two directories lie on different devices, and whether operations
   fail only for lack of space; otherwise any of them may fail.
   */
  datatype Device = Device(across: bool, reliable: bool)

  // ---------------------------------------------------------------------
  // Trees
  // ---------------------------------------------------------------------

  /** The paths at or below `dir`. */
  function Below(fs: Tree, dir: Path): set<Path> {
    set p | p in fs && dir <= p
  }

  /** The same, relative to `dir`. */
  function Relative(fs: Tree, dir: Path): (rels: set<Path>)
    ensures forall rel :: rel in rels <==> dir + rel in fs
  {
    Splits(dir);
    set p | p in fs && dir <= p :: p[|dir|..]
  }

  lemma Splits(dir: Path)
    ensures forall p: Path :: dir <= p ==> dir + p[|dir|..] == p
    ensures forall rel: Path :: dir <= dir + rel && (dir + rel)[|dir|..] == rel
  {
  }

  /** What is at and below `dir`, by relative path. */
  function TreeAt(fs: Tree, dir: Path): Tree {
    map rel | rel in Relative(fs, dir) :: fs[dir + rel]
  }

  function Without(fs: Tree, dir: Path): Tree {
    map p | p in fs && !(dir <= p) :: fs[p]
  }

  /** `tree` hung below `dir`. */
  function Hung(dir: Path, tree: Tree): Tree {
    map p | p in (set r | r in tree :: dir + r) :: tree[p[|dir|..]]
  }

  function Graft(fs: Tree, dir: Path, tree: Tree): Tree {
    Without(fs, dir) + Hung(dir, tree)
  }

  function Parent(dir: Path): Path {
    if dir == [] then [] else dir[..|dir| - 1]
  }

  /** Directories made for `dir` and whichever of its ancestors are missing. */
  function WithDirs(fs: Tree, dir: Path): Tree
    decreases |dir|
  {
    var up := if dir == [] then fs else WithDirs(fs, Parent(dir));
    if dir in up then up else up[dir := Dir]
  }

  /** Everything lies inside directories. */
  ghost predicate WellFormed(tree: Tree) {
    forall p, k: nat :: p in tree && k < |p| ==> p[..k] in tree && tree[p[..k]].Dir?
  }

  predicate Apart(a: Path, b: Path) {
    !(a <= b) && !(b <= a)
  }

  lemma TreeAtHas(fs: Tree, dir: Path, rel: Path)
    ensures rel in TreeAt(fs, dir) <==> dir + rel in fs
    ensures rel in TreeAt(fs, dir) ==> TreeAt(fs, dir)[rel] == fs[dir + rel]
  {
  }

  lemma SameTree(fs: Tree, dir: Path, tree: Tree)
    requires forall rel :: rel in tree <==> dir + rel in fs
    requires forall rel :: rel in tree ==> tree[rel] == fs[dir + rel]
    ensures TreeAt(fs, dir) == tree
  {
  }

  lemma SameBelow(fs: Tree, other: Tree, dir: Path)
    requires forall p :: dir <= p ==> (p in fs <==> p in other) && (p in fs ==> fs[p] == other[p])
    ensures TreeAt(fs, dir) == TreeAt(other, dir) && Below(fs, dir) == Below(other, dir)
  {
  }

  lemma GraftHas(fs: Tree, dir: Path, tree: Tree, p: Path)
    ensures p in Graft(fs, dir, tree) <==> if dir <= p then p[|dir|..] in tree else p in fs
    ensures p in Graft(fs, dir, tree) ==> Graft(fs, dir, tree)[p] == if dir <= p then tree[p[|dir|..]] else fs[p]
  {
    if dir <= p {
      assert p == dir + p[|dir|..];
    } else {
      assert forall r :: r in tree ==> dir <= dir + r;
    }
  }

  /** A file system is what lies outside a directory with the directory's tree hung back. */
  lemma Recompose(before: Tree, fs: Tree, dir: Path, tree: Tree)
    requires Without(fs, dir) == Without(before, dir) && TreeAt(fs, dir) == tree
    ensures fs == Graft(before, dir, tree)
  {
    forall p ensures (p in fs <==> p in Graft(before, dir, tree)) && (p in fs ==> fs[p] == Graft(before, dir, tree)[p]) {
      GraftHas(before, dir, tree, p);
      if dir <= p {
        assert p == dir + p[|dir|..];
        TreeAtHas(fs, dir, p[|dir|..]);
      } else {
        assert p in fs <==> p in Without(fs, dir);
        assert p in before <==> p in Without(before, dir);
      }
    }
  }

  /** What lies apart from a changed directory is as it was. */
  lemma ApartUnchanged(before: Tree, fs: Tree, changed: Path, dir: Path)
    requires Without(fs, changed) == Without(before, changed) && Apart(changed, dir)
    ensures TreeAt(fs, dir) == TreeAt(before, dir) && Below(fs, dir) == Below(before, dir)
    ensures (dir in fs <==> dir in before) && (dir in fs ==> fs[dir] == before[dir])
  {
    forall p | dir <= p ensures (p in fs <==> p in before) && (p in fs ==> fs[p] == before[p]) {
      ApartBelow(changed, dir, p);
      assert p in fs <==> p in Without(fs, changed);
      assert p in before <==> p in Without(before, changed);
    }
    SameBelow(fs, before, dir);
  }

  lemma ApartBelow(a: Path, b: Path, p: Path)
    requires Apart(a, b) && b <= p
    ensures !(a <= p)
  {
  }

  // ---------------------------------------------------------------------
  // Copying child by child
  // ---------------------------------------------------------------------

  /** The root of the tree and the children copied so far. */
  function Part(tree: Tree, done: set<string>): Tree {
    map r | r in tree && (r == [] || r[0] in done) :: tree[r]
  }

  function Children(tree: Tree): set<string> {
    set r | r in tree && |r| == 1 :: r[0]
  }

  lemma ChildTree(fs: Tree, dir: Path, name: string)
    ensures TreeAt(fs, dir + [name]) == TreeAt(TreeAt(fs, dir), [name])
  {
    var inner := TreeAt(TreeAt(fs, dir), [name]);
    forall rel ensures (rel in inner <==> dir + [name] + rel in fs) && (rel in inner ==> inner[rel] == fs[dir + [name] + rel]) {
      TreeAtHas(TreeAt(fs, dir), [name], rel);
      TreeAtHas(fs, dir, [name] + rel);
      assert dir + [name] + rel == dir + ([name] + rel);
    }
    SameTree(fs, dir + [name], inner);
  }

  /** A file or link has nothing below it. */
  lemma LeafTree(tree: Tree, name: string)
    requires WellFormed(tree) && [name] in tree && !tree[[name]].Dir?
    ensures TreeAt(tree, [name]) == map[[] := tree[[name]]]
  {
    forall rel ensures rel in map[[] := tree[[name]]] <==> [name] + rel in tree {
      assert ([name] + rel)[..1] == [name];
      assert [name] + [] == [name];
    }
    assert [name] + [] == [name];
    SameTree(tree, [name], map[[] := tree[[name]]]);
  }

  lemma OneMoreChild(before: Tree, fs: Tree, dir: Path, tree: Tree, done: set<string>, name: string)
    requires TreeAt(before, dir) == Part(tree, done) && name !in done
    requires Without(fs, dir + [name]) == Without(before, dir + [name])
    requires TreeAt(fs, dir + [name]) == TreeAt(tree, [name])
    ensures TreeAt(fs, dir) == Part(tree, done + {name})
  {
    var child := dir + [name];
    forall p | !(child <= p) ensures (p in fs <==> p in before) && (p in fs ==> fs[p] == before[p]) {
      assert p in fs <==> p in Without(fs, child);
      assert p in before <==> p in Without(before, child);
    }
    forall rel ensures (rel in Part(tree, done + {name}) <==> dir + rel in fs)
                       && (rel in Part(tree, done + {name}) ==> Part(tree, done + {name})[rel] == fs[dir + rel])
    {
      OneMoreChildAt(before, fs, dir, tree, done, name, rel);
    }
    SameTree(fs, dir, Part(tree, done + {name}));
  }

  lemma OneMoreChildAt(before: Tree, fs: Tree, dir: Path, tree: Tree, done: set<string>, name: string, rel: Path)
    requires TreeAt(before, dir) == Part(tree, done) && name !in done
    requires forall p :: !(dir + [name] <= p) ==> (p in fs <==> p in before) && (p in fs ==> fs[p] == before[p])
    requires TreeAt(fs, dir + [name]) == TreeAt(tree, [name])
    ensures rel in Part(tree, done + {name}) <==> dir + rel in fs
    ensures rel in Part(tree, done + {name}) ==> Part(tree, done + {name})[rel] == fs[dir + rel]
  {
    hide TreeAt;
    if rel != [] && rel[0] == name {
      assert rel == [name] + rel[1..] && dir + rel == dir + [name] + rel[1..];
      TreeAtHas(fs, dir + [name], rel[1..]);
      TreeAtHas(tree, [name], rel[1..]);
    } else {
      TreeAtHas(before, dir, rel);
      if rel != [] {
        assert (dir + [name])[|dir|] != (dir + rel)[|dir|];
      }
    }
  }

  /** With every child copied the copy is complete. */
  lemma AllChildren(tree: Tree)
    requires WellFormed(tree)
    ensures Part(tree, Children(tree)) == tree
  {
    forall r | r in tree && r != [] ensures r[0] in Children(tree) {
      assert r[..1] == [r[0]];
      assert [r[0]] in tree by {
        if |r| == 1 {
          assert r == [r[0]];
        }
      }
    }
  }

  lemma ChildWellFormed(tree: Tree, name: string)
    requires WellFormed(tree)
    ensures WellFormed(TreeAt(tree, [name]))
  {
    var child := TreeAt(tree, [name]);
    forall p, k: nat | p in child && k < |p| ensures p[..k] in child && child[p[..k]].Dir? {
      TreeAtHas(tree, [name], p);
      TreeAtHas(tree, [name], p[..k]);
      assert ([name] + p)[..k + 1] == [name] + p[..k];
    }
  }

  // ---------------------------------------------------------------------
  // Everything stays inside directories
  // ---------------------------------------------------------------------

  lemma NothingBelow(fs: Tree, dir: Path)
    requires WellFormed(fs) && (dir in fs ==> !fs[dir].Dir? || Below(fs, dir) == {dir})
    ensures Below(fs, dir) <= {dir}
  {
    forall p | p in Below(fs, dir) && p != dir ensures Below(fs, dir) <= {dir} {
      assert p[..|dir|] == dir;
    }
  }

  lemma WellFormedBelow(fs: Tree, dir: Path)
    requires WellFormed(fs)
    ensures WellFormed(TreeAt(fs, dir))
  {
    var tree := TreeAt(fs, dir);
    forall p, k: nat | p in tree && k < |p| ensures p[..k] in tree && tree[p[..k]].Dir? {
      TreeAtHas(fs, dir, p);
      TreeAtHas(fs, dir, p[..k]);
      assert (dir + p)[..|dir| + k] == dir + p[..k];
    }
  }

  lemma NewEntryFits(fs: Tree, dest: Path, entry: Entry)
    requires WellFormed(fs) && Rooted(fs, dest) && dest !in fs
    ensures WellFormed(fs[dest := entry])
  {
  }

  lemma LeafRemoved(fs: Tree, p: Path)
    requires WellFormed(fs) && (forall q :: q in fs && p <= q ==> q == p)
    ensures WellFormed(fs - {p})
  {
  }

  lemma {:induction false} Longest(paths: set<Path>)
    requires paths != {}
    ensures exists p :: p in paths && forall q :: q in paths ==> |q| <= |p|
    decreases |paths|
  {
    var p :| p in paths;
    var rest := paths - {p};
    if rest != {} {
      Longest(rest);
      var longest :| longest in rest && forall q :: q in rest ==> |q| <= |longest|;
      var best := if |p| <= |longest| then longest else p;
      assert forall q :: q in paths ==> q == p || q in rest;
      assert best in paths && forall q :: q in paths ==> |q| <= |best|;
    } else {
      assert forall q :: q in paths ==> q == p || q in rest;
    }
  }

  /** Some path has nothing below it. */
  lemma SomeLeaf(paths: set<Path>)
    requires paths != {}
    ensures exists p :: p in paths && forall q :: q in paths && p <= q ==> q == p
  {
    Longest(paths);
    var p :| p in paths && forall q :: q in paths ==> |q| <= |p|;
    assert forall q :: q in paths && p <= q ==> q == p;
  }

  lemma RenameFits(fs: Tree, from: Path, dest: Path)
    requires WellFormed(fs) && Apart(from, dest) && Rooted(fs, dest) && dest !in fs
    ensures WellFormed(Graft(Without(fs, from), dest, TreeAt(fs, from)))
  {
    var tree, rest := TreeAt(fs, from), Without(fs, from);
    var fs' := Graft(rest, dest, tree);
    WellFormedBelow(fs, from);
    forall p, k: nat | p in fs' && k < |p| ensures p[..k] in fs' && fs'[p[..k]].Dir? {
      GraftHas(rest, dest, tree, p);
      GraftHas(rest, dest, tree, p[..k]);
      hide Graft, Without, TreeAt;
      if dest <= p && |dest| <= k {
        assert p[..k][|dest|..] == p[|dest|..][..k - |dest|];
      } else if dest <= p {
        assert p[..k] == dest[..k];
      }
    }
  }

  /** Entries inside and outside a directory make up the file system. */
  lemma CountBelow(fs: Tree, dir: Path)
    ensures |fs| == |Without(fs, dir)| + |Below(fs, dir)|
    ensures |TreeAt(fs, dir)| == |Below(fs, dir)|
  {
    var inside, outside := Below(fs, dir), Without(fs, dir).Keys;
    assert fs.Keys == inside + outside && inside !! outside;
    assert |fs| == |fs.Keys| && |Without(fs, dir)| == |outside|;
    var tree := TreeAt(fs, dir);
    forall rel ensures rel in tree.Keys <==> dir + rel in inside {
      TreeAtHas(fs, dir, rel);
      assert dir <= dir + rel;
    }
    SameSize(tree.Keys, inside, dir);
    assert |tree| == |tree.Keys|;
  }

  lemma {:induction false} SameSize(rels: set<Path>, paths: set<Path>, dir: Path)
    requires forall rel: Path :: rel in rels <==> dir + rel in paths
    requires forall p :: p in paths ==> dir <= p
    ensures |rels| == |paths|
    decreases |rels|
  {
    forall p | p in paths ensures p[|dir|..] in rels {
      assert dir + p[|dir|..] == p;
    }
    if rels == {} {
      assert paths == {};
    } else {
      var rel :| rel in rels;
      forall other: Path ensures other in rels - {rel} <==> dir + other in paths - {dir + rel} {
        assert (dir + other)[|dir|..] == other && (dir + rel)[|dir|..] == rel;
      }
      SameSize(rels - {rel}, paths - {dir + rel}, dir);
    }
  }

  // ---------------------------------------------------------------------
  // The file system
  // ---------------------------------------------------------------------

  /** Only directories on the way to `dir` were added. */
  ghost predicate Extends(before: Tree, fs: Tree, dir: Path) {
    && (forall p :: p in before ==> p in fs && fs[p] == before[p])
    && (forall p :: p in fs && p !in before ==> p <= dir)
  }

  /** Every directory above `dir` exists. */
  ghost predicate Rooted(fs: Tree, dir: Path) {
    forall k: nat :: k < |dir| ==> dir[..k] in fs && fs[dir[..k]].Dir?
  }

  /** The states since `from` change nothing outside `dir`. */
  ghost predicate OnlyInside(history: seq<Tree>, from: nat, before: Tree, dir: Path) {
    forall i :: from <= i < |history| ==> Without(history[i], dir) == Without(before, dir)
  }

  lemma RootedExtends(before: Tree, fs: Tree, dir: Path)
    requires Rooted(before, dir) && Extends(before, fs, dir)
    ensures Without(fs, dir) == Without(before, dir)
  {
    forall p | p in fs && p !in before ensures dir <= p {
      assert p == dir[..|p|] && dir[..|dir|] == dir;
    }
  }

  lemma InsideOfInside(before: Tree, fs: Tree, dir: Path, name: string)
    requires Without(fs, dir + [name]) == Without(before, dir + [name])
    ensures Without(fs, dir) == Without(before, dir)
  {
    forall p | !(dir <= p) ensures (p in fs <==> p in before) && (p in fs ==> fs[p] == before[p]) {
      if |dir + [name]| <= |p| {
        assert p[..|dir + [name]|][..|dir|] == p[..|dir|];
      }
      assert p in fs <==> p in Without(fs, dir + [name]);
      assert p in before <==> p in Without(before, dir + [name]);
    }
  }

  lemma OnlyLeaf(before: Tree, fs: Tree, dest: Path, entry: Entry)
    requires Below(before, dest) == {} && fs == before[dest := entry]
    ensures TreeAt(fs, dest) == map[[] := entry]
  {
    forall rel ensures rel in map[[] := entry] <==> dest + rel in fs {
      assert dest <= dest + rel && dest + rel !in Below(before, dest);
      assert (dest + rel)[|dest|..] == rel && dest + [] == dest;
    }
    assert dest + [] == dest;
    SameTree(fs, dest, map[[] := entry]);
  }

  /** A directory just made where nothing was holds only itself. */
  lemma FreshDirectory(before: Tree, fs: Tree, dest: Path, tree: Tree)
    requires Below(before, dest) <= {dest} && Extends(before, fs, dest) && dest in fs && fs[dest].Dir?
    requires [] in tree && tree[[]].Dir?
    ensures TreeAt(fs, dest) == Part(tree, {})
  {
    forall rel ensures rel in Part(tree, {}) <==> dest + rel in fs {
      assert dest <= dest + rel && dest + [] == dest;
      if dest + rel in before {
        assert dest + rel in Below(before, dest);
      }
    }
    assert dest + [] == dest;
    SameTree(fs, dest, Part(tree, {}));
  }

  /** A child that has not been copied yet is not there. */
  lemma NotCopiedYet(fs: Tree, dest: Path, tree: Tree, done: set<string>, name: string)
    requires TreeAt(fs, dest) == Part(tree, done) && name !in done
    ensures Below(fs, dest + [name]) == {}
  {
    forall p | p in fs ensures !(dest + [name] <= p) {
      if dest + [name] <= p {
        var rel := p[|dest|..];
        assert p[..|dest|] == dest && dest + rel == p && rel[0] == (dest + [name])[|dest|];
        TreeAtHas(fs, dest, rel);
      }
    }
  }

  lemma ChildrenApart(src: Path, dest: Path, name: string)
    requires Apart(src, dest)
    ensures Apart(src + [name], dest + [name])
  {
    var s, d := src + [name], dest + [name];
    if |s| <= |d| {
      assert s[..|src|] == src && d[..|dest|] == dest && d[..|s|][..|src|] == dest[..|src|];
    }
    if |d| <= |s| {
      assert s[..|src|] == src && d[..|dest|] == dest && s[..|d|][..|dest|] == src[..|dest|];
    }
  }

  lemma ChildBelow(fs: Tree, src: Path, name: string)
    requires src in fs
    ensures Below(fs, src + [name]) < Below(fs, src)
  {
    forall p | p in Below(fs, src + [name]) ensures p in Below(fs, src) {
      assert p[..|src + [name]|][..|src|] == p[..|src|];
    }
    assert src in Below(fs, src) && src !in Below(fs, src + [name]);
  }

  lemma ChildRooted(fs: Tree, dest: Path, name: string)
    requires Rooted(fs, dest) && dest in fs && fs[dest].Dir?
    ensures Rooted(fs, dest + [name])
  {
    forall k: nat | k < |dest + [name]| ensures (dest + [name])[..k] in fs && fs[(dest + [name])[..k]].Dir? {
      assert (dest + [name])[..k] == dest[..k];
      assert dest[..|dest|] == dest;
    }
  }

  lemma OnlyInsideParent(history: seq<Tree>, from: nat, before: Tree, dest: Path, name: string)
    requires OnlyInside(history, from, before, dest + [name])
    ensures OnlyInside(history, from, before, dest)
  {
    forall i | from <= i < |history| ensures Without(history[i], dest) == Without(before, dest) {
      InsideOfInside(before, history[i], dest, name);
    }
  }

  /** All that copying one child needs to know about it. */
  lemma ChildReady(fs: Tree, src: Path, dest: Path, name: string, tree: Tree, done: set<string>)
    requires Apart(src, dest) && src in fs && tree == TreeAt(fs, src) && WellFormed(tree)
    requires name in Children(tree) && name !in done
    requires Rooted(fs, dest) && dest in fs && fs[dest].Dir? && TreeAt(fs, dest) == Part(tree, done)
    ensures var from, to := src + [name], dest + [name];
            && from in fs && TreeAt(fs, from) == TreeAt(tree, [name]) && WellFormed(TreeAt(tree, [name]))
            && Below(fs, to) == {} && Apart(from, to) && Rooted(fs, to) && Below(fs, from) < Below(fs, src)
            && (!fs[from].Dir? ==> TreeAt(tree, [name]) == map[[] := fs[from]])
  {
    assert [name] in tree by {
      var r :| r in tree && |r| == 1 && r[0] == name;
      assert r == [name];
    }
    TreeAtHas(fs, src, [name]);
    ChildTree(fs, src, name);
    NotCopiedYet(fs, dest, tree, done, name);
    ChildrenApart(src, dest, name);
    ChildWellFormed(tree, name);
    ChildBelow(fs, src, name);
    ChildRooted(fs, dest, name);
    if !fs[src + [name]].Dir? {
      LeafTree(tree, name);
    }
  }

  /** Changes below one child keep the directory and everything above it. */
  lemma DirectoryStays(before: Tree, fs: Tree, dest: Path, name: string)
    requires Without(fs, dest + [name]) == Without(before, dest + [name])
    requires Rooted(before, dest) && dest in before && before[dest].Dir?
    ensures Rooted(fs, dest) && dest in fs && fs[dest].Dir?
  {
    forall k: nat | k <= |dest| ensures dest[..k] in fs && fs[dest[..k]].Dir? {
      assert dest[..|dest|] == dest;
      assert dest[..k] in Without(before, dest + [name]);
      assert dest[..k] in Without(fs, dest + [name]);
    }
    assert dest[..|dest|] == dest;
  }

  lemma OnlyInsideChain(first: seq<Tree>, second: seq<Tree>, from: nat, before: Tree, mid: Tree, dest: Path)
    requires from <= |first| && first <= second
    requires OnlyInside(first, from, before, dest) && OnlyInside(second, |first|, mid, dest)
    requires Without(mid, dest) == Without(before, dest)
    ensures OnlyInside(second, from, before, dest)
  {
  }

  // ---------------------------------------------------------------------
  // The migration
  // ---------------------------------------------------------------------

  /** The directory exists and holds something. */
  predicate Populated(fs: Tree, dir: Path) {
    dir in fs && fs[dir].Dir? && Below(fs, dir) != {dir}
  }

  /** Why a call does nothing, if it does nothing. */
  function NoOpReason(fs: Tree, oldDir: Path, newDir: Path): Option<Reason> {
    if oldDir == newDir then Some(Identical)
    else if !(oldDir in fs && fs[oldDir].Dir?) then Some(OldMissing)
    else if Populated(fs, newDir) then Some(NewPopulated)
    else None
  }

  /** Both are told by what is there; of several reasons the first of these is told. */
  lemma NoOpReasonIs(fs: Tree, oldDir: Path, newDir: Path)
    ensures var reason := NoOpReason(fs, oldDir, newDir);
            && (reason == Some(Identical) <==> oldDir == newDir)
            && (reason == Some(OldMissing) <==> oldDir != newDir && !(oldDir in fs && fs[oldDir] == Dir))
            && (reason == Some(NewPopulated) <==>
                  && oldDir != newDir && oldDir in fs && fs[oldDir] == Dir && newDir in fs && fs[newDir] == Dir
                  && exists p :: p in fs && newDir <= p && p != newDir)
  {
    if newDir in fs && fs[newDir].Dir? {
      assert newDir in Below(fs, newDir);
      assert forall p :: p in fs && newDir <= p ==> p in Below(fs, newDir);
    }
  }

  /** What a successful call leaves, whichever way the tree went. */
  function Final(fs: Tree, oldDir: Path, newDir: Path): Tree {
    Graft(Without(WithDirs(fs - {newDir}, Parent(newDir)), oldDir), newDir, TreeAt(fs, oldDir))
  }

  /** The complete old tree is at one of the two directories. */
  ghost predicate Safe(fs: Tree, oldDir: Path, newDir: Path, tree: Tree) {
    TreeAt(fs, oldDir) == tree || TreeAt(fs, newDir) == tree
  }

  ghost predicate AllSafe(history: seq<Tree>, from: nat, oldDir: Path, newDir: Path, tree: Tree) {
    forall i :: from <= i < |history| ==> Safe(history[i], oldDir, newDir, tree)
  }

  /** The final tree without an old parent that nothing is left in. */
  function Swept(final: Tree, oldParent: Path): Tree {
    if oldParent in final && final[oldParent].Dir? && Below(final, oldParent) == {oldParent} then final - {oldParent} else final
  }

  /** The final tree, with or without an old parent that nothing is left in. */
  predicate MovedOut(fs: Tree, final: Tree, oldParent: Path) {
    fs == final || (fs == final - {oldParent} && Below(final, oldParent) == {oldParent})
  }

  /** Making directories that are not inside `dir` leaves its tree alone. */
  lemma ExtendsKeepsTree(before: Tree, fs: Tree, made: Path, dir: Path)
    requires Extends(before, fs, made) && !(dir <= made)
    ensures TreeAt(fs, dir) == TreeAt(before, dir) && Below(fs, dir) == Below(before, dir)
    ensures dir in fs <==> dir in before
  {
  }

  /** After a graft the tree is there. */
  lemma GraftHolds(before: Tree, dir: Path, tree: Tree)
    ensures TreeAt(Graft(before, dir, tree), dir) == tree
  {
  }

  /** Grafting commutes with removing something apart. */
  lemma GraftCommutes(before: Tree, dir: Path, tree: Tree, other: Path)
    requires Apart(dir, other)
    ensures Without(Graft(before, dir, tree), other) == Graft(Without(before, other), dir, tree)
  {
  }

  /** A graft brings nothing back below something apart. */
  lemma GraftLeavesGap(before: Tree, dir: Path, tree: Tree, other: Path)
    requires Apart(dir, other)
    ensures Below(Graft(Without(before, other), dir, tree), other) == {}
  {
  }

  /** An old directory inside the new one would make the new one populated. */
  lemma OldNotInsideNew(fs: Tree, oldDir: Path, newDir: Path)
    requires WellFormed(fs) && oldDir in fs && oldDir != newDir
    requires newDir in fs && fs[newDir].Dir? ==> Below(fs, newDir) == {newDir}
    ensures !(newDir <= oldDir)
  {
    if |newDir| < |oldDir| {
      var up := oldDir[..|newDir|];
      assert up in fs && fs[up].Dir? && oldDir in Below(fs, up);
      assert newDir <= oldDir ==> up == newDir;
    } else if |newDir| == |oldDir| {
      assert oldDir[..|newDir|] == oldDir;
    }
  }

  /** Removing the emptied old parent leaves the migrated tree alone. */
  lemma ParentRemovalKeeps(fs: Tree, oldDir: Path, newDir: Path, oldParent: Path)
    requires Apart(oldDir, newDir) && oldParent <= oldDir
    ensures TreeAt(fs - {oldParent}, newDir) == TreeAt(fs, newDir)
  {
  }

  lemma FinalFacts(before: Tree, prepared: Tree, oldDir: Path, newDir: Path)
    requires Apart(oldDir, newDir)
    requires prepared == WithDirs(if newDir in before && before[newDir].Dir? then before - {newDir} else before, Parent(newDir))
    requires TreeAt(prepared, oldDir) == TreeAt(before, oldDir)
    requires newDir in before ==> before[newDir].Dir?
    ensures var fs := Graft(Without(prepared, oldDir), newDir, TreeAt(prepared, oldDir));
            fs == Final(before, oldDir, newDir) && TreeAt(fs, newDir) == TreeAt(before, oldDir) && Below(fs, oldDir) == {}
  {
    hide Graft, WithDirs, Without, TreeAt, Below;
    assert newDir !in before ==> before - {newDir} == before;
    GraftHolds(Without(prepared, oldDir), newDir, TreeAt(prepared, oldDir));
    GraftLeavesGap(prepared, newDir, TreeAt(prepared, oldDir), oldDir);
  }

  lemma ParentRemovalIsSafe(moved: Tree, before: seq<Tree>, after: seq<Tree>, oldDir: Path, newDir: Path, oldParent: Path, tree: Tree)
    requires Apart(oldDir, newDir) && oldParent <= oldDir && TreeAt(moved, newDir) == tree && Below(moved, oldDir) == {}
    requires after == before + [moved - {oldParent}]
    ensures AllSafe(after, |before|, oldDir, newDir, tree) && Below(moved - {oldParent}, oldDir) == {}
  {
  }

  lemma LastIsSafe(history: seq<Tree>, oldDir: Path, newDir: Path, tree: Tree)
    requires history != [] && Safe(history[|history| - 1], oldDir, newDir, tree)
    ensures AllSafe(history, |history| - 1, oldDir, newDir, tree)
  {
  }

  lemma AllSafeChain(first: seq<Tree>, second: seq<Tree>, from: nat, oldDir: Path, newDir: Path, tree: Tree)
    requires from <= |first| && first <= second
    requires AllSafe(first, from, oldDir, newDir, tree) && AllSafe(second, |first|, oldDir, newDir, tree)
    ensures AllSafe(second, from, oldDir, newDir, tree)
  {
  }

  lemma ParentOutside(oldDir: Path, newDir: Path)
    requires Apart(oldDir, newDir)
    ensures !(oldDir <= Parent(newDir)) && !(newDir <= Parent(newDir)) && newDir != []
  {
  }

  /** The target's ancestors are made, and neither the old tree nor the target is touched. */
  lemma TargetReady(cleared: Tree, fs: Tree, oldDir: Path, newDir: Path)
    requires Apart(oldDir, newDir) && Extends(cleared, fs, Parent(newDir)) && oldDir in cleared && Below(cleared, newDir) <= {newDir}
    ensures TreeAt(fs, oldDir) == TreeAt(cleared, oldDir) && oldDir in fs && fs[oldDir] == cleared[oldDir]
    ensures Below(fs, newDir) <= {newDir}
    ensures Rooted(fs, Parent(newDir)) && Parent(newDir) in fs && fs[Parent(newDir)].Dir? ==> Rooted(fs, newDir)
  {
    ParentOutside(oldDir, newDir);
    ExtendsKeepsTree(cleared, fs, Parent(newDir), oldDir);
    ExtendsKeepsTree(cleared, fs, Parent(newDir), newDir);
    if Rooted(fs, Parent(newDir)) && Parent(newDir) in fs && fs[Parent(newDir)].Dir? {
      var name := newDir[|newDir| - 1];
      assert newDir == Parent(newDir) + [name];
      ChildRooted(fs, Parent(newDir), name);
    }
  }

  lemma OldSafeWhileCopying(before: Tree, history: seq<Tree>, from: nat, oldDir: Path, newDir: Path)
    requires Apart(oldDir, newDir) && OnlyInside(history, from, before, newDir)
    ensures AllSafe(history, from, oldDir, newDir, TreeAt(before, oldDir))
  {
    forall i | from <= i < |history| ensures Safe(history[i], oldDir, newDir, TreeAt(before, oldDir)) {
      ApartUnchanged(before, history[i], newDir, oldDir);
    }
  }

  lemma NewSafeWhileRemoving(copied: Tree, history: seq<Tree>, from: nat, oldDir: Path, newDir: Path, tree: Tree)
    requires Apart(oldDir, newDir) && OnlyInside(history, from, copied, oldDir) && TreeAt(copied, newDir) == tree
    ensures AllSafe(history, from, oldDir, newDir, tree)
  {
    forall i | from <= i < |history| ensures Safe(history[i], oldDir, newDir, tree) {
      ApartUnchanged(copied, history[i], oldDir, newDir);
    }
  }

  /**
   What a failed call leaves: the old directory, complete unless the new one is
   populated.
   */
  ghost predicate Left(fs: Tree, oldDir: Path, newDir: Path, tree: Tree) {
    oldDir in fs && fs[oldDir].Dir? && (TreeAt(fs, oldDir) == tree || Populated(fs, newDir))
  }

  /**
   A copy that needs more entries than fit, with nothing else in its way: the
   rename is refused across devices, and the target's parent is there.
   */
  predicate RunsShort(device: Device, space: nat, fs: Tree, oldDir: Path, newDir: Path) {
    device.reliable && CanTake(fs, newDir) && !HasRoom(device, space, fs, oldDir)
  }

  /** A rename needs no room; a copy needs it for every entry of the old tree. */
  predicate HasRoom(device: Device, space: nat, fs: Tree, oldDir: Path) {
    device.across ==> space >= |TreeAt(fs, oldDir)|
  }

  /** The target's parent is there, and no file or link is in the target's place. */
  predicate CanTake(fs: Tree, newDir: Path) {
    Parent(newDir) in fs && fs[Parent(newDir)].Dir? && (newDir in fs ==> fs[newDir].Dir?)
  }

  /** One launch's outcome against the states around it. */
  ghost predicate Follows(outcome: Outcome, was: Tree, now: Tree, oldDir: Path, newDir: Path) {
    match outcome
    case NoOp(reason) => now == was && NoOpReason(was, oldDir, newDir) == Some(reason)
    case Migrated => NoOpReason(now, oldDir, newDir) == Some(OldMissing)
    case Failed => NoOpReason(now, oldDir, newDir) == if Populated(now, newDir) then Some(NewPopulated) else None
  }

  lemma TakeHasParent(fs: Tree, newDir: Path)
    requires CanTake(fs, newDir)
    ensures Parent(newDir) in fs && fs[Parent(newDir)].Dir?
  {
  }

  lemma NothingYet(history: seq<Tree>, oldDir: Path, newDir: Path, tree: Tree)
    ensures AllSafe(history, |history|, oldDir, newDir, tree)
  {
  }

  /** The outcomes of consecutive launches, with the states before and after each. */
  ghost predicate Launched(outcomes: seq<Outcome>, was: seq<Tree>, now: seq<Tree>, oldDir: Path, newDir: Path) {
    && |was| == |now| == |outcomes|
    && (forall j :: 0 <= j < |outcomes| ==> Follows(outcomes[j], was[j], now[j], oldDir, newDir))
    && (forall j :: 0 <= j < |outcomes| ==> (outcomes[j].NoOp? <==> NoOpReason(was[j], oldDir, newDir).Some?))
    && (forall i, j :: 0 <= i && j == i + 1 < |outcomes| ==> was[j] == now[i])
  }

  lemma {:induction false} StaysSettled(outcomes: seq<Outcome>, was: seq<Tree>, now: seq<Tree>, oldDir: Path, newDir: Path, i: nat, j: nat)
    requires Launched(outcomes, was, now, oldDir, newDir) && i < j < |outcomes| && NoOpReason(now[i], oldDir, newDir).Some?
    ensures outcomes[j] == NoOp(NoOpReason(now[i], oldDir, newDir).value) && now[j] == now[i]
    decreases j
  {
    assert was[j] == now[j - 1];
    if i < j - 1 {
      StaysSettled(outcomes, was, now, oldDir, newDir, i, j - 1);
    }
  }

  lemma Settled(outcomes: seq<Outcome>, was: seq<Tree>, now: seq<Tree>, oldDir: Path, newDir: Path)
    requires Launched(outcomes, was, now, oldDir, newDir)
    ensures forall i, j :: 0 <= i < j < |outcomes| && outcomes[i].NoOp? ==> outcomes[j] == outcomes[i] && now[j] == was[i]
    ensures forall i, j :: 0 <= i < j < |outcomes| && outcomes[i].Migrated? ==> outcomes[j] == NoOp(OldMissing) && now[j] == now[i]
    ensures forall i, j :: 0 <= i && j == i + 1 < |outcomes| && outcomes[i].Failed? ==>
              (outcomes[j].NoOp? <==> Populated(now[i], newDir)) && (outcomes[j].NoOp? ==> outcomes[j].reason == NewPopulated)
  {
    forall i, j | 0 <= i < j < |outcomes| && !outcomes[i].Failed?
      ensures outcomes[j] == NoOp(NoOpReason(now[i], oldDir, newDir).value) && now[j] == now[i]
    {
      StaysSettled(outcomes, was, now, oldDir, newDir, i, j);
    }
  }

  lemma ParentIsRooted(fs: Tree, dir: Path)
    requires WellFormed(fs) && dir in fs
    ensures Rooted(fs, dir)
  {
  }

  lemma NothingMeansMissing(fs: Tree, dir: Path)
    ensures Below(fs, dir) == {} ==> dir !in fs
  {
    assert dir in fs ==> dir in Below(fs, dir);
  }

  lemma OldLeft(before: Tree, fs: Tree, oldDir: Path, newDir: Path)
    requires oldDir in before && before[oldDir].Dir? && TreeAt(fs, oldDir) == TreeAt(before, oldDir)
    ensures Left(fs, oldDir, newDir, TreeAt(before, oldDir))
  {
    TreeAtHas(before, oldDir, []);
    TreeAtHas(fs, oldDir, []);
    assert oldDir + [] == oldDir;
  }

  /** A removal that stopped has at least the root of the old tree left. */
  lemma NewLeft(copied: Tree, fs: Tree, oldDir: Path, newDir: Path, tree: Tree)
    requires TreeAt(copied, newDir) == tree == TreeAt(copied, oldDir) && Apart(oldDir, newDir)
    requires oldDir in copied && copied[oldDir].Dir?
    requires Without(fs, oldDir) == Without(copied, oldDir)
    requires oldDir in fs && forall p :: p in fs ==> p in copied && fs[p] == copied[p]
    ensures Left(fs, oldDir, newDir, tree)
  {
    ApartUnchanged(copied, fs, oldDir, newDir);
    TreeAtHas(copied, newDir, []);
    TreeAtHas(copied, oldDir, []);
    assert oldDir + [] == oldDir && newDir + [] == newDir;
    if Below(fs, newDir) == {newDir} {
      forall rel ensures (rel in tree <==> oldDir + rel in fs) && (rel in tree ==> tree[rel] == fs[oldDir + rel]) {
        TreeAtHas(copied, newDir, rel);
        TreeAtHas(copied, oldDir, rel);
        assert rel in tree ==> newDir + rel in Below(fs, newDir);
        assert newDir + rel == newDir + [] ==> rel == [];
      }
      SameTree(fs, oldDir, tree);
    }
  }

  /** With everything else as it was, the entries made are the ones below `newDir`. */
  lemma SpaceUsed(before: Tree, fs: Tree, newDir: Path)
    requires Without(fs, newDir) == Without(before, newDir)
    ensures |fs| - |before| == |Below(fs, newDir)| - |Below(before, newDir)|
    ensures |TreeAt(fs, newDir)| == |Below(fs, newDir)|
    ensures newDir !in before && Below(before, newDir) <= {newDir} ==> |Below(before, newDir)| == 0
  {
    CountBelow(before, newDir);
    CountBelow(fs, newDir);
    assert newDir !in before ==> newDir !in Below(before, newDir);
    assert newDir !in Below(before, newDir) && Below(before, newDir) <= {newDir} ==> Below(before, newDir) == {};
  }

  lemma RootedParent(fs: Tree, dir: Path)
    ensures Rooted(fs, dir) <==> dir == [] || (Rooted(fs, Parent(dir)) && Parent(dir) in fs && fs[Parent(dir)].Dir?)
  {
    assert dir != [] ==> dir[..|dir| - 1] == Parent(dir);
    assert dir != [] ==> forall k: nat :: k < |dir| ==> Parent(dir)[..k] == dir[..k];
  }

  lemma NothingAdded(fs: Tree, dir: Path)
    ensures Extends(fs, fs, dir)
  {
  }

  lemma ExtendsFurther(before: Tree, fs: Tree, dir: Path)
    requires Extends(before, fs, Parent(dir))
    ensures Extends(before, fs, dir)
  {
  }

  lemma OneMoreDir(before: Tree, above: Tree, dir: Path)
    requires if dir == [] then above == before else above == WithDirs(before, Parent(dir))
    requires Extends(before, above, dir) && Rooted(above, dir)
    ensures WithDirs(before, dir) == if dir in above then above else above[dir := Dir]
    ensures dir !in above ==> Extends(before, above[dir := Dir], dir) && Rooted(above[dir := Dir], dir)
  {
  }

  /** Only entries of the tree have been copied, and not all of them. */
  ghost predicate Unfinished(copied: Tree, tree: Tree) {
    copied.Keys < tree.Keys
  }

  lemma NotAbove(fs: Tree, dest: Path)
    requires dest !in fs && Below(fs, dest) <= {dest}
    ensures Below(fs, dest) == {}
  {
    assert forall p :: p in Below(fs, dest) ==> p == dest;
  }

  lemma NothingIsUnfinished(fs: Tree, dest: Path, before: Tree, src: Path)
    requires Below(fs, dest) == {} && src in before
    ensures Unfinished(TreeAt(fs, dest), TreeAt(before, src))
  {
    forall rel ensures rel !in TreeAt(fs, dest) {
      TreeAtHas(fs, dest, rel);
      assert dest <= dest + rel && (dest + rel in fs ==> dest + rel in Below(fs, dest));
    }
    TreeAtHas(before, src, []);
    assert src + [] == src;
  }

  lemma CopiedIsWithin(before: Tree, fs: Tree, dir: Path, tree: Tree, done: set<string>, name: string, rel: Path)
    requires TreeAt(before, dir) == Part(tree, done)
    requires Without(fs, dir + [name]) == Without(before, dir + [name])
    requires TreeAt(fs, dir + [name]).Keys <= TreeAt(tree, [name]).Keys && rel in TreeAt(fs, dir)
    ensures rel in tree
  {
    hide TreeAt, Without;
    TreeAtHas(fs, dir, rel);
    if rel != [] && rel[0] == name {
      assert rel == [name] + rel[1..] && dir + rel == dir + [name] + rel[1..];
      TreeAtHas(fs, dir + [name], rel[1..]);
      TreeAtHas(tree, [name], rel[1..]);
    } else {
      OutsideChild(before, fs, dir, name, rel);
      TreeAtHas(before, dir, rel);
    }
  }

  /** What an unfinished child leaves unfinished above it. */
  lemma UnfinishedChild(before: Tree, fs: Tree, dir: Path, tree: Tree, done: set<string>, name: string)
    requires TreeAt(before, dir) == Part(tree, done)
    requires Without(fs, dir + [name]) == Without(before, dir + [name])
    requires Unfinished(TreeAt(fs, dir + [name]), TreeAt(tree, [name]))
    ensures Unfinished(TreeAt(fs, dir), tree)
  {
    hide TreeAt, Without, Part;
    forall rel | rel in TreeAt(fs, dir).Keys ensures rel in tree.Keys {
      CopiedIsWithin(before, fs, dir, tree, done, name, rel);
    }
    var missing :| missing in TreeAt(tree, [name]).Keys && missing !in TreeAt(fs, dir + [name]).Keys;
    TreeAtHas(tree, [name], missing);
    TreeAtHas(fs, dir + [name], missing);
    TreeAtHas(fs, dir, [name] + missing);
    assert dir + [name] + missing == dir + ([name] + missing);
  }

  lemma OutsideChild(before: Tree, fs: Tree, dir: Path, name: string, rel: Path)
    requires Without(fs, dir + [name]) == Without(before, dir + [name])
    requires rel == [] || rel[0] != name
    ensures dir + rel in fs <==> dir + rel in before
  {
    var p := dir + rel;
    assert rel != [] ==> p[|dir|] == rel[0];
    assert (dir + [name])[|dir|] == name;
    assert p in fs <==> p in Without(fs, dir + [name]);
    assert p in before <==> p in Without(before, dir + [name]);
  }

  lemma UnfinishedIsSmaller(copied: Tree, tree: Tree)
    requires Unfinished(copied, tree)
    ensures |copied| < |tree|
  {
    var rest := tree.Keys - copied.Keys;
    assert tree.Keys == copied.Keys + rest && rest != {};
    assert |copied.Keys| == |copied| && |tree.Keys| == |tree|;
  }

  lemma NotThere(fs: Tree, dest: Path)
    requires Below(fs, dest) == {}
    ensures dest !in fs
  {
    assert dest in fs ==> dest in Below(fs, dest);
  }

  lemma RootLeft(fs: Tree, dir: Path)
    requires WellFormed(fs) && Below(fs, dir) != {}
    ensures dir in fs
  {
    var p :| p in Below(fs, dir);
    assert p == dir || p[..|dir|] == dir;
  }

  lemma LeafOf(fs: Tree, dir: Path, p: Path)
    requires WellFormed(fs) && p in Below(fs, dir) && forall q :: q in Below(fs, dir) && p <= q ==> q == p
    ensures WellFormed(fs - {p})
  {
    forall q | q in fs && p <= q ensures q == p {
      assert dir <= p <= q;
      assert q in Below(fs, dir);
    }
    LeafRemoved(fs, p);
  }

  class FileSystem {
    const device: Device
    var fs: Tree
    /** How many more entries can be made. */
    var space: nat
    ghost var history: seq<Tree>

    constructor (fs: Tree, device: Device, space: nat)
      ensures this.fs == fs && this.device == device && this.space == space && history == [fs]
    {
      this.fs, this.device, this.space, history := fs, device, space, [fs];
    }

    method Set(next: Tree)
      modifies this`fs, this`history
      ensures fs == next && history == old(history) + [next]
    {
      fs := next;
      history := history + [next];
    }

    /** An operation that makes an entry: refused without space, and on an unreliable device for any reason. */
    method Works() returns (ok: bool)
      ensures ok ==> space > 0
      ensures device.reliable ==> (ok <==> space > 0)
    {
      var luck := *;
      ok := space > 0 && (device.reliable || luck);
    }

    predicate DirExists(dir: Path)
      reads this
    {
      dir in fs && fs[dir].Dir?
    }

    /** One directory whose ancestors are there, unless it is there itself. */
    method MakeDirectory(dir: Path) returns (ok: bool)
      requires Rooted(fs, dir)
      modifies this
      ensures fs == if dir in old(fs) || !ok then old(fs) else old(fs)[dir := Dir]
      ensures ok ==> DirExists(dir)
      ensures space + |fs| == old(space) + |old(fs)|
      ensures WellFormed(old(fs)) ==> WellFormed(fs)
      ensures dir in old(fs) && old(fs)[dir].Dir? ==> ok
      ensures device.reliable && dir !in old(fs) && !ok ==> space == 0
      ensures history == if fs == old(fs) then old(history) else old(history) + [fs]
    {
      if dir in fs {
        return fs[dir].Dir?;
      }
      ok := Works();
      if ok {
        if WellFormed(fs) {
          NewEntryFits(fs, dir, Dir);
        }
        Set(fs[dir := Dir]);
        space := space - 1;
      }
    }

    /** mkdirSync with recursive: missing ancestors first. */
    method MkdirRecursive(dir: Path) returns (ok: bool)
      modifies this
      ensures ok ==> fs == WithDirs(old(fs), dir) && Rooted(fs, dir) && DirExists(dir)
      ensures Extends(old(fs), fs, dir) && space + |fs| == old(space) + |old(fs)|
      ensures WellFormed(old(fs)) ==> WellFormed(fs)
      ensures Rooted(old(fs), dir) && dir in old(fs) && old(fs)[dir].Dir? ==> ok && fs == old(fs) && space == old(space)
      ensures device.reliable && Rooted(old(fs), dir) && dir !in old(fs) && !ok ==> space == 0
      ensures Rooted(old(fs), dir) && !ok ==> fs == old(fs)
      ensures old(history) <= history
      ensures forall i :: |old(history)| <= i < |history| ==> Extends(old(fs), history[i], dir)
      decreases |dir|
    {
      hide WellFormed, WithDirs, Rooted, Extends;
      ok := true;
      RootedParent(fs, dir);
      NothingAdded(fs, dir);
      if dir != [] {
        ok := MkdirRecursive(Parent(dir));
        forall next | Extends(old(fs), next, Parent(dir)) ensures Extends(old(fs), next, dir) {
          ExtendsFurther(old(fs), next, dir);
        }
        if !ok {
          return;
        }
      }
      ghost var above := fs;
      RootedParent(above, dir);
      ok := MakeDirectory(dir);
      OneMoreDir(old(fs), above, dir);
    }

    /** rmSync, recursive: everything at and below `dir`, what is inside a directory before the directory. */
    method RmRecursive(dir: Path) returns (ok: bool)
      requires WellFormed(fs)
      modifies this
      ensures ok ==> fs == Without(old(fs), dir)
      ensures Without(fs, dir) == Without(old(fs), dir)
      ensures WellFormed(fs) && (forall p :: p in fs ==> p in old(fs) && fs[p] == old(fs)[p])
      ensures !ok ==> dir in fs
      ensures device.reliable ==> ok
      ensures old(history) <= history && OnlyInside(history, |old(history)|, old(fs), dir)
    {
      while Below(fs, dir) != {}
        invariant Without(fs, dir) == Without(old(fs), dir)
        invariant WellFormed(fs) && (forall p :: p in fs ==> p in old(fs) && fs[p] == old(fs)[p])
        invariant old(history) <= history && OnlyInside(history, |old(history)|, old(fs), dir)
        decreases Below(fs, dir)
      {
        var luck := *;
        if !device.reliable && !luck {
          RootLeft(fs, dir);
          return false;
        }
        ghost var was := fs;
        SomeLeaf(Below(fs, dir));
        var p :| p in Below(fs, dir) && forall q :: q in Below(fs, dir) && p <= q ==> q == p;
        LeafOf(fs, dir, p);
        Set(fs - {p});
        assert p in Below(was, dir) && p !in Below(fs, dir);
        assert Without(fs, dir) == Without(was, dir);
      }
      assert fs == Without(fs, dir) by {
        assert forall p :: p in fs && dir <= p ==> p in Below(fs, dir);
      }
      return true;
    }

    /** renameSync: atomic; refused across devices, or when something is in the way. */
    method RenameTo(from: Path, dest: Path) returns (how: Rename)
      requires WellFormed(fs) && Apart(from, dest) && Rooted(fs, dest)
      modifies this
      ensures how.Renamed? ==> dest !in old(fs)
      ensures how.Renamed? ==> fs == Graft(Without(old(fs), from), dest, TreeAt(old(fs), from)) && history == old(history) + [fs]
      ensures !how.Renamed? ==> fs == old(fs) && history == old(history)
      ensures WellFormed(fs) && space == old(space)
      ensures device.reliable && device.across ==> how.CrossDevice?
      ensures device.reliable && !device.across && dest !in old(fs) ==> how.Renamed?
    {
      var luck := *;
      if !device.reliable && !luck {
        return RenameError;
      }
      if device.across {
        return CrossDevice;
      }
      if dest in fs {
        return RenameError;
      }
      RenameFits(fs, from, dest);
      Set(Graft(Without(fs, from), dest, TreeAt(fs, from)));
      return Renamed;
    }

    /** copyFileSync or symlinkSync; a failed copy may leave part of the file behind. */
    method CopyLeaf(entry: Entry, dest: Path) returns (ok: bool)
      requires !entry.Dir? && Below(fs, dest) == {} && WellFormed(fs) && Rooted(fs, dest)
      modifies this
      ensures Without(fs, dest) == Without(old(fs), dest)
      ensures ok ==> TreeAt(fs, dest) == map[[] := entry]
      ensures WellFormed(fs) && space + |fs| == old(space) + |old(fs)|
      ensures device.reliable && !ok ==> space == 0 && Below(fs, dest) == {}
      ensures old(history) <= history && OnlyInside(history, |old(history)|, old(fs), dest)
    {
      var leftover: string := *;
      ghost var was := fs;
      assert dest !in fs by {
        assert dest in fs ==> dest in Below(fs, dest);
      }
      NewEntryFits(fs, dest, entry);
      NewEntryFits(fs, dest, File(leftover));
      ok := Works();
      if ok {
        Set(fs[dest := entry]);
        space := space - 1;
        OnlyLeaf(was, fs, dest, entry);
      } else if space > 0 && leftover != "" {
        Set(fs[dest := File(leftover)]);
        space := space - 1;
      }
      assert Without(fs, dest) == Without(was, dest);
    }

    /** One directory entry: a directory recursively, a link or a file as it is. */
    method CopyChild(src: Path, dest: Path, name: string, ghost tree: Tree, ghost done: set<string>) returns (ok: bool)
      requires Apart(src, dest) && src in fs && tree == TreeAt(fs, src) && WellFormed(tree)
      requires name in Children(tree) && name !in done
      requires WellFormed(fs) && Rooted(fs, dest) && DirExists(dest) && TreeAt(fs, dest) == Part(tree, done)
      modifies this
      ensures Without(fs, dest) == Without(old(fs), dest) && WellFormed(fs) && Rooted(fs, dest) && DirExists(dest)
      ensures ok ==> TreeAt(fs, dest) == Part(tree, done + {name})
      ensures space + |fs| == old(space) + |old(fs)|
      ensures device.reliable && !ok ==> space == 0 && Unfinished(TreeAt(fs, dest), tree)
      ensures old(history) <= history && OnlyInside(history, |old(history)|, old(fs), dest)
      decreases Below(fs, src), 0
    {
      hide Apart, TreeAt, WellFormed, Children, Rooted, Part, Without, Below, OnlyInside, Unfinished;
      ghost var was := fs;
      var from, to := src + [name], dest + [name];
      ChildReady(fs, src, dest, name, tree, done);
      NotThere(fs, to);
      if fs[from].Dir? {
        assert to[..|to| - 1] == dest;
        ok := CopyDirRecursive(from, to);
      } else {
        ok := CopyLeaf(fs[from], to);
        if !ok && device.reliable {
          NothingIsUnfinished(fs, to, was, from);
        }
      }
      if !ok && device.reliable {
        UnfinishedChild(was, fs, dest, tree, done, name);
      }
      DirectoryStays(was, fs, dest, name);
      InsideOfInside(was, fs, dest, name);
      OnlyInsideParent(history, |old(history)|, was, dest, name);
      if ok {
        OneMoreChild(was, fs, dest, tree, done, name);
      }
    }

    /** Copies the directory child by child; a failure leaves what was copied so far. */
    method CopyDirRecursive(src: Path, dest: Path) returns (ok: bool)
      requires Apart(src, dest) && DirExists(src) && WellFormed(TreeAt(fs, src)) && WellFormed(fs)
      requires dest != [] && Rooted(fs, dest) && Below(fs, dest) <= {dest}
      modifies this
      ensures Without(fs, dest) == Without(old(fs), dest) && WellFormed(fs)
      ensures ok ==> TreeAt(fs, dest) == TreeAt(old(fs), src) && (dest in old(fs) ==> old(fs)[dest].Dir?)
      ensures space + |fs| == old(space) + |old(fs)|
      ensures device.reliable && dest !in old(fs) && !ok ==> space == 0 && Unfinished(TreeAt(fs, dest), TreeAt(old(fs), src))
      ensures old(history) <= history && OnlyInside(history, |old(history)|, old(fs), dest)
      decreases Below(fs, src), 1
    {
      hide WellFormed, Children, Rooted, Part, Without, Below, OnlyInside, TreeAt, Unfinished;
      ghost var before, tree := fs, TreeAt(fs, src);
      ok := MakeCopyTarget(src, dest);
      if !ok {
        return;
      }
      ApartUnchanged(before, fs, dest, src);
      var todo := Children(TreeAt(fs, src));
      assert Children(tree) - todo == {};
      while todo != {}
        invariant todo <= Children(tree) && DirExists(dest) && Rooted(fs, dest) && WellFormed(fs)
        invariant space + |fs| == old(space) + |old(fs)|
        invariant Without(fs, dest) == Without(before, dest)
        invariant TreeAt(fs, dest) == Part(tree, Children(tree) - todo)
        invariant old(history) <= history && OnlyInside(history, |old(history)|, before, dest)
        decreases todo
      {
        var name :| name in todo;
        ghost var was, seen := fs, history;
        ApartUnchanged(before, fs, dest, src);
        ok := CopyChild(src, dest, name, tree, Children(tree) - todo);
        OnlyInsideChain(seen, history, |old(history)|, before, was, dest);
        if !ok {
          return;
        }
        assert Children(tree) - todo + {name} == Children(tree) - (todo - {name});
        todo := todo - {name};
      }
      assert Children(tree) - {} == Children(tree);
      AllChildren(tree);
    }

    /** The target directory, with nothing in it yet. */
    method MakeCopyTarget(src: Path, dest: Path) returns (ok: bool)
      requires Apart(src, dest) && DirExists(src) && WellFormed(fs)
      requires Rooted(fs, dest) && Below(fs, dest) <= {dest}
      modifies this
      ensures Without(fs, dest) == Without(old(fs), dest) && WellFormed(fs)
      ensures space + |fs| == old(space) + |old(fs)|
      ensures device.reliable && dest !in old(fs) && !ok ==> space == 0 && Unfinished(TreeAt(fs, dest), TreeAt(old(fs), src))
      ensures ok ==> Rooted(fs, dest) && DirExists(dest) && TreeAt(fs, dest) == Part(TreeAt(old(fs), src), {})
      ensures ok ==> (dest in old(fs) ==> old(fs)[dest].Dir?)
      ensures old(history) <= history && OnlyInside(history, |old(history)|, old(fs), dest)
    {
      ghost var before, tree := fs, TreeAt(fs, src);
      ok := MkdirRecursive(dest);
      RootedExtends(before, fs, dest);
      forall i | |old(history)| <= i < |history| ensures Without(history[i], dest) == Without(before, dest) {
        RootedExtends(before, history[i], dest);
      }
      if ok {
        TreeAtHas(before, src, []);
        assert src + [] == src;
        FreshDirectory(before, fs, dest, tree);
      } else if dest !in before {
        NotAbove(before, dest);
        NothingIsUnfinished(before, dest, before, src);
      }
    }

    /** rename, or across devices copy and then remove. */
    method MoveTree(oldDir: Path, newDir: Path) returns (ok: bool)
      requires Apart(oldDir, newDir) && DirExists(oldDir) && WellFormed(TreeAt(fs, oldDir)) && WellFormed(fs)
      requires newDir != [] && Rooted(fs, newDir) && Below(fs, newDir) <= {newDir}
      modifies this
      ensures ok ==> fs == Graft(Without(old(fs), oldDir), newDir, TreeAt(old(fs), oldDir))
      ensures ok && newDir in old(fs) ==> old(fs)[newDir].Dir?
      ensures WellFormed(fs) && (!ok ==> Left(fs, oldDir, newDir, TreeAt(old(fs), oldDir)))
      ensures device.reliable && device.across && newDir !in old(fs) && old(space) < |TreeAt(old(fs), oldDir)| ==>
                !ok && |Below(fs, newDir)| == old(space) && TreeAt(fs, oldDir) == TreeAt(old(fs), oldDir)
      ensures device.reliable && newDir !in old(fs) && HasRoom(device, old(space), old(fs), oldDir) ==> ok
      ensures old(history) <= history && AllSafe(history, |old(history)|, oldDir, newDir, TreeAt(old(fs), oldDir))
    {
      hide WellFormed, TreeAt, Without, Graft, Below, Rooted, OnlyInside, Left, Unfinished;
      ghost var before, tree := fs, TreeAt(fs, oldDir);
      var how := RenameTo(oldDir, newDir);
      if how.Renamed? {
        GraftHolds(Without(before, oldDir), newDir, tree);
        LastIsSafe(history, oldDir, newDir, tree);
        return true;
      }
      if how.RenameError? {
        OldLeft(before, fs, oldDir, newDir);
        return false;
      }
      ok := CopyDirRecursive(oldDir, newDir);
      OldSafeWhileCopying(before, history, |old(history)|, oldDir, newDir);
      ApartUnchanged(before, fs, newDir, oldDir);
      SpaceUsed(before, fs, newDir);
      if !ok {
        OldLeft(before, fs, oldDir, newDir);
        if device.reliable && newDir !in before {
          UnfinishedIsSmaller(TreeAt(fs, newDir), tree);
        }
        return;
      }
      ghost var copied, seen := fs, history;
      Recompose(before, fs, newDir, tree);
      ok := RmRecursive(oldDir);
      if !ok {
        NewLeft(copied, fs, oldDir, newDir, tree);
      }
      GraftCommutes(before, newDir, tree, oldDir);
      NewSafeWhileRemoving(copied, history, |seen|, oldDir, newDir, tree);
      AllSafeChain(seen, history, |old(history)|, oldDir, newDir, tree);
    }

    /** rmdirSync of the old parent, which fails harmlessly when something is left in it. */
    method RemoveIfEmpty(dir: Path) returns (removed: bool)
      requires WellFormed(fs)
      modifies this`fs, this`history
      ensures WellFormed(fs)
      ensures removed ==> dir in old(fs) && old(fs)[dir].Dir? && Below(old(fs), dir) == {dir} && fs == old(fs) - {dir} && history == old(history) + [fs]
      ensures !removed ==> fs == old(fs) && history == old(history)
      ensures device.reliable && dir in old(fs) && old(fs)[dir].Dir? && Below(old(fs), dir) == {dir} ==> removed
    {
      var luck := *;
      removed := (device.reliable || luck) && DirExists(dir) && Below(fs, dir) == {dir};
      if removed {
        LeafOf(fs, dir, dir);
        Set(fs - {dir});
      }
    }

    /** Removes an empty directory that is in the way and makes the target's ancestors. */
    method PrepareTarget(oldDir: Path, newDir: Path) returns (ok: bool)
      requires WellFormed(fs) && DirExists(oldDir) && oldDir != newDir && !(oldDir <= newDir)
      requires DirExists(newDir) ==> Below(fs, newDir) == {newDir}
      modifies this
      ensures Apart(oldDir, newDir) && newDir != [] && WellFormed(fs) && DirExists(oldDir)
      ensures ok ==> fs == WithDirs(if newDir in old(fs) && old(fs)[newDir].Dir? then old(fs) - {newDir} else old(fs), Parent(newDir))
      ensures ok ==> Rooted(fs, newDir) && Below(fs, newDir) <= {newDir}
      ensures ok ==> (newDir in fs <==> newDir in old(fs) && !old(fs)[newDir].Dir?) && (newDir in fs ==> !fs[newDir].Dir?)
      ensures device.reliable && CanTake(old(fs), newDir) ==> ok && newDir !in fs && space == old(space)
      ensures TreeAt(fs, oldDir) == TreeAt(old(fs), oldDir)
      ensures old(history) <= history && AllSafe(history, |old(history)|, oldDir, newDir, TreeAt(old(fs), oldDir))
    {
      hide WithDirs, TreeAt;
      OldNotInsideNew(fs, oldDir, newDir);
      NothingBelow(fs, newDir);
      ghost var before := fs;
      if DirExists(newDir) {
        var luck := *;
        if !device.reliable && !luck {
          return false;
        }
        LeafOf(fs, newDir, newDir);
        Set(fs - {newDir});
        SameBelow(before, fs, oldDir);
      }
      assert Below(fs, newDir) <= {newDir};
      if Parent(newDir) in fs {
        ParentIsRooted(fs, Parent(newDir));
      }
      hide WellFormed;
      ghost var cleared, seen := fs, history;
      ok := MkdirRecursive(Parent(newDir));
      TargetReady(cleared, fs, oldDir, newDir);
      forall i | |seen| <= i < |history| ensures Safe(history[i], oldDir, newDir, TreeAt(before, oldDir)) {
        ParentOutside(oldDir, newDir);
        ExtendsKeepsTree(cleared, history[i], Parent(newDir), oldDir);
      }
    }

    /** The part of the call that changes anything. */
    method Migrate(oldDir: Path, newDir: Path, oldParent: Path) returns (ok: bool)
      requires WellFormed(fs) && DirExists(oldDir) && oldDir != newDir && !(oldDir <= newDir)
      requires DirExists(newDir) ==> Below(fs, newDir) == {newDir}
      requires oldParent <= oldDir
      modifies this
      ensures ok ==> TreeAt(fs, newDir) == TreeAt(old(fs), oldDir) && Below(fs, oldDir) == {}
      ensures ok ==> MovedOut(fs, Final(old(fs), oldDir, newDir), oldParent)
      ensures WellFormed(fs) && (!ok ==> Left(fs, oldDir, newDir, TreeAt(old(fs), oldDir)))
      ensures RunsShort(device, old(space), old(fs), oldDir, newDir) ==>
                !ok && |Below(fs, newDir)| == old(space) && TreeAt(fs, oldDir) == TreeAt(old(fs), oldDir)
      ensures device.reliable && CanTake(old(fs), newDir) && HasRoom(device, old(space), old(fs), oldDir) ==> ok
      ensures ok ==> (newDir in old(fs) ==> old(fs)[newDir].Dir?)
      ensures ok && device.reliable ==> fs == Swept(Final(old(fs), oldDir, newDir), oldParent)
      ensures old(history) <= history && AllSafe(history, |old(history)|, oldDir, newDir, TreeAt(old(fs), oldDir))
    {
      hide WellFormed, TreeAt, Without, Graft, Below, Rooted, AllSafe, Safe, WithDirs, Final, Left;
      ghost var before := fs;
      WellFormedBelow(fs, oldDir);
      ok := PrepareTarget(oldDir, newDir);
      ghost var prepared, seen := fs, history;
      if !ok {
        OldLeft(before, fs, oldDir, newDir);
        return;
      }
      ok := MoveTree(oldDir, newDir);
      AllSafeChain(seen, history, |old(history)|, oldDir, newDir, TreeAt(before, oldDir));
      if !ok {
        return;
      }
      FinalFacts(before, prepared, oldDir, newDir);
      ghost var moved, kept := fs, history;
      var removed := RemoveIfEmpty(oldParent);
      if removed {
        ParentRemovalKeeps(moved, oldDir, newDir, oldParent);
        ParentRemovalIsSafe(moved, kept, history, oldDir, newDir, oldParent, TreeAt(before, oldDir));
        AllSafeChain(kept, history, |old(history)|, oldDir, newDir, TreeAt(before, oldDir));
      }
    }

    /**
     Nothing is lost: in every state from the call on, a failure part-way
     included, the complete old tree is at `oldDir` or at `newDir`. Both ways of
     moving end in the same tree, and a no-op changes nothing. A failed call will
     be resumed by the next exactly when the new directory is not populated. On a
     reliable device with the target's parent there, the call succeeds exactly when
     no file is in the target's place and, across devices, every entry fits; with
     room for fewer, as many as fit are left there.
     */
    method MigrateUserData(oldDir: Path, newDir: Path, oldParent: Path) returns (outcome: Outcome)
      requires WellFormed(fs)
      requires oldDir == newDir || !(oldDir <= newDir)
      requires oldParent <= oldDir
      modifies this
      ensures outcome.NoOp? <==> NoOpReason(old(fs), oldDir, newDir).Some?
      ensures outcome.NoOp? ==> Some(outcome.reason) == NoOpReason(old(fs), oldDir, newDir) && fs == old(fs) && history == old(history)
      ensures outcome.Migrated? ==>
                && TreeAt(fs, newDir) == TreeAt(old(fs), oldDir) && Below(fs, oldDir) == {}
                && MovedOut(fs, Final(old(fs), oldDir, newDir), oldParent)
                && NoOpReason(fs, oldDir, newDir) == Some(OldMissing)
      ensures outcome.Failed? ==>
                && NoOpReason(fs, oldDir, newDir) == (if Populated(fs, newDir) then Some(NewPopulated) else None)
                && (!Populated(fs, newDir) ==> TreeAt(fs, oldDir) == TreeAt(old(fs), oldDir))
      ensures NoOpReason(old(fs), oldDir, newDir).None? && device.reliable
              && Parent(newDir) in old(fs) && old(fs)[Parent(newDir)].Dir? ==>
                (outcome.Migrated? <==> CanTake(old(fs), newDir) && HasRoom(device, old(space), old(fs), oldDir))
      ensures outcome.Migrated? && device.reliable ==> fs == Swept(Final(old(fs), oldDir, newDir), oldParent)
      ensures NoOpReason(old(fs), oldDir, newDir).None? && RunsShort(device, old(space), old(fs), oldDir, newDir) ==>
                outcome.Failed? && |Below(fs, newDir)| == old(space) && TreeAt(fs, oldDir) == TreeAt(old(fs), oldDir)
      ensures WellFormed(fs)
      ensures !outcome.NoOp? ==>
                old(history) <= history && AllSafe(history, |old(history)|, oldDir, newDir, TreeAt(old(fs), oldDir))
    {
      if oldDir == newDir {
        return NoOp(Identical);
      }
      if !DirExists(oldDir) {
        return NoOp(OldMissing);
      }
      if DirExists(newDir) && Below(fs, newDir) != {newDir} {
        return NoOp(NewPopulated);
      }
      hide WellFormed, TreeAt, AllSafe, Final, MovedOut, Swept;
      var ok := Migrate(oldDir, newDir, oldParent);
      NothingMeansMissing(fs, oldDir);
      hide Below;
      return if ok then Migrated else Failed;
    }

    /**
     The migration at each of `launches` consecutive starts. The old tree is at
     one of the two directories in every state of all of them; a no-op and a
     success are final, and a failed start is retried unless it left the new
     directory populated.
     */
    method Launch(oldDir: Path, newDir: Path, oldParent: Path, launches: nat)
      returns (outcomes: seq<Outcome>, ghost was: seq<Tree>, ghost now: seq<Tree>)
      requires WellFormed(fs)
      requires oldDir == newDir || !(oldDir <= newDir)
      requires oldParent <= oldDir
      modifies this
      ensures |outcomes| == launches && Launched(outcomes, was, now, oldDir, newDir)
      ensures if launches > 0 then was[0] == old(fs) && now[launches - 1] == fs else fs == old(fs)
      ensures forall i, j :: 0 <= i < j < launches && outcomes[i].NoOp? ==> outcomes[j] == outcomes[i] && now[j] == was[i]
      ensures forall i, j :: 0 <= i < j < launches && outcomes[i].Migrated? ==> outcomes[j] == NoOp(OldMissing) && now[j] == now[i]
      ensures forall i, j :: 0 <= i && j == i + 1 < launches && outcomes[i].Failed? ==>
                (outcomes[j].NoOp? <==> Populated(now[i], newDir)) && (outcomes[j].NoOp? ==> outcomes[j].reason == NewPopulated)
      ensures launches > 0 && NoOpReason(old(fs), oldDir, newDir).None? && device.reliable
              && CanTake(old(fs), newDir) && HasRoom(device, old(space), old(fs), oldDir) ==>
                && outcomes[0] == Migrated && forall j :: 0 < j < launches ==> outcomes[j] == NoOp(OldMissing)
      ensures old(history) <= history && AllSafe(history, |old(history)|, oldDir, newDir, TreeAt(old(fs), oldDir))
    {
      hide WellFormed, TreeAt, AllSafe, Final, MovedOut, RunsShort, Populated, NoOpReason, CanTake, HasRoom, Swept;
      ghost var first := NoOpReason(fs, oldDir, newDir).None? && device.reliable && CanTake(fs, newDir) && HasRoom(device, space, fs, oldDir);
      if CanTake(fs, newDir) {
        TakeHasParent(fs, newDir);
      }
      outcomes, was, now := [], [], [];
      ghost var tree := TreeAt(fs, oldDir);
      NothingYet(history, oldDir, newDir, tree);
      for i := 0 to launches
        invariant WellFormed(fs) && |outcomes| == i && Launched(outcomes, was, now, oldDir, newDir)
        invariant if i > 0 then was[0] == old(fs) && now[i - 1] == fs else fs == old(fs)
        invariant NoOpReason(fs, oldDir, newDir).Some? || TreeAt(fs, oldDir) == tree
        invariant i == 0 ==> space == old(space)
        invariant i > 0 && first ==> outcomes[0] == Migrated
        invariant old(history) <= history && AllSafe(history, |old(history)|, oldDir, newDir, tree)
      {
        ghost var before, seen := fs, history;
        var outcome := MigrateUserData(oldDir, newDir, oldParent);
        if !outcome.NoOp? {
          AllSafeChain(seen, history, |old(history)|, oldDir, newDir, tree);
        }
        outcomes, was, now := outcomes + [outcome], was + [before], now + [fs];
      }
      Settled(outcomes, was, now, oldDir, newDir);
    }
  }

  // ---------------------------------------------------------------------
  // A migration that is never completed
  // ---------------------------------------------------------------------

  const OLD_PARENT: Path := ["@backspace"]
  const OLD_DIR: Path := ["@backspace", "desktop"]
  const NEW_DIR: Path := ["Lume"]

  const FILE_A: Path := ["@backspace", "desktop", "a"]
  const FILE_B: Path := ["@backspace", "desktop", "b"]

  /** An old directory with two files, and no new one. */
  const TWO_FILES: Tree := map[[] := Dir, OLD_PARENT := Dir, OLD_DIR := Dir, FILE_A := File("A"), FILE_B := File("B")]

  lemma TwoFilesFit()
    ensures WellFormed(TWO_FILES)
  {
    forall p, k: nat | p in TWO_FILES && k < |p| ensures p[..k] in TWO_FILES && TWO_FILES[p[..k]].Dir? {
      assert k == 0 ==> p[..k] == [];
      assert k == 1 ==> p[..k] == OLD_PARENT;
      assert k == 2 ==> p[..k] == OLD_DIR;
    }
  }

  lemma ThreeToCopy()
    ensures |TreeAt(TWO_FILES, OLD_DIR)| == 3
  {
    CountBelow(TWO_FILES, OLD_DIR);
    hide TreeAt;
    assert FILE_A[2] != FILE_B[2];
    assert Below(TWO_FILES, OLD_DIR) == {OLD_DIR, FILE_A, FILE_B};
  }

  lemma TwoFilesWait()
    ensures NoOpReason(TWO_FILES, OLD_DIR, NEW_DIR) == None && RunsShort(Device(true, true), 2, TWO_FILES, OLD_DIR, NEW_DIR)
    ensures OLD_PARENT <= OLD_DIR && !(OLD_DIR <= NEW_DIR)
  {
    ThreeToCopy();
    hide TreeAt;
    assert NEW_DIR[0] != OLD_DIR[0] && Parent(NEW_DIR) == [];
  }

  lemma TwoArePopulated(fs: Tree, dir: Path)
    requires WellFormed(fs) && |Below(fs, dir)| == 2
    ensures Populated(fs, dir)
  {
    var rest := Below(fs, dir) - {dir};
    assert |Below(fs, dir)| == |rest| + |Below(fs, dir) * {dir}| && |Below(fs, dir) * {dir}| <= 1 by {
      assert Below(fs, dir) * {dir} == {dir} || Below(fs, dir) * {dir} == {};
      assert Below(fs, dir) == rest + Below(fs, dir) * {dir};
    }
    assert rest != {};
    var p :| p in Below(fs, dir) && p != dir;
    assert p[..|dir|] == dir;
  }

  /** The device is full after the new directory and one of the two files: no later launch completes the copy. */
  method CopyRunsOutOfSpace(launches: nat) returns (outcomes: seq<Outcome>, disk: FileSystem)
    requires launches >= 1
    ensures |outcomes| == launches && outcomes[0] == Failed
    ensures forall i :: 0 < i < launches ==> outcomes[i] == NoOp(NewPopulated)
    ensures |Below(disk.fs, NEW_DIR)| == 2 && TreeAt(disk.fs, OLD_DIR) == TreeAt(TWO_FILES, OLD_DIR)
  {
    TwoFilesFit();
    TwoFilesWait();
    hide WellFormed, TreeAt, Below, RunsShort, NoOpReason, Populated, AllSafe, MovedOut, Final;
    disk := new FileSystem(TWO_FILES, Device(true, true), 2);
    var first := disk.MigrateUserData(OLD_DIR, NEW_DIR, OLD_PARENT);
    TwoArePopulated(disk.fs, NEW_DIR);
    var rest, was, now := disk.Launch(OLD_DIR, NEW_DIR, OLD_PARENT, launches - 1);
    outcomes := [first] + rest;
  }
}
