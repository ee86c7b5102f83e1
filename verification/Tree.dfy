/** The directory tree a volume stands for, and what creating a file or directory does to it. */
module Trees {
  import opened Records
  import opened Layout
  import opened DirSpec
  import opened Pathnames
  import opened Volumes

  /** What was created by one call: a directory under a parent, or a plain file, which no
      directory leads to. */
  datatype Node = Dir(parent: nat, name: Name) | Plain

  /** All that was created after the root, in order: node `k` has inode number `k + 1`. */
  type Tree = seq<Node>

  predicate IsDirNode(tree: Tree, i: nat) {
    i == 0 || (i <= |tree| && tree[i - 1].Dir?)
  }

  /** A name that can be created: it fits, and it is neither "." nor "..". */
  predicate Creatable(name: Name) {
    Fits(name) && IsComponent(name) && !IsDot(name)
  }

  ghost predicate NodeOk(tree: Tree, k: nat)
    requires k < |tree|
  {
    tree[k].Dir? ==>
      && tree[k].parent <= k && IsDirNode(tree, tree[k].parent) && Creatable(tree[k].name)
      && forall j :: 0 <= j < k ==> tree[j] != tree[k]
  }

  /** Parents are older directories, and siblings have different names. */
  ghost predicate TreeOk(tree: Tree) {
    |tree| < NUM_INODES && forall k :: 0 <= k < |tree| ==> NodeOk(tree, k)
  }

  /** The root is its own parent. */
  function ParentOf(tree: Tree, i: nat): nat
    requires IsDirNode(tree, i)
  {
    if i == 0 then 0 else tree[i - 1].parent
  }

  /** The entries for the subdirectories of `i`, oldest first. */
  function Children(tree: Tree, i: nat): seq<Dirent>
    requires |tree| < NUM_INODES
    decreases |tree|
  {
    if tree == [] then []
    else
      var last := tree[|tree| - 1];
      Children(tree[..|tree| - 1], i) +
      if last.Dir? && last.parent == i then [Dirent(true, last.name, |tree|)] else []
  }

  function DotEntries(i: nat, parent: nat): seq<Dirent>
    requires i < NUM_INODES && parent < NUM_INODES
  {
    [Dirent(true, DOT, i), Dirent(true, DOTDOT, parent)]
  }

  /** What slot `i` holds: a directory has ".", ".." and its children, and one link for each
      child and one more unless it is the root. */
  ghost function SlotOf(tree: Tree, i: nat): Slot
    requires TreeOk(tree) && i <= |tree|
  {
    if IsDirNode(tree, i) then
      assert i > 0 ==> NodeOk(tree, i - 1);
      Slot(DIRECTORY_T, DotEntries(i, ParentOf(tree, i)) + Children(tree, i),
           (if i == 0 then 0 else 1) + |Children(tree, i)|)
    else Slot(FILE_T, [], 1)
  }

  ghost function SlotsOf(tree: Tree): (r: seq<Slot>)
    requires TreeOk(tree)
    ensures |r| == |tree| + 1
  {
    seq(|tree| + 1, i requires 0 <= i <= |tree| => SlotOf(tree, i))
  }

  // ----- Following names in a tree

  /** The subdirectory of that name, or -1. */
  function Child(tree: Tree, i: nat, name: Name): (r: int)
    ensures -1 <= r <= |tree| && r != 0
    ensures r == -1 ==> forall k :: 0 <= k < |tree| ==> tree[k] != Dir(i, name)
    ensures r != -1 ==> tree[r - 1] == Dir(i, name)
    decreases |tree|
  {
    if tree == [] then -1
    else if tree[|tree| - 1] == Dir(i, name) then |tree|
    else Child(tree[..|tree| - 1], i, name)
  }

  /** One name further: "." stays, ".." goes to the parent. */
  ghost function Next(tree: Tree, i: nat, name: Name): (r: int)
    requires TreeOk(tree) && i <= |tree|
    ensures -1 <= r <= |tree|
  {
    if !IsDirNode(tree, i) then -1
    else if name == DOT then i
    else if name == DOTDOT then (assert i > 0 ==> NodeOk(tree, i - 1); ParentOf(tree, i))
    else Child(tree, i, name)
  }

  ghost function Follow(tree: Tree, i: nat, cs: seq<Name>): (r: int)
    requires TreeOk(tree) && i <= |tree|
    ensures -1 <= r <= |tree|
    decreases cs
  {
    if cs == [] then i
    else if Next(tree, i, cs[0]) == -1 then -1
    else Follow(tree, Next(tree, i, cs[0]), cs[1..])
  }

  lemma {:induction false} FollowSplit(tree: Tree, i: nat, a: seq<Name>, b: seq<Name>)
    requires TreeOk(tree) && i <= |tree|
    ensures Follow(tree, i, a + b) == if Follow(tree, i, a) == -1 then -1 else Follow(tree, Follow(tree, i, a), b)
    decreases a
  {
    if a == [] {
      assert a + b == b;
    } else {
      assert (a + b)[1..] == a[1..] + b && (a + b)[0] == a[0];
      if Next(tree, i, a[0]) != -1 { FollowSplit(tree, Next(tree, i, a[0]), a[1..], b); }
    }
  }

  lemma FollowOne(tree: Tree, i: nat, name: Name)
    requires TreeOk(tree) && i <= |tree|
    ensures Follow(tree, i, [name]) == Next(tree, i, name)
  {
    assert [name][1..] == [];
  }

  // ----- Directory entries are the edges of the tree

  lemma {:induction false} FindAppend(es: seq<Dirent>, e: Dirent, name: Name)
    ensures Find(es + [e], name) ==
      if Find(es, name) < |es| then Find(es, name) else if Matches(e, name) then |es| else |es| + 1
    decreases es
  {
    if es == [] {
      assert es + [e] == [e] && [e][1..] == [];
    } else {
      assert (es + [e])[1..] == es[1..] + [e];
      FindAppend(es[1..], e, name);
    }
  }

  lemma LookupAppend(es: seq<Dirent>, e: Dirent, name: Name)
    ensures Find(es + [e], name) < |es + [e]| <==> Find(es, name) < |es| || Matches(e, name)
    ensures Lookup(es + [e], name) ==
      if Find(es, name) < |es| then Lookup(es, name) else if Matches(e, name) then e.inum else -1
  {
    FindAppend(es, e, name);
  }

  lemma LastChild(tree: Tree, i: nat)
    requires 0 < |tree| < NUM_INODES
    ensures var last := tree[|tree| - 1];
      Children(tree, i) == Children(tree[..|tree| - 1], i) +
        if last.Dir? && last.parent == i then [Dirent(true, last.name, |tree|)] else []
  {
  }

  lemma ChildOfPrefix(tree: Tree, i: nat, name: Name)
    requires TreeOk(tree) && 0 < |tree|
    ensures var n := |tree| - 1;
      && Child(tree, i, name) == (if tree[n] == Dir(i, name) then |tree| else Child(tree[..n], i, name))
      && (tree[n] == Dir(i, name) ==> Child(tree[..n], i, name) == -1)
  {
    assert NodeOk(tree, |tree| - 1);
  }

  /** A scan behind entries of other names finds the child, if there is one. */
  lemma {:induction false} ScanChildren(base: seq<Dirent>, tree: Tree, i: nat, name: Name)
    requires TreeOk(tree) && Find(base, name) == |base|
    ensures var es := base + Children(tree, i);
      Lookup(es, name) == Child(tree, i, name) && (Find(es, name) < |es| <==> Child(tree, i, name) != -1)
    decreases |tree|
  {
    if tree == [] {
      assert base + [] == base;
    } else {
      hide Find, Lookup, Children, Child, NodeOk;
      var n := |tree| - 1;
      PrefixOk(tree, n);
      ScanChildren(base, tree[..n], i, name);
      LastChild(tree, i);
      ChildOfPrefix(tree, i, name);
      var es := base + Children(tree[..n], i);
      if tree[n].Dir? && tree[n].parent == i {
        var e := Dirent(true, tree[n].name, |tree|);
        assert base + Children(tree, i) == es + [e];
        LookupAppend(es, e, name);
      } else {
        assert base + Children(tree, i) == es;
      }
    }
  }

  lemma PrefixOk(tree: Tree, n: nat)
    requires TreeOk(tree) && n <= |tree|
    ensures TreeOk(tree[..n])
  {
    forall k | 0 <= k < n ensures NodeOk(tree[..n], k) {
      assert NodeOk(tree, k);
    }
  }

  /** Looking a name up in a directory's entries follows the tree. */
  lemma LookupIsNext(tree: Tree, i: nat, name: Name)
    requires TreeOk(tree) && i <= |tree| && IsDirNode(tree, i)
    ensures Lookup(SlotOf(tree, i).entries, name) == Next(tree, i, name)
  {
    var es := SlotOf(tree, i).entries;
    assert i > 0 ==> NodeOk(tree, i - 1);
    if name == DOT {
      FindFirst(es, name, 0);
    } else if name == DOTDOT {
      FindFirst(es, name, 1);
    } else {
      FindFirst(DotEntries(i, ParentOf(tree, i)), name, 2);
      ScanChildren(DotEntries(i, ParentOf(tree, i)), tree, i, name);
    }
  }

  /** Children's entries point at inodes of the tree. */
  lemma {:induction false} ChildrenInRange(tree: Tree, i: nat, k: nat)
    requires |tree| < NUM_INODES && k < |Children(tree, i)|
    ensures 0 < Children(tree, i)[k].inum <= |tree|
    decreases |tree|
  {
    var n := |tree| - 1;
    if k < |Children(tree[..n], i)| { ChildrenInRange(tree[..n], i, k); }
  }

  lemma {:induction false} ChildrenValid(tree: Tree, i: nat, k: nat)
    requires |tree| < NUM_INODES && k < |Children(tree, i)|
    ensures Children(tree, i)[k].valid
    decreases |tree|
  {
    var n := |tree| - 1;
    if k < |Children(tree[..n], i)| { ChildrenValid(tree[..n], i, k); }
  }

  lemma {:induction false} ChildrenFew(tree: Tree, i: nat)
    requires |tree| < NUM_INODES
    ensures |Children(tree, i)| <= |tree|
    decreases |tree|
  {
    if tree != [] { ChildrenFew(tree[..|tree| - 1], i); }
  }

  /** The directories that name `i` as their parent. */
  function Subdirectories(tree: Tree, i: nat): set<nat> {
    set k: nat | k < |tree| && tree[k].Dir? && tree[k].parent == i
  }

  lemma LastSubdirectory(tree: Tree, i: nat)
    requires tree != []
    ensures var n := |tree| - 1; var before := Subdirectories(tree[..n], i);
      n !in before && Subdirectories(tree, i) == if tree[n].Dir? && tree[n].parent == i then before + {n} else before
  {
  }

  /** A directory has as many children as directories name it as their parent. */
  lemma {:induction false} ChildrenCount(tree: Tree, i: nat)
    requires |tree| < NUM_INODES
    ensures |Children(tree, i)| == |Subdirectories(tree, i)|
    decreases |tree|
  {
    if tree != [] {
      hide Subdirectories, Children;
      ChildrenCount(tree[..|tree| - 1], i);
      LastSubdirectory(tree, i);
      LastChild(tree, i);
    }
  }

  /** Nothing is below an inode that is no directory, or not there yet. */
  lemma {:induction false} NoChildren(tree: Tree, i: nat)
    requires TreeOk(tree) && !IsDirNode(tree, i)
    ensures Children(tree, i) == []
    decreases |tree|
  {
    var n := |tree| - 1;
    if tree != [] {
      PrefixOk(tree, n);
      assert NodeOk(tree, n);
      NoChildren(tree[..n], i);
    }
  }

  // ----- What one more node does to the slots

  lemma {:induction false} MoreChildren(tree: Tree, node: Node, i: nat)
    requires |tree| + 1 < NUM_INODES
    ensures Children(tree + [node], i) ==
      Children(tree, i) + if node.Dir? && node.parent == i then [Dirent(true, node.name, |tree| + 1)] else []
  {
    assert (tree + [node])[..|tree|] == tree;
  }

  /** A new directory takes a slot of its own, and gives its parent one entry and one link. */
  lemma DirSlots(tree: Tree, p: nat, name: Name)
    requires TreeOk(tree) && TreeOk(tree + [Dir(p, name)])
    ensures p <= |tree| && p < NUM_INODES
    ensures var n := |tree| + 1; var s := SlotsOf(tree)[p];
      SlotsOf(tree + [Dir(p, name)]) ==
        SlotsOf(tree)[p := Slot(s.kind, s.entries + [Dirent(true, name, n)], s.links + 1)]
        + [Slot(DIRECTORY_T, DotEntries(n, p), 1)]
  {
    var n, bigger := |tree| + 1, tree + [Dir(p, name)];
    assert NodeOk(bigger, n - 1);
    var s := SlotsOf(tree)[p];
    var l, r := SlotsOf(bigger), SlotsOf(tree)[p := Slot(s.kind, s.entries + [Dirent(true, name, n)], s.links + 1)]
                                + [Slot(DIRECTORY_T, DotEntries(n, p), 1)];
    forall i | 0 <= i <= n ensures l[i] == r[i] {
      MoreChildren(tree, Dir(p, name), i);
      if i == n { NoChildren(tree, n); }
      assert i < n ==> IsDirNode(bigger, i) == IsDirNode(tree, i);
      if i == p { assert l[i].entries == s.entries + [Dirent(true, name, n)]; }
    }
  }

  /** A new plain file takes a slot, and nothing else changes. */
  lemma PlainSlots(tree: Tree)
    requires TreeOk(tree) && TreeOk(tree + [Plain])
    ensures SlotsOf(tree + [Plain]) == SlotsOf(tree) + [Slot(FILE_T, [], 1)]
  {
    var n, bigger := |tree| + 1, tree + [Plain];
    var l, r := SlotsOf(bigger), SlotsOf(tree) + [Slot(FILE_T, [], 1)];
    forall i | 0 <= i <= n ensures l[i] == r[i] {
      MoreChildren(tree, Plain, i);
      assert i < n ==> IsDirNode(bigger, i) == IsDirNode(tree, i);
    }
  }

  // ----- Paths

  /** The names on the way from the root to a directory. Parents are older, so the chain of
      parents ends at the root. */
  ghost function PathTo(tree: Tree, i: nat): seq<Name>
    requires TreeOk(tree) && i <= |tree| && IsDirNode(tree, i)
    decreases i
  {
    if i == 0 then []
    else
      assert NodeOk(tree, i - 1);
      PathTo(tree, tree[i - 1].parent) + [tree[i - 1].name]
  }

  /** Siblings have different names, so the child of that name is the one. */
  lemma ChildIs(tree: Tree, i: nat)
    requires TreeOk(tree) && 0 < i <= |tree| && tree[i - 1].Dir? && NodeOk(tree, i - 1)
    ensures Next(tree, tree[i - 1].parent, tree[i - 1].name) == i
  {
    var p, name := tree[i - 1].parent, tree[i - 1].name;
    assert NodeOk(tree, i - 1);
    var c := Child(tree, p, name);
    assert tree[i - 1] == Dir(p, name);
    assert NodeOk(tree, c - 1);
  }

  /** Every directory is where its path says: all of them can be reached from the root, and
      different directories have different paths. */
  lemma {:induction false} PathLeadsThere(tree: Tree, i: nat)
    requires TreeOk(tree) && i <= |tree| && IsDirNode(tree, i)
    ensures Follow(tree, 0, PathTo(tree, i)) == i
    decreases i
  {
    if i > 0 {
      assert NodeOk(tree, i - 1);
      var p, name := tree[i - 1].parent, tree[i - 1].name;
      PathLeadsThere(tree, p);
      FollowSplit(tree, 0, PathTo(tree, p), [name]);
      FollowOne(tree, p, name);
      ChildIs(tree, i);
    }
  }

  /** A step that led somewhere leads there after any growth of the tree. */
  lemma NextStays(tree: Tree, node: Node, i: nat, name: Name)
    requires TreeOk(tree) && TreeOk(tree + [node]) && i <= |tree|
    requires Next(tree, i, name) != -1
    ensures Next(tree + [node], i, name) == Next(tree, i, name)
  {
    assert (tree + [node])[..|tree|] == tree;
    assert NodeOk(tree + [node], |tree|);
    if Child(tree, i, name) != -1 { assert tree[Child(tree, i, name) - 1] == (tree + [node])[Child(tree, i, name) - 1]; }
  }

  lemma {:induction false} FollowStays(tree: Tree, node: Node, i: nat, cs: seq<Name>)
    requires TreeOk(tree) && TreeOk(tree + [node]) && i <= |tree|
    requires Follow(tree, i, cs) != -1
    ensures Follow(tree + [node], i, cs) == Follow(tree, i, cs)
    decreases cs
  {
    if cs != [] {
      NextStays(tree, node, i, cs[0]);
      FollowStays(tree, node, Next(tree, i, cs[0]), cs[1..]);
    }
  }

  /** A plain file gives no path a new meaning. */
  lemma {:induction false} PlainIsNowhere(tree: Tree, i: nat, cs: seq<Name>)
    requires TreeOk(tree) && TreeOk(tree + [Plain]) && i <= |tree|
    ensures Follow(tree + [Plain], i, cs) == Follow(tree, i, cs)
    decreases cs
  {
    if cs != [] {
      assert (tree + [Plain])[..|tree|] == tree;
      assert IsDirNode(tree + [Plain], i) == IsDirNode(tree, i);
      assert Next(tree + [Plain], i, cs[0]) == Next(tree, i, cs[0]);
      if Next(tree, i, cs[0]) != -1 { PlainIsNowhere(tree, Next(tree, i, cs[0]), cs[1..]); }
    }
  }

  // ----- Creating

  /** A path as a caller may pass it: a C string whose components fit the name buffer. */
  ghost predicate PathOk(path: Path) {
    && (forall i :: 0 <= i < |path| ==> path[i] != 0)
    && forall i :: 0 <= i < |Components(path)| ==> |Components(path)[i]| < MAX_FILENAME_LEN
  }

  function Init<T>(s: seq<T>): seq<T>
    requires s != []
  {
    s[..|s| - 1]
  }

  function Last<T>(s: seq<T>): T
    requires s != []
  {
    s[|s| - 1]
  }

  /** Exactly when fs_create succeeds: a known type, an absolute path whose parent is a
      directory without that name, and a free inode. */
  ghost predicate CanCreate(tree: Tree, path: Path, kind: int)
    requires TreeOk(tree)
  {
    && (kind == FILE_T || kind == DIRECTORY_T)
    && path != [] && path[0] == SLASH && Components(path) != []
    && |tree| + 1 < NUM_INODES
    && var p := Follow(tree, 0, Init(Components(path)));
       p != -1 && IsDirNode(tree, p) && Next(tree, p, Last(Components(path))) == -1
  }

  /** The tree after fs_create. */
  ghost function Created(tree: Tree, path: Path, kind: int): Tree
    requires TreeOk(tree)
  {
    if !CanCreate(tree, path, kind) then tree
    else if kind == FILE_T then tree + [Plain]
    else tree + [Dir(Follow(tree, 0, Init(Components(path))), Last(Components(path)))]
  }

  lemma {:induction false} ComponentChars(p: Path, i: nat, k: nat)
    requires (forall k :: 0 <= k < |p| ==> p[k] != 0) && i < |Components(p)| && k < |Components(p)[i]|
    ensures Components(p)[i][k] != 0
    decreases |p|
  {
    var q := SkipSlashes(p);
    SkipIsSuffix(p);
    if i == 0 { assert Head(q)[k] == q[k]; } else { ComponentChars(q[|Head(q)|..], i - 1, k); }
  }

  lemma {:induction false} SkipIsSuffix(p: Path)
    ensures SkipSlashes(p) == p[|p| - |SkipSlashes(p)|..]
    decreases p
  {
    if p != [] && p[0] == SLASH { SkipIsSuffix(p[1..]); }
  }

  /** Creation keeps the tree a tree. */
  lemma CreatedOk(tree: Tree, path: Path, kind: int)
    requires TreeOk(tree) && PathOk(path)
    ensures TreeOk(Created(tree, path, kind))
  {
    var bigger := Created(tree, path, kind);
    if CanCreate(tree, path, kind) {
      var n := |tree|;
      forall k | 0 <= k <= n ensures NodeOk(bigger, k) {
        assert k < n ==> NodeOk(tree, k);
        if k == n && kind == DIRECTORY_T {
          var cs := Components(path);
          NewNameOk(path);
          assert IsDirNode(bigger, bigger[n].parent);
        }
      }
    }
  }

  lemma NewNameOk(path: Path)
    requires PathOk(path) && Components(path) != []
    ensures Fits(Last(Components(path))) && IsComponent(Last(Components(path)))
  {
    var cs := Components(path);
    ComponentsAreNames(path, |cs| - 1);
    forall k | 0 <= k < |Last(cs)| ensures Last(cs)[k] != 0 {
      ComponentChars(path, |cs| - 1, k);
    }
  }

  /** The path just created leads to the fresh inode: this holds exactly for directories. */
  lemma CreatedResolvesIff(tree: Tree, path: Path, kind: int)
    requires TreeOk(tree) && PathOk(path) && CanCreate(tree, path, kind)
    ensures TreeOk(Created(tree, path, kind))
    ensures Follow(Created(tree, path, kind), 0, Components(path)) == |tree| + 1 <==> kind == DIRECTORY_T
  {
    CreatedOk(tree, path, kind);
    var cs, bigger := Components(path), Created(tree, path, kind);
    assert cs == Init(cs) + [Last(cs)];
    if kind == DIRECTORY_T {
      var p := Follow(tree, 0, Init(cs));
      FollowStays(tree, Dir(p, Last(cs)), 0, Init(cs));
      FollowSplit(bigger, 0, Init(cs), [Last(cs)]);
      FollowOne(bigger, p, Last(cs));
      ChildIs(bigger, |bigger|);
    } else {
      PlainIsNowhere(tree, 0, cs);
    }
  }

  /** An input on which it does not: the plain file "/a" on an empty volume. */
  lemma PlainFileIsLost()
    ensures var path := [SLASH, 0x61];
      TreeOk([]) && CanCreate([], path, FILE_T) && Created([], path, FILE_T) == [Plain]
      && TreeOk([Plain]) && Follow([Plain], 0, Components(path)) == -1
  {
    var path := [SLASH, 0x61];
    assert Join([[0x61]]) == path;
    CutJoined([[0x61]]);
    assert [] + [Plain] == [Plain];
    assert Init([[0x61]]) == [];
    PlainIsNowhere([], 0, [[0x61]]);
  }

  /** Paths that led somewhere lead to the same inode after any fs_create. */
  lemma CreatedKeepsPaths(tree: Tree, path: Path, kind: int, cs: seq<Name>)
    requires TreeOk(tree) && PathOk(path) && Follow(tree, 0, cs) != -1
    ensures TreeOk(Created(tree, path, kind))
    ensures Follow(Created(tree, path, kind), 0, cs) == Follow(tree, 0, cs)
  {
    CreatedOk(tree, path, kind);
    var bigger := Created(tree, path, kind);
    if bigger != tree {
      FollowStays(tree, Last(bigger), 0, cs);
    }
  }
}
