/** What fs_create can make: every file and directory that a tree has room for, at any depth,
    and so every tree. */
module Creating {
  import opened Disks
  import opened Records
  import opened Layout
  import opened Pathnames
  import opened Volumes
  import opened Trees
  import opened TreeVolumes
  import opened FileSystems
  import opened Runs

  /** The path of a name in a directory. */
  ghost function PathIn(tree: Tree, i: nat, name: Name): Path
    requires TreeOk(tree) && i <= |tree| && IsDirNode(tree, i)
  {
    Join(PathTo(tree, i) + [name])
  }

  lemma {:induction false} PathNames(tree: Tree, i: nat, k: nat)
    requires TreeOk(tree) && i <= |tree| && IsDirNode(tree, i) && k < |PathTo(tree, i)|
    ensures Creatable(PathTo(tree, i)[k])
    decreases i
  {
    assert NodeOk(tree, i - 1);
    if k < |PathTo(tree, tree[i - 1].parent)| { PathNames(tree, tree[i - 1].parent, k); }
  }

  lemma {:induction false} JoinedBytes(cs: seq<Name>, i: nat)
    requires (forall k :: 0 <= k < |cs| ==> Fits(cs[k])) && i < |Join(cs)|
    ensures Join(cs)[i] != 0
    decreases cs
  {
    if i > |cs[0]| { JoinedBytes(cs[1..], i - 1 - |cs[0]|); }
  }

  /** A path joined from creatable names can be passed to fs_create, and is cut into them. */
  lemma JoinedPath(cs: seq<Name>)
    requires cs != [] && forall k :: 0 <= k < |cs| ==> Creatable(cs[k])
    ensures PathOk(Join(cs)) && Join(cs) != [] && Join(cs)[0] == SLASH && Components(Join(cs)) == cs
  {
    CutJoined(cs);
    forall i | 0 <= i < |Join(cs)| ensures Join(cs)[i] != 0 {
      JoinedBytes(cs, i);
    }
  }

  lemma PathInFacts(tree: Tree, i: nat, name: Name)
    requires TreeOk(tree) && i <= |tree| && IsDirNode(tree, i) && Creatable(name)
    ensures var path := PathIn(tree, i, name);
      && PathOk(path) && path != [] && path[0] == SLASH && Components(path) == PathTo(tree, i) + [name]
      && Init(Components(path)) == PathTo(tree, i) && Last(Components(path)) == name
  {
    hide Join, Components, PathTo, PathOk, TreeOk, Creatable;
    var cs := PathTo(tree, i) + [name];
    forall k | 0 <= k < |cs| ensures Creatable(cs[k]) {
      if k < |cs| - 1 { PathNames(tree, i, k); }
    }
    JoinedPath(cs);
    assert cs[..|cs| - 1] == PathTo(tree, i);
  }

  /** In every directory of every tree with an inode left, any creatable name that is not yet
      there can be created, as a file and as a directory; and then it is that node. */
  lemma RoomInEveryDirectory(tree: Tree, i: nat, name: Name, kind: int)
    requires TreeOk(tree) && |tree| + 1 < NUM_INODES && i <= |tree| && IsDirNode(tree, i)
    requires Creatable(name) && Child(tree, i, name) == -1 && (kind == FILE_T || kind == DIRECTORY_T)
    ensures CanCreate(tree, PathIn(tree, i, name), kind)
    ensures Created(tree, PathIn(tree, i, name), kind) == tree + [if kind == FILE_T then Plain else Dir(i, name)]
  {
    hide PathIn, PathTo, PathOk, TreeOk, Follow, Components, Init, Last, Child;
    PathInFacts(tree, i, name);
    PathLeadsThere(tree, i);
  }

  /** Exactly when fs_create succeeds, in terms of where paths lead: the path itself leads
      nowhere, the path without its last name leads to a directory, and there is a known type
      and a free inode. */
  lemma CanCreateIff(tree: Tree, path: Path, kind: int)
    requires TreeOk(tree)
    ensures CanCreate(tree, path, kind) <==>
      && (kind == FILE_T || kind == DIRECTORY_T) && |tree| + 1 < NUM_INODES
      && path != [] && path[0] == SLASH && Components(path) != []
      && Follow(tree, 0, Components(path)) == -1
      && exists i :: 0 <= i <= |tree| && IsDirNode(tree, i) && Follow(tree, 0, Init(Components(path))) == i
  {
    var cs := Components(path);
    hide Components, TreeOk, Follow, Next;
    if cs != [] {
      var p := Follow(tree, 0, Init(cs));
      assert cs == Init(cs) + [Last(cs)];
      FollowSplit(tree, 0, Init(cs), [Last(cs)]);
      if p != -1 { Trees.FollowOne(tree, p, Last(cs)); }
    }
  }

  // ----- On the disk

  /** On a disk with that tree, and for a directory with two free data blocks, fs_create does
      it. The path of a new
      directory leads to its inode; that of a new file still leads nowhere. */
  lemma CreatedInDirectory(img: Image, tree: Tree, i: nat, name: Name, kind: Int32, ok: bool, t: Image)
    requires ShowsTree(img, tree) && |tree| + 1 < NUM_INODES && i <= |tree| && IsDirNode(tree, i)
    requires Creatable(name) && Child(tree, i, name) == -1 && (kind == FILE_T || kind == DIRECTORY_T)
    requires CreateDone(img, tree, PathIn(tree, i, name), kind, ok, t)
    requires kind == DIRECTORY_T ==> FreeBlocks(img) >= 2
    ensures ok && ShowsTree(t, tree + [if kind == FILE_T then Plain else Dir(i, name)])
    ensures VolumeOk(t) && Walk(t, 0, PathTo(tree, i) + [name]) == if kind == FILE_T then -1 else |tree| + 1
  {
    hide Holds, FreeBlocks, SlotOf, InodeAt, PathOk, Components, Follow, PathTo, CanCreate, TreeOk, Created, PathIn;
    hide Grown, Walk;
    var path := PathIn(tree, i, name);
    PathInFacts(tree, i, name);
    RoomInEveryDirectory(tree, i, name, kind);
    TreeVolumeOk(t, Created(tree, path, kind));
    WalkIsFollow(t, Created(tree, path, kind), 0, Components(path));
    NewPathLeads(tree, path, kind);
  }

  lemma NewPathLeads(tree: Tree, path: Path, kind: Int32)
    requires TreeOk(tree) && PathOk(path) && CanCreate(tree, path, kind)
    ensures TreeOk(Created(tree, path, kind))
    ensures Follow(Created(tree, path, kind), 0, Components(path)) == if kind == FILE_T then -1 else |tree| + 1
  {
    CreatedResolvesIff(tree, path, kind);
    if kind == FILE_T {
      CanCreateIff(tree, path, kind);
      PlainIsNowhere(tree, 0, Components(path));
    }
  }

  // ----- Runs

  /** After any run there is room in every directory for one more request. */
  lemma OneMoreRequest(rs: seq<Request>, i: nat, name: Name, kind: Int32) returns (more: seq<Request>)
    requires RequestsOk(rs) && |TreeAfter(rs)| + 1 < NUM_INODES && i <= |TreeAfter(rs)| && IsDirNode(TreeAfter(rs), i)
    requires Creatable(name) && Child(TreeAfter(rs), i, name) == -1 && (kind == FILE_T || kind == DIRECTORY_T)
    ensures more == rs + [Request(PathIn(TreeAfter(rs), i, name), kind)] && RequestsOk(more)
    ensures Succeeds(more, |rs|)
    ensures TreeAfter(more) == TreeAfter(rs) + [if kind == FILE_T then Plain else Dir(i, name)]
  {
    hide PathOk, PathIn, TreeOk, CanCreate, Created, Components, Child, TreeAfter;
    var tree := TreeAfter(rs);
    PathInFacts(tree, i, name);
    RoomInEveryDirectory(tree, i, name, kind);
    more := rs + [Request(PathIn(tree, i, name), kind)];
    assert more[..|rs|] == rs && more[..|rs| + 1] == more;
    OneMore(more, |rs|);
  }

  function UpTo(n: nat): (r: set<nat>)
    ensures |r| == n && forall k :: k in r ==> k < n
  {
    if n == 0 then {} else UpTo(n - 1) + {n - 1}
  }

  /** Eighty names: forty of the letter a, forty of the letter b. */
  function ShortName(k: nat): (r: Name)
    requires k < NUM_INODES
    ensures Creatable(r)
  {
    var r: Name := if k < 40 then seq(k + 1, _ => 0x61) else seq(k - 39, _ => 0x62);
    assert r[0] != 0x2e;
    r
  }

  lemma ShortNamesDiffer(k: nat, l: nat)
    requires k < NUM_INODES && l < NUM_INODES && ShortName(k) == ShortName(l)
    ensures k == l
  {
    assert ShortName(k)[0] == ShortName(l)[0] && |ShortName(k)| == |ShortName(l)|;
  }

  /** Among more names than there are nodes one is not in the root. */
  lemma {:induction false} UnusedName(tree: Tree, ks: set<nat>) returns (k: nat)
    requires |tree| < |ks| && forall k :: k in ks ==> k < NUM_INODES
    ensures k in ks && forall j :: 0 <= j < |tree| ==> tree[j] != Dir(0, ShortName(k))
    decreases |tree|
  {
    hide ShortName;
    if tree == [] {
      k :| k in ks;
    } else {
      var n := |tree| - 1;
      if x :| x in ks && tree[n] == Dir(0, ShortName(x)) {
        k := UnusedName(tree[..n], ks - {x});
        if ShortName(k) == ShortName(x) { ShortNamesDiffer(k, x); }
      } else {
        k := UnusedName(tree[..n], ks);
      }
    }
  }

  lemma UnusedInRoot(tree: Tree) returns (name: Name)
    requires |tree| < NUM_INODES
    ensures Creatable(name) && Child(tree, 0, name) == -1
  {
    hide ShortName;
    var k := UnusedName(tree, UpTo(NUM_INODES));
    name := ShortName(k);
  }

  /** A request for the last node of a tree. */
  lemma LastNode(tree: Tree) returns (i: nat, name: Name, kind: Int32)
    requires TreeOk(tree) && tree != []
    ensures var n := |tree| - 1;
      && TreeOk(tree[..n]) && i <= n && IsDirNode(tree[..n], i)
      && Creatable(name) && Child(tree[..n], i, name) == -1 && (kind == FILE_T || kind == DIRECTORY_T)
      && tree[n] == if kind == FILE_T then Plain else Dir(i, name)
  {
    hide Creatable;
    var n := |tree| - 1;
    PrefixOk(tree, n);
    assert NodeOk(tree, n);
    if tree[n].Dir? {
      i, name, kind := tree[n].parent, tree[n].name, DIRECTORY_T;
    } else {
      name := UnusedInRoot(tree[..n]);
      i, kind := 0, FILE_T;
    }
  }

  /** Every tree can be made by a run of requests that all succeed: together with the fact
      that every run leaves a tree, the trees are exactly what fs_create can make. */
  lemma {:induction false} EveryTreeCanBeMade(tree: Tree) returns (rs: seq<Request>)
    requires TreeOk(tree)
    ensures RequestsOk(rs) && |rs| == |tree| && TreeAfter(rs) == tree
    ensures forall k :: 0 <= k < |rs| ==> Succeeds(rs, k)
    decreases |tree|
  {
    hide *;
    if tree == [] {
      rs := [];
      NoRequests(rs);
    } else {
      var n := |tree| - 1;
      var i, name, kind := LastNode(tree);
      var before := EveryTreeCanBeMade(tree[..n]);
      FitsTree(tree);
      rs := OneMoreRequest(before, i, name, kind);
      SucceedStill(before, rs);
      assert tree[..n] + [tree[n]] == tree;
    }
  }

  lemma NoRequests(rs: seq<Request>)
    requires rs == []
    ensures RequestsOk(rs) && TreeAfter(rs) == []
  {
  }

  lemma FitsTree(tree: Tree)
    requires TreeOk(tree)
    ensures |tree| < NUM_INODES
  {
  }

  /** Whether a request succeeds does not depend on later ones. */
  lemma SucceedStill(rs: seq<Request>, more: seq<Request>)
    requires RequestsOk(rs) && RequestsOk(more) && |more| == |rs| + 1 && rs == more[..|rs|]
    requires Succeeds(more, |rs|) && forall k :: 0 <= k < |rs| ==> Succeeds(rs, k)
    ensures forall k :: 0 <= k < |more| ==> Succeeds(more, k)
  {
    hide TreeAfter, CanCreate;
    forall k | 0 <= k < |rs| ensures Succeeds(more, k) {
      assert Succeeds(rs, k);
      assert rs[..k] == more[..k] && rs[k] == more[k];
    }
  }
}
