/** Whole runs: a volume made on a zeroed disk, and any sequence of fs_create calls. */
module Runs {
  import opened Disks
  import opened Records
  import opened Pathnames
  import opened Trees
  import opened TreeVolumes
  import opened FileSystems

  /** The arguments of one fs_create. */
  datatype Request = Request(path: Path, kind: Int32)

  ghost predicate RequestOk(r: Request) {
    PathOk(r.path) && (r.path != [] && r.path[0] == SLASH ==> Components(r.path) != [])
  }

  ghost predicate RequestsOk(rs: seq<Request>) {
    forall k :: 0 <= k < |rs| ==> RequestOk(rs[k])
  }

  /** The tree after a run. */
  ghost function TreeAfter(rs: seq<Request>): (tree: Tree)
    requires RequestsOk(rs)
    ensures TreeOk(tree)
    decreases |rs|
  {
    if rs == [] then []
    else
      var last := rs[|rs| - 1];
      CreatedOk(TreeAfter(rs[..|rs| - 1]), last.path, last.kind);
      Created(TreeAfter(rs[..|rs| - 1]), last.path, last.kind)
  }

  /** Whether request `k` of a run succeeds. */
  ghost predicate Succeeds(rs: seq<Request>, k: nat)
    requires RequestsOk(rs) && k < |rs|
  {
    CanCreate(TreeAfter(rs[..k]), rs[k].path, rs[k].kind)
  }

  lemma OneMore(rs: seq<Request>, k: nat)
    requires RequestsOk(rs) && k < |rs|
    ensures PathOk(rs[k].path) && (rs[k].path != [] && rs[k].path[0] == SLASH ==> Components(rs[k].path) != [])
    ensures TreeOk(TreeAfter(rs[..k]))
    ensures TreeAfter(rs[..k + 1]) == Created(TreeAfter(rs[..k]), rs[k].path, rs[k].kind)
    ensures Succeeds(rs, k) == CanCreate(TreeAfter(rs[..k]), rs[k].path, rs[k].kind)
  {
    hide Created, CanCreate, TreeOk, PathOk, Components;
    assert RequestOk(rs[k]);
    assert rs[..k + 1][..k] == rs[..k];
  }

  /** A path that leads somewhere leads to the same inode for the rest of the run. */
  lemma {:induction false} PathsStay(rs: seq<Request>, k: nat, cs: seq<Name>)
    requires RequestsOk(rs) && k <= |rs| && Follow(TreeAfter(rs[..k]), 0, cs) != -1
    ensures Follow(TreeAfter(rs), 0, cs) == Follow(TreeAfter(rs[..k]), 0, cs)
    decreases |rs|
  {
    hide CanCreate, Created, Follow, PathOk, TreeOk, Components;
    if k == |rs| {
      assert rs[..k] == rs;
    } else {
      var n := |rs| - 1;
      assert RequestOk(rs[n]);
      assert rs[..n][..k] == rs[..k];
      PathsStay(rs[..n], k, cs);
      CreatedKeepsPaths(TreeAfter(rs[..n]), rs[n].path, rs[n].kind, cs);
    }
  }

  lemma EmptyRun(rs: seq<Request>)
    requires RequestsOk(rs)
    ensures TreeAfter(rs[..0]) == [] && rs[..|rs|] == rs && forall k :: 0 <= k <= |rs| ==> RequestsOk(rs[..k])
  {
  }

  /** fs_init and any run of fs_create: each call succeeds exactly when the tree before it
      allows it, and the disk ends up holding the tree after all of them. */
  method MakeVolume(d: Disk, rs: seq<Request>) returns (results: seq<bool>)
    requires d.Valid() && Zeroed(d.Image())
    requires RequestsOk(rs)
    modifies d.bytes
    ensures |results| == |rs| && forall k :: 0 <= k < |rs| ==> (results[k] <==> Succeeds(rs, k))
    ensures HoldsTree(d.Image(), TreeAfter(rs))
  {
    hide *;
    ghost var img := d.Image();
    ZerosHoldNothing(img);
    EmptyRun(rs);
    var ok, cwd := FsInit(d, []);
    RootHolds(img, d.Image());
    results := [];
    for k := 0 to |rs|
      invariant |results| == k && forall j :: 0 <= j < k ==> (results[j] <==> Succeeds(rs, j))
      invariant HoldsTree(d.Image(), TreeAfter(rs[..k]))
    {
      OneMore(rs, k);
      img := d.Image();
      HoldsShows(img, TreeAfter(rs[..k]));
      ok := FsCreate(d, rs[k].path, rs[k].kind, TreeAfter(rs[..k]));
      CreateHolds(img, TreeAfter(rs[..k]), rs[k].path, rs[k].kind, ok, d.Image());
      results := results + [ok];
    }
  }

  /** At the end of a run every directory that was created can still be looked up by the
      path it was created with, and that leads to the inode it was given. */
  lemma CreatedCanBeFound(img: Image, rs: seq<Request>, k: nat)
    requires RequestsOk(rs) && k < |rs| && Succeeds(rs, k) && rs[k].kind == DIRECTORY_T && ShowsTree(img, TreeAfter(rs))
    ensures VolumeOk(img) && Walk(img, 0, Components(rs[k].path)) == |TreeAfter(rs[..k])| + 1
  {
    var cs := Components(rs[k].path);
    CreatedResolvesIff(TreeAfter(rs[..k]), rs[k].path, rs[k].kind);
    assert rs[..k + 1][..k] == rs[..k];
    hide CanCreate, Created, Follow, ShowsTree, Walk, Components;
    PathsStay(rs, k + 1, cs);
    TreeVolumeOk(img, TreeAfter(rs));
    WalkIsFollow(img, TreeAfter(rs), 0, cs);
  }
}
