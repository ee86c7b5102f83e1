/** Disks that hold a tree: what lookups find there, and why the data blocks never run out. */
module TreeVolumes {
  import opened Disks
  import opened Records
  import opened Layout
  import opened FileSpec
  import opened Ownership
  import opened DirSpec
  import opened Directories
  import opened Pathnames
  import opened Volumes
  import opened Trees

  /** The directories on the disk are those of the tree, whatever the plain files hold. */
  ghost predicate ShowsTree(img: Image, tree: Tree) {
    TreeOk(tree) && Holds(img, SlotsOf(tree))
  }

  ghost predicate PlainEmpty(img: Image, tree: Tree)
    requires TreeOk(tree)
  {
    forall i :: 0 <= i <= |tree| && !IsDirNode(tree, i) ==> InodeAt(img, i).size == 0
  }

  /** The disk holds exactly this tree: the plain files are empty, and the data blocks in use
      are the first ones, as many as the directories need. */
  ghost predicate HoldsTree(img: Image, tree: Tree) {
    ShowsTree(img, tree) && PlainEmpty(img, tree) && Front(img, BlockSum(SlotsOf(tree)))
  }

  lemma HoldsShows(img: Image, tree: Tree)
    requires HoldsTree(img, tree)
    ensures ShowsTree(img, tree)
  {
  }

  // ----- Enough data blocks

  /** Sixteen times the blocks in use is at most this. */
  function Weight(slots: seq<Slot>): nat
    decreases slots
  {
    if slots == [] then 0 else |slots[0].entries| + 15 + Weight(slots[1..])
  }

  lemma {:induction false} WeightAppend(slots: seq<Slot>, s: Slot)
    ensures Weight(slots + [s]) == Weight(slots) + |s.entries| + 15
    decreases slots
  {
    if slots == [] {
      assert [] + [s] == [s];
    } else {
      assert (slots + [s])[1..] == slots[1..] + [s];
      WeightAppend(slots[1..], s);
    }
  }

  lemma {:induction false} WeightUpdate(slots: seq<Slot>, i: nat, s: Slot)
    requires i < |slots|
    ensures Weight(slots[i := s]) == Weight(slots) - |slots[i].entries| + |s.entries|
    decreases slots
  {
    if i == 0 {
      assert slots[0 := s][1..] == slots[1..];
    } else {
      assert slots[i := s][1..] == slots[1..][i - 1 := s];
      WeightUpdate(slots[1..], i - 1, s);
    }
  }

  lemma {:induction false} BlocksBelowWeight(slots: seq<Slot>)
    ensures 16 * BlockSum(slots) <= Weight(slots)
    decreases slots
  {
    if slots != [] {
      RecordBlocks(|slots[0].entries|);
      BlocksBelowWeight(slots[1..]);
    }
  }

  /** The root brings two entries, every directory three. */
  lemma {:induction false} WeightOfTree(tree: Tree)
    requires TreeOk(tree)
    ensures Weight(SlotsOf(tree)) <= 18 * (|tree| + 1)
    decreases |tree|
  {
    if tree == [] {
      var s := SlotOf(tree, 0);
      assert SlotsOf(tree) == [] + [s];
      WeightAppend([], s);
    } else {
      var n := |tree| - 1;
      var shorter, node := tree[..n], tree[n];
      PrefixOk(tree, n);
      assert tree == shorter + [node];
      WeightOfTree(shorter);
      if node.Dir? {
        DirSlots(shorter, node.parent, node.name);
        var s := SlotsOf(shorter)[node.parent];
        var grown := Slot(s.kind, s.entries + [Dirent(true, node.name, |tree|)], s.links + 1);
        WeightUpdate(SlotsOf(shorter), node.parent, grown);
        WeightAppend(SlotsOf(shorter)[node.parent := grown], Slot(DIRECTORY_T, DotEntries(|tree|, node.parent), 1));
      } else {
        PlainSlots(shorter);
        WeightAppend(SlotsOf(shorter), Slot(FILE_T, [], 1));
      }
    }
  }

  /** Even with all inodes in use, a tree of directories leaves 30 of the 120 data blocks. */
  lemma RoomForever(tree: Tree)
    requires TreeOk(tree)
    ensures BlockSum(SlotsOf(tree)) <= 90
  {
    BlocksBelowWeight(SlotsOf(tree));
    WeightOfTree(tree);
  }

  // ----- What is found on disk

  lemma SlotOnDisk(img: Image, tree: Tree, i: nat)
    requires ShowsTree(img, tree) && i < NUM_INODES
    ensures i <= |tree| ==> InodeUsed(img, i) && SlotOk(img, i) && HoldsSlot(img, i, SlotOf(tree, i))
    ensures IsDirectory(img, i) <==> IsDirNode(tree, i)
    ensures IsDirNode(tree, i) ==> DirOk(img, i) && EntriesOf(img, i) == SlotOf(tree, i).entries
  {
    hide HoldsSlot, DirOk, EntriesOf, SlotOk, InodeAt, SlotOf, InodeUsed, FsOk, NodeOk;
    if i <= |tree| {
      assert SlotsOf(tree)[i] == SlotOf(tree, i);
      UsedSlotOk(img, i);
      KindOfSlot(img, tree, i);
    }
  }

  lemma KindOfSlot(img: Image, tree: Tree, i: nat)
    requires TreeOk(tree) && i <= |tree| && HoldsSlot(img, i, SlotOf(tree, i))
    ensures IsDirectory(img, i) <==> IsDirNode(tree, i)
    ensures IsDirNode(tree, i) ==> DirOk(img, i) && EntriesOf(img, i) == SlotOf(tree, i).entries
  {
    hide DirOk, EntriesOf;
  }

  /** Every entry points into the tree. */
  lemma EntriesInRange(tree: Tree, i: nat, k: nat)
    requires TreeOk(tree) && i <= |tree| && k < |SlotOf(tree, i).entries|
    ensures 0 <= SlotOf(tree, i).entries[k].inum <= |tree|
  {
    if IsDirNode(tree, i) {
      assert i > 0 ==> NodeOk(tree, i - 1);
      if k >= 2 { ChildrenInRange(tree, i, k - 2); }
    }
  }

  lemma TreeVolumeOk(img: Image, tree: Tree)
    requires ShowsTree(img, tree)
    ensures VolumeOk(img)
  {
    hide Holds, NodeOk, InodeAt, SlotOf, EntriesOf, IsDirectory, DirOk;
    SlotOnDisk(img, tree, 0);
    forall i | 0 <= i < NUM_INODES && IsDirectory(img, i) ensures DirOk(img, i) && EntriesNumbered(img, i) {
      SlotOnDisk(img, tree, i);
      forall e | e in EntriesOf(img, i) && 0 <= e.inum < NUM_INODES ensures InodeAt(img, e.inum).inum == e.inum {
        var k :| 0 <= k < |EntriesOf(img, i)| && EntriesOf(img, i)[k] == e;
        EntriesInRange(tree, i, k);
        SlotOnDisk(img, tree, e.inum);
      }
    }
  }

  /** Looking a name up on disk follows the tree. */
  lemma LookupOnDisk(img: Image, tree: Tree, i: nat, name: Name)
    requires ShowsTree(img, tree) && i <= |tree| && IsDirNode(tree, i)
    ensures DirOk(img, i) && EntriesOf(img, i) == SlotOf(tree, i).entries
    ensures Lookup(EntriesOf(img, i), name) == Next(tree, i, name)
  {
    hide Holds, NodeOk, InodeAt, SlotOf, EntriesOf, DirOk, Next, Lookup;
    SlotOnDisk(img, tree, i);
    LookupIsNext(tree, i, name);
  }

  /** Resolving names on disk is following them in the tree. */
  lemma {:induction false} WalkIsFollow(img: Image, tree: Tree, i: nat, cs: seq<Name>)
    requires ShowsTree(img, tree) && VolumeOk(img) && i <= |tree|
    ensures Walk(img, i, cs) == Follow(tree, i, cs)
    decreases cs
  {
    hide Holds, NodeOk, VolumeOk, InodeAt, SlotOf, EntriesOf, DirOk, Next, Lookup, IsDirectory, IsDirNode;
    if cs != [] {
      SlotOnDisk(img, tree, i);
      NextNeedsDir(tree, i, cs[0]);
      if IsDirNode(tree, i) {
        LookupOnDisk(img, tree, i, cs[0]);
        var n := Next(tree, i, cs[0]);
        if n != -1 { WalkIsFollow(img, tree, n, cs[1..]); }
      }
    }
  }

  lemma NextNeedsDir(tree: Tree, i: nat, name: Name)
    requires TreeOk(tree) && i <= |tree|
    ensures !IsDirNode(tree, i) ==> Next(tree, i, name) == -1
  {
  }

  /** On a disk that shows a tree every directory is reached by its path, "." is the
      directory itself and ".." its parent, and the link count is one for every directory
      that has it as its parent, and one more for all but the root. */
  lemma TreeOnDisk(img: Image, tree: Tree, i: nat)
    requires ShowsTree(img, tree) && i <= |tree| && IsDirNode(tree, i)
    ensures VolumeOk(img) && DirOk(img, i) && Walk(img, 0, PathTo(tree, i)) == i
    ensures Lookup(EntriesOf(img, i), DOT) == i && Lookup(EntriesOf(img, i), DOTDOT) == ParentOf(tree, i)
    ensures InodeAt(img, i).numLinks ==
      (if i == 0 then 0 else 1) + |Subdirectories(tree, i)|
  {
    TreeVolumeOk(img, tree);
    WalkIsFollow(img, tree, 0, PathTo(tree, i));
    PathLeadsThere(tree, i);
    LookupOnDisk(img, tree, i, DOT);
    LookupOnDisk(img, tree, i, DOTDOT);
    SlotOnDisk(img, tree, i);
    ChildrenCount(tree, i);
  }

  // ----- Writing to a plain file

  /** The slot of a plain file after file_write to it. */
  lemma WrittenSlotHolds(img: Image, i: nat, offset: UInt, buf: seq<Byte>, s: Slot)
    requires FsOk(img) && i < NUM_INODES && InodeUsed(img, i) && |buf| < UINT_RANGE
    requires HoldsSlot(img, i, s) && s.kind != DIRECTORY_T
    ensures HoldsSlot(FileWrite(FileOf(img, i), offset, buf).1.img, i, s)
  {
    hide FileWrite, FileOk, Content, Disjoint, FsOk, InodeUsed, InodeAt, Overwrite;
    UsedSlotOk(img, i);
    OwnSlotOk(img, i, offset, buf);
    if FileWrite(FileOf(img, i), offset, buf).0 != -1 { WriteSplices(FileOf(img, i), offset, buf); }
  }

  /** A write to a plain file, failed or not, changes nothing about the tree, and no other
      file. */
  lemma WriteKeepsTree(img: Image, tree: Tree, i: nat, offset: UInt, buf: seq<Byte>)
    requires ShowsTree(img, tree) && i <= |tree| && !IsDirNode(tree, i) && |buf| < UINT_RANGE
    ensures var t := FileWrite(FileOf(img, i), offset, buf).1.img;
      ShowsTree(t, tree) && OthersKept(img, |tree| + 1, i, t)
  {
    hide FileWrite, FsOk, InodeUsed, InodeAt, NodeOk, HoldsSlot, SlotOk;
    SlotOnDisk(img, tree, i);
    WrittenSlotHolds(img, i, offset, buf, SlotOf(tree, i));
    WriteHolds(img, SlotsOf(tree), i, offset, buf, SlotOf(tree, i));
    assert SlotsOf(tree)[i := SlotOf(tree, i)] == SlotsOf(tree);
  }

  /** So every path leads where it led before. */
  lemma WriteKeepsPaths(img: Image, tree: Tree, i: nat, offset: UInt, buf: seq<Byte>, cs: seq<Name>)
    requires ShowsTree(img, tree) && i <= |tree| && !IsDirNode(tree, i) && |buf| < UINT_RANGE
    ensures var t := FileWrite(FileOf(img, i), offset, buf).1.img;
      VolumeOk(img) && VolumeOk(t) && Walk(t, 0, cs) == Walk(img, 0, cs)
  {
    WriteKeepsTree(img, tree, i, offset, buf);
    hide *;
    var t := FileWrite(FileOf(img, i), offset, buf).1.img;
    TreeVolumeOk(img, tree);
    TreeVolumeOk(t, tree);
    WalkIsFollow(img, tree, 0, cs);
    WalkIsFollow(t, tree, 0, cs);
  }
}
