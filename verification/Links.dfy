/** What num_links of src/fs/inode.h counts, and what it does not. */
module Links {
  import opened Disks
  import opened Records
  import opened Layout
  import opened Directories
  import opened Volumes
  import opened Trees
  import opened TreeVolumes

  function RefersTo(e: Dirent, i: nat): nat {
    if e.valid && e.inum == i then 1 else 0
  }

  /** The valid entries of one directory that refer to inode `i`. */
  function ReferringIn(es: seq<Dirent>, i: nat): nat
    decreases es
  {
    if es == [] then 0 else RefersTo(es[0], i) + ReferringIn(es[1..], i)
  }

  /** The valid directory entries anywhere that refer to inode `i`. */
  function Referring(slots: seq<Slot>, i: nat): nat
    decreases slots
  {
    if slots == [] then 0 else ReferringIn(slots[0].entries, i) + Referring(slots[1..], i)
  }

  lemma {:induction false} ReferringInAppend(es: seq<Dirent>, e: Dirent, i: nat)
    ensures ReferringIn(es + [e], i) == ReferringIn(es, i) + RefersTo(e, i)
    decreases es
  {
    if es == [] {
      assert [] + [e] == [e];
    } else {
      assert (es + [e])[1..] == es[1..] + [e];
      ReferringInAppend(es[1..], e, i);
    }
  }

  lemma {:induction false} ReferringAppend(slots: seq<Slot>, s: Slot, i: nat)
    ensures Referring(slots + [s], i) == Referring(slots, i) + ReferringIn(s.entries, i)
    decreases slots
  {
    if slots == [] {
      assert [] + [s] == [s];
    } else {
      assert (slots + [s])[1..] == slots[1..] + [s];
      ReferringAppend(slots[1..], s, i);
    }
  }

  lemma {:induction false} ReferringUpdate(slots: seq<Slot>, k: nat, s: Slot, i: nat)
    requires k < |slots|
    ensures Referring(slots[k := s], i) == Referring(slots, i) - ReferringIn(slots[k].entries, i) + ReferringIn(s.entries, i)
    decreases slots
  {
    if k == 0 {
      assert slots[0 := s][1..] == slots[1..];
    } else {
      assert slots[k := s][1..] == slots[1..][k - 1 := s];
      ReferringUpdate(slots[1..], k - 1, s, i);
    }
  }

  lemma {:induction false} NoneReferringIn(es: seq<Dirent>, i: nat)
    requires forall k :: 0 <= k < |es| ==> es[k].inum != i
    ensures ReferringIn(es, i) == 0
    decreases es
  {
    if es != [] { NoneReferringIn(es[1..], i); }
  }

  lemma {:induction false} NoneReferring(slots: seq<Slot>, i: nat)
    requires forall k :: 0 <= k < |slots| ==> ReferringIn(slots[k].entries, i) == 0
    ensures Referring(slots, i) == 0
    decreases slots
  {
    if slots != [] { NoneReferring(slots[1..], i); }
  }

  /** Nothing refers to an inode that is not there yet. */
  lemma NewIsUnreferred(tree: Tree)
    requires TreeOk(tree)
    ensures Referring(SlotsOf(tree), |tree| + 1) == 0
  {
    var slots := SlotsOf(tree);
    forall i | 0 <= i < |slots| ensures ReferringIn(slots[i].entries, |tree| + 1) == 0 {
      forall k | 0 <= k < |slots[i].entries| ensures slots[i].entries[k].inum != |tree| + 1 {
        EntriesInRange(tree, i, k);
      }
      NoneReferringIn(slots[i].entries, |tree| + 1);
    }
    NoneReferring(slots, |tree| + 1);
  }

  /** By how much the directory entries outnumber the links. */
  function Surplus(tree: Tree, i: nat): int
    requires i <= |tree|
  {
    if i == 0 then 2 else if IsDirNode(tree, i) then 1 else -1
  }

  /** The entries that refer to an inode are two more than its links for the root, one more
      for any other directory, and one less for a plain file. */
  lemma {:induction false} LinksAreNotEntries(tree: Tree, i: nat)
    requires TreeOk(tree) && i <= |tree|
    ensures Referring(SlotsOf(tree), i) - SlotsOf(tree)[i].links == Surplus(tree, i)
    decreases |tree|
  {
    hide SlotsOf, Referring, NodeOk;
    if tree == [] {
      RootReferred();
    } else {
      var n := |tree| - 1;
      var shorter, node := tree[..n], tree[n];
      PrefixOk(tree, n);
      assert tree == shorter + [node];
      if i <= n {
        LinksAreNotEntries(shorter, i);
      } else {
        NewIsUnreferred(shorter);
      }
      if node.Dir? {
        DirReferred(shorter, node.parent, node.name, i);
      } else {
        PlainReferred(shorter, i);
      }
    }
  }

  lemma RootReferred()
    ensures TreeOk([]) && Referring(SlotsOf([]), 0) == 2 && SlotsOf([])[0].links == 0
  {
    var s := SlotOf([], 0);
    var dots := DotEntries(0, 0);
    assert s.entries == dots + [] == dots;
    assert SlotsOf([]) == [] + [s];
    ReferringAppend([], s, 0);
    TwoReferring(dots[0], dots[1], 0);
  }

  lemma TwoReferring(a: Dirent, b: Dirent, i: nat)
    ensures ReferringIn([a, b], i) == RefersTo(a, i) + RefersTo(b, i)
  {
    assert [] + [a] == [a] && [a] + [b] == [a, b];
    ReferringInAppend([], a, i);
    ReferringInAppend([a], b, i);
  }

  /** A new directory brings one entry for each of its parent and itself, and one for itself
      in its parent. */
  lemma DirReferred(tree: Tree, p: nat, name: Name, i: nat)
    requires TreeOk(tree) && TreeOk(tree + [Dir(p, name)]) && i <= |tree| + 1
    ensures var n := |tree| + 1; var bigger := SlotsOf(tree + [Dir(p, name)]);
      && Referring(bigger, i) == Referring(SlotsOf(tree), i) + (if i == n then 2 else 0) + (if i == p then 1 else 0)
      && p < n
      && bigger[i].links == if i == n then 1 else SlotsOf(tree)[i].links + (if i == p then 1 else 0)
  {
    DirSlots(tree, p, name);
    var n, slots := |tree| + 1, SlotsOf(tree);
    var e := Dirent(true, name, n);
    var s := Slot(slots[p].kind, slots[p].entries + [e], slots[p].links + 1);
    hide SlotsOf, TreeOk;
    ReferringInAppend(slots[p].entries, e, i);
    ReferringUpdate(slots, p, s, i);
    ReferringAppend(slots[p := s], Slot(DIRECTORY_T, DotEntries(n, p), 1), i);
    TwoReferring(DotEntries(n, p)[0], DotEntries(n, p)[1], i);
  }

  /** A plain file brings no entry at all. */
  lemma PlainReferred(tree: Tree, i: nat)
    requires TreeOk(tree) && TreeOk(tree + [Plain]) && i <= |tree| + 1
    ensures var bigger := SlotsOf(tree + [Plain]);
      && Referring(bigger, i) == Referring(SlotsOf(tree), i)
      && bigger[i].links == if i == |tree| + 1 then 1 else SlotsOf(tree)[i].links
  {
    PlainSlots(tree);
    hide SlotsOf, TreeOk;
    ReferringAppend(SlotsOf(tree), Slot(FILE_T, [], 1), i);
  }

  /** The entries that the disk has in directory `k`. */
  ghost function EntriesOnDisk(img: Image, k: nat): seq<Dirent>
    requires k < NUM_INODES
  {
    if IsDirectory(img, k) && DirOk(img, k) then EntriesOf(img, k) else []
  }

  /** The valid entries that the disk has in its first `n` inodes and that refer to `i`. */
  ghost function ReferringOnDisk(img: Image, n: nat, i: nat): nat
    requires n <= NUM_INODES
    decreases n
  {
    if n == 0 then 0 else ReferringOnDisk(img, n - 1, i) + ReferringIn(EntriesOnDisk(img, n - 1), i)
  }

  /** The disk has the entries of the tree. */
  lemma EntriesAreSlots(img: Image, tree: Tree, k: nat)
    requires ShowsTree(img, tree) && k < NUM_INODES
    ensures EntriesOnDisk(img, k) == if k <= |tree| then SlotsOf(tree)[k].entries else []
  {
    hide Holds, NodeOk, EntriesOf, DirOk, IsDirectory;
    SlotOnDisk(img, tree, k);
  }

  lemma {:induction false} ReferringIsOnDisk(img: Image, tree: Tree, n: nat, i: nat)
    requires ShowsTree(img, tree) && n <= NUM_INODES
    ensures ReferringOnDisk(img, n, i) == Referring(SlotsOf(tree)[..if n <= |tree| then n else |tree| + 1], i)
    decreases n
  {
    hide Holds, NodeOk, EntriesOnDisk, ReferringIn, Referring;
    var slots := SlotsOf(tree);
    hide SlotsOf;
    if n == 0 {
      NothingRefers(i);
      assert slots[..0] == [];
    } else {
      ReferringIsOnDisk(img, tree, n - 1, i);
      EntriesAreSlots(img, tree, n - 1);
      NothingRefers(i);
      if n - 1 <= |tree| {
        assert slots[..n] == slots[..n - 1] + [slots[n - 1]];
        ReferringAppend(slots[..n - 1], slots[n - 1], i);
      }
    }
  }

  lemma NothingRefers(i: nat)
    ensures Referring([], i) == 0 && ReferringIn([], i) == 0
  {
  }

  /** Counted on disk it is the same, whatever the plain files hold: the entries in all
      directories that refer to an inode, and the link count in that inode. */
  lemma LinksOnDiskAreNotEntries(img: Image, tree: Tree, i: nat)
    requires ShowsTree(img, tree) && i <= |tree|
    ensures ReferringOnDisk(img, NUM_INODES, i) == InodeAt(img, i).numLinks + Surplus(tree, i)
  {
    hide Holds, NodeOk, InodeAt, ReferringOnDisk, Referring, SlotOf;
    LinksAreNotEntries(tree, i);
    SlotOnDisk(img, tree, i);
    ReferringIsOnDisk(img, tree, NUM_INODES, i);
    assert SlotsOf(tree)[..|tree| + 1] == SlotsOf(tree);
  }

  /** So there is no inode for which num_links is the number of entries that refer to it. */
  lemma LinksNeverCountEntries(tree: Tree, i: nat)
    requires TreeOk(tree) && i <= |tree|
    ensures SlotsOf(tree)[i].links != Referring(SlotsOf(tree), i)
  {
    LinksAreNotEntries(tree, i);
  }
}
