/** Who owns which data block: every file of the disk keeps to its own blocks. */
module Ownership {
  import opened Disks
  import opened Records
  import opened Layout
  import opened FileSpec

  /** The file in slot `i`, as it is on disk. */
  function FileOf(img: Image, i: nat): FileState
    requires i < NUM_INODES
  {
    FileState(img, InodeAt(img, i))
  }

  /** No data block is behind a pointer of both. */
  ghost predicate Disjoint(a: Inode, b: Inode) {
    forall k, l :: 0 <= k < NDIRECT && 0 <= l < NDIRECT && a.addrs[k] != -1 ==> a.addrs[k] != b.addrs[l]
  }

  ghost predicate SlotOk(img: Image, i: nat)
    requires i < NUM_INODES
  {
    InodeAt(img, i).inum == i && FileOk(FileOf(img, i))
  }

  /** Every allocated inode is a well-formed file, and no two share a block. */
  ghost predicate FsOk(img: Image) {
    && (forall i :: 0 <= i < NUM_INODES && InodeUsed(img, i) ==> SlotOk(img, i))
    && (forall i, j :: 0 <= i < NUM_INODES && 0 <= j < NUM_INODES && i != j && InodeUsed(img, i) && InodeUsed(img, j)
          ==> Disjoint(InodeAt(img, i), InodeAt(img, j)))
  }

  /** A data block has at most one owner: one inode, one pointer. */
  lemma OneOwner(img: Image, i: nat, k: nat, j: nat, l: nat)
    requires FsOk(img) && i < NUM_INODES && j < NUM_INODES && InodeUsed(img, i) && InodeUsed(img, j)
    requires k < NDIRECT && l < NDIRECT
    requires InodeAt(img, i).addrs[k] == InodeAt(img, j).addrs[l] != -1
    ensures i == j && k == l
    ensures OnDisk(InodeAt(img, i).addrs[k]) && DataUsed(img, InodeAt(img, i).addrs[k])
  {
    assert SlotOk(img, i);
    assert i != j ==> Disjoint(InodeAt(img, i), InodeAt(img, j));
  }

  /** What a write may have changed on the disk, whether or not it succeeded. */
  ghost predicate Touched(s: FileState, t: FileState) {
    && t.img[0] == s.img[0] && t.img[INODE_BITMAP_BLOCK] == s.img[INODE_BITMAP_BLOCK]
    && (forall j :: 0 <= j < NUM_INODES && j != s.ino.inum ==> InodeAt(t.img, j) == InodeAt(s.img, j))
    && (forall k :: 0 <= k < NDIRECT && s.ino.addrs[k] != -1 ==> t.ino.addrs[k] == s.ino.addrs[k])
    && (forall k :: 0 <= k < NDIRECT && s.ino.addrs[k] == -1 && t.ino.addrs[k] != -1 ==> NewBlock(s.img, t.ino.addrs[k]))
    && (forall a :: 0 <= a < NUM_DATA_BLOCKS ==> (DataUsed(t.img, a) <==> DataUsed(s.img, a) || a in t.ino.addrs))
    && (forall a :: 0 <= a < NUM_DATA_BLOCKS && a !in t.ino.addrs ==> DataBlock(t.img, a) == DataBlock(s.img, a))
  }

  lemma GrowsTouches(s: FileState, t: FileState)
    requires Grows(s, t)
    ensures Touched(s, t)
    ensures forall j :: 0 <= j < NUM_INODES ==> InodeAt(t.img, j) == InodeAt(s.img, j)
  {
    forall j | 0 <= j < NUM_INODES ensures InodeAt(t.img, j) == InodeAt(s.img, j) {
      assert InodeBlock(j) < DATA_REGION_START;
    }
  }

  lemma UpdateTouches(s: FileState, t: FileState, u: Inode)
    requires Touched(s, t) && 0 <= s.ino.inum < NUM_INODES && u.addrs == t.ino.addrs
    ensures Touched(s, FileState(WithInode(t.img, s.ino.inum, u), u))
  {
    var r := FileState(WithInode(t.img, s.ino.inum, u), u);
    forall j | 0 <= j < NUM_INODES && j != s.ino.inum ensures InodeAt(r.img, j) == InodeAt(s.img, j) {
      WithInodeAt(t.img, s.ino.inum, u, j);
    }
  }

  /** A write touches the file's own slot, the data bitmap, and the file's own blocks; the
      superblock, the other slots and the blocks of other files stay as they are. */
  lemma WriteTouches(s: FileState, offset: UInt, buf: seq<Byte>)
    requires FileOk(s) && 0 <= s.ino.inum < NUM_INODES && |buf| < UINT_RANGE
    ensures var (r, t) := FileWrite(s, offset, buf);
      && Touched(s, t)
      && (r == -1 ==> InodeAt(t.img, s.ino.inum) == InodeAt(s.img, s.ino.inum))
      && (r == -1 && Accepts(s.ino.size, offset, |buf|) ==> FreeData(t.img) == -1)
  {
    var n := BlocksFor(s.ino.size);
    AcceptsBounds(s.ino.size, offset, |buf|);
    hide Touched, Grows, FreeData, Wrote, WriteAll;
    if Accepts(s.ino.size, offset, |buf|) {
      var (ok, t) := WriteAll(s, offset, buf);
      WriteAllOk(s, n, offset, buf);
      GrowsTouches(s, t);
      UpdateTouches(s, t, t.ino.(size := offset + |buf|));
      GrowsKeepsFields(s, t);
    } else {
      GrowsSelf(s, n);
      GrowsTouches(s, s);
    }
  }

  lemma GrowsKeepsFields(s: FileState, t: FileState)
    requires Grows(s, t)
    ensures t.ino == s.ino.(addrs := t.ino.addrs)
  {
  }

  /** Another file whose blocks are not among those of a write keeps every byte. */
  lemma OtherFileKept(s: FileState, t: FileState, o: Inode)
    requires Touched(s, t) && FileOk(FileState(s.img, o)) && Disjoint(o, s.ino)
    ensures FileOk(FileState(t.img, o)) && Content(FileState(t.img, o)) == Content(FileState(s.img, o))
    ensures Disjoint(o, t.ino)
  {
    var n := BlocksFor(o.size);
    forall k | 0 <= k < n ensures o.addrs[k] !in t.ino.addrs && DataUsed(t.img, o.addrs[k]) {
      forall l | 0 <= l < NDIRECT ensures t.ino.addrs[l] != o.addrs[k] {
        assert s.ino.addrs[l] == -1 && t.ino.addrs[l] != -1 ==> NewBlock(s.img, t.ino.addrs[l]);
      }
    }
    SameBytes(FileState(s.img, o), FileState(t.img, o));
  }

  /** A file keeps every other file: its inode, its well-formedness and its contents. */
  lemma WriteKeepsOthers(img: Image, i: nat, offset: UInt, buf: seq<Byte>, j: nat)
    requires FsOk(img) && i < NUM_INODES && j < NUM_INODES && InodeUsed(img, i) && InodeUsed(img, j) && i != j
    requires |buf| < UINT_RANGE
    ensures var t := FileWrite(FileOf(img, i), offset, buf).1;
      && InodeUsed(t.img, j) && InodeAt(t.img, j) == InodeAt(img, j)
      && SlotOk(t.img, j) && FileOk(FileOf(img, j)) && Content(FileOf(t.img, j)) == Content(FileOf(img, j))
      && Disjoint(InodeAt(t.img, j), t.ino)
  {
    assert SlotOk(img, i) && SlotOk(img, j);
    assert Disjoint(InodeAt(img, j), InodeAt(img, i));
    WriteTouches(FileOf(img, i), offset, buf);
    OtherFileKept(FileOf(img, i), FileWrite(FileOf(img, i), offset, buf).1, InodeAt(img, j));
  }

  lemma DisjointSym(a: Inode, b: Inode)
    requires Disjoint(a, b)
    ensures Disjoint(b, a)
  {
  }

  /** The pointers an inode had stay valid after a write, even a failed one. */
  lemma OldPointersOk(s: FileState, t: FileState)
    requires Touched(s, t) && FileOk(s)
    ensures FileOk(FileState(t.img, s.ino))
    ensures forall k :: 0 <= k < NDIRECT && s.ino.addrs[k] != -1 ==> s.ino.addrs[k] in t.ino.addrs
  {
    assert forall k :: 0 <= k < NDIRECT && s.ino.addrs[k] != -1 ==> t.ino.addrs[k] == s.ino.addrs[k];
  }

  /** The slot of a file that was written describes a well-formed file, up to date when the
      write succeeded and as before when it did not. */
  lemma OwnSlotOk(img: Image, i: nat, offset: UInt, buf: seq<Byte>)
    requires FsOk(img) && i < NUM_INODES && InodeUsed(img, i)
    requires |buf| < UINT_RANGE
    ensures var (r, t) := FileWrite(FileOf(img, i), offset, buf);
      && InodeAt(t.img, i) == (if r == -1 then InodeAt(img, i) else t.ino)
      && SlotOk(t.img, i)
      && forall k :: 0 <= k < NDIRECT && InodeAt(t.img, i).addrs[k] != -1 ==> InodeAt(t.img, i).addrs[k] in t.ino.addrs
  {
    hide FileWrite, Content, Overwrite;
    var s := FileOf(img, i);
    assert SlotOk(img, i);
    WriteTouches(s, offset, buf);
    if FileWrite(s, offset, buf).0 == -1 {
      OldPointersOk(s, FileWrite(s, offset, buf).1);
    } else {
      WriteSplices(s, offset, buf);
    }
  }

  /** A disk on which only slot `i` has changed is in order when that slot is, and when the
      other files are and share no block with it. */
  lemma OneSlotChanged(img: Image, t: Image, i: nat)
    requires FsOk(img) && i < NUM_INODES && SlotOk(t, i)
    requires forall j :: 0 <= j < NUM_INODES && j != i && InodeUsed(t, j) ==>
               InodeUsed(img, j) && InodeAt(t, j) == InodeAt(img, j) && SlotOk(t, j)
               && Disjoint(InodeAt(t, j), InodeAt(t, i))
    ensures FsOk(t)
  {
    hide FileOk;
    forall j, k | 0 <= j < NUM_INODES && 0 <= k < NUM_INODES && j != k && InodeUsed(t, j) && InodeUsed(t, k)
      ensures Disjoint(InodeAt(t, j), InodeAt(t, k))
    {
      if j != i && k != i {
        assert Disjoint(InodeAt(img, j), InodeAt(img, k));
      } else if j == i {
        DisjointSym(InodeAt(t, k), InodeAt(t, j));
      }
    }
  }

  lemma DisjointSubset(a: Inode, b: Inode, c: Inode)
    requires Disjoint(a, c) && forall k :: 0 <= k < NDIRECT && b.addrs[k] != -1 ==> b.addrs[k] in c.addrs
    ensures Disjoint(a, b)
  {
  }

  /** Successful or not, a write keeps every file well formed and every block owned once. */
  lemma WriteKeepsFsOk(img: Image, i: nat, offset: UInt, buf: seq<Byte>)
    requires FsOk(img) && i < NUM_INODES && InodeUsed(img, i)
    requires |buf| < UINT_RANGE
    ensures FsOk(FileWrite(FileOf(img, i), offset, buf).1.img)
  {
    hide FileWrite, FileOk, Content, Disjoint;
    var t := FileWrite(FileOf(img, i), offset, buf).1;
    assert SlotOk(img, i);
    WriteTouches(FileOf(img, i), offset, buf);
    OwnSlotOk(img, i, offset, buf);
    forall j | 0 <= j < NUM_INODES && j != i && InodeUsed(t.img, j)
      ensures InodeUsed(img, j) && InodeAt(t.img, j) == InodeAt(img, j)
      ensures SlotOk(t.img, j) && Disjoint(InodeAt(t.img, j), InodeAt(t.img, i))
    {
      WriteKeepsOthers(img, i, offset, buf, j);
      DisjointSubset(InodeAt(t.img, j), InodeAt(t.img, i), t.ino);
    }
    OneSlotChanged(img, t.img, i);
  }
}
