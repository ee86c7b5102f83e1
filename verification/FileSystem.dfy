/** src/fs/fs.c: making a file system on a zeroed disk, and creating files and directories.
    A volume is described by the tree it holds. */
module FileSystems {
  import opened Disks
  import opened Bitmaps
  import opened Records
  import opened Layout
  import opened Inodes
  import opened FileSpec
  import opened Ownership
  import opened DirSpec
  import opened Directories
  import opened Pathnames
  import opened Volumes
  import opened Trees
  import opened TreeVolumes

  const ROOT_INODE: nat := 0

  // ----- fs_init

  /** struct superblock: "idk", then the numbers of the layout. */
  function SuperblockBytes(): (r: seq<Byte>)
    ensures |r| == 20
  {
    [0x69, 0x64, 0x6b, 0]
    + EncodeInt(NUM_INODES) + EncodeInt(INODE_TABLE_START) + EncodeInt(NUM_DATA_BLOCKS) + EncodeInt(BLOCK_SIZE)
  }

  /** superblock_init: the rest of the block is whatever the local buffer held. */
  method SuperblockInit(d: Disk) returns (ok: bool)
    requires d.Valid()
    modifies d.bytes
    ensures ok && d.Image() == old(d.Image())[0 := d.Image()[0]] && d.Image()[0][..20] == SuperblockBytes()
  {
    var stray := AnyBytes(BLOCK_SIZE);
    var buf := Splice(stray, 0, SuperblockBytes());
    SpliceSame(stray, 0, SuperblockBytes());
    hide SuperblockBytes;
    ok := d.BlockWrite(buf, 0);
  }

  lemma ZeroInode(img: Image, i: nat)
    requires i < NUM_INODES && img[InodeBlock(i)] == Zeros(BLOCK_SIZE)
    ensures InodeAt(img, i).kind == UNUSED_T
  {
    var b := img[InodeBlock(i)][InodeOffset(i)..InodeOffset(i) + RECORD_SIZE];
    assert b[..4] == [0, 0, 0, 0];
    assert DecodeInts(b, |b| / 4)[0] == DecodeInt(b[..4]);
  }

  /** The disk as it is when the program starts. */
  ghost predicate Zeroed(img: Image) {
    forall b :: 0 <= b < NUM_BLOCKS ==> img[b] == Zeros(BLOCK_SIZE)
  }

  /** A zeroed disk holds nothing. */
  lemma ZerosHoldNothing(img: Image)
    requires Zeroed(img)
    ensures Holds(img, []) && Front(img, 0) && FreeBlocks(img) == NUM_DATA_BLOCKS > 0
  {
    forall i | 0 <= i < NUM_INODES ensures !InodeUsed(img, i) && InodeAt(img, i).kind == UNUSED_T {
      assert 0 < InodeBlock(i) < DATA_REGION_START;
      ZeroInode(img, i);
      ZerosFree(i);
    }
    forall k | 0 <= k < NUM_DATA_BLOCKS ensures !DataUsed(img, k) {
      ZerosFree(k);
    }
    FrontFree(img, 0);
  }

  lemma ZerosFree(i: nat)
    requires i < SCANNED
    ensures !Taken(Zeros(BLOCK_SIZE), i)
  {
  }

  /** A directory all of whose records are valid, and which may grow by one more. */
  ghost predicate Open(slots: seq<Slot>, i: nat) {
    && i < |slots| && slots[i].kind == DIRECTORY_T
    && (forall k :: 0 <= k < |slots[i].entries| ==> slots[i].entries[k].valid)
    && RECORD_SIZE * (|slots[i].entries| + 1) <= MAX_FILE_SIZE
  }

  function WithEntry(slots: seq<Slot>, i: nat, e: Dirent): seq<Slot>
    requires i < |slots|
  {
    slots[i := slots[i].(entries := slots[i].entries + [e])]
  }

  /** Without holes dir_add writes behind the last entry. */
  lemma AddedBehind(s: FileState, es: seq<Dirent>, e: Dirent, ok: bool, t: Image)
    requires Fits(e.name) && Lookup(es, e.name) == -1 && FirstHole(es) == |es|
    ensures AddedTo(s, es, e, ok, t) ==> Wrote64(s, RECORD_SIZE * |es|, EncodeDirent(e), ok, t)
  {
    hide Lookup, FirstHole, Wrote64, WroteStray, EncodeDirent, Fits;
  }

  /** What dir_add into a directory without holes does to a volume: it appends the entry, or
      changes nothing because there is no data block for it. */
  ghost predicate Appended(img: Image, slots: seq<Slot>, i: nat, e: Dirent, ok: bool, t: Image)
    requires i < |slots| <= NUM_INODES
  {
    && (ok <==> Cost(slots[i]) <= FreeBlocks(img))
    && if ok then Holds(t, WithEntry(slots, i, e)) && Took(img, t, Cost(slots[i])) && OthersKept(img, |slots|, i, t)
       else t == img
  }

  lemma AddedEntry(img: Image, slots: seq<Slot>, i: nat, e: Dirent, ok: bool, t: Image)
    requires Holds(img, slots) && Open(slots, i) && Fits(e.name) && Lookup(slots[i].entries, e.name) == -1
    requires IsDirectory(img, i) && DirOk(img, i) && Added(img, i, e, ok, t)
    ensures Appended(img, slots, i, e, ok, t)
  {
    hide HoldsSlot, InodeAt, FsOk, DirOk, EntriesOf, IsDirectory, AddedTo, Wrote64, Lookup, FirstHole;
    hide EncodeDirent, InodeUsed, OthersKept, FreeBlocks, Took;
    LinkFacts(img, slots, i);
    NoHoles(slots[i].entries);
    AddedBehind(FileOf(img, i), slots[i].entries, e, ok, t);
    AddEntry(img, slots, i, e, ok, t);
  }

  lemma LinkFacts(img: Image, slots: seq<Slot>, i: nat)
    requires Holds(img, slots) && Open(slots, i)
    ensures i < NUM_INODES && IsDirectory(img, i) && DirOk(img, i) && EntriesOf(img, i) == slots[i].entries
    ensures |slots| <= NUM_INODES
  {
    hide FsOk, InodeAt, DirOk, EntriesOf, InodeUsed;
    assert HoldsSlot(img, i, slots[i]);
  }

  lemma NoHoles(es: seq<Dirent>)
    requires forall k :: 0 <= k < |es| ==> es[k].valid
    ensures FirstHole(es) == |es|
  {
  }

  /** dir_add into a directory without holes. */
  method Link(d: Disk, i: nat, e: Dirent, ghost slots: seq<Slot>) returns (ok: bool)
    requires d.Valid() && Holds(d.Image(), slots) && Open(slots, i)
    requires Fits(e.name) && Lookup(slots[i].entries, e.name) == -1
    modifies d.bytes
    ensures |slots| <= NUM_INODES && Appended(old(d.Image()), slots, i, e, ok, d.Image())
  {
    ghost var img := d.Image();
    LinkFacts(img, slots, i);
    hide *;
    ok := DirAdd(d, i, e);
    AddedEntry(img, slots, i, e, ok, d.Image());
  }

  /** inode_alloc of a blank inode appends a slot, unless all are in use. */
  method NewInode(d: Disk, inode: Inode, ghost slots: seq<Slot>) returns (ok: bool, out: Inode)
    requires d.Valid() && Holds(d.Image(), slots) && Blank(inode)
    modifies d.bytes
    ensures ok <==> |slots| < NUM_INODES
    ensures !ok ==> d.Image() == old(d.Image())
    ensures ok ==> out == inode.(inum := |slots|) && Holds(d.Image(), slots + [Slot(inode.kind, [], inode.numLinks)])
    ensures ok ==> Took(old(d.Image()), d.Image(), 0) && OthersKept(old(d.Image()), |slots|, |slots|, d.Image())
    ensures ok ==> InodeAt(d.Image(), |slots|) == out
  {
    ghost var img := d.Image();
    assert forall i :: 0 <= i < NUM_INODES ==> InodeUsed(img, i) == Taken(img[INODE_BITMAP_BLOCK], i);
    hide InodeAt, FsOk, HoldsSlot, WithInode, OthersKept, Took, SameData;
    ok, out := InodeAlloc(d, inode);
    LeastFreeAtFront(img[INODE_BITMAP_BLOCK], NUM_INODES, |slots|, if ok then out.inum else -1);
    if ok {
      assert d.Image() == WithNew(img, |slots|, out);
      AllocAppends(img, slots, out);
      SameDataTook(img, d.Image());
    }
  }

  function BlankInode(kind: Int32, links: Int32): (r: Inode)
    ensures Blank(r)
  {
    InodeRecord(kind, 0, 0, links, seq(NDIRECT, i => -1))
  }

  /** What a volume holds after root_init has been refused: an inode more, if there was one. */
  function WithSpareRoot(slots: seq<Slot>): seq<Slot> {
    if |slots| < NUM_INODES then slots + [Slot(DIRECTORY_T, [], 0)] else slots
  }

  /** root_init: an empty volume with a free data block gets its root. Any other volume is
      refused, but only after it has taken an inode. */
  method RootInit(d: Disk, ghost slots: seq<Slot>) returns (ok: bool)
    requires d.Valid() && Holds(d.Image(), slots)
    modifies d.bytes
    ensures ok <==> slots == [] && FreeBlocks(old(d.Image())) > 0
    ensures if ok then ShowsTree(d.Image(), []) && Took(old(d.Image()), d.Image(), 1)
            else Holds(d.Image(), WithSpareRoot(slots))
  {
    hide Holds, Took, FreeBlocks, OthersKept, InodeAt, Open, Lookup;
    ghost var a := d.Image();
    var root;
    ok, root := NewInode(d, BlankInode(DIRECTORY_T, 0), slots);
    if !ok {
      return;
    }
    if root.inum != ROOT_INODE {
      return false;
    }
    ghost var b := d.Image();
    SameFree(a, b, 0);
    var curr := Dirent(true, DOT, root.inum);
    var par := Dirent(true, DOTDOT, root.inum);
    ghost var s0 := [] + [Slot(DIRECTORY_T, [], 0)];
    ghost var s1 := WithEntry(s0, 0, curr);
    RootSlots(curr, par);
    ok := Link(d, root.inum, curr, s0);
    if !ok {
      return;
    }
    ghost var c := d.Image();
    ok := Link(d, root.inum, par, s1);
    if !ok {
      return;
    }
    TookMore(a, b, c, 0, 1);
    TookMore(a, c, d.Image(), 1, 0);
  }

  lemma SameFree(img: Image, t: Image, n: nat)
    requires Took(img, t, n)
    ensures FreeBlocks(t) + n == FreeBlocks(img)
  {
  }

  lemma RootSlots(curr: Dirent, par: Dirent)
    requires curr == Dirent(true, DOT, 0) && par == Dirent(true, DOTDOT, 0)
    ensures var s0 := [] + [Slot(DIRECTORY_T, [], 0)]; var s1 := WithEntry(s0, 0, curr);
      && Open(s0, 0) && Lookup(s0[0].entries, DOT) == -1 && Cost(s0[0]) == 1
      && Open(s1, 0) && Lookup(s1[0].entries, DOTDOT) == -1 && Cost(s1[0]) == 0
      && TreeOk([]) && WithEntry(s1, 0, par) == SlotsOf([])
  {
    var s0 := [] + [Slot(DIRECTORY_T, [], 0)];
    var s1 := WithEntry(s0, 0, curr);
    FindFirst(s1[0].entries, DOTDOT, 1);
    var s2 := WithEntry(s1, 0, par);
    assert s2[0].entries == DotEntries(0, 0) + [];
    assert s2[0] == SlotOf([], 0);
  }

  /** fs_init: an empty volume, such as a zeroed disk, becomes one that holds just the root.
      Any other volume is refused, as a second call would be. */
  method FsInit(d: Disk, ghost slots: seq<Slot>) returns (ok: bool, cwd: Inode)
    requires d.Valid() && Holds(d.Image(), slots)
    modifies d.bytes
    ensures ok <==> slots == [] && FreeBlocks(old(d.Image())) > 0
    ensures ok ==> cwd == InodeAt(d.Image(), ROOT_INODE)
    ensures if ok then ShowsTree(d.Image(), []) && Took(old(d.Image()), d.Image(), 1)
            else Holds(d.Image(), WithSpareRoot(slots))
  {
    hide Holds, WithSpareRoot, SlotsOf, Took, FreeBlocks, SameData, ShowsTree, SuperblockBytes, InodeAt, NodeOk;
    cwd := BlankInode(UNUSED_T, 0);
    ghost var img := d.Image();
    ok := SuperblockInit(d);
    if !ok {
      return;
    }
    ghost var t := d.Image();
    SuperblockUpdate(img, slots, t[0]);
    SameDataTook(img, t);
    SameFree(img, t, 0);
    ok := RootInit(d, slots);
    if !ok {
      return;
    }
    TookMore(img, t, d.Image(), 0, 1);
    ok, cwd := InodeRead(d, ROOT_INODE);
  }

  /** From a disk with no block in use fs_init leaves one on which only the root has one. */
  lemma RootHolds(img: Image, t: Image)
    requires Front(img, 0) && Took(img, t, 1) && ShowsTree(t, [])
    ensures HoldsTree(t, [])
  {
    hide Holds, Front, FreeBlocks, InodeAt;
    var s := SlotOf([], 0);
    assert SlotsOf([]) == [] + [s];
    BlockSumAppend([], s);
    RecordBlocks(2);
    assert Front(t, 0 + 1);
  }

  // ----- fs_create

  /** The slots while a directory is made: it has its inode and the entries `es`; its parent
      has not heard of it yet. */
  ghost function Making(tree: Tree, es: seq<Dirent>): seq<Slot>
    requires TreeOk(tree)
  {
    SlotsOf(tree) + [Slot(DIRECTORY_T, es, 1)]
  }

  lemma MakingOpen(tree: Tree, es: seq<Dirent>)
    requires TreeOk(tree) && |es| <= 2 && forall k :: 0 <= k < |es| ==> es[k].valid
    ensures Open(Making(tree, es), |tree| + 1)
  {
  }

  lemma MakingEntry(tree: Tree, es: seq<Dirent>, e: Dirent)
    requires TreeOk(tree)
    ensures WithEntry(Making(tree, es), |tree| + 1, e) == Making(tree, es + [e])
  {
  }

  /** The slots when only the entry in the parent is missing. */
  ghost function Linked(tree: Tree, p: nat): seq<Slot>
    requires TreeOk(tree) && |tree| + 1 < NUM_INODES && p <= |tree|
  {
    var s := Making(tree, DotEntries(|tree| + 1, p));
    s[p := s[p].(links := s[p].links + 1)]
  }

  lemma LinkedOpen(tree: Tree, p: nat, name: Name)
    requires TreeOk(tree) && |tree| + 1 < NUM_INODES && p <= |tree| && IsDirNode(tree, p) && Next(tree, p, name) == -1
    ensures Open(Linked(tree, p), p) && Lookup(Linked(tree, p)[p].entries, name) == -1
  {
    hide SlotOf, SlotsOf, Lookup, Next, NodeOk;
    var dots, s := DotEntries(|tree| + 1, p), SlotOf(tree, p);
    SlotIsOpen(tree, p);
    LookupIsNext(tree, p, name);
    MakingOpen(tree, dots);
    SlotMaking(tree, p, dots);
  }

  lemma SlotMaking(tree: Tree, p: nat, es: seq<Dirent>)
    requires TreeOk(tree) && p <= |tree|
    ensures Making(tree, es)[p] == SlotOf(tree, p)
  {
  }

  lemma SlotIsOpen(tree: Tree, p: nat)
    requires TreeOk(tree) && p <= |tree| && IsDirNode(tree, p)
    ensures var s := SlotOf(tree, p);
      && s.kind == DIRECTORY_T && RECORD_SIZE * (|s.entries| + 1) <= MAX_FILE_SIZE
      && forall k :: 0 <= k < |s.entries| ==> s.entries[k].valid
  {
    hide Children;
    ChildrenFew(tree, p);
    var s := SlotOf(tree, p);
    forall k | 0 <= k < |s.entries| ensures s.entries[k].valid {
      if k >= 2 { ChildrenValid(tree, p, k - 2); }
    }
  }

  lemma LinkedEntry(tree: Tree, p: nat, name: Name)
    requires TreeOk(tree) && TreeOk(tree + [Dir(p, name)]) && p <= |tree|
    ensures |tree| + 1 < NUM_INODES
    ensures WithEntry(Linked(tree, p), p, Dirent(true, name, |tree| + 1)) == SlotsOf(tree + [Dir(p, name)])
  {
    assert |tree + [Dir(p, name)]| == |tree| + 1;
    DirSlots(tree, p, name);
    hide SlotsOf;
  }

  /** Each step of making directory `name` in `p` can be taken. */
  ghost predicate CanStep(tree: Tree, p: nat, name: Name) {
    && TreeOk(tree) && |tree| + 1 < NUM_INODES && p <= |tree| && Fits(DOT) && Fits(DOTDOT) && Fits(name)
    && var n := |tree| + 1; var curr, par := Dirent(true, DOT, n), Dirent(true, DOTDOT, p);
    && Open(Making(tree, []), n) && Lookup([], DOT) == -1
    && Open(Making(tree, [curr]), n) && Lookup([curr], DOTDOT) == -1
    && Making(tree, [curr, par])[p].links < NUM_INODES
    && Open(Linked(tree, p), p) && Lookup(Linked(tree, p)[p].entries, name) == -1
    && Cost(Linked(tree, p)[p]) == Cost(SlotOf(tree, p))
    && TreeOk(tree + [Dir(p, name)])
    && WithEntry(Linked(tree, p), p, Dirent(true, name, n)) == SlotsOf(tree + [Dir(p, name)])
  }

  lemma MakingFacts(tree: Tree, p: nat, name: Name)
    requires TreeOk(tree) && TreeOk(tree + [Dir(p, name)]) && p <= |tree| && IsDirNode(tree, p) && Next(tree, p, name) == -1
    ensures CanStep(tree, p, name)
  {
    assert |tree + [Dir(p, name)]| == |tree| + 1;
    assert NodeOk(tree + [Dir(p, name)], |tree|);
    var curr, par := Dirent(true, DOT, |tree| + 1), Dirent(true, DOTDOT, p);
    MakingOpen(tree, []);
    MakingOpen(tree, [curr]);
    FindFirst([curr], DOTDOT, 1);
    ChildrenFew(tree, p);
    LinkedOpen(tree, p, name);
    LinkedEntry(tree, p, name);
    assert Making(tree, [curr, par])[p] == SlotOf(tree, p);
    hide SlotsOf, Open, Lookup, WithEntry, Linked, Making, TreeOk, Next;
  }

  lemma LinksOnDisk(img: Image, slots: seq<Slot>, i: nat)
    requires Holds(img, slots) && i < |slots|
    ensures i < NUM_INODES && InodeAt(img, i).numLinks == slots[i].links && |slots| <= NUM_INODES
  {
    assert HoldsSlot(img, i, slots[i]);
  }

  /** inode_update of the parent, whose copy in memory is still up to date. */
  method CountLink(d: Disk, dirInode: Inode, ghost slots: seq<Slot>, ghost p: nat) returns (ok: bool)
    requires d.Valid() && Holds(d.Image(), slots) && p < |slots| && slots[p].links < NUM_INODES
    requires dirInode == InodeAt(d.Image(), p) && dirInode.inum == p
    modifies d.bytes
    ensures ok && slots[p].links == dirInode.numLinks && |slots| <= NUM_INODES
    ensures Holds(d.Image(), slots[p := slots[p].(links := slots[p].links + 1)])
    ensures Took(old(d.Image()), d.Image(), 0) && OthersKept(old(d.Image()), |slots|, p, d.Image())
  {
    hide Holds, InodeAt, WithInode, Took, OthersKept, SameData;
    ghost var img := d.Image();
    LinksOnDisk(img, slots, p);
    var counted := dirInode.(numLinks := dirInode.numLinks + 1);
    LinksUpdate(img, slots, p, counted.numLinks);
    ok := InodeUpdate(d, counted, dirInode.inum);
    SameDataTook(img, d.Image());
  }

  /** From `img` to `t` the `n` least free data blocks have been taken, and of the first
      `count` files all but the one in slot `p` have been kept. */
  ghost predicate Grown(img: Image, t: Image, n: nat, count: nat, p: nat)
    requires count <= NUM_INODES
  {
    Took(img, t, n) && OthersKept(img, count, p, t)
  }

  lemma GrownMore(a: Image, b: Image, c: Image, m: nat, n: nat, count: nat, p: nat)
    requires count <= NUM_INODES && Grown(a, b, m, count, p) && Grown(b, c, n, count, p)
    ensures Grown(a, c, m + n, count, p)
  {
    hide Took, OthersKept;
    TookMore(a, b, c, m, n);
    KeptTwice(a, b, c, count, p);
  }

  /** Keeping all but the newest file keeps all older ones. */
  lemma OlderKept(img: Image, t: Image, n: nat, count: nat, p: nat)
    requires count < NUM_INODES && Took(img, t, n)
    requires OthersKept(img, count, count, t) || OthersKept(img, count + 1, count, t)
    ensures Grown(img, t, n, count, p) && (p < count ==> InodeAt(t, p) == InodeAt(img, p))
  {
    hide Took, Content, FileOk, InodeAt;
    if p < count { assert FileKept(img, t, p); }
  }

  lemma FewerKept(img: Image, t: Image, n: nat, count: nat, p: nat)
    requires count < NUM_INODES && Took(img, t, n) && OthersKept(img, count + 1, p, t)
    ensures Grown(img, t, n, count, p)
  {
    hide Took, FileKept;
  }

  /** "." and ".." in a new directory: they need one data block. */
  method AddDots(d: Disk, inum: nat, parent: nat, ghost tree: Tree, ghost name: Name) returns (ok: bool)
    requires d.Valid() && CanStep(tree, parent, name) && Holds(d.Image(), Making(tree, [])) && inum == |tree| + 1
    modifies d.bytes
    ensures ok <==> FreeBlocks(old(d.Image())) > 0
    ensures if ok then
        && Holds(d.Image(), Making(tree, DotEntries(inum, parent)))
        && Grown(old(d.Image()), d.Image(), 1, inum, parent) && InodeAt(d.Image(), parent) == old(InodeAt(d.Image(), parent))
      else d.Image() == old(d.Image())
  {
    hide Holds, Open, Lookup, TreeOk, SlotsOf, InodeAt, Linked, FreeBlocks, Took, OthersKept, Grown;
    var curr := Dirent(true, DOT, inum);
    var par := Dirent(true, DOTDOT, parent);
    MakingEntry(tree, [], curr);
    MakingEntry(tree, [curr], par);
    assert [] + [curr] == [curr] && [curr] + [par] == DotEntries(inum, parent);
    ghost var a := d.Image();
    ok := Link(d, inum, curr, Making(tree, []));
    if !ok {
      return;
    }
    ghost var b := d.Image();
    OlderKept(a, b, 1, inum, parent);
    ok := Link(d, inum, par, Making(tree, [curr]));
    if !ok {
      return;
    }
    OlderKept(b, d.Image(), 0, inum, parent);
    GrownMore(a, b, d.Image(), 1, 0, inum, parent);
  }

  /** A directory of that name can be made: its inode is there, its parent is in memory. */
  ghost predicate CanMake(img: Image, tree: Tree, inode: Inode, dirInode: Inode, name: Name)
    requires TreeOk(tree)
  {
    && inode.inum == |tree| + 1 && 0 <= dirInode.inum <= |tree| && CanStep(tree, dirInode.inum, name)
    && dirInode == InodeAt(img, dirInode.inum)
  }

  /** How far the making of directory `name` in `p` gets. With enough free data blocks it is
      done. With none the new inode is left without entries; with one, where the parent needs
      a block too, the new directory has its dot entries and its parent counts its link, but
      no entry leads to it. */
  ghost predicate Made(img: Image, tree: Tree, p: nat, name: Name, ok: bool, t: Image)
    requires TreeOk(tree) && |tree| + 1 < NUM_INODES && p <= |tree|
  {
    var need := 1 + Cost(SlotOf(tree, p));
    && (ok <==> need <= FreeBlocks(img))
    && (if ok then ShowsTree(t, tree + [Dir(p, name)])
        else Holds(t, if FreeBlocks(img) == 0 then Making(tree, []) else Linked(tree, p)))
    && Grown(img, t, if ok then need else FreeBlocks(img), |tree| + 1, p)
  }

  /** The part of fs_create for directories: "." and "..", the link count of the parent, and
      the entry in the parent. */
  method MakeDirectory(d: Disk, inode: Inode, dirInode: Inode, name: Name, ghost tree: Tree) returns (ok: bool)
    requires d.Valid() && TreeOk(tree) && Holds(d.Image(), SlotsOf(tree) + [Slot(DIRECTORY_T, [], 1)])
    requires CanMake(d.Image(), tree, inode, dirInode, name)
    modifies d.bytes
    ensures |tree| + 1 < NUM_INODES && Made(old(d.Image()), tree, dirInode.inum, name, ok, d.Image())
  {
    hide Holds, Open, Lookup, TreeOk, SlotsOf, InodeAt, FreeBlocks, Took, OthersKept, Grown, SlotOf, Cost;
    ghost var p, a, count := dirInode.inum, d.Image(), |tree| + 1;
    ok := AddDots(d, inode.inum, dirInode.inum, tree, name);
    if !ok {
      NothingGrown(a, tree, p);
      return;
    }
    ghost var b := d.Image();
    ghost var made := Making(tree, DotEntries(inode.inum, p));
    ok := CountLink(d, dirInode, made, p);
    if !ok {
      return;
    }
    ghost var c := d.Image();
    FewerKept(b, c, 0, count, p);
    GrownMore(a, b, c, 1, 0, count, p);
    GrownFree(a, c, 1, count, p);
    ok := Link(d, dirInode.inum, Dirent(true, name, inode.inum), Linked(tree, p));
    if ok {
      FewerKept(c, d.Image(), Cost(SlotOf(tree, p)), count, p);
      GrownMore(a, c, d.Image(), 1, Cost(SlotOf(tree, p)), count, p);
    }
  }

  lemma GrownFree(img: Image, t: Image, n: nat, count: nat, p: nat)
    requires count <= NUM_INODES && Grown(img, t, n, count, p)
    ensures FreeBlocks(t) + n == FreeBlocks(img)
  {
  }

  /** A disk that has not changed. */
  lemma NothingGrown(img: Image, tree: Tree, p: nat)
    requires TreeOk(tree) && Holds(img, Making(tree, []))
    ensures |tree| + 1 <= NUM_INODES && Grown(img, img, 0, |tree| + 1, p)
  {
    hide Content, FileOk, InodeAt, Disjoint;
    forall j | 0 <= j <= |tree| ensures FileKept(img, img, j) {
      UsedSlotOk(img, j);
    }
  }

  /** What path_lookup_parent finds is what the tree says. */
  lemma ParentFound(img: Image, tree: Tree, cs: seq<Name>, ok: bool, out: Inode, name: Name)
    requires ShowsTree(img, tree) && VolumeOk(img) && cs != [] && Resolves(img, cs, true, [], ok, out, name)
    ensures var p := Follow(tree, 0, Init(cs));
      && (ok <==> p != -1 && IsDirNode(tree, p))
      && (ok ==> out == InodeAt(img, p) && out.inum == p && name == Last(cs) && IsDirectory(img, p) && DirOk(img, p)
                 && Lookup(EntriesOf(img, p), name) == Next(tree, p, name))
  {
    hide FsOk, NodeOk, VolumeOk, Follow, Walk, InodeAt, Next, IsDirNode, IsDirectory, DirOk, EntriesOf, Lookup;
    var p := Follow(tree, 0, Init(cs));
    WalkIsFollow(img, tree, 0, Init(cs));
    if p != -1 {
      SlotOnDisk(img, tree, p);
      if IsDirNode(tree, p) { LookupOnDisk(img, tree, p, Last(cs)); }
    }
  }

  lemma PathFacts(tree: Tree, path: Path, kind: Int32)
    requires TreeOk(tree) && PathOk(path)
    ensures TreeOk(Created(tree, path, kind)) && |SlotsOf(tree)| == |tree| + 1
    ensures forall i :: 0 <= i < |Components(path)| ==> |Components(path)[i]| < MAX_FILENAME_LEN
    ensures Components(path) != [] ==> Fits(Last(Components(path)))
  {
    CreatedOk(tree, path, kind);
    if Components(path) != [] { NewNameOk(path); }
  }

  lemma PlainMade(img: Image, tree: Tree)
    requires TreeOk(tree) && TreeOk(tree + [Plain]) && Holds(img, SlotsOf(tree) + [Slot(FILE_T, [], 1)])
    ensures ShowsTree(img, tree + [Plain])
  {
    PlainSlots(tree);
  }

  /** The directory in which the new name goes. */
  ghost function ParentIn(tree: Tree, path: Path, kind: Int32): nat
    requires TreeOk(tree) && CanCreate(tree, path, kind)
  {
    Follow(tree, 0, Init(Components(path)))
  }

  /** The data blocks that fs_create takes: one for the dot entries of a new directory, and
      one for its entry in the parent if that has none left. */
  ghost function BlocksNeeded(tree: Tree, path: Path, kind: Int32): nat
    requires TreeOk(tree) && CanCreate(tree, path, kind)
  {
    if kind == FILE_T then 0 else 1 + Cost(SlotOf(tree, ParentIn(tree, path, kind)))
  }

  /** What fs_create does to a disk with that tree. What the tree does not allow is refused, and
      nothing changes. What it allows is done when there are enough data blocks; when not,
      the inode stays taken, and the disk is left as the writes before the failed one left
      it. No other file than the parent is touched in any case. */
  ghost predicate CreateDone(img: Image, tree: Tree, path: Path, kind: Int32, ok: bool, t: Image)
    requires TreeOk(tree)
  {
    if !CanCreate(tree, path, kind) then !ok && t == img
    else
      var p, need := ParentIn(tree, path, kind), BlocksNeeded(tree, path, kind);
      && (ok <==> need <= FreeBlocks(img))
      && (if ok then ShowsTree(t, Created(tree, path, kind))
          else Holds(t, if FreeBlocks(img) == 0 then Making(tree, []) else Linked(tree, p)))
      && Grown(img, t, if ok then need else FreeBlocks(img), |tree| + 1, p)
      && (kind == FILE_T ==> InodeAt(t, |tree| + 1).size == 0)
  }

  /** fs_create */
  method FsCreate(d: Disk, path: Path, kind: Int32, ghost tree: Tree) returns (ok: bool)
    requires d.Valid() && ShowsTree(d.Image(), tree) && PathOk(path)
    requires path != [] && path[0] == SLASH ==> Components(path) != []
    modifies d.bytes
    ensures CreateDone(old(d.Image()), tree, path, kind, ok, d.Image())
  {
    hide Holds, TreeOk, PathOk, VolumeOk, Components, Follow, Next, IsDirNode, Resolves, InodeAt, SlotsOf, SlotOf;
    hide DirOk, EntriesOf, Lookup, Blank, Init, Last, IsDirectory, Fits, FreeBlocks, Took, OthersKept, Grown;
    hide Making, Linked;
    if kind != FILE_T && kind != DIRECTORY_T {
      return false;
    }
    ghost var a := d.Image();
    TreeVolumeOk(a, tree);
    PathFacts(tree, path, kind);
    var inode := BlankInode(kind, 1);
    var dirInode, name;
    ok, dirInode, name := PathLookupParent(d, path, []);
    if path != [] && path[0] == SLASH {
      ParentFound(a, tree, Components(path), ok, dirInode, name);
    }
    if !ok {
      return;
    }
    var found := DirLookup(d, dirInode.inum, name);
    if found != -1 {
      return false;
    }
    ok, inode := NewInode(d, inode, SlotsOf(tree));
    if !ok {
      return;
    }
    ghost var b, p := d.Image(), dirInode.inum;
    OlderKept(a, b, 0, |tree| + 1, p);
    GrownFree(a, b, 0, |tree| + 1, p);
    if kind == DIRECTORY_T {
      MakingFacts(tree, p, name);
      ok := MakeDirectory(d, inode, dirInode, name, tree);
      MadeMore(a, b, d.Image(), tree, p, name, ok);
    } else {
      PlainMade(b, tree);
    }
  }

  /** Taking the inode before changes nothing about how far the making gets. */
  lemma MadeMore(a: Image, b: Image, c: Image, tree: Tree, p: nat, name: Name, ok: bool)
    requires TreeOk(tree) && |tree| + 1 < NUM_INODES && p <= |tree|
    requires Grown(a, b, 0, |tree| + 1, p) && Made(b, tree, p, name, ok, c)
    ensures Made(a, tree, p, name, ok, c)
  {
    hide Holds, ShowsTree, Making, Linked, SlotOf, OthersKept, FreeBlocks, Grown, Cost;
    GrownFree(a, b, 0, |tree| + 1, p);
    GrownMore(a, b, c, 0, if ok then 1 + Cost(SlotOf(tree, p)) else FreeBlocks(b), |tree| + 1, p);
  }

  // ----- Volumes on which only directories hold data

  /** There the data blocks never run out. */
  lemma RoomEnough(img: Image, tree: Tree)
    requires HoldsTree(img, tree)
    ensures FreeBlocks(img) >= 30
  {
    hide Holds, FreeBlocks, SlotsOf, BlockSum;
    RoomForever(tree);
    FrontFree(img, BlockSum(SlotsOf(tree)));
  }

  /** The blocks of the directories grow by those that fs_create takes. */
  lemma CreatedBlocks(tree: Tree, path: Path, kind: Int32)
    requires TreeOk(tree) && PathOk(path) && CanCreate(tree, path, kind)
    ensures TreeOk(Created(tree, path, kind))
    ensures BlockSum(SlotsOf(Created(tree, path, kind))) == BlockSum(SlotsOf(tree)) + BlocksNeeded(tree, path, kind)
  {
    CreatedOk(tree, path, kind);
    if kind == FILE_T {
      PlainSlots(tree);
      BlockSumAppend(SlotsOf(tree), Slot(FILE_T, [], 1));
    } else {
      DirBlocks(tree, ParentIn(tree, path, kind), Last(Components(path)));
    }
  }

  lemma DirBlocks(tree: Tree, p: nat, name: Name)
    requires TreeOk(tree) && TreeOk(tree + [Dir(p, name)]) && p <= |tree|
    ensures BlockSum(SlotsOf(tree + [Dir(p, name)])) == BlockSum(SlotsOf(tree)) + 1 + Cost(SlotOf(tree, p))
  {
    DirSlots(tree, p, name);
    var n, slots := |tree| + 1, SlotsOf(tree);
    var s := Slot(slots[p].kind, slots[p].entries + [Dirent(true, name, n)], slots[p].links + 1);
    var added := Slot(DIRECTORY_T, DotEntries(n, p), 1);
    assert slots[p] == SlotOf(tree, p);
    hide SlotsOf, SlotOf, TreeOk;
    BlockSumUpdate(slots, p, s);
    BlockSumAppend(slots[p := s], added);
    RecordBlocks(|slots[p].entries|);
    BlocksGrow(|slots[p].entries|);
    RecordBlocks(2);
  }

  /** So fs_create succeeds exactly when the tree allows it, and then the disk holds exactly
      the tree with the new node; otherwise nothing changes. */
  lemma CreateHolds(img: Image, tree: Tree, path: Path, kind: Int32, ok: bool, t: Image)
    requires HoldsTree(img, tree) && PathOk(path) && CreateDone(img, tree, path, kind, ok, t)
    ensures ok <==> CanCreate(tree, path, kind)
    ensures TreeOk(Created(tree, path, kind)) && HoldsTree(t, Created(tree, path, kind))
    ensures !ok ==> t == img
  {
    hide Holds, FreeBlocks, SlotsOf, SlotOf, InodeAt, Front, PathOk, Components, Follow;
    if CanCreate(tree, path, kind) {
      RoomEnough(img, tree);
      CreatedBlocks(tree, path, kind);
      StaysPlain(img, tree, path, kind, t);
    }
  }

  lemma StaysPlain(img: Image, tree: Tree, path: Path, kind: Int32, t: Image)
    requires TreeOk(tree) && PathOk(path) && CanCreate(tree, path, kind) && PlainEmpty(img, tree)
    requires OthersKept(img, |tree| + 1, ParentIn(tree, path, kind), t)
    requires kind == FILE_T ==> InodeAt(t, |tree| + 1).size == 0
    ensures TreeOk(Created(tree, path, kind)) && PlainEmpty(t, Created(tree, path, kind))
  {
    hide InodeAt, PathOk, TreeOk, CanCreate, Created, Content, SlotOk, ParentIn;
    CreatedOk(tree, path, kind);
    OneNodeMore(tree, path, kind);
    var bigger := Created(tree, path, kind);
    forall i | 0 <= i <= |bigger| && !IsDirNode(bigger, i) ensures InodeAt(t, i).size == 0 {
      if i <= |tree| { assert FileKept(img, t, i); }
    }
  }

  lemma OneNodeMore(tree: Tree, path: Path, kind: Int32)
    requires TreeOk(tree) && CanCreate(tree, path, kind)
    ensures IsDirNode(tree, ParentIn(tree, path, kind))
    ensures var bigger := Created(tree, path, kind);
      && |bigger| == |tree| + 1 && (IsDirNode(bigger, |bigger|) <==> kind != FILE_T)
      && forall i :: 0 <= i <= |tree| ==> (IsDirNode(bigger, i) <==> IsDirNode(tree, i))
  {
  }
}
