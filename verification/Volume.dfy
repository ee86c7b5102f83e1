/** What a disk holds, without bytes: its inodes in order of allocation, each with the
    entries of its directory. */
module Volumes {
  import Division
  import opened Disks
  import opened Bitmaps
  import opened Records
  import opened Layout
  import opened FileSpec
  import opened Ownership
  import opened DirSpec
  import opened Directories

  /** An allocated inode; a plain file has no entries. */
  datatype Slot = Slot(kind: Int32, entries: seq<Dirent>, links: int)

  function BlocksOf(s: Slot): nat {
    BlocksFor(RECORD_SIZE * |s.entries|)
  }

  function BlockSum(slots: seq<Slot>): nat
    decreases slots
  {
    if slots == [] then 0 else BlocksOf(slots[0]) + BlockSum(slots[1..])
  }

  lemma {:induction false} BlockSumAppend(slots: seq<Slot>, s: Slot)
    ensures BlockSum(slots + [s]) == BlockSum(slots) + BlocksOf(s)
    decreases slots
  {
    if slots == [] {
      assert [] + [s] == [s];
    } else {
      assert (slots + [s])[1..] == slots[1..] + [s];
      BlockSumAppend(slots[1..], s);
    }
  }

  lemma {:induction false} BlockSumUpdate(slots: seq<Slot>, i: nat, s: Slot)
    requires i < |slots|
    ensures BlockSum(slots[i := s]) == BlockSum(slots) - BlocksOf(slots[i]) + BlocksOf(s)
    decreases slots
  {
    if i == 0 {
      assert slots[0 := s][1..] == slots[1..];
    } else {
      assert slots[i := s][1..] == slots[1..][i - 1 := s];
      BlockSumUpdate(slots[1..], i - 1, s);
    }
  }

  /** Slot `i` of the inode table, and the directory behind it; what a plain file holds is left
      open. */
  ghost predicate HoldsSlot(img: Image, i: nat, s: Slot)
    requires i < NUM_INODES
  {
    && InodeAt(img, i).kind == s.kind && InodeAt(img, i).numLinks == s.links
    && (s.kind == DIRECTORY_T ==> DirOk(img, i) && EntriesOf(img, i) == s.entries)
  }

  /** Inodes have been handed out from the front, every block has one owner, and each slot
      holds what it should. */
  ghost predicate Holds(img: Image, slots: seq<Slot>) {
    && |slots| <= NUM_INODES
    && FsOk(img)
    && (forall i :: 0 <= i < NUM_INODES ==> (InodeUsed(img, i) <==> i < |slots|))
    && (forall i :: |slots| <= i < NUM_INODES ==> InodeAt(img, i).kind == UNUSED_T)
    && forall i :: 0 <= i < |slots| ==> HoldsSlot(img, i, slots[i])
  }

  // ----- Free data blocks

  ghost function FreeSet(img: Image): set<nat> {
    set k: nat | k < NUM_DATA_BLOCKS && !DataUsed(img, k)
  }

  ghost function FreeBlocks(img: Image): nat {
    |FreeSet(img)|
  }

  /** The data bitmap has `used` bits set, at the front. */
  ghost predicate Front(img: Image, used: nat) {
    used <= NUM_DATA_BLOCKS && forall k :: 0 <= k < NUM_DATA_BLOCKS ==> (DataUsed(img, k) <==> k < used)
  }

  /** From `img` to `t` the `n` least free data blocks have been taken. */
  ghost predicate Took(img: Image, t: Image, n: nat) {
    FreeBlocks(t) + n == FreeBlocks(img) && forall used: nat :: Front(img, used) ==> Front(t, used + n)
  }

  lemma TookMore(a: Image, b: Image, c: Image, m: nat, n: nat)
    requires Took(a, b, m) && Took(b, c, n)
    ensures Took(a, c, m + n)
  {
    hide Front, FreeBlocks;
    forall used: nat | Front(a, used) ensures Front(c, used + (m + n)) {
      assert Front(b, used + m);
    }
  }

  lemma TookNone(img: Image, t: Image)
    requires forall k :: 0 <= k < NUM_DATA_BLOCKS ==> (DataUsed(t, k) <==> DataUsed(img, k))
    ensures Took(img, t, 0)
  {
    assert FreeSet(t) == FreeSet(img);
    forall used: nat | Front(img, used) ensures Front(t, used + 0) {
    }
  }

  lemma SameDataTook(img: Image, t: Image)
    requires SameData(img, t)
    ensures Took(img, t, 0)
  {
    hide Took;
    assert forall k :: 0 <= k < NUM_DATA_BLOCKS ==> DataUsed(t, k) == DataUsed(img, k);
    TookNone(img, t);
  }

  lemma FreeDataIs(img: Image)
    ensures FreeData(img) == -1 <==> FreeBlocks(img) == 0
    ensures FreeData(img) != -1 ==> FreeData(img) in FreeSet(img) && forall k :: 0 <= k < FreeData(img) ==> DataUsed(img, k)
  {
    var f := FreeData(img);
    assert LeastFree(img[DATA_BITMAP_BLOCK], NUM_DATA_BLOCKS, f);
    if f == -1 {
      assert FreeSet(img) == {};
    } else {
      assert f in FreeSet(img);
    }
  }

  /** One block more is taken, the least free one. */
  lemma TookOne(img: Image, t: Image)
    requires FreeData(img) != -1
    requires forall k :: 0 <= k < NUM_DATA_BLOCKS ==> (DataUsed(t, k) <==> DataUsed(img, k) || k == FreeData(img))
    ensures Took(img, t, 1)
  {
    hide FreeData;
    var f := FreeData(img);
    FreeDataIs(img);
    assert FreeSet(t) == FreeSet(img) - {f};
    forall used: nat | Front(img, used) ensures Front(t, used + 1) {
      assert used < NUM_DATA_BLOCKS ==> !DataUsed(img, used);
      assert used == f;
    }
  }

  function Interval(lo: nat, hi: nat): (r: set<nat>)
    requires lo <= hi
    ensures |r| == hi - lo && (forall k :: k in r <==> lo <= k < hi)
    decreases hi - lo
  {
    if lo == hi then {} else Interval(lo, hi - 1) + {hi - 1}
  }

  lemma FrontFree(img: Image, used: nat)
    requires Front(img, used)
    ensures FreeBlocks(img) == NUM_DATA_BLOCKS - used
  {
    assert FreeSet(img) == Interval(used, NUM_DATA_BLOCKS);
  }

  // ----- Files that are not touched

  /** File `j` has kept its inode and every byte. */
  ghost predicate FileKept(img: Image, t: Image, j: nat)
    requires j < NUM_INODES
  {
    && InodeAt(t, j) == InodeAt(img, j) && SlotOk(img, j) && SlotOk(t, j)
    && Content(FileOf(t, j)) == Content(FileOf(img, j))
  }

  /** Of the first `n` files all but `i` have been kept. */
  ghost predicate OthersKept(img: Image, n: nat, i: nat, t: Image)
    requires n <= NUM_INODES
  {
    forall j :: 0 <= j < n && j != i ==> FileKept(img, t, j)
  }

  lemma KeptTwice(a: Image, b: Image, c: Image, n: nat, i: nat)
    requires n <= NUM_INODES && OthersKept(a, n, i, b) && OthersKept(b, n, i, c)
    ensures OthersKept(a, n, i, c)
  {
    hide Content, FileOk, InodeAt;
    forall j | 0 <= j < n && j != i ensures FileKept(a, c, j) {
      assert FileKept(a, b, j) && FileKept(b, c, j);
    }
  }

  /** What a file that was kept held, it holds. */
  lemma KeptHolds(img: Image, t: Image, j: nat, s: Slot)
    requires j < NUM_INODES && FileKept(img, t, j) && HoldsSlot(img, j, s)
    ensures HoldsSlot(t, j, s)
  {
    hide FileOk, Content, InodeAt;
    if s.kind == DIRECTORY_T { assert EntriesOf(t, j) == EntriesOf(img, j); }
  }

  /** A change that leaves a slot, the data blocks and their bitmap alone keeps the file. */
  lemma SlotKept(img: Image, t: Image, j: nat)
    requires j < NUM_INODES && SlotOk(img, j) && InodeAt(t, j) == InodeAt(img, j) && SameData(img, t)
    ensures FileKept(img, t, j)
  {
    hide FileOk, Content, InodeAt;
    SameFile(FileOf(img, j), FileOf(t, j));
  }

  /** The data blocks and their bitmap are the same. */
  ghost predicate SameData(img: Image, t: Image) {
    forall b :: DATA_BITMAP_BLOCK == b || DATA_REGION_START <= b < NUM_BLOCKS ==> t[b] == img[b]
  }

  // ----- Appending one record

  lemma AppendRecord(content: seq<Byte>, record: seq<Byte>)
    requires |content| % RECORD_SIZE == 0 && |record| == RECORD_SIZE
    ensures |Overwrite(content, |content|, record)| == |content| + RECORD_SIZE
    ensures Entries(Overwrite(content, |content|, record)) == Entries(content) + [DecodeDirent(record)]
  {
    var w := Overwrite(content, |content|, record);
    assert w == content + record;
    forall j | 0 <= j < |Entries(w)| ensures Entries(w)[j] == (Entries(content) + [DecodeDirent(record)])[j] {
      if j < |Entries(content)| {
        assert w[j * RECORD_SIZE..j * RECORD_SIZE + RECORD_SIZE] == content[j * RECORD_SIZE..j * RECORD_SIZE + RECORD_SIZE];
      } else {
        assert w[j * RECORD_SIZE..j * RECORD_SIZE + RECORD_SIZE] == record;
      }
    }
  }

  /** One record at the end of a directory is one chunk: it is written, in a new block if the
      old ones are full, or nothing happens at all. */
  lemma RecordIsOneChunk(s: FileState, record: seq<Byte>)
    requires DirFile(s) && 0 <= s.ino.inum < NUM_INODES && |record| == RECORD_SIZE
    requires s.ino.size + RECORD_SIZE <= MAX_FILE_SIZE
    ensures var (n, t) := FileWrite(s, s.ino.size, record);
      var full := s.ino.size % BLOCK_SIZE == 0;
      && (n == RECORD_SIZE <==> !full || FreeData(s.img) != -1)
      && (n != RECORD_SIZE ==> n == -1 && t == s)
      && (n == RECORD_SIZE ==>
            t.ino.addrs == if full then s.ino.addrs[s.ino.size / BLOCK_SIZE := FreeData(s.img)] else s.ino.addrs)
  {
    var size := s.ino.size;
    AcceptsBounds(size, size, RECORD_SIZE);
    ChunkOk(s, BlocksFor(size), size, record);
    assert ChunkSize(size, RECORD_SIZE) == RECORD_SIZE;
    assert record[..RECORD_SIZE] == record && record[RECORD_SIZE..] == [];
    var (ok, t) := WriteChunk(s, size, record);
    assert WriteAll(s, size, record) == if ok then WriteAll(t, size + RECORD_SIZE, []) else (false, t);
  }

  /** Sixteen records fill a block. */
  lemma RecordBlocks(n: nat)
    ensures BlocksFor(RECORD_SIZE * n) == (n + 15) / 16
    ensures RECORD_SIZE * n % BLOCK_SIZE == 0 <==> n % 16 == 0
  {
    var q, r := n / 16, n % 16;
    var k := if r == 0 then q else q + 1;
    assert n == 16 * q + r;
    Division.Unique(RECORD_SIZE * n + BLOCK_SIZE - 1, BLOCK_SIZE, k);
    Division.Unique(n + 15, 16, k);
    Division.Unique(RECORD_SIZE * n, BLOCK_SIZE, q);
  }

  lemma BlocksGrow(n: nat)
    ensures BlocksFor(RECORD_SIZE * (n + 1)) ==
      BlocksFor(RECORD_SIZE * n) + (if RECORD_SIZE * n % BLOCK_SIZE == 0 then 1 else 0)
  {
    RecordBlocks(n);
    RecordBlocks(n + 1);
  }

  // ----- What the operations do to a volume

  /** The least free slot of a bitmap taken from the front. */
  lemma LeastFreeAtFront(b: Block, limit: nat, used: nat, r: int)
    requires used <= limit <= SCANNED
    requires forall i :: 0 <= i < limit ==> (Taken(b, i) <==> i < used)
    requires LeastFree(b, limit, r)
    ensures r == if used < limit then used else -1
  {
    assert used < limit ==> !Taken(b, used);
  }

  /** An inode with no blocks and nothing in it. */
  predicate Blank(i: Inode) {
    i.size == 0 && forall k :: 0 <= k < NDIRECT ==> i.addrs[k] == -1
  }

  /** The disk after inode_alloc has put `ino` into slot `n`. */
  function WithNew(img: Image, n: nat, ino: Inode): Image
    requires n < NUM_INODES
  {
    WithInode(img, n, ino)[INODE_BITMAP_BLOCK := Take(img[INODE_BITMAP_BLOCK], n)]
  }

  lemma BlankSlot(img: Image, i: nat, ino: Inode)
    requires i < NUM_INODES && InodeAt(img, i) == ino && Blank(ino) && ino.inum == i
    ensures SlotOk(img, i) && HoldsSlot(img, i, Slot(ino.kind, [], ino.numLinks))
  {
    assert FileOk(FileOf(img, i));
  }

  lemma WithNewFacts(img: Image, n: nat, ino: Inode, i: nat)
    requires n < NUM_INODES && i < NUM_INODES
    ensures var t := WithNew(img, n, ino);
      && (InodeUsed(t, i) <==> i == n || InodeUsed(img, i))
      && InodeAt(t, i) == (if i == n then ino else InodeAt(img, i)) && SameData(img, t)
  {
    hide InodeAt, WithInode, Taken, Take;
    TakeAddsOne(img[INODE_BITMAP_BLOCK], n, i);
    WithInodeAt(img, n, ino, i);
    WithInodeElsewhere(img, n, ino);
    BitmapElsewhere(WithInode(img, n, ino), Take(img[INODE_BITMAP_BLOCK], n), i);
  }

  /** The inode table does not reach into the bitmaps and the data region. */
  lemma WithInodeElsewhere(img: Image, n: nat, ino: Inode)
    requires n < NUM_INODES
    ensures var t := WithInode(img, n, ino);
      forall b :: 0 <= b < INODE_TABLE_START || DATA_REGION_START <= b < NUM_BLOCKS ==> t[b] == img[b]
  {
    hide EncodeInode, Splice;
  }

  lemma BitmapElsewhere(img: Image, b: Block, i: nat)
    requires i < NUM_INODES
    ensures InodeAt(img[INODE_BITMAP_BLOCK := b], i) == InodeAt(img, i)
  {
    hide DecodeInode;
  }

  /** inode_alloc appends a slot. */
  lemma AllocAppends(img: Image, slots: seq<Slot>, ino: Inode)
    requires Holds(img, slots) && |slots| < NUM_INODES && Blank(ino) && ino.inum == |slots|
    ensures var t := WithNew(img, |slots|, ino);
      && Holds(t, slots + [Slot(ino.kind, [], ino.numLinks)])
      && SameData(img, t) && OthersKept(img, |slots|, |slots|, t) && InodeAt(t, |slots|) == ino
  {
    hide InodeAt, HoldsSlot, SlotOk, Disjoint, WithNew, InodeUsed, FsOk, FileKept, SameData, Blank;
    var n := |slots|;
    var t := WithNew(img, n, ino);
    var all := slots + [Slot(ino.kind, [], ino.numLinks)];
    forall i | 0 <= i < NUM_INODES
      ensures InodeUsed(t, i) <==> i < |all|
      ensures i != n ==> InodeAt(t, i) == InodeAt(img, i)
      ensures i < n ==> FileKept(img, t, i)
      ensures i <= n ==> SlotOk(t, i) && HoldsSlot(t, i, all[i])
    {
      WithNewFacts(img, n, ino, i);
      if i == n {
        BlankSlot(t, n, ino);
      } else if i < n {
        UsedSlotOk(img, i);
        SlotKept(img, t, i);
        KeptHolds(img, t, i, slots[i]);
        KeptOk(img, t, i);
      }
    }
    WithNewFacts(img, n, ino, n);
    NewSlotOk(img, t, n);
  }

  lemma UsedSlotOk(img: Image, i: nat)
    requires FsOk(img) && i < NUM_INODES && InodeUsed(img, i)
    ensures SlotOk(img, i)
  {
  }

  lemma KeptOk(img: Image, t: Image, j: nat)
    requires j < NUM_INODES && FileKept(img, t, j)
    ensures SlotOk(t, j)
  {
  }

  lemma NewSlotOk(img: Image, t: Image, n: nat)
    requires FsOk(img) && n < NUM_INODES && Blank(InodeAt(t, n))
    requires forall i :: 0 <= i < NUM_INODES && InodeUsed(t, i) ==> SlotOk(t, i)
    requires forall i :: 0 <= i < NUM_INODES && i != n && InodeUsed(t, i) ==>
               InodeUsed(img, i) && InodeAt(t, i) == InodeAt(img, i)
    ensures FsOk(t)
  {
    forall i, j | 0 <= i < NUM_INODES && 0 <= j < NUM_INODES && i != j && InodeUsed(t, i) && InodeUsed(t, j)
      ensures Disjoint(InodeAt(t, i), InodeAt(t, j))
    {
      if i != n && j != n { assert Disjoint(InodeAt(img, i), InodeAt(img, j)); }
    }
  }

  lemma LinksFacts(img: Image, i: nat, links: Int32, j: nat)
    requires i < NUM_INODES && j < NUM_INODES
    ensures var u := InodeAt(img, i).(numLinks := links); var t := WithInode(img, i, u);
      && (InodeUsed(t, j) <==> InodeUsed(img, j))
      && InodeAt(t, j) == (if j == i then u else InodeAt(img, j)) && SameData(img, t)
  {
    hide InodeAt, EncodeInode, Splice, Taken;
    WithInodeAt(img, i, InodeAt(img, i).(numLinks := links), j);
  }

  lemma LinksOwnSlot(img: Image, t: Image, i: nat, s: Slot, links: Int32)
    requires i < NUM_INODES && SlotOk(img, i) && HoldsSlot(img, i, s)
    requires InodeAt(t, i) == InodeAt(img, i).(numLinks := links) && SameData(img, t)
    ensures SlotOk(t, i) && HoldsSlot(t, i, s.(links := links))
  {
    hide FileOk, Content, InodeAt, Entries;
    SameFile(FileOf(img, i), FileOf(t, i));
  }

  /** inode_update with a new link count changes that count and nothing else. */
  lemma LinksUpdate(img: Image, slots: seq<Slot>, i: nat, links: Int32)
    requires Holds(img, slots) && i < |slots|
    ensures var t := WithInode(img, i, InodeAt(img, i).(numLinks := links));
      Holds(t, slots[i := slots[i].(links := links)]) && SameData(img, t) && OthersKept(img, |slots|, i, t)
  {
    hide InodeAt, HoldsSlot, SlotOk, Disjoint, WithInode, InodeUsed, FsOk, FileKept, SameData;
    var t := WithInode(img, i, InodeAt(img, i).(numLinks := links));
    var all := slots[i := slots[i].(links := links)];
    forall j | 0 <= j < NUM_INODES
      ensures InodeUsed(t, j) <==> j < |all|
      ensures InodeAt(t, j).addrs == InodeAt(img, j).addrs
      ensures j >= |slots| ==> InodeAt(t, j) == InodeAt(img, j)
      ensures j < |slots| && j != i ==> FileKept(img, t, j)
      ensures j < |slots| ==> SlotOk(t, j) && HoldsSlot(t, j, all[j])
    {
      LinksFacts(img, i, links, j);
      if j < |slots| {
        UsedSlotOk(img, j);
        if j == i {
          LinksOwnSlot(img, t, i, slots[i], links);
        } else {
          SlotKept(img, t, j);
          KeptHolds(img, t, j, slots[j]);
          KeptOk(img, t, j);
        }
      }
    }
    LinksFacts(img, i, links, i);
    SamePointersOk(img, t);
  }

  lemma SamePointersOk(img: Image, t: Image)
    requires FsOk(img)
    requires forall j :: 0 <= j < NUM_INODES ==>
               (InodeUsed(t, j) <==> InodeUsed(img, j)) && InodeAt(t, j).addrs == InodeAt(img, j).addrs
    requires forall j :: 0 <= j < NUM_INODES && InodeUsed(t, j) ==> SlotOk(t, j)
    ensures FsOk(t)
  {
    hide InodeAt, SlotOk, InodeUsed;
    forall j, k | 0 <= j < NUM_INODES && 0 <= k < NUM_INODES && j != k && InodeUsed(t, j) && InodeUsed(t, k)
      ensures Disjoint(InodeAt(t, j), InodeAt(t, k))
    {
      assert Disjoint(InodeAt(img, j), InodeAt(img, k));
    }
  }

  lemma SuperblockFacts(img: Image, b: Block, j: nat)
    requires j < NUM_INODES
    ensures var t := img[0 := b];
      (InodeUsed(t, j) <==> InodeUsed(img, j)) && InodeAt(t, j) == InodeAt(img, j) && SameData(img, t)
  {
    assert InodeBlock(j) > 0;
  }

  /** The superblock is no part of what a volume holds. */
  lemma SuperblockUpdate(img: Image, slots: seq<Slot>, b: Block)
    requires Holds(img, slots)
    ensures Holds(img[0 := b], slots) && SameData(img, img[0 := b])
  {
    hide InodeAt, HoldsSlot, SlotOk, Disjoint, InodeUsed, FsOk, FileKept, SameData;
    var t := img[0 := b];
    forall j | 0 <= j < NUM_INODES
      ensures InodeUsed(t, j) <==> InodeUsed(img, j)
      ensures InodeAt(t, j) == InodeAt(img, j)
      ensures j < |slots| ==> SlotOk(t, j) && HoldsSlot(t, j, slots[j])
    {
      SuperblockFacts(img, b, j);
      if j < |slots| {
        UsedSlotOk(img, j);
        SlotKept(img, t, j);
        KeptHolds(img, t, j, slots[j]);
        KeptOk(img, t, j);
      }
    }
    SuperblockFacts(img, b, 0);
    SamePointersOk(img, t);
  }

  // ----- Writing to one file of a volume

  /** Only one slot of the inode table can change in a write. */
  lemma OtherSlotsStay(img: Image, i: nat, offset: UInt, record: seq<Byte>)
    requires FsOk(img) && i < NUM_INODES && InodeUsed(img, i)
    requires |record| < UINT_RANGE
    ensures var t := FileWrite(FileOf(img, i), offset, record).1.img;
      forall j :: 0 <= j < NUM_INODES ==>
        (InodeUsed(t, j) <==> InodeUsed(img, j)) && (j != i ==> InodeAt(t, j) == InodeAt(img, j))
  {
    UsedSlotOk(img, i);
    WriteTouches(FileOf(img, i), offset, record);
    hide FileWrite, FileOk, InodeAt, FsOk;
  }

  /** Every other file is kept. */
  lemma OtherFileStays(img: Image, i: nat, offset: UInt, buf: seq<Byte>, j: nat)
    requires FsOk(img) && i < NUM_INODES && j < NUM_INODES && i != j && InodeUsed(img, i) && InodeUsed(img, j)
    requires |buf| < UINT_RANGE
    ensures FileKept(img, FileWrite(FileOf(img, i), offset, buf).1.img, j)
  {
    hide FileWrite, FileOk, Disjoint, Content, FsOk, InodeUsed, InodeAt;
    UsedSlotOk(img, j);
    WriteKeepsOthers(img, i, offset, buf, j);
  }

  /** A write to one file, failed or not, keeps all that the volume holds, provided that the
      slot of that file holds what it should. */
  lemma WriteHolds(img: Image, slots: seq<Slot>, i: nat, offset: UInt, buf: seq<Byte>, s: Slot)
    requires Holds(img, slots) && i < |slots| && |buf| < UINT_RANGE
    requires HoldsSlot(FileWrite(FileOf(img, i), offset, buf).1.img, i, s)
    ensures var t := FileWrite(FileOf(img, i), offset, buf).1.img;
      Holds(t, slots[i := s]) && OthersKept(img, |slots|, i, t)
  {
    hide FileWrite, FsOk, InodeAt, FileKept, HoldsSlot, InodeUsed;
    var t := FileWrite(FileOf(img, i), offset, buf).1.img;
    WriteKeepsFsOk(img, i, offset, buf);
    OtherSlotsStay(img, i, offset, buf);
    forall j | 0 <= j < |slots| && j != i ensures FileKept(img, t, j) && HoldsSlot(t, j, slots[j]) {
      OtherFileStays(img, i, offset, buf, j);
      KeptHolds(img, t, j, slots[j]);
    }
  }

  // ----- Adding an entry

  /** A directory that is written keeps its place; its entries gain one. */
  lemma AppendOwnSlot(img: Image, i: nat, s: Slot, e: Dirent, t: FileState)
    requires i < NUM_INODES && SlotOk(img, i) && HoldsSlot(img, i, s) && Fits(e.name) && s.kind == DIRECTORY_T
    requires RECORD_SIZE * (|s.entries| + 1) <= MAX_FILE_SIZE
    requires (RECORD_SIZE, t) == FileWrite(FileOf(img, i), RECORD_SIZE * |s.entries|, EncodeDirent(e))
    ensures SlotOk(t.img, i) && HoldsSlot(t.img, i, s.(entries := s.entries + [e]))
  {
    var f := FileOf(img, i);
    WriteSplices(f, RECORD_SIZE * |s.entries|, EncodeDirent(e));
    DirentRoundTrip(e);
    AppendRecord(Content(f), EncodeDirent(e));
    assert InodeAt(t.img, i) == t.ino;
    assert Content(FileOf(t.img, i)) == Overwrite(Content(f), f.ino.size, EncodeDirent(e));
  }

  /** The blocks taken after a write are those taken before and those the file has now. */
  lemma BlocksTaken(s: FileState, t: FileState, p: nat, full: bool)
    requires Touched(s, s) && Touched(s, t) && p < NDIRECT && (full ==> 0 <= FreeData(s.img) < NUM_DATA_BLOCKS)
    requires t.ino.addrs == if full then s.ino.addrs[p := FreeData(s.img)] else s.ino.addrs
    ensures forall k :: 0 <= k < NUM_DATA_BLOCKS ==>
      (DataUsed(t.img, k) <==> DataUsed(s.img, k) || (full && k == FreeData(s.img)))
  {
    hide FreeData;
    forall k | 0 <= k < NUM_DATA_BLOCKS
      ensures DataUsed(t.img, k) <==> DataUsed(s.img, k) || (full && k == FreeData(s.img))
    {
      assert full ==> t.ino.addrs[p] == FreeData(s.img);
      assert k in s.ino.addrs ==> DataUsed(s.img, k);
      assert k in t.ino.addrs ==> k in s.ino.addrs || (full && k == FreeData(s.img));
    }
  }

  /** The data blocks that one more entry needs. */
  function Cost(s: Slot): (r: nat)
    ensures r <= 1
  {
    if |s.entries| % 16 == 0 then 1 else 0
  }

  /** One more entry takes a block exactly when the old ones are full, and fails, without a
      trace, exactly when there is none. */
  lemma AppendBlocks(img: Image, i: nat, s: Slot, record: seq<Byte>)
    requires FsOk(img) && i < NUM_INODES && InodeUsed(img, i) && HoldsSlot(img, i, s) && s.kind == DIRECTORY_T
    requires RECORD_SIZE * (|s.entries| + 1) <= MAX_FILE_SIZE && |record| == RECORD_SIZE
    ensures var (n, t) := FileWrite(FileOf(img, i), RECORD_SIZE * |s.entries|, record);
      && (n == RECORD_SIZE <==> Cost(s) <= FreeBlocks(img))
      && (if n == RECORD_SIZE then Took(img, t.img, Cost(s)) else t.img == img)
  {
    var f := FileOf(img, i);
    UsedSlotOk(img, i);
    RecordBlocks(|s.entries|);
    RecordIsOneChunk(f, record);
    WriteTouches(f, f.ino.size, record);
    GrowsSelf(f, BlocksFor(f.ino.size));
    GrowsTouches(f, f);
    FreeDataIs(img);
    hide FileWrite, FileOk, FreeData, Touched, Grows, InodeAt, FsOk, InodeUsed, FreeBlocks, Took, DirOk, EntriesOf;
    var (n, t) := FileWrite(f, f.ino.size, record);
    if n == RECORD_SIZE {
      BlocksTaken(f, t, f.ino.size / BLOCK_SIZE, f.ino.size % BLOCK_SIZE == 0);
      if Cost(s) == 1 { TookOne(img, t.img); } else { TookNone(img, t.img); }
    }
  }

  /** dir_add of an entry appends it to its directory, and leaves the rest of the volume. It
      fails, and then changes nothing, exactly when it needs a data block and there is none. */
  lemma AddEntry(img: Image, slots: seq<Slot>, i: nat, e: Dirent, ok: bool, t: Image)
    requires Holds(img, slots) && i < |slots| && Fits(e.name) && slots[i].kind == DIRECTORY_T
    requires RECORD_SIZE * (|slots[i].entries| + 1) <= MAX_FILE_SIZE
    requires Wrote64(FileOf(img, i), RECORD_SIZE * |slots[i].entries|, EncodeDirent(e), ok, t)
    ensures ok <==> Cost(slots[i]) <= FreeBlocks(img)
    ensures if ok then
        && Holds(t, slots[i := slots[i].(entries := slots[i].entries + [e])])
        && Took(img, t, Cost(slots[i])) && OthersKept(img, |slots|, i, t)
      else t == img
  {
    hide FileWrite, FsOk, InodeAt, EncodeDirent, InodeUsed, HoldsSlot, SlotOk, Took, FreeBlocks, OthersKept;
    var size := RECORD_SIZE * |slots[i].entries|;
    var s := slots[i].(entries := slots[i].entries + [e]);
    assert HoldsSlot(img, i, slots[i]);
    UsedSlotOk(img, i);
    AppendBlocks(img, i, slots[i], EncodeDirent(e));
    if ok {
      AppendOwnSlot(img, i, slots[i], e, FileWrite(FileOf(img, i), size, EncodeDirent(e)).1);
      WriteHolds(img, slots, i, size, EncodeDirent(e), s);
    }
  }
}
