/** The layout of src/fs/fs.h and src/fs/inode.h: superblock, two bitmaps, five blocks of
    inodes, and the data blocks. */
module Layout {
  import opened Disks
  import opened Bitmaps
  import opened Records

  const INODE_BITMAP_BLOCK: nat := 1
  const DATA_BITMAP_BLOCK: nat := 2
  const INODE_TABLE_START: nat := 3
  const INODES_PER_BLOCK: nat := 16
  const DATA_REGION_START: nat := 8
  const NUM_INODES: nat := 80
  const NUM_DATA_BLOCKS: nat := 120

  predicate InodeUsed(img: Image, i: nat)
    requires i < NUM_INODES
  {
    Taken(img[INODE_BITMAP_BLOCK], i)
  }

  predicate DataUsed(img: Image, k: nat)
    requires k < NUM_DATA_BLOCKS
  {
    Taken(img[DATA_BITMAP_BLOCK], k)
  }

  /** IBLOCK */
  function InodeBlock(i: nat): nat
    requires i < NUM_INODES
  {
    i / INODES_PER_BLOCK + INODE_TABLE_START
  }

  /** IOFFSET */
  function InodeOffset(i: nat): (r: nat)
    ensures r + RECORD_SIZE <= BLOCK_SIZE
  {
    i % INODES_PER_BLOCK * RECORD_SIZE
  }

  /** The inode in slot `i` of the inode table. */
  function InodeAt(img: Image, i: nat): Inode
    requires i < NUM_INODES
  {
    DecodeInode(img[InodeBlock(i)][InodeOffset(i)..InodeOffset(i) + RECORD_SIZE])
  }

  function WithInode(img: Image, i: nat, ino: Inode): Image
    requires i < NUM_INODES
  {
    img[InodeBlock(i) := Splice(img[InodeBlock(i)], InodeOffset(i), EncodeInode(ino))]
  }

  function DataBlock(img: Image, k: nat): Block
    requires k < NUM_DATA_BLOCKS
  {
    img[k + DATA_REGION_START]
  }

  function WithData(img: Image, k: nat, block: Block): Image
    requires k < NUM_DATA_BLOCKS
  {
    img[k + DATA_REGION_START := block]
  }

  lemma SpliceSame(b: seq<Byte>, offset: nat, t: seq<Byte>)
    requires offset + |t| <= |b|
    ensures Splice(b, offset, t)[offset..offset + |t|] == t
  {
  }

  lemma SpliceOther(b: seq<Byte>, offset: nat, t: seq<Byte>, from: nat, n: nat)
    requires offset + |t| <= |b| && from + n <= |b| && (from + n <= offset || offset + |t| <= from)
    ensures Splice(b, offset, t)[from..from + n] == b[from..from + n]
  {
  }

  /** Two slots of one block do not overlap. */
  lemma SlotsApart(i: nat, j: nat)
    requires i < NUM_INODES && j < NUM_INODES && i != j && InodeBlock(i) == InodeBlock(j)
    ensures InodeOffset(i) + RECORD_SIZE <= InodeOffset(j) || InodeOffset(j) + RECORD_SIZE <= InodeOffset(i)
  {
    assert i % INODES_PER_BLOCK != j % INODES_PER_BLOCK;
  }

  /** Writing one slot of the inode table leaves every other slot alone. */
  lemma WithInodeAt(img: Image, i: nat, ino: Inode, j: nat)
    requires i < NUM_INODES && j < NUM_INODES
    ensures InodeAt(WithInode(img, i, ino), j) == if j == i then ino else InodeAt(img, j)
  {
    hide EncodeInode, DecodeInode, Splice, InodeOffset;
    InodeRoundTrip(ino);
    if j == i {
      SpliceSame(img[InodeBlock(i)], InodeOffset(i), EncodeInode(ino));
    } else if InodeBlock(j) == InodeBlock(i) {
      SlotsApart(i, j);
      SpliceOther(img[InodeBlock(i)], InodeOffset(i), EncodeInode(ino), InodeOffset(j), RECORD_SIZE);
    }
  }
}
