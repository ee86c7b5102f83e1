/** src/fs/inode.c and src/fs/data.c. A struct inode passed by pointer is passed in by
    value and returned. */
module Inodes {
  import opened Disks
  import opened Bitmaps
  import opened Records
  import opened Layout

  /** inode_alloc: the least free slot gets the inode, with its number filled in. */
  method InodeAlloc(d: Disk, inode: Inode) returns (ok: bool, out: Inode)
    requires d.Valid()
    modifies d.bytes
    ensures ok ==>
      && 0 <= out.inum < NUM_INODES && out == inode.(inum := out.inum)
      && LeastFree(old(d.Image())[INODE_BITMAP_BLOCK], NUM_INODES, out.inum)
      && d.Image() == WithInode(old(d.Image()), out.inum, out)
                        [INODE_BITMAP_BLOCK := Take(old(d.Image())[INODE_BITMAP_BLOCK], out.inum)]
    ensures !ok ==> d.Image() == old(d.Image()) && LeastFree(old(d.Image())[INODE_BITMAP_BLOCK], NUM_INODES, -1)
  {
    out := inode;
    var inum := FindFree(d, INODE_BITMAP_BLOCK, NUM_INODES);
    if inum == -1 {
      return false, out;
    }
    out := inode.(inum := inum);
    ok := InodeUpdate(d, out, inum);
    if !ok {
      return;
    }
    ok := Alloc(d, INODE_BITMAP_BLOCK, inum);
  }

  /** inode_read */
  method InodeRead(d: Disk, inum: int) returns (ok: bool, inode: Inode)
    requires d.Valid()
    ensures ok <==> 0 <= inum < NUM_INODES
    ensures ok ==> inode == InodeAt(d.Image(), inum)
  {
    inode := InodeRecord(0, 0, 0, 0, seq(NDIRECT, i => 0));
    if inum < 0 || inum >= NUM_INODES {
      return false, inode;
    }
    var block;
    ok, block := d.BlockRead(InodeBlock(inum));
    if ok {
      inode := DecodeInode(block[InodeOffset(inum)..InodeOffset(inum) + RECORD_SIZE]);
    }
  }

  /** inode_update: one slot of the inode table changes. */
  method InodeUpdate(d: Disk, inode: Inode, inum: int) returns (ok: bool)
    requires d.Valid()
    modifies d.bytes
    ensures ok <==> 0 <= inum < NUM_INODES
    ensures d.Image() == if ok then WithInode(old(d.Image()), inum, inode) else old(d.Image())
  {
    if inum < 0 || inum >= NUM_INODES {
      return false;
    }
    var block;
    ok, block := d.BlockRead(InodeBlock(inum));
    if ok {
      block := Splice(block, InodeOffset(inum), EncodeInode(inode));
      ok := d.BlockWrite(block, InodeBlock(inum));
    }
  }

  /** What data_alloc does to the disk when it hands out block `k`. */
  function WithFresh(img: Image, k: nat): Image
    requires k < NUM_DATA_BLOCKS
  {
    WithData(img, k, Zeros(BLOCK_SIZE))[DATA_BITMAP_BLOCK := Take(img[DATA_BITMAP_BLOCK], k)]
  }

  /** data_alloc: the least free data block, zeroed and marked as taken. */
  method DataAlloc(d: Disk) returns (dnum: int)
    requires d.Valid()
    modifies d.bytes
    ensures LeastFree(old(d.Image())[DATA_BITMAP_BLOCK], NUM_DATA_BLOCKS, dnum)
    ensures d.Image() == if dnum == -1 then old(d.Image()) else WithFresh(old(d.Image()), dnum)
  {
    dnum := FindFree(d, DATA_BITMAP_BLOCK, NUM_DATA_BLOCKS);
    if dnum == -1 {
      return;
    }
    var ok := d.BlockWrite(Zeros(BLOCK_SIZE), dnum + DATA_REGION_START);
    if !ok {
      return -1;
    }
    ok := Alloc(d, DATA_BITMAP_BLOCK, dnum);
    if !ok {
      return -1;
    }
  }

  /** data_free: the block is marked as free; what it holds stays. */
  method DataFree(d: Disk, dnum: int) returns (ok: bool)
    requires d.Valid()
    modifies d.bytes
    ensures ok <==> 0 <= dnum < NUM_DATA_BLOCKS && DataUsed(old(d.Image()), dnum)
    ensures d.Image() == if ok then old(d.Image())[DATA_BITMAP_BLOCK := Release(old(d.Image())[DATA_BITMAP_BLOCK], dnum)]
                         else old(d.Image())
  {
    if dnum < 0 || dnum >= NUM_DATA_BLOCKS {
      return false;
    }
    ok := Free(d, DATA_BITMAP_BLOCK, dnum);
  }

  /** data_read */
  method DataRead(d: Disk, dnum: int) returns (ok: bool, block: Block)
    requires d.Valid()
    ensures ok <==> 0 <= dnum < NUM_DATA_BLOCKS
    ensures ok ==> block == DataBlock(d.Image(), dnum)
  {
    block := Zeros(BLOCK_SIZE);
    if dnum < 0 || dnum >= NUM_DATA_BLOCKS {
      return false, block;
    }
    ok, block := d.BlockRead(dnum + DATA_REGION_START);
  }

  /** data_update */
  method DataUpdate(d: Disk, block: Block, dnum: int) returns (ok: bool)
    requires d.Valid()
    modifies d.bytes
    ensures ok <==> 0 <= dnum < NUM_DATA_BLOCKS
    ensures d.Image() == if ok then WithData(old(d.Image()), dnum, block) else old(d.Image())
  {
    if dnum < 0 || dnum >= NUM_DATA_BLOCKS {
      return false;
    }
    ok := d.BlockWrite(block, dnum + DATA_REGION_START);
  }

  /** inode_datamap: the data block behind pointer `n`, allocated if there is none yet. */
  method InodeDatamap(d: Disk, inode: Inode, n: nat) returns (dnum: int, out: Inode)
    requires d.Valid() && n < NDIRECT
    modifies d.bytes
    ensures inode.addrs[n] != -1 ==> dnum == inode.addrs[n] && out == inode && d.Image() == old(d.Image())
    ensures inode.addrs[n] == -1 ==>
      && LeastFree(old(d.Image())[DATA_BITMAP_BLOCK], NUM_DATA_BLOCKS, dnum)
      && if dnum == -1 then out == inode && d.Image() == old(d.Image())
         else out == inode.(addrs := inode.addrs[n := dnum]) && d.Image() == WithFresh(old(d.Image()), dnum)
  {
    out := inode;
    dnum := inode.addrs[n];
    if dnum == -1 {
      dnum := DataAlloc(d);
      if dnum == -1 {
        return;
      }
      out := inode.(addrs := inode.addrs[n := dnum]);
    }
  }
}
