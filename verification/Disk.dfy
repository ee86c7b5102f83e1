/** src/fs/disk.c and src/fs/block.c: one shared array of bytes, seen as blocks. */
module Disks {

  type Byte = bv8

  const BLOCK_SIZE: nat := 1024
  const NUM_BLOCKS: nat := 128
  const DISK_SIZE: nat := NUM_BLOCKS * BLOCK_SIZE

  function Zeros(n: nat): (r: seq<Byte>)
    ensures |r| == n
  {
    seq(n, i => 0)
  }

  /** Memory that nothing has been written to: nothing is known about it. */
  method AnyBytes(n: nat) returns (stray: seq<Byte>)
    ensures |stray| == n
  {
    stray := *;
    if |stray| != n {
      stray := Zeros(n);
    }
  }

  type Block = b: seq<Byte> | |b| == BLOCK_SIZE witness Zeros(BLOCK_SIZE)

  /** The whole disk, block by block. */
  type Image = s: seq<Block> | |s| == NUM_BLOCKS witness seq(NUM_BLOCKS, i => Zeros(BLOCK_SIZE))

  function ImageOf(bytes: seq<Byte>): Image
    requires |bytes| == DISK_SIZE
  {
    seq(NUM_BLOCKS, b requires 0 <= b < NUM_BLOCKS => bytes[b * BLOCK_SIZE..b * BLOCK_SIZE + BLOCK_SIZE])
  }

  /** `s` with the bytes from `offset` on overwritten by `t`. */
  function Splice(s: seq<Byte>, offset: nat, t: seq<Byte>): (r: seq<Byte>)
    requires offset + |t| <= |s|
    ensures |r| == |s|
  {
    s[..offset] + t + s[offset + |t|..]
  }

  lemma SpliceAt(s: seq<Byte>, offset: nat, t: seq<Byte>, j: nat)
    requires offset + |t| <= |s| && j < |s|
    ensures Splice(s, offset, t)[j] == if offset <= j < offset + |t| then t[j - offset] else s[j]
  {
  }

  lemma ByteOfImage(bytes: seq<Byte>, b: nat, i: nat)
    requires |bytes| == DISK_SIZE && b < NUM_BLOCKS && i < BLOCK_SIZE
    ensures ImageOf(bytes)[b][i] == bytes[b * BLOCK_SIZE + i]
  {
  }

  lemma SpliceImage(bytes: seq<Byte>, bnum: nat, block: Block)
    requires |bytes| == DISK_SIZE && bnum < NUM_BLOCKS
    ensures ImageOf(Splice(bytes, bnum * BLOCK_SIZE, block)) == ImageOf(bytes)[bnum := block]
  {
    hide ImageOf, Splice;
    var spliced := Splice(bytes, bnum * BLOCK_SIZE, block);
    var l, r := ImageOf(spliced), ImageOf(bytes)[bnum := block];
    forall b | 0 <= b < NUM_BLOCKS ensures l[b] == r[b] {
      forall i | 0 <= i < BLOCK_SIZE ensures l[b][i] == r[b][i] {
        SpliceAt(bytes, bnum * BLOCK_SIZE, block, b * BLOCK_SIZE + i);
        ByteOfImage(spliced, b, i);
        ByteOfImage(bytes, b, i);
      }
    }
  }

  class Disk {
    const bytes: array<Byte>

    ghost predicate Valid() {
      bytes.Length == DISK_SIZE
    }

    ghost function Image(): Image
      requires Valid()
      reads bytes
    {
      ImageOf(bytes[..])
    }

    /** The disk as it is when the program starts. */
    constructor ()
      ensures Valid() && fresh(bytes) && Image() == seq(NUM_BLOCKS, i => Zeros(BLOCK_SIZE))
    {
      bytes := new Byte[DISK_SIZE](i => 0);
      new;
      assert forall b :: 0 <= b < NUM_BLOCKS ==> Image()[b] == Zeros(BLOCK_SIZE);
    }

    /** disk_read */
    method Read(size: int, offset: int) returns (ok: bool, buf: seq<Byte>)
      requires Valid()
      ensures ok <==> 0 <= size <= DISK_SIZE - offset && 0 <= offset < DISK_SIZE
      ensures ok ==> buf == bytes[offset..offset + size]
    {
      buf := [];
      if size < 0 || size > DISK_SIZE - offset {
        return false, buf;
      }
      if offset < 0 || offset >= DISK_SIZE {
        return false, buf;
      }
      return true, bytes[offset..offset + size];
    }

    /** disk_write */
    method Write(buf: seq<Byte>, offset: int) returns (ok: bool)
      requires Valid()
      modifies bytes
      ensures ok <==> |buf| <= DISK_SIZE - offset && 0 <= offset < DISK_SIZE
      ensures bytes[..] == if ok then Splice(old(bytes[..]), offset, buf) else old(bytes[..])
    {
      if |buf| > DISK_SIZE - offset {
        return false;
      }
      if offset < 0 || offset >= DISK_SIZE {
        return false;
      }
      forall i | 0 <= i < |buf| {
        bytes[offset + i] := buf[i];
      }
      ok := true;
    }

    /** block_read */
    method BlockRead(bnum: int) returns (ok: bool, block: Block)
      requires Valid()
      ensures ok <==> 0 <= bnum < NUM_BLOCKS
      ensures ok ==> block == Image()[bnum]
    {
      block := Zeros(BLOCK_SIZE);
      if bnum < 0 || bnum >= NUM_BLOCKS {
        return false, block;
      }
      var buf;
      ok, buf := Read(BLOCK_SIZE, bnum * BLOCK_SIZE);
      block := buf;
    }

    /** block_write: one block changes, every other one is untouched. */
    method BlockWrite(block: Block, bnum: int) returns (ok: bool)
      requires Valid()
      modifies bytes
      ensures ok <==> 0 <= bnum < NUM_BLOCKS
      ensures Image() == if ok then old(Image())[bnum := block] else old(Image())
    {
      if bnum < 0 || bnum >= NUM_BLOCKS {
        return false;
      }
      SpliceImage(bytes[..], bnum, block);
      ok := Write(block, bnum * BLOCK_SIZE);
    }
  }
}
