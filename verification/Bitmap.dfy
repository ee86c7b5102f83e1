/** src/fs/bitmap.c: a block as a set of slot numbers, most significant bit first. */
module Bitmaps {
  import opened Disks

  /** The number of slots one bitmap is scanned for. */
  const SCANNED: nat := 120

  const BITS: nat := BLOCK_SIZE * 8

  function Mask(j: nat): Byte
    requires j < 8
  {
    (0x80 as Byte) >> j
  }

  /** Slot `i` is taken. */
  predicate Taken(b: Block, i: nat)
    requires i < BITS
  {
    b[i / 8] & Mask(i % 8) != 0
  }

  function Take(b: Block, i: nat): Block
    requires i < BITS
  {
    b[i / 8 := b[i / 8] | Mask(i % 8)]
  }

  function Release(b: Block, i: nat): Block
    requires i < BITS
  {
    b[i / 8 := b[i / 8] & !Mask(i % 8)]
  }

  lemma OrMask(b: Byte, j: nat, k: nat)
    requires j < 8 && k < 8
    ensures (b | Mask(j)) & Mask(k) != 0 <==> (k == j || b & Mask(k) != 0)
  {
  }

  lemma ClearMask(b: Byte, j: nat, k: nat)
    requires j < 8 && k < 8
    ensures (b & !Mask(j)) & Mask(k) != 0 <==> (k != j && b & Mask(k) != 0)
  {
  }

  lemma OrThenClear(b: Byte, j: nat)
    requires j < 8 && b & Mask(j) == 0
    ensures (b | Mask(j)) & !Mask(j) == b
  {
  }

  /** Taking a slot adds that slot to the set and nothing else. */
  lemma TakeAddsOne(b: Block, i: nat, k: nat)
    requires i < BITS && k < BITS
    ensures Taken(Take(b, i), k) <==> k == i || Taken(b, k)
  {
    OrMask(b[i / 8], i % 8, k % 8);
  }

  /** Releasing a slot removes that slot from the set and nothing else. */
  lemma ReleaseRemovesOne(b: Block, i: nat, k: nat)
    requires i < BITS && k < BITS
    ensures Taken(Release(b, i), k) <==> k != i && Taken(b, k)
  {
    ClearMask(b[i / 8], i % 8, k % 8);
  }

  /** Taking a free slot and releasing it restores the block byte for byte. */
  lemma TakeThenRelease(b: Block, i: nat)
    requires i < BITS && !Taken(b, i)
    ensures Release(Take(b, i), i) == b
  {
    OrThenClear(b[i / 8], i % 8);
  }

  /** `r` is the least free slot below `limit`, or -1 when there is none. */
  ghost predicate LeastFree(b: Block, limit: int, r: int) {
    && (forall i :: 0 <= i < (if r == -1 then limit else r) && i < SCANNED ==> Taken(b, i))
    && (r == -1 || (0 <= r < limit && r < SCANNED && !Taken(b, r)))
  }

  /** bitmap_find_free: never looks past slot SCANNED, whatever the limit. */
  method FindFree(d: Disk, bnum: int, limit: int) returns (pos: int)
    requires d.Valid()
    ensures if 0 <= bnum < NUM_BLOCKS then LeastFree(d.Image()[bnum], limit, pos) else pos == -1
  {
    var ok, bitmap := d.BlockRead(bnum);
    if !ok {
      return -1;
    }
    for i := 0 to (SCANNED + 7) / 8
      invariant forall k :: 0 <= k < 8 * i ==> Taken(bitmap, k)
    {
      var byte := bitmap[i];
      for j := 0 to 8
        invariant forall k :: 0 <= k < 8 * i + j ==> Taken(bitmap, k)
      {
        pos := i * 8 + j;
        if pos >= limit {
          return -1;
        }
        assert pos / 8 == i && pos % 8 == j;
        if byte & Mask(j) == 0 {
          return pos;
        }
      }
    }
    return -1;
  }

  /** bitmap_alloc: takes a slot that is free. */
  method Alloc(d: Disk, bnum: int, offset: nat) returns (ok: bool)
    requires d.Valid() && offset < BITS
    modifies d.bytes
    ensures ok <==> 0 <= bnum < NUM_BLOCKS && !Taken(old(d.Image())[bnum], offset)
    ensures d.Image() == if ok then old(d.Image())[bnum := Take(old(d.Image())[bnum], offset)] else old(d.Image())
  {
    var bitmap;
    ok, bitmap := d.BlockRead(bnum);
    if !ok {
      return false;
    }
    var byteIx := offset / 8;
    var bitIx := offset % 8;
    if bitmap[byteIx] & Mask(bitIx) != 0 {
      return false;
    }
    bitmap := bitmap[byteIx := bitmap[byteIx] | Mask(bitIx)];
    ok := d.BlockWrite(bitmap, bnum);
  }

  /** bitmap_free: releases a slot that is taken. */
  method Free(d: Disk, bnum: int, offset: nat) returns (ok: bool)
    requires d.Valid() && offset < BITS
    modifies d.bytes
    ensures ok <==> 0 <= bnum < NUM_BLOCKS && Taken(old(d.Image())[bnum], offset)
    ensures d.Image() == if ok then old(d.Image())[bnum := Release(old(d.Image())[bnum], offset)] else old(d.Image())
  {
    var bitmap;
    ok, bitmap := d.BlockRead(bnum);
    if !ok {
      return false;
    }
    var byteIx := offset / 8;
    var bitIx := offset % 8;
    if bitmap[byteIx] & Mask(bitIx) == 0 {
      return false;
    }
    bitmap := bitmap[byteIx := bitmap[byteIx] & !Mask(bitIx)];
    ok := d.BlockWrite(bitmap, bnum);
  }
}
