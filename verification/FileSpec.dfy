/** What src/fs/file.c does to a disk and an inode, on values: a write is a run of chunks,
    none of which crosses a block boundary. */
module FileSpec {
  import opened Disks
  import opened Bitmaps
  import opened Records
  import opened Layout
  import opened Inodes

  const MAX_FILE_SIZE: nat := NDIRECT * BLOCK_SIZE

  /** The disk, and an inode in memory. */
  datatype FileState = FileState(img: Image, ino: Inode)

  /** The least free data block, or -1. */
  function FreeData(img: Image): int {
    FreeFrom(img[DATA_BITMAP_BLOCK], 0)
  }

  function FreeFrom(b: Block, i: nat): (r: int)
    requires i <= NUM_DATA_BLOCKS
    requires forall k :: 0 <= k < i ==> Taken(b, k)
    ensures LeastFree(b, NUM_DATA_BLOCKS, r)
    decreases NUM_DATA_BLOCKS - i
  {
    if i == NUM_DATA_BLOCKS then -1 else if !Taken(b, i) then i else FreeFrom(b, i + 1)
  }

  // ----- Files as bytes

  function BlocksFor(size: int): int {
    (size + BLOCK_SIZE - 1) / BLOCK_SIZE
  }

  predicate OnDisk(a: int) {
    0 <= a < NUM_DATA_BLOCKS
  }

  /** Exactly the first `n` pointers lead to data blocks: taken ones, all different. */
  ghost predicate PointersOk(s: FileState, n: int) {
    && 0 <= n <= NDIRECT
    && (forall k :: 0 <= k < n ==> OnDisk(s.ino.addrs[k]) && DataUsed(s.img, s.ino.addrs[k]))
    && (forall k :: n <= k < NDIRECT ==> s.ino.addrs[k] == -1)
    && (forall j, k :: 0 <= j < k < n ==> s.ino.addrs[j] != s.ino.addrs[k])
  }

  /** A file whose blocks are exactly those its size calls for. */
  ghost predicate FileOk(s: FileState) {
    0 <= s.ino.size <= MAX_FILE_SIZE && PointersOk(s, BlocksFor(s.ino.size))
  }

  function ByteAt(s: FileState, p: nat): Byte
    requires p / BLOCK_SIZE < NDIRECT && OnDisk(s.ino.addrs[p / BLOCK_SIZE])
  {
    DataBlock(s.img, s.ino.addrs[p / BLOCK_SIZE])[p % BLOCK_SIZE]
  }

  /** The bytes of the first `n` blocks of a file. */
  function Raw(s: FileState, n: nat): (r: seq<Byte>)
    requires n <= NDIRECT && forall k :: 0 <= k < n ==> OnDisk(s.ino.addrs[k])
    ensures |r| == n * BLOCK_SIZE
  {
    seq(n * BLOCK_SIZE, p requires 0 <= p < n * BLOCK_SIZE => ByteAt(s, p))
  }

  /** The contents of a file. */
  ghost function Content(s: FileState): (r: seq<Byte>)
    requires FileOk(s)
    ensures |r| == s.ino.size
  {
    Raw(s, BlocksFor(s.ino.size))[..s.ino.size]
  }

  // ----- One chunk

  /** inode_datamap */
  function Datamap(s: FileState, k: nat): (int, FileState)
    requires k < NDIRECT
  {
    if s.ino.addrs[k] != -1 then (s.ino.addrs[k], s)
    else
      var f := FreeData(s.img);
      if f == -1 then (-1, s)
      else (f, FileState(WithFresh(s.img, f), s.ino.(addrs := s.ino.addrs[k := f])))
  }

  /** The loop body of file_write. */
  function WriteChunk(s: FileState, offset: nat, bytes: seq<Byte>): (bool, FileState)
    requires offset / BLOCK_SIZE < NDIRECT && offset % BLOCK_SIZE + |bytes| <= BLOCK_SIZE
  {
    var (dnum, t) := Datamap(s, offset / BLOCK_SIZE);
    if !OnDisk(dnum) then (false, t)
    else (true, t.(img := WithData(t.img, dnum, Splice(DataBlock(t.img, dnum), offset % BLOCK_SIZE, bytes))))
  }

  ghost predicate NewBlock(img: Image, a: int) {
    OnDisk(a) && !DataUsed(img, a)
  }

  /** How a run of chunks may change disk and inode: pointers are only added, they lead to
      blocks that were free, and nothing outside the file's own blocks is touched. */
  ghost predicate Grows(s: FileState, t: FileState) {
    && t.ino == s.ino.(addrs := t.ino.addrs)
    && (forall b :: 0 <= b < DATA_REGION_START && b != DATA_BITMAP_BLOCK ==> t.img[b] == s.img[b])
    && (forall k :: 0 <= k < NDIRECT && s.ino.addrs[k] != -1 ==> t.ino.addrs[k] == s.ino.addrs[k])
    && (forall k :: 0 <= k < NDIRECT && s.ino.addrs[k] == -1 && t.ino.addrs[k] != -1 ==> NewBlock(s.img, t.ino.addrs[k]))
    && (forall a :: 0 <= a < NUM_DATA_BLOCKS ==>
          (DataUsed(t.img, a) <==> DataUsed(s.img, a) || a in t.ino.addrs))
    && (forall a :: 0 <= a < NUM_DATA_BLOCKS && a !in t.ino.addrs ==> DataBlock(t.img, a) == DataBlock(s.img, a))
  }

  lemma GrowsSelf(s: FileState, n: int)
    requires PointersOk(s, n)
    ensures Grows(s, s)
  {
    forall a | 0 <= a < NUM_DATA_BLOCKS && a in s.ino.addrs ensures DataUsed(s.img, a) {
      var k :| 0 <= k < NDIRECT && s.ino.addrs[k] == a;
    }
  }

  lemma GrowsTrans(s: FileState, t: FileState, u: FileState)
    requires Grows(s, t) && Grows(t, u)
    ensures Grows(s, u)
  {
    forall a | a in t.ino.addrs && a != -1 ensures a in u.ino.addrs {
      var k :| 0 <= k < NDIRECT && t.ino.addrs[k] == a;
      assert u.ino.addrs[k] == a;
    }
  }

  /** Mapping a pointer at most one past the last: it is there afterwards, unless the disk
      is full; a new block reads as zeros. */
  lemma DatamapOk(s: FileState, k: nat, n: int)
    requires PointersOk(s, n) && k <= n && k < NDIRECT
    ensures var (dnum, t) := Datamap(s, k);
      var m := if k < n || dnum == -1 then n else n + 1;
      && Grows(s, t) && PointersOk(t, m)
      && (OnDisk(dnum) <==> dnum != -1)
      && (dnum != -1 ==> k < m && t.ino.addrs[k] == dnum)
      && (k < n ==> dnum != -1 && t == s)
      && (dnum == -1 ==> t == s && FreeData(s.img) == -1)
      && (k >= n && dnum != -1 ==> FreeData(s.img) != -1)
      && (forall p :: 0 <= p < m * BLOCK_SIZE ==> ByteAt(t, p) == if p < n * BLOCK_SIZE then ByteAt(s, p) else 0)
  {
    var (dnum, t) := Datamap(s, k);
    if k < n || dnum == -1 {
      GrowsSelf(s, n);
    } else {
      FreshGrows(s, n, dnum);
    }
  }

  lemma FreshGrows(s: FileState, n: int, f: nat)
    requires PointersOk(s, n) && n < NDIRECT && f < NUM_DATA_BLOCKS && !DataUsed(s.img, f)
    ensures var t := FileState(WithFresh(s.img, f), s.ino.(addrs := s.ino.addrs[n := f]));
      && Grows(s, t) && PointersOk(t, n + 1)
      && (forall p :: 0 <= p < (n + 1) * BLOCK_SIZE ==> ByteAt(t, p) == if p < n * BLOCK_SIZE then ByteAt(s, p) else 0)
  {
    var t := FileState(WithFresh(s.img, f), s.ino.(addrs := s.ino.addrs[n := f]));
    assert t.ino.addrs[n] == f;
    forall a | 0 <= a < NUM_DATA_BLOCKS
      ensures DataUsed(t.img, a) <==> DataUsed(s.img, a) || a == f
      ensures DataUsed(s.img, a) || a == f <==> DataUsed(s.img, a) || a in t.ino.addrs
    {
      TakeAddsOne(s.img[DATA_BITMAP_BLOCK], f, a);
      if a in t.ino.addrs && a != f {
        var k :| 0 <= k < NDIRECT && t.ino.addrs[k] == a;
        assert s.ino.addrs[k] == a;
      }
    }
    assert forall k :: 0 <= k < n ==> s.ino.addrs[k] != f;
  }

  /** The byte a file has at `p` once `bytes` have been written at `offset`, where `n`
      blocks were there before. */
  function Written(s: FileState, n: nat, offset: nat, bytes: seq<Byte>, p: nat): Byte
    requires n <= NDIRECT && forall k :: 0 <= k < n ==> OnDisk(s.ino.addrs[k])
  {
    if offset <= p < offset + |bytes| then bytes[p - offset]
    else if p < n * BLOCK_SIZE then ByteAt(s, p) else 0
  }

  /** Overwriting part of one of the file's blocks. */
  lemma OverwriteOk(s: FileState, n: int, k: nat, at: nat, bytes: seq<Byte>)
    requires PointersOk(s, n) && k < n && at + |bytes| <= BLOCK_SIZE
    ensures var t := s.(img := WithData(s.img, s.ino.addrs[k], Splice(DataBlock(s.img, s.ino.addrs[k]), at, bytes)));
      && Grows(s, t) && PointersOk(t, n)
      && (forall p :: 0 <= p < n * BLOCK_SIZE ==>
            ByteAt(t, p) == Written(s, n, k * BLOCK_SIZE + at, bytes, p))
  {
    var t := s.(img := WithData(s.img, s.ino.addrs[k], Splice(DataBlock(s.img, s.ino.addrs[k]), at, bytes)));
    GrowsSelf(s, n);
    forall p | 0 <= p < n * BLOCK_SIZE
      ensures ByteAt(t, p) == Written(s, n, k * BLOCK_SIZE + at, bytes, p)
    {
      if p / BLOCK_SIZE == k {
        SpliceAt(DataBlock(s.img, s.ino.addrs[k]), at, bytes, p % BLOCK_SIZE);
      } else {
        assert s.ino.addrs[p / BLOCK_SIZE] != s.ino.addrs[k];
      }
    }
  }

  /** The number of blocks of a file after a write. */
  function BlocksAfter(n: nat, end: nat): nat {
    if n * BLOCK_SIZE < end then BlocksFor(end) else n
  }

  /** `t` is `s` with `bytes` written at `offset`. */
  ghost predicate Wrote(s: FileState, n: nat, offset: nat, bytes: seq<Byte>, t: FileState)
    requires n <= NDIRECT && forall k :: 0 <= k < n ==> OnDisk(s.ino.addrs[k])
  {
    var m := BlocksAfter(n, offset + |bytes|);
    && Grows(s, t) && PointersOk(t, m)
    && forall p :: 0 <= p < m * BLOCK_SIZE ==> ByteAt(t, p) == Written(s, n, offset, bytes, p)
  }

  /** One chunk is written as asked, or the disk is full and nothing has changed. */
  lemma ChunkOk(s: FileState, n: nat, offset: nat, bytes: seq<Byte>)
    requires PointersOk(s, n) && offset <= n * BLOCK_SIZE && offset / BLOCK_SIZE < NDIRECT
    requires 0 < |bytes| && offset % BLOCK_SIZE + |bytes| <= BLOCK_SIZE
    ensures var (ok, t) := WriteChunk(s, offset, bytes);
      && (ok <==> offset < n * BLOCK_SIZE || FreeData(s.img) != -1)
      && (if ok then Wrote(s, n, offset, bytes, t) else t == s)
  {
    hide Datamap, Grows, ByteAt, FreeData;
    var k := offset / BLOCK_SIZE;
    var (dnum, u) := Datamap(s, k);
    DatamapOk(s, k, n);
    if dnum != -1 {
      var m := if k < n then n else n + 1;
      assert m == BlocksAfter(n, offset + |bytes|);
      OverwriteOk(u, m, k, offset % BLOCK_SIZE, bytes);
      GrowsTrans(s, u, WriteChunk(s, offset, bytes).1);
    }
  }

  // ----- The whole loop

  /** The bytes of the next chunk. */
  function ChunkSize(offset: nat, left: nat): (r: nat)
    ensures r <= left && offset % BLOCK_SIZE + r <= BLOCK_SIZE && (left > 0 ==> r > 0)
  {
    if left < BLOCK_SIZE - offset % BLOCK_SIZE then left else BLOCK_SIZE - offset % BLOCK_SIZE
  }

  /** The loop of file_write. */
  function WriteAll(s: FileState, offset: nat, buf: seq<Byte>): (bool, FileState)
    requires offset + |buf| <= MAX_FILE_SIZE
    decreases |buf|
  {
    if buf == [] then (true, s)
    else
      var c := ChunkSize(offset, |buf|);
      var (ok, t) := WriteChunk(s, offset, buf[..c]);
      if ok then WriteAll(t, offset + c, buf[c..]) else (false, t)
  }

  lemma WroteNothing(s: FileState, n: nat, offset: nat)
    requires PointersOk(s, n) && offset <= n * BLOCK_SIZE
    ensures Wrote(s, n, offset, [], s)
  {
    GrowsSelf(s, n);
  }

  lemma WroteTrans(s: FileState, n: nat, offset: nat, a: seq<Byte>, t: FileState, b: seq<Byte>, u: FileState)
    requires PointersOk(s, n) && offset <= n * BLOCK_SIZE && offset + |a| + |b| <= MAX_FILE_SIZE
    requires Wrote(s, n, offset, a, t)
    requires Wrote(t, BlocksAfter(n, offset + |a|), offset + |a|, b, u)
    ensures Wrote(s, n, offset, a + b, u)
  {
    GrowsTrans(s, t, u);
    var m := BlocksAfter(n, offset + |a|);
    assert BlocksAfter(m, offset + |a| + |b|) == BlocksAfter(n, offset + |a + b|);
    forall p | 0 <= p < BlocksAfter(n, offset + |a + b|) * BLOCK_SIZE
      ensures ByteAt(u, p) == Written(s, n, offset, a + b, p)
    {
      assert ByteAt(u, p) == Written(t, m, offset + |a|, b, p);
      if p < m * BLOCK_SIZE { assert ByteAt(t, p) == Written(s, n, offset, a, p); }
    }
  }

  /** How a run of chunks ends: all is written, or the disk is full. */
  ghost predicate WriteEnds(s: FileState, n: nat, offset: nat, buf: seq<Byte>, ok: bool, t: FileState)
    requires n <= NDIRECT && forall k :: 0 <= k < n ==> OnDisk(s.ino.addrs[k])
  {
    && Grows(s, t)
    && (if ok then Wrote(s, n, offset, buf, t) else FreeData(t.img) == -1 && exists m :: PointersOk(t, m))
    && (offset + |buf| <= n * BLOCK_SIZE ==> ok)
  }

  lemma ChunkThenRest(s: FileState, n: nat, offset: nat, a: seq<Byte>, t: FileState, b: seq<Byte>, ok: bool, u: FileState)
    requires PointersOk(s, n) && offset <= n * BLOCK_SIZE && offset + |a| + |b| <= MAX_FILE_SIZE
    requires Wrote(s, n, offset, a, t)
    requires WriteEnds(t, BlocksAfter(n, offset + |a|), offset + |a|, b, ok, u)
    ensures WriteEnds(s, n, offset, a + b, ok, u)
  {
    GrowsTrans(s, t, u);
    if ok { WroteTrans(s, n, offset, a, t, b, u); }
  }

  /** A run of chunks writes the whole buffer, across any number of blocks; it stops early
      only when the disk is full. */
  lemma {:induction false} WriteAllOk(s: FileState, n: nat, offset: nat, buf: seq<Byte>)
    requires PointersOk(s, n) && offset <= n * BLOCK_SIZE && offset + |buf| <= MAX_FILE_SIZE
    ensures var (ok, t) := WriteAll(s, offset, buf); WriteEnds(s, n, offset, buf, ok, t)
    decreases |buf|
  {
    hide Grows, ByteAt, Written, FreeData, WriteChunk;
    if buf == [] {
      WroteNothing(s, n, offset);
      WroteGrows(s, n, offset, [], s);
    } else {
      var c := ChunkSize(offset, |buf|);
      var (ok, t) := WriteChunk(s, offset, buf[..c]);
      ChunkOk(s, n, offset, buf[..c]);
      if ok {
        var m := BlocksAfter(n, offset + c);
        WriteAllOk(t, m, offset + c, buf[c..]);
        var (ok2, u) := WriteAll(t, offset + c, buf[c..]);
        assert buf[..c] + buf[c..] == buf;
        ChunkThenRest(s, n, offset, buf[..c], t, buf[c..], ok2, u);
      } else {
        GrowsSelf(s, n);
      }
    }
  }

  lemma WroteGrows(s: FileState, n: nat, offset: nat, buf: seq<Byte>, t: FileState)
    requires PointersOk(s, n) && Wrote(s, n, offset, buf, t)
    ensures Grows(s, t)
  {
  }

  // ----- file_write

  const UINT_RANGE: nat := 0x1_0000_0000

  /** A 32-bit unsigned number. */
  type UInt = x: nat | x < UINT_RANGE

  /** A size as C compares it with an unsigned offset. */
  function Unsigned(size: Int32): UInt {
    if size < 0 then size + UINT_RANGE else size
  }

  /** The checks in front of the loop pass. */
  predicate Accepts(size: Int32, offset: UInt, count: UInt) {
    offset <= Unsigned(size) && (offset + count) % UINT_RANGE >= offset && (offset + count) % UINT_RANGE <= MAX_FILE_SIZE
  }

  /** Wrap-around is caught: what passes the checks really ends within the file limit. */
  lemma AcceptsBounds(size: Int32, offset: UInt, count: UInt)
    ensures Accepts(size, offset, count) <==> offset <= Unsigned(size) && offset + count <= MAX_FILE_SIZE
  {
  }

  /** All of file_write: the result, the disk and the inode in memory. */
  function FileWrite(s: FileState, offset: UInt, buf: seq<Byte>): (int, FileState)
    requires |buf| < UINT_RANGE
  {
    if !Accepts(s.ino.size, offset, |buf|) then (-1, s)
    else
      AcceptsBounds(s.ino.size, offset, |buf|);
      var (ok, t) := WriteAll(s, offset, buf);
      if !ok then (-1, t)
      else if offset + |buf| > Unsigned(t.ino.size) then
        var u := t.ino.(size := offset + |buf|);
        if 0 <= u.inum < NUM_INODES then (|buf|, FileState(WithInode(t.img, u.inum, u), u))
        else (-1, FileState(t.img, u))
      else (|buf|, t)
  }

  /** The contents of a file after writing `buf` at an offset within it. */
  function Overwrite(content: seq<Byte>, offset: nat, buf: seq<Byte>): seq<Byte>
    requires offset <= |content|
  {
    content[..offset] + buf + (if offset + |buf| < |content| then content[offset + |buf|..] else [])
  }

  lemma RawAt(s: FileState, n: nat, p: nat)
    requires n <= NDIRECT && (forall k :: 0 <= k < n ==> OnDisk(s.ino.addrs[k])) && p < n * BLOCK_SIZE
    ensures Raw(s, n)[p] == ByteAt(s, p)
  {
  }

  lemma ContentAt(s: FileState, p: nat)
    requires FileOk(s) && p < s.ino.size
    ensures Content(s)[p] == ByteAt(s, p)
  {
    RawAt(s, BlocksFor(s.ino.size), p);
  }

  /** The contents depend on the file's own pointers and blocks alone. */
  lemma SameBytes(s: FileState, t: FileState)
    requires FileOk(s) && FileOk(t) && t.ino.size == s.ino.size
    requires forall p :: 0 <= p < s.ino.size ==> ByteAt(t, p) == ByteAt(s, p)
    ensures Content(t) == Content(s)
  {
    forall p | 0 <= p < s.ino.size ensures Content(t)[p] == Content(s)[p] {
      ContentAt(s, p);
      ContentAt(t, p);
    }
  }

  /** A file whose size, pointers, blocks and bitmap are kept keeps its contents. */
  lemma SameFile(s: FileState, t: FileState)
    requires FileOk(s) && t.ino.size == s.ino.size && t.ino.addrs == s.ino.addrs
    requires forall b :: DATA_BITMAP_BLOCK == b || DATA_REGION_START <= b < NUM_BLOCKS ==> t.img[b] == s.img[b]
    ensures FileOk(t) && Content(t) == Content(s)
  {
    hide Content, Taken;
    SameBytes(s, t);
  }

  lemma WroteContent(s: FileState, offset: nat, buf: seq<Byte>, t: FileState, u: FileState)
    requires FileOk(s) && offset <= s.ino.size && offset + |buf| <= MAX_FILE_SIZE
    requires Wrote(s, BlocksFor(s.ino.size), offset, buf, t)
    requires u.ino == t.ino.(size := if offset + |buf| > s.ino.size then offset + |buf| else s.ino.size)
    requires forall b :: 0 <= b < NUM_BLOCKS && (b == DATA_BITMAP_BLOCK || b >= DATA_REGION_START) ==> u.img[b] == t.img[b]
    ensures FileOk(u) && Content(u) == Overwrite(Content(s), offset, buf)
  {
    var n := BlocksFor(s.ino.size);
    assert BlocksAfter(n, offset + |buf|) == BlocksFor(u.ino.size);
    assert PointersOk(u, BlocksFor(u.ino.size));
    var want := Overwrite(Content(s), offset, buf);
    assert |want| == u.ino.size;
    forall p | 0 <= p < u.ino.size ensures Content(u)[p] == want[p] {
      ContentAt(u, p);
      assert ByteAt(u, p) == ByteAt(t, p) == Written(s, n, offset, buf, p);
      if p < s.ino.size { ContentAt(s, p); }
    }
  }

  /** A chunked write that does not reach past the blocks the file has allocates nothing. */
  lemma NoNewPointers(s: FileState, t: FileState, n: nat)
    requires Grows(s, t) && PointersOk(s, n) && PointersOk(t, n)
    ensures t.ino == s.ino
  {
    assert forall k :: 0 <= k < NDIRECT ==> t.ino.addrs[k] == s.ino.addrs[k];
  }

  /** A successful write splices the buffer into the contents. The inode on disk is brought
      up to date whenever the one in memory has changed. */
  lemma WriteSplices(s: FileState, offset: UInt, buf: seq<Byte>)
    requires FileOk(s) && 0 <= s.ino.inum < NUM_INODES && |buf| < UINT_RANGE
    requires FileWrite(s, offset, buf).0 != -1
    ensures var (r, t) := FileWrite(s, offset, buf);
      && r == |buf| && offset <= s.ino.size && FileOk(t)
      && Content(t) == Overwrite(Content(s), offset, buf)
      && t.ino.kind == s.ino.kind && t.ino.inum == s.ino.inum && t.ino.numLinks == s.ino.numLinks
      && (t.ino != s.ino ==> InodeAt(t.img, s.ino.inum) == t.ino)
      && (t.ino == s.ino ==> InodeAt(t.img, s.ino.inum) == InodeAt(s.img, s.ino.inum))
  {
    AcceptsBounds(s.ino.size, offset, |buf|);
    var n := BlocksFor(s.ino.size);
    var (ok, t) := WriteAll(s, offset, buf);
    WriteAllOk(s, n, offset, buf);
    WroteContent(s, offset, buf, t, FileWrite(s, offset, buf).1);
    if offset + |buf| > s.ino.size {
      var u := t.ino.(size := offset + |buf|);
      WithInodeAt(t.img, u.inum, u, u.inum);
    } else {
      NoNewPointers(s, t, n);
    }
  }

  // ----- Behind the end

  /** The bytes between the end of a file and the end of its last block are zeros. */
  ghost predicate ZeroTail(s: FileState)
    requires FileOk(s)
  {
    forall p :: s.ino.size <= p < BlocksFor(s.ino.size) * BLOCK_SIZE ==> ByteAt(s, p) == 0
  }

  lemma WroteZeroTail(s: FileState, offset: nat, buf: seq<Byte>, t: FileState, u: FileState)
    requires FileOk(s) && ZeroTail(s) && offset <= s.ino.size && offset + |buf| <= MAX_FILE_SIZE
    requires Wrote(s, BlocksFor(s.ino.size), offset, buf, t)
    requires u.ino == t.ino.(size := if offset + |buf| > s.ino.size then offset + |buf| else s.ino.size)
    requires forall b :: 0 <= b < NUM_BLOCKS && (b == DATA_BITMAP_BLOCK || b >= DATA_REGION_START) ==> u.img[b] == t.img[b]
    ensures FileOk(u) && ZeroTail(u)
  {
    var n := BlocksFor(s.ino.size);
    assert BlocksAfter(n, offset + |buf|) == BlocksFor(u.ino.size);
    assert PointersOk(u, BlocksFor(u.ino.size));
    hide Grows, PointersOk;
    forall p | u.ino.size <= p < BlocksFor(u.ino.size) * BLOCK_SIZE ensures ByteAt(u, p) == 0 {
      assert ByteAt(u, p) == ByteAt(t, p) == Written(s, n, offset, buf, p);
    }
  }

  /** Every successful write keeps them zero; so what a read delivers behind the end of a
      file that was only ever written is zeros. */
  lemma WriteKeepsZeroTail(s: FileState, offset: UInt, buf: seq<Byte>)
    requires FileOk(s) && ZeroTail(s) && |buf| < UINT_RANGE && FileWrite(s, offset, buf).0 != -1
    ensures FileOk(FileWrite(s, offset, buf).1) && ZeroTail(FileWrite(s, offset, buf).1)
  {
    AcceptsBounds(s.ino.size, offset, |buf|);
    var n := BlocksFor(s.ino.size);
    var (ok, t) := WriteAll(s, offset, buf);
    WriteAllOk(s, n, offset, buf);
    SameSize(s, t);
    hide ByteAt, Written, ZeroTail, Grows, PointersOk, WriteAll;
    WroteZeroTail(s, offset, buf, t, FileWrite(s, offset, buf).1);
  }

  lemma SameSize(s: FileState, t: FileState)
    requires Grows(s, t)
    ensures t.ino.size == s.ino.size
  {
  }
}
