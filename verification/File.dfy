/** src/fs/file.c over the disk. */
module Files {
  import opened Disks
  import opened Records
  import opened Layout
  import opened Inodes
  import opened FileSpec

  function Min(a: int, b: int): int {
    if a < b then a else b
  }

  /** The number of bytes file_read delivers: it stops at the end of the last block, which
      may lie behind the end of the file. */
  function Readable(size: int, offset: int, count: int): int {
    Min(count, BlocksFor(size) * BLOCK_SIZE - offset)
  }

  /** What file_read returns. */
  function ReadResult(size: int, offset: int, count: int): int {
    if offset > size || count < 0 || offset + count > MAX_FILE_SIZE then -1 else Readable(size, offset, count)
  }

  /** file_read */
  method FileRead(d: Disk, inode: Inode, offset: nat, byteCount: int) returns (n: int, buf: seq<Byte>)
    requires d.Valid() && FileOk(FileState(d.Image(), inode))
    ensures n == ReadResult(inode.size, offset, byteCount) && -1 <= n
    ensures n != -1 ==> buf == Raw(FileState(d.Image(), inode), BlocksFor(inode.size))[offset..offset + n]
  {
    buf := [];
    if offset > inode.size {
      return -1, buf;
    }
    if offset + byteCount < offset {
      return -1, buf;
    }
    if offset + byteCount > MAX_FILE_SIZE {
      return -1, buf;
    }
    n, buf := ReadChunks(d, inode, offset, byteCount);
  }

  /** The loop of file_read. */
  method ReadChunks(d: Disk, inode: Inode, offset: nat, byteCount: nat) returns (n: int, buf: seq<Byte>)
    requires d.Valid() && FileOk(FileState(d.Image(), inode))
    requires offset <= inode.size && offset + byteCount <= MAX_FILE_SIZE
    ensures n == Readable(inode.size, offset, byteCount) && 0 <= n
    ensures buf == Raw(FileState(d.Image(), inode), BlocksFor(inode.size))[offset..offset + n]
  {
    ghost var s := FileState(d.Image(), inode);
    ghost var raw := Raw(s, BlocksFor(inode.size));
    ghost var end := BlocksFor(inode.size) * BLOCK_SIZE;
    hide FileOk, Raw, ByteAt, BlocksFor, PointersOk;
    EndOfBlocks(s);
    buf := [];
    var read, at := 0, offset;
    while read < byteCount
      invariant 0 <= read <= byteCount && at == offset + read && at <= end
      invariant buf == raw[offset..at]
    {
      PointerAt(s, at);
      var dnum := inode.addrs[at / BLOCK_SIZE];
      if dnum == -1 {
        return read, buf;
      }
      var ok, block := DataRead(d, dnum);
      var chunk := Min(byteCount - read, BLOCK_SIZE - at % BLOCK_SIZE);
      ChunkAt(s, at, chunk);
      buf := buf + block[at % BLOCK_SIZE..at % BLOCK_SIZE + chunk];
      Extend(raw, offset, at, chunk);
      read, at := read + chunk, at + chunk;
    }
    return byteCount, buf;
  }

  lemma EndOfBlocks(s: FileState)
    requires FileOk(s)
    ensures s.ino.size <= BlocksFor(s.ino.size) * BLOCK_SIZE <= MAX_FILE_SIZE
    ensures |Raw(s, BlocksFor(s.ino.size))| == BlocksFor(s.ino.size) * BLOCK_SIZE
  {
  }

  /** A pointer is unset exactly behind the last block. */
  lemma PointerAt(s: FileState, at: nat)
    requires FileOk(s) && at < MAX_FILE_SIZE
    ensures at / BLOCK_SIZE < NDIRECT
    ensures s.ino.addrs[at / BLOCK_SIZE] == -1 <==> at >= BlocksFor(s.ino.size) * BLOCK_SIZE
    ensures s.ino.addrs[at / BLOCK_SIZE] != -1 ==> OnDisk(s.ino.addrs[at / BLOCK_SIZE])
  {
  }

  lemma ChunkAt(s: FileState, at: nat, chunk: nat)
    requires FileOk(s) && at < BlocksFor(s.ino.size) * BLOCK_SIZE && at % BLOCK_SIZE + chunk <= BLOCK_SIZE
    ensures at / BLOCK_SIZE < NDIRECT && OnDisk(s.ino.addrs[at / BLOCK_SIZE])
    ensures at + chunk <= BlocksFor(s.ino.size) * BLOCK_SIZE
    ensures Raw(s, BlocksFor(s.ino.size))[at..at + chunk]
         == DataBlock(s.img, s.ino.addrs[at / BLOCK_SIZE])[at % BLOCK_SIZE..at % BLOCK_SIZE + chunk]
  {
    hide Raw, ByteAt;
    PointerAt(s, at);
    ChunkOfRaw(s, BlocksFor(s.ino.size), at, chunk);
  }

  lemma Extend(s: seq<Byte>, from: nat, at: nat, n: nat)
    requires from <= at && at + n <= |s|
    ensures s[from..at] + s[at..at + n] == s[from..at + n]
  {
  }

  /** A stretch of bytes inside one block. */
  lemma ChunkOfRaw(s: FileState, n: nat, at: nat, chunk: nat)
    requires PointersOk(s, n) && at / BLOCK_SIZE < n && at % BLOCK_SIZE + chunk <= BLOCK_SIZE
    ensures at + chunk <= n * BLOCK_SIZE
    ensures Raw(s, n)[at..at + chunk]
         == DataBlock(s.img, s.ino.addrs[at / BLOCK_SIZE])[at % BLOCK_SIZE..at % BLOCK_SIZE + chunk]
  {
    var l := Raw(s, n)[at..at + chunk];
    var r := DataBlock(s.img, s.ino.addrs[at / BLOCK_SIZE])[at % BLOCK_SIZE..at % BLOCK_SIZE + chunk];
    forall i | 0 <= i < chunk ensures l[i] == r[i] {
      RawAt(s, n, at + i);
      assert (at + i) / BLOCK_SIZE == at / BLOCK_SIZE && (at + i) % BLOCK_SIZE == at % BLOCK_SIZE + i;
    }
  }

  /** A read of any range within the size is exactly that slice of the contents. */
  lemma ReadWithinSize(s: FileState, offset: nat, count: nat)
    requires FileOk(s) && offset + count <= s.ino.size
    ensures Readable(s.ino.size, offset, count) == count
    ensures Raw(s, BlocksFor(s.ino.size))[offset..offset + count] == Content(s)[offset..offset + count]
  {
    var raw := Raw(s, BlocksFor(s.ino.size));
    assert raw[..s.ino.size][offset..offset + count] == raw[offset..offset + count];
  }

  /** On a file that was only ever written, a read delivers the contents, and zeros behind
      their end. */
  lemma ZerosBehindContent(s: FileState)
    requires FileOk(s) && ZeroTail(s)
    ensures s.ino.size <= BlocksFor(s.ino.size) * BLOCK_SIZE
    ensures Raw(s, BlocksFor(s.ino.size)) == Content(s) + Zeros(BlocksFor(s.ino.size) * BLOCK_SIZE - s.ino.size)
  {
    var n := BlocksFor(s.ino.size);
    var l, r := Raw(s, n), Content(s) + Zeros(n * BLOCK_SIZE - s.ino.size);
    forall p | 0 <= p < |l| ensures l[p] == r[p] {
      RawAt(s, n, p);
    }
  }

  /** A read stops at the end of the file, as the comment above file_read has it, exactly when
      it does not go past that end or the file fills its last block. Otherwise it delivers
      bytes behind the end of the file. */
  lemma ReadStopsAtSizeIff(size: nat, offset: nat, count: nat)
    requires offset <= size
    ensures Readable(size, offset, count) == Min(count, size - offset)
            <==> offset + count <= size || size % BLOCK_SIZE == 0
  {
    var n := BlocksFor(size);
    assert size <= n * BLOCK_SIZE < size + BLOCK_SIZE;
    assert size % BLOCK_SIZE == 0 <==> size == n * BLOCK_SIZE;
  }

  /** The comment promises the bytes up to the end of the file, and fewer than asked for both
      behind that end and behind the largest file. The result keeps that promise exactly when
      nothing behind the end is asked for, or the file fills its last block and the range stays
      within the largest file. */
  lemma ReadKeepsPromiseIff(size: nat, offset: nat, count: nat)
    requires offset <= size <= MAX_FILE_SIZE
    ensures ReadResult(size, offset, count) == Min(count, size - offset)
            <==> offset + count <= size || (size % BLOCK_SIZE == 0 && offset + count <= MAX_FILE_SIZE)
  {
    ReadStopsAtSizeIff(size, offset, count);
  }

  /** A range that starts behind the end of the file, ends behind the largest file or has a
      negative length is refused; every other read delivers what there is up to the end of the
      file, or more, but never more than asked for. */
  lemma ReadRefusedIff(size: nat, offset: nat, count: int)
    requires size <= MAX_FILE_SIZE
    ensures var r := ReadResult(size, offset, count);
      && (r == -1 <==> offset > size || count < 0 || offset + count > MAX_FILE_SIZE)
      && (r != -1 ==> Min(count, size - offset) <= r <= count)
  {
    assert size <= BlocksFor(size) * BLOCK_SIZE;
  }

  /** A file of one byte, read from its start with a count of two, gives two bytes. */
  lemma ReadPassesSize()
    ensures ReadResult(1, 0, 2) == 2
  {
  }

  /** A read past the end of the file falls short exactly when it passes the last block. */
  lemma ReadFallsShortIff(size: nat, offset: nat, count: nat)
    requires offset <= size
    ensures Readable(size, offset, count) < count <==> offset + count > BlocksFor(size) * BLOCK_SIZE
  {
  }

  /** file_write */
  method FileWrite(d: Disk, inode: Inode, buf: seq<Byte>, offset: UInt) returns (n: int, out: Inode)
    requires d.Valid() && |buf| < UINT_RANGE
    modifies d.bytes
    ensures (n, FileState(d.Image(), out)) == FileSpec.FileWrite(FileState(old(d.Image()), inode), offset, buf)
  {
    out := inode;
    if offset > Unsigned(out.size) {
      return -1, out;
    }
    if (offset + |buf|) % UINT_RANGE < offset {
      return -1, out;
    }
    if (offset + |buf|) % UINT_RANGE > MAX_FILE_SIZE {
      return -1, out;
    }
    AcceptsBounds(inode.size, offset, |buf|);
    var ok;
    ok, out := WriteChunks(d, inode, buf, offset);
    if !ok {
      return -1, out;
    }
    if offset + |buf| > Unsigned(out.size) {
      out := out.(size := offset + |buf|);
      ok := InodeUpdate(d, out, out.inum);
      if !ok {
        return -1, out;
      }
    }
    return |buf|, out;
  }

  /** The loop of file_write. */
  method WriteChunks(d: Disk, inode: Inode, buf: seq<Byte>, offset: nat) returns (ok: bool, out: Inode)
    requires d.Valid() && offset + |buf| <= MAX_FILE_SIZE
    modifies d.bytes
    ensures (ok, FileState(d.Image(), out)) == WriteAll(FileState(old(d.Image()), inode), offset, buf)
  {
    hide FileSpec.WriteChunk;
    out := inode;
    ghost var goal := WriteAll(FileState(d.Image(), inode), offset, buf);
    var written, at := 0, offset;
    assert buf[0..] == buf;
    while written < |buf|
      invariant 0 <= written <= |buf| && at == offset + written
      invariant WriteAll(FileState(d.Image(), out), at, buf[written..]) == goal
    {
      var chunk := Min(|buf| - written, BLOCK_SIZE - at % BLOCK_SIZE);
      assert chunk == ChunkSize(at, |buf[written..]|);
      assert buf[written..][..chunk] == buf[written..written + chunk];
      assert buf[written..][chunk..] == buf[written + chunk..];
      ok, out := WriteChunk(d, out, buf[written..written + chunk], at);
      if !ok {
        return;
      }
      written, at := written + chunk, at + chunk;
    }
    ok := true;
  }

  /** The loop body of file_write. */
  method WriteChunk(d: Disk, inode: Inode, bytes: seq<Byte>, offset: nat) returns (ok: bool, out: Inode)
    requires d.Valid() && offset / BLOCK_SIZE < NDIRECT && offset % BLOCK_SIZE + |bytes| <= BLOCK_SIZE
    modifies d.bytes
    ensures (ok, FileState(d.Image(), out)) == FileSpec.WriteChunk(FileState(old(d.Image()), inode), offset, bytes)
  {
    ghost var s := FileState(d.Image(), inode);
    var dnum;
    dnum, out := InodeDatamap(d, inode, offset / BLOCK_SIZE);
    assert (dnum, FileState(d.Image(), out)) == Datamap(s, offset / BLOCK_SIZE);
    var block;
    ok, block := DataRead(d, dnum);
    if !ok {
      return;
    }
    block := Splice(block, offset % BLOCK_SIZE, bytes);
    ok := DataUpdate(d, block, dnum);
  }
}
