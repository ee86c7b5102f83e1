/** The 64-byte records of src/fs/inode.h and src/fs/directory.h. Numbers are 32-bit two's
    complement, least significant byte first. */
module Records {
  import opened Disks

  type Int32 = x: int | -0x8000_0000 <= x < 0x8000_0000

  const RECORD_SIZE: nat := 64
  const NDIRECT: nat := 12
  const MAX_FILENAME_LEN: nat := 59

  function EncodeInt(x: Int32): (r: seq<Byte>)
    ensures |r| == 4
  {
    var u := if x < 0 then x + 0x1_0000_0000 else x;
    [(u % 256) as Byte, (u / 256 % 256) as Byte, (u / 65536 % 256) as Byte, (u / 16777216) as Byte]
  }

  function DecodeInt(b: seq<Byte>): Int32
    requires |b| == 4
  {
    var u := b[0] as int + 256 * (b[1] as int) + 65536 * (b[2] as int) + 16777216 * (b[3] as int);
    if u >= 0x8000_0000 then u - 0x1_0000_0000 else u
  }

  lemma NextByte(b: Byte)
    requires b != 255
    ensures (b + 1) as int == b as int + 1
  {
  }

  lemma {:induction false} ByteRoundTrip(y: int)
    requires 0 <= y < 256
    ensures (y as Byte) as int == y
    decreases y
  {
    if y > 0 {
      ByteRoundTrip(y - 1);
      var b := (y - 1) as Byte;
      NextByte(b);
      assert ((b + 1) as int) as Byte == b + 1;
    }
  }

  lemma Digits(u: int)
    requires 0 <= u < 0x1_0000_0000
    ensures 0 <= u % 256 < 256 && 0 <= u / 256 % 256 < 256 && 0 <= u / 65536 % 256 < 256 && 0 <= u / 16777216 < 256
    ensures u == u % 256 + 256 * (u / 256 % 256) + 65536 * (u / 65536 % 256) + 16777216 * (u / 16777216)
  {
    assert u / 65536 == u / 256 / 256 && u / 16777216 == u / 65536 / 256;
  }

  lemma IntRoundTrip(x: Int32)
    ensures DecodeInt(EncodeInt(x)) == x
  {
    var u := if x < 0 then x + 0x1_0000_0000 else x;
    var b0, b1, b2, b3 := u % 256, u / 256 % 256, u / 65536 % 256, u / 16777216;
    Digits(u);
    BytesRoundTrip(b0, b1, b2, b3);
    var e := EncodeInt(x);
    assert e[0] as int == b0 && e[1] as int == b1 && e[2] as int == b2 && e[3] as int == b3;
    assert e[0] as int + 256 * (e[1] as int) + 65536 * (e[2] as int) + 16777216 * (e[3] as int) == u;
  }

  lemma BytesRoundTrip(b0: int, b1: int, b2: int, b3: int)
    requires 0 <= b0 < 256 && 0 <= b1 < 256 && 0 <= b2 < 256 && 0 <= b3 < 256
    ensures (b0 as Byte) as int == b0 && (b1 as Byte) as int == b1
    ensures (b2 as Byte) as int == b2 && (b3 as Byte) as int == b3
  {
    ByteRoundTrip(b0);
    ByteRoundTrip(b1);
    ByteRoundTrip(b2);
    ByteRoundTrip(b3);
  }

  // ----- struct inode

  const UNUSED_T: Int32 := 0
  const FILE_T: Int32 := 1
  const DIRECTORY_T: Int32 := 2

  datatype InodeRecord = InodeRecord(kind: Int32, inum: Int32, size: Int32, numLinks: Int32, addrs: seq<Int32>)

  /** An inode with its NDIRECT direct pointers. */
  type Inode = i: InodeRecord | |i.addrs| == NDIRECT witness InodeRecord(0, 0, 0, 0, seq(NDIRECT, i => 0))

  function EncodeInts(xs: seq<Int32>): (r: seq<Byte>)
    ensures |r| == 4 * |xs|
    decreases xs
  {
    if xs == [] then [] else EncodeInt(xs[0]) + EncodeInts(xs[1..])
  }

  function DecodeInts(b: seq<Byte>, n: nat): (r: seq<Int32>)
    requires |b| == 4 * n
    ensures |r| == n
    decreases n
  {
    if n == 0 then [] else [DecodeInt(b[..4])] + DecodeInts(b[4..], n - 1)
  }

  lemma {:induction false} IntsRoundTrip(xs: seq<Int32>)
    ensures DecodeInts(EncodeInts(xs), |xs|) == xs
    decreases xs
  {
    if xs != [] {
      IntRoundTrip(xs[0]);
      IntsRoundTrip(xs[1..]);
      assert EncodeInts(xs)[..4] == EncodeInt(xs[0]) && EncodeInts(xs)[4..] == EncodeInts(xs[1..]);
    }
  }

  function EncodeInode(i: Inode): (r: seq<Byte>)
    ensures |r| == RECORD_SIZE
  {
    EncodeInts([i.kind, i.inum, i.size, i.numLinks] + i.addrs)
  }

  function DecodeInode(b: seq<Byte>): Inode
    requires |b| == RECORD_SIZE
  {
    var xs := DecodeInts(b, |b| / 4);
    InodeRecord(xs[0], xs[1], xs[2], xs[3], xs[4..])
  }

  lemma InodeRoundTrip(i: Inode)
    ensures DecodeInode(EncodeInode(i)) == i
  {
    var xs := [i.kind, i.inum, i.size, i.numLinks] + i.addrs;
    IntsRoundTrip(xs);
    assert |EncodeInode(i)| / 4 == |xs|;
    assert xs[4..] == i.addrs;
  }

  // ----- struct dirent

  /** A C string without its terminator. */
  type Name = seq<Byte>

  datatype Dirent = Dirent(valid: bool, name: Name, inum: Int32)

  /** A name that fits the name field with its terminator. */
  predicate Fits(name: Name) {
    |name| < MAX_FILENAME_LEN && forall i :: 0 <= i < |name| ==> name[i] != 0
  }

  /** The characters in front of the first terminator. */
  function CString(b: seq<Byte>): (r: Name)
    ensures |r| <= |b|
    decreases b
  {
    if b == [] || b[0] == 0 then [] else [b[0]] + CString(b[1..])
  }

  lemma {:induction false} CStringOf(name: Name, pad: seq<Byte>)
    requires forall i :: 0 <= i < |name| ==> name[i] != 0
    requires pad != [] && pad[0] == 0
    ensures CString(name + pad) == name
    decreases name
  {
    if name == [] {
      assert name + pad == pad;
    } else {
      assert (name + pad)[1..] == name[1..] + pad;
      CStringOf(name[1..], pad);
    }
  }

  function EncodeDirent(e: Dirent): (r: seq<Byte>)
    requires Fits(e.name)
    ensures |r| == RECORD_SIZE
  {
    [if e.valid then 1 else 0] + (e.name + Zeros(MAX_FILENAME_LEN - |e.name|)) + EncodeInt(e.inum)
  }

  function DecodeDirent(b: seq<Byte>): Dirent
    requires |b| == RECORD_SIZE
  {
    Dirent(b[0] != 0, CString(b[1..60]), DecodeInt(b[60..]))
  }

  lemma DirentRoundTrip(e: Dirent)
    requires Fits(e.name)
    ensures DecodeDirent(EncodeDirent(e)) == e
  {
    var name := e.name + Zeros(MAX_FILENAME_LEN - |e.name|);
    var b := EncodeDirent(e);
    IntRoundTrip(e.inum);
    CStringOf(e.name, Zeros(MAX_FILENAME_LEN - |e.name|));
    assert b[1..60] == name && b[60..] == EncodeInt(e.inum);
  }

  /** A wiped record holds no entry and no name. */
  lemma ZerosDecode()
    ensures DecodeDirent(Zeros(RECORD_SIZE)) == Dirent(false, [], 0)
  {
    var b := Zeros(RECORD_SIZE);
    assert b[1..60][0] == 0 && b[60..] == [0, 0, 0, 0];
  }
}
