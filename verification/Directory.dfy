/** src/fs/directory.c over the disk. */
module Directories {
  import opened Disks
  import opened Records
  import opened Layout
  import opened Inodes
  import opened FileSpec
  import opened Ownership
  import opened DirSpec
  import opened Files

  predicate IsDirectory(img: Image, inum: nat) {
    inum < NUM_INODES && InodeAt(img, inum).kind == DIRECTORY_T
  }

  /** A directory is a well-formed file of whole records. */
  ghost predicate DirFile(s: FileState) {
    FileOk(s) && s.ino.size % RECORD_SIZE == 0
  }

  ghost function EntriesIn(s: FileState): (r: seq<Dirent>)
    requires DirFile(s)
    ensures RECORD_SIZE * |r| == s.ino.size
  {
    Entries(Content(s))
  }

  ghost predicate DirOk(img: Image, i: nat)
    requires i < NUM_INODES
  {
    DirFile(FileOf(img, i))
  }

  ghost function EntriesOf(img: Image, i: nat): (r: seq<Dirent>)
    requires i < NUM_INODES && DirOk(img, i)
    ensures RECORD_SIZE * |r| == InodeAt(img, i).size
  {
    EntriesIn(FileOf(img, i))
  }

  /** The first steps of every operation: bounds, inode, type. */
  method OpenDirectory(d: Disk, inum: nat) returns (ok: bool, inode: Inode)
    requires d.Valid()
    ensures ok <==> IsDirectory(d.Image(), inum)
    ensures ok ==> inode == InodeAt(d.Image(), inum)
  {
    inode := InodeRecord(0, 0, 0, 0, seq(NDIRECT, i => 0));
    if inum >= NUM_INODES {
      return false, inode;
    }
    ok, inode := InodeRead(d, inum);
    if ok && inode.kind != DIRECTORY_T {
      ok := false;
    }
  }

  /** Reads record `j`; within the size this always succeeds. */
  method ReadEntry(d: Disk, inode: Inode, offset: nat, ghost j: nat, ghost es: seq<Dirent>) returns (ok: bool, e: Dirent)
    requires d.Valid() && DirFile(FileState(d.Image(), inode)) && es == EntriesIn(FileState(d.Image(), inode))
    requires offset == j * RECORD_SIZE && offset < inode.size
    ensures ok && j < |es| && e == es[j]
  {
    ghost var s := FileState(d.Image(), inode);
    assert offset + RECORD_SIZE <= inode.size;
    ReadWithinSize(s, offset, RECORD_SIZE);
    hide Raw, FileOk, DecodeDirent;
    var n, buf := FileRead(d, inode, offset, RECORD_SIZE);
    ok := n == RECORD_SIZE;
    e := DecodeDirent(buf);
  }

  /** The loop of dir_lookup. */
  method ScanForName(d: Disk, inode: Inode, name: Name, ghost es: seq<Dirent>) returns (r: int)
    requires d.Valid() && DirFile(FileState(d.Image(), inode)) && es == EntriesIn(FileState(d.Image(), inode))
    ensures r == Lookup(es, name)
  {
    ghost var j := 0;
    assert RECORD_SIZE * |es| == inode.size;
    hide DirFile, EntriesIn, Find;
    var offset := 0;
    while offset < inode.size
      invariant offset == j * RECORD_SIZE && j <= |es|
      invariant forall k :: 0 <= k < j ==> !Matches(es[k], name)
    {
      var ok, dirent := ReadEntry(d, inode, offset, j, es);
      if !ok {
        return -1;
      }
      if dirent.valid && dirent.name == name {
        FindFirst(es, name, j);
        return dirent.inum;
      }
      offset, j := offset + RECORD_SIZE, j + 1;
    }
    FindFirst(es, name, |es|);
    return -1;
  }

  /** dir_lookup: the inode number of the first valid entry of that name, or -1. */
  method DirLookup(d: Disk, inum: nat, name: Name) returns (r: int)
    requires d.Valid() && (IsDirectory(d.Image(), inum) ==> DirOk(d.Image(), inum))
    ensures r == if IsDirectory(d.Image(), inum) then Lookup(EntriesOf(d.Image(), inum), name) else -1
  {
    var ok, inode := OpenDirectory(d, inum);
    if !ok {
      return -1;
    }
    r := ScanForName(d, inode, name, EntriesOf(d.Image(), inum));
  }

  lemma {:induction false} FirstOtherIs(es: seq<Dirent>, j: nat)
    requires j <= |es| && forall k :: 0 <= k < j ==> !(es[k].valid && !IsDot(es[k].name))
    requires j < |es| ==> es[j].valid && !IsDot(es[j].name)
    ensures FirstOther(es) == j
    decreases j
  {
    if j > 0 { FirstOtherIs(es[1..], j - 1); }
  }

  /** The loop of dir_empty. */
  method ScanForOther(d: Disk, inode: Inode, ghost es: seq<Dirent>) returns (r: int)
    requires d.Valid() && DirFile(FileState(d.Image(), inode)) && es == EntriesIn(FileState(d.Image(), inode))
    ensures r == if FirstOther(es) == |es| then 1 else 0
  {
    ghost var j := 0;
    assert RECORD_SIZE * |es| == inode.size;
    hide DirFile, EntriesIn, FirstOther;
    var offset := 0;
    while offset < inode.size
      invariant offset == j * RECORD_SIZE && j <= |es|
      invariant forall k :: 0 <= k < j ==> !(es[k].valid && !IsDot(es[k].name))
    {
      var ok, dirent := ReadEntry(d, inode, offset, j, es);
      if !ok {
        return -1;
      }
      if dirent.valid && dirent.name != DOT && dirent.name != DOTDOT {
        FirstOtherIs(es, j);
        return 0;
      }
      offset, j := offset + RECORD_SIZE, j + 1;
    }
    FirstOtherIs(es, |es|);
    return 1;
  }

  /** dir_empty: 1 when only dot entries are left, 0 when not, -1 for no directory. */
  method DirEmpty(d: Disk, inum: nat) returns (r: int)
    requires d.Valid() && (IsDirectory(d.Image(), inum) ==> DirOk(d.Image(), inum))
    ensures !IsDirectory(d.Image(), inum) ==> r == -1
    ensures IsDirectory(d.Image(), inum) ==>
      r == if forall name :: name in DirMap(EntriesOf(d.Image(), inum)) ==> IsDot(name) then 1 else 0
  {
    var ok, inode := OpenDirectory(d, inum);
    if !ok {
      return -1;
    }
    EmptyIff(EntriesOf(d.Image(), inum));
    r := ScanForOther(d, inode, EntriesOf(d.Image(), inum));
  }

  /** `img` is the disk after writing `record` at `offset`, and `ok` says that it worked. */
  ghost predicate Wrote64(s: FileState, offset: nat, record: seq<Byte>, ok: bool, img: Image) {
    && |record| == RECORD_SIZE && offset <= MAX_FILE_SIZE
    && var (n, t) := FileSpec.FileWrite(s, offset, record);
       ok == (n == RECORD_SIZE) && img == t.img
  }

  /** The loop of dir_add: the offset of the first hole, or the end. */
  method ScanForHole(d: Disk, inode: Inode, ghost es: seq<Dirent>) returns (offset: nat)
    requires d.Valid() && DirFile(FileState(d.Image(), inode)) && es == EntriesIn(FileState(d.Image(), inode))
    ensures offset == FirstHole(es) * RECORD_SIZE
  {
    ghost var j := 0;
    assert RECORD_SIZE * |es| == inode.size;
    hide DirFile, EntriesIn, FirstHole;
    offset := 0;
    while offset < inode.size
      invariant offset == j * RECORD_SIZE && j <= |es|
      invariant forall k :: 0 <= k < j ==> es[k].valid
    {
      var ok, dirent := ReadEntry(d, inode, offset, j, es);
      if !dirent.valid {
        FirstHoleIs(es, j);
        return;
      }
      offset, j := offset + RECORD_SIZE, j + 1;
    }
    FirstHoleIs(es, |es|);
  }

  /** The bytes at the address of a pointer variable that is not NULL. */
  method AddressBytes() returns (bytes: seq<Byte>)
    ensures Stray(bytes)
  {
    bytes := AnyBytes(RECORD_SIZE);
    if bytes[..POINTER_SIZE] == Zeros(POINTER_SIZE) {
      SomeStray();
      bytes := NO_ENTRY;
    }
  }

  /** What dir_add of an entry may do to a disk. */
  ghost predicate Added(img: Image, inum: nat, e: Dirent, ok: bool, t: Image)
    requires Fits(e.name) && (IsDirectory(img, inum) ==> DirOk(img, inum))
  {
    if IsDirectory(img, inum) then AddedTo(FileOf(img, inum), EntriesOf(img, inum), e, ok, t) else !ok && t == img
  }

  /** The same for a directory whose entries are `es`. */
  ghost predicate AddedTo(s: FileState, es: seq<Dirent>, e: Dirent, ok: bool, t: Image)
    requires Fits(e.name)
  {
    var at := FirstHole(es) * RECORD_SIZE;
    if Lookup(es, e.name) != -1 then !ok && t == s.img
    else if FirstHole(es) == |es| then Wrote64(s, at, EncodeDirent(e), ok, t)
    else WroteStray(s, at, ok, t)
  }

  /** `img` is the disk after writing stray bytes at `offset`. */
  ghost predicate WroteStray(s: FileState, offset: nat, ok: bool, img: Image) {
    exists stray :: Stray(stray) && Wrote64(s, offset, stray, ok, img)
  }

  /** dir_add: refuses what is no directory and names that are there; otherwise it writes
      the entry behind the others, or stray bytes into the first hole. */
  method DirAdd(d: Disk, inum: nat, e: Dirent) returns (ok: bool)
    requires d.Valid() && Fits(e.name) && (IsDirectory(d.Image(), inum) ==> DirOk(d.Image(), inum))
    modifies d.bytes
    ensures Added(old(d.Image()), inum, e, ok, d.Image())
  {
    var inode;
    ok, inode := OpenDirectory(d, inum);
    if !ok {
      return;
    }
    var found := DirLookup(d, inum, e.name);
    if found != -1 {
      return false;
    }
    ghost var es := EntriesOf(d.Image(), inum);
    hide DirFile, EntriesIn, EncodeDirent, FileSpec.FileWrite, InodeAt;
    DirFileSize(FileState(d.Image(), inode));
    var offset := ScanForHole(d, inode, es);
    if offset < inode.size {
      // the code passes the address of its pointer variable
      var stray := AddressBytes();
      ok := WriteRecord(d, inode, offset, stray);
    } else {
      ok := WriteRecord(d, inode, offset, EncodeDirent(e));
    }
  }

  lemma DirFileSize(s: FileState)
    requires DirFile(s)
    ensures 0 <= s.ino.size <= MAX_FILE_SIZE && RECORD_SIZE * |EntriesIn(s)| == s.ino.size
  {
  }

  /** file_write of one record, checked the way every caller does. */
  method WriteRecord(d: Disk, inode: Inode, offset: nat, record: seq<Byte>) returns (ok: bool)
    requires d.Valid() && offset <= MAX_FILE_SIZE && |record| == RECORD_SIZE
    modifies d.bytes
    ensures Wrote64(FileState(old(d.Image()), inode), offset, record, ok, d.Image())
  {
    var n, out := Files.FileWrite(d, inode, record, offset);
    ok := n == RECORD_SIZE;
  }

  /** The loop of dir_remove: the offset of the first record of that name, valid or not. */
  method ScanForRecord(d: Disk, inode: Inode, name: Name, ghost es: seq<Dirent>) returns (offset: nat)
    requires d.Valid() && DirFile(FileState(d.Image(), inode)) && es == EntriesIn(FileState(d.Image(), inode))
    ensures offset == FindName(es, name) * RECORD_SIZE
  {
    ghost var j := 0;
    assert RECORD_SIZE * |es| == inode.size;
    hide DirFile, EntriesIn, FindName;
    offset := 0;
    while offset < inode.size
      invariant offset == j * RECORD_SIZE && j <= |es|
      invariant forall k :: 0 <= k < j ==> es[k].name != name
    {
      var ok, dirent := ReadEntry(d, inode, offset, j, es);
      if dirent.name == name {
        FindNameIs(es, name, j);
        return;
      }
      offset, j := offset + RECORD_SIZE, j + 1;
    }
    FindNameIs(es, name, |es|);
  }

  /** dir_remove: wipes the first record of that name; dot entries are protected. */
  method DirRemove(d: Disk, inum: nat, name: Name) returns (ok: bool)
    requires d.Valid() && (IsDirectory(d.Image(), inum) ==> DirOk(d.Image(), inum))
    modifies d.bytes
    ensures IsDot(name) || !IsDirectory(old(d.Image()), inum) ==> !ok && d.Image() == old(d.Image())
    ensures !IsDot(name) && IsDirectory(old(d.Image()), inum) ==>
      var es := EntriesOf(old(d.Image()), inum);
      if FindName(es, name) == |es| then !ok && d.Image() == old(d.Image())
      else Wrote64(FileOf(old(d.Image()), inum), FindName(es, name) * RECORD_SIZE, Zeros(RECORD_SIZE), ok, d.Image())
  {
    if name == DOT || name == DOTDOT {
      return false;
    }
    var inode;
    ok, inode := OpenDirectory(d, inum);
    if !ok {
      return;
    }
    ghost var es := EntriesOf(d.Image(), inum);
    hide DirFile, EntriesIn, FileSpec.FileWrite, InodeAt, FindName;
    DirFileSize(FileState(d.Image(), inode));
    var offset := ScanForRecord(d, inode, name, es);
    if offset == inode.size {
      return false;
    }
    ok := WriteRecord(d, inode, offset, Zeros(RECORD_SIZE));
  }
}
