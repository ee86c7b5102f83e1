/** What dir_add and dir_remove do to the map that a directory stands for. */
module DirMaps {
  import opened Disks
  import opened Records
  import opened Layout
  import opened FileSpec
  import opened Ownership
  import opened DirSpec
  import opened Directories
  import opened Volumes
  import opened Trees
  import opened TreeVolumes

  /** A directory that fs_create could have made: well formed, its number in its inode. */
  ghost predicate DirectoryOk(img: Image, i: nat) {
    IsDirectory(img, i) && SlotOk(img, i) && DirOk(img, i)
  }

  lemma OverwriteRecord(content: seq<Byte>, j: nat, record: seq<Byte>)
    requires |content| % RECORD_SIZE == 0 && (j + 1) * RECORD_SIZE <= |content| && |record| == RECORD_SIZE
    ensures |Overwrite(content, j * RECORD_SIZE, record)| == |content|
    ensures Entries(Overwrite(content, j * RECORD_SIZE, record)) == Entries(content)[j := DecodeDirent(record)]
  {
    var at := j * RECORD_SIZE;
    var w := Overwrite(content, at, record);
    assert w == Splice(content, at, record);
    forall k | 0 <= k < |Entries(w)| ensures Entries(w)[k] == Entries(content)[j := DecodeDirent(record)][k] {
      var from := k * RECORD_SIZE;
      if k == j {
        SpliceSame(content, at, record);
      } else {
        SpliceOther(content, at, record, from, RECORD_SIZE);
      }
    }
  }

  /** A record of a directory can always be overwritten, full disk or not. */
  lemma OverwriteSucceeds(s: FileState, offset: nat, record: seq<Byte>)
    requires FileOk(s) && 0 <= s.ino.inum < NUM_INODES && |record| == RECORD_SIZE && offset + RECORD_SIZE <= s.ino.size
    ensures FileWrite(s, offset, record).0 == RECORD_SIZE
  {
    AcceptsBounds(s.ino.size, offset, RECORD_SIZE);
    WriteAllOk(s, BlocksFor(s.ino.size), offset, record);
  }

  /** dir_remove of a name that is there never fails, takes exactly that key away,
      and leaves a hole. */
  lemma RemoveDeletes(img: Image, i: nat, name: Name, ok: bool, t: Image)
    requires DirectoryOk(img, i) && Clean(EntriesOf(img, i)) && name in DirMap(EntriesOf(img, i)) && name != []
    requires Wrote64(FileOf(img, i), FindName(EntriesOf(img, i), name) * RECORD_SIZE, Zeros(RECORD_SIZE), ok, t)
    ensures ok && DirectoryOk(t, i) && Clean(EntriesOf(t, i))
    ensures DirMap(EntriesOf(t, i)) == DirMap(EntriesOf(img, i)) - {name}
    ensures FirstHole(EntriesOf(t, i)) < |EntriesOf(t, i)|
  {
    var es, j := EntriesOf(img, i), FindName(EntriesOf(img, i), name);
    RemoveFindsIff(es, name);
    WipeDeletes(es, name);
    WipeKeepsClean(es, j);
    WipeLeavesHole(es, name);
    ZerosDecode();
    RecordReplaced(img, i, j, Zeros(RECORD_SIZE), ok, t);
  }

  /** After a successful write the slot on disk is the file in memory. */
  lemma SlotWritten(img: Image, i: nat, offset: UInt, buf: seq<Byte>)
    requires i < NUM_INODES && SlotOk(img, i) && |buf| < UINT_RANGE && FileWrite(FileOf(img, i), offset, buf).0 != -1
    ensures var t := FileWrite(FileOf(img, i), offset, buf).1;
      && offset <= InodeAt(img, i).size && FileOf(t.img, i) == t && SlotOk(t.img, i) && t.ino.kind == InodeAt(img, i).kind
      && FileOk(t) && Content(t) == Overwrite(Content(FileOf(img, i)), offset, buf)
  {
    hide FileWrite, FileOk, Content, Overwrite, InodeAt;
    WriteSplices(FileOf(img, i), offset, buf);
  }

  lemma RecordReplaced(img: Image, i: nat, j: nat, record: seq<Byte>, ok: bool, t: Image)
    requires DirectoryOk(img, i) && j < |EntriesOf(img, i)| && Wrote64(FileOf(img, i), j * RECORD_SIZE, record, ok, t)
    ensures ok && DirectoryOk(t, i) && EntriesOf(t, i) == EntriesOf(img, i)[j := DecodeDirent(record)]
  {
    hide FileWrite, FileOk, Content, Overwrite, Entries, DecodeDirent, InodeAt, DirectoryOk, EntriesOf, SlotOk;
    OpenEnded(img, i);
    OverwriteSucceeds(FileOf(img, i), j * RECORD_SIZE, record);
    SlotWritten(img, i, j * RECORD_SIZE, record);
    OverwriteRecord(Content(FileOf(img, i)), j, record);
    DirectoryIs(t, i, Overwrite(Content(FileOf(img, i)), j * RECORD_SIZE, record));
  }

  /** dir_add into a directory without holes inserts a fresh key, or fails and leaves the
      whole disk as it was: an entry is one chunk. */
  lemma AddInserts(img: Image, i: nat, e: Dirent, ok: bool, t: Image)
    requires DirectoryOk(img, i) && FirstHole(EntriesOf(img, i)) == |EntriesOf(img, i)|
    requires Fits(e.name) && e.valid && Added(img, i, e, ok, t)
    requires forall k :: 0 <= k < |EntriesOf(img, i)| ==> EntriesOf(img, i)[k].inum != -1
    ensures if ok then
        && e.name !in DirMap(EntriesOf(img, i)) && DirectoryOk(t, i)
        && DirMap(EntriesOf(t, i)) == DirMap(EntriesOf(img, i))[e.name := e.inum]
        && (Clean(EntriesOf(img, i)) ==> Clean(EntriesOf(t, i)))
      else t == img
  {
    var es := EntriesOf(img, i);
    hide EntriesOf, FileWrite, FileOk, DirOk, IsDirectory, SlotOk, InodeAt, EncodeDirent, DirMap, Clean;
    if Lookup(es, e.name) == -1 {
      FreshName(es, e.name);
      AppendInserts(es, e);
      if Clean(es) { AppendKeepsClean(es, e); }
      RecordAppended(img, i, e, ok, t);
    }
  }

  lemma FreshName(es: seq<Dirent>, name: Name)
    requires Lookup(es, name) == -1 && forall k :: 0 <= k < |es| ==> es[k].inum != -1
    ensures name !in DirMap(es)
  {
    LookupIsMap(es, name);
  }

  lemma RecordAppended(img: Image, i: nat, e: Dirent, ok: bool, t: Image)
    requires DirectoryOk(img, i) && Fits(e.name)
    requires Wrote64(FileOf(img, i), |EntriesOf(img, i)| * RECORD_SIZE, EncodeDirent(e), ok, t)
    ensures if ok then DirectoryOk(t, i) && EntriesOf(t, i) == EntriesOf(img, i) + [e] else t == img
  {
    hide FileWrite, FileOk, Content, EntriesOf, Entries, EncodeDirent, InodeAt, DirOk;
    var size := InodeAt(img, i).size;
    if size + RECORD_SIZE <= MAX_FILE_SIZE {
      OpenEnded(img, i);
      RecordIsOneChunk(FileOf(img, i), EncodeDirent(e));
      if ok { EntryWritten(img, i, e); }
    } else {
      TooLong(FileOf(img, i), EncodeDirent(e));
    }
  }

  lemma OpenEnded(img: Image, i: nat)
    requires DirectoryOk(img, i)
    ensures i < NUM_INODES && DirFile(FileOf(img, i)) && InodeAt(img, i).inum == i
    ensures SlotOk(img, i) && FileOk(FileOf(img, i))
    ensures 0 <= InodeAt(img, i).size == |Content(FileOf(img, i))| <= MAX_FILE_SIZE && InodeAt(img, i).kind == DIRECTORY_T
    ensures |Content(FileOf(img, i))| % RECORD_SIZE == 0 && EntriesOf(img, i) == Entries(Content(FileOf(img, i)))
  {
    hide InodeAt, Content, PointersOk;
  }

  /** What makes a slot a directory. */
  lemma DirectoryIs(img: Image, i: nat, content: seq<Byte>)
    requires i < NUM_INODES && SlotOk(img, i) && InodeAt(img, i).kind == DIRECTORY_T
    requires FileOk(FileOf(img, i)) && content == Content(FileOf(img, i)) && |content| % RECORD_SIZE == 0
    ensures DirectoryOk(img, i) && EntriesOf(img, i) == Entries(content)
  {
    hide FileOk, Content;
  }

  lemma EntryWritten(img: Image, i: nat, e: Dirent)
    requires DirectoryOk(img, i) && Fits(e.name) && 0 <= InodeAt(img, i).size <= MAX_FILE_SIZE
    requires FileWrite(FileOf(img, i), InodeAt(img, i).size, EncodeDirent(e)).0 == RECORD_SIZE
    ensures var t := FileWrite(FileOf(img, i), InodeAt(img, i).size, EncodeDirent(e)).1.img;
      DirectoryOk(t, i) && EntriesOf(t, i) == EntriesOf(img, i) + [e]
  {
    hide FileWrite, FileOk, Content, Overwrite, Entries, EncodeDirent, DecodeDirent, InodeAt, DirectoryOk, EntriesOf, SlotOk;
    OpenEnded(img, i);
    SlotWritten(img, i, InodeAt(img, i).size, EncodeDirent(e));
    DirentRoundTrip(e);
    AppendRecord(Content(FileOf(img, i)), EncodeDirent(e));
    DirectoryIs(FileWrite(FileOf(img, i), InodeAt(img, i).size, EncodeDirent(e)).1.img, i,
                Overwrite(Content(FileOf(img, i)), InodeAt(img, i).size, EncodeDirent(e)));
  }

  lemma TooLong(s: FileState, buf: seq<Byte>)
    requires FileOk(s) && |buf| < UINT_RANGE && s.ino.size + |buf| > MAX_FILE_SIZE
    ensures FileWrite(s, s.ino.size, buf) == (-1, s)
  {
    AcceptsBounds(s.ino.size, s.ino.size, |buf|);
  }

  // ----- The directories of a tree

  /** The entries of a directory of a tree have different names, and all are valid. */
  lemma TreeDirectoryClean(tree: Tree, i: nat)
    requires TreeOk(tree) && i <= |tree| && IsDirNode(tree, i)
    ensures var es := SlotOf(tree, i).entries; Clean(es) && FirstHole(es) == |es|
  {
    var es, children := SlotOf(tree, i).entries, Children(tree, i);
    assert i > 0 ==> NodeOk(tree, i - 1);
    forall k | 0 <= k < |es| ensures es[k].valid && (k >= 2 ==> !IsDot(es[k].name)) {
      if k >= 2 { ChildIsNode(tree, i, k - 2); }
    }
    forall j, k | 0 <= j < k < |es| ensures es[j].name != es[k].name {
      if j >= 2 { ChildrenDiffer(tree, i, j - 2, k - 2); }
    }
    FirstHoleIs(es, |es|);
  }

  lemma {:induction false} ChildIsNode(tree: Tree, i: nat, k: nat)
    requires TreeOk(tree) && k < |Children(tree, i)|
    ensures var e := Children(tree, i)[k];
      && e.valid && 0 < e.inum <= |tree| && tree[e.inum - 1] == Dir(i, e.name) && !IsDot(e.name)
    decreases |tree|
  {
    var n := |tree| - 1;
    PrefixOk(tree, n);
    assert NodeOk(tree, n);
    if k < |Children(tree[..n], i)| { ChildIsNode(tree[..n], i, k); }
  }

  lemma {:induction false} ChildrenDiffer(tree: Tree, i: nat, j: nat, k: nat)
    requires TreeOk(tree) && j < k < |Children(tree, i)|
    ensures Children(tree, i)[j].name != Children(tree, i)[k].name
    decreases |tree|
  {
    var n := |tree| - 1;
    PrefixOk(tree, n);
    if k < |Children(tree[..n], i)| {
      ChildrenDiffer(tree[..n], i, j, k);
    } else {
      ChildIsNode(tree[..n], i, j);
      assert NodeOk(tree, n);
      assert tree[Children(tree[..n], i)[j].inum - 1] != tree[n];
    }
  }

  /** Every directory that fs_init and fs_create have made is one that dir_add and dir_remove
      take for a map, and has no hole. */
  lemma CreatedDirectoryOk(img: Image, tree: Tree, i: nat)
    requires ShowsTree(img, tree) && i <= |tree| && IsDirNode(tree, i)
    ensures DirectoryOk(img, i) && Clean(EntriesOf(img, i)) && FirstHole(EntriesOf(img, i)) == |EntriesOf(img, i)|
  {
    hide Holds, NodeOk, SlotOf, EntriesOf, DirOk, IsDirectory, SlotOk, Clean, FirstHole;
    SlotOnDisk(img, tree, i);
    TreeDirectoryClean(tree, i);
  }
}
