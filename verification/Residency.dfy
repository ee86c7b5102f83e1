/** The bookkeeping of src/memory/memory.c on values: frame table, frame contents, page
    tables and order of use of one moment, and what keeps them consistent. */
module Residency {
  import Division
  import opened Recency
  import opened Jobs
  import opened Pcbs
  import opened FrameStores

  datatype Snapshot = Snapshot(
    order: seq<int>,                 // the frames, most recently used first
    table: seq<FrameTableEntry>,     // the frame table
    frames: seq<seq<Slot>>,          // what each frame holds
    tables: map<PCB, seq<int>>,      // the page table of every process ever loaded
    used: nat)                       // the number of frames that hold a page

  /** What a frame holds for a page of a file: its lines, then unused slots. */
  function PageSlots(file: seq<Line>, page: nat, size: nat): seq<Slot> {
    seq(size, i requires 0 <= i < size =>
      if page * size + i < |file| then Stored(file[page * size + i]) else Null)
  }

  /** The frame table says what a frame holds, and the page table points back at it. */
  ghost predicate EntryOk(s: Snapshot, f: nat, size: nat)
    requires f < |s.table| && f < |s.frames|
  {
    var e := s.table[f];
    if e.pcb == null then e.page == -1 && s.frames[f] == Blank(size)
    else
      && e.pcb in s.tables && 0 <= e.page < |s.tables[e.pcb]|
      && e.page * size < |e.pcb.fileContents|
      && s.tables[e.pcb][e.page] == f
      && s.frames[f] == PageSlots(e.pcb.fileContents, e.page, size)
  }

  /** Every page a process believes resident is in the frame it names. */
  ghost predicate PageTableOk(s: Snapshot, p: PCB, size: nat)
    requires 1 <= size && p in s.tables
  {
    var t := s.tables[p];
    && |p.fileContents| <= MAX_FILE_SIZE && |t| == TableSize(size)
    && forall g :: 0 <= g < |t| && t[g] != -1 ==> 0 <= t[g] < |s.table| && s.table[t[g]] == FrameTableEntry(g, p)
  }

  ghost predicate DistinctProcs(procs: set<PCB>) {
    forall p, q :: p in procs && q in procs && p.pid == q.pid ==> p == q
  }

  /** The order visits every frame once, and the frames that hold pages come first. */
  ghost predicate OrderOk(s: Snapshot) {
    && |s.order| == |s.table| && NoDup(s.order) && s.used <= |s.order|
    && (forall f :: f in s.order <==> 0 <= f < |s.table|)
    && (forall i :: 0 <= i < |s.order| ==> 0 <= s.order[i] < |s.table|)
    && (forall i :: 0 <= i < |s.order| ==> (s.table[s.order[i]].pcb != null <==> i < s.used))
  }

  ghost predicate Consistent(s: Snapshot, size: nat) {
    && 1 <= size && |s.frames| == |s.table|
    && OrderOk(s)
    && DistinctProcs(s.tables.Keys)
    && (forall f :: 0 <= f < |s.table| ==> EntryOk(s, f, size))
    && (forall p :: p in s.tables ==> PageTableOk(s, p, size))
  }

  /** The page in frame `f`. */
  ghost function PageIn(s: Snapshot, f: nat): PageId
    requires f < |s.table| && s.table[f].pcb != null
  {
    PageId(s.table[f].pcb.pid, if s.table[f].page < 0 then 0 else s.table[f].page)
  }

  /** The pages in the store, most recently used first. */
  ghost function Resident(s: Snapshot): (r: seq<PageId>)
    requires OrderOk(s)
    ensures |r| == s.used
  {
    seq(s.used, i requires 0 <= i < s.used => PageIn(s, s.order[i]))
  }

  /** A page is in the store exactly when its process's page table has a frame for it. */
  lemma ResidentIff(s: Snapshot, size: nat, p: PCB, page: nat)
    requires Consistent(s, size) && p in s.tables && page < |s.tables[p]|
    ensures s.tables[p][page] != -1 <==> PageId(p.pid, page) in Resident(s)
  {
    var f := s.tables[p][page];
    assert PageTableOk(s, p, size);
    if f != -1 {
      assert f in s.order;
      var i :| 0 <= i < |s.order| && s.order[i] == f;
      assert Resident(s)[i] == PageId(p.pid, page);
    }
    if PageId(p.pid, page) in Resident(s) {
      var i :| 0 <= i < s.used && Resident(s)[i] == PageId(p.pid, page);
      assert EntryOk(s, s.order[i], size);
    }
  }

  /** Frame table and page tables are inverse to each other: no page is in two frames. */
  lemma PageInOneFrame(s: Snapshot, size: nat, f: nat, g: nat)
    requires Consistent(s, size) && f < |s.table| && g < |s.table|
    requires s.table[f].pcb != null && s.table[g].pcb != null && PageIn(s, f) == PageIn(s, g)
    ensures f == g
  {
    assert EntryOk(s, f, size) && EntryOk(s, g, size);
  }

  lemma ResidentNoDup(s: Snapshot, size: nat)
    requires Consistent(s, size)
    ensures NoDup(Resident(s))
  {
    forall i, j | 0 <= i < j < s.used ensures Resident(s)[i] != Resident(s)[j] {
      if Resident(s)[i] == Resident(s)[j] {
        PageInOneFrame(s, size, s.order[i], s.order[j]);
      }
    }
  }

  /** A frame whose first slot is unused belongs to no page and is blank throughout. */
  lemma UnusedIffFree(s: Snapshot, size: nat, f: nat)
    requires Consistent(s, size) && f < |s.table|
    ensures |s.frames[f]| == size
    ensures s.frames[f][0] == Null <==> s.table[f].pcb == null
    ensures s.frames[f][0] == Null ==> s.frames[f] == Blank(size)
  {
    assert EntryOk(s, f, size);
  }

  /** Where a page of the store is listed. */
  lemma ResidentAt(s: Snapshot, size: nat, f: nat) returns (i: nat)
    requires Consistent(s, size) && f < |s.table| && s.table[f].pcb != null
    ensures i < s.used && s.order[i] == f && Resident(s)[i] == PageIn(s, f)
    ensures IndexOf(s.order, f) == i && IndexOf(Resident(s), PageIn(s, f)) == i
  {
    assert f in s.order;
    i :| 0 <= i < |s.order| && s.order[i] == f;
    IndexUnique(s.order, i);
    ResidentNoDup(s, size);
    IndexUnique(Resident(s), i);
  }

  // ----- Using a frame that holds a page

  function Access(s: Snapshot, f: int): Snapshot
    requires f in s.order
  {
    s.(order := MoveToFront(s.order, f))
  }

  lemma AccessOrder(s: Snapshot, f: nat, i: nat)
    requires OrderOk(s) && f in s.order && i == IndexOf(s.order, f)
    requires i < s.used
    ensures OrderOk(Access(s, f))
  {
    hide NoDup, IndexOf;
    var r := Access(s, f);
    PromoteKeeps(s.order, i);
    forall k | 0 <= k < |r.order| ensures r.table[r.order[k]].pcb != null <==> k < r.used {
      PromoteAt(s.order, i, k);
    }
  }

  lemma AccessOk(s: Snapshot, size: nat, f: nat)
    requires Consistent(s, size) && f < |s.table| && s.table[f].pcb != null
    ensures Consistent(Access(s, f), size)
    ensures PageIn(s, f) in Resident(s)
    ensures Resident(Access(s, f)) == MoveToFront(Resident(s), PageIn(s, f))
  {
    var r := Access(s, f);
    var i := ResidentAt(s, size, f);
    AccessOrder(s, f, i);
    forall g | 0 <= g < |r.table| ensures EntryOk(r, g, size) { assert EntryOk(s, g, size); }
    forall p | p in r.tables ensures PageTableOk(r, p, size) { assert PageTableOk(s, p, size); }
    forall k | 0 <= k < s.used ensures Resident(r)[k] == Promote(Resident(s), i)[k] {
      PromoteAt(s.order, i, k);
      PromoteAt(Resident(s), i, k);
    }
  }

  // ----- Loading a page into a free frame

  function Fill(s: Snapshot, size: nat, p: PCB, page: nat, f: nat): Snapshot
    requires f < |s.table| && f < |s.frames| && f in s.order && p in s.tables && page < |s.tables[p]|
  {
    Snapshot(MoveToFront(s.order, f),
             s.table[f := FrameTableEntry(page, p)],
             s.frames[f := PageSlots(p.fileContents, page, size)],
             s.tables[p := s.tables[p][page := f]],
             s.used + 1)
  }

  lemma FillOrder(s: Snapshot, size: nat, p: PCB, page: nat, f: nat)
    requires OrderOk(s) && f < |s.table| && f < |s.frames| && s.table[f].pcb == null
    requires p in s.tables && page < |s.tables[p]|
    ensures OrderOk(Fill(s, size, p, page, f))
    ensures var r := Fill(s, size, p, page, f); var i := IndexOf(s.order, f);
      s.used <= i && r.order[0] == f && forall k :: 1 <= k <= s.used ==> r.order[k] == s.order[k - 1]
  {
    hide PageSlots, NoDup, IndexOf;
    var r := Fill(s, size, p, page, f);
    var i := IndexOf(s.order, f);
    PromoteKeeps(s.order, i);
    forall k | 0 <= k < |r.order| ensures r.table[r.order[k]].pcb != null <==> k < r.used {
      PromoteAt(s.order, i, k);
      if k > 0 { assert r.order[k] != r.order[0]; }
    }
    forall k | 1 <= k <= s.used ensures r.order[k] == s.order[k - 1] { PromoteAt(s.order, i, k); }
  }

  lemma FillEntries(s: Snapshot, size: nat, p: PCB, page: nat, f: nat)
    requires Consistent(s, size) && f < |s.table| && s.table[f].pcb == null
    requires p in s.tables && page < |s.tables[p]| && s.tables[p][page] == -1
    requires page * size < |p.fileContents|
    ensures var r := Fill(s, size, p, page, f);
      && (forall g :: 0 <= g < |r.table| ==> EntryOk(r, g, size))
      && (forall q :: q in r.tables ==> PageTableOk(r, q, size))
  {
    var r := Fill(s, size, p, page, f);
    forall g | 0 <= g < |r.table| ensures EntryOk(r, g, size) {
      assert EntryOk(s, g, size);
    }
    forall q | q in r.tables ensures PageTableOk(r, q, size) {
      assert PageTableOk(s, q, size);
    }
  }

  lemma FillOk(s: Snapshot, size: nat, p: PCB, page: nat, f: nat)
    requires Consistent(s, size) && f < |s.table| && s.table[f].pcb == null
    requires p in s.tables && page < |s.tables[p]| && s.tables[p][page] == -1
    requires page * size < |p.fileContents|
    ensures var r := Fill(s, size, p, page, f);
      Consistent(r, size) && Resident(r) == [PageId(p.pid, page)] + Resident(s)
  {
    var r := Fill(s, size, p, page, f);
    FillOrder(s, size, p, page, f);
    FillEntries(s, size, p, page, f);
    assert r.tables.Keys == s.tables.Keys;
    forall k | 0 <= k < r.used ensures Resident(r)[k] == ([PageId(p.pid, page)] + Resident(s))[k] {
      if k > 0 { assert r.order[k] == s.order[k - 1] && s.order[k - 1] != f; }
    }
  }

  // ----- Freeing the least recently used frame

  function Evict(s: Snapshot, size: nat, f: nat): Snapshot
    requires f < |s.table| && f < |s.frames| && s.table[f].pcb != null && s.used > 0
    requires s.table[f].pcb in s.tables && 0 <= s.table[f].page < |s.tables[s.table[f].pcb]|
  {
    var e := s.table[f];
    Snapshot(s.order,
             s.table[f := FREE_ENTRY],
             s.frames[f := Blank(size)],
             s.tables[e.pcb := s.tables[e.pcb][e.page := -1]],
             s.used - 1)
  }

  /** The victim always belongs to a real page of a real process. */
  lemma VictimIsReal(s: Snapshot, size: nat)
    requires Consistent(s, size) && 0 < s.used
    ensures var f := s.order[s.used - 1]; var e := s.table[f];
      && e.pcb != null && e.pcb in s.tables && 0 <= e.page < |s.tables[e.pcb]|
      && e.page * size < |e.pcb.fileContents| && s.tables[e.pcb][e.page] == f
  {
    assert EntryOk(s, s.order[s.used - 1], size);
  }

  lemma EvictEntries(s: Snapshot, size: nat, f: nat)
    requires Consistent(s, size) && 0 < s.used && f < |s.table| && f == s.order[s.used - 1]
    requires s.table[f].pcb != null && s.table[f].pcb in s.tables
    requires 0 <= s.table[f].page < |s.tables[s.table[f].pcb]|
    ensures var r := Evict(s, size, f);
      && (forall g :: 0 <= g < |r.table| ==> EntryOk(r, g, size))
      && (forall q :: q in r.tables ==> PageTableOk(r, q, size))
  {
    var r := Evict(s, size, f);
    assert EntryOk(s, f, size);
    forall g | 0 <= g < |r.table| ensures EntryOk(r, g, size) {
      assert EntryOk(s, g, size);
    }
    forall q | q in r.tables ensures PageTableOk(r, q, size) {
      assert PageTableOk(s, q, size);
    }
  }

  lemma EvictOk(s: Snapshot, size: nat, f: nat)
    requires Consistent(s, size) && 0 < s.used && f < |s.table| && f == s.order[s.used - 1]
    requires s.table[f].pcb != null && s.table[f].pcb in s.tables
    requires 0 <= s.table[f].page < |s.tables[s.table[f].pcb]|
    ensures var r := Evict(s, size, f);
      Consistent(r, size) && Resident(r) == Resident(s)[..s.used - 1]
  {
    var r := Evict(s, size, f);
    EvictEntries(s, size, f);
    assert r.tables.Keys == s.tables.Keys;
    assert forall i :: 0 <= i < |s.order| && i != s.used - 1 ==> s.order[i] != f;
    assert OrderOk(r);
  }

  // ----- A new process

  function Adopt(s: Snapshot, p: PCB, size: nat): Snapshot
    requires 1 <= size
  {
    s.(tables := s.tables[p := seq(TableSize(size), i => -1)])
  }

  lemma AdoptOk(s: Snapshot, p: PCB, size: nat)
    requires Consistent(s, size) && p !in s.tables && |p.fileContents| <= MAX_FILE_SIZE
    requires forall q :: q in s.tables ==> q.pid != p.pid
    ensures Consistent(Adopt(s, p, size), size)
    ensures Resident(Adopt(s, p, size)) == Resident(s)
  {
    var r := Adopt(s, p, size);
    forall g | 0 <= g < |r.table| ensures EntryOk(r, g, size) {
      assert EntryOk(s, g, size);
    }
    forall q | q in r.tables ensures PageTableOk(r, q, size) {
      if q != p { assert PageTableOk(s, q, size); }
    }
    assert OrderOk(s);
  }

  /** A line of a file of at most MAX_FILE_SIZE lines lies on a page of the page table. */
  lemma PageInTable(line: nat, size: nat)
    requires 1 <= size && line < MAX_FILE_SIZE
    ensures line / size < TableSize(size) && line / size * size <= line
  {
    var k := (MAX_FILE_SIZE - 1) / size;
    Division.Monotonic(line, MAX_FILE_SIZE - 1, size);
    assert k * size <= MAX_FILE_SIZE - 1 < k * size + size;
    assert (k + 1) * size == k * size + size;
    Division.Unique(MAX_FILE_SIZE - 1 + size, size, k + 1);
  }

  /** What the processor finds at a line's place in its page's frame. */
  lemma LineInSlot(file: seq<Line>, line: nat, size: nat)
    requires 1 <= size && line < |file|
    ensures PageSlots(file, line / size, size)[line % size] == Stored(file[line])
  {
    assert line / size * size + line % size == line;
  }
}
